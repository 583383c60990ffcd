/** What holds in every reachable state of the request/reply protocol: for any request ids, and
    more if no id is reused while its request is outstanding. */
module CorrelationLaws {
  import opened Common
  import opened Correlation

  // ------------------------------------------------------------------ runs

  ghost predicate Legal(s: State, steps: seq<Step>)
    decreases |steps|
  {
    InRange(s) && (steps != [] ==> Enabled(s, steps[0]) && Legal(Apply(s, steps[0]), steps[1..]))
  }

  ghost function Exec(s: State, steps: seq<Step>): State
    requires Legal(s, steps)
    decreases |steps|
  {
    if steps == [] then s else Exec(Apply(s, steps[0]), steps[1..])
  }

  /** One unfolding of a run. */
  lemma {:induction false} Follow(s: State, steps: seq<Step>)
    requires InRange(s) && steps != [] && Enabled(s, steps[0]) && Legal(Apply(s, steps[0]), steps[1..])
    ensures Legal(s, steps) && Exec(s, steps) == Exec(Apply(s, steps[0]), steps[1..])
  {
  }

  /** Every request id of the run is unused among the outstanding calls when it is taken. */
  ghost predicate FreshRun(s: State, steps: seq<Step>)
    requires Legal(s, steps)
    decreases |steps|
  {
    steps != [] ==> FreshId(s, steps[0]) && FreshRun(Apply(s, steps[0]), steps[1..])
  }

  // ------------------------------------------------- one call and the log

  /** The status a call has come to. */
  function Outcome(call: Call): Option<Status> {
    match call.phase
    case Decided(st) => Some(st)
    case Returned(st, _) => Some(st)
    case _ => None
  }

  /** The reply `r` with the given id was delivered after the first `start` replies and before
      the `upTo`-th. */
  ghost predicate Delivered(id: uint32, start: nat, log: seq<Reply>, upTo: nat, r: Reply) {
    r.requestId == id && exists j :: start <= j < upTo && j < |log| && log[j] == r
  }

  ghost predicate Justified(call: Call, log: seq<Reply>, st: Status) {
    if st == EDGE_INVALID_TIMEOUT then call.slept == POLLS * (call.timeout / 10)
    else
      !st.PublishFailed? ==>
        exists r :: Delivered(call.id, call.start, log, call.readAt, r) && st == StatusOf(call.kind, r.retCode)
  }

  /** `slept` is the time that `k` turns of polling sleep. */
  ghost predicate SleptTurns(slept: nat, timeout: uint32, k: nat) {
    k <= POLLS && slept == k * (timeout / 10)
  }

  /** How long a call has slept, by its phase. */
  ghost predicate SleptOk(call: Call) {
    && (exists k: nat :: SleptTurns(call.slept, call.timeout, k))
    && (call.phase.Polling? ==> SleptTurns(call.slept, call.timeout, call.phase.loop))
    && (call.phase == Added ==> call.slept == 0)
  }

  /** No call sleeps longer than its timeout. */
  lemma {:induction false} SleptWithin(call: Call)
    requires SleptOk(call)
    ensures call.slept <= POLLS * (call.timeout / 10) <= call.timeout
  {
    var k: nat :| SleptTurns(call.slept, call.timeout, k);
    SleepStep(k, call.timeout / 10);
  }

  /** A call is past publishing exactly if there is a status of the publish, and fails with that
      status exactly if it is not zero. */
  ghost predicate PublishedOk(call: Call) {
    && (call.phase == Added <==> call.published == None)
    && (call.phase.Polling? || call.phase == Received ==> call.published == Some(0))
    && (Outcome(call).Some? ==>
          if Outcome(call).value.PublishFailed? then
            Outcome(call).value.code != 0 && call.published == Some(Outcome(call).value.code) && call.slept == 0
          else call.published == Some(0))
  }

  ghost predicate CallOk(call: Call, log: seq<Reply>) {
    && call.start <= |log| && call.readAt <= |log|
    && SleptOk(call) && PublishedOk(call)
    && (call.payload.Some? ==> Delivered(call.id, call.start, log, |log|, call.payload.value))
    && (call.phase == Received ==> call.payload.Some?)
    && (Outcome(call).Some? ==> Justified(call, log, Outcome(call).value))
  }

  lemma {:induction false} CallOkGrows(call: Call, log: seq<Reply>, r: Reply)
    requires CallOk(call, log)
    ensures CallOk(call, log + [r])
  {
    forall x: Reply, n: nat | n <= |log| && Delivered(call.id, call.start, log, n, x)
      ensures Delivered(call.id, call.start, log + [r], n, x)
      ensures Delivered(call.id, call.start, log + [r], |log + [r]|, x)
    {
      var j :| call.start <= j < n && j < |log| && log[j] == x;
      assert (log + [r])[j] == x;
    }
  }

  lemma {:induction false} SleepStep(k: int, x: int)
    requires 0 <= x
    ensures (k + 1) * x == k * x + x
    ensures k <= POLLS ==> k * x <= POLLS * x
  {
    if k <= POLLS {
      assert (POLLS - k) * x >= 0;
    }
  }

  lemma {:induction false} PollOk(call: Call, log: seq<Reply>)
    requires CallOk(call, log) && call.phase.Polling?
    ensures CallOk(PollCall(call, |log|), log)
  {
    hide Delivered;
    var k := call.phase.loop;
    SleepStep(k, call.timeout / 10);
    assert k < POLLS ==> SleptTurns(call.slept + call.timeout / 10, call.timeout, k + 1);
  }

  lemma {:induction false} DecideOk(call: Call, log: seq<Reply>)
    requires CallOk(call, log) && call.phase == Received
    ensures CallOk(DecideCall(call, |log|), log)
  {
    hide SleptOk, Delivered;
    SleptAfterDecide(call, DecideCall(call, |log|));
  }

  lemma {:induction false} SleptAfterDecide(call: Call, after: Call)
    requires SleptOk(call) && after.slept == call.slept && after.timeout == call.timeout
    requires !after.phase.Polling? && after.phase != Added
    ensures SleptOk(after)
  {
  }

  // ---------------------------------------------- any request ids

  /** The ids of the calls past Add and not past Remove. */
  function OutstandingIds(calls: seq<Call>): multiset<uint32> {
    if calls == [] then multiset{}
    else
      var m := |calls| - 1;
      OutstandingIds(calls[..m]) + OwnId(calls[m])
  }

  function OwnId(call: Call): multiset<uint32> {
    if call.Outstanding() then multiset{call.id} else multiset{}
  }

  lemma {:induction false} OutstandingUpdate(calls: seq<Call>, c: nat, call: Call)
    requires c < |calls|
    ensures OutstandingIds(calls[c := call]) + OwnId(calls[c]) == OutstandingIds(calls) + OwnId(call)
    decreases |calls|
  {
    hide OwnId;
    var m, d := |calls| - 1, calls[c := call];
    if c < m {
      OutstandingUpdate(calls[..m], c, call);
      assert d[..m] == calls[..m][c := call] && d[m] == calls[m];
      Swap(OutstandingIds(d[..m]), OwnId(calls[m]), OwnId(calls[c]));
      Swap(OutstandingIds(calls[..m]), OwnId(calls[m]), OwnId(call));
    } else {
      assert d[..m] == calls[..m] && d[m] == call;
      Swap(OutstandingIds(calls[..m]), OwnId(calls[c]), OwnId(call));
    }
  }

  lemma {:induction false} Swap<T>(a: multiset<T>, x: multiset<T>, y: multiset<T>)
    ensures a + x + y == a + y + x
  {
  }

  lemma {:induction false} Cancel<T>(a: multiset<T>, b: multiset<T>, m: multiset<T>)
    requires a + m == b + m
    ensures a == b
  {
    assert a == (a + m) - m && b == (b + m) - m;
  }

  lemma {:induction false} OutstandingHasOwn(calls: seq<Call>, c: nat)
    requires c < |calls| && calls[c].Outstanding()
    ensures calls[c].id in OutstandingIds(calls)
    decreases |calls|
  {
    var m := |calls| - 1;
    if c < m {
      OutstandingHasOwn(calls[..m], c);
    }
  }

  /** The invariant for any request ids. */
  ghost predicate Inv(s: State) {
    && InRange(s) && Distinct(s.pending)
    && multiset(PendingIds(s)) == OutstandingIds(s.calls)
    && forall c :: 0 <= c < |s.calls| ==> CallOk(s.calls[c], s.log)
  }

  /** A step that changes one call but not its id, nor whether it is outstanding. */
  lemma {:induction false} UpdateKeepsInv(s: State, c: nat, call: Call)
    requires Inv(s) && c < |s.calls|
    requires call.id == s.calls[c].id && call.Outstanding() == s.calls[c].Outstanding() && CallOk(call, s.log)
    ensures Inv(s.(calls := s.calls[c := call]))
  {
    var t := s.(calls := s.calls[c := call]);
    OutstandingUpdate(s.calls, c, call);
    assert PendingIds(t) == PendingIds(s);
    assert OwnId(call) == OwnId(s.calls[c]);
    hide CallOk, OwnId, OutstandingIds;
    Cancel(OutstandingIds(t.calls), OutstandingIds(s.calls), OwnId(call));
  }

  lemma {:induction false} NewCallOk(call: Call, log: seq<Reply>)
    requires call == Call(call.id, call.kind, call.timeout, Added, None, |log|, 0, 0, None)
    ensures CallOk(call, log) && OwnId(call) == multiset{call.id}
  {
    assert SleptTurns(0, call.timeout, 0);
  }

  lemma {:induction false} OutstandingSnoc(calls: seq<Call>, call: Call)
    ensures OutstandingIds(calls + [call]) == OutstandingIds(calls) + OwnId(call)
  {
    hide OwnId;
    assert (calls + [call])[..|calls|] == calls;
  }

  /** The list after a start. */
  lemma {:induction false} StartedList(s: State, t: State, call: Call)
    requires InRange(s) && Distinct(s.pending)
    requires t.calls == s.calls + [call] && t.pending == s.pending + [|s.calls|]
    ensures InRange(t) && Distinct(t.pending) && PendingIds(t) == PendingIds(s) + [call.id]
  {
  }

  lemma {:induction false} StartKeepsInv(s: State, id: uint32, kind: Kind, timeout: uint32)
    requires Inv(s)
    ensures Inv(Apply(s, Start(id, kind, timeout)))
  {
    var t := Apply(s, Start(id, kind, timeout));
    var call := t.calls[|s.calls|];
    assert t.calls == s.calls + [call] && t.pending == s.pending + [|s.calls|];
    hide CallOk, OwnId, OutstandingIds, Distinct, PendingIds, InRange;
    StartedList(s, t, call);
    NewCallOk(call, s.log);
    OutstandingSnoc(s.calls, call);
    assert multiset(PendingIds(s) + [id]) == multiset(PendingIds(s)) + multiset{id};
  }

  /** Even when ids collide, a call that removes its entry finds an entry with its id. */
  lemma {:induction false} RemoveFinds(s: State, c: nat)
    requires Inv(s) && Enabled(s, Remove(c))
    ensures FirstPending(s, s.calls[c].id) < |s.pending|
  {
    hide CallOk;
    OutstandingHasOwn(s.calls, c);
    assert s.calls[c].id in PendingIds(s);
  }

  lemma {:induction false} ReturnedOk(call: Call, after: Call, log: seq<Reply>)
    requires CallOk(call, log) && call.phase.Decided? && after == call.(phase := Returned(call.phase.status, true))
    ensures CallOk(after, log) && OwnId(call) == multiset{call.id} && OwnId(after) == multiset{}
  {
  }

  lemma {:induction false} RemoveKeepsInv(s: State, c: nat)
    requires Inv(s) && Enabled(s, Remove(c))
    ensures Inv(Apply(s, Remove(c)))
  {
    hide CallOk, OwnId, OutstandingIds, Without;
    var call := s.calls[c];
    var after := call.(phase := Returned(call.phase.status, true));
    ReturnedOk(call, after, s.log);
    RemoveFinds(s, c);
    RemovedIds(s, FirstPending(s, call.id), c, after);
    OutstandingUpdate(s.calls, c, after);
    Cancel(OutstandingIds(s.calls[c := after]), multiset(PendingIds(Apply(s, Remove(c)))), multiset{call.id});
  }

  /** The ids in the list after a removal at position `i` and the return of call `c`. */
  lemma {:induction false} RemovedIds(s: State, i: nat, c: nat, after: Call)
    requires InRange(s) && i < |s.pending| && c < |s.calls| && after.id == s.calls[c].id
    ensures var t := s.(calls := s.calls[c := after], pending := Without(s.pending, i));
            && InRange(t)
            && multiset(PendingIds(s)) == multiset(PendingIds(t)) + multiset{PendingIds(s)[i]}
  {
    var t := s.(calls := s.calls[c := after], pending := Without(s.pending, i));
    assert PendingIds(t) == Without(PendingIds(s), i);
    hide Without;
    WithoutParts(PendingIds(s), i);
  }

  lemma {:induction false} LogKeepsInv(s: State, r: Reply)
    requires Inv(s)
    ensures Inv(s.(log := s.log + [r]))
  {
    hide CallOk, OutstandingIds;
    var t := s.(log := s.log + [r]);
    forall c | 0 <= c < |s.calls| ensures CallOk(t.calls[c], t.log) {
      CallOkGrows(s.calls[c], s.log, r);
    }
    assert PendingIds(t) == PendingIds(s);
  }

  lemma {:induction false} ArriveKeepsInv(s: State, r: Reply)
    requires Inv(s)
    ensures Inv(Apply(s, Arrive(r)))
  {
    hide CallOk, OutstandingIds;
    LogKeepsInv(s, r);
    var i := FirstPending(s, r.requestId);
    if i < |s.pending| {
      var c := s.pending[i];
      StoredOk(s.calls[c], s.log, r);
      UpdateKeepsInv(s.(log := s.log + [r]), c, s.calls[c].(payload := Some(r)));
    }
  }

  lemma {:induction false} StoredOk(call: Call, log: seq<Reply>, r: Reply)
    requires CallOk(call, log) && call.id == r.requestId
    ensures CallOk(call.(payload := Some(r)), log + [r])
  {
    CallOkGrows(call, log, r);
    assert (log + [r])[|log|] == r;
    assert Delivered(call.id, call.start, log + [r], |log + [r]|, r);
    hide Delivered;
  }

  /** Every step keeps the invariant, whatever the ids. */
  lemma {:induction false} StepKeepsInv(s: State, step: Step)
    requires Inv(s) && Enabled(s, step)
    ensures Inv(Apply(s, step))
  {
    match step
    case Start(id, kind, timeout) => StartKeepsInv(s, id, kind, timeout);
    case Publish(c, code) =>
      UpdateKeepsInv(s, c, PublishCall(s.calls[c], code));
    case Poll(c) =>
      PollOk(s.calls[c], s.log);
      UpdateKeepsInv(s, c, PollCall(s.calls[c], |s.log|));
    case Decide(c) =>
      DecideOk(s.calls[c], s.log);
      UpdateKeepsInv(s, c, DecideCall(s.calls[c], |s.log|));
    case Remove(c) => RemoveKeepsInv(s, c);
    case Arrive(r) => ArriveKeepsInv(s, r);
  }

  /** In every reachable state the ids in the list are exactly those of the calls past Add and not
      past Remove, also when ids collide. */
  lemma {:induction false} RunKeepsInv(s: State, steps: seq<Step>)
    requires Inv(s) && Legal(s, steps)
    ensures Inv(Exec(s, steps))
    decreases |steps|
  {
    hide Inv, Apply, Enabled;
    if steps != [] {
      StepKeepsInv(s, steps[0]);
      RunKeepsInv(Apply(s, steps[0]), steps[1..]);
    }
  }

  lemma {:induction false} InitInv()
    ensures Inv(INIT)
  {
  }

  lemma {:induction false} NoneOutstandingIff(calls: seq<Call>)
    ensures OutstandingIds(calls) == multiset{} <==> forall c :: 0 <= c < |calls| ==> !calls[c].Outstanding()
  {
    if calls != [] {
      var m := |calls| - 1;
      NoneOutstandingIff(calls[..m]);
      assert forall c :: 0 <= c < m ==> calls[..m][c] == calls[c];
      assert calls[m].Outstanding() ==> calls[m].id in OutstandingIds(calls);
    }
  }

  /** After any run: the multiset of ids, and an empty list exactly if every call has returned and
      every `edge_get_topo` among them succeeded. */
  lemma {:induction false} PendingAfterRun(steps: seq<Step>)
    requires Legal(INIT, steps)
    ensures var s := Exec(INIT, steps);
            && Inv(s)
            && multiset(PendingIds(s)) == OutstandingIds(s.calls)
            && (s.pending == [] <==> forall c :: 0 <= c < |s.calls| ==>
                  s.calls[c].phase.Returned? && (s.calls[c].kind == GetTopo ==> s.calls[c].phase.result == EDGE_OK))
  {
    InitInv();
    RunKeepsInv(INIT, steps);
    RunKeepsKinds(INIT, steps);
    var s := Exec(INIT, steps);
    hide Legal, Exec, CallOk, OutstandingIds;
    NoneOutstandingIff(s.calls);
    assert s.pending == [] <==> multiset(PendingIds(s)) == multiset{} by {
      if s.pending != [] { assert PendingIds(s)[0] in multiset(PendingIds(s)); }
    }
  }

  /** A reply to the call's id, delivered between the adding of its entry and its last look, had
      code zero, or another one. */
  ghost predicate Answered(call: Call, log: seq<Reply>, success: bool) {
    exists j :: call.start <= j < call.readAt && j < |log|
                && log[j].requestId == call.id && (log[j].retCode == 0 <==> success)
  }

  /** After any run, even if ids collide: a call other than `edge_get_topo` reports success only if a
      reply to its own id had code zero, and a refusal only if one had another code; dynamic
      registration reports a refusal as one status, the other calls as another. */
  lemma {:induction false} AnsweredAfterRun(steps: seq<Step>, c: nat)
    requires Legal(INIT, steps) && c < |Exec(INIT, steps).calls|
    requires Exec(INIT, steps).calls[c].kind != GetTopo && Outcome(Exec(INIT, steps).calls[c]).Some?
    ensures var s := Exec(INIT, steps);
            var call, st := s.calls[c], Outcome(s.calls[c]).value;
            && (st == EDGE_OK ==> Answered(call, s.log, true))
            && (st == EDGE_ERR || st == EDGE_PROTOCOL_ERROR ==>
                  Answered(call, s.log, false) && (st == EDGE_ERR <==> call.kind == DynamicAuth))
  {
    InitInv();
    RunKeepsInv(INIT, steps);
    var s := Exec(INIT, steps);
    var call, st := s.calls[c], Outcome(s.calls[c]).value;
    assert CallOk(call, s.log);
    hide Legal, Exec, Inv, SleptOk, PublishedOk;
    if st != EDGE_INVALID_TIMEOUT && !st.PublishFailed? {
      var r :| Delivered(call.id, call.start, s.log, call.readAt, r) && st == StatusOf(call.kind, r.retCode);
      var j :| call.start <= j < call.readAt && j < |s.log| && s.log[j] == r;
      assert s.log[j].requestId == call.id;
    }
  }

  /** A failed `edge_get_topo` returns without removing its entry, and every other call that has come
      to a status removes its entry before it returns. */
  ghost predicate KindOk(call: Call) {
    && (call.phase.Decided? ==> call.kind != GetTopo || call.phase.status == EDGE_OK)
    && (call.phase.Returned? ==> (call.phase.removed <==> call.kind != GetTopo || call.phase.result == EDGE_OK))
  }

  ghost predicate KindsOk(s: State) {
    forall c :: 0 <= c < |s.calls| ==> KindOk(s.calls[c])
  }

  /** After any run, a call that has come to a status has returned without removing its entry exactly
      if it is an `edge_get_topo` that failed. */
  lemma {:induction false} LeavesEntryIff(steps: seq<Step>, c: nat)
    requires Legal(INIT, steps) && c < |Exec(INIT, steps).calls| && Outcome(Exec(INIT, steps).calls[c]).Some?
    ensures var call := Exec(INIT, steps).calls[c];
            var st := Outcome(call).value;
            call.phase == Returned(st, false) <==> call.kind == GetTopo && st != EDGE_OK
  {
    RunKeepsKinds(INIT, steps);
    hide Legal, Exec;
    assert KindOk(Exec(INIT, steps).calls[c]);
  }

  lemma {:induction false} RunKeepsKinds(s: State, steps: seq<Step>)
    requires KindsOk(s) && Legal(s, steps)
    ensures KindsOk(Exec(s, steps))
    decreases |steps|
  {
    if steps != [] {
      StepKeepsKinds(s, steps[0]);
      hide KindsOk, Apply, Enabled;
      RunKeepsKinds(Apply(s, steps[0]), steps[1..]);
    }
  }

  lemma {:induction false} StepKeepsKinds(s: State, step: Step)
    requires KindsOk(s) && InRange(s) && Enabled(s, step)
    ensures KindsOk(Apply(s, step))
  {
  }
}
