/** What holds when no request id is reused while its request is outstanding: the list is the
    sequence of outstanding calls, and what each call returns is a function of the replies
    delivered to its id. */
module CorrelationFresh {
  import opened Common
  import opened Correlation
  import opened CorrelationLaws

  /** The last reply with the given id among those from the `start`-th on. */
  function LastFor(log: seq<Reply>, start: nat, id: uint32): Option<Reply> {
    if |log| <= start then None
    else
      var m := |log| - 1;
      if log[m].requestId == id then Some(log[m]) else LastFor(log[..m], start, id)
  }

  /** The entry holds the last reply, and the outcome is what that reply, or its absence, demands. */
  ghost predicate Exact(call: Call, log: seq<Reply>) {
    && call.start <= |log| && call.readAt <= |log|
    && (call.Outstanding() ==> call.payload == LastFor(log, call.start, call.id))
    && (Outcome(call).Some? ==> ExactOutcome(call, log, Outcome(call).value))
  }

  ghost predicate ExactOutcome(call: Call, log: seq<Reply>, st: Status)
    requires call.readAt <= |log|
  {
    var last := LastFor(log[..call.readAt], call.start, call.id);
    st.PublishFailed? ||
    (if st == EDGE_INVALID_TIMEOUT then last == None else last.Some? && st == StatusOf(call.kind, last.value.retCode))
  }

  /** The list holds exactly the outstanding calls, in the order in which they were started, and
      their ids differ. */
  ghost predicate Ordered(s: State) {
    && InRange(s)
    && (forall i, j :: 0 <= i < j < |s.pending| ==> s.pending[i] < s.pending[j])
    && (forall c :: 0 <= c < |s.calls| ==> (c in s.pending <==> s.calls[c].Outstanding()))
    && (forall c, d :: 0 <= c < d < |s.calls| && s.calls[c].Outstanding() && s.calls[d].Outstanding() ==>
          s.calls[c].id != s.calls[d].id)
  }

  ghost predicate FreshInv(s: State) {
    && Inv(s) && Ordered(s)
    && forall c :: 0 <= c < |s.calls| ==> Exact(s.calls[c], s.log)
  }

  /** The first entry with the id of an outstanding call is its own. */
  lemma {:induction false} FirstIsOwn(s: State, c: nat)
    requires Ordered(s) && c < |s.calls| && s.calls[c].Outstanding()
    ensures FirstPending(s, s.calls[c].id) < |s.pending| && s.pending[FirstPending(s, s.calls[c].id)] == c
  {
    assert c in s.pending;
    var k :| 0 <= k < |s.pending| && s.pending[k] == c;
    assert PendingIds(s)[k] == s.calls[c].id;
    var i := FirstPending(s, s.calls[c].id);
    assert s.pending[i] in s.pending;
  }

  lemma {:induction false} UpdateKeepsOrdered(s: State, c: nat, call: Call)
    requires Ordered(s) && c < |s.calls|
    requires call.id == s.calls[c].id && call.Outstanding() == s.calls[c].Outstanding()
    ensures Ordered(s.(calls := s.calls[c := call]))
  {
  }

  lemma {:induction false} StartKeepsOrdered(s: State, id: uint32, kind: Kind, timeout: uint32)
    requires Ordered(s) && FreshId(s, Start(id, kind, timeout))
    ensures Ordered(Apply(s, Start(id, kind, timeout)))
  {
    var t := Apply(s, Start(id, kind, timeout));
    forall c | 0 <= c < |t.calls| ensures c in t.pending <==> t.calls[c].Outstanding() {
      assert c in t.pending <==> c in s.pending || c == |s.calls|;
    }
  }

  lemma {:induction false} WithoutKeepsIncreasing(p: seq<nat>, i: nat)
    requires i < |p| && forall j, k :: 0 <= j < k < |p| ==> p[j] < p[k]
    ensures var t := Without(p, i);
            && (forall j, k :: 0 <= j < k < |t| ==> t[j] < t[k])
            && (forall x :: x in t <==> x in p && x != p[i])
  {
    var t := Without(p, i);
    forall x | x in p && x != p[i] ensures x in t {
      var k :| 0 <= k < |p| && p[k] == x;
      assert t[if k < i then k else k - 1] == x;
    }
  }

  lemma {:induction false} RemoveKeepsOrdered(s: State, c: nat)
    requires Ordered(s) && Enabled(s, Remove(c))
    ensures Ordered(Apply(s, Remove(c)))
  {
    FirstIsOwn(s, c);
    hide FirstPending, Without;
    WithoutKeepsIncreasing(s.pending, FirstPending(s, s.calls[c].id));
    var t := Apply(s, Remove(c));
    assert forall i :: 0 <= i < |t.pending| ==> t.pending[i] in t.pending;
  }

  lemma {:induction false} StepKeepsOrdered(s: State, step: Step)
    requires Ordered(s) && Enabled(s, step) && FreshId(s, step)
    ensures Ordered(Apply(s, step))
  {
    match step
    case Start(id, kind, timeout) => StartKeepsOrdered(s, id, kind, timeout);
    case Publish(c, code) =>
      UpdateKeepsOrdered(s, c, Apply(s, step).calls[c]);
    case Poll(c) =>
      UpdateKeepsOrdered(s, c, Apply(s, step).calls[c]);
    case Decide(c) =>
      UpdateKeepsOrdered(s, c, Apply(s, step).calls[c]);
    case Remove(c) => RemoveKeepsOrdered(s, c);
    case Arrive(r) =>
      var i := FirstPending(s, r.requestId);
      if i < |s.pending| {
        UpdateKeepsOrdered(s.(log := s.log + [r]), s.pending[i], s.calls[s.pending[i]].(payload := Some(r)));
      }
  }

  // ------------------------------------------------ what entries hold

  lemma {:induction false} LastForSnoc(log: seq<Reply>, start: nat, id: uint32, r: Reply)
    requires start <= |log|
    ensures LastFor(log + [r], start, id) == if r.requestId == id then Some(r) else LastFor(log, start, id)
  {
    assert (log + [r])[..|log|] == log;
  }

  /** A reply for another id, or to a call that is not outstanding, leaves the call exact. */
  lemma {:induction false} ExactGrows(call: Call, log: seq<Reply>, r: Reply)
    requires Exact(call, log) && (call.Outstanding() ==> call.id != r.requestId)
    ensures Exact(call, log + [r])
  {
    LastForSnoc(log, call.start, call.id, r);
    assert (log + [r])[..call.readAt] == log[..call.readAt];
    hide LastFor;
  }

  /** The call's own reply, stored in its entry, leaves it exact. */
  lemma {:induction false} ExactStored(call: Call, log: seq<Reply>, r: Reply)
    requires Exact(call, log) && call.id == r.requestId
    ensures Exact(call.(payload := Some(r)), log + [r])
  {
    LastForSnoc(log, call.start, call.id, r);
    assert (log + [r])[..call.readAt] == log[..call.readAt];
    hide LastFor;
  }

  lemma {:induction false} ExactPoll(call: Call, log: seq<Reply>)
    requires Exact(call, log) && call.phase.Polling?
    ensures Exact(PollCall(call, |log|), log)
  {
    hide LastFor;
    assert log[..|log|] == log;
  }

  lemma {:induction false} ExactDecide(call: Call, log: seq<Reply>)
    requires Exact(call, log) && CallOk(call, log) && call.phase == Received
    ensures Exact(DecideCall(call, |log|), log)
  {
    hide LastFor;
    assert log[..|log|] == log;
  }

  lemma {:induction false} ExactStart(call: Call, log: seq<Reply>)
    requires call.phase == Added && call.payload == None && call.start == |log| && call.readAt == 0
    ensures Exact(call, log)
  {
  }

  ghost predicate AllExact(calls: seq<Call>, log: seq<Reply>) {
    forall c :: 0 <= c < |calls| ==> Exact(calls[c], log)
  }

  lemma {:induction false} ArriveKeepsExact(s: State, r: Reply)
    requires FreshInv(s)
    ensures AllExact(Apply(s, Arrive(r)).calls, s.log + [r])
  {
    var t := Apply(s, Arrive(r));
    var i := FirstPending(s, r.requestId);
    hide Inv;
    forall c | 0 <= c < |s.calls| ensures Exact(t.calls[c], s.log + [r]) {
      if s.calls[c].Outstanding() && s.calls[c].id == r.requestId {
        FirstIsOwn(s, c);
        ExactStored(s.calls[c], s.log, r);
      } else {
        ExactGrows(s.calls[c], s.log, r);
        assert i < |s.pending| ==> s.pending[i] in s.pending && s.calls[s.pending[i]].id == r.requestId;
      }
    }
  }

  lemma {:induction false} UpdateKeepsExact(s: State, c: nat, call: Call)
    requires AllExact(s.calls, s.log) && c < |s.calls| && Exact(call, s.log)
    ensures AllExact(s.calls[c := call], s.log)
  {
    hide Exact;
  }

  lemma {:induction false} ExactPublish(call: Call, code: int, log: seq<Reply>)
    requires Exact(call, log) && call.phase == Added
    ensures Exact(PublishCall(call, code), log)
  {
    hide LastFor;
  }

  lemma {:induction false} ExactReturn(call: Call, log: seq<Reply>)
    requires Exact(call, log) && call.phase.Decided?
    ensures Exact(call.(phase := Returned(call.phase.status, true)), log)
  {
    hide LastFor;
  }

  lemma {:induction false} StepKeepsExact(s: State, step: Step)
    requires FreshInv(s) && Enabled(s, step)
    ensures var t := Apply(s, step); AllExact(t.calls, t.log)
  {
    hide Exact, CallOk, Ordered, OutstandingIds, FirstPending, PublishCall, PollCall, DecideCall;
    var t := Apply(s, step);
    match step
    case Start(id, kind, timeout) =>
      ExactStart(t.calls[|s.calls|], s.log);
    case Publish(c, code) =>
      ExactPublish(s.calls[c], code, s.log);
      UpdateKeepsExact(s, c, t.calls[c]);
    case Poll(c) =>
      ExactPoll(s.calls[c], s.log);
      UpdateKeepsExact(s, c, t.calls[c]);
    case Decide(c) =>
      ExactDecide(s.calls[c], s.log);
      UpdateKeepsExact(s, c, t.calls[c]);
    case Remove(c) =>
      ExactReturn(s.calls[c], s.log);
      UpdateKeepsExact(s, c, t.calls[c]);
    case Arrive(r) => ArriveKeepsExact(s, r);
  }

  lemma {:induction false} StepKeepsFreshInv(s: State, step: Step)
    requires FreshInv(s) && Enabled(s, step) && FreshId(s, step)
    ensures FreshInv(Apply(s, step))
  {
    StepKeepsInv(s, step);
    StepKeepsOrdered(s, step);
    StepKeepsExact(s, step);
    hide Inv, Ordered, Exact, Apply, Enabled;
  }

  lemma {:induction false} RunKeepsFreshInv(s: State, steps: seq<Step>)
    requires FreshInv(s) && Legal(s, steps) && FreshRun(s, steps)
    ensures FreshInv(Exec(s, steps))
    decreases |steps|
  {
    hide FreshInv, Apply, Enabled, FreshId;
    if steps != [] {
      StepKeepsFreshInv(s, steps[0]);
      RunKeepsFreshInv(Apply(s, steps[0]), steps[1..]);
    }
  }

  // --------------------------------------------------------- conclusions

  /** `LastFor` is the last reply of that id at or behind `start`. */
  lemma {:induction false} LastForIs(log: seq<Reply>, start: nat, id: uint32)
    ensures var last := LastFor(log, start, id);
            if last == None then forall j :: start <= j < |log| ==> log[j].requestId != id
            else exists j :: start <= j < |log| && log[j] == last.value && log[j].requestId == id
                             && forall k :: j < k < |log| ==> log[k].requestId != id
    decreases |log|
  {
    if |log| > start {
      var m := |log| - 1;
      LastForIs(log[..m], start, id);
      if log[m].requestId == id {
        assert log[m] == LastFor(log, start, id).value;
      } else {
        var last := LastFor(log[..m], start, id);
        if last.Some? {
          var j :| start <= j < m && log[..m][j] == last.value && log[..m][j].requestId == id
                   && forall k :: j < k < m ==> log[..m][k].requestId != id;
          assert log[j] == last.value;
          forall k | j < k < |log| ensures log[k].requestId != id {
            if k < m { assert log[..m][k].requestId != id; }
          }
        } else {
          forall j | start <= j < |log| ensures log[j].requestId != id {
            if j < m { assert log[..m][j].requestId != id; }
          }
        }
      }
    }
  }

  lemma {:induction false} InitFreshInv()
    ensures FreshInv(INIT)
  {
    InitInv();
  }

  /** What a call that has come to a status owes it to. */
  ghost predicate Explained(call: Call, log: seq<Reply>, st: Status) {
    && call.readAt <= |log| && call.slept <= call.timeout
    && call.published == Some(if st.PublishFailed? then st.code else 0) && (st.PublishFailed? ==> st.code != 0)
    && (st == EDGE_INVALID_TIMEOUT ==>
          && call.timeout - 10 < call.slept == POLLS * (call.timeout / 10)
          && forall j :: call.start <= j < call.readAt ==> log[j].requestId != call.id)
    && (st != EDGE_INVALID_TIMEOUT && !st.PublishFailed? ==>
          exists j :: call.start <= j < call.readAt && log[j].requestId == call.id
                      && st == StatusOf(call.kind, log[j].retCode)
                      && forall k :: j < k < call.readAt ==> log[k].requestId != call.id)
  }

  lemma {:induction false} ExactExplains(call: Call, log: seq<Reply>)
    requires Exact(call, log) && CallOk(call, log) && Outcome(call).Some?
    ensures Explained(call, log, Outcome(call).value)
  {
    hide LastFor, Delivered, StatusOf, SleptOk;
    SleptWithin(call);
    var l := log[..call.readAt];
    LastForIs(l, call.start, call.id);
    var st := Outcome(call).value;
    if st != EDGE_INVALID_TIMEOUT && !st.PublishFailed? {
      var j :| call.start <= j < |l| && l[j] == LastFor(l, call.start, call.id).value && l[j].requestId == call.id
               && forall k :: j < k < |l| ==> l[k].requestId != call.id;
      assert log[j] == l[j];
      forall k | j < k < call.readAt ensures log[k].requestId != call.id {
        assert l[k].requestId != call.id;
      }
    } else if st == EDGE_INVALID_TIMEOUT {
      forall j | call.start <= j < call.readAt ensures log[j].requestId != call.id {
        assert l[j].requestId != call.id;
      }
    }
  }

  /** After any run without reuse of outstanding ids: the list is the sequence of outstanding
      calls, and each status that a call has come to is explained by the last reply to its own id,
      or by the absence of any while it slept ten times a tenth of its timeout. */
  lemma {:induction false} OutcomesAfterRun(steps: seq<Step>, c: nat)
    requires Legal(INIT, steps) && FreshRun(INIT, steps)
    requires c < |Exec(INIT, steps).calls|
    ensures var s := Exec(INIT, steps);
            && Ordered(s)
            && (Outcome(s.calls[c]).Some? ==> Explained(s.calls[c], s.log, Outcome(s.calls[c]).value))
  {
    InitFreshInv();
    RunKeepsFreshInv(INIT, steps);
    var s := Exec(INIT, steps);
    hide Legal, FreshRun, Exec, Exact, CallOk, Explained, Ordered;
    if Outcome(s.calls[c]).Some? {
      ExactExplains(s.calls[c], s.log);
    }
  }

  /** A reply changes the entry of the outstanding call with its id and nothing else; a late reply,
      for which there is none, changes nothing. */
  lemma {:induction false} ReplyTouchesOnlyItsCall(s: State, r: Reply)
    requires FreshInv(s)
    ensures var t := Apply(s, Arrive(r));
            && t.pending == s.pending && |t.calls| == |s.calls|
            && (forall c :: 0 <= c < |s.calls| ==>
                  t.calls[c] == if s.calls[c].Outstanding() && s.calls[c].id == r.requestId
                                then s.calls[c].(payload := Some(r)) else s.calls[c])
  {
    hide Inv, Exact;
    var t := Apply(s, Arrive(r));
    var i := FirstPending(s, r.requestId);
    forall c | 0 <= c < |s.calls|
      ensures t.calls[c] == if s.calls[c].Outstanding() && s.calls[c].id == r.requestId
                            then s.calls[c].(payload := Some(r)) else s.calls[c]
    {
      if s.calls[c].Outstanding() && s.calls[c].id == r.requestId {
        FirstIsOwn(s, c);
      } else {
        assert i < |s.pending| ==> s.pending[i] in s.pending;
      }
    }
  }
}
