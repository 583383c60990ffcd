/** The steps of the protocol on the actual list of requests: adding, storing a reply, removing,
    and the polling loop, proved to do what the state machine's steps do. */
module RequestTable {
  import opened Common
  import opened UtilsList
  import opened SharedLists
  import opened Correlation
  import opened CorrelationLaws

  /** `msg_parse`; the payload is `None` while its buffer is empty. */
  class MsgParse {
    const requestId: uint32
    var payload: Option<Reply>

    /** `_msg_parse_str_init`. */
    constructor (requestId: uint32)
      ensures this.requestId == requestId && payload == None
    {
      this.requestId := requestId;
      payload := None;
    }
  }

  function SameId(): Matcher<MsgParse> {
    Some((a: MsgParse, b: MsgParse) => a.requestId == b.requestId)
  }

  /** `objs[c]` is the entry of call `c`, whether it is in the list or not. */
  ghost predicate Objects(objs: seq<MsgParse>, s: State)
    reads objs
  {
    && InRange(s) && |objs| == |s.calls| && Distinct(objs)
    && forall c :: 0 <= c < |objs| ==> objs[c].requestId == s.calls[c].id && objs[c].payload == s.calls[c].payload
  }

  /** The entries of the list are those of `s.pending`. */
  ghost predicate Represents(list: List<MsgParse>, objs: seq<MsgParse>, s: State)
    reads list, list.nodes, objs
  {
    && list.Valid() && list.matcher == SameId() && list.frees
    && Objects(objs, s) && Entries(list.nodes, objs, s.pending)
  }

  ghost predicate Entries(nodes: seq<ListNode<MsgParse>>, objs: seq<MsgParse>, pending: seq<nat>) {
    && |nodes| == |pending|
    && forall i :: 0 <= i < |pending| ==> pending[i] < |objs| && nodes[i].val == objs[pending[i]]
  }

  /** The list is searched by id as the state machine searches its list of ids. */
  lemma {:induction false} FirstEntry(list: List<MsgParse>, objs: seq<MsgParse>, s: State, m: MsgParse)
    requires Represents(list, objs, s)
    ensures FirstIndex(Vals(list.nodes), list.matcher, m) == FirstPending(s, m.requestId)
  {
    FindByKey(Vals(list.nodes), (a: MsgParse) => a.requestId, PendingIds(s), m);
    SameMatcher(Vals(list.nodes), m);
  }

  lemma {:induction false} SameMatcher(vals: seq<MsgParse>, m: MsgParse)
    ensures var f := (a: MsgParse) => a.requestId;
            FirstIndex(vals, SameId(), m) == FirstIndex(vals, Some((a: MsgParse, b: MsgParse) => f(a) == f(b)), m)
  {
    var f := (a: MsgParse) => a.requestId;
    var n: Matcher<MsgParse> := Some((a: MsgParse, b: MsgParse) => f(a) == f(b));
    var i, j := FirstIndex(vals, SameId(), m), FirstIndex(vals, n, m);
    forall v: MsgParse ensures MatchWith(SameId(), m, v) == MatchWith(n, m, v) {}
    assert i < |vals| ==> MatchWith(n, m, vals[i]);
    assert j < |vals| ==> MatchWith(SameId(), m, vals[j]);
  }

  /** Adding the entry of a new call. */
  method AddRequest(list: List<MsgParse>, requestId: uint32, ghost objs: seq<MsgParse>, ghost s: State,
                    ghost kind: Kind, ghost timeout: uint32)
    returns (m: MsgParse)
    requires Represents(list, objs, s)
    modifies list`head, list`tail, list`len, list`nodes, list.nodes
    ensures fresh(m) && Represents(list, objs + [m], Apply(s, Start(requestId, kind, timeout)))
  {
    m := new MsgParse(requestId);
    var status := AddToList(list, m);
    assert list.nodes[|list.nodes| - 1].val == Vals(list.nodes)[|list.nodes| - 1] == m;
  }

  /** The reply branch of `_on_broadcast_message`: look-up by a temporary entry, then the copy. */
  method StoreReply(list: List<MsgParse>, reply: Reply, ghost objs: seq<MsgParse>, ghost s: State)
    requires Represents(list, objs, s)
    modifies objs
    ensures Represents(list, objs, Apply(s, Arrive(reply)))
  {
    hide FirstPending, FirstIndex, MatchWith, Linked;
    var tmp := new MsgParse(reply.requestId);
    var node := FindInList(list, tmp);
    FirstEntry(list, objs, s, tmp);
    ghost var i := FirstPending(s, reply.requestId);
    if node != null {
      assert node.val == objs[s.pending[i]];
      hide Entries;
      node.val.payload := Some(reply);
    }
  }

  /** The removal at the end of a call; what is freed is the first entry with its id. */
  method RemoveRequest(list: List<MsgParse>, m: MsgParse, ghost objs: seq<MsgParse>, ghost s: State, ghost c: nat)
    returns (status: NatsStatus, freed: seq<MsgParse>)
    requires Represents(list, objs, s) && Enabled(s, Remove(c)) && objs[c] == m
    modifies list`head, list`tail, list`len, list`nodes, list.nodes
    ensures Represents(list, objs, Apply(s, Remove(c)))
    ensures var i := FirstPending(s, s.calls[c].id);
            if i < |s.pending| then status == NATS_OK && freed == [objs[s.pending[i]]]
            else status == NATS_ERR && freed == []
  {
    hide Objects, Entries, Apply, Enabled, FirstPending, RemoveFirst, FirstIndex, MatchWith;
    hide Without, Linked, Distinct, At;
    FirstEntry(list, objs, s, m);
    RemovedState(list.nodes, objs, s, c);
    status, freed := RemoveFromList(list, m);
  }

  /** The state machine's removal, seen by the list. */
  lemma {:induction false} RemovedState(nodes: seq<ListNode<MsgParse>>, objs: seq<MsgParse>, s: State, c: nat)
    requires Objects(objs, s) && Entries(nodes, objs, s.pending) && Enabled(s, Remove(c))
    ensures var t := Apply(s, Remove(c));
            var i := FirstPending(s, s.calls[c].id);
            && |nodes| == |s.pending| && i <= |nodes| && objs[c].requestId == s.calls[c].id
            && Objects(objs, t) && Entries(if i < |nodes| then Without(nodes, i) else nodes, objs, t.pending)
            && (i < |nodes| ==> Vals(nodes)[i] == objs[s.pending[i]])
  {
    hide FirstIndex, Without, Distinct, MatchWith;
  }

  /** The state machine's polling to its end, when the `k`-th look at the payload finds `look(k)`. */
  function PollLooks(call: Call, look: nat -> Option<Reply>, delivered: nat): Call
    requires call.phase.Polling? && call.phase.loop <= POLLS
    decreases POLLS - call.phase.loop
  {
    var after := PollCall(call.(payload := look(call.phase.loop)), delivered);
    if after.phase.Polling? then PollLooks(after, look, delivered) else after
  }

  /** Polling ends at the first look that finds a payload, or at the eleventh. */
  lemma {:induction false} PollLooksIs(call: Call, look: nat -> Option<Reply>, delivered: nat, last: nat)
    requires call.phase.Polling? && call.phase.loop <= last <= POLLS
    requires forall k :: call.phase.loop <= k < last ==> look(k) == None
    requires look(last) == None ==> last == POLLS
    ensures PollLooks(call, look, delivered) ==
              call.(phase := if look(last).Some? then Received else Fail(call, EDGE_INVALID_TIMEOUT),
                    payload := look(last),
                    slept := PollLooks(call, look, delivered).slept,
                    readAt := if look(last).Some? then call.readAt else delivered)
    ensures PollLooks(call, look, delivered).slept == call.slept + (last - call.phase.loop) * (call.timeout / 10)
    decreases last - call.phase.loop
  {
    if call.phase.loop < last {
      var after := PollCall(call.(payload := None), delivered);
      PollLooksIs(after, look, delivered, last);
      SleepStep(last - call.phase.loop - 1, call.timeout / 10);
    }
  }

  /** `_wait_payload_is_timeout`, where the `k`-th look at the payload finds `look(k)`: it ends as
      the polling of the state machine does, after `looks` sleeps. */
  method WaitPayload(look: nat -> Option<Reply>, timeOutMs: uint32, ghost call: Call, ghost delivered: nat)
    returns (status: Status, slept: nat, ghost looks: nat)
    requires call.phase == Polling(0) && call.timeout == timeOutMs && call.slept == 0
    ensures looks <= POLLS && (forall k :: 0 <= k < looks ==> look(k) == None)
    ensures status == if look(looks).Some? then EDGE_OK else EDGE_INVALID_TIMEOUT
    ensures status == EDGE_INVALID_TIMEOUT ==> looks == POLLS
    ensures slept == looks * (timeOutMs / 10) && slept <= timeOutMs && looks <= 10
    ensures status == EDGE_INVALID_TIMEOUT ==> timeOutMs - 10 < slept && looks == 10
    ensures var after := PollLooks(call, look, delivered);
            && slept == after.slept && after.kind == call.kind
            && after.phase == if status == EDGE_OK then Received else Fail(call, EDGE_INVALID_TIMEOUT)
  {
    hide PollLooks;
    var loop := 0;
    ghost var pause := timeOutMs / 10;
    assert POLLS * pause <= timeOutMs;
    slept := 0;
    while loop < POLLS && look(loop) == None
      invariant 0 <= loop <= POLLS && slept == loop * pause
      invariant forall k :: 0 <= k < loop ==> look(k) == None
    {
      SleepStep(loop, pause);
      slept := slept + timeOutMs / 10;
      loop := loop + 1;
    }
    SleepStep(loop, pause);
    looks := loop;
    PollLooksIs(call, look, delivered, looks);
    if loop >= POLLS && look(loop) == None {
      return EDGE_INVALID_TIMEOUT, slept, looks;
    }
    status := EDGE_OK;
  }

  /** A call of the state machine from publishing to its decision: the look at the payload finds
      `look(k)` at the `k`-th turn and `decisive` when it is parsed. */
  function CallAlone(call: Call, code: int, look: nat -> Option<Reply>, decisive: Option<Reply>, delivered: nat): Call {
    var p := PublishCall(call, code);
    if !p.phase.Polling? then p
    else
      var q := PollLooks(p, look, delivered);
      if q.phase == Received then DecideCall(q.(payload := decisive), delivered) else q
  }

  /** A call when its entry has just been added. */
  function JustAdded(id: uint32, kind: Kind, timeout: uint32, start: nat): Call {
    Call(id, kind, timeout, Added, None, start, 0, 0, None)
  }

  /** The control flow that the synchronous calls share, from the publish to the label at their end:
      the status they return, and whether they get to removing their entry.  A payload is never emptied again. */
  method SyncCall(kind: Kind, code: int, timeOutMs: uint32, look: nat -> Option<Reply>, decisive: Option<Reply>,
                  ghost call: Call, ghost delivered: nat)
    returns (status: Status, removes: bool)
    requires call == JustAdded(call.id, kind, timeOutMs, call.start)
    requires decisive == None ==> forall k :: 0 <= k <= POLLS ==> look(k) == None
    ensures CallAlone(call, code, look, decisive, delivered).phase ==
              if removes then Decided(status) else Returned(status, false)
    ensures removes <==> kind != GetTopo || status == EDGE_OK
  {
    hide PollLooks;
    removes := kind != GetTopo;
    if code != 0 {
      return PublishFailed(code), removes;
    }
    var slept: nat;
    ghost var looks: nat;
    status, slept, looks := WaitPayload(look, timeOutMs, PublishCall(call, code), delivered);
    if status == EDGE_INVALID_TIMEOUT {
      return;
    }
    removes := true;
    if kind == GetTopo {
      return;
    }
    if 0 == decisive.value.retCode {
      status := EDGE_OK;
      return;
    }
    status := if kind == DynamicAuth then EDGE_ERR else EDGE_PROTOCOL_ERROR;
  }
}
