/** Requests and their replies: any number of synchronous calls in flight, each with an entry in
    the list of pending requests, and a callback thread that stores replies in those entries.

    A state is changed by atomic steps in any interleaving.  The list operations are atomic under
    their mutex; the look-up of an entry and the copying of the reply into it are one step. */
module Correlation {
  import opened Common
  import opened UtilsList

  const POLLS := 10

  type uint32 = x: int | 0 <= x < 0x1_0000_0000

  datatype Kind = Login | Logout | AddTopo | DeleteTopo | DynamicAuth | GetTopo

  datatype Status = EDGE_OK | EDGE_ERR | EDGE_PROTOCOL_ERROR | EDGE_INVALID_TIMEOUT | PublishFailed(code: int)

  /** A parsed reply. */
  datatype Reply = Reply(requestId: uint32, retCode: int)

  /** Where a call stands between adding its entry and returning. */
  datatype Phase =
    | Added                                      // entry in the list, request not published
    | Polling(loop: nat)                         // about to look at the payload
    | Received                                   // the payload was seen nonempty
    | Decided(status: Status)                    // about to remove its entry
    | Returned(result: Status, removed: bool)

  /** A call and its entry.  `start`, `readAt`, `slept` and `published` record, for the statements
      below, the number of replies delivered before the entry was added and before the payload was
      last read, the time slept, and the status of the publish. */
  datatype Call = Call(id: uint32, kind: Kind, timeout: uint32, phase: Phase, payload: Option<Reply>,
                       start: nat, readAt: nat, slept: nat, published: Option<int>)
  {
    /** The call has added an entry and not removed one. */
    predicate Outstanding() {
      !(phase.Returned? && phase.removed)
    }
  }

  /** `pending` is the list of requests: the calls whose entries it holds, in list order;
      `log` are the replies delivered so far. */
  datatype State = State(calls: seq<Call>, pending: seq<nat>, log: seq<Reply>)

  const INIT := State([], [], [])

  datatype Step =
    | Start(id: uint32, kind: Kind, timeout: uint32)
    | Publish(c: nat, code: int)
    | Poll(c: nat)
    | Decide(c: nat)
    | Remove(c: nat)
    | Arrive(reply: Reply)

  predicate InRange(s: State) {
    forall i :: 0 <= i < |s.pending| ==> s.pending[i] < |s.calls|
  }

  /** The request ids in the list, in list order. */
  function PendingIds(s: State): (ids: seq<uint32>)
    requires InRange(s)
    ensures |ids| == |s.pending| && forall i :: 0 <= i < |ids| ==> ids[i] == s.calls[s.pending[i]].id
  {
    seq(|s.pending|, i requires 0 <= i < |s.pending| => s.calls[s.pending[i]].id)
  }

  /** The position of the first entry with the given id, or the length. */
  function FirstPending(s: State, id: uint32): nat
    requires InRange(s)
  {
    FirstIndex(PendingIds(s), None, id)
  }

  predicate Enabled(s: State, step: Step) {
    match step
    case Start(_, _, _) => true
    case Publish(c, _) => c < |s.calls| && s.calls[c].phase == Added
    case Poll(c) => c < |s.calls| && s.calls[c].phase.Polling?
    case Decide(c) => c < |s.calls| && s.calls[c].phase == Received
    case Remove(c) => c < |s.calls| && s.calls[c].phase.Decided?
    case Arrive(_) => true
  }

  /** A call that fails goes on to remove its entry; only `edge_get_topo` returns at once. */
  function Fail(call: Call, status: Status): Phase {
    if call.kind == GetTopo then Returned(status, false) else Decided(status)
  }

  function PublishCall(call: Call, code: int): Call {
    call.(phase := if code == 0 then Polling(0) else Fail(call, PublishFailed(code)), published := Some(code))
  }

  /** One turn of `_wait_payload_is_timeout`. */
  function PollCall(call: Call, delivered: nat): Call
    requires call.phase.Polling?
  {
    if call.payload.Some? then call.(phase := Received)
    else if call.phase.loop < POLLS then
      call.(phase := Polling(call.phase.loop + 1), slept := call.slept + call.timeout / 10)
    else call.(phase := Fail(call, EDGE_INVALID_TIMEOUT), readAt := delivered)
  }

  /** The status a call of this kind makes of the code of its reply. */
  function StatusOf(kind: Kind, retCode: int): (st: Status)
    ensures st == EDGE_OK <==> kind == GetTopo || retCode == 0
    ensures st.EDGE_OK? || st == EDGE_ERR || st == EDGE_PROTOCOL_ERROR
    ensures st == EDGE_ERR <==> kind == DynamicAuth && retCode != 0
  {
    if kind == GetTopo || retCode == 0 then EDGE_OK
    else if kind == DynamicAuth then EDGE_ERR
    else EDGE_PROTOCOL_ERROR
  }

  function DecideCall(call: Call, delivered: nat): Call {
    match call.payload
    case None => call.(phase := Fail(call, EDGE_ERR), readAt := delivered)
    case Some(r) => call.(phase := Decided(StatusOf(call.kind, r.retCode)), readAt := delivered)
  }

  function Apply(s: State, step: Step): State
    requires InRange(s) && Enabled(s, step)
  {
    match step
    case Start(id, kind, timeout) =>
      s.(calls := s.calls + [Call(id, kind, timeout, Added, None, |s.log|, 0, 0, None)],
         pending := s.pending + [|s.calls|])
    case Publish(c, code) =>
      s.(calls := s.calls[c := PublishCall(s.calls[c], code)])
    case Poll(c) =>
      s.(calls := s.calls[c := PollCall(s.calls[c], |s.log|)])
    case Decide(c) =>
      s.(calls := s.calls[c := DecideCall(s.calls[c], |s.log|)])
    case Remove(c) =>
      var call := s.calls[c];
      var i := FirstPending(s, call.id);
      s.(calls := s.calls[c := call.(phase := Returned(call.phase.status, true))],
         pending := if i < |s.pending| then Without(s.pending, i) else s.pending)
    case Arrive(reply) =>
      var i := FirstPending(s, reply.requestId);
      var t := s.(log := s.log + [reply]);
      if i < |s.pending| then
        var c := s.pending[i];
        t.(calls := s.calls[c := s.calls[c].(payload := Some(reply))])
      else t
  }

  /** The step uses a request id no outstanding call has. */
  predicate FreshId(s: State, step: Step) {
    step.Start? ==> forall c :: 0 <= c < |s.calls| && s.calls[c].Outstanding() ==> s.calls[c].id != step.id
  }
}
