/** What becomes of replies and removals whatever the request ids are: exactly when a reply reaches
    an outstanding call, exactly when a call removes its own entry, and that every reply of a run is
    sure to reach its call exactly if no id is taken that an outstanding call has. */
module CorrelationCollisions {
  import opened Common
  import opened UtilsList
  import opened Correlation
  import opened CorrelationLaws
  import opened CorrelationFresh

  /** The call's entry is in the list, with no entry of the same id before it. */
  ghost predicate First(s: State, c: nat)
    requires InRange(s) && c < |s.calls|
  {
    exists k :: 0 <= k < |s.pending| && s.pending[k] == c
                && forall j :: 0 <= j < k ==> s.calls[s.pending[j]].id != s.calls[c].id
  }

  lemma {:induction false} FirstIsFound(s: State, c: nat)
    requires InRange(s) && c < |s.calls|
    ensures var i := FirstPending(s, s.calls[c].id);
            i <= |s.pending| && (First(s, c) <==> i < |s.pending| && s.pending[i] == c)
  {
    var ids, id := PendingIds(s), s.calls[c].id;
    var i := FirstIndex(ids, None, id);
    assert forall j :: 0 <= j < i ==> ids[j] != id;
    if First(s, c) {
      var k :| 0 <= k < |s.pending| && s.pending[k] == c
               && forall j :: 0 <= j < k ==> s.calls[s.pending[j]].id != id;
      assert forall j :: 0 <= j < k ==> ids[j] != id;
      assert ids[k] == id;
    }
  }

  /** A reply that a call with its id does not hold yet is stored for the call exactly if the call's
      entry is the first with that id. */
  lemma {:induction false} ReplyReachesIff(s: State, r: Reply, c: nat)
    requires InRange(s) && c < |s.calls|
    requires s.calls[c].id == r.requestId && s.calls[c].payload != Some(r)
    ensures Apply(s, Arrive(r)).calls[c].payload == Some(r) <==> First(s, c)
  {
    FirstIsFound(s, c);
    hide FirstPending, First;
  }

  /** Whatever the next reply to the call's id is, the call will hold it. */
  ghost predicate Reached(s: State, c: nat)
    requires InRange(s) && c < |s.calls|
  {
    forall r: Reply :: r.requestId == s.calls[c].id ==> Apply(s, Arrive(r)).calls[c].payload == Some(r)
  }

  lemma {:induction false} ReachedIff(s: State, c: nat)
    requires InRange(s) && c < |s.calls|
    ensures Reached(s, c) <==> First(s, c)
  {
    var call := s.calls[c];
    FirstIsFound(s, c);
    hide FirstPending, First;
    if Reached(s, c) {
      var r := Reply(call.id, if call.payload.Some? then call.payload.value.retCode + 1 else 0);
      assert Apply(s, Arrive(r)).calls[c].payload == Some(r);
      ReplyReachesIff(s, r, c);
    }
  }

  /** A call removes its own entry exactly if that entry is the first with its id. */
  lemma {:induction false} RemovesOwnIff(s: State, c: nat)
    requires Inv(s) && Enabled(s, Remove(c))
    ensures c in s.pending && c !in Apply(s, Remove(c)).pending <==> First(s, c)
  {
    hide FirstPending, First, Without, CallOk, OutstandingIds;
    RemoveFinds(s, c);
    FirstIsFound(s, c);
    WithoutDistinct(s.pending, FirstPending(s, s.calls[c].id));
  }

  /** After any run, with any ids: an outstanding call is sure to get its replies, and will remove
      its own entry, exactly if that entry is in the list and is the first with its id. */
  lemma {:induction false} CollisionsAfterRun(steps: seq<Step>, c: nat)
    requires Legal(INIT, steps) && c < |Exec(INIT, steps).calls|
    ensures var s := Exec(INIT, steps);
            && Inv(s) && Distinct(s.pending)
            && (Reached(s, c) <==> First(s, c))
            && (Enabled(s, Remove(c)) ==>
                  (c in s.pending && c !in Apply(s, Remove(c)).pending <==> First(s, c)))
  {
    InitInv();
    RunKeepsInv(INIT, steps);
    var s := Exec(INIT, steps);
    assert Distinct(s.pending) && InRange(s);
    hide *;
    ReachedIff(s, c);
    if Enabled(s, Remove(c)) {
      RemovesOwnIff(s, c);
    }
  }

  // ------------------------------------------------------------ whole runs

  /** Every outstanding call is sure to get its replies. */
  ghost predicate AllReached(s: State)
    requires InRange(s)
  {
    forall c :: 0 <= c < |s.calls| && s.calls[c].Outstanding() ==> Reached(s, c)
  }

  ghost predicate AllFirst(s: State)
    requires InRange(s)
  {
    forall c :: 0 <= c < |s.calls| && s.calls[c].Outstanding() ==> First(s, c)
  }

  lemma {:induction false} AllReachedIff(s: State)
    requires InRange(s)
    ensures AllReached(s) <==> AllFirst(s)
  {
    hide Reached, First;
    forall c | 0 <= c < |s.calls| ensures Reached(s, c) <==> First(s, c) {
      ReachedIff(s, c);
    }
  }

  /** Of two calls with one id at most one is first. */
  lemma {:induction false} OneFirst(s: State, c: nat, d: nat)
    requires InRange(s) && c < |s.calls| && d < |s.calls| && s.calls[c].id == s.calls[d].id
    ensures First(s, c) && First(s, d) ==> c == d
  {
    FirstIsFound(s, c);
    FirstIsFound(s, d);
    hide First, FirstPending;
  }

  lemma {:induction false} FreshAllFirst(s: State)
    requires FreshInv(s)
    ensures AllFirst(s)
  {
    hide First, Inv, FirstPending, Exact;
    forall c | 0 <= c < |s.calls| && s.calls[c].Outstanding() ensures First(s, c) {
      FirstIsOwn(s, c);
      FirstIsFound(s, c);
    }
  }

  /** Taking the id of an outstanding call leaves one of the two unreached. */
  lemma {:induction false} ReuseLosesOne(s: State, step: Step)
    requires InRange(s) && !FreshId(s, step)
    ensures InRange(Apply(s, step)) && !AllFirst(Apply(s, step))
  {
    var t := Apply(s, step);
    var c :| 0 <= c < |s.calls| && s.calls[c].Outstanding() && s.calls[c].id == step.id;
    var d := |s.calls|;
    assert t.calls[c] == s.calls[c] && t.calls[d].id == step.id && t.calls[d].Outstanding();
    hide First;
    OneFirst(t, c, d);
  }

  /** At every moment of the run, every outstanding call is sure to get its replies. */
  ghost predicate AlwaysReached(s: State, steps: seq<Step>)
    requires Legal(s, steps)
    decreases |steps|
  {
    AllReached(s) && (steps != [] ==> AlwaysReached(Apply(s, steps[0]), steps[1..]))
  }

  lemma {:induction false} AlwaysReachedFrom(s: State, steps: seq<Step>)
    requires FreshInv(s) && Legal(s, steps)
    ensures AlwaysReached(s, steps) <==> FreshRun(s, steps)
    decreases |steps|
  {
    FreshAllFirst(s);
    AllReachedIff(s);
    if steps != [] {
      var step, t := steps[0], Apply(s, steps[0]);
      hide FreshInv, AllReached, AllFirst, FreshId, Enabled, Apply;
      if FreshId(s, step) {
        StepKeepsFreshInv(s, step);
        AlwaysReachedFrom(t, steps[1..]);
      } else {
        ReuseLosesOne(s, step);
        AllReachedIff(t);
      }
    }
  }

  /** The replies of a run are sure to reach their calls, at every moment, exactly if no call takes
      the id of an outstanding one. */
  lemma {:induction false} AlwaysReachedIff(steps: seq<Step>)
    requires Legal(INIT, steps)
    ensures AlwaysReached(INIT, steps) <==> FreshRun(INIT, steps)
  {
    InitFreshInv();
    AlwaysReachedFrom(INIT, steps);
  }

  // ------------------------------------------------------ a lost reply

  /** A run in which two calls take the id 7 and the second fails to publish, after `n` steps. */
  ghost function Collision(n: nat): State
    requires n <= 5
  {
    var first := Call(7, Login, 100, Added, None, 0, 0, 0, None);
    var second := Call(7, Logout, 100, Added, None, 0, 0, 0, None);
    var failed := PublishFailed(1);
    var rejected := second.(published := Some(1));
    match n
    case 0 => INIT
    case 1 => State([first], [0], [])
    case 2 => State([first, second], [0, 1], [])
    case 3 => State([first, rejected.(phase := Decided(failed))], [0, 1], [])
    case 4 => State([first, rejected.(phase := Returned(failed, true))], [1], [])
    case _ => State([first, rejected.(phase := Returned(failed, true), payload := Some(Reply(7, 0)))], [1], [Reply(7, 0)])
  }

  const COLLISION_STEPS := [Start(7, Login, 100), Start(7, Logout, 100), Publish(1, 1), Remove(1), Arrive(Reply(7, 0))]

  lemma {:induction false} CollisionStep(n: nat)
    requires n < 5
    ensures InRange(Collision(n)) && Enabled(Collision(n), COLLISION_STEPS[n])
    ensures Apply(Collision(n), COLLISION_STEPS[n]) == Collision(n + 1)
  {
    var s := Collision(n);
    if n == 3 || n == 4 {
      hide FirstIndex;
      assert PendingIds(s)[0] == 7 && FirstPending(s, 7) == 0;
    }
    var t, u := Apply(s, COLLISION_STEPS[n]), Collision(n + 1);
    assert t.calls == u.calls && t.pending == u.pending && t.log == u.log;
  }

  /** With two outstanding calls of one id, a call that ends early can remove the other's entry;
      the reply to the other is then stored where the other never looks. */
  lemma {:induction false} CollisionLosesReply()
    ensures Legal(INIT, COLLISION_STEPS)
    ensures var s := Exec(INIT, COLLISION_STEPS);
            && |s.calls| == 2 && s.calls[0].Outstanding() && 0 !in s.pending
            && s.calls[0].payload == None
            && Delivered(s.calls[0].id, s.calls[0].start, s.log, |s.log|, Reply(7, 0))
  {
    FollowCollision(0);
    assert COLLISION_STEPS[0..] == COLLISION_STEPS;
    hide Legal, Exec;
    assert Collision(5).log[0] == Reply(7, 0);
  }

  lemma {:induction false} FollowCollision(n: nat)
    requires n <= 5
    ensures Legal(Collision(n), COLLISION_STEPS[n..]) && Exec(Collision(n), COLLISION_STEPS[n..]) == Collision(5)
    decreases 5 - n
  {
    if n == 5 {
      assert COLLISION_STEPS[5..] == [] && InRange(Collision(5));
    } else {
      CollisionStep(n);
      FollowCollision(n + 1);
      hide *;
      assert |COLLISION_STEPS| == 5;
      assert COLLISION_STEPS[n..][1..] == COLLISION_STEPS[n + 1..];
      Follow(Collision(n), COLLISION_STEPS[n..]);
    }
  }
}
