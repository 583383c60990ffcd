/** Devices that log in and out asynchronously, and the list of connected devices that local
    messages are looked up in.

    The list is searched by serial number, with a comparison cut to the length of the serial that
    is looked for: a device matches every device whose serial it is a prefix of.  Removing a node
    frees its client. */
module Lifecycle {
  import opened Common
  import opened UtilsList

  datatype Client = Client(sn: string, online: bool, freed: bool)

  /** `listed` is `conn_device_list`: the clients whose nodes it holds, in list order. */
  datatype State = State(clients: seq<Client>, listed: seq<nat>)

  const INIT := State([], [])

  /** `code` is the status of the library's publish; 0 is success. */
  datatype Step = Construct(sn: string) | Login(c: nat, code: int) | Logout(c: nat, code: int)

  /** `_subdev_client_match` on serials: `strncmp(a, b, strlen(a)) == 0`. */
  function PrefixMatch(): Matcher<string> {
    Some((a: string, b: string) => a <= b)
  }

  predicate InRange(s: State) {
    forall i :: 0 <= i < |s.listed| ==> s.listed[i] < |s.clients|
  }

  function Serials(s: State): (sns: seq<string>)
    requires InRange(s)
    ensures |sns| == |s.listed| && forall i :: 0 <= i < |sns| ==> sns[i] == s.clients[s.listed[i]].sn
  {
    seq(|s.listed|, i requires 0 <= i < |s.listed| => s.clients[s.listed[i]].sn)
  }

  /** The position of the node that a serial is looked up to, or the length. */
  function LookUp(s: State, sn: string): (i: nat)
    requires InRange(s)
    ensures i <= |s.listed|
    ensures forall j :: 0 <= j < i ==> !(sn <= s.clients[s.listed[j]].sn)
    ensures i < |s.listed| ==> sn <= s.clients[s.listed[i]].sn
  {
    var i := FirstIndex(Serials(s), PrefixMatch(), sn);
    assert forall j :: 0 <= j < i ==> !MatchWith(PrefixMatch(), sn, Serials(s)[j]);
    i
  }

  /** Only a client that has not been freed may be passed. */
  predicate Enabled(s: State, step: Step) {
    step.Construct? || (step.c < |s.clients| && !s.clients[step.c].freed)
  }

  function Apply(s: State, step: Step): State
    requires InRange(s) && Enabled(s, step)
  {
    match step
    case Construct(sn) => s.(clients := s.clients + [Client(sn, false, false)])
    case Login(c, code) =>
      if code != 0 then s
      else State(s.clients[c := s.clients[c].(online := true)], s.listed + [c])
    case Logout(c, code) =>
      if !s.clients[c].online || code != 0 then s
      else
        var t := s.(clients := s.clients[c := s.clients[c].(online := false)]);
        var i := LookUp(s, s.clients[c].sn);
        if i < |s.listed| then
          var d := s.listed[i];
          State(t.clients[d := t.clients[d].(freed := true)], Without(s.listed, i))
        else t
  }

  /** A login that is published is of an offline client whose serial no serial of an online client
      extends. */
  ghost predicate Safe(s: State, step: Step)
    requires Enabled(s, step)
  {
    step.Login? && step.code == 0 ==>
      && !s.clients[step.c].online
      && forall d :: 0 <= d < |s.clients| && s.clients[d].online ==> !(s.clients[step.c].sn <= s.clients[d].sn)
  }

  /** The clients with a node are the online ones, each with exactly one node and none of them freed,
      and no serial extends that of a node behind it. */
  ghost predicate Inv(s: State) {
    && InRange(s)
    && Distinct(s.listed)
    && (forall c :: 0 <= c < |s.clients| ==> (c in s.listed <==> s.clients[c].online))
    && (forall c :: 0 <= c < |s.clients| && s.clients[c].freed ==> !s.clients[c].online)
    && Unshadowed(s)
  }

  /** No node is found in the place of one behind it. */
  ghost predicate Unshadowed(s: State)
    requires InRange(s)
  {
    forall i, j :: 0 <= i < j < |s.listed| ==> !(s.clients[s.listed[j]].sn <= s.clients[s.listed[i]].sn)
  }

  /** A message for the serial of an online client is looked up to exactly that client. */
  lemma {:induction false} LookUpFindsOwn(s: State, c: nat)
    requires Inv(s) && c < |s.clients| && s.clients[c].online
    ensures LookUp(s, s.clients[c].sn) < |s.listed| && s.listed[LookUp(s, s.clients[c].sn)] == c
  {
    hide LookUp;
    assert c in s.listed;
    var k :| 0 <= k < |s.listed| && s.listed[k] == c;
    var i := LookUp(s, s.clients[c].sn);
    assert s.clients[c].sn <= s.clients[c].sn;
  }

  lemma {:induction false} LoginKeepsInv(s: State, c: nat)
    requires Inv(s) && Enabled(s, Login(c, 0)) && Safe(s, Login(c, 0))
    ensures Inv(Apply(s, Login(c, 0)))
  {
    var t := Apply(s, Login(c, 0));
    forall d | 0 <= d < |t.clients| ensures d in t.listed <==> t.clients[d].online {
      assert d in t.listed <==> d in s.listed || d == c;
    }
    assert forall i :: 0 <= i < |s.listed| ==> s.listed[i] in s.listed;
  }

  /** A login is safe exactly if looking the client's serial up finds nothing. */
  lemma {:induction false} SafeIffNotFound(s: State, c: nat)
    requires Inv(s) && Enabled(s, Login(c, 0))
    ensures Safe(s, Login(c, 0)) <==> LookUp(s, s.clients[c].sn) == |s.listed|
  {
    var sn := s.clients[c].sn;
    var i := LookUp(s, sn);
    hide LookUp;
    assert sn <= sn;
    if i < |s.listed| {
      assert s.listed[i] in s.listed;
    } else {
      forall d | 0 <= d < |s.clients| && s.clients[d].online ensures !(sn <= s.clients[d].sn) {
        var k :| 0 <= k < |s.listed| && s.listed[k] == d;
      }
    }
  }

  /** The state without the node at `i` and with its client offline and freed. */
  function Freed(s: State, i: nat): State
    requires InRange(s) && i < |s.listed|
  {
    var c := s.listed[i];
    State(s.clients[c := s.clients[c].(online := false, freed := true)], Without(s.listed, i))
  }

  lemma {:induction false} FreedKeepsInv(s: State, i: nat)
    requires Inv(s) && i < |s.listed|
    ensures Inv(Freed(s, i))
  {
    var t := Freed(s, i);
    hide Without, Distinct;
    WithoutDistinct(s.listed, i);
    assert forall j :: 0 <= j < |t.listed| ==> t.listed[j] in t.listed;
  }

  lemma {:induction false} LogoutFrees(s: State, c: nat)
    requires InRange(s) && Enabled(s, Logout(c, 0)) && s.clients[c].online
    requires LookUp(s, s.clients[c].sn) < |s.listed| && s.listed[LookUp(s, s.clients[c].sn)] == c
    ensures Apply(s, Logout(c, 0)) == Freed(s, LookUp(s, s.clients[c].sn))
  {
    hide LookUp;
  }

  /** Logging out takes the client's own node, frees that client and touches no other. */
  lemma {:induction false} LogoutRemovesOwn(s: State, c: nat)
    requires Inv(s) && Enabled(s, Logout(c, 0)) && s.clients[c].online
    ensures var t := Apply(s, Logout(c, 0));
            && t.clients == s.clients[c := s.clients[c].(online := false, freed := true)]
            && (forall x :: x in t.listed <==> x in s.listed && x != c)
            && Inv(t)
  {
    var i := LookUp(s, s.clients[c].sn);
    LookUpFindsOwn(s, c);
    LogoutFrees(s, c);
    FreedKeepsInv(s, i);
    WithoutDistinct(s.listed, i);
    hide Inv, LookUp, Apply, Without;
  }

  lemma {:induction false} StepKeepsInv(s: State, step: Step)
    requires Inv(s) && Enabled(s, step) && Safe(s, step)
    ensures Inv(Apply(s, step))
  {
    match step
    case Construct(sn) =>
    case Login(c, code) =>
      if code == 0 { LoginKeepsInv(s, c); }
    case Logout(c, code) =>
      if code == 0 && s.clients[c].online {
        LogoutRemovesOwn(s, c);
        hide Inv;
      }
  }

  // ------------------------------------------------------------------ runs

  ghost predicate Legal(s: State, steps: seq<Step>)
    decreases |steps|
  {
    InRange(s) && (steps != [] ==> Enabled(s, steps[0]) && Legal(Apply(s, steps[0]), steps[1..]))
  }

  ghost function Exec(s: State, steps: seq<Step>): State
    requires Legal(s, steps)
    decreases |steps|
  {
    if steps == [] then s else Exec(Apply(s, steps[0]), steps[1..])
  }

  /** Every step of the run is safe when it is taken. */
  ghost predicate SafeRun(s: State, steps: seq<Step>)
    requires Legal(s, steps)
    decreases |steps|
  {
    steps != [] ==> Safe(s, steps[0]) && SafeRun(Apply(s, steps[0]), steps[1..])
  }

  lemma {:induction false} RunKeepsInv(s: State, steps: seq<Step>)
    requires Inv(s) && Legal(s, steps) && SafeRun(s, steps)
    ensures Inv(Exec(s, steps))
    decreases |steps|
  {
    hide Inv, Apply, Enabled, Safe;
    if steps != [] {
      StepKeepsInv(s, steps[0]);
      RunKeepsInv(Apply(s, steps[0]), steps[1..]);
    }
  }

  /** How often a client is in the list. */
  function Nodes(listed: seq<nat>, c: nat): nat {
    multiset(listed)[c]
  }

  /** The client is online exactly if it has exactly one node, and offline exactly if it has none;
      and if it is online it is not freed, and a message for its serial reaches it. */
  ghost predicate Served(s: State, c: nat)
    requires InRange(s) && c < |s.clients|
  {
    && Nodes(s.listed, c) == (if s.clients[c].online then 1 else 0)
    && (s.clients[c].online ==>
          && !s.clients[c].freed
          && LookUp(s, s.clients[c].sn) < |s.listed| && s.listed[LookUp(s, s.clients[c].sn)] == c)
  }

  ghost predicate Good(s: State)
    requires InRange(s)
  {
    forall c :: 0 <= c < |s.clients| ==> Served(s, c)
  }

  lemma {:induction false} InvIsGood(s: State)
    requires Inv(s)
    ensures Good(s)
  {
    hide LookUp;
    forall c | 0 <= c < |s.clients| ensures Served(s, c) {
      DistinctCount(s.listed, c);
      if s.clients[c].online {
        LookUpFindsOwn(s, c);
      }
    }
  }

  /** After any safe run every client is served. */
  lemma {:induction false} OnlineIffListed(steps: seq<Step>, c: nat)
    requires Legal(INIT, steps) && SafeRun(INIT, steps) && c < |Exec(INIT, steps).clients|
    ensures var s := Exec(INIT, steps); Inv(s) && Served(s, c)
  {
    assert Inv(INIT);
    RunKeepsInv(INIT, steps);
    hide Legal, SafeRun, Exec, Served;
    InvIsGood(Exec(INIT, steps));
  }

  /** A login of a client that is online already gives it a second node. */
  lemma {:induction false} SecondLogin(s: State, c: nat)
    requires Inv(s) && Enabled(s, Login(c, 0)) && s.clients[c].online
    ensures InRange(Apply(s, Login(c, 0))) && !Good(Apply(s, Login(c, 0)))
  {
    var t := Apply(s, Login(c, 0));
    DistinctCount(s.listed, c);
    assert multiset(t.listed)[c] == multiset(s.listed)[c] + 1;
    hide LookUp, Inv;
    assert !Served(t, c);
  }

  /** A client whose serial is extended by that of an online one is never found. */
  lemma {:induction false} ShadowedLogin(s: State, c: nat, d: nat)
    requires Inv(s) && Enabled(s, Login(c, 0)) && !s.clients[c].online
    requires d < |s.clients| && s.clients[d].online && s.clients[c].sn <= s.clients[d].sn
    ensures InRange(Apply(s, Login(c, 0))) && !Good(Apply(s, Login(c, 0)))
  {
    var t := Apply(s, Login(c, 0));
    hide LookUp;
    assert d in s.listed && c !in s.listed;
    var k :| 0 <= k < |s.listed| && s.listed[k] == d;
    var i := LookUp(t, s.clients[c].sn);
    assert t.clients[t.listed[k]].sn == s.clients[d].sn;
    assert i <= k;
    assert t.listed[i] in s.listed;
    assert !Served(t, c);
  }

  lemma {:induction false} UnsafeIsNotGood(s: State, step: Step)
    requires Inv(s) && Enabled(s, step) && !Safe(s, step)
    ensures InRange(Apply(s, step)) && !Good(Apply(s, step))
  {
    hide Inv, Good, Apply;
    var c := step.c;
    if s.clients[c].online {
      SecondLogin(s, c);
    } else {
      var d :| 0 <= d < |s.clients| && s.clients[d].online && s.clients[c].sn <= s.clients[d].sn;
      ShadowedLogin(s, c, d);
    }
  }

  /** At every moment of the run every client is served. */
  ghost predicate AlwaysGood(s: State, steps: seq<Step>)
    requires Legal(s, steps)
    decreases |steps|
  {
    Good(s) && (steps != [] ==> AlwaysGood(Apply(s, steps[0]), steps[1..]))
  }

  lemma {:induction false} AlwaysGoodFrom(s: State, steps: seq<Step>)
    requires Inv(s) && Legal(s, steps)
    ensures AlwaysGood(s, steps) <==> SafeRun(s, steps)
    decreases |steps|
  {
    InvIsGood(s);
    if steps != [] {
      hide Inv, Good, Apply, Enabled, Safe;
      if Safe(s, steps[0]) {
        StepKeepsInv(s, steps[0]);
        AlwaysGoodFrom(Apply(s, steps[0]), steps[1..]);
      } else {
        UnsafeIsNotGood(s, steps[0]);
      }
    }
  }

  /** Every client is served at every moment of a run exactly if every step of the run is safe when
      it is taken. */
  lemma {:induction false} AlwaysGoodIff(steps: seq<Step>)
    requires Legal(INIT, steps)
    ensures AlwaysGood(INIT, steps) <==> SafeRun(INIT, steps)
  {
    assert Inv(INIT);
    AlwaysGoodFrom(INIT, steps);
  }

  lemma {:induction false} DistinctCount(p: seq<nat>, x: nat)
    requires Distinct(p)
    ensures multiset(p)[x] == if x in p then 1 else 0
  {
    if p != [] {
      var m := |p| - 1;
      DistinctCount(p[..m], x);
      assert p == p[..m] + [p[m]];
    }
  }

  predicate FailsToPublish(step: Step) {
    !step.Construct? && step.code != 0
  }

  /** The steps of a run without those whose publish fails. */
  function Published(steps: seq<Step>): seq<Step> {
    if steps == [] then []
    else (if FailsToPublish(steps[0]) then [] else [steps[0]]) + Published(steps[1..])
  }

  lemma {:induction false} FailedStepChangesNothing(s: State, step: Step)
    requires InRange(s) && Enabled(s, step) && FailsToPublish(step)
    ensures Apply(s, step) == s && Safe(s, step)
  {
  }

  /** Logins and logouts whose publish fails leave no trace: a run without them is as legal, as
      safe, and ends in the same state. */
  lemma {:induction false} FailedPublishesLeaveNoTrace(s: State, steps: seq<Step>)
    requires Legal(s, steps)
    ensures Legal(s, Published(steps)) && Exec(s, Published(steps)) == Exec(s, steps)
    ensures SafeRun(s, steps) <==> SafeRun(s, Published(steps))
    decreases |steps|
  {
    hide Apply, Enabled, Safe, InRange;
    if steps != [] {
      var step, rest := steps[0], Published(steps[1..]);
      FailedPublishesLeaveNoTrace(Apply(s, step), steps[1..]);
      if FailsToPublish(step) {
        FailedStepChangesNothing(s, step);
        assert Published(steps) == rest;
      } else {
        assert Published(steps)[0] == step && Published(steps)[1..] == rest;
      }
    }
  }

  // ------------------------------------------------------ without the premise

  /** Client `d` has a node whose serial extends `sn`, and no node before that does. */
  ghost predicate FoundFirst(s: State, sn: string, d: nat)
    requires InRange(s)
  {
    exists k :: 0 <= k < |s.listed| && s.listed[k] == d && sn <= s.clients[d].sn
                && forall i :: 0 <= i < k ==> !(sn <= s.clients[s.listed[i]].sn)
  }

  lemma {:induction false} LookUpIsFoundFirst(s: State, sn: string, d: nat)
    requires InRange(s)
    ensures FoundFirst(s, sn, d) <==> LookUp(s, sn) < |s.listed| && s.listed[LookUp(s, sn)] == d
  {
    var i := LookUp(s, sn);
    hide LookUp;
    if FoundFirst(s, sn, d) {
      var k :| 0 <= k < |s.listed| && s.listed[k] == d && sn <= s.clients[d].sn
               && forall j :: 0 <= j < k ==> !(sn <= s.clients[s.listed[j]].sn);
      assert i == k;
    }
  }

  /** In any state, a published logout of an online client frees exactly the client whose node its
      serial is looked up to, whichever that is; it leaves all serials alone, and takes only itself
      offline. */
  lemma {:induction false} LogoutFreesIff(s: State, c: nat, d: nat)
    requires InRange(s) && Enabled(s, Logout(c, 0)) && s.clients[c].online && d < |s.clients|
    ensures var t := Apply(s, Logout(c, 0));
            && |t.clients| == |s.clients|
            && (t.clients[d].freed <==> s.clients[d].freed || FoundFirst(s, s.clients[c].sn, d))
            && t.clients[d].sn == s.clients[d].sn
            && (t.clients[d].online <==> s.clients[d].online && d != c)
  {
    LookUpIsFoundFirst(s, s.clients[c].sn, d);
    hide LookUp, FoundFirst;
  }

  /** In any state, a logout frees the client itself exactly if the client has a node with no node
      before it whose serial extends the client's. */
  lemma {:induction false} LogoutRemovesOwnIff(s: State, c: nat)
    requires InRange(s) && Enabled(s, Logout(c, 0)) && s.clients[c].online
    ensures Apply(s, Logout(c, 0)).clients[c].freed
       <==> exists k :: 0 <= k < |s.listed| && s.listed[k] == c
                        && forall i :: 0 <= i < k ==> !(s.clients[c].sn <= s.clients[s.listed[i]].sn)
  {
    LogoutFreesIff(s, c, c);
    assert s.clients[c].sn <= s.clients[c].sn;
    hide Apply;
  }

  /** A run in which "dev10" and "dev1" log in and "dev1" logs out, after `n` steps. */
  ghost function PrefixRun(n: nat): State
    requires n <= 5
  {
    var long, short := Client("dev10", false, false), Client("dev1", false, false);
    match n
    case 0 => INIT
    case 1 => State([long], [])
    case 2 => State([long, short], [])
    case 3 => State([long.(online := true), short], [0])
    case 4 => State([long.(online := true), short.(online := true)], [0, 1])
    case _ => State([long.(online := true, freed := true), short], [1])
  }

  const PREFIX_STEPS := [Construct("dev10"), Construct("dev1"), Login(0, 0), Login(1, 0), Logout(1, 0)]

  lemma {:induction false} PrefixStep(n: nat)
    requires n < 5
    ensures InRange(PrefixRun(n)) && Enabled(PrefixRun(n), PREFIX_STEPS[n])
    ensures Apply(PrefixRun(n), PREFIX_STEPS[n]) == PrefixRun(n + 1)
  {
    var s := PrefixRun(n);
    if n == 4 {
      assert "dev10" == "dev1" + "0";
      assert "dev1" <= "dev10";
      assert LookUp(s, "dev1") == 0;
    }
    hide LookUp;
    var t, u := Apply(s, PREFIX_STEPS[n]), PrefixRun(n + 1);
    assert t.clients == u.clients && t.listed == u.listed;
  }

  lemma {:induction false} FollowPrefix(n: nat)
    requires n <= 5
    ensures Legal(PrefixRun(n), PREFIX_STEPS[n..]) && Exec(PrefixRun(n), PREFIX_STEPS[n..]) == PrefixRun(5)
    decreases 5 - n
  {
    if n == 5 {
      assert PREFIX_STEPS[5..] == [] && InRange(PrefixRun(5));
    } else {
      PrefixStep(n);
      FollowPrefix(n + 1);
      hide *;
      assert |PREFIX_STEPS| == 5;
      assert PREFIX_STEPS[n..][1..] == PREFIX_STEPS[n + 1..];
      Follow(PrefixRun(n), PREFIX_STEPS[n..]);
    }
  }

  /** One unfolding of a run. */
  lemma {:induction false} Follow(s: State, steps: seq<Step>)
    requires InRange(s) && steps != [] && Enabled(s, steps[0]) && Legal(Apply(s, steps[0]), steps[1..])
    ensures Legal(s, steps) && Exec(s, steps) == Exec(Apply(s, steps[0]), steps[1..])
  {
  }

  /** A device whose serial is a prefix of another's logs the other out: the other's client is
      freed although it is online, and the device itself keeps its node. */
  lemma {:induction false} PrefixLogsOutOther()
    ensures Legal(INIT, PREFIX_STEPS)
    ensures var t := Exec(INIT, PREFIX_STEPS);
            && |t.clients| == 2 && t.listed == [1]
            && t.clients[0].online && t.clients[0].freed && !t.clients[1].online && !t.clients[1].freed
  {
    FollowPrefix(0);
    assert PREFIX_STEPS[0..] == PREFIX_STEPS;
    hide Legal, Exec;
  }
}
