/** What a call of a run saw: the payloads at its looks and at its parsing, that they determine its
    status, and that nothing else can be said of them. */
module CallTraces {
  import opened Common
  import opened Correlation
  import opened CorrelationLaws
  import opened RequestTable

  /** The payload that call `c` saw at its `k`-th look in the run; `None` also if it did not come to
      that look. */
  ghost function LookAt(s: State, steps: seq<Step>, c: nat, k: nat): Option<Reply>
    requires Legal(s, steps)
    decreases |steps|
  {
    if steps == [] then None
    else if steps[0] == Poll(c) && s.calls[c].phase == Polling(k) then s.calls[c].payload
    else LookAt(Apply(s, steps[0]), steps[1..], c, k)
  }

  ghost function Looks(s: State, steps: seq<Step>, c: nat): nat -> Option<Reply>
    requires Legal(s, steps)
  {
    (k: nat) => LookAt(s, steps, c, k)
  }

  /** The payload that call `c` parsed in the run, if it came to that. */
  ghost function Parsed(s: State, steps: seq<Step>, c: nat): Option<Reply>
    requires Legal(s, steps)
    decreases |steps|
  {
    if steps == [] then None
    else if steps[0] == Decide(c) then s.calls[c].payload
    else Parsed(Apply(s, steps[0]), steps[1..], c)
  }

  // ------------------------------------------------------ the rest of a call

  /** What becomes of a call in any phase, for given looks and a given parsed payload. */
  function Rest(call: Call, code: int, look: nat -> Option<Reply>, decisive: Option<Reply>, delivered: nat): Call
    requires call.phase.Polling? ==> call.phase.loop <= POLLS
  {
    match call.phase
    case Added => CallAlone(call, code, look, decisive, delivered)
    case Polling(_) =>
      var q := PollLooks(call, look, delivered);
      if q.phase == Received then DecideCall(q.(payload := decisive), delivered) else q
    case Received => DecideCall(call.(payload := decisive), delivered)
    case _ => call
  }

  /** The calls agree in all but the payload and the time it was last read. */
  predicate Alike(a: Call, b: Call) {
    a == b.(payload := a.payload, readAt := a.readAt)
  }

  predicate SameEnd(a: Call, b: Call) {
    Outcome(a) == Outcome(b) && a.slept == b.slept && a.published == b.published
  }

  lemma {:induction false} PollLooksAlike(a: Call, b: Call, look: nat -> Option<Reply>, look': nat -> Option<Reply>,
                                          d: nat, d': nat)
    requires Alike(a, b) && a.phase.Polling? && a.phase.loop <= POLLS
    requires forall k :: a.phase.loop <= k ==> look(k) == look'(k)
    ensures Alike(PollLooks(a, look, d), PollLooks(b, look', d'))
    decreases POLLS - a.phase.loop
  {
    var p := PollCall(a.(payload := look(a.phase.loop)), d);
    var q := PollCall(b.(payload := look'(b.phase.loop)), d');
    if p.phase.Polling? {
      PollLooksAlike(p, q, look, look', d, d');
    }
  }

  lemma {:induction false} RestAlike(a: Call, b: Call, code: int, look: nat -> Option<Reply>,
                                     look': nat -> Option<Reply>, decisive: Option<Reply>, d: nat, d': nat)
    requires Alike(a, b) && (a.phase.Polling? ==> a.phase.loop <= POLLS)
    requires forall k: nat :: (a.phase.Polling? ==> a.phase.loop <= k) ==> look(k) == look'(k)
    ensures Alike(Rest(a, code, look, decisive, d), Rest(b, code, look', decisive, d'))
  {
    match a.phase
    case Added =>
      var p, q := PublishCall(a, code), PublishCall(b, code);
      if p.phase.Polling? {
        PollLooksAlike(p, q, look, look', d, d');
      }
      hide PollLooks;
    case Polling(_) =>
      PollLooksAlike(a, b, look, look', d, d');
      hide PollLooks;
    case _ =>
  }

  // ------------------------------------------------------------- one step

  /** What a step leaves of a call. */
  lemma {:induction false} StepKeepsCall(s: State, step: Step, c: nat)
    requires InRange(s) && Enabled(s, step) && c < |s.calls|
    ensures var t := Apply(s, step);
            && c < |t.calls|
            && var a, b := s.calls[c], t.calls[c];
               && b.id == a.id && b.kind == a.kind && b.timeout == a.timeout && b.start == a.start
               && (a.published.Some? && a.phase != Added ==> b.published == a.published)
               && (Outcome(a).Some? ==> Outcome(b) == Outcome(a) && b.slept == a.slept && b.readAt == a.readAt)
  {
    hide FirstPending;
  }

  /** A step that is not the call's own changes at most its payload. */
  lemma {:induction false} OthersStep(s: State, step: Step, c: nat)
    requires InRange(s) && Enabled(s, step) && c < |s.calls|
    requires step.Start? || step.Arrive? || step.c != c
    ensures c < |Apply(s, step).calls| && Alike(s.calls[c], Apply(s, step).calls[c])
  {
    hide FirstPending;
  }

  /** What a step adds to what the call sees. */
  lemma {:induction false} TraceStep(s: State, steps: seq<Step>, c: nat)
    requires Legal(s, steps) && steps != [] && c < |s.calls|
    ensures var step, t, rest := steps[0], Apply(s, steps[0]), steps[1..];
            var look, look' := Looks(s, steps, c), Looks(t, rest, c);
            && (forall k: nat :: look(k) == if step == Poll(c) && s.calls[c].phase == Polling(k) then s.calls[c].payload
                                            else look'(k))
            && Parsed(s, steps, c) == if step == Decide(c) then s.calls[c].payload else Parsed(t, rest, c)
  {
    hide Apply;
  }

  /** One step of the run does not change where the rest of the call leads. */
  lemma {:induction false} StepKeepsRest(s: State, steps: seq<Step>, c: nat, code: int, d: nat)
    requires Inv(s) && Legal(s, steps) && steps != [] && c < |s.calls|
    requires InRange(Apply(s, steps[0])) && c < |Apply(s, steps[0]).calls| && CallOk(s.calls[c], s.log)
    requires CallOk(Apply(s, steps[0]).calls[c], Apply(s, steps[0]).log)
    requires steps[0].Publish? && steps[0].c == c ==> code == steps[0].code
    ensures s.calls[c].phase.Polling? ==> s.calls[c].phase.loop <= POLLS
    ensures var t := Apply(s, steps[0]);
            && (t.calls[c].phase.Polling? ==> t.calls[c].phase.loop <= POLLS)
            && SameEnd(Rest(s.calls[c], code, Looks(s, steps, c), Parsed(s, steps, c), d),
                       Rest(t.calls[c], code, Looks(t, steps[1..], c), Parsed(t, steps[1..], c), d))
  {
    hide Inv, PublishedOk, Delivered, Justified, FirstPending, PollLooks, Looks, Parsed;
    var step, t, rest := steps[0], Apply(s, steps[0]), steps[1..];
    var a, b := s.calls[c], t.calls[c];
    var look, look', x := Looks(s, steps, c), Looks(t, rest, c), Parsed(s, steps, c);
    TraceStep(s, steps, c);
    if step.Start? || step.Arrive? || step.c != c {
      OthersStep(s, step, c);
      RestAlike(a, b, code, look, look', x, d, d);
      hide Rest;
    } else if step.Publish? {
      PublishRest(a, code, look, look', x, d);
    } else if step.Poll? {
      PollRest(a, b, code, look, look', x, d, |s.log|);
    }
  }

  lemma {:induction false} PublishRest(a: Call, code: int, look: nat -> Option<Reply>, look': nat -> Option<Reply>,
                                       x: Option<Reply>, d: nat)
    requires a.phase == Added && forall k :: look(k) == look'(k)
    ensures Alike(Rest(a, code, look, x, d), Rest(PublishCall(a, code), code, look', x, d))
  {
    var p := PublishCall(a, code);
    if p.phase.Polling? {
      PollLooksAlike(p, p, look, look', d, d);
    }
    hide PollLooks;
  }

  lemma {:induction false} PollRest(a: Call, b: Call, code: int, look: nat -> Option<Reply>,
                                    look': nat -> Option<Reply>, x: Option<Reply>, d: nat, d': nat)
    requires a.phase.Polling? && a.phase.loop <= POLLS && b == PollCall(a, d') && look(a.phase.loop) == a.payload
    requires forall k :: k != a.phase.loop ==> look(k) == look'(k)
    ensures b.phase.Polling? ==> b.phase.loop <= POLLS
    ensures Alike(Rest(a, code, look, x, d), Rest(b, code, look', x, d))
  {
    var p := PollCall(a.(payload := look(a.phase.loop)), d);
    assert PollLooks(a, look, d) == if p.phase.Polling? then PollLooks(p, look, d) else p;
    assert a.(payload := a.payload) == a;
    if p.phase.Polling? {
      PollLooksAlike(p, b, look, look', d, d);
    }
    hide PollLooks;
  }

  // ------------------------------------------------------------ whole runs

  /** What a call is from beginning to end, and what it is from its status on. */
  lemma {:induction false} RunKeepsCall(s: State, steps: seq<Step>, c: nat)
    requires Inv(s) && Legal(s, steps) && c < |s.calls|
    ensures c < |Exec(s, steps).calls|
    ensures var a, b := s.calls[c], Exec(s, steps).calls[c];
            && b.id == a.id && b.kind == a.kind && b.timeout == a.timeout && b.start == a.start
            && (a.phase != Added ==> b.published == a.published)
            && (Outcome(a).Some? ==> Outcome(b) == Outcome(a) && b.slept == a.slept && b.readAt == a.readAt)
    decreases |steps|
  {
    if steps != [] {
      var t := Apply(s, steps[0]);
      StepKeepsInv(s, steps[0]);
      assert CallOk(s.calls[c], s.log);
      StepKeepsCall(s, steps[0], c);
      hide Apply, Inv, Enabled, Delivered, Justified, SleptOk;
      RunKeepsCall(t, steps[1..], c);
      assert t.calls[c].phase == Added ==> s.calls[c].phase == Added;
    }
  }

  /** A call of a run ends as the rest of it, taken with its looks in the run, ends. */
  lemma {:induction false} RunIsRest(s: State, steps: seq<Step>, c: nat, code: int, d: nat)
    requires Inv(s) && Legal(s, steps) && c < |s.calls| && c < |Exec(s, steps).calls|
    requires Outcome(Exec(s, steps).calls[c]).Some? && Exec(s, steps).calls[c].published == Some(code)
    ensures s.calls[c].phase.Polling? ==> s.calls[c].phase.loop <= POLLS
    ensures SameEnd(Rest(s.calls[c], code, Looks(s, steps, c), Parsed(s, steps, c), d), Exec(s, steps).calls[c])
    decreases |steps|
  {
    assert CallOk(s.calls[c], s.log);
    if steps != [] {
      var t := Apply(s, steps[0]);
      StepKeepsInv(s, steps[0]);
      StepKeepsCall(s, steps[0], c);
      assert CallOk(t.calls[c], t.log);
      RunKeepsCall(t, steps[1..], c);
      PublishCode(s, steps, c, code);
      hide Apply, Inv, Enabled, CallOk, Looks, Parsed, Rest;
      StepKeepsRest(s, steps, c, code, d);
      RunIsRest(t, steps[1..], c, code, d);
    }
  }

  lemma {:induction false} PublishCode(s: State, steps: seq<Step>, c: nat, code: int)
    requires Inv(s) && Legal(s, steps) && c < |s.calls| && c < |Exec(s, steps).calls|
    requires steps != [] && Exec(s, steps).calls[c].published == Some(code)
    ensures steps[0].Publish? && steps[0].c == c ==> code == steps[0].code
  {
    if steps[0].Publish? && steps[0].c == c {
      var t := Apply(s, steps[0]);
      assert t.calls[c] == PublishCall(s.calls[c], steps[0].code);
      StepKeepsInv(s, steps[0]);
      hide Inv;
      RunKeepsCall(t, steps[1..], c);
    }
  }

  /** A call that starts during the run ends as it ends alone, with its looks in the run. */
  lemma {:induction false} StartedIsAlone(s: State, steps: seq<Step>, c: nat, code: int, d: nat)
    requires Inv(s) && Legal(s, steps) && |s.calls| <= c < |Exec(s, steps).calls|
    requires Outcome(Exec(s, steps).calls[c]).Some? && Exec(s, steps).calls[c].published == Some(code)
    ensures var end := Exec(s, steps).calls[c];
            SameEnd(CallAlone(JustAdded(end.id, end.kind, end.timeout, end.start), code,
                              Looks(s, steps, c), Parsed(s, steps, c), d), end)
    decreases |steps|
  {
    var step, t, rest := steps[0], Apply(s, steps[0]), steps[1..];
    var end := Exec(s, steps).calls[c];
    var first := JustAdded(end.id, end.kind, end.timeout, end.start);
    var look, look', x := Looks(s, steps, c), Looks(t, rest, c), Parsed(s, steps, c);
    assert x == Parsed(t, rest, c);
    assert forall k :: look(k) == look'(k);
    StepKeepsInv(s, step);
    if |s.calls| == |t.calls| || c > |s.calls| {
      StartedIsAlone(t, rest, c, code, d);
    } else {
      assert t.calls[c] == JustAdded(step.id, step.kind, step.timeout, |s.log|);
      hide Inv;
      RunKeepsCall(t, rest, c);
      RunIsRest(t, rest, c, code, d);
      assert t.calls[c] == first;
    }
    hide *;
    AloneAlike(first, code, look, look', x, d);
  }

  lemma {:induction false} AloneAlike(first: Call, code: int, look: nat -> Option<Reply>, look': nat -> Option<Reply>,
                                      x: Option<Reply>, d: nat)
    requires forall k :: look(k) == look'(k)
    ensures forall end :: SameEnd(CallAlone(first, code, look', x, d), end) ==>
              SameEnd(CallAlone(first, code, look, x, d), end)
    ensures first.phase == Added ==> Rest(first, code, look', x, d) == CallAlone(first, code, look', x, d)
  {
    var p := PublishCall(first, code);
    if p.phase.Polling? {
      PollLooksAlike(p, p, look, look', d, d);
    }
    hide PollLooks;
  }

  // ------------------------------------------------------- what is found

  lemma {:induction false} LogGrows(s: State, steps: seq<Step>)
    requires Legal(s, steps)
    ensures s.log <= Exec(s, steps).log
    decreases |steps|
  {
    if steps != [] {
      LogStep(s, steps[0]);
      hide Apply, Enabled;
      LogGrows(Apply(s, steps[0]), steps[1..]);
    }
  }

  lemma {:induction false} LogStep(s: State, step: Step)
    requires InRange(s) && Enabled(s, step)
    ensures s.log <= Apply(s, step).log
  {
  }

  lemma {:induction false} DeliveredLater(call: Call, end: Call, log: seq<Reply>, log': seq<Reply>,
                                           n: nat, n': nat, r: Reply)
    requires Delivered(call.id, call.start, log, n, r) && log <= log' && n <= n'
    requires end.id == call.id && end.start == call.start
    ensures Delivered(end.id, end.start, log', n', r)
  {
    var j :| call.start <= j < n && j < |log| && log[j] == r;
    assert log'[j] == r;
  }

  /** A call that has seen its payload and comes to a status has parsed a reply delivered by then. */
  lemma {:induction false} ReceivedIsParsed(s: State, steps: seq<Step>, c: nat)
    requires Inv(s) && Legal(s, steps) && c < |s.calls| && s.calls[c].phase == Received
    requires c < |Exec(s, steps).calls| && Outcome(Exec(s, steps).calls[c]).Some?
    ensures var t, x := Exec(s, steps), Parsed(s, steps, c);
            && |s.log| <= t.calls[c].readAt && x.Some?
            && Delivered(t.calls[c].id, t.calls[c].start, t.log, t.calls[c].readAt, x.value)
    decreases |steps|
  {
    var step, t, call := steps[0], Apply(s, steps[0]), s.calls[c];
    assert CallOk(call, s.log);
    StepKeepsInv(s, step);
    if step == Decide(c) {
      assert t.calls[c] == DecideCall(call, |s.log|) && t.log == s.log;
      hide Inv, Apply, Enabled, CallOk;
      RunKeepsCall(t, steps[1..], c);
      LogGrows(t, steps[1..]);
      var end := Exec(s, steps);
      assert end.calls[c].readAt == |s.log|;
      DeliveredLater(call, end.calls[c], s.log, end.log, |s.log|, |s.log|, call.payload.value);
    } else {
      ReceivedStays(s, step, c);
      LogStep(s, step);
      hide Inv, Apply, Enabled, CallOk, Delivered;
      ReceivedIsParsed(t, steps[1..], c);
    }
  }

  lemma {:induction false} ReceivedStays(s: State, step: Step, c: nat)
    requires InRange(s) && Enabled(s, step) && c < |s.calls| && s.calls[c].phase == Received && step != Decide(c)
    ensures c < |Apply(s, step).calls| && Apply(s, step).calls[c].phase == Received
  {
    hide FirstPending;
  }

  /** What a call that comes to a status saw at a look is a reply to its id, delivered after its entry
      was added and by the time it read its payload last; and it then parsed one. */
  lemma {:induction false} SeenIsDelivered(s: State, steps: seq<Step>, c: nat, k: nat)
    requires Inv(s) && Legal(s, steps)
    requires c < |Exec(s, steps).calls| && Outcome(Exec(s, steps).calls[c]).Some?
    ensures LookAt(s, steps, c, k).Some? ==>
              var t := Exec(s, steps);
              && Delivered(t.calls[c].id, t.calls[c].start, t.log, t.calls[c].readAt, LookAt(s, steps, c, k).value)
              && Parsed(s, steps, c).Some?
    decreases |steps|
  {
    if LookAt(s, steps, c, k).Some? {
      var step, t, rest := steps[0], Apply(s, steps[0]), steps[1..];
      StepKeepsInv(s, step);
      if step == Poll(c) && s.calls[c].phase == Polling(k) {
        var call := s.calls[c];
        assert CallOk(call, s.log) && t.calls[c] == PollCall(call, |s.log|) && t.log == s.log;
        hide Inv, Apply, Enabled, CallOk;
        ReceivedIsParsed(t, rest, c);
        RunKeepsCall(t, rest, c);
        LogGrows(t, rest);
        var end := Exec(s, steps);
        DeliveredLater(call, end.calls[c], s.log, end.log, |s.log|, end.calls[c].readAt, call.payload.value);
      } else {
        assert step == Decide(c) ==> CallOk(s.calls[c], s.log);
        hide Inv, Apply, Delivered;
        SeenIsDelivered(t, rest, c, k);
      }
    }
  }

  lemma {:induction false} ParsedIsDelivered(s: State, steps: seq<Step>, c: nat)
    requires Inv(s) && Legal(s, steps) && Parsed(s, steps, c).Some?
    requires c < |Exec(s, steps).calls|
    ensures var t := Exec(s, steps);
            Delivered(t.calls[c].id, t.calls[c].start, t.log, t.calls[c].readAt, Parsed(s, steps, c).value)
    decreases |steps|
  {
    var step, t, rest := steps[0], Apply(s, steps[0]), steps[1..];
    if step == Decide(c) {
      assert CallOk(s.calls[c], s.log);
      hide Inv;
      DecidedIsParsed(s, steps, c);
    } else {
      StepKeepsInv(s, step);
      hide Inv, Apply, Delivered;
      ParsedIsDelivered(t, rest, c);
    }
  }

  /** The same at the moment of parsing, whose status the run keeps. */
  lemma {:induction false} DecidedIsParsed(s: State, steps: seq<Step>, c: nat)
    requires Inv(s) && Legal(s, steps) && steps != [] && steps[0] == Decide(c)
    ensures c < |Exec(s, steps).calls|
    ensures var t, x := Exec(s, steps), Parsed(s, steps, c);
            x.Some? && Delivered(t.calls[c].id, t.calls[c].start, t.log, t.calls[c].readAt, x.value)
  {
    var t := Apply(s, steps[0]);
    StepKeepsInv(s, steps[0]);
    assert CallOk(s.calls[c], s.log) && t.calls[c] == DecideCall(s.calls[c], |s.log|);
    hide Inv, Apply, CallOk, Delivered;
    RunKeepsCall(t, steps[1..], c);
    ReceivedIsParsed(s, steps, c);
  }

  /** What a call finds when it looks at its payload, and when it parses it, are replies to its id
      that were delivered after its entry was added and by its last reading; a payload once found
      stays. */
  ghost predicate Found(call: Call, log: seq<Reply>, look: nat -> Option<Reply>, decisive: Option<Reply>) {
    && (forall k :: look(k).Some? ==> Delivered(call.id, call.start, log, call.readAt, look(k).value))
    && (decisive.Some? ==> Delivered(call.id, call.start, log, call.readAt, decisive.value))
    && (decisive == None ==> forall k :: look(k) == None)
  }

  /** For every run, with any ids, in which a call comes to a status: with the payloads that it saw at
      its looks and parsed in that run, the call alone comes to that status after sleeping as long. */
  lemma {:induction false} OutcomeIsCallAlone(steps: seq<Step>, c: nat)
    requires Legal(INIT, steps) && c < |Exec(INIT, steps).calls| && Outcome(Exec(INIT, steps).calls[c]).Some?
    ensures var s := Exec(INIT, steps);
            var call, look, decisive := s.calls[c], Looks(INIT, steps, c), Parsed(INIT, steps, c);
            && call.published.Some? && Found(call, s.log, look, decisive)
            && SameEnd(CallAlone(JustAdded(call.id, call.kind, call.timeout, call.start), call.published.value,
                                 look, decisive, call.readAt), call)
  {
    InitInv();
    RunKeepsInv(INIT, steps);
    var s := Exec(INIT, steps);
    var call, look, decisive := s.calls[c], Looks(INIT, steps, c), Parsed(INIT, steps, c);
    assert CallOk(call, s.log);
    hide Inv, Legal, Exec, Parsed, LookAt, CallAlone, Delivered;
    StartedIsAlone(INIT, steps, c, call.published.value, call.readAt);
    forall k | look(k).Some?
      ensures decisive.Some? && Delivered(call.id, call.start, s.log, call.readAt, look(k).value)
    {
      SeenIsDelivered(INIT, steps, c, k);
    }
    if decisive.Some? {
      ParsedIsDelivered(INIT, steps, c);
    }
  }

  // ------------------------------------------------------------- moments

  function Arrived(step: Step): seq<Reply> {
    if step.Arrive? then [step.reply] else []
  }

  /** The replies that arrive in a run. */
  function Arrivals(steps: seq<Step>): seq<Reply> {
    if steps == [] then [] else Arrived(steps[0]) + Arrivals(steps[1..])
  }

  lemma {:induction false} LogAfterStep(s: State, step: Step)
    requires InRange(s) && Enabled(s, step)
    ensures Apply(s, step).log == s.log + Arrived(step)
  {
    hide FirstPending;
    assert s.log + [] == s.log;
  }

  lemma {:induction false} Regroup<T>(a: seq<T>, b: seq<T>, c: seq<T>)
    ensures a + b + c == a + (b + c)
  {
  }

  /** The log of a run is what has arrived. */
  lemma {:induction false} LogIsArrivals(s: State, steps: seq<Step>)
    requires Legal(s, steps)
    ensures Exec(s, steps).log == s.log + Arrivals(steps)
    decreases |steps|
  {
    hide Apply, Enabled, Arrived;
    if steps == [] {
      assert s.log + [] == s.log;
    } else {
      LogAfterStep(s, steps[0]);
      LogIsArrivals(Apply(s, steps[0]), steps[1..]);
      Regroup(s.log, Arrived(steps[0]), Arrivals(steps[1..]));
    }
  }

  /** How many replies had been delivered when call `c` was started. */
  ghost function StartMoment(s: State, steps: seq<Step>, c: nat): nat
    requires Legal(s, steps)
    decreases |steps|
  {
    if steps == [] then 0
    else if steps[0].Start? && c == |s.calls| then |s.log|
    else StartMoment(Apply(s, steps[0]), steps[1..], c)
  }

  /** How many replies had been delivered when call `c` last read its payload, coming to a status. */
  ghost function ReadMoment(s: State, steps: seq<Step>, c: nat): nat
    requires Legal(s, steps)
    decreases |steps|
  {
    if steps == [] then 0
    else
      var t := Apply(s, steps[0]);
      if c < |s.calls| && c < |t.calls| && (steps[0] == Poll(c) || steps[0] == Decide(c))
         && Outcome(t.calls[c]).Some?
      then |s.log|
      else ReadMoment(t, steps[1..], c)
  }

  lemma {:induction false} StartedAt(s: State, steps: seq<Step>, c: nat)
    requires Inv(s) && Legal(s, steps) && |s.calls| <= c < |Exec(s, steps).calls|
    ensures Exec(s, steps).calls[c].start == StartMoment(s, steps, c)
    decreases |steps|
  {
    var t := Apply(s, steps[0]);
    StepKeepsInv(s, steps[0]);
    if steps[0].Start? && c == |s.calls| {
      assert t.calls[c].start == |s.log|;
      hide Inv, Apply;
      RunKeepsCall(t, steps[1..], c);
    } else {
      assert |t.calls| <= c;
      hide Inv, Apply;
      StartedAt(t, steps[1..], c);
    }
  }

  /** The time of the last reading, of a call that has started and has not come to a status yet. */
  lemma {:induction false} ReadWhen(s: State, steps: seq<Step>, c: nat)
    requires Inv(s) && Legal(s, steps) && c < |Exec(s, steps).calls|
    requires c < |s.calls| ==> Outcome(s.calls[c]) == None
    requires Outcome(Exec(s, steps).calls[c]).Some? && !Outcome(Exec(s, steps).calls[c]).value.PublishFailed?
    ensures Exec(s, steps).calls[c].readAt == ReadMoment(s, steps, c)
    decreases |steps|
  {
    var step, t := steps[0], Apply(s, steps[0]);
    StepKeepsInv(s, step);
    if c < |t.calls| && Outcome(t.calls[c]).Some? {
      ReadNow(s, step, c);
      hide Inv, Apply, Enabled;
      RunKeepsCall(t, steps[1..], c);
    } else {
      hide Inv, Apply;
      ReadWhen(t, steps[1..], c);
    }
  }

  /** The step in which a call comes to a status. */
  lemma {:induction false} ReadNow(s: State, step: Step, c: nat)
    requires InRange(s) && Enabled(s, step) && c < |Apply(s, step).calls| && Outcome(Apply(s, step).calls[c]).Some?
    requires c < |s.calls| ==> Outcome(s.calls[c]) == None
    ensures c < |s.calls|
    ensures !Outcome(Apply(s, step).calls[c]).value.PublishFailed? ==>
              (step == Poll(c) || step == Decide(c)) && Apply(s, step).calls[c].readAt == |s.log|
  {
    hide FirstPending;
  }

  /** The marks of a call that the statements about replies use are the moments of the run that they
      stand for: its start, and its last reading. */
  lemma {:induction false} MarksAreMoments(steps: seq<Step>, c: nat)
    requires Legal(INIT, steps) && c < |Exec(INIT, steps).calls|
    ensures var s := Exec(INIT, steps);
            && s.log == Arrivals(steps)
            && s.calls[c].start == StartMoment(INIT, steps, c)
            && (Outcome(s.calls[c]).Some? && !Outcome(s.calls[c]).value.PublishFailed? ==>
                  s.calls[c].readAt == ReadMoment(INIT, steps, c))
  {
    InitInv();
    LogIsArrivals(INIT, steps);
    assert INIT.log + Arrivals(steps) == Arrivals(steps);
    StartedAt(INIT, steps, c);
    if Outcome(Exec(INIT, steps).calls[c]).Some? && !Outcome(Exec(INIT, steps).calls[c]).value.PublishFailed? {
      ReadWhen(INIT, steps, c);
    }
  }

  // ----------------------------------------------------------- completion

  /** How many steps a call has yet to take at most. */
  function Remaining(call: Call): int {
    match call.phase
    case Added => 14
    case Polling(k) => 13 - k
    case Received => 2
    case Decided(_) => 1
    case Returned(_, _) => 0
  }

  /** Of the call's own steps one, and no other but for the status of the publish, can be taken until
      the call has returned, and then none. */
  lemma {:induction false} OwnStep(s: State, c: nat, code: int) returns (step: Step)
    requires Inv(s) && c < |s.calls|
    ensures Enabled(s, step) <==> !s.calls[c].phase.Returned?
    ensures !step.Start? && !step.Arrive? && step.c == c && (step.Publish? ==> step.code == code)
    ensures forall other: Step :: !other.Start? && !other.Arrive? && other.c == c && Enabled(s, other) ==>
              other == step || (other.Publish? && step.Publish?)
    ensures Enabled(s, step) ==> c < |Apply(s, step).calls| && Remaining(Apply(s, step).calls[c]) < Remaining(s.calls[c])
  {
    assert CallOk(s.calls[c], s.log);
    hide Inv, FirstPending;
    step := match s.calls[c].phase
      case Added => Publish(c, code)
      case Polling(_) => Poll(c)
      case Received => Decide(c)
      case _ => Remove(c);
  }

  /** From any state of the invariant, a call can return with at most 14 steps, all its own. */
  lemma {:induction false} CallFinishes(s: State, c: nat, code: int) returns (steps: seq<Step>)
    requires Inv(s) && c < |s.calls|
    ensures |steps| <= Remaining(s.calls[c]) <= 14
    ensures forall i :: 0 <= i < |steps| ==> !steps[i].Start? && !steps[i].Arrive? && steps[i].c == c
    ensures Legal(s, steps) && c < |Exec(s, steps).calls| && Exec(s, steps).calls[c].phase.Returned?
    decreases Remaining(s.calls[c])
  {
    assert CallOk(s.calls[c], s.log);
    if s.calls[c].phase.Returned? {
      steps := [];
    } else {
      var step := OwnStep(s, c, code);
      StepKeepsInv(s, step);
      hide Inv, Apply, Enabled, Remaining;
      var rest := CallFinishes(Apply(s, step), c, code);
      steps := [step] + rest;
      assert steps[1..] == rest;
    }
  }

  // ------------------------------------------------------ every trace occurs

  /** One call, with its entry in the list. */
  function One(call: Call, log: seq<Reply>): State {
    State([call], [0], log)
  }

  /** One unfolding of a run and of what a call sees in it. */
  lemma {:induction false} FollowTrace(s: State, step: Step, t: State, rest: seq<Step>, c: nat)
    requires InRange(s) && Enabled(s, step) && t == Apply(s, step) && Legal(t, rest)
    ensures Legal(s, [step] + rest) && Exec(s, [step] + rest) == Exec(t, rest)
    ensures forall k :: LookAt(s, [step] + rest, c, k) ==
              if step == Poll(c) && s.calls[c].phase == Polling(k) then s.calls[c].payload else LookAt(t, rest, c, k)
    ensures Parsed(s, [step] + rest, c) == if step == Decide(c) then s.calls[c].payload else Parsed(t, rest, c)
  {
    assert ([step] + rest)[1..] == rest;
  }

  lemma {:induction false} OnePoll(call: Call, log: seq<Reply>)
    requires call.phase.Polling?
    ensures Enabled(One(call, log), Poll(0)) && Apply(One(call, log), Poll(0)) == One(PollCall(call, |log|), log)
  {
  }

  lemma {:induction false} OneDecide(call: Call, log: seq<Reply>)
    requires call.phase == Received
    ensures Enabled(One(call, log), Decide(0)) && Apply(One(call, log), Decide(0)) == One(DecideCall(call, |log|), log)
  {
  }

  lemma {:induction false} OneArrive(call: Call, log: seq<Reply>, r: Reply)
    requires r.requestId == call.id
    ensures Apply(One(call, log), Arrive(r)) == One(call.(payload := Some(r)), log + [r])
  {
    assert PendingIds(One(call, log)) == [call.id];
  }

  /** A reply arrives, is seen, another one arrives in its place and is parsed. */
  lemma {:induction false} SeenAndParsed(call: Call, log: seq<Reply>, r: Reply, x: Reply)
    requires call.phase.Polling? && r.requestId == x.requestId == call.id
    ensures var steps := [Arrive(r)] + ([Poll(0)] + ([Arrive(x)] + ([Decide(0)] + [])));
            && Legal(One(call, log), steps) && |Exec(One(call, log), steps).calls| == 1
            && Exec(One(call, log), steps).calls[0] ==
                 call.(phase := Decided(StatusOf(call.kind, x.retCode)), payload := Some(x), readAt := |log| + 2)
            && LookAt(One(call, log), steps, 0, call.phase.loop) == Some(r)
            && Parsed(One(call, log), steps, 0) == Some(x)
  {
    var a := call.(payload := Some(r));
    var b := PollCall(a, |log| + 1);
    var d := b.(payload := Some(x));
    var e := DecideCall(d, |log| + 2);
    OneArrive(call, log, r);
    OnePoll(a, log + [r]);
    OneArrive(b, log + [r], x);
    OneDecide(d, log + [r] + [x]);
    var end := One(e, log + [r] + [x]);
    assert Legal(end, []) && Exec(end, []) == end;
    hide Apply, Enabled, Legal, Exec, LookAt, Parsed;
    FollowTrace(One(d, log + [r] + [x]), Decide(0), end, [], 0);
    FollowTrace(One(b, log + [r]), Arrive(x), One(d, log + [r] + [x]), [Decide(0)] + [], 0);
    FollowTrace(One(a, log + [r]), Poll(0), One(b, log + [r]), [Arrive(x)] + ([Decide(0)] + []), 0);
    FollowTrace(One(call, log), Arrive(r), One(a, log + [r]), [Poll(0)] + ([Arrive(x)] + ([Decide(0)] + [])), 0);
  }

  lemma {:induction false} LastPoll(call: Call, log: seq<Reply>)
    requires call.phase == Polling(POLLS) && call.payload == None
    ensures var steps := [Poll(0)] + [];
            && Legal(One(call, log), steps) && |Exec(One(call, log), steps).calls| == 1
            && Exec(One(call, log), steps).calls[0] == PollCall(call, |log|)
            && LookAt(One(call, log), steps, 0, POLLS) == None && Parsed(One(call, log), steps, 0) == None
  {
    OnePoll(call, log);
    var end := One(PollCall(call, |log|), log);
    assert Legal(end, []) && Exec(end, []) == end;
    FollowTrace(One(call, log), Poll(0), end, [], 0);
  }

  /** A call after `n` looks that found nothing. */
  function Waited(call: Call, n: nat): (after: Call)
    requires call.phase.Polling? && call.payload == None && call.phase.loop + n <= POLLS
    ensures after == call.(phase := Polling(call.phase.loop + n), slept := after.slept)
    decreases n
  {
    if n == 0 then call else Waited(PollCall(call, 0), n - 1)
  }

  function Polls(n: nat, rest: seq<Step>): seq<Step> {
    if n == 0 then rest else [Poll(0)] + Polls(n - 1, rest)
  }

  lemma {:induction false} Waiting(call: Call, log: seq<Reply>, n: nat, rest: seq<Step>)
    requires call.phase.Polling? && call.payload == None && call.phase.loop + n <= POLLS
    requires Legal(One(Waited(call, n), log), rest)
    ensures var s, t := One(call, log), One(Waited(call, n), log);
            && Legal(s, Polls(n, rest)) && Exec(s, Polls(n, rest)) == Exec(t, rest)
            && (forall k: nat :: LookAt(s, Polls(n, rest), 0, k) ==
                  if call.phase.loop <= k < call.phase.loop + n then None else LookAt(t, rest, 0, k))
            && Parsed(s, Polls(n, rest), 0) == Parsed(t, rest, 0)
    decreases n
  {
    hide Apply, Enabled, Legal, Exec, LookAt, Parsed;
    if n > 0 {
      var next := PollCall(call, 0);
      assert Waited(call, n) == Waited(next, n - 1) && Polls(n, rest) == [Poll(0)] + Polls(n - 1, rest);
      assert InRange(One(call, log));
      hide Waited, Polls;
      OnePoll(call, log);
      Waiting(next, log, n - 1, rest);
      FollowTrace(One(call, log), Poll(0), One(next, log), Polls(n - 1, rest), 0);
    }
  }

  /** Looks that find nothing, and from some look on replies to the id; and a payload to parse exactly
      if a look within the polling finds one. */
  ghost predicate Realistic(id: uint32, look: nat -> Option<Reply>, decisive: Option<Reply>) {
    && (forall k :: look(k).Some? ==> look(k).value.requestId == id)
    && (forall j: nat, k: nat :: j <= k && look(j).Some? ==> look(k).Some?)
    && (decisive.Some? ==> decisive.value.requestId == id)
    && (decisive.Some? <==> look(POLLS).Some?)
  }

  /** The last look of a polling: the first that finds something, or the eleventh. */
  ghost predicate LastLook(look: nat -> Option<Reply>, n: nat) {
    n <= POLLS && (forall k: nat :: k < n ==> look(k) == None) && (look(n) == None ==> n == POLLS)
  }

  lemma {:induction false} LastLookOf(look: nat -> Option<Reply>, n: nat) returns (last: nat)
    requires n <= POLLS && forall k: nat :: k < n ==> look(k) == None
    ensures LastLook(look, last)
    decreases POLLS - n
  {
    if look(n).Some? || n == POLLS {
      last := n;
    } else {
      last := LastLookOf(look, n + 1);
    }
  }

  /** Polling reads no look behind its last. */
  lemma {:induction false} SameLooks(first: Call, code: int, look: nat -> Option<Reply>, look': nat -> Option<Reply>,
                                     decisive: Option<Reply>, n: nat, d: nat)
    requires first.phase == Added && LastLook(look, n) && forall k: nat :: k <= n ==> look'(k) == look(k)
    ensures CallAlone(first, 0, look, decisive, d) == CallAlone(first, 0, look', decisive, d)
  {
    var p := PublishCall(first, 0);
    PollLooksIs(p, look, d, n);
    PollLooksIs(p, look', d, n);
    hide PollLooks;
  }

  /** What happens from the last look on. */
  ghost function Tail(found: Option<Reply>, decisive: Option<Reply>): seq<Step> {
    if found.Some? && decisive.Some?
    then [Arrive(found.value)] + ([Poll(0)] + ([Arrive(decisive.value)] + ([Decide(0)] + [])))
    else [Poll(0)] + []
  }

  lemma {:induction false} TailRealises(w: Call, found: Option<Reply>, decisive: Option<Reply>)
    requires w.phase.Polling? && w.payload == None && (found.Some? <==> decisive.Some?)
    requires if found.Some? then found.value.requestId == decisive.value.requestId == w.id else w.phase.loop == POLLS
    ensures var s, steps := One(w, []), Tail(found, decisive);
            && Legal(s, steps) && |Exec(s, steps).calls| == 1
            && (var end := Exec(s, steps).calls[0];
                && Outcome(end).Some? && end.id == w.id && end.kind == w.kind && end.timeout == w.timeout
                && end.start == w.start && end.published == w.published)
            && LookAt(s, steps, 0, w.phase.loop) == found && Parsed(s, steps, 0) == decisive
  {
    hide Legal, Exec, LookAt, Parsed;
    if found.Some? {
      SeenAndParsed(w, [], found.value, decisive.value);
    } else {
      LastPoll(w, []);
    }
  }

  lemma {:induction false} PublishedRealises(call: Call, look: nat -> Option<Reply>, decisive: Option<Reply>, n: nat)
    requires call.phase == Polling(0) && call.payload == None
    requires LastLook(look, n) && Realistic(call.id, look, decisive)
    ensures var s, steps := One(call, []), Polls(n, Tail(look(n), decisive));
            && Legal(s, steps) && |Exec(s, steps).calls| == 1
            && (var end := Exec(s, steps).calls[0];
                && Outcome(end).Some? && end.id == call.id && end.kind == call.kind && end.timeout == call.timeout
                && end.start == call.start && end.published == call.published)
            && (forall k: nat :: k <= n ==> LookAt(s, steps, 0, k) == look(k))
            && Parsed(s, steps, 0) == decisive
  {
    var w := Waited(call, n);
    hide Legal, Exec, LookAt, Parsed, Waited, Tail, Polls;
    TailRealises(w, look(n), decisive);
    Waiting(call, [], n, Tail(look(n), decisive));
  }

  /** A run of one call up to its published request. */
  lemma {:induction false} StartAndPublish(id: uint32, kind: Kind, timeout: uint32, code: int, rest: seq<Step>)
    requires Legal(One(PublishCall(JustAdded(id, kind, timeout, 0), code), []), rest)
    ensures var t, steps := One(PublishCall(JustAdded(id, kind, timeout, 0), code), []),
                            [Start(id, kind, timeout)] + ([Publish(0, code)] + rest);
            && Legal(INIT, steps) && Exec(INIT, steps) == Exec(t, rest)
            && (forall k: nat :: LookAt(INIT, steps, 0, k) == LookAt(t, rest, 0, k))
            && Parsed(INIT, steps, 0) == Parsed(t, rest, 0)
  {
    var call := JustAdded(id, kind, timeout, 0);
    assert Apply(INIT, Start(id, kind, timeout)) == One(call, []);
    assert Apply(One(call, []), Publish(0, code)) == One(PublishCall(call, code), []);
    assert Enabled(INIT, Start(id, kind, timeout)) && Enabled(One(call, []), Publish(0, code));
    hide Apply, Enabled, Legal, Exec, LookAt, Parsed;
    FollowTrace(One(call, []), Publish(0, code), One(PublishCall(call, code), []), rest, 0);
    FollowTrace(INIT, Start(id, kind, timeout), One(call, []), [Publish(0, code)] + rest, 0);
  }

  /** Every status of the publish, and all realistic looks, occur in a run: in it the call sees exactly
      them, up to its last look, and comes to the status that it comes to with them alone. */
  lemma {:induction false} LooksOccur(id: uint32, kind: Kind, timeout: uint32, code: int,
                                      look: nat -> Option<Reply>, decisive: Option<Reply>, d: nat)
    returns (steps: seq<Step>, last: nat)
    requires Realistic(id, look, decisive)
    ensures Legal(INIT, steps) && |Exec(INIT, steps).calls| == 1 && LastLook(look, last)
    ensures code == 0 ==>
              && (forall k: nat :: k <= last ==> LookAt(INIT, steps, 0, k) == look(k))
              && Parsed(INIT, steps, 0) == decisive
    ensures var call, first := Exec(INIT, steps).calls[0], JustAdded(id, kind, timeout, 0);
            && call.id == id && call.kind == kind && call.timeout == timeout && Outcome(call).Some?
            && SameEnd(CallAlone(first, code, look, decisive, d), call)
  {
    last := LastLookOf(look, 0);
    var first := JustAdded(id, kind, timeout, 0);
    var call := PublishCall(first, code);
    if code != 0 {
      steps := [Start(id, kind, timeout)] + ([Publish(0, code)] + []);
      assert Legal(One(call, []), []) && Exec(One(call, []), []) == One(call, []);
      hide Legal, Exec, LookAt, Parsed;
      StartAndPublish(id, kind, timeout, code, []);
    } else {
      var rest := Polls(last, Tail(look(last), decisive));
      steps := [Start(id, kind, timeout)] + ([Publish(0, code)] + rest);
      hide Legal, Exec, LookAt, Parsed, Polls, Tail, LastLook, Realistic, CallAlone;
      PublishedRealises(call, look, decisive, last);
      StartAndPublish(id, kind, timeout, code, rest);
      OutcomeIsCallAlone(steps, 0);
      SameLooks(first, code, look, Looks(INIT, steps, 0), decisive, last, Exec(INIT, steps).calls[0].readAt);
      AloneAlike(first, code, look, look, decisive, d);
      EndWhenever(first, code, look, decisive, d, Exec(INIT, steps).calls[0].readAt);
    }
  }

  /** When the payload was read does not matter for the end. */
  lemma {:induction false} EndWhenever(first: Call, code: int, look: nat -> Option<Reply>, x: Option<Reply>,
                                       d: nat, d': nat)
    ensures SameEnd(CallAlone(first, code, look, x, d), CallAlone(first, code, look, x, d'))
  {
    var p := PublishCall(first, code);
    if p.phase.Polling? {
      PollLooksAlike(p, p, look, look, d, d');
    }
    hide PollLooks;
  }
}
