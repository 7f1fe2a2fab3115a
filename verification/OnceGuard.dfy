// One-time construction: __cxa_guard_acquire, __cxa_guard_release and __cxa_guard_abort
// (src/nostd/cxa.cpp:65-86) as atomic steps of any number of threads in any order.

module OnceGuard {
  /** Where a thread is: the atomic operation it will do next, or what it has been told. */
  datatype Pc =
    | Outside        // not using the guard
    | FirstLoad      // load initialized, on entry to acquire
    | TryLock        // compare-exchange of the lock byte
    | LoadLocked     // load initialized, holding the lock
    | BackOut        // store 0 to the lock, on the way to returning 0
    | LoadUnlocked   // load initialized after a failed compare-exchange
    | Building       // acquire returned 1: running the initialiser
    | StoreDone      // release: store 1 to initialized
    | StoreUnlock    // release: store 0 to the lock
    | AbortUnlock    // abort: store 0 to the lock
    | Told           // acquire returned 0

  /** The two guard bytes, the threads, and the number of initialisations that have completed. */
  datatype State = State(initialized: bool, locked: bool, pcs: seq<Pc>, completed: nat)

  /** What a thread outside the guard's functions may choose to do. */
  datatype Choice = Enter | Finish | Fail | Stay

  function Init(threads: nat): State {
    State(false, false, seq(threads, _ => Outside), 0)
  }

  function Goto(s: State, t: nat, pc: Pc): State
    requires t < |s.pcs|
  {
    s.(pcs := s.pcs[t := pc])
  }

  /** Thread t does its next atomic operation. Only the thread that was told to build calls release or abort. */
  function Step(s: State, t: nat, choice: Choice): (r: State)
    requires t < |s.pcs|
    ensures |r.pcs| == |s.pcs|
  {
    match s.pcs[t]
    case Outside => if choice.Enter? then Goto(s, t, FirstLoad) else s
    case FirstLoad => Goto(s, t, if s.initialized then Told else TryLock)
    case TryLock => if s.locked then Goto(s, t, LoadUnlocked) else Goto(s, t, LoadLocked).(locked := true)
    case LoadLocked => Goto(s, t, if s.initialized then BackOut else Building)
    case BackOut => Goto(s, t, Told).(locked := false)
    case LoadUnlocked => Goto(s, t, if s.initialized then Told else TryLock)
    case Building =>
      if choice.Finish? then Goto(s, t, StoreDone) else if choice.Fail? then Goto(s, t, AbortUnlock) else s
    case StoreDone => Goto(s, t, StoreUnlock).(initialized := true, completed := s.completed + 1)
    case StoreUnlock => Goto(s, t, Outside).(locked := false)
    case AbortUnlock => Goto(s, t, Outside).(locked := false)
    case Told => Goto(s, t, Outside)
  }

  predicate Holds(pc: Pc) {
    pc.LoadLocked? || pc.BackOut? || pc.Building? || pc.StoreDone? || pc.StoreUnlock? || pc.AbortUnlock?
  }

  /** Between being told to build and the end of release or abort. */
  predicate InInitialisation(pc: Pc) {
    pc.Building? || pc.StoreDone? || pc.AbortUnlock?
  }

  /** The lock byte is set exactly while one thread holds it. */
  ghost predicate LockInv(s: State) {
    && (forall t :: 0 <= t < |s.pcs| && Holds(s.pcs[t]) ==> s.locked)
    && (forall t, u :: 0 <= t < |s.pcs| && 0 <= u < |s.pcs| && Holds(s.pcs[t]) && Holds(s.pcs[u]) ==> t == u)
    && (s.locked ==> exists t :: 0 <= t < |s.pcs| && Holds(s.pcs[t]))
  }

  /** What a thread's position says about the initialized byte. */
  predicate PcOk(pc: Pc, initialized: bool) {
    && (InInitialisation(pc) ==> !initialized)
    && (pc.BackOut? || pc.StoreUnlock? || pc.Told? ==> initialized)
  }

  ghost predicate Inv(s: State) {
    && LockInv(s)
    && (forall t :: 0 <= t < |s.pcs| ==> PcOk(s.pcs[t], s.initialized))
    && s.completed == (if s.initialized then 1 else 0)
  }

  lemma {:induction false} InitInv(threads: nat)
    ensures Inv(Init(threads))
  {
  }

  lemma {:induction false} StepLock(s: State, t: nat, choice: Choice)
    requires LockInv(s) && t < |s.pcs|
    ensures LockInv(Step(s, t, choice))
  {
    var s' := Step(s, t, choice);
    if s'.locked {
      if Holds(s'.pcs[t]) {
        assert exists u :: 0 <= u < |s'.pcs| && Holds(s'.pcs[u]);
      } else {
        var u :| 0 <= u < |s.pcs| && Holds(s.pcs[u]);
        assert u != t;
        assert Holds(s'.pcs[u]);
      }
    }
  }

  lemma {:induction false} StepInv(s: State, t: nat, choice: Choice)
    requires Inv(s) && t < |s.pcs|
    ensures Inv(Step(s, t, choice))
  {
    StepLock(s, t, choice);
    var s' := Step(s, t, choice);
    forall u | 0 <= u < |s.pcs|
      ensures PcOk(s'.pcs[u], s'.initialized)
    {
      assert PcOk(s.pcs[u], s.initialized) && PcOk(s.pcs[t], s.initialized);
      if u != t && s.pcs[t].StoreDone? {
        assert Holds(s.pcs[t]) && !Holds(s.pcs[u]);
      }
    }
  }

  // ---------- every run ----------

  datatype Event = Event(thread: nat, choice: Choice)

  /** The state after the events of a run; events of threads that do not exist do nothing. */
  function Run(s: State, events: seq<Event>): (r: State)
    ensures |r.pcs| == |s.pcs|
    decreases |events|
  {
    if events == [] then s
    else
      var before := Run(s, events[..|events| - 1]);
      var e := events[|events| - 1];
      if e.thread < |before.pcs| then Step(before, e.thread, e.choice) else before
  }

  lemma {:induction false} RunInv(threads: nat, events: seq<Event>)
    ensures Inv(Run(Init(threads), events))
    decreases |events|
  {
    if events == [] {
      InitInv(threads);
    } else {
      RunInv(threads, events[..|events| - 1]);
      var before := Run(Init(threads), events[..|events| - 1]);
      var e := events[|events| - 1];
      if e.thread < |before.pcs| { StepInv(before, e.thread, e.choice); }
    }
  }

  /**
   * In every run: at most one thread is in initialisation, none once the byte is set; whoever was told
   * 0 was told so after a release; and at most one initialisation has completed.
   */
  lemma {:induction false} Safety(threads: nat, events: seq<Event>)
    ensures var s := Run(Init(threads), events);
            && (forall t, u :: 0 <= t < |s.pcs| && 0 <= u < |s.pcs| && InInitialisation(s.pcs[t]) && InInitialisation(s.pcs[u]) ==> t == u)
            && (forall t :: 0 <= t < |s.pcs| && InInitialisation(s.pcs[t]) ==> !s.initialized)
            && (forall t :: 0 <= t < |s.pcs| && s.pcs[t].Told? ==> s.initialized && s.completed == 1)
            && s.completed <= 1
  {
    RunInv(threads, events);
    var s := Run(Init(threads), events);
    assert forall t :: 0 <= t < |s.pcs| && InInitialisation(s.pcs[t]) ==> Holds(s.pcs[t]) && PcOk(s.pcs[t], s.initialized);
    assert forall t :: 0 <= t < |s.pcs| && s.pcs[t].Told? ==> PcOk(s.pcs[t], s.initialized);
  }

  /** How often an initialiser has run to its end: events in which a thread told to build chooses to finish. */
  function Finished(s: State, events: seq<Event>): nat
    decreases |events|
  {
    if events == [] then 0
    else
      var n := |events| - 1;
      var before, e := Run(s, events[..n]), events[n];
      Finished(s, events[..n]) + if e.thread < |before.pcs| && before.pcs[e.thread].Building? && e.choice.Finish? then 1 else 0
  }

  /** A finished initialiser is on its way to set the byte, or has set it. */
  lemma {:induction false} FinishedIs(threads: nat, events: seq<Event>)
    ensures var s := Run(Init(threads), events);
            Finished(Init(threads), events) ==
              if Releasing(s) then 1 else 0
    decreases |events|
  {
    if events != [] {
      var n := |events| - 1;
      var before, e := Run(Init(threads), events[..n]), events[n];
      FinishedIs(threads, events[..n]);
      RunInv(threads, events[..n]);
      hide Run, Finished;
      RunLast(Init(threads), events);
      if e.thread < |before.pcs| { FinishStep(before, e.thread, e.choice); }
    }
  }

  lemma {:induction false} RunLast(s: State, events: seq<Event>)
    requires events != []
    ensures var n := |events| - 1;
            var before, e := Run(s, events[..n]), events[n];
            && Run(s, events) == (if e.thread < |before.pcs| then Step(before, e.thread, e.choice) else before)
            && Finished(s, events) == Finished(s, events[..n]) +
                 if e.thread < |before.pcs| && before.pcs[e.thread].Building? && e.choice.Finish? then 1 else 0
  {
    hide Step;
  }

  ghost predicate Releasing(s: State) {
    s.initialized || exists t :: 0 <= t < |s.pcs| && s.pcs[t].StoreDone?
  }

  lemma {:induction false} FinishStep(s: State, t: nat, choice: Choice)
    requires Inv(s) && t < |s.pcs|
    ensures Releasing(Step(s, t, choice)) <==> Releasing(s) || (s.pcs[t].Building? && choice.Finish?)
    ensures s.pcs[t].Building? ==> !Releasing(s)
  {
    var s' := Step(s, t, choice);
    assert PcOk(s.pcs[t], s.initialized);
    if u :| 0 <= u < |s.pcs| && s.pcs[u].StoreDone? {
      assert Holds(s.pcs[u]);
      assert u != t ==> s'.pcs[u].StoreDone?;
    }
    if s.pcs[t].Building? && choice.Finish? { assert s'.pcs[t].StoreDone?; }
  }

  /** In every run at most one initialiser finishes, and nobody is told 0 before one has. */
  lemma {:induction false} FinishedOnce(threads: nat, events: seq<Event>)
    ensures var s := Run(Init(threads), events);
            && Finished(Init(threads), events) <= 1
            && (s.initialized ==> Finished(Init(threads), events) == 1)
            && (forall t :: 0 <= t < |s.pcs| && s.pcs[t].Told? ==> Finished(Init(threads), events) == 1)
            && (forall t :: 0 <= t < |s.pcs| && s.pcs[t].Building? ==> Finished(Init(threads), events) == 0)
  {
    FinishedIs(threads, events);
    Safety(threads, events);
    RunInv(threads, events);
    hide Run, Finished;
    var s := Run(Init(threads), events);
    forall t | 0 <= t < |s.pcs| && s.pcs[t].Building?
      ensures Finished(Init(threads), events) == 0
    {
      assert InInitialisation(s.pcs[t]) && Holds(s.pcs[t]);
      assert forall u :: 0 <= u < |s.pcs| && s.pcs[u].StoreDone? ==> Holds(s.pcs[u]);
    }
  }

  // ---------- whole calls, when nobody else comes between ----------

  /** Thread t takes the choices one after the other. */
  function Alone(s: State, t: nat, choices: seq<Choice>): (r: State)
    requires t < |s.pcs|
    ensures |r.pcs| == |s.pcs|
    decreases |choices|
  {
    if choices == [] then s else Step(Alone(s, t, choices[..|choices| - 1]), t, choices[|choices| - 1])
  }

  lemma {:induction false} AlonePush(s: State, t: nat, choices: seq<Choice>, c: Choice)
    requires t < |s.pcs|
    ensures Alone(s, t, []) == s && Alone(s, t, choices + [c]) == Step(Alone(s, t, choices), t, c)
  {
    hide Step;
    assert (choices + [c])[..|choices|] == choices;
  }

  lemma {:induction false} AloneTwo(s: State, t: nat, a: Choice, b: Choice)
    requires t < |s.pcs|
    ensures Alone(s, t, [a]) == Step(s, t, a) && Alone(s, t, [a, b]) == Step(Step(s, t, a), t, b)
  {
    AlonePush(s, t, [], a);
    AlonePush(s, t, [a], b);
    assert [] + [a] == [a] && [a] + [b] == [a, b];
    hide Step, Alone;
  }

  lemma {:induction false} AloneThree(s: State, t: nat, a: Choice, b: Choice, c: Choice)
    requires t < |s.pcs|
    ensures Alone(s, t, [a, b, c]) == Step(Step(Step(s, t, a), t, b), t, c)
  {
    AloneTwo(s, t, a, b);
    AlonePush(s, t, [a, b], c);
    assert [a, b] + [c] == [a, b, c];
    hide Step, Alone;
  }

  lemma {:induction false} AloneFour(s: State, t: nat, a: Choice, b: Choice, c: Choice, d: Choice)
    requires t < |s.pcs|
    ensures Alone(s, t, [a, b, c, d]) == Step(Step(Step(Step(s, t, a), t, b), t, c), t, d)
  {
    AloneThree(s, t, a, b, c);
    AlonePush(s, t, [a, b, c], d);
    assert [a, b, c] + [d] == [a, b, c, d];
    hide Step, Alone;
  }

  function Events(t: nat, choices: seq<Choice>): seq<Event> {
    seq(|choices|, i requires 0 <= i < |choices| => Event(t, choices[i]))
  }

  /** ... which is a run like any other. */
  lemma {:induction false} AloneIsRun(s: State, t: nat, choices: seq<Choice>)
    requires t < |s.pcs|
    ensures Run(s, Events(t, choices)) == Alone(s, t, choices)
    decreases |choices|
  {
    hide Step;
    if choices != [] {
      var n := |choices| - 1;
      AloneIsRun(s, t, choices[..n]);
      assert Events(t, choices)[..n] == Events(t, choices[..n]);
    }
  }

  lemma {:induction false} RunJoin(s: State, a: seq<Event>, b: seq<Event>)
    ensures Run(s, a + b) == Run(Run(s, a), b)
    decreases |b|
  {
    hide Step;
    if b == [] {
      assert a + b == a;
    } else {
      var n := |b| - 1;
      assert (a + b)[..|a| + n] == a + b[..n];
      RunJoin(s, a, b[..n]);
    }
  }

  /** `__cxa_guard_acquire`, alone: 0 at once if the byte is set, otherwise 1 with the lock if it is free. */
  lemma {:induction false} AcquireAlone(s: State, t: nat)
    requires t < |s.pcs| && s.pcs[t].Outside?
    ensures s.initialized ==> Alone(s, t, [Enter, Stay]) == Goto(s, t, Told)
    ensures !s.initialized && !s.locked ==> Alone(s, t, [Enter, Stay, Stay, Stay]) == Goto(s, t, Building).(locked := true)
  {
    AloneTwo(s, t, Enter, Stay);
    AloneFour(s, t, Enter, Stay, Stay, Stay);
  }

  /** While another thread has the lock and the byte is not set, acquire goes round in its loop and changes nothing. */
  lemma {:induction false} AcquireSpins(s: State, t: nat)
    requires t < |s.pcs| && s.pcs[t].TryLock? && s.locked
    ensures Alone(s, t, [Stay, Stay]) == if s.initialized then Goto(s, t, Told) else s
  {
    AloneTwo(s, t, Stay, Stay);
  }

  /** The byte may be set between the first load and the lock: then the lock goes back. */
  lemma {:induction false} AcquireBacksOut(s: State, t: nat)
    requires t < |s.pcs| && s.pcs[t].TryLock? && !s.locked && s.initialized
    ensures Alone(s, t, [Stay, Stay, Stay]) == Goto(s, t, Told)
  {
    AloneThree(s, t, Stay, Stay, Stay);
  }

  /** `__cxa_guard_release`: the byte is set and then the lock free. */
  lemma {:induction false} ReleaseAlone(s: State, t: nat)
    requires t < |s.pcs| && s.pcs[t].Building?
    ensures Alone(s, t, [Finish, Stay, Stay]) ==
              Goto(s, t, Outside).(initialized := true, locked := false, completed := s.completed + 1)
  {
    AloneThree(s, t, Finish, Stay, Stay);
  }

  /** `__cxa_guard_abort`: the lock is free and the byte as it was. */
  lemma {:induction false} AbortAlone(s: State, t: nat)
    requires t < |s.pcs| && s.pcs[t].Building?
    ensures Alone(s, t, [Fail, Stay]) == Goto(s, t, Outside).(locked := false)
  {
    AloneTwo(s, t, Fail, Stay);
  }

  /** From any state of any run, after a release no thread that enters is ever told to build. */
  lemma {:induction false} NeverAgain(threads: nat, events: seq<Event>, more: seq<Event>)
    requires Run(Init(threads), events).initialized
    ensures var s := Run(Run(Init(threads), events), more);
            s.initialized && forall t :: 0 <= t < |s.pcs| ==> !InInitialisation(s.pcs[t])
  {
    StaysInitialized(Run(Init(threads), events), more);
    RunInv(threads, events);
    InvAfter(Run(Init(threads), events), more);
    var s := Run(Run(Init(threads), events), more);
    hide Run;
    assert forall t :: 0 <= t < |s.pcs| ==> PcOk(s.pcs[t], s.initialized);
  }

  lemma {:induction false} InvAfter(s: State, events: seq<Event>)
    requires Inv(s)
    ensures Inv(Run(s, events))
    decreases |events|
  {
    hide Inv, Step;
    if events != [] {
      InvAfter(s, events[..|events| - 1]);
      var before := Run(s, events[..|events| - 1]);
      var e := events[|events| - 1];
      if e.thread < |before.pcs| { StepInv(before, e.thread, e.choice); }
    }
  }

  // ---------- nobody is stuck ----------

  /** Whoever holds the lock, alone, comes to give it back; unless it aborts, the byte is set then. */
  lemma {:induction false} HolderOn(s: State, t: nat) returns (choices: seq<Choice>)
    requires Inv(s) && t < |s.pcs| && Holds(s.pcs[t])
    ensures var r := Alone(s, t, choices); !r.locked && (s.pcs[t].AbortUnlock? || r.initialized)
  {
    assert PcOk(s.pcs[t], s.initialized);
    match s.pcs[t]
    case LoadLocked =>
      if s.initialized {
        choices := [Stay, Stay];
        AloneTwo(s, t, Stay, Stay);
      } else {
        choices := [Stay, Finish, Stay, Stay];
        AloneFour(s, t, Stay, Finish, Stay, Stay);
      }
    case Building =>
      choices := [Finish, Stay, Stay];
      ReleaseAlone(s, t);
    case StoreDone =>
      choices := [Stay, Stay];
      AloneTwo(s, t, Stay, Stay);
    case _ =>
      choices := [Stay];
      AloneTwo(s, t, Stay, Stay);
  }

  /** With the lock free, a thread outside that enters, alone, builds and sets the byte. */
  lemma {:induction false} OutsiderOn(s: State, t: nat) returns (choices: seq<Choice>)
    requires Inv(s) && t < |s.pcs| && !s.locked && !s.initialized
    ensures Alone(s, t, choices).initialized
  {
    assert PcOk(s.pcs[t], s.initialized) && !Holds(s.pcs[t]);
    var begin := match s.pcs[t] case Outside => [Enter, Stay, Stay] case TryLock => [Stay] case _ => [Stay, Stay];
    choices := begin + [Stay, Finish, Stay];
    AlonePush(s, t, begin, Stay);
    AlonePush(s, t, begin + [Stay], Finish);
    AlonePush(s, t, begin + [Stay] + [Finish], Stay);
    assert begin + [Stay] + [Finish] + [Stay] == choices;
    AloneTwo(s, t, Stay, Stay);
    AloneThree(s, t, Enter, Stay, Stay);
    hide Alone;
    assert Alone(s, t, begin) == Goto(s, t, LoadLocked).(locked := true);
  }

  /** However a run has gone, it can go on so that the object is built: no step leads into a deadlock. */
  lemma {:induction false} CanComplete(threads: nat, events: seq<Event>) returns (more: seq<Event>)
    requires threads > 0
    ensures Run(Init(threads), events + more).initialized
  {
    RunInv(threads, events);
    var s := Run(Init(threads), events);
    hide Run, Step, Alone;
    if !s.initialized && s.locked {
      var t :| 0 <= t < |s.pcs| && Holds(s.pcs[t]);
      var first := HolderOn(s, t);
      AloneIsRun(s, t, first);
      more := Events(t, first);
      RunJoin(Init(threads), events, more);
      if s.pcs[t].AbortUnlock? {
        RunInv(threads, events + more);
        var r := Run(Init(threads), events + more);
        if !r.initialized {
          var second := OutsiderOn(r, t);
          AloneIsRun(r, t, second);
          RunJoin(Init(threads), events + more, Events(t, second));
          assert events + (more + Events(t, second)) == events + more + Events(t, second);
          more := more + Events(t, second);
        }
      }
    } else {
      var choices := [];
      if !s.initialized { choices := OutsiderOn(s, 0); } else { AloneNone(s, 0); }
      AloneIsRun(s, 0, choices);
      more := Events(0, choices);
      RunJoin(Init(threads), events, more);
    }
  }

  lemma {:induction false} AloneNone(s: State, t: nat)
    requires t < |s.pcs|
    ensures Alone(s, t, []) == s
  {
  }

  /** The initialized byte never goes back to 0. */
  lemma {:induction false} StaysInitialized(s: State, events: seq<Event>)
    requires s.initialized
    ensures Run(s, events).initialized
    decreases |events|
  {
    if events != [] { StaysInitialized(s, events[..|events| - 1]); }
  }

  /** The only step that sets it is the first store of a release by the thread that was told to build. */
  lemma {:induction false} SetByRelease(s: State, t: nat, choice: Choice)
    requires t < |s.pcs| && !s.initialized
    ensures Step(s, t, choice).initialized <==> s.pcs[t].StoreDone?
    ensures Step(s, t, choice).completed == s.completed + (if s.pcs[t].StoreDone? then 1 else 0)
  {
  }

  /** After an abort, another thread that comes along is given the initialisation. */
  lemma {:induction false} AbortThenRetry(threads: nat, events: seq<Event>, t: nat, u: nat)
    requires t < threads && u < threads && t != u
    requires var s := Run(Init(threads), events); |s.pcs| == threads && s.pcs[t].AbortUnlock? && s.pcs[u].Outside?
    ensures var more := [Event(t, Stay), Event(u, Enter), Event(u, Stay), Event(u, Stay), Event(u, Stay)];
            Run(Run(Init(threads), events), more).pcs[u].Building?
  {
    RunInv(threads, events);
    var s := Run(Init(threads), events);
    var more := [Event(t, Stay), Event(u, Enter), Event(u, Stay), Event(u, Stay), Event(u, Stay)];
    assert more[..5] == more && more[..4][..3] == more[..3] && more[..3][..2] == more[..2] && more[..2][..1] == more[..1] && more[..1][..0] == [];
    assert more[..5][..4] == more[..4];
    var s1 := Step(s, t, Stay);
    assert Run(s, more[..1]) == s1;
    assert Run(s, more[..2]) == Step(s1, u, Enter);
    assert Run(s, more[..3]) == Step(Step(s1, u, Enter), u, Stay);
    assert Run(s, more[..4]).pcs[u].LoadLocked?;
  }
}
