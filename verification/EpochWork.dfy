// What the rounds of the epoch barrier get done (benches/allocator_parallel.cpp:38-99): every worker allocates
// its batch in every epoch, a refusal is reported and ends the rounds, and no round gets stuck.

module EpochWork {
  import opened EpochBarrier

  // ---------- how many blocks a worker was given ----------

  /** Blocks handed out to worker w. */
  function Owned(owners: seq<nat>, w: nat): nat {
    if owners == [] then 0 else Owned(owners[..|owners| - 1], w) + if owners[|owners| - 1] == w then 1 else 0
  }

  lemma {:induction false} OwnedPush(owners: seq<nat>, o: nat, w: nat)
    ensures Owned(owners + [o], w) == Owned(owners, w) + if o == w then 1 else 0
  {
    assert (owners + [o])[..|owners|] == owners;
  }

  /** A batch for each epoch entered, up to where the worker is in the last one. */
  function Due(c: Config, me: Worker): int {
    if me.pc.Allocating? then c.batch * (me.runs - 1) + me.pc.i else c.batch * me.runs
  }

  ghost predicate PaidOk(c: Config, s: State, w: nat)
    requires w < |s.workers|
  {
    s.workers[w].pc == Reporting(true) || Owned(s.owners, w) == Due(c, s.workers[w])
  }

  /** As long as no failure has been reported, whoever was not refused has what is due. */
  ghost predicate Paid(c: Config, s: State) {
    !s.failed ==> forall w :: 0 <= w < |s.workers| ==> PaidOk(c, s, w)
  }

  lemma {:induction false} DueMoves(c: Config, s: State, me: Worker, refused: bool)
    requires WorkerOk(c, s.phase, s.epoch, s.stop, me)
    ensures var me' := Move(c, s.epoch, s.stop, s.freeing, me, refused);
            me'.pc == Reporting(true) || me.pc == Reporting(true) || Due(c, me') == Due(c, me) + if Allocates(c, me, refused) then 1 else 0
  {
    if me.pc.Waiting? {
      assert c.batch * (me.runs + 1 - 1) == c.batch * me.runs;
    } else if me.pc.Allocating? && me.pc.i == c.batch {
      assert c.batch * (me.runs - 1) + c.batch == c.batch * me.runs;
    }
  }

  lemma {:induction false} WorkPaid(c: Config, s: State, w: nat, refused: bool)
    requires Inv(c, s) && Paid(c, s) && w < |s.workers|
    ensures Paid(c, WorkStep(c, s, w, refused))
  {
    hide Inv, Move, Due, WorkerOk, Owned;
    var me, s' := s.workers[w], WorkStep(c, s, w, refused);
    WorkerOf(c, s, w);
    DueMoves(c, s, me, refused);
    if !s'.failed {
      forall u | 0 <= u < |s'.workers|
        ensures PaidOk(c, s', u)
      {
        assert PaidOk(c, s, u);
        OwnedPush(s.owners, w, u);
      }
    }
  }

  lemma {:induction false} WorkerOf(c: Config, s: State, w: nat)
    requires Inv(c, s) && w < |s.workers|
    ensures WorkerOk(c, s.phase, s.epoch, s.stop, s.workers[w])
  {
  }

  lemma {:induction false} StepPaid(c: Config, s: State, e: Event)
    requires Inv(c, s) && Paid(c, s)
    ensures Paid(c, Step(c, s, e))
  {
    hide Inv, Due, Owned, WorkStep;
    match e
    case Work(w, refused) => if w < |s.workers| { WorkPaid(c, s, w, refused); }
    case _ =>
      forall w | 0 <= w < |s.workers| && !s.failed
        ensures PaidOk(c, Step(c, s, e), w)
      {
        assert PaidOk(c, s, w);
      }
  }

  lemma {:induction false} RunPaid(c: Config, workers: nat, events: seq<Event>)
    ensures Paid(c, Run(c, Init(workers), events))
    decreases |events|
  {
    hide Step, Inv;
    if events != [] {
      RunPaid(c, workers, events[..|events| - 1]);
      RunInv(c, workers, events[..|events| - 1]);
      StepPaid(c, Run(c, Init(workers), events[..|events| - 1]), events[|events| - 1]);
    }
  }

  // ---------- all blocks together ----------

  function Sum(owners: seq<nat>, n: nat): nat {
    if n == 0 then 0 else Sum(owners, n - 1) + Owned(owners, n - 1)
  }

  lemma {:induction false} SumPush(owners: seq<nat>, o: nat, n: nat)
    ensures Sum(owners + [o], n) == Sum(owners, n) + if o < n then 1 else 0
    decreases n
  {
    hide Owned;
    if n > 0 {
      SumPush(owners, o, n - 1);
      OwnedPush(owners, o, n - 1);
    }
  }

  lemma {:induction false} SumEmpty(n: nat)
    ensures Sum([], n) == 0
    decreases n
  {
    if n > 0 { SumEmpty(n - 1); }
  }

  lemma {:induction false} SumAll(owners: seq<nat>, n: nat)
    requires forall b :: 0 <= b < |owners| ==> owners[b] < n
    ensures Sum(owners, n) == |owners|
    decreases |owners|
  {
    if owners == [] {
      SumEmpty(n);
    } else {
      var m := |owners| - 1;
      SumAll(owners[..m], n);
      SumPush(owners[..m], owners[m], n);
      assert owners == owners[..m] + [owners[m]];
    }
  }

  lemma {:induction false} SumEqual(owners: seq<nat>, n: nat, k: nat)
    requires forall w :: 0 <= w < n ==> Owned(owners, w) == k
    ensures Sum(owners, n) == n * k
    decreases n
  {
    if n > 0 {
      SumEqual(owners, n - 1, k);
      assert n * k == (n - 1) * k + k;
    }
  }

  lemma {:induction false} GoneSize(log: seq<Freed>)
    requires forall i, j :: 0 <= i < j < |log| ==> log[i].block != log[j].block
    ensures |Gone(log)| == |log|
    decreases |log|
  {
    if log == [] {
      assert Gone(log) == {};
    } else {
      var n := |log| - 1;
      GoneSize(log[..n]);
      GonePush(log[..n], log[n]);
      assert log == log[..n] + [log[n]];
      assert log[n].block !in Gone(log[..n]);
    }
  }

  function Below(n: nat): (r: set<nat>)
    ensures forall b: nat :: b in r <==> b < n
  {
    if n == 0 then {} else Below(n - 1) + {n - 1}
  }

  lemma {:induction false} BelowSize(n: nat)
    ensures |Below(n)| == n
    decreases n
  {
    if n > 0 { BelowSize(n - 1); }
  }

  lemma {:induction false} OwnersSmall(c: Config, s: State)
    requires Inv(c, s)
    ensures forall b :: 0 <= b < |s.owners| ==> s.owners[b] < |s.workers|
  {
    hide SlotOk, WorkerOk, BusyCount;
    forall b | 0 <= b < |s.owners|
      ensures s.owners[b] < |s.workers|
    {
      if b in Gone(s.log) {
        var i :| 0 <= i < |s.log| && s.log[i].block == b;
        assert FreedOk(c, |s.workers|, s.owners, s.log[i]);
      } else {
        var x :| x in s.held && s.held[x] == b;
      }
    }
  }

  /**
   * In every run: when no round is under way and no failure was reported, every worker has been given exactly its
   * batch in every epoch there was, and all of it was released.
   */
  lemma {:induction false} BatchesDone(c: Config, workers: nat, events: seq<Event>)
    requires Run(c, Init(workers), events).phase.Idle? && !Run(c, Init(workers), events).failed
    ensures var s := Run(c, Init(workers), events);
            && (forall w :: 0 <= w < workers ==> Owned(s.owners, w) == c.batch * s.epoch)
            && |s.owners| == workers * (c.batch * s.epoch) && |s.log| == |s.owners|
  {
    RunInv(c, workers, events);
    RunPaid(c, workers, events);
    RoundReturns(c, workers, events);
    ReleasedOnce(c, workers, events);
    hide Run, Owned, BusyCount, SlotOk, BlocksOk, Gone;
    var s := Run(c, Init(workers), events);
    forall w | 0 <= w < workers
      ensures Owned(s.owners, w) == c.batch * s.epoch
    {
      WorkerOf(c, s, w);
      assert PaidOk(c, s, w);
    }
    OwnersSmall(c, s);
    SumAll(s.owners, workers);
    SumEqual(s.owners, workers, c.batch * s.epoch);
    GoneSize(s.log);
    BelowSize(|s.owners|);
    assert Gone(s.log) == Below(|s.owners|);
  }

  // ---------- refusals ----------

  /** In state s, event e is the refusal of an allocation that worker w asked for. */
  predicate Refuses(c: Config, s: State, e: Event, w: nat) {
    w < |s.workers| && e == Work(w, true) && s.workers[w].pc.Allocating? && s.workers[w].pc.i != c.batch
  }

  predicate ByWorker(e: Event, w: nat) {
    e.Work? && e.w == w
  }

  /** Event k refused an allocation of worker w. */
  ghost predicate RefusedAt(c: Config, s: State, events: seq<Event>, k: nat, w: nat)
    requires k < |events|
  {
    Refuses(c, Run(c, s, events[..k]), events[k], w)
  }

  /** Event k refused worker w, and event m is a later one of that worker: its report, if it is the first. */
  ghost predicate Reported(c: Config, s: State, events: seq<Event>, k: nat, m: nat, w: nat)
    requires k < m < |events|
  {
    RefusedAt(c, s, events, k, w) && ByWorker(events[m], w)
  }

  /** Worker w was refused, and has done nothing since. */
  ghost predicate Unreported(c: Config, s: State, events: seq<Event>, w: nat) {
    exists k :: 0 <= k < |events| && RefusedAt(c, s, events, k, w) && forall m :: k < m < |events| ==> !ByWorker(events[m], w)
  }

  lemma {:induction false} Fronts<T>(s: seq<T>, x: T)
    ensures forall i :: 0 <= i <= |s| ==> (s + [x])[..i] == s[..i]
  {
  }

  lemma {:induction false} RefusedPush(c: Config, s: State, events: seq<Event>, e: Event, k: nat, w: nat)
    requires k <= |events|
    ensures RefusedAt(c, s, events + [e], k, w) <==>
              if k < |events| then RefusedAt(c, s, events, k, w) else Refuses(c, Run(c, s, events), e, w)
  {
    hide Run, Refuses;
    Fronts(events, e);
    assert events[..|events|] == events;
  }

  lemma {:induction false} UnreportedPush(c: Config, s: State, events: seq<Event>, e: Event, w: nat)
    ensures Unreported(c, s, events + [e], w) <==>
              Refuses(c, Run(c, s, events), e, w) || (Unreported(c, s, events, w) && !ByWorker(e, w))
  {
    hide Run, Refuses, RefusedAt, ByWorker;
    var n, es := |events|, events + [e];
    forall k: nat | k <= n
      ensures RefusedAt(c, s, es, k, w) <==> if k < n then RefusedAt(c, s, events, k, w) else Refuses(c, Run(c, s, events), e, w)
    {
      RefusedPush(c, s, events, e, k, w);
    }
    assert es[n] == e && forall m :: 0 <= m < n ==> es[m] == events[m];
    if Refuses(c, Run(c, s, events), e, w) { assert RefusedAt(c, s, es, n, w); }
    if Unreported(c, s, events, w) && !ByWorker(e, w) {
      var k :| 0 <= k < n && RefusedAt(c, s, events, k, w) && forall m :: k < m < n ==> !ByWorker(events[m], w);
      assert RefusedAt(c, s, es, k, w);
    }
    if Unreported(c, s, es, w) && !Refuses(c, Run(c, s, events), e, w) {
      var k :| 0 <= k < n + 1 && RefusedAt(c, s, es, k, w) && forall m :: k < m < n + 1 ==> !ByWorker(es[m], w);
      assert k < n && RefusedAt(c, s, events, k, w);
    }
  }

  /** A worker is about to report a failure exactly if it was refused and has done nothing since. */
  lemma {:induction false} ReportingIff(c: Config, workers: nat, events: seq<Event>, w: nat)
    requires w < workers
    ensures var s := Run(c, Init(workers), events);
            |s.workers| == workers && (s.workers[w].pc == Reporting(true) <==> Unreported(c, Init(workers), events, w))
    decreases |events|
  {
    if events != [] {
      var n := |events| - 1;
      ReportingIff(c, workers, events[..n], w);
      UnreportedPush(c, Init(workers), events[..n], events[n], w);
      assert events == events[..n] + [events[n]];
      hide Unreported, Run;
      RunPush(c, Init(workers), events[..n], events[n]);
      ReportingStep(c, Run(c, Init(workers), events[..n]), events[n], w);
    }
  }

  lemma {:induction false} RunPush(c: Config, s: State, events: seq<Event>, e: Event)
    ensures Run(c, s, events + [e]) == Step(c, Run(c, s, events), e)
  {
    hide Step;
    assert (events + [e])[..|events|] == events;
  }

  lemma {:induction false} ReportingStep(c: Config, s: State, e: Event, w: nat)
    requires w < |s.workers|
    ensures Step(c, s, e).workers[w].pc == Reporting(true) <==>
              Refuses(c, s, e, w) || (s.workers[w].pc == Reporting(true) && !ByWorker(e, w))
    ensures Step(c, s, e).failed <==> s.failed || exists u :: 0 <= u < |s.workers| && ByWorker(e, u) && s.workers[u].pc == Reporting(true)
  {
  }

  /** Some refusal has been followed by another event of its worker. */
  ghost predicate AnyReported(c: Config, s: State, events: seq<Event>) {
    exists k, m, w: nat :: 0 <= k < m < |events| && Reported(c, s, events, k, m, w)
  }

  lemma {:induction false} AnyReportedPush(c: Config, s: State, events: seq<Event>, e: Event)
    ensures AnyReported(c, s, events + [e]) <==> AnyReported(c, s, events) || (e.Work? && Unreported(c, s, events, e.w))
  {
    hide Run, RefusedAt;
    var n, es := |events|, events + [e];
    forall k, w: nat | 0 <= k < n
      ensures RefusedAt(c, s, es, k, w) <==> RefusedAt(c, s, events, k, w)
    {
      RefusedPush(c, s, events, e, k, w);
    }
    assert es[n] == e && forall m :: 0 <= m < n ==> es[m] == events[m];
    if AnyReported(c, s, events) {
      var k, m, w: nat :| 0 <= k < m < n && Reported(c, s, events, k, m, w);
      assert Reported(c, s, es, k, m, w);
    }
    if e.Work? && Unreported(c, s, events, e.w) {
      var k :| 0 <= k < n && RefusedAt(c, s, events, k, e.w) && forall m :: k < m < n ==> !ByWorker(events[m], e.w);
      assert Reported(c, s, es, k, n, e.w);
    }
    if AnyReported(c, s, es) {
      var k, m, w: nat :| 0 <= k < m < n + 1 && Reported(c, s, es, k, m, w);
      assert RefusedAt(c, s, events, k, w);
      if j :| k < j < n && ByWorker(events[j], w) {
        assert Reported(c, s, events, k, j, w);
      } else {
        assert m == n && Unreported(c, s, events, w);
      }
    }
  }

  lemma {:induction false} NoWorker(c: Config, workers: nat, events: seq<Event>, w: nat)
    requires w >= workers
    ensures !Unreported(c, Init(workers), events, w)
  {
    hide Run;
    assert forall k :: 0 <= k < |events| ==> !RefusedAt(c, Init(workers), events, k, w);
  }

  lemma {:induction false} FailedStep(c: Config, s: State, e: Event)
    ensures Step(c, s, e).failed <==> s.failed || (e.Work? && e.w < |s.workers| && s.workers[e.w].pc == Reporting(true))
  {
  }

  /**
   * A failure is on record if and only if an allocation was refused to a worker that asked for one, and that worker
   * has reported it, which is the next thing it does.
   */
  lemma {:induction false} FailedIff(c: Config, workers: nat, events: seq<Event>)
    ensures Run(c, Init(workers), events).failed <==> AnyReported(c, Init(workers), events)
    decreases |events|
  {
    var i := Init(workers);
    if events != [] {
      var n := |events| - 1;
      var front, e := events[..n], events[n];
      FailedIff(c, workers, front);
      assert events == front + [e];
      hide Run, Step, AnyReported, Unreported;
      RunPush(c, i, front, e);
      AnyReportedPush(c, i, front, e);
      FailedStep(c, Run(c, i, front), e);
      if e.Work? {
        if e.w < workers { ReportingIff(c, workers, front, e.w); } else { NoWorker(c, workers, front, e.w); }
      }
    }
  }

  /** After that, it stays so and no epoch begins. */
  lemma {:induction false} FailedStays(c: Config, s: State, events: seq<Event>)
    requires s.failed
    ensures Run(c, s, events).failed && (s.phase.Idle? ==> Run(c, s, events).epoch == s.epoch && Run(c, s, events).phase.Idle?)
    ensures Run(c, s, events).epoch == s.epoch
    decreases |events|
  {
    if events != [] { FailedStays(c, s, events[..|events| - 1]); }
  }

  /** Until then a round begins whenever one is asked for: `failed` is the only thing that stops it short of the end. */
  lemma {:induction false} RoundBegins(c: Config, s: State)
    requires s.phase.Idle? && !s.stop
    ensures Step(c, s, Round).epoch == s.epoch + (if s.failed then 0 else 1)
    ensures s.failed <==> Step(c, s, Round).phase.Idle?
  {
  }

  // ---------- no round gets stuck ----------

  /** Steps that a worker can still take before it has to wait for `round`. */
  function Left(c: Config, phase: Phase, pc: Pc): nat {
    match pc
    case Waiting => if phase.AllocPhase? then c.batch + 3 else 0
    case Allocating(i) => if i <= c.batch then c.batch - i + 2 else 0
    case Reporting(_) => 1
    case AwaitFree => if phase.FreePhase? then c.batch + 3 else 0
    case Freeing(i) => if i <= c.batch then c.batch - i + 2 else 0
    case Finishing => 1
    case Stopped => 0
  }

  function LeftAll(c: Config, phase: Phase, ws: seq<Worker>): nat {
    if ws == [] then 0 else LeftAll(c, phase, ws[..|ws| - 1]) + Left(c, phase, ws[|ws| - 1].pc)
  }

  /** Steps until the round returns, at most. */
  function Remaining(c: Config, s: State): nat {
    LeftAll(c, s.phase, s.workers) + match s.phase case Idle => 0 case AllocPhase => 2 + |s.workers| * (c.batch + 3) case FreePhase => 1
  }

  lemma {:induction false} LeftSet(c: Config, phase: Phase, ws: seq<Worker>, w: nat, x: Worker)
    requires w < |ws|
    ensures LeftAll(c, phase, ws[w := x]) == LeftAll(c, phase, ws) - Left(c, phase, ws[w].pc) + Left(c, phase, x.pc)
    decreases |ws|
  {
    hide Left;
    var n := |ws| - 1;
    if w < n {
      LeftSet(c, phase, ws[..n], w, x);
      assert ws[w := x][..n] == ws[..n][w := x];
    } else {
      assert ws[w := x][..n] == ws[..n];
    }
  }

  lemma {:induction false} LeftMost(c: Config, phase: Phase, ws: seq<Worker>)
    ensures LeftAll(c, phase, ws) <= |ws| * (c.batch + 3)
    decreases |ws|
  {
    if ws != [] {
      LeftMost(c, phase, ws[..|ws| - 1]);
      assert |ws| * (c.batch + 3) == (|ws| - 1) * (c.batch + 3) + (c.batch + 3);
    }
  }

  lemma {:induction false} LeftNone(c: Config, phase: Phase, ws: seq<Worker>)
    requires forall w :: 0 <= w < |ws| ==> Left(c, phase, ws[w].pc) == 0
    ensures LeftAll(c, phase, ws) == 0
    decreases |ws|
  {
    if ws != [] {
      assert forall w :: 0 <= w < |ws| - 1 ==> ws[..|ws| - 1][w] == ws[w];
      LeftNone(c, phase, ws[..|ws| - 1]);
    }
  }

  /** A worker that moves has fewer steps left; and one still to be counted can move. */
  lemma {:induction false} MoveLeft(c: Config, phase: Phase, epoch: nat, freeing: bool, me: Worker, refused: bool)
    requires WorkerOk(c, phase, epoch, false, me) && (freeing <==> phase.FreePhase?) && !phase.Idle? && epoch > 0
    ensures var me' := Move(c, epoch, false, freeing, me, refused);
            && (me' == me || Left(c, phase, me'.pc) < Left(c, phase, me.pc)) && (Busy(phase, me.pc) ==> me' != me)
  {
  }

  /** While a round is under way every event either changes nothing or brings its end nearer. */
  lemma {:induction false} StepsDown(c: Config, s: State, e: Event)
    requires Inv(c, s) && !s.phase.Idle?
    ensures Step(c, s, e) == s || Remaining(c, Step(c, s, e)) < Remaining(c, s)
  {
    hide BusyCount, BlocksOk, SlotOk, Move, Left, Busy;
    match e
    case Stop =>
    case Round =>
      var s' := RoundStep(s);
      LeftMost(c, s'.phase, s.workers);
      if s.phase.FreePhase? && s.pending == 0 { IdleLeft(c, s); }
    case Work(w, refused) =>
      if w < |s.workers| {
        WorkerOf(c, s, w);
        var me := s.workers[w];
        MoveLeft(c, s.phase, s.epoch, s.freeing, me, refused);
        var me' := Move(c, s.epoch, s.stop, s.freeing, me, refused);
        LeftSet(c, s.phase, s.workers, w, me');
        if me' == me { StillWorker(c, s, w, refused); }
      }
  }

  lemma {:induction false} IdleLeft(c: Config, s: State)
    requires Inv(c, s) && s.phase.FreePhase? && s.pending == 0
    ensures LeftAll(c, Idle, s.workers) == 0
  {
    BusyNone(s.phase, s.workers);
    forall w | 0 <= w < |s.workers|
      ensures Left(c, Idle, s.workers[w].pc) == 0
    {
      WorkerOf(c, s, w);
    }
    LeftNone(c, Idle, s.workers);
  }

  lemma {:induction false} StillWorker(c: Config, s: State, w: nat, refused: bool)
    requires Inv(c, s) && !s.phase.Idle? && w < |s.workers| && Move(c, s.epoch, s.stop, s.freeing, s.workers[w], refused) == s.workers[w]
    ensures WorkStep(c, s, w, refused) == s
  {
    assert s.workers[w := s.workers[w]] == s.workers;
  }

  /** While a round is under way, something can happen: there is no deadlock. */
  lemma {:induction false} NoDeadlock(c: Config, s: State) returns (e: Event)
    requires Inv(c, s) && !s.phase.Idle?
    ensures Step(c, s, e) != s
  {
    hide BlocksOk, SlotOk, Move, Left;
    if s.pending == 0 {
      e := Round;
    } else {
      var w := BusyOne(s.phase, s.workers);
      WorkerOf(c, s, w);
      MoveLeft(c, s.phase, s.epoch, s.freeing, s.workers[w], false);
      e := Work(w, false);
      assert Step(c, s, e).workers[w] != s.workers[w];
    }
  }

  lemma {:induction false} BusyOne(phase: Phase, ws: seq<Worker>) returns (w: nat)
    requires BusyCount(phase, ws) > 0
    ensures w < |ws| && Busy(phase, ws[w].pc)
    decreases |ws|
  {
    var n := |ws| - 1;
    if Busy(phase, ws[n].pc) {
      w := n;
    } else {
      w := BusyOne(phase, ws[..n]);
    }
  }

  /** However a run has gone, a round under way can end, and after that no more than `Remaining` changes can come before. */
  lemma {:induction false} RoundEnds(c: Config, s: State) returns (more: seq<Event>)
    requires Inv(c, s)
    ensures Run(c, s, more).phase.Idle? && |more| <= Remaining(c, s)
    decreases Remaining(c, s)
  {
    if s.phase.Idle? {
      more := [];
    } else {
      hide Inv, Step, Remaining;
      var e := NoDeadlock(c, s);
      StepsDown(c, s, e);
      StepInv(c, s, e);
      var rest := RoundEnds(c, Step(c, s, e));
      more := [e] + rest;
      RunFirst(c, s, e, rest);
    }
  }

  lemma {:induction false} RunFirst(c: Config, s: State, e: Event, rest: seq<Event>)
    ensures Run(c, s, [e] + rest) == Run(c, Step(c, s, e), rest)
    decreases |rest|
  {
    hide Step;
    if rest == [] {
      assert [e] + rest == [] + [e];
      RunPush(c, s, [], e);
    } else {
      var n := |rest| - 1;
      RunFirst(c, s, e, rest[..n]);
      assert ([e] + rest)[..n + 1] == [e] + rest[..n];
    }
  }
}
