// The two-phase epoch barrier between one coordinator and its workers
// (benches/allocator_parallel.cpp:38-99), for any number of workers, any batch size and any interleaving
// of critical sections and single allocator calls.

module EpochBarrier {
  datatype Pc =
    | Waiting           // for a new epoch, or stop
    | Allocating(i: nat)
    | Reporting(failed: bool)
    | AwaitFree
    | Freeing(i: nat)
    | Finishing
    | Stopped

  /** `completed` is the local variable; `runs` counts the epochs the worker has entered. */
  datatype Worker = Worker(pc: Pc, completed: nat, runs: nat)

  datatype Phase = Idle | AllocPhase | FreePhase

  datatype Slot = Slot(row: nat, index: nat)

  /** A call of deallocate: which block, and by which worker. */
  datatype Freed = Freed(block: nat, worker: nat)

  /**
   * `held` is the pointer table, its null entries left out. Blocks are numbered as they are handed out,
   * and `owners` says to which worker; `log` is every deallocation, in order.
   */
  datatype State = State(
    epoch: nat, pending: int, freeing: bool, stop: bool, failed: bool,
    phase: Phase, workers: seq<Worker>,
    held: map<Slot, nat>, owners: seq<nat>, log: seq<Freed>)

  datatype Config = Config(batch: nat, remote: bool)

  /** What happens next: `round` goes on, the session ends, or a worker takes a step. */
  datatype Event = Round | Stop | Work(w: nat, refused: bool)

  function Init(workers: nat): State {
    State(0, 0, false, false, false, Idle, seq(workers, _ => Worker(Waiting, 0, 0)), map[], [], [])
  }

  /** The row whose blocks worker w releases. */
  function Source(c: Config, n: nat, w: nat): nat
    requires w < n
  {
    if c.remote then (w + 1) % n else w
  }

  /** The worker that releases row r. */
  function Releaser(c: Config, n: nat, r: nat): nat
    requires r < n
  {
    if !c.remote then r else if r == 0 then n - 1 else r - 1
  }

  lemma {:induction false} SourceReleaser(c: Config, n: nat, r: nat)
    requires r < n
    ensures Releaser(c, n, r) < n && Source(c, n, Releaser(c, n, r)) == r
    ensures Source(c, n, r) < n && Releaser(c, n, Source(c, n, r)) == r
  {
    SourceIs(c, n, r);
    SourceIs(c, n, Releaser(c, n, r));
    hide Source;
  }

  lemma {:induction false} SourceIs(c: Config, n: nat, w: nat)
    requires w < n
    ensures Source(c, n, w) == if !c.remote then w else if w + 1 == n then 0 else w + 1
  {
  }

  // ---------- steps ----------

  /** `round`, up to its next wait. */
  function RoundStep(s: State): State {
    match s.phase
    case Idle =>
      if s.failed || s.stop then s
      else s.(freeing := false, pending := |s.workers|, epoch := s.epoch + 1, phase := AllocPhase)
    case AllocPhase =>
      if s.pending != 0 then s else s.(freeing := true, pending := |s.workers|, phase := FreePhase)
    case FreePhase =>
      if s.pending != 0 then s else s.(phase := Idle)
  }

  /** Where a worker goes next, given the shared fields that its waits look at. */
  function Move(c: Config, epoch: nat, stop: bool, freeing: bool, me: Worker, refused: bool): Worker {
    match me.pc
    case Waiting =>
      if stop then me.(pc := Stopped)
      else if epoch == me.completed then me
      else Worker(Allocating(0), epoch, me.runs + 1)
    case Allocating(i) =>
      if i == c.batch then me.(pc := Reporting(false))
      else if refused then me.(pc := Reporting(true))
      else me.(pc := Allocating(i + 1))
    case Reporting(_) => me.(pc := AwaitFree)
    case AwaitFree => if freeing then me.(pc := Freeing(0)) else me
    case Freeing(i) => if i == c.batch then me.(pc := Finishing) else me.(pc := Freeing(i + 1))
    case Finishing => me.(pc := Waiting)
    case Stopped => me
  }

  predicate Allocates(c: Config, me: Worker, refused: bool) {
    me.pc.Allocating? && me.pc.i != c.batch && !refused
  }

  predicate Releases(c: Config, me: Worker) {
    me.pc.Freeing? && me.pc.i != c.batch
  }

  /** What a step does to the pointer table and the blocks. */
  function Handle(c: Config, s: State, w: nat, refused: bool): (r: State)
    requires w < |s.workers|
  {
    var me := s.workers[w];
    if Allocates(c, me, refused) then s.(held := s.held[Slot(w, me.pc.i) := |s.owners|], owners := s.owners + [w])
    else if Releases(c, me) then
      var slot := Slot(Source(c, |s.workers|, w), me.pc.i);
      if slot in s.held then s.(held := s.held - {slot}, log := s.log + [Freed(s.held[slot], w)]) else s
    else s
  }

  /** One step of `worker`: a critical section, or one call of the allocator. */
  function WorkStep(c: Config, s: State, w: nat, refused: bool): (r: State)
    requires w < |s.workers|
    ensures |r.workers| == |s.workers|
  {
    var me := s.workers[w];
    Handle(c, s, w, refused).(
      workers := s.workers[w := Move(c, s.epoch, s.stop, s.freeing, me, refused)],
      failed := s.failed || (me.pc.Reporting? && me.pc.failed),
      pending := if me.pc.Reporting? || me.pc.Finishing? then s.pending - 1 else s.pending)
  }

  function Step(c: Config, s: State, e: Event): (r: State)
    ensures |r.workers| == |s.workers|
  {
    match e
    case Round => RoundStep(s)
    case Stop => if s.phase.Idle? then s.(stop := true) else s
    case Work(w, refused) => if w < |s.workers| then WorkStep(c, s, w, refused) else s
  }

  // ---------- counting ----------

  /** Workers still to report in this phase. */
  predicate Busy(phase: Phase, pc: Pc) {
    match phase
    case Idle => false
    case AllocPhase => pc.Waiting? || pc.Allocating? || pc.Reporting?
    case FreePhase => pc.AwaitFree? || pc.Freeing? || pc.Finishing?
  }

  function BusyCount(phase: Phase, ws: seq<Worker>): nat {
    if ws == [] then 0
    else BusyCount(phase, ws[..|ws| - 1]) + (if Busy(phase, ws[|ws| - 1].pc) then 1 else 0)
  }

  lemma {:induction false} BusySet(phase: Phase, ws: seq<Worker>, w: nat, x: Worker)
    requires w < |ws|
    ensures BusyCount(phase, ws[w := x]) ==
            BusyCount(phase, ws) - (if Busy(phase, ws[w].pc) then 1 else 0) + (if Busy(phase, x.pc) then 1 else 0)
    decreases |ws|
  {
    var n := |ws| - 1;
    if w < n {
      BusySet(phase, ws[..n], w, x);
      assert ws[w := x][..n] == ws[..n][w := x];
    } else {
      assert ws[w := x][..n] == ws[..n];
    }
  }

  lemma {:induction false} BusyNone(phase: Phase, ws: seq<Worker>)
    requires BusyCount(phase, ws) == 0
    ensures forall w :: 0 <= w < |ws| ==> !Busy(phase, ws[w].pc)
    decreases |ws|
  {
    if ws != [] {
      BusyNone(phase, ws[..|ws| - 1]);
      assert forall w :: 0 <= w < |ws| - 1 ==> ws[..|ws| - 1][w] == ws[w];
    }
  }

  lemma {:induction false} BusyAll(phase: Phase, ws: seq<Worker>)
    requires forall w :: 0 <= w < |ws| ==> Busy(phase, ws[w].pc)
    ensures BusyCount(phase, ws) == |ws|
    decreases |ws|
  {
    if ws != [] {
      assert forall w :: 0 <= w < |ws| - 1 ==> ws[..|ws| - 1][w] == ws[w];
      BusyAll(phase, ws[..|ws| - 1]);
    }
  }

  // ---------- the invariant ----------

  /** Where a worker can be, by phase, and which epoch it has entered. */
  predicate WorkerOk(c: Config, phase: Phase, epoch: nat, stop: bool, me: Worker) {
    && me.runs == me.completed
    && match phase
       case Idle => (me.pc.Waiting? || (me.pc.Stopped? && stop)) && me.completed == epoch
       case AllocPhase =>
         if me.pc.Waiting? then me.completed + 1 == epoch
         else me.completed == epoch && (me.pc.Reporting? || me.pc.AwaitFree? || (me.pc.Allocating? && me.pc.i <= c.batch))
       case FreePhase =>
         && me.completed == epoch
         && (me.pc.Waiting? || me.pc.AwaitFree? || me.pc.Finishing? || (me.pc.Freeing? && me.pc.i <= c.batch))
  }

  /** The blocks of a row that may be in the table, given where its worker and its releaser are. */
  predicate Fillable(phase: Phase, owner: Pc, releaser: Pc, index: nat) {
    match phase
    case Idle => false
    case AllocPhase => owner.Reporting? || owner.AwaitFree? || (owner.Allocating? && index < owner.i)
    case FreePhase => releaser.AwaitFree? || (releaser.Freeing? && releaser.i <= index)
  }

  ghost predicate SlotOk(c: Config, s: State, x: Slot) {
    && x.row < |s.workers| && x.index < c.batch && Releaser(c, |s.workers|, x.row) < |s.workers|
    && Fillable(s.phase, s.workers[x.row].pc, s.workers[Releaser(c, |s.workers|, x.row)].pc, x.index)
  }

  /** The blocks that have been released. */
  function Gone(log: seq<Freed>): set<nat> {
    set i | 0 <= i < |log| :: log[i].block
  }

  /** A block that was handed out, released by the worker that the row of its owner belongs to. */
  predicate FreedOk(c: Config, n: nat, owners: seq<nat>, f: Freed) {
    f.block < |owners| && owners[f.block] < n && f.worker == Releaser(c, n, owners[f.block])
  }

  /** Every release is a proper one, and none is of a block released before. */
  predicate LogOk(c: Config, n: nat, owners: seq<nat>, log: seq<Freed>) {
    && (forall i :: 0 <= i < |log| ==> FreedOk(c, n, owners, log[i]))
    && (forall i, j :: 0 <= i < j < |log| ==> log[i].block != log[j].block)
  }

  /** Every block handed out is in one slot, of its owner's row, or has been released. */
  ghost predicate BlocksOk(c: Config, n: nat, held: map<Slot, nat>, owners: seq<nat>, log: seq<Freed>) {
    && (forall x, y :: x in held && y in held && held[x] == held[y] ==> x == y)
    && (forall x :: x in held ==> x.row < n && held[x] < |owners| && owners[held[x]] == x.row && held[x] !in Gone(log))
    && LogOk(c, n, owners, log)
    && (forall b: nat :: b < |owners| ==> b in Gone(log) || b in held.Values)
  }

  ghost predicate Inv(c: Config, s: State) {
    && s.pending == BusyCount(s.phase, s.workers)
    && (s.freeing <==> s.phase.FreePhase? || (s.phase.Idle? && s.epoch > 0))
    && (s.stop ==> s.phase.Idle?) && (!s.phase.Idle? ==> s.epoch > 0)
    && (forall w :: 0 <= w < |s.workers| ==> WorkerOk(c, s.phase, s.epoch, s.stop, s.workers[w]))
    && (forall x :: x in s.held ==> SlotOk(c, s, x))
    && BlocksOk(c, |s.workers|, s.held, s.owners, s.log)
  }

  lemma {:induction false} BusyIdle(ws: seq<Worker>)
    ensures BusyCount(Idle, ws) == 0
    decreases |ws|
  {
    if ws != [] { BusyIdle(ws[..|ws| - 1]); }
  }

  lemma {:induction false} InitInv(c: Config, workers: nat)
    ensures Inv(c, Init(workers))
  {
    BusyIdle(Init(workers).workers);
  }

  lemma {:induction false} RoundInv(c: Config, s: State)
    requires Inv(c, s)
    ensures Inv(c, RoundStep(s))
  {
    var s' := RoundStep(s);
    match s.phase
    case Idle =>
      if !s.failed && !s.stop {
        assert forall w :: 0 <= w < |s.workers| ==> WorkerOk(c, s.phase, s.epoch, s.stop, s.workers[w]);
        BusyAll(AllocPhase, s.workers);
      }
    case AllocPhase =>
      if s.pending == 0 {
        BusyNone(AllocPhase, s.workers);
        assert forall w :: 0 <= w < |s.workers| ==> WorkerOk(c, s.phase, s.epoch, s.stop, s.workers[w]) && s.workers[w].pc.AwaitFree?;
        BusyAll(FreePhase, s.workers);
        forall x | x in s.held
          ensures SlotOk(c, s', x)
        {
          assert SlotOk(c, s, x);
          SourceReleaser(c, |s.workers|, x.row);
        }
      }
    case FreePhase =>
      if s.pending == 0 {
        BusyNone(FreePhase, s.workers);
        BusyIdle(s.workers);
        assert forall x :: x in s.held ==> SlotOk(c, s, x);
      }
  }

  lemma {:induction false} MoveOk(c: Config, phase: Phase, epoch: nat, stop: bool, freeing: bool, me: Worker, refused: bool)
    requires WorkerOk(c, phase, epoch, stop, me) && (freeing ==> !phase.AllocPhase?) && (stop ==> phase.Idle?)
    ensures WorkerOk(c, phase, epoch, stop, Move(c, epoch, stop, freeing, me, refused))
    ensures var busy, busy' := Busy(phase, me.pc), Busy(phase, Move(c, epoch, stop, freeing, me, refused).pc);
            if me.pc.Reporting? || me.pc.Finishing? then busy && !busy' else busy == busy'
  {
  }

  /** A worker that decrements pending is counted in it: the counter does not underflow. */
  lemma {:induction false} PendingPositive(c: Config, s: State, w: nat)
    requires Inv(c, s) && w < |s.workers| && (s.workers[w].pc.Reporting? || s.workers[w].pc.Finishing?)
    ensures s.pending > 0
  {
    hide SlotOk, BlocksOk;
    assert WorkerOk(c, s.phase, s.epoch, s.stop, s.workers[w]);
    if s.pending == 0 { BusyNone(s.phase, s.workers); }
  }

  lemma {:induction false} WorkWorkers(c: Config, s: State, w: nat, refused: bool)
    requires Inv(c, s) && w < |s.workers|
    ensures var s' := WorkStep(c, s, w, refused);
            && s'.pending == BusyCount(s'.phase, s'.workers)
            && (forall u :: 0 <= u < |s'.workers| ==> WorkerOk(c, s'.phase, s'.epoch, s'.stop, s'.workers[u]))
            && s'.phase == s.phase && s'.epoch == s.epoch && s'.stop == s.stop && s'.freeing == s.freeing
  {
    hide SlotOk, BlocksOk, Move, WorkerOk, Busy;
    assert WorkerOk(c, s.phase, s.epoch, s.stop, s.workers[w]);
    MoveOk(c, s.phase, s.epoch, s.stop, s.freeing, s.workers[w], refused);
    BusySet(s.phase, s.workers, w, Move(c, s.epoch, s.stop, s.freeing, s.workers[w], refused));
  }

  /** A filled slot stays accounted for, unless this step empties it. */
  lemma {:induction false} MoveFillable(c: Config, phase: Phase, epoch: nat, stop: bool, freeing: bool, me: Worker, refused: bool,
                                        other: Pc, index: nat)
    requires WorkerOk(c, phase, epoch, stop, me) && (freeing ==> !phase.AllocPhase?) && (stop ==> phase.Idle?) && index < c.batch
    ensures var pc := Move(c, epoch, stop, freeing, me, refused).pc;
            && (Fillable(phase, me.pc, other, index) ==> Fillable(phase, pc, other, index))
            && (Fillable(phase, other, me.pc, index) ==> Fillable(phase, other, pc, index) || (Releases(c, me) && me.pc.i == index))
            && (Fillable(phase, me.pc, me.pc, index) ==> Fillable(phase, pc, pc, index) || (Releases(c, me) && me.pc.i == index))
            && (Allocates(c, me, refused) ==> Fillable(phase, pc, other, me.pc.i) && !Fillable(phase, me.pc, other, me.pc.i))
  {
  }

  lemma {:induction false} WorkSlots(c: Config, s: State, w: nat, refused: bool)
    requires Inv(c, s) && w < |s.workers|
    ensures var s' := WorkStep(c, s, w, refused); forall x :: x in s'.held ==> SlotOk(c, s', x)
  {
    hide BlocksOk, BusyCount, Move, WorkerOk, Fillable, Releaser, Source;
    var s' := WorkStep(c, s, w, refused);
    var me := s.workers[w];
    assert WorkerOk(c, s.phase, s.epoch, s.stop, s.workers[w]);
    SourceReleaser(c, |s.workers|, w);
    forall x | x in s'.held
      ensures SlotOk(c, s', x)
    {
      if x in s.held {
        assert SlotOk(c, s, x);
        SourceReleaser(c, |s.workers|, x.row);
        var r := Releaser(c, |s.workers|, x.row);
        MoveFillable(c, s.phase, s.epoch, s.stop, s.freeing, me, refused, s.workers[if x.row == w then r else x.row].pc, x.index);
      } else {
        AllocatesBelow(c, s.phase, s.epoch, s.stop, me, refused);
        var r := Releaser(c, |s.workers|, w);
        MoveFillable(c, s.phase, s.epoch, s.stop, s.freeing, me, refused, s'.workers[r].pc, x.index);
      }
    }
  }

  lemma {:induction false} AllocatesBelow(c: Config, phase: Phase, epoch: nat, stop: bool, me: Worker, refused: bool)
    requires WorkerOk(c, phase, epoch, stop, me) && Allocates(c, me, refused)
    ensures me.pc.i < c.batch
  {
  }

  lemma {:induction false} LogMore(c: Config, n: nat, owners: seq<nat>, log: seq<Freed>, o: nat)
    requires LogOk(c, n, owners, log)
    ensures LogOk(c, n, owners + [o], log) && forall b :: b in Gone(log) ==> b < |owners|
  {
    hide Releaser;
    assert forall i :: 0 <= i < |log| ==> FreedOk(c, n, owners, log[i]);
  }

  lemma {:induction false} AllocateBlocks(c: Config, n: nat, held: map<Slot, nat>, owners: seq<nat>, log: seq<Freed>, slot: Slot)
    requires BlocksOk(c, n, held, owners, log) && slot !in held && slot.row < n
    ensures BlocksOk(c, n, held[slot := |owners|], owners + [slot.row], log)
  {
    LogMore(c, n, owners, log, slot.row);
    hide LogOk, Gone;
    var held', owners' := held[slot := |owners|], owners + [slot.row];
    assert held'[slot] == |owners|;
    forall b: nat | b < |owners'|
      ensures b in Gone(log) || b in held'.Values
    {
      if b < |owners| && b !in Gone(log) {
        var x :| x in held && held[x] == b;
        assert held'[x] == b;
      }
    }
  }

  lemma {:induction false} GonePush(log: seq<Freed>, f: Freed)
    ensures Gone(log + [f]) == Gone(log) + {f.block}
  {
    var log' := log + [f];
    assert log'[|log|] == f;
    forall b | b in Gone(log)
      ensures b in Gone(log')
    {
      var i :| 0 <= i < |log| && log[i].block == b;
      assert log'[i] == log[i];
    }
  }

  lemma {:induction false} LogPush(c: Config, n: nat, owners: seq<nat>, log: seq<Freed>, f: Freed)
    requires LogOk(c, n, owners, log) && FreedOk(c, n, owners, f) && f.block !in Gone(log)
    ensures LogOk(c, n, owners, log + [f])
  {
    hide FreedOk;
    assert forall i :: 0 <= i < |log| ==> log[i].block in Gone(log);
  }

  lemma {:induction false} ReleaseBlocks(c: Config, n: nat, held: map<Slot, nat>, owners: seq<nat>, log: seq<Freed>, slot: Slot, w: nat)
    requires BlocksOk(c, n, held, owners, log) && slot in held && slot.row < n && w == Releaser(c, n, slot.row)
    ensures BlocksOk(c, n, held - {slot}, owners, log + [Freed(held[slot], w)])
  {
    hide Releaser;
    var f := Freed(held[slot], w);
    GonePush(log, f);
    LogPush(c, n, owners, log, f);
    hide Gone, LogOk;
    forall b: nat | b < |owners|
      ensures b in Gone(log + [f]) || b in (held - {slot}).Values
    {
      if b !in Gone(log) && b != held[slot] {
        var x :| x in held && held[x] == b;
        assert x in held - {slot} && (held - {slot})[x] == b;
      }
    }
  }

  /** A slot is empty when the worker of its row comes to fill it: no block is lost from the table. */
  lemma {:induction false} SlotEmpty(c: Config, s: State, w: nat, refused: bool)
    requires Inv(c, s) && w < |s.workers| && Allocates(c, s.workers[w], refused)
    ensures Slot(w, s.workers[w].pc.i) !in s.held
  {
    hide BlocksOk, BusyCount;
    assert WorkerOk(c, s.phase, s.epoch, s.stop, s.workers[w]);
    assert Slot(w, s.workers[w].pc.i) in s.held ==> SlotOk(c, s, Slot(w, s.workers[w].pc.i));
  }

  lemma {:induction false} HandleBlocks(c: Config, s: State, w: nat, refused: bool)
    requires BlocksOk(c, |s.workers|, s.held, s.owners, s.log) && w < |s.workers|
    requires Allocates(c, s.workers[w], refused) ==> Slot(w, s.workers[w].pc.i) !in s.held
    ensures var r := Handle(c, s, w, refused); BlocksOk(c, |s.workers|, r.held, r.owners, r.log)
  {
    hide BlocksOk, Source, Releaser;
    var me, n := s.workers[w], |s.workers|;
    SourceReleaser(c, n, w);
    if Allocates(c, me, refused) {
      AllocateBlocks(c, n, s.held, s.owners, s.log, Slot(w, me.pc.i));
    } else if Releases(c, me) && Slot(Source(c, n, w), me.pc.i) in s.held {
      ReleaseBlocks(c, n, s.held, s.owners, s.log, Slot(Source(c, n, w), me.pc.i), w);
    }
  }

  lemma {:induction false} WorkBlocks(c: Config, s: State, w: nat, refused: bool)
    requires Inv(c, s) && w < |s.workers|
    ensures var r := WorkStep(c, s, w, refused); BlocksOk(c, |r.workers|, r.held, r.owners, r.log)
  {
    hide SlotOk, WorkerOk, BusyCount, Handle, BlocksOk;
    if Allocates(c, s.workers[w], refused) { SlotEmpty(c, s, w, refused); }
    HandleBlocks(c, s, w, refused);
    var s', s2 := Handle(c, s, w, refused), WorkStep(c, s, w, refused);
    assert s2.held == s'.held && s2.owners == s'.owners && s2.log == s'.log;
  }

  lemma {:induction false} StepInv(c: Config, s: State, e: Event)
    requires Inv(c, s)
    ensures Inv(c, Step(c, s, e))
  {
    match e
    case Round => RoundInv(c, s);
    case Stop => assert forall w :: 0 <= w < |s.workers| ==> WorkerOk(c, s.phase, s.epoch, s.stop, s.workers[w]);
    case Work(w, refused) =>
      if w < |s.workers| {
        WorkWorkers(c, s, w, refused);
        WorkSlots(c, s, w, refused);
        WorkBlocks(c, s, w, refused);
      }
  }

  // ---------- every run ----------

  function Run(c: Config, s: State, events: seq<Event>): (r: State)
    ensures |r.workers| == |s.workers|
    decreases |events|
  {
    if events == [] then s else Step(c, Run(c, s, events[..|events| - 1]), events[|events| - 1])
  }

  lemma {:induction false} RunInv(c: Config, workers: nat, events: seq<Event>)
    ensures Inv(c, Run(c, Init(workers), events))
    decreases |events|
  {
    if events == [] {
      InitInv(c, workers);
    } else {
      RunInv(c, workers, events[..|events| - 1]);
      StepInv(c, Run(c, Init(workers), events[..|events| - 1]), events[|events| - 1]);
    }
  }

  /** In every reachable state: no worker releases while another allocates, and each has entered each epoch once. */
  lemma {:induction false} Safety(c: Config, workers: nat, events: seq<Event>)
    ensures var s := Run(c, Init(workers), events);
            && (forall v, w :: 0 <= v < |s.workers| && 0 <= w < |s.workers| ==>
                  !(s.workers[v].pc.Allocating? && s.workers[w].pc.Freeing?))
            && (forall w :: 0 <= w < |s.workers| ==>
                  && s.workers[w].runs == s.workers[w].completed
                  && s.epoch <= s.workers[w].runs + 1 && s.workers[w].runs <= s.epoch
                  && (!s.phase.AllocPhase? ==> s.workers[w].runs == s.epoch))
            && (forall w :: 0 <= w < |s.workers| && (s.workers[w].pc.Reporting? || s.workers[w].pc.Finishing?) ==> s.pending > 0)
  {
    RunInv(c, workers, events);
    var s := Run(c, Init(workers), events);
    assert forall w :: 0 <= w < |s.workers| ==> WorkerOk(c, s.phase, s.epoch, s.stop, s.workers[w]);
    forall w | 0 <= w < |s.workers| && (s.workers[w].pc.Reporting? || s.workers[w].pc.Finishing?)
      ensures s.pending > 0
    {
      PendingPositive(c, s, w);
    }
  }

  /** When `round` has returned, every slot is null and every block handed out has been released. */
  lemma {:induction false} RoundReturns(c: Config, workers: nat, events: seq<Event>)
    ensures var s := Run(c, Init(workers), events);
            s.phase.Idle? ==> s.held == map[] && s.pending == 0 && forall b: nat :: b < |s.owners| <==> b in Gone(s.log)
  {
    RunInv(c, workers, events);
    var s := Run(c, Init(workers), events);
    if s.phase.Idle? {
      BusyIdle(s.workers);
      if x :| x in s.held { NoneIdle(c, s, x); }
      assert forall i :: 0 <= i < |s.log| ==> FreedOk(c, |s.workers|, s.owners, s.log[i]);
    }
  }

  lemma {:induction false} NoneIdle(c: Config, s: State, x: Slot)
    requires Inv(c, s) && x in s.held
    ensures !s.phase.Idle?
  {
    assert SlotOk(c, s, x);
  }

  /**
   * In every run: no block is released twice, none that was not handed out, and each by the worker next
   * before its owner (in remote mode) or by its owner. With RoundReturns: exactly once per block.
   */
  lemma {:induction false} ReleasedOnce(c: Config, workers: nat, events: seq<Event>)
    ensures var s := Run(c, Init(workers), events);
            && (forall i, j :: 0 <= i < j < |s.log| ==> s.log[i].block != s.log[j].block)
            && (forall i :: 0 <= i < |s.log| ==>
                  && s.log[i].block < |s.owners| && s.owners[s.log[i].block] < workers
                  && s.log[i].worker < workers && Source(c, workers, s.log[i].worker) == s.owners[s.log[i].block])
  {
    RunInv(c, workers, events);
    var s := Run(c, Init(workers), events);
    assert |s.workers| == workers;
    hide Source, Releaser, BusyCount, SlotOk, WorkerOk, Run;
    forall i | 0 <= i < |s.log|
      ensures s.log[i].block < |s.owners| && s.owners[s.log[i].block] < workers
      ensures s.log[i].worker < workers && Source(c, workers, s.log[i].worker) == s.owners[s.log[i].block]
    {
      assert FreedOk(c, workers, s.owners, s.log[i]);
      SourceReleaser(c, workers, s.owners[s.log[i].block]);
    }
  }

  /** What is released next has not been released before, and it leaves the table. */
  lemma {:induction false} ReleaseNext(c: Config, workers: nat, events: seq<Event>, w: nat)
    requires var s := Run(c, Init(workers), events);
             && w < |s.workers| && Releases(c, s.workers[w])
             && Slot(Source(c, |s.workers|, w), s.workers[w].pc.i) in s.held
    ensures var s := Run(c, Init(workers), events);
            var b := s.held[Slot(Source(c, |s.workers|, w), s.workers[w].pc.i)];
            var s' := WorkStep(c, s, w, false);
            b !in Gone(s.log) && s'.log == s.log + [Freed(b, w)] && b !in s'.held.Values
  {
    RunInv(c, workers, events);
    hide SlotOk, WorkerOk, BusyCount, Source, LogOk, Gone, Run;
  }
}
