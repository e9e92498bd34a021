/**
 run() marks its thread DYING before it disables interrupts.  A tick that preempts
 the thread in between overwrites the mark, and the thread can then never exit:
 schedule() panics when it tries.  This is exactly when that happens.
 */
module SchedExit {
  import opened Common
  import opened Sched
  import opened SchedInv
  import opened SchedTheorems

  /** A tick takes the CPU from a thread between its DYING mark and its int_disable. */
  predicate PreemptsExit(s: State, step: Step) {
    && s.halt.Alive? && step.Tick? && s.ints && s.tickCount + 1 >= TIME_SLICE
    && T(s, s.cur) == Tcb(Dying, Marked, Live)
  }

  /** A thread in run()'s exit window that has lost its mark. */
  predicate Doomed(s: State, t: Tid) {
    t in s.tcb && T(s, t).pc.Marked? && T(s, t).status != Dying
  }

  lemma PreemptionDooms(s: State, step: Step)
    requires Inv(s) && PreemptsExit(s, step)
    ensures Doomed(Next(s, step), s.cur)
  {
    var q := Ticked(s);
    YieldSaves(q);
    ScheduleKeeps(Yielding(q), q.cur);
  }

  lemma DoomIsFinal(s: State, step: Step, t: Tid)
    requires Safe(s) && Doomed(s, t)
    ensures Doomed(Next(s, step), t)
  {
    if s.halt.Alive? {
      if t != s.cur {
        OthersKept(s, step, t);
      } else if step.Tick? && s.ints {
        var q := Ticked(s);
        ScheduleKeeps(Yielding(q), q.cur);
      }
    }
  }

  /** The first step of its own that a doomed thread takes halts the machine, and nothing else does so. */
  lemma DoomedThreadHalts(s: State, step: Step)
    requires Inv(s)
    ensures Next(s, step).halt.StillRunning? <==> step.Advance? && Doomed(s, s.cur) && T(s, s.cur).susp.Live?
  {
    NextSafe(s, step);
  }

  lemma CallNotDoomed(s: State, op: Op)
    requires s.cur in s.tcb && T(s, s.cur).pc.Client? && T(s, s.cur).susp.Live?
    ensures !Doomed(ClientCall(s, op), s.cur)
  {
    match op
    case Yield => YieldSaves(s);
    case Interrupt32 => YieldSaves(Ticked(s));
    case Down(id) => DownSaves(s.(ints := false), id, s.ints);
    case _ =>
  }

  /** The steps of a thread's own that reach schedule(). */
  predicate Blocks(pc: Pc) { pc.DownLoop? || pc.AcqChecked? || pc.Marked? || pc.IdleLoop? }

  lemma BlockNotDoomed(s: State)
    requires s.cur in s.tcb && T(s, s.cur).susp.Live? && Blocks(T(s, s.cur).pc) && !T(s, s.cur).pc.Marked?
    requires T(s, s.cur).pc.DownLoop? ==> !s.ints
    ensures !Doomed(RunThread(s), s.cur)
  {
    match T(s, s.cur).pc
    case DownLoop(id, level) => DownSaves(s, id, level);
    case AcqChecked(l) => DownSaves(s.(ints := false), l, s.ints);
    case IdleLoop => IdleNotDoomed(s);
  }

  lemma IdleNotDoomed(s: State)
    requires s.cur in s.tcb && T(s, s.cur).susp.Live? && T(s, s.cur).pc.IdleLoop?
    ensures !Doomed(RunThread(s), s.cur)
  {
    ScheduleKeeps(SetStatus(SetPc(s.(ints := false), IdleHalt), s.cur, Blocked), s.cur);
  }

  lemma MarkNotDoomed(s: State)
    requires Inv(s) && !Doomed(s, s.cur) && T(s, s.cur).susp.Live? && T(s, s.cur).pc.Marked?
    ensures !Doomed(Schedule(s.(ints := false)), s.cur)
  {
    FlagsInv(s, s.(ints := false));
    NextIsReady(s.(ints := false));
  }

  /** sema_up leaves its caller where it was, or at pc. */
  lemma UpLeaves(s: State, id: SemId, pc: Pc)
    requires s.cur in s.tcb
    ensures T(SemaUp(s, id, pc), s.cur).pc in {T(s, s.cur).pc, pc}
  {
    var m := S(s, id);
    if m.waiters != [] {
      UnblockKeeps(s.(sems := s.sems[id := m.(waiters := m.waiters[1..])]), m.waiters[0], s.cur);
    }
  }

  lemma StepNotDoomed(s: State)
    requires s.cur in s.tcb && T(s, s.cur).susp.Live? && !Blocks(T(s, s.cur).pc)
    ensures !Doomed(RunThread(s), s.cur)
  {
    match T(s, s.cur).pc
    case RelCleared(l) => UpLeaves(s, l, Client);
    case IdleUp => UpLeaves(s, INIT_STARTED, IdleLoop);
    case Linked(t) => UnblockKeeps(s, t, s.cur);
    case _ =>
  }

  lemma RunNotDoomed(s: State)
    requires Inv(s) && !Doomed(s, s.cur) && T(s, s.cur).susp.Live?
    ensures !Doomed(RunThread(s), s.cur)
  {
    if T(s, s.cur).pc.Marked? {
      MarkNotDoomed(s);
    } else if Blocks(T(s, s.cur).pc) {
      BlockNotDoomed(s);
    } else {
      StepNotDoomed(s);
    }
  }

  lemma ScheduleAddsNone(s: State)
    ensures Schedule(s).numThreads == s.numThreads
  {
  }

  lemma YieldAddsNone(s: State)
    ensures ThreadYield(s).numThreads == s.numThreads
  {
    ScheduleAddsNone(Yielding(s));
  }

  lemma DownAddsNone(s: State, id: SemId, level: bool)
    ensures DownTest(s, id, level).numThreads == s.numThreads
  {
  }

  lemma UpAddsNone(s: State, id: SemId, pc: Pc)
    ensures SemaUp(s, id, pc).numThreads == s.numThreads
  {
  }

  lemma CallAddsNone(s: State, op: Op)
    requires !op.Create?
    ensures ClientCall(s, op).numThreads == s.numThreads
  {
    match op
    case Yield => YieldAddsNone(s);
    case Interrupt32 => YieldAddsNone(Ticked(s));
    case Down(id) => DownAddsNone(s.(ints := false), id, s.ints);
    case Up(id) => UpAddsNone(s, id, Client);
    case _ =>
  }

  lemma RunAddsNone(s: State)
    ensures RunThread(s).numThreads == s.numThreads
  {
    match T(s, s.cur).pc
    case DownLoop(id, level) => DownAddsNone(s, id, level);
    case AcqChecked(l) => DownAddsNone(s.(ints := false), l, s.ints);
    case RelCleared(l) => UpAddsNone(s, l, Client);
    case Marked => ScheduleAddsNone(s.(ints := false));
    case IdleUp => UpAddsNone(s, INIT_STARTED, IdleLoop);
    case IdleLoop => ScheduleAddsNone(SetStatus(SetPc(s.(ints := false), IdleHalt), s.cur, Blocked));
    case _ =>
  }

  lemma NumThreadsKept(s: State, step: Step)
    requires !(step.Call? && step.op.Create?)
    ensures Next(s, step).numThreads == s.numThreads
  {
    match step
    case Tick => YieldAddsNone(Ticked(s));
    case Call(op) => CallAddsNone(s, op);
    case Advance => RunAddsNone(s);
  }

  lemma NewThreadIsFresh(s: State, step: Step, t: Tid)
    requires Inv(s) && t in Next(s, step).tcb && t !in s.tcb
    ensures T(Next(s, step), t).pc.Fresh?
  {
    NextSafe(s, step);
    if !(step.Call? && step.op.Create?) { NumThreadsKept(s, step); }
  }

  /** Without such a tick no mark is lost. */
  lemma OnlyPreemptionDooms(s: State, step: Step, t: Tid)
    requires Safe(s) && Doomed(Next(s, step), t) && !Doomed(s, t)
    ensures PreemptsExit(s, step) && t == s.cur
  {
    if s.halt.Alive? {
      if t !in s.tcb {
        NewThreadIsFresh(s, step, t);
      } else if t != s.cur {
        assert Away(s, t);
        OthersKept(s, step, t);
      } else {
        match step
        case Tick => YieldSaves(Ticked(s));
        case Call(op) => if T(s, t).susp.Live? && T(s, t).pc.Client? { CallNotDoomed(s, op); }
        case Advance => if T(s, t).susp.Live? { RunNotDoomed(s); }
      }
    }
  }

  /** Step k of a run from thread_init is such a tick. */
  ghost predicate ExitHit(steps: seq<Step>, k: nat) {
    k < |steps| && PreemptsExit(Exec(ThreadInit(), steps[..k]), steps[k])
  }

  ghost predicate SomeHit(steps: seq<Step>) { exists k: nat :: ExitHit(steps, k) }

  ghost predicate SomeDoomed(s: State) { exists t: Tid :: Doomed(s, t) }

  ghost predicate DoomedAfter(steps: seq<Step>, t: Tid) { Doomed(Exec(ThreadInit(), steps), t) }

  lemma HitLast(steps: seq<Step>)
    requires steps != [] && ExitHit(steps, |steps| - 1)
    ensures DoomedAfter(steps, Exec(ThreadInit(), steps[..|steps| - 1]).cur)
  {
    RunsAreSafe(steps[..|steps| - 1]);
    PreemptionDooms(Exec(ThreadInit(), steps[..|steps| - 1]), steps[|steps| - 1]);
  }

  lemma DoomedStays(steps: seq<Step>, t: Tid)
    requires steps != [] && DoomedAfter(steps[..|steps| - 1], t)
    ensures DoomedAfter(steps, t)
  {
    RunsAreSafe(steps[..|steps| - 1]);
    DoomIsFinal(Exec(ThreadInit(), steps[..|steps| - 1]), steps[|steps| - 1], t);
  }

  lemma {:induction false} HitDooms(steps: seq<Step>, k: nat) returns (t: Tid)
    requires ExitHit(steps, k)
    ensures DoomedAfter(steps, t)
    decreases |steps|
  {
    var n := |steps| - 1;
    if k == n {
      t := Exec(ThreadInit(), steps[..n]).cur;
      HitLast(steps);
    } else {
      assert steps[..n][..k] == steps[..k];
      t := HitDooms(steps[..n], k);
      DoomedStays(steps, t);
    }
  }

  lemma {:induction false} DoomedWasHit(steps: seq<Step>, t: Tid) returns (k: nat)
    requires Doomed(Exec(ThreadInit(), steps), t)
    ensures ExitHit(steps, k) && Exec(ThreadInit(), steps[..k]).cur == t
    decreases |steps|
  {
    if steps == [] {
      InitState();
    } else {
      var n := |steps| - 1;
      var q := Exec(ThreadInit(), steps[..n]);
      RunsAreSafe(steps[..n]);
      if Doomed(q, t) {
        k := DoomedWasHit(steps[..n], t);
        assert steps[..n][..k] == steps[..k];
      } else {
        OnlyPreemptionDooms(q, steps[n], t);
        k := n;
      }
    }
  }

  lemma {:induction false} PanicMeansDoomed(steps: seq<Step>) returns (t: Tid)
    requires Exec(ThreadInit(), steps).halt.StillRunning?
    ensures Doomed(Exec(ThreadInit(), steps), t)
    decreases |steps|
  {
    if steps == [] {
      InitState();
    } else {
      var n := |steps| - 1;
      var q := Exec(ThreadInit(), steps[..n]);
      RunsAreSafe(steps[..n]);
      if q.halt.Alive? {
        t := q.cur;
        DoomedThreadHalts(q, steps[n]);
      } else {
        t := PanicMeansDoomed(steps[..n]);
      }
      DoomIsFinal(q, steps[n], t);
    }
  }

  /**
   The exit of a thread goes wrong exactly when a tick falls into its window: after any
   run, some thread is doomed if and only if some step of the run was such a tick.
   */
  lemma ExitGoesWrongIff(steps: seq<Step>)
    ensures SomeDoomed(Exec(ThreadInit(), steps)) <==> SomeHit(steps)
  {
    if SomeHit(steps) {
      var k: nat :| ExitHit(steps, k);
      var t := HitDooms(steps, k);
    }
    if SomeDoomed(Exec(ThreadInit(), steps)) { DoomNeedsHit(steps); }
  }

  lemma DoomNeedsHit(steps: seq<Step>)
    requires SomeDoomed(Exec(ThreadInit(), steps))
    ensures SomeHit(steps)
  {
    var t: Tid :| Doomed(Exec(ThreadInit(), steps), t);
    var k := DoomedWasHit(steps, t);
  }

  /** A run halts with "still running" only after such a tick. */
  lemma PanicWasHit(steps: seq<Step>) returns (k: nat)
    requires Exec(ThreadInit(), steps).halt.StillRunning?
    ensures ExitHit(steps, k)
  {
    var t := PanicMeansDoomed(steps);
    k := DoomedWasHit(steps, t);
  }

  // ----- such a run exists

  const NEW: Tcb := Tcb(Status.Ready, Fresh(KERNEL), Live)
  const UNBORN: Tcb := Tcb(Blocked, Fresh(KERNEL), Live)
  const CLIENT: Tcb := Tcb(Running, Client, Live)
  const AWAY: Tcb := Tcb(Status.Ready, Client, Yielded(false))
  const BACK: Tcb := Tcb(Running, Client, Yielded(false))
  const HALTED: Tcb := Tcb(Blocked, IdleHalt, Live)

  /** Snapshots of a run with three threads. */
  function Snap(cur: Tid, kernel: Tcb, idler: Tcb, client: Tcb, ready: seq<Tid>, idle: Option<Tid>,
                tickCount: nat, ints: bool, value: nat, dispatches: nat): State {
    State(cur, map[1 := kernel, 2 := idler, 3 := client], ready, [1, 2, 3], idle, 3, tickCount, ints,
          map[INIT_STARTED := Sema(value, [], false, None)], Alive, dispatches)
  }

  // The kernel creates thread 3 and yields; the idle thread starts and halts the CPU; thread 3
  // exits just as its time slice ends; the kernel yields again.
  const P0: State := BOOTED
  const P1: State := BOOTED.(numThreads := 3, tcb := map[1 := Tcb(Running, Created(3), Live), 2 := NEW, 3 := UNBORN])
  const P2: State := Snap(1, Tcb(Running, Linked(3), Live), NEW, UNBORN, [2], None, 0, false, 0, 0)
  const P3: State := Snap(1, CLIENT, NEW, NEW, [2, 3], None, 0, false, 0, 0)
  const P4: State := Snap(2, AWAY, NEW.(status := Running), NEW, [3, 1], None, 0, false, 0, 1)
  const P5: State := Snap(2, AWAY, Tcb(Running, IdleStart, Live), NEW, [3, 1], None, 0, true, 0, 1)
  const P6: State := Snap(2, AWAY, Tcb(Running, IdleUp, Live), NEW, [3, 1], Some(2), 0, true, 0, 1)
  const P7: State := Snap(2, AWAY, Tcb(Running, IdleLoop, Live), NEW, [3, 1], Some(2), 0, true, 1, 1)
  const P8: State := Snap(3, AWAY, HALTED, NEW.(status := Running), [1], Some(2), 0, false, 1, 2)
  const P9: State := Snap(3, AWAY, HALTED, CLIENT, [1], Some(2), 0, true, 1, 2)
  const P10: State := Snap(3, AWAY, HALTED, CLIENT, [1], Some(2), 1, true, 1, 2)
  const P11: State := Snap(3, AWAY, HALTED, CLIENT, [1], Some(2), 2, true, 1, 2)
  const P12: State := Snap(3, AWAY, HALTED, CLIENT, [1], Some(2), 3, true, 1, 2)
  const P13: State := Snap(3, AWAY, HALTED, Tcb(Dying, Marked, Live), [1], Some(2), 3, true, 1, 2)
  const P14: State := Snap(1, BACK, HALTED, Tcb(Status.Ready, Marked, Yielded(true)), [3], Some(2), 0, false, 1, 3)
  const P15: State := Snap(1, CLIENT, HALTED, Tcb(Status.Ready, Marked, Yielded(true)), [3], Some(2), 0, false, 1, 3)
  const P16: State := Snap(3, AWAY, HALTED, Tcb(Running, Marked, Yielded(true)), [1], Some(2), 0, false, 1, 4)
  const P17: State := Snap(3, AWAY, HALTED, Tcb(Running, Marked, Live), [1], Some(2), 0, true, 1, 4)

  /** Some run from thread_init ends in r. */
  ghost predicate Reaches(r: State) {
    exists run :: Exec(ThreadInit(), run) == r
  }

  lemma ReachNext(s: State, step: Step)
    requires Reaches(s)
    ensures Reaches(Next(s, step))
  {
    var run :| Exec(ThreadInit(), run) == s;
    assert (run + [step])[..|run|] == run;
    assert Exec(ThreadInit(), run + [step]) == Next(s, step);
  }

  lemma CreateStep()
    requires Reaches(P0)
    ensures Reaches(P1)
  {
    assert Next(P0, Call(Create)).tcb == P1.tcb;
    ReachNext(P0, Call(Create));
  }

  lemma LinkStep()
    requires Reaches(P1)
    ensures Reaches(P2)
  {
    assert T(P1, KERNEL) == Tcb(Running, Created(3), Live);
    assert SetPc(P1.(all := [1, 2, 3]), Linked(3)).tcb == P2.tcb;
    ReachNext(P1, Advance);
  }

  lemma UnblockStep()
    requires Reaches(P2)
    ensures Reaches(P3)
  {
    assert Next(P2, Advance).tcb == P3.tcb;
    ReachNext(P2, Advance);
  }

  lemma KernelYieldStep()
    requires Reaches(P3)
    ensures Reaches(P4)
  {
    assert Next(P3, Call(Yield)).tcb == P4.tcb;
    ReachNext(P3, Call(Yield));
  }

  lemma IdleStartStep()
    requires Reaches(P4)
    ensures Reaches(P5)
  {
    assert Next(P4, Advance).tcb == P5.tcb;
    ReachNext(P4, Advance);
  }

  lemma IdleSetStep()
    requires Reaches(P5)
    ensures Reaches(P6)
  {
    assert Next(P5, Advance).tcb == P6.tcb;
    ReachNext(P5, Advance);
  }

  lemma IdleRaises()
    ensures Next(P6, Advance) == P7
  {
    assert Next(P6, Advance).tcb == P7.tcb;
  }

  lemma IdleUpStep()
    requires Reaches(P6)
    ensures Reaches(P7)
  {
    IdleRaises();
    ReachNext(P6, Advance);
  }

  /** The idle thread as it calls schedule(). */
  const IDLING: State := Snap(2, AWAY, HALTED, NEW, [3, 1], Some(2), 0, false, 1, 1)

  lemma BlockedIdler()
    ensures ThreadBlock(SetPc(P7.(ints := false), IdleHalt)) == P8
  {
    assert SetStatus(SetPc(P7.(ints := false), IdleHalt), IDLER, Blocked).tcb == IDLING.tcb;
    assert Schedule(IDLING).tcb == P8.tcb;
  }

  lemma IdleBlocks()
    ensures Next(P7, Advance) == P8
  {
    assert T(P7, IDLER) == Tcb(Running, IdleLoop, Live);
    BlockedIdler();
  }

  lemma IdleBlockStep()
    requires Reaches(P7)
    ensures Reaches(P8)
  {
    IdleBlocks();
    ReachNext(P7, Advance);
  }

  lemma ClientStep()
    requires Reaches(P8)
    ensures Reaches(P9)
  {
    assert Next(P8, Advance).tcb == P9.tcb;
    ReachNext(P8, Advance);
  }

  lemma SliceStep()
    requires Reaches(P9)
    ensures Reaches(P12)
  {
    assert Next(P9, Tick).tcb == P10.tcb;
    ReachNext(P9, Tick);
    assert Next(P10, Tick).tcb == P11.tcb;
    ReachNext(P10, Tick);
    assert Next(P11, Tick).tcb == P12.tcb;
    ReachNext(P11, Tick);
  }

  lemma ReturnStep()
    requires Reaches(P12)
    ensures Reaches(P13)
  {
    assert Next(P12, Call(Return)).tcb == P13.tcb;
    ReachNext(P12, Call(Return));
  }

  lemma LastTickStep()
    requires Reaches(P13)
    ensures Reaches(P14)
  {
    assert Next(P13, Tick).tcb == P14.tcb;
    ReachNext(P13, Tick);
  }

  lemma KernelBackStep()
    requires Reaches(P14)
    ensures Reaches(P15)
  {
    assert Next(P14, Advance).tcb == P15.tcb;
    ReachNext(P14, Advance);
  }

  lemma KernelYieldsAgainStep()
    requires Reaches(P15)
    ensures Reaches(P16)
  {
    assert Next(P15, Call(Yield)).tcb == P16.tcb;
    ReachNext(P15, Call(Yield));
  }

  lemma ClientBackStep()
    requires Reaches(P16)
    ensures Reaches(P17)
  {
    assert Next(P16, Advance).tcb == P17.tcb;
    ReachNext(P16, Advance);
  }

  lemma IdleIsIn()
    ensures Reaches(P8)
  {
    InitState();
    assert Exec(ThreadInit(), []) == P0;
    CreateStep();
    LinkStep();
    UnblockStep();
    KernelYieldStep();
    IdleStartStep();
    IdleSetStep();
    IdleUpStep();
    IdleBlockStep();
  }

  lemma ClientIsBack()
    ensures Reaches(P17)
  {
    IdleIsIn();
    ClientStep();
    SliceStep();
    ReturnStep();
    LastTickStep();
    KernelBackStep();
    KernelYieldsAgainStep();
    ClientBackStep();
  }

  /** The panic is reachable: a thread's exit at the end of its time slice, with another thread ready. */
  lemma ExitCanPanic()
    ensures exists run :: Exec(ThreadInit(), run).halt.StillRunning?
  {
    ClientIsBack();
    ReachNext(P17, Advance);
    var run :| Exec(ThreadInit(), run) == Next(P17, Advance);
  }
}
