/** What the invariant means: the scheduler's and the locks' promises over whole runs. */
module SchedTheorems {
  import opened Common
  import opened Sched
  import opened SchedInv
  import opened SchedSteps
  import opened Words

  /** A state that some run of the system reaches without halting. */
  ghost predicate Reached(s: State, steps: seq<Step>) {
    s == Exec(ThreadInit(), steps) && s.halt.Alive?
  }

  // ----- semaphores

  /**
   No wake-up is lost: a semaphore that has waiters holds at most one unit for each
   waiter already popped that has not re-tested.  So with nothing ready but the idle
   thread, nobody waits on a semaphore that has a unit.
   */
  lemma NoLostWakeUp(s: State, steps: seq<Step>, id: SemId)
    requires Reached(s, steps) && id in s.sems && S(s, id).waiters != []
    ensures S(s, id).value <= |Woken(s, id)|
    ensures s.cur == IDLER && s.ready == [] ==> S(s, id).value == 0
  {
    RunsAreSafe(steps);
    assert SemOk(s, id);
    if s.cur == IDLER && s.ready == [] {
      forall t | t in s.tcb ensures t !in Woken(s, id) {
        assert Placed(s, t);
        if t != s.cur { assert Away(s, t); }
      }
      assert Woken(s, id) == {};
    }
  }

  /** The step does a sema_up on id: a client's call, lock_release's, or the idle thread's. */
  predicate DoesUp(s: State, step: Step, id: SemId) {
    && s.halt.Alive? && T(s, s.cur).susp.Live?
    && ((step == Call(Up(id)) && T(s, s.cur).pc.Client? && IsSem(s, id))
        || (step.Advance? && (T(s, s.cur).pc == RelCleared(id) || (T(s, s.cur).pc.IdleUp? && id == INIT_STARTED))))
  }

  /** The step is in sema_down on id: its call, lock_accquire's, or a new test after a wait. */
  predicate InDown(s: State, step: Step, id: SemId) {
    && s.halt.Alive? && T(s, s.cur).susp.Live?
    && ((step == Call(Down(id)) && T(s, s.cur).pc.Client? && IsSem(s, id))
        || (step.Advance? && (T(s, s.cur).pc == AcqChecked(id) || (T(s, s.cur).pc.DownLoop? && T(s, s.cur).pc.sem == id))))
  }

  /** The thread comes out of that sema_down: it does not stand in its loop afterwards. */
  predicate GetsThrough(s: State, step: Step, id: SemId, r: State) {
    InDown(s, step, id) && !T(r, s.cur).pc.DownLoop?
  }

  /** How many sema_up calls on id a run makes. */
  function UpsIn(s: State, steps: seq<Step>, id: SemId): nat
    decreases |steps|
  {
    if steps == [] then 0
    else
      var n := |steps| - 1;
      UpsIn(s, steps[..n], id) + if DoesUp(Exec(s, steps[..n]), steps[n], id) then 1 else 0
  }

  /** How many times threads get through sema_down on id in a run. */
  function ThroughIn(s: State, steps: seq<Step>, id: SemId): nat
    decreases |steps|
  {
    if steps == [] then 0
    else
      var n := |steps| - 1;
      ThroughIn(s, steps[..n], id) + if GetsThrough(Exec(s, steps[..n]), steps[n], id, Exec(s, steps)) then 1 else 0
  }

  /** A step changes a semaphore's value by its own sema_up, or by getting through sema_down with a unit. */
  ghost predicate UnitMoves(s: State, step: Step, id: SemId, r: State) {
    && id in r.sems && S(r, id).lock == S(s, id).lock
    && (GetsThrough(s, step, id, r) ==> S(s, id).value > 0)
    && S(r, id).value == if DoesUp(s, step, id) then (S(s, id).value + 1) % WORD
                         else if GetsThrough(s, step, id, r) then S(s, id).value - 1 else S(s, id).value
  }

  lemma SwitchKeepsPc(s: State, b: State, r: State)
    requires b.cur == s.cur && s.cur in b.tcb && T(b, s.cur).status != Dying && Switched(b, r)
    ensures T(r, s.cur).pc == T(b, s.cur).pc && r.sems == b.sems
  {
  }

  lemma DownMovesUnit(s: State, id: SemId, level: bool, r: State)
    requires s.cur in s.tcb && id in s.sems && DownsTo(s, id, level, r)
    ensures T(r, s.cur).pc.DownLoop? <==> S(s, id).value == 0
    ensures r.sems.Keys == s.sems.Keys && (forall k {:trigger S(r, k)} :: k in s.sems && k != id ==> S(r, k) == S(s, k))
    ensures S(r, id).value == if S(s, id).value == 0 then 0 else S(s, id).value - 1
    ensures S(r, id).lock == S(s, id).lock
  {
    if S(s, id).value == 0 {
      var b :| Queued(s, id, b) && T(b, s.cur).pc == DownLoop(id, level) && Switched(b, r);
      SwitchKeepsPc(s, b, r);
    }
  }

  lemma UnitStep(s: State, step: Step, id: SemId)
    requires Inv(s) && id in s.sems
    ensures UnitMoves(s, step, id, Next(s, step))
  {
    var r := Next(s, step);
    NextDoes(s, step);
    assert Local(s, s.cur) && SemOk(s, id);
    match step
    case Tick => if s.ints && s.tickCount + 1 >= TIME_SLICE { YieldKeepsSems(s, r); }
    case Call(op) => if T(s, s.cur).susp.Live? && T(s, s.cur).pc.Client? { CallUnit(s, op, id, r); }
    case Advance => RunUnit(s, id, r);
  }

  lemma YieldKeepsSems(s: State, r: State)
    requires YieldsTo(s, r)
    ensures r.sems == s.sems
  {
  }

  lemma CallUnit(s: State, op: Op, id: SemId, r: State)
    requires Inv(s) && id in s.sems && T(s, s.cur).susp.Live? && T(s, s.cur).pc.Client?
    requires CallDoes(s, op, r)
    ensures UnitMoves(s, Call(op), id, r)
  {
    match op
    case Yield => YieldKeepsSems(s, r);
    case Interrupt32 => if s.tickCount + 1 >= TIME_SLICE { YieldKeepsSems(s, r); }
    case Down(k) => if IsSem(s, k) { DownMovesUnit(s, k, s.ints, r); }
    case _ =>
  }

  lemma RunUnit(s: State, id: SemId, r: State)
    requires Inv(s) && id in s.sems && RunDoes(s, r)
    ensures UnitMoves(s, Advance, id, r)
  {
    assert Local(s, s.cur);
    if T(s, s.cur).susp.Live? && (T(s, s.cur).pc.DownLoop? || T(s, s.cur).pc.AcqChecked?) {
      var k := if T(s, s.cur).pc.DownLoop? then T(s, s.cur).pc.sem else T(s, s.cur).pc.lock;
      DownMovesUnit(s, k, if T(s, s.cur).pc.DownLoop? then T(s, s.cur).pc.level else s.ints, r);
    } else {
      OtherUnit(s, id, r);
    }
  }

  /** A thread's own steps outside sema_down. */
  lemma OtherUnit(s: State, id: SemId, r: State)
    requires Inv(s) && id in s.sems && RunDoes(s, r)
    requires T(s, s.cur).susp.Live? ==> !T(s, s.cur).pc.DownLoop? && !T(s, s.cur).pc.AcqChecked?
    ensures UnitMoves(s, Advance, id, r)
  {
    assert Local(s, s.cur);
  }

  /** What was there and came in is what is there and went out, but for w overflows. */
  ghost predicate Balanced(start: nat, ups: nat, through: nat, r: State, id: SemId, w: nat) {
    id in r.sems && start + ups == S(r, id).value + through + WORD * w
  }

  lemma BalanceStep(q: State, step: Step, id: SemId, r: State, start: nat, ups: nat, through: nat, w: nat) returns (w1: nat)
    requires Inv(q) && Balanced(start, ups, through, q, id, w) && r == Next(q, step)
    ensures Balanced(start, ups + (if DoesUp(q, step, id) then 1 else 0),
                     through + (if GetsThrough(q, step, id, r) then 1 else 0), r, id, w1)
  {
    UnitStep(q, step, id);
    assert SemOk(q, id);
    w1 := if DoesUp(q, step, id) && S(q, id).value == WORD - 1 then w + 1 else w;
    BalanceJoin(S(q, id).value, S(r, id).value, DoesUp(q, step, id), GetsThrough(q, step, id, r), start, ups, through, w, w1);
  }

  lemma BalanceJoin(v: nat, v1: nat, up: bool, out: bool, start: nat, ups: nat, through: nat, w: nat, w1: nat)
    requires start + ups == v + through + WORD * w && v < WORD && !(up && out) && (out ==> v > 0)
    requires v1 == if up then (v + 1) % WORD else if out then v - 1 else v
    requires w1 == if up && v == WORD - 1 then w + 1 else w
    ensures start + ups + (if up then 1 else 0) == v1 + through + (if out then 1 else 0) + WORD * w1
  {
  }

  /**
   Units are conserved.  Over any run the units a semaphore had and those of its sema_up calls
   are the units it has and one for each time a thread got through sema_down; but a value that
   passes 2^32 loses all of them, w times.  So nobody gets through without a unit.
   */
  lemma {:induction false} UnitsConserved(s: State, steps: seq<Step>, id: SemId) returns (w: nat)
    requires Inv(s) && id in s.sems && Exec(s, steps).halt.Alive?
    ensures Balanced(S(s, id).value, UpsIn(s, steps, id), ThroughIn(s, steps, id), Exec(s, steps), id, w)
    decreases |steps|
  {
    w := 0;
    if steps != [] {
      var n := |steps| - 1;
      StillAlive(s, steps);
      ExecSafe(s, steps[..n]);
      w := UnitsConserved(s, steps[..n], id);
      w := BalanceStep(Exec(s, steps[..n]), steps[n], id, Exec(s, steps), S(s, id).value,
                       UpsIn(s, steps[..n], id), ThroughIn(s, steps[..n], id), w);
    }
  }

  lemma StillAlive(s: State, steps: seq<Step>)
    requires steps != [] && Exec(s, steps).halt.Alive?
    ensures Exec(s, steps[..|steps| - 1]).halt.Alive?
  {
  }

  // ----- locks

  /**
   lock_accquire panics exactly on a lock that the caller holds, and lock_release exactly on one
   that it does not hold; nothing else ends in these panics.
   */
  lemma LockPanics(s: State, step: Step)
    requires Inv(s)
    ensures Next(s, step).halt.LockHeld? <==>
      T(s, s.cur).susp.Live? && T(s, s.cur).pc.Client? && step.Call? && step.op.Acquire? && IsLock(s, step.op.lock)
      && S(s, step.op.lock).holder == Some(s.cur)
    ensures Next(s, step).halt.NotHolder? <==>
      T(s, s.cur).susp.Live? && T(s, s.cur).pc.Client? && step.Call? && step.op.Release? && IsLock(s, step.op.lock)
      && S(s, step.op.lock).holder != Some(s.cur)
  {
    NextDoes(s, step);
    NextSafe(s, step);
  }

  /**
   Mutual exclusion for arbitrary clients: the lock's unit is either in its semaphore
   or with exactly one thread between its decrement and its increment, and a holder
   that is set is that thread.
   */
  lemma MutualExclusion(s: State, steps: seq<Step>, l: SemId)
    requires Reached(s, steps) && l in s.sems && S(s, l).lock
    ensures S(s, l).value + |Owners(s, l)| == 1
    ensures forall t, u :: t in Owners(s, l) && u in Owners(s, l) ==> t == u
    ensures S(s, l).holder.Some? ==> Owners(s, l) == {S(s, l).holder.value}
  {
    RunsAreSafe(steps);
    assert SemOk(s, l);
    forall t, u | t in Owners(s, l) && u in Owners(s, l) ensures t == u {
      OnlyMember(Owners(s, l), t);
    }
    if S(s, l).holder.Some? {
      SoleOwner(s, l, S(s, l).holder.value);
    }
  }

  // ----- queues

  /** t waits on semaphore id, once. */
  ghost predicate WaitsOn(s: State, t: Tid, id: SemId) {
    id in s.sems && multiset(S(s, id).waiters)[t] == 1
  }

  /**
   Status and queues agree.  "Dying" and still current is a thread in run()'s exit window;
   a thread with a parent at thread_create is not yet anyone's to schedule.
   */
  lemma StatusPartition(s: State, steps: seq<Step>, t: Tid)
    requires Reached(s, steps) && t in s.tcb
    ensures t == s.cur <==> T(s, t).status == Running || (T(s, t).status == Dying && !T(s, t).pc.Gone?)
    ensures s.idle != Some(t) ==> multiset(s.ready)[t] == if T(s, t).status == Status.Ready then 1 else 0
    ensures T(s, t).status == Blocked && s.idle != Some(t) ==> Unborn(s, t) || exists id :: WaitsOn(s, t, id)
    ensures forall id, k :: WaitsOn(s, t, id) && WaitsOn(s, t, k) ==> id == k
    ensures forall id :: id in s.sems && t in S(s, id).waiters ==> T(s, t).status == Blocked && WaitsOn(s, t, id)
    ensures T(s, t).pc.Gone? ==> t !in s.ready && t !in s.all
  {
    RunsAreSafe(steps);
    assert Placed(s, t) && Placed(s, s.cur) && Local(s, t);
    assert t != s.cur ==> Away(s, t);
    NoDupOnce(s.ready, t);
    forall id | id in s.sems && t in S(s, id).waiters
      ensures T(s, t).status == Blocked && WaitsOn(s, t, id) && T(s, t).pc.DownLoop? && T(s, t).pc.sem == id
    {
      assert SemOk(s, id) && Waiter(s, id, t);
      NoDupOnce(S(s, id).waiters, t);
    }
    if T(s, t).status == Blocked && s.idle != Some(t) && !Unborn(s, t) {
      assert WaitsOn(s, t, T(s, t).pc.sem);
    }
  }

  /** While idle_thread is unset the idle thread itself keeps the ready queue from running empty. */
  lemma DispatchBeforeIdle(s: State, steps: seq<Step>)
    requires Reached(s, steps) && s.idle == None
    ensures s.cur == IDLER || IDLER in s.ready
  {
    RunsAreSafe(steps);
    assert Placed(s, IDLER);
    if s.cur != IDLER { assert Away(s, IDLER); }
  }

  lemma DyingDispatched(q: State, r: State, n: Tid)
    requires Core(q) && OffCpu(q) && Dispatched(q, r, n) && T(q, q.cur).status == Dying
    ensures r.cur != q.cur && T(r, r.cur).status == Running && T(r, q.cur).pc.Gone?
    ensures q.cur !in r.all && q.cur !in r.ready && (forall t :: t in q.all && t != q.cur ==> t in r.all)
  {
    RemoveFirstNoDup(q.all, q.cur);
    assert Placed(q, q.cur);
    forall t | t in r.ready ensures t in q.ready {}
  }

  lemma MarkedIsReaped(s: State)
    requires Inv(s) && T(s, s.cur) == Tcb(Dying, Marked, Live)
    ensures var r := Schedule(s.(ints := false));
      && r.halt.Alive? && r.cur != s.cur && T(r, r.cur).status == Running
      && T(r, s.cur).pc.Gone? && s.cur !in r.all && s.cur !in r.ready
      && (forall t :: t in s.all && t != s.cur ==> t in r.all)
  {
    var q := s.(ints := false);
    FlagsInv(s, q);
    ScheduleDispatches(q);
    DyingDispatched(q, Schedule(q), NextThread(q).value);
  }

  /** A thread that leaves run() is switched away from for good and reaped by that very switch. */
  lemma ExitIsReaped(s: State, steps: seq<Step>)
    requires Reached(s, steps) && T(s, s.cur) == Tcb(Dying, Marked, Live)
    ensures var r := Next(s, Advance);
      && r.halt.Alive? && r.cur != s.cur && T(r, r.cur).status == Running
      && T(r, s.cur).pc.Gone? && s.cur !in r.all && s.cur !in r.ready
      && (forall t :: t in s.all && t != s.cur ==> t in r.all)
  {
    RunsAreSafe(steps);
    MarkedIsReaped(s);
  }

  /**
   thread_kill looks for such a thread in what is left of the ready queue, where it is not.
   That queue is empty whenever at most one thread was ready: remove must stand an empty list.
   */
  lemma KilledFromRest(s: State, steps: seq<Step>)
    requires Reached(s, steps) && T(s, s.cur) == Tcb(Dying, Marked, Live)
    ensures s.cur !in Behind(s.ready) && Next(s, Advance).ready == Behind(s.ready)
    ensures Behind(s.ready) == [] <==> |s.ready| <= 1
  {
    RunsAreSafe(steps);
    MarkedLeavesRest(s);
    NotQueued(s, s.cur);
  }

  function Behind(q: seq<Tid>): seq<Tid> { if q == [] then [] else q[1..] }

  lemma NotQueued(s: State, t: Tid)
    requires Core(s) && t in s.tcb && T(s, t).status == Dying
    ensures t !in s.ready && t !in Behind(s.ready)
  {
    assert Placed(s, t);
  }

  lemma MarkedLeavesRest(s: State)
    requires Inv(s) && T(s, s.cur) == Tcb(Dying, Marked, Live)
    ensures Next(s, Advance).ready == Behind(s.ready)
  {
    var q := s.(ints := false);
    FlagsInv(s, q);
    ScheduleDispatches(q);
    RestDispatched(q, Schedule(q), NextThread(q).value);
  }

  lemma RestDispatched(q: State, r: State, n: Tid)
    requires Dispatched(q, r, n)
    ensures r.ready == Behind(q.ready)
  {
  }

  // ----- the interrupt flag

  /** The interrupt flag as thread t sees it: the CPU's, or the one it saved before a switch. */
  function FlagOf(s: State, t: Tid): bool {
    if T(s, t).susp.Yielded? then T(s, t).susp.level
    else if T(s, t).pc.DownLoop? then T(s, t).pc.level
    else s.ints
  }

  /** A thread past its first switch that neither halts the CPU as idle() nor is gone. */
  predicate HasFlag(s: State, t: Tid) {
    t in s.tcb && !T(s, t).pc.Fresh? && !T(s, t).pc.Gone? && !T(s, t).pc.IdleHalt?
  }

  /** Steps of one thread do not move the control of another. */
  ghost predicate ControlKept(s: State, r: State, t: Tid) {
    && t in r.tcb && T(r, t).pc == T(s, t).pc && T(r, t).susp == T(s, t).susp
    && (T(r, t).status == Dying ==> T(s, t).status == Dying)
  }

  lemma ScheduleKeeps(s: State, t: Tid)
    requires t in s.tcb && s.cur in s.tcb
    ensures ControlKept(s, Schedule(s), t) || (t == s.cur && T(Schedule(s), t).pc.Gone?)
    ensures t in Schedule(s).tcb
  {
  }

  lemma YieldKeeps(s: State, t: Tid)
    requires t in s.tcb && t != s.cur && s.cur in s.tcb
    ensures ControlKept(s, ThreadYield(s), t)
  {
    ScheduleKeeps(Yielding(s), t);
  }

  lemma BlockKeeps(s: State, t: Tid)
    requires t in s.tcb && t != s.cur && s.cur in s.tcb
    ensures ControlKept(s, ThreadBlock(s), t)
  {
    ScheduleKeeps(SetStatus(s, s.cur, Blocked), t);
  }

  lemma DownKeeps(s: State, id: SemId, level: bool, t: Tid)
    requires t in s.tcb && t != s.cur && s.cur in s.tcb
    ensures ControlKept(s, DownTest(s, id, level), t)
  {
    var m := S(s, id);
    BlockKeeps(SetPc(s.(sems := s.sems[id := m.(waiters := m.waiters + [s.cur])]), DownLoop(id, level)), t);
  }

  lemma UnblockKeeps(s: State, u: Tid, t: Tid)
    requires t in s.tcb
    ensures ControlKept(s, ThreadUnblock(s, u), t)
  {
  }

  lemma UpKeeps(s: State, id: SemId, pc: Pc, t: Tid)
    requires t in s.tcb && t != s.cur && s.cur in s.tcb
    ensures ControlKept(s, SemaUp(s, id, pc), t)
  {
    var m := S(s, id);
    if m.waiters != [] {
      UnblockKeeps(s.(sems := s.sems[id := m.(waiters := m.waiters[1..])]), m.waiters[0], t);
    }
  }

  lemma CallKeeps(s: State, op: Op, t: Tid)
    requires Inv(s) && t in s.tcb && t != s.cur
    ensures ControlKept(s, ClientCall(s, op), t)
  {
    match op
    case Yield => YieldKeeps(s, t);
    case Interrupt32 => YieldKeeps(Ticked(s), t);
    case Down(id) => DownKeeps(s.(ints := false), id, s.ints, t);
    case Up(id) => UpKeeps(s, id, Client, t);
    case _ =>
  }

  lemma RunKeeps(s: State, t: Tid)
    requires Inv(s) && t in s.tcb && t != s.cur
    ensures ControlKept(s, RunThread(s), t)
  {
    match T(s, s.cur).pc
    case DownLoop(_, _) => WaitKeeps(s, t);
    case AcqChecked(_) => WaitKeeps(s, t);
    case Marked => WaitKeeps(s, t);
    case IdleLoop => WaitKeeps(s, t);
    case RelCleared(l) => UpKeeps(s, l, Client, t);
    case Linked(u) => UnblockKeeps(s, u, t);
    case IdleUp => UpKeeps(s, INIT_STARTED, IdleLoop, t);
    case _ =>
  }

  /** The steps that may leave the CPU. */
  lemma WaitKeeps(s: State, t: Tid)
    requires t in s.tcb && t != s.cur && s.cur in s.tcb
    requires T(s, s.cur).pc.DownLoop? || T(s, s.cur).pc.AcqChecked? || T(s, s.cur).pc.Marked? || T(s, s.cur).pc.IdleLoop?
    ensures ControlKept(s, RunThread(s), t)
  {
    if T(s, s.cur).susp.Live? {
      match T(s, s.cur).pc
      case DownLoop(id, level) => DownKeeps(s, id, level, t);
      case AcqChecked(l) => DownKeeps(s.(ints := false), l, s.ints, t);
      case Marked => ScheduleKeeps(s.(ints := false), t);
      case IdleLoop => BlockKeeps(SetPc(s.(ints := false), IdleHalt), t);
    }
  }

  lemma OthersKept(s: State, step: Step, t: Tid)
    requires Inv(s) && t in s.tcb && t != s.cur
    ensures ControlKept(s, Next(s, step), t)
  {
    match step
    case Tick => if s.ints { YieldKeeps(Ticked(s), t); }
    case Call(op) => CallKeeps(s, op, t);
    case Advance => RunKeeps(s, t);
  }

  lemma YieldSaves(s: State)
    requires s.cur in s.tcb
    ensures T(ThreadYield(s), s.cur).pc == T(s, s.cur).pc && T(ThreadYield(s), s.cur).susp == Yielded(s.ints)
    ensures s.cur in ThreadYield(s).tcb
  {
    ScheduleKeeps(Yielding(s), s.cur);
  }

  /** sema_down either comes back with the flag it was entered with, or waits with it saved. */
  lemma DownSaves(s: State, id: SemId, level: bool)
    requires s.cur in s.tcb && T(s, s.cur).susp.Live? && !s.ints
    ensures var r := DownTest(s, id, level);
      s.cur in r.tcb && T(r, s.cur).susp.Live? &&
      (T(r, s.cur).pc == DownLoop(id, level) || (!T(r, s.cur).pc.DownLoop? && r.ints == level && r.cur == s.cur))
  {
    var m := S(s, id);
    var b := SetStatus(SetPc(s.(sems := s.sems[id := m.(waiters := m.waiters + [s.cur])]), DownLoop(id, level)),
                       s.cur, Blocked);
    if m.value == 0 { ScheduleKeeps(b, s.cur); }
  }

  lemma CallKeepsFlag(s: State, op: Op)
    requires Inv(s) && T(s, s.cur).pc.Client? && T(s, s.cur).susp.Live? && !op.SetInts?
    ensures FlagOf(ClientCall(s, op), s.cur) == s.ints
  {
    match op
    case Yield => YieldSaves(s);
    case Interrupt32 => YieldSaves(Ticked(s));
    case Down(id) => DownSaves(s.(ints := false), id, s.ints);
    case _ =>
  }

  lemma BlockKeepsFlag(s: State)
    requires Inv(s) && RunThread(s).halt.Alive? && T(s, s.cur).susp.Live? && HasFlag(RunThread(s), s.cur)
    requires T(s, s.cur).pc.DownLoop? || T(s, s.cur).pc.AcqChecked? || T(s, s.cur).pc.Marked? || T(s, s.cur).pc.IdleLoop?
    ensures FlagOf(RunThread(s), s.cur) == FlagOf(s, s.cur)
  {
    match T(s, s.cur).pc
    case DownLoop(id, level) => DownSaves(s, id, level);
    case AcqChecked(l) => DownSaves(s.(ints := false), l, s.ints);
    case Marked =>
      FlagsInv(s, s.(ints := false));
      NextIsReady(s.(ints := false));
    case IdleLoop => ScheduleKeeps(SetStatus(SetPc(s.(ints := false), IdleHalt), s.cur, Blocked), s.cur);
  }

  lemma RunKeepsFlag(s: State)
    requires Inv(s) && RunThread(s).halt.Alive? && HasFlag(s, s.cur) && HasFlag(RunThread(s), s.cur)
    ensures FlagOf(RunThread(s), s.cur) == FlagOf(s, s.cur)
  {
    assert Local(s, s.cur);
    if T(s, s.cur).susp.Live? {
      match T(s, s.cur).pc
      case DownLoop(_, _) => BlockKeepsFlag(s);
      case AcqChecked(_) => BlockKeepsFlag(s);
      case Marked => BlockKeepsFlag(s);
      case IdleLoop => BlockKeepsFlag(s);
      case _ =>
    }
  }

  /**
   The interrupt flag is private to a thread: only its own int_enable and int_disable
   change what it sees.  So sema_down, sema_up, thread_yield, thread_unblock and a tick
   come back with the flag they were entered with, however many switches intervene.
   */
  lemma FlagIsPrivate(s: State, step: Step, t: Tid)
    requires Inv(s) && Next(s, step).halt.Alive? && HasFlag(s, t) && HasFlag(Next(s, step), t)
    requires !(t == s.cur && step.Call? && step.op.SetInts?)
    ensures FlagOf(Next(s, step), t) == FlagOf(s, t)
  {
    if t != s.cur {
      OthersKept(s, step, t);
      assert Away(s, t);
    } else {
      match step
      case Tick => if s.ints { YieldSaves(Ticked(s)); }
      case Call(op) => if T(s, t).susp.Live? && T(s, t).pc.Client? { CallKeepsFlag(s, op); }
      case Advance => RunKeepsFlag(s);
    }
  }

  lemma CallNotFresh(s: State, op: Op)
    requires s.cur in s.tcb && T(s, s.cur).pc.Client? && T(s, s.cur).susp.Live?
    ensures var r := ClientCall(s, op);
      s.cur in r.tcb && !T(r, s.cur).pc.Fresh? && !T(r, s.cur).pc.IdleHalt?
  {
    match op
    case Yield => YieldSaves(s);
    case Interrupt32 => YieldSaves(Ticked(s));
    case Down(id) => DownSaves(s.(ints := false), id, s.ints);
    case _ =>
  }

  lemma RunNotFresh(s: State)
    requires Inv(s) && HasFlag(s, s.cur) && s.cur != IDLER
    ensures var r := RunThread(s);
      s.cur in r.tcb && !T(r, s.cur).pc.Fresh? && !T(r, s.cur).pc.IdleHalt?
  {
    assert Local(s, s.cur);
    match T(s, s.cur).pc
    case DownLoop(id, level) => if T(s, s.cur).susp.Live? { DownSaves(s, id, level); }
    case AcqChecked(l) => if T(s, s.cur).susp.Live? { DownSaves(s.(ints := false), l, s.ints); }
    case Marked => ScheduleKeeps(s.(ints := false), s.cur);
    case _ =>
  }

  /** A client's thread, once started, has a flag until it is gone for good. */
  lemma FlagUntilGone(s: State, step: Step, t: Tid)
    requires Inv(s) && t in s.tcb && t != IDLER && (HasFlag(s, t) || T(s, t).pc.Gone?)
    ensures var r := Next(s, step); t in r.tcb && (HasFlag(r, t) || T(r, t).pc.Gone?)
    ensures T(s, t).pc.Gone? ==> T(Next(s, step), t).pc.Gone?
  {
    if t != s.cur {
      OthersKept(s, step, t);
    } else {
      match step
      case Tick => if s.ints { YieldSaves(Ticked(s)); }
      case Call(op) => if T(s, t).susp.Live? && T(s, t).pc.Client? { CallNotFresh(s, op); }
      case Advance => RunNotFresh(s);
    }
  }

  /** Step k of a run is thread t's own int_enable or int_disable. */
  ghost predicate SetsFlag(s: State, steps: seq<Step>, k: nat, t: Tid)
    requires k < |steps|
  {
    steps[k].Call? && steps[k].op.SetInts? && Exec(s, steps[..k]).cur == t
  }

  lemma FlagOneMore(q: State, step: Step, t: Tid, flag: bool)
    requires Inv(q) && t != IDLER && Next(q, step).halt.Alive? && t in q.tcb
    requires T(q, t).pc.Gone? || (HasFlag(q, t) && FlagOf(q, t) == flag)
    requires !(t == q.cur && step.Call? && step.op.SetInts?)
    ensures var r := Next(q, step); t in r.tcb && (T(r, t).pc.Gone? || (HasFlag(r, t) && FlagOf(r, t) == flag))
  {
    FlagUntilGone(q, step, t);
    if HasFlag(q, t) && HasFlag(Next(q, step), t) { FlagIsPrivate(q, step, t); }
  }

  /** Over a whole run: while thread t does not touch the flag itself, it sees the same flag. */
  lemma {:induction false} FlagOverRuns(s: State, steps: seq<Step>, t: Tid)
    requires Inv(s) && HasFlag(s, t) && t != IDLER && Exec(s, steps).halt.Alive?
    requires forall k :: 0 <= k < |steps| ==> !SetsFlag(s, steps, k, t)
    ensures var r := Exec(s, steps);
      t in r.tcb && (T(r, t).pc.Gone? || (HasFlag(r, t) && FlagOf(r, t) == FlagOf(s, t)))
    decreases |steps|
  {
    if steps != [] {
      var n := |steps| - 1;
      forall k | 0 <= k < n ensures !SetsFlag(s, steps[..n], k, t) {
        assert steps[..n][..k] == steps[..k];
        assert !SetsFlag(s, steps, k, t);
      }
      FlagOverRuns(s, steps[..n], t);
      ExecSafe(s, steps[..n]);
      assert !SetsFlag(s, steps, n, t);
      FlagOneMore(Exec(s, steps[..n]), steps[n], t, FlagOf(s, t));
    }
  }

  // ----- the idle thread

  /** Outside its wait the idle thread runs with interrupts on, or will again when it is back on the CPU. */
  ghost predicate IdleOpen(s: State) {
    T(s, IDLER).pc.IdleStart? || T(s, IDLER).pc.IdleUp? || T(s, IDLER).pc.IdleLoop? ==> FlagOf(s, IDLER)
  }

  lemma IdleRunsOpen(s: State, step: Step)
    requires Inv(s) && IdleOpen(s) && s.cur == IDLER && Next(s, step).halt.Alive?
    ensures IdleOpen(Next(s, step))
  {
    var r := Next(s, step);
    NextDoes(s, step);
    assert Local(s, IDLER);
    match step
    case Tick => if s.ints && s.tickCount + 1 >= TIME_SLICE { YieldSaves(Ticked(s)); }
    case Call(_) =>
    case Advance =>
      if T(s, IDLER).susp.Live? && T(s, IDLER).pc.IdleLoop? {
        var b :| BlocksAt(s, IdleHalt, b) && Switched(b, r);
        SwitchKeepsPc(s, b, r);
      }
  }

  lemma IdleStepOpen(s: State, step: Step)
    requires Inv(s) && IdleOpen(s) && Next(s, step).halt.Alive?
    ensures IdleOpen(Next(s, step))
  {
    if s.cur == IDLER {
      IdleRunsOpen(s, step);
    } else {
      OthersKept(s, step, IDLER);
      assert Away(s, IDLER);
    }
  }

  lemma {:induction false} IdleRunOpen(steps: seq<Step>)
    requires Exec(ThreadInit(), steps).halt.Alive?
    ensures IdleOpen(Exec(ThreadInit(), steps))
    decreases |steps|
  {
    if steps == [] {
      InitState();
    } else {
      var n := |steps| - 1;
      RunsAreSafe(steps[..n]);
      IdleRunOpen(steps[..n]);
      IdleStepOpen(Exec(ThreadInit(), steps[..n]), steps[n]);
    }
  }

  /**
   The idle thread never shuts ticks out: whenever it is on the CPU interrupts are on, or its
   very next step turns them on and leaves it there.
   */
  lemma IdleLetsTicksIn(s: State, steps: seq<Step>)
    requires Reached(s, steps) && s.cur == IDLER
    ensures s.ints || (Next(s, Advance).halt.Alive? && Next(s, Advance).ints && Next(s, Advance).cur == IDLER)
    ensures T(s, IDLER).susp.Live? && !T(s, IDLER).pc.Fresh? && !T(s, IDLER).pc.IdleHalt? ==> s.ints
  {
    RunsAreSafe(steps);
    IdleRunOpen(steps);
    NextDoes(s, Advance);
    assert Local(s, IDLER) && Placed(s, IDLER);
  }
}
