/**
 What every step of the system does, as relations between the states before and after it: the
 outcome of a whole kernel call up to the next context switch, not the way it is computed.
 */
module SchedSteps {
  import opened Common
  import opened Sched
  import opened SchedInv
  import opened Words

  // ----- the outcomes

  /** Only the current thread's control block changed, to x. */
  ghost predicate OwnBlock(s: State, x: Tcb, r: State) {
    && r == s.(tcb := r.tcb) && r.tcb.Keys == s.tcb.Keys && T(r, s.cur) == x
    && (forall t {:trigger T(r, t)} :: t in s.tcb && t != s.cur ==> T(r, t) == T(s, t))
  }

  /** The current thread goes on at pc, and nothing else changes. */
  ghost predicate GoesOn(s: State, pc: Pc, r: State) { OwnBlock(s, T(s, s.cur).(pc := pc), r) }

  /** thread_yield before it gives up the CPU: ready, last in line unless idle, the flag kept for its return. */
  ghost predicate GivesUp(s: State, b: State) {
    && OwnBlock(s, Tcb(Status.Ready, T(s, s.cur).pc, Yielded(s.ints)), s.(tcb := b.tcb))
    && b.ready == (if s.idle == Some(s.cur) then s.ready else s.ready + [s.cur])
    && !b.ints && b == s.(tcb := b.tcb, ready := b.ready, ints := false, tickCount := b.tickCount)
  }

  /** The thread at the head of the queue, or else the idle thread, gets the CPU from b. */
  ghost predicate Switched(b: State, r: State) { Dispatched(b, r, r.cur) }

  ghost predicate YieldsTo(s: State, r: State) { exists b {:trigger GivesUp(s, b)} :: GivesUp(s, b) && Switched(b, r) }

  /** A tick: one more, or the end of the time slice. */
  ghost predicate TicksTo(s: State, r: State) {
    if s.tickCount + 1 < TIME_SLICE then r == s.(tickCount := s.tickCount + 1) else YieldsTo(s, r)
  }

  /** sema_down, entered with flag `level`: a unit taken and the flag as it was, or waiting in line. */
  ghost predicate DownsTo(s: State, id: SemId, level: bool, r: State) {
    if S(s, id).value > 0 then Took(s, id, r) && r.ints == level
    else exists b {:trigger Queued(s, id, b)} :: Queued(s, id, b) && T(b, s.cur).pc == DownLoop(id, level) && Switched(b, r)
  }

  /** Blocked at pc without a queue. */
  ghost predicate BlocksAt(s: State, pc: Pc, b: State) {
    OwnBlock(s, Tcb(Blocked, pc, Live), s.(tcb := b.tcb)) && b == s.(tcb := b.tcb, ints := false)
  }

  ghost predicate WaitsAt(s: State, pc: Pc, r: State) { exists b {:trigger BlocksAt(s, pc, b)} :: BlocksAt(s, pc, b) && Switched(b, r) }

  /** A thread that is not running is made ready, last in line. */
  ghost predicate StartsTo(s: State, t: Tid, r: State) {
    && r.tcb.Keys == s.tcb.Keys && r.ready == s.ready + [t] && r == s.(tcb := r.tcb, ready := r.ready)
    && T(r, t) == T(s, t).(status := Status.Ready) && T(r, s.cur) == T(s, s.cur).(pc := Client)
    && (forall u {:trigger T(r, u)} :: u in s.tcb && u != t && u != s.cur ==> T(r, u) == T(s, u))
  }

  // ----- which step has which outcome

  predicate IsSem(s: State, id: SemId) { id in s.sems && !S(s, id).lock }
  predicate IsLock(s: State, l: SemId) { l in s.sems && S(s, l).lock }

  ghost predicate CallDoes(s: State, op: Op, r: State) {
    match op
    case SetInts(on) => r == s.(ints := on)
    case Yield => YieldsTo(s, r)
    case Interrupt32 => TicksTo(s, r)
    case Down(id) => if IsSem(s, id) then DownsTo(s, id, s.ints, r) else r == s
    case Up(id) => if IsSem(s, id) then SchedInv.Raised(s, id, Client, r) else r == s
    case Acquire(l) =>
      if !IsLock(s, l) then r == s
      else if S(s, l).holder == Some(s.cur) then r == s.(halt := LockHeld)
      else GoesOn(s, AcqChecked(l), r)
    case Release(l) =>
      if !IsLock(s, l) then r == s
      else if S(s, l).holder == Some(s.cur) then GoesOn(s, RelChecked(l), r)
      else r == s.(halt := NotHolder)
    case Create =>
      var t := s.numThreads + 1;
      && t !in s.tcb && T(r, t) == Tcb(Blocked, Fresh(s.cur), Live) && r.tcb.Keys == s.tcb.Keys + {t}
      && GoesOn(s, Created(t), r.(numThreads := s.numThreads, tcb := r.tcb - {t}))
      && r.numThreads == t
    case InitSema(id, v) =>
      if id in s.sems || v >= WORD then r == s else r == s.(sems := s.sems[id := Sema(v, [], false, None)])
    case InitLock(l) => if l in s.sems then r == s else r == s.(sems := s.sems[l := Sema(1, [], true, None)])
    case Return => if s.cur == KERNEL then r == s else OwnBlock(s, Tcb(Dying, Marked, Live), r)
  }

  /** The current thread's own step. */
  ghost predicate RunDoes(s: State, r: State) {
    var me := T(s, s.cur);
    match me.susp
    case Yielded(level) => r.ints == level && OwnBlock(s, me.(susp := Live), r.(ints := s.ints))
    case Live =>
      match me.pc
      case Fresh(_) => r.ints && GoesOn(s, if s.cur == IDLER then IdleStart else Client, r.(ints := s.ints))
      case Client => r == s
      case DownLoop(id, level) => DownsTo(s, id, level, r)
      case AcqChecked(l) => DownsTo(s, l, s.ints, r)
      case HolderWrite(l) => HolderSet(s, l, Some(s.cur), Client, r)
      case RelChecked(l) => HolderSet(s, l, None, RelCleared(l), r)
      case RelCleared(l) => SchedInv.Raised(s, l, Client, r)
      case Created(t) => r.all == s.all + [t] && GoesOn(s, Linked(t), r.(all := s.all))
      case Linked(t) => StartsTo(s, t, r)
      case Marked =>
        if me.status == Dying then Switched(s.(ints := false), r)
        else r == s.(ready := r.ready, ints := false, halt := StillRunning)
      case Gone => false
      case IdleStart => r.idle == Some(IDLER) && GoesOn(s, IdleUp, r.(idle := s.idle))
      case IdleUp => SchedInv.Raised(s, INIT_STARTED, IdleLoop, r)
      case IdleLoop => WaitsAt(s, IdleHalt, r)
      case IdleHalt => r.ints && GoesOn(s, IdleLoop, r.(ints := s.ints))
  }

  /** Where a step of the machine may lead: a tick with interrupts on, a call by a client's code, or the thread's own step. */
  ghost predicate Does(s: State, step: Step, r: State) {
    match step
    case Tick => if s.ints then TicksTo(s, r) else r == s
    case Call(op) => if T(s, s.cur).susp.Live? && T(s, s.cur).pc.Client? then CallDoes(s, op, r) else r == s
    case Advance => RunDoes(s, r)
  }

  // ----- the steps have them

  lemma YieldDoes(s: State, q: State)
    requires Inv(s) && !Suspended(T(s, s.cur)) && q == s.(tickCount := q.tickCount)
    ensures YieldsTo(s, ThreadYield(q))
  {
    var b := Yielding(q);
    YieldOffCpu(s, b);
    ScheduleDispatches(b);
    assert GivesUp(s, b);
  }

  lemma TickDoes(s: State)
    requires Inv(s) && !Suspended(T(s, s.cur))
    ensures TicksTo(s, ThreadTick(s))
  {
    if s.tickCount + 1 >= TIME_SLICE { YieldDoes(s, Ticked(s)); }
  }

  lemma DownDoes(s: State, id: SemId, level: bool, q: State)
    requires Testing(s, id) && q == s.(ints := false)
    requires T(s, s.cur).pc.DownLoop? ==> !s.ints
    ensures DownsTo(s, id, level, DownTest(q, id, level))
  {
    if S(s, id).value == 0 {
      var b := SetStatus(SetPc(q.(sems := q.sems[id := S(q, id).(waiters := S(q, id).waiters + [q.cur])]),
                               DownLoop(id, level)), q.cur, Blocked);
      QueueOffCpu(s, id, b);
      ScheduleDispatches(b);
      assert Queued(s, id, b);
    }
  }

  lemma CallDoesIt(s: State, op: Op)
    requires Inv(s) && T(s, s.cur).pc.Client? && T(s, s.cur).susp.Live?
    ensures CallDoes(s, op, ClientCall(s, op))
  {
    assert Local(s, s.cur);
    match op
    case Yield => YieldDoes(s, s);
    case Interrupt32 => TickDoes(s);
    case Down(id) => if IsSem(s, id) { DownDoes(s, id, s.ints, s.(ints := false)); }
    case Up(id) => if IsSem(s, id) { SemaUpRaises(s, id, Client); }
    case Create => CreateDoes(s);
    case _ =>
  }

  lemma CreateDoes(s: State)
    requires Inv(s) && T(s, s.cur).pc.Client? && T(s, s.cur).susp.Live?
    ensures CallDoes(s, Create, ClientCall(s, Create))
  {
    var t, r := s.numThreads + 1, ClientCall(s, Create);
    assert t !in s.tcb;
    assert (r.tcb - {t}).Keys == s.tcb.Keys;
  }

  lemma WaitDoes(s: State)
    requires Inv(s) && T(s, s.cur).susp.Live? && (T(s, s.cur).pc.IdleLoop? || T(s, s.cur) == Tcb(Dying, Marked, Live))
    ensures RunDoes(s, RunThread(s))
  {
    assert Local(s, s.cur);
    if T(s, s.cur).pc.IdleLoop? {
      var b := SetStatus(SetPc(s.(ints := false), IdleHalt), s.cur, Blocked);
      IdleOffCpu(s, b);
      ScheduleDispatches(b);
      assert BlocksAt(s, IdleHalt, b);
    } else {
      FlagsInv(s, s.(ints := false));
      ScheduleDispatches(s.(ints := false));
    }
  }

  lemma RunDoesIt(s: State)
    requires Inv(s)
    ensures RunDoes(s, RunThread(s))
  {
    assert Local(s, s.cur) && Placed(s, s.cur);
    if T(s, s.cur).susp.Live? {
      match T(s, s.cur).pc
      case DownLoop(id, level) => DownDoes(s, id, level, s);
      case AcqChecked(l) => DownDoes(s, l, s.ints, s.(ints := false));
      case RelCleared(l) => SemaUpRaises(s, l, Client);
      case Linked(t) => StartDoes(s, t);
      case Marked => if T(s, s.cur).status == Dying { WaitDoes(s); }
      case IdleUp => SemaUpRaises(s, INIT_STARTED, IdleLoop);
      case IdleLoop => WaitDoes(s);
      case _ =>
    }
  }

  lemma StartDoes(s: State, t: Tid)
    requires Inv(s) && T(s, s.cur) == Tcb(Running, Linked(t), Live)
    ensures StartsTo(s, t, RunThread(s))
  {
    assert Local(s, s.cur) && Placed(s, t);
  }

  /** Every step of the system does this, and nothing else. */
  lemma NextDoes(s: State, step: Step)
    requires Inv(s)
    ensures Does(s, step, Next(s, step))
  {
    match step
    case Tick => if s.ints { TickDoes(s); }
    case Call(op) => if T(s, s.cur).susp.Live? && T(s, s.cur).pc.Client? { CallDoesIt(s, op); }
    case Advance => RunDoesIt(s);
  }
}
