/**
 The kernel's scheduler and synchronisation code as it updates its own variables, over the
 linked lists that hold its queues.  Each method runs up to the next context switch and is
 proved to do what the step system of Sched says of the sequences in these lists; Step
 therefore keeps the invariant of SchedInv.
 */
module Kernel {
  import opened Common
  import opened Sched
  import opened KernelLists
  import SchedInv
  import opened Words

  class Kernel {
    const lists: Lists
    var cur: Tid
    var tcb: map<Tid, Tcb>
    var idle: Option<Tid>
    var numThreads: nat
    var tickCount: nat
    var ints: bool
    var halt: Halt
    ghost var dispatches: nat

    ghost predicate Valid()
      reads lists, lists.Repr()
    {
      lists.Valid() && this !in lists.Repr()
    }

    ghost function View(): State
      reads this, lists
    {
      State(cur, tcb, lists.readyView, lists.allView, idle, numThreads, tickCount, ints, lists.semView, halt,
            dispatches)
    }

    /** The machine as thread_init finds it when it calls thread_create. */
    constructor ()
      ensures Valid() && fresh(lists) && fresh(lists.Repr()) && View() == BEFORE_IDLE
    {
      cur, idle, numThreads := KERNEL, None, 1;
      tcb := map[KERNEL := Tcb(Running, Client, Live)];
      tickCount, ints, halt := 0, false, Alive;
      dispatches := 0;
      lists := new Lists(KERNEL);
      new;
      lists.AddSemaphore(INIT_STARTED, 0, false);
    }

    method Panic(why: Halt)
      requires Valid()
      modifies this
      ensures Valid()
      ensures View() == old(View()).(halt := why)
    {
      halt := why;
    }

    // ----- idt.c

    method IntDisable() returns (level: bool)
      requires Valid()
      modifies this
      ensures Valid()
      ensures level == old(ints) && View() == old(View()).(ints := false)
    {
      level, ints := ints, false;
    }

    method IntSet(level: bool)
      requires Valid()
      modifies this
      ensures Valid()
      ensures View() == old(View()).(ints := level || old(ints))
    {
      if level { ints := true; }
    }

    // ----- a thread's control block

    function Block(t: Tid): (x: Tcb)
      reads this, lists
      ensures x == T(View(), t)
    {
      if t in tcb then tcb[t] else Tcb(Dying, Gone, Live)
    }

    /** What the semaphore's fields and its list of waiters hold. */
    lemma SemShows(id: SemId)
      requires Valid() && id in View().sems
      ensures id in lists.sems && lists.SemAt(id) && S(View(), id) == lists.semView[id]
    {
    }

    method MarkStatus(t: Tid, status: Status)
      requires Valid()
      modifies this
      ensures Valid()
      ensures View() == SetStatus(old(View()), t, status)
    {
      tcb := tcb[t := Block(t).(status := status)];
    }

    method GoTo(pc: Pc)
      requires Valid()
      modifies this
      ensures Valid()
      ensures View() == SetPc(old(View()), pc)
    {
      tcb := tcb[cur := Block(cur).(pc := pc)];
    }

    // ----- thread.c

    method GetNextThread() returns (next: Option<Tid>)
      requires Valid()
      modifies this, lists, lists.Repr()
      ensures Valid() && fresh(lists.Repr() - old(lists.Repr()))
      ensures next == NextThread(old(View()))
      ensures View() == var s := old(View()); s.(ready := if s.ready == [] then [] else s.ready[1..])
    {
      if lists.ready.IsEmpty() { return idle; }
      var t := lists.PopReady();
      next := Some(t);
    }

    /**
     thread_kill's two removals.  With at most one thread ready the second one finds an empty
     queue (SchedTheorems.KilledFromRest), where remove starts from a null head: it needs the
     null test that List.Remove makes before the read at list.c:66.
     */
    method Unqueue(t: Tid)
      requires Valid()
      modifies this, lists, lists.Repr()
      ensures Valid() && fresh(lists.Repr() - old(lists.Repr()))
      ensures View() == Unqueued(old(View()), t)
    {
      var found := lists.RemoveAll(t);
      found := lists.RemoveReady(t);
    }

    method ThreadKill(t: Tid)
      requires Valid()
      modifies this, lists, lists.Repr()
      ensures Valid() && fresh(lists.Repr() - old(lists.Repr()))
      ensures View() == Kill(old(View()), t)
    {
      Unqueue(t);
      tcb := tcb[t := Block(t).(pc := Gone)];
    }

    method CompleteSwitch(prev: Option<Tid>)
      requires Valid()
      modifies this, lists, lists.Repr()
      ensures Valid() && fresh(lists.Repr() - old(lists.Repr()))
      ensures View() == SwitchComplete(old(View()), prev)
    {
      MarkStatus(cur, Running);
      tickCount := 0;
      dispatches := dispatches + 1;
      if prev.Some? && Block(prev.value).status == Dying { ThreadKill(prev.value); }
    }

    method Reschedule()
      requires Valid()
      modifies this, lists, lists.Repr()
      ensures Valid() && fresh(lists.Repr() - old(lists.Repr()))
      ensures View() == Schedule(old(View()))
    {
      var curr := cur;
      var next := GetNextThread();
      if ints { Panic(InterruptsOn); return; }
      if Block(curr).status == Running { Panic(StillRunning); return; }
      if next == None { Panic(NullThread); return; }
      var prev := None;
      if next.value != curr {
        cur := next.value;
        prev := Some(curr);
      }
      CompleteSwitch(prev);
    }

    method BlockThread()
      requires Valid()
      modifies this, lists, lists.Repr()
      ensures Valid() && fresh(lists.Repr() - old(lists.Repr()))
      ensures View() == ThreadBlock(old(View()))
    {
      if ints { Panic(InterruptsOn); return; }
      MarkStatus(cur, Blocked);
      Reschedule();
    }

    method UnblockThread(t: Tid)
      requires Valid()
      modifies this, lists, lists.Repr()
      ensures Valid() && fresh(lists.Repr() - old(lists.Repr()))
      ensures View() == ThreadUnblock(old(View()), t)
    {
      if Block(t).status != Blocked { Panic(NotBlocked); return; }
      var level := IntDisable();
      lists.AppendReady(t);
      MarkStatus(t, Status.Ready);
      IntSet(level);
    }

    /** thread_yield up to its call of schedule. */
    method PrepareYield()
      requires Valid()
      modifies this, lists, lists.Repr()
      ensures Valid() && fresh(lists.Repr() - old(lists.Repr()))
      ensures View() == Yielding(old(View()))
    {
      var t := cur;
      var level := IntDisable();
      tcb := tcb[t := Block(t).(status := Status.Ready, susp := Yielded(level))];
      if idle != Some(t) { lists.AppendReady(t); }
    }

    method YieldThread()
      requires Valid()
      modifies this, lists, lists.Repr()
      ensures Valid() && fresh(lists.Repr() - old(lists.Repr()))
      ensures View() == ThreadYield(old(View()))
    {
      PrepareYield();
      Reschedule();
    }

    method TickThread()
      requires Valid()
      modifies this, lists, lists.Repr()
      ensures Valid() && fresh(lists.Repr() - old(lists.Repr()))
      ensures View() == ThreadTick(old(View()))
    {
      tickCount := tickCount + 1;
      assert View() == Ticked(old(View()));
      if tickCount >= TIME_SLICE { YieldThread(); }
    }

    // ----- synch.c

    /** append(s->waiters, current_thread()) */
    method WaitInLine(id: SemId, level: bool)
      requires Valid() && id in View().sems
      modifies this, lists, lists.Repr()
      ensures Valid() && fresh(lists.Repr() - old(lists.Repr()))
      ensures View() == InLine(old(View()), id, level)
    {
      SemShows(id);
      lists.AppendWaiter(id, cur);
      GoTo(DownLoop(id, level));
    }

    method LowerValue(id: SemId)
      requires Valid() && id in View().sems && S(View(), id).value > 0
      modifies this, lists, lists.Repr()
      ensures Valid() && fresh(lists.Repr() - old(lists.Repr()))
      ensures View() == Lowered(old(View()), id)
    {
      SemShows(id);
      lists.Lower(id);
    }

    /** s->value--, and the flag as it was before sema_down. */
    method TakeUnit(id: SemId, level: bool)
      requires Valid() && id in View().sems && S(View(), id).value > 0
      modifies this, lists, lists.Repr()
      ensures Valid() && fresh(lists.Repr() - old(lists.Repr()))
      ensures View() == UnitTaken(old(View()), id, level)
    {
      SemShows(id);
      var isLock := lists.sems[id].lock;
      LowerValue(id);
      IntSet(level);
      GoTo(if isLock then HolderWrite(id) else Client);
    }

    /** One round of sema_down's loop; a thread that blocks comes back to it. */
    method DownRound(id: SemId, level: bool)
      requires Valid() && id in View().sems
      modifies this, lists, lists.Repr()
      ensures Valid() && fresh(lists.Repr() - old(lists.Repr()))
      ensures View() == DownTest(old(View()), id, level)
    {
      SemShows(id);
      if lists.sems[id].value == 0 {
        WaitInLine(id, level);
        BlockThread();
      } else {
        TakeUnit(id, level);
      }
    }

    method Down(id: SemId)
      requires Valid() && id in View().sems
      modifies this, lists, lists.Repr()
      ensures Valid() && fresh(lists.Repr() - old(lists.Repr()))
      ensures View() == SemaDown(old(View()), id)
    {
      var level := IntDisable();
      DownRound(id, level);
    }

    method Up(id: SemId, pc: Pc)
      requires Valid() && id in View().sems
      modifies this, lists, lists.Repr()
      ensures Valid() && fresh(lists.Repr() - old(lists.Repr()))
      ensures View() == SemaUp(old(View()), id, pc)
    {
      var level := IntDisable();
      UpInside(id, pc);
      IntSet(level);
      UnflaggedUp(old(View()), id, pc);
    }

    /** sema_up between its two changes of the interrupt flag. */
    method UpInside(id: SemId, pc: Pc)
      requires Valid() && id in View().sems
      modifies this, lists, lists.Repr()
      ensures Valid() && fresh(lists.Repr() - old(lists.Repr()))
      ensures View() == Upped(old(View()), id, pc)
    {
      ghost var s := View();
      WakeFirst(id);
      ghost var w := View();
      if halt == Alive { RaiseValue(id, pc); }
      UppedFrom(s, w, View(), id, pc);
    }

    /** thread_unblock(pop(s->waiters)), if there is a waiter. */
    method WakeFirst(id: SemId)
      requires Valid() && id in View().sems
      modifies this, lists, lists.Repr()
      ensures Valid() && fresh(lists.Repr() - old(lists.Repr()))
      ensures View() == WokenState(old(View()), id) && id in View().sems
    {
      SemShows(id);
      if !lists.sems[id].waiters.IsEmpty() {
        var t := lists.PopWaiter(id);
        UnblockThread(t);
      }
    }

    method RaiseUnit(id: SemId)
      requires Valid() && id in View().sems
      modifies this, lists, lists.Repr()
      ensures Valid() && fresh(lists.Repr() - old(lists.Repr()))
      ensures View() == Raised(old(View()), id)
    {
      SemShows(id);
      lists.Raise(id);
    }

    method RaiseValue(id: SemId, pc: Pc)
      requires Valid() && id in View().sems
      modifies this, lists, lists.Repr()
      ensures Valid() && fresh(lists.Repr() - old(lists.Repr()))
      ensures View() == RaisedTo(old(View()), id, pc)
    {
      RaiseUnit(id);
      GoTo(pc);
    }

    method WriteHolder(l: SemId, holder: Option<Tid>)
      requires Valid() && l in View().sems
      modifies this, lists, lists.Repr()
      ensures Valid() && fresh(lists.Repr() - old(lists.Repr()))
      ensures View() == SetHolder(old(View()), l, holder)
    {
      SemShows(l);
      lists.WriteHolder(l, holder);
    }

    /** There is such a semaphore, or such a lock. */
    predicate Exists(id: SemId, isLock: bool)
      requires Valid()
      reads this, lists, lists.Repr()
      ensures Exists(id, isLock) <==> id in View().sems && S(View(), id).lock == isLock
      ensures Exists(id, isLock) ==> id in lists.sems && lists.sems[id].holder == S(View(), id).holder
    {
      assert id in lists.sems ==> lists.SemAt(id);
      id in lists.sems && lists.sems[id].lock == isLock
    }

    /** A call on a semaphore or a lock, up to its first preemption point. */
    method EnterSync(op: Op)
      requires Valid() && (op.Down? || op.Up? || op.Acquire? || op.Release?)
      modifies this, lists, lists.Repr()
      ensures Valid() && fresh(lists.Repr() - old(lists.Repr()))
      ensures View() == ClientCall(old(View()), op)
    {
      match op {
        case Down(id) => if Exists(id, false) { Down(id); }
        case Up(id) => if Exists(id, false) { Up(id, Client); }
        case Acquire(l) =>
          if Exists(l, true) {
            if lists.sems[l].holder == Some(cur) { Panic(LockHeld); } else { GoTo(AcqChecked(l)); }
          }
        case Release(l) =>
          if Exists(l, true) {
            if lists.sems[l].holder != Some(cur) { Panic(NotHolder); } else { GoTo(RelChecked(l)); }
          }
      }
    }

    /** thread_create as far as the new thread's page. */
    method BuildThread()
      requires Valid()
      modifies this
      ensures Valid() && View() == ClientCall(old(View()), Create)
    {
      numThreads := numThreads + 1;
      tcb := tcb[numThreads := Tcb(Blocked, Fresh(cur), Live)];
      GoTo(Created(numThreads));
    }

    /** A kernel call by the current thread, up to its first preemption point. */
    method Enter(op: Op)
      requires Valid()
      modifies this, lists, lists.Repr()
      ensures Valid() && fresh(lists.Repr() - old(lists.Repr()))
      ensures View() == ClientCall(old(View()), op)
    {
      match op {
        case SetInts(on) => ints := on;
        case Yield => YieldThread();
        case Interrupt32 => TickThread();
        case Create => BuildThread();
        case InitSema(id, v) =>
          if id !in lists.sems && v < WORD { lists.AddSemaphore(id, v, false); }
        case InitLock(l) =>
          if l !in lists.sems { lists.AddSemaphore(l, 1, true); }
        case Return =>
          if cur != KERNEL {
            MarkStatus(cur, Dying);
            GoTo(Marked);
          }
        case _ => EnterSync(op);
      }
    }

    /** The end of thread_yield, on the thread's own stack again. */
    method EndYield()
      requires Valid() && Block(cur).susp.Yielded?
      modifies this
      ensures Valid()
      ensures View() == RunThread(old(View()))
    {
      var level := Block(cur).susp.level;
      tcb := tcb[cur := Block(cur).(susp := Live)];
      IntSet(level);
    }

    /** run, as far as the call of the thread's function. */
    method EnterRun()
      requires Valid()
      modifies this
      ensures Valid()
      ensures View() == SetPc(old(View()).(ints := true), if old(cur) == IDLER then IdleStart else Client)
    {
      ints := true;
      GoTo(if cur == IDLER then IdleStart else Client);
    }

    /** The end of thread_create. */
    method StartChild(t: Tid)
      requires Valid()
      modifies this, lists, lists.Repr()
      ensures Valid() && fresh(lists.Repr() - old(lists.Repr()))
      ensures View() == var s1 := ThreadUnblock(old(View()), t); if s1.halt.Alive? then SetPc(s1, Client) else s1
    {
      UnblockThread(t);
      if halt == Alive { GoTo(Client); }
    }

    /** The end of run, after the mark. */
    method Leave()
      requires Valid()
      modifies this, lists, lists.Repr()
      ensures Valid() && fresh(lists.Repr() - old(lists.Repr()))
      ensures View() == Schedule(old(View()).(ints := false))
    {
      var level := IntDisable();
      Reschedule();
    }

    /** idle's loop, up to thread_block. */
    method IdleWait()
      requires Valid()
      modifies this, lists, lists.Repr()
      ensures Valid() && fresh(lists.Repr() - old(lists.Repr()))
      ensures View() == ThreadBlock(SetPc(old(View()).(ints := false), IdleHalt))
    {
      var level := IntDisable();
      GoTo(IdleHalt);
      BlockThread();
    }

    /** The current thread's next piece of kernel code. */
    method Continue()
      requires Valid() && Grounded(View())
      modifies this, lists, lists.Repr()
      ensures Valid() && fresh(lists.Repr() - old(lists.Repr()))
      ensures View() == RunThread(old(View()))
    {
      if Block(cur).susp != Live {
        EndYield();
        return;
      }
      match Block(cur).pc {
        case Fresh(_) => EnterRun();
        case Client =>
        case DownLoop(id, level) => DownRound(id, level);
        case AcqChecked(l) => Down(l);
        case HolderWrite(l) => WriteHolder(l, Some(cur)); GoTo(Client);
        case RelChecked(l) => WriteHolder(l, None); GoTo(RelCleared(l));
        case RelCleared(l) => Up(l, Client);
        case Created(t) => lists.AppendAll(t); GoTo(Linked(t));
        case Linked(t) => StartChild(t);
        case Marked => Leave();
        case Gone =>
        case _ => RunIdle();
      }
    }

    /** The code of idle. */
    method RunIdle()
      requires Valid() && Grounded(View()) && Block(cur).susp.Live? && SchedInv.IdlePc(Block(cur).pc)
      modifies this, lists, lists.Repr()
      ensures Valid() && fresh(lists.Repr() - old(lists.Repr()))
      ensures View() == RunThread(old(View()))
    {
      match Block(cur).pc {
        case IdleStart => idle := Some(cur); GoTo(IdleUp);
        case IdleUp => Up(INIT_STARTED, IdleLoop);
        case IdleLoop => IdleWait();
        case IdleHalt => ints := true; GoTo(IdleLoop);
      }
    }

    /** One step of the machine is one step of the step system. */
    method Step(step: Step)
      requires Valid() && (halt == Alive ==> Grounded(View()))
      modifies this, lists, lists.Repr()
      ensures Valid() && fresh(lists.Repr() - old(lists.Repr()))
      ensures View() == Next(old(View()), step)
    {
      if halt == Alive {
        match step {
          case Tick => if ints { TickThread(); }
          case Call(op) => if Block(cur).susp.Live? && Block(cur).pc.Client? { Enter(op); }
          case Advance => Continue();
        }
      }
    }

    /** thread_init's call of thread_create, with interrupts off. */
    method CreateIdle()
      requires Valid() && View() == BEFORE_IDLE
      modifies this, lists, lists.Repr()
      ensures Valid() && fresh(lists.Repr() - old(lists.Repr()))
      ensures View() == ThreadInit()
    {
      ghost var s0 := View();
      BootGrounded(s0);
      Step(Call(Create));
      ghost var s1 := View();
      FirstCreateStep(s0, s1);
      Step(Advance);
      ghost var s2 := View();
      SecondCreateStep(s0, s1, s2);
      Step(Advance);
      ThirdCreateStep(s0, s1, s2, View());
    }

    /** Any run of the machine from boot goes wrong only by a lock panic or the exit window. */
    method Run(steps: seq<Step>)
      requires Valid() && View() == ThreadInit()
      modifies this, lists, lists.Repr()
      ensures Valid() && fresh(lists.Repr() - old(lists.Repr()))
      ensures View() == Exec(old(View()), steps) && SchedInv.Safe(View())
    {
      for k := 0 to |steps|
        invariant Valid() && fresh(lists.Repr() - old(lists.Repr()))
        invariant View() == Exec(old(View()), steps[..k])
      {
        RunGrounded(steps[..k], View());
        ghost var q := View();
        Step(steps[k]);
        ExecNext(old(View()), steps, k, q);
      }
      assert steps[..|steps|] == steps;
      SchedInv.RunsAreSafe(steps);
    }
  }

  /** The semaphore that the current thread's next step uses exists. */
  predicate Grounded(s: State) {
    match T(s, s.cur).pc
    case DownLoop(id, _) => id in s.sems
    case AcqChecked(l) => l in s.sems
    case HolderWrite(l) => l in s.sems
    case RelChecked(l) => l in s.sems
    case RelCleared(l) => l in s.sems
    case IdleUp => INIT_STARTED in s.sems
    case _ => true
  }

  lemma BootGrounded(s: State)
    requires s == BEFORE_IDLE
    ensures Grounded(s)
  {
  }

  lemma FirstCreateStep(s0: State, s1: State)
    requires s0 == BEFORE_IDLE && s1 == Next(s0, Call(Create))
    ensures Grounded(s1)
  {
  }

  lemma SecondCreateStep(s0: State, s1: State, s2: State)
    requires s0 == BEFORE_IDLE && s1 == Next(s0, Call(Create)) && s2 == Next(s1, Advance)
    ensures Grounded(s2)
  {
  }

  lemma ThirdCreateStep(s0: State, s1: State, s2: State, s3: State)
    requires s0 == BEFORE_IDLE && s1 == Next(s0, Call(Create)) && s2 == Next(s1, Advance) && s3 == Next(s2, Advance)
    ensures s3 == ThreadInit()
  {
    var steps := [Call(Create), Advance, Advance];
    assert steps[..2] == [Call(Create), Advance] && steps[..2][..1] == [Call(Create)] && steps[..2][..1][..0] == [];
    assert Exec(s0, steps[..2][..1]) == s1;
    assert Exec(s0, steps[..2]) == s2;
  }

  lemma ExecNext(s: State, steps: seq<Step>, k: nat, q: State)
    requires k < |steps| && q == Exec(s, steps[..k])
    ensures Exec(s, steps[..k + 1]) == Next(q, steps[k])
  {
    assert steps[..k + 1][..k] == steps[..k];
  }

  lemma RunGrounded(steps: seq<Step>, s: State)
    requires s == Exec(ThreadInit(), steps)
    ensures s.halt.Alive? ==> Grounded(s)
  {
    SchedInv.RunsAreSafe(steps);
    if s.halt.Alive? {
      assert s.cur in s.tcb;
      assert SchedInv.Local(s, s.cur);
    }
  }

  function Unqueued(s: State, t: Tid): State { s.(all := RemoveFirst(s.all, t), ready := RemoveFirst(s.ready, t)) }

  /** The current thread last among the waiters. */
  function InLine(s: State, id: SemId, level: bool): State {
    var m := S(s, id);
    SetPc(s.(sems := s.sems[id := m.(waiters := m.waiters + [s.cur])]), DownLoop(id, level))
  }

  /** value-- */
  function Lowered(s: State, id: SemId): State
    requires S(s, id).value > 0
  {
    var m := S(s, id);
    s.(sems := s.sems[id := m.(value := m.value - 1)])
  }

  function UnitTaken(s: State, id: SemId, level: bool): State
    requires S(s, id).value > 0
  {
    var r := Lowered(s, id);
    SetPc(r.(ints := level || s.ints), if S(s, id).lock then HolderWrite(id) else Client)
  }

  /** The first waiter of a semaphore, if there is one, made ready. */
  function WokenState(s: State, id: SemId): State {
    var m := S(s, id);
    if m.waiters == [] then s
    else ThreadUnblock(s.(sems := s.sems[id := m.(waiters := m.waiters[1..])]), m.waiters[0])
  }

  /** value++ */
  function Raised(s: State, id: SemId): State {
    var m := S(s, id);
    s.(sems := s.sems[id := m.(value := (m.value + 1) % WORD)])
  }

  function RaisedTo(s: State, id: SemId, pc: Pc): State {
    SetPc(Raised(s, id), pc)
  }

  function Upped(s: State, id: SemId, pc: Pc): State {
    var w := WokenState(s, id);
    if w.halt.Alive? then RaisedTo(w, id, pc) else w
  }

  lemma UppedFrom(s: State, w: State, r: State, id: SemId, pc: Pc)
    requires w == WokenState(s, id) && r == if w.halt.Alive? then RaisedTo(w, id, pc) else w
    ensures r == Upped(s, id, pc)
  {
  }

  lemma UnflaggedUp(s: State, id: SemId, pc: Pc)
    ensures Upped(s.(ints := false), id, pc).(ints := s.ints) == SemaUp(s, id, pc)
    ensures !Upped(s.(ints := false), id, pc).ints
  {
    UnflaggedWake(s, id);
    UnflaggedRaise(WokenState(s, id), id, pc);
  }

  /** Neither half of sema_up looks at the interrupt flag. */
  lemma UnflaggedWake(s: State, id: SemId)
    ensures WokenState(s.(ints := false), id) == WokenState(s, id).(ints := false) && WokenState(s, id).ints == s.ints
  {
  }

  lemma UnflaggedRaise(s: State, id: SemId, pc: Pc)
    ensures RaisedTo(s.(ints := false), id, pc) == RaisedTo(s, id, pc).(ints := false) && RaisedTo(s, id, pc).ints == s.ints
  {
  }
}
