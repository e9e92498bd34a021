/**
 The scheduler, the semaphores and the locks as one preemptive step system.

 A state holds the kernel's data (thread control blocks, queues, semaphores,
 locks, tick counter, interrupt flag) and, for every thread, where its control
 is.  Code that runs with interrupts off is one step up to the next context
 switch; wherever interrupts may be on, a timer tick may come between two steps.
 A failing PANIC check halts the machine.
 */
module Sched {
  import opened Common
  import opened Words

  type Tid = nat      // a thread, by its creation number (thread.c:355-357)
  type SemId = nat    // a semaphore; a lock is named by its own semaphore

  const KERNEL: Tid := 1
  const IDLER: Tid := 2
  const INIT_STARTED: SemId := 0
  const TIME_SLICE: nat := 4

  datatype Status = Ready | Running | Blocked | Dying

  /** Where a thread's own code stands. */
  datatype Pc =
    | Fresh(parent: Tid)                  // built by thread_create, called by `parent`; not yet switched to
    | Client                              // in the thread's function, outside kernel calls
    | DownLoop(sem: SemId, level: bool)   // in sema_down's loop, past thread_block's call
    | AcqChecked(lock: SemId)             // lock_accquire: before sema_down
    | HolderWrite(lock: SemId)            // lock_accquire: sema_down done, holder not written
    | RelChecked(lock: SemId)             // lock_release: owner checked, holder not cleared
    | RelCleared(lock: SemId)             // lock_release: holder cleared, sema_up not called
    | Created(child: Tid)                 // thread_create: child built, not in all_threads
    | Linked(child: Tid)                  // thread_create: child not yet unblocked
    | Marked                              // run: status set to DYING, interrupts not yet off
    | Gone                                // switched away from for good
    | IdleStart | IdleUp | IdleLoop | IdleHalt

  /** Whether the thread is inside thread_yield, and the interrupt flag it goes back to. */
  datatype Suspension = Live | Yielded(level: bool)

  datatype Tcb = Tcb(status: Status, pc: Pc, susp: Suspension)

  /** A semaphore; a lock is one with a holder beside it. */
  datatype Sema = Sema(value: nat, waiters: seq<Tid>, lock: bool, holder: Option<Tid>)

  datatype Halt =
    | Alive
    | LockHeld          // lock_accquire by the holder
    | NotHolder         // lock_release by another thread
    | StillRunning      // schedule: current thread not taken off the CPU
    | InterruptsOn      // schedule or thread_block with interrupts enabled
    | NotBlocked        // thread_unblock of a thread that is not blocked
    | NullThread        // schedule with an empty queue and no idle thread

  /** `dispatches` and Fresh's `parent` are history: they are never read by a step. */
  datatype State = State(
    cur: Tid, tcb: map<Tid, Tcb>, ready: seq<Tid>, all: seq<Tid>, idle: Option<Tid>,
    numThreads: nat, tickCount: nat, ints: bool, sems: map<SemId, Sema>,
    halt: Halt, dispatches: nat)

  datatype Op =
    | SetInts(on: bool) | Yield | Interrupt32 | Down(sem: SemId) | Up(sem: SemId)
    | Acquire(lock: SemId) | Release(lock: SemId)
    | Create | InitSema(sem: SemId, value: nat) | InitLock(lock: SemId) | Return

  /** A tick, a kernel call by the current thread, or that thread's next step. */
  datatype Step = Tick | Call(op: Op) | Advance

  function T(s: State, t: Tid): Tcb {
    if t in s.tcb then s.tcb[t] else Tcb(Dying, Gone, Live)
  }

  function S(s: State, id: SemId): Sema {
    if id in s.sems then s.sems[id] else Sema(0, [], false, None)
  }

  function SetPc(s: State, pc: Pc): State {
    s.(tcb := s.tcb[s.cur := T(s, s.cur).(pc := pc)])
  }

  function SetStatus(s: State, t: Tid, status: Status): State {
    s.(tcb := s.tcb[t := T(s, t).(status := status)])
  }

  function SetHolder(s: State, l: SemId, holder: Option<Tid>): State {
    s.(sems := s.sems[l := S(s, l).(holder := holder)])
  }

  // ----- thread.c: dispatching

  /** thread_kill: the page itself is not freed. */
  function Kill(s: State, t: Tid): State {
    s.(all := RemoveFirst(s.all, t), ready := RemoveFirst(s.ready, t),
       tcb := s.tcb[t := T(s, t).(pc := Gone)])
  }

  /** switch_complete, on the stack of the thread switched to. */
  function SwitchComplete(s: State, prev: Option<Tid>): State {
    var s1 := SetStatus(s, s.cur, Running).(tickCount := 0, dispatches := s.dispatches + 1);
    if prev.Some? && T(s1, prev.value).status == Dying then Kill(s1, prev.value) else s1
  }

  function NextThread(s: State): Option<Tid> {
    if s.ready == [] then s.idle else Some(s.ready[0])
  }

  function Schedule(s: State): State {
    var next := NextThread(s);
    var s1 := s.(ready := if s.ready == [] then [] else s.ready[1..]);
    if s.ints then s1.(halt := InterruptsOn)
    else if T(s, s.cur).status == Running then s1.(halt := StillRunning)
    else if next.None? then s1.(halt := NullThread)
    else if next.value == s.cur then SwitchComplete(s1, None)
    else SwitchComplete(s1.(cur := next.value), Some(s.cur))
  }

  function ThreadBlock(s: State): State {
    if s.ints then s.(halt := InterruptsOn)
    else Schedule(SetStatus(s, s.cur, Blocked))
  }

  function ThreadUnblock(s: State, t: Tid): State {
    if T(s, t).status != Blocked then s.(halt := NotBlocked)
    else SetStatus(s.(ready := s.ready + [t]), t, Ready)
  }

  /** thread_yield up to its call of schedule; the flag to go back to is on the stack. */
  function Yielding(s: State): State {
    var s1 := s.(ints := false,
                 tcb := s.tcb[s.cur := T(s, s.cur).(status := Status.Ready, susp := Yielded(s.ints))]);
    if s.idle == Some(s.cur) then s1 else s1.(ready := s.ready + [s.cur])
  }

  function ThreadYield(s: State): State {
    Schedule(Yielding(s))
  }

  function Ticked(s: State): State {
    s.(tickCount := s.tickCount + 1)
  }

  /** Interrupt 32: the handler runs with interrupts off, iret restores the flag. */
  function ThreadTick(s: State): State {
    if Ticked(s).tickCount >= TIME_SLICE then ThreadYield(Ticked(s)) else Ticked(s)
  }

  // ----- synch.c

  /** One test of sema_down's loop with interrupts off: take a unit or wait. */
  function DownTest(s: State, id: SemId, level: bool): State {
    var m := S(s, id);
    if m.value == 0 then
      ThreadBlock(SetPc(s.(sems := s.sems[id := m.(waiters := m.waiters + [s.cur])]), DownLoop(id, level)))
    else
      SetPc(s.(sems := s.sems[id := m.(value := m.value - 1)],
               ints := level || s.ints),
            if m.lock then HolderWrite(id) else Client)
  }

  function SemaDown(s: State, id: SemId): State {
    DownTest(s.(ints := false), id, s.ints)
  }

  /** sema_up, then the caller goes on at `pc`. */
  function SemaUp(s: State, id: SemId, pc: Pc): State {
    var m := S(s, id);
    var woken := if m.waiters == [] then s
                 else ThreadUnblock(s.(sems := s.sems[id := m.(waiters := m.waiters[1..])]), m.waiters[0]);
    if !woken.halt.Alive? then woken
    else
      var n := S(woken, id);
      SetPc(woken.(sems := woken.sems[id := n.(value := (n.value + 1) % WORD)]), pc)
  }

  // ----- the step relation, as a function; a step that is not enabled changes nothing

  function ClientCall(s: State, op: Op): State {
    match op
    case SetInts(on) => s.(ints := on)
    case Yield => ThreadYield(s)
    case Interrupt32 => ThreadTick(s)
    case Down(id) => if id in s.sems && !S(s, id).lock then SemaDown(s, id) else s
    case Up(id) => if id in s.sems && !S(s, id).lock then SemaUp(s, id, Client) else s
    case Acquire(l) =>
      if l !in s.sems || !S(s, l).lock then s
      else if S(s, l).holder == Some(s.cur) then s.(halt := LockHeld)
      else SetPc(s, AcqChecked(l))
    case Release(l) =>
      if l !in s.sems || !S(s, l).lock then s
      else if S(s, l).holder != Some(s.cur) then s.(halt := NotHolder)
      else SetPc(s, RelChecked(l))
    case Create =>
      var t := s.numThreads + 1;
      SetPc(s.(numThreads := t, tcb := s.tcb[t := Tcb(Blocked, Fresh(s.cur), Live)]), Created(t))
    case InitSema(id, v) =>
      if id !in s.sems && v < WORD then s.(sems := s.sems[id := Sema(v, [], false, None)]) else s
    case InitLock(l) =>
      if l !in s.sems then s.(sems := s.sems[l := Sema(1, [], true, None)]) else s
    case Return => if s.cur != KERNEL then SetPc(SetStatus(s, s.cur, Dying), Marked) else s
  }

  function RunThread(s: State): State {
    var me := T(s, s.cur);
    match me.susp
    case Yielded(level) => s.(ints := level || s.ints, tcb := s.tcb[s.cur := me.(susp := Live)])
    case Live =>
      match me.pc
      case Fresh(_) => SetPc(s.(ints := true), if s.cur == IDLER then IdleStart else Client)
      case Client => s
      case DownLoop(id, level) => DownTest(s, id, level)
      case AcqChecked(l) => SemaDown(s, l)
      case HolderWrite(l) => SetPc(SetHolder(s, l, Some(s.cur)), Client)
      case RelChecked(l) => SetPc(SetHolder(s, l, None), RelCleared(l))
      case RelCleared(l) => SemaUp(s, l, Client)
      case Created(t) => SetPc(s.(all := s.all + [t]), Linked(t))
      case Linked(t) =>
        var s1 := ThreadUnblock(s, t);
        if s1.halt.Alive? then SetPc(s1, Client) else s1
      case Marked => Schedule(s.(ints := false))
      case Gone => s
      case IdleStart => SetPc(s.(idle := Some(s.cur)), IdleUp)
      case IdleUp => SemaUp(s, INIT_STARTED, IdleLoop)
      case IdleLoop => ThreadBlock(SetPc(s.(ints := false), IdleHalt))
      case IdleHalt => SetPc(s.(ints := true), IdleLoop)
  }

  function Next(s: State, step: Step): State {
    if !s.halt.Alive? then s
    else
      match step
      case Tick => if s.ints then ThreadTick(s) else s
      case Call(op) => if T(s, s.cur).susp.Live? && T(s, s.cur).pc.Client? then ClientCall(s, op) else s
      case Advance => RunThread(s)
  }

  function Exec(s: State, steps: seq<Step>): State
    decreases |steps|
  {
    if steps == [] then s else Next(Exec(s, steps[..|steps| - 1]), steps[|steps| - 1])
  }

  // ----- thread_init, up to the point where it enables interrupts

  const BEFORE_IDLE: State := State(
    KERNEL, map[KERNEL := Tcb(Running, Client, Live)], [], [KERNEL], None, 1, 0, false,
    map[INIT_STARTED := Sema(0, [], false, None)], Alive, 0)

  /** Interrupts are off, so the three steps of thread_create run undisturbed. */
  function ThreadInit(): State {
    Exec(BEFORE_IDLE, [Call(Create), Advance, Advance])
  }
}
