/**
 The invariant of the step system.  Facts about one thread, or one semaphore, are
 one predicate each, so that proofs name the threads they need.
 */
module SchedInv {
  import opened Common
  import opened Sched
  import opened Words

  /** The program points at which a thread sits while another one runs. */
  predicate AtSwitch(pc: Pc) { pc.Fresh? || pc.DownLoop? || pc.IdleHalt? || pc.Gone? }

  predicate Suspended(x: Tcb) { x.susp.Yielded? || AtSwitch(x.pc) }

  predicate IdlePc(pc: Pc) { pc.IdleStart? || pc.IdleUp? || pc.IdleLoop? || pc.IdleHalt? }

  predicate LockPc(pc: Pc) { pc.AcqChecked? || pc.HolderWrite? || pc.RelChecked? || pc.RelCleared? }

  predicate CreatorPc(pc: Pc) { pc.Created? || pc.Linked? }

  /** t is being built by thread_create. */
  predicate Unborn(s: State, t: Tid) {
    && T(s, t).pc.Fresh?
    && CreatorPc(T(s, T(s, t).pc.parent).pc)
    && T(s, T(s, t).pc.parent).pc.child == t
  }

  predicate Waiting(s: State, t: Tid) {
    T(s, t).pc.DownLoop? && t in S(s, T(s, t).pc.sem).waiters
  }

  /** The queues, all_threads and the status of one thread agree. */
  ghost predicate Placed(s: State, t: Tid) {
    var x := T(s, t);
    && (t in s.ready <==> x.status == Status.Ready && s.idle != Some(t))
    && (x.status == Blocked ==> Waiting(s, t) || Unborn(s, t) || x.pc.IdleHalt?)
    && (t in s.all <==> !x.pc.Gone? && !(Unborn(s, t) && T(s, x.pc.parent).pc.Created?))
    && (x.pc.Gone? ==> x.status == Dying)
  }

  /** What the program point of one thread says about the rest of the state. */
  ghost predicate Local(s: State, t: Tid) {
    var x := T(s, t);
    && (x.susp.Yielded? ==> !AtSwitch(x.pc))
    && (CreatorPc(x.pc) ==> x.pc.child in s.tcb && T(s, x.pc.child) == Tcb(Blocked, Fresh(t), Live))
    && (x.pc.DownLoop? ==> x.pc.sem in s.sems)
    && (LockPc(x.pc) ==> x.pc.lock in s.sems && S(s, x.pc.lock).lock)
    && (x.pc.RelChecked? ==> S(s, x.pc.lock).holder == Some(t))
    && (x.pc.RelCleared? ==> S(s, x.pc.lock).holder == None)
    && (IdlePc(x.pc) ==> t == IDLER)
  }

  /** Only thread 2 is idle(), and idle_thread is set on its way into the loop. */
  ghost predicate IdleThread(s: State) {
    var x := T(s, IDLER);
    && IDLER in s.tcb
    && (s.idle == None || s.idle == Some(IDLER))
    && (s.idle == None ==> (x.pc.Fresh? && !Unborn(s, IDLER)) || x.pc.IdleStart?)
    && (s.idle != None ==> x.pc.IdleUp? || x.pc.IdleLoop? || x.pc.IdleHalt?)
    && x.status != Dying
  }

  /** The popped waiters of a semaphore that have not re-tested its value yet. */
  ghost function Woken(s: State, id: SemId): set<Tid> {
    set t | t in s.tcb && T(s, t).pc.DownLoop? && T(s, t).pc.sem == id && T(s, t).status != Blocked
  }

  /** t is between its decrement of l's semaphore and its increment. */
  ghost predicate Owns(s: State, l: SemId, t: Tid) {
    T(s, t).pc == HolderWrite(l) || T(s, t).pc == RelCleared(l) || S(s, l).holder == Some(t)
  }

  ghost function Owners(s: State, l: SemId): set<Tid> {
    set t | t in s.tcb && Owns(s, l, t)
  }

  /** A thread on the waiters list of semaphore `id`. */
  predicate Waiter(s: State, id: SemId, t: Tid) {
    t in s.tcb && T(s, t).status == Blocked && T(s, t).pc.DownLoop? && T(s, t).pc.sem == id
  }

  /** Its waiters are the threads blocked on it, and no wake-up is lost. */
  ghost predicate SemQueue(s: State, id: SemId) {
    var m := S(s, id);
    && NoDup(m.waiters)
    && (forall t {:trigger Waiter(s, id, t)} :: t in m.waiters ==> Waiter(s, id, t))
    && (m.waiters != [] ==> m.value <= |Woken(s, id)|)
  }

  /** The value is a machine word. */
  ghost predicate SemCount(s: State, id: SemId) { S(s, id).value < WORD }

  /** A lock's unit is in the semaphore or with one owner. */
  ghost predicate SemLock(s: State, id: SemId) {
    var m := S(s, id);
    && (m.lock ==> m.value + |Owners(s, id)| == 1)
    && (m.holder.Some? ==> m.lock && m.holder.value in s.tcb)
  }

  ghost predicate SemOk(s: State, id: SemId) {
    SemQueue(s, id) && SemCount(s, id) && SemLock(s, id)
  }

  ghost predicate Core(s: State) {
    && (forall t {:trigger t in s.tcb} :: t in s.tcb <==> 1 <= t <= s.numThreads)
    && NoDup(s.ready) && NoDup(s.all)
    && (forall t {:trigger t in s.ready} :: t in s.ready ==> t in s.tcb)
    && (forall t {:trigger t in s.all} :: t in s.all ==> t in s.tcb)
    && (forall t {:trigger Placed(s, t)} :: t in s.tcb ==> Placed(s, t))
    && (forall t {:trigger Local(s, t)} :: t in s.tcb ==> Local(s, t))
    && (forall id {:trigger SemOk(s, id)} :: id in s.sems ==> SemOk(s, id))
    && IdleThread(s)
    && INIT_STARTED in s.sems && !S(s, INIT_STARTED).lock
  }

  /** A thread that is not current is off the CPU, at a switch. */
  predicate Away(s: State, t: Tid) {
    && T(s, t).status != Running
    && Suspended(T(s, t))
    && (T(s, t).status == Dying ==> T(s, t).pc.Gone?)
  }

  ghost predicate OthersAway(s: State) {
    && s.cur in s.tcb
    && (forall t {:trigger Away(s, t)} :: t in s.tcb && t != s.cur ==> Away(s, t))
  }

  /** Between steps: exactly the current thread is on the CPU. */
  ghost predicate OnCpu(s: State) {
    && OthersAway(s)
    && s.tickCount < TIME_SLICE
    && (T(s, s.cur).status == Running || T(s, s.cur) == Tcb(Dying, Marked, Live))
    && (Suspended(T(s, s.cur)) ==> !s.ints)
    && !T(s, s.cur).pc.Gone?
  }

  ghost predicate Inv(s: State) { s.halt.Alive? && Core(s) && OnCpu(s) }

  /** Inside a kernel call, just before schedule(). */
  ghost predicate OffCpu(s: State) {
    && OthersAway(s)
    && !s.ints
    && (T(s, s.cur) == Tcb(Dying, Marked, Live)
        || (T(s, s.cur).status in {Status.Ready, Blocked} && Suspended(T(s, s.cur)) && !T(s, s.cur).pc.Gone?))
  }

  // ----- frames

  /** All that the bookkeeping of semaphore k reads of a thread. */
  datatype Tie = NoTie | Looping(blocked: bool) | Owning

  function TieOf(x: Tcb, k: SemId): Tie {
    match x.pc
    case DownLoop(id, _) => if id == k then Looping(x.status == Blocked) else NoTie
    case HolderWrite(l) => if l == k then Owning else NoTie
    case RelCleared(l) => if l == k then Owning else NoTie
    case _ => NoTie
  }

  lemma SemFrame(s: State, r: State, k: SemId)
    requires SemOk(s, k) && S(r, k) == S(s, k)
    requires r.tcb.Keys >= s.tcb.Keys
    requires forall t {:trigger T(r, t)} :: t in r.tcb ==> TieOf(T(r, t), k) == TieOf(T(s, t), k)
    ensures SemOk(r, k)
  {
    assert Woken(r, k) == Woken(s, k);
    forall t ensures t in r.tcb && Owns(r, k, t) <==> t in s.tcb && Owns(s, k, t) {}
    assert Owners(r, k) == Owners(s, k);
    forall t | t in S(r, k).waiters ensures Waiter(r, k, t) {
      assert Waiter(s, k, t) && TieOf(T(r, t), k) == TieOf(T(s, t), k);
    }
  }

  // ----- schedule()

  /** What schedule() does from OffCpu: the next thread n is put on the CPU. */
  ghost predicate Dispatched(s: State, r: State, n: Tid) {
    && n in s.tcb
    && r.cur == n
    && r.ready == (if s.ready == [] then [] else s.ready[1..])
    && (if s.ready == [] then s.idle == Some(n) else n == s.ready[0])
    && r.tcb.Keys == s.tcb.Keys
    && (forall t {:trigger T(r, t)} :: t in s.tcb ==> T(r, t) == After(s, n, t))
    && r.all == (if T(s, s.cur).status == Dying then RemoveFirst(s.all, s.cur) else s.all)
    && (T(s, s.cur).status == Dying ==> s.cur != n)
    && r.numThreads == s.numThreads && r.idle == s.idle && r.sems == s.sems
    && r.halt.Alive? && r.tickCount == 0 && !r.ints && r.dispatches == s.dispatches + 1
  }

  function After(s: State, n: Tid, t: Tid): Tcb {
    if t == n then T(s, t).(status := Running)
    else if t == s.cur && T(s, t).status == Dying then T(s, t).(pc := Gone)
    else T(s, t)
  }

  /** The ready queue cannot be empty before idle_thread is set. */
  lemma NextIsReady(s: State)
    requires Core(s) && OffCpu(s)
    ensures NextThread(s).Some? && NextThread(s).value in s.tcb
    ensures T(s, s.cur).status == Dying ==> NextThread(s) != Some(s.cur)
    ensures s.ready == [] ==> s.idle == Some(IDLER)
  {
    assert Placed(s, s.cur) && Placed(s, IDLER);
    assert IDLER != s.cur ==> Away(s, IDLER);
    if s.ready != [] {
      assert s.ready[0] in s.ready;
    }
  }

  lemma ScheduleDispatches(s: State)
    requires s.halt.Alive? && Core(s) && OffCpu(s)
    ensures NextThread(s).Some? && Dispatched(s, Schedule(s), NextThread(s).value)
  {
    NextIsReady(s);
    assert Placed(s, s.cur);
    var r, n := Schedule(s), NextThread(s).value;
    if s.ready != [] {
      assert s.ready == [n] + s.ready[1..];
    }
  }

  lemma DispatchQueue(s: State, r: State, n: Tid, t: Tid)
    requires Core(s) && OffCpu(s) && Dispatched(s, r, n) && t in s.tcb
    ensures t in r.ready <==> T(r, t).status == Status.Ready && r.idle != Some(t)
  {
    assert Placed(s, t) && Placed(s, n) && Placed(s, s.cur);
    if s.ready != [] {
      assert s.ready == [n] + s.ready[1..];
    }
  }

  lemma DispatchPlaced(s: State, r: State, n: Tid, t: Tid)
    requires Core(s) && OffCpu(s) && Dispatched(s, r, n) && t in s.tcb
    ensures Placed(r, t)
  {
    assert Placed(s, t) && Placed(s, n) && Placed(s, s.cur);
    DispatchQueue(s, r, n, t);
    DispatchAll(s, r, n, t);
    if T(s, t).pc.Fresh? {
      assert T(r, T(s, t).pc.parent).pc == T(s, T(s, t).pc.parent).pc || T(r, T(s, t).pc.parent).pc.Gone?;
    }
  }

  lemma DispatchAll(s: State, r: State, n: Tid, t: Tid)
    requires Core(s) && OffCpu(s) && Dispatched(s, r, n) && t in s.tcb
    ensures t in r.all <==> !T(r, t).pc.Gone? && !(Unborn(r, t) && T(r, T(r, t).pc.parent).pc.Created?)
  {
    assert Placed(s, t) && Placed(s, n) && Placed(s, s.cur);
    RemoveFirstNoDup(s.all, s.cur);
    if T(s, t).pc.Fresh? {
      assert T(r, T(s, t).pc.parent).pc == T(s, T(s, t).pc.parent).pc || T(r, T(s, t).pc.parent).pc.Gone?;
    }
  }

  lemma DispatchLocal(s: State, r: State, n: Tid, t: Tid)
    requires Core(s) && OffCpu(s) && Dispatched(s, r, n) && t in s.tcb
    ensures Local(r, t)
  {
    assert Local(s, t) && Placed(s, n) && Placed(s, s.cur);
    if CreatorPc(T(s, t).pc) {
      assert Placed(s, T(s, t).pc.child);
    }
  }

  lemma DispatchSem(s: State, r: State, n: Tid, id: SemId)
    requires Core(s) && OffCpu(s) && Dispatched(s, r, n) && id in s.sems
    ensures SemOk(r, id)
  {
    assert SemOk(s, id) && Placed(s, n) && Placed(s, s.cur);
    SemFrame(s, r, id);
  }

  lemma DispatchOnCpu(s: State, r: State, n: Tid)
    requires Core(s) && OffCpu(s) && Dispatched(s, r, n)
    ensures OnCpu(r) && IdleThread(r)
  {
    assert Placed(s, n) && Placed(s, s.cur) && Local(s, n) && Local(s, s.cur);
    forall t | t in r.tcb && t != n ensures Away(r, t) {
      assert t != s.cur ==> Away(s, t);
    }
    assert n != s.cur ==> Away(s, n);
    assert T(s, IDLER).pc.Fresh? ==> T(r, T(s, IDLER).pc.parent).pc in {T(s, T(s, IDLER).pc.parent).pc, Gone};
  }

  lemma DispatchInv(s: State, r: State, n: Tid)
    requires Core(s) && OffCpu(s) && Dispatched(s, r, n)
    ensures Inv(r)
  {
    forall t | t in r.tcb ensures Placed(r, t) && Local(r, t) {
      DispatchPlaced(s, r, n, t);
      DispatchLocal(s, r, n, t);
    }
    forall id | id in r.sems ensures SemOk(r, id) { DispatchSem(s, r, n, id); }
    RemoveFirstNoDup(s.all, s.cur);
    DispatchOnCpu(s, r, n);
    forall t | t in r.ready ensures t in r.tcb { assert t in s.ready; }
  }

  lemma ScheduleInv(s: State)
    requires s.halt.Alive? && Core(s) && OffCpu(s)
    ensures Inv(Schedule(s))
  {
    ScheduleDispatches(s);
    DispatchInv(s, Schedule(s), NextThread(s).value);
  }

  // ----- steps that touch little

  /** Steps that leave the semaphores, and the threads tied to them, alone. */
  lemma SemsFrame(s: State, r: State)
    requires Core(s) && r.sems == s.sems && r.tcb.Keys >= s.tcb.Keys
    requires forall t, k {:trigger TieOf(T(r, t), k)} :: t in r.tcb ==> TieOf(T(r, t), k) == TieOf(T(s, t), k)
    ensures forall id {:trigger SemOk(r, id)} :: id in r.sems ==> SemOk(r, id)
  {
    forall id | id in r.sems ensures SemOk(r, id) {
      assert SemOk(s, id);
      SemFrame(s, r, id);
    }
  }

  lemma AwayFrame(s: State, r: State)
    requires OthersAway(s) && r.cur == s.cur && r.cur in r.tcb
    requires forall t {:trigger T(r, t)} :: t in r.tcb && t != s.cur ==>
               (t in s.tcb && T(r, t) == T(s, t)) || (T(r, t).status in {Status.Ready, Blocked} && Suspended(T(r, t)))
    ensures OthersAway(r)
  {
    forall t | t in r.tcb && t != r.cur ensures Away(r, t) {
      assert T(r, t) == T(s, t) || Suspended(T(r, t));
      assert t in s.tcb ==> Away(s, t);
    }
  }

  /** Only the current thread's own entry, the interrupt flag and the counters differ. */
  ghost predicate CurOnly(s: State, r: State) {
    && r.tcb.Keys == s.tcb.Keys && r.cur == s.cur
    && (forall t {:trigger T(r, t)} :: t in s.tcb && t != s.cur ==> T(r, t) == T(s, t))
    && r.ready == s.ready && r.all == s.all && r.idle == s.idle && r.sems == s.sems
    && r.numThreads == s.numThreads && r.halt == s.halt && r.tickCount < TIME_SLICE
  }

  lemma NotUnborn(s: State, t: Tid)
    requires Core(s) && T(s, t).status != Blocked
    ensures !Unborn(s, t)
  {
    assert T(s, t).pc.Fresh? && T(s, t).pc.parent in s.tcb ==> Local(s, T(s, t).pc.parent);
  }

  lemma CurOnlyCore(s: State, r: State)
    requires Inv(s) && CurOnly(s, r)
    requires forall k :: TieOf(T(r, r.cur), k) == TieOf(T(s, s.cur), k)
    requires T(r, r.cur).pc == T(s, s.cur).pc || (!CreatorPc(T(s, s.cur).pc) && !CreatorPc(T(r, r.cur).pc))
    requires !AtSwitch(T(r, r.cur).pc)
    requires Local(r, r.cur) && IdleThread(r)
    requires T(r, r.cur).status == Running || T(r, r.cur) == Tcb(Dying, Marked, Live)
    ensures T(r, r.cur).susp.Live? ==> Inv(r)
  {
    NotUnborn(s, s.cur);
    assert Placed(s, s.cur) && Local(s, s.cur);
    forall t | t in r.tcb ensures Placed(r, t) && Local(r, t) {
      assert Placed(s, t) && Local(s, t);
    }
    SemsFrame(s, r);
    AwayFrame(s, r);
  }

  /** Counters and the interrupt flag, at a point where a thread is not suspended. */
  lemma FlagsInv(s: State, r: State)
    requires Inv(s) && !Suspended(T(s, s.cur)) && r.tickCount < TIME_SLICE
    requires r == s.(tickCount := r.tickCount, ints := r.ints)
    ensures Inv(r)
  {
    forall t | t in r.tcb ensures Placed(r, t) && Local(r, t) {
      assert Placed(s, t) && Local(s, t);
    }
    SemsFrame(s, r);
    AwayFrame(s, r);
  }

  // ----- thread_yield and ticks

  lemma YieldOffCpu(s: State, r: State)
    requires Inv(s) && !Suspended(T(s, s.cur))
    requires r.tcb == s.tcb[s.cur := T(s, s.cur).(status := Status.Ready, susp := Yielded(s.ints))]
    requires r == s.(tcb := r.tcb, ready := r.ready, ints := false, tickCount := r.tickCount)
    requires r.ready == if s.idle == Some(s.cur) then s.ready else s.ready + [s.cur]
    ensures Core(r) && OffCpu(r)
  {
    assert Placed(s, s.cur) && Local(s, s.cur);
    forall t | t in r.tcb ensures Placed(r, t) && Local(r, t) { YieldedThread(s, r, t); }
    SemsFrame(s, r);
    AwayFrame(s, r);
  }

  lemma YieldedThread(s: State, r: State, t: Tid)
    requires Inv(s) && !Suspended(T(s, s.cur)) && t in s.tcb
    requires r.tcb == s.tcb[s.cur := T(s, s.cur).(status := Status.Ready, susp := Yielded(s.ints))]
    requires r == s.(tcb := r.tcb, ready := r.ready, ints := false, tickCount := r.tickCount)
    requires r.ready == if s.idle == Some(s.cur) then s.ready else s.ready + [s.cur]
    ensures Placed(r, t) && Local(r, t)
  {
    assert Placed(s, s.cur) && Local(s, s.cur) && Placed(s, t) && Local(s, t);
  }

  /** q is s with the tick already counted. */
  lemma YieldInv(s: State, q: State)
    requires Inv(s) && !Suspended(T(s, s.cur))
    requires q == s.(tickCount := q.tickCount)
    ensures Inv(ThreadYield(q))
  {
    var r := Yielding(q);
    YieldOffCpu(s, r);
    ScheduleInv(r);
  }

  lemma TickInv(s: State)
    requires Inv(s) && !Suspended(T(s, s.cur))
    ensures Inv(ThreadTick(s))
  {
    var q := Ticked(s);
    if q.tickCount < TIME_SLICE {
      FlagsInv(s, q);
    } else {
      YieldInv(s, q);
    }
  }

  // ----- sema_down

  /** What sema_down does when it takes a unit. */
  ghost predicate Took(s: State, id: SemId, r: State)
    requires S(s, id).value > 0
  {
    && r.tcb.Keys == s.tcb.Keys
    && (forall t {:trigger T(r, t)} :: t in s.tcb && t != s.cur ==> T(r, t) == T(s, t))
    && T(r, s.cur) == T(s, s.cur).(pc := if S(s, id).lock then HolderWrite(id) else Client)
    && r.sems == s.sems[id := S(s, id).(value := S(s, id).value - 1)]
    && r == s.(tcb := r.tcb, sems := r.sems, ints := r.ints)
  }

  /** The current thread is free to call, or has come back from a wait on id. */
  ghost predicate Testing(s: State, id: SemId) {
    && Inv(s) && id in s.sems
    && T(s, s.cur).status == Running && T(s, s.cur).susp.Live?
    && ((T(s, s.cur).pc.DownLoop? && T(s, s.cur).pc.sem == id)
        || (T(s, s.cur).pc.Client? && !S(s, id).lock) || T(s, s.cur).pc == AcqChecked(id))
  }

  lemma TakeQueue(s: State, id: SemId, r: State)
    requires Testing(s, id) && S(s, id).value > 0 && Took(s, id, r)
    ensures SemQueue(r, id)
  {
    assert SemOk(s, id);
    assert Woken(r, id) == Woken(s, id) - {s.cur};
    assert Woken(s, id) <= Woken(r, id) + {s.cur};
    forall t | t in S(r, id).waiters ensures Waiter(r, id, t) { assert Waiter(s, id, t); }
  }

  lemma TakeLock(s: State, id: SemId, r: State)
    requires Testing(s, id) && S(s, id).value > 0 && Took(s, id, r)
    ensures SemLock(r, id)
  {
    assert SemOk(s, id);
    if S(s, id).lock {
      assert Owners(s, id) == {};
      assert s.cur !in Owners(s, id);
      forall t ensures t in r.tcb && Owns(r, id, t) <==> t == s.cur {
        assert t in s.tcb && Owns(s, id, t) ==> t in Owners(s, id);
      }
      assert Owners(r, id) == {s.cur};
    }
  }

  lemma TakeThread(s: State, id: SemId, r: State, t: Tid)
    requires Testing(s, id) && S(s, id).value > 0 && Took(s, id, r) && t in s.tcb
    ensures Placed(r, t) && Local(r, t)
  {
    NotUnborn(s, s.cur);
    assert Placed(s, s.cur) && Local(s, s.cur) && Placed(s, t) && Local(s, t);
    assert LockPc(T(s, t).pc) ==> S(r, T(s, t).pc.lock).lock && S(r, T(s, t).pc.lock).holder == S(s, T(s, t).pc.lock).holder;
    assert T(s, t).pc.DownLoop? ==> S(r, T(s, t).pc.sem).waiters == S(s, T(s, t).pc.sem).waiters;
  }

  lemma TakeSem(s: State, id: SemId, r: State, k: SemId)
    requires Testing(s, id) && S(s, id).value > 0 && Took(s, id, r) && k in s.sems
    ensures SemOk(r, k)
  {
    assert SemOk(s, id) && SemOk(s, k);
    if k == id {
      TakeQueue(s, id, r);
      TakeLock(s, id, r);
    } else {
      SemFrame(s, r, k);
    }
  }

  lemma TakeInv(s: State, id: SemId, r: State)
    requires Testing(s, id) && S(s, id).value > 0 && Took(s, id, r)
    ensures Inv(r)
  {
    forall t | t in r.tcb ensures Placed(r, t) && Local(r, t) { TakeThread(s, id, r, t); }
    forall k | k in r.sems ensures SemOk(r, k) { TakeSem(s, id, r, k); }
    AwayFrame(s, r);
  }

  /** What sema_down does before it gives up the CPU. */
  ghost predicate Queued(s: State, id: SemId, r: State) {
    && r.tcb.Keys == s.tcb.Keys
    && (forall t {:trigger T(r, t)} :: t in s.tcb && t != s.cur ==> T(r, t) == T(s, t))
    && T(r, s.cur).status == Blocked && T(r, s.cur).susp.Live?
    && T(r, s.cur).pc.DownLoop? && T(r, s.cur).pc.sem == id
    && r.sems == s.sems[id := S(s, id).(waiters := S(s, id).waiters + [s.cur])]
    && r == s.(tcb := r.tcb, sems := r.sems, ints := false)
  }

  lemma QueueSem(s: State, id: SemId, r: State)
    requires Testing(s, id) && S(s, id).value == 0 && Queued(s, id, r)
    ensures SemOk(r, id)
  {
    assert SemOk(s, id);
    assert Waiter(s, id, s.cur) ==> T(s, s.cur).status == Blocked;
    forall t | t in S(r, id).waiters ensures Waiter(r, id, t) {
      assert t in S(s, id).waiters ==> Waiter(s, id, t);
    }
    forall t ensures t in r.tcb && Owns(r, id, t) <==> t in s.tcb && Owns(s, id, t) {}
    assert Owners(r, id) == Owners(s, id);
  }

  lemma QueueThread(s: State, id: SemId, r: State, t: Tid)
    requires Testing(s, id) && S(s, id).value == 0 && Queued(s, id, r) && t in s.tcb
    ensures Placed(r, t) && Local(r, t)
  {
    NotUnborn(s, s.cur);
    assert Placed(s, s.cur) && Local(s, s.cur) && Placed(s, t) && Local(s, t);
    assert LockPc(T(s, t).pc) ==> S(r, T(s, t).pc.lock).lock && S(r, T(s, t).pc.lock).holder == S(s, T(s, t).pc.lock).holder;
  }

  lemma QueueOffCpu(s: State, id: SemId, r: State)
    requires Testing(s, id) && S(s, id).value == 0 && Queued(s, id, r)
    ensures Core(r) && OffCpu(r)
  {
    forall t | t in r.tcb ensures Placed(r, t) && Local(r, t) { QueueThread(s, id, r, t); }
    QueueSems(s, id, r);
    QueueOff(s, id, r);
  }

  lemma QueueOff(s: State, id: SemId, r: State)
    requires Testing(s, id) && S(s, id).value == 0 && Queued(s, id, r)
    ensures OffCpu(r) && IdleThread(r)
  {
    NotUnborn(s, s.cur);
    assert Placed(s, s.cur) && Local(s, s.cur);
    AwayFrame(s, r);
  }

  lemma QueueSems(s: State, id: SemId, r: State)
    requires Testing(s, id) && S(s, id).value == 0 && Queued(s, id, r)
    ensures forall k {:trigger SemOk(r, k)} :: k in r.sems ==> SemOk(r, k)
  {
    forall k | k in r.sems ensures SemOk(r, k) {
      assert SemOk(s, k);
      if k == id { QueueSem(s, id, r); } else { SemFrame(s, r, k); }
    }
  }

  lemma DownTestInv(s: State, id: SemId, level: bool, q: State)
    requires Testing(s, id) && q == s.(ints := false)
    requires T(s, s.cur).pc.DownLoop? ==> !s.ints
    ensures Inv(DownTest(q, id, level))
  {
    var r := DownTest(q, id, level);
    if S(s, id).value == 0 {
      var b := SetStatus(SetPc(q.(sems := q.sems[id := S(q, id).(waiters := S(q, id).waiters + [q.cur])]),
                               DownLoop(id, level)), q.cur, Blocked);
      QueueOffCpu(s, id, b);
      ScheduleInv(b);
    } else {
      TakeInv(s, id, r);
    }
  }

  // ----- sema_up

  function Waking(s: State, waiters: seq<Tid>, pc: Pc, t: Tid): Tcb {
    if t == s.cur then T(s, t).(pc := pc)
    else if waiters != [] && t == waiters[0] then T(s, t).(status := Status.Ready)
    else T(s, t)
  }

  /** sema_up by the current thread, which goes on at pc; w is the waiter it wakes, if any. */
  ghost predicate Raised(s: State, id: SemId, pc: Pc, r: State) {
    var m := S(s, id);
    && r.tcb.Keys == s.tcb.Keys && r.cur == s.cur
    && (forall t {:trigger T(r, t)} :: t in s.tcb ==> T(r, t) == Waking(s, m.waiters, pc, t))
    && r.ready == (if m.waiters == [] then s.ready else s.ready + [m.waiters[0]])
    && r.sems == s.sems[id := m.(value := (m.value + 1) % WORD, waiters := if m.waiters == [] then [] else m.waiters[1..])]
    && r == s.(tcb := r.tcb, sems := r.sems, ready := r.ready)
  }

  /** The current thread is about to do sema_up(id). */
  ghost predicate Raising(s: State, id: SemId, pc: Pc) {
    && Inv(s) && id in s.sems && T(s, s.cur).status == Running && T(s, s.cur).susp.Live?
    && ((T(s, s.cur).pc.Client? && pc.Client? && !S(s, id).lock)
        || (T(s, s.cur).pc == RelCleared(id) && pc.Client?)
        || (T(s, s.cur).pc.IdleUp? && pc.IdleLoop? && id == INIT_STARTED))
  }

  lemma SemaUpRaises(s: State, id: SemId, pc: Pc)
    requires Raising(s, id, pc)
    ensures Raised(s, id, pc, SemaUp(s, id, pc))
  {
    assert SemOk(s, id);
    if S(s, id).waiters != [] {
      assert Waiter(s, id, S(s, id).waiters[0]);
      WakeRaises(s, id, pc);
    }
  }

  /** With a waiter that is blocked and not the caller. */
  lemma WakeRaises(s: State, id: SemId, pc: Pc)
    requires s.halt.Alive? && s.cur in s.tcb && id in s.sems && S(s, id).waiters != []
    requires var w := S(s, id).waiters[0]; w in s.tcb && w != s.cur && T(s, w).status == Blocked
    ensures Raised(s, id, pc, SemaUp(s, id, pc))
  {
    var m := S(s, id);
    var woken := ThreadUnblock(s.(sems := s.sems[id := m.(waiters := m.waiters[1..])]), m.waiters[0]);
    assert S(woken, id) == m.(waiters := m.waiters[1..]);
  }

  lemma RaiseQueue(s: State, id: SemId, pc: Pc, r: State)
    requires Raising(s, id, pc) && Raised(s, id, pc, r)
    ensures SemQueue(r, id)
  {
    assert SemOk(s, id);
    var w := S(s, id).waiters;
    forall t | t in S(r, id).waiters ensures Waiter(r, id, t) {
      assert t in w && Waiter(s, id, t);
      assert w == [w[0]] + w[1..];
    }
    if w != [] { RaiseWoken(s, id, pc, r); }
  }

  /** The waiter that was popped is one more that has not re-tested the value. */
  lemma RaiseWoken(s: State, id: SemId, pc: Pc, r: State)
    requires Raising(s, id, pc) && Raised(s, id, pc, r) && S(s, id).waiters != []
    ensures |Woken(r, id)| == |Woken(s, id)| + 1
  {
    var t := S(s, id).waiters[0];
    assert SemOk(s, id) && Waiter(s, id, t);
    assert Woken(r, id) == Woken(s, id) + {t};
  }

  lemma RaiseLock(s: State, id: SemId, pc: Pc, r: State)
    requires Raising(s, id, pc) && Raised(s, id, pc, r)
    ensures SemLock(r, id)
  {
    assert SemOk(s, id);
    if S(s, id).lock {
      assert s.cur in Owners(s, id);
      OnlyMember(Owners(s, id), s.cur);
      assert Local(s, s.cur);
      forall t ensures !(t in r.tcb && Owns(r, id, t)) {
        assert t in s.tcb && Owns(s, id, t) ==> t in Owners(s, id);
      }
      assert Owners(r, id) == {};
    }
  }

  lemma RaisePlaced(s: State, id: SemId, pc: Pc, r: State, t: Tid)
    requires Raising(s, id, pc) && Raised(s, id, pc, r) && t in s.tcb
    ensures Placed(r, t)
  {
    assert SemOk(s, id);
    assert Placed(s, s.cur) && Local(s, s.cur) && Placed(s, t) && Local(s, t);
    var w := S(s, id).waiters;
    if w != [] {
      assert Waiter(s, id, w[0]) && Placed(s, w[0]);
      assert w == [w[0]] + w[1..];
    }
  }

  lemma RaiseThread(s: State, id: SemId, pc: Pc, r: State, t: Tid)
    requires Raising(s, id, pc) && Raised(s, id, pc, r) && t in s.tcb
    ensures Placed(r, t) && Local(r, t)
  {
    RaisePlaced(s, id, pc, r, t);
    assert SemOk(s, id) && Local(s, s.cur) && Local(s, t);
    assert LockPc(T(s, t).pc) ==> S(r, T(s, t).pc.lock).lock && S(r, T(s, t).pc.lock).holder == S(s, T(s, t).pc.lock).holder;
    assert S(s, id).waiters != [] ==> Waiter(s, id, S(s, id).waiters[0]);
  }

  lemma RaiseSem(s: State, id: SemId, pc: Pc, r: State, k: SemId)
    requires Raising(s, id, pc) && Raised(s, id, pc, r) && k in s.sems
    ensures SemOk(r, k)
  {
    assert SemOk(s, id) && SemOk(s, k);
    if k == id {
      RaiseQueue(s, id, pc, r);
      RaiseLock(s, id, pc, r);
    } else {
      assert S(s, id).waiters != [] ==> Waiter(s, id, S(s, id).waiters[0]);
      SemFrame(s, r, k);
    }
  }

  lemma RaiseQueues(s: State, id: SemId, pc: Pc, r: State)
    requires Raising(s, id, pc) && Raised(s, id, pc, r)
    ensures NoDup(r.ready) && OnCpu(r) && IdleThread(r)
    ensures forall t {:trigger t in r.ready} :: t in r.ready ==> t in r.tcb
  {
    assert SemOk(s, id);
    if S(s, id).waiters != [] {
      assert Waiter(s, id, S(s, id).waiters[0]) && Placed(s, S(s, id).waiters[0]);
    }
    assert Local(s, s.cur);
    AwayFrame(s, r);
  }

  lemma RaiseInv(s: State, id: SemId, pc: Pc, r: State)
    requires Raising(s, id, pc) && Raised(s, id, pc, r)
    ensures Inv(r)
  {
    forall t | t in r.tcb ensures Placed(r, t) && Local(r, t) { RaiseThread(s, id, pc, r, t); }
    forall k | k in r.sems ensures SemOk(r, k) { RaiseSem(s, id, pc, r, k); }
    RaiseQueues(s, id, pc, r);
  }

  lemma SemaUpInv(s: State, id: SemId, pc: Pc)
    requires Raising(s, id, pc)
    ensures Inv(SemaUp(s, id, pc))
  {
    SemaUpRaises(s, id, pc);
    RaiseInv(s, id, pc, SemaUp(s, id, pc));
  }

  // ----- the holder field

  ghost predicate HolderSet(s: State, l: SemId, holder: Option<Tid>, pc: Pc, r: State) {
    && r.tcb.Keys == s.tcb.Keys && r.cur == s.cur
    && (forall t {:trigger T(r, t)} :: t in s.tcb && t != s.cur ==> T(r, t) == T(s, t))
    && T(r, s.cur) == T(s, s.cur).(pc := pc)
    && r.sems == s.sems[l := S(s, l).(holder := holder)]
    && r == s.(tcb := r.tcb, sems := r.sems)
  }

  /** The two places where a lock's holder is written. */
  ghost predicate Writing(s: State, l: SemId, holder: Option<Tid>, pc: Pc) {
    && Inv(s) && T(s, s.cur).status == Running && T(s, s.cur).susp.Live?
    && ((T(s, s.cur).pc == HolderWrite(l) && pc.Client? && holder == Some(s.cur))
        || (T(s, s.cur).pc == RelChecked(l) && pc == RelCleared(l) && holder == None))
  }

  lemma SoleOwner(s: State, l: SemId, t: Tid)
    requires Core(s) && l in s.sems && S(s, l).lock && t in s.tcb && Owns(s, l, t)
    ensures Owners(s, l) == {t} && S(s, l).value == 0
    ensures forall u {:trigger Owns(s, l, u)} :: u in s.tcb && Owns(s, l, u) ==> u == t
  {
    assert SemOk(s, l);
    assert t in Owners(s, l);
    assert |Owners(s, l)| > 0;
    OnlyMember(Owners(s, l), t);
    forall u | u in s.tcb && Owns(s, l, u) ensures u == t { assert u in Owners(s, l); }
  }

  lemma WriteSem(s: State, l: SemId, holder: Option<Tid>, pc: Pc, r: State, k: SemId)
    requires Writing(s, l, holder, pc) && HolderSet(s, l, holder, pc, r) && k in s.sems
    ensures SemOk(r, k)
  {
    assert SemOk(s, k) && Local(s, s.cur);
    if k == l {
      assert Woken(r, l) == Woken(s, l);
      SoleOwner(s, l, s.cur);
      forall t ensures t in r.tcb && Owns(r, l, t) <==> t == s.cur {
        assert t in s.tcb && t != s.cur ==> !Owns(s, l, t);
      }
      assert Owners(r, l) == {s.cur};
      forall t | t in S(r, l).waiters ensures Waiter(r, l, t) { assert Waiter(s, l, t); }
    } else {
      SemFrame(s, r, k);
    }
  }

  lemma WriteThread(s: State, l: SemId, holder: Option<Tid>, pc: Pc, r: State, t: Tid)
    requires Writing(s, l, holder, pc) && HolderSet(s, l, holder, pc, r) && t in s.tcb
    ensures Placed(r, t) && Local(r, t)
  {
    assert Placed(s, s.cur) && Local(s, s.cur) && Placed(s, t) && Local(s, t);
    SoleOwner(s, l, s.cur);
    assert t != s.cur ==> !Owns(s, l, t);
  }

  lemma WriteInv(s: State, l: SemId, holder: Option<Tid>, pc: Pc, r: State)
    requires Writing(s, l, holder, pc) && HolderSet(s, l, holder, pc, r)
    ensures Inv(r)
  {
    forall t | t in r.tcb ensures Placed(r, t) && Local(r, t) { WriteThread(s, l, holder, pc, r, t); }
    assert Local(s, s.cur);
    forall k | k in r.sems ensures SemOk(r, k) { WriteSem(s, l, holder, pc, r, k); }
    AwayFrame(s, r);
  }

  // ----- new semaphores and locks

  lemma InitSemInv(s: State, id: SemId, m: Sema)
    requires Inv(s) && id !in s.sems && T(s, s.cur).pc.Client? && T(s, s.cur).susp.Live?
    requires m.waiters == [] && m.holder == None && m.value < WORD
    requires m.lock ==> m.value == 1
    ensures Inv(s.(sems := s.sems[id := m]))
  {
    var r := s.(sems := s.sems[id := m]);
    forall t | t in r.tcb ensures Placed(r, t) && Local(r, t) { assert Placed(s, t) && Local(s, t); }
    forall k | k in r.sems ensures SemOk(r, k) {
      if k == id {
        forall t | t in r.tcb ensures !Owns(r, id, t) { assert Local(s, t); }
        assert Owners(r, id) == {};
      } else {
        assert SemOk(s, k);
        SemFrame(s, r, k);
      }
    }
    AwayFrame(s, r);
  }

  // ----- thread_create

  lemma CreateThread(s: State, r: State, t: Tid, u: Tid)
    requires Inv(s) && T(s, s.cur) == Tcb(Running, Client, Live) && t == s.numThreads + 1
    requires r == s.(numThreads := t, tcb := r.tcb)
    requires r.tcb == s.tcb[t := Tcb(Blocked, Fresh(s.cur), Live)][s.cur := Tcb(Running, Created(t), Live)]
    requires u in r.tcb
    ensures Placed(r, u) && Local(r, u)
  {
    assert t !in s.tcb && t !in s.ready && t !in s.all;
    assert Local(s, s.cur) && Placed(s, s.cur);
    assert u != t ==> Placed(s, u) && Local(s, u);
    assert LockPc(T(r, u).pc) || T(r, u).pc.DownLoop? ==> T(r, u) == T(s, u);
  }

  lemma CreateOnCpu(s: State, r: State, t: Tid)
    requires Inv(s) && T(s, s.cur) == Tcb(Running, Client, Live) && t == s.numThreads + 1
    requires r == s.(numThreads := t, tcb := r.tcb)
    requires r.tcb == s.tcb[t := Tcb(Blocked, Fresh(s.cur), Live)][s.cur := Tcb(Running, Created(t), Live)]
    ensures OnCpu(r) && IdleThread(r)
    ensures forall id {:trigger SemOk(r, id)} :: id in r.sems ==> SemOk(r, id)
  {
    assert t !in s.tcb;
    assert Local(s, s.cur);
    SemsFrame(s, r);
    AwayFrame(s, r);
  }

  lemma CreateInv(s: State)
    requires Inv(s) && T(s, s.cur) == Tcb(Running, Client, Live)
    ensures Inv(ClientCall(s, Create))
  {
    var r, t := ClientCall(s, Create), s.numThreads + 1;
    forall u | u in r.tcb ensures Placed(r, u) && Local(r, u) { CreateThread(s, r, t, u); }
    CreateOnCpu(s, r, t);
  }

  lemma LinkThread(s: State, t: Tid, u: Tid)
    requires Inv(s) && T(s, s.cur) == Tcb(Running, Created(t), Live) && u in s.tcb
    ensures var r := SetPc(s.(all := s.all + [t]), Linked(t)); Placed(r, u) && Local(r, u)
  {
    assert Local(s, s.cur) && Placed(s, s.cur) && Placed(s, t) && Placed(s, u) && Local(s, u);
  }

  lemma LinkInv(s: State, t: Tid)
    requires Inv(s) && T(s, s.cur) == Tcb(Running, Created(t), Live)
    ensures Inv(SetPc(s.(all := s.all + [t]), Linked(t)))
  {
    var r := SetPc(s.(all := s.all + [t]), Linked(t));
    assert Local(s, s.cur) && Placed(s, s.cur) && Placed(s, t);
    forall u | u in r.tcb ensures Placed(r, u) && Local(r, u) { LinkThread(s, t, u); }
    LinkOnCpu(s, r, t);
  }

  lemma LinkOnCpu(s: State, r: State, t: Tid)
    requires Inv(s) && T(s, s.cur) == Tcb(Running, Created(t), Live)
    requires r == SetPc(s.(all := s.all + [t]), Linked(t))
    ensures OnCpu(r) && IdleThread(r)
    ensures forall id {:trigger SemOk(r, id)} :: id in r.sems ==> SemOk(r, id)
  {
    assert Local(s, s.cur);
    SemsFrame(s, r);
    AwayFrame(s, r);
  }

  lemma UnblockThread(s: State, r: State, t: Tid, u: Tid)
    requires Inv(s) && T(s, s.cur) == Tcb(Running, Linked(t), Live) && u in s.tcb && u in r.tcb
    requires r == s.(ready := s.ready + [t], tcb := r.tcb)
    requires r.tcb == s.tcb[t := T(s, t).(status := Status.Ready)][s.cur := Tcb(Running, Client, Live)]
    ensures Placed(r, u) && Local(r, u)
  {
    assert Local(s, s.cur) && Placed(s, s.cur) && Placed(s, t) && Placed(s, u) && Local(s, u);
    assert T(s, t) == Tcb(Blocked, Fresh(s.cur), Live);
  }

  lemma UnblockInv(s: State, t: Tid)
    requires Inv(s) && T(s, s.cur) == Tcb(Running, Linked(t), Live)
    ensures ThreadUnblock(s, t).halt.Alive? && Inv(SetPc(ThreadUnblock(s, t), Client))
  {
    assert Local(s, s.cur) && Placed(s, t);
    var r := SetPc(ThreadUnblock(s, t), Client);
    assert t !in s.ready;
    forall u | u in r.tcb ensures Placed(r, u) && Local(r, u) { UnblockThread(s, r, t, u); }
    SemsFrame(s, r);
    AwayFrame(s, r);
  }

  // ----- leaving the CPU without a queue: exit and the idle loop

  /** run(): the thread marked itself dying and was not preempted since. */
  lemma ExitInv(s: State)
    requires Inv(s) && T(s, s.cur) == Tcb(Dying, Marked, Live)
    ensures Inv(Schedule(s.(ints := false)))
  {
    FlagsInv(s, s.(ints := false));
    ScheduleInv(s.(ints := false));
  }

  /** The idle thread blocked, before schedule(). */
  lemma IdleOffCpu(s: State, r: State)
    requires Inv(s) && T(s, s.cur) == Tcb(Running, IdleLoop, Live)
    requires r == s.(ints := false, tcb := r.tcb) && r.tcb == s.tcb[s.cur := Tcb(Blocked, IdleHalt, Live)]
    ensures Core(r) && OffCpu(r)
  {
    assert Local(s, s.cur) && Placed(s, s.cur);
    forall u | u in r.tcb ensures Placed(r, u) && Local(r, u) { assert Placed(s, u) && Local(s, u); }
    SemsFrame(s, r);
    AwayFrame(s, r);
  }

  lemma IdleBlockInv(s: State)
    requires Inv(s) && T(s, s.cur) == Tcb(Running, IdleLoop, Live)
    ensures Inv(ThreadBlock(SetPc(s.(ints := false), IdleHalt)))
  {
    var r := SetStatus(SetPc(s.(ints := false), IdleHalt), s.cur, Blocked);
    IdleOffCpu(s, r);
    ScheduleInv(r);
  }

  lemma IdleSetInv(s: State)
    requires Inv(s) && T(s, s.cur) == Tcb(Running, IdleStart, Live)
    ensures Inv(SetPc(s.(idle := Some(s.cur)), IdleUp))
  {
    var r := SetPc(s.(idle := Some(s.cur)), IdleUp);
    assert Local(s, s.cur) && Placed(s, s.cur);
    forall u | u in r.tcb ensures Placed(r, u) && Local(r, u) { assert Placed(s, u) && Local(s, u); }
    SemsFrame(s, r);
    AwayFrame(s, r);
  }

  // ----- every step

  /** The outcome of a step: the invariant, or a halt by a client's misuse or by run()'s exit window. */
  ghost predicate Safe(s: State) {
    match s.halt
    case Alive => Inv(s)
    case LockHeld => true
    case NotHolder => true
    case StillRunning => true
    case _ => false
  }

  /** The calls on a semaphore or a lock that exists. */
  lemma SyncCallSafe(s: State, op: Op)
    requires Inv(s) && T(s, s.cur).pc.Client? && T(s, s.cur).susp.Live?
    requires op.Down? || op.Up? || op.Acquire? || op.Release?
    ensures Safe(ClientCall(s, op)) && !ClientCall(s, op).halt.StillRunning?
    ensures !ClientCall(s, op).halt.Alive? ==> ClientCall(s, op).tcb == s.tcb
  {
    var r := ClientCall(s, op);
    match op
    case Down(id) =>
      if id in s.sems && !S(s, id).lock { DownTestInv(s, id, s.ints, s.(ints := false)); }
    case Up(id) =>
      if id in s.sems && !S(s, id).lock { SemaUpInv(s, id, Client); }
    case Acquire(l) =>
      if l in s.sems && S(s, l).lock && S(s, l).holder != Some(s.cur) { CurOnlyCore(s, r); }
    case Release(l) =>
      if l in s.sems && S(s, l).lock && S(s, l).holder == Some(s.cur) { CurOnlyCore(s, r); }
  }

  lemma CallSafe(s: State, op: Op)
    requires Inv(s) && T(s, s.cur).pc.Client? && T(s, s.cur).susp.Live?
    ensures Safe(ClientCall(s, op)) && !ClientCall(s, op).halt.StillRunning?
    ensures !ClientCall(s, op).halt.Alive? ==> ClientCall(s, op).tcb == s.tcb
  {
    var r := ClientCall(s, op);
    assert Local(s, s.cur);
    match op
    case SetInts(on) => FlagsInv(s, r);
    case Yield => YieldInv(s, s);
    case Interrupt32 => TickInv(s);
    case Create => CreateInv(s);
    case InitSema(id, v) =>
      if id !in s.sems && v < WORD { InitSemInv(s, id, Sema(v, [], false, None)); }
    case InitLock(l) =>
      if l !in s.sems { InitSemInv(s, l, Sema(1, [], true, None)); }
    case Return => if s.cur != KERNEL { CurOnlyCore(s, r); }
    case _ => SyncCallSafe(s, op);
  }

  /** Coming back to the CPU: from thread_yield, into run(), and in the idle loop. */
  lemma ResumeInv(s: State)
    requires Inv(s)
    requires T(s, s.cur).susp.Yielded? || T(s, s.cur).pc.Fresh? || T(s, s.cur).pc.IdleHalt?
    ensures Inv(RunThread(s))
  {
    assert Local(s, s.cur) && Placed(s, s.cur);
    CurOnlyCore(s, RunThread(s));
  }

  lemma SyncSafe(s: State)
    requires Inv(s) && T(s, s.cur).susp.Live?
    requires LockPc(T(s, s.cur).pc) || T(s, s.cur).pc.DownLoop?
    ensures Inv(RunThread(s))
  {
    var r := RunThread(s);
    assert Local(s, s.cur);
    match T(s, s.cur).pc
    case DownLoop(id, level) => DownTestInv(s, id, level, s);
    case AcqChecked(l) => DownTestInv(s, l, s.ints, s.(ints := false));
    case HolderWrite(l) => WriteInv(s, l, Some(s.cur), Client, r);
    case RelChecked(l) => WriteInv(s, l, None, RelCleared(l), r);
    case RelCleared(l) => SemaUpInv(s, l, Client);
  }

  /** The current thread's own next step, once it is not suspended. */
  lemma RunSafe(s: State)
    requires Inv(s) && T(s, s.cur).susp.Live? && !T(s, s.cur).pc.Fresh? && !T(s, s.cur).pc.IdleHalt?
    ensures Safe(RunThread(s))
    ensures !RunThread(s).halt.Alive? <==> T(s, s.cur) == Tcb(Running, Marked, Live)
    ensures !RunThread(s).halt.Alive? ==> RunThread(s).tcb == s.tcb
  {
    assert Local(s, s.cur);
    if LockPc(T(s, s.cur).pc) || T(s, s.cur).pc.DownLoop? {
      SyncSafe(s);
      return;
    }
    match T(s, s.cur).pc
    case Created(t) => LinkInv(s, t);
    case Linked(t) => UnblockInv(s, t);
    case Marked => if T(s, s.cur).status == Dying { ExitInv(s); }
    case IdleStart => IdleSetInv(s);
    case IdleUp => SemaUpInv(s, INIT_STARTED, IdleLoop);
    case IdleLoop => IdleBlockInv(s);
    case _ =>
  }

  /** No step reaches a scheduler PANIC, except the one the exit window allows. */
  lemma NextSafe(s: State, step: Step)
    requires Safe(s)
    ensures Safe(Next(s, step))
    ensures s.halt.Alive? ==>
              (Next(s, step).halt.StillRunning? <==> step.Advance? && T(s, s.cur) == Tcb(Running, Marked, Live))
    ensures !Next(s, step).halt.Alive? ==> Next(s, step).tcb == s.tcb
  {
    if s.halt.Alive? {
      match step
      case Tick => if s.ints { TickInv(s); }
      case Call(op) => if T(s, s.cur).susp.Live? && T(s, s.cur).pc.Client? { CallSafe(s, op); }
      case Advance =>
        if T(s, s.cur).susp.Yielded? || T(s, s.cur).pc.Fresh? || T(s, s.cur).pc.IdleHalt? {
          ResumeInv(s);
        } else {
          RunSafe(s);
        }
    }
  }

  const BOOTED: State := State(
    KERNEL, map[KERNEL := Tcb(Running, Client, Live), IDLER := Tcb(Status.Ready, Fresh(KERNEL), Live)],
    [IDLER], [KERNEL, IDLER], None, 2, 0, false,
    map[INIT_STARTED := Sema(0, [], false, None)], Alive, 0)

  lemma InitState()
    ensures ThreadInit() == BOOTED
  {
    var s := BEFORE_IDLE;
    var steps := [Call(Create), Advance, Advance];
    assert steps[..2][..1] == [steps[0]] && steps[..2][1] == steps[1];
    assert steps[..1][..0] == [] && steps[..1][0] == steps[0];
    assert Exec(s, steps[..1]) == Next(s, steps[0]);
    assert Exec(s, steps[..2]) == Next(Next(s, steps[0]), steps[1]);
    assert ThreadInit() == Next(Next(Next(s, steps[0]), steps[1]), steps[2]);
    assert ThreadInit().tcb == BOOTED.tcb;
  }

  lemma BootThread(t: Tid)
    requires t in BOOTED.tcb
    ensures Placed(BOOTED, t) && Local(BOOTED, t) && (t != BOOTED.cur ==> Away(BOOTED, t))
  {
    assert t == KERNEL || t == IDLER;
    assert BOOTED.ready[0] == IDLER && BOOTED.all[0] == KERNEL && BOOTED.all[1] == IDLER;
  }

  lemma BootSem()
    ensures SemOk(BOOTED, INIT_STARTED)
  {
    assert S(BOOTED, INIT_STARTED) == Sema(0, [], false, None);
  }

  lemma BootCore()
    ensures Core(BOOTED)
  {
    forall t | t in BOOTED.tcb ensures Placed(BOOTED, t) && Local(BOOTED, t) { BootThread(t); }
    BootSem();
  }

  lemma InitInv()
    ensures Inv(ThreadInit())
  {
    InitState();
    BootCore();
    forall t | t in BOOTED.tcb && t != BOOTED.cur ensures Away(BOOTED, t) { BootThread(t); }
  }

  lemma {:induction false} ExecSafe(s: State, steps: seq<Step>)
    requires Safe(s)
    ensures Safe(Exec(s, steps))
    decreases |steps|
  {
    if steps != [] {
      ExecSafe(s, steps[..|steps| - 1]);
      NextSafe(Exec(s, steps[..|steps| - 1]), steps[|steps| - 1]);
    }
  }

  /** Every run from thread_init stays in the invariant until a client misuses a lock, or run()'s exit goes wrong. */
  lemma RunsAreSafe(steps: seq<Step>)
    ensures Safe(Exec(ThreadInit(), steps))
  {
    InitInv();
    ExecSafe(ThreadInit(), steps);
  }
}
