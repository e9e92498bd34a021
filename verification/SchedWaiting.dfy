/** How long a ready thread waits: exact in dispatches, bounded in timer ticks counted from the run's steps. */
module SchedWaiting {
  import opened Common
  import opened Sched
  import opened SchedInv
  import opened SchedSteps

  /** No dispatch between s and r: the queue may only have grown at its end. */
  ghost predicate Stays(s: State, r: State) {
    && r.dispatches == s.dispatches && r.cur == s.cur
    && s.ready <= r.ready
  }

  /** One dispatch between s and r: the head of the queue is current, the others moved up. */
  ghost predicate Serves(s: State, r: State) {
    && r.dispatches == s.dispatches + 1
    && (s.ready != [] ==> r.cur == s.ready[0] && s.ready[1..] <= r.ready)
  }

  /** b is where a kernel call that starts in s gives up the CPU. */
  lemma SwitchServes(s: State, b: State, r: State)
    requires s.ready <= b.ready && b.dispatches == s.dispatches && Switched(b, r)
    ensures Serves(s, r) && r.tickCount == 0
  {
    if s.ready != [] { assert b.ready[0] == s.ready[0]; }
  }

  lemma YieldServes(s: State, r: State)
    requires YieldsTo(s, r)
    ensures Serves(s, r) && r.tickCount == 0
  {
    var b :| GivesUp(s, b) && Switched(b, r);
    SwitchServes(s, b, r);
  }

  lemma DownServes(s: State, id: SemId, level: bool, r: State)
    requires DownsTo(s, id, level, r)
    ensures if S(s, id).value > 0 then Stays(s, r) && r.tickCount == s.tickCount else Serves(s, r) && r.tickCount == 0
  {
    if S(s, id).value == 0 {
      var b :| Queued(s, id, b) && T(b, s.cur).pc == DownLoop(id, level) && Switched(b, r);
      SwitchServes(s, b, r);
    }
  }

  /** The tick handler runs: a timer interrupt that is let in, or its instruction. */
  predicate TickRuns(s: State, step: Step) {
    && s.halt.Alive?
    && ((step.Tick? && s.ints) || (step == Call(Interrupt32) && T(s, s.cur).susp.Live? && T(s, s.cur).pc.Client?))
  }

  /** The tick counter counts the ticks since the last dispatch, and a tick that completes a slice is one. */
  ghost predicate Clocked(s: State, step: Step, r: State) {
    if r.dispatches == s.dispatches then r.tickCount == s.tickCount + if TickRuns(s, step) then 1 else 0
    else r.tickCount == 0 && (TickRuns(s, step) ==> s.tickCount + 1 >= TIME_SLICE)
  }

  lemma CallMoves(s: State, op: Op, r: State)
    requires Inv(s) && T(s, s.cur).susp.Live? && T(s, s.cur).pc.Client? && CallDoes(s, op, r) && r.halt.Alive?
    ensures (Stays(s, r) || Serves(s, r)) && Clocked(s, Call(op), r)
  {
    match op
    case Yield => YieldServes(s, r);
    case Interrupt32 => if s.tickCount + 1 >= TIME_SLICE { YieldServes(s, r); }
    case Down(id) => if IsSem(s, id) { DownServes(s, id, s.ints, r); }
    case _ =>
  }

  lemma RunMoves(s: State, r: State)
    requires Inv(s) && RunDoes(s, r) && r.halt.Alive?
    ensures (Stays(s, r) || Serves(s, r)) && Clocked(s, Advance, r)
  {
    assert Placed(s, s.cur);
    if T(s, s.cur).susp.Live? {
      match T(s, s.cur).pc
      case DownLoop(id, level) => DownServes(s, id, level, r);
      case AcqChecked(l) => DownServes(s, l, s.ints, r);
      case Marked => SwitchServes(s, s.(ints := false), r);
      case IdleLoop => WaitServes(s, r);
      case _ =>
    }
  }

  lemma WaitServes(s: State, r: State)
    requires WaitsAt(s, IdleHalt, r)
    ensures Serves(s, r) && r.tickCount == 0
  {
    var b :| BlocksAt(s, IdleHalt, b) && Switched(b, r);
    SwitchServes(s, b, r);
  }

  lemma StepMoves(s: State, step: Step)
    requires Inv(s) && Next(s, step).halt.Alive?
    ensures (Stays(s, Next(s, step)) || Serves(s, Next(s, step))) && Clocked(s, step, Next(s, step))
  {
    NextDoes(s, step);
    match step
    case Tick => if s.ints && s.tickCount + 1 >= TIME_SLICE { YieldServes(s, Next(s, step)); }
    case Call(op) => if T(s, s.cur).susp.Live? && T(s, s.cur).pc.Client? { CallMoves(s, op, Next(s, step)); }
    case Advance => RunMoves(s, Next(s, step));
  }

  lemma {:induction false} HaltIsFinal(s: State, steps: seq<Step>, n: nat)
    requires n <= |steps| && Exec(s, steps).halt.Alive?
    ensures Exec(s, steps[..n]).halt.Alive?
    decreases |steps|
  {
    if n < |steps| {
      assert steps[..|steps| - 1][..n] == steps[..n];
      HaltIsFinal(s, steps[..|steps| - 1], n);
    } else {
      assert steps[..n] == steps;
    }
  }

  /** Thread t is at the place it must have after d of the k+1 dispatches it has to wait for. */
  ghost predicate MovedUp(r: State, t: Tid, k: nat, d: int) {
    && d >= 0
    && (d <= k ==> k - d < |r.ready| && r.ready[k - d] == t)
    && (d == k + 1 ==> r.cur == t)
  }

  lemma MoveUp(q: State, r: State, t: Tid, k: nat, d: int)
    requires MovedUp(q, t, k, d)
    requires Stays(q, r) || Serves(q, r)
    ensures MovedUp(r, t, k, d + r.dispatches - q.dispatches)
  {
    if Serves(q, r) && d < k {
      assert q.ready[1..][k - d - 1] == q.ready[k - d];
    }
  }

  /** Between two prefixes of a run the queue moves as one step lets it. */
  lemma PrefixMoves(s: State, steps: seq<Step>, i: nat)
    requires Inv(s) && i < |steps| && Exec(s, steps).halt.Alive?
    ensures Stays(Exec(s, steps[..i]), Exec(s, steps[..i + 1])) || Serves(Exec(s, steps[..i]), Exec(s, steps[..i + 1]))
  {
    HaltIsFinal(s, steps, i);
    HaltIsFinal(s, steps, i + 1);
    ExecSafe(s, steps[..i]);
    assert steps[..i + 1][..i] == steps[..i];
    StepMoves(Exec(s, steps[..i]), steps[i]);
  }

  lemma {:induction false} TraceMoves(trace: seq<State>, t: Tid, k: nat, n: nat)
    requires n < |trace| && k < |trace[0].ready| && trace[0].ready[k] == t
    requires forall i :: 0 <= i < |trace| - 1 ==> Stays(trace[i], trace[i + 1]) || Serves(trace[i], trace[i + 1])
    ensures MovedUp(trace[n], t, k, trace[n].dispatches - trace[0].dispatches)
    decreases n
  {
    if n > 0 {
      TraceMoves(trace, t, k, n - 1);
      MoveUp(trace[n - 1], trace[n], t, k, trace[n - 1].dispatches - trace[0].dispatches);
    }
  }

  /** The states of a run. */
  function TraceOf(s: State, steps: seq<Step>): (r: seq<State>)
    ensures |r| == |steps| + 1
  {
    seq(|steps| + 1, (i: nat) requires i <= |steps| => Exec(s, steps[..i]))
  }

  /**
   Exact waiting: whatever any thread does, the thread at position k of the ready queue
   has moved up by one with each schedule() so far, and is current right after the
   (k+1)-th.
   */
  lemma ExactWaiting(s: State, steps: seq<Step>, k: nat)
    requires Inv(s) && k < |s.ready| && Exec(s, steps).halt.Alive?
    ensures MovedUp(Exec(s, steps), s.ready[k], k, Exec(s, steps).dispatches - s.dispatches)
  {
    var trace := TraceOf(s, steps);
    forall i | 0 <= i < |trace| - 1 ensures Stays(trace[i], trace[i + 1]) || Serves(trace[i], trace[i + 1]) {
      PrefixMoves(s, steps, i);
    }
    assert steps[..0] == [] && steps[..|steps|] == steps;
    assert trace[0] == s && trace[|steps|] == Exec(s, steps);
    TraceMoves(trace, s.ready[k], k, |steps|);
  }

  /** How many steps of a run run the tick handler. */
  function TicksIn(s: State, steps: seq<Step>): nat
    decreases |steps|
  {
    if steps == [] then 0
    else
      var n := |steps| - 1;
      TicksIn(s, steps[..n]) + if TickRuns(Exec(s, steps[..n]), steps[n]) then 1 else 0
  }

  /** Ticks are paid for by the counter and by dispatches, a time slice each. */
  lemma {:induction false} TickBudget(s: State, steps: seq<Step>)
    requires Inv(s) && Exec(s, steps).halt.Alive?
    ensures var r := Exec(s, steps);
      && r.tickCount < TIME_SLICE
      && s.tickCount + TicksIn(s, steps) <= r.tickCount + TIME_SLICE * (r.dispatches - s.dispatches)
    decreases |steps|
  {
    ExecSafe(s, steps);
    if steps != [] {
      var n := |steps| - 1;
      HaltIsFinal(s, steps, n);
      TickBudget(s, steps[..n]);
      ExecSafe(s, steps[..n]);
      StepMoves(Exec(s, steps[..n]), steps[n]);
    }
  }

  /** So within 4 * (k+1) ticks the thread at position k has been put on the CPU. */
  lemma WaitingInTicks(s: State, steps: seq<Step>, k: nat)
    requires Inv(s) && k < |s.ready| && Exec(s, steps).halt.Alive?
    requires TicksIn(s, steps) >= 4 * (k + 1)
    ensures exists n :: 0 <= n <= |steps| && Exec(s, steps[..n]).cur == s.ready[k]
  {
    TickBudget(s, steps);
    assert Exec(s, steps).dispatches - s.dispatches >= k + 1;
    var n := DispatchReached(s, steps, k + 1);
    HaltIsFinal(s, steps, n);
    ExactWaiting(s, steps[..n], k);
  }

  /** Dispatches happen one by one, so a run that has made d of them has made exactly d at some point. */
  lemma {:induction false} DispatchReached(s: State, steps: seq<Step>, d: nat) returns (n: nat)
    requires Inv(s) && Exec(s, steps).halt.Alive? && Exec(s, steps).dispatches - s.dispatches >= d
    ensures n <= |steps| && Exec(s, steps[..n]).dispatches - s.dispatches == d
    decreases |steps|
  {
    n := |steps|;
    assert steps[..n] == steps;
    if Exec(s, steps).dispatches - s.dispatches > d {
      if steps != [] {
        HaltIsFinal(s, steps, n - 1);
        ExecSafe(s, steps[..n - 1]);
        StepMoves(Exec(s, steps[..n - 1]), steps[n - 1]);
        var m := DispatchReached(s, steps[..n - 1], d);
        assert steps[..n - 1][..m] == steps[..m];
        n := m;
      }
    }
  }
}
