/**
 context_switch and first_switch as instructions on word memory, with one 4 KiB page
 per thread: its control block at the bottom, its stack growing down from the top.
 */
module ContextSwitch {
  const PGSIZE: int := 4096
  const TCB_SIZE: int := 44      // sizeof(struct thread)
  const MAGIC_AT: int := 40      // offset of its last field
  const T_MAGIC: int := 0x69696969
  const FRAME: int := 28         // sizeof(context_switch_stack)
  const RUN: int := 0x10000      // the addresses of run and first_switch: any two values
  const FIRST_SWITCH: int := 0x20000

  type Mem = map<int, int>

  function Ld(m: Mem, a: int): int { if a in m then m[a] else 0 }

  /** The registers a switch has to get right, and memory.  ecx and edx are scratch. */
  datatype View = View(esp: int, ebp: int, ebx: int, esi: int, edi: int, eax: int, eip: int, mem: Mem)

  function Push(v: View, x: int): View {
    v.(esp := v.esp - 4, mem := v.mem[v.esp - 4 := x])
  }

  /** get_base_page: what current_thread() makes of the stack pointer. */
  function BasePage(a: int): int { a - a % PGSIZE }

  /** The three parts of context_switch: save, exchange the stacks, restore and return. */
  function Saved(v: View): View {
    Push(Push(Push(Push(v, v.ebp), v.ebx), v.esi), v.edi)
  }

  function Swapped(v: View): View {
    var cur := Ld(v.mem, v.esp + 20);
    var mem := v.mem[cur := v.esp];
    v.(eax := cur, mem := mem, esp := Ld(mem, Ld(mem, v.esp + 24)))
  }

  function Restored(v: View): View {
    View(v.esp + 20, Ld(v.mem, v.esp + 12), Ld(v.mem, v.esp + 8), Ld(v.mem, v.esp + 4), Ld(v.mem, v.esp),
         v.eax, Ld(v.mem, v.esp + 16), v.mem)
  }

  function SwitchSpec(v: View): View {
    Restored(Swapped(Saved(v)))
  }

  /** first_switch; `during` is memory as the call of switch_complete leaves it. */
  function FirstSpec(v: View, during: Mem): View {
    var sp := v.esp + 8;
    v.(esp := sp + 4, eip := Ld(during, sp), mem := during)
  }

  /** The processor running the code of tswitch.asm. */
  class Cpu {
    var esp: int
    var ebp: int
    var ebx: int
    var esi: int
    var edi: int
    var eax: int
    var ecx: int
    var edx: int
    var eip: int
    var mem: Mem

    ghost function Now(): View
      reads this
    {
      View(esp, ebp, ebx, esi, edi, eax, eip, mem)
    }

    method PushWord(x: int)
      modifies this`esp, this`mem
      ensures Now() == Push(old(Now()), x)
    {
      esp := esp - 4;
      mem := mem[esp := x];
    }

    method PopWord() returns (x: int)
      modifies this`esp
      ensures x == Ld(mem, old(esp)) && esp == old(esp) + 4
    {
      x := Ld(mem, esp);
      esp := esp + 4;
    }

    method SaveRegisters()
      modifies this
      ensures Now() == Saved(old(Now()))
    {
      PushWord(ebp);
      PushWord(ebx);
      PushWord(esi);
      PushWord(edi);
    }

    method SwapStacks()
      modifies this
      ensures Now() == Swapped(old(Now()))
    {
      edx := 0;
      eax := Ld(mem, 20 + esp);
      mem := mem[eax + edx * 1 := esp];
      ecx := Ld(mem, 24 + esp);
      esp := Ld(mem, ecx + edx * 1);
    }

    method RestoreRegisters()
      modifies this
      ensures Now() == Restored(old(Now()))
    {
      edi := PopWord();
      esi := PopWord();
      ebx := PopWord();
      ebp := PopWord();
      eip := PopWord();
    }

    /** thread_create's frames, through push_stack. */
    method BuildStack(t: int, func: int, aux: int)
      modifies this`mem
      ensures mem == NewStack(old(mem), t, func, aux)
    {
      mem := mem[t + MAGIC_AT := T_MAGIC];
      mem := mem[t := t + PGSIZE];
      var runStack := PushStack(t, 12);
      mem := mem[runStack := 0][runStack + 4 := func][runStack + 8 := aux];
      assert mem == RunFrame(old(mem), t, func, aux);
      BuildSwitchFrames(t);
    }

    /** The frames of first_switch and context_switch, below the run frame. */
    method BuildSwitchFrames(t: int)
      requires Ld(mem, t) == t + PGSIZE - 12
      modifies this`mem
      ensures mem == SwitchFrames(old(mem), t)
    {
      var switchStack := PushStack(t, 4);
      mem := mem[switchStack := RUN];
      var contextStack := PushStack(t, FRAME);
      mem := mem[contextStack + 16 := FIRST_SWITCH][contextStack + 8 := 0];
    }

    method PushStack(t: int, size: int) returns (stack: int)
      modifies this`mem
      ensures stack == Ld(old(mem), t) - size && mem == old(mem)[t := stack]
    {
      stack := Ld(mem, t) - size;
      mem := mem[t := stack];
    }

    method ContextSwitch()
      modifies this
      ensures Now() == SwitchSpec(old(Now()))
    {
      SaveRegisters();
      SwapStacks();
      RestoreRegisters();
    }

    /** `during` is memory as switch_complete leaves it; it may use all of the stack below its argument. */
    method FirstSwitch(during: Mem) returns (prev: int)
      modifies this
      ensures prev == old(eax)
      ensures Now() == FirstSpec(old(Now()), during)
    {
      esp := esp + 8;
      PushWord(eax);
      prev := Ld(mem, esp);   // switch_complete's argument
      mem := during;
      esp := esp + 4;
      eip := PopWord();
    }
  }

  // ----- threads

  /** What a suspended thread must get back: its registers, or its first call of run. */
  datatype Context =
    | Parked(sp: int, edi: int, esi: int, ebx: int, ebp: int, ret: int)
    | Unstarted(func: int, aux: int)

  /** `saved` is history: what each suspended thread had when it switched away. */
  datatype Sys = Sys(v: View, cur: int, pages: set<int>, saved: map<int, Context>)

  predicate InPage(t: int, a: int) { t <= a < t + PGSIZE }

  /** The frame that context_switch left, or that thread_create built, on t's stack. */
  ghost predicate FrameOk(m: Mem, t: int, c: Context) {
    var sp := Ld(m, t);
    && t + TCB_SIZE <= sp && sp + FRAME <= t + PGSIZE
    && match c
       case Parked(sp0, edi, esi, ebx, ebp, ret) =>
         sp == sp0 && Ld(m, sp) == edi && Ld(m, sp + 4) == esi && Ld(m, sp + 8) == ebx && Ld(m, sp + 12) == ebp
         && Ld(m, sp + 16) == ret
       case Unstarted(func, aux) =>
         && sp + 44 == t + PGSIZE
         && Ld(m, sp + 8) == 0 && Ld(m, sp + 16) == FIRST_SWITCH
         && Ld(m, sp + 28) == RUN && Ld(m, sp + 32) == 0 && Ld(m, sp + 36) == func && Ld(m, sp + 40) == aux
  }

  ghost predicate ThreadOk(s: Sys, t: int) {
    && t % PGSIZE == 0
    && Ld(s.v.mem, t + MAGIC_AT) == T_MAGIC
    && (t != s.cur ==> t in s.saved && FrameOk(s.v.mem, t, s.saved[t]))
  }

  ghost predicate Inv(s: Sys) {
    && s.cur in s.pages && s.cur + TCB_SIZE <= s.v.esp < s.cur + PGSIZE
    && (forall t {:trigger ThreadOk(s, t)} :: t in s.pages ==> ThreadOk(s, t))
  }

  /** m differs from s's memory neither in other threads' pages nor in the magic word. */
  ghost predicate KeepsOthers(s: Sys, m: Mem) {
    && Ld(m, s.cur + MAGIC_AT) == T_MAGIC
    && (forall t, a {:trigger InPage(t, a)} :: t in s.pages && t != s.cur && InPage(t, a) ==> Ld(m, a) == Ld(s.v.mem, a))
  }

  lemma OnePage(t: int, u: int, a: int)
    requires t % PGSIZE == 0 && u % PGSIZE == 0 && InPage(t, a) && InPage(u, a)
    ensures t == u && BasePage(a) == t
  {
  }

  // ----- the three things that happen

  /** The running thread computes: any registers, any memory but the other threads' pages. */
  ghost predicate Works(s: Sys, v: View) {
    KeepsOthers(s, v.mem) && s.cur + TCB_SIZE <= v.esp < s.cur + PGSIZE
  }

  /** thread_create: the frames of run, first_switch and context_switch, pushed from the page's top. */
  function NewStack(m: Mem, t: int, func: int, aux: int): Mem {
    SwitchFrames(RunFrame(m, t, func, aux), t)
  }

  /** A zeroed page with its magic number and the frame of run at its top. */
  function RunFrame(m: Mem, t: int, func: int, aux: int): Mem {
    var top := t + PGSIZE;
    m[t + MAGIC_AT := T_MAGIC][t := top - 12][top - 12 := 0][top - 8 := func][top - 4 := aux]
  }

  function SwitchFrames(m: Mem, t: int): Mem {
    var top := t + PGSIZE;
    m[top - 16 := RUN][t := top - 44][top - 28 := FIRST_SWITCH][top - 36 := 0]
  }

  /** schedule()'s call context_switch(cur, next), which is to return to ret. */
  function CallSwitch(v: View, cur: int, next: int, ret: int): View {
    SwitchSpec(Push(Push(Push(v, next), cur), ret))
  }

  function Park(s: Sys, next: int, ret: int): Sys {
    var v := s.v;
    s.(v := CallSwitch(v, s.cur, next, ret), cur := next,
       saved := s.saved[s.cur := Parked(v.esp - FRAME, v.edi, v.esi, v.ebx, v.ebp, ret)])
  }

  /** There is room for the call's frame above the control block. */
  predicate CanPark(s: Sys, next: int) {
    next in s.pages && next != s.cur && s.cur + TCB_SIZE + FRAME <= s.v.esp
  }

  /** The seven pushes of a call stay between the control block and the stack pointer. */
  lemma CallPushes(v: View, cur: int, next: int, ret: int, a: int)
    ensures var m := Saved(Push(Push(Push(v, next), cur), ret)).mem;
      && Saved(Push(Push(Push(v, next), cur), ret)).esp == v.esp - FRAME
      && (a < v.esp - FRAME || v.esp <= a ==> Ld(m, a) == Ld(v.mem, a))
      && Ld(m, v.esp - 28) == v.edi && Ld(m, v.esp - 24) == v.esi && Ld(m, v.esp - 20) == v.ebx
      && Ld(m, v.esp - 16) == v.ebp && Ld(m, v.esp - 12) == ret && Ld(m, v.esp - 8) == cur && Ld(m, v.esp - 4) == next
  {
  }

  lemma CallSwitchMem(v: View, cur: int, next: int, ret: int, a: int)
    requires cur + TCB_SIZE + FRAME <= v.esp < cur + PGSIZE && next != cur
    requires cur % PGSIZE == 0 && next % PGSIZE == 0
    ensures var r := CallSwitch(v, cur, next, ret);
      && r.eax == cur
      && FrameOk(r.mem, cur, Parked(v.esp - FRAME, v.edi, v.esi, v.ebx, v.ebp, ret))
      && (a == cur + MAGIC_AT || !InPage(cur, a) ==> Ld(r.mem, a) == Ld(v.mem, a))
      && r.esp == Ld(v.mem, next) + 20
  {
    CallPushes(v, cur, next, ret, a);
    CallPushes(v, cur, next, ret, next);
    assert !InPage(cur, next);
  }

  /** The resumed side of a switch: everything comes from the frame that the next thread left. */
  lemma CallSwitchResumes(v: View, cur: int, next: int, ret: int, c: Context)
    requires cur + TCB_SIZE + FRAME <= v.esp < cur + PGSIZE && next != cur
    requires cur % PGSIZE == 0 && next % PGSIZE == 0 && FrameOk(v.mem, next, c)
    ensures var r := CallSwitch(v, cur, next, ret);
      && FrameOk(r.mem, next, c) && next + TCB_SIZE <= r.esp < next + PGSIZE
      && (c.Parked? ==> r.edi == c.edi && r.esi == c.esi && r.ebx == c.ebx && r.ebp == c.ebp
                        && r.eip == c.ret && r.esp == c.sp + 20)
      && (c.Unstarted? ==> r.eip == FIRST_SWITCH && r.ebx == 0 && r.esp == next + PGSIZE - 24)
  {
    var r := CallSwitch(v, cur, next, ret);
    var sp := Ld(v.mem, next);
    forall a | InPage(next, a) ensures Ld(r.mem, a) == Ld(v.mem, a) {
      if InPage(cur, a) { OnePage(cur, next, a); }
      CallSwitchMem(v, cur, next, ret, a);
    }
    assert InPage(next, next) && InPage(next, sp) && InPage(next, sp + 4) && InPage(next, sp + 8)
        && InPage(next, sp + 12) && InPage(next, sp + 16);
    assert c.Unstarted? ==> InPage(next, sp + 28) && InPage(next, sp + 32) && InPage(next, sp + 36) && InPage(next, sp + 40);
    CallSwitchMem(v, cur, next, ret, next);
    CallPushes(v, cur, next, ret, next);
  }

  datatype Action =
    | Work(v: View)
    | Create(t: int, func: int, aux: int)
    | SwitchTo(next: int, ret: int, during: Mem)   // during: for the first switch to `next`

  /** switch_complete, called by first_switch, leaves run's frame and other threads' pages alone. */
  ghost predicate Completes(s: Sys, during: Mem) {
    && KeepsOthers(s, during)
    && (forall a {:trigger Ld(during, a)} :: s.cur + PGSIZE - 16 <= a < s.cur + PGSIZE ==>
          Ld(during, a) == Ld(s.v.mem, a))
  }

  function SavedOf(s: Sys, t: int): Context {
    if t in s.saved then s.saved[t] else Unstarted(0, 0)
  }

  ghost predicate Enabled(s: Sys, a: Action) {
    match a
    case Work(v) => Works(s, v)
    case Create(t, _, _) => t !in s.pages && t % PGSIZE == 0
    case SwitchTo(next, ret, during) =>
      CanPark(s, next) && (SavedOf(s, next).Unstarted? ==> Completes(Park(s, next, ret), during))
  }

  function Do(s: Sys, a: Action): Sys {
    match a
    case Work(v) => s.(v := v)
    case Create(t, func, aux) =>
      s.(v := s.v.(mem := NewStack(s.v.mem, t, func, aux)), pages := s.pages + {t},
         saved := s.saved[t := Unstarted(func, aux)])
    case SwitchTo(next, ret, during) =>
      var r := Park(s, next, ret);
      if SavedOf(s, next).Unstarted? then r.(v := FirstSpec(r.v, during)) else r
  }

  lemma FrameMoves(m: Mem, n: Mem, t: int, c: Context)
    requires FrameOk(m, t, c) && forall a {:trigger InPage(t, a)} :: InPage(t, a) ==> Ld(n, a) == Ld(m, a)
    ensures FrameOk(n, t, c)
  {
    var sp := Ld(m, t);
    assert InPage(t, t) && InPage(t, sp) && InPage(t, sp + 4) && InPage(t, sp + 8) && InPage(t, sp + 12) && InPage(t, sp + 16);
    assert c.Unstarted? ==> InPage(t, sp + 28) && InPage(t, sp + 32) && InPage(t, sp + 36) && InPage(t, sp + 40);
  }

  lemma WorkInv(s: Sys, v: View)
    requires Inv(s) && Works(s, v)
    ensures Inv(s.(v := v))
  {
    var r := s.(v := v);
    forall t | t in r.pages ensures ThreadOk(r, t) {
      assert ThreadOk(s, t);
      if t != s.cur {
        assert InPage(t, t + MAGIC_AT);
        FrameMoves(s.v.mem, v.mem, t, s.saved[t]);
      }
    }
  }

  lemma NewStackFrame(m: Mem, t: int, func: int, aux: int, a: int)
    ensures var n := NewStack(m, t, func, aux);
      && FrameOk(n, t, Unstarted(func, aux)) && Ld(n, t + MAGIC_AT) == T_MAGIC
      && (!InPage(t, a) ==> Ld(n, a) == Ld(m, a))
  {
  }

  lemma CreateInv(s: Sys, t: int, func: int, aux: int)
    requires Inv(s) && t !in s.pages && t % PGSIZE == 0
    ensures Inv(Do(s, Create(t, func, aux)))
  {
    var r := Do(s, Create(t, func, aux));
    NewStackFrame(s.v.mem, t, func, aux, t);
    forall u | u in r.pages ensures ThreadOk(r, u) {
      if u != t {
        assert ThreadOk(s, u);
        forall a | InPage(u, a) ensures Ld(r.v.mem, a) == Ld(s.v.mem, a) {
          if InPage(t, a) { OnePage(t, u, a); }
          NewStackFrame(s.v.mem, t, func, aux, a);
        }
        assert InPage(u, u + MAGIC_AT);
        if u != s.cur { FrameMoves(s.v.mem, r.v.mem, u, s.saved[u]); }
      }
    }
  }

  lemma ParkInv(s: Sys, next: int, ret: int)
    requires Inv(s) && CanPark(s, next)
    ensures Inv(Park(s, next, ret))
  {
    var r := Park(s, next, ret);
    ParkStack(s, next, ret);
    forall t | t in r.pages ensures ThreadOk(r, t) { ParkThread(s, next, ret, t); }
  }

  lemma ParkStack(s: Sys, next: int, ret: int)
    requires Inv(s) && CanPark(s, next)
    ensures next + TCB_SIZE <= Park(s, next, ret).v.esp < next + PGSIZE
  {
    assert ThreadOk(s, s.cur) && ThreadOk(s, next);
    CallSwitchResumes(s.v, s.cur, next, ret, s.saved[next]);
  }

  lemma ParkThread(s: Sys, next: int, ret: int, t: int)
    requires Inv(s) && CanPark(s, next) && t in s.pages
    ensures ThreadOk(Park(s, next, ret), t)
  {
    assert ThreadOk(s, t);
    if t == s.cur {
      assert ThreadOk(s, next);
      CallSwitchMem(s.v, t, next, ret, t + MAGIC_AT);
    } else {
      ParkOther(s, next, ret, t);
    }
  }

  /** A switch leaves the pages of all other threads alone. */
  lemma ParkOther(s: Sys, next: int, ret: int, t: int)
    requires Inv(s) && CanPark(s, next) && t in s.pages && t != s.cur
    ensures var m := Park(s, next, ret).v.mem;
      t in s.saved && Ld(m, t + MAGIC_AT) == Ld(s.v.mem, t + MAGIC_AT) && FrameOk(m, t, s.saved[t])
  {
    var m := Park(s, next, ret).v.mem;
    assert ThreadOk(s, t) && ThreadOk(s, s.cur) && ThreadOk(s, next);
    forall a | InPage(t, a) ensures Ld(m, a) == Ld(s.v.mem, a) {
      if InPage(s.cur, a) { OnePage(s.cur, t, a); }
      CallSwitchMem(s.v, s.cur, next, ret, a);
    }
    assert InPage(t, t + MAGIC_AT);
    FrameMoves(s.v.mem, m, t, s.saved[t]);
  }

  /** Every step keeps every suspended thread's frame, and the current thread on its own page. */
  lemma StepInv(s: Sys, a: Action)
    requires Inv(s) && Enabled(s, a)
    ensures Inv(Do(s, a))
  {
    match a
    case Work(v) => WorkInv(s, v);
    case Create(t, func, aux) => CreateInv(s, t, func, aux);
    case SwitchTo(next, ret, during) =>
      ParkInv(s, next, ret);
      assert ThreadOk(s, next) && ThreadOk(s, s.cur);
      var r := Park(s, next, ret);
      CallSwitchResumes(s.v, s.cur, next, ret, s.saved[next]);
      if s.saved[next].Unstarted? {
        WorkInv(r, FirstSpec(r.v, during));
      }
  }

  /** current_thread(): rounding the stack pointer down to a page gives the running thread's own TCB. */
  lemma CurrentThread(s: Sys)
    requires Inv(s)
    ensures BasePage(s.v.esp) == s.cur && Ld(s.v.mem, BasePage(s.v.esp) + MAGIC_AT) == T_MAGIC
  {
    assert ThreadOk(s, s.cur);
  }

  /** The first switch to a thread calls switch_complete with the outgoing thread and reaches run(func, aux). */
  lemma FirstSwitchReachesRun(s: Sys, next: int, ret: int, during: Mem)
    requires Inv(s) && Enabled(s, SwitchTo(next, ret, during)) && next in s.saved && s.saved[next].Unstarted?
    ensures Park(s, next, ret).v.eip == FIRST_SWITCH && Park(s, next, ret).v.eax == s.cur
    ensures var v := Do(s, SwitchTo(next, ret, during)).v;
      && v.eip == RUN && BasePage(v.esp) == next && Ld(v.mem, v.esp) == 0
      && Ld(v.mem, v.esp + 4) == s.saved[next].func && Ld(v.mem, v.esp + 8) == s.saved[next].aux
  {
    assert ThreadOk(s, next) && ThreadOk(s, s.cur);
    CallSwitchResumes(s.v, s.cur, next, ret, s.saved[next]);
    StepInv(s, SwitchTo(next, ret, during));
    CurrentThread(Do(s, SwitchTo(next, ret, during)));
    CallSwitchMem(s.v, s.cur, next, ret, next);
  }

  function Exec(s: Sys, actions: seq<Action>): Sys
    decreases |actions|
  {
    if actions == [] then s else Do(Exec(s, actions[..|actions| - 1]), actions[|actions| - 1])
  }

  /** Every action of the run is possible when it comes. */
  ghost predicate RunOk(s: Sys, actions: seq<Action>)
    decreases |actions|
  {
    actions == [] ||
    (RunOk(s, actions[..|actions| - 1]) && Enabled(Exec(s, actions[..|actions| - 1]), actions[|actions| - 1]))
  }

  predicate SwitchesTo(a: Action, t: int) { a.SwitchTo? && a.next == t }

  lemma {:induction false} RunKeeps(s: Sys, actions: seq<Action>, t: int)
    requires Inv(s) && RunOk(s, actions)
    ensures Inv(Exec(s, actions))
    ensures t in s.pages && t in s.saved && t != s.cur && (forall k :: 0 <= k < |actions| ==> !SwitchesTo(actions[k], t))
        ==> var r := Exec(s, actions); t in r.pages && r.cur != t && t in r.saved && r.saved[t] == s.saved[t]
    decreases |actions|
  {
    if actions != [] {
      var n := |actions| - 1;
      RunKeeps(s, actions[..n], t);
      StepInv(Exec(s, actions[..n]), actions[n]);
    }
  }

  /**
   A thread that switches away and is later switched back to has the edi, esi, ebx, ebp,
   return address and stack it had, whatever ran in between, and is handed the thread it
   took over from.  (The stack pointer is short of the call's two arguments, which the
   caller then drops.)
   */
  lemma SwitchRoundTrip(s: Sys, away: Action, actions: seq<Action>, back: Action)
    requires Inv(s) && Enabled(s, away) && away.SwitchTo?
    requires RunOk(Do(s, away), actions) && forall k :: 0 <= k < |actions| ==> !SwitchesTo(actions[k], s.cur)
    requires SwitchesTo(back, s.cur) && Enabled(Exec(Do(s, away), actions), back)
    ensures var q := Exec(Do(s, away), actions);
      var r := Do(q, back);
      && r.cur == s.cur && BasePage(r.v.esp) == s.cur
      && r.v.edi == s.v.edi && r.v.esi == s.v.esi && r.v.ebx == s.v.ebx && r.v.ebp == s.v.ebp
      && r.v.eip == away.ret && r.v.esp + 8 == s.v.esp && r.v.eax == q.cur
  {
    var p := Do(s, away);
    StepInv(s, away);
    RunKeeps(p, actions, s.cur);
    var q := Exec(p, actions);
    assert ThreadOk(q, s.cur) && ThreadOk(q, q.cur);
    CallSwitchResumes(q.v, q.cur, s.cur, back.ret, q.saved[s.cur]);
    CallSwitchMem(q.v, q.cur, s.cur, back.ret, s.cur);
    StepInv(q, back);
    CurrentThread(Do(q, back));
  }
}
