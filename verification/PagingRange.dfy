/**
 The range of pages that palloc_kern's callers use: it answers one address for n frames, and
 whether the pages from there are these frames can be told before the call.
 */
module PagingRange {
  import opened Common
  import opened Paging
  import opened PagingOutcome
  import opened PagingAlloc
  import opened PagingFrames
  import opened PagingServe
  import opened PagingRuns
  import opened PagingReady
  import opened PagingBoot

  // ----- the frames of n rounds, from the present slots and the free frames

  /** The slots for which the next round makes tables. */
  function RoundSlots(present: set<nat>, free: seq<nat>): (r: seq<nat>)
    requires free != []
    ensures |r| < |free|
  {
    SlotsIn(present, free[1..], DirectSlot(free[0] / PGSIZE))
  }

  function PresentNext(present: set<nat>, free: seq<nat>): set<nat>
    requires free != []
  {
    present + (set s: nat | s in RoundSlots(present, free))
  }

  function FreeNext(present: set<nat>, free: seq<nat>): seq<nat>
    requires free != []
  {
    free[|RoundSlots(present, free)| + 1..]
  }

  /** The frames that n rounds hand out as pages, as far as frames last; the others go as tables. */
  function KernPages(present: set<nat>, free: seq<nat>, n: nat): (r: seq<nat>)
    ensures |r| <= n
    decreases n
  {
    if n == 0 || free == [] then []
    else [free[0]] + KernPages(PresentNext(present, free), FreeNext(present, free), n - 1)
  }

  /** The next round's chain of absent slots ends and meets none twice. */
  ghost predicate RoundGo(present: set<nat>, free: seq<nat>)
    requires free != []
  {
    EndsIn(present, free[1..], DirectSlot(free[0] / PGSIZE)) && NoDup(RoundSlots(present, free))
  }

  ghost predicate RoundsGo(present: set<nat>, free: seq<nat>, n: nat)
    decreases n
  {
    n == 0 || (free != [] && RoundGo(present, free) && RoundsGo(PresentNext(present, free), FreeNext(present, free), n - 1))
  }

  ghost function PresentSlots(vm: Vm): set<nat> { set s: nat | s < SLOTS && Present(vm.mem, s) }

  lemma {:induction false} ChainMatches(vm: Vm, free: seq<nat>, slot: nat)
    requires slot < SLOTS
    ensures SlotsIn(PresentSlots(vm), free, slot) == Slots(vm.mem, free, slot)
    ensures EndsIn(PresentSlots(vm), free, slot) == Ends(vm.mem, free, slot)
    decreases |free|
  {
    if free != [] { ChainMatches(vm, free[1..], DirectSlot(free[0] / PGSIZE)); }
  }

  /** What a round that goes leaves. */
  ghost predicate Leaves(s: Sys, r: Sys, present1: set<nat>, free1: seq<nat>)
    requires s.vm.free != []
  {
    && KernRound(s) == Ok(r, Kptov(s.vm.free[0])) && Once(TakePage(s).vm, Kptov(s.vm.free[0]))
    && Valid(r.vm) && PresentSlots(r.vm) == present1 && r.vm.free == free1 && r.data == s.data + [s.vm.free[0]]
  }

  /** One round goes exactly when its chain is proper and the round is done. */
  lemma RoundGoesIff(s: Sys, present: set<nat>) returns (r: Sys)
    requires Valid(s.vm) && s.vm.free != [] && present == PresentSlots(s.vm)
    ensures if RoundGo(present, s.vm.free)
            then Leaves(s, r, PresentNext(present, s.vm.free), FreeNext(present, s.vm.free))
            else !(Once(TakePage(s).vm, Kptov(s.vm.free[0])) && KernRound(s).Ok?)
  {
    var a, q := s.vm.free[0], TakePage(s);
    r := s;
    TakeValid(s);
    DirectAddress(a);
    AddressSplit(Kptov(a));
    ChainMatches(s.vm, q.vm.free, DirectSlot(a / PGSIZE));
    if Once(q.vm, Kptov(a)) {
      MapTakes(q, a, Kptov(a));
      if KernRound(s).Ok? {
        r := KernRound(s).s;
        RoundLeaves(s, r, present);
      }
    }
  }

  lemma RoundLeaves(s: Sys, r: Sys, present: set<nat>)
    requires s.vm.free != [] && present == PresentSlots(s.vm) && s.vm.free[0] % PGSIZE == 0 && s.vm.free[0] / PGSIZE < DIRECT_FRAMES
    requires RoundSlots(present, s.vm.free) == Slots(s.vm.mem, s.vm.free[1..], PdNo(Kptov(s.vm.free[0])))
    requires Refines(TakePage(s).vm, r.vm, Kptov(s.vm.free[0]) / PGSIZE, s.vm.free[0] / PGSIZE)
    ensures PresentSlots(r.vm) == PresentNext(present, s.vm.free) && r.vm.free == FreeNext(present, s.vm.free)
  {
    var a, q := s.vm.free[0], TakePage(s);
    KptovPage(a / PGSIZE);
    AddressSplit(Kptov(a));
    var slots := Slots(s.vm.mem, s.vm.free[1..], PdNo(Kptov(a)));
    assert s.vm.free[1..][|slots|..] == s.vm.free[|slots| + 1..];
    forall t: nat ensures t in PresentSlots(r.vm) <==> t in PresentNext(present, s.vm.free) {
      if t in slots { SlotInRange(q.vm, Kptov(a), t); }
      if t < SLOTS { assert Present(r.vm.mem, t) <==> Present(s.vm.mem, t) || t in slots; }
    }
  }

  /** Rounds go exactly when they are proper and end well, and then hand out these pages after `data`. */
  ghost predicate Handed(go: bool, once: bool, how: Result, data: seq<nat>, pages: seq<nat>, n: nat, addr: nat) {
    && (go <==> once && how.Ok?)
    && (go ==> |pages| == n && how.s.data == data + pages && how.addr == addr && Valid(how.s.vm))
  }

  ghost predicate Foretold(s: Sys, present: set<nat>, i: nat, n: nat, ret: nat, how: Result)
    requires i <= n
  {
    Handed(RoundsGo(present, s.vm.free, n - i), KernOnce(s, i, n), how, s.data, KernPages(present, s.vm.free, n - i), n - i,
           KernAnswer(s, i, n, ret))
  }

  /** palloc_kern's rounds are proper and done exactly when the slots and frames say so, and hand out the foretold pages. */
  lemma {:induction false} KernForetold(s: Sys, present: set<nat>, i: nat, n: nat, must: bool, ret: nat, how: Result)
    requires Valid(s.vm) && present == PresentSlots(s.vm) && i <= n && KernLeft(how, s, i, n, must, ret)
    ensures Foretold(s, present, i, n, ret, how)
    decreases n - i
  {
    if i < n {
      if s.vm.free == [] {
        KernGoes(how, s, i, n, must, ret);
      } else {
        var r := RoundForetold(s, present, i, n, must, ret, how);
        if RoundGo(present, s.vm.free) {
          KernForetold(r, PresentNext(present, s.vm.free), i + 1, n, must, KernAnswer(s, i, n, ret), how);
          HandedMore(s, r, present, i, n, ret, how);
        } else {
          HandedNone(s, present, i, n, ret, how);
        }
      }
    }
  }

  lemma RoundForetold(s: Sys, present: set<nat>, i: nat, n: nat, must: bool, ret: nat, how: Result) returns (r: Sys)
    requires Valid(s.vm) && s.vm.free != [] && present == PresentSlots(s.vm) && i < n && KernLeft(how, s, i, n, must, ret)
    ensures if RoundGo(present, s.vm.free)
            then Leaves(s, r, PresentNext(present, s.vm.free), FreeNext(present, s.vm.free))
                 && KernLeft(how, r, i + 1, n, must, KernAnswer(s, i, n, ret))
            else Stops(s, how)
  {
    KernGoes(how, s, i, n, must, ret);
    r := RoundGoesIff(s, present);
  }

  /** The round is not proper, or ends palloc_kern. */
  ghost predicate Stops(s: Sys, how: Result)
    requires s.vm.free != []
  {
    && !(Once(TakePage(s).vm, Kptov(s.vm.free[0])) && KernRound(s).Ok?)
    && (!KernRound(s).Ok? ==> how == KernRound(s))
  }

  lemma HandedMore(s: Sys, r: Sys, present: set<nat>, i: nat, n: nat, ret: nat, how: Result)
    requires i < n && s.vm.free != [] && RoundGo(present, s.vm.free)
    requires Leaves(s, r, PresentNext(present, s.vm.free), FreeNext(present, s.vm.free))
    requires Foretold(r, PresentNext(present, s.vm.free), i + 1, n, KernAnswer(s, i, n, ret), how)
    ensures Foretold(s, present, i, n, ret, how)
  {
    PagesNext(present, s.vm.free, n - i);
    OnceNext(s, i, n);
    HandedJoin(RoundsGo(present, s.vm.free, n - i), KernOnce(s, i, n), how, s.data, s.vm.free[0], r.data,
               KernPages(present, s.vm.free, n - i), KernPages(PresentNext(present, s.vm.free), r.vm.free, n - i - 1), n - i,
               KernAnswer(s, i, n, ret));
  }

  lemma HandedJoin(go: bool, once: bool, how: Result, data: seq<nat>, a: nat, data1: seq<nat>, pages: seq<nat>, pages1: seq<nat>,
                   n: nat, addr: nat)
    requires n > 0 && data1 == data + [a] && pages == [a] + pages1 && Handed(go, once, how, data1, pages1, n - 1, addr)
    ensures Handed(go, once, how, data, pages, n, addr)
  {
  }

  lemma HandedNone(s: Sys, present: set<nat>, i: nat, n: nat, ret: nat, how: Result)
    requires i < n && s.vm.free != [] && !RoundGo(present, s.vm.free) && Stops(s, how)
    ensures Foretold(s, present, i, n, ret, how)
  {
    PagesNext(present, s.vm.free, n - i);
    OnceNext(s, i, n);
  }

  lemma PagesNext(present: set<nat>, free: seq<nat>, n: nat)
    requires n > 0 && free != []
    ensures var present1, free1 := PresentNext(present, free), FreeNext(present, free);
      && KernPages(present, free, n) == [free[0]] + KernPages(present1, free1, n - 1)
      && (RoundsGo(present, free, n) <==> RoundGo(present, free) && RoundsGo(present1, free1, n - 1))
  {
  }

  lemma OnceNext(s: Sys, i: nat, n: nat)
    requires i < n && s.vm.free != []
    ensures KernOnce(s, i, n) <==>
      Once(TakePage(s).vm, Kptov(s.vm.free[0])) && (KernRound(s).Ok? ==> KernOnce(KernRound(s).s, i + 1, n))
  {
  }

  /** With the direct slots of all free frames present no frame goes as a table: n rounds hand out the first n. */
  lemma {:induction false} ReadyPages(present: set<nat>, free: seq<nat>, n: nat)
    requires forall a {:trigger a in free} :: a in free ==> DirectSlot(a / PGSIZE) in present
    ensures RoundsGo(present, free, n) <==> n <= |free|
    ensures n <= |free| ==> KernPages(present, free, n) == free[..n]
    decreases n
  {
    if n > 0 && free != [] {
      assert free[0] in free && RoundSlots(present, free) == [];
      assert PresentNext(present, free) == present;
      forall a | a in free[1..] ensures a in free {}
      ReadyPages(present, free[1..], n - 1);
      assert n <= |free| ==> free[..n] == [free[0]] + free[1..][..n - 1];
    }
  }

  // ----- what the range holds

  /** Page i of the range that starts at the first frame's direct page is backed by frame i. */
  ghost predicate BackedAt(m: Mem, d: seq<nat>, i: nat)
    requires i < |d|
  {
    KPage(d[0] / PGSIZE) + i < PAGES && Translate(m, KPage(d[0] / PGSIZE) + i) == Some(d[i] / PGSIZE)
  }

  ghost predicate Backed(m: Mem, d: seq<nat>) {
    forall i {:trigger BackedAt(m, d, i)} :: 0 <= i < |d| ==> BackedAt(m, d, i)
  }

  /** The frames of d are aligned, can be mapped directly, and are. */
  ghost predicate AtDirectPages(m: Mem, d: seq<nat>) {
    forall i {:trigger d[i]} :: 0 <= i < |d| ==>
      d[i] % PGSIZE == 0 && d[i] / PGSIZE < DIRECT_FRAMES && Translate(m, KPage(d[i] / PGSIZE)) == Some(d[i] / PGSIZE)
  }

  ghost predicate Consecutive(d: seq<nat>) {
    forall i {:trigger d[i]} :: 0 <= i < |d| ==> d[i] == d[0] + i * PGSIZE
  }

  lemma RangePage(m: Mem, d: seq<nat>, i: nat)
    requires DirectOnly(m) && AtDirectPages(m, d) && i < |d|
    ensures BackedAt(m, d, i) <==> d[i] == d[0] + i * PGSIZE
  {
    var f, g, p := d[0] / PGSIZE, d[i] / PGSIZE, KPage(d[0] / PGSIZE) + i;
    KptovPage(f);
    KptovPage(g);
    assert d[0] == f * PGSIZE && d[i] == g * PGSIZE;
    if p < PAGES { assert Translate(m, p) in {None, Some(p - KERN_PAGE)}; }
  }

  /**
   palloc_kern answers one address for n frames.  The n pages from there are backed by these
   frames if and only if the frames are consecutive, which the code does not check.
   */
  lemma RangeIff(m: Mem, d: seq<nat>)
    requires DirectOnly(m) && d != [] && AtDirectPages(m, d)
    ensures Backed(m, d) <==> Consecutive(d)
  {
    forall i | 0 <= i < |d| ensures BackedAt(m, d, i) <==> d[i] == d[0] + i * PGSIZE {
      RangePage(m, d, i);
    }
  }

  /** The pages handed out are at their direct pages, and nothing else appeared above KERN_BASE. */
  lemma ServedDirect(s: Sys, r: Sys, n: nat, k: nat)
    requires Valid(s.vm) && DirectOnly(s.vm.mem) && Served(s, r, n, k)
    ensures DirectOnly(r.vm.mem) && AtDirectPages(r.vm.mem, r.data[|s.data|..])
  {
    var d := r.data[|s.data|..];
    forall p | KERN_PAGE <= p < PAGES ensures Translate(r.vm.mem, p) in {None, Some(p - KERN_PAGE)} {
      assert Translate(r.vm.mem, p) == AfterService(s, k, p);
    }
    forall i | 0 <= i < |d|
      ensures d[i] % PGSIZE == 0 && d[i] / PGSIZE < DIRECT_FRAMES && Translate(r.vm.mem, KPage(d[i] / PGSIZE)) == Some(d[i] / PGSIZE)
    {
      assert d[i] in multiset(s.vm.free[..k]);
      assert Unused(s.vm.mem, d[i]);
      KptovPage(d[i] / PGSIZE);
      assert Translate(r.vm.mem, KPage(d[i] / PGSIZE)) == AfterService(s, k, KPage(d[i] / PGSIZE));
    }
  }

  /** palloc_kern's answer for n frames d: the direct address of the first alone. */
  ghost predicate Answers(s: Sys, how: Result, d: seq<nat>) {
    && how.Ok? && how.s.data == s.data + d
    && (d != [] ==> how.addr == Kptov(d[0]))
    && (Backed(how.s.vm.mem, d) <==> Consecutive(d))
  }

  /**
   palloc_kern answers the direct address of its first frame alone.  The n pages from there
   are backed by the n frames it takes as pages, in order, if and only if these are
   consecutive: which frames they are, the present slots and the free frames say before the call.
   */
  lemma PallocKernRange(s: Sys, n: nat, must: bool)
    requires Valid(s.vm) && DirectOnly(s.vm.mem) && RoundsGo(PresentSlots(s.vm), s.vm.free, n)
    ensures Answers(s, PallocKern(s, n, must), KernPages(PresentSlots(s.vm), s.vm.free, n))
    ensures DirectOnly(PallocKern(s, n, must).s.vm.mem) && |KernPages(PresentSlots(s.vm), s.vm.free, n)| == n
  {
    var how := PallocKern(s, n, must);
    var d := HandsOut(s, n, must, how);
    ServedFrom(s, n, must, how);
    RangeOf(s, how, n, must, KernAnswer(s, 0, n, 0), d);
  }

  lemma HandsOut(s: Sys, n: nat, must: bool, how: Result) returns (d: seq<nat>)
    requires Valid(s.vm) && RoundsGo(PresentSlots(s.vm), s.vm.free, n) && how == PallocKern(s, n, must)
    ensures d == KernPages(PresentSlots(s.vm), s.vm.free, n) && |d| == n && KernOnce(s, 0, n)
    ensures how.Ok? && how.s.data == s.data + d && (n > 0 ==> how.addr == Kptov(d[0])) && Valid(how.s.vm)
  {
    KernForetold(s, PresentSlots(s.vm), 0, n, must, 0, how);
    d := KernPages(PresentSlots(s.vm), s.vm.free, n);
    if n > 0 { FirstPage(PresentSlots(s.vm), s.vm.free, n); }
  }

  lemma ServedFrom(s: Sys, n: nat, must: bool, how: Result)
    requires Valid(s.vm) && KernOnce(s, 0, n) && how == PallocKern(s, n, must)
    ensures KernServed(s, how, n, must, KernAnswer(s, 0, n, 0))
  {
    KernService(s, 0, n, must, 0, how, KernAnswer(s, 0, n, 0));
  }

  lemma RangeOf(s: Sys, how: Result, n: nat, must: bool, addr: nat, d: seq<nat>)
    requires Valid(s.vm) && DirectOnly(s.vm.mem) && KernServed(s, how, n, must, addr)
    requires how.Ok? && how.s.data == s.data + d
    ensures DirectOnly(how.s.vm.mem) && (Backed(how.s.vm.mem, d) <==> Consecutive(d))
  {
    var k: nat :| Served(s, how.s, n, k);
    ServedDirect(s, how.s, n, k);
    assert how.s.data[|s.data|..] == d;
    if d != [] { RangeIff(how.s.vm.mem, d); }
  }

  lemma FirstPage(present: set<nat>, free: seq<nat>, n: nat)
    requires n > 0 && free != []
    ensures KernPages(present, free, n) != [] && KernPages(present, free, n)[0] == free[0]
  {
  }

  /** In every state that a run from boot reaches with editable tables. */
  lemma RangeFromBoot(m: Mem, free: seq<nat>, ops: seq<Op>, n: nat, must: bool)
    requires IsBoot(m) && BootFrames(m, free) && AllInRange(BootSys(m, free), ops) && Run(BootSys(m, free), ops).Going?
    requires var q := Run(BootSys(m, free), ops).s; Valid(q.vm) && RoundsGo(PresentSlots(q.vm), q.vm.free, n)
    ensures var q := Run(BootSys(m, free), ops).s; Answers(q, PallocKern(q, n, must), KernPages(PresentSlots(q.vm), q.vm.free, n))
  {
    FramesFromBoot(m, free, ops);
    PallocKernRange(Run(BootSys(m, free), ops).s, n, must);
  }

  lemma ReadyGoes(s: Sys, n: nat)
    requires Ready(s.vm)
    ensures RoundsGo(PresentSlots(s.vm), s.vm.free, n) <==> n <= |s.vm.free|
    ensures n <= |s.vm.free| ==> KernPages(PresentSlots(s.vm), s.vm.free, n) == s.vm.free[..n]
  {
    forall a | a in s.vm.free ensures DirectSlot(a / PGSIZE) in PresentSlots(s.vm) {
      assert Unused(s.vm.mem, a) && Present(s.vm.mem, DirectSlot(a / PGSIZE));
    }
    ReadyPages(PresentSlots(s.vm), s.vm.free, n);
  }

  /** While the pool's direct slots are present: as long as there are n frames, exactly when the first n are consecutive. */
  lemma ReadyRange(s: Sys, n: nat, must: bool)
    requires Ready(s.vm) && DirectOnly(s.vm.mem) && n <= |s.vm.free|
    ensures Answers(s, PallocKern(s, n, must), s.vm.free[..n])
  {
    ReadyGoes(s, n);
    PallocKernRange(s, n, must);
  }

  // ----- init_pool

  /** init_pool does not look for a missing frame, but map_page panics on NO_ADDR: it ends as palloc_kern with F_ASSERT does. */
  lemma {:induction false} PoolIsKern(s: Sys, i: nat, n: nat, ret: nat, how: Result)
    requires PoolLeft(how, s, i, n, ret)
    ensures KernLeft(how, s, i, n, true, ret)
    decreases n - i
  {
    if i < n {
      PoolGoes(how, s, i, n, ret);
      KernGoes(KernLoop(s, i, n, true, ret), s, i, n, true, ret);
      if s.vm.free != [] && KernRound(s).Ok? {
        PoolIsKern(KernRound(s).s, i + 1, n, if i == 0 then KernRound(s).addr else ret, how);
      }
    }
  }

  /** The pool's three pages: their frames and the tables' are at their direct pages, and the first one's address is the answer. */
  ghost predicate PoolServed(s: Sys, how: Result) {
    match how
    case Ok(r, a) => s.vm.free != [] && a == Kptov(s.vm.free[0]) && exists k: nat :: Served(s, r, 3, k)
    case NoMemory(_) => false
    case Halted(h) => h == Panic
  }

  /**
   init_pool, with proper chains: the frames last for its three pages and their tables, or it ends
   in a panic; which, the present slots and the free frames say before the call.
   */
  lemma PoolService(s: Sys)
    requires Valid(s.vm)
    ensures RoundsGo(PresentSlots(s.vm), s.vm.free, 3) <==> KernOnce(s, 0, 3) && InitPool(s).Ok?
    ensures KernOnce(s, 0, 3) ==> PoolServed(s, InitPool(s))
  {
    PoolLoopService(s, POOL_PAGES, InitPool(s));
  }

  lemma PoolLoopService(s: Sys, n: nat, how: Result)
    requires Valid(s.vm) && n > 0 && PoolLeft(how, s, 0, n, 0)
    ensures RoundsGo(PresentSlots(s.vm), s.vm.free, n) <==> KernOnce(s, 0, n) && how.Ok?
    ensures KernOnce(s, 0, n) ==> KernServed(s, how, n, true, Kptov(NextFree(s.vm.free))) && !how.NoMemory?
    ensures how.Ok? ==> s.vm.free != []
  {
    PoolIsKern(s, 0, n, 0, how);
    KernForetold(s, PresentSlots(s.vm), 0, n, true, 0, how);
    if KernOnce(s, 0, n) { KernService(s, 0, n, true, 0, how, KernAnswer(s, 0, n, 0)); }
    PoolGoes(how, s, 0, n, 0);
  }

  /** In a ready state three free frames are enough, and they are its pages. */
  lemma ReadyPool(s: Sys)
    requires Ready(s.vm)
    ensures if |s.vm.free| < 3 then InitPool(s) == Halted(Panic)
            else InitPool(s).Ok? && InitPool(s).addr == Kptov(s.vm.free[0]) && InitPool(s).s.data == s.data + s.vm.free[..3]
  {
    var how, n := InitPool(s), POOL_PAGES;
    PoolService(s);
    PoolIsKern(s, 0, n, 0, how);
    KernReady(s, 0, n);
    KernForetold(s, PresentSlots(s.vm), 0, n, true, 0, how);
    ReadyGoes(s, n);
  }

  // ----- F_ZERO

  lemma {:induction false} ZeroReads(m: Mem, page: nat, n: nat, i: nat)
    requires ZeroPages(m, page, n).Some? && page <= i < page + n
    ensures Translate(m, i).Some? && EmptyRow(ZeroPages(m, page, n).value, Translate(m, i).value)
    decreases n
  {
    var f, r := Translate(m, page).value, ZeroPages(m, page, n).value;
    var m1 := ZeroFrame(m, f);
    forall g, j ensures At(m1, g, j) == if g == f then Entry(false, 0) else At(m, g, j) { ZeroFrameAt(m, f, g, j); }
    if i == page {
      ZeroSound(m1, page + 1, n - 1);
      forall j | 0 <= j < SLOTS ensures !At(r, f, j).present {}
    } else {
      ZeroReads(m1, page + 1, n - 1, i);
    }
  }

  /** Clearing pages is done and moves no page if and only if all of them are mapped, to spare frames. */
  lemma ZeroExact(vm: Vm, page: nat, n: nat)
    requires Valid(vm) && page + n <= PAGES
    ensures ZeroPages(vm.mem, page, n).Some? && SameView(vm.mem, ZeroPages(vm.mem, page, n).value) <==> AllClearable(vm.mem, page, n)
    ensures AllClearable(vm.mem, page, n) ==> Valid(vm.(mem := ZeroPages(vm.mem, page, n).value))
  {
    if AllClearable(vm.mem, page, n) { ZeroKeeps(vm, page, n); }
    if ZeroPages(vm.mem, page, n).Some? && SameView(vm.mem, ZeroPages(vm.mem, page, n).value) {
      ZeroSound(vm.mem, page, n);
      forall i | page <= i < page + n ensures Clearable(vm.mem, i) {
        ZeroReads(vm.mem, page, n, i);
        ClearedSpare(vm, ZeroPages(vm.mem, page, n).value, Translate(vm.mem, i).value);
      }
    }
  }

  lemma ClearedSpare(vm: Vm, r: Mem, f: nat)
    requires Valid(vm) && FewerEntries(vm.mem, r) && SameView(vm.mem, r) && EmptyRow(r, f)
    ensures Spare(vm.mem, f)
  {
    assert Translate(r, PD_PAGE) == Translate(vm.mem, PD_PAGE);
    forall s | 0 <= s < SLOTS && Present(vm.mem, s) && TableOf(vm.mem, s) == f ensures EmptyRow(vm.mem, f) {
      forall j | 0 <= j < SLOTS ensures !At(vm.mem, f, j).present {
        assert Translate(r, s * SLOTS + j) == Translate(vm.mem, s * SLOTS + j);
        assert !At(r, f, j).present;
      }
    }
  }

  /** Memory with the frames from f on cleared, k of them, and nothing else changed. */
  ghost predicate ClearedOnly(m: Mem, r: Mem, f: nat, k: nat) {
    forall g: nat, i: nat {:trigger At(r, g, i)} :: At(r, g, i) == if f <= g < f + k then Entry(false, 0) else At(m, g, i)
  }

  lemma {:induction false} ZeroDirect(m: Mem, page: nat, n: nat)
    requires DirectOnly(m) && KERN_PAGE <= page && page + n <= PAGES && ZeroPages(m, page, n).Some?
    ensures ClearedOnly(m, ZeroPages(m, page, n).value, page - KERN_PAGE, n)
    decreases n
  {
    if n > 0 {
      var f0 := page - KERN_PAGE;
      assert Translate(m, page) in {None, Some(f0)};
      var m1 := ZeroFrame(m, f0);
      forall f, i ensures At(m1, f, i) == if f == f0 then Entry(false, 0) else At(m, f, i) { ZeroFrameAt(m, f0, f, i); }
      FewerDirect(m, m1);
      ZeroDirect(m1, page + 1, n - 1);
    }
  }

  lemma FewerDirect(m: Mem, r: Mem)
    requires DirectOnly(m) && FewerEntries(m, r)
    ensures DirectOnly(r)
  {
    forall p | KERN_PAGE <= p < PAGES ensures Translate(r, p) in {None, Some(p - KERN_PAGE)} {
      assert Translate(m, p) in {None, Some(p - KERN_PAGE)};
    }
  }

  /**
   What F_ZERO does after palloc_kern has answered the direct address of frame f: it clears four
   times the pages handed out, from f on, and moves no page exactly when all of these can be cleared.
   */
  ghost predicate Zeroes(how: Result, zeroed: Result, f: nat, n: nat) {
    && how.Ok? && how.addr == Kptov(f * PGSIZE)
    && (zeroed.Ok? && SameView(how.s.vm.mem, zeroed.s.vm.mem) <==> AllClearable(how.s.vm.mem, KPage(f), MEMSET_FACTOR * n))
    && (AllClearable(how.s.vm.mem, KPage(f), MEMSET_FACTOR * n) ==> Valid(zeroed.s.vm))
    && (zeroed.Ok? ==> ClearedOnly(how.s.vm.mem, zeroed.s.vm.mem, f, MEMSET_FACTOR * n) && zeroed.addr == how.addr)
  }

  lemma ZeroKern(s: Sys, n: nat, must: bool)
    requires Valid(s.vm) && DirectOnly(s.vm.mem) && n > 0 && RoundsGo(PresentSlots(s.vm), s.vm.free, n)
    requires KPage(s.vm.free[0] / PGSIZE) + MEMSET_FACTOR * n <= PAGES
    ensures Zeroes(PallocKern(s, n, must), Memset(PallocKern(s, n, must), n), s.vm.free[0] / PGSIZE, n)
  {
    var how, f := PallocKern(s, n, must), s.vm.free[0] / PGSIZE;
    var d := HandsOut(s, n, must, how);
    FirstPage(PresentSlots(s.vm), s.vm.free, n);
    AnswerKept(s, n, must, how);
    ZeroOf(how, f, n);
  }

  lemma AnswerKept(s: Sys, n: nat, must: bool, how: Result)
    requires Valid(s.vm) && DirectOnly(s.vm.mem) && n > 0 && RoundsGo(PresentSlots(s.vm), s.vm.free, n) && how == PallocKern(s, n, must)
    ensures how.Ok? && Valid(how.s.vm) && DirectOnly(how.s.vm.mem)
    ensures s.vm.free[0] == s.vm.free[0] / PGSIZE * PGSIZE && s.vm.free[0] / PGSIZE < DIRECT_FRAMES
  {
    var d := HandsOut(s, n, must, how);
    PallocKernRange(s, n, must);
    assert Unused(s.vm.mem, s.vm.free[0]);
  }

  lemma ZeroOf(how: Result, f: nat, n: nat)
    requires how.Ok? && Valid(how.s.vm) && DirectOnly(how.s.vm.mem) && how.addr == Kptov(f * PGSIZE)
    requires f < DIRECT_FRAMES && KPage(f) + MEMSET_FACTOR * n <= PAGES
    ensures Zeroes(how, Memset(how, n), f, n)
  {
    KptovPage(f);
    ZeroExact(how.s.vm, KPage(f), MEMSET_FACTOR * n);
    if ZeroPages(how.s.vm.mem, KPage(f), MEMSET_FACTOR * n).Some? { ZeroDirect(how.s.vm.mem, KPage(f), MEMSET_FACTOR * n); }
  }
}
