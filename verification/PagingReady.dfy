/**
 The case the kernel starts from: while every free frame's direct slot is present, a call
 makes at most one table and every chain is proper; while the direct pages themselves are
 mapped, a run changes the pages it names and no others.
 */
module PagingReady {
  import opened Common
  import opened Paging
  import opened PagingAlloc
  import opened PagingRuns

  /** Every free frame can be entered as a table at once. */
  ghost predicate Ready(vm: Vm) {
    && Valid(vm)
    && (forall a {:trigger DirectSlot(a / PGSIZE)} :: a in vm.free ==> Present(vm.mem, DirectSlot(a / PGSIZE)))
  }

  /** With every direct slot present, one new table is always enough. */
  lemma DepthOne(vm: Vm, slot: nat)
    requires Ready(vm) && slot < SLOTS
    ensures Slots(vm.mem, vm.free, slot) == if Present(vm.mem, slot) || vm.free == [] then [] else [slot]
    ensures Ends(vm.mem, vm.free, slot) <==> Present(vm.mem, slot) || vm.free != []
  {
    if vm.free != [] {
      assert Present(vm.mem, DirectSlot(vm.free[0] / PGSIZE));
    }
  }

  lemma RefinesReady(vm: Vm, r: Vm, page: nat, frame: nat)
    requires Ready(vm) && Refines(vm, r, page, frame)
    ensures Ready(r)
  {
    forall a | a in r.free ensures Present(r.mem, DirectSlot(a / PGSIZE)) {
      assert a in vm.free && Unused(vm.mem, a);
      KptovPage(a / PGSIZE);
      assert Present(vm.mem, DirectSlot(a / PGSIZE));
    }
  }

  /** map_page in a ready state: done with at most one new table, or a panic for want of one. */
  lemma MapReady(vm: Vm, pa: nat, va: nat)
    requires Ready(vm) && Mappable(pa, va)
    ensures Once(vm, va)
    ensures var r := MapPage(vm, pa, va); var k := if Present(vm.mem, PdNo(va)) then 0 else 1;
      if k > |vm.free| then r == Panic
      else r.Done? && Refines(vm, r.vm, va / PGSIZE, pa / PGSIZE) && r.vm.free == vm.free[k..] && Ready(r.vm)
  {
    AddressSplit(va);
    DepthOne(vm, PdNo(va));
    MapOnce(vm, pa, va);
    if MapPage(vm, pa, va).Done? { RefinesReady(vm, MapPage(vm, pa, va).vm, va / PGSIZE, pa / PGSIZE); }
  }

  /** No page from KERN_BASE on disappears. */
  ghost predicate High(m: Mem, r: Mem) {
    forall p {:trigger Translate(r, p)} :: KERN_PAGE <= p < PAGES && Translate(m, p).Some? ==> Translate(r, p).Some?
  }

  lemma HighThen(m: Mem, r: Mem, t: Mem)
    requires High(m, r) && High(r, t)
    ensures High(m, t)
  {
    forall p | KERN_PAGE <= p < PAGES && Translate(m, p).Some? ensures Translate(t, p).Some? {
      assert Translate(r, p).Some?;
    }
  }

  lemma RefinesHigh(vm: Vm, r: Vm, page: nat, frame: nat)
    requires Refines(vm, r, page, frame)
    ensures High(vm.mem, r.mem)
  {
  }

  lemma TakeReady(s: Sys)
    requires Ready(s.vm) && s.vm.free != []
    ensures Ready(TakePage(s).vm)
  {
    TakeValid(s);
    forall a | a in TakePage(s).vm.free ensures Present(s.vm.mem, DirectSlot(a / PGSIZE)) { assert a in s.vm.free; }
  }

  /** A frame taken and mapped, as KernRound, HeapRound and init_heap_page do. */
  lemma RoundReady(s: Sys, va: nat)
    requires Ready(s.vm) && s.vm.free != [] && Mappable(s.vm.free[0], va)
    ensures Once(TakePage(s).vm, va)
    ensures match Map(TakePage(s), s.vm.free[0], va)
            case Ok(r, _) => Ready(r.vm) && High(s.vm.mem, r.vm.mem) && r.index == s.index
            case NoMemory(_) => false
            case Halted(how) => how == Panic
  {
    TakeReady(s);
    var q := TakePage(s).vm;
    MapReady(q, s.vm.free[0], va);
    if MapPage(q, s.vm.free[0], va).Done? {
      RefinesHigh(q, MapPage(q, s.vm.free[0], va).vm, va / PGSIZE, s.vm.free[0] / PGSIZE);
    }
  }

  /** What a call leaves of a ready state with memory m. */
  ghost predicate LeavesReady(m: Mem, how: Result) {
    match how
    case Ok(r, _) => Ready(r.vm) && High(m, r.vm.mem)
    case NoMemory(r) => Ready(r.vm) && High(m, r.vm.mem)
    case Halted(h) => h == Panic
  }

  lemma ReadyThen(m: Mem, r: Mem, how: Result)
    requires High(m, r) && LeavesReady(r, how)
    ensures LeavesReady(m, how)
  {
    match how
    case Ok(t, _) => HighThen(m, r, t.vm.mem);
    case NoMemory(t) => HighThen(m, r, t.vm.mem);
    case Halted(_) =>
  }

  lemma KernRoundReady(s: Sys)
    requires Ready(s.vm) && s.vm.free != []
    ensures Once(TakePage(s).vm, Kptov(s.vm.free[0])) && LeavesReady(s.vm.mem, KernRound(s))
    ensures KernRound(s).Ok? ==> KernRound(s).s.made == s.made
  {
    TakeValid(s);
    TakeReady(s);
    RoundReady(s, Kptov(s.vm.free[0]));
    MapReady(TakePage(s).vm, s.vm.free[0], Kptov(s.vm.free[0]));
    NoTableMade(s);
  }

  /** A frame is mapped at its direct page without a new table. */
  lemma NoTableMade(s: Sys)
    requires Ready(s.vm) && s.vm.free != []
    ensures Present(TakePage(s).vm.mem, PdNo(Kptov(s.vm.free[0])))
  {
    var f := s.vm.free[0] / PGSIZE;
    assert Unused(s.vm.mem, s.vm.free[0]) && Present(s.vm.mem, DirectSlot(f));
    KptovPage(f);
    AddressSplit(Kptov(s.vm.free[0]));
    assert s.vm.free[0] == f * PGSIZE;
  }

  lemma HeapRoundReady(s: Sys)
    requires Ready(s.vm) && s.vm.free != [] && s.index < KERN_PAGE
    ensures Once(TakePage(s).vm, s.index * PGSIZE) && LeavesReady(s.vm.mem, HeapRound(s))
    ensures HeapRound(s).Ok? ==> HeapRound(s).s.index == s.index + 1
  {
    TakeValid(s);
    UserMappable(s.vm.free[0], s.index);
    RoundReady(s, s.index * PGSIZE);
  }

  lemma {:induction false} KernReady(s: Sys, i: nat, n: nat)
    requires Ready(s.vm)
    ensures KernOnce(s, i, n)
    decreases n - i
  {
    if i < n && s.vm.free != [] {
      KernRoundReady(s);
      if KernRound(s).Ok? { KernReady(KernRound(s).s, i + 1, n); }
    }
  }

  lemma {:induction false} HeapReady(s: Sys, i: nat, n: nat)
    requires Ready(s.vm) && i <= n && s.index + n - i <= KERN_PAGE
    ensures HeapOnce(s, i, n)
    decreases n - i
  {
    if i < n && s.vm.free != [] {
      HeapRoundReady(s);
      if HeapRound(s).Ok? { HeapReady(HeapRound(s).s, i + 1, n); }
    }
  }

  lemma {:induction false} KernLeavesReady(s: Sys, i: nat, n: nat, must: bool, ret: nat, how: Result)
    requires Ready(s.vm) && KernLeft(how, s, i, n, must, ret)
    ensures LeavesReady(s.vm.mem, how) && (how.Ok? ==> how.s.made == s.made)
    decreases n - i
  {
    if i < n {
      KernGoes(how, s, i, n, must, ret);
      if s.vm.free != [] {
        KernRoundReady(s);
        if KernRound(s).Ok? {
          KernLeavesReady(KernRound(s).s, i + 1, n, must, if i == 0 then KernRound(s).addr else ret, how);
          ReadyThen(s.vm.mem, KernRound(s).s.vm.mem, how);
        }
      }
    }
  }

  lemma {:induction false} HeapLeavesReady(s: Sys, i: nat, n: nat, must: bool, ret: nat, how: Result)
    requires Ready(s.vm) && HeapLeft(how, s, i, n, must, ret) && (i < n ==> s.index + n - i <= KERN_PAGE)
    ensures LeavesReady(s.vm.mem, how)
    decreases n - i
  {
    if i < n {
      HeapGoes(how, s, i, n, must, ret);
      if s.vm.free != [] {
        HeapRoundReady(s);
        if HeapRound(s).Ok? {
          HeapLeavesReady(HeapRound(s).s, i + 1, n, must, if i == 0 then HeapRound(s).addr else ret, how);
          ReadyThen(s.vm.mem, HeapRound(s).s.vm.mem, how);
        }
      }
    }
  }

  lemma {:induction false} PoolLeavesReady(s: Sys, i: nat, n: nat, ret: nat, how: Result)
    requires Ready(s.vm) && PoolLeft(how, s, i, n, ret)
    ensures LeavesReady(s.vm.mem, how)
    decreases n - i
  {
    if i < n {
      PoolGoes(how, s, i, n, ret);
      if s.vm.free != [] {
        KernRoundReady(s);
        if KernRound(s).Ok? {
          PoolLeavesReady(KernRound(s).s, i + 1, n, if i == 0 then KernRound(s).addr else ret, how);
          ReadyThen(s.vm.mem, KernRound(s).s.vm.mem, how);
        }
      }
    }
  }

  /** What is left of being proper: a heap and unmapped pages below KERN_BASE, and pages to clear that can be cleared. */
  ghost predicate Simple(s: Sys, op: Op) {
    match op
    case Heap(n, _) => s.index + n <= KERN_PAGE
    case MapOne(pa, va) => Mappable(pa, va)
    case UnmapOne(va) => va < KERN_BASE
    case Zero(_, _) => Proper(s, op)
    case _ => true
  }

  /** In a ready state every simple call is proper. */
  lemma ReadyProper(s: Sys, op: Op)
    requires Ready(s.vm) && Simple(s, op)
    ensures Proper(s, op)
  {
    match op
    case Kern(n, _) => KernReady(s, 0, n);
    case Heap(n, _) => HeapReady(s, 0, n);
    case Pool => KernReady(s, 0, POOL_PAGES);
    case HeapPage =>
      if s.vm.free != [] {
        TakeValid(s);
        UserMappable(s.vm.free[0], 0);
        RoundReady(s, 0);
      }
    case MapOne(pa, va) => MapReady(s.vm, pa, va);
    case UnmapOne(va) => UserPageNotCritical(s.vm.mem, va / PGSIZE);
    case _ =>
  }

  /** The kernel's slots stay present, so ready frames stay ready. */
  lemma FewerReady(vm: Vm, v: Vm)
    requires Ready(vm) && FewerTables(vm, v)
    ensures Ready(v)
  {
    forall a | a in v.free ensures Present(v.mem, DirectSlot(a / PGSIZE)) {
      assert Unused(vm.mem, a);
      KptovPage(a / PGSIZE);
      assert At(v.mem, PD_FRAME, DirectSlot(a / PGSIZE)) == At(vm.mem, PD_FRAME, DirectSlot(a / PGSIZE));
    }
  }

  lemma UnmapLeavesReady(s: Sys, va: nat)
    requires Ready(s.vm) && va < KERN_BASE
    ensures LeavesReady(s.vm.mem, Do(s, UnmapOne(va)))
  {
    if va > 0 {
      UnmapUserPage(s.vm, va);
      UnmapPageRefines(s.vm, va);
      var v := UnmapPage(s.vm, va).1.vm;
      forall t | 0 <= t < SLOTS ensures At(v.mem, PD_FRAME, t) == At(s.vm.mem, PD_FRAME, t) { DirectoryKept(s.vm, va, t); }
      FewerReady(s.vm, v);
    }
  }

  lemma OtherLeavesReady(s: Sys, all: seq<nat>, op: Op)
    requires Inv(s, all) && Ready(s.vm) && Simple(s, op) && (op.ClearLow? || op.Zero?)
    ensures LeavesReady(s.vm.mem, Do(s, op))
  {
    match op
    case ClearLow =>
      ClearIdentityKeeps(s.vm, 0);
      FewerReady(s.vm, ClearIdentity(s.vm, 0).vm);
    case Zero(page, n) =>
      ZeroInv(s, all, page, n);
      FewerReady(s.vm, Zeroed(s.vm, page, n).vm);
  }

  /** A simple call leaves a ready state ready, or panics. */
  lemma DoReady(s: Sys, all: seq<nat>, op: Op)
    requires Inv(s, all) && Ready(s.vm) && Simple(s, op)
    ensures LeavesReady(s.vm.mem, Do(s, op))
  {
    match op
    case Kern(n, must) => KernLeavesReady(s, 0, n, must, 0, PallocKern(s, n, must));
    case Heap(n, must) => HeapLeavesReady(s, 0, n, must, 0, PallocHeap(s, n, must));
    case Pool => PoolLeavesReady(s, 0, POOL_PAGES, 0, InitPool(s));
    case HeapPage =>
      if s.vm.free != [] {
        TakeValid(s);
        UserMappable(s.vm.free[0], 0);
        RoundReady(s, 0);
      }
    case MapOne(pa, va) =>
      MapReady(s.vm, pa, va);
      if Do(s, op).Ok? { RefinesHigh(s.vm, Do(s, op).s.vm, va / PGSIZE, pa / PGSIZE); }
    case UnmapOne(va) => UnmapLeavesReady(s, va);
    case _ => OtherLeavesReady(s, all, op);
  }

  ghost predicate AllSimple(s: Sys, ops: seq<Op>)
    decreases |ops|
  {
    ops == [] ||
    var n := |ops| - 1;
    AllSimple(s, ops[..n]) && (Run(s, ops[..n]).Going? ==> Simple(Run(s, ops[..n]).s, ops[n]))
  }

  /**
   From a ready state, over every run of simple calls: each of them is proper, the state stays
   ready, no page from KERN_BASE on disappears, and a call halts only by a panic.
   */
  lemma {:induction false} ReadyOverRuns(s: Sys, ops: seq<Op>)
    requires Ready(s.vm) && s.data == [] && s.made == [] && AllSimple(s, ops)
    ensures AllProper(s, ops)
    ensures match Run(s, ops)
            case Going(r) => Ready(r.vm) && High(s.vm.mem, r.vm.mem) && Inv(r, s.vm.free)
            case Stopped(how) => how == Panic
    decreases |ops|
  {
    if ops != [] {
      var n := |ops| - 1;
      ReadyOverRuns(s, ops[..n]);
      if Run(s, ops[..n]).Going? {
        var q := Run(s, ops[..n]).s;
        ReadyProper(q, ops[n]);
        DoReady(q, s.vm.free, ops[n]);
        ReadyThen(s.vm.mem, q.vm.mem, Do(q, ops[n]));
        DoInv(q, s.vm.free, ops[n]);
      }
    }
  }

  // ----- runs of map_page and unmap_page

  /** Every free frame is already reachable at its direct page. */
  ghost predicate DirectMapped(vm: Vm) {
    forall a {:trigger Unused(vm.mem, a)} :: a in vm.free ==> Translate(vm.mem, KPage(a / PGSIZE)) == Some(a / PGSIZE)
  }

  lemma DirectReady(vm: Vm)
    requires Valid(vm) && DirectMapped(vm)
    ensures Ready(vm)
  {
    forall a | a in vm.free ensures Present(vm.mem, DirectSlot(a / PGSIZE)) { assert Unused(vm.mem, a); }
  }

  /** What an operation says of a page that it names. */
  function Names(op: Op, p: nat): Option<Option<nat>> {
    match op
    case MapOne(pa, va) => if p == va / PGSIZE then Some(Some(pa / PGSIZE)) else None
    case UnmapOne(va) => if va != 0 && p == va / PGSIZE then Some(None) else None
    case ClearLow => if p / SLOTS < IDENTITY_SLOTS then Some(None) else None
    case _ => None
  }

  function Named(op: Op, before: Option<nat>, p: nat): Option<nat> {
    match Names(op, p)
    case Some(x) => x
    case None => before
  }

  function Plain(start: Option<nat>, ops: seq<Op>, p: nat): Option<nat>
    decreases |ops|
  {
    if ops == [] then start else Named(ops[|ops| - 1], Plain(start, ops[..|ops| - 1], p), p)
  }

  ghost predicate OnlyNamed(m: Mem, r: Mem, op: Op) {
    forall p {:trigger Translate(r, p)} :: 0 <= p < PAGES ==> Translate(r, p) == Named(op, Translate(m, p), p)
  }

  /** With at most one new table, already at its direct page, a map_page puts its own page alone elsewhere. */
  lemma PutNamed(vm: Vm, pa: nat, va: nat, p: nat)
    requires Ready(vm) && DirectMapped(vm) && va < ADDRESSES && p < PAGES
    requires EndsIn(BookOf(vm).tables.Keys, vm.free, PdNo(va))
    ensures After(BookOf(vm), MapOne(pa, va), Translate(vm.mem, p), p) == Named(MapOne(pa, va), Translate(vm.mem, p), p)
  {
    AddressSplit(va);
    SlotsMatch(vm, vm.free, PdNo(va));
    DepthOne(vm, PdNo(va));
    if vm.free != [] {
      assert Unused(vm.mem, vm.free[0]);
    }
  }

  lemma EditsNamed(vm: Vm, r: Mem, op: Op)
    requires Ready(vm) && DirectMapped(vm) && Edited(vm.mem, r, BookOf(vm), op) && EditsInRange(op) && Goes(BookOf(vm), op)
    ensures OnlyNamed(vm.mem, r, op)
  {
    forall p | 0 <= p < PAGES ensures Translate(r, p) == Named(op, Translate(vm.mem, p), p) {
      assert Translate(r, p) == After(BookOf(vm), op, Translate(vm.mem, p), p);
      if op.MapOne? { PutNamed(vm, op.pa, op.va, p); }
    }
  }

  /** Edits whose unmapped pages are below KERN_BASE. */
  predicate LowEdits(op: Op) { EditsInRange(op) && (op.UnmapOne? ==> op.va < KERN_BASE) }

  /** No such edit takes a free frame's direct page away. */
  lemma StillDirect(vm: Vm, r: Vm, op: Op)
    requires Valid(vm) && DirectMapped(vm) && OnlyNamed(vm.mem, r.mem, op) && LowEdits(op)
    requires forall a :: a in r.free ==> a in vm.free
    ensures DirectMapped(r)
  {
    forall a | a in r.free ensures Translate(r.mem, KPage(a / PGSIZE)) == Some(a / PGSIZE) {
      assert Unused(vm.mem, a);
      var p := KPage(a / PGSIZE);
      KptovPage(a / PGSIZE);
      if op.MapOne? && op.va / PGSIZE == p { KptovPage(op.pa / PGSIZE); }
      assert Translate(r.mem, p) == Named(op, Translate(vm.mem, p), p);
    }
  }

  lemma NextBookFree(b: Book, op: Op, a: nat)
    requires a in NextBook(b, op).free
    ensures a in b.free
  {
  }

  /** In a ready state a low edit goes, or panics. */
  lemma LowEditGoes(q: Sys, op: Op)
    requires Ready(q.vm) && LowEdits(op)
    ensures Do(q, op).Ok? ==> Goes(BookOf(q.vm), op)
    ensures !Do(q, op).NoMemory? && (Do(q, op).Halted? ==> Do(q, op).how == Panic)
  {
    OneEdit(q, op);
    match op
    case MapOne(pa, va) => MapReady(q.vm, pa, va);
    case UnmapOne(va) => UnmapLeavesReady(q, va);
    case ClearLow => ClearIdentityKeeps(q.vm, 0);
  }

  lemma PlainStep(q: Sys, op: Op)
    requires Ready(q.vm) && DirectMapped(q.vm) && LowEdits(op) && Do(q, op).Ok?
    ensures Ready(Do(q, op).s.vm) && DirectMapped(Do(q, op).s.vm) && OnlyNamed(q.vm.mem, Do(q, op).s.vm.mem, op)
  {
    LowEditGoes(q, op);
    OneEdit(q, op);
    var r := Do(q, op).s.vm;
    EditsNamed(q.vm, r.mem, op);
    forall a | a in r.free ensures a in q.vm.free { NextBookFree(BookOf(q.vm), op, a); }
    StillDirect(q.vm, r, op);
    DirectReady(r);
  }

  /**
   From a start with every free frame at its direct page, a run changes the pages it names
   alone, and stops only by a panic.
   */
  lemma {:induction false} PlainOverRuns(s: Sys, ops: seq<Op>)
    requires Valid(s.vm) && DirectMapped(s.vm) && (forall op :: op in ops ==> LowEdits(op))
    ensures match Run(s, ops)
            case Going(r) => Ready(r.vm) && DirectMapped(r.vm) && PlainAfter(s.vm.mem, r.vm.mem, ops)
            case Stopped(how) => how == Panic
    decreases |ops|
  {
    DirectReady(s.vm);
    if ops != [] {
      var n := |ops| - 1;
      PlainOverRuns(s, ops[..n]);
      assert LowEdits(ops[n]);
      if Run(s, ops[..n]).Going? {
        var q := Run(s, ops[..n]).s;
        LowEditGoes(q, ops[n]);
        if Do(q, ops[n]).Ok? { PlainStep(q, ops[n]); }
      }
    }
  }

  ghost predicate PlainAfter(m: Mem, r: Mem, ops: seq<Op>) {
    forall p {:trigger Plain(Translate(m, p), ops, p)} :: 0 <= p < PAGES ==> Translate(r, p) == Plain(Translate(m, p), ops, p)
  }
}
