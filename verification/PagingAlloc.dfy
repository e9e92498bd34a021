/**
 The allocators over the frame list and map_page, their runs, and what keeps the tables
 editable over a run.  A call is proper when no chain of new tables that it makes meets a
 directory slot twice: but for a call that takes the frame it maps for a table itself, that
 is exactly when the tables stay editable (PagingOutcome.MapPageExact).
 */
module PagingAlloc {
  import opened Common
  import opened Paging
  import PagingExact

  /** `data` and `made` are history: the frames handed out as pages, and as page tables. */
  datatype Sys = Sys(vm: Vm, index: nat, data: seq<nat>, made: seq<nat>)

  /** Ok: the allocator's return value; NoMemory: it returned NO_ADDR; Halted: a panic or a fault. */
  datatype Result = Ok(s: Sys, addr: nat) | NoMemory(s: Sys) | Halted(how: Outcome)

  /** get_next_free_physical_page for a page. */
  function TakePage(s: Sys): Sys
    requires s.vm.free != []
  {
    s.(vm := s.vm.(free := s.vm.free[1..]), data := s.data + [s.vm.free[0]])
  }

  function Map(s: Sys, pa: nat, va: nat): Result {
    match MapPage(s.vm, pa, va)
    case Done(v) =>
      var n := if |v.free| <= |s.vm.free| then |s.vm.free| - |v.free| else 0;
      Ok(s.(vm := v, made := s.made + s.vm.free[..n]), va)
    case failed => Halted(failed)
  }

  /** One page for palloc_kern or init_pool: the next frame, mapped at its direct page. */
  function KernRound(s: Sys): Result
    requires s.vm.free != []
  {
    Map(TakePage(s), s.vm.free[0], Kptov(s.vm.free[0]))
  }

  /** One page for palloc_heap: the next frame, mapped at the end of the heap. */
  function HeapRound(s: Sys): Result
    requires s.vm.free != []
  {
    match Map(TakePage(s), s.vm.free[0], s.index * PGSIZE % ADDRESSES)
    case Ok(s2, va) => Ok(s2.(index := s.index + 1), va)
    case halted => halted
  }

  /** palloc_kern's loop from its i-th round on; `ret` is return_addr. */
  function KernLoop(s: Sys, i: nat, n: nat, must: bool, ret: nat): Result
    decreases n - i
  {
    if i >= n then Ok(s, ret)
    else if s.vm.free == [] then (if must then Halted(Panic) else NoMemory(s))
    else
      match KernRound(s)
      case Ok(s2, va) => KernLoop(s2, i + 1, n, must, if i == 0 then va else ret)
      case halted => halted
  }

  function PallocKern(s: Sys, n: nat, must: bool): Result { KernLoop(s, 0, n, must, 0) }

  /** palloc_heap's loop, for the kernel pool. */
  function HeapLoop(s: Sys, i: nat, n: nat, must: bool, ret: nat): Result
    decreases n - i
  {
    if i >= n then Ok(s, ret)
    else if s.vm.free == [] then (if must then Halted(Panic) else NoMemory(s))
    else
      match HeapRound(s)
      case Ok(s2, va) => HeapLoop(s2, i + 1, n, must, if i == 0 then va else ret)
      case halted => halted
  }

  function PallocHeap(s: Sys, n: nat, must: bool): Result { HeapLoop(s, 0, n, must, 0) }

  const POOL_PAGES: nat := 3   // sizeof(pool) is 8204

  /** init_pool's loop: a missing frame is not looked for, map_page panics on NO_ADDR. */
  function PoolLoop(s: Sys, i: nat, n: nat, ret: nat): Result
    decreases n - i
  {
    if i >= n then Ok(s, ret)
    else if s.vm.free == [] then Halted(MapPage(s.vm, NO_ADDR, Kptov(NO_ADDR)))
    else
      match KernRound(s)
      case Ok(s2, va) => PoolLoop(s2, i + 1, n, if i == 0 then va else ret)
      case halted => halted
  }

  function InitPool(s: Sys): Result { PoolLoop(s, 0, POOL_PAGES, 0) }

  function InitHeapPage(s: Sys): Result {
    if s.index != 0 then Halted(Panic)
    else if s.vm.free == [] then Halted(MapPage(s.vm, NO_ADDR, 0))
    else
      match Map(TakePage(s), s.vm.free[0], 0)
      case Ok(s2, a) => Ok(s2.(index := 1), a)
      case halted => halted
  }

  const IDENTITY_SLOTS: nat := 6

  /** clear_identity_pages from its i-th round on. */
  function ClearIdentity(vm: Vm, i: nat): Outcome
    decreases IDENTITY_SLOTS - i
  {
    if i >= IDENTITY_SLOTS then Done(vm)
    else
      match Load(vm.mem, PD_PAGE, i)
      case None => Fault
      case Some(pde) =>
        match Store(vm.mem, PD_PAGE, i, pde.(present := false))
        case None => Fault
        case Some(m) => ClearIdentity(vm.(mem := m), i + 1)
  }

  /** Memory with one frame cleared. */
  function ZeroFrame(m: Mem, frame: nat): Mem { map k | k in m && k.0 != frame :: m[k] }

  /** Setting n pages from `page` on to zero; None is a page fault. */
  function ZeroPages(m: Mem, page: nat, n: nat): Option<Mem>
    decreases n
  {
    if n == 0 then Some(m)
    else
      match Translate(m, page)
      case None => None
      case Some(frame) => ZeroPages(ZeroFrame(m, frame), page + 1, n - 1)
  }

  /** memset counts words of four bytes, while palloc_kern and palloc_heap give it a number of bytes. */
  const MEMSET_FACTOR: nat := 4

  /** The end of palloc_kern and palloc_heap with F_ZERO: memset of n pages' bytes from the answer. */
  function Memset(how: Result, n: nat): Result {
    match how
    case Ok(r, a) =>
      (match ZeroPages(r.vm.mem, a / PGSIZE, MEMSET_FACTOR * n)
       case Some(m) => Ok(r.(vm := r.vm.(mem := m)), a)
       case None => Halted(Fault))
    case other => other
  }

  // ----- the loops, one round at a time

  /** The rounds of palloc_kern that are left decide how it ends. */
  ghost predicate KernLeft(all: Result, s: Sys, i: nat, n: nat, must: bool, ret: nat) { all == KernLoop(s, i, n, must, ret) }

  lemma KernGoes(all: Result, s: Sys, i: nat, n: nat, must: bool, ret: nat)
    requires KernLeft(all, s, i, n, must, ret) && i < n
    ensures s.vm.free == [] ==> all == if must then Halted(Panic) else NoMemory(s)
    ensures s.vm.free != [] ==>
      if KernRound(s).Ok? then KernLeft(all, KernRound(s).s, i + 1, n, must, if i == 0 then KernRound(s).addr else ret)
      else all == KernRound(s)
  {
  }

  ghost predicate HeapLeft(all: Result, s: Sys, i: nat, n: nat, must: bool, ret: nat) { all == HeapLoop(s, i, n, must, ret) }

  lemma HeapGoes(all: Result, s: Sys, i: nat, n: nat, must: bool, ret: nat)
    requires HeapLeft(all, s, i, n, must, ret) && i < n
    ensures s.vm.free == [] ==> all == if must then Halted(Panic) else NoMemory(s)
    ensures s.vm.free != [] ==>
      if HeapRound(s).Ok? then HeapLeft(all, HeapRound(s).s, i + 1, n, must, if i == 0 then HeapRound(s).addr else ret)
      else all == HeapRound(s)
  {
  }

  /** The rounds of init_pool that are left decide how it ends. */
  ghost predicate PoolLeft(all: Result, s: Sys, i: nat, n: nat, ret: nat) { all == PoolLoop(s, i, n, ret) }

  lemma PoolGoes(all: Result, s: Sys, i: nat, n: nat, ret: nat)
    requires PoolLeft(all, s, i, n, ret) && i < n
    ensures s.vm.free == [] ==> all == Halted(MapPage(s.vm, NO_ADDR, Kptov(NO_ADDR)))
    ensures s.vm.free != [] ==>
      if KernRound(s).Ok? then PoolLeft(all, KernRound(s).s, i + 1, n, if i == 0 then KernRound(s).addr else ret)
      else all == KernRound(s)
  {
  }

  // ----- the invariant

  /** map_page's chain of new tables meets no directory slot twice. */
  ghost predicate Once(vm: Vm, va: nat) {
    NoDup(Slots(vm.mem, vm.free, PdNo(va)))
  }

  /**
   Of the frames of `all`, each is still free, or was handed out once as a page, or once
   as a table; and no page is the table of a present directory slot.
   */
  ghost predicate Inv(s: Sys, all: seq<nat>) {
    && Valid(s.vm) && NoDup(all)
    && multiset(s.data) + multiset(s.made) + multiset(s.vm.free) == multiset(all)
    && (forall a {:trigger Page(s.vm.mem, a)} :: a in s.data ==> Page(s.vm.mem, a))
  }

  /** A frame handed out as a page: no table. */
  ghost predicate Page(m: Mem, a: nat) {
    && a % PGSIZE == 0 && a / PGSIZE < DIRECT_FRAMES && a / PGSIZE != PD_FRAME
    && (forall s {:trigger TableOf(m, s)} :: 0 <= s < SLOTS && Present(m, s) ==> TableOf(m, s) != a / PGSIZE)
  }

  predicate Mappable(pa: nat, va: nat) {
    && pa < ADDRESSES && va < ADDRESSES && pa % PGSIZE == 0 && va % PGSIZE == 0
    && Harmless(va / PGSIZE, Entry(true, pa / PGSIZE))
  }

  /** A proper map_page does its one update, or panics because its chain does not end before the frames do. */
  lemma MapOnce(vm: Vm, pa: nat, va: nat)
    requires Valid(vm) && Mappable(pa, va) && Once(vm, va)
    ensures var r := MapPage(vm, pa, va);
      if Ends(vm.mem, vm.free, PdNo(va)) then r.Done? && Refines(vm, r.vm, va / PGSIZE, pa / PGSIZE) else r == Panic
  {
    if Ends(vm.mem, vm.free, PdNo(va)) {
      MapPageRefines(vm, pa, va);
    } else {
      forall a | a in vm.free ensures a % PGSIZE == 0 && a / PGSIZE < DIRECT_FRAMES { assert Unused(vm.mem, a); }
      PagingExact.ExhaustionPanics(vm, pa, va);
    }
  }

  /** No frame is in two places. */
  lemma HandedOnce(s: Sys, all: seq<nat>, a: nat)
    requires Inv(s, all)
    ensures a in s.data ==> a !in s.vm.free && a !in s.made
    ensures a in s.made ==> a !in s.vm.free
    ensures a in s.vm.free ==> a in all
  {
    NoDupOnce(all, a);
    assert multiset(all)[a] == multiset(s.data)[a] + multiset(s.made)[a] + multiset(s.vm.free)[a];
  }

  /** Pages stay pages: new tables come from the free frames. */
  lemma RefinesPages(s: Sys, all: seq<nat>, r: Vm, page: nat, frame: nat, a: nat)
    requires Inv(s, all) && Refines(s.vm, r, page, frame) && a in s.data
    ensures Page(r.mem, a)
  {
    HandedOnce(s, all, a);
    assert Page(s.vm.mem, a);
    forall t | 0 <= t < SLOTS && Present(r.mem, t) ensures TableOf(r.mem, t) != a / PGSIZE {
      if !Present(s.vm.mem, t) {
        assert TableOf(r.mem, t) * PGSIZE in s.vm.free;
      }
    }
  }

  /** A successful map_page takes the frames of its chain from the front, as tables. */
  lemma MapTakes(s: Sys, pa: nat, va: nat)
    requires Valid(s.vm) && Mappable(pa, va) && Once(s.vm, va)
    ensures match Map(s, pa, va)
            case Ok(r, a) =>
              var k := |Slots(s.vm.mem, s.vm.free, PdNo(va))|;
              && Ends(s.vm.mem, s.vm.free, PdNo(va)) && Refines(s.vm, r.vm, va / PGSIZE, pa / PGSIZE)
              && k <= |s.vm.free| && r.vm.free == s.vm.free[k..] && r.made == s.made + s.vm.free[..k]
              && r.data == s.data && r.index == s.index && a == va
            case NoMemory(_) => false
            case Halted(how) => how == Panic && !Ends(s.vm.mem, s.vm.free, PdNo(va))
  {
    MapOnce(s.vm, pa, va);
    AddressSplit(va);
  }

  lemma MapInv(s: Sys, all: seq<nat>, pa: nat, va: nat)
    requires Inv(s, all) && Mappable(pa, va) && Once(s.vm, va)
    ensures match Map(s, pa, va)
            case Ok(r, _) => Inv(r, all) && r.data == s.data && r.index == s.index
            case NoMemory(_) => false
            case Halted(how) => how == Panic && !Ends(s.vm.mem, s.vm.free, PdNo(va))
  {
    MapTakes(s, pa, va);
    if Map(s, pa, va).Ok? {
      MovedInv(s, all, Map(s, pa, va).s, |Slots(s.vm.mem, s.vm.free, PdNo(va))|, va / PGSIZE, pa / PGSIZE);
    }
  }

  lemma MovedInv(s: Sys, all: seq<nat>, r: Sys, k: nat, page: nat, frame: nat)
    requires Inv(s, all) && Refines(s.vm, r.vm, page, frame) && k <= |s.vm.free|
    requires r.vm.free == s.vm.free[k..] && r.made == s.made + s.vm.free[..k] && r.data == s.data
    ensures Inv(r, all)
  {
    assert s.vm.free == s.vm.free[..k] + s.vm.free[k..];
    forall a | a in r.data ensures Page(r.vm.mem, a) { RefinesPages(s, all, r.vm, page, frame, a); }
  }

  lemma TakeValid(s: Sys)
    requires Valid(s.vm) && s.vm.free != []
    ensures Valid(TakePage(s).vm) && Mappable(s.vm.free[0], Kptov(s.vm.free[0]))
    ensures s.vm.free[0] % PGSIZE == 0 && s.vm.free[0] / PGSIZE < DIRECT_FRAMES
  {
    var a, r := s.vm.free[0], TakePage(s);
    assert s.vm.free == [a] + r.vm.free;
    assert Unused(s.vm.mem, a);
    KptovPage(a / PGSIZE);
    assert a == a / PGSIZE * PGSIZE;
    NoDupTail(a, r.vm.free);
    forall b | b in r.vm.free ensures Unused(r.vm.mem, b) { assert b in s.vm.free; }
  }

  lemma TakeInv(s: Sys, all: seq<nat>)
    requires Inv(s, all) && s.vm.free != []
    ensures Inv(TakePage(s), all) && s.vm.free[0] in all
  {
    var a, r := s.vm.free[0], TakePage(s);
    TakeValid(s);
    assert s.vm.free == [a] + r.vm.free;
    assert Unused(s.vm.mem, a);
    HandedOnce(s, all, a);
    forall b | b in r.data ensures Page(r.vm.mem, b) { assert b != a ==> Page(s.vm.mem, b); }
  }

  // ----- proper calls

  /** Every page that palloc_kern maps from its i-th round on has a proper chain. */
  ghost predicate KernOnce(s: Sys, i: nat, n: nat)
    decreases n - i
  {
    i < n && s.vm.free != [] ==>
      && Once(TakePage(s).vm, Kptov(s.vm.free[0]))
      && (KernRound(s).Ok? ==> KernOnce(KernRound(s).s, i + 1, n))
  }

  /** The same for palloc_heap, whose pages stay below KERN_BASE. */
  ghost predicate HeapOnce(s: Sys, i: nat, n: nat)
    decreases n - i
  {
    i < n && s.vm.free != [] ==>
      && s.index < KERN_PAGE && Once(TakePage(s).vm, s.index * PGSIZE)
      && (HeapRound(s).Ok? ==> HeapOnce(HeapRound(s).s, i + 1, n))
  }

  // ----- every allocator keeps it

  /** What an allocator's result promises about the frames. */
  ghost predicate Kept(r: Result, all: seq<nat>) {
    match r
    case Ok(s, _) => Inv(s, all)
    case NoMemory(s) => Inv(s, all) && s.vm.free == []
    case Halted(how) => how == Panic
  }

  lemma KernRoundInv(s: Sys, all: seq<nat>)
    requires Inv(s, all) && s.vm.free != [] && Once(TakePage(s).vm, Kptov(s.vm.free[0]))
    ensures !KernRound(s).NoMemory? && Kept(KernRound(s), all)
  {
    TakeInv(s, all);
    TakeValid(s);
    MapInv(TakePage(s), all, s.vm.free[0], Kptov(s.vm.free[0]));
  }

  lemma {:induction false} KernLoopInv(s: Sys, all: seq<nat>, i: nat, n: nat, must: bool, ret: nat)
    requires Inv(s, all) && KernOnce(s, i, n)
    ensures Kept(KernLoop(s, i, n, must, ret), all)
    decreases n - i
  {
    if i < n && s.vm.free != [] {
      KernRoundInv(s, all);
      match KernRound(s)
      case Ok(r, va) => KernLoopInv(r, all, i + 1, n, must, if i == 0 then va else ret);
      case _ =>
    }
  }

  lemma UserMappable(pa: nat, index: nat)
    requires pa < ADDRESSES && pa % PGSIZE == 0 && index < KERN_PAGE
    ensures index * PGSIZE % ADDRESSES == index * PGSIZE && index * PGSIZE / PGSIZE == index
    ensures Mappable(pa, index * PGSIZE)
  {
  }

  lemma HeapRoundInv(s: Sys, all: seq<nat>)
    requires Inv(s, all) && s.vm.free != [] && s.index < KERN_PAGE && Once(TakePage(s).vm, s.index * PGSIZE)
    ensures !HeapRound(s).NoMemory? && Kept(HeapRound(s), all)
  {
    TakeInv(s, all);
    TakeValid(s);
    UserMappable(s.vm.free[0], s.index);
    MapInv(TakePage(s), all, s.vm.free[0], s.index * PGSIZE);
  }

  lemma {:induction false} HeapLoopInv(s: Sys, all: seq<nat>, i: nat, n: nat, must: bool, ret: nat)
    requires Inv(s, all) && HeapOnce(s, i, n)
    ensures Kept(HeapLoop(s, i, n, must, ret), all)
    decreases n - i
  {
    if i < n && s.vm.free != [] {
      HeapRoundInv(s, all);
      match HeapRound(s)
      case Ok(r, va) => HeapLoopInv(r, all, i + 1, n, must, if i == 0 then va else ret);
      case _ =>
    }
  }

  lemma {:induction false} PoolLoopInv(s: Sys, all: seq<nat>, i: nat, n: nat, ret: nat)
    requires Inv(s, all) && KernOnce(s, i, n)
    ensures Kept(PoolLoop(s, i, n, ret), all)
    decreases n - i
  {
    if i < n && s.vm.free != [] {
      KernRoundInv(s, all);
      match KernRound(s)
      case Ok(r, va) => PoolLoopInv(r, all, i + 1, n, if i == 0 then va else ret);
      case _ =>
    }
  }

  lemma InitHeapPageInv(s: Sys, all: seq<nat>)
    requires Inv(s, all) && (s.vm.free != [] ==> Once(TakePage(s).vm, 0))
    ensures Kept(InitHeapPage(s), all)
  {
    if s.index == 0 && s.vm.free != [] {
      TakeInv(s, all);
      TakeValid(s);
      UserMappable(s.vm.free[0], 0);
      MapInv(TakePage(s), all, s.vm.free[0], 0);
    }
  }

  // ----- whole runs

  datatype Op =
    | Kern(n: nat, must: bool) | Heap(n: nat, must: bool) | Pool | HeapPage
    | MapOne(pa: nat, va: nat) | UnmapOne(va: nat) | ClearLow | Zero(page: nat, n: nat)

  function Do(s: Sys, op: Op): Result {
    match op
    case Kern(n, must) => PallocKern(s, n, must)
    case Heap(n, must) => PallocHeap(s, n, must)
    case Pool => InitPool(s)
    case HeapPage => InitHeapPage(s)
    case MapOne(pa, va) => Map(s, pa, va)
    case UnmapOne(va) => Became(s, UnmapPage(s.vm, va).1)
    case ClearLow => Became(s, ClearIdentity(s.vm, 0))
    case Zero(page, n) => Became(s, Zeroed(s.vm, page, n))
  }

  function Zeroed(vm: Vm, page: nat, n: nat): Outcome {
    match ZeroPages(vm.mem, page, n)
    case Some(m) => Done(vm.(mem := m))
    case None => Fault
  }

  function Became(s: Sys, how: Outcome): Result {
    match how
    case Done(v) => Ok(s.(vm := v), 0)
    case failed => Halted(failed)
  }

  /** Where a run is: going on in a state, or stopped by a panic or a fault. */
  datatype End = Going(s: Sys) | Stopped(how: Outcome)

  function Run(s: Sys, ops: seq<Op>): End
    decreases |ops|
  {
    if ops == [] then Going(s)
    else
      match Run(s, ops[..|ops| - 1])
      case Going(q) => Left(Do(q, ops[|ops| - 1]))
      case stopped => stopped
  }

  function Left(how: Result): End {
    match how
    case Ok(r, _) => Going(r)
    case NoMemory(r) => Going(r)
    case Halted(h) => Stopped(h)
  }

  // ----- runs that keep the tables editable

  /**
   The calls that map user pages below KERN_BASE and frames at their direct pages, with chains
   of new tables that meet no slot twice, unmap no page through which tables are edited, and
   clear pages that can be cleared.
   */
  ghost predicate Proper(s: Sys, op: Op) {
    match op
    case Kern(n, _) => KernOnce(s, 0, n)
    case Heap(n, _) => HeapOnce(s, 0, n)
    case Pool => KernOnce(s, 0, POOL_PAGES)
    case HeapPage => s.vm.free != [] ==> Once(TakePage(s).vm, 0)
    case MapOne(pa, va) => Mappable(pa, va) && Once(s.vm, va)
    case UnmapOne(va) => va < ADDRESSES && !Critical(s.vm.mem, va / PGSIZE)
    case ClearLow => true
    case Zero(page, n) => AllClearable(s.vm.mem, page, n)
  }

  /** A frame that is neither the directory nor a table with entries. */
  ghost predicate Spare(m: Mem, f: nat) {
    f != PD_FRAME && (forall s {:trigger TableOf(m, s)} :: 0 <= s < SLOTS && Present(m, s) && TableOf(m, s) == f ==> EmptyRow(m, f))
  }

  /** A mapped page of such a frame: exactly these can be cleared without moving a page (ZeroExact). */
  ghost predicate Clearable(m: Mem, page: nat) { page < PAGES && Translate(m, page).Some? && Spare(m, Translate(m, page).value) }

  ghost predicate AllClearable(m: Mem, page: nat, n: nat) {
    forall i {:trigger Clearable(m, i)} :: page <= i < page + n ==> Clearable(m, i)
  }

  /** Every call of the run is proper where it is made. */
  ghost predicate AllProper(s: Sys, ops: seq<Op>)
    decreases |ops|
  {
    ops == [] ||
    var n := |ops| - 1;
    AllProper(s, ops[..n]) && (Run(s, ops[..n]).Going? ==> Proper(Run(s, ops[..n]).s, ops[n]))
  }

  lemma DoInv(s: Sys, all: seq<nat>, op: Op)
    requires Inv(s, all) && Proper(s, op)
    ensures Kept(Do(s, op), all)
  {
    match op
    case Kern(n, must) => KernLoopInv(s, all, 0, n, must, 0);
    case Heap(n, must) => HeapLoopInv(s, all, 0, n, must, 0);
    case Pool => PoolLoopInv(s, all, 0, POOL_PAGES, 0);
    case HeapPage => InitHeapPageInv(s, all);
    case MapOne(pa, va) => MapInv(s, all, pa, va);
    case UnmapOne(va) =>
      if va > 0 { UnmapInv(s, all, va); }
    case ClearLow =>
      ClearIdentityKeeps(s.vm, 0);
      KeptDirectory(s, all, ClearIdentity(s.vm, 0).vm);
    case Zero(page, n) => ZeroInv(s, all, page, n);
  }

  lemma ZeroFrameAt(m: Mem, frame: nat, f: nat, i: nat)
    ensures At(ZeroFrame(m, frame), f, i) == if f == frame then Entry(false, 0) else At(m, f, i)
  {
  }

  /** No page moves. */
  ghost predicate SameView(m: Mem, r: Mem) { forall p {:trigger Translate(r, p)} :: 0 <= p < PAGES ==> Translate(r, p) == Translate(m, p) }

  ghost predicate SameDirectory(m: Mem, r: Mem) { forall t {:trigger At(r, PD_FRAME, t)} :: At(r, PD_FRAME, t) == At(m, PD_FRAME, t) }

  /** Clearing a spare frame changes no translation. */
  lemma ZeroPageKeeps(vm: Vm, f: nat)
    requires Valid(vm) && Spare(vm.mem, f)
    ensures var m := ZeroFrame(vm.mem, f);
      && FewerTables(vm, vm.(mem := m)) && SameDirectory(vm.mem, m) && SameView(vm.mem, m)
      && (forall g {:trigger Spare(m, g)} :: Spare(vm.mem, g) ==> Spare(m, g))
  {
    var m := ZeroFrame(vm.mem, f);
    forall g, i ensures At(m, g, i) == if g == f then Entry(false, 0) else At(vm.mem, g, i) { ZeroFrameAt(vm.mem, f, g, i); }
    forall p | 0 <= p < PAGES ensures Translate(m, p) == Translate(vm.mem, p) {
      if Present(vm.mem, p / SLOTS) && TableOf(vm.mem, p / SLOTS) == f { assert !At(vm.mem, f, p % SLOTS).present; }
    }
    forall s | 0 <= s < SLOTS ensures TableOk(m, s) {
      assert TableOk(vm.mem, s);
      if Present(vm.mem, s) { KptovPage(TableOf(vm.mem, s)); }
    }
    forall s, u | 0 <= s < u < SLOTS && Present(m, s) && Present(m, u) ensures TableOf(m, s) != TableOf(m, u) {
      assert TableOf(m, s) == TableOf(vm.mem, s) && TableOf(m, u) == TableOf(vm.mem, u);
    }
    forall b | b in vm.free ensures Unused(m, b) { ZeroUnused(vm.mem, f, b); }
    forall g: nat | Spare(vm.mem, g) ensures Spare(m, g) { ZeroSpare(vm.mem, f, g); }
  }

  lemma ZeroSpare(m: Mem, f: nat, g: nat)
    requires Spare(m, g) && f != PD_FRAME
    ensures Spare(ZeroFrame(m, f), g)
  {
    var r := ZeroFrame(m, f);
    forall s | 0 <= s < SLOTS && Present(r, s) && TableOf(r, s) == g ensures EmptyRow(r, g) {
      ZeroFrameAt(m, f, PD_FRAME, s);
      assert TableOf(m, s) == g;
      forall i | 0 <= i < SLOTS ensures !At(r, g, i).present {
        ZeroFrameAt(m, f, g, i);
        assert !At(m, g, i).present;
      }
    }
  }

  lemma ZeroUnused(m: Mem, f: nat, b: nat)
    requires Unused(m, b) && f != PD_FRAME
    ensures Unused(ZeroFrame(m, f), b)
  {
    var r := ZeroFrame(m, f);
    forall s | 0 <= s < SLOTS && Present(r, s) ensures TableOf(r, s) != b / PGSIZE {
      ZeroFrameAt(m, f, PD_FRAME, s);
      assert TableOf(m, s) != b / PGSIZE;
    }
    forall i | 0 <= i < SLOTS ensures !At(r, b / PGSIZE, i).present {
      ZeroFrameAt(m, f, b / PGSIZE, i);
      assert !At(m, b / PGSIZE, i).present;
    }
  }

  /** Clearing clearable pages is done, moves no page and keeps the tables editable. */
  lemma {:induction false} ZeroKeeps(vm: Vm, page: nat, n: nat)
    requires Valid(vm) && AllClearable(vm.mem, page, n)
    ensures ZeroPages(vm.mem, page, n).Some?
    ensures var m := ZeroPages(vm.mem, page, n).value;
      FewerTables(vm, vm.(mem := m)) && SameDirectory(vm.mem, m) && SameView(vm.mem, m)
    decreases n
  {
    if n > 0 {
      assert Clearable(vm.mem, page);
      var f := Translate(vm.mem, page).value;
      ZeroPageKeeps(vm, f);
      var v := vm.(mem := ZeroFrame(vm.mem, f));
      forall i | page + 1 <= i < page + n ensures Clearable(v.mem, i) {
        assert Clearable(vm.mem, i) && Translate(v.mem, i) == Translate(vm.mem, i);
      }
      ZeroKeeps(v, page + 1, n - 1);
      ZeroJoins(vm, v, ZeroPages(vm.mem, page, n).value);
    }
  }

  lemma ZeroJoins(vm: Vm, v: Vm, r: Mem)
    requires FewerTables(vm, v) && SameDirectory(vm.mem, v.mem) && SameView(vm.mem, v.mem)
    requires FewerTables(v, v.(mem := r)) && SameDirectory(v.mem, r) && SameView(v.mem, r)
    ensures FewerTables(vm, vm.(mem := r)) && SameDirectory(vm.mem, r) && SameView(vm.mem, r)
  {
    forall t ensures At(r, PD_FRAME, t) == At(vm.mem, PD_FRAME, t) { assert At(v.mem, PD_FRAME, t) == At(vm.mem, PD_FRAME, t); }
    forall p | 0 <= p < PAGES ensures Translate(r, p) == Translate(vm.mem, p) { assert Translate(v.mem, p) == Translate(vm.mem, p); }
  }

  lemma ZeroInv(s: Sys, all: seq<nat>, page: nat, n: nat)
    requires Inv(s, all) && Proper(s, Zero(page, n))
    ensures Zeroed(s.vm, page, n).Done? && Inv(s.(vm := Zeroed(s.vm, page, n).vm), all)
    ensures SameView(s.vm.mem, Zeroed(s.vm, page, n).vm.mem) && SameDirectory(s.vm.mem, Zeroed(s.vm, page, n).vm.mem)
  {
    ZeroKeeps(s.vm, page, n);
    KeptDirectory(s, all, Zeroed(s.vm, page, n).vm);
  }

  /** v has the tables of vm, or fewer below the kernel's; its free frames are as unused as before. */
  ghost predicate FewerTables(vm: Vm, v: Vm) {
    && Valid(v) && v.free == vm.free
    && (forall t {:trigger At(v.mem, PD_FRAME, t)} :: 0 <= t < SLOTS ==>
          At(v.mem, PD_FRAME, t) == At(vm.mem, PD_FRAME, t)
          || (t < KERN_PAGE / SLOTS && !Present(v.mem, t)))
  }

  lemma KeptDirectory(s: Sys, all: seq<nat>, v: Vm)
    requires Inv(s, all) && FewerTables(s.vm, v)
    ensures Inv(s.(vm := v), all)
  {
    forall a | a in s.data ensures Page(v.mem, a) {
      assert Page(s.vm.mem, a);
      forall t | 0 <= t < SLOTS && Present(v.mem, t) ensures TableOf(v.mem, t) != a / PGSIZE {
        assert TableOf(v.mem, t) == TableOf(s.vm.mem, t);
      }
    }
  }

  lemma UnmapInv(s: Sys, all: seq<nat>, va: nat)
    requires Inv(s, all) && 0 < va < ADDRESSES && !Critical(s.vm.mem, va / PGSIZE)
    ensures Do(s, UnmapOne(va)).Ok? && Inv(Do(s, UnmapOne(va)).s, all)
  {
    UnmapPageExact(s.vm, va);
    UnmapPageRefines(s.vm, va);
    var v := UnmapPage(s.vm, va).1.vm;
    forall t | 0 <= t < SLOTS ensures At(v.mem, PD_FRAME, t) == At(s.vm.mem, PD_FRAME, t) { DirectoryKept(s.vm, va, t); }
    KeptDirectory(s, all, v);
  }

  /** Clearing a slot below the kernel's takes away its 4 MiB and nothing else. */
  lemma ClearSlot(vm: Vm, slot: nat)
    requires Valid(vm) && slot < KERN_PAGE / SLOTS
    ensures Load(vm.mem, PD_PAGE, slot) == Some(At(vm.mem, PD_FRAME, slot))
    ensures var m := vm.mem[(PD_FRAME, slot) := At(vm.mem, PD_FRAME, slot).(present := false)];
      && Store(vm.mem, PD_PAGE, slot, At(vm.mem, PD_FRAME, slot).(present := false)) == Some(m)
      && FewerTables(vm, vm.(mem := m))
      && (forall p {:trigger Translate(m, p)} :: 0 <= p < PAGES ==>
            Translate(m, p) == if p / SLOTS == slot then None else Translate(vm.mem, p))
  {
    var m := vm.mem[(PD_FRAME, slot) := At(vm.mem, PD_FRAME, slot).(present := false)];
    forall p | 0 <= p < PAGES ensures Translate(m, p) == if p / SLOTS == slot then None else Translate(vm.mem, p) {
      if Present(vm.mem, p / SLOTS) { assert TableOk(vm.mem, p / SLOTS); }
    }
    forall s | 0 <= s < SLOTS ensures TableOk(m, s) {
      assert TableOk(vm.mem, s);
      if s != slot && Present(vm.mem, s) { KptovPage(TableOf(vm.mem, s)); }
    }
    forall s, u | 0 <= s < u < SLOTS && Present(m, s) && Present(m, u) ensures TableOf(m, s) != TableOf(m, u) {
      assert TableOf(m, s) == TableOf(vm.mem, s) && TableOf(m, u) == TableOf(vm.mem, u);
    }
    forall a | a in vm.free ensures Unused(m, a) {
      assert Unused(vm.mem, a);
      forall s | 0 <= s < SLOTS && Present(m, s) ensures TableOf(m, s) != a / PGSIZE {
        assert TableOf(m, s) == TableOf(vm.mem, s);
      }
      forall j | 0 <= j < SLOTS ensures !At(m, a / PGSIZE, j).present {
        assert !At(vm.mem, a / PGSIZE, j).present;
      }
    }
  }

  /** The directory entry of slot t once clear_identity_pages has run from its i-th round on. */
  function Cleared(e: Entry, i: nat, t: nat): Entry {
    if i <= t < 6 then e.(present := false) else e
  }

  /** clear_identity_pages takes the low 24 MiB out of the translation. */
  lemma {:induction false} ClearIdentityKeeps(vm: Vm, i: nat)
    requires Valid(vm) && i <= IDENTITY_SLOTS
    ensures ClearIdentity(vm, i).Done? && FewerTables(vm, ClearIdentity(vm, i).vm)
    ensures forall t {:trigger At(ClearIdentity(vm, i).vm.mem, PD_FRAME, t)} :: 0 <= t < SLOTS ==>
      At(ClearIdentity(vm, i).vm.mem, PD_FRAME, t) == Cleared(At(vm.mem, PD_FRAME, t), i, t)
    ensures forall p {:trigger Translate(ClearIdentity(vm, i).vm.mem, p)} :: 0 <= p < PAGES ==>
      Translate(ClearIdentity(vm, i).vm.mem, p) ==
        if i <= p / SLOTS < 6 then None else Translate(vm.mem, p)
    decreases IDENTITY_SLOTS - i
  {
    if i < IDENTITY_SLOTS {
      ClearSlot(vm, i);
      var v := vm.(mem := vm.mem[(PD_FRAME, i) := At(vm.mem, PD_FRAME, i).(present := false)]);
      ClearIdentityKeeps(v, i + 1);
      var r := ClearIdentity(vm, i).vm;
      forall t | 0 <= t < SLOTS ensures At(r.mem, PD_FRAME, t) == Cleared(At(vm.mem, PD_FRAME, t), i, t) {
        assert At(v.mem, PD_FRAME, t) == At(vm.mem, PD_FRAME, t) || t == i;
      }
    }
  }

  /**
   Over a run of proper calls the tables stay editable through themselves, every page handed
   out stays a page, and a call halts only by a panic.
   */
  lemma {:induction false} EditableOverRuns(s: Sys, ops: seq<Op>)
    requires Valid(s.vm) && s.data == [] && s.made == [] && AllProper(s, ops)
    ensures match Run(s, ops)
            case Going(r) => Inv(r, s.vm.free)
            case Stopped(how) => how == Panic
    decreases |ops|
  {
    if ops != [] {
      var n := |ops| - 1;
      EditableOverRuns(s, ops[..n]);
      if Run(s, ops[..n]).Going? { DoInv(Run(s, ops[..n]).s, s.vm.free, ops[n]); }
    }
  }

  lemma SameElementsNoDup(q: seq<nat>, all: seq<nat>)
    requires multiset(q) == multiset(all) && NoDup(all)
    ensures NoDup(q)
  {
    forall i, j | 0 <= i < j < |q| ensures q[i] != q[j] {
      NoDupOnce(all, q[i]);
      assert q == q[..j] + q[j..] && q[i] in q[..j];
      assert multiset(q) == multiset(q[..j]) + multiset(q[j..]);
      assert q[j] in q[j..];
    }
  }
}
