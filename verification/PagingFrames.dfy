/**
 No frame is in two places, over any run of the allocators, map_page, unmap_page and memset:
 whether or not chains of new tables repeat a slot, and whether or not the tables can still be
 edited through themselves.
 */
module PagingFrames {
  import opened Common
  import opened Paging
  import opened PagingAlloc

  // ----- frames only move

  /** What is left of a list used from the front. */
  ghost predicate Tail(q: seq<nat>, all: seq<nat>) { |q| <= |all| && q == all[|all| - |q|..] }

  /** The frames handed out, made into tables and free are together the same as before, and free ones went from the front. */
  ghost predicate Conserved(s: Sys, r: Sys) {
    && multiset(r.data) + multiset(r.made) + multiset(r.vm.free) == multiset(s.data) + multiset(s.made) + multiset(s.vm.free)
    && Tail(r.vm.free, s.vm.free)
  }

  lemma TailThen(q: seq<nat>, rest: seq<nat>, all: seq<nat>)
    requires Tail(q, rest) && Tail(rest, all)
    ensures Tail(q, all)
  {
  }

  ghost predicate Moves(s: Sys, how: Result) {
    match how
    case Ok(r, _) => Conserved(s, r)
    case NoMemory(r) => Conserved(s, r)
    case Halted(_) => true
  }

  /** map_page uses free frames from the front, whatever the tables are. */
  lemma {:induction false} MapTakesPrefix(vm: Vm, pa: nat, va: nat)
    ensures MapPage(vm, pa, va).Done? ==> Tail(MapPage(vm, pa, va).vm.free, vm.free)
    decreases |vm.free|, if pa % PGSIZE == 0 then 1 else 0
  {
    if va % PGSIZE == 0 && pa % PGSIZE == 0 && Load(vm.mem, PD_PAGE, PdNo(va)).Some? && !Load(vm.mem, PD_PAGE, PdNo(va)).value.present {
      MapTakesPrefix(vm.(free := Rest(vm.free)), NextFree(vm.free), Kptov(NextFree(vm.free)));
    }
  }

  lemma MapMoves(s: Sys, pa: nat, va: nat)
    ensures Moves(s, Map(s, pa, va)) && !Map(s, pa, va).NoMemory?
    ensures Map(s, pa, va).Ok? ==> Map(s, pa, va).s.data == s.data && Map(s, pa, va).s.index == s.index
  {
    MapTakesPrefix(s.vm, pa, va);
    if Map(s, pa, va).Ok? {
      var k := |s.vm.free| - |Map(s, pa, va).s.vm.free|;
      assert s.vm.free == s.vm.free[..k] + s.vm.free[k..];
    }
  }

  lemma TakeMoves(s: Sys, pa: nat, va: nat)
    requires s.vm.free != []
    ensures Moves(s, Map(TakePage(s), pa, va)) && !Map(TakePage(s), pa, va).NoMemory?
  {
    MapMoves(TakePage(s), pa, va);
    assert s.vm.free == [s.vm.free[0]] + s.vm.free[1..];
    if Map(TakePage(s), pa, va).Ok? { TailThen(Map(TakePage(s), pa, va).s.vm.free, s.vm.free[1..], s.vm.free); }
  }

  lemma MovesThen(s: Sys, r: Sys, how: Result)
    requires Conserved(s, r) && Moves(r, how)
    ensures Moves(s, how)
  {
    match how
    case Ok(t, _) => TailThen(t.vm.free, r.vm.free, s.vm.free);
    case NoMemory(t) => TailThen(t.vm.free, r.vm.free, s.vm.free);
    case Halted(_) =>
  }

  lemma {:induction false} KernLoopMoves(s: Sys, i: nat, n: nat, must: bool, ret: nat, how: Result)
    requires KernLeft(how, s, i, n, must, ret)
    ensures Moves(s, how)
    decreases n - i
  {
    if i < n {
      KernGoes(how, s, i, n, must, ret);
      if s.vm.free != [] {
        TakeMoves(s, s.vm.free[0], Kptov(s.vm.free[0]));
        if KernRound(s).Ok? {
          KernLoopMoves(KernRound(s).s, i + 1, n, must, if i == 0 then KernRound(s).addr else ret, how);
          MovesThen(s, KernRound(s).s, how);
        }
      }
    }
  }

  lemma {:induction false} HeapLoopMoves(s: Sys, i: nat, n: nat, must: bool, ret: nat, how: Result)
    requires HeapLeft(how, s, i, n, must, ret)
    ensures Moves(s, how)
    decreases n - i
  {
    if i < n {
      HeapGoes(how, s, i, n, must, ret);
      if s.vm.free != [] {
        TakeMoves(s, s.vm.free[0], s.index * PGSIZE % ADDRESSES);
        if HeapRound(s).Ok? {
          HeapLoopMoves(HeapRound(s).s, i + 1, n, must, if i == 0 then HeapRound(s).addr else ret, how);
          MovesThen(s, HeapRound(s).s, how);
        }
      }
    }
  }

  lemma {:induction false} PoolLoopMoves(s: Sys, i: nat, n: nat, ret: nat, how: Result)
    requires PoolLeft(how, s, i, n, ret)
    ensures Moves(s, how)
    decreases n - i
  {
    if i < n {
      PoolGoes(how, s, i, n, ret);
      if s.vm.free != [] {
        TakeMoves(s, s.vm.free[0], Kptov(s.vm.free[0]));
        if KernRound(s).Ok? {
          PoolLoopMoves(KernRound(s).s, i + 1, n, if i == 0 then KernRound(s).addr else ret, how);
          MovesThen(s, KernRound(s).s, how);
        }
      }
    }
  }

  lemma {:induction false} ClearKeepsFree(vm: Vm, i: nat)
    ensures ClearIdentity(vm, i).Done? ==> ClearIdentity(vm, i).vm.free == vm.free
    decreases IDENTITY_SLOTS - i
  {
    if i < IDENTITY_SLOTS && Load(vm.mem, PD_PAGE, i).Some? {
      var e := Load(vm.mem, PD_PAGE, i).value.(present := false);
      if Store(vm.mem, PD_PAGE, i, e).Some? { ClearKeepsFree(vm.(mem := Store(vm.mem, PD_PAGE, i, e).value), i + 1); }
    }
  }

  lemma DoMoves(s: Sys, op: Op)
    ensures Moves(s, Do(s, op))
  {
    match op
    case Kern(n, must) => KernLoopMoves(s, 0, n, must, 0, PallocKern(s, n, must));
    case Heap(n, must) => HeapLoopMoves(s, 0, n, must, 0, PallocHeap(s, n, must));
    case Pool => PoolLoopMoves(s, 0, POOL_PAGES, 0, InitPool(s));
    case HeapPage => if s.index == 0 && s.vm.free != [] { TakeMoves(s, s.vm.free[0], 0); }
    case MapOne(pa, va) => MapMoves(s, pa, va);
    case ClearLow => ClearKeepsFree(s.vm, 0);
    case _ =>
  }

  lemma {:induction false} RunMoves(s: Sys, ops: seq<Op>)
    ensures Run(s, ops).Going? ==> Conserved(s, Run(s, ops).s)
    decreases |ops|
  {
    if ops != [] {
      var n := |ops| - 1;
      RunMoves(s, ops[..n]);
      if Run(s, ops[..n]).Going? {
        DoMoves(Run(s, ops[..n]).s, ops[n]);
        MovesThen(s, Run(s, ops[..n]).s, Do(Run(s, ops[..n]).s, ops[n]));
      }
    }
  }

  /**
   No frame is handed out twice: after any run from any memory, the frames handed out as pages,
   those made into tables and those still free are all different, and together those that were
   free at the start, of which the free ones are the last.
   */
  lemma FramesOverRuns(s: Sys, ops: seq<Op>)
    requires NoDup(s.vm.free) && s.data == [] && s.made == [] && Run(s, ops).Going?
    ensures var r := Run(s, ops).s;
      NoDup(r.data + r.made + r.vm.free) && multiset(r.data + r.made + r.vm.free) == multiset(s.vm.free) && Tail(r.vm.free, s.vm.free)
  {
    RunMoves(s, ops);
    var r := Run(s, ops).s;
    assert multiset(r.data + r.made + r.vm.free) == multiset(s.vm.free);
    SameElementsNoDup(r.data + r.made + r.vm.free, s.vm.free);
  }

  // ----- and no page becomes a table

  /** Pages from KERN_BASE on are mapped to their own frames or not at all. */
  ghost predicate DirectOnly(m: Mem) {
    forall p {:trigger Translate(m, p)} :: KERN_PAGE <= p < PAGES ==> Translate(m, p) in {None, Some(p - KERN_PAGE)}
  }

  /** Different present slots have different tables, which have direct pages. */
  ghost predicate TablesApart(m: Mem) {
    && (forall s {:trigger TableOf(m, s)} :: 0 <= s < SLOTS && Present(m, s) ==> TableOf(m, s) < DIRECT_FRAMES && TableOf(m, s) != PD_FRAME)
    && (forall s, u {:trigger TableOf(m, s), TableOf(m, u)} ::
          0 <= s < u < SLOTS && Present(m, s) && Present(m, u) ==> TableOf(m, s) != TableOf(m, u))
  }

  ghost predicate Sound(vm: Vm) {
    && DirectOnly(vm.mem) && TablesApart(vm.mem) && NoDup(vm.free)
    && (forall a {:trigger Unused(vm.mem, a)} :: a in vm.free ==> Unused(vm.mem, a))
  }

  lemma ValidSound(vm: Vm)
    requires Valid(vm) && DirectOnly(vm.mem)
    ensures Sound(vm)
  {
    forall s | 0 <= s < SLOTS && Present(vm.mem, s) ensures TableOf(vm.mem, s) < DIRECT_FRAMES && TableOf(vm.mem, s) != PD_FRAME {
      assert TableOk(vm.mem, s);
    }
  }

  /** Every table was one before, or is one of these frames. */
  ghost predicate NewTables(m: Mem, r: Mem, taken: seq<nat>) {
    forall t {:trigger TableOf(r, t)} :: 0 <= t < SLOTS && Present(r, t) ==>
      (Present(m, t) && TableOf(r, t) == TableOf(m, t)) || TableOf(r, t) * PGSIZE in taken
  }

  /** What every step leaves, k frames further: sound memory, and no page or unused frame used but those k. */
  ghost predicate StaysSound(vm: Vm, r: Vm, k: nat) {
    && Sound(r) && k <= |vm.free| && r.free == vm.free[k..] && NewTables(vm.mem, r.mem, vm.free[..k])
    && (forall a {:trigger Unused(r.mem, a)} :: Unused(vm.mem, a) && a !in vm.free[..k] ==> Unused(r.mem, a))
    && (forall a {:trigger Page(r.mem, a)} :: Page(vm.mem, a) && a !in vm.free[..k] ==> Page(r.mem, a))
  }

  /** An entry that keeps to the direct mapping. */
  predicate Fitting(page: nat, e: Entry) { page >= KERN_PAGE && e.present ==> e.base == page - KERN_PAGE }

  lemma WriteApart(m: Mem, page: nat, e: Entry)
    requires DirectOnly(m) && TablesApart(m) && page < PAGES && Present(m, page / SLOTS) && Fitting(page, e)
    ensures var r := m[(TableOf(m, page / SLOTS), page % SLOTS) := e];
      && DirectOnly(r) && TablesApart(r)
      && (forall t {:trigger At(r, PD_FRAME, t)} :: At(r, PD_FRAME, t) == At(m, PD_FRAME, t))
  {
    var slot := page / SLOTS;
    assert TableOf(m, slot) != PD_FRAME;
    var r := m[(TableOf(m, slot), page % SLOTS) := e];
    forall p | KERN_PAGE <= p < PAGES ensures Translate(r, p) in {None, Some(p - KERN_PAGE)} {
      assert Translate(m, p) in {None, Some(p - KERN_PAGE)};
      if Present(m, p / SLOTS) && p / SLOTS != slot { assert TableOf(m, p / SLOTS) != TableOf(m, slot); }
    }
    forall s | 0 <= s < SLOTS && Present(r, s) ensures TableOf(r, s) < DIRECT_FRAMES && TableOf(r, s) != PD_FRAME {
      assert TableOf(r, s) == TableOf(m, s);
    }
    forall s, u | 0 <= s < u < SLOTS && Present(r, s) && Present(r, u) ensures TableOf(r, s) != TableOf(r, u) {
      assert TableOf(r, s) == TableOf(m, s) && TableOf(r, u) == TableOf(m, u);
    }
  }

  lemma SameDirectoryPage(m: Mem, r: Mem, a: nat)
    requires Page(m, a)
    requires forall t {:trigger At(r, PD_FRAME, t)} :: 0 <= t < SLOTS ==>
      At(r, PD_FRAME, t) == At(m, PD_FRAME, t) || !At(r, PD_FRAME, t).present
    ensures Page(r, a)
  {
    forall s | 0 <= s < SLOTS && Present(r, s) ensures TableOf(r, s) != a / PGSIZE {
      assert TableOf(r, s) == TableOf(m, s);
    }
  }

  lemma WriteSound(vm: Vm, page: nat, e: Entry)
    requires Sound(vm) && page < PAGES && Present(vm.mem, page / SLOTS) && Fitting(page, e)
    ensures match WriteEntry(vm, page, e)
            case Done(r) => StaysSound(vm, r, 0)
            case failed => failed == Fault
  {
    var m, t := vm.mem, TableOf(vm.mem, page / SLOTS);
    assert t < DIRECT_FRAMES;
    KptovPage(t);
    if WriteEntry(vm, page, e).Done? {
      var r := WriteEntry(vm, page, e).vm;
      assert r.mem == m[(t, page % SLOTS) := e];
      WriteApart(m, page, e);
      forall a: nat | Unused(m, a) ensures Unused(r.mem, a) { KeepsUnused(m, a, page / SLOTS, page % SLOTS, e); }
      forall a: nat | Page(m, a) ensures Page(r.mem, a) { SameDirectoryPage(m, r.mem, a); }
      assert vm.free[0..] == vm.free && vm.free[..0] == [];
    }
  }

  /** Entering an unused frame as a table, over a slot that may be present. */
  lemma EnterSound(vm: Vm, slot: nat, a: nat)
    requires Sound(vm) && slot < SLOTS && Unused(vm.mem, a) && a !in vm.free
    ensures var r := vm.mem[(PD_FRAME, slot) := Entry(true, a / PGSIZE)];
      && Sound(vm.(mem := r)) && NewTables(vm.mem, r, [a])
      && (forall b {:trigger Unused(r, b)} :: Unused(vm.mem, b) && b != a ==> Unused(r, b))
      && (forall b {:trigger Page(r, b)} :: Page(vm.mem, b) && b != a ==> Page(r, b))
  {
    var m, f := vm.mem, a / PGSIZE;
    var r := m[(PD_FRAME, slot) := Entry(true, f)];
    forall p | KERN_PAGE <= p < PAGES ensures Translate(r, p) in {None, Some(p - KERN_PAGE)} {
      assert Translate(m, p) in {None, Some(p - KERN_PAGE)};
      if p / SLOTS == slot {
        assert !At(m, f, p % SLOTS).present;
      } else if Present(m, p / SLOTS) {
        assert TableOf(m, p / SLOTS) != PD_FRAME;
      }
    }
    EnterApart(m, slot, a);
    assert NewTables(m, r, [a]) by {
      forall s | 0 <= s < SLOTS && Present(r, s)
        ensures (Present(m, s) && TableOf(r, s) == TableOf(m, s)) || TableOf(r, s) * PGSIZE in [a]
      {
        assert s == slot ==> TableOf(r, s) * PGSIZE == a;
      }
    }
    forall b: nat | Unused(m, b) && b != a ensures Unused(r, b) {
      assert b / PGSIZE != f;
      forall i | 0 <= i < SLOTS ensures !At(r, b / PGSIZE, i).present { assert !At(m, b / PGSIZE, i).present; }
      forall s | 0 <= s < SLOTS && Present(r, s) ensures TableOf(r, s) != b / PGSIZE {
        assert s != slot ==> TableOf(r, s) == TableOf(m, s);
      }
    }
    forall b: nat | Page(m, b) && b != a ensures Page(r, b) {
      assert b / PGSIZE != f;
      forall s | 0 <= s < SLOTS && Present(r, s) ensures TableOf(r, s) != b / PGSIZE {
        assert s != slot ==> TableOf(r, s) == TableOf(m, s);
      }
    }
  }

  lemma EnterApart(m: Mem, slot: nat, a: nat)
    requires TablesApart(m) && slot < SLOTS && Unused(m, a)
    ensures TablesApart(m[(PD_FRAME, slot) := Entry(true, a / PGSIZE)])
  {
    var r := m[(PD_FRAME, slot) := Entry(true, a / PGSIZE)];
    forall s | 0 <= s < SLOTS && Present(r, s) ensures TableOf(r, s) < DIRECT_FRAMES && TableOf(r, s) != PD_FRAME {
      assert s != slot ==> TableOf(r, s) == TableOf(m, s);
    }
    forall s, u | 0 <= s < u < SLOTS && Present(r, s) && Present(r, u) ensures TableOf(r, s) != TableOf(r, u) {
      assert s != slot ==> TableOf(r, s) == TableOf(m, s);
      assert u != slot ==> TableOf(r, u) == TableOf(m, u);
    }
  }

  lemma SoundTail(vm: Vm)
    requires Sound(vm) && vm.free != []
    ensures var a := vm.free[0];
      && Sound(vm.(free := vm.free[1..])) && a !in vm.free[1..]
      && Mappable(a, Kptov(a)) && a < ADDRESSES && a % PGSIZE == 0
  {
    var a, rest := vm.free[0], vm.free[1..];
    assert vm.free == [a] + rest;
    NoDupTail(a, rest);
    assert Unused(vm.mem, a);
    KptovPage(a / PGSIZE);
    assert a == a / PGSIZE * PGSIZE;
    forall b | b in rest ensures Unused(vm.mem, b) { assert b in vm.free; }
  }

  lemma HarmlessFits(page: nat, frame: nat)
    requires Harmless(page, Entry(true, frame))
    ensures Fitting(page, Entry(true, frame))
  {
    if page >= KERN_PAGE { KptovPage(frame); }
  }

  /** map_page keeps memory sound, whatever its chain does. */
  lemma {:induction false} MapSound(vm: Vm, pa: nat, va: nat)
    requires Sound(vm) && Mappable(pa, va)
    ensures match MapPage(vm, pa, va)
            case Done(r) => |r.free| <= |vm.free| && StaysSound(vm, r, |vm.free| - |r.free|)
            case _ => true
    decreases |vm.free|
  {
    AddressSplit(va);
    HarmlessFits(va / PGSIZE, pa / PGSIZE);
    if Present(vm.mem, PdNo(va)) {
      WriteSound(vm, va / PGSIZE, Entry(true, pa / PGSIZE));
    } else if vm.free != [] {
      var a, vm1 := vm.free[0], vm.(free := vm.free[1..]);
      SoundTail(vm);
      MapSound(vm1, a, Kptov(a));
      if MapPage(vm1, a, Kptov(a)).Done? && Load(vm.mem, PD_PAGE, PdNo(va)).Some? {
        MapSoundStep(vm, pa, va, MapPage(vm1, a, Kptov(a)).vm);
      }
    }
  }

  lemma MapSoundStep(vm: Vm, pa: nat, va: nat, vm2: Vm)
    requires Sound(vm) && Mappable(pa, va) && vm.free != [] && !Present(vm.mem, PdNo(va))
    requires MapPage(vm.(free := vm.free[1..]), vm.free[0], Kptov(vm.free[0])) == Done(vm2)
    requires |vm2.free| < |vm.free| && StaysSound(vm.(free := vm.free[1..]), vm2, |vm.free| - 1 - |vm2.free|)
    ensures MapPage(vm, pa, va).Done? ==>
      var r := MapPage(vm, pa, va).vm;
      |r.free| <= |vm.free| && StaysSound(vm, r, |vm.free| - |r.free|)
  {
    var a, vm1, slot, k1 := vm.free[0], vm.(free := vm.free[1..]), PdNo(va), |vm.free| - 1 - |vm2.free|;
    AddressSplit(va);
    SoundTail(vm);
    HarmlessFits(va / PGSIZE, pa / PGSIZE);
    assert Unused(vm.mem, a) && a !in vm1.free[..k1];
    assert Unused(vm2.mem, a);
    EnterSound(vm2, slot, a);
    var vm3 := vm2.(mem := vm2.mem[(PD_FRAME, slot) := Entry(true, a / PGSIZE)]);
    assert Present(vm3.mem, slot);
    WriteSound(vm3, va / PGSIZE, Entry(true, pa / PGSIZE));
    if MapPage(vm, pa, va).Done? {
      assert Translate(vm2.mem, PD_PAGE) in {None, Some(PD_PAGE - KERN_PAGE)};
      SoundJoins(vm, vm2, vm3, MapPage(vm, pa, va).vm, k1);
    }
  }

  lemma SoundJoins(vm: Vm, vm2: Vm, vm3: Vm, r: Vm, k1: nat)
    requires vm.free != [] && StaysSound(vm.(free := vm.free[1..]), vm2, k1) && vm3.free == vm2.free && StaysSound(vm3, r, 0)
    requires NewTables(vm2.mem, vm3.mem, [vm.free[0]])
    requires forall b {:trigger Unused(vm3.mem, b)} :: Unused(vm2.mem, b) && b != vm.free[0] ==> Unused(vm3.mem, b)
    requires forall b {:trigger Page(vm3.mem, b)} :: Page(vm2.mem, b) && b != vm.free[0] ==> Page(vm3.mem, b)
    ensures StaysSound(vm, r, k1 + 1)
  {
    var rest := vm.free[1..];
    assert vm.free[..k1 + 1] == [vm.free[0]] + rest[..k1];
    assert vm3.free[..0] == [];
    TablesJoin(vm.mem, vm2.mem, vm3.mem, r.mem, rest[..k1], vm.free[0], vm.free[..k1 + 1]);
    forall a: nat | Unused(vm.mem, a) && a !in vm.free[..k1 + 1] ensures Unused(r.mem, a) {
      assert a != vm.free[0] && a !in rest[..k1];
      assert Unused(vm2.mem, a) && Unused(vm3.mem, a);
    }
    forall a: nat | Page(vm.mem, a) && a !in vm.free[..k1 + 1] ensures Page(r.mem, a) {
      assert a != vm.free[0] && a !in rest[..k1];
      assert Page(vm2.mem, a) && Page(vm3.mem, a);
    }
  }

  lemma TablesJoin(m: Mem, m2: Mem, m3: Mem, r: Mem, taken: seq<nat>, a: nat, all: seq<nat>)
    requires NewTables(m, m2, taken) && NewTables(m2, m3, [a]) && NewTables(m3, r, []) && all == [a] + taken
    ensures NewTables(m, r, all)
  {
    forall t | 0 <= t < SLOTS && Present(r, t) ensures (Present(m, t) && TableOf(r, t) == TableOf(m, t)) || TableOf(r, t) * PGSIZE in all {
      assert TableOf(r, t) == TableOf(m3, t);
      if Present(m2, t) && TableOf(m3, t) == TableOf(m2, t) {
        assert (Present(m, t) && TableOf(m2, t) == TableOf(m, t)) || TableOf(m2, t) * PGSIZE in taken;
      } else {
        assert TableOf(m3, t) * PGSIZE in [a];
      }
    }
  }

  lemma UnmapSound(vm: Vm, va: nat)
    requires Sound(vm) && va < ADDRESSES
    ensures match UnmapPage(vm, va).1
            case Done(r) => StaysSound(vm, r, 0)
            case failed => failed == Fault
  {
    AddressSplit(va);
    assert vm.free[0..] == vm.free && vm.free[..0] == [];
    if va > 0 && Present(vm.mem, PdNo(va)) {
      var pte := Load(vm.mem, Kptov(TableOf(vm.mem, PdNo(va)) * PGSIZE) / PGSIZE, PtNo(va));
      if pte.Some? { WriteSound(vm, va / PGSIZE, pte.value.(present := false)); }
    }
  }

  /** Fewer entries: every translation, table and present slot is one that was there. */
  ghost predicate FewerEntries(m: Mem, r: Mem) {
    && (forall f, i {:trigger At(r, f, i)} :: At(r, f, i).present ==> At(r, f, i) == At(m, f, i))
  }

  lemma FewerSound(vm: Vm, r: Vm)
    requires Sound(vm) && r.free == vm.free && FewerEntries(vm.mem, r.mem)
    ensures StaysSound(vm, r, 0)
  {
    var m := vm.mem;
    forall p | KERN_PAGE <= p < PAGES ensures Translate(r.mem, p) in {None, Some(p - KERN_PAGE)} {
      assert Translate(m, p) in {None, Some(p - KERN_PAGE)};
    }
    forall s, u | 0 <= s < u < SLOTS && Present(r.mem, s) && Present(r.mem, u) ensures TableOf(r.mem, s) != TableOf(r.mem, u) {
      assert TableOf(r.mem, s) == TableOf(m, s) && TableOf(r.mem, u) == TableOf(m, u);
    }
    forall s | 0 <= s < SLOTS && Present(r.mem, s) ensures TableOf(r.mem, s) < DIRECT_FRAMES && TableOf(r.mem, s) != PD_FRAME {
      assert TableOf(r.mem, s) == TableOf(m, s);
    }
    forall a: nat | Unused(m, a) ensures Unused(r.mem, a) { FewerUnused(m, r.mem, a); }
    forall a: nat | Page(m, a) ensures Page(r.mem, a) { SameDirectoryPage(m, r.mem, a); }
    assert vm.free[0..] == vm.free;
  }

  lemma FewerUnused(m: Mem, r: Mem, a: nat)
    requires Unused(m, a) && FewerEntries(m, r)
    ensures Unused(r, a)
  {
    forall i | 0 <= i < SLOTS ensures !At(r, a / PGSIZE, i).present { assert !At(m, a / PGSIZE, i).present; }
    forall s | 0 <= s < SLOTS && Present(r, s) ensures TableOf(r, s) != a / PGSIZE { assert TableOf(r, s) == TableOf(m, s); }
  }

  lemma {:induction false} ClearSound(vm: Vm, i: nat)
    requires Sound(vm)
    ensures match ClearIdentity(vm, i)
            case Done(r) => r.free == vm.free && FewerEntries(vm.mem, r.mem)
            case failed => failed == Fault
    decreases IDENTITY_SLOTS - i
  {
    if i < IDENTITY_SLOTS && Load(vm.mem, PD_PAGE, i).Some? {
      assert Translate(vm.mem, PD_PAGE) in {None, Some(PD_PAGE - KERN_PAGE)};
      var v := vm.(mem := vm.mem[(PD_FRAME, i) := At(vm.mem, PD_FRAME, i).(present := false)]);
      assert FewerEntries(vm.mem, v.mem);
      FewerSound(vm, v);
      ClearSound(v, i + 1);
    }
  }

  lemma {:induction false} ZeroSound(m: Mem, page: nat, n: nat)
    ensures ZeroPages(m, page, n).Some? ==> FewerEntries(m, ZeroPages(m, page, n).value)
    decreases n
  {
    if n > 0 && Translate(m, page).Some? {
      var f := Translate(m, page).value;
      forall g, i ensures At(ZeroFrame(m, f), g, i) == if g == f then Entry(false, 0) else At(m, g, i) { ZeroFrameAt(m, f, g, i); }
      ZeroSound(ZeroFrame(m, f), page + 1, n - 1);
    }
  }

  /** One of these pages is mapped to frame g. */
  ghost predicate Covers(m: Mem, page: nat, n: nat, g: nat) {
    exists i {:trigger Translate(m, i)} :: page <= i < page + n && Translate(m, i) == Some(g)
  }

  /** All n pages from `page` on were mapped, their frames are zero now, and nothing else changed. */
  ghost predicate ClearedPages(m: Mem, r: Mem, page: nat, n: nat) {
    && (forall i {:trigger Translate(m, i)} :: page <= i < page + n ==> Translate(m, i).Some?)
    && (forall g: nat, j: nat {:trigger At(r, g, j)} :: At(r, g, j) == if Covers(m, page, n, g) then Entry(false, 0) else At(m, g, j))
  }

  /** Setting pages to zero clears exactly the frames they were mapped to. */
  lemma {:induction false} ZeroClears(m: Mem, page: nat, n: nat)
    ensures match ZeroPages(m, page, n)
            case Some(r) => ClearedPages(m, r, page, n)
            case None => n > 0
    decreases n
  {
    if n > 0 && Translate(m, page).Some? {
      var f := Translate(m, page).value;
      var m1 := ZeroFrame(m, f);
      forall g, j ensures At(m1, g, j) == if g == f then Entry(false, 0) else At(m, g, j) { ZeroFrameAt(m, f, g, j); }
      ZeroClears(m1, page + 1, n - 1);
      if ZeroPages(m1, page + 1, n - 1).Some? { ClearedJoin(m, m1, ZeroPages(m, page, n).value, page, n, f); }
    }
  }

  lemma ClearedJoin(m: Mem, m1: Mem, r: Mem, page: nat, n: nat, f: nat)
    requires n > 0 && Translate(m, page) == Some(f) && ClearedPages(m1, r, page + 1, n - 1)
    requires forall g: nat, j: nat {:trigger At(m1, g, j)} :: At(m1, g, j) == if g == f then Entry(false, 0) else At(m, g, j)
    ensures ClearedPages(m, r, page, n)
  {
    forall i | page < i < page + n ensures Translate(m, i).Some? && Translate(m1, i) == Translate(m, i) {
      assert Translate(m1, i).Some?;
    }
    forall g: nat ensures Covers(m, page, n, g) <==> g == f || Covers(m1, page + 1, n - 1, g) {
      if Covers(m, page, n, g) && g != f {
        var i :| page <= i < page + n && Translate(m, i) == Some(g);
        assert Translate(m1, i) == Some(g);
      }
      if Covers(m1, page + 1, n - 1, g) {
        var i :| page + 1 <= i < page + n && Translate(m1, i) == Some(g);
        assert Translate(m, i) == Some(g);
      }
    }
  }

  // ----- over runs

  /** Arguments a caller may pass: pages below KERN_BASE or direct pages to map, a heap that stays below KERN_BASE, and addresses. */
  predicate InRange(s: Sys, op: Op) {
    match op
    case Heap(n, _) => s.index + n <= KERN_PAGE
    case MapOne(pa, va) => Mappable(pa, va)
    case UnmapOne(va) => va < ADDRESSES
    case _ => true
  }

  predicate AllInRange(s: Sys, ops: seq<Op>)
    decreases |ops|
  {
    ops == [] ||
    var n := |ops| - 1;
    AllInRange(s, ops[..n]) && (Run(s, ops[..n]).Going? ==> InRange(Run(s, ops[..n]).s, ops[n]))
  }

  /** Sound memory, and every frame of `all` in one place; none handed out as a page is a table, and every table is accounted for. */
  ghost predicate Held(s: Sys, all: seq<nat>, start: set<nat>) {
    && Sound(s.vm) && NoDup(all)
    && multiset(s.data) + multiset(s.made) + multiset(s.vm.free) == multiset(all)
    && (forall a {:trigger Page(s.vm.mem, a)} :: a in s.data ==> Page(s.vm.mem, a))
    && Known(s.vm.mem, start, s.made)
  }

  /** The tables are those of the start and the frames made into tables. */
  ghost predicate Known(m: Mem, start: set<nat>, made: seq<nat>) {
    forall t {:trigger TableOf(m, t)} :: 0 <= t < SLOTS && Present(m, t) ==> TableOf(m, t) in start || TableOf(m, t) * PGSIZE in made
  }

  ghost function TablesAt(m: Mem): set<nat> { set t: nat | t < SLOTS && Present(m, t) :: TableOf(m, t) }

  ghost predicate Holds(how: Result, all: seq<nat>, start: set<nat>) {
    match how
    case Ok(r, _) => Held(r, all, start)
    case NoMemory(r) => Held(r, all, start) && r.vm.free == []
    case Halted(_) => true
  }

  lemma HeldOnce(s: Sys, all: seq<nat>, start: set<nat>, a: nat)
    requires Held(s, all, start) && a in s.data
    ensures a !in s.vm.free
  {
    NoDupOnce(all, a);
    assert multiset(all)[a] == multiset(s.data)[a] + multiset(s.made)[a] + multiset(s.vm.free)[a];
  }

  /** A step that keeps memory sound and moves no page keeps everything in place. */
  lemma HeldThen(s: Sys, all: seq<nat>, start: set<nat>, r: Sys, k: nat)
    requires Held(s, all, start) && StaysSound(s.vm, r.vm, k) && r.data == s.data && Conserved(s, r) && r.made == s.made + s.vm.free[..k]
    ensures Held(r, all, start)
  {
    forall t | 0 <= t < SLOTS && Present(r.vm.mem, t) ensures TableOf(r.vm.mem, t) in start || TableOf(r.vm.mem, t) * PGSIZE in r.made {
      if Present(s.vm.mem, t) && TableOf(r.vm.mem, t) == TableOf(s.vm.mem, t) {
        assert TableOf(s.vm.mem, t) in start || TableOf(s.vm.mem, t) * PGSIZE in s.made;
      }
    }
    forall a | a in r.data ensures Page(r.vm.mem, a) {
      HeldOnce(s, all, start, a);
      assert Page(s.vm.mem, a);
    }
  }

  lemma MapHeld(s: Sys, all: seq<nat>, start: set<nat>, pa: nat, va: nat)
    requires Held(s, all, start) && Mappable(pa, va)
    ensures Holds(Map(s, pa, va), all, start) && !Map(s, pa, va).NoMemory?
    ensures Map(s, pa, va).Ok? ==> Map(s, pa, va).s.index == s.index
  {
    MapSound(s.vm, pa, va);
    MapMoves(s, pa, va);
    if Map(s, pa, va).Ok? { HeldThen(s, all, start, Map(s, pa, va).s, |s.vm.free| - |Map(s, pa, va).s.vm.free|); }
  }

  lemma TakeHeld(s: Sys, all: seq<nat>, start: set<nat>)
    requires Held(s, all, start) && s.vm.free != []
    ensures Held(TakePage(s), all, start) && Mappable(s.vm.free[0], Kptov(s.vm.free[0]))
    ensures s.vm.free[0] < ADDRESSES && s.vm.free[0] % PGSIZE == 0
  {
    var a, r := s.vm.free[0], TakePage(s);
    SoundTail(s.vm);
    assert s.vm.free == [a] + r.vm.free;
    assert Unused(s.vm.mem, a);
    forall b | b in r.data ensures Page(r.vm.mem, b) { assert b != a ==> Page(s.vm.mem, b); }
  }

  lemma KernRoundHeld(s: Sys, all: seq<nat>, start: set<nat>)
    requires Held(s, all, start) && s.vm.free != []
    ensures Holds(KernRound(s), all, start) && !KernRound(s).NoMemory?
  {
    TakeHeld(s, all, start);
    MapHeld(TakePage(s), all, start, s.vm.free[0], Kptov(s.vm.free[0]));
  }

  lemma {:induction false} KernLoopHeld(s: Sys, all: seq<nat>, start: set<nat>, i: nat, n: nat, must: bool, ret: nat)
    requires Held(s, all, start)
    ensures Holds(KernLoop(s, i, n, must, ret), all, start)
    decreases n - i
  {
    if i < n && s.vm.free != [] {
      KernRoundHeld(s, all, start);
      match KernRound(s)
      case Ok(r, va) => KernLoopHeld(r, all, start, i + 1, n, must, if i == 0 then va else ret);
      case _ =>
    }
  }

  lemma {:induction false} PoolLoopHeld(s: Sys, all: seq<nat>, start: set<nat>, i: nat, n: nat, ret: nat)
    requires Held(s, all, start)
    ensures Holds(PoolLoop(s, i, n, ret), all, start)
    decreases n - i
  {
    if i < n && s.vm.free != [] {
      KernRoundHeld(s, all, start);
      match KernRound(s)
      case Ok(r, va) => PoolLoopHeld(r, all, start, i + 1, n, if i == 0 then va else ret);
      case _ =>
    }
  }

  lemma HeapRoundHeld(s: Sys, all: seq<nat>, start: set<nat>)
    requires Held(s, all, start) && s.vm.free != [] && s.index < KERN_PAGE
    ensures Holds(HeapRound(s), all, start) && !HeapRound(s).NoMemory?
    ensures HeapRound(s).Ok? ==> HeapRound(s).s.index == s.index + 1
  {
    TakeHeld(s, all, start);
    UserMappable(s.vm.free[0], s.index);
    MapHeld(TakePage(s), all, start, s.vm.free[0], s.index * PGSIZE);
  }

  lemma {:induction false} HeapLoopHeld(s: Sys, all: seq<nat>, start: set<nat>, i: nat, n: nat, must: bool, ret: nat)
    requires Held(s, all, start) && (i < n ==> s.index + n - i <= KERN_PAGE)
    ensures Holds(HeapLoop(s, i, n, must, ret), all, start)
    decreases n - i
  {
    if i < n && s.vm.free != [] {
      HeapRoundHeld(s, all, start);
      match HeapRound(s)
      case Ok(r, va) => HeapLoopHeld(r, all, start, i + 1, n, must, if i == 0 then va else ret);
      case _ =>
    }
  }

  lemma HeapPageHeld(s: Sys, all: seq<nat>, start: set<nat>)
    requires Held(s, all, start)
    ensures Holds(InitHeapPage(s), all, start)
  {
    if s.index == 0 && s.vm.free != [] {
      TakeHeld(s, all, start);
      UserMappable(s.vm.free[0], 0);
      MapHeld(TakePage(s), all, start, s.vm.free[0], 0);
    }
  }

  /** unmap_page, clear_identity_pages and memset take no frame. */
  lemma OtherHeld(s: Sys, all: seq<nat>, start: set<nat>, op: Op)
    requires Held(s, all, start) && InRange(s, op) && (op.UnmapOne? || op.ClearLow? || op.Zero?)
    ensures Holds(Do(s, op), all, start)
  {
    match op {
      case UnmapOne(va) => UnmapSound(s.vm, va);
      case ClearLow =>
        ClearSound(s.vm, 0);
        if Do(s, op).Ok? { FewerSound(s.vm, Do(s, op).s.vm); }
      case Zero(page, n) =>
        ZeroSound(s.vm.mem, page, n);
        if Do(s, op).Ok? { FewerSound(s.vm, Do(s, op).s.vm); }
    }
    DoMoves(s, op);
    if Do(s, op).Ok? {
      assert s.made + s.vm.free[..0] == s.made;
      HeldThen(s, all, start, Do(s, op).s, 0);
    }
  }

  lemma DoHeld(s: Sys, all: seq<nat>, start: set<nat>, op: Op)
    requires Held(s, all, start) && InRange(s, op)
    ensures Holds(Do(s, op), all, start)
  {
    match op
    case Kern(n, must) => KernLoopHeld(s, all, start, 0, n, must, 0);
    case Heap(n, must) => HeapLoopHeld(s, all, start, 0, n, must, 0);
    case Pool => PoolLoopHeld(s, all, start, 0, POOL_PAGES, 0);
    case HeapPage => HeapPageHeld(s, all, start);
    case MapOne(pa, va) => MapHeld(s, all, start, pa, va);
    case _ => OtherHeld(s, all, start, op);
  }

  /**
   Over any run with arguments in range, from memory that keeps to the direct mapping: no two
   present directory slots have one table, every table is one of the start's or a frame made into
   one, none is a page that was handed out or a free frame, and pages from KERN_BASE on stay
   mapped to their own frames or not at all.
   */
  lemma {:induction false} SoundOverRuns(s: Sys, ops: seq<Op>)
    requires Sound(s.vm) && s.data == [] && s.made == [] && AllInRange(s, ops) && Run(s, ops).Going?
    ensures Held(Run(s, ops).s, s.vm.free, TablesAt(s.vm.mem))
    decreases |ops|
  {
    if ops != [] {
      var n := |ops| - 1;
      SoundOverRuns(s, ops[..n]);
      DoHeld(Run(s, ops[..n]).s, s.vm.free, TablesAt(s.vm.mem), ops[n]);
    }
  }
}
