/**
 map_page and unmap_page on two-level tables that are edited through the mapping
 they define themselves.  Addresses are numbers below 2^32; a page or a frame is
 an address divided by 4096.  An entry is its present bit and its 20-bit base.
 */
module Paging {
  import opened Common

  const PGSIZE: nat := 4096
  const ADDRESSES: nat := 0x1_0000_0000
  const PAGES: nat := 0x10_0000
  const SLOTS: nat := 1024               // entries of the directory, and of a table
  const KERN_BASE: nat := 0xC000_0000
  const KERN_PAGE: nat := 0xC_0000
  const PD_PAGE: nat := 0xC_0006         // PAGE_DIRECTORY_BASE, as the kernel addresses it
  const PD_FRAME: nat := 6               // and where it is
  const DIRECT_FRAMES: nat := 0x4_0000   // frames that Kptov takes above KERN_BASE
  const NO_ADDR: nat := 0xFFFF_FFFF

  datatype Entry = Entry(present: bool, base: nat)

  /** The entries in physical memory, by frame and index; memory not written is zero. */
  type Mem = map<(nat, nat), Entry>

  function At(m: Mem, frame: nat, i: nat): Entry {
    if (frame, i) in m then m[(frame, i)] else Entry(false, 0)
  }

  /** pd_no and pt_no of an address. */
  function PdNo(va: nat): nat { va / 0x40_0000 }
  function PtNo(va: nat): nat { va / PGSIZE % SLOTS }

  function Kptov(pa: nat): nat { (pa + KERN_BASE) % ADDRESSES }

  /** The page at which the kernel sees a frame, and its directory slot. */
  function KPage(frame: nat): nat { (frame + KERN_PAGE) % PAGES }
  function DirectSlot(frame: nat): nat { KPage(frame) / SLOTS }

  lemma AddressSplit(va: nat)
    requires va < ADDRESSES
    ensures PdNo(va) == va / PGSIZE / SLOTS < SLOTS && PtNo(va) == va / PGSIZE % SLOTS
    ensures va == PdNo(va) * 0x40_0000 + PtNo(va) * PGSIZE + va % PGSIZE
  {
  }

  lemma KptovPage(frame: nat)
    requires frame < PAGES
    ensures Kptov(frame * PGSIZE) == KPage(frame) * PGSIZE
    ensures frame < DIRECT_FRAMES ==> KPage(frame) == frame + KERN_PAGE
  {
  }

  /** The walk of 32-bit paging with 4-KByte pages, from the directory in PD_FRAME. */
  function Translate(m: Mem, page: nat): Option<nat> {
    var pde := At(m, PD_FRAME, page / SLOTS);
    if !pde.present then None
    else
      var pte := At(m, pde.base, page % SLOTS);
      if pte.present then Some(pte.base) else None
  }

  /** An entry read or written by the kernel at index i of a page; None is a page fault. */
  function Load(m: Mem, page: nat, i: nat): Option<Entry> {
    match Translate(m, page)
    case None => None
    case Some(frame) => Some(At(m, frame, i))
  }

  function Store(m: Mem, page: nat, i: nat, e: Entry): Option<Mem> {
    match Translate(m, page)
    case None => None
    case Some(frame) => Some(m[(frame, i) := e])
  }

  /** The addresses of the free frames, in the order of the frame table, and the tables. */
  datatype Vm = Vm(free: seq<nat>, mem: Mem)

  datatype Outcome = Done(vm: Vm) | Panic | Fault

  /** The last part of map_page, with the directory entry present. */
  function WriteEntry(vm: Vm, page: nat, e: Entry): Outcome {
    match Load(vm.mem, PD_PAGE, page / SLOTS)
    case None => Fault
    case Some(pde) =>
      match Store(vm.mem, Kptov(pde.base * PGSIZE) / PGSIZE, page % SLOTS, e)
      case None => Fault
      case Some(m) => Done(vm.(mem := m))
  }

  /** get_next_free_physical_page: the first free frame, or NO_ADDR. */
  function NextFree(free: seq<nat>): nat { if free == [] then NO_ADDR else free[0] }
  function Rest(free: seq<nat>): seq<nat> { if free == [] then [] else free[1..] }

  /** map_page.  Its recursion ends: a frame is used up each time, and NO_ADDR is not aligned. */
  function MapPage(vm: Vm, pa: nat, va: nat): Outcome
    decreases |vm.free|, if pa % PGSIZE == 0 then 1 else 0
  {
    if va % PGSIZE != 0 || pa % PGSIZE != 0 then Panic
    else
      match Load(vm.mem, PD_PAGE, PdNo(va))
      case None => Fault
      case Some(pde) =>
        if pde.present then WriteEntry(vm, va / PGSIZE, Entry(true, pa / PGSIZE))
        else
          var table := NextFree(vm.free);
          match MapPage(vm.(free := Rest(vm.free)), table, Kptov(table))
          case Done(vm2) =>
            (match Store(vm2.mem, PD_PAGE, PdNo(va), Entry(true, table / PGSIZE))
             case None => Fault
             case Some(m) => WriteEntry(vm2.(mem := m), va / PGSIZE, Entry(true, pa / PGSIZE)))
          case failed => failed
  }

  /** unmap_page with the kernel flag; the check meant for alignment only catches address 0. */
  function UnmapPage(vm: Vm, va: nat): (bool, Outcome) {
    if va == 0 then (false, Done(vm))
    else
      match Load(vm.mem, PD_PAGE, PdNo(va))
      case None => (true, Fault)
      case Some(pde) =>
        if !pde.present then (true, Done(vm))
        else
          match Load(vm.mem, Kptov(pde.base * PGSIZE) / PGSIZE, PtNo(va))
          case None => (true, Fault)
          case Some(pte) => (true, WriteEntry(vm, va / PGSIZE, pte.(present := false)))
  }

  // ----- tables that can be edited through themselves

  predicate Present(m: Mem, slot: nat) { At(m, PD_FRAME, slot).present }

  function TableOf(m: Mem, slot: nat): nat { At(m, PD_FRAME, slot).base }

  /** A present slot's table is its own frame, seen at its direct address. */
  predicate TableOk(m: Mem, slot: nat) {
    Present(m, slot) ==>
      && TableOf(m, slot) < DIRECT_FRAMES && TableOf(m, slot) != PD_FRAME
      && Translate(m, KPage(TableOf(m, slot))) == Some(TableOf(m, slot))
  }

  ghost predicate TablesOk(m: Mem) {
    && Translate(m, PD_PAGE) == Some(PD_FRAME)
    && (forall s {:trigger TableOk(m, s)} :: 0 <= s < SLOTS ==> TableOk(m, s))
    && (forall s, u {:trigger TableOf(m, s), TableOf(m, u)} ::
          0 <= s < u < SLOTS && Present(m, s) && Present(m, u) ==> TableOf(m, s) != TableOf(m, u))
  }

  /** A frame that nothing uses yet, and that is zero. */
  ghost predicate Unused(m: Mem, addr: nat) {
    var f := addr / PGSIZE;
    && addr % PGSIZE == 0 && f < DIRECT_FRAMES && f != PD_FRAME
    && (forall s {:trigger TableOf(m, s)} :: 0 <= s < SLOTS && Present(m, s) ==> TableOf(m, s) != f)
    && EmptyRow(m, f)
  }

  ghost predicate EmptyRow(m: Mem, frame: nat) {
    forall i {:trigger At(m, frame, i)} :: 0 <= i < SLOTS ==> !At(m, frame, i).present
  }

  ghost predicate Valid(vm: Vm) {
    && TablesOk(vm.mem)
    && NoDup(vm.free)
    && (forall a {:trigger Unused(vm.mem, a)} :: a in vm.free ==> Unused(vm.mem, a))
  }

  /** What callers map: user pages, and frames at their direct pages. */
  predicate Harmless(page: nat, e: Entry) {
    page < KERN_PAGE || Direct(page, e)
  }

  predicate Direct(page: nat, e: Entry) {
    e.present && e.base < DIRECT_FRAMES && page == KPage(e.base)
  }

  /** A page through which the kernel edits the tables. */
  ghost predicate Critical(m: Mem, page: nat) {
    page == PD_PAGE || exists s :: 0 <= s < SLOTS && Present(m, s) && page == KPage(TableOf(m, s))
  }

  /** Writing one entry of a present slot changes the translation of that page alone. */
  lemma WriteEntryRefines(vm: Vm, page: nat, e: Entry)
    requires Valid(vm) && page < PAGES && Present(vm.mem, page / SLOTS)
    ensures var m := vm.mem[(TableOf(vm.mem, page / SLOTS), page % SLOTS) := e];
      && WriteEntry(vm, page, e) == Done(vm.(mem := m))
      && (forall p :: 0 <= p < PAGES ==>
            Translate(m, p) == if p == page then (if e.present then Some(e.base) else None) else Translate(vm.mem, p))
  {
    var slot := page / SLOTS;
    var t := TableOf(vm.mem, slot);
    assert TableOk(vm.mem, slot);
    KptovPage(t);
    var m := vm.mem[(t, page % SLOTS) := e];
    forall p | 0 <= p < PAGES
      ensures Translate(m, p) == if p == page then (if e.present then Some(e.base) else None) else Translate(vm.mem, p)
    {
      if Present(vm.mem, p / SLOTS) && p / SLOTS != slot {
        assert TableOf(vm.mem, p / SLOTS) != TableOf(vm.mem, slot);
      }
    }
  }

  /** A write into a table leaves an unused frame unused. */
  lemma KeepsUnused(m: Mem, a: nat, slot: nat, i: nat, e: Entry)
    requires Unused(m, a) && slot < SLOTS && Present(m, slot) && TableOf(m, slot) != PD_FRAME
    ensures Unused(m[(TableOf(m, slot), i) := e], a)
  {
    var r := m[(TableOf(m, slot), i) := e];
    assert TableOf(m, slot) != a / PGSIZE;
    forall s | 0 <= s < SLOTS && Present(r, s) ensures TableOf(r, s) != a / PGSIZE {
      assert TableOf(r, s) == TableOf(m, s);
    }
    forall j | 0 <= j < SLOTS ensures !At(r, a / PGSIZE, j).present {
      assert !At(m, a / PGSIZE, j).present;
    }
  }

  lemma UserPageNotCritical(m: Mem, page: nat)
    requires TablesOk(m) && page < KERN_PAGE
    ensures !Critical(m, page)
  {
    forall s | 0 <= s < SLOTS && Present(m, s) ensures page != KPage(TableOf(m, s)) {
      assert TableOk(m, s);
      KptovPage(TableOf(m, s));
    }
  }

  lemma WriteEntryValid(vm: Vm, page: nat, e: Entry)
    requires Valid(vm) && page < PAGES && Present(vm.mem, page / SLOTS) && (Critical(vm.mem, page) ==> Direct(page, e))
    ensures var m := vm.mem[(TableOf(vm.mem, page / SLOTS), page % SLOTS) := e];
      && Valid(vm.(mem := m))
      && (forall s {:trigger At(m, PD_FRAME, s)} :: At(m, PD_FRAME, s) == At(vm.mem, PD_FRAME, s))
      && (forall a {:trigger Unused(m, a)} :: Unused(vm.mem, a) ==> Unused(m, a))
  {
    WriteEntryRefines(vm, page, e);
    var t := TableOf(vm.mem, page / SLOTS);
    var m := vm.mem[(t, page % SLOTS) := e];
    assert TableOk(vm.mem, page / SLOTS);
    if Direct(page, e) { KptovPage(e.base); }
    forall s | 0 <= s < SLOTS ensures TableOk(m, s) {
      assert TableOk(vm.mem, s);
      assert Present(m, s) == Present(vm.mem, s) && TableOf(m, s) == TableOf(vm.mem, s);
      if Present(m, s) { KptovPage(TableOf(m, s)); }
    }
    forall s, u | 0 <= s < u < SLOTS && Present(m, s) && Present(m, u) ensures TableOf(m, s) != TableOf(m, u) {
      assert TableOf(m, s) == TableOf(vm.mem, s) && TableOf(m, u) == TableOf(vm.mem, u);
    }
    forall a: nat | Unused(vm.mem, a) ensures Unused(m, a) { KeepsUnused(vm.mem, a, page / SLOTS, page % SLOTS, e); }
  }

  /** Entering an empty, directly mapped frame in an absent slot changes no translation. */
  lemma AddTable(vm: Vm, slot: nat, addr: nat)
    requires Valid(vm) && slot < SLOTS && !Present(vm.mem, slot)
    requires Unused(vm.mem, addr) && addr !in vm.free
    requires Translate(vm.mem, KPage(addr / PGSIZE)) == Some(addr / PGSIZE)
    ensures var m := vm.mem[(PD_FRAME, slot) := Entry(true, addr / PGSIZE)];
      && Store(vm.mem, PD_PAGE, slot, Entry(true, addr / PGSIZE)) == Some(m)
      && Valid(vm.(mem := m))
      && (forall p :: 0 <= p < PAGES ==> Translate(m, p) == Translate(vm.mem, p))
      && (forall a {:trigger Unused(m, a)} :: Unused(vm.mem, a) && a != addr ==> Unused(m, a))
  {
    var f := addr / PGSIZE;
    var m := vm.mem[(PD_FRAME, slot) := Entry(true, f)];
    forall p | 0 <= p < PAGES ensures Translate(m, p) == Translate(vm.mem, p) {
      if Present(vm.mem, p / SLOTS) { assert TableOk(vm.mem, p / SLOTS); }
      assert p / SLOTS == slot ==> !At(m, f, p % SLOTS).present by {
        assert !At(vm.mem, f, p % SLOTS).present;
      }
    }
    forall s | 0 <= s < SLOTS ensures TableOk(m, s) {
      assert TableOk(vm.mem, s);
    }
    forall s, u | 0 <= s < u < SLOTS && Present(m, s) && Present(m, u) ensures TableOf(m, s) != TableOf(m, u) {
      assert s != slot ==> TableOf(m, s) == TableOf(vm.mem, s);
      assert u != slot ==> TableOf(m, u) == TableOf(vm.mem, u);
    }
    forall a: nat | Unused(vm.mem, a) && a != addr ensures Unused(m, a) {
      assert a / PGSIZE != f;
      forall s | 0 <= s < SLOTS && Present(m, s) ensures TableOf(m, s) != a / PGSIZE {
        assert s != slot ==> TableOf(m, s) == TableOf(vm.mem, s);
      }
      forall i | 0 <= i < SLOTS ensures !At(m, a / PGSIZE, i).present {
        assert !At(vm.mem, a / PGSIZE, i).present;
      }
    }
  }

  // ----- the recursion of map_page

  /** The absent slots that map_page comes across, its own first: each takes the next free frame. */
  function Slots(m: Mem, free: seq<nat>, slot: nat): (r: seq<nat>)
    ensures |r| <= |free|
  {
    if Present(m, slot) || free == [] then []
    else [slot] + Slots(m, free[1..], DirectSlot(free[0] / PGSIZE))
  }

  /** The chain of new tables ends in a present slot before the frames run out. */
  predicate Ends(m: Mem, free: seq<nat>, slot: nat) {
    Present(m, slot) || (free != [] && Ends(m, free[1..], DirectSlot(free[0] / PGSIZE)))
  }

  /** map_page's condition: the chain of absent slots ends, and meets no slot twice. */
  ghost predicate Good(m: Mem, free: seq<nat>, slot: nat) {
    Ends(m, free, slot) && NoDup(Slots(m, free, slot))
  }

  /** r translates like m, but `page` to `frame` and the new tables to themselves. */
  ghost predicate Mapped(m: Mem, r: Mem, page: nat, frame: nat, tables: seq<nat>) {
    forall p :: 0 <= p < PAGES ==>
      Translate(r, p) ==
        if p == page then Some(frame)
        else if IsDirect(tables, p) then Some(p - KERN_PAGE)
        else Translate(m, p)
  }

  /** p is the direct page of one of these frames. */
  predicate IsDirect(tables: seq<nat>, p: nat) {
    p >= KERN_PAGE && (p - KERN_PAGE) * PGSIZE in tables
  }

  /** What one successful map_page leaves behind. */
  ghost predicate Refines(vm: Vm, r: Vm, page: nat, frame: nat) {
    var slots := Slots(vm.mem, vm.free, page / SLOTS);
    var n := |slots|;
    && r.free == vm.free[n..]
    && Valid(r)
    && Mapped(vm.mem, r.mem, page, frame, vm.free[..n])
    && (forall s {:trigger Present(r.mem, s)} :: 0 <= s < SLOTS ==>
          (Present(r.mem, s) <==> Present(vm.mem, s) || s in slots))
    && (forall s {:trigger TableOf(r.mem, s)} :: 0 <= s < SLOTS && Present(r.mem, s) ==>
          if Present(vm.mem, s) then TableOf(r.mem, s) == TableOf(vm.mem, s) else TableOf(r.mem, s) * PGSIZE in vm.free[..n])
    && (forall a {:trigger Unused(r.mem, a)} :: Unused(vm.mem, a) && a !in vm.free[..n] ==> Unused(r.mem, a))
  }

  /** map_page refines the abstract update of one page, with the tables it had to make. */
  lemma {:induction false} MapPageRefines(vm: Vm, pa: nat, va: nat)
    requires Valid(vm) && pa < ADDRESSES && va < ADDRESSES && pa % PGSIZE == 0 && va % PGSIZE == 0
    requires Harmless(va / PGSIZE, Entry(true, pa / PGSIZE))
    requires Good(vm.mem, vm.free, PdNo(va))
    ensures MapPage(vm, pa, va).Done? && Refines(vm, MapPage(vm, pa, va).vm, va / PGSIZE, pa / PGSIZE)
    decreases |vm.free|
  {
    var page, slot, e := va / PGSIZE, PdNo(va), Entry(true, pa / PGSIZE);
    AddressSplit(va);
    if Present(vm.mem, slot) {
      WriteEntryRefines(vm, page, e);
      if page < KERN_PAGE { UserPageNotCritical(vm.mem, page); }
      WriteEntryValid(vm, page, e);
    } else {
      MapAbsent(vm, pa, va);
    }
  }

  lemma NoDupTail<T>(x: T, q: seq<T>)
    requires NoDup([x] + q)
    ensures NoDup(q) && x !in q
  {
    forall i, j | 0 <= i < j < |q| ensures q[i] != q[j] {
      assert ([x] + q)[i + 1] != ([x] + q)[j + 1];
    }
    forall j | 0 <= j < |q| ensures q[j] != x {
      assert ([x] + q)[0] != ([x] + q)[j + 1];
    }
  }

  lemma {:induction false} MapAbsent(vm: Vm, pa: nat, va: nat)
    requires Valid(vm) && pa < ADDRESSES && va < ADDRESSES && pa % PGSIZE == 0 && va % PGSIZE == 0
    requires Harmless(va / PGSIZE, Entry(true, pa / PGSIZE))
    requires Good(vm.mem, vm.free, PdNo(va)) && !Present(vm.mem, PdNo(va))
    ensures MapPage(vm, pa, va).Done? && Refines(vm, MapPage(vm, pa, va).vm, va / PGSIZE, pa / PGSIZE)
    decreases |vm.free|, 0
  {
    var page, slot, e := va / PGSIZE, PdNo(va), Entry(true, pa / PGSIZE);
    var a, vm1 := vm.free[0], vm.(free := vm.free[1..]);
    assert Unused(vm.mem, a);
    KptovPage(a / PGSIZE);
    AddressSplit(va);
    AddressSplit(Kptov(a));
    var slots1 := Slots(vm1.mem, vm1.free, DirectSlot(a / PGSIZE));
    NoDupTail(slot, slots1);
    NoDupTail(a, vm1.free);
    assert vm.free == [a] + vm1.free;
    MapPageRefines(vm1, a, Kptov(a));
    var vm2 := MapPage(vm1, a, Kptov(a)).vm;
    AddTable(vm2, slot, a);
    var vm3 := vm2.(mem := vm2.mem[(PD_FRAME, slot) := Entry(true, a / PGSIZE)]);
    WriteEntryRefines(vm3, page, e);
    if page < KERN_PAGE { UserPageNotCritical(vm3.mem, page); }
    WriteEntryValid(vm3, page, e);
    MapAbsentCombines(vm, vm2, vm3, WriteEntry(vm3, page, e).vm, page, pa / PGSIZE);
  }

  /** The recursive call, the new table and the entry add up. */
  lemma MapAbsentCombines(vm: Vm, vm2: Vm, vm3: Vm, r: Vm, page: nat, frame: nat)
    requires vm.free != [] && !Present(vm.mem, page / SLOTS) && page < PAGES
    requires Refines(vm.(free := vm.free[1..]), vm2, KPage(vm.free[0] / PGSIZE), vm.free[0] / PGSIZE)
    requires Unused(vm.mem, vm.free[0])
    requires Valid(r) && vm3.free == vm2.free && r.free == vm3.free
    requires vm3.mem == vm2.mem[(PD_FRAME, page / SLOTS) := Entry(true, vm.free[0] / PGSIZE)]
    requires forall p :: 0 <= p < PAGES ==> Translate(vm3.mem, p) == Translate(vm2.mem, p)
    requires forall p :: 0 <= p < PAGES ==> Translate(r.mem, p) == if p == page then Some(frame) else Translate(vm3.mem, p)
    requires forall s {:trigger At(r.mem, PD_FRAME, s)} :: At(r.mem, PD_FRAME, s) == At(vm3.mem, PD_FRAME, s)
    requires forall a: nat {:trigger Unused(vm3.mem, a)} :: Unused(vm2.mem, a) && a != vm.free[0] ==> Unused(vm3.mem, a)
    requires forall a: nat {:trigger Unused(r.mem, a)} :: Unused(vm3.mem, a) ==> Unused(r.mem, a)
    ensures Refines(vm, r, page, frame)
  {
    var vm1, a := vm.(free := vm.free[1..]), vm.free[0];
    var slot, slots1 := page / SLOTS, Slots(vm1.mem, vm1.free, DirectSlot(a / PGSIZE));
    var n := |slots1|;
    assert Slots(vm.mem, vm.free, slot) == [slot] + slots1;
    assert vm.free[..n + 1] == [a] + vm1.free[..n];
    CombinedPages(vm, vm2.mem, r.mem, page, frame, n);
    forall s | 0 <= s < SLOTS ensures Present(r.mem, s) <==> Present(vm.mem, s) || s in [slot] + slots1 {
      assert Present(vm2.mem, s) <==> Present(vm.mem, s) || s in slots1;
      assert At(r.mem, PD_FRAME, s) == At(vm3.mem, PD_FRAME, s);
    }
    forall s | 0 <= s < SLOTS && Present(r.mem, s)
      ensures if Present(vm.mem, s) then TableOf(r.mem, s) == TableOf(vm.mem, s)
              else TableOf(r.mem, s) * PGSIZE in vm.free[..n + 1]
    {
      assert At(r.mem, PD_FRAME, s) == At(vm3.mem, PD_FRAME, s);
      if s != slot { assert TableOf(vm2.mem, s) == TableOf(vm3.mem, s) && Present(vm2.mem, s); }
    }
    forall b: nat | Unused(vm.mem, b) && b !in vm.free[..n + 1] ensures Unused(r.mem, b) {
      assert b != a && b !in vm1.free[..n];
      assert Unused(vm2.mem, b) && Unused(vm3.mem, b);
    }
  }

  lemma CombinedPages(vm: Vm, m2: Mem, r: Mem, page: nat, frame: nat, n: nat)
    requires n < |vm.free| && vm.free[0] % PGSIZE == 0 && vm.free[0] / PGSIZE < DIRECT_FRAMES
    requires Mapped(vm.mem, m2, KPage(vm.free[0] / PGSIZE), vm.free[0] / PGSIZE, vm.free[1..][..n])
    requires forall p :: 0 <= p < PAGES ==> Translate(r, p) == if p == page then Some(frame) else Translate(m2, p)
    ensures Mapped(vm.mem, r, page, frame, vm.free[..n + 1])
  {
    var a, rest := vm.free[0], vm.free[1..][..n];
    assert vm.free[..n + 1] == [a] + rest;
    KptovPage(a / PGSIZE);
    forall p | 0 <= p < PAGES ensures IsDirect(vm.free[..n + 1], p) <==> p == KPage(a / PGSIZE) || IsDirect(rest, p) {}
  }

  /** unmap_page takes one page out of the translation and touches no other. */
  lemma UnmapPageRefines(vm: Vm, va: nat)
    requires Valid(vm) && va < ADDRESSES
    ensures UnmapPage(vm, va).1.Done? && (UnmapPage(vm, va).0 <==> va != 0)
    ensures var r := UnmapPage(vm, va).1.vm;
      && r.free == vm.free
      && (forall p :: 0 <= p < PAGES ==>
            Translate(r.mem, p) == if p == va / PGSIZE && va != 0 then None else Translate(vm.mem, p))
  {
    AddressSplit(va);
    if Present(vm.mem, PdNo(va)) {
      assert TableOk(vm.mem, PdNo(va));
      KptovPage(TableOf(vm.mem, PdNo(va)));
      WriteEntryRefines(vm, va / PGSIZE, At(vm.mem, TableOf(vm.mem, PdNo(va)), PtNo(va)).(present := false));
    }
  }

  /** It keeps the tables editable exactly when the page is not one through which the kernel edits them. */
  lemma UnmapPageExact(vm: Vm, va: nat)
    requires Valid(vm) && 0 < va < ADDRESSES
    ensures UnmapPage(vm, va).1.Done? && (Valid(UnmapPage(vm, va).1.vm) <==> !Critical(vm.mem, va / PGSIZE))
  {
    AddressSplit(va);
    UnmapPageRefines(vm, va);
    var r, page := UnmapPage(vm, va).1.vm, va / PGSIZE;
    if !Critical(vm.mem, page) {
      if Present(vm.mem, PdNo(va)) {
        assert TableOk(vm.mem, PdNo(va));
        KptovPage(TableOf(vm.mem, PdNo(va)));
        var e := At(vm.mem, TableOf(vm.mem, PdNo(va)), PtNo(va)).(present := false);
        WriteEntryRefines(vm, page, e);
        WriteEntryValid(vm, page, e);
      }
    } else if page != PD_PAGE {
      var s :| 0 <= s < SLOTS && Present(vm.mem, s) && page == KPage(TableOf(vm.mem, s));
      DirectoryKept(vm, va, s);
      assert !TableOk(r.mem, s);
    }
  }

  lemma DirectoryKept(vm: Vm, va: nat, s: nat)
    requires Valid(vm) && 0 < va < ADDRESSES && s < SLOTS
    ensures UnmapPage(vm, va).1.Done? && At(UnmapPage(vm, va).1.vm.mem, PD_FRAME, s) == At(vm.mem, PD_FRAME, s)
  {
    AddressSplit(va);
    UnmapPageRefines(vm, va);
    if Present(vm.mem, PdNo(va)) {
      assert TableOk(vm.mem, PdNo(va));
      KptovPage(TableOf(vm.mem, PdNo(va)));
      WriteEntryRefines(vm, va / PGSIZE, At(vm.mem, TableOf(vm.mem, PdNo(va)), PtNo(va)).(present := false));
    }
  }

  /** User pages and unmapped pages are never critical, so unmap_page below KERN_BASE is always safe. */
  lemma UnmapUserPage(vm: Vm, va: nat)
    requires Valid(vm) && 0 < va < KERN_BASE
    ensures UnmapPage(vm, va).1.Done? && Valid(UnmapPage(vm, va).1.vm)
  {
    UserPageNotCritical(vm.mem, va / PGSIZE);
    UnmapPageExact(vm, va);
  }
}
