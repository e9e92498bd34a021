/**
 What map_page's recursion leaves behind.  A new table is reached through its direct page;
 if that page's own slot is absent, another table is made first, and so on.  A slot met
 twice on the way is overwritten: the table entered last is the one of the outer call.
 */
module PagingExact {
  import opened Common
  import opened Paging

  /** Without a present slot at its end the chain uses up the frames, and NO_ADDR makes map_page panic. */
  lemma {:induction false} ExhaustionPanics(vm: Vm, pa: nat, va: nat)
    requires Translate(vm.mem, PD_PAGE) == Some(PD_FRAME)
    requires pa % PGSIZE == 0 && va % PGSIZE == 0 && va < ADDRESSES
    requires forall a :: a in vm.free ==> a % PGSIZE == 0 && a / PGSIZE < DIRECT_FRAMES
    requires !Ends(vm.mem, vm.free, PdNo(va))
    ensures MapPage(vm, pa, va) == Panic
    decreases |vm.free|
  {
    if vm.free != [] {
      var a := vm.free[0];
      assert a in vm.free;
      KptovPage(a / PGSIZE);
      assert a == a / PGSIZE * PGSIZE;
      AddressSplit(Kptov(a));
      forall b | b in vm.free[1..] ensures b in vm.free {}
      ExhaustionPanics(vm.(free := vm.free[1..]), a, Kptov(a));
    }
  }

  /** The page that the i-th call of the recursion maps. */
  function PageAt(free: seq<nat>, page: nat, i: nat): nat
    requires i <= |free|
  {
    if i == 0 then page else KPage(free[i - 1] / PGSIZE)
  }

  /** The first place of s in q. */
  function First(q: seq<nat>, s: nat): (i: nat)
    requires s in q
    ensures i < |q| && q[i] == s
    ensures forall k :: 0 <= k < i ==> q[k] != s
  {
    if q[0] == s then 0 else First(q[1..], s) + 1
  }

  /** The directory entry of slot s after a successful map_page: the last table entered is the first met. */
  function EntryAfter(vm: Vm, slots: seq<nat>, s: nat): Entry
    requires |slots| <= |vm.free|
  {
    if s in slots then Entry(true, vm.free[First(slots, s)] / PGSIZE) else At(vm.mem, PD_FRAME, s)
  }

  /** A new table holds at most the entry that its own call wrote. */
  ghost predicate OneEntry(r: Mem, frame: nat, i: nat) {
    forall j {:trigger At(r, frame, j)} :: 0 <= j < SLOTS && At(r, frame, j).present ==> j == i
  }

  /** What a successful map_page leaves, slots repeated or not. */
  ghost predicate Trace(vm: Vm, r: Mem, page: nat, frame: nat) {
    var slots := Slots(vm.mem, vm.free, page / SLOTS);
    && Translate(r, PD_PAGE) == Some(PD_FRAME)
    && Translate(r, page) == Some(frame)
    && (forall s {:trigger At(r, PD_FRAME, s)} :: 0 <= s < SLOTS ==> At(r, PD_FRAME, s) == EntryAfter(vm, slots, s))
    && (forall i {:trigger PageAt(vm.free, page, i)} :: 0 <= i < |slots| ==>
          OneEntry(r, vm.free[i] / PGSIZE, PageAt(vm.free, page, i) % SLOTS))
    && (forall a: nat {:trigger EmptyRow(r, a / PGSIZE)} ::
          Unused(vm.mem, a) && a !in vm.free[..|slots|] ==> EmptyRow(r, a / PGSIZE))
  }

  lemma BaseTrace(vm: Vm, pa: nat, va: nat)
    requires Valid(vm) && pa < ADDRESSES && va < ADDRESSES && pa % PGSIZE == 0 && va % PGSIZE == 0
    requires Harmless(va / PGSIZE, Entry(true, pa / PGSIZE)) && Present(vm.mem, PdNo(va))
    ensures MapPage(vm, pa, va).Done? && Trace(vm, MapPage(vm, pa, va).vm.mem, va / PGSIZE, pa / PGSIZE)
  {
    AddressSplit(va);
    var e := Entry(true, pa / PGSIZE);
    WriteEntryRefines(vm, va / PGSIZE, e);
    if va / PGSIZE < KERN_PAGE { UserPageNotCritical(vm.mem, va / PGSIZE); }
    WriteEntryValid(vm, va / PGSIZE, e);
    forall a: nat | Unused(vm.mem, a) ensures EmptyRow(MapPage(vm, pa, va).vm.mem, a / PGSIZE) {
      assert TableOk(vm.mem, PdNo(va));
      KeepsUnused(vm.mem, a, PdNo(va), va / PGSIZE % SLOTS, e);
    }
  }

  lemma {:induction false} MapPageTrace(vm: Vm, pa: nat, va: nat)
    requires Valid(vm) && pa < ADDRESSES && va < ADDRESSES && pa % PGSIZE == 0 && va % PGSIZE == 0
    requires Harmless(va / PGSIZE, Entry(true, pa / PGSIZE)) && MapPage(vm, pa, va).Done?
    ensures Trace(vm, MapPage(vm, pa, va).vm.mem, va / PGSIZE, pa / PGSIZE)
    decreases |vm.free|
  {
    AddressSplit(va);
    if Present(vm.mem, PdNo(va)) {
      BaseTrace(vm, pa, va);
    } else {
      assert vm.free != [];
      var a, vm1 := vm.free[0], vm.(free := vm.free[1..]);
      assert vm.free == [a] + vm1.free;
      assert Unused(vm.mem, a);
      NoDupTail(a, vm1.free);
      KptovPage(a / PGSIZE);
      AddressSplit(Kptov(a));
      MapPageTrace(vm1, a, Kptov(a));
      var m2 := MapPage(vm1, a, Kptov(a)).vm.mem;
      var v3 := MapPage(vm1, a, Kptov(a)).vm.(mem := TableEntered(vm, m2, va / PGSIZE));
      EnteredStores(vm, m2, va / PGSIZE, Entry(true, pa / PGSIZE), v3);
      TraceStep(vm, m2, MapPage(vm, pa, va).vm.mem, va / PGSIZE, pa / PGSIZE);
    }
  }

  lemma {:induction false} SlotsAbsent(m: Mem, free: seq<nat>, slot: nat, s: nat)
    requires s in Slots(m, free, slot)
    ensures !Present(m, s)
  {
    if s != slot { SlotsAbsent(m, free[1..], DirectSlot(free[0] / PGSIZE), s); }
  }

  /** m2 is memory after the recursive call for a page in an absent slot. */
  ghost predicate Inner(vm: Vm, m2: Mem, page: nat) {
    && Valid(vm) && vm.free != [] && !Present(vm.mem, page / SLOTS) && page < PAGES
    && Trace(vm.(free := vm.free[1..]), m2, KPage(vm.free[0] / PGSIZE), vm.free[0] / PGSIZE)
  }

  function TableEntered(vm: Vm, m2: Mem, page: nat): Mem
    requires vm.free != []
  {
    m2[(PD_FRAME, page / SLOTS) := Entry(true, vm.free[0] / PGSIZE)]
  }

  /** Tables of directory entries are never the directory itself. */
  lemma NotPdFrame(vm: Vm, slots: seq<nat>, s: nat)
    requires Valid(vm) && |slots| <= |vm.free| && s < SLOTS && EntryAfter(vm, slots, s).present
    ensures EntryAfter(vm, slots, s).base != PD_FRAME
  {
    if s in slots {
      assert Unused(vm.mem, vm.free[First(slots, s)]);
    } else {
      assert TableOk(vm.mem, s);
    }
  }

  lemma PdStaysReachable(vm: Vm, m2: Mem, page: nat)
    requires Inner(vm, m2, page)
    ensures page / SLOTS != PD_PAGE / SLOTS
    ensures Translate(TableEntered(vm, m2, page), PD_PAGE) == Some(PD_FRAME)
  {
    var vm1 := vm.(free := vm.free[1..]);
    var s := PD_PAGE / SLOTS;
    assert At(m2, PD_FRAME, s) == EntryAfter(vm1, Slots(vm1.mem, vm1.free, DirectSlot(vm.free[0] / PGSIZE)), s);
    NotPdFrame(vm1, Slots(vm1.mem, vm1.free, DirectSlot(vm.free[0] / PGSIZE)), s);
  }

  lemma EnteredStores(vm: Vm, m2: Mem, page: nat, e: Entry, v3: Vm)
    requires Inner(vm, m2, page) && v3.mem == TableEntered(vm, m2, page)
    requires WriteEntry(v3, page, e).Done?
    ensures DirectSlot(vm.free[0] / PGSIZE) != page / SLOTS
    ensures WriteEntry(v3, page, e).vm.mem == v3.mem[(vm.free[0] / PGSIZE, page % SLOTS) := e]
  {
    var a, vm1, m3 := vm.free[0], vm.(free := vm.free[1..]), v3.mem;
    var f := a / PGSIZE;
    assert vm.free == [a] + vm1.free;
    assert Unused(vm.mem, a);
    NoDupTail(a, vm1.free);
    KptovPage(f);
    PdStaysReachable(vm, m2, page);
    assert EmptyRow(m2, f);
    assert EmptyRow(m3, f) by {
      forall i | 0 <= i < SLOTS ensures !At(m3, f, i).present { assert !At(m2, f, i).present; }
    }
    var s1 := DirectSlot(f);
    assert !At(m3, f, KPage(f) % SLOTS).present;
    if s1 != page / SLOTS {
      var slots1 := Slots(vm1.mem, vm1.free, s1);
      assert At(m2, PD_FRAME, s1) == EntryAfter(vm1, slots1, s1);
      NotPdFrame(vm1, slots1, s1);
    }
  }

  lemma TraceStep(vm: Vm, m2: Mem, r: Mem, page: nat, frame: nat)
    requires Inner(vm, m2, page)
    requires DirectSlot(vm.free[0] / PGSIZE) != page / SLOTS
    requires r == TableEntered(vm, m2, page)[(vm.free[0] / PGSIZE, page % SLOTS) := Entry(true, frame)]
    ensures Trace(vm, r, page, frame)
  {
    var a, vm1, slot := vm.free[0], vm.(free := vm.free[1..]), page / SLOTS;
    var f := a / PGSIZE;
    assert vm.free == [a] + vm1.free;
    assert Unused(vm.mem, a);
    NoDupTail(a, vm1.free);
    PdStaysReachable(vm, m2, page);
    var slots1 := Slots(vm1.mem, vm1.free, DirectSlot(f));
    var slots := Slots(vm.mem, vm.free, slot);
    assert slots == [slot] + slots1;
    assert vm.free[..|slots|] == [a] + vm1.free[..|slots1|];
    TraceStepPd(vm, m2, r, page, frame);
    TraceStepRows(vm, m2, r, page, frame);
  }

  lemma TraceStepPd(vm: Vm, m2: Mem, r: Mem, page: nat, frame: nat)
    requires Inner(vm, m2, page)
    requires r == TableEntered(vm, m2, page)[(vm.free[0] / PGSIZE, page % SLOTS) := Entry(true, frame)]
    ensures Translate(r, PD_PAGE) == Some(PD_FRAME) && Translate(r, page) == Some(frame)
    ensures var slots := Slots(vm.mem, vm.free, page / SLOTS);
      forall s {:trigger At(r, PD_FRAME, s)} :: 0 <= s < SLOTS ==> At(r, PD_FRAME, s) == EntryAfter(vm, slots, s)
  {
    var a, vm1, slot := vm.free[0], vm.(free := vm.free[1..]), page / SLOTS;
    var f := a / PGSIZE;
    assert Unused(vm.mem, a);
    PdStaysReachable(vm, m2, page);
    var slots1 := Slots(vm1.mem, vm1.free, DirectSlot(f));
    var slots := Slots(vm.mem, vm.free, slot);
    assert slots == [slot] + slots1 && slots[1..] == slots1;
    forall s | 0 <= s < SLOTS ensures At(r, PD_FRAME, s) == EntryAfter(vm, slots, s) {
      assert At(m2, PD_FRAME, s) == EntryAfter(vm1, slots1, s);
    }
    var k := PD_PAGE / SLOTS;
    assert At(r, PD_FRAME, k) == At(m2, PD_FRAME, k);
    assert TableOk(vm.mem, k);
    if k in slots1 { SlotsAbsent(vm1.mem, vm1.free, DirectSlot(f), k); }
  }

  lemma TraceStepRows(vm: Vm, m2: Mem, r: Mem, page: nat, frame: nat)
    requires Inner(vm, m2, page)
    requires r == TableEntered(vm, m2, page)[(vm.free[0] / PGSIZE, page % SLOTS) := Entry(true, frame)]
    ensures var slots := Slots(vm.mem, vm.free, page / SLOTS);
      && (forall i {:trigger PageAt(vm.free, page, i)} :: 0 <= i < |slots| ==>
            OneEntry(r, vm.free[i] / PGSIZE, PageAt(vm.free, page, i) % SLOTS))
      && (forall b: nat {:trigger EmptyRow(r, b / PGSIZE)} ::
            Unused(vm.mem, b) && b !in vm.free[..|slots|] ==> EmptyRow(r, b / PGSIZE))
  {
    var a, vm1, slot := vm.free[0], vm.(free := vm.free[1..]), page / SLOTS;
    var f := a / PGSIZE;
    assert vm.free == [a] + vm1.free;
    assert Unused(vm.mem, a);
    NoDupTail(a, vm1.free);
    var slots1 := Slots(vm1.mem, vm1.free, DirectSlot(f));
    var slots := Slots(vm.mem, vm.free, slot);
    assert slots == [slot] + slots1;
    assert vm.free[..|slots|] == [a] + vm1.free[..|slots1|];
    forall i | 0 <= i < |slots| ensures OneEntry(r, vm.free[i] / PGSIZE, PageAt(vm.free, page, i) % SLOTS) {
      if i == 0 {
        assert EmptyRow(m2, f);
        forall j | 0 <= j < SLOTS && At(r, f, j).present ensures j == page % SLOTS { assert !At(m2, f, j).present; }
      } else {
        assert Unused(vm.mem, vm.free[i]) && vm.free[i] == vm1.free[i - 1] && vm.free[i] != a;
        assert OneEntry(m2, vm1.free[i - 1] / PGSIZE, PageAt(vm1.free, KPage(f), i - 1) % SLOTS);
        RowKept(m2, vm.free[i] / PGSIZE, slot, Entry(true, f), f, page % SLOTS, Entry(true, frame));
      }
    }
    forall b: nat | Unused(vm.mem, b) && b !in vm.free[..|slots|] ensures EmptyRow(r, b / PGSIZE) {
      assert b != a && b !in vm1.free[..|slots1|];
      assert EmptyRow(m2, b / PGSIZE);
      forall j | 0 <= j < SLOTS ensures !At(r, b / PGSIZE, j).present { assert !At(m2, b / PGSIZE, j).present; }
    }
  }

  lemma RowKept(m: Mem, g: nat, slot: nat, d: Entry, f: nat, i: nat, e: Entry)
    requires g != f && g != PD_FRAME
    ensures var r := m[(PD_FRAME, slot) := d][(f, i) := e];
      forall j {:trigger At(r, g, j)} :: 0 <= j < SLOTS ==> At(r, g, j) == At(m, g, j)
  {
  }

  lemma {:induction false} SlotAt(m: Mem, free: seq<nat>, page: nat, i: nat)
    requires i < |Slots(m, free, page / SLOTS)| && i <= |free|
    ensures Slots(m, free, page / SLOTS)[i] == PageAt(free, page, i) / SLOTS
  {
    if i > 0 {
      SlotAt(m, free[1..], KPage(free[0] / PGSIZE), i - 1);
    }
  }

  lemma FirstAt(q: seq<nat>, i: nat, j: nat)
    requires i < j <= |q| && NoDup(q[..j])
    ensures First(q, q[i]) == i
  {
    forall k | 0 <= k < i ensures q[k] != q[i] { assert q[..j][k] != q[..j][i]; }
  }

  lemma DistinctDirect(vm: Vm, i: nat, j: nat)
    requires Valid(vm) && i < j < |vm.free|
    ensures KPage(vm.free[i] / PGSIZE) != KPage(vm.free[j] / PGSIZE)
  {
    assert Unused(vm.mem, vm.free[i]) && Unused(vm.mem, vm.free[j]);
    KptovPage(vm.free[i] / PGSIZE);
    KptovPage(vm.free[j] / PGSIZE);
  }

  lemma TraceEntry(vm: Vm, r: Mem, page: nat, frame: nat, s: nat, k: nat)
    requires Trace(vm, r, page, frame) && page < PAGES
    requires var slots := Slots(vm.mem, vm.free, page / SLOTS); s in slots && First(slots, s) == k
    ensures s < SLOTS && At(r, PD_FRAME, s) == Entry(true, vm.free[k] / PGSIZE)
  {
    SlotsInRange(vm.mem, vm.free, page / SLOTS, k);
    assert At(r, PD_FRAME, s) == EntryAfter(vm, Slots(vm.mem, vm.free, page / SLOTS), s);
  }

  lemma SlotsInRange(m: Mem, free: seq<nat>, slot: nat, i: nat)
    requires slot < SLOTS && i < |Slots(m, free, slot)|
    ensures Slots(m, free, slot)[i] < SLOTS
  {
    if i > 0 { SlotsInRange(m, free[1..], DirectSlot(free[0] / PGSIZE), i - 1); }
  }

  /** The first repetition in a sequence. */
  lemma FirstRepeat(q: seq<nat>) returns (i: nat, j: nat)
    requires !NoDup(q)
    ensures i < j < |q| && q[i] == q[j] && NoDup(q[..j])
  {
    if q != [] && !NoDup(q[..|q| - 1]) {
      i, j := FirstRepeat(q[..|q| - 1]);
      assert q[..|q| - 1][..j] == q[..j];
    } else {
      i, j :| 0 <= i < j < |q| && q[i] == q[j];
      forall x, y | 0 <= x < y < |q| - 1 ensures q[x] != q[y] { assert q[..|q| - 1][x] != q[..|q| - 1][y]; }
      assert q[..|q| - 1] == q[..j];
    }
  }
}
