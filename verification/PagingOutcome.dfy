/**
 How map_page ends, for every call: with a panic, a page fault, or done; and when the
 tables are then still editable through themselves.  No call is left out, not even one that
 maps a frame which it takes for a table itself.
 */
module PagingOutcome {
  import opened Common
  import opened Paging
  import opened PagingExact

  /** Two calls in a row come across the same slot. */
  ghost predicate Adjacent(slots: seq<nat>) {
    exists k {:trigger slots[k]} :: 0 <= k < |slots| - 1 && slots[k] == slots[k + 1]
  }

  ghost predicate Request(vm: Vm, pa: nat, va: nat) {
    && Valid(vm) && pa < ADDRESSES && va < ADDRESSES && pa % PGSIZE == 0 && va % PGSIZE == 0
    && Harmless(va / PGSIZE, Entry(true, pa / PGSIZE))
  }

  /** The call that map_page makes for its table's direct page. */
  lemma InnerRequest(vm: Vm, pa: nat, va: nat)
    requires Request(vm, pa, va) && !Present(vm.mem, PdNo(va)) && vm.free != []
    ensures Request(vm.(free := vm.free[1..]), vm.free[0], Kptov(vm.free[0]))
    ensures Kptov(vm.free[0]) / PGSIZE == KPage(vm.free[0] / PGSIZE)
    ensures PdNo(Kptov(vm.free[0])) == DirectSlot(vm.free[0] / PGSIZE)
  {
    var a, rest := vm.free[0], vm.free[1..];
    assert vm.free == [a] + rest;
    assert Unused(vm.mem, a);
    NoDupTail(a, rest);
    KptovPage(a / PGSIZE);
    AddressSplit(Kptov(a));
  }

  lemma AdjacentTail(slot: nat, rest: seq<nat>)
    ensures Adjacent([slot] + rest) <==> Adjacent(rest) || (rest != [] && rest[0] == slot)
  {
    var q := [slot] + rest;
    if Adjacent(rest) {
      var k :| 0 <= k < |rest| - 1 && rest[k] == rest[k + 1];
      assert q[k + 1] == rest[k] && q[k + 2] == rest[k + 1];
    }
    if rest != [] && rest[0] == slot { assert q[0] == q[0 + 1]; }
    if Adjacent(q) && !(rest != [] && rest[0] == slot) {
      var k :| 0 <= k < |q| - 1 && q[k] == q[k + 1];
      assert rest[k - 1] == rest[k - 1 + 1];
    }
  }

  /** The new table's entry can be written unless its direct page's slot is the one just entered. */
  lemma EnteredWrites(vm: Vm, m2: Mem, page: nat, e: Entry, v3: Vm)
    requires Inner(vm, m2, page) && v3.mem == TableEntered(vm, m2, page)
    ensures if DirectSlot(vm.free[0] / PGSIZE) == page / SLOTS then WriteEntry(v3, page, e) == Fault
            else WriteEntry(v3, page, e).Done? && WriteEntry(v3, page, e).vm.free == v3.free
  {
    var a, vm1, m3 := vm.free[0], vm.(free := vm.free[1..]), v3.mem;
    var f := a / PGSIZE;
    assert vm.free == [a] + vm1.free;
    assert Unused(vm.mem, a);
    NoDupTail(a, vm1.free);
    KptovPage(f);
    PdStaysReachable(vm, m2, page);
    var s1 := DirectSlot(f);
    if s1 == page / SLOTS {
      assert EmptyRow(m2, f);
      assert !At(m2, f, KPage(f) % SLOTS).present;
    } else {
      var slots1 := Slots(vm1.mem, vm1.free, s1);
      assert At(m2, PD_FRAME, s1) == EntryAfter(vm1, slots1, s1);
      NotPdFrame(vm1, slots1, s1);
    }
  }

  /** The frames of the chain are used up, the others stay free. */
  ghost predicate Outcomes(vm: Vm, slot: nat, r: Outcome) {
    var slots := Slots(vm.mem, vm.free, slot);
    if !Ends(vm.mem, vm.free, slot) then r == Panic
    else if Adjacent(slots) then r == Fault
    else r.Done? && r.vm.free == vm.free[|slots|..]
  }

  /**
   Every call's outcome: a panic if the chain of absent slots does not end before the frames
   run out, else a page fault if two calls in a row come across one slot, else done.
   */
  lemma {:induction false} MapPageOutcome(vm: Vm, pa: nat, va: nat)
    requires Request(vm, pa, va)
    ensures Outcomes(vm, PdNo(va), MapPage(vm, pa, va))
    decreases |vm.free|
  {
    AddressSplit(va);
    if Present(vm.mem, PdNo(va)) {
      WriteEntryRefines(vm, va / PGSIZE, Entry(true, pa / PGSIZE));
    } else if !Ends(vm.mem, vm.free, PdNo(va)) {
      forall a | a in vm.free ensures a % PGSIZE == 0 && a / PGSIZE < DIRECT_FRAMES { assert Unused(vm.mem, a); }
      ExhaustionPanics(vm, pa, va);
    } else {
      var a, vm1 := vm.free[0], vm.(free := vm.free[1..]);
      InnerRequest(vm, pa, va);
      MapPageOutcome(vm1, a, Kptov(a));
      OutcomeStep(vm, pa, va, MapPage(vm1, a, Kptov(a)));
    }
  }

  lemma OutcomeStep(vm: Vm, pa: nat, va: nat, how: Outcome)
    requires Request(vm, pa, va) && !Present(vm.mem, PdNo(va)) && Ends(vm.mem, vm.free, PdNo(va))
    requires how == MapPage(vm.(free := vm.free[1..]), vm.free[0], Kptov(vm.free[0]))
    requires Outcomes(vm.(free := vm.free[1..]), DirectSlot(vm.free[0] / PGSIZE), how)
    ensures Outcomes(vm, PdNo(va), MapPage(vm, pa, va))
  {
    var a, vm1, slot, page := vm.free[0], vm.(free := vm.free[1..]), PdNo(va), va / PGSIZE;
    var slots1 := Slots(vm1.mem, vm1.free, DirectSlot(a / PGSIZE));
    AddressSplit(va);
    InnerRequest(vm, pa, va);
    AdjacentTail(slot, slots1);
    assert Slots(vm.mem, vm.free, slot) == [slot] + slots1;
    if how.Done? {
      MapPageTrace(vm1, a, Kptov(a));
      var v3 := how.vm.(mem := TableEntered(vm, how.vm.mem, page));
      EnteredWrites(vm, how.vm.mem, page, Entry(true, pa / PGSIZE), v3);
    }
  }

  // ----- the tables after a call that is done

  /** The frame that the i-th call of the recursion maps. */
  function FrameAt(free: seq<nat>, frame: nat, i: nat): nat
    requires i <= |free|
  {
    if i == 0 then frame else free[i - 1] / PGSIZE
  }

  /** Each new table's row has its own call's entry. */
  ghost predicate Rows(vm: Vm, r: Mem, page: nat, frame: nat) {
    forall i {:trigger PageAt(vm.free, page, i)} :: 0 <= i < |Slots(vm.mem, vm.free, page / SLOTS)| ==>
      At(r, vm.free[i] / PGSIZE, PageAt(vm.free, page, i) % SLOTS) == Entry(true, FrameAt(vm.free, frame, i))
  }

  /** In the slots that were present, only the page of the last call has changed. */
  ghost predicate OldPages(vm: Vm, r: Mem, page: nat, frame: nat) {
    var n := |Slots(vm.mem, vm.free, page / SLOTS)|;
    forall p {:trigger Translate(r, p)} :: 0 <= p < PAGES && Present(vm.mem, p / SLOTS) ==>
      Translate(r, p) ==
        if p == PageAt(vm.free, page, n) then Some(FrameAt(vm.free, frame, n)) else Translate(vm.mem, p)
  }

  lemma {:induction false} RowsAndPages(vm: Vm, pa: nat, va: nat)
    requires Request(vm, pa, va) && MapPage(vm, pa, va).Done?
    ensures Rows(vm, MapPage(vm, pa, va).vm.mem, va / PGSIZE, pa / PGSIZE)
    ensures OldPages(vm, MapPage(vm, pa, va).vm.mem, va / PGSIZE, pa / PGSIZE)
    decreases |vm.free|
  {
    AddressSplit(va);
    if Present(vm.mem, PdNo(va)) {
      WriteEntryRefines(vm, va / PGSIZE, Entry(true, pa / PGSIZE));
    } else {
      MapPageOutcome(vm, pa, va);
      var a, vm1 := vm.free[0], vm.(free := vm.free[1..]);
      InnerRequest(vm, pa, va);
      RowsAndPages(vm1, a, Kptov(a));
      MapPageTrace(vm1, a, Kptov(a));
      var m2 := MapPage(vm1, a, Kptov(a)).vm.mem;
      var v3 := MapPage(vm1, a, Kptov(a)).vm.(mem := TableEntered(vm, m2, va / PGSIZE));
      EnteredStores(vm, m2, va / PGSIZE, Entry(true, pa / PGSIZE), v3);
      RowsStep(vm, m2, MapPage(vm, pa, va).vm.mem, va / PGSIZE, pa / PGSIZE);
      OldPagesStep(vm, m2, MapPage(vm, pa, va).vm.mem, va / PGSIZE, pa / PGSIZE);
    }
  }

  /** r is m2 with the first table entered and its entry written. */
  ghost predicate Stepped(vm: Vm, m2: Mem, r: Mem, page: nat, frame: nat) {
    && Inner(vm, m2, page)
    && r == TableEntered(vm, m2, page)[(vm.free[0] / PGSIZE, page % SLOTS) := Entry(true, frame)]
  }

  lemma ChainStep(vm: Vm, page: nat, i: nat, frame: nat)
    requires vm.free != [] && !Present(vm.mem, page / SLOTS) && 0 < i <= |vm.free|
    ensures var f := vm.free[0] / PGSIZE;
      && Slots(vm.mem, vm.free, page / SLOTS) == [page / SLOTS] + Slots(vm.mem, vm.free[1..], KPage(f) / SLOTS)
      && PageAt(vm.free, page, i) == PageAt(vm.free[1..], KPage(f), i - 1)
      && FrameAt(vm.free, frame, i) == FrameAt(vm.free[1..], f, i - 1)
  {
  }

  lemma RowsStep(vm: Vm, m2: Mem, r: Mem, page: nat, frame: nat)
    requires Stepped(vm, m2, r, page, frame)
    requires Rows(vm.(free := vm.free[1..]), m2, KPage(vm.free[0] / PGSIZE), vm.free[0] / PGSIZE)
    ensures Rows(vm, r, page, frame)
  {
    var a, f := vm.free[0], vm.free[0] / PGSIZE;
    assert Unused(vm.mem, a);
    forall i | 0 <= i < |Slots(vm.mem, vm.free, page / SLOTS)|
      ensures At(r, vm.free[i] / PGSIZE, PageAt(vm.free, page, i) % SLOTS) == Entry(true, FrameAt(vm.free, frame, i))
    {
      if i > 0 {
        ChainStep(vm, page, i, frame);
        assert Unused(vm.mem, vm.free[i]) && vm.free[i] == vm.free[1..][i - 1] && vm.free[i] != a;
        var k := PageAt(vm.free[1..], KPage(f), i - 1);
        assert At(m2, vm.free[1..][i - 1] / PGSIZE, k % SLOTS) == Entry(true, FrameAt(vm.free[1..], f, i - 1));
      }
    }
  }

  lemma OldPagesStep(vm: Vm, m2: Mem, r: Mem, page: nat, frame: nat)
    requires Stepped(vm, m2, r, page, frame)
    requires OldPages(vm.(free := vm.free[1..]), m2, KPage(vm.free[0] / PGSIZE), vm.free[0] / PGSIZE)
    ensures OldPages(vm, r, page, frame)
  {
    var n, f := |Slots(vm.mem, vm.free, page / SLOTS)|, vm.free[0] / PGSIZE;
    ChainStep(vm, page, n, frame);
    forall p | 0 <= p < PAGES && Present(vm.mem, p / SLOTS)
      ensures Translate(r, p) ==
        if p == PageAt(vm.free, page, n) then Some(FrameAt(vm.free, frame, n)) else Translate(vm.mem, p)
    {
      OldPageKept(vm, m2, r, page, frame, p);
    }
  }

  lemma OldPageKept(vm: Vm, m2: Mem, r: Mem, page: nat, frame: nat, p: nat)
    requires Stepped(vm, m2, r, page, frame) && p < PAGES && Present(vm.mem, p / SLOTS)
    ensures Translate(r, p) == Translate(m2, p)
  {
    var vm1, f, s := vm.(free := vm.free[1..]), vm.free[0] / PGSIZE, p / SLOTS;
    var slots1 := Slots(vm1.mem, vm1.free, DirectSlot(f));
    assert Unused(vm.mem, vm.free[0]);
    assert At(m2, PD_FRAME, s) == EntryAfter(vm1, slots1, s);
    if s in slots1 { SlotsAbsent(vm1.mem, vm1.free, DirectSlot(f), s); }
    assert TableOk(vm.mem, s) && TableOf(vm.mem, s) != f;
  }

  /**
   Every table that stays in the directory is still seen at its direct page: the call that
   keeps the slot of that page is the one that mapped it.
   */
  ghost predicate Tidy(free: seq<nat>, page: nat, slots: seq<nat>)
    requires |slots| <= |free|
  {
    forall k {:trigger TidyAt(free, page, slots, k)} :: 0 <= k < |slots| ==> TidyAt(free, page, slots, k)
  }

  predicate TidyAt(free: seq<nat>, page: nat, slots: seq<nat>, k: nat)
    requires k < |slots| <= |free|
  {
    k + 1 < |slots| && First(slots, slots[k]) == k ==>
      PageAt(free, page, First(slots, slots[k + 1])) == PageAt(free, page, k + 1)
  }

  /** A successful call's memory, as far as the tables go. */
  ghost predicate Traced(vm: Vm, r: Mem, page: nat, frame: nat) {
    && Valid(vm) && page < PAGES && Harmless(page, Entry(true, frame))
    && Trace(vm, r, page, frame) && Rows(vm, r, page, frame) && OldPages(vm, r, page, frame)
  }

  /** The last call's slot is one that was present. */
  lemma {:induction false} LastPresent(m: Mem, free: seq<nat>, page: nat)
    requires Ends(m, free, page / SLOTS)
    ensures Present(m, PageAt(free, page, |Slots(m, free, page / SLOTS)|) / SLOTS)
    decreases |free|
  {
    if !Present(m, page / SLOTS) {
      LastPresent(m, free[1..], KPage(free[0] / PGSIZE));
    }
  }

  /** A new table that is not the last: where its direct page leads. */
  lemma NextTable(vm: Vm, r: Mem, page: nat, frame: nat, k: nat)
    requires Traced(vm, r, page, frame)
    requires var slots := Slots(vm.mem, vm.free, page / SLOTS); k < |slots| - 1
    ensures var slots := Slots(vm.mem, vm.free, page / SLOTS); var f := vm.free[k] / PGSIZE;
      var i := First(slots, slots[k + 1]);
      Translate(r, KPage(f)) == Some(f) <==> PageAt(vm.free, page, i) == PageAt(vm.free, page, k + 1)
  {
    var slots, f := Slots(vm.mem, vm.free, page / SLOTS), vm.free[k] / PGSIZE;
    var i := First(slots, slots[k + 1]);
    SlotAt(vm.mem, vm.free, page, k + 1);
    SlotAt(vm.mem, vm.free, page, i);
    SlotsInRange(vm.mem, vm.free, page / SLOTS, k + 1);
    assert At(r, PD_FRAME, slots[k + 1]) == EntryAfter(vm, slots, slots[k + 1]);
    assert OneEntry(r, vm.free[i] / PGSIZE, PageAt(vm.free, page, i) % SLOTS);
    assert At(r, vm.free[i] / PGSIZE, PageAt(vm.free, page, i) % SLOTS) == Entry(true, FrameAt(vm.free, frame, i));
    if PageAt(vm.free, page, i) == KPage(f) { SameFrame(vm, page, frame, i, k); }
    OneEntryPage(r, f, vm.free[i] / PGSIZE, PageAt(vm.free, page, i), FrameAt(vm.free, frame, i));
  }

  /** The page of f, in a slot whose table g has the one entry of page q. */
  lemma OneEntryPage(r: Mem, f: nat, g: nat, q: nat, h: nat)
    requires KPage(f) / SLOTS == q / SLOTS && At(r, PD_FRAME, q / SLOTS) == Entry(true, g)
    requires OneEntry(r, g, q % SLOTS) && At(r, g, q % SLOTS) == Entry(true, h)
    requires q == KPage(f) ==> h == f
    ensures Translate(r, KPage(f)) == Some(f) <==> q == KPage(f)
  {
    if q != KPage(f) { assert !At(r, g, KPage(f) % SLOTS).present; }
  }

  /** A call that maps the direct page of a new table maps that table's frame. */
  lemma SameFrame(vm: Vm, page: nat, frame: nat, i: nat, k: nat)
    requires Valid(vm) && Harmless(page, Entry(true, frame)) && i <= |vm.free| && k < |vm.free|
    requires PageAt(vm.free, page, i) == KPage(vm.free[k] / PGSIZE)
    ensures FrameAt(vm.free, frame, i) == vm.free[k] / PGSIZE
  {
    assert Unused(vm.mem, vm.free[k]);
    KptovPage(vm.free[k] / PGSIZE);
    if i > 0 {
      assert Unused(vm.mem, vm.free[i - 1]);
      KptovPage(vm.free[i - 1] / PGSIZE);
    } else {
      KptovPage(frame);
    }
  }

  /** A table that was there before is still seen at its direct page. */
  lemma OldTableOk(vm: Vm, r: Mem, page: nat, frame: nat, s: nat)
    requires Traced(vm, r, page, frame) && s < SLOTS && Present(vm.mem, s)
    requires s !in Slots(vm.mem, vm.free, page / SLOTS)
    ensures TableOk(r, s) && TableOf(r, s) == TableOf(vm.mem, s)
  {
    var n, t := |Slots(vm.mem, vm.free, page / SLOTS)|, TableOf(vm.mem, s);
    assert At(r, PD_FRAME, s) == EntryAfter(vm, Slots(vm.mem, vm.free, page / SLOTS), s);
    assert TableOk(vm.mem, s);
    KptovPage(t);
    if KPage(t) == PageAt(vm.free, page, n) {
      if n > 0 {
        assert Unused(vm.mem, vm.free[n - 1]);
        KptovPage(vm.free[n - 1] / PGSIZE);
      } else {
        KptovPage(frame);
      }
    }
    assert Translate(r, KPage(t)) == Some(t);
  }

  /** The table entered in a new slot. */
  lemma NewTable(vm: Vm, r: Mem, page: nat, frame: nat, s: nat)
    requires Traced(vm, r, page, frame) && s in Slots(vm.mem, vm.free, page / SLOTS)
    ensures s < SLOTS && !Present(vm.mem, s)
    ensures At(r, PD_FRAME, s) == Entry(true, vm.free[First(Slots(vm.mem, vm.free, page / SLOTS), s)] / PGSIZE)
  {
    SlotsAbsent(vm.mem, vm.free, page / SLOTS, s);
    TraceEntry(vm, r, page, frame, s, First(Slots(vm.mem, vm.free, page / SLOTS), s));
  }

  lemma LastTableOk(vm: Vm, r: Mem, page: nat, frame: nat)
    requires Traced(vm, r, page, frame) && Ends(vm.mem, vm.free, page / SLOTS)
    requires Slots(vm.mem, vm.free, page / SLOTS) != []
    ensures var f := vm.free[|Slots(vm.mem, vm.free, page / SLOTS)| - 1] / PGSIZE; Translate(r, KPage(f)) == Some(f)
  {
    var n := |Slots(vm.mem, vm.free, page / SLOTS)|;
    LastPresent(vm.mem, vm.free, page);
    assert PageAt(vm.free, page, n) == KPage(vm.free[n - 1] / PGSIZE);
  }

  /** Table k of the chain, if it stays in the directory. */
  lemma NewTableSeen(vm: Vm, r: Mem, page: nat, frame: nat, k: nat)
    requires Traced(vm, r, page, frame) && Ends(vm.mem, vm.free, page / SLOTS)
    requires Tidy(vm.free, page, Slots(vm.mem, vm.free, page / SLOTS))
    requires var slots := Slots(vm.mem, vm.free, page / SLOTS); k < |slots| && First(slots, slots[k]) == k
    ensures Translate(r, KPage(vm.free[k] / PGSIZE)) == Some(vm.free[k] / PGSIZE)
  {
    var slots := Slots(vm.mem, vm.free, page / SLOTS);
    if k + 1 < |slots| {
      NextTable(vm, r, page, frame, k);
      assert TidyAt(vm.free, page, slots, k);
    } else {
      LastTableOk(vm, r, page, frame);
    }
  }

  lemma NewTableOk(vm: Vm, r: Mem, page: nat, frame: nat, s: nat)
    requires Traced(vm, r, page, frame) && Ends(vm.mem, vm.free, page / SLOTS)
    requires s in Slots(vm.mem, vm.free, page / SLOTS)
    requires Tidy(vm.free, page, Slots(vm.mem, vm.free, page / SLOTS))
    ensures s < SLOTS && TableOk(r, s)
  {
    var k := First(Slots(vm.mem, vm.free, page / SLOTS), s);
    NewTable(vm, r, page, frame, s);
    NewTableSeen(vm, r, page, frame, k);
    assert Unused(vm.mem, vm.free[k]);
  }

  /** A table in the directory is an old one, or one of the frames that the call took. */
  lemma TableFrom(vm: Vm, r: Mem, page: nat, frame: nat, s: nat)
    requires Traced(vm, r, page, frame) && s < SLOTS && Present(r, s)
    ensures var slots := Slots(vm.mem, vm.free, page / SLOTS);
      if s in slots
      then TableOf(r, s) * PGSIZE == vm.free[First(slots, s)] && Unused(vm.mem, vm.free[First(slots, s)])
      else Present(vm.mem, s) && TableOf(r, s) == TableOf(vm.mem, s)
  {
    var slots := Slots(vm.mem, vm.free, page / SLOTS);
    assert At(r, PD_FRAME, s) == EntryAfter(vm, slots, s);
    if s in slots { assert Unused(vm.mem, vm.free[First(slots, s)]); }
  }

  lemma TablesDistinct(vm: Vm, r: Mem, page: nat, frame: nat, s: nat, u: nat)
    requires Traced(vm, r, page, frame) && s < u < SLOTS && Present(r, s) && Present(r, u)
    ensures TableOf(r, s) != TableOf(r, u)
  {
    var slots := Slots(vm.mem, vm.free, page / SLOTS);
    TableFrom(vm, r, page, frame, s);
    TableFrom(vm, r, page, frame, u);
    if s in slots && u in slots {
      FirstApart(slots, s, u);
      assert vm.free[First(slots, s)] != vm.free[First(slots, u)];
    } else if s in slots {
      assert TableOf(vm.mem, u) != vm.free[First(slots, s)] / PGSIZE;
    } else if u in slots {
      assert TableOf(vm.mem, s) != vm.free[First(slots, u)] / PGSIZE;
    }
  }

  lemma FirstApart(slots: seq<nat>, s: nat, u: nat)
    requires s in slots && u in slots && s != u
    ensures First(slots, s) != First(slots, u)
  {
    assert slots[First(slots, s)] == s && slots[First(slots, u)] == u;
  }

  lemma RestUnused(vm: Vm, r: Mem, page: nat, frame: nat, a: nat)
    requires Traced(vm, r, page, frame) && a in vm.free[|Slots(vm.mem, vm.free, page / SLOTS)|..]
    ensures Unused(r, a)
  {
    var slots := Slots(vm.mem, vm.free, page / SLOTS);
    var j :| |slots| <= j < |vm.free| && vm.free[j] == a;
    assert Unused(vm.mem, a);
    assert EmptyRow(r, a / PGSIZE) by { assert a !in vm.free[..|slots|]; }
    forall s | 0 <= s < SLOTS && Present(r, s) ensures TableOf(r, s) != a / PGSIZE {
      TableFrom(vm, r, page, frame, s);
      if s in slots { assert vm.free[First(slots, s)] != vm.free[j]; }
    }
  }

  lemma TidyStays(vm: Vm, r: Vm, page: nat, frame: nat)
    requires Traced(vm, r.mem, page, frame) && Ends(vm.mem, vm.free, page / SLOTS)
    requires r.free == vm.free[|Slots(vm.mem, vm.free, page / SLOTS)|..]
    requires Tidy(vm.free, page, Slots(vm.mem, vm.free, page / SLOTS))
    ensures Valid(r)
  {
    var slots := Slots(vm.mem, vm.free, page / SLOTS);
    forall s | 0 <= s < SLOTS ensures TableOk(r.mem, s) {
      assert At(r.mem, PD_FRAME, s) == EntryAfter(vm, slots, s);
      if s in slots {
        NewTableOk(vm, r.mem, page, frame, s);
      } else if Present(vm.mem, s) {
        OldTableOk(vm, r.mem, page, frame, s);
      }
    }
    forall s, u | 0 <= s < u < SLOTS && Present(r.mem, s) && Present(r.mem, u) ensures TableOf(r.mem, s) != TableOf(r.mem, u) {
      TablesDistinct(vm, r.mem, page, frame, s, u);
    }
    forall a | a in r.free ensures Unused(r.mem, a) { RestUnused(vm, r.mem, page, frame, a); }
  }

  lemma ValidTidy(vm: Vm, r: Mem, page: nat, frame: nat)
    requires Traced(vm, r, page, frame) && TablesOk(r)
    ensures Tidy(vm.free, page, Slots(vm.mem, vm.free, page / SLOTS))
  {
    var slots := Slots(vm.mem, vm.free, page / SLOTS);
    forall k | 0 <= k < |slots| ensures TidyAt(vm.free, page, slots, k) {
      if k + 1 < |slots| && First(slots, slots[k]) == k {
        NewTable(vm, r, page, frame, slots[k]);
        assert TableOk(r, slots[k]);
        NextTable(vm, r, page, frame, k);
      }
    }
  }

  /**
   map_page, for every request from tables that can be edited through themselves: it is done
   and leaves such tables if and only if its chain of absent slots ends before the frames run
   out, no two calls in a row come across one slot, and the chain is tidy.
   */
  lemma MapPageAlways(vm: Vm, pa: nat, va: nat)
    requires Request(vm, pa, va)
    ensures var slots := Slots(vm.mem, vm.free, PdNo(va));
      MapPage(vm, pa, va).Done? && Valid(MapPage(vm, pa, va).vm) <==>
        Ends(vm.mem, vm.free, PdNo(va)) && !Adjacent(slots) && Tidy(vm.free, va / PGSIZE, slots)
  {
    AddressSplit(va);
    MapPageOutcome(vm, pa, va);
    if MapPage(vm, pa, va).Done? {
      var r := MapPage(vm, pa, va).vm;
      MapPageTrace(vm, pa, va);
      RowsAndPages(vm, pa, va);
      if Valid(r) { ValidTidy(vm, r.mem, va / PGSIZE, pa / PGSIZE); }
      if Tidy(vm.free, va / PGSIZE, Slots(vm.mem, vm.free, PdNo(va))) { TidyStays(vm, r, va / PGSIZE, pa / PGSIZE); }
    }
  }

  // ----- calls that do not take their own frame for a table

  /** map_page maps a frame at its direct page and takes the same frame for a table on the way. */
  predicate OwnTable(vm: Vm, pa: nat, va: nat) {
    va >= KERN_BASE && pa in vm.free[..|Slots(vm.mem, vm.free, PdNo(va))|]
  }

  lemma NoRepeatTidy(free: seq<nat>, page: nat, slots: seq<nat>)
    requires |slots| <= |free| && NoDup(slots)
    ensures !Adjacent(slots) && Tidy(free, page, slots)
  {
    forall k | 0 <= k < |slots| ensures TidyAt(free, page, slots, k) {
      if k + 1 < |slots| { assert First(slots, slots[k + 1]) == k + 1; }
    }
  }

  lemma NotTidyAt(free: seq<nat>, page: nat, slots: seq<nat>, i: nat, j: nat)
    requires i < j < |slots| <= |free| && slots[i] == slots[j] && NoDup(slots[..j])
    requires PageAt(free, page, i) != PageAt(free, page, j)
    ensures !Tidy(free, page, slots)
  {
    FirstAt(slots, i, j);
    FirstAt(slots, j - 1, j);
    assert !TidyAt(free, page, slots, j - 1);
  }

  /** At the first repetition the chain is not tidy: the table before it is out of sight. */
  lemma RepeatNotTidy(vm: Vm, pa: nat, va: nat)
    requires Request(vm, pa, va) && !OwnTable(vm, pa, va) && !NoDup(Slots(vm.mem, vm.free, PdNo(va)))
    ensures !Tidy(vm.free, va / PGSIZE, Slots(vm.mem, vm.free, PdNo(va)))
  {
    var slots, page := Slots(vm.mem, vm.free, PdNo(va)), va / PGSIZE;
    var i, j := FirstRepeat(slots);
    if PageAt(vm.free, page, i) == PageAt(vm.free, page, j) {
      OwnPage(vm, pa, va, i, j);
      assert false;
    }
    NotTidyAt(vm.free, page, slots, i, j);
  }

  lemma OwnPage(vm: Vm, pa: nat, va: nat, i: nat, j: nat)
    requires Request(vm, pa, va) && i < j <= |Slots(vm.mem, vm.free, PdNo(va))|
    requires PageAt(vm.free, va / PGSIZE, i) == PageAt(vm.free, va / PGSIZE, j)
    ensures OwnTable(vm, pa, va)
  {
    if i > 0 {
      DistinctDirect(vm, i - 1, j - 1);
    } else {
      SameFrame(vm, va / PGSIZE, pa / PGSIZE, 0, j - 1);
      assert Unused(vm.mem, vm.free[j - 1]);
      KptovPage(vm.free[j - 1] / PGSIZE);
      assert pa == vm.free[j - 1] && vm.free[j - 1] in vm.free[..|Slots(vm.mem, vm.free, PdNo(va))|];
    }
  }

  /** A slot met twice makes a table unreachable. */
  lemma RepeatLosesTable(vm: Vm, pa: nat, va: nat)
    requires Request(vm, pa, va) && !OwnTable(vm, pa, va) && !NoDup(Slots(vm.mem, vm.free, PdNo(va)))
    requires MapPage(vm, pa, va).Done?
    ensures !TablesOk(MapPage(vm, pa, va).vm.mem)
  {
    AddressSplit(va);
    MapPageTrace(vm, pa, va);
    RowsAndPages(vm, pa, va);
    RepeatNotTidy(vm, pa, va);
    if TablesOk(MapPage(vm, pa, va).vm.mem) { ValidTidy(vm, MapPage(vm, pa, va).vm.mem, va / PGSIZE, pa / PGSIZE); }
  }

  /** A frame that is its own call's table makes the chain meet the first slot again. */
  lemma OwnTableRepeats(vm: Vm, pa: nat, va: nat)
    requires Request(vm, pa, va) && OwnTable(vm, pa, va)
    ensures !Good(vm.mem, vm.free, PdNo(va))
  {
    var n, page := |Slots(vm.mem, vm.free, PdNo(va))|, va / PGSIZE;
    AddressSplit(va);
    var j :| 0 <= j < n && vm.free[..n][j] == pa;
    assert page == KPage(pa / PGSIZE) == PageAt(vm.free, page, j + 1);
    if Ends(vm.mem, vm.free, PdNo(va)) {
      LastPresent(vm.mem, vm.free, page);
      SlotAt(vm.mem, vm.free, page, 0);
      if j + 1 < n { SlotAt(vm.mem, vm.free, page, j + 1); }
    }
  }

  /**
   So map_page succeeds and leaves every table editable exactly when its chain of absent slots
   ends in a present one before the frames run out, and meets no slot twice; but a call that
   takes its own frame for a table always meets one twice, and then the chain need only be tidy.
   */
  lemma MapPageExact(vm: Vm, pa: nat, va: nat)
    requires Request(vm, pa, va)
    ensures var slots, editable := Slots(vm.mem, vm.free, PdNo(va)), MapPage(vm, pa, va).Done? && Valid(MapPage(vm, pa, va).vm);
      if OwnTable(vm, pa, va)
      then !Good(vm.mem, vm.free, PdNo(va))
           && (editable <==> Ends(vm.mem, vm.free, PdNo(va)) && !Adjacent(slots) && Tidy(vm.free, va / PGSIZE, slots))
      else editable <==> Good(vm.mem, vm.free, PdNo(va))
  {
    MapPageAlways(vm, pa, va);
    if OwnTable(vm, pa, va) {
      OwnTableRepeats(vm, pa, va);
    } else if NoDup(Slots(vm.mem, vm.free, PdNo(va))) {
      NoRepeatTidy(vm.free, va / PGSIZE, Slots(vm.mem, vm.free, PdNo(va)));
    } else {
      RepeatNotTidy(vm, pa, va);
    }
  }
}
