/**
 Where the code goes wrong from the boot tables: a frame list that makes map_page's chain meet
 a slot twice, one that makes it endless, the one page that must not be unmapped, and two pages
 of palloc_kern that are not a range.
 */
module PagingWitness {
  import opened Common
  import opened Paging
  import opened PagingExact
  import opened PagingOutcome
  import opened PagingAlloc
  import opened PagingFrames
  import opened PagingServe
  import opened PagingReady
  import opened PagingBoot
  import opened PagingRange

  /** Memory with the boot tables and nothing else. */
  function BootMem(): Mem {
    map f: nat, i: nat | f < 0x1406 && i < SLOTS :: (f, i) := BootWord(f, i)
  }

  function BootWord(f: nat, i: nat): Entry {
    if f == PD_FRAME then BootSlot(i)
    else if 0x1100 <= f < 0x1106 then Entry(true, (f - 0x1100) * SLOTS + i)
    else if 0x1400 <= f < 0x1406 then Entry(true, (f - 0x1400) * SLOTS + i)
    else Entry(false, 0)
  }

  lemma BootMemIs()
    ensures IsBoot(BootMem())
    ensures forall f: nat, i: nat {:trigger At(BootMem(), f, i)} ::
      i < SLOTS && f != PD_FRAME && !(0x1100 <= f < 0x1106) && !(0x1400 <= f < 0x1406) ==> At(BootMem(), f, i) == Entry(false, 0)
  {
    forall f: nat, i: nat | i < SLOTS ensures At(BootMem(), f, i) == if f < 0x1406 then BootWord(f, i) else Entry(false, 0) {}
  }

  lemma BootMemFree(free: seq<nat>)
    requires NoDup(free)
    requires forall a :: a in free ==>
      var f := a / PGSIZE;
      a % PGSIZE == 0 && f < DIRECT_FRAMES && f != PD_FRAME && !(0x1100 <= f < 0x1106) && !(0x1400 <= f < 0x1406)
    ensures BootFrames(BootMem(), free) && Valid(Vm(free, BootMem()))
  {
    BootMemIs();
    forall a | a in free ensures BootFree(BootMem(), a) {
      forall i | 0 <= i < SLOTS ensures !At(BootMem(), a / PGSIZE, i).present {}
    }
    BootValid(BootMem(), free);
  }

  const A: nat := 0x2000      // direct slot 776
  const B: nat := 0x2C00      // direct slot 779
  const C: nat := 0x200       // direct slot 768, which boot fills

  function ThreeFrames(): seq<nat> { [A * PGSIZE, B * PGSIZE, C * PGSIZE] }

  /** Frames A, B and C are free, and of their direct slots only C's is present. */
  ghost predicate ThreeFree(vm: Vm) {
    && Valid(vm) && vm.free == ThreeFrames()
    && !Present(vm.mem, 776) && !Present(vm.mem, 779) && Present(vm.mem, 768)
  }

  /** There are such tables: the boot tables, with nothing else in memory. */
  lemma ThreeFreeExists()
    ensures IsBoot(BootMem()) && BootFrames(BootMem(), ThreeFrames())
  {
    BootMemIs();
    BootMemFree(ThreeFrames());
  }

  lemma ThreeFreeAtBoot(m: Mem)
    requires IsBoot(m) && BootFrames(m, ThreeFrames())
    ensures ThreeFree(Vm(ThreeFrames(), m))
  {
    BootValid(m, ThreeFrames());
    assert At(m, PD_FRAME, 779) == BootSlot(779) && At(m, PD_FRAME, 776) == BootSlot(776);
    assert At(m, PD_FRAME, 768) == BootSlot(768);
  }

  /** The slots for which a call in slot 779 makes tables. */
  lemma ChainOfThree(m: Mem)
    requires !Present(m, 776) && !Present(m, 779) && Present(m, 768)
    ensures Ends(m, ThreeFrames(), 779) && Slots(m, ThreeFrames(), 779) == [779, 776, 779]
  {
    var free := ThreeFrames();
    assert free[1..] == [B * PGSIZE, C * PGSIZE] && free[1..][1..] == [C * PGSIZE];
    assert DirectSlot(A) == 776 && DirectSlot(B) == 779 && DirectSlot(C) == 768;
    assert Ends(m, [C * PGSIZE], 779) && Slots(m, [C * PGSIZE], 779) == [779];
    assert Ends(m, free[1..], 776) && Slots(m, free[1..], 776) == [776, 779];
  }

  lemma MeetsTwice()
    ensures !Adjacent([779, 776, 779]) && !NoDup([779, 776, 779])
    ensures First([779, 776, 779], 776) == 1 && First([779, 776, 779], 779) == 0
  {
    assert [779, 776, 779][0] == [779, 776, 779][2];
  }

  lemma DirectPages()
    ensures KPage(A) == A + KERN_PAGE && KPage(B) == B + KERN_PAGE && KPage(B + 1) == B + 1 + KERN_PAGE
    ensures KPage(A) / SLOTS == 776 && KPage(B) / SLOTS == 779 && KPage(B + 1) / SLOTS == 779
    ensures KPage(B) % SLOTS == 0 && KPage(B + 1) % SLOTS == 1
  {
  }

  /** A call's frame and page, for a frame with direct slot 779. */
  lemma Slot779(vm: Vm, f: nat)
    requires ThreeFree(vm) && (f == B || f == B + 1)
    ensures Request(vm, f * PGSIZE, Kptov(f * PGSIZE))
    ensures PdNo(Kptov(f * PGSIZE)) == 779 && Kptov(f * PGSIZE) / PGSIZE == KPage(f)
    ensures f * PGSIZE / PGSIZE == f
  {
    DirectPages();
    KptovPage(f);
    AddressSplit(Kptov(f * PGSIZE));
  }

  /** What a call in slot 779 leaves of the two tables it entered. */
  lemma TracedThree(vm: Vm, r: Mem, page: nat, frame: nat)
    requires ThreeFree(vm) && Trace(vm, r, page, frame) && page / SLOTS == 779
    ensures Translate(r, PD_PAGE) == Some(PD_FRAME)
    ensures At(r, PD_FRAME, 776) == Entry(true, B) && At(r, PD_FRAME, 779) == Entry(true, A)
    ensures OneEntry(r, A, page % SLOTS)
  {
    var slots: seq<nat> := [779, 776, 779];
    ChainOfThree(vm.mem);
    MeetsTwice();
    assert At(r, PD_FRAME, 776) == EntryAfter(vm, slots, 776);
    assert At(r, PD_FRAME, 779) == EntryAfter(vm, slots, 779);
    assert OneEntry(r, vm.free[0] / PGSIZE, PageAt(vm.free, page, 0) % SLOTS);
  }

  lemma LostB(v: Vm)
    requires Translate(v.mem, PD_PAGE) == Some(PD_FRAME)
    requires At(v.mem, PD_FRAME, 776) == Entry(true, B) && At(v.mem, PD_FRAME, 779) == Entry(true, A)
    requires OneEntry(v.mem, A, KPage(B + 1) % SLOTS)
    ensures Translate(v.mem, KPage(B)) == None && MapPage(v, A * PGSIZE, Kptov(A * PGSIZE)) == Fault
  {
    DirectPages();
    KptovPage(A);
    KptovPage(B);
    assert !At(v.mem, A, KPage(B) % SLOTS).present;
    AddressSplit(Kptov(A * PGSIZE));
  }

  /**
   map_page of the frame after B, at its direct page: the call is done, but B, entered as the
   table of slot 776, is out of sight, and the next map_page in that slot is a page fault.
   */
  lemma RepeatFromBoot(m: Mem)
    requires IsBoot(m) && BootFrames(m, ThreeFrames())
    ensures var vm, pa := Vm(ThreeFrames(), m), (B + 1) * PGSIZE;
      var r := MapPage(vm, pa, Kptov(pa));
      && Valid(vm) && Request(vm, pa, Kptov(pa)) && r.Done? && !TablesOk(r.vm.mem)
      && TableOf(r.vm.mem, 776) == B && Translate(r.vm.mem, KPage(B)) == None
      && MapPage(r.vm, A * PGSIZE, Kptov(A * PGSIZE)) == Fault
  {
    var vm := Vm(ThreeFrames(), m);
    ThreeFreeAtBoot(m);
    RepeatIn(vm, (B + 1) * PGSIZE, Kptov((B + 1) * PGSIZE));
  }

  lemma RepeatIn(vm: Vm, pa: nat, va: nat)
    requires ThreeFree(vm) && pa == (B + 1) * PGSIZE && va == Kptov(pa)
    ensures var r := MapPage(vm, pa, va);
      && Request(vm, pa, va) && r.Done? && !TablesOk(r.vm.mem)
      && TableOf(r.vm.mem, 776) == B && Translate(r.vm.mem, KPage(B)) == None
      && MapPage(r.vm, A * PGSIZE, Kptov(A * PGSIZE)) == Fault
  {
    Slot779(vm, B + 1);
    ChainOfThree(vm.mem);
    MeetsTwice();
    MapPageOutcome(vm, pa, va);
    MapPageTrace(vm, pa, va);
    DirectPages();
    RepeatLosesTable(vm, pa, va);
    TracedThree(vm, MapPage(vm, pa, va).vm.mem, va / PGSIZE, pa / PGSIZE);
    LostB(MapPage(vm, pa, va).vm);
  }

  /** map_page of B itself, still free, at its direct page: the chain repeats, yet no table is lost. */
  lemma OwnTableFromBoot(m: Mem)
    requires IsBoot(m) && BootFrames(m, ThreeFrames())
    ensures var vm, pa := Vm(ThreeFrames(), m), B * PGSIZE;
      && Request(vm, pa, Kptov(pa)) && OwnTable(vm, pa, Kptov(pa)) && !Good(m, vm.free, PdNo(Kptov(pa)))
      && MapPage(vm, pa, Kptov(pa)).Done? && Valid(MapPage(vm, pa, Kptov(pa)).vm)
  {
    var vm := Vm(ThreeFrames(), m);
    ThreeFreeAtBoot(m);
    OwnTableIn(vm, B * PGSIZE, Kptov(B * PGSIZE));
  }

  lemma TidyThree()
    ensures Tidy(ThreeFrames(), KPage(B), [779, 776, 779])
  {
    MeetsTwice();
    forall k | 0 <= k < 3 ensures TidyAt(ThreeFrames(), KPage(B), [779, 776, 779], k) {}
  }

  lemma OwnTableIn(vm: Vm, pa: nat, va: nat)
    requires ThreeFree(vm) && pa == B * PGSIZE && va == Kptov(pa)
    ensures Request(vm, pa, va) && OwnTable(vm, pa, va) && !Good(vm.mem, vm.free, PdNo(va))
    ensures MapPage(vm, pa, va).Done? && Valid(MapPage(vm, pa, va).vm)
  {
    Slot779(vm, B);
    ChainOfThree(vm.mem);
    MeetsTwice();
    DirectPages();
    assert vm.free[..3][1] == pa;
    TidyThree();
    MapPageAlways(vm, pa, va);
  }

  /** With one frame left, whose own slot is absent: map_page panics although a frame is free. */
  lemma EndlessFromBoot(m: Mem)
    requires IsBoot(m) && BootFrames(m, [A * PGSIZE])
    ensures MapPage(Vm([A * PGSIZE], m), (A + 1) * PGSIZE, Kptov((A + 1) * PGSIZE)) == Panic
  {
    var free := [A * PGSIZE];
    BootValid(m, free);
    KptovPage(A + 1);
    AddressSplit(Kptov((A + 1) * PGSIZE));
    assert At(m, PD_FRAME, 776) == BootSlot(776);
    assert free[1..] == [] && DirectSlot(A) == 776;
    assert !Ends(m, free, 776);
    MapPageOutcome(Vm(free, m), (A + 1) * PGSIZE, Kptov((A + 1) * PGSIZE));
  }

  /** unmap_page of the directory's own page is done, and every later map_page is a page fault. */
  lemma UnmapDirectory(vm: Vm)
    requires Valid(vm)
    ensures var r := UnmapPage(vm, PD_PAGE * PGSIZE).1;
      && r.Done? && !Valid(r.vm)
      && forall pa: nat, va: nat {:trigger MapPage(r.vm, pa, va)} ::
           pa % PGSIZE == 0 && va % PGSIZE == 0 ==> MapPage(r.vm, pa, va) == Fault
  {
    UnmapPageRefines(vm, PD_PAGE * PGSIZE);
    UnmapPageExact(vm, PD_PAGE * PGSIZE);
  }

  // ----- two pages that are not a range

  function TwoFrames(f: nat, g: nat): seq<nat> { [f * PGSIZE, g * PGSIZE] }

  /** Two free frames that boot maps, outside its tables. */
  predicate LowPair(f: nat, g: nat) { f < g && LowFrame(f) && LowFrame(g) }

  predicate LowFrame(f: nat) { f < BOOT_FRAMES && f != PD_FRAME && !(0x1100 <= f < 0x1106) && !(0x1400 <= f < 0x1406) }

  lemma PairExists(f: nat, g: nat)
    requires LowPair(f, g)
    ensures IsBoot(BootMem()) && BootFrames(BootMem(), TwoFrames(f, g))
  {
    BootMemIs();
    BootMemFree(TwoFrames(f, g));
  }

  /** palloc_kern's two pages, handed out with the frames f and g: they appear at their direct pages, where boot has them. */
  ghost predicate Paired(m: Mem, f: nat, g: nat, how: Result) {
    && how.Ok? && how.s.data == TwoFrames(f, g) && how.addr == Kptov(f * PGSIZE) && how.addr / PGSIZE == KPage(f)
    && DirectOnly(how.s.vm.mem) && TablesStay(m, how.s.vm.mem) && BootSeen(how.s.vm.mem)
  }

  ghost predicate BootSeen(m: Mem) { forall p {:trigger Translate(m, p)} :: 0 <= p < PAGES ==> Translate(m, p) == BootView(p) }

  lemma PairServed(m: Mem, f: nat, g: nat, must: bool, how: Result)
    requires IsBoot(m) && LowPair(f, g) && BootFrames(m, TwoFrames(f, g)) && how == PallocKern(BootSys(m, TwoFrames(f, g)), 2, must)
    ensures Paired(m, f, g, how)
  {
    var s, free := BootSys(m, TwoFrames(f, g)), TwoFrames(f, g);
    BootReady(m, free);
    BootDirectOnly(m);
    PairAnswer(s, f, g, must, how);
    var k := PairService(s, must, how);
    PairSeen(m, f, g, how.s, k);
  }

  lemma PairAnswer(s: Sys, f: nat, g: nat, must: bool, how: Result)
    requires Ready(s.vm) && s.vm.free == TwoFrames(f, g) && DirectOnly(s.vm.mem) && how == PallocKern(s, 2, must) && s.data == []
    requires f < DIRECT_FRAMES
    ensures how.Ok? && how.s.data == TwoFrames(f, g) && how.addr == Kptov(f * PGSIZE) && how.addr / PGSIZE == KPage(f)
  {
    ReadyRange(s, 2, must);
    assert s.vm.free[..2] == s.vm.free;
    KptovPage(f);
  }

  lemma PairSeen(m: Mem, f: nat, g: nat, r: Sys, k: nat)
    requires IsBoot(m) && LowPair(f, g) && Served(BootSys(m, TwoFrames(f, g)), r, 2, k)
    ensures BootSeen(r.vm.mem) && TablesStay(m, r.vm.mem)
  {
    var s := BootSys(m, TwoFrames(f, g));
    BootTranslates(m);
    forall p | 0 <= p < PAGES ensures Translate(r.vm.mem, p) == BootView(p) {
      assert Translate(r.vm.mem, p) == AfterService(s, k, p);
      if IsDirect(s.vm.free[..k], p) { DirectInView(f, g, k, p); }
    }
  }

  lemma DirectInView(f: nat, g: nat, k: nat, p: nat)
    requires LowPair(f, g) && k <= 2 && IsDirect(TwoFrames(f, g)[..k], p)
    ensures BootView(p) == Some(p - KERN_PAGE)
  {
    KptovPage(f);
    KptovPage(g);
  }

  lemma PairService(s: Sys, must: bool, how: Result) returns (k: nat)
    requires Ready(s.vm) && |s.vm.free| == 2 && how == PallocKern(s, 2, must) && DirectOnly(s.vm.mem)
    ensures how.Ok? && Served(s, how.s, 2, k) && DirectOnly(how.s.vm.mem)
  {
    ReadyGoes(s, 2);
    var d := HandsOut(s, 2, must, how);
    ServedFrom(s, 2, must, how);
    k :| Served(s, how.s, 2, k);
    ServedDirect(s, how.s, 2, k);
  }

  /** Answered with the address of the first frame, while the page after it is backed by frame 0x201, not by the second. */
  ghost predicate Gapped(how: Result) {
    && how.Ok? && how.s.data == [0x200 * PGSIZE, 0x202 * PGSIZE] && how.addr == Kptov(0x200 * PGSIZE)
    && Translate(how.s.vm.mem, how.addr / PGSIZE + 1) == Some(0x201) && !Backed(how.s.vm.mem, how.s.data)
  }

  /** palloc_kern of two pages with frames 0x200 and 0x202 free. */
  lemma GapFromBoot(m: Mem, must: bool)
    requires IsBoot(m) && BootFrames(m, TwoFrames(0x200, 0x202))
    ensures Gapped(PallocKern(BootSys(m, TwoFrames(0x200, 0x202)), 2, must))
  {
    var how := PallocKern(BootSys(m, TwoFrames(0x200, 0x202)), 2, must);
    PairServed(m, 0x200, 0x202, must, how);
    GapOf(m, how);
  }

  lemma GapOf(m: Mem, how: Result)
    requires Paired(m, 0x200, 0x202, how)
    ensures Gapped(how)
  {
    Gap(how.s.vm.mem, how.s.data);
  }

  lemma Gap(m: Mem, d: seq<nat>)
    requires BootSeen(m) && d == TwoFrames(0x200, 0x202)
    ensures Translate(m, KPage(0x200) + 1) == Some(0x201) && !Backed(m, d)
  {
    KptovPage(0x200);
    assert d[0] / PGSIZE == 0x200 && d[1] / PGSIZE == 0x202;
    assert !BackedAt(m, d, 1);
  }

  /**
   palloc_kern of one page with F_ZERO and the frame before the kernel's first table free: the
   call is done, it clears that table too, and every later map_page is a page fault.
   */
  lemma ClearedTableFromBoot(m: Mem, must: bool)
    requires IsBoot(m) && BootFrames(m, [0x13FF * PGSIZE])
    ensures ClearsTables(Memset(PallocKern(BootSys(m, [0x13FF * PGSIZE]), 1, must), 1))
  {
    var s, kern := BootSys(m, [0x13FF * PGSIZE]), PallocKern(BootSys(m, [0x13FF * PGSIZE]), 1, must);
    BootReady(m, s.vm.free);
    BootDirectOnly(m);
    OneServed(m, s, must, kern);
    ClearsOf(m, kern);
  }

  lemma ClearsOf(m: Mem, how: Result)
    requires IsBoot(m) && how.Ok? && how.s.data == [0x13FF * PGSIZE] && how.addr == Kptov(0x13FF * PGSIZE)
    requires BootSeen(how.s.vm.mem) && TablesStay(m, how.s.vm.mem)
    ensures ClearsTables(Memset(how, 1))
  {
    ClearedTables(m, how.s.vm.mem);
    KptovPage(0x13FF);
  }

  ghost predicate ClearsTables(how: Result) {
    && how.Ok? && how.s.data == [0x13FF * PGSIZE] && how.addr == Kptov(0x13FF * PGSIZE)
    && forall pa: nat, va: nat {:trigger MapPage(how.s.vm, pa, va)} ::
         pa % PGSIZE == 0 && va % PGSIZE == 0 ==> MapPage(how.s.vm, pa, va) == Fault
  }

  lemma TableFrameExists()
    ensures IsBoot(BootMem()) && BootFrames(BootMem(), [0x13FF * PGSIZE])
  {
    BootMemIs();
    BootMemFree([0x13FF * PGSIZE]);
  }

  lemma OneServed(m: Mem, s: Sys, must: bool, how: Result)
    requires IsBoot(m) && Ready(s.vm) && DirectOnly(s.vm.mem) && s == BootSys(m, [0x13FF * PGSIZE]) && how == PallocKern(s, 1, must)
    ensures how.Ok? && how.s.data == [0x13FF * PGSIZE] && how.addr == Kptov(0x13FF * PGSIZE)
    ensures BootSeen(how.s.vm.mem) && TablesStay(m, how.s.vm.mem)
  {
    ReadyRange(s, 1, must);
    assert s.vm.free[..1] == s.vm.free;
    ReadyGoes(s, 1);
    var d := HandsOut(s, 1, must, how);
    ServedFrom(s, 1, must, how);
    var k: nat :| Served(s, how.s, 1, k);
    OneSeen(m, s, how.s, k);
  }

  lemma OneSeen(m: Mem, s: Sys, r: Sys, k: nat)
    requires IsBoot(m) && s == BootSys(m, [0x13FF * PGSIZE]) && Served(s, r, 1, k)
    ensures BootSeen(r.vm.mem) && TablesStay(m, r.vm.mem)
  {
    BootTranslates(m);
    KptovPage(0x13FF);
    forall p | 0 <= p < PAGES ensures Translate(r.vm.mem, p) == BootView(p) {
      assert Translate(r.vm.mem, p) == AfterService(s, k, p);
    }
  }

  /** Clearing the direct pages of frames 0x13FF to 0x1402, of which the last three are tables. */
  lemma ClearedTables(m: Mem, r: Mem)
    requires IsBoot(m) && BootSeen(r) && TablesStay(m, r)
    ensures ZeroPages(r, KPage(0x13FF), MEMSET_FACTOR).Some? && Translate(ZeroPages(r, KPage(0x13FF), MEMSET_FACTOR).value, PD_PAGE) == None
  {
    var p := KPage(0x13FF);
    KptovPage(0x13FF);
    assert At(m, PD_FRAME, 768) == BootSlot(768) && At(m, PD_FRAME, 773) == BootSlot(773) && At(m, PD_FRAME, 772) == BootSlot(772);
    assert TableOf(r, 768) == TableOf(m, 768) && TableOf(r, 773) == TableOf(m, 773) && TableOf(r, 772) == TableOf(m, 772);
    assert Translate(r, p) == Some(0x13FF) && Translate(r, p + 1) == Some(0x1400);
    assert Translate(r, p + 2) == Some(0x1401) && Translate(r, p + 3) == Some(0x1402);
    var m1 := Zeroing(r, p, 4, 0x13FF);
    var m2 := Zeroing(m1, p + 1, 3, 0x1400);
    var m3 := Zeroing(m2, p + 2, 2, 0x1401);
    var m4 := Zeroing(m3, p + 3, 1, 0x1402);
    assert ZeroPages(m4, p + 4, 0) == Some(m4);
  }

  lemma Zeroing(m: Mem, page: nat, n: nat, f: nat) returns (r: Mem)
    requires n > 0 && Translate(m, page) == Some(f)
    ensures ZeroPages(m, page, n) == ZeroPages(r, page + 1, n - 1)
    ensures forall g, i :: At(r, g, i) == if g == f then Entry(false, 0) else At(m, g, i)
  {
    r := ZeroFrame(m, f);
    forall g, i ensures At(r, g, i) == if g == f then Entry(false, 0) else At(m, g, i) { ZeroFrameAt(m, f, g, i); }
  }
}
