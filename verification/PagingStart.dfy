/**
 From the memory map to the first allocation: which frames setupAvailablePages leaves free,
 and that the allocators may start with them.
 */
module PagingStart {
  import opened Common
  import opened Paging
  import opened PagingAlloc
  import opened PagingFrames
  import opened PagingReady
  import opened PagingBoot
  import opened PagingRange
  import opened FrameTable
  import opened MemoryMap

  function EmptyTable(): seq<PhysPage> { seq(MAX_PHYS_PAGES, (k: nat) => PhysPage(Unset, 0)) }

  /** The table after setupAvailablePages has filled and reserved. */
  function StartTable(rs: seq<Region>): seq<PhysPage> {
    WithReserved(Filled(EmptyTable(), PageList(rs)))
  }

  function StartFree(rs: seq<Region>): seq<nat> { FreeAddrs(StartTable(rs)) }

  lemma {:induction false} FreeMember(t: seq<PhysPage>, a: nat) returns (k: nat)
    requires a in FreeAddrs(t)
    ensures k < |t| && t[k].kind.Free? && t[k].addr == a
  {
    if t[0].kind.Free? && t[0].addr == a {
      k := 0;
    } else {
      k := FreeMember(t[1..], a);
      k := k + 1;
    }
  }

  ghost predicate Ascends(q: seq<nat>) {
    forall i, j :: 0 <= i < j < |q| ==> q[i] < q[j]
  }

  /** Free entries ascend. */
  ghost predicate FreeAscend(t: seq<PhysPage>) {
    forall j, k :: 0 <= j < k < |t| && t[j].kind.Free? && t[k].kind.Free? ==> t[j].addr < t[k].addr
  }

  lemma FirstBelow(t: seq<PhysPage>, a: nat)
    requires FreeAscend(t) && t != [] && t[0].kind.Free? && a in FreeAddrs(t[1..])
    ensures t[0].addr < a
  {
    var k := FreeMember(t[1..], a);
    assert t[1..][k] == t[k + 1];
  }

  lemma {:induction false} FreeAscends(t: seq<PhysPage>)
    requires FreeAscend(t)
    ensures Ascends(FreeAddrs(t))
  {
    if t != [] {
      FreeAscends(t[1..]);
      if t[0].kind.Free? {
        var rest := FreeAddrs(t[1..]);
        forall i | 0 <= i < |rest| ensures t[0].addr < rest[i] { FirstBelow(t, rest[i]); }
      }
    }
  }

  /** Which entries stay free: those filled, from the 33rd on, without the screen's. */
  lemma FreeEntry(rs: seq<Region>, k: nat)
    requires WellFormed(rs) && k < MAX_PHYS_PAGES
    ensures var t := StartTable(rs);
      && (t[k].kind.Free? <==> RESERVED_PAGES <= k < |PageList(rs)| && k != VIDEO_PAGE)
      && (t[k].kind.Free? ==> t[k].addr == PageList(rs)[k])
  {
    assert k != VIDEO_PAGE ==> StartTable(rs)[k] == ReservedFirst(Filled(EmptyTable(), PageList(rs)), RESERVED_PAGES)[k];
  }

  /**
   On any memory map in ascending order the frames left free ascend, and none is one of the
   kernel's 32: entry k is never a frame below its own number.
   */
  lemma StartFrames(rs: seq<Region>)
    requires Ascending(rs)
    ensures Ascends(StartFree(rs)) && NoDup(StartFree(rs))
    ensures forall a :: a in StartFree(rs) ==> a % PGSIZE == 0 && RESERVED_PAGES <= a / PGSIZE
  {
    var list, t := PageList(rs), StartTable(rs);
    ListAscends(rs);
    forall k | 0 <= k < |t| && t[k].kind.Free? ensures RESERVED_PAGES <= k < |list| && t[k].addr == list[k] { FreeEntry(rs, k); }
    FreeAscends(t);
    forall a | a in StartFree(rs) ensures a % PGSIZE == 0 && RESERVED_PAGES <= a / PGSIZE {
      var k := FreeMember(t, a);
      EntryNotBelow(list, k);
    }
  }

  /** A frame that no boot table occupies and that has a direct page. */
  predicate OutsideTables(a: nat) {
    a / PGSIZE < DIRECT_FRAMES && !(0x1100 <= a / PGSIZE < 0x1106) && !(0x1400 <= a / PGSIZE < 0x1406)
  }

  /** The free frames that no boot table occupies are zero. */
  ghost predicate ZeroFrames(m: Mem, free: seq<nat>) {
    forall a {:trigger EmptyRow(m, a / PGSIZE)} :: a in free && OutsideTables(a) ==> EmptyRow(m, a / PGSIZE)
  }

  /**
   With zeroed frames the allocators may start exactly when no free frame is one of the boot
   tables or at 1 GiB or above.  The code reserves no entry for the tables.
   */
  lemma StartValidIff(m: Mem, rs: seq<Region>)
    requires IsBoot(m) && Ascending(rs) && ZeroFrames(m, StartFree(rs))
    ensures Valid(Vm(StartFree(rs), m)) <==> forall a :: a in StartFree(rs) ==> OutsideTables(a)
  {
    StartFrames(rs);
    var free := StartFree(rs);
    if forall a :: a in free ==> OutsideTables(a) {
      forall a | a in free ensures BootFree(m, a) { assert OutsideTables(a) && EmptyRow(m, a / PGSIZE); }
      BootValid(m, free);
    }
    if Valid(Vm(free, m)) {
      forall a | a in free ensures OutsideTables(a) {
        assert Unused(m, a);
        if !OutsideTables(a) { TableUsed(m, a); }
      }
    }
  }

  lemma TableUsed(m: Mem, a: nat)
    requires IsBoot(m) && !OutsideTables(a)
    ensures !Unused(m, a)
  {
    var f := a / PGSIZE;
    if f < DIRECT_FRAMES {
      var s := if f < 0x1400 then f - 0x1100 else f - 0x1400 + 768;
      assert At(m, PD_FRAME, s) == BootSlot(s);
      assert Present(m, s) && TableOf(m, s) == f;
    }
  }

  // ----- the usual map of a PC: low memory below 640 KiB, and one region from 1 MiB on

  function PcMap(low: nat, high: nat): seq<Region> { HoleMap(low, 0x10_0000, high) }

  function HoleMap(low: nat, base: nat, high: nat): seq<Region> { [Region(0, low), Region(base, high)] }

  predicate PcSizes(low: nat, high: nat) { low <= 0xA_0000 && 0x10_0000 + high <= ADDRESSES }

  lemma PcAscending(low: nat, high: nat)
    requires PcSizes(low, high)
    ensures Ascending(PcMap(low, high))
  {
  }

  /** Where the k-th recorded page is. */
  lemma HolePage(low: nat, base: nat, high: nat, k: nat)
    requires low <= base && base % PGSIZE == 0 && base + high <= ADDRESSES
    ensures var n, list := low / PGSIZE, PageList(HoleMap(low, base, high));
      |list| == n + high / PGSIZE && (k < |list| ==> list[k] == if k < n then k * PGSIZE else base + (k - n) * PGSIZE)
  {
    var rs := HoleMap(low, base, high);
    assert rs[..1] == [rs[0]] && rs[..1][..0] == [];
    RegionPagesWithin(rs[0]);
    RegionPagesWithin(rs[1]);
    assert PageList([]) == [];
    assert PageList(rs[..1]) == [] + RegionPages(rs[0], MaxPages(rs[0]));
    assert PageList(rs) == PageList(rs[..1]) + RegionPages(rs[1], MaxPages(rs[1]));
  }

  /** There the 4096 entries end before the boot tables. */
  lemma PcFrames(low: nat, high: nat)
    requires PcSizes(low, high)
    ensures forall a :: a in StartFree(PcMap(low, high)) ==> RESERVED_PAGES <= a / PGSIZE < 0x1100
  {
    var rs := PcMap(low, high);
    PcAscending(low, high);
    StartFrames(rs);
    forall a | a in StartFree(rs) ensures a / PGSIZE < 0x1100 {
      var k := FreeMember(StartTable(rs), a);
      FreeEntry(rs, k);
      HolePage(low, 0x10_0000, high, k);
    }
  }

  /** So the allocators may start, with every free frame ready to become a table. */
  lemma PcReady(m: Mem, low: nat, high: nat)
    requires IsBoot(m) && PcSizes(low, high) && ZeroFrames(m, StartFree(PcMap(low, high)))
    ensures var vm := Vm(StartFree(PcMap(low, high)), m); Ready(vm) && DirectMapped(vm)
  {
    var rs := PcMap(low, high);
    PcAscending(low, high);
    StartFrames(rs);
    PcFrames(low, high);
    forall a | a in StartFree(rs) ensures BootFree(m, a) { assert OutsideTables(a) && EmptyRow(m, a / PGSIZE); }
    BootReady(m, StartFree(rs));
  }

  /**
   There every run of simple calls is proper and keeps the tables editable: a call halts only by
   a panic, and every frame is free, or a page, or a table.
   */
  lemma PcRuns(m: Mem, low: nat, high: nat, ops: seq<Op>)
    requires IsBoot(m) && PcSizes(low, high) && ZeroFrames(m, StartFree(PcMap(low, high)))
    requires AllSimple(BootSys(m, StartFree(PcMap(low, high))), ops)
    ensures AllProper(BootSys(m, StartFree(PcMap(low, high))), ops)
    ensures match Run(BootSys(m, StartFree(PcMap(low, high))), ops)
            case Going(r) => Ready(r.vm) && High(m, r.vm.mem) && Inv(r, StartFree(PcMap(low, high)))
            case Stopped(how) => how == Panic
  {
    PcReady(m, low, high);
    ReadyOverRuns(BootSys(m, StartFree(PcMap(low, high))), ops);
  }

  lemma {:induction false} SimpleInRange(s: Sys, ops: seq<Op>)
    requires AllSimple(s, ops)
    ensures AllInRange(s, ops)
    decreases |ops|
  {
    if ops != [] { SimpleInRange(s, ops[..|ops| - 1]); }
  }

  /** What was used of a pool in ascending order lies before what is still free. */
  lemma UsedBelow(s: Sys, all: seq<nat>, start: set<nat>, a: nat)
    requires Held(s, all, start) && Ascends(all) && Tail(s.vm.free, all) && s.vm.free != [] && a in s.data + s.made
    ensures a < s.vm.free[0]
  {
    var k := |all| - |s.vm.free|;
    NoDupOnce(all, a);
    assert multiset(all)[a] == multiset(s.data)[a] + multiset(s.made)[a] + multiset(s.vm.free)[a];
    assert a in multiset(s.data) || a in multiset(s.made);
    assert a in all && a !in s.vm.free;
    var i :| 0 <= i < |all| && all[i] == a;
    assert a !in all[k..];
    assert i < k;
  }

  /** The direct pages of low frames, in a state from which boot's have not disappeared. */
  lemma LowSpare(m: Mem, s: Sys, all: seq<nat>, g: nat)
    requires IsBoot(m) && Held(s, all, TablesAt(m)) && High(m, s.vm.mem)
    requires RESERVED_PAGES <= g < 0x1100 && g * PGSIZE !in s.made
    ensures Clearable(s.vm.mem, KERN_PAGE + g)
  {
    BootTranslates(m);
    assert Translate(m, KERN_PAGE + g) == BootView(KERN_PAGE + g) && Translate(s.vm.mem, KERN_PAGE + g).Some?;
    assert Translate(s.vm.mem, KERN_PAGE + g) == Some(g);
    forall t | 0 <= t < SLOTS && Present(s.vm.mem, t) ensures TableOf(s.vm.mem, t) != g {
      if TableOf(s.vm.mem, t) in TablesAt(m) {
        var u: nat :| u < SLOTS && Present(m, u) && TableOf(m, u) == TableOf(s.vm.mem, t);
        assert At(m, PD_FRAME, u) == BootSlot(u);
      }
    }
  }

  /** A state on that map, and what palloc_kern does there with F_ZERO. */
  ghost predicate PcState(m: Mem, low: nat, high: nat, q: Sys) {
    && IsBoot(m) && PcSizes(low, high) && Ready(q.vm) && High(m, q.vm.mem)
    && Held(q, StartFree(PcMap(low, high)), TablesAt(m)) && Tail(q.vm.free, StartFree(PcMap(low, high)))
  }

  lemma PcReaches(m: Mem, low: nat, high: nat, ops: seq<Op>)
    requires IsBoot(m) && PcSizes(low, high) && ZeroFrames(m, StartFree(PcMap(low, high)))
    requires AllSimple(BootSys(m, StartFree(PcMap(low, high))), ops) && Run(BootSys(m, StartFree(PcMap(low, high))), ops).Going?
    ensures PcState(m, low, high, Run(BootSys(m, StartFree(PcMap(low, high))), ops).s)
  {
    var free := StartFree(PcMap(low, high));
    PcRuns(m, low, high, ops);
    SimpleInRange(BootSys(m, free), ops);
    PcAscending(low, high);
    StartFrames(PcMap(low, high));
    PcFrames(low, high);
    forall a | a in free ensures BootFree(m, a) { assert OutsideTables(a) && EmptyRow(m, a / PGSIZE); }
    FramesFromBoot(m, free, ops);
  }

  /** Every frame from the first free one on, below the boot tables, can be cleared after palloc_kern. */
  lemma PcClearable(m: Mem, low: nat, high: nat, q: Sys, n: nat, must: bool, k: nat)
    requires PcState(m, low, high, q) && 0 < n <= |q.vm.free| && q.vm.free[0] / PGSIZE + k <= 0x1100
    ensures PallocKern(q, n, must).Ok? ==> AllClearable(PallocKern(q, n, must).s.vm.mem, KPage(q.vm.free[0] / PGSIZE), k)
  {
    var all, how, f := StartFree(PcMap(low, high)), PallocKern(q, n, must), q.vm.free[0] / PGSIZE;
    PcAscending(low, high);
    StartFrames(PcMap(low, high));
    assert q.vm.free[0] in all && f * PGSIZE == q.vm.free[0];
    KptovPage(f);
    KernLeavesReady(q, 0, n, must, 0, how);
    KernLoopHeld(q, all, TablesAt(m), 0, n, must, 0);
    if how.Ok? {
      HighThen(m, q.vm.mem, how.s.vm.mem);
      forall i | KPage(f) <= i < KPage(f) + k ensures Clearable(how.s.vm.mem, i) {
        var g := i - KERN_PAGE;
        if g * PGSIZE in q.made { UsedBelow(q, all, TablesAt(m), g * PGSIZE); }
        LowSpare(m, how.s, all, g);
      }
    }
  }

  /**
   In every state that a run of simple calls reaches on that map, F_ZERO clears no table and no
   page handed out before: those all lie before the first free frame, and the boot tables behind
   the pool.
   */
  lemma PcZero(m: Mem, low: nat, high: nat, q: Sys, n: nat, must: bool)
    requires PcState(m, low, high, q) && 0 < n <= |q.vm.free| && q.vm.free[0] / PGSIZE + MEMSET_FACTOR * n <= 0x1100
    ensures var how := PallocKern(q, n, must); var zeroed := Memset(how, n);
      && how.Ok? && zeroed.Ok? && SameView(how.s.vm.mem, zeroed.s.vm.mem) && Valid(zeroed.s.vm)
      && ClearedOnly(how.s.vm.mem, zeroed.s.vm.mem, q.vm.free[0] / PGSIZE, MEMSET_FACTOR * n)
    ensures forall a :: a in q.data + q.made ==> a < q.vm.free[0]
  {
    var all := StartFree(PcMap(low, high));
    PcAscending(low, high);
    StartFrames(PcMap(low, high));
    ReadyGoes(q, n);
    KptovPage(q.vm.free[0] / PGSIZE);
    ZeroKern(q, n, must);
    PcClearable(m, low, high, q, n, must, MEMSET_FACTOR * n);
    forall a | a in q.data + q.made ensures a < q.vm.free[0] { UsedBelow(q, all, TablesAt(m), a); }
  }

  /** And the entry reserved for the screen is another frame: the hole comes before the screen's. */
  lemma ScreenEntryIsMemory(low: nat, high: nat)
    requires PcSizes(low, high) && VIDEO_PAGE < |PageList(PcMap(low, high))|
    ensures !Usable(PcMap(low, high), 0xA0)
    ensures PageList(PcMap(low, high))[VIDEO_PAGE] != VIDEO_PAGE * PGSIZE
  {
    PcAscending(low, high);
    ScreenEntryIff(PcMap(low, high));
  }

  // ----- a map with a larger hole

  lemma {:induction false} FreeListed(t: seq<PhysPage>, k: nat)
    requires k < |t| && t[k].kind.Free?
    ensures t[k].addr in FreeAddrs(t)
  {
    if k > 0 { FreeListed(t[1..], k - 1); }
  }

  /** A page of the second region is left free if its entry is behind the reserved ones and within the table. */
  lemma HoleFree(low: nat, base: nat, high: nat, k: nat)
    requires low <= base && base % PGSIZE == 0 && base + high <= ADDRESSES
    requires low / PGSIZE <= k < low / PGSIZE + high / PGSIZE && VIDEO_PAGE < k < MAX_PHYS_PAGES
    ensures Ascending(HoleMap(low, base, high)) && base + (k - low / PGSIZE) * PGSIZE in StartFree(HoleMap(low, base, high))
  {
    var rs := HoleMap(low, base, high);
    HolePage(low, base, high, k);
    FreeEntry(rs, k);
    FreeListed(StartTable(rs), k);
  }

  /** 16 MiB from 16 MiB on, after the low 640 KiB. */
  predicate LargeHole(low: nat, base: nat, high: nat) { low == 0xA_0000 && base == 0x100_0000 && high == 0x100_0000 }

  lemma TableLeft(low: nat, base: nat, high: nat, f: nat)
    requires LargeHole(low, base, high) && 0x1100 <= f < 0x1406
    ensures Ascending(HoleMap(low, base, high)) && f * PGSIZE in StartFree(HoleMap(low, base, high))
  {
    HoleFree(low, base, high, f - 0x1000 + 160);
  }

  /**
   On that map the boot tables' own frames are left free, the table of the kernel's first slot
   among them, so the allocators must not start.
   */
  lemma TablesLeftFree(m: Mem, low: nat, base: nat, high: nat)
    requires IsBoot(m) && LargeHole(low, base, high)
    ensures var free := StartFree(HoleMap(low, base, high));
      && Ascending(HoleMap(low, base, high))
      && (forall s {:trigger TableOf(m, s)} :: 0 <= s < SLOTS && Present(m, s) ==> TableOf(m, s) * PGSIZE in free)
      && Present(m, 768) && !Valid(Vm(free, m))
  {
    var free := StartFree(HoleMap(low, base, high));
    TableLeft(low, base, high, 0x1400);
    assert At(m, PD_FRAME, 768) == BootSlot(768);
    forall s | 0 <= s < SLOTS && Present(m, s) ensures TableOf(m, s) * PGSIZE in free {
      assert At(m, PD_FRAME, s) == BootSlot(s);
      TableLeft(low, base, high, TableOf(m, s));
    }
    if Valid(Vm(free, m)) {
      assert Unused(m, 0x1400 * PGSIZE);
      TableUsed(m, 0x1400 * PGSIZE);
    }
  }
}
