/**
 The kernel's paging code over its own frame table, page tables and heap index, each
 method proved against the functions of Paging and PagingAlloc.
 */
module Pager {
  import opened Common
  import opened Paging
  import opened PagingAlloc
  import opened PagingFrames
  import opened FrameTable
  import opened ReservedEntries
  import opened Words

  /** How a call ended. */
  datatype Stop = Went | Panicked | Faulted

  function StopOf(how: Outcome): Stop {
    match how
    case Done(_) => Went
    case Panic => Panicked
    case Fault => Faulted
  }

  class Pager {
    const frames: array<PhysPage>
    var pagecount: int
    var mem: Mem
    var nextIndex: nat

    ghost function View(): Vm reads this, frames { Vm(FreeAddrs(frames[..]), mem) }

    /** The same with an empty history of handed-out frames. */
    ghost function Start(): Sys reads this, frames { Sys(View(), nextIndex, [], []) }

    constructor (m: Mem)
      ensures fresh(frames) && frames.Length == MAX_PHYS_PAGES && mem == m && nextIndex == 0 && pagecount == 0
      ensures forall k :: 0 <= k < frames.Length ==> frames[k] == PhysPage(Unset, 0)
    {
      frames := new PhysPage[MAX_PHYS_PAGES](_ => PhysPage(Unset, 0));
      mem, nextIndex, pagecount := m, 0, 0;
    }

    /** get_next_free_physical_page. */
    method GetNextFree() returns (a: nat)
      modifies frames
      ensures a == NextFree(old(FreeAddrs(frames[..]))) && FreeAddrs(frames[..]) == Rest(old(FreeAddrs(frames[..])))
      ensures frames[..] == TakeFirst(old(frames[..]))
    {
      for i := 0 to frames.Length
        invariant frames[..] == old(frames[..])
        invariant forall j :: 0 <= j < i ==> !frames[j].kind.Free?
      {
        if frames[i].kind.Free? {
          FirstFree(frames[..], i);
          FirstTaken(frames[..], i);
          frames[i] := frames[i].(kind := Allocated);
          assert frames[..] == old(frames[..])[i := old(frames[i]).(kind := Allocated)];
          return frames[i].addr;
        }
      }
      NoneFree(frames[..]);
      NoneTaken(frames[..]);
      a := NO_ADDR;
    }

    /** An entry at index i of a page, or a page fault. */
    function ReadEntry(page: nat, i: nat): (r: Option<Entry>)
      reads this
      ensures r == Load(mem, page, i)
    {
      match Translate(mem, page)
      case None => None
      case Some(frame) => Some(At(mem, frame, i))
    }

    method WriteAt(page: nat, i: nat, e: Entry) returns (stop: Stop)
      modifies `mem
      ensures match Store(old(mem), page, i, e)
              case None => stop == Faulted && mem == old(mem)
              case Some(m) => stop == Went && mem == m
    {
      match Translate(mem, page) {
        case None => stop := Faulted;
        case Some(frame) =>
          mem := mem[(frame, i) := e];
          stop := Went;
      }
    }

    /** The last part of map_page, through the table of a directory entry read afresh. */
    method WriteTable(page: nat, e: Entry) returns (stop: Stop)
      modifies `mem
      ensures stop == StopOf(WriteEntry(old(View()), page, e))
      ensures stop == Went ==> View() == WriteEntry(old(View()), page, e).vm
    {
      var pde := ReadEntry(PD_PAGE, page / SLOTS);
      if pde == None { return Faulted; }
      stop := WriteAt(Kptov(pde.value.base * PGSIZE) / PGSIZE, page % SLOTS, e);
    }

    /** map_page. */
    method MapPage(pa: nat, va: nat) returns (stop: Stop)
      modifies `mem, frames
      ensures stop == StopOf(Paging.MapPage(old(View()), pa, va))
      ensures stop == Went ==> View() == Paging.MapPage(old(View()), pa, va).vm
      ensures forall a :: a in View().free ==> a in old(View().free)
      ensures Took(old(frames[..]), frames[..], stop == Went, |old(View().free)| - |View().free|)
      decreases |View().free|, if pa % PGSIZE == 0 then 1 else 0
    {
      TookNone(frames[..], true);
      if va % PGSIZE != 0 || pa % PGSIZE != 0 { return Panicked; }
      var pde := ReadEntry(PD_PAGE, PdNo(va));
      if pde == None { return Faulted; }
      if !pde.value.present {
        var table := GetNextFree();
        ghost var left := |View().free|;
        stop := MapPage(table, Kptov(table));
        TookMore(old(frames[..]), frames[..], stop == Went, left - |View().free|);
        if stop != Went { return; }
        stop := WriteAt(PD_PAGE, PdNo(va), Entry(true, table / PGSIZE));
        if stop != Went { return; }
      }
      stop := WriteTable(va / PGSIZE, Entry(true, pa / PGSIZE));
    }

    /** unmap_page with the kernel flag. */
    method UnmapPage(va: nat) returns (ok: bool, stop: Stop)
      modifies `mem
      ensures ok == Paging.UnmapPage(old(View()), va).0 && stop == StopOf(Paging.UnmapPage(old(View()), va).1)
      ensures stop == Went ==> View() == Paging.UnmapPage(old(View()), va).1.vm
    {
      if va == 0 { return false, Went; }
      ok := true;
      var pde := ReadEntry(PD_PAGE, PdNo(va));
      if pde == None { return true, Faulted; }
      if !pde.value.present { return true, Went; }
      var page := Kptov(pde.value.base * PGSIZE) / PGSIZE;
      var pte := ReadEntry(page, PtNo(va));
      if pte == None { return true, Faulted; }
      stop := WriteAt(page, PtNo(va), pte.value.(present := false));
    }

    /** clear_identity_pages. */
    method ClearIdentityPages() returns (stop: Stop)
      modifies `mem
      ensures stop == StopOf(ClearIdentity(old(View()), 0))
      ensures stop == Went ==> View() == ClearIdentity(old(View()), 0).vm
    {
      for i := 0 to IDENTITY_SLOTS
        invariant ClearIdentity(old(View()), 0) == ClearIdentity(View(), i)
      {
        var pde := ReadEntry(PD_PAGE, i);
        if pde == None { return Faulted; }
        stop := WriteAt(PD_PAGE, i, pde.value.(present := false));
        if stop != Went { return; }
      }
      stop := Went;
    }

    /** The next frame, mapped at its direct page or at the end of the heap; NO_ADDR if there is none. */
    method NextPage(direct: bool, ghost s: Sys) returns (pa: nat, stop: Stop)
      requires s.vm == View() && s.index == nextIndex && NO_ADDR !in View().free
      modifies `mem, frames
      ensures s.vm.free == [] ==> pa == NO_ADDR && stop == Went && View() == s.vm
      ensures s.vm.free != [] ==> pa == s.vm.free[0] && pa != NO_ADDR && RoundEnded(Map(TakePage(s), pa, AddressFor(direct, pa)), stop)
      ensures NO_ADDR !in View().free
    {
      pa := GetNextFree();
      if pa == NO_ADDR { return NO_ADDR, Went; }
      stop := MapPage(pa, AddressFor(direct, pa));
    }

    function AddressFor(direct: bool, pa: nat): nat
      reads `nextIndex
    {
      if direct then Kptov(pa) else nextIndex * PGSIZE % ADDRESSES
    }

    ghost predicate RoundEnded(how: Result, stop: Stop)
      reads this, frames
    {
      match how
      case Ok(s, _) => stop == Went && View() == s.vm && nextIndex == s.index
      case NoMemory(_) => false
      case Halted(h) => stop == StopOf(h) && stop != Went
    }

    /** memset to zero of what takes n pages. */
    method ClearPages(page: nat, n: nat) returns (stop: Stop)
      modifies `mem
      ensures match ZeroPages(old(mem), page, n)
              case None => stop == Faulted
              case Some(m) => stop == Went && mem == m
      ensures stop == Went ==> ClearedPages(old(mem), mem, page, n)
      ensures stop == Faulted ==> exists i {:trigger Translate(mem, i)} :: page <= i < page + n && Translate(mem, i) == None
    {
      ZeroClears(mem, page, n);
      for i := 0 to n
        invariant ZeroPages(mem, page + i, n - i) == ZeroPages(old(mem), page, n)
      {
        match Translate(mem, page + i) {
          case None => return Faulted;
          case Some(frame) => mem := ZeroFrame(mem, frame);
        }
      }
      stop := Went;
    }

    /** palloc_kern; `must` is F_ASSERT and `zero` is F_ZERO. */
    method PallocKern(n: nat, must: bool, zero: bool) returns (r: nat, stop: Stop)
      requires NO_ADDR !in View().free
      modifies `mem, frames
      ensures Palloced(PagingAlloc.PallocKern(old(Start()), n, must), n, zero, r, stop)
      ensures PagingAlloc.PallocKern(old(Start()), n, must).Ok? && zero ==>
        Ended(Memset(PagingAlloc.PallocKern(old(Start()), n, must), n), r, stop)
    {
      r := 0;
      ghost var s := Start();
      ghost var all := KernLoop(s, 0, n, must, 0);
      for i := 0 to n
        invariant s.vm == View() && s.index == nextIndex && NO_ADDR !in View().free
        invariant KernLeft(all, s, i, n, must, r)
      {
        var ends;
        ends, r, stop, s := KernPass(i, n, must, r, all, s);
        if ends { return; }
      }
      assert all == Ok(s, r);
      stop := Went;
      if zero { stop := ClearPages(r / PGSIZE, MEMSET_FACTOR * n); }
    }

    /** One pass through palloc_kern's loop. */
    method KernPass(i: nat, n: nat, must: bool, ret: nat, ghost all: Result, ghost s: Sys)
      returns (ends: bool, r: nat, stop: Stop, ghost t: Sys)
      requires i < n && s.vm == View() && s.index == nextIndex && NO_ADDR !in View().free
      requires KernLeft(all, s, i, n, must, ret)
      modifies `mem, frames
      ensures ends ==> Ended(all, r, stop) && !all.Ok?
      ensures !ends ==> t.vm == View() && t.index == nextIndex && NO_ADDR !in View().free && KernLeft(all, t, i + 1, n, must, r)
    {
      KernGoes(all, s, i, n, must, ret);
      ghost var round := if s.vm.free == [] then NoMemory(s) else KernRound(s);
      var pa, va;
      pa, va, stop := NextKernPage(s);
      if pa == NO_ADDR { return true, NO_ADDR, if must then Panicked else Went, s; }
      if stop != Went { return true, ret, stop, s; }
      return false, if i == 0 then va else ret, Went, round.s;
    }

    /** One round of palloc_kern. */
    method NextKernPage(ghost s: Sys) returns (pa: nat, va: nat, stop: Stop)
      requires s.vm == View() && s.index == nextIndex && NO_ADDR !in View().free
      modifies `mem, frames
      ensures s.vm.free == [] ==> pa == NO_ADDR && stop == Went && View() == s.vm
      ensures s.vm.free != [] ==> pa != NO_ADDR && RoundEnded(KernRound(s), stop)
      ensures s.vm.free != [] && KernRound(s).Ok? ==> va == KernRound(s).addr
      ensures NO_ADDR !in View().free
    {
      pa, stop := NextPage(true, s);
      va := Kptov(pa);
    }

    /** palloc_heap, for the kernel pool, with the same flags. */
    method PallocHeap(n: nat, must: bool, zero: bool) returns (r: nat, stop: Stop)
      requires NO_ADDR !in View().free
      modifies `mem, `nextIndex, frames
      ensures Palloced(PagingAlloc.PallocHeap(old(Start()), n, must), n, zero, r, stop)
      ensures PagingAlloc.PallocHeap(old(Start()), n, must).Ok? && zero ==>
        Ended(Memset(PagingAlloc.PallocHeap(old(Start()), n, must), n), r, stop)
    {
      r := 0;
      ghost var s := Start();
      ghost var all := HeapLoop(s, 0, n, must, 0);
      for i := 0 to n
        invariant s.vm == View() && s.index == nextIndex && NO_ADDR !in View().free
        invariant HeapLeft(all, s, i, n, must, r)
      {
        var ends;
        ends, r, stop, s := HeapPass(i, n, must, r, all, s);
        if ends { return; }
      }
      assert all == Ok(s, r);
      stop := Went;
      if zero { stop := ClearPages(r / PGSIZE, MEMSET_FACTOR * n); }
    }

    /** One pass through palloc_heap's loop. */
    method HeapPass(i: nat, n: nat, must: bool, ret: nat, ghost all: Result, ghost s: Sys)
      returns (ends: bool, r: nat, stop: Stop, ghost t: Sys)
      requires i < n && s.vm == View() && s.index == nextIndex && NO_ADDR !in View().free
      requires HeapLeft(all, s, i, n, must, ret)
      modifies `mem, `nextIndex, frames
      ensures ends ==> Ended(all, r, stop) && !all.Ok?
      ensures !ends ==> t.vm == View() && t.index == nextIndex && NO_ADDR !in View().free && HeapLeft(all, t, i + 1, n, must, r)
    {
      HeapGoes(all, s, i, n, must, ret);
      ghost var round := if s.vm.free == [] then NoMemory(s) else HeapRound(s);
      var pa, va;
      pa, va, stop := NextHeapPage(s);
      if pa == NO_ADDR { return true, NO_ADDR, if must then Panicked else Went, s; }
      if stop != Went { return true, ret, stop, s; }
      return false, if i == 0 then va else ret, Went, round.s;
    }

    /** One round of palloc_heap. */
    method NextHeapPage(ghost s: Sys) returns (pa: nat, va: nat, stop: Stop)
      requires s.vm == View() && s.index == nextIndex && NO_ADDR !in View().free
      modifies `mem, `nextIndex, frames
      ensures s.vm.free == [] ==> pa == NO_ADDR && stop == Went && View() == s.vm && nextIndex == s.index
      ensures s.vm.free != [] ==> pa != NO_ADDR && RoundEnded(HeapRound(s), stop)
      ensures s.vm.free != [] && HeapRound(s).Ok? ==> va == HeapRound(s).addr
      ensures NO_ADDR !in View().free
    {
      va := AddressFor(false, 0);
      pa, stop := NextPage(false, s);
      if pa != NO_ADDR { nextIndex := nextIndex + 1; }
    }

    /** init_pool; it does not look whether there was a frame. */
    method InitPool() returns (r: nat, stop: Stop)
      requires NO_ADDR !in View().free
      modifies `mem, frames
      ensures Ended(PagingAlloc.InitPool(old(Start())), r, stop)
    {
      r := 0;
      ghost var s := Start();
      ghost var all := PoolLoop(s, 0, POOL_PAGES, 0);
      for i := 0 to POOL_PAGES
        invariant s.vm == View() && s.index == nextIndex && NO_ADDR !in View().free
        invariant all == PoolLoop(s, i, POOL_PAGES, r)
      {
        ghost var round := if s.vm.free == [] then NoMemory(s) else KernRound(s);
        var pa := GetNextFree();
        stop := MapPage(pa, Kptov(pa));
        if stop != Went { return; }
        if i == 0 { r := Kptov(pa); }
        s := round.s;
      }
      stop := Went;
    }

    /** init_heap_page, up to initialiseHeap. */
    method InitHeapPage() returns (stop: Stop)
      requires NO_ADDR !in View().free
      modifies `mem, `nextIndex, frames
      ensures Ended(PagingAlloc.InitHeapPage(old(Start())), 0, stop)
    {
      if nextIndex != 0 { return Panicked; }
      var pa := GetNextFree();
      stop := MapPage(pa, 0);
      if stop == Went { nextIndex := 1; }
    }

    /** setupAvailablePages: counting the pages and filling the table. */
    method FillFrames(regions: seq<Region>)
      requires frames.Length == MAX_PHYS_PAGES
      modifies `pagecount, frames
      ensures pagecount == Capped(CountPages(regions))
      ensures frames[..] == Filled(old(frames[..]), PageList(regions))
    {
      pagecount := 0;
      for i := 0 to |regions|
        invariant pagecount == CountPages(regions[..i]) && frames[..] == old(frames[..])
      {
        assert regions[..i + 1][..i] == regions[..i];
        pagecount := Int32(pagecount + regions[i].length / PGSIZE);
      }
      assert regions[..|regions|] == regions;
      if pagecount > MAX_PHYS_PAGES { pagecount := MAX_PHYS_PAGES; }
      var pg := 0;
      assert regions[..0] == [] && frames[..] == Filled(old(frames[..]), []);
      for i := 0 to |regions|
        invariant pg == Least(|PageList(regions[..i])|, MAX_PHYS_PAGES) && pagecount == Capped(CountPages(regions))
        invariant frames[..] == Filled(old(frames[..]), PageList(regions[..i]))
      {
        assert regions[..i + 1][..i] == regions[..i];
        pg := FillRegion(regions[i], pg, PageList(regions[..i]), old(frames[..]));
      }
    }

    /** The inner loop, for one region after the pages of `list`. */
    method FillRegion(r: Region, start: nat, ghost list: seq<nat>, ghost before: seq<PhysPage>) returns (pg: nat)
      requires frames.Length == |before| == MAX_PHYS_PAGES && start == Least(|list|, MAX_PHYS_PAGES)
      requires frames[..] == Filled(before, list)
      modifies frames
      ensures var all := list + RegionPages(r, MaxPages(r));
        pg == Least(|all|, MAX_PHYS_PAGES) && frames[..] == Filled(before, all)
    {
      var maxPages := Int32(r.length / PGSIZE);
      var x := 0;
      pg := start;
      while x < maxPages && pg < MAX_PHYS_PAGES
        invariant 0 <= x <= MaxPages(r)
        invariant pg == Least(|list| + x, MAX_PHYS_PAGES)
        invariant frames[..] == Filled(before, list + RegionPages(r, x))
      {
        frames[pg] := PhysPage(Free, PageOf(r, x));
        pg := pg + 1;
        x := x + 1;
      }
    }

    /** setupAvailablePages: the kernel's pages and the screen's are reserved and mapped. */
    method ReservePages() returns (stop: Stop)
      requires frames.Length == MAX_PHYS_PAGES
      modifies `mem, frames
      ensures Shows(Reservations(Underway(old(frames[..]), old(mem))), stop)
    {
      ghost var start := Underway(frames[..], mem);
      for i := 0 to RESERVED_PAGES
        invariant Reaches(start, i, Underway(frames[..], mem))
      {
        ghost var next := Reserve(Underway(frames[..], mem), i);
        ReachesNext(start, i, Underway(frames[..], mem));
        stop := ReserveOne(i);
        if stop != Went {
          StaysFailed(start, i + 1, RESERVED_PAGES, next);
          return;
        }
      }
      stop := ReserveOne(VIDEO_PAGE);
    }

    method ReserveOne(i: nat) returns (stop: Stop)
      requires i < frames.Length
      modifies `mem, frames
      ensures Shows(Reserve(Underway(old(frames[..]), old(mem)), i), stop)
    {
      frames[i] := frames[i].(kind := Reserved);
      assert frames[..] == old(frames[..])[i := old(frames[i]).(kind := Reserved)];
      stop := MapPage(i * PGSIZE, Kptov(i * PGSIZE));
    }

    /** How a reservation shows in what was left. */
    ghost predicate Shows(how: Setup, stop: Stop)
      reads this, frames
    {
      match how
      case Underway(t, m) => stop == Went && frames[..] == t && mem == m
      case Failed(h) => stop == StopOf(h) && stop != Went
    }

    /**
     palloc_kern or palloc_heap, after rounds that ended with `how`.  Without F_ZERO memory is as
     the rounds left it; with it all pages from the answer on that memset reaches are cleared, and
     nothing else, or one of them is not mapped and the call ends in a page fault.
     */
    ghost predicate Palloced(how: Result, n: nat, zero: bool, r: nat, stop: Stop)
      reads this, frames
    {
      match how
      case Ok(s, a) =>
        && nextIndex == s.index && View().free == s.vm.free
        && (!zero ==> stop == Went && r == a && mem == s.vm.mem)
        && (zero ==> stop != Panicked)
        && (zero && stop == Went ==> r == a && ClearedPages(s.vm.mem, mem, a / PGSIZE, MEMSET_FACTOR * n))
        && (zero && stop == Faulted ==>
              exists i {:trigger Translate(mem, i)} ::
                a / PGSIZE <= i < a / PGSIZE + MEMSET_FACTOR * n && Translate(mem, i) == None)
      case _ => Ended(how, r, stop)
    }

    /** How an allocator's result shows in what it returns and leaves. */
    ghost predicate Ended(how: Result, r: nat, stop: Stop)
      reads this, frames
    {
      match how
      case Ok(s, a) => stop == Went && r == a && View() == s.vm && nextIndex == s.index
      case NoMemory(s) => stop == Went && r == NO_ADDR && View() == s.vm && nextIndex == s.index
      case Halted(h) => stop == StopOf(h)
    }
  }

  function Least(a: nat, b: nat): nat { if a <= b then a else b }
}
