/**
 What callers of palloc_kern get from the code itself: thread_create asks for one page with
 F_ASSERT and F_ZERO.
 */
module PagerCallers {
  import opened Common
  import opened Paging
  import opened PagingAlloc
  import opened PagingFrames
  import opened PagingServe
  import opened PagingReady
  import opened PagingBoot
  import opened PagingRange
  import opened PagingStart
  import PagingWitness
  import opened Pager
  import opened FrameTable

  /** A new page: the first free frame f, seen at its direct page, zero, and every page mapped before is as it was. */
  ghost predicate PageMade(m: Mem, r: Mem, f: nat, addr: nat) {
    && addr == Kptov(f * PGSIZE) && Translate(r, addr / PGSIZE) == Some(f)
    && (forall g :: f <= g < f + MEMSET_FACTOR ==> EmptyRow(r, g))
    && (forall p {:trigger Translate(r, p)} :: 0 <= p < PAGES && Translate(m, p).Some? ==> Translate(r, p) == Translate(m, p))
  }

  /** No map_page can be done any more. */
  ghost predicate PagingLost(vm: Vm) {
    forall pa: nat, va: nat {:trigger Paging.MapPage(vm, pa, va)} ::
      pa % PGSIZE == 0 && va % PGSIZE == 0 ==> Paging.MapPage(vm, pa, va) == Fault
  }

  /**
   thread_create's page.  On a usual PC, while the four frames from the first free one on end
   before the boot tables, it is a zero page and nothing else moves; with frame 0x13FF alone free
   after boot the same call is done too, and paging is lost.
   */
  method NewThreadPage(p: Pager, ghost m: Mem, ghost low: nat, ghost high: nat, ghost q: Sys) returns (r: nat, stop: Stop)
    requires NO_ADDR !in p.View().free
    modifies p`mem, p.frames
    ensures old(p.View()).free == [] ==> stop == Panicked
    ensures PcState(m, low, high, q) && q.vm == old(p.View()) && q.index == old(p.nextIndex) && q.vm.free != []
            && q.vm.free[0] / PGSIZE + MEMSET_FACTOR <= 0x1100 ==>
              stop == Went && PageMade(old(p.mem), p.mem, q.vm.free[0] / PGSIZE, r)
    ensures IsBoot(old(p.mem)) && old(p.View()).free == [0x13FF * PGSIZE] && BootFrames(old(p.mem), [0x13FF * PGSIZE]) ==>
              stop == Went && r == Kptov(0x13FF * PGSIZE) && PagingLost(p.View())
  {
    ghost var s := p.Start();
    r, stop := p.PallocKern(1, true, true);
    NoneLeft(s);
    if PcState(m, low, high, q) && q.vm == s.vm && q.index == s.index && q.vm.free != []
       && q.vm.free[0] / PGSIZE + MEMSET_FACTOR <= 0x1100 {
      PcPage(m, low, high, q, s);
    }
    if IsBoot(s.vm.mem) && s.vm.free == [0x13FF * PGSIZE] && BootFrames(s.vm.mem, [0x13FF * PGSIZE]) {
      LastTableFrame(s);
    }
  }

  lemma NoneLeft(s: Sys)
    ensures s.vm.free == [] ==> PagingAlloc.PallocKern(s, 1, true) == Halted(Panic)
  {
  }

  /** Results that differ in history alone. */
  ghost predicate Alike(a: Result, b: Result) {
    match a
    case Ok(s, x) => b.Ok? && b.addr == x && b.s.vm == s.vm && b.s.index == s.index
    case NoMemory(s) => b.NoMemory? && b.s.vm == s.vm && b.s.index == s.index
    case Halted(how) => b == Halted(how)
  }

  /** The history of frames handed out is never read. */
  lemma {:induction false} HistoryUnread(s: Sys, q: Sys, i: nat, n: nat, must: bool, ret: nat, how: Result)
    requires s.vm == q.vm && s.index == q.index && KernLeft(how, s, i, n, must, ret)
    ensures Alike(how, KernLoop(q, i, n, must, ret))
    decreases n - i
  {
    if i < n {
      KernGoes(how, s, i, n, must, ret);
      KernGoes(KernLoop(q, i, n, must, ret), q, i, n, must, ret);
      if s.vm.free != [] {
        RoundUnread(s, q);
        if KernRound(s).Ok? {
          HistoryUnread(KernRound(s).s, KernRound(q).s, i + 1, n, must, if i == 0 then KernRound(s).addr else ret, how);
        }
      }
    }
  }

  lemma RoundUnread(s: Sys, q: Sys)
    requires s.vm == q.vm && s.index == q.index && s.vm.free != []
    ensures Alike(KernRound(s), KernRound(q)) && !KernRound(s).NoMemory?
  {
  }

  /** The page of a usual PC: palloc_kern's rounds are those of PcZero. */
  lemma PcPage(m: Mem, low: nat, high: nat, q: Sys, s: Sys)
    requires PcState(m, low, high, q) && q.vm == s.vm && q.index == s.index && q.vm.free != []
    requires q.vm.free[0] / PGSIZE + MEMSET_FACTOR <= 0x1100
    ensures var z := Memset(PagingAlloc.PallocKern(s, 1, true), 1);
      PagingAlloc.PallocKern(s, 1, true).Ok? && z.Ok? && PageMade(s.vm.mem, z.s.vm.mem, q.vm.free[0] / PGSIZE, z.addr)
  {
    var how, mine, n := PagingAlloc.PallocKern(q, 1, true), PagingAlloc.PallocKern(s, 1, true), 1;
    PcZero(m, low, high, q, n, true);
    HistoryUnread(s, q, 0, n, true, 0, mine);
    PageAt(q, how);
    PageMadeBy(q, how, Memset(how, 1));
  }

  /** The rounds put the first frame at its direct page and move nothing. */
  ghost predicate Put(s: Sys, how: Result) {
    && s.vm.free != [] && how.Ok? && how.addr == Kptov(s.vm.free[0])
    && s.vm.free[0] == s.vm.free[0] / PGSIZE * PGSIZE && s.vm.free[0] / PGSIZE < DIRECT_FRAMES
    && Translate(how.s.vm.mem, KPage(s.vm.free[0] / PGSIZE)) == Some(s.vm.free[0] / PGSIZE)
    && (forall p {:trigger Translate(how.s.vm.mem, p)} :: 0 <= p < PAGES && Translate(s.vm.mem, p).Some? ==>
          Translate(how.s.vm.mem, p) == Translate(s.vm.mem, p))
  }

  lemma PageAt(s: Sys, how: Result)
    requires Ready(s.vm) && DirectOnly(s.vm.mem) && s.vm.free != [] && how == PagingAlloc.PallocKern(s, 1, true)
    ensures Put(s, how)
  {
    var n, a := 1, s.vm.free[0];
    ReadyGoes(s, n);
    var d := HandsOut(s, n, true, how);
    ServedFrom(s, n, true, how);
    var k: nat :| Served(s, how.s, n, k);
    assert d == [a];
    assert Unused(s.vm.mem, a);
    KptovPage(a / PGSIZE);
    assert Translate(how.s.vm.mem, KPage(a / PGSIZE)) == AfterService(s, k, KPage(a / PGSIZE));
    assert s.vm.free[..k][0] == a;
    forall p | 0 <= p < PAGES && Translate(s.vm.mem, p).Some? ensures Translate(how.s.vm.mem, p) == Translate(s.vm.mem, p) {
      assert Translate(how.s.vm.mem, p) == AfterService(s, k, p);
    }
  }

  lemma PageMadeBy(s: Sys, how: Result, z: Result)
    requires Put(s, how) && z.Ok? && z.addr == how.addr && SameView(how.s.vm.mem, z.s.vm.mem)
    requires ClearedOnly(how.s.vm.mem, z.s.vm.mem, s.vm.free[0] / PGSIZE, MEMSET_FACTOR)
    ensures PageMade(s.vm.mem, z.s.vm.mem, s.vm.free[0] / PGSIZE, z.addr)
  {
    var f := s.vm.free[0] / PGSIZE;
    KptovPage(f);
    assert Translate(z.s.vm.mem, KPage(f)) == Translate(how.s.vm.mem, KPage(f));
    forall g | f <= g < f + MEMSET_FACTOR ensures EmptyRow(z.s.vm.mem, g) {
      forall i | 0 <= i < SLOTS ensures !At(z.s.vm.mem, g, i).present {}
    }
    forall p | 0 <= p < PAGES && Translate(s.vm.mem, p).Some? ensures Translate(z.s.vm.mem, p) == Translate(s.vm.mem, p) {
      assert Translate(how.s.vm.mem, p) == Translate(s.vm.mem, p);
    }
  }

  lemma LastTableFrame(s: Sys)
    requires IsBoot(s.vm.mem) && s.vm.free == [0x13FF * PGSIZE] && BootFrames(s.vm.mem, s.vm.free) && s.data == [] && s.made == []
    ensures var z := Memset(PagingAlloc.PallocKern(s, 1, true), 1);
      PagingAlloc.PallocKern(s, 1, true).Ok? && z.Ok? && z.addr == Kptov(0x13FF * PGSIZE) && PagingLost(z.s.vm)
  {
    var boot, n := BootSys(s.vm.mem, s.vm.free), 1;
    PagingWitness.ClearedTableFromBoot(s.vm.mem, true);
    var how := PagingAlloc.PallocKern(boot, n, true);
  }
}
