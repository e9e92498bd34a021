/**
 The page tables the boot code builds, and what the kernel may then do with them.
 Words are written at 4-aligned physical addresses; a word is an entry's bits.
 */
module PagingBoot {
  import opened Common
  import opened Paging
  import opened PagingAlloc
  import opened PagingReady
  import opened PagingRuns
  import opened PagingFrames

  const TABLES_BASE: nat := 0x110_0000
  const KERNEL_TABLES: nat := 0x140_0000     // PAGE_TABLES_BASE + 0x00300000
  const TABLES_BYTES: nat := 0x40_0000
  const PAGES_COUNT: nat := 6
  const ENTRIES: nat := 0x6000               // PAGES_COUNT * 0x1000
  const BOOT_FRAMES: nat := 0x1800           // 24 MiB

  /** Present is bit 0, the base is bits 12 to 31. */
  function EntryOf(word: nat): Entry { Entry(word % 2 == 1, word / PGSIZE) }

  class Memory {
    var mem: Mem

    method StoreWord(a: nat, word: nat)
      requires a % 4 == 0
      modifies this
      ensures forall f: nat, i: nat {:trigger At(mem, f, i)} :: i < SLOTS ==>
        At(mem, f, i) == if a == f * PGSIZE + i * 4 then EntryOf(word) else At(old(mem), f, i)
    {
      ghost var before := mem;
      mem := mem[(a / PGSIZE, a % PGSIZE / 4) := EntryOf(word)];
      forall f: nat, i: nat | i < SLOTS
        ensures At(mem, f, i) == if a == f * PGSIZE + i * 4 then EntryOf(word) else At(before, f, i)
      {
        WordIndex(a, f, i);
      }
    }

    /** clear_page_directory and clear_page_tables: n frames from `first` on set to zero. */
    method Clear(first: nat, n: nat)
      modifies this
      ensures forall f: nat, i: nat {:trigger At(mem, f, i)} :: i < SLOTS ==>
        At(mem, f, i) == if first <= f < first + n then Entry(false, 0) else At(old(mem), f, i)
    {
      for k := 0 to n * SLOTS
        invariant forall f: nat, i: nat {:trigger At(mem, f, i)} :: i < SLOTS ==>
          At(mem, f, i) == if first * SLOTS <= f * SLOTS + i < first * SLOTS + k then Entry(false, 0) else At(old(mem), f, i)
      {
        StoreWord(first * PGSIZE + k * 4, 0);
      }
    }

    /** create_page_directory. */
    method CreatePageDirectory()
      modifies this
      ensures forall f: nat, i: nat {:trigger At(mem, f, i)} :: i < SLOTS ==>
        At(mem, f, i) == if f == PD_FRAME && HasTable(i) then BootSlot(i) else At(old(mem), f, i)
    {
      for i := 0 to PAGES_COUNT
        invariant forall f: nat, j: nat {:trigger At(mem, f, j)} :: j < SLOTS ==>
          At(mem, f, j) == if f == PD_FRAME && j < i then BootSlot(j) else At(old(mem), f, j)
      {
        StoreWord(PD_FRAME * PGSIZE + i * 4, TABLES_BASE + i * 0x1000 + 3);
      }
      for i := 0 to PAGES_COUNT
        invariant forall f: nat, j: nat {:trigger At(mem, f, j)} :: j < SLOTS ==>
          At(mem, f, j) == if f == PD_FRAME && (j < PAGES_COUNT || 768 <= j < 768 + i) then BootSlot(j) else At(old(mem), f, j)
      {
        StoreWord(PD_FRAME * PGSIZE + 0xC00 + i * 4, KERNEL_TABLES + i * 0x1000 + 3);
      }
    }

    /** create_identity_page_table and create_kernel_page_table, which differ in their first frame. */
    method CreatePageTable(first: nat)
      modifies this
      ensures forall f: nat, i: nat {:trigger At(mem, f, i)} :: i < SLOTS ==>
        At(mem, f, i) == if first <= f < first + ENTRIES / SLOTS then Entry(true, (f - first) * SLOTS + i) else At(old(mem), f, i)
    {
      var k, address := 0, 0;
      while k < ENTRIES
        invariant k <= ENTRIES && address == k * 0x1000
        invariant forall f: nat, i: nat {:trigger At(mem, f, i)} :: i < SLOTS ==>
          At(mem, f, i) == if first * SLOTS <= f * SLOTS + i < first * SLOTS + k then Entry(true, (f - first) * SLOTS + i)
                           else At(old(mem), f, i)
      {
        PageEntry(k);
        StoreWord(first * PGSIZE + k * 4, address + 3);
        address := address + 0x1000;
        k := k + 1;
      }
    }

    /** The boot code's calls, in order: whatever was in memory, the tables are those of IsBoot. */
    method CreateTables()
      modifies this
      ensures IsBoot(mem)
      ensures forall f: nat, i: nat {:trigger At(mem, f, i)} ::
        i < SLOTS && f != PD_FRAME && !(0x1100 <= f < 0x1500) ==> At(mem, f, i) == At(old(mem), f, i)
    {
      Clear(PD_FRAME, 1);
      Clear(TABLES_BASE / PGSIZE, TABLES_BYTES / PGSIZE);
      CreatePageDirectory();
      CreatePageTable(TABLES_BASE / PGSIZE);
      CreatePageTable(KERNEL_TABLES / PGSIZE);
    }
  }

  lemma WordIndex(a: nat, f: nat, i: nat)
    requires a % 4 == 0 && i < SLOTS
    ensures (a / PGSIZE, a % PGSIZE / 4) == (f, i) <==> a == f * PGSIZE + i * 4
  {
  }

  predicate HasTable(slot: nat) { slot < PAGES_COUNT || 768 <= slot < 768 + PAGES_COUNT }

  function BootTable(slot: nat): nat
    requires HasTable(slot)
  {
    if slot < PAGES_COUNT then 0x1100 + slot else 0x1400 + slot - 768
  }

  function BootSlot(slot: nat): Entry {
    if HasTable(slot) then Entry(true, BootTable(slot)) else Entry(false, 0)
  }

  lemma PageEntry(k: nat)
    ensures EntryOf(k * 0x1000 + 3) == Entry(true, k)
  {
  }

  ghost predicate IsBoot(m: Mem) {
    && (forall i {:trigger At(m, PD_FRAME, i)} :: 0 <= i < SLOTS ==> At(m, PD_FRAME, i) == BootSlot(i))
    && (forall f: nat, i: nat {:trigger At(m, f, i)} :: i < SLOTS && 0x1100 <= f < 0x1106 ==>
          At(m, f, i) == Entry(true, (f - 0x1100) * SLOTS + i))
    && (forall f: nat, i: nat {:trigger At(m, f, i)} :: i < SLOTS && 0x1400 <= f < 0x1406 ==>
          At(m, f, i) == Entry(true, (f - 0x1400) * SLOTS + i))
  }

  /** The low 24 MiB appear at address 0 and at KERN_BASE; nothing else is mapped. */
  function BootView(p: nat): Option<nat> {
    if p < BOOT_FRAMES then Some(p)
    else if KERN_PAGE <= p < KERN_PAGE + BOOT_FRAMES then Some(p - KERN_PAGE)
    else None
  }

  lemma BootTranslates(m: Mem)
    requires IsBoot(m)
    ensures forall p {:trigger Translate(m, p)} :: 0 <= p < PAGES ==> Translate(m, p) == BootView(p)
  {
    forall p | 0 <= p < PAGES ensures Translate(m, p) == BootView(p) {
      assert At(m, PD_FRAME, p / SLOTS) == BootSlot(p / SLOTS);
      assert p == p / SLOTS * SLOTS + p % SLOTS;
    }
  }

  /** A frame the table of free frames may list at boot: one with a direct page, in no boot table, and zero. */
  ghost predicate BootFree(m: Mem, a: nat) {
    var f := a / PGSIZE;
    && a % PGSIZE == 0 && f < DIRECT_FRAMES && f != PD_FRAME
    && !(0x1100 <= f < 0x1106) && !(0x1400 <= f < 0x1406)
    && EmptyRow(m, f)
  }

  ghost predicate BootFrames(m: Mem, free: seq<nat>) {
    NoDup(free) && forall a {:trigger BootFree(m, a)} :: a in free ==> BootFree(m, a)
  }

  lemma BootTablesOk(m: Mem)
    requires IsBoot(m)
    ensures TablesOk(m)
  {
    BootTranslates(m);
    forall s | 0 <= s < SLOTS ensures TableOk(m, s) {
      assert At(m, PD_FRAME, s) == BootSlot(s);
      if HasTable(s) { KptovPage(BootTable(s)); }
    }
    forall s, u | 0 <= s < u < SLOTS && Present(m, s) && Present(m, u) ensures TableOf(m, s) != TableOf(m, u) {
      assert At(m, PD_FRAME, s) == BootSlot(s) && At(m, PD_FRAME, u) == BootSlot(u);
    }
  }

  lemma BootFrameUnused(m: Mem, a: nat)
    requires IsBoot(m) && BootFree(m, a)
    ensures Unused(m, a)
    ensures a / PGSIZE < BOOT_FRAMES ==> Translate(m, KPage(a / PGSIZE)) == Some(a / PGSIZE)
  {
    BootTranslates(m);
    KptovPage(a / PGSIZE);
    forall s | 0 <= s < SLOTS && Present(m, s) ensures TableOf(m, s) != a / PGSIZE {
      assert At(m, PD_FRAME, s) == BootSlot(s);
    }
  }

  /** After boot the tables can edit themselves, with any zero frames below 1 GiB free that are not theirs. */
  lemma BootValid(m: Mem, free: seq<nat>)
    requires IsBoot(m) && BootFrames(m, free)
    ensures Valid(Vm(free, m))
  {
    BootTablesOk(m);
    forall a | a in free ensures Unused(m, a) { BootFrameUnused(m, a); }
  }

  /** Below 24 MiB every free frame is ready to become a table, and already at its direct page. */
  lemma BootReady(m: Mem, free: seq<nat>)
    requires IsBoot(m) && BootFrames(m, free) && (forall a :: a in free ==> a / PGSIZE < BOOT_FRAMES)
    ensures Ready(Vm(free, m)) && DirectMapped(Vm(free, m))
  {
    BootValid(m, free);
    forall a | a in free ensures Translate(m, KPage(a / PGSIZE)) == Some(a / PGSIZE) { BootFrameUnused(m, a); }
    DirectReady(Vm(free, m));
  }

  /** Above KERN_BASE boot maps direct pages alone. */
  lemma BootDirectOnly(m: Mem)
    requires IsBoot(m)
    ensures DirectOnly(m)
  {
    BootTranslates(m);
  }

  lemma BootSound(m: Mem, free: seq<nat>)
    requires IsBoot(m) && BootFrames(m, free)
    ensures Sound(Vm(free, m))
  {
    BootValid(m, free);
    BootDirectOnly(m);
    ValidSound(Vm(free, m));
  }

  function BootBook(free: seq<nat>): Book {
    Book((map s: nat | s < SLOTS && HasTable(s) :: BootTable(s)), free)
  }

  lemma BootBookIs(m: Mem, free: seq<nat>)
    requires IsBoot(m)
    ensures BookOf(Vm(free, m)) == BootBook(free)
  {
    forall s | 0 <= s < SLOTS ensures At(m, PD_FRAME, s) == BootSlot(s) {}
    assert BookOf(Vm(free, m)).tables == BootBook(free).tables;
  }

  function BootSys(m: Mem, free: seq<nat>): Sys { Sys(Vm(free, m), 0, [], []) }

  /**
   From the boot tables, with free frames anywhere below 1 GiB.  Over a run of map_page (at
   direct pages or below KERN_BASE) and unmap_page the tables stay editable through themselves
   exactly when the run's book says so.  It then leaves the boot view with the run's updates.
   */
  lemma RunsFromBoot(m: Mem, free: seq<nat>, ops: seq<Op>)
    requires IsBoot(m) && BootFrames(m, free) && (forall op :: op in ops ==> EditsInRange(op))
    ensures EditableThrough(BootSys(m, free), ops) <==> AllGo(BootBook(free), ops)
    ensures EditableThrough(BootSys(m, free), ops) ==>
      forall p :: 0 <= p < PAGES ==>
        Translate(Run(BootSys(m, free), ops).s.vm.mem, p) == Expected(BootView(p), BootBook(free), ops, p)
  {
    BootValid(m, free);
    BootBookIs(m, free);
    BootTranslates(m);
    TranslationOverRuns(BootSys(m, free), ops);
  }

  /**
   From the boot tables, over any run at all of the allocators, map_page, unmap_page and memset
   with arguments in range: every frame is in one place, every table is a boot table or a frame
   made into one, no two directory slots have one table, and the kernel's pages are direct.
   */
  lemma FramesFromBoot(m: Mem, free: seq<nat>, ops: seq<Op>)
    requires IsBoot(m) && BootFrames(m, free) && AllInRange(BootSys(m, free), ops) && Run(BootSys(m, free), ops).Going?
    ensures var r := Run(BootSys(m, free), ops).s;
      && Held(r, free, TablesAt(m)) && NoDup(r.data + r.made + r.vm.free)
      && multiset(r.data + r.made + r.vm.free) == multiset(free) && Tail(r.vm.free, free)
  {
    BootSound(m, free);
    SoundOverRuns(BootSys(m, free), ops);
    FramesOverRuns(BootSys(m, free), ops);
  }

  /** With the free frames below 24 MiB a run's own updates are all there is, and it stops only by a panic. */
  lemma LowRunsFromBoot(m: Mem, free: seq<nat>, ops: seq<Op>)
    requires IsBoot(m) && BootFrames(m, free) && (forall a :: a in free ==> a / PGSIZE < BOOT_FRAMES)
    requires forall op :: op in ops ==> LowEdits(op)
    ensures match Run(BootSys(m, free), ops)
            case Going(r) => forall p :: 0 <= p < PAGES ==> Translate(r.vm.mem, p) == Plain(BootView(p), ops, p)
            case Stopped(how) => how == Panic
  {
    BootReady(m, free);
    BootTranslates(m);
    PlainOverRuns(BootSys(m, free), ops);
    if Run(BootSys(m, free), ops).Going? {
      var r := Run(BootSys(m, free), ops).s;
      forall p | 0 <= p < PAGES ensures Translate(r.vm.mem, p) == Plain(BootView(p), ops, p) {
        assert Translate(r.vm.mem, p) == Plain(Translate(m, p), ops, p);
      }
    }
  }
}
