/**
 The frame table while setupAvailablePages reserves entries and maps their frames: each map_page
 may take free entries for tables.
 */
module ReservedEntries {
  import opened Common
  import opened Paging
  import opened PagingAlloc
  import opened PagingFrames
  import opened PagingReady
  import opened PagingBoot
  import opened FrameTable

  /** The table with its first free entry allocated, if there is one, and nothing else changed. */
  function TakeFirst(t: seq<PhysPage>): (r: seq<PhysPage>)
    ensures |r| == |t|
  {
    if t == [] then []
    else if t[0].kind.Free? then [t[0].(kind := Allocated)] + t[1..]
    else [t[0]] + TakeFirst(t[1..])
  }

  function TakeMany(t: seq<PhysPage>, n: nat): (r: seq<PhysPage>)
    ensures |r| == |t|
    decreases n
  {
    if n == 0 then t else TakeMany(TakeFirst(t), n - 1)
  }

  /** Some entries that were free were allocated, from the front: n of them, if it is asked how many. */
  ghost predicate Took(t: seq<PhysPage>, u: seq<PhysPage>, known: bool, n: int) {
    exists k: nat {:trigger TakeMany(t, k)} :: u == TakeMany(t, k) && (known ==> k == n)
  }

  lemma TookMore(t: seq<PhysPage>, u: seq<PhysPage>, known: bool, n: int)
    requires Took(TakeFirst(t), u, known, n)
    ensures Took(t, u, known, n + 1)
  {
    var k: nat :| u == TakeMany(TakeFirst(t), k) && (known ==> k == n);
    assert TakeMany(t, k + 1) == u;
  }

  lemma TookNone(t: seq<PhysPage>, known: bool)
    ensures Took(t, t, known, 0)
  {
    assert TakeMany(t, 0) == t;
  }

  lemma {:induction false} FirstTaken(t: seq<PhysPage>, k: nat)
    requires k < |t| && t[k].kind.Free? && (forall j :: 0 <= j < k ==> !t[j].kind.Free?)
    ensures TakeFirst(t) == t[k := t[k].(kind := Allocated)]
  {
    if k > 0 { FirstTaken(t[1..], k - 1); }
  }

  lemma {:induction false} NoneTaken(t: seq<PhysPage>)
    requires forall j :: 0 <= j < |t| ==> !t[j].kind.Free?
    ensures TakeFirst(t) == t
  {
    if t != [] { NoneTaken(t[1..]); }
  }

  // ----- the reservations

  /** The frame table and the page tables while entries are reserved, or how that stopped. */
  datatype Setup = Underway(frames: seq<PhysPage>, mem: Mem) | Failed(how: Outcome)

  /** Entry i is reserved and frame i mapped at its direct page; the tables this needs take the first free entries. */
  function Reserve(x: Setup, i: nat): Setup {
    match x
    case Failed(_) => x
    case Underway(before, m) =>
      var t := if i < |before| then before[i := before[i].(kind := Reserved)] else before;
      Placed(t, Paging.MapPage(Vm(FreeAddrs(t), m), i * PGSIZE, Kptov(i * PGSIZE)))
  }

  /** The table t after such a map_page. */
  function Placed(t: seq<PhysPage>, how: Outcome): Setup {
    match how
    case Done(v) => Underway(TakeMany(t, if |v.free| <= |FreeAddrs(t)| then |FreeAddrs(t)| - |v.free| else 0), v.mem)
    case failed => Failed(failed)
  }

  function ReserveMany(x: Setup, n: nat): Setup {
    if n == 0 then x else Reserve(ReserveMany(x, n - 1), n - 1)
  }

  /** The first 32 entries, then the screen's. */
  function Reservations(x: Setup): Setup { Reserve(ReserveMany(x, RESERVED_PAGES), VIDEO_PAGE) }

  ghost predicate Reaches(x: Setup, n: nat, r: Setup) { r == ReserveMany(x, n) }

  lemma ReachesNext(x: Setup, n: nat, r: Setup)
    requires Reaches(x, n, r)
    ensures Reaches(x, n + 1, Reserve(r, n))
  {
  }

  lemma {:induction false} StaysFailed(x: Setup, i: nat, n: nat, r: Setup)
    requires i <= n && Reaches(x, i, r) && r.Failed?
    ensures Reaches(x, n, r)
    decreases n - i
  {
    if i < n {
      ReachesNext(x, i, r);
      StaysFailed(x, i + 1, n, r);
    }
  }

  ghost predicate SameEntries(m: Mem, r: Mem) { forall f: nat, i: nat {:trigger At(r, f, i)} :: At(r, f, i) == At(m, f, i) }

  /** The table from t and m with its first n entries reserved, page tables as they were. */
  ghost predicate AtBoot(t: seq<PhysPage>, m: Mem, n: nat, r: Setup) {
    r.Underway? && r.frames == ReservedFirst(t, n) && IsBoot(r.mem) && SameEntries(m, r.mem)
  }

  /** From the boot tables: the entries are reserved, no frame is taken and every table entry stays as it was. */
  lemma ReservationsAtBoot(t: seq<PhysPage>, m: Mem)
    requires IsBoot(m) && |t| == MAX_PHYS_PAGES
    ensures var r := Reservations(Underway(t, m));
      r.Underway? && r.frames == WithReserved(t) && IsBoot(r.mem) && SameEntries(m, r.mem)
  {
    var r := ManyAtBoot(t, m, RESERVED_PAGES);
    ReserveAtBoot(r.frames, r.mem, VIDEO_PAGE);
  }

  lemma ReserveAtBoot(t: seq<PhysPage>, m: Mem, i: nat)
    requires IsBoot(m) && i < |t| && i < BOOT_FRAMES
    ensures var r := Reserve(Underway(t, m), i);
      r.Underway? && r.frames == t[i := t[i].(kind := Reserved)] && IsBoot(r.mem) && SameEntries(m, r.mem)
  {
    var u := t[i := t[i].(kind := Reserved)];
    BootMapsAgain(Vm(FreeAddrs(u), m), i);
    assert TakeMany(u, 0) == u;
  }

  lemma {:induction false} ManyAtBoot(t: seq<PhysPage>, m: Mem, n: nat) returns (r: Setup)
    requires IsBoot(m) && n <= |t| && n <= BOOT_FRAMES
    ensures Reaches(Underway(t, m), n, r) && AtBoot(t, m, n, r)
    decreases n
  {
    r := Underway(t, m);
    if n == 0 {
      assert ReservedFirst(t, 0) == t;
    } else {
      r := ManyAtBoot(t, m, n - 1);
      ReachesNext(Underway(t, m), n - 1, r);
      ReserveAtBoot(r.frames, r.mem, n - 1);
      assert r.frames[n - 1 := r.frames[n - 1].(kind := Reserved)] == ReservedFirst(t, n);
      r := Reserve(r, n - 1);
    }
  }

  /** Entries keep their addresses; of the others only free ones became allocated. */
  ghost predicate Aged(t: seq<PhysPage>, u: seq<PhysPage>, k: nat)
    requires k < |t| == |u|
  {
    u[k].addr == t[k].addr && (u[k].kind == t[k].kind || (t[k].kind.Free? && u[k].kind.Allocated?))
  }

  lemma {:induction false} FirstAged(t: seq<PhysPage>, k: nat)
    requires k < |t|
    ensures Aged(t, TakeFirst(t), k)
    decreases |t|
  {
    if !t[0].kind.Free? && k > 0 {
      FirstAged(t[1..], k - 1);
      assert TakeFirst(t)[k] == TakeFirst(t[1..])[k - 1];
    }
  }

  lemma {:induction false} FirstTakesFree(t: seq<PhysPage>)
    ensures FreeAddrs(TakeFirst(t)) == Rest(FreeAddrs(t))
    decreases |t|
  {
    if t != [] {
      if t[0].kind.Free? {
        assert TakeFirst(t)[1..] == t[1..];
      } else {
        assert TakeFirst(t)[1..] == TakeFirst(t[1..]);
        FirstTakesFree(t[1..]);
      }
    }
  }

  lemma {:induction false} ManyAged(t: seq<PhysPage>, n: nat, k: nat)
    requires k < |t|
    ensures Aged(t, TakeMany(t, n), k)
    decreases n
  {
    if n > 0 {
      FirstAged(t, k);
      ManyAged(TakeFirst(t), n - 1, k);
    }
  }

  lemma {:induction false} ManyTakeFree(t: seq<PhysPage>, n: nat)
    requires n <= |FreeAddrs(t)|
    ensures FreeAddrs(TakeMany(t, n)) == FreeAddrs(t)[n..]
    decreases n
  {
    if n > 0 {
      FirstTakesFree(t);
      ManyTakeFree(TakeFirst(t), n - 1);
      assert Rest(FreeAddrs(t))[n - 1..] == FreeAddrs(t)[n..];
    }
  }

  /** A reserved entry is no longer among the free ones, which are otherwise as they were. */
  lemma {:induction false} ReservedFree(t: seq<PhysPage>, i: nat)
    requires i < |t| && NoDup(FreeAddrs(t))
    ensures var u := FreeAddrs(t[i := t[i].(kind := Reserved)]);
      NoDup(u) && forall a :: a in u ==> a in FreeAddrs(t)
    decreases |t|
  {
    var u := t[i := t[i].(kind := Reserved)];
    var head := if t[0].kind.Free? then [t[0].addr] else [];
    assert FreeAddrs(t) == head + FreeAddrs(t[1..]);
    if i == 0 {
      assert u[1..] == t[1..];
      NoDupRest(head, FreeAddrs(t[1..]));
    } else {
      NoDupRest(head, FreeAddrs(t[1..]));
      ReservedFree(t[1..], i - 1);
      assert u[1..] == t[1..][i - 1 := t[1..][i - 1].(kind := Reserved)];
      assert FreeAddrs(u) == head + FreeAddrs(u[1..]);
      NoDupJoin(head, FreeAddrs(u[1..]));
    }
  }

  lemma NoDupJoin(head: seq<nat>, rest: seq<nat>)
    requires NoDup(rest) && |head| <= 1 && forall a :: a in head ==> a !in rest
    ensures NoDup(head + rest)
  {
    if head != [] { assert head[0] in head; }
  }

  lemma NoDupRest(head: seq<nat>, rest: seq<nat>)
    requires NoDup(head + rest)
    ensures NoDup(rest) && forall a :: a in head ==> a !in rest
  {
    forall i, j | 0 <= i < j < |rest| ensures rest[i] != rest[j] {
      assert (head + rest)[|head| + i] == rest[i] && (head + rest)[|head| + j] == rest[j];
    }
    forall a | a in head ensures a !in rest {
      var i :| 0 <= i < |head| && head[i] == a;
      forall j | 0 <= j < |rest| ensures rest[j] != a {
        assert (head + rest)[i] == a && (head + rest)[|head| + j] == rest[j];
      }
    }
  }

  /** What a reservation leaves of a ready state: entry i reserved, frame i at its direct page, and no page from KERN_BASE on gone. */
  ghost predicate Reserves(t: seq<PhysPage>, m: Mem, i: nat, u: seq<PhysPage>, r: Mem)
    requires i < |t|
  {
    && |u| == |t| && u[i] == PhysPage(Reserved, t[i].addr)
    && (forall k {:trigger u[k]} :: 0 <= k < |t| && k != i ==> Aged(t, u, k))
    && Ready(Vm(FreeAddrs(u), r)) && DirectOnly(r) && High(m, r) && Translate(r, KPage(i)) == Some(i)
  }

  lemma ReserveReady(t: seq<PhysPage>, m: Mem, i: nat)
    requires Ready(Vm(FreeAddrs(t), m)) && DirectOnly(m) && i < |t| && i < DIRECT_FRAMES
    ensures var x := Reserve(Underway(t, m), i);
      if x.Underway? then Reserves(t, m, i, x.frames, x.mem) else x == Failed(Panic)
  {
    var t1 := t[i := t[i].(kind := Reserved)];
    var how := Paging.MapPage(Vm(FreeAddrs(t1), m), i * PGSIZE, Kptov(i * PGSIZE));
    ReservedReady(t, m, i);
    MapsDirect(Vm(FreeAddrs(t1), m), i * PGSIZE, Kptov(i * PGSIZE), i, how);
    ReserveWith(t, m, i, t1, how);
  }

  /** How a reservation follows from its map_page. */
  lemma ReserveWith(t: seq<PhysPage>, m: Mem, i: nat, t1: seq<PhysPage>, how: Outcome)
    requires i < |t| && t1 == t[i := t[i].(kind := Reserved)] && MappedAt(Vm(FreeAddrs(t1), m), i, how)
    ensures var x := Placed(t1, how); if x.Underway? then Reserves(t, m, i, x.frames, x.mem) else x == Failed(Panic)
  {
    if how.Done? {
      TakesEntries(t, i, t1, |FreeAddrs(t1)| - |how.vm.free|);
      var u := Placed(t1, how).frames;
      assert Vm(FreeAddrs(u), how.vm.mem) == how.vm;
      forall k | 0 <= k < |t| && k != i ensures Aged(t, u, k) { assert u[k] == u[k]; }
    }
  }

  /** map_page put frame i at its direct page, with tables from the front of the free frames, or panicked. */
  ghost predicate MappedAt(vm: Vm, i: nat, how: Outcome) {
    match how
    case Done(v) =>
      && |v.free| <= |vm.free| && v.free == vm.free[|vm.free| - |v.free|..]
      && Ready(v) && DirectOnly(v.mem) && High(vm.mem, v.mem) && Translate(v.mem, KPage(i)) == Some(i)
    case failed => failed == Panic
  }

  lemma MapsDirect(vm: Vm, pa: nat, va: nat, i: nat, how: Outcome)
    requires Ready(vm) && DirectOnly(vm.mem) && i < DIRECT_FRAMES && pa == i * PGSIZE && va == Kptov(pa)
    requires how == Paging.MapPage(vm, pa, va)
    ensures MappedAt(vm, i, how)
  {
    DirectMappable(pa, va, i);
    MapReady(vm, pa, va);
    if how.Done? { RefinesAt(vm, how.vm, i); }
  }

  lemma DirectMappable(pa: nat, va: nat, i: nat)
    requires i < DIRECT_FRAMES && pa == i * PGSIZE && va == Kptov(pa)
    ensures Mappable(pa, va) && va / PGSIZE == KPage(i) && pa / PGSIZE == i
  {
    KptovPage(i);
  }

  lemma RefinesAt(vm: Vm, v: Vm, i: nat)
    requires Ready(v) && DirectOnly(vm.mem) && i < DIRECT_FRAMES && Refines(vm, v, KPage(i), i)
    ensures MappedAt(vm, i, Done(v))
  {
    KptovPage(i);
    RefinesHigh(vm, v, KPage(i), i);
    MappedDirect(vm.mem, v.mem, i, vm.free[..|vm.free| - |v.free|]);
  }

  /** The entries after one was reserved and n free ones were taken. */
  lemma TakesEntries(t: seq<PhysPage>, i: nat, t1: seq<PhysPage>, n: nat)
    requires i < |t| && t1 == t[i := t[i].(kind := Reserved)] && n <= |FreeAddrs(t1)|
    ensures var u := TakeMany(t1, n);
      && u[i] == PhysPage(Reserved, t[i].addr) && FreeAddrs(u) == FreeAddrs(t1)[n..]
      && (forall k {:trigger u[k]} :: 0 <= k < |t| && k != i ==> Aged(t, u, k))
  {
    ManyTakeFree(t1, n);
    forall k | 0 <= k < |t| ensures Aged(t1, TakeMany(t1, n), k) { ManyAged(t1, n, k); }
    assert Aged(t1, TakeMany(t1, n), i);
    forall k | 0 <= k < |t| && k != i ensures Aged(t, TakeMany(t1, n), k) { assert Aged(t1, TakeMany(t1, n), k); }
  }

  lemma ReservedReady(t: seq<PhysPage>, m: Mem, i: nat)
    requires Ready(Vm(FreeAddrs(t), m)) && i < |t|
    ensures Ready(Vm(FreeAddrs(t[i := t[i].(kind := Reserved)]), m))
  {
    var vm := Vm(FreeAddrs(t[i := t[i].(kind := Reserved)]), m);
    ReservedFree(t, i);
    forall a | a in vm.free ensures Unused(m, a) && Present(m, DirectSlot(a / PGSIZE)) { assert a in FreeAddrs(t); }
  }

  lemma MappedDirect(m: Mem, r: Mem, f: nat, taken: seq<nat>)
    requires DirectOnly(m) && f < DIRECT_FRAMES && Mapped(m, r, KPage(f), f, taken)
    ensures DirectOnly(r)
  {
    KptovPage(f);
    forall p | KERN_PAGE <= p < PAGES ensures Translate(r, p) in {None, Some(p - KERN_PAGE)} {
      assert Translate(m, p) in {None, Some(p - KERN_PAGE)};
    }
  }

  /** The first n entries reserved and their frames at their direct pages. */
  ghost predicate ReservedTo(t: seq<PhysPage>, m: Mem, n: nat, u: seq<PhysPage>, r: Mem)
    requires n <= |t|
  {
    && |u| == |t| && Ready(Vm(FreeAddrs(u), r)) && DirectOnly(r) && High(m, r)
    && (forall k {:trigger u[k]} :: 0 <= k < |t| ==> if k < n then u[k] == PhysPage(Reserved, t[k].addr) else Aged(t, u, k))
    && (forall k {:trigger KPage(k)} :: 0 <= k < n ==> Translate(r, KPage(k)) == Some(k))
  }

  lemma ReservedMore(t: seq<PhysPage>, m: Mem, n: nat, u: seq<PhysPage>, r: Mem, u1: seq<PhysPage>, r1: Mem)
    requires n < |t| && n < DIRECT_FRAMES && ReservedTo(t, m, n, u, r) && Reserves(u, r, n, u1, r1)
    ensures ReservedTo(t, m, n + 1, u1, r1)
  {
    HighThen(m, r, r1);
    forall k | 0 <= k < |t| ensures if k < n + 1 then u1[k] == PhysPage(Reserved, t[k].addr) else Aged(t, u1, k) {
      if k != n { assert Aged(u, u1, k); }
      assert k >= n ==> Aged(t, u, k);
    }
    forall k | 0 <= k < n + 1 ensures Translate(r1, KPage(k)) == Some(k) { StaysDirect(r, r1, k, n); }
  }

  lemma StaysDirect(r: Mem, r1: Mem, k: nat, n: nat)
    requires k < DIRECT_FRAMES && High(r, r1) && DirectOnly(r1)
    requires k != n ==> Translate(r, KPage(k)) == Some(k)
    requires k == n ==> Translate(r1, KPage(k)) == Some(k)
    ensures Translate(r1, KPage(k)) == Some(k)
  {
    KptovPage(k);
    if k != n { assert Translate(r1, KPage(k)).Some?; }
  }

  lemma {:induction false} ManyReady(t: seq<PhysPage>, m: Mem, n: nat) returns (x: Setup)
    requires Ready(Vm(FreeAddrs(t), m)) && DirectOnly(m) && n <= |t| && n <= DIRECT_FRAMES
    ensures Reaches(Underway(t, m), n, x)
    ensures if x.Underway? then ReservedTo(t, m, n, x.frames, x.mem) else x == Failed(Panic)
    decreases n
  {
    if n == 0 {
      x := Underway(t, m);
      forall k | 0 <= k < |t| ensures Aged(t, t, k) {}
    } else {
      var y := ManyReady(t, m, n - 1);
      ReachesNext(Underway(t, m), n - 1, y);
      x := Reserve(y, n - 1);
      if y.Underway? {
        ReserveReady(y.frames, y.mem, n - 1);
        if x.Underway? { ReservedMore(t, m, n - 1, y.frames, y.mem, x.frames, x.mem); }
      }
    }
  }

  /** All reservations made: the 32 entries and the screen's, whose frames are at their direct pages. */
  ghost predicate AllReserved(t: seq<PhysPage>, m: Mem, u: seq<PhysPage>, r: Mem)
    requires |t| == MAX_PHYS_PAGES
  {
    && |u| == |t| && Ready(Vm(FreeAddrs(u), r)) && High(m, r)
    && (forall k {:trigger u[k]} :: 0 <= k < |t| ==>
          if k < 32 || k == 0xb8 then u[k] == PhysPage(Reserved, t[k].addr) else Aged(t, u, k))
    && (forall k {:trigger KPage(k)} :: 0 <= k < 32 || k == 0xb8 ==> Translate(r, KPage(k)) == Some(k))
  }

  /**
   From any ready tables: the first 32 entries and entry 0xb8 are reserved, the frames of these
   numbers are seen at their direct pages, and no page from KERN_BASE on disappears; or a table is
   needed and no frame is left, which is a panic.
   */
  lemma ReservationsReady(t: seq<PhysPage>, m: Mem)
    requires |t| == MAX_PHYS_PAGES && Ready(Vm(FreeAddrs(t), m)) && DirectOnly(m)
    ensures var x := Reservations(Underway(t, m));
      if x.Underway? then AllReserved(t, m, x.frames, x.mem) else x == Failed(Panic)
  {
    var x := ManyReady(t, m, RESERVED_PAGES);
    if x.Underway? {
      ReserveReady(x.frames, x.mem, VIDEO_PAGE);
      var y := Reserve(x, VIDEO_PAGE);
      if y.Underway? { ScreenReserved(t, m, x.frames, x.mem, y.frames, y.mem); }
    }
  }

  lemma ScreenReserved(t: seq<PhysPage>, m: Mem, u: seq<PhysPage>, r: Mem, u1: seq<PhysPage>, r1: Mem)
    requires |t| == MAX_PHYS_PAGES && ReservedTo(t, m, 32, u, r) && Reserves(u, r, 0xb8, u1, r1)
    ensures AllReserved(t, m, u1, r1)
  {
    HighThen(m, r, r1);
    forall k | 0 <= k < |t| ensures if k < 32 || k == 0xb8 then u1[k] == PhysPage(Reserved, t[k].addr) else Aged(t, u1, k) {
      if k != 0xb8 { assert Aged(u, u1, k); }
      assert k >= 32 ==> Aged(t, u, k);
    }
    forall k | 0 <= k < 32 || k == 0xb8 ensures Translate(r1, KPage(k)) == Some(k) { StaysDirect(r, r1, k, 0xb8); }
  }

  /** The entry of a low frame's direct page in the boot tables. */
  lemma BootDirectEntry(m: Mem, frame: nat)
    requires IsBoot(m) && frame < BOOT_FRAMES
    ensures At(m, PD_FRAME, KPage(frame) / SLOTS) == Entry(true, 0x1400 + frame / SLOTS)
    ensures KPage(frame) % SLOTS == frame % SLOTS && At(m, 0x1400 + frame / SLOTS, frame % SLOTS) == Entry(true, frame)
  {
    KptovPage(frame);
    assert At(m, PD_FRAME, KPage(frame) / SLOTS) == BootSlot(KPage(frame) / SLOTS);
  }

  lemma BootSame(m: Mem, r: Mem)
    requires IsBoot(m) && (forall f: nat, i: nat {:trigger At(r, f, i)} :: At(r, f, i) == At(m, f, i))
    ensures IsBoot(r)
  {
  }

  /** In the boot tables the direct page of a low frame is already mapped: map_page writes what is there. */
  lemma BootMapsAgain(vm: Vm, frame: nat)
    requires IsBoot(vm.mem) && frame < BOOT_FRAMES
    ensures var how := Paging.MapPage(vm, frame * PGSIZE, Kptov(frame * PGSIZE));
      && how.Done? && how.vm.free == vm.free && IsBoot(how.vm.mem)
      && (forall f: nat, i: nat {:trigger At(how.vm.mem, f, i)} :: At(how.vm.mem, f, i) == At(vm.mem, f, i))
  {
    BootTranslates(vm.mem);
    KptovPage(frame);
    BootDirectEntry(vm.mem, frame);
    var page, table := KPage(frame), 0x1400 + frame / SLOTS;
    AddressSplit(page * PGSIZE);
    KptovPage(table);
    var r := vm.mem[(table, frame % SLOTS) := Entry(true, frame)];
    assert WriteEntry(vm, page, Entry(true, frame)) == Done(vm.(mem := r));
    BootSame(vm.mem, r);
  }
}
