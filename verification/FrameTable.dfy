/**
 The table of physical frames: how it is filled from the memory map, and the first-fit
 search through it.
 */
module FrameTable {
  import opened Common
  import opened Paging
  import opened Words

  const MAX_PHYS_PAGES: nat := 4096
  const RESERVED_PAGES: nat := 32
  const VIDEO_PAGE: nat := 0xb8

  /** Unset: the zero the table starts from. */
  datatype Kind = Unset | Free | Allocated | Reserved

  datatype PhysPage = PhysPage(kind: Kind, addr: nat)

  /** A usable entry of the memory map; both numbers are 64 bits wide. */
  datatype Region = Region(base: nat, length: nat)

  /** The free addresses, in table order. */
  function FreeAddrs(t: seq<PhysPage>): seq<nat> {
    if t == [] then [] else (if t[0].kind.Free? then [t[0].addr] else []) + FreeAddrs(t[1..])
  }

  lemma {:induction false} FirstFree(t: seq<PhysPage>, k: nat)
    requires k < |t| && t[k].kind.Free? && (forall j :: 0 <= j < k ==> !t[j].kind.Free?)
    ensures FreeAddrs(t) == [t[k].addr] + FreeAddrs(t[k + 1..])
    ensures FreeAddrs(t[k := t[k].(kind := Allocated)]) == FreeAddrs(t[k + 1..])
  {
    var u := t[k := t[k].(kind := Allocated)];
    if k == 0 {
      assert u[1..] == t[1..];
    } else {
      FirstFree(t[1..], k - 1);
      assert t[1..][k..] == t[k + 1..];
      assert u[1..] == t[1..][k - 1 := t[1..][k - 1].(kind := Allocated)];
    }
  }

  lemma {:induction false} NoneFree(t: seq<PhysPage>)
    requires forall j :: 0 <= j < |t| ==> !t[j].kind.Free?
    ensures FreeAddrs(t) == []
  {
    if t != [] { NoneFree(t[1..]); }
  }

  ghost predicate AllTaken(t: seq<PhysPage>) {
    forall k :: 0 <= k < |t| ==> !t[k].kind.Free?
  }

  /** The search answers NO_ADDR exactly when nothing is free. */
  lemma {:induction false} NoAddrWhenEmpty(t: seq<PhysPage>)
    requires forall k :: 0 <= k < |t| ==> t[k].addr % PGSIZE == 0
    ensures NextFree(FreeAddrs(t)) == NO_ADDR <==> AllTaken(t)
  {
    if t != [] {
      if t[0].kind.Free? {
        assert FreeAddrs(t)[0] == t[0].addr;
      } else {
        NoAddrWhenEmpty(t[1..]);
        assert t == [t[0]] + t[1..];
        assert FreeAddrs(t) == FreeAddrs(t[1..]);
      }
    }
  }

  // ----- filling

  /** maxPages; a negative count fills nothing. */
  function MaxPages(r: Region): nat {
    if Int32(r.length / PGSIZE) < 0 then 0 else Int32(r.length / PGSIZE)
  }

  function PageOf(r: Region, x: nat): nat { (r.base + x * PGSIZE) % ADDRESSES }

  function RegionPages(r: Region, n: nat): seq<nat> { seq(n, (x: nat) => PageOf(r, x)) }

  /** The pages of all regions, one region after the other. */
  function PageList(rs: seq<Region>): seq<nat> {
    if rs == [] then [] else PageList(rs[..|rs| - 1]) + RegionPages(rs[|rs| - 1], MaxPages(rs[|rs| - 1]))
  }

  /** pagecount before it is capped. */
  function CountPages(rs: seq<Region>): int {
    if rs == [] then 0 else Int32(CountPages(rs[..|rs| - 1]) + rs[|rs| - 1].length / PGSIZE)
  }

  function Capped(n: int): int { if n > MAX_PHYS_PAGES then MAX_PHYS_PAGES else n }

  /** A table with the pages of `list` from its start on. */
  function Filled(t: seq<PhysPage>, list: seq<nat>): (r: seq<PhysPage>)
    ensures |r| == |t|
  {
    seq(|t|, (k: nat) requires k < |t| => if k < |list| then PhysPage(Free, list[k]) else t[k])
  }

  function ReservedFirst(t: seq<PhysPage>, n: nat): (r: seq<PhysPage>)
    ensures |r| == |t|
  {
    seq(|t|, (k: nat) requires k < |t| => if k < n then t[k].(kind := Reserved) else t[k])
  }

  /** The first 32 entries and entry 0xb8 reserved. */
  function WithReserved(t: seq<PhysPage>): (r: seq<PhysPage>)
    requires |t| == MAX_PHYS_PAGES
    ensures |r| == |t|
  {
    ReservedFirst(t, RESERVED_PAGES)[VIDEO_PAGE := t[VIDEO_PAGE].(kind := Reserved)]
  }

  predicate Apart(r: Region, q: Region) { r.base + r.length <= q.base || q.base + q.length <= r.base }

  /** Disjoint regions at page boundaries, below 4 GiB. */
  ghost predicate WellFormed(rs: seq<Region>) {
    && (forall i :: 0 <= i < |rs| ==> rs[i].base % PGSIZE == 0 && rs[i].base + rs[i].length <= ADDRESSES)
    && (forall i, j :: 0 <= i < j < |rs| ==> Apart(rs[i], rs[j]))
  }

  predicate Within(a: nat, r: Region) { a % PGSIZE == 0 && r.base <= a && a + PGSIZE <= r.base + r.length }

  lemma RegionPagesWithin(r: Region)
    requires r.base % PGSIZE == 0 && r.base + r.length <= ADDRESSES
    ensures MaxPages(r) == r.length / PGSIZE
    ensures forall x :: 0 <= x < MaxPages(r) ==> PageOf(r, x) == r.base + x * PGSIZE && Within(PageOf(r, x), r)
  {
  }

  lemma {:induction false} ListWithin(rs: seq<Region>, k: nat) returns (i: nat)
    requires WellFormed(rs) && k < |PageList(rs)|
    ensures i < |rs| && Within(PageList(rs)[k], rs[i])
  {
    var n := |rs| - 1;
    var before := PageList(rs[..n]);
    RegionPagesWithin(rs[n]);
    if k < |before| {
      i := ListWithin(rs[..n], k);
    } else {
      i := n;
      assert PageList(rs)[k] == PageOf(rs[n], k - |before|);
    }
  }

  lemma {:induction false} ListDistinct(rs: seq<Region>)
    requires WellFormed(rs)
    ensures NoDup(PageList(rs)) && (forall k :: 0 <= k < |PageList(rs)| ==> PageList(rs)[k] % PGSIZE == 0 && PageList(rs)[k] < ADDRESSES)
  {
    if rs != [] {
      var n, list := |rs| - 1, PageList(rs);
      var before := PageList(rs[..n]);
      ListDistinct(rs[..n]);
      RegionPagesWithin(rs[n]);
      forall j, k | 0 <= j < k < |list| ensures list[j] != list[k] {
        if j < |before| <= k {
          var i := ListWithin(rs[..n], j);
          assert Apart(rs[i], rs[n]);
          assert list[j] == before[j] && list[k] == PageOf(rs[n], k - |before|);
        } else if j < |before| {
          assert list[j] == before[j] && list[k] == before[k];
        } else {
          assert list[j] == PageOf(rs[n], j - |before|) && list[k] == PageOf(rs[n], k - |before|);
        }
      }
    }
  }

  function Upto(n: nat): (s: set<nat>)
    ensures |s| == n && forall x: nat :: x in s <==> x < n
  {
    if n == 0 then {} else Upto(n - 1) + {n - 1}
  }

  function Elements(q: seq<nat>): (s: set<nat>)
    ensures forall x: nat :: x in s <==> x in q
  {
    set x | x in q
  }

  lemma {:induction false} NoDupCount(q: seq<nat>)
    requires NoDup(q)
    ensures |Elements(q)| == |q|
  {
    if q != [] {
      var n := |q| - 1;
      assert q == q[..n] + [q[n]];
      assert q[n] !in q[..n];
      NoDupCount(q[..n]);
      assert Elements(q) == Elements(q[..n]) + {q[n]};
    }
  }

  lemma SubsetSize(s: set<nat>, u: set<nat>)
    requires s <= u
    ensures |s| <= |u|
  {
    assert u == s + (u - s);
  }

  function Numbers(q: seq<nat>): seq<nat> { seq(|q|, (i: nat) requires i < |q| => q[i] / PGSIZE) }

  /** Distinct aligned addresses below 4 GiB are at most 2^20. */
  lemma FewPages(q: seq<nat>)
    requires NoDup(q) && (forall k :: 0 <= k < |q| ==> q[k] % PGSIZE == 0 && q[k] < ADDRESSES)
    ensures |q| <= PAGES
  {
    var pages := Numbers(q);
    forall i, j | 0 <= i < j < |pages| ensures pages[i] != pages[j] {
      assert q[i] != q[j];
    }
    NoDupCount(pages);
    SubsetSize(Elements(pages), Upto(PAGES));
  }

  lemma {:induction false} CountIsLength(rs: seq<Region>)
    requires WellFormed(rs)
    ensures CountPages(rs) == |PageList(rs)|
  {
    if rs != [] {
      var n := |rs| - 1;
      CountIsLength(rs[..n]);
      RegionPagesWithin(rs[n]);
      ListDistinct(rs);
      FewPages(PageList(rs));
    }
  }

  /**
   For disjoint page-aligned regions below 4 GiB the filled entries are exactly
   `pagecount`, and their addresses are aligned and distinct.
   */
  lemma FrameTableExact(t: seq<PhysPage>, rs: seq<Region>)
    requires WellFormed(rs) && |t| == MAX_PHYS_PAGES && (forall k :: 0 <= k < |t| ==> t[k].kind.Unset?)
    ensures var r := Filled(t, PageList(rs)); var n := Capped(CountPages(rs));
      && 0 <= n <= |PageList(rs)|
      && n == (if |PageList(rs)| < 4096 then |PageList(rs)| else 4096)
      && (forall k {:trigger r[k]} :: 0 <= k < |t| ==> (r[k].kind.Free? <==> k < n))
      && (forall k {:trigger r[k]} :: 0 <= k < n ==> r[k].addr == PageList(rs)[k] && r[k].addr % PGSIZE == 0)
      && (forall j, k :: 0 <= j < k < n ==> r[j].addr != r[k].addr)
  {
    CountIsLength(rs);
    ListDistinct(rs);
  }
}
