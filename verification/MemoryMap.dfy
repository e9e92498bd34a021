/**
 Which frame an entry of the frame table is, for a memory map in ascending order.  The code
 reserves entries by number, as if entry k were frame k.
 */
module MemoryMap {
  import opened Common
  import opened Paging
  import opened FrameTable

  /** Regions in ascending order, as the BIOS lists them. */
  ghost predicate Ascending(rs: seq<Region>) {
    WellFormed(rs) && forall i, j :: 0 <= i < j < |rs| ==> rs[i].base + rs[i].length <= rs[j].base
  }

  /** Frame f lies in a usable region. */
  ghost predicate Usable(rs: seq<Region>, f: nat) {
    exists i :: 0 <= i < |rs| && Within(f * PGSIZE, rs[i])
  }

  /** A strictly ascending list of page addresses. */
  ghost predicate Pages(list: seq<nat>) {
    && (forall k :: 0 <= k < |list| ==> list[k] % PGSIZE == 0)
    && (forall j, k :: 0 <= j < k < |list| ==> list[j] < list[k])
  }

  lemma {:induction false} ListAscends(rs: seq<Region>)
    requires Ascending(rs)
    ensures Pages(PageList(rs))
  {
    ListDistinct(rs);
    if rs != [] {
      var n, list := |rs| - 1, PageList(rs);
      var before := PageList(rs[..n]);
      ListAscends(rs[..n]);
      RegionPagesWithin(rs[n]);
      forall j, k | 0 <= j < k < |list| ensures list[j] < list[k] {
        if j < |before| <= k {
          var i := ListWithin(rs[..n], j);
          assert rs[i].base + rs[i].length <= rs[n].base;
          assert list[j] == before[j] && list[k] == PageOf(rs[n], k - |before|);
        } else if j < |before| {
          assert list[j] == before[j] && list[k] == before[k];
        } else {
          assert list[j] == PageOf(rs[n], j - |before|) && list[k] == PageOf(rs[n], k - |before|);
        }
      }
    }
  }

  lemma {:induction false} UsableListed(rs: seq<Region>, f: nat)
    requires WellFormed(rs)
    ensures Usable(rs, f) <==> f * PGSIZE in PageList(rs)
  {
    if f * PGSIZE in PageList(rs) {
      var k :| 0 <= k < |PageList(rs)| && PageList(rs)[k] == f * PGSIZE;
      var i := ListWithin(rs, k);
    }
    if Usable(rs, f) {
      var i :| 0 <= i < |rs| && Within(f * PGSIZE, rs[i]);
      Listed(rs, f, i);
    }
  }

  lemma {:induction false} Listed(rs: seq<Region>, f: nat, i: nat)
    requires WellFormed(rs) && i < |rs| && Within(f * PGSIZE, rs[i])
    ensures f * PGSIZE in PageList(rs)
    decreases |rs|
  {
    var n := |rs| - 1;
    var before, last := PageList(rs[..n]), RegionPages(rs[n], MaxPages(rs[n]));
    if i < n {
      Listed(rs[..n], f, i);
      assert f * PGSIZE in before;
    } else {
      RegionPagesWithin(rs[n]);
      var x := f - rs[n].base / PGSIZE;
      assert last[x] == PageOf(rs[n], x) == f * PGSIZE;
    }
    assert PageList(rs) == before + last;
  }

  lemma {:induction false} Climbs(list: seq<nat>, j: nat, k: nat)
    requires Pages(list) && j <= k < |list|
    ensures list[k] >= list[j] + (k - j) * PGSIZE
    decreases k - j
  {
    if j < k {
      Climbs(list, j, k - 1);
      assert list[k - 1] < list[k] && list[k - 1] % PGSIZE == 0 && list[k] % PGSIZE == 0;
    }
  }

  /** No entry is a frame below its own number. */
  lemma EntryNotBelow(list: seq<nat>, k: nat)
    requires Pages(list) && k < |list|
    ensures list[k] >= k * PGSIZE
  {
    Climbs(list, 0, k);
  }

  lemma {:induction false} FullPrefix(list: seq<nat>, f: nat)
    requires Pages(list) && (forall g: nat {:trigger g * PGSIZE in list} :: g <= f ==> g * PGSIZE in list)
    ensures f < |list| && list[f] == f * PGSIZE
  {
    assert f * PGSIZE in list;
    var i :| 0 <= i < |list| && list[i] == f * PGSIZE;
    EntryNotBelow(list, i);
    if i < f { FullPrefix(list, i); }
    EntryNotBelow(list, i);
  }

  /** Entry k is frame k if and only if every frame up to k is usable. */
  lemma EntryIsFrameIff(rs: seq<Region>, k: nat)
    requires Ascending(rs)
    ensures (k < |PageList(rs)| && PageList(rs)[k] == k * PGSIZE) <==> forall f: nat :: f <= k ==> Usable(rs, f)
  {
    var list := PageList(rs);
    ListAscends(rs);
    if forall f: nat :: f <= k ==> Usable(rs, f) {
      forall f: nat | f <= k ensures f * PGSIZE in list {
        assert Usable(rs, f);
        UsableListed(rs, f);
      }
      FullPrefix(list, k);
    }
    if k < |list| && list[k] == k * PGSIZE {
      forall f: nat | f <= k ensures Usable(rs, f) {
        EntryNotBelow(list, f);
        Climbs(list, f, k);
        UsableListed(rs, f);
      }
    }
  }

  /** So the entry reserved for the screen is the screen's frame exactly when no frame before it is missing. */
  lemma ScreenEntryIff(rs: seq<Region>)
    requires Ascending(rs) && VIDEO_PAGE < |PageList(rs)|
    ensures PageList(rs)[VIDEO_PAGE] == VIDEO_PAGE * PGSIZE <==> forall f: nat :: f <= VIDEO_PAGE ==> Usable(rs, f)
  {
    EntryIsFrameIff(rs, VIDEO_PAGE);
  }

  /** And the entries reserved for the kernel are its 32 frames exactly when all of those are usable. */
  lemma KernelEntriesIff(rs: seq<Region>)
    requires Ascending(rs) && RESERVED_PAGES <= |PageList(rs)|
    ensures (forall k :: 0 <= k < RESERVED_PAGES ==> PageList(rs)[k] == k * PGSIZE)
      <==> (forall f: nat :: f < RESERVED_PAGES ==> Usable(rs, f))
  {
    EntryIsFrameIff(rs, RESERVED_PAGES - 1);
    if forall f: nat :: f < RESERVED_PAGES ==> Usable(rs, f) {
      forall k | 0 <= k < RESERVED_PAGES ensures PageList(rs)[k] == k * PGSIZE { EntryIsFrameIff(rs, k); }
    }
  }
}
