/** First fit, what a split does to the back links, and the heap over whole runs of malloc. */
module HeapTheorems {
  import opened Common
  import opened Heap
  import opened HeapSplit
  import opened Words

  /** A heap whose links agree both ways; its base may be address 0, as it is in the kernel. */
  ghost predicate Linked(h: State, base: nat, segs: seq<Seg>) {
    && Heaped(h, base, segs)
    && (forall i {:trigger BackAt(h.mem, base, segs, i)} :: 0 <= i < |segs| ==> BackAt(h.mem, base, segs, i))
    && (forall i {:trigger BackFreeAt(h.mem, FreeOf(base, segs), i)} :: 0 <= i < |FreeOf(base, segs)| ==>
          BackFreeAt(h.mem, FreeOf(base, segs), i))
  }

  lemma Locate(h: State, base: nat, segs: seq<Seg>, j: nat) returns (k: nat)
    requires Linked(h, base, segs) && j < |FreeOf(base, segs)|
    ensures Located(h, base, segs, k, j)
  {
    k := FreeIsSegment(base, segs, j);
    assert BackAt(h.mem, base, segs, k) && BackFreeAt(h.mem, FreeOf(base, segs), j);
  }

  lemma FitsIff(h: State, base: nat, segs: seq<Seg>, k: nat, size: nat)
    requires Tiles(h.mem, base, segs) && k < |segs|
    ensures Fits(h.mem, Addr(base, segs, k), size) <==> size <= segs[k].len
    ensures segs[k].len < 0x8000_0000
  {
    assert TileAt(h.mem, base, segs, k);
    AddrGrows(0, segs, k, |segs|);
    assert segs[..|segs|] == segs;
  }

  /** Where free segment k stands in the chain. */
  lemma Rank(base: nat, segs: seq<Seg>, i: nat, k: nat)
    requires i < k < |segs| && segs[i].free && segs[k].free
    ensures |FreeOf(base, segs[..i])| < |FreeOf(base, segs[..k])|
  {
    ChainOrder(base, segs[..k], i);
    assert segs[..k][..i] == segs[..i];
  }

  /** Where the walk stops, in terms of segments. */
  lemma FirstFitSegment(h: State, base: nat, segs: seq<Seg>, size: nat) returns (k: nat, j: nat)
    requires Linked(h, base, segs)
    ensures j == FirstFit(h.mem, FreeOf(base, segs), size) && Located(h, base, segs, k, j)
    ensures Fits(h.mem, Addr(base, segs, k), size) <==> size <= segs[k].len
    ensures forall i :: 0 <= i < |segs| && segs[i].free && (i < k || size > segs[k].len) ==> segs[i].len < size
  {
    var chain := FreeOf(base, segs);
    j := FirstFit(h.mem, chain, size);
    k := Locate(h, base, segs, j);
    FitsIff(h, base, segs, k, size);
    forall i | 0 <= i < |segs| && segs[i].free && (i < k || size > segs[k].len) ensures segs[i].len < size {
      ChainOrder(base, segs, i);
      FitsIff(h, base, segs, i, size);
      if i < k { Rank(base, segs, i, k); } else if k < i { Rank(base, segs, k, i); }
    }
  }

  /** No free segment before the n-th is as long as `size`. */
  ghost predicate NoneFits(segs: seq<Seg>, n: nat, size: nat) {
    forall i :: 0 <= i < |segs| && i < n && segs[i].free ==> segs[i].len < size
  }

  /** What malloc answers when k is the first free segment that fits, or when there is none. */
  ghost predicate Takes(base: nat, segs: seq<Seg>, size: nat, how: Outcome, k: nat) {
    match how
    case NoFit => NoneFits(segs, |segs|, size)
    case Block(a, r) =>
      && k < |segs| && segs[k].free && size <= segs[k].len && a == (Addr(base, segs, k) + HEADER) % WORD
      && NoneFits(segs, k, size)
      && (segs[k].len >= size + HEADER ==>
            && Tiles(r.mem, base, Cut(segs, k, size))
            && (Heaped(r, base, Cut(segs, k, size)) <==> !NullBefore(FreeOf(base, segs), |FreeOf(base, segs[..k])|)))
  }

  /**
   malloc takes the first free segment, in address order, that is long enough, and answers
   its payload's address.  It finds none exactly when no free segment is long enough.
   With room for another header it cuts that segment in two; and it does nothing else if and
   only if the free segment before is not at address 0.
   */
  lemma MallocFirstFit(h: State, base: nat, segs: seq<Seg>, request: nat) returns (k: nat)
    requires Linked(h, base, segs) && request < WORD
    ensures Takes(base, segs, Rounded(request), MallocSpec(h, FreeOf(base, segs), request), k)
  {
    var j;
    k, j := FirstFitSegment(h, base, segs, Rounded(request));
    TakesFound(h, base, segs, Rounded(request), k, j, Split(h, Addr(base, segs, k), Rounded(request)));
  }

  lemma TakesFound(h: State, base: nat, segs: seq<Seg>, size: nat, k: nat, j: nat, r: State)
    requires Heaped(h, base, segs) && Located(h, base, segs, k, j) && r == Split(h, Addr(base, segs, k), size)
    requires NoneFits(segs, k, size)
    ensures size <= segs[k].len ==> Takes(base, segs, size, Block((Addr(base, segs, k) + HEADER) % WORD, r), k)
    ensures NoneFits(segs, |segs|, size) ==> Takes(base, segs, size, NoFit, k)
  {
    if segs[k].len >= size + HEADER { SplitKeeps(h, base, segs, k, j, size); }
  }

  lemma OtherKeepsPrev(m: Mem, r: Mem, base: nat, segs: seq<Seg>, k: nat, size: nat, i: nat)
    requires k < |segs| && segs[k].len >= size + HEADER && CutInto(m, r, base, segs, k, size) && i < |segs| && i != k
    ensures H(r, Addr(base, segs, i)).prev == H(m, Addr(base, segs, i)).prev
  {
    AddrNext(base, segs, k);
    if i < k { AddrGrows(base, segs, i, k); } else if k + 1 < i { AddrGrows(base, segs, k + 1, i); }
  }

  /** The remainder's own back links are right; the old successor's is not rewritten. */
  lemma BackAfterCut(m: Mem, r: Mem, base: nat, segs: seq<Seg>, k: nat, size: nat, i: nat)
    requires k < |segs| && segs[k].len >= size + HEADER && CutInto(m, r, base, segs, k, size) && i <= |segs|
    requires BackAt(m, base, segs, if i <= k then i else i - 1)
    ensures BackAt(r, base, Cut(segs, k, size), i) <==> i != k + 2
  {
    CutAddr(base, segs, k, size, i);
    if i > 0 { CutAddr(base, segs, k, size, i - 1); }
    if i < k {
      OtherKeepsPrev(m, r, base, segs, k, size, i);
    } else if i >= k + 2 {
      OtherKeepsPrev(m, r, base, segs, k, size, i - 1);
      if i > k + 2 { AddrGrows(base, segs, k + 1, i - 1); }
    }
  }

  lemma BackFreeAfterCut(h: State, base: nat, segs: seq<Seg>, k: nat, j: nat, size: nat, i: nat)
    requires Linked(h, base, segs) && Located(h, base, segs, k, j) && segs[k].len >= size + HEADER && i < |FreeOf(base, segs)|
    ensures var cur := Addr(base, segs, k);
      BackFreeAt(Split(h, cur, size).mem, FreeOf(base, segs)[j := cur + HEADER + size], i) <==> i != j + 1
  {
    var chain, cur := FreeOf(base, segs), Addr(base, segs, k);
    LocatedClear(h, base, segs, k, j, size);
    SplitCuts(h, base, segs, k, size);
    assert BackFreeAt(h.mem, chain, i);
    ChainOrder(base, segs, k);
    if i != j { SegmentApart(base, segs, k, j, i); }
    if 0 < i && i - 1 != j { SegmentApart(base, segs, k, j, i - 1); }
  }

  /**
   After a split all links agree both ways again if and only if the segment was the last of
   the region and the free segment before it is not at address 0: the code never rewrites the
   back link of the segment that follows.
   */
  lemma SplitLinksIff(h: State, base: nat, segs: seq<Seg>, k: nat, j: nat, size: nat)
    requires Linked(h, base, segs) && Located(h, base, segs, k, j) && segs[k].len >= size + HEADER
    ensures Linked(Split(h, Addr(base, segs, k), size), base, Cut(segs, k, size)) <==>
      k == |segs| - 1 && !NullBefore(FreeOf(base, segs), j)
  {
    var r, cut := Split(h, Addr(base, segs, k), size), Cut(segs, k, size);
    LocatedClear(h, base, segs, k, j, size);
    SplitCuts(h, base, segs, k, size);
    SplitKeeps(h, base, segs, k, j, size);
    forall i | 0 <= i < |cut| ensures BackAt(r.mem, base, cut, i) <==> i != k + 2 {
      assert BackAt(h.mem, base, segs, if i <= k then i else i - 1);
      BackAfterCut(h.mem, r.mem, base, segs, k, size, i);
    }
    forall i | 0 <= i < |FreeOf(base, cut)| ensures BackFreeAt(r.mem, FreeOf(base, cut), i) <==> i != j + 1 {
      BackFreeAfterCut(h, base, segs, k, j, size, i);
    }
    if k == |segs| - 1 {
      FreeAround(base, segs, k);
      assert segs[k + 1..] == [];
    } else {
      assert !BackAt(r.mem, base, cut, k + 2);
    }
  }

  lemma TightPlace(h: State, base: nat, segs: seq<Seg>, k: nat, j: nat, size: nat)
    requires Heaped(h, base, segs) && Located(h, base, segs, k, j) && Addr(base, segs, |segs|) < WORD
    requires size <= segs[k].len < size + HEADER
    ensures var cur := Addr(base, segs, k); var c, n := H(h.mem, cur), cur + HEADER + size;
      && RestAt(cur, size) == n && Clear(c, cur, n) && c.len == segs[k].len && Int32(size) == size
      && Int32(c.len - (HEADER + size)) == c.len - HEADER - size
  {
    FitsIff(h, base, segs, k, size);
    AddrNext(base, segs, k);
    if k + 1 < |segs| { AddrGrows(base, segs, k + 1, |segs|); }
    PreviousBefore(h, base, segs, k, j);
    assert TileAt(h.mem, base, segs, k);
  }

  /** Without room for a header the remainder's length comes out negative, and then fits any request up to 4 GiB - 24. */
  lemma NoRoom(h: State, base: nat, segs: seq<Seg>, k: nat, j: nat, size: nat)
    requires Heaped(h, base, segs) && Located(h, base, segs, k, j) && Addr(base, segs, |segs|) < WORD
    requires size <= segs[k].len < size + HEADER
    ensures var cur := Addr(base, segs, k); var n, r := cur + HEADER + size, Split(h, cur, size).mem;
      && H(r, cur) == H(h.mem, cur).(nextFree := n, next := n, len := size, free := false)
      && H(r, n).len == segs[k].len - HEADER - size < 0
      && (forall s: nat {:trigger Fits(r, n, s)} :: s <= WORD - HEADER ==> Fits(r, n, s))
      && (forall a: nat {:trigger H(r, a)} :: a < cur ==> H(r, a).len == H(h.mem, a).len && H(r, a).next == H(h.mem, a).next)
  {
    TightPlace(h, base, segs, k, j, size);
    SplitEffect(h, Addr(base, segs, k), size);
  }

  /** The same start of the region is tiled the same way. */
  lemma {:induction false} SamePrefix(m: Mem, r: Mem, base: nat, segs: seq<Seg>, other: seq<Seg>, k: nat)
    requires k < |segs| && Tiles(m, base, segs) && Tiles(r, base, other)
    requires forall a: nat {:trigger H(r, a)} :: a < Addr(base, segs, k) ==> H(r, a).len == H(m, a).len && H(r, a).next == H(m, a).next
    ensures k < |other| && Addr(base, other, k) == Addr(base, segs, k)
    decreases k
  {
    if k > 0 {
      AddrNext(base, segs, k - 1);
      SamePrefix(m, r, base, segs, other, k - 1);
      assert TileAt(m, base, segs, k - 1) && TileAt(r, base, other, k - 1);
      AddrNext(base, other, k - 1);
    }
  }

  lemma NextLength(m: Mem, base: nat, segs: seq<Seg>, k: nat)
    requires Tiles(m, base, segs) && k < |segs| && H(m, Addr(base, segs, k)).next != 0
    ensures H(m, H(m, Addr(base, segs, k)).next).len >= 0
  {
    assert TileAt(m, base, segs, k);
    assert TileAt(m, base, segs, k + 1);
  }

  /**
   A fitting split leaves the region tiled if and only if the segment also has room for the
   new header: malloc's comparison leaves the header out.
   */
  lemma SplitTilesIff(h: State, base: nat, segs: seq<Seg>, k: nat, j: nat, size: nat)
    requires Heaped(h, base, segs) && Located(h, base, segs, k, j) && Addr(base, segs, |segs|) < WORD
    requires size <= segs[k].len
    ensures (exists other :: Tiles(Split(h, Addr(base, segs, k), size).mem, base, other)) <==> segs[k].len >= size + HEADER
  {
    var r := Split(h, Addr(base, segs, k), size).mem;
    if segs[k].len >= size + HEADER {
      SplitKeeps(h, base, segs, k, j, size);
      assert Tiles(r, base, Cut(segs, k, size));
    } else {
      NoRoom(h, base, segs, k, j, size);
      forall other | Tiles(r, base, other) ensures false {
        SamePrefix(h.mem, r, base, segs, other, k);
        NextLength(r, base, other, k);
      }
    }
  }
}
