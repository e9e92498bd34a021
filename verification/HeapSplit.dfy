/** What one malloc does to a heap whose segments tile a region. */
module HeapSplit {
  import opened Common
  import opened Heap
  import opened Words

  /** The previous neighbours are null or other headers than the two parts. */
  predicate Clear(c: Header, cur: nat, n: nat) {
    n != 0 && n != c.prevFree && n != c.prev && (c.prevFree != 0 ==> cur != c.prevFree) && (c.prev != 0 ==> cur != c.prev)
  }

  /** All the writes of a split, read back. */
  lemma SplitEffect(h: State, cur: nat, size: nat)
    requires RestAt(cur, size) != cur && Clear(H(h.mem, cur), cur, RestAt(cur, size))
    ensures var c, n, r := H(h.mem, cur), RestAt(cur, size), Split(h, cur, size).mem;
      && H(r, n) == Header(Int32(c.len - (HEADER + size)), c.next, cur, c.nextFree, c.prevFree, true)
      && H(r, cur) == c.(nextFree := n, next := n, len := Int32(size), free := false)
      && (forall a: nat {:trigger H(r, a)} :: a != n && a != cur ==> H(r, a) == Neighbour(h.mem, c, n, a))
  {
    var c, n := H(h.mem, cur), RestAt(cur, size);
    var m := CutSegment(NewSegment(h.mem, cur, size), cur, size);
    assert H(m, cur) == c.(nextFree := n, next := n, len := Int32(size), free := false);
    LinkEffect(m, cur, n);
  }

  /** Another header after the split: the two previous neighbours point at the remainder. */
  function Neighbour(m: Mem, c: Header, n: nat, a: nat): Header {
    if Rewritten(c, a) then H(m, a).(nextFree := n) else H(m, a)
  }

  lemma LinkEffect(m: Mem, cur: nat, n: nat)
    requires H(m, cur).nextFree == n && H(m, cur).next == n && n != cur && Clear(H(m, cur), cur, n)
    ensures var c, r := H(m, cur), Relink(m, cur);
      && H(r, n) == H(m, n).(prevFree := c.prevFree)
      && H(r, cur) == c
      && (forall a: nat {:trigger H(r, a)} :: a != n && a != cur ==> H(r, a) == Neighbour(m, c, n, a))
  {
  }

  /** A heap over these segments, with the free ones linked forward. */
  ghost predicate Heaped(h: State, base: nat, segs: seq<Seg>) {
    Tiles(h.mem, base, segs) && FreeOf(base, segs) != [] && Forward(h, FreeOf(base, segs))
  }

  /** Segment k is the j-th free one. */
  ghost predicate Stands(base: nat, segs: seq<Seg>, k: nat, j: nat) {
    && k < |segs| && segs[k].free && j == |FreeOf(base, segs[..k])| < |FreeOf(base, segs)|
    && FreeOf(base, segs)[j] == Addr(base, segs, k)
  }

  /** And its own back links are right. */
  ghost predicate Located(h: State, base: nat, segs: seq<Seg>, k: nat, j: nat) {
    && Stands(base, segs, k, j)
    && BackAt(h.mem, base, segs, k) && BackFreeAt(h.mem, FreeOf(base, segs), j)
  }

  /** The free segment before the j-th is at address 0, which the code takes for "none". */
  ghost predicate NullBefore(chain: seq<nat>, j: nat) {
    0 < j <= |chain| && chain[j - 1] == 0
  }

  /** Whether a split rewrites the forward link at address a. */
  predicate Rewritten(c: Header, a: nat) { a != 0 && (a == c.prevFree || a == c.prev) }

  /** Of the chain's other elements, the split rewrites exactly the one before the j-th. */
  ghost predicate LinksServe(c: Header, chain: seq<nat>, j: nat) {
    forall i {:trigger chain[i]} :: 0 <= i < |chain| && i != j ==> (Rewritten(c, chain[i]) <==> i + 1 == j)
  }

  lemma {:induction false} FreeInside(base: nat, segs: seq<Seg>)
    ensures forall i {:trigger FreeOf(base, segs)[i]} :: 0 <= i < |FreeOf(base, segs)| ==>
      base <= FreeOf(base, segs)[i] && FreeOf(base, segs)[i] + HEADER <= base + Size(segs)
    decreases |segs|
  {
    if segs != [] { FreeInside(base + HEADER + segs[0].len, segs[1..]); }
  }

  /** Chain elements before the j-th lie before segment k, the later ones behind it. */
  lemma ChainOrder(base: nat, segs: seq<Seg>, k: nat)
    requires k < |segs| && segs[k].free
    ensures var chain, j := FreeOf(base, segs), |FreeOf(base, segs[..k])|;
      && j < |chain| && chain[j] == Addr(base, segs, k)
      && (forall i {:trigger chain[i]} :: 0 <= i < j ==> chain[i] + HEADER <= chain[j])
      && (forall i {:trigger chain[i]} :: j < i < |chain| ==> Addr(base, segs, k + 1) <= chain[i])
  {
    var chain, j := FreeOf(base, segs), |FreeOf(base, segs[..k])|;
    FreeAround(base, segs, k);
    FreeInside(base, segs[..k]);
    FreeInside(Addr(base, segs, k + 1), segs[k + 1..]);
    forall i | 0 <= i < j ensures chain[i] + HEADER <= chain[j] {
      assert chain[i] == FreeOf(base, segs[..k])[i];
    }
    forall i | j < i < |chain| ensures Addr(base, segs, k + 1) <= chain[i] {
      assert chain[i] == FreeOf(Addr(base, segs, k + 1), segs[k + 1..])[i - j - 1];
    }
  }

  /** The free chain of the cut segments is the old one with the remainder in segment k's place. */
  lemma CutChain(base: nat, segs: seq<Seg>, k: nat, size: nat)
    requires k < |segs| && segs[k].free && segs[k].len >= size + HEADER
    ensures var chain, j := FreeOf(base, segs), |FreeOf(base, segs[..k])|;
      j < |chain| && FreeOf(base, Cut(segs, k, size)) == chain[j := Addr(base, segs, k) + HEADER + size]
  {
    var cut := Cut(segs, k, size);
    FreeAround(base, segs, k);
    assert cut[..k + 1][..k] == segs[..k] && cut[..k + 1] == segs[..k] + [Seg(size, false)];
    FreeOfAdds(base, segs[..k], [Seg(size, false)]);
    FreeAround(base, cut, k + 1);
    CutAddr(base, segs, k, size, k + 1);
    CutAddr(base, segs, k, size, k + 2);
    assert cut[k + 2..] == segs[k + 1..];
  }

  /** The previous neighbours of segment k lie before it. */
  lemma PreviousBefore(h: State, base: nat, segs: seq<Seg>, k: nat, j: nat)
    requires Heaped(h, base, segs) && Located(h, base, segs, k, j)
    ensures var cur, c := Addr(base, segs, k), H(h.mem, Addr(base, segs, k));
      (c.prevFree == 0 || c.prevFree < cur) && (c.prev == 0 || c.prev < cur)
  {
    ChainOrder(base, segs, k);
    if k > 0 { AddrNext(base, segs, k - 1); }
    var chain := FreeOf(base, segs);
    if j > 0 { assert chain[j - 1] + HEADER <= chain[j]; }
  }

  /** A split of segment k with room stays inside it. */
  lemma SplitPlace(h: State, base: nat, segs: seq<Seg>, k: nat, size: nat)
    requires Tiles(h.mem, base, segs) && k < |segs| && segs[k].len >= size + HEADER
    ensures var cur := Addr(base, segs, k); var c, n := H(h.mem, cur), RestAt(cur, size);
      && n == cur + HEADER + size && n + HEADER <= Addr(base, segs, k + 1)
      && c.len == segs[k].len && c.next == NextOf(base, segs, k) && c.len < 0x8000_0000
  {
    AddrNext(base, segs, k);
    if k + 1 < |segs| { AddrGrows(base, segs, k + 1, |segs|); }
    assert Addr(base, segs, k + 1) <= Addr(base, segs, |segs|) <= WORD;
    assert TileAt(h.mem, base, segs, k);
    assert segs[..|segs|] == segs;
    AddrGrows(0, segs, k, |segs|);
  }

  lemma LocatedClear(h: State, base: nat, segs: seq<Seg>, k: nat, j: nat, size: nat)
    requires Heaped(h, base, segs) && Located(h, base, segs, k, j)
    ensures var cur := Addr(base, segs, k); Clear(H(h.mem, cur), cur, cur + HEADER + size)
  {
    PreviousBefore(h, base, segs, k, j);
  }

  /** r is m with segment k of `segs` cut after `size` bytes. */
  ghost predicate CutInto(m: Mem, r: Mem, base: nat, segs: seq<Seg>, k: nat, size: nat)
    requires k < |segs| && segs[k].len >= size + HEADER
  {
    var cur := Addr(base, segs, k);
    var c, n := H(m, cur), cur + HEADER + size;
    && H(r, n) == Header(c.len - (HEADER + size), c.next, cur, c.nextFree, c.prevFree, true)
    && H(r, cur) == c.(nextFree := n, next := n, len := size, free := false)
    && (forall a: nat {:trigger H(r, a)} :: a != n && a != cur ==> H(r, a) == Neighbour(m, c, n, a))
  }

  lemma SplitCuts(h: State, base: nat, segs: seq<Seg>, k: nat, size: nat)
    requires Tiles(h.mem, base, segs) && k < |segs| && segs[k].len >= size + HEADER
    requires var cur := Addr(base, segs, k); Clear(H(h.mem, cur), cur, cur + HEADER + size)
    ensures CutInto(h.mem, Split(h, Addr(base, segs, k), size).mem, base, segs, k, size)
    ensures RestAt(Addr(base, segs, k), size) == Addr(base, segs, k) + HEADER + size
  {
    SplitPlace(h, base, segs, k, size);
    SplitEffect(h, Addr(base, segs, k), size);
  }

  /** An old segment other than the k-th, in the new tiling. */
  lemma OtherTile(m: Mem, r: Mem, base: nat, segs: seq<Seg>, k: nat, size: nat, i: nat)
    requires Tiles(m, base, segs) && k < |segs| && segs[k].len >= size + HEADER && CutInto(m, r, base, segs, k, size)
    requires i < |segs| && i != k
    ensures TileAt(r, base, Cut(segs, k, size), if i < k then i else i + 1)
  {
    var cut, at := Cut(segs, k, size), if i < k then i else i + 1;
    CutAddr(base, segs, k, size, at);
    if at + 1 < |cut| { CutAddr(base, segs, k, size, at + 1); }
    assert TileAt(m, base, segs, i);
    AddrNext(base, segs, k);
    if i < k { AddrGrows(base, segs, i, k); } else if k + 1 < i { AddrGrows(base, segs, k + 1, i); }
  }

  lemma CutTiles(m: Mem, r: Mem, base: nat, segs: seq<Seg>, k: nat, size: nat)
    requires Tiles(m, base, segs) && k < |segs| && segs[k].len >= size + HEADER && CutInto(m, r, base, segs, k, size)
    ensures Tiles(r, base, Cut(segs, k, size))
  {
    var cut := Cut(segs, k, size);
    assert TileAt(m, base, segs, k);
    forall i | 0 <= i < |cut| ensures TileAt(r, base, cut, i) {
      if i < k {
        OtherTile(m, r, base, segs, k, size, i);
      } else if i > k + 1 {
        OtherTile(m, r, base, segs, k, size, i - 1);
      } else {
        CutAddr(base, segs, k, size, i);
        CutAddr(base, segs, k, size, i + 1);
      }
    }
    CutAddr(base, segs, k, size, |cut|);
    assert cut[..|cut|] == cut && segs[..|segs|] == segs;
    SizeOfCut(segs, k, size);
  }

  lemma SizeOfCut(segs: seq<Seg>, k: nat, size: nat)
    requires k < |segs| && segs[k].len >= size + HEADER
    ensures Size(Cut(segs, k, size)) == Size(segs)
  {
    var cut := Cut(segs, k, size);
    CutAddr(0, segs, k, size, |cut|);
    assert cut[..|cut|] == cut && segs[..|segs|] == segs;
  }

  /** With its own back links right, only the chain element before is rewritten, if it is not at address 0. */
  lemma LocatedServes(h: State, base: nat, segs: seq<Seg>, k: nat, j: nat)
    requires Heaped(h, base, segs) && Located(h, base, segs, k, j)
    ensures LinksServe(H(h.mem, Addr(base, segs, k)), FreeOf(base, segs), j) <==> !NullBefore(FreeOf(base, segs), j)
  {
    var chain, c := FreeOf(base, segs), H(h.mem, Addr(base, segs, k));
    forall i | 0 <= i < |chain| && i != j && i + 1 != j ensures !Rewritten(c, chain[i]) {
      NoOtherNeighbour(h, base, segs, k, j, i);
    }
    if j > 0 { assert Rewritten(c, chain[j - 1]) <==> chain[j - 1] != 0; }
  }

  lemma NoOtherNeighbour(h: State, base: nat, segs: seq<Seg>, k: nat, j: nat, i: nat)
    requires Heaped(h, base, segs) && Located(h, base, segs, k, j)
    requires i < |FreeOf(base, segs)| && i != j && i + 1 != j
    ensures !Rewritten(H(h.mem, Addr(base, segs, k)), FreeOf(base, segs)[i])
  {
    var chain := FreeOf(base, segs);
    ChainOrder(base, segs, k);
    if i < j {
      if k > 0 { NotBetween(base, segs, k, i); }
      ChainIncreases(base, segs, i, j - 1);
    } else {
      PreviousBefore(h, base, segs, k, j);
      AddrNext(base, segs, k);
      assert Addr(base, segs, k + 1) <= chain[i];
    }
  }

  /** The forward link of chain element i after the cut of the j-th is right exactly when it was rewritten as it should. */
  lemma CutForwardAt(h: State, r: Mem, base: nat, segs: seq<Seg>, k: nat, j: nat, size: nat, i: nat)
    requires Heaped(h, base, segs) && Stands(base, segs, k, j) && segs[k].len >= size + HEADER
    requires CutInto(h.mem, r, base, segs, k, size) && i < |FreeOf(base, segs)|
    ensures var chain := FreeOf(base, segs); var spliced := chain[j := Addr(base, segs, k) + HEADER + size];
      H(r, spliced[i]).nextFree == (if i + 1 < |chain| then spliced[i + 1] else 0) <==>
        i == j || (Rewritten(H(h.mem, Addr(base, segs, k)), chain[i]) <==> i + 1 == j)
  {
    var chain, cur := FreeOf(base, segs), Addr(base, segs, k);
    assert ForwardAt(h.mem, chain, i);
    if i != j {
      SegmentApart(base, segs, k, j, i);
      if i + 1 < |chain| && i + 1 != j { SegmentApart(base, segs, k, j, i + 1); }
      assert H(r, chain[i]) == Neighbour(h.mem, H(h.mem, cur), cur + HEADER + size, chain[i]);
    }
  }

  lemma SegmentApart(base: nat, segs: seq<Seg>, k: nat, j: nat, i: nat)
    requires k < |segs| && segs[k].free && j == |FreeOf(base, segs[..k])| && i < |FreeOf(base, segs)| && i != j
    ensures var a := FreeOf(base, segs)[i]; a < Addr(base, segs, k) || Addr(base, segs, k) + HEADER + segs[k].len <= a
  {
    ChainOrder(base, segs, k);
    AddrNext(base, segs, k);
    var chain := FreeOf(base, segs);
    assert i < j ==> chain[i] + HEADER <= chain[j];
  }

  lemma ChainIncreases(base: nat, segs: seq<Seg>, i: nat, j: nat)
    requires i < j < |FreeOf(base, segs)|
    ensures FreeOf(base, segs)[i] < FreeOf(base, segs)[j]
  {
    var k := FreeIsSegment(base, segs, j);
    ChainOrder(base, segs, k);
    assert FreeOf(base, segs)[i] + HEADER <= FreeOf(base, segs)[j];
  }

  /** A free segment right before segment k is the chain element right before. */
  lemma NotBetween(base: nat, segs: seq<Seg>, k: nat, i: nat)
    requires 0 < k < |segs| && segs[k].free && i + 1 < |FreeOf(base, segs[..k])|
    ensures i < |FreeOf(base, segs)| && FreeOf(base, segs)[i] != Addr(base, segs, k - 1)
  {
    ChainOrder(base, segs, k);
    FreeAround(base, segs, k);
    var before := FreeOf(base, segs[..k]);
    assert FreeOf(base, segs)[i] == before[i];
    ChainIncreases(base, segs[..k], i, i + 1);
    var q := FreeIsSegment(base, segs[..k], i + 1);
    assert segs[..k][..q] == segs[..q];
    if q < k - 1 { AddrGrows(base, segs, q, k - 1); }
  }

  /** The chain's first element is segment k exactly when it is the first free one. */
  lemma FirstKept(base: nat, segs: seq<Seg>, k: nat, j: nat)
    requires k < |segs| && segs[k].free && j == |FreeOf(base, segs[..k])|
    ensures FreeOf(base, segs) != [] && (FreeOf(base, segs)[0] == Addr(base, segs, k) <==> j == 0)
  {
    ChainOrder(base, segs, k);
    var chain := FreeOf(base, segs);
    if j > 0 { assert chain[0] + HEADER <= chain[j]; }
  }

  /** r and h differ as the cut of segment k makes them. */
  ghost predicate CutsFrom(h: State, r: State, base: nat, segs: seq<Seg>, k: nat, j: nat, size: nat) {
    && Heaped(h, base, segs) && Stands(base, segs, k, j) && segs[k].len >= size + HEADER
    && CutInto(h.mem, r.mem, base, segs, k, size)
    && r.first == if Addr(base, segs, k) == h.first then Addr(base, segs, k) + HEADER + size else h.first
  }

  lemma CutForward(h: State, r: State, base: nat, segs: seq<Seg>, k: nat, j: nat, size: nat)
    requires CutsFrom(h, r, base, segs, k, j, size)
    requires LinksServe(H(h.mem, Addr(base, segs, k)), FreeOf(base, segs), j)
    ensures Forward(r, FreeOf(base, segs)[j := Addr(base, segs, k) + HEADER + size])
  {
    var chain := FreeOf(base, segs);
    var spliced := chain[j := Addr(base, segs, k) + HEADER + size];
    FirstKept(base, segs, k, j);
    forall i | 0 <= i < |spliced| ensures ForwardAt(r.mem, spliced, i) {
      CutForwardAt(h, r.mem, base, segs, k, j, size, i);
      assert ForwardAt(h.mem, chain, i);
    }
  }

  lemma CutForwardOnly(h: State, r: State, base: nat, segs: seq<Seg>, k: nat, j: nat, size: nat)
    requires CutsFrom(h, r, base, segs, k, j, size)
    requires Forward(r, FreeOf(base, segs)[j := Addr(base, segs, k) + HEADER + size])
    ensures LinksServe(H(h.mem, Addr(base, segs, k)), FreeOf(base, segs), j)
  {
    var chain := FreeOf(base, segs);
    var spliced := chain[j := Addr(base, segs, k) + HEADER + size];
    forall i | 0 <= i < |chain| && i != j ensures Rewritten(H(h.mem, Addr(base, segs, k)), chain[i]) <==> i + 1 == j {
      CutForwardAt(h, r.mem, base, segs, k, j, size, i);
      assert ForwardAt(r.mem, spliced, i);
    }
  }

  /**
   Exactly when a split with room keeps the free chain, whatever the heap's back links are:
   it must rewrite the forward link of the free segment before, and of no other free one.
   The region stays tiled in any case.
   */
  lemma SplitChainIff(h: State, base: nat, segs: seq<Seg>, k: nat, j: nat, size: nat)
    requires Heaped(h, base, segs) && Stands(base, segs, k, j) && segs[k].len >= size + HEADER
    requires var cur := Addr(base, segs, k); Clear(H(h.mem, cur), cur, cur + HEADER + size)
    ensures var cur := Addr(base, segs, k); var r, cut := Split(h, cur, size), Cut(segs, k, size);
      && Tiles(r.mem, base, cut) && FreeOf(base, cut) == FreeOf(base, segs)[j := cur + HEADER + size]
      && (Heaped(r, base, cut) <==> LinksServe(H(h.mem, cur), FreeOf(base, segs), j))
  {
    var r := Split(h, Addr(base, segs, k), size);
    SplitCuts(h, base, segs, k, size);
    CutTiles(h.mem, r.mem, base, segs, k, size);
    CutChain(base, segs, k, size);
    assert CutsFrom(h, r, base, segs, k, j, size);
    if LinksServe(H(h.mem, Addr(base, segs, k)), FreeOf(base, segs), j) {
      CutForward(h, r, base, segs, k, j, size);
    }
    if Forward(r, FreeOf(base, Cut(segs, k, size))) {
      CutForwardOnly(h, r, base, segs, k, j, size);
    }
  }

  /**
   So with its own back links right, a split with room cuts exactly one segment in two: the
   segments still tile the region along nextSegment, and the forward free chain is the old
   one with that segment replaced by its remainder; but not if the free segment before is at
   address 0.
   */
  lemma SplitKeeps(h: State, base: nat, segs: seq<Seg>, k: nat, j: nat, size: nat)
    requires Heaped(h, base, segs) && Located(h, base, segs, k, j) && segs[k].len >= size + HEADER
    ensures var cur := Addr(base, segs, k); var r, cut := Split(h, cur, size), Cut(segs, k, size);
      && Tiles(r.mem, base, cut) && FreeOf(base, cut) == FreeOf(base, segs)[j := cur + HEADER + size]
      && (Heaped(r, base, cut) <==> !NullBefore(FreeOf(base, segs), j))
  {
    LocatedClear(h, base, segs, k, j, size);
    SplitChainIff(h, base, segs, k, j, size);
    LocatedServes(h, base, segs, k, j);
  }
}
