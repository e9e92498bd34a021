/**
 When a split does not cut the forward link of the free segment before: the block just
 handed out stays on the free chain and is handed out again.  It happens when that segment
 is at address 0, and when its link was left stale by an earlier split.
 */
module HeapStale {
  import opened Common
  import opened Heap
  import opened HeapSplit
  import opened HeapTheorems
  import opened Words

  // ----- a split that rewrites no link of the chain

  /** Segment k is not the first free one, and splitting it rewrites no link of the free chain. */
  ghost predicate Unserved(h: State, base: nat, segs: seq<Seg>, k: nat, j: nat) {
    && Heaped(h, base, segs) && Stands(base, segs, k, j) && j > 0
    && (forall i {:trigger FreeOf(base, segs)[i]} :: 0 <= i < |FreeOf(base, segs)| ==>
          !Rewritten(H(h.mem, Addr(base, segs, k)), FreeOf(base, segs)[i]))
  }

  /** The chain that the walk then follows: segment k stays on it, before its remainder. */
  function Lingering(chain: seq<nat>, j: nat, n: nat): seq<nat>
    requires j < |chain|
  {
    chain[..j + 1] + [n] + chain[j + 1..]
  }

  lemma LingersAt(h: State, r: Mem, base: nat, segs: seq<Seg>, k: nat, j: nat, size: nat, i: nat)
    requires Unserved(h, base, segs, k, j) && segs[k].len >= size + HEADER && CutInto(h.mem, r, base, segs, k, size)
    requires i < |FreeOf(base, segs)|
    ensures var chain := Lingering(FreeOf(base, segs), j, Addr(base, segs, k) + HEADER + size);
      ForwardAt(r, chain, if i <= j then i else i + 1) && (i == j ==> ForwardAt(r, chain, j + 1))
    ensures i != j ==> H(r, FreeOf(base, segs)[i]) == H(h.mem, FreeOf(base, segs)[i])
  {
    var chain := FreeOf(base, segs);
    assert ForwardAt(h.mem, chain, i);
    assert !Rewritten(H(h.mem, Addr(base, segs, k)), chain[i]);
    if i != j {
      SegmentApart(base, segs, k, j, i);
      assert H(r, chain[i]) == Neighbour(h.mem, H(h.mem, Addr(base, segs, k)), Addr(base, segs, k) + HEADER + size, chain[i]);
    }
  }

  lemma Lingers(h: State, r: State, base: nat, segs: seq<Seg>, k: nat, j: nat, size: nat)
    requires Unserved(h, base, segs, k, j) && segs[k].len >= size + HEADER && CutInto(h.mem, r.mem, base, segs, k, size)
    requires r.first == h.first
    ensures Forward(r, Lingering(FreeOf(base, segs), j, Addr(base, segs, k) + HEADER + size))
  {
    var chain := Lingering(FreeOf(base, segs), j, Addr(base, segs, k) + HEADER + size);
    forall i | 0 <= i < |chain| ensures ForwardAt(r.mem, chain, i) {
      LingersAt(h, r.mem, base, segs, k, j, size, if i <= j then i else i - 1);
    }
    assert chain[0] == FreeOf(base, segs)[0];
  }

  lemma UnservedClear(h: State, base: nat, segs: seq<Seg>, k: nat, j: nat, size: nat)
    requires Unserved(h, base, segs, k, j)
    ensures Addr(base, segs, k) != h.first
    ensures Split(h, Addr(base, segs, k), size).first == h.first
  {
    FirstKept(base, segs, k, j);
  }

  /** Then the free chain is broken: it still leads to the block just handed out. */
  lemma BlockStaysOnChain(h: State, base: nat, segs: seq<Seg>, k: nat, j: nat, size: nat)
    requires Unserved(h, base, segs, k, j) && segs[k].len >= size + HEADER
    requires var cur := Addr(base, segs, k); Clear(H(h.mem, cur), cur, cur + HEADER + size)
    ensures var cur := Addr(base, segs, k); var r := Split(h, cur, size);
      && Tiles(r.mem, base, Cut(segs, k, size)) && !Heaped(r, base, Cut(segs, k, size))
      && !H(r.mem, cur).free && H(r.mem, cur).len == size
      && Forward(r, Lingering(FreeOf(base, segs), j, cur + HEADER + size))
      && (forall i {:trigger FreeOf(base, segs)[i]} :: 0 <= i < j ==> H(r.mem, FreeOf(base, segs)[i]) == H(h.mem, FreeOf(base, segs)[i]))
  {
    var r := Split(h, Addr(base, segs, k), size);
    SplitChainIff(h, base, segs, k, j, size);
    SplitCuts(h, base, segs, k, size);
    UnservedClear(h, base, segs, k, j, size);
    assert !Rewritten(H(h.mem, Addr(base, segs, k)), FreeOf(base, segs)[j - 1]);
    Lingers(h, r, base, segs, k, j, size);
    forall i | 0 <= i < j ensures H(r.mem, FreeOf(base, segs)[i]) == H(h.mem, FreeOf(base, segs)[i]) {
      LingersAt(h, r.mem, base, segs, k, j, size, i);
    }
  }

  /** A call for `one` bytes and then one for `next`, whose walk follows `lingering`, both answer a. */
  ghost predicate SameAnswer(h: State, chain: seq<nat>, one: nat, lingering: seq<nat>, next: nat, a: nat)
    requires chain != [] && lingering != []
  {
    match Allocate(h, chain, one)
    case NoFit => false
    case Block(b, r) => b == a && Forward(r, lingering) && Answers(Allocate(r, lingering, next), a)
  }

  predicate Answers(how: Outcome, a: nat) { how.Block? && how.addr == a }

  /**
   And so two calls get one address: when a call splits segment k, any next size that the
   handed-out block is long enough for, and no free segment before it is, is answered with
   the same address.
   */
  lemma TwoCallsOneAddress(h: State, base: nat, segs: seq<Seg>, k: nat, j: nat, one: nat, next: nat)
    requires Unserved(h, base, segs, k, j) && segs[k].len >= one + HEADER && next <= one
    requires var cur := Addr(base, segs, k); Clear(H(h.mem, cur), cur, cur + HEADER + one)
    requires NoneBefore(h.mem, FreeOf(base, segs), j, next)
    ensures var chain, cur := FreeOf(base, segs), Addr(base, segs, k);
      SameAnswer(h, chain, one, Lingering(chain, j, cur + HEADER + one), next, (cur + HEADER) % WORD)
  {
    var chain, n := FreeOf(base, segs), Addr(base, segs, k) + HEADER + one;
    BlockStaysOnChain(h, base, segs, k, j, one);
    FitsIff(h, base, segs, k, one);
    FirstFitIs(h.mem, chain, one, j);
    NextFit(Split(h, chain[j], one).mem, h.mem, chain, j, n, one, next);
    SameAnswerFrom(h, Split(h, chain[j], one), chain, one, Lingering(chain, j, n), next, j);
  }

  /** Segment k, unserved, with its address and the chain; its split for `size` writes over no neighbour. */
  ghost predicate UnservedAt(h: State, base: nat, segs: seq<Seg>, k: nat, j: nat, size: nat, chain: seq<nat>, cur: nat) {
    && Unserved(h, base, segs, k, j) && segs[k].len >= size + HEADER
    && chain == FreeOf(base, segs) && cur == Addr(base, segs, k) && Clear(H(h.mem, cur), cur, cur + HEADER + size)
  }

  /** Two calls, for `one` bytes and then for `next`, answer the address of the block at cur. */
  ghost predicate AnswersTwice(h: State, chain: seq<nat>, j: nat, cur: nat, one: nat, next: nat) {
    && j < |chain|
    && SameAnswer(h, chain, one, Lingering(chain, j, cur + HEADER + one), next, (cur + HEADER) % WORD)
  }

  lemma TwoCallsAt(h: State, base: nat, segs: seq<Seg>, k: nat, j: nat, one: nat, next: nat, chain: seq<nat>, cur: nat)
    requires UnservedAt(h, base, segs, k, j, one, chain, cur) && next <= one && NoneBefore(h.mem, chain, j, next)
    ensures AnswersTwice(h, chain, j, cur, one, next)
  {
    TwoCallsOneAddress(h, base, segs, k, j, one, next);
  }

  /** The split of segment k, at cur, leaves the block it hands out on the chain. */
  ghost predicate Breaks(h: State, base: nat, segs: seq<Seg>, k: nat, j: nat, size: nat, chain: seq<nat>, cur: nat)
    requires k < |segs| && segs[k].len >= size + HEADER
  {
    var r := Split(h, cur, size);
    && Heaped(h, base, segs) && j < |chain|
    && !Heaped(r, base, Cut(segs, k, size)) && !H(r.mem, cur).free
    && Forward(r, Lingering(chain, j, cur + HEADER + size))
  }

  lemma BreaksAt(h: State, base: nat, segs: seq<Seg>, k: nat, j: nat, size: nat, chain: seq<nat>, cur: nat)
    requires UnservedAt(h, base, segs, k, j, size, chain, cur)
    ensures Breaks(h, base, segs, k, j, size, chain, cur)
  {
    BlockStaysOnChain(h, base, segs, k, j, size);
  }

  ghost predicate Picked(h: State, chain: seq<nat>, size: nat, a: nat, r: State) {
    chain != [] && Allocate(h, chain, size) == Block(a, r)
  }

  lemma Picks(h: State, chain: seq<nat>, size: nat, j: nat)
    requires j < |chain| && FirstFit(h.mem, chain, size) == j && Fits(h.mem, chain[j], size)
    ensures Picked(h, chain, size, (chain[j] + HEADER) % WORD, Split(h, chain[j], size))
  {
  }

  lemma SameAnswerFrom(h: State, r: State, chain: seq<nat>, one: nat, lingering: seq<nat>, next: nat, j: nat)
    requires j < |chain| && FirstFit(h.mem, chain, one) == j && Fits(h.mem, chain[j], one)
    requires r == Split(h, chain[j], one) && Forward(r, lingering) && j < |lingering| && lingering[j] == chain[j]
    requires FirstFit(r.mem, lingering, next) == j && Fits(r.mem, lingering[j], next)
    ensures SameAnswer(h, chain, one, lingering, next, (chain[j] + HEADER) % WORD)
  {
    Picks(h, chain, one, j);
    Picks(r, lingering, next, j);
    SameAnswerIs(h, r, chain, one, lingering, next, (chain[j] + HEADER) % WORD, Split(r, chain[j], next));
  }

  lemma SameAnswerIs(h: State, r: State, chain: seq<nat>, one: nat, lingering: seq<nat>, next: nat, a: nat, r2: State)
    requires Picked(h, chain, one, a, r) && Picked(r, lingering, next, a, r2) && Forward(r, lingering)
    ensures SameAnswer(h, chain, one, lingering, next, a)
  {
  }

  /** No element of the chain before the j-th is long enough. */
  ghost predicate NoneBefore(m: Mem, chain: seq<nat>, j: nat, size: nat) {
    forall i {:trigger chain[i]} :: 0 <= i < j && i < |chain| ==> !Fits(m, chain[i], size)
  }

  lemma NextFit(r: Mem, m: Mem, chain: seq<nat>, j: nat, n: nat, size: nat, next: nat)
    requires j < |chain| && next <= size && H(r, chain[j]).len == size < WORD
    requires forall i {:trigger chain[i]} :: 0 <= i < j ==> H(r, chain[i]) == H(m, chain[i]) && !Fits(m, chain[i], next)
    ensures FirstFit(r, Lingering(chain, j, n), next) == j && Fits(r, chain[j], next)
  {
    var lingering := Lingering(chain, j, n);
    forall i | 0 <= i < j ensures !Fits(r, lingering[i], next) { assert lingering[i] == chain[i]; }
    FirstFitIs(r, lingering, next, j);
  }

  // ----- when the free segment before is at address 0

  /** In a heap at address 0 whose links agree, splitting the second free segment while the first is at its start. */
  lemma NullBeforeUnserved(h: State, base: nat, segs: seq<Seg>, k: nat, j: nat)
    requires Linked(h, base, segs) && Located(h, base, segs, k, j)
    ensures NullBefore(FreeOf(base, segs), j) <==> Unserved(h, base, segs, k, j)
  {
    var chain, c := FreeOf(base, segs), H(h.mem, Addr(base, segs, k));
    LocatedServes(h, base, segs, k, j);
    if NullBefore(chain, j) {
      forall i | 0 <= i < |chain| ensures !Rewritten(c, chain[i]) {
        if i == j { PreviousBefore(h, base, segs, k, j); } else if i + 1 != j { NoOtherNeighbour(h, base, segs, k, j, i); }
      }
    } else if j > 0 {
      assert Rewritten(c, chain[j - 1]);
    }
  }

  // ----- after an earlier split

  /** From a heap whose links agree, segment k is split after `size` bytes, and k2 is the free segment after it. */
  ghost predicate FirstSplit(h: State, base: nat, segs: seq<Seg>, k: nat, j: nat, size: nat, k2: nat) {
    && Linked(h, base, segs) && Located(h, base, segs, k, j) && segs[k].len >= size + HEADER
    && !NullBefore(FreeOf(base, segs), j) && Stands(base, segs, k2, j + 1)
  }

  /** The free chain after that split. */
  function Chain1(base: nat, segs: seq<Seg>, k: nat, j: nat, size: nat): seq<nat>
    requires k < |segs| && j < |FreeOf(base, segs)|
  {
    FreeOf(base, segs)[j := Addr(base, segs, k) + HEADER + size]
  }

  /** Free segments come in the order of the chain. */
  lemma StandsOrder(base: nat, segs: seq<Seg>, k: nat, j: nat, k2: nat)
    requires Stands(base, segs, k, j) && Stands(base, segs, k2, j + 1)
    ensures k < k2
  {
    if k2 < k { Rank(base, segs, k2, k); }
  }

  /** Between two neighbours of the free chain all segments are allocated. */
  lemma NoneBetween(base: nat, segs: seq<Seg>, k: nat, j: nat, k2: nat, i: nat)
    requires Stands(base, segs, k, j) && Stands(base, segs, k2, j + 1) && k < i < k2
    ensures !segs[i].free
  {
    if segs[i].free {
      Rank(base, segs, k, i);
      Rank(base, segs, i, k2);
    }
  }

  /** No free segment is at the address of an allocated one. */
  lemma FreeNotTaken(base: nat, segs: seq<Seg>, i: nat, q: nat)
    requires i < |FreeOf(base, segs)| && q < |segs| && !segs[q].free
    ensures FreeOf(base, segs)[i] != Addr(base, segs, q)
  {
    var p := FreeIsSegment(base, segs, i);
    if p < q { AddrGrows(base, segs, p, q); } else { AddrGrows(base, segs, q, p); }
  }

  /** The next free segment's back links still name what was there before the split. */
  lemma StaleLinks(h: State, base: nat, segs: seq<Seg>, k: nat, j: nat, size: nat, k2: nat)
    requires FirstSplit(h, base, segs, k, j, size, k2)
    ensures var c := H(Split(h, Addr(base, segs, k), size).mem, Addr(base, segs, k2));
      && k < k2 && c.prevFree == Addr(base, segs, k) && c.prev == Addr(base, segs, k2 - 1)
      && c.nextFree == H(h.mem, Addr(base, segs, k2)).nextFree
  {
    StandsOrder(base, segs, k, j, k2);
    LocatedClear(h, base, segs, k, j, size);
    SplitCuts(h, base, segs, k, size);
    assert BackAt(h.mem, base, segs, k2) && BackFreeAt(h.mem, FreeOf(base, segs), j + 1);
    AddrGrows(base, segs, k, k2);
    PreviousBefore(h, base, segs, k, j);
  }

  /** The address of segment k2 - 1, once k is split, is that of an allocated segment. */
  lemma PreviousTaken(base: nat, segs: seq<Seg>, k: nat, j: nat, size: nat, k2: nat, i: nat)
    requires Stands(base, segs, k, j) && Stands(base, segs, k2, j + 1) && segs[k].len >= size + HEADER
    requires i < |FreeOf(base, segs)|
    ensures k < k2 && Chain1(base, segs, k, j, size)[i] != Addr(base, segs, k)
    ensures Chain1(base, segs, k, j, size)[i] != Addr(base, segs, k2 - 1)
  {
    StandsOrder(base, segs, k, j, k2);
    AddrNext(base, segs, k);
    if i != j { SegmentApart(base, segs, k, j, i); }
    if k < k2 - 1 {
      NoneBetween(base, segs, k, j, k2, k2 - 1);
      FreeNotTaken(base, segs, i, k2 - 1);
      AddrGrows(base, segs, k, k2 - 1);
    }
  }

  /** In the cut segments the next free one has moved up by one. */
  lemma StandsAfter(base: nat, segs: seq<Seg>, k: nat, j: nat, size: nat, k2: nat)
    requires Stands(base, segs, k, j) && Stands(base, segs, k2, j + 1) && segs[k].len >= size + HEADER
    ensures k < k2 && Stands(base, Cut(segs, k, size), k2 + 1, j + 1)
    ensures Addr(base, Cut(segs, k, size), k2 + 1) == Addr(base, segs, k2) && Cut(segs, k, size)[k2 + 1] == segs[k2]
  {
    StandsOrder(base, segs, k, j, k2);
    var cut := Cut(segs, k, size);
    CutAddr(base, segs, k, size, k2 + 1);
    CutChain(base, segs, k, size);
    ChainOrder(base, cut, k2 + 1);
    SameAddress(FreeOf(base, cut), base, cut, |FreeOf(base, cut[..k2 + 1])|, j + 1);
  }

  lemma SameAddress(chain: seq<nat>, base: nat, segs: seq<Seg>, i: nat, j: nat)
    requires chain == FreeOf(base, segs) && i < |chain| && j < |chain| && chain[i] == chain[j]
    ensures i == j
  {
    if i < j { ChainIncreases(base, segs, i, j); } else if j < i { ChainIncreases(base, segs, j, i); }
  }

  /** The second split rewrites none of the chain's links. */
  lemma NoneRewritten(h: State, base: nat, segs: seq<Seg>, k: nat, j: nat, size: nat, k2: nat, i: nat)
    requires FirstSplit(h, base, segs, k, j, size, k2) && i < |FreeOf(base, segs)|
    ensures !Rewritten(H(Split(h, Addr(base, segs, k), size).mem, Addr(base, segs, k2)), Chain1(base, segs, k, j, size)[i])
  {
    StaleLinks(h, base, segs, k, j, size, k2);
    PreviousTaken(base, segs, k, j, size, k2, i);
  }

  /**
   From any heap whose links agree both ways, split one free segment and then look at the
   next one: splitting it now would rewrite no link of the chain.
   */
  lemma SecondUnserved(h: State, base: nat, segs: seq<Seg>, k: nat, j: nat, size: nat, k2: nat)
    requires FirstSplit(h, base, segs, k, j, size, k2)
    ensures var h1, cut := Split(h, Addr(base, segs, k), size), Cut(segs, k, size);
      && Unserved(h1, base, cut, k2 + 1, j + 1) && FreeOf(base, cut) == Chain1(base, segs, k, j, size)
      && k < k2 && cut[k2 + 1] == segs[k2] && Addr(base, cut, k2 + 1) == Addr(base, segs, k2)
  {
    SplitKeeps(h, base, segs, k, j, size);
    StandsAfter(base, segs, k, j, size, k2);
    var chain := FreeOf(base, Cut(segs, k, size));
    forall i | 0 <= i < |chain|
      ensures !Rewritten(H(Split(h, Addr(base, segs, k), size).mem, Addr(base, segs, k2)), chain[i])
    {
      NoneRewritten(h, base, segs, k, j, size, k2, i);
    }
  }

  lemma SecondClear(h: State, base: nat, segs: seq<Seg>, k: nat, j: nat, size: nat, k2: nat, size2: nat)
    requires FirstSplit(h, base, segs, k, j, size, k2)
    ensures var cur := Addr(base, segs, k2);
      Clear(H(Split(h, Addr(base, segs, k), size).mem, cur), cur, cur + HEADER + size2)
  {
    StaleLinks(h, base, segs, k, j, size, k2);
    AddrGrows(base, segs, k, k2);
    AddrGrows(base, segs, k2 - 1, k2);
  }

  /** The same of the state after the first split, with the neighbours that a second one would write over. */
  lemma SecondPlace(h: State, base: nat, segs: seq<Seg>, k: nat, j: nat, size: nat, k2: nat, size2: nat, h1: State)
    requires FirstSplit(h, base, segs, k, j, size, k2) && h1 == Split(h, Addr(base, segs, k), size)
    requires segs[k2].len >= size2 + HEADER
    ensures UnservedAt(h1, base, Cut(segs, k, size), k2 + 1, j + 1, size2, Chain1(base, segs, k, j, size), Addr(base, segs, k2))
    ensures k < k2 && Cut(segs, k, size)[k2 + 1] == segs[k2]
  {
    SecondUnserved(h, base, segs, k, j, size, k2);
    SecondClear(h, base, segs, k, j, size, k2, size2);
  }

  /** So splitting one free segment and then the next one always breaks the free chain. */
  lemma SecondSplitBreaks(h: State, base: nat, segs: seq<Seg>, k: nat, j: nat, size: nat, k2: nat, size2: nat, h1: State)
    requires FirstSplit(h, base, segs, k, j, size, k2) && segs[k2].len >= size2 + HEADER
    requires h1 == Split(h, Addr(base, segs, k), size)
    ensures k < k2 && Cut(segs, k, size)[k2 + 1] == segs[k2]
    ensures Breaks(h1, base, Cut(segs, k, size), k2 + 1, j + 1, size2, Chain1(base, segs, k, j, size), Addr(base, segs, k2))
  {
    SecondPlace(h, base, segs, k, j, size, k2, size2, h1);
    BreaksAt(h1, base, Cut(segs, k, size), k2 + 1, j + 1, size2, Chain1(base, segs, k, j, size), Addr(base, segs, k2));
  }

  /** And two calls get one address, as above, after any such first split. */
  lemma SecondCallRepeats(h: State, base: nat, segs: seq<Seg>, k: nat, j: nat, size: nat, k2: nat, one: nat, next: nat, h1: State)
    requires FirstSplit(h, base, segs, k, j, size, k2) && segs[k2].len >= one + HEADER && next <= one
    requires h1 == Split(h, Addr(base, segs, k), size) && NoneBefore(h1.mem, Chain1(base, segs, k, j, size), j + 1, next)
    ensures AnswersTwice(h1, Chain1(base, segs, k, j, size), j + 1, Addr(base, segs, k2), one, next)
  {
    SecondPlace(h, base, segs, k, j, size, k2, one, h1);
    TwoCallsAt(h1, base, Cut(segs, k, size), k2 + 1, j + 1, one, next, Chain1(base, segs, k, j, size), Addr(base, segs, k2));
  }

  // ----- an instance

  /**
   A heap whose first two segments are free, and three calls: the first leaves a remainder
   too short for the third, the second splits the other segment, and the third is answered
   like the second.
   */
  lemma ThreeCalls(h: State, base: nat, segs: seq<Seg>, size: nat, one: nat, next: nat, h1: State)
    requires Linked(h, base, segs) && Located(h, base, segs, 0, 0) && Stands(base, segs, 1, 1)
    requires size + HEADER <= segs[0].len < size + HEADER + next
    requires next <= one && one + HEADER <= segs[1].len && h1 == Split(h, Addr(base, segs, 0), size)
    ensures FirstSplit(h, base, segs, 0, 0, size, 1)
    ensures AnswersTwice(h1, Chain1(base, segs, 0, 0, size), 1, Addr(base, segs, 1), one, next)
  {
    RemainderShort(h, base, segs, size, next);
    SecondCallRepeats(h, base, segs, 0, 0, size, 1, one, next, h1);
  }

  lemma RemainderShort(h: State, base: nat, segs: seq<Seg>, size: nat, next: nat)
    requires Linked(h, base, segs) && Located(h, base, segs, 0, 0) && Stands(base, segs, 1, 1)
    requires size + HEADER <= segs[0].len < size + HEADER + next
    ensures NoneBefore(Split(h, Addr(base, segs, 0), size).mem, Chain1(base, segs, 0, 0, size), 1, next)
  {
    LocatedClear(h, base, segs, 0, 0, size);
    SplitCuts(h, base, segs, 0, size);
    SplitPlace(h, base, segs, 0, size);
  }

  /** Two free segments at 4096 and 4184, all links in agreement. */
  const TWO_FREE: State := State(
    map[4096 := Header(64, 4184, 0, 4184, 0, true), 4184 := Header(200, 0, 4096, 0, 4096, true)], 4096)

  const TWO_SEGS: seq<Seg> := [Seg(64, true), Seg(200, true)]

  lemma TwoPlaces(segs: seq<Seg>)
    requires segs == TWO_SEGS
    ensures Addr(4096, segs, 0) == 4096 && Addr(4096, segs, 1) == 4184 && Addr(4096, segs, 2) == 4408 && Size(segs) == 312
    ensures FreeOf(4096, segs) == [4096, 4184] && Stands(4096, segs, 0, 0) && Stands(4096, segs, 1, 1)
  {
    assert segs[..0] == [] && segs[..1] == [segs[0]] && segs[..2] == segs;
    assert segs[1..] == [segs[1]] && segs[1..][1..] == [];
    assert Size(segs[1..]) == 224 && Size(segs[..1]) == 88;
    assert FreeOf(4184, segs[1..]) == [4184];
    assert FreeOf(4096, segs[..1]) == [4096];
  }

  lemma TwoLinked(segs: seq<Seg>)
    requires segs == TWO_SEGS
    ensures Linked(TWO_FREE, 4096, segs) && Located(TWO_FREE, 4096, segs, 0, 0) && Stands(4096, segs, 1, 1)
  {
    TwoPlaces(segs);
    forall i | 0 <= i < 2 ensures TileAt(TWO_FREE.mem, 4096, segs, i) && BackAt(TWO_FREE.mem, 4096, segs, i) {
      assert i == 0 || i == 1;
    }
    forall i | 0 <= i < 2 ensures ForwardAt(TWO_FREE.mem, [4096, 4184], i) && BackFreeAt(TWO_FREE.mem, [4096, 4184], i) {
      assert i == 0 || i == 1;
    }
  }

  /** malloc on the first segment of a chain, if it fits. */
  lemma FirstAnswer(h: State, base: nat, segs: seq<Seg>, request: nat)
    requires Linked(h, base, segs) && segs[0].free && Rounded(request) <= segs[0].len && base + HEADER < WORD
    ensures FreeOf(base, segs) != [] && MallocSpec(h, FreeOf(base, segs), request) == Block(base + HEADER, Split(h, base, Rounded(request)))
  {
    FreeAround(base, segs, 0);
    assert FreeOf(base, segs[..0]) == [] && Addr(base, segs, 0) == base;
    FitsIff(h, base, segs, 0, Rounded(request));
  }

  lemma TwoChains(segs: seq<Seg>, chain1: seq<nat>)
    requires segs == TWO_SEGS && chain1 == [4128, 4184]
    ensures FreeOf(4096, segs) == [4096, 4184] && Chain1(4096, segs, 0, 0, 8) == chain1 && Addr(4096, segs, 1) == 4184
    ensures segs[0] == Seg(64, true) && segs[1] == Seg(200, true)
  {
    TwoPlaces(segs);
  }

  /** Calls of 8, 104 and 72 bytes there: the second and the third are both answered with 4208. */
  lemma SecondSplitCorrupts(h: State, segs: seq<Seg>, chain: seq<nat>, h1: State, chain1: seq<nat>)
    requires h == TWO_FREE && segs == TWO_SEGS && chain == [4096, 4184]
    requires h1 == Split(h, 4096, 8) && chain1 == [4128, 4184]
    ensures Linked(h, 4096, segs) && FreeOf(4096, segs) == chain && MallocSpec(h, chain, 8) == Block(4120, h1)
    ensures SameAnswer(h1, chain1, 104, Lingering(chain1, 1, 4312), 72, 4208)
  {
    TwoLinked(segs);
    TwoChains(segs, chain1);
    TwoAnswers(h, 4096, segs, h1);
  }

  lemma TwoAnswers(h: State, base: nat, segs: seq<Seg>, h1: State)
    requires Linked(h, base, segs) && Located(h, base, segs, 0, 0) && Stands(base, segs, 1, 1)
    requires segs[0] == Seg(64, true) && segs[1] == Seg(200, true) && h1 == Split(h, base, 8) && base + HEADER < WORD
    ensures FreeOf(base, segs) != [] && MallocSpec(h, FreeOf(base, segs), 8) == Block(base + HEADER, h1)
    ensures AnswersTwice(h1, Chain1(base, segs, 0, 0, 8), 1, Addr(base, segs, 1), 104, 72)
  {
    assert Rounded(8) == 8;
    FirstAnswer(h, base, segs, 8);
    assert Addr(base, segs, 0) == base;
    ThreeCalls(h, base, segs, 8, 104, 72, h1);
  }
}
