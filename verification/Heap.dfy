/**
 malloc's first-fit walk and split over segment headers in a flat memory.  Pointers are
 32-bit addresses and 0 is the null pointer; a header takes 24 bytes.  Headers are
 records at their own addresses.
 */
module Heap {
  import opened Common
  import opened Words

  const HEADER: nat := 24

  datatype Header = Header(len: int, next: nat, prev: nat, nextFree: nat, prevFree: nat, free: bool)

  type Mem = map<nat, Header>

  function H(m: Mem, a: nat): Header { if a in m then m[a] else Header(0, 0, 0, 0, 0, false) }

  /** A signed length compared with a size_t is taken as unsigned. */
  function Unsigned(n: int): nat { n % WORD }

  /** The requested size as malloc rounds it up to eight bytes, in 32 bits. */
  function Rounded(size: nat): nat {
    (size - size % 8 + if size % 8 != 0 then 8 else 0) % WORD
  }

  datatype State = State(mem: Mem, first: nat)

  predicate Fits(m: Mem, a: nat, size: nat) { Unsigned(H(m, a).len) >= size }

  /** Where the remainder of a segment starts. */
  function RestAt(cur: nat, size: nat): nat { (cur + HEADER + size) % WORD }

  // ----- the split, write by write

  function NewSegment(m: Mem, cur: nat, size: nat): Mem {
    var c := H(m, cur);
    m[RestAt(cur, size) := Header(Int32(c.len - (HEADER + size)), c.next, cur, c.nextFree, c.prevFree, true)]
  }

  function CutSegment(m: Mem, cur: nat, size: nat): Mem {
    var n := RestAt(cur, size);
    m[cur := H(m, cur).(nextFree := n, next := n, len := Int32(size), free := false)]
  }

  function SetNextFree(m: Mem, a: nat, v: nat): Mem { if a == 0 then m else m[a := H(m, a).(nextFree := v)] }
  function SetPrevFree(m: Mem, a: nat, v: nat): Mem { if a == 0 then m else m[a := H(m, a).(prevFree := v)] }

  /** The four links written at the end. */
  function Relink(m: Mem, cur: nat): Mem {
    var m1 := SetNextFree(m, H(m, cur).prevFree, H(m, cur).nextFree);
    var m2 := SetPrevFree(m1, H(m1, cur).nextFree, H(m1, cur).prevFree);
    var m3 := SetNextFree(m2, H(m2, cur).prev, H(m2, cur).nextFree);
    SetPrevFree(m3, H(m3, cur).next, H(m3, cur).prevFree)
  }

  function Split(h: State, cur: nat, size: nat): State {
    State(Relink(CutSegment(NewSegment(h.mem, cur, size), cur, size), cur),
          if cur == h.first then RestAt(cur, size) else h.first)
  }

  // ----- the walk

  /** The free segments in the order of nextFreeSegment. */
  ghost predicate Forward(h: State, chain: seq<nat>) {
    && chain != [] && h.first == chain[0]
    && (forall i {:trigger ForwardAt(h.mem, chain, i)} :: 0 <= i < |chain| ==> ForwardAt(h.mem, chain, i))
  }

  ghost predicate ForwardAt(m: Mem, chain: seq<nat>, i: nat)
    requires i < |chain|
  {
    H(m, chain[i]).nextFree == (if i + 1 < |chain| then chain[i + 1] else 0) && (i > 0 ==> chain[i] != 0)
  }

  /** Where the walk stops: at the first segment that fits, or at the last one. */
  function FirstFit(m: Mem, chain: seq<nat>, size: nat): (j: nat)
    requires chain != []
    ensures j < |chain| && (forall i {:trigger chain[i]} :: 0 <= i < j ==> !Fits(m, chain[i], size))
    ensures !Fits(m, chain[j], size) ==> j == |chain| - 1
  {
    if Fits(m, chain[0], size) || |chain| == 1 then 0
    else
      var j := FirstFit(m, chain[1..], size);
      assert forall i {:trigger chain[i]} :: 0 < i <= j ==> chain[i] == chain[1..][i - 1];
      j + 1
  }

  datatype Outcome = Block(addr: nat, h: State) | NoFit

  /** malloc on a heap whose free chain is `chain`; NoFit is where it would ask for pages. */
  function MallocSpec(h: State, chain: seq<nat>, request: nat): Outcome
    requires chain != []
  {
    Allocate(h, chain, Rounded(request))
  }

  /** The same with the size rounded already. */
  function Allocate(h: State, chain: seq<nat>, size: nat): Outcome
    requires chain != []
  {
    var cur := chain[FirstFit(h.mem, chain, size)];
    if !Fits(h.mem, cur, size) then NoFit else Block((cur + HEADER) % WORD, Split(h, cur, size))
  }

  class Heap {
    var mem: Mem
    var firstFreeSegment: nat

    ghost function View(): State reads this { State(mem, firstFreeSegment) }

    /** initialiseHeap. */
    method InitialiseHeap(base: nat, length: nat)
      modifies this
      ensures View() == State(old(mem)[base := Header(Int32(length - HEADER), 0, 0, 0, 0, true)], base)
    {
      firstFreeSegment := base;
      mem := mem[base := Header(Int32(length - HEADER), 0, 0, 0, 0, true)];
    }

    /** malloc; it loops for ever on a cyclic chain, so it asks for one that ends. */
    method Malloc(request: nat, ghost chain: seq<nat>) returns (r: Option<nat>)
      requires request < WORD && Forward(View(), chain)
      modifies this
      ensures match MallocSpec(old(View()), chain, request)
              case NoFit => r == None && View() == old(View())
              case Block(a, h) => r == Some(a) && View() == h
    {
      var size := RoundUp(request);
      var cur := firstFreeSegment;
      ghost var j := 0;
      while Unsigned(H(mem, cur).len) < size && H(mem, cur).nextFree != 0
        invariant j < |chain| && cur == chain[j]
        invariant forall i {:trigger chain[i]} :: 0 <= i < j ==> !Fits(mem, chain[i], size)
        decreases |chain| - j
      {
        assert ForwardAt(mem, chain, j) && chain[j] == cur;
        cur := H(mem, cur).nextFree;
        j := j + 1;
      }
      assert ForwardAt(mem, chain, j) && (j + 1 < |chain| ==> ForwardAt(mem, chain, j + 1));
      FirstFitIs(mem, chain, size, j);
      if Unsigned(H(mem, cur).len) < size { return None; }
      SplitAt(cur, size);
      r := Some((cur + HEADER) % WORD);
    }

    /** The part of malloc after the walk. */
    method SplitAt(cur: nat, size: nat)
      modifies this
      ensures View() == Split(old(View()), cur, size)
    {
      var n := RestAt(cur, size);
      mem := mem[n := Header(Int32(H(mem, cur).len - (HEADER + size)), H(mem, cur).next, cur,
                             H(mem, cur).nextFree, H(mem, cur).prevFree, true)];
      mem := mem[cur := H(mem, cur).(nextFree := n, next := n, len := Int32(size), free := false)];
      if cur == firstFreeSegment { firstFreeSegment := n; }
      UpdateLinks(cur);
    }

    method UpdateLinks(cur: nat)
      modifies `mem
      ensures mem == Relink(old(mem), cur)
    {
      WriteNextFree(H(mem, cur).prevFree, H(mem, cur).nextFree);
      WritePrevFree(H(mem, cur).nextFree, H(mem, cur).prevFree);
      WriteNextFree(H(mem, cur).prev, H(mem, cur).nextFree);
      WritePrevFree(H(mem, cur).next, H(mem, cur).prevFree);
    }

    method WriteNextFree(a: nat, v: nat)
      modifies `mem
      ensures mem == SetNextFree(old(mem), a, v)
    {
      if a != 0 { mem := mem[a := H(mem, a).(nextFree := v)]; }
    }

    method WritePrevFree(a: nat, v: nat)
      modifies `mem
      ensures mem == SetPrevFree(old(mem), a, v)
    {
      if a != 0 { mem := mem[a := H(mem, a).(prevFree := v)]; }
    }
  }

  method RoundUp(request: nat) returns (size: nat)
    requires request < WORD
    ensures size == Rounded(request)
  {
    var remainder := request % 8;
    size := request - remainder;
    if remainder != 0 { size := (size + 8) % WORD; }
  }

  /** Only one place can be the first that fits, or else the end. */
  lemma FirstFitIs(m: Mem, chain: seq<nat>, size: nat, j: nat)
    requires j < |chain| && (forall i {:trigger chain[i]} :: 0 <= i < j ==> !Fits(m, chain[i], size))
    requires Fits(m, chain[j], size) || j == |chain| - 1
    ensures FirstFit(m, chain, size) == j
  {
    var k := FirstFit(m, chain, size);
    var stop, other := chain[k], chain[j];
    assert stop == chain[k] && other == chain[j];
  }

  // ----- segments that tile a region

  datatype Seg = Seg(len: nat, free: bool)

  function Size(segs: seq<Seg>): nat {
    if segs == [] then 0 else HEADER + segs[0].len + Size(segs[1..])
  }

  function Addr(base: nat, segs: seq<Seg>, i: nat): nat
    requires i <= |segs|
  {
    base + Size(segs[..i])
  }

  lemma {:induction false} SizeAdds(a: seq<Seg>, b: seq<Seg>)
    ensures Size(a + b) == Size(a) + Size(b)
  {
    if a == [] {
      assert a + b == b;
    } else {
      SizeAdds(a[1..], b);
      assert (a + b)[1..] == a[1..] + b;
    }
  }

  lemma AddrNext(base: nat, segs: seq<Seg>, i: nat)
    requires i < |segs|
    ensures Addr(base, segs, i + 1) == Addr(base, segs, i) + HEADER + segs[i].len
  {
    SizeAdds(segs[..i], [segs[i]]);
    assert segs[..i + 1] == segs[..i] + [segs[i]];
  }

  lemma {:induction false} AddrGrows(base: nat, segs: seq<Seg>, i: nat, j: nat)
    requires i < j <= |segs|
    ensures Addr(base, segs, i) + HEADER + segs[i].len <= Addr(base, segs, j)
    decreases j
  {
    AddrNext(base, segs, j - 1);
    if i < j - 1 { AddrGrows(base, segs, i, j - 1); }
  }

  /** nextSegment of segment i. */
  function NextOf(base: nat, segs: seq<Seg>, i: nat): nat
    requires i < |segs|
  {
    if i + 1 < |segs| then Addr(base, segs, i + 1) else 0
  }

  ghost predicate TileAt(m: Mem, base: nat, segs: seq<Seg>, i: nat)
    requires i < |segs|
  {
    var x := H(m, Addr(base, segs, i));
    x.len == segs[i].len && x.free == segs[i].free && x.next == NextOf(base, segs, i)
  }

  /** The segments follow each other along nextSegment without gap or overlap. */
  ghost predicate Tiles(m: Mem, base: nat, segs: seq<Seg>) {
    && segs != [] && Addr(base, segs, |segs|) <= WORD && Size(segs) < 0x8000_0000
    && (forall i {:trigger TileAt(m, base, segs, i)} :: 0 <= i < |segs| ==> TileAt(m, base, segs, i))
  }

  /** previousSegment is the segment before. */
  ghost predicate BackAt(m: Mem, base: nat, segs: seq<Seg>, i: nat)
    requires i < |segs|
  {
    H(m, Addr(base, segs, i)).prev == if i == 0 then 0 else Addr(base, segs, i - 1)
  }

  /** The free segments' addresses, in order. */
  function FreeOf(base: nat, segs: seq<Seg>): seq<nat>
    decreases |segs|
  {
    if segs == [] then []
    else (if segs[0].free then [base] else []) + FreeOf(base + HEADER + segs[0].len, segs[1..])
  }

  /** previousFreeSegment is the free segment before. */
  ghost predicate BackFreeAt(m: Mem, chain: seq<nat>, j: nat)
    requires j < |chain|
  {
    H(m, chain[j]).prevFree == if j == 0 then 0 else chain[j - 1]
  }

  /** The segments with segment k cut after `size` bytes. */
  function Cut(segs: seq<Seg>, k: nat, size: nat): seq<Seg>
    requires k < |segs| && segs[k].len >= size + HEADER
  {
    segs[..k] + [Seg(size, false), Seg(segs[k].len - HEADER - size, true)] + segs[k + 1..]
  }

  lemma CutAddr(base: nat, segs: seq<Seg>, k: nat, size: nat, i: nat)
    requires k < |segs| && segs[k].len >= size + HEADER && i <= |segs| + 1
    ensures Addr(base, Cut(segs, k, size), i) ==
      if i <= k then Addr(base, segs, i) else if i == k + 1 then Addr(base, segs, k) + HEADER + size else Addr(base, segs, i - 1)
  {
    var cut := Cut(segs, k, size);
    if i <= k {
      assert cut[..i] == segs[..i];
    } else {
      assert cut[..k] == segs[..k];
      AddrNext(base, cut, k);
      if i > k + 1 {
        AddrNext(base, cut, k + 1);
        AddrNext(base, segs, k);
        assert cut[..i] == cut[..k + 2] + segs[k + 1..i - 1];
        assert segs[..i - 1] == segs[..k + 1] + segs[k + 1..i - 1];
        SizeAdds(cut[..k + 2], segs[k + 1..i - 1]);
        SizeAdds(segs[..k + 1], segs[k + 1..i - 1]);
      }
    }
  }

  lemma {:induction false} FreeOfAdds(base: nat, a: seq<Seg>, b: seq<Seg>)
    ensures FreeOf(base, a + b) == FreeOf(base, a) + FreeOf(base + Size(a), b)
    decreases |a|
  {
    if a == [] {
      assert a + b == b;
    } else {
      assert (a + b)[1..] == a[1..] + b;
      FreeOfAdds(base + HEADER + a[0].len, a[1..], b);
    }
  }

  /** The free chain around segment k. */
  lemma FreeAround(base: nat, segs: seq<Seg>, k: nat)
    requires k < |segs| && segs[k].free
    ensures FreeOf(base, segs) ==
      FreeOf(base, segs[..k]) + [Addr(base, segs, k)] + FreeOf(Addr(base, segs, k + 1), segs[k + 1..])
  {
    assert segs == segs[..k] + segs[k..];
    FreeOfAdds(base, segs[..k], segs[k..]);
    AddrNext(base, segs, k);
    assert segs[k..][1..] == segs[k + 1..];
  }

  lemma {:induction false} FreeIsSegment(base: nat, segs: seq<Seg>, j: nat) returns (k: nat)
    requires j < |FreeOf(base, segs)|
    ensures k < |segs| && segs[k].free && Addr(base, segs, k) == FreeOf(base, segs)[j] && |FreeOf(base, segs[..k])| == j
    decreases |segs|
  {
    var here := if segs[0].free then 1 else 0;
    if j < here {
      k := 0;
    } else {
      k := FreeIsSegment(base + HEADER + segs[0].len, segs[1..], j - here);
      assert segs[..k + 1] == [segs[0]] + segs[1..][..k];
      SizeAdds([segs[0]], segs[1..][..k]);
      FreeOfAdds(base, [segs[0]], segs[1..][..k]);
      k := k + 1;
    }
  }
}
