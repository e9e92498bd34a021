/** The heap from initialiseHeap on: which runs of malloc are served, that they are safe, and how the others end. */
module HeapRuns {
  import opened Common
  import opened Heap
  import opened HeapSplit
  import opened HeapTheorems
  import opened Words

  /** Rounding goes up to eight bytes, except that the last seven sizes wrap to zero. */
  lemma RoundedExact(request: nat)
    requires request < WORD
    ensures Rounded(request) % 8 == 0 && Rounded(request) < WORD
    ensures Rounded(request) >= request <==> request <= WORD - 8
    ensures if request <= WORD - 8 then Rounded(request) < request + 8 else Rounded(request) == 0
  {
  }

  /** The heap after some calls, and the addresses they answered. */
  datatype Trace = Trace(h: State, blocks: seq<nat>)

  function Initial(m: Mem, base: nat, length: nat): State {
    State(m[base := Header(Int32(length - HEADER), 0, 0, 0, 0, true)], base)
  }

  /** malloc on a heap with one free segment, when that has room for a header besides. */
  function Serve(h: State, request: nat): Outcome {
    if H(h.mem, h.first).len < Rounded(request) + HEADER then NoFit else MallocSpec(h, [h.first], request)
  }

  /** A run of malloc calls that all split with room for a header; None for any other run (RunGoesIff). */
  function Exec(h: State, requests: seq<nat>): Option<Trace>
    decreases |requests|
  {
    if requests == [] then Some(Trace(h, []))
    else
      var n := |requests| - 1;
      match Exec(h, requests[..n])
      case None => None
      case Some(t) =>
        match Serve(t.h, requests[n])
        case NoFit => None
        case Block(a, r) => Some(Trace(r, t.blocks + [a]))
  }

  function Used(requests: seq<nat>): (segs: seq<Seg>)
    ensures |segs| == |requests|
  {
    seq(|requests|, (i: nat) requires i < |requests| => Seg(Rounded(requests[i]), false))
  }

  /** The segments after the requests: one for each, and the rest of the region. */
  function After(requests: seq<nat>, rest: nat): seq<Seg> { Used(requests) + [Seg(rest, true)] }

  lemma {:induction false} NoFreeSegment(base: nat, segs: seq<Seg>)
    requires forall i :: 0 <= i < |segs| ==> !segs[i].free
    ensures FreeOf(base, segs) == []
    decreases |segs|
  {
    if segs != [] { NoFreeSegment(base + HEADER + segs[0].len, segs[1..]); }
  }

  lemma OnlyLastFree(base: nat, requests: seq<nat>, rest: nat)
    ensures var segs, k := After(requests, rest), |requests|;
      FreeOf(base, segs) == [Addr(base, segs, k)] && FreeOf(base, segs[..k]) == []
  {
    var segs, k := After(requests, rest), |requests|;
    FreeAround(base, segs, k);
    NoFreeSegment(base, segs[..k]);
    assert segs[k + 1..] == [];
  }

  /** The heap after these requests: allocated segments and one free one at the end. */
  ghost predicate RunOk(h: State, base: nat, length: nat, requests: seq<nat>, rest: nat) {
    var segs, k := After(requests, rest), |requests|;
    && Heaped(h, base, segs) && Size(segs) == length
    && BackAt(h.mem, base, segs, k) && H(h.mem, Addr(base, segs, k)).prevFree == 0
  }

  lemma InitialOk(m: Mem, base: nat, length: nat)
    requires HEADER <= length < 0x8000_0000 && base + length <= WORD
    ensures RunOk(Initial(m, base, length), base, length, [], length - HEADER)
  {
    var segs := After([], length - HEADER);
    assert segs == [Seg(length - HEADER, true)];
    assert segs[..0] == [] && segs[..1] == segs;
    assert Size(segs[1..]) == 0;
    OnlyLastFree(base, [], length - HEADER);
    assert TileAt(Initial(m, base, length).mem, base, segs, 0);
  }

  lemma RunFirst(h: State, base: nat, length: nat, requests: seq<nat>, rest: nat)
    requires RunOk(h, base, length, requests, rest)
    ensures var segs, k := After(requests, rest), |requests|;
      && h.first == Addr(base, segs, k) && H(h.mem, h.first).len == rest < 0x8000_0000
      && FreeOf(base, segs) == [h.first] && Located(h, base, segs, k, 0) && h.first + HEADER + rest <= WORD
  {
    var segs, k := After(requests, rest), |requests|;
    OnlyLastFree(base, requests, rest);
    assert TileAt(h.mem, base, segs, k);
    AddrGrows(0, segs, k, |segs|);
    AddrNext(base, segs, k);
    assert segs[..|segs|] == segs;
  }

  lemma CutLast(requests: seq<nat>, request: nat, rest: nat)
    requires rest >= Rounded(request) + HEADER
    ensures Cut(After(requests, rest), |requests|, Rounded(request)) ==
      After(requests + [request], rest - HEADER - Rounded(request))
  {
  }

  lemma ServeOk(h: State, base: nat, length: nat, requests: seq<nat>, rest: nat, request: nat)
    requires RunOk(h, base, length, requests, rest) && rest >= Rounded(request) + HEADER
    ensures var segs, k := After(requests, rest), |requests|;
      match Serve(h, request)
      case NoFit => false
      case Block(a, r) => a == Addr(base, segs, k) + HEADER
                          && RunOk(r, base, length, requests + [request], rest - HEADER - Rounded(request))
  {
    RunFirst(h, base, length, requests, rest);
    SplitOk(h, base, length, requests, rest, request);
    ServesFirst(h, request, rest);
  }

  lemma ServesFirst(h: State, request: nat, rest: nat)
    requires H(h.mem, h.first).len == rest < 0x8000_0000 && rest >= Rounded(request) + HEADER && h.first + HEADER + rest <= WORD
    ensures Serve(h, request) == Block(h.first + HEADER, Split(h, h.first, Rounded(request)))
  {
  }

  lemma SplitOk(h: State, base: nat, length: nat, requests: seq<nat>, rest: nat, request: nat)
    requires RunOk(h, base, length, requests, rest) && rest >= Rounded(request) + HEADER
    ensures RunOk(Split(h, h.first, Rounded(request)), base, length, requests + [request], rest - HEADER - Rounded(request))
  {
    var segs, k, size := After(requests, rest), |requests|, Rounded(request);
    RunFirst(h, base, length, requests, rest);
    SplitKeeps(h, base, segs, k, 0, size);
    LocatedClear(h, base, segs, k, 0, size);
    SplitCuts(h, base, segs, k, size);
    CutAfter(base, requests, rest, request);
    assert segs[..k + 1] == segs;
  }

  /** Where the cut segment and its remainder are. */
  lemma CutAfter(base: nat, requests: seq<nat>, rest: nat, request: nat)
    requires rest >= Rounded(request) + HEADER
    ensures var segs, k, size := After(requests, rest), |requests|, Rounded(request);
      && Cut(segs, k, size) == After(requests + [request], rest - HEADER - size)
      && Size(Cut(segs, k, size)) == Size(segs)
      && Addr(base, Cut(segs, k, size), k) == Addr(base, segs, k)
      && Addr(base, Cut(segs, k, size), k + 1) == Addr(base, segs, k) + HEADER + size
  {
    var segs, k, size := After(requests, rest), |requests|, Rounded(request);
    CutLast(requests, request, rest);
    SizeOfCut(segs, k, size);
    CutAddr(base, segs, k, size, k + 1);
    CutAddr(base, segs, k, size, k);
    AddrNext(base, segs, k);
  }

  /** The blocks of these requests, in order from the base. */
  ghost predicate Placed(blocks: seq<nat>, base: nat, requests: seq<nat>, rest: nat) {
    && |blocks| == |requests|
    && (forall i {:trigger blocks[i]} :: 0 <= i < |requests| ==> blocks[i] == Addr(base, After(requests, rest), i) + HEADER)
  }

  lemma PlacedThen(blocks: seq<nat>, base: nat, requests: seq<nat>, rest: nat, request: nat, next: nat)
    requires Placed(blocks, base, requests, rest)
    ensures Placed(blocks + [Addr(base, After(requests, rest), |requests|) + HEADER], base, requests + [request], next)
  {
    forall i | 0 <= i <= |requests|
      ensures Addr(base, After(requests + [request], next), i) == Addr(base, After(requests, rest), i)
    {
      assert After(requests + [request], next)[..i] == After(requests, rest)[..i];
    }
  }

  lemma {:induction false} ExecOk(m: Mem, base: nat, length: nat, requests: seq<nat>) returns (rest: nat)
    requires HEADER <= length < 0x8000_0000 && base + length <= WORD
    requires Exec(Initial(m, base, length), requests).Some?
    ensures var t := Exec(Initial(m, base, length), requests).value;
      RunOk(t.h, base, length, requests, rest) && Placed(t.blocks, base, requests, rest)
    decreases |requests|
  {
    if requests == [] {
      InitialOk(m, base, length);
      rest := length - HEADER;
    } else {
      var n := |requests| - 1;
      var before := ExecOk(m, base, length, requests[..n]);
      var t := Exec(Initial(m, base, length), requests[..n]).value;
      rest := ServeStep(t, base, length, requests[..n], before, requests[n]);
      assert requests[..n] + [requests[n]] == requests;
    }
  }

  lemma ServeStep(t: Trace, base: nat, length: nat, requests: seq<nat>, before: nat, request: nat) returns (rest: nat)
    requires RunOk(t.h, base, length, requests, before) && Placed(t.blocks, base, requests, before)
    requires Serve(t.h, request).Block?
    ensures RunOk(Serve(t.h, request).h, base, length, requests + [request], rest)
    ensures Placed(t.blocks + [Serve(t.h, request).addr], base, requests + [request], rest)
  {
    RunFirst(t.h, base, length, requests, before);
    ServeOk(t.h, base, length, requests, before, request);
    rest := before - HEADER - Rounded(request);
    PlacedThen(t.blocks, base, requests, before, request, rest);
  }

  /** Where block i lies. */
  lemma BlockInside(base: nat, requests: seq<nat>, rest: nat, i: nat, j: nat)
    requires i < j <= |requests|
    ensures var segs := After(requests, rest);
      base <= Addr(base, segs, i) && Addr(base, segs, i) + HEADER + Rounded(requests[i]) <= Addr(base, segs, j)
  {
    assert After(requests, rest)[i].len == Rounded(requests[i]);
    AddrGrows(base, After(requests, rest), i, j);
  }

  lemma LastSegment(base: nat, length: nat, requests: seq<nat>, rest: nat)
    requires Size(After(requests, rest)) == length
    ensures Addr(base, After(requests, rest), |requests|) + HEADER + rest == base + length
  {
    var segs := After(requests, rest);
    assert segs[..|segs|] == segs;
    AddrNext(base, segs, |requests|);
  }

  lemma NextAligned(a: nat, request: nat)
    ensures (a + HEADER + Rounded(request)) % 8 == a % 8
  {
  }

  lemma {:induction false} Aligned(base: nat, requests: seq<nat>, rest: nat, i: nat)
    requires i <= |requests|
    ensures Addr(base, After(requests, rest), i) % 8 == base % 8
    decreases i
  {
    if i > 0 {
      Aligned(base, requests, rest, i - 1);
      AddrNext(base, After(requests, rest), i - 1);
      NextAligned(Addr(base, After(requests, rest), i - 1), requests[i - 1]);
    } else {
      assert After(requests, rest)[..0] == [];
    }
  }

  /** Block i is inside the region and aligned with its base. */
  ghost predicate BlockSafe(block: nat, request: nat, base: nat, length: nat) {
    base + HEADER <= block && block + Rounded(request) + HEADER <= base + length && (base % 8 == 0 ==> block % 8 == 0)
  }

  /** Block a and the header behind it end before block b. */
  ghost predicate Before(a: nat, request: nat, b: nat) { a + Rounded(request) + HEADER <= b }

  lemma PlacedBlock(blocks: seq<nat>, base: nat, length: nat, requests: seq<nat>, rest: nat, i: nat)
    requires Placed(blocks, base, requests, rest) && Size(After(requests, rest)) == length && i < |requests|
    ensures BlockSafe(blocks[i], requests[i], base, length)
    ensures forall j {:trigger blocks[j]} :: i < j < |requests| ==> Before(blocks[i], requests[i], blocks[j])
  {
    LastSegment(base, length, requests, rest);
    BlockInside(base, requests, rest, i, |requests|);
    Aligned(base, requests, rest, i);
    forall j | i < j < |requests| ensures Before(blocks[i], requests[i], blocks[j]) {
      BlockInside(base, requests, rest, i, j);
    }
  }

  /** What the requests take of the region, a header each. */
  function Needed(requests: seq<nat>): nat
    decreases |requests|
  {
    if requests == [] then 0
    else Needed(requests[..|requests| - 1]) + HEADER + Rounded(requests[|requests| - 1])
  }

  lemma {:induction false} SizeAfter(requests: seq<nat>, rest: nat)
    ensures Size(After(requests, rest)) == Needed(requests) + HEADER + rest
    decreases |requests|
  {
    if requests == [] {
      assert After([], rest)[1..] == [];
    } else {
      var n := |requests| - 1;
      SizeAfter(requests[..n], 0);
      var segs, before := After(requests, rest), After(requests[..n], 0);
      assert before == segs[..n] + [Seg(0, true)] && segs == segs[..n] + [segs[n], Seg(rest, true)];
      SizeAdds(segs[..n], [Seg(0, true)]);
      SizeAdds(segs[..n], [segs[n], Seg(rest, true)]);
      SizeTwo(segs[n], Seg(rest, true));
    }
  }

  lemma SizeTwo(a: Seg, b: Seg)
    ensures Size([b]) == HEADER + b.len && Size([a, b]) == 2 * HEADER + a.len + b.len
  {
    assert [b][1..] == [] && [a, b][1..] == [b];
  }

  /** A run goes through if and only if its rounded sizes, with a header each and one more, fit the region. */
  lemma {:induction false} RunGoesIff(m: Mem, base: nat, length: nat, requests: seq<nat>)
    requires HEADER <= length < 0x8000_0000 && base + length <= WORD
    ensures Exec(Initial(m, base, length), requests).Some? <==> Needed(requests) + HEADER <= length
    decreases |requests|
  {
    if requests != [] {
      var n := |requests| - 1;
      RunGoesIff(m, base, length, requests[..n]);
      if Exec(Initial(m, base, length), requests[..n]).Some? {
        var rest := ExecOk(m, base, length, requests[..n]);
        SizeAfter(requests[..n], rest);
        ServeGoesIff(Exec(Initial(m, base, length), requests[..n]).value.h, base, length, requests[..n], rest, requests[n]);
      }
    }
  }

  lemma ServeGoesIff(h: State, base: nat, length: nat, requests: seq<nat>, rest: nat, request: nat)
    requires RunOk(h, base, length, requests, rest)
    ensures Serve(h, request).Block? <==> rest >= Rounded(request) + HEADER
  {
    RunFirst(h, base, length, requests, rest);
    if rest >= Rounded(request) + HEADER { ServeOk(h, base, length, requests, rest, request); }
  }

  /** malloc on the one free segment n is answered behind its header. */
  ghost predicate ServedBehind(r: State, n: nat, request: nat) {
    MallocSpec(r, [n], request).Block? && MallocSpec(r, [n], request).addr == (n + HEADER) % WORD
  }

  /** The only free header, at n, holds a negative length: no segments tile the heap, and almost any request is served there. */
  ghost predicate Torn(r: State, base: nat, n: nat) {
    && H(r.mem, n).len < 0 && (forall segs :: !Tiles(r.mem, base, segs))
    && (forall request: nat {:trigger ServedBehind(r, n, request)} :: request <= WORD - HEADER ==> ServedBehind(r, n, request))
  }

  /** How malloc ends when `used` bytes of the region are taken and a request of rounded size `size` is the first that does not go. */
  ghost predicate Stops(how: Outcome, base: nat, length: nat, used: nat, size: nat) {
    match how
    case NoFit => used + HEADER + size > length
    case Block(a, r) =>
      used + HEADER + size <= length && a == base + used + HEADER && Torn(r, base, base + used + HEADER + size)
  }

  /**
   The first request for which a run does not go through.  malloc finds nothing if it is longer
   than what is left; if it fits but has no room for a header, malloc serves it and tears the
   heap: the next header goes behind the block, and later calls are answered behind that one.
   */
  lemma RunStops(m: Mem, base: nat, length: nat, requests: seq<nat>, request: nat)
    requires HEADER <= length < 0x8000_0000 && base + length < WORD
    requires Exec(Initial(m, base, length), requests).Some? && Exec(Initial(m, base, length), requests + [request]) == None
    ensures var h := Exec(Initial(m, base, length), requests).value.h;
      Stops(MallocSpec(h, [h.first], request), base, length, Needed(requests), Rounded(request))
  {
    RunGoesIff(m, base, length, requests);
    RunGoesIff(m, base, length, requests + [request]);
    NeededMore(requests, request);
    var rest := ExecOk(m, base, length, requests);
    SizeAfter(requests, rest);
    StopsLast(Exec(Initial(m, base, length), requests).value.h, base, length, requests, rest, request);
  }

  lemma StopsLast(h: State, base: nat, length: nat, requests: seq<nat>, rest: nat, request: nat)
    requires RunOk(h, base, length, requests, rest) && base + length < WORD && rest < Rounded(request) + HEADER
    ensures Stops(MallocSpec(h, [h.first], request), base, length, Needed(requests), Rounded(request))
  {
    RunFirst(h, base, length, requests, rest);
    LastSegment(base, length, requests, rest);
    SizeAfter(requests, rest);
    OnlyAnswer(h, Rounded(request), rest);
    if Rounded(request) <= rest { Tears(h, base, length, requests, rest, Rounded(request)); }
  }

  /** malloc on a chain of one segment. */
  lemma OnlyAnswer(h: State, size: nat, rest: nat)
    requires H(h.mem, h.first).len == rest < 0x8000_0000 && h.first + HEADER < WORD
    ensures Allocate(h, [h.first], size) == if size <= rest then Block(h.first + HEADER, Split(h, h.first, size)) else NoFit
  {
  }

  lemma Tears(h: State, base: nat, length: nat, requests: seq<nat>, rest: nat, size: nat)
    requires RunOk(h, base, length, requests, rest) && base + length < WORD && size <= rest < size + HEADER
    ensures Torn(Split(h, h.first, size), base, h.first + HEADER + size)
  {
    var segs := After(requests, rest);
    RunFirst(h, base, length, requests, rest);
    AddrEnd(base, segs);
    SplitTilesIff(h, base, segs, |requests|, 0, size);
    NoRoom(h, base, segs, |requests|, 0, size);
    TornAt(Split(h, h.first, size), base, h.first + HEADER + size);
  }

  lemma NeededMore(requests: seq<nat>, request: nat)
    ensures Needed(requests + [request]) == Needed(requests) + HEADER + Rounded(request)
  {
    assert (requests + [request])[..|requests|] == requests;
  }

  lemma AddrEnd(base: nat, segs: seq<Seg>)
    ensures Addr(base, segs, |segs|) == base + Size(segs)
  {
    assert segs[..|segs|] == segs;
  }

  lemma TornAt(r: State, base: nat, n: nat)
    requires H(r.mem, n).len < 0 && (forall s: nat {:trigger Fits(r.mem, n, s)} :: s <= WORD - HEADER ==> Fits(r.mem, n, s))
    requires !exists segs :: Tiles(r.mem, base, segs)
    ensures Torn(r, base, n)
  {
    forall request: nat | request <= WORD - HEADER ensures ServedBehind(r, n, request) {
      assert Fits(r.mem, n, Rounded(request));
    }
  }

  /**
   The kernel's own heap is one page at address 0.  A request of 4056 bytes is served although
   the next header then goes across the page's end, and the call after it is answered beyond it.
   */
  lemma KernelHeapTears(m: Mem)
    ensures match MallocSpec(Initial(m, 0, 4096), [0], 4056)
            case NoFit => false
            case Block(a, r) => a == 24 && Torn(r, 0, 4080) && MallocSpec(r, [4080], 8).Block? && MallocSpec(r, [4080], 8).addr == 4104
  {
    InitialOk(m, 0, 4096);
    StopsLast(Initial(m, 0, 4096), 0, 4096, [], 4072, 4056);
    var r := MallocSpec(Initial(m, 0, 4096), [0], 4056).h;
    assert ServedBehind(r, 4080, 8);
  }

  /** Safe, disjoint blocks in a tiled region whose only free segment is the last one. */
  ghost predicate SafeHeap(t: Trace, base: nat, length: nat, requests: seq<nat>, rest: nat) {
    var segs := After(requests, rest);
    && |t.blocks| == |requests|
    && (forall i {:trigger t.blocks[i]} :: 0 <= i < |requests| ==> BlockSafe(t.blocks[i], requests[i], base, length))
    && (forall i, j {:trigger t.blocks[i], t.blocks[j]} :: 0 <= i < j < |requests| ==>
          Before(t.blocks[i], requests[i], t.blocks[j]))
    && Tiles(t.h.mem, base, segs) && Size(segs) == length
    && Forward(t.h, [t.h.first]) && t.h.first + HEADER + rest == base + length
  }

  /**
   Whole-run safety: after any run of malloc from initialiseHeap whose rounded sizes fit with a
   header each and one more, the blocks are inside the region, disjoint from each other and from the
   headers between them, and aligned with the base; lengths and headers add up to the region;
   and the only free segment is the last one, at firstFreeSegment.
   */
  lemma RunIsSafe(m: Mem, base: nat, length: nat, requests: seq<nat>) returns (rest: nat)
    requires Needed(requests) + HEADER <= length < 0x8000_0000 && base + length <= WORD
    ensures Exec(Initial(m, base, length), requests).Some?
    ensures SafeHeap(Exec(Initial(m, base, length), requests).value, base, length, requests, rest)
    ensures rest == length - HEADER - Needed(requests)
  {
    RunGoesIff(m, base, length, requests);
    rest := ExecOk(m, base, length, requests);
    var t := Exec(Initial(m, base, length), requests).value;
    RunFirst(t.h, base, length, requests, rest);
    LastSegment(base, length, requests, rest);
    SizeAfter(requests, rest);
    forall i | 0 <= i < |requests|
      ensures BlockSafe(t.blocks[i], requests[i], base, length)
      ensures forall j {:trigger t.blocks[j]} :: i < j < |requests| ==> Before(t.blocks[i], requests[i], t.blocks[j])
    {
      PlacedBlock(t.blocks, base, length, requests, rest, i);
    }
  }
}
