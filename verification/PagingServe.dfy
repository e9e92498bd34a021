/** What the allocators map: palloc_kern at the direct pages, palloc_heap at the end of the heap. */
module PagingServe {
  import opened Common
  import opened Paging
  import opened PagingAlloc

  // ----- palloc_heap, while the heap's pages share the first directory slot

  /** The k free frames that come first are handed out at the heap's next pages, and nothing else changes. */
  ghost predicate Grown(s: Sys, r: Sys, k: nat) {
    && k <= |s.vm.free|
    && r.index == s.index + k && r.made == s.made
    && r.data == s.data + s.vm.free[..k] && r.vm.free == s.vm.free[k..]
    && (forall p {:trigger Translate(r.vm.mem, p)} :: 0 <= p < PAGES ==> Translate(r.vm.mem, p) == AfterGrowth(s, k, p))
  }

  function AfterGrowth(s: Sys, k: nat, p: nat): Option<nat>
    requires k <= |s.vm.free|
  {
    if s.index <= p < s.index + k then Some(s.vm.free[p - s.index] / PGSIZE) else Translate(s.vm.mem, p)
  }

  /** map_page when the page's slot is present: no frame is taken. */
  lemma MapPresent(q: Sys, pa: nat, va: nat)
    requires Valid(q.vm) && Mappable(pa, va) && Present(q.vm.mem, PdNo(va))
    ensures match Map(q, pa, va)
            case Ok(r, a) =>
              && a == va && r.index == q.index && r.data == q.data && r.made == q.made && r.vm.free == q.vm.free
              && Valid(r.vm) && Mapped(q.vm.mem, r.vm.mem, va / PGSIZE, pa / PGSIZE, [])
              && (forall t :: 0 <= t < SLOTS && Present(q.vm.mem, t) ==> Present(r.vm.mem, t))
            case _ => false
  {
    assert Slots(q.vm.mem, q.vm.free, PdNo(va)) == [];
    MapTakes(q, pa, va);
    AddressSplit(va);
    assert q.vm.free[..0] == [] && q.vm.free[0..] == q.vm.free;
    var v := Map(q, pa, va).s.vm;
    forall t | 0 <= t < SLOTS && Present(q.vm.mem, t) ensures Present(v.mem, t) {}
  }

  lemma HeapRoundGrows(s: Sys)
    requires Valid(s.vm) && s.vm.free != [] && s.index < SLOTS && Present(s.vm.mem, 0)
    ensures HeapRound(s).Ok? && HeapRound(s).addr == s.index * PGSIZE
    ensures var r := HeapRound(s).s; Grown(s, r, 1) && Valid(r.vm) && Present(r.vm.mem, 0)
  {
    var a, q := s.vm.free[0], TakePage(s);
    TakeValid(s);
    UserMappable(a, s.index);
    MapPresent(q, a, s.index * PGSIZE);
    assert s.vm.free[..1] == [a];
    GrowthOfOne(s, Map(q, a, s.index * PGSIZE).s.vm.mem);
  }

  lemma GrowthOfOne(s: Sys, v: Mem)
    requires s.vm.free != [] && Mapped(s.vm.mem, v, s.index, s.vm.free[0] / PGSIZE, [])
    ensures forall p {:trigger Translate(v, p)} :: 0 <= p < PAGES ==> Translate(v, p) == AfterGrowth(s, 1, p)
  {
    forall p | 0 <= p < PAGES ensures Translate(v, p) == AfterGrowth(s, 1, p) {
      assert !IsDirect([], p);
    }
  }

  lemma GrownThen(s: Sys, r: Sys, t: Sys, k: nat)
    requires Grown(s, r, 1) && Grown(r, t, k)
    ensures Grown(s, t, k + 1)
  {
    assert s.vm.free[..k + 1] == s.vm.free[..1] + r.vm.free[..k];
    forall p | 0 <= p < PAGES ensures Translate(t.vm.mem, p) == AfterGrowth(s, k + 1, p) {
      assert Translate(r.vm.mem, p) == AfterGrowth(s, 1, p);
    }
  }

  /** How palloc_heap ends when it still has n pages to map. */
  ghost predicate HeapGrew(s: Sys, how: Result, n: nat, must: bool, addr: nat) {
    match how
    case Ok(r, a) => n <= |s.vm.free| && Grown(s, r, n) && a == addr
    case NoMemory(r) => |s.vm.free| < n && !must && Grown(s, r, |s.vm.free|)
    case Halted(h) => |s.vm.free| < n && must && h == Panic
  }

  lemma GrewThen(s: Sys, r: Sys, how: Result, n: nat, must: bool, addr: nat)
    requires Grown(s, r, 1) && HeapGrew(r, how, n, must, addr)
    ensures HeapGrew(s, how, n + 1, must, addr)
  {
    match how
    case Ok(t, _) => GrownThen(s, r, t, n);
    case NoMemory(t) => GrownThen(s, r, t, |r.vm.free|);
    case Halted(_) =>
  }

  /**
   Heap growth, once the heap has its table: the pages from `index` on are mapped to the next
   free frames in order, nothing else changes and no table is made.  If frames run out after
   k pages, exactly k are mapped and counted.
   */
  lemma {:induction false} HeapGrowth(s: Sys, i: nat, n: nat, must: bool, ret: nat)
    requires Valid(s.vm) && i <= n && s.index + n - i <= SLOTS && Present(s.vm.mem, 0)
    ensures HeapGrew(s, HeapLoop(s, i, n, must, ret), n - i, must, if i == 0 < n then s.index * PGSIZE else ret)
    decreases n - i
  {
    if i < n && s.vm.free != [] {
      HeapRoundGrows(s);
      var r := HeapRound(s).s;
      var ret1 := if i == 0 then s.index * PGSIZE else ret;
      HeapGrowth(r, i + 1, n, must, ret1);
      assert HeapLoop(s, i, n, must, ret) == HeapLoop(r, i + 1, n, must, ret1);
      GrewThen(s, r, HeapLoop(r, i + 1, n, must, ret1), n - i - 1, must, ret1);
    } else {
      assert s.vm.free[..0] == [] && s.vm.free[0..] == s.vm.free;
    }
  }

  /** What init_heap_page did: page 0 is mapped to the first free frame, and the k after it became tables, at their direct pages. */
  ghost predicate Started(s: Sys, r: Sys, k: nat) {
    && k + 1 <= |s.vm.free| && r.index == 1 && Valid(r.vm) && Present(r.vm.mem, 0)
    && r.data == s.data + s.vm.free[..1] && r.made == s.made + s.vm.free[1..k + 1] && r.vm.free == s.vm.free[k + 1..]
    && Mapped(s.vm.mem, r.vm.mem, 0, s.vm.free[0] / PGSIZE, s.vm.free[1..k + 1])
  }

  /**
   init_heap_page maps page 0 and makes the heap's table, with the tables that this one needs, and
   changes no other page.  It panics without a frame, when tables use up the frames, and when the
   heap has been started before.
   */
  lemma HeapStarts(s: Sys)
    requires Valid(s.vm) && (s.index == 0 && s.vm.free != [] ==> Once(TakePage(s).vm, 0))
    ensures match InitHeapPage(s)
            case Ok(r, a) => s.index == 0 && a == 0 && s.vm.free != [] && Started(s, r, |Slots(s.vm.mem, s.vm.free[1..], 0)|)
            case NoMemory(_) => false
            case Halted(how) => how == Panic && (s.index != 0 || s.vm.free == [] || !Ends(s.vm.mem, s.vm.free[1..], 0))
  {
    if s.vm.free != [] && s.index == 0 {
      TakeValid(s);
      UserMappable(s.vm.free[0], 0);
      MapTakes(TakePage(s), s.vm.free[0], 0);
      AddressSplit(0);
      TailSlices(s.vm.free, |Slots(s.vm.mem, s.vm.free[1..], 0)| + 1);
    }
  }

  // ----- palloc_kern

  /**
   The k free frames that come first are used up, n of them as pages and the others as
   tables; all of them are mapped at their own direct pages, and nothing else changes.
   */
  ghost predicate Served(s: Sys, r: Sys, n: nat, k: nat) {
    && n <= k <= |s.vm.free| && r.vm.free == s.vm.free[k..] && r.index == s.index
    && s.data <= r.data && s.made <= r.made && |r.data| == |s.data| + n
    && (n > 0 ==> r.data[|s.data|] == s.vm.free[0])
    && multiset(r.data[|s.data|..]) + multiset(r.made[|s.made|..]) == multiset(s.vm.free[..k])
    && TablesStay(s.vm.mem, r.vm.mem)
    && (forall p {:trigger AfterService(s, k, p)} :: 0 <= p < PAGES ==> Translate(r.vm.mem, p) == AfterService(s, k, p))
  }

  ghost predicate TablesStay(m: Mem, r: Mem) {
    forall t {:trigger TableOf(r, t)} :: 0 <= t < SLOTS && Present(m, t) ==> Present(r, t) && TableOf(r, t) == TableOf(m, t)
  }

  function AfterService(s: Sys, k: nat, p: nat): Option<nat>
    requires k <= |s.vm.free|
  {
    if IsDirect(s.vm.free[..k], p) then Some(p - KERN_PAGE) else Translate(s.vm.mem, p)
  }

  /** The frames that one round of palloc_kern takes. */
  function RoundTakes(s: Sys): nat
    requires s.vm.free != []
  {
    |Slots(s.vm.mem, s.vm.free[1..], PdNo(Kptov(s.vm.free[0])))| + 1
  }

  /** How one round of palloc_kern ends. */
  ghost predicate RoundEnds(s: Sys, how: Result)
    requires s.vm.free != []
  {
    match how
    case Ok(r, a) =>
      a == Kptov(s.vm.free[0]) && Valid(r.vm) && Served(s, r, 1, RoundTakes(s)) && r.data == s.data + [s.vm.free[0]]
    case NoMemory(_) => false
    case Halted(h) => h == Panic
  }

  lemma KernRoundServes(s: Sys)
    requires Valid(s.vm) && s.vm.free != [] && Once(TakePage(s).vm, Kptov(s.vm.free[0]))
    ensures RoundEnds(s, KernRound(s))
  {
    var a, q := s.vm.free[0], TakePage(s);
    var k := RoundTakes(s);
    TakeValid(s);
    DirectAddress(a);
    MapTakes(q, a, Kptov(a));
    if KernRound(s).Ok? {
      TailSlices(s.vm.free, k);
      RefinesStay(q.vm, KernRound(s).s.vm, Kptov(a) / PGSIZE, a / PGSIZE);
      RoundServed(s, KernRound(s).s, k);
    }
  }

  lemma RefinesStay(vm: Vm, r: Vm, page: nat, frame: nat)
    requires Refines(vm, r, page, frame)
    ensures TablesStay(vm.mem, r.mem)
  {
    var slots := Slots(vm.mem, vm.free, page / SLOTS);
    forall t | 0 <= t < SLOTS && Present(vm.mem, t) ensures Present(r.mem, t) && TableOf(r.mem, t) == TableOf(vm.mem, t) {
      assert Present(r.mem, t) <==> Present(vm.mem, t) || t in slots;
    }
  }

  lemma DirectAddress(a: nat)
    requires a % PGSIZE == 0 && a / PGSIZE < DIRECT_FRAMES
    ensures Kptov(a) / PGSIZE == KPage(a / PGSIZE)
  {
    KptovPage(a / PGSIZE);
    assert a == a / PGSIZE * PGSIZE;
  }

  lemma TailSlices(q: seq<nat>, k: nat)
    requires 0 < k
    ensures k <= |q| ==> q[1..][..k - 1] == q[1..k] && q[1..][k - 1..] == q[k..]
  {
  }

  lemma RoundServed(s: Sys, r: Sys, k: nat)
    requires 0 < k <= |s.vm.free| && s.vm.free[0] % PGSIZE == 0 && s.vm.free[0] / PGSIZE < DIRECT_FRAMES
    requires Mapped(s.vm.mem, r.vm.mem, KPage(s.vm.free[0] / PGSIZE), s.vm.free[0] / PGSIZE, s.vm.free[1..k])
    requires r.vm.free == s.vm.free[k..] && r.index == s.index && TablesStay(s.vm.mem, r.vm.mem)
    requires r.data == s.data + [s.vm.free[0]] && r.made == s.made + s.vm.free[1..k]
    ensures Served(s, r, 1, k)
  {
    assert s.vm.free[..k] == [s.vm.free[0]] + s.vm.free[1..k];
    assert r.data[|s.data|..] == [s.vm.free[0]] && r.made[|s.made|..] == s.vm.free[1..k];
    ServiceOfOne(s, r.vm.mem, k);
  }

  lemma ServiceOfOne(s: Sys, v: Mem, k: nat)
    requires 0 < k <= |s.vm.free| && s.vm.free[0] % PGSIZE == 0 && s.vm.free[0] / PGSIZE < DIRECT_FRAMES
    requires Mapped(s.vm.mem, v, KPage(s.vm.free[0] / PGSIZE), s.vm.free[0] / PGSIZE, s.vm.free[1..k])
    ensures forall p {:trigger AfterService(s, k, p)} :: 0 <= p < PAGES ==> Translate(v, p) == AfterService(s, k, p)
  {
    var a := s.vm.free[0];
    KptovPage(a / PGSIZE);
    assert s.vm.free[..k] == [a] + s.vm.free[1..k] && a == a / PGSIZE * PGSIZE;
    forall p | 0 <= p < PAGES ensures Translate(v, p) == AfterService(s, k, p) {
      assert IsDirect(s.vm.free[..k], p) <==> p == KPage(a / PGSIZE) || IsDirect(s.vm.free[1..k], p);
    }
  }

  lemma AddUp(s: Sys, r: Sys, t: Sys, n: nat, k: nat, k1: nat)
    requires Served(s, r, 1, k1) && Served(r, t, n, k)
    ensures s.data <= t.data && s.made <= t.made && t.data[|s.data|] == s.vm.free[0]
    ensures k1 + k <= |s.vm.free|
    ensures multiset(t.data[|s.data|..]) + multiset(t.made[|s.made|..]) == multiset(s.vm.free[..k1 + k])
  {
    assert t.data[|s.data|..] == r.data[|s.data|..] + t.data[|r.data|..];
    assert t.made[|s.made|..] == r.made[|s.made|..] + t.made[|r.made|..];
    assert s.vm.free[..k1 + k] == s.vm.free[..k1] + r.vm.free[..k];
  }

  lemma ServedThen(s: Sys, r: Sys, t: Sys, n: nat, k: nat, k1: nat)
    requires Served(s, r, 1, k1) && Served(r, t, n, k)
    ensures Served(s, t, n + 1, k1 + k)
  {
    assert s.vm.free[..k1 + k] == s.vm.free[..k1] + r.vm.free[..k];
    AddUp(s, r, t, n, k, k1);
    forall u | 0 <= u < SLOTS && Present(s.vm.mem, u) ensures Present(t.vm.mem, u) && TableOf(t.vm.mem, u) == TableOf(s.vm.mem, u) {
      assert TableOf(r.vm.mem, u) == TableOf(s.vm.mem, u) && Present(r.vm.mem, u);
      assert TableOf(t.vm.mem, u) == TableOf(r.vm.mem, u);
    }
    forall p | 0 <= p < PAGES ensures Translate(t.vm.mem, p) == AfterService(s, k1 + k, p) {
      assert Translate(r.vm.mem, p) == AfterService(s, k1, p) && Translate(t.vm.mem, p) == AfterService(r, k, p);
      assert IsDirect(s.vm.free[..k1 + k], p) <==> IsDirect(s.vm.free[..k1], p) || IsDirect(r.vm.free[..k], p);
    }
  }

  /** How palloc_kern ends when it still has n pages to map and some frames go as tables. */
  ghost predicate KernServed(s: Sys, how: Result, n: nat, must: bool, addr: nat) {
    match how
    case Ok(r, a) => a == addr && exists k: nat :: Served(s, r, n, k)
    case NoMemory(r) => !must && r.vm.free == [] && exists m: nat, k: nat :: m < n && Served(s, r, m, k)
    case Halted(h) => h == Panic
  }

  lemma KernServedThen(s: Sys, r: Sys, how: Result, n: nat, must: bool, addr: nat, k1: nat)
    requires Served(s, r, 1, k1) && KernServed(r, how, n, must, addr)
    ensures KernServed(s, how, n + 1, must, addr)
  {
    match how
    case Ok(t, _) =>
      var k: nat :| Served(r, t, n, k);
      ServedThen(s, r, t, n, k, k1);
    case NoMemory(t) =>
      var m: nat, k: nat :| m < n && Served(r, t, m, k);
      ServedThen(s, r, t, m, k, k1);
    case Halted(_) =>
  }

  /** palloc_kern's answer from its i-th round on, if it gets that far. */
  function KernAnswer(s: Sys, i: nat, n: nat, ret: nat): nat {
    if i == 0 < n then Kptov(NextFree(s.vm.free)) else ret
  }

  /** palloc_kern's loop is at round i, and ends with `how`; from there on its chains are proper. */
  ghost predicate KernRuns(s: Sys, i: nat, n: nat, must: bool, ret: nat, how: Result, addr: nat) {
    && Valid(s.vm) && i <= n && KernOnce(s, i, n)
    && how == KernLoop(s, i, n, must, ret) && addr == KernAnswer(s, i, n, ret)
  }

  /**
   palloc_kern maps n free frames and the tables they need, each at its own direct page, and
   changes no other page.  It answers NO_ADDR only with no frame left, and what it had mapped
   by then stays mapped.
   */
  lemma {:induction false} KernService(s: Sys, i: nat, n: nat, must: bool, ret: nat, how: Result, addr: nat)
    requires KernRuns(s, i, n, must, ret, how, addr)
    ensures KernServed(s, how, n - i, must, addr)
    decreases n - i
  {
    if i == n || s.vm.free == [] {
      KernEnds(s, i, n, must, ret, how, addr);
    } else {
      FirstRound(s, i, n, must, ret, how, addr);
      if KernRound(s).Ok? {
        var r, k1 := KernRound(s).s, RoundTakes(s);
        KernService(r, i + 1, n, must, addr, how, addr);
        KernServedThen(s, r, how, n - i - 1, must, addr, k1);
      }
    }
  }

  lemma KernEnds(s: Sys, i: nat, n: nat, must: bool, ret: nat, how: Result, addr: nat)
    requires KernRuns(s, i, n, must, ret, how, addr) && (i == n || s.vm.free == [])
    ensures KernServed(s, how, n - i, must, addr)
  {
    ServedNothing(s);
  }

  /** What one round leaves to the rounds after it. */
  lemma FirstRound(s: Sys, i: nat, n: nat, must: bool, ret: nat, how: Result, addr: nat)
    requires KernRuns(s, i, n, must, ret, how, addr) && i < n && s.vm.free != []
    ensures match KernRound(s)
            case Ok(r, _) => Served(s, r, 1, RoundTakes(s)) && KernRuns(r, i + 1, n, must, addr, how, addr)
            case halted => how == Halted(Panic)
  {
    KernRoundServes(s);
    if KernRound(s).Ok? {
      KernUnroll(s, i, n, must, ret, KernRound(s).s, addr);
    }
  }

  lemma KernUnroll(s: Sys, i: nat, n: nat, must: bool, ret: nat, r: Sys, ret1: nat)
    requires i < n && s.vm.free != [] && KernRound(s).Ok?
    requires r == KernRound(s).s && ret1 == if i == 0 then KernRound(s).addr else ret
    ensures KernLoop(s, i, n, must, ret) == KernLoop(r, i + 1, n, must, ret1)
  {
  }

  lemma ServedNothing(s: Sys)
    ensures Served(s, s, 0, 0)
  {
    assert s.vm.free[..0] == [] && s.vm.free[0..] == s.vm.free && s.data[|s.data|..] == [] && s.made[|s.made|..] == [];
    forall p: nat ensures !IsDirect([], p) {}
  }
}
