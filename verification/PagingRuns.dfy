/**
 Runs of map_page and unmap_page as updates of one abstract table from pages to frames.
 What a call does to the directory and to the free frames does not depend on the rest of
 memory: a book of the directory's tables and the free frames foretells it.
 */
module PagingRuns {
  import opened Common
  import opened Paging
  import opened PagingAlloc
  import opened PagingExact
  import opened PagingOutcome

  /** The tables of the present directory slots, and the addresses of the free frames. */
  datatype Book = Book(tables: map<nat, nat>, free: seq<nat>)

  ghost function BookOf(vm: Vm): Book {
    Book((map s: nat | s < SLOTS && Present(vm.mem, s) :: TableOf(vm.mem, s)), vm.free)
  }

  /** The slots for which map_page has to make a table, as the book has them. */
  function SlotsIn(present: set<nat>, free: seq<nat>, slot: nat): (r: seq<nat>)
    ensures |r| <= |free|
  {
    if slot in present || free == [] then []
    else [slot] + SlotsIn(present, free[1..], DirectSlot(free[0] / PGSIZE))
  }

  predicate EndsIn(present: set<nat>, free: seq<nat>, slot: nat) {
    slot in present || (free != [] && EndsIn(present, free[1..], DirectSlot(free[0] / PGSIZE)))
  }

  function NewSlots(b: Book, va: nat): (r: seq<nat>)
    ensures |r| <= |b.free|
  {
    SlotsIn(b.tables.Keys, b.free, PdNo(va))
  }

  /** The tables after map_page: free frame i went to slot i of the chain. */
  function Entered(b: Book, slots: seq<nat>): map<nat, nat>
    requires |slots| <= |b.free|
  {
    map s: nat | s in b.tables.Keys + (set t: nat | t in slots) ::
      if s in slots then b.free[First(slots, s)] / PGSIZE else b.tables[s]
  }

  /** The pages through which the kernel edits the tables. */
  ghost predicate EditPage(b: Book, page: nat) {
    page == PD_PAGE || exists s :: s in b.tables && page == KPage(b.tables[s])
  }

  predicate Edits(op: Op) { op.MapOne? || op.UnmapOne? || op.ClearLow? }

  function NextBook(b: Book, op: Op): Book {
    match op
    case MapOne(_, va) => Book(Entered(b, NewSlots(b, va)), b.free[|NewSlots(b, va)|..])
    case ClearLow => b.(tables := map s: nat | s in b.tables && s >= IDENTITY_SLOTS :: b.tables[s])
    case _ => b
  }

  /** Arguments a caller may pass. */
  predicate EditsInRange(op: Op) {
    match op
    case MapOne(pa, va) => Mappable(pa, va)
    case UnmapOne(va) => va < ADDRESSES
    case ClearLow => true
    case _ => false
  }

  /**
   The frame at which a map_page puts page p, if it does: of the calls in its chain, the one
   whose entry in p's slot stays is the first that came across the slot, or else the last call.
   */
  function Put(b: Book, pa: nat, va: nat, p: nat): Option<nat> {
    var slots := NewSlots(b, va);
    var i := if p / SLOTS in slots then First(slots, p / SLOTS) else |slots|;
    if p == PageAt(b.free, va / PGSIZE, i) then Some(FrameAt(b.free, pa / PGSIZE, i)) else None
  }

  /** What an operation says of a page: nothing, or its new translation. */
  function Says(b: Book, op: Op, p: nat): Option<Option<nat>> {
    match op
    case MapOne(pa, va) => if Put(b, pa, va, p).Some? then Some(Put(b, pa, va, p)) else None
    case UnmapOne(va) => if va != 0 && p == va / PGSIZE then Some(None) else None
    case ClearLow => if p / SLOTS < IDENTITY_SLOTS then Some(None) else None
    case _ => None
  }

  function After(b: Book, op: Op, before: Option<nat>, p: nat): Option<nat> {
    match Says(b, op, p)
    case Some(x) => x
    case None => before
  }

  function BookAfter(b: Book, ops: seq<Op>): Book
    decreases |ops|
  {
    if ops == [] then b else NextBook(BookAfter(b, ops[..|ops| - 1]), ops[|ops| - 1])
  }

  /** The abstract table: the last operation that says something of a page decides. */
  function Expected(start: Option<nat>, b: Book, ops: seq<Op>, p: nat): Option<nat>
    decreases |ops|
  {
    if ops == [] then start
    else After(BookAfter(b, ops[..|ops| - 1]), ops[|ops| - 1], Expected(start, b, ops[..|ops| - 1], p), p)
  }

  /** The calls that are done and leave the tables editable, as the book has them. */
  ghost predicate Goes(b: Book, op: Op) {
    match op
    case MapOne(pa, va) =>
      && Mappable(pa, va) && EndsIn(b.tables.Keys, b.free, PdNo(va))
      && !Adjacent(NewSlots(b, va)) && Tidy(b.free, va / PGSIZE, NewSlots(b, va))
    case UnmapOne(va) => va == 0 || (va < ADDRESSES && !EditPage(b, va / PGSIZE))
    case _ => true
  }

  ghost predicate AllGo(b: Book, ops: seq<Op>)
    decreases |ops|
  {
    ops == [] || (AllGo(b, ops[..|ops| - 1]) && Goes(BookAfter(b, ops[..|ops| - 1]), ops[|ops| - 1]))
  }

  // ----- one call

  lemma {:induction false} SlotsMatch(vm: Vm, free: seq<nat>, slot: nat)
    requires slot < SLOTS
    ensures SlotsIn(BookOf(vm).tables.Keys, free, slot) == Slots(vm.mem, free, slot)
    ensures EndsIn(BookOf(vm).tables.Keys, free, slot) == Ends(vm.mem, free, slot)
    decreases |free|
  {
    assert slot in BookOf(vm).tables.Keys <==> Present(vm.mem, slot);
    if free != [] { SlotsMatch(vm, free[1..], DirectSlot(free[0] / PGSIZE)); }
  }

  ghost predicate Edited(m: Mem, r: Mem, b: Book, op: Op) {
    forall p {:trigger Translate(r, p)} :: 0 <= p < PAGES ==> Translate(r, p) == After(b, op, Translate(m, p), p)
  }

  /** The pages after a successful call, slots repeated or not. */
  lemma PutExact(vm: Vm, r: Mem, pa: nat, va: nat, p: nat)
    requires Traced(vm, r, va / PGSIZE, pa / PGSIZE) && va < ADDRESSES && p < PAGES && Ends(vm.mem, vm.free, va / PGSIZE / SLOTS)
    requires NewSlots(BookOf(vm), va) == Slots(vm.mem, vm.free, va / PGSIZE / SLOTS)
    ensures Translate(r, p) == After(BookOf(vm), MapOne(pa, va), Translate(vm.mem, p), p)
  {
    var slots, page, frame, s := Slots(vm.mem, vm.free, va / PGSIZE / SLOTS), va / PGSIZE, pa / PGSIZE, p / SLOTS;
    if s in slots {
      NewTable(vm, r, page, frame, s);
      var i := First(slots, s);
      SlotAt(vm.mem, vm.free, page, i);
      assert OneEntry(r, vm.free[i] / PGSIZE, PageAt(vm.free, page, i) % SLOTS);
      assert At(r, vm.free[i] / PGSIZE, PageAt(vm.free, page, i) % SLOTS) == Entry(true, FrameAt(vm.free, frame, i));
      OneEntryAt(r, vm.free[i] / PGSIZE, PageAt(vm.free, page, i), FrameAt(vm.free, frame, i), p);
    } else {
      assert At(r, PD_FRAME, s) == EntryAfter(vm, slots, s);
      LastPresent(vm.mem, vm.free, page);
    }
  }

  lemma OneEntryAt(r: Mem, g: nat, q: nat, h: nat, p: nat)
    requires p / SLOTS == q / SLOTS && At(r, PD_FRAME, q / SLOTS) == Entry(true, g)
    requires OneEntry(r, g, q % SLOTS) && At(r, g, q % SLOTS) == Entry(true, h)
    ensures Translate(r, p) == if p == q then Some(h) else None
  {
    if p != q { assert !At(r, g, p % SLOTS).present; }
  }

  lemma MapEdits(q: Sys, pa: nat, va: nat)
    requires Valid(q.vm) && Goes(BookOf(q.vm), MapOne(pa, va))
    ensures var op, b := MapOne(pa, va), BookOf(q.vm);
      && Do(q, op).Ok? && Valid(Do(q, op).s.vm)
      && BookOf(Do(q, op).s.vm) == NextBook(b, op) && Edited(q.vm.mem, Do(q, op).s.vm.mem, b, op)
  {
    AddressSplit(va);
    SlotsMatch(q.vm, q.vm.free, PdNo(va));
    MapPageAlways(q.vm, pa, va);
    MapPageOutcome(q.vm, pa, va);
    MapPageTrace(q.vm, pa, va);
    RowsAndPages(q.vm, pa, va);
    var r := Do(q, MapOne(pa, va)).s.vm;
    forall p | 0 <= p < PAGES ensures Translate(r.mem, p) == After(BookOf(q.vm), MapOne(pa, va), Translate(q.vm.mem, p), p) {
      PutExact(q.vm, r.mem, pa, va, p);
    }
    TracedBook(q.vm, r, pa, va);
  }

  predicate Agree(t: map<nat, nat>, u: map<nat, nat>, s: nat) { (s in t <==> s in u) && (s in t ==> t[s] == u[s]) }

  lemma SameMap(t: map<nat, nat>, u: map<nat, nat>)
    requires forall s: nat {:trigger Agree(t, u, s)} :: Agree(t, u, s)
    ensures t == u
  {
    forall s: nat ensures s in t <==> s in u { assert Agree(t, u, s); }
    forall s | s in t ensures t[s] == u[s] { assert Agree(t, u, s); }
  }

  lemma TracedBook(vm: Vm, r: Vm, pa: nat, va: nat)
    requires va < ADDRESSES && Trace(vm, r.mem, va / PGSIZE, pa / PGSIZE)
    requires NewSlots(BookOf(vm), va) == Slots(vm.mem, vm.free, va / PGSIZE / SLOTS)
    requires r.free == vm.free[|NewSlots(BookOf(vm), va)|..]
    ensures BookOf(r) == NextBook(BookOf(vm), MapOne(pa, va))
  {
    forall s: nat ensures Agree(BookOf(r).tables, Entered(BookOf(vm), NewSlots(BookOf(vm), va)), s) {
      TracedTable(vm, r, pa, va, s);
    }
    SameMap(BookOf(r).tables, Entered(BookOf(vm), NewSlots(BookOf(vm), va)));
  }

  lemma TracedTable(vm: Vm, r: Vm, pa: nat, va: nat, s: nat)
    requires va < ADDRESSES && Trace(vm, r.mem, va / PGSIZE, pa / PGSIZE)
    requires NewSlots(BookOf(vm), va) == Slots(vm.mem, vm.free, va / PGSIZE / SLOTS)
    ensures Agree(BookOf(r).tables, Entered(BookOf(vm), NewSlots(BookOf(vm), va)), s)
  {
    var slots := Slots(vm.mem, vm.free, va / PGSIZE / SLOTS);
    if s in slots { SlotInRange(vm, va, s); }
    if s < SLOTS { assert At(r.mem, PD_FRAME, s) == EntryAfter(vm, slots, s); }
  }

  lemma SlotInRange(vm: Vm, va: nat, s: nat)
    requires va < ADDRESSES && s in Slots(vm.mem, vm.free, va / PGSIZE / SLOTS)
    ensures s < SLOTS
  {
    var slots := Slots(vm.mem, vm.free, va / PGSIZE / SLOTS);
    var i :| 0 <= i < |slots| && slots[i] == s;
    SlotsInRange(vm.mem, vm.free, va / PGSIZE / SLOTS, i);
  }

  lemma CriticalMatch(vm: Vm, page: nat)
    ensures EditPage(BookOf(vm), page) <==> Critical(vm.mem, page)
  {
    if Critical(vm.mem, page) && page != PD_PAGE {
      var s :| 0 <= s < SLOTS && Present(vm.mem, s) && page == KPage(TableOf(vm.mem, s));
      assert s in BookOf(vm).tables;
    }
  }

  lemma UnmapEdits(q: Sys, va: nat)
    requires Valid(q.vm) && va < ADDRESSES && (va == 0 || !Critical(q.vm.mem, va / PGSIZE))
    ensures var op, b := UnmapOne(va), BookOf(q.vm);
      && Do(q, op).Ok? && Valid(Do(q, op).s.vm)
      && BookOf(Do(q, op).s.vm) == NextBook(b, op) && Edited(q.vm.mem, Do(q, op).s.vm.mem, b, op)
  {
    if va > 0 {
      UnmapPageExact(q.vm, va);
      UnmapPageRefines(q.vm, va);
      var r := Do(q, UnmapOne(va)).s.vm;
      forall t | 0 <= t < SLOTS ensures At(r.mem, PD_FRAME, t) == At(q.vm.mem, PD_FRAME, t) { DirectoryKept(q.vm, va, t); }
      SameBook(q.vm, r);
    }
  }

  lemma SameBook(vm: Vm, r: Vm)
    requires r.free == vm.free && (forall t :: 0 <= t < SLOTS ==> At(r.mem, PD_FRAME, t) == At(vm.mem, PD_FRAME, t))
    ensures BookOf(r) == BookOf(vm)
  {
  }

  lemma ClearEdits(q: Sys)
    requires Valid(q.vm)
    ensures Do(q, ClearLow).Ok? && Valid(Do(q, ClearLow).s.vm)
    ensures BookOf(Do(q, ClearLow).s.vm) == NextBook(BookOf(q.vm), ClearLow)
    ensures Edited(q.vm.mem, Do(q, ClearLow).s.vm.mem, BookOf(q.vm), ClearLow)
  {
    ClearIdentityKeeps(q.vm, 0);
    var r := Do(q, ClearLow).s.vm;
    forall t | 0 <= t < SLOTS ensures At(r.mem, PD_FRAME, t) == Cleared(At(q.vm.mem, PD_FRAME, t), 0, t) {}
    assert BookOf(r).tables == NextBook(BookOf(q.vm), ClearLow).tables;
  }

  /** One call is done and leaves the tables editable exactly when the book says so, and then does what the book says. */
  lemma OneEdit(q: Sys, op: Op)
    requires Valid(q.vm) && EditsInRange(op)
    ensures Do(q, op).Ok? && Valid(Do(q, op).s.vm) <==> Goes(BookOf(q.vm), op)
    ensures !Do(q, op).NoMemory?
    ensures Goes(BookOf(q.vm), op) ==>
      var r := Do(q, op).s.vm;
      BookOf(r) == NextBook(BookOf(q.vm), op) && Edited(q.vm.mem, r.mem, BookOf(q.vm), op)
  {
    match op
    case MapOne(pa, va) => MapGoesIff(q, pa, va);
    case UnmapOne(va) => UnmapGoesIff(q, va);
    case ClearLow => ClearEdits(q);
  }

  lemma MapGoesIff(q: Sys, pa: nat, va: nat)
    requires Valid(q.vm) && Mappable(pa, va)
    ensures var op := MapOne(pa, va);
      && (Do(q, op).Ok? && Valid(Do(q, op).s.vm) <==> Goes(BookOf(q.vm), op)) && !Do(q, op).NoMemory?
      && (Goes(BookOf(q.vm), op) ==>
            BookOf(Do(q, op).s.vm) == NextBook(BookOf(q.vm), op) && Edited(q.vm.mem, Do(q, op).s.vm.mem, BookOf(q.vm), op))
  {
    AddressSplit(va);
    SlotsMatch(q.vm, q.vm.free, PdNo(va));
    MapPageAlways(q.vm, pa, va);
    if Goes(BookOf(q.vm), MapOne(pa, va)) { MapEdits(q, pa, va); }
  }

  lemma UnmapGoesIff(q: Sys, va: nat)
    requires Valid(q.vm) && va < ADDRESSES
    ensures var op := UnmapOne(va);
      && (Do(q, op).Ok? && Valid(Do(q, op).s.vm) <==> Goes(BookOf(q.vm), op)) && !Do(q, op).NoMemory?
      && (Goes(BookOf(q.vm), op) ==>
            BookOf(Do(q, op).s.vm) == NextBook(BookOf(q.vm), op) && Edited(q.vm.mem, Do(q, op).s.vm.mem, BookOf(q.vm), op))
  {
    CriticalMatch(q.vm, va / PGSIZE);
    if va > 0 { UnmapPageExact(q.vm, va); }
    if Goes(BookOf(q.vm), UnmapOne(va)) { UnmapEdits(q, va); }
  }

  // ----- whole runs

  /** The run does not stop, and the tables can be edited through themselves after every call. */
  ghost predicate EditableThrough(s: Sys, ops: seq<Op>)
    decreases |ops|
  {
    && Run(s, ops).Going? && Valid(Run(s, ops).s.vm)
    && (ops != [] ==> EditableThrough(s, ops[..|ops| - 1]))
  }

  /**
   map_page and unmap_page over whole runs, from any tables that can be edited through
   themselves.  They stay so throughout exactly when the book says so.  The two-level
   translation is then the abstract table with the run's updates, and every other page is
   left alone.
   */
  lemma {:induction false} TranslationOverRuns(s: Sys, ops: seq<Op>)
    requires Valid(s.vm) && (forall op :: op in ops ==> EditsInRange(op))
    ensures EditableThrough(s, ops) <==> AllGo(BookOf(s.vm), ops)
    ensures EditableThrough(s, ops) ==>
      var r := Run(s, ops).s.vm;
      && BookOf(r) == BookAfter(BookOf(s.vm), ops)
      && (forall p :: 0 <= p < PAGES ==> Translate(r.mem, p) == Expected(Translate(s.vm.mem, p), BookOf(s.vm), ops, p))
    decreases |ops|
  {
    if ops != [] {
      var n := |ops| - 1;
      TranslationOverRuns(s, ops[..n]);
      if EditableThrough(s, ops[..n]) {
        OneEdit(Run(s, ops[..n]).s, ops[n]);
      }
    }
  }
}
