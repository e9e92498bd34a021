/**
 The scheduler's linked lists: ready_threads, all_threads, and the waiters of every
 semaphore.  Each is a list of its own; what the scheduler sees of them are sequences.
 */
module KernelLists {
  import opened Common
  import opened LinkedList
  import opened Sched
  import opened Words

  /** A semaphore, or a lock with its holder. */
  class Semaphore {
    var value: nat
    const waiters: List<Tid>
    const lock: bool
    var holder: Option<Tid>

    ghost predicate Shows(v: Sema)
      reads this
    {
      (value, lock, holder) == (v.value, v.lock, v.holder)
    }

    /** sema_init, or lock_init. */
    constructor (v: nat, isLock: bool)
      ensures waiters.Valid() && waiters.nodes == [] && waiters.Contents() == [] && fresh(waiters)
      ensures (value, lock, holder) == (v, isLock, None)
    {
      value, lock, holder := v, isLock, None;
      waiters := new List();
    }
  }

  const READY_TAG: nat := 0
  const ALL_TAG: nat := 1
  function SemTag(id: SemId): nat { id + 2 }

  class Lists {
    const ready: List<Tid>
    const all: List<Tid>
    var sems: map<SemId, Semaphore>
    ghost var readyView: seq<Tid>
    ghost var allView: seq<Tid>
    ghost var semView: map<SemId, Sema>
    ghost var owner: map<object, nat>     // which list an object belongs to

    ghost function Repr(): set<object>
      reads this
    {
      owner.Keys
    }

    /** A well-formed list, with its nodes under its own tag. */
    ghost predicate Owned(l: List<Tid>, tag: nat, s: seq<Tid>)
      reads this, owner.Keys
    {
      && l in owner && owner[l] == tag
      && (forall n :: n in l.nodes ==> n in owner && owner[n] == tag)
      && l.Valid() && l.Contents() == s
    }

    /** Semaphore id is what the scheduler sees. */
    ghost predicate SemAt(id: SemId)
      reads this, owner.Keys
    {
      && id in sems && id in semView
      && sems[id] in owner && owner[sems[id]] == SemTag(id)
      && Owned(sems[id].waiters, SemTag(id), semView[id].waiters)
      && sems[id].Shows(semView[id])
    }

    ghost predicate Valid()
      reads this, owner.Keys
    {
      && this !in owner
      && Owned(ready, READY_TAG, readyView) && Owned(all, ALL_TAG, allView)
      && sems.Keys == semView.Keys
      && (forall id {:trigger SemAt(id)} :: id in sems ==> SemAt(id))
    }

    /** thread_init's lists, with the kernel's thread. */
    constructor (first: Tid)
      ensures Valid() && fresh(Repr())
      ensures readyView == [] && allView == [first] && semView == map[]
    {
      ready := new List();
      all := new List.With(first);
      sems := map[];
      new;
      readyView, allView, semView := [], [first], map[];
      owner := map[ready := READY_TAG][all := ALL_TAG][all.nodes[0] := ALL_TAG];
      assert Owned(ready, READY_TAG, []);
      assert Owned(all, ALL_TAG, [first]);
    }

    // ----- a change of one list leaves the others alone

    /** Only objects of one tag have changed, and every object still has its tag. */
    twostate predicate OnlyTag(tag: nat)
      reads this, owner.Keys
    {
      forall o {:trigger o in old(owner)} :: o in old(owner) ==>
        o in owner && owner[o] == old(owner)[o] && (owner[o] != tag ==> unchanged(o))
    }

    twostate lemma OtherList(new tag: nat, l: List<Tid>, new other: nat, new s: seq<Tid>)
      requires old(Owned(l, other, s)) && other != tag && OnlyTag(tag)
      ensures Owned(l, other, s)
    {
      assert l in old(owner);
      assert forall i {:trigger l.nodes[i]} :: 0 <= i < |l.nodes| ==> l.nodes[i] in old(owner);
      l.Untouched();
    }

    /** The table of semaphores is as before, but for the one with this tag. */
    twostate predicate SameOthers(tag: nat)
      reads this
    {
      && sems.Keys == semView.Keys
      && forall k {:trigger k in sems} :: k in sems && SemTag(k) != tag ==>
           k in old(sems) && sems[k] == old(sems)[k] && k in old(semView) && semView[k] == old(semView)[k]
    }

    twostate lemma OtherSem(new tag: nat, new id: SemId)
      requires old(Valid()) && OnlyTag(tag) && SameOthers(tag) && id in sems && SemTag(id) != tag
      ensures SemAt(id)
    {
      assert old(SemAt(id)) && sems[id] in old(owner);
      OtherList(tag, sems[id].waiters, SemTag(id), semView[id].waiters);
    }

    twostate lemma OtherSems(new tag: nat)
      requires old(Valid()) && OnlyTag(tag) && SameOthers(tag)
      ensures forall id {:trigger SemAt(id)} :: id in sems && SemTag(id) != tag ==> SemAt(id)
    {
      forall id | id in sems && SemTag(id) != tag ensures SemAt(id) { OtherSem(tag, id); }
    }

    /** One semaphore has changed, and is well-formed again. */
    twostate lemma OneSem(new id: SemId)
      requires old(Valid()) && OnlyTag(SemTag(id)) && SameOthers(SemTag(id)) && SemAt(id)
      requires this !in owner && readyView == old(readyView) && allView == old(allView)
      ensures Valid()
    {
      OtherList(SemTag(id), ready, READY_TAG, readyView);
      OtherList(SemTag(id), all, ALL_TAG, allView);
      OtherSems(SemTag(id));
    }

    /** append to one list. */
    method AppendTo(l: List<Tid>, ghost tag: nat, ghost s: seq<Tid>, t: Tid)
      requires this !in owner && Owned(l, tag, s)
      modifies `owner, l, l.nodes
      ensures this !in owner && Owned(l, tag, s + [t]) && OnlyTag(tag) && fresh(Repr() - old(Repr()))
    {
      l.Append(t);
      owner := owner[l.nodes[|l.nodes| - 1] := tag];
    }

    // ----- the queues of threads

    /** append(ready_threads, t) */
    method AppendReady(t: Tid)
      requires Valid()
      modifies this, Repr()
      ensures Valid() && fresh(Repr() - old(Repr()))
      ensures readyView == old(readyView) + [t] && allView == old(allView) && semView == old(semView)
    {
      AppendTo(ready, READY_TAG, readyView, t);
      readyView := readyView + [t];
      OtherList(READY_TAG, all, ALL_TAG, allView);
      OtherSems(READY_TAG);
    }

    /** pop(ready_threads) */
    method PopReady() returns (t: Tid)
      requires Valid() && readyView != []
      modifies this, Repr()
      ensures Valid() && fresh(Repr() - old(Repr()))
      ensures t == old(readyView)[0] && readyView == old(readyView)[1..]
      ensures allView == old(allView) && semView == old(semView)
    {
      var r := ready.Pop();
      t := r.value;
      readyView := readyView[1..];
      assert OnlyTag(READY_TAG);
      OtherList(READY_TAG, all, ALL_TAG, allView);
      OtherSems(READY_TAG);
    }

    /** remove(ready_threads, t), where t may be missing and the queue empty. */
    method RemoveReady(t: Tid) returns (found: bool)
      requires Valid()
      modifies this, Repr()
      ensures Valid() && fresh(Repr() - old(Repr()))
      ensures found == (t in old(readyView)) && readyView == RemoveFirst(old(readyView), t)
      ensures allView == old(allView) && semView == old(semView)
    {
      found := ready.Remove(t);
      readyView := RemoveFirst(readyView, t);
      assert OnlyTag(READY_TAG);
      OtherList(READY_TAG, all, ALL_TAG, allView);
      OtherSems(READY_TAG);
    }

    /** append(all_threads, t) */
    method AppendAll(t: Tid)
      requires Valid()
      modifies this, Repr()
      ensures Valid() && fresh(Repr() - old(Repr()))
      ensures allView == old(allView) + [t] && readyView == old(readyView) && semView == old(semView)
    {
      AppendTo(all, ALL_TAG, allView, t);
      allView := allView + [t];
      OtherList(ALL_TAG, ready, READY_TAG, readyView);
      OtherSems(ALL_TAG);
    }

    /** remove(all_threads, t) */
    method RemoveAll(t: Tid) returns (found: bool)
      requires Valid()
      modifies this, Repr()
      ensures Valid() && fresh(Repr() - old(Repr()))
      ensures found == (t in old(allView)) && allView == RemoveFirst(old(allView), t)
      ensures readyView == old(readyView) && semView == old(semView)
    {
      found := all.Remove(t);
      allView := RemoveFirst(allView, t);
      assert OnlyTag(ALL_TAG);
      OtherList(ALL_TAG, ready, READY_TAG, readyView);
      OtherSems(ALL_TAG);
    }

    // ----- semaphores

    /** append(s->waiters, t) */
    method AppendWaiter(id: SemId, t: Tid)
      requires Valid() && id in sems
      modifies this, Repr()
      ensures Valid() && fresh(Repr() - old(Repr()))
      ensures semView == old(semView)[id := old(semView)[id].(waiters := old(semView)[id].waiters + [t])]
      ensures readyView == old(readyView) && allView == old(allView) && sems == old(sems)
    {
      assert SemAt(id);
      var m := sems[id];
      AppendTo(m.waiters, SemTag(id), semView[id].waiters, t);
      assert m.Shows(semView[id]);
      semView := semView[id := semView[id].(waiters := semView[id].waiters + [t])];
      OneSem(id);
    }

    /** pop(s->waiters) */
    method PopWaiter(id: SemId) returns (t: Tid)
      requires Valid() && id in sems && semView[id].waiters != []
      modifies this, Repr()
      ensures Valid() && fresh(Repr() - old(Repr()))
      ensures t == old(semView)[id].waiters[0]
      ensures semView == old(semView)[id := old(semView)[id].(waiters := old(semView)[id].waiters[1..])]
      ensures readyView == old(readyView) && allView == old(allView) && sems == old(sems)
    {
      assert SemAt(id);
      var r := sems[id].waiters.Pop();
      t := r.value;
      semView := semView[id := semView[id].(waiters := semView[id].waiters[1..])];
      OneSem(id);
    }

    /** value-- */
    method Lower(id: SemId)
      requires Valid() && id in sems && semView[id].value > 0
      modifies this, Repr()
      ensures Valid() && fresh(Repr() - old(Repr()))
      ensures semView == old(semView)[id := old(semView)[id].(value := old(semView)[id].value - 1)]
      ensures readyView == old(readyView) && allView == old(allView)
    {
      assert SemAt(id);
      var m := sems[id];
      m.value := m.value - 1;
      semView := semView[id := semView[id].(value := semView[id].value - 1)];
      OneField(id);
    }

    /** value++ */
    method Raise(id: SemId)
      requires Valid() && id in sems
      modifies this, Repr()
      ensures Valid() && fresh(Repr() - old(Repr()))
      ensures semView == old(semView)[id := old(semView)[id].(value := (old(semView)[id].value + 1) % WORD)]
      ensures readyView == old(readyView) && allView == old(allView)
    {
      assert SemAt(id);
      var m := sems[id];
      m.value := (m.value + 1) % WORD;
      semView := semView[id := semView[id].(value := (semView[id].value + 1) % WORD)];
      OneField(id);
    }

    method WriteHolder(id: SemId, holder: Option<Tid>)
      requires Valid() && id in sems
      modifies this, Repr()
      ensures Valid() && fresh(Repr() - old(Repr()))
      ensures semView == old(semView)[id := old(semView)[id].(holder := holder)]
      ensures readyView == old(readyView) && allView == old(allView)
    {
      assert SemAt(id);
      sems[id].holder := holder;
      semView := semView[id := semView[id].(holder := holder)];
      OneField(id);
    }

    /** A field of semaphore id has changed, and nothing else. */
    twostate lemma OneField(new id: SemId)
      requires old(Valid()) && id in sems && id in semView && sems == old(sems) && owner == old(owner)
      requires readyView == old(readyView) && allView == old(allView)
      requires semView == old(semView)[id := semView[id]] && semView[id].waiters == old(semView)[id].waiters
      requires sems[id].Shows(semView[id])
      requires forall o {:trigger o in old(owner)} :: o in old(owner) && o != sems[id] ==> unchanged(o)
      ensures Valid()
    {
      assert old(SemAt(id));
      var l := sems[id].waiters;
      assert forall i {:trigger l.nodes[i]} :: 0 <= i < |l.nodes| ==> l.nodes[i] in old(owner);
      l.Untouched();
      OneSem(id);
    }

    /** sema_init or lock_init of a new one. */
    method AddSemaphore(id: SemId, v: nat, isLock: bool)
      requires Valid() && id !in sems
      modifies this, Repr()
      ensures Valid() && fresh(Repr() - old(Repr()))
      ensures semView == old(semView)[id := Sema(v, [], isLock, None)]
      ensures readyView == old(readyView) && allView == old(allView)
    {
      var m := new Semaphore(v, isLock);
      Enter(id, m, Sema(v, [], isLock, None));
    }

    /** A semaphore that no list knows yet, without waiters. */
    method Enter(id: SemId, m: Semaphore, ghost v: Sema)
      requires Valid() && id !in sems && m !in owner && m.waiters !in owner
      requires m.Shows(v) && v.waiters == [] && m.waiters.Valid() && m.waiters.nodes == []
      modifies `sems, `owner, `semView
      ensures Valid() && Repr() == old(Repr()) + {m, m.waiters}
      ensures semView == old(semView)[id := v] && readyView == old(readyView) && allView == old(allView)
    {
      sems := sems[id := m];
      owner := owner[m := SemTag(id)][m.waiters := SemTag(id)];
      semView := semView[id := v];
      assert m.waiters.Contents() == [];
      OneSem(id);
    }
  }
}
