/** The kernel's doubly linked list, proved to hold a sequence. */
module LinkedList {
  import opened Common

  class Node<T> {
    var data: T
    var next: Node?<T>
    var prev: Node?<T>

    constructor (x: T)
      ensures data == x && next == null && prev == null
    {
      data, next, prev := x, null, null;
    }
  }

  class List<T(==)> {
    var size: nat
    var head: Node?<T>
    var tail: Node?<T>
    ghost var nodes: seq<Node<T>>

    /** Node i of the list and its links. */
    ghost predicate LinkedAt(i: nat)
      requires i < |nodes|
      reads this, nodes
    {
      && nodes[i].next == (if i + 1 < |nodes| then nodes[i + 1] else null)
      && nodes[i].prev == (if i > 0 then nodes[i - 1] else null)
    }

    /** Mutually inverse links; the tail may be stale while the list is empty. */
    ghost predicate Valid()
      reads this, nodes
    {
      && size == |nodes| && NoDup(nodes)
      && head == (if nodes == [] then null else nodes[0])
      && (nodes != [] ==> tail == nodes[|nodes| - 1])
      && (forall i {:trigger LinkedAt(i)} :: 0 <= i < |nodes| ==> LinkedAt(i))
    }

    ghost function Contents(): (s: seq<T>)
      reads this, nodes
      ensures |s| == |nodes|
    {
      seq(|nodes|, (i: nat) requires i < |nodes| reads this, nodes => nodes[i].data)
    }

    /** A list that nothing has written to still holds its sequence. */
    twostate lemma Untouched()
      requires old(Valid()) && unchanged(this)
      requires forall i {:trigger nodes[i]} :: 0 <= i < |nodes| ==> unchanged(nodes[i])
      ensures Valid() && Contents() == old(Contents())
    {
      forall i | 0 <= i < |nodes| ensures LinkedAt(i) { assert old(LinkedAt(i)); }
    }

    /** list_init. */
    constructor ()
      ensures Valid() && Contents() == [] && fresh(nodes)
    {
      size, head, tail, nodes := 0, null, null, [];
    }

    /** list_init_with. */
    constructor With(x: T)
      ensures Valid() && Contents() == [x] && fresh(nodes) && |nodes| == 1
    {
      var elem := new Node(x);
      size, head, tail, nodes := 1, elem, elem, [elem];
      new;
      assert LinkedAt(0);
    }

    predicate IsEmpty()
      requires Valid()
      reads this, nodes
      ensures IsEmpty() <==> Contents() == []
    {
      size == 0
    }

    method Append(x: T)
      requires Valid()
      modifies this, nodes
      ensures Valid() && Contents() == old(Contents()) + [x]
      ensures exists elem :: fresh(elem) && nodes == old(nodes) + [elem]
    {
      var elem := new Node(x);
      if IsEmpty() {
        head, tail := elem, elem;
      } else {
        assert LinkedAt(|nodes| - 1);
        elem.prev := tail;
        tail.next := elem;
        tail := elem;
      }
      size := size + 1;
      nodes := nodes + [elem];
      forall i | 0 <= i < |nodes| ensures LinkedAt(i) {
        if i < |nodes| - 1 { assert old(LinkedAt(i)); }
      }
    }

    /** pop; None for an empty list. */
    method Pop() returns (r: Option<T>)
      requires Valid()
      modifies this, nodes
      ensures Valid()
      ensures old(Contents()) == [] ==> r == None && Contents() == []
      ensures old(Contents()) != [] ==> r == Some(old(Contents())[0]) && Contents() == old(Contents())[1..]
      ensures forall n :: n in nodes ==> n in old(nodes)
    {
      if IsEmpty() { return None; }
      var elem := head;
      assert LinkedAt(0);
      assert |nodes| > 1 ==> LinkedAt(1);
      head := elem.next;
      if head != null { head.prev := null; }
      size := size - 1;
      nodes := nodes[1..];
      r := Some(elem.data);
      forall i | 0 <= i < |nodes| ensures LinkedAt(i) { assert old(LinkedAt(i + 1)); }
    }

    /** list_get; None is the panic. */
    method Get(idx: nat) returns (r: Option<T>)
      requires Valid()
      ensures r == if idx < |Contents()| then Some(Contents()[idx]) else None
    {
      if idx >= size { return None; }
      var elem := head;
      for i := 0 to idx
        invariant elem == nodes[i]
      {
        assert LinkedAt(i);
        elem := elem.next;
      }
      r := Some(elem.data);
    }

    /** Where remove's walk stops: at the first x, or at the last node. */
    method Find(x: T) returns (elem: Node<T>, ghost k: nat)
      requires Valid() && nodes != []
      ensures k < |nodes| && elem == nodes[k] && x !in Contents()[..k]
      ensures elem in nodes && (elem.data == x <==> x in Contents())
      ensures elem.data == x || k == |nodes| - 1
    {
      elem, k := head, 0;
      while elem.data != x && elem.next != null
        invariant k < |nodes| && elem == nodes[k] && x !in Contents()[..k]
        decreases |nodes| - k
      {
        assert LinkedAt(k);
        assert Contents()[..k + 1] == Contents()[..k] + [elem.data];
        elem := elem.next;
        k := k + 1;
      }
      assert LinkedAt(k);
      assert Contents()[k] == elem.data;
      if elem.data != x { assert Contents() == Contents()[..k] + [elem.data]; }
    }

    /** Take node k out of the links. */
    method Unlink(elem: Node<T>, ghost k: nat)
      requires Valid() && k < |nodes| && elem == nodes[k]
      modifies this, nodes
      ensures Valid() && nodes == old(nodes)[..k] + old(nodes)[k + 1..]
      ensures Contents() == old(Contents())[..k] + old(Contents())[k + 1..]
    {
      assert LinkedAt(k);
      assert k > 0 ==> LinkedAt(k - 1);
      assert k + 1 < |nodes| ==> LinkedAt(k + 1);
      if elem == head {
        head := elem.next;
        if head != null { head.prev := null; }
      } else {
        elem.prev.next := elem.next;
      }
      if elem == tail {
        tail := elem.prev;
      } else {
        elem.next.prev := elem.prev;
      }
      size := size - 1;
      nodes := nodes[..k] + nodes[k + 1..];
      forall i | 0 <= i < |nodes| ensures LinkedAt(i) {
        assert old(LinkedAt(if i < k then i else i + 1));
      }
    }

    /** remove: the first occurrence of x; false if there is none. */
    method Remove(x: T) returns (found: bool)
      requires Valid()
      modifies this, nodes
      ensures Valid() && found == (x in old(Contents())) && Contents() == RemoveFirst(old(Contents()), x)
      ensures forall n :: n in nodes ==> n in old(nodes)
    {
      if head == null { return false; }
      ghost var s := Contents();
      var elem, k := Find(x);
      if elem.data == x {
        RemoveFirstAt(s, x, k);
        assert s[k] == x;
        Unlink(elem, k);
        return true;
      }
      assert s == s[..k] + [elem.data];
      return false;
    }
  }
}
