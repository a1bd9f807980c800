/**
 The doubly linked list that holds the cache entries: a ring through a sentinel, the shape of Go's
 container/list, with the sequence of nodes from front to back as ghost state.
 */
module LruList {
  import opened LruPolicy

  class Element {
    const value: Entry
    var next: Element?
    var prev: Element?

    constructor (value: Entry)
      ensures this.value == value && next == null && prev == null
    {
      this.value := value;
      next, prev := null, null;
    }
  }

  /** The values of a sequence of nodes; they never change, so no heap is read. */
  function Values(nodes: seq<Element>): (vs: seq<Entry>)
    ensures |vs| == |nodes|
    ensures forall i :: 0 <= i < |vs| ==> vs[i] == nodes[i].value
  {
    seq(|nodes|, i requires 0 <= i < |nodes| => nodes[i].value)
  }

  function Succ(i: nat, n: nat): nat { if i + 1 == n then 0 else i + 1 }

  function Pred(i: nat, n: nat): int { if i == 0 then n - 1 else i - 1 }

  ghost predicate Distinct(ring: seq<Element>) {
    forall i, j :: 0 <= i < j < |ring| ==> ring[i] != ring[j]
  }

  ghost predicate NextLinked(ring: seq<Element>)
    reads ring
  {
    forall i {:trigger ring[i].next} :: 0 <= i < |ring| ==> ring[i].next == ring[Succ(i, |ring|)]
  }

  ghost predicate PrevLinked(ring: seq<Element>)
    reads ring
  {
    forall i {:trigger ring[i].prev} :: 0 <= i < |ring| ==> ring[i].prev == ring[Pred(i, |ring|)]
  }

  /** Consecutive nodes of the ring point at each other, the last one and the first one too. */
  ghost predicate Linked(ring: seq<Element>)
    reads ring
  {
    ring != [] && Distinct(ring) && NextLinked(ring) && PrevLinked(ring)
  }

  /** Where the i-th node of the ring without node k was in the full ring. */
  function Before(i: nat, k: nat): nat { if i < k then i else i + 1 }

  function DropAt<T>(s: seq<T>, k: nat): (r: seq<T>)
    requires k < |s|
    ensures |r| == |s| - 1
    ensures forall i :: 0 <= i < |r| ==> r[i] == s[Before(i, k)]
  {
    seq(|s| - 1, i requires 0 <= i < |s| - 1 => s[Before(i, k)])
  }

  /** Without its last node the list loses its last entry, and that entry's size. */
  lemma DropLast(nodes: seq<Element>)
    requires nodes != []
    ensures var k := |nodes| - 1;
            && DropAt(nodes, k) == nodes[..k]
            && Values(nodes[..k]) == Values(nodes)[..k]
            && Total(Values(nodes)) == Total(Values(nodes[..k])) + nodes[k].value.size
  {
    assert Values(nodes[..|nodes| - 1]) == Values(nodes)[..|nodes| - 1];
  }

  /** The next links still follow the ring without node k when its predecessor skips it. */
  lemma UnlinkedNext(ring: seq<Element>, k: nat)
    requires 0 < k < |ring|
    requires forall i {:trigger ring[i].next} :: 0 <= i < |ring| && i != k - 1 ==> ring[i].next == ring[Succ(i, |ring|)]
    requires ring[k - 1].next == ring[Succ(k, |ring|)]
    ensures NextLinked(DropAt(ring, k))
  {
    var n, ring' := |ring|, DropAt(ring, k);
    forall i {:trigger ring'[i].next} | 0 <= i < n - 1 ensures ring'[i].next == ring'[Succ(i, n - 1)] {
      assert ring'[i] == ring[Before(i, k)];
    }
  }

  lemma UnlinkedPrev(ring: seq<Element>, k: nat)
    requires 0 < k < |ring|
    requires forall i {:trigger ring[i].prev} ::
               0 <= i < |ring| && i != Succ(k, |ring|) ==> ring[i].prev == ring[Pred(i, |ring|)]
    requires ring[Succ(k, |ring|)].prev == ring[k - 1]
    ensures PrevLinked(DropAt(ring, k))
  {
    var n, ring' := |ring|, DropAt(ring, k);
    forall i {:trigger ring'[i].prev} | 0 <= i < n - 1 ensures ring'[i].prev == ring'[Pred(i, n - 1)] {
      assert ring'[i] == ring[Before(i, k)];
    }
  }

  lemma DropAtDistinct(ring: seq<Element>, k: nat)
    requires Distinct(ring) && k < |ring|
    ensures Distinct(DropAt(ring, k))
  {
  }

  /** Take a node out of its ring: its neighbours point at each other. */
  method Unlink(e: Element, ghost ring: seq<Element>, ghost k: nat)
    requires Linked(ring) && 0 < k < |ring| && ring[k] == e
    modifies ring
    ensures Linked(DropAt(ring, k))
  {
    assert ring[k].prev == ring[k - 1] && ring[k].next == ring[Succ(k, |ring|)];
    e.prev.next := e.next;
    e.next.prev := e.prev;
    UnlinkedNext(ring, k);
    UnlinkedPrev(ring, k);
    DropAtDistinct(ring, k);
  }

  function InsertSecond<T>(e: T, s: seq<T>): (r: seq<T>)
    requires s != []
    ensures |r| == |s| + 1 && r[0] == s[0] && r[1] == e
    ensures forall i :: 2 <= i < |r| ==> r[i] == s[i - 1]
  {
    seq(|s| + 1, i requires 0 <= i <= |s| => if i == 0 then s[0] else if i == 1 then e else s[i - 1])
  }

  lemma LinkedNext(ring: seq<Element>, e: Element)
    requires ring != []
    requires forall i {:trigger ring[i].next} :: 0 < i < |ring| ==> ring[i].next == ring[Succ(i, |ring|)]
    requires ring[0].next == e && e.next == ring[Succ(0, |ring|)]
    ensures NextLinked(InsertSecond(e, ring))
  {
    var n, ring' := |ring|, InsertSecond(e, ring);
    forall i {:trigger ring'[i].next} | 2 <= i <= n ensures ring'[i].next == ring'[Succ(i, n + 1)] {
      assert ring'[i] == ring[i - 1];
    }
  }

  lemma LinkedPrev(ring: seq<Element>, e: Element)
    requires ring != []
    requires forall i {:trigger ring[i].prev} ::
               0 <= i < |ring| && i != Succ(0, |ring|) ==> ring[i].prev == ring[Pred(i, |ring|)]
    requires ring[Succ(0, |ring|)].prev == e && e.prev == ring[0]
    ensures PrevLinked(InsertSecond(e, ring))
  {
    var n, ring' := |ring|, InsertSecond(e, ring);
    forall i {:trigger ring'[i].prev} | 0 <= i <= n ensures ring'[i].prev == ring'[Pred(i, n + 1)] {
      assert ring'[i] == if i == 1 then e else ring[if i == 0 then 0 else i - 1];
    }
  }

  /** Put a node into a ring behind its first node. */
  method LinkAfter(at: Element, e: Element, ghost ring: seq<Element>)
    requires Linked(ring) && ring[0] == at && e !in ring
    modifies ring, e
    ensures Linked(InsertSecond(e, ring))
  {
    assert ring[0].next == ring[Succ(0, |ring|)];
    e.prev := at;
    e.next := at.next;
    e.prev.next := e;
    e.next.prev := e;
    LinkedNext(ring, e);
    LinkedPrev(ring, e);
  }

  lemma RingWithout(root: Element, nodes: seq<Element>, k: nat)
    requires k < |nodes| && Distinct([root] + nodes)
    ensures DropAt([root] + nodes, k + 1) == [root] + DropAt(nodes, k)
    ensures nodes[k] !in [root] + DropAt(nodes, k)
  {
    var ring := [root] + nodes;
    assert ring[k + 1] == nodes[k];
    assert DropAt(ring, k + 1) == [root] + DropAt(nodes, k);
  }

  lemma FirstNode(root: Element, nodes: seq<Element>, k: nat)
    requires Linked([root] + nodes) && k < |nodes|
    ensures root.next == nodes[k] ==> nodes == [nodes[k]] + DropAt(nodes, k)
  {
    var ring := [root] + nodes;
    assert ring[0].next == ring[Succ(0, |ring|)] && ring[k + 1] == nodes[k] && ring[1] == nodes[0];
    assert root.next == nodes[k] ==> k == 0;
    assert nodes == [nodes[0]] + DropAt(nodes, 0);
  }

  lemma RingWith(root: Element, nodes: seq<Element>, e: Element)
    ensures InsertSecond(e, [root] + nodes) == [root] + ([e] + nodes)
  {
  }

  class List {
    const root: Element
    var len: nat
    ghost var nodes: seq<Element>

    ghost predicate Valid()
      reads this, root, nodes
    {
      len == |nodes| && Linked([root] + nodes)
    }

    constructor ()
      ensures Valid() && nodes == [] && fresh(root)
    {
      var r := new Element(Entry("", "", 0, ""));
      r.next, r.prev := r, r;
      root, len, nodes := r, 0, [];
    }

    method PushFront(v: Entry) returns (e: Element)
      requires Valid()
      modifies this, root, nodes
      ensures Valid() && fresh(e) && e.value == v
      ensures nodes == [e] + old(nodes)
    {
      hide NextLinked, PrevLinked, Distinct, InsertSecond;
      e := new Element(v);
      RingWith(root, nodes, e);
      LinkAfter(root, e, [root] + nodes);
      len := len + 1;
      nodes := [e] + nodes;
    }

    /** Back is nil exactly on the empty list. */
    method Back() returns (e: Element?)
      requires Valid()
      ensures e == if nodes == [] then null else nodes[|nodes| - 1]
    {
      if len == 0 {
        return null;
      }
      e := root.prev;
      assert ([root] + nodes)[0].prev == ([root] + nodes)[|nodes|];
    }

    method Remove(e: Element, ghost k: nat)
      requires Valid() && k < |nodes| && nodes[k] == e
      modifies this, root, nodes
      ensures Valid() && nodes == DropAt(old(nodes), k)
    {
      RingWithout(root, nodes, k);
      hide NextLinked, PrevLinked, Distinct, DropAt;
      Unlink(e, [root] + nodes, k + 1);
      e.next := null;
      e.prev := null;
      len := len - 1;
      nodes := DropAt(nodes, k);
    }

    method MoveToFront(e: Element, ghost k: nat)
      requires Valid() && k < |nodes| && nodes[k] == e
      modifies this, root, nodes
      ensures Valid() && nodes == [e] + DropAt(old(nodes), k)
    {
      hide NextLinked, PrevLinked, Distinct, DropAt, InsertSecond;
      FirstNode(root, nodes, k);
      if root.next == e {
        return;
      }
      RingWithout(root, nodes, k);
      Unlink(e, [root] + nodes, k + 1);
      nodes := DropAt(nodes, k);
      RingWith(root, nodes, e);
      LinkAfter(root, e, [root] + nodes);
      nodes := [e] + nodes;
    }
  }
}
