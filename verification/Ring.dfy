/**
 The intrusive list element: a node of a circular doubly linked list. A ring is described
 by the sequence of its nodes; every operation is proved to perform the corresponding
 operation on that sequence.
 */
module Ring {

  class ListElement {
    var prev: ListElement
    var next: ListElement

    constructor ()
      ensures IsAlone() && IsRing([this])
    {
      next := this;
      prev := this;
    }

    predicate IsAlone()
      reads this
    {
      next == this && prev == this
    }

    predicate IsInList()
      reads this
    {
      next != this && prev != this
    }

    /** Takes node i out of its ring; the element is alone afterwards. */
    method RemoveFromList(ghost nodes: seq<ListElement>, ghost i: nat)
      requires IsRing(nodes) && i < |nodes| && nodes[i] == this
      modifies this, next, prev
      ensures IsAlone()
      ensures |nodes| > 1 ==> IsRing(Without(nodes, i))
    {
      Links(nodes, i);
      next.prev := prev;
      prev.next := next;
      next := this;
      prev := this;
      ghost var r := Without(nodes, i);
      if |nodes| > 1 {
        WithoutNext(nodes, i, 0);
        forall j: nat | j < |r| ensures LinkedAt(r, j) {
          ghost var k := if j < i then j else j + 1;
          WithoutNext(nodes, i, j);
          assert old(LinkedAt(nodes, k)) && old(LinkedAt(nodes, i));
          ghost var p, q := Before(nodes, i), After(nodes, i);
          if k != p { DistinctAt(nodes, k, p); }
          if After(nodes, k) != q { DistinctAt(nodes, After(nodes, k), q); }
        }
      }
    }

    method InsertAfter(element: ListElement, ghost nodes: seq<ListElement>)
      requires IsRing([this] + nodes) && element.IsAlone() && element !in [this] + nodes
      modifies this, next, element
      ensures IsRing([this] + ([element] + nodes))
    {
      ghost var all, r := [this] + nodes, [this] + ([element] + nodes);
      Links(all, 0);
      DistinctInsert(all, 1, element, r);
      element.next := next;
      element.prev := this;
      next.prev := element;
      next := element;
      forall j: nat | j < |r| ensures LinkedAt(r, j) {
        if j > 1 {
          assert r[j] == all[j - 1] && old(LinkedAt(all, j - 1));
          DistinctAt(all, j - 1, 0);
          DistinctAt(all, After(all, j - 1), 1);
        }
      }
    }

    method InsertBefore(element: ListElement, ghost nodes: seq<ListElement>)
      requires IsRing([this] + nodes) && element.IsAlone() && element !in [this] + nodes
      modifies this, prev, element
      ensures IsRing([this] + (nodes + [element]))
    {
      ghost var all, r := [this] + nodes, [this] + (nodes + [element]);
      Links(all, 0);
      DistinctInsert(all, |all|, element, r);
      element.prev := prev;
      element.next := this;
      prev.next := element;
      prev := element;
      forall j: nat | j < |r| ensures LinkedAt(r, j) {
        if j < |nodes| {
          assert r[j] == all[j] && old(LinkedAt(all, j));
          DistinctAt(all, j, |nodes|);
          DistinctAt(all, j + 1, 0);
        }
      }
    }

    method PopNext(ghost nodes: seq<ListElement>) returns (e: ListElement?)
      requires IsRing([this] + nodes)
      modifies this, next, next.next
      ensures nodes == [] ==> e == null && IsRing([this])
      ensures nodes != [] ==> e == nodes[0] && IsRing([this] + nodes[1..]) && e.IsAlone()
    {
      RingAlone([this] + nodes, 0);
      Links([this] + nodes, 0);
      if IsAlone() { return null; }
      Links([this] + nodes, 1);
      var n := next;
      assert n == ([this] + nodes)[1];
      n.RemoveFromList([this] + nodes, 1);
      assert Without([this] + nodes, 1) == [this] + nodes[1..];
      e := n;
    }

    method PopPrev(ghost nodes: seq<ListElement>) returns (e: ListElement?)
      requires IsRing([this] + nodes)
      modifies this, prev, prev.prev
      ensures nodes == [] ==> e == null && IsRing([this])
      ensures nodes != [] ==> e == nodes[|nodes| - 1] && IsRing([this] + nodes[..|nodes| - 1]) && e.IsAlone()
    {
      RingAlone([this] + nodes, 0);
      Links([this] + nodes, 0);
      if IsAlone() { return null; }
      Links([this] + nodes, |nodes|);
      var p := prev;
      assert p == ([this] + nodes)[|nodes|];
      p.RemoveFromList([this] + nodes, |nodes|);
      assert Without([this] + nodes, |nodes|) == [this] + nodes[..|nodes| - 1];
      e := p;
    }
  }

  function Without<T>(s: seq<T>, i: nat): (r: seq<T>)
    requires i < |s|
    ensures |r| == |s| - 1
  {
    s[..i] + s[i + 1..]
  }

  /** Node j of a ring, the node after the last one being the first. */
  function At(nodes: seq<ListElement>, j: nat): ListElement
    requires 0 < |nodes|
  {
    if j < |nodes| then nodes[j] else nodes[0]
  }

  /** The positions before and after i on the way round. */
  function Before(nodes: seq<ListElement>, i: nat): nat
    requires i < |nodes|
  {
    if i > 0 then i - 1 else |nodes| - 1
  }

  function After(nodes: seq<ListElement>, i: nat): nat
    requires i < |nodes|
  {
    if i + 1 < |nodes| then i + 1 else 0
  }

  predicate Differ(nodes: seq<ListElement>, i: nat, j: nat)
    requires i < j < |nodes|
  {
    nodes[i] != nodes[j]
  }

  predicate Distinct(nodes: seq<ListElement>) {
    forall i: nat, j: nat :: i < j < |nodes| ==> Differ(nodes, i, j)
  }

  lemma DistinctAt(nodes: seq<ListElement>, i: nat, j: nat)
    requires Distinct(nodes) && i < |nodes| && j < |nodes| && i != j
    ensures nodes[i] != nodes[j]
  {
    if i < j { assert Differ(nodes, i, j); } else { assert Differ(nodes, j, i); }
  }

  lemma DistinctInsert(nodes: seq<ListElement>, i: nat, e: ListElement, r: seq<ListElement>)
    requires Distinct(nodes) && i <= |nodes| && e !in nodes && r == nodes[..i] + [e] + nodes[i..]
    ensures Distinct(r)
  {
    forall a: nat, b: nat | a < b < |r| ensures Differ(r, a, b) {
      var c, d := if a < i then a else a - 1, if b < i then b else b - 1;
      if a != i && b != i { DistinctAt(nodes, c, d); }
    }
  }

  /** The successor of node j once node i is gone. */
  lemma WithoutNext(nodes: seq<ListElement>, i: nat, j: nat)
    requires |nodes| > 1 && i < |nodes| && j < |nodes| - 1 && Distinct(nodes)
    ensures var r, k := Without(nodes, i), if j < i then j else j + 1;
      && Distinct(r) && r[j] == nodes[k] && nodes[k] != nodes[i]
      && At(r, j + 1) == (if At(nodes, k + 1) == nodes[i] then At(nodes, i + 1) else At(nodes, k + 1))
  {
    var r := Without(nodes, i);
    forall a: nat, b: nat | a < b < |r| ensures Differ(r, a, b) {
      DistinctAt(nodes, if a < i then a else a + 1, if b < i then b else b + 1);
    }
    var k := if j < i then j else j + 1;
    DistinctAt(nodes, k, i);
    var n := After(nodes, k);
    if n != i { DistinctAt(nodes, n, i); }
  }

  predicate Linked(a: ListElement, b: ListElement)
    reads a, b
  {
    a.next == b && b.prev == a
  }

  /** The nodes are distinct, and linked one to the next all the way round. */
  ghost predicate IsRing(nodes: seq<ListElement>)
    reads nodes
  {
    && |nodes| > 0
    && Distinct(nodes)
    && forall i: nat :: i < |nodes| ==> LinkedAt(nodes, i)
  }

  predicate LinkedAt(nodes: seq<ListElement>, i: nat)
    requires i < |nodes|
    reads nodes
  {
    Linked(nodes[i], At(nodes, i + 1))
  }

  /** The links of node i. */
  lemma Links(nodes: seq<ListElement>, i: nat)
    requires IsRing(nodes) && i < |nodes|
    ensures nodes[i].next == At(nodes, i + 1)
    ensures nodes[i].prev == if i > 0 then nodes[i - 1] else nodes[|nodes| - 1]
  {
    assert LinkedAt(nodes, i) && LinkedAt(nodes, Before(nodes, i));
  }

  /** isAlone and isInList are complementary on rings: an element is in a list exactly
      when its ring has another node. */
  lemma RingAlone(nodes: seq<ListElement>, i: nat)
    requires IsRing(nodes) && i < |nodes|
    ensures nodes[i].IsAlone() <==> |nodes| == 1
    ensures nodes[i].IsInList() <==> |nodes| > 1
  {
    Links(nodes, i);
    if |nodes| > 1 {
      DistinctAt(nodes, i, After(nodes, i));
      DistinctAt(nodes, i, Before(nodes, i));
    }
  }

  /** A ring has no distinguished node: the same links describe every rotation. */
  lemma RingRotates(nodes: seq<ListElement>, i: nat)
    requires IsRing(nodes) && i < |nodes|
    ensures IsRing(nodes[i..] + nodes[..i])
  {
    var r := nodes[i..] + nodes[..i];
    forall j: nat | j < |r| ensures LinkedAt(r, j) {
      var k := if j + i < |nodes| then j + i else j + i - |nodes|;
      assert r[j] == nodes[k] && LinkedAt(nodes, k);
    }
    forall a: nat, b: nat | a < b < |r| ensures Differ(r, a, b) {
      DistinctAt(nodes, if a + i < |nodes| then a + i else a + i - |nodes|,
                 if b + i < |nodes| then b + i else b + i - |nodes|);
    }
  }

  /** Removing the element just inserted restores the ring. */
  method InsertThenRemove(root: ListElement, element: ListElement, ghost nodes: seq<ListElement>)
    requires IsRing([root] + nodes) && element.IsAlone() && element !in [root] + nodes
    modifies root, root.next, element
    ensures IsRing([root] + nodes) && element.IsAlone()
    ensures root.next == old(root.next) && root.prev == old(root.prev)
  {
    Links([root] + nodes, 0);
    root.InsertAfter(element, nodes);
    Links([root] + ([element] + nodes), 1);
    element.RemoveFromList([root] + ([element] + nodes), 1);
    assert Without([root] + ([element] + nodes), 1) == [root] + nodes;
    Links([root] + nodes, 0);
  }
}
