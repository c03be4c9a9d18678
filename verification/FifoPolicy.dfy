/**
 The FIFO policy on its real data structure: one list element per segment of every
 registered mapping, linked into a ring behind `root` from newest to oldest, and a byte
 counter. Every method is proved to perform the list operation of PolicyLists.
 */
module FifoPolicy {
  import opened Ring
  import opened PolicyLists

  /** The list elements of one mapping, one per segment. */
  datatype Storage = Storage(mapping: nat, segmentSize: nat, elements: seq<ListElement>)

  /** Which segment an element stands for: what address decoding recovers. */
  type Directory = map<ListElement, Seg>

  /** The directory lists exactly the elements of the registry. */
  ghost predicate Describes(where: Directory, reg: seq<Storage>) {
    && (forall k, l :: 0 <= k < l < |reg| ==> reg[k].mapping != reg[l].mapping)
    && (forall k: nat, i: nat :: k < |reg| && i < |reg[k].elements| ==> Placed(where, reg[k], i))
    && (forall e {:trigger InRegistry(e, reg)} :: e in where ==> InRegistry(e, reg))
  }

  /** The directory gives element i of a storage its segment. */
  ghost predicate Placed(where: Directory, st: Storage, i: nat)
    requires i < |st.elements|
  {
    st.elements[i] in where && where[st.elements[i]] == Seg(st.mapping, i, st.segmentSize)
  }

  ghost predicate InRegistry(e: ListElement, reg: seq<Storage>) {
    exists k :: 0 <= k < |reg| && e in reg[k].elements
  }

  ghost predicate AllIn(order: seq<ListElement>, where: Directory) {
    forall i :: 0 <= i < |order| ==> order[i] in where
  }

  ghost function Segs(where: Directory, order: seq<ListElement>): (s: seq<Seg>)
    requires AllIn(order, where)
    ensures |s| == |order| && forall i :: 0 <= i < |order| ==> s[i] == where[order[i]]
  {
    seq(|order|, i requires 0 <= i < |order| => where[order[i]])
  }

  /** Different elements stand for different segments. */
  lemma DirectoryInjective(where: Directory, reg: seq<Storage>, d: ListElement, e: ListElement)
    requires Describes(where, reg) && d in where && e in where && where[d] == where[e]
    ensures d == e
  {
    assert InRegistry(d, reg) && InRegistry(e, reg);
    var k :| 0 <= k < |reg| && d in reg[k].elements;
    var l :| 0 <= l < |reg| && e in reg[l].elements;
    var i :| 0 <= i < |reg[k].elements| && reg[k].elements[i] == d;
    var j :| 0 <= j < |reg[l].elements| && reg[l].elements[j] == e;
    assert Placed(where, reg[k], i) && Placed(where, reg[l], j);
  }

  lemma SegsNoDup(where: Directory, reg: seq<Storage>, order: seq<ListElement>)
    requires Describes(where, reg) && AllIn(order, where) && Distinct(order)
    ensures NoDup(Segs(where, order))
  {
    var s := Segs(where, order);
    forall i, j | 0 <= i < j < |s| ensures s[i] != s[j] {
      DistinctAt(order, i, j);
      if s[i] == s[j] { DirectoryInjective(where, reg, order[i], order[j]); }
    }
  }

  lemma SegsMember(where: Directory, reg: seq<Storage>, order: seq<ListElement>, e: ListElement)
    requires Describes(where, reg) && AllIn(order, where) && e in where
    ensures where[e] in Segs(where, order) <==> e in order
  {
    var s := Segs(where, order);
    if where[e] in s {
      var i :| 0 <= i < |s| && s[i] == where[e];
      DirectoryInjective(where, reg, order[i], e);
    }
    if e in order {
      var i :| 0 <= i < |order| && order[i] == e;
      assert s[i] == where[e];
    }
  }

  /** checkHasEnoughMem adds one segment of every mapping. */
  function OnePerMapping(reg: seq<Storage>): nat {
    if reg == [] then 0 else OnePerMapping(reg[..|reg| - 1]) + reg[|reg| - 1].segmentSize
  }

  lemma DescribesMore(where: Directory, reg: seq<Storage>, st: Storage, entries: Directory)
    requires Describes(where, reg) && where.Keys !! entries.Keys
    requires forall k :: 0 <= k < |reg| ==> reg[k].mapping != st.mapping
    requires forall i: nat :: i < |st.elements| ==> Placed(entries, st, i)
    requires forall e :: e in entries ==> e in st.elements
    ensures Describes(where + entries, reg + [st])
  {
    var all, more := where + entries, reg + [st];
    forall k: nat, i: nat | k < |more| && i < |more[k].elements| ensures Placed(all, more[k], i) {
      if k < |reg| { assert Placed(where, reg[k], i); } else { assert Placed(entries, st, i); }
    }
    forall e | e in all ensures InRegistry(e, more) {
      if e in entries {
        assert more[|reg|] == st;
      } else {
        assert InRegistry(e, reg);
        var k :| 0 <= k < |reg| && e in reg[k].elements;
        assert more[k] == reg[k];
      }
    }
  }

  lemma RootApart(root: ListElement, order: seq<ListElement>)
    requires Distinct([root] + order)
    ensures Distinct(order) && root !in order
  {
    var all := [root] + order;
    forall i: nat, j: nat | i < j < |order| ensures Differ(order, i, j) {
      DistinctAt(all, i + 1, j + 1);
    }
    forall i | 0 <= i < |order| ensures order[i] != root {
      DistinctAt(all, 0, i + 1);
    }
  }

  lemma WithoutMember(order: seq<ListElement>, i: nat, e: ListElement)
    requires Distinct(order) && i < |order|
    ensures e in Without(order, i) <==> e in order && e != order[i]
  {
    var r := Without(order, i);
    if e in order && e != order[i] {
      var j :| 0 <= j < |order| && order[j] == e;
      assert r[if j < i then j else j - 1] == e;
    }
    if e in r {
      var j :| 0 <= j < |r| && r[j] == e;
      DistinctAt(order, i, if j < i then j else j + 1);
      assert order[if j < i then j else j + 1] == e;
    }
  }

  lemma RestFacts(order: seq<ListElement>, i: nat, where: Directory)
    requires Distinct(order) && i < |order| && AllIn(order, where)
    ensures AllIn(Without(order, i), where)
    ensures forall e :: e in where && e !in Without(order, i) ==> e !in order || e == order[i]
    ensures order[i] !in Without(order, i)
  {
    var r := Without(order, i);
    forall j | 0 <= j < |r| ensures r[j] in where { WithoutMember(order, i, r[j]); }
    forall e | e in where && e !in r ensures e !in order || e == order[i] { WithoutMember(order, i, e); }
    WithoutMember(order, i, order[i]);
  }

  class FifoPolicy {
    const root: ListElement
    const staticMaxMemory: nat
    var dynamicMaxMemory: nat
    var registry: seq<Storage>
    var currentMemory: nat
    ghost var where: Directory
    ghost var order: seq<ListElement>

    /** The ring is root followed by `order`; every other element is alone. */
    ghost predicate Listed()
      reads this`order, this`where, root, where.Keys
    {
      && root !in where
      && AllIn(order, where)
      && IsRing([root] + order)
      && (forall e {:trigger Settled(e)} :: e in where.Keys ==> Settled(e))
    }

    ghost predicate Settled(e: ListElement)
      reads this`order, e
    {
      e in order || e.IsAlone()
    }

    ghost function List(): (s: seq<Seg>)
      requires AllIn(order, where)
      reads this`order, this`where
    {
      Segs(where, order)
    }

    /** The counter is the memory of the listed segments. */
    ghost predicate Valid()
      reads this, root, where.Keys
    {
      Listed() && Describes(where, registry) && currentMemory == Total(List())
    }

    constructor (maxMemory: nat)
      ensures Valid() && registry == [] && List() == [] && fresh(root)
      ensures staticMaxMemory == dynamicMaxMemory == maxMemory
    {
      root := new ListElement();
      staticMaxMemory, dynamicMaxMemory := maxMemory, maxMemory;
      registry, currentMemory, order, where := [], 0, [], map[];
      new;
      assert [root] + order == [root];
    }

    /** Registers a mapping with one lone element per segment. `ok` is false where the
        source stops: a segment larger than the policy, or no room for one per mapping. */
    method AllocateElementStorage(mapping: nat, count: nat, segmentSize: nat) returns (ok: bool)
      requires Valid() && forall st :: st in registry ==> st.mapping != mapping
      modifies this`registry, this`where
      ensures ok == (segmentSize <= staticMaxMemory && OnePerMapping(old(registry)) + segmentSize <= dynamicMaxMemory)
      ensures ok ==> Valid() && List() == old(List()) && |registry| == |old(registry)| + 1
      ensures ok ==> registry[..|old(registry)|] == old(registry)
      ensures ok ==> var st := registry[|old(registry)|];
                     st.mapping == mapping && st.segmentSize == segmentSize && |st.elements| == count
    {
      if segmentSize > staticMaxMemory { return false; }
      var elements, entries := NewElements(mapping, count, segmentSize);
      var st := Storage(mapping, segmentSize, elements);
      ok := OnePerMapping(registry + [st]) <= dynamicMaxMemory;
      assert (registry + [st])[..|registry|] == registry;
      if !ok { return; }
      DescribesMore(where, registry, st, entries);
      assert Segs(where + entries, order) == Segs(where, order);
      registry := registry + [st];
      where := where + entries;
      forall e | e in where.Keys ensures Settled(e) {
        if e in old(where) { assert old(Settled(e)); }
      }
    }

    method NewElements(mapping: nat, count: nat, segmentSize: nat)
      returns (elements: seq<ListElement>, ghost entries: Directory)
      ensures |elements| == count && fresh(entries.Keys)
      ensures forall e :: e in entries ==> e.IsAlone() && e in elements
      ensures forall i: nat :: i < count ==> Placed(entries, Storage(mapping, segmentSize, elements), i)
    {
      elements, entries := [], map[];
      for i := 0 to count
        invariant |elements| == i && fresh(entries.Keys)
        invariant forall e :: e in entries ==> e.IsAlone() && e in elements
        invariant forall j: nat :: j < i ==> Placed(entries, Storage(mapping, segmentSize, elements), j)
      {
        ghost var was, listed := entries, Storage(mapping, segmentSize, elements);
        var e := new ListElement();
        entries := entries[e := Seg(mapping, i, segmentSize)];
        elements := elements + [e];
        forall j: nat | j <= i ensures Placed(entries, Storage(mapping, segmentSize, elements), j) {
          if j < i { assert Placed(was, listed, j); }
        }
      }
    }

    /** isAlone tells whether an element is listed. */
    lemma AloneIffUnlisted(cur: ListElement)
      requires Listed() && cur in where
      ensures cur.IsAlone() <==> cur !in order
      ensures cur.IsInList() <==> cur in order
    {
      if cur in order {
        var i :| 0 <= i < |order| && order[i] == cur;
        RingAlone([root] + order, i + 1);
      } else {
        assert Settled(cur);
      }
    }

    /** removeFromList, on an element in the ring or not. */
    method Detach(cur: ListElement) returns (ghost i: nat)
      requires Listed() && cur in where
      modifies root, where.Keys, this`order
      ensures Listed() && cur !in order
      ensures if cur in old(order) then i < |old(order)| && old(order)[i] == cur && order == Without(old(order), i)
              else order == old(order)
    {
      AloneIffUnlisted(cur);
      i := 0;
      if cur.IsAlone() {
        cur.RemoveFromList([cur], 0);
      } else {
        i :| 0 <= i < |order| && order[i] == cur;
        DetachListed(cur, i);
      }
    }

    method DetachListed(cur: ListElement, ghost i: nat)
      requires Listed() && i < |order| && order[i] == cur
      modifies root, where.Keys, this`order
      ensures Listed() && order == Without(old(order), i) && cur !in order
    {
      ghost var nodes, rest := [root] + order, Without(order, i);
      Links(nodes, i + 1);
      assert cur.next in nodes && cur.prev in nodes;
      RootApart(root, order);
      RestFacts(order, i, where);
      assert Without(nodes, i + 1) == [root] + rest;
      cur.RemoveFromList(nodes, i + 1);
      order := rest;
      forall x | x in where.Keys ensures Settled(x) { assert old(Settled(x)); }
    }

    method PushFront(cur: ListElement)
      requires Listed() && cur in where && cur !in order
      modifies root, where.Keys, this`order
      ensures Listed() && order == [cur] + old(order)
    {
      Links([root] + order, 0);
      assert Settled(cur);
      root.InsertAfter(cur, order);
      order := [cur] + order;
      forall x | x in where.Keys ensures Settled(x) { assert old(Settled(x)); }
    }

    method PopOldest() returns (e: ListElement)
      requires Listed() && order != []
      modifies root, where.Keys, this`order
      ensures Listed() && e == old(order)[|old(order)| - 1] && order == old(order)[..|old(order)| - 1]
    {
      ghost var n, nodes := |order| - 1, [root] + order;
      Links(nodes, 0);
      Links(nodes, n + 1);
      RootApart(root, order);
      RestFacts(order, n, where);
      assert Without(order, n) == order[..n];
      assert root.prev in nodes && root.prev.prev in nodes;
      var p := root.PopPrev(order);
      e := p;
      order := order[..n];
      forall x | x in where.Keys ensures Settled(x) { assert old(Settled(x)); }
    }

    /** The storage and index of an element: the search by address range. */
    method GetStorageInfo(entry: ListElement) returns (k: nat, i: nat)
      requires Describes(where, registry) && entry in where
      ensures k < |registry| && i < |registry[k].elements| && registry[k].elements[i] == entry
      ensures where[entry] == Seg(registry[k].mapping, i, registry[k].segmentSize)
    {
      assert InRegistry(entry, registry);
      k := 0;
      while true
        invariant k <= |registry| && forall l :: 0 <= l < k ==> entry !in registry[l].elements
        decreases |registry| - k
      {
        i := 0;
        while i < |registry[k].elements|
          invariant i <= |registry[k].elements| && entry !in registry[k].elements[..i]
        {
          if registry[k].elements[i] == entry {
            assert Placed(where, registry[k], i);
            return;
          }
          i := i + 1;
        }
        k := k + 1;
      }
    }

    /** The storage of a mapping. */
    method GetStorageOf(mapping: nat) returns (k: nat)
      requires exists l :: 0 <= l < |registry| && registry[l].mapping == mapping
      ensures k < |registry| && registry[k].mapping == mapping
    {
      k := 0;
      while registry[k].mapping != mapping
        invariant k < |registry| && forall l :: 0 <= l < k ==> registry[l].mapping != mapping
        decreases |registry| - k
      {
        k := k + 1;
      }
    }

    /** The eviction loop of notifyTouch and shrinkMemory. It ends because the counter is
        the memory of the list, and stops the process when the victim buffer is full. */
    method EvictDown() returns (victims: seq<Seg>, aborted: bool)
      requires Valid()
      modifies root, where.Keys, this`order, this`currentMemory
      ensures aborted <==> |Victims(old(List()), dynamicMaxMemory)| >= MAX_VICTIMS
      ensures !aborted ==> Valid() && victims == Victims(old(List()), dynamicMaxMemory)
      ensures !aborted ==> List() == Kept(old(List()), dynamicMaxMemory)
    {
      victims := [];
      ghost var all := List();
      PopStart(all, dynamicMaxMemory);
      while currentMemory > dynamicMaxMemory
        invariant where == old(where) && Valid() && |order| <= |all| && List() == all[..|order|]
        invariant Popped(all, |order|, dynamicMaxMemory, victims) && |victims| < MAX_VICTIMS
        decreases |order|
      {
        PopStep(all, |order|, dynamicMaxMemory, victims);
        var s, full := EvictOne(|victims|);
        victims := victims + [s];
        if full { return victims, true; }
      }
      PopDone(all, |order|, dynamicMaxMemory, victims);
      aborted := false;
    }

    /** One round: the oldest segment leaves; `full` is set when the buffer overflows. */
    method EvictOne(count: nat) returns (s: Seg, full: bool)
      requires Valid() && order != []
      modifies root, where.Keys, this`order, this`currentMemory
      ensures AllIn(order, where) && List() == old(List())[..|old(order)| - 1] && s == old(List())[|old(order)| - 1]
      ensures full == (count + 1 >= MAX_VICTIMS) && (!full ==> Valid())
    {
      s := PopVictim();
      full := count + 1 >= MAX_VICTIMS;
      if !full { currentMemory := currentMemory - s.size; }
    }

    method PopVictim() returns (s: Seg)
      requires Listed() && Describes(where, registry) && order != []
      modifies root, where.Keys, this`order
      ensures Listed() && order == old(order)[..|old(order)| - 1]
      ensures List() == old(List())[..|order|] && s == old(List())[|order|]
    {
      var toEvict := PopOldest();
      var k, i := GetStorageInfo(toEvict);
      s := Seg(registry[k].mapping, i, registry[k].segmentSize);
    }

    /** A segment of a registered mapping, with the size of its segments. */
    ghost predicate Registered(s: Seg)
      reads this`registry
    {
      exists st :: st in registry && st.mapping == s.mapping && st.segmentSize == s.size && s.index < |st.elements|
    }

    /** A touch: the segment becomes the newest, and the oldest ones leave until the
        policy fits its limit. */
    method NotifyTouch(mapping: nat, index: nat) returns (victims: seq<Seg>, aborted: bool, ghost s: Seg)
      requires Valid()
      requires exists l :: 0 <= l < |registry| && registry[l].mapping == mapping && index < |registry[l].elements|
      modifies root, where.Keys, this`order, this`currentMemory
      ensures s.mapping == mapping && s.index == index
      ensures Registered(s)
      ensures aborted <==> |Victims(Touched(old(List()), s), dynamicMaxMemory)| >= MAX_VICTIMS
      ensures !aborted ==> Valid() && victims == Victims(Touched(old(List()), s), dynamicMaxMemory)
      ensures !aborted ==> List() == Kept(Touched(old(List()), s), dynamicMaxMemory)
    {
      var k := GetStorageOf(mapping);
      var cur := registry[k].elements[index];
      assert Placed(where, registry[k], index);
      s := where[cur];
      assert Registered(s);
      AloneIffUnlisted(cur);
      var isFirstAccess := cur.IsAlone();
      MoveToFront(cur);
      if isFirstAccess { currentMemory := currentMemory + registry[k].segmentSize; }
      TouchedTotal(old(List()), s);
      victims, aborted := EvictDown();
    }

    method ShrinkMemory() returns (victims: seq<Seg>, aborted: bool)
      requires Valid()
      modifies root, where.Keys, this`order, this`currentMemory
      ensures aborted <==> |Victims(old(List()), dynamicMaxMemory)| >= MAX_VICTIMS
      ensures !aborted ==> Valid() && victims == Victims(old(List()), dynamicMaxMemory)
      ensures !aborted ==> List() == Kept(old(List()), dynamicMaxMemory)
    {
      victims, aborted := EvictDown();
    }

    /** Another policy evicted the segment; the source asserts that it is listed here. */
    method NotifyEvict(mapping: nat, index: nat) returns (ghost s: Seg)
      requires Valid()
      requires exists l :: 0 <= l < |registry| && registry[l].mapping == mapping && index < |registry[l].elements|
                           && registry[l].elements[index] in order
      modifies root, where.Keys, this`order, this`currentMemory
      ensures Valid() && s.mapping == mapping && s.index == index && s in old(List())
      ensures List() == Remove(old(List()), s)
    {
      var k := GetStorageOf(mapping);
      var cur := registry[k].elements[index];
      assert Placed(where, registry[k], index);
      s := where[cur];
      SegsMember(where, registry, order, cur);
      Forget(cur, registry[k].segmentSize);
    }

    /** Takes an element out of the list and its size out of the counter. */
    method Forget(cur: ListElement, size: nat)
      requires Valid() && cur in where && where[cur].size == size
      modifies root, where.Keys, this`order, this`currentMemory
      ensures Valid() && List() == Remove(old(List()), where[cur])
    {
      RootApart(root, order);
      AloneIffUnlisted(cur);
      var wasListed := cur.IsInList();
      ghost var i := Detach(cur);
      SegsDetached(where, registry, old(order), order, cur, i);
      if wasListed { currentMemory := currentMemory - size; }
    }

    /** Unregistering a mapping takes exactly its segments off the list. */
    method FreeElementStorage(mapping: nat) returns (ghost gone: Storage)
      requires Valid() && exists l :: 0 <= l < |registry| && registry[l].mapping == mapping
      modifies root, where.Keys, this`order, this`currentMemory, this`registry, this`where
      ensures Valid() && gone in old(registry) && gone.mapping == mapping
      ensures List() == RemoveSegments(old(List()), mapping, gone.segmentSize, |gone.elements|)
      ensures forall st :: st in registry ==> st.mapping != mapping
    {
      var k := GetStorageOf(mapping);
      gone := registry[k];
      ghost var before := List();
      assert forall i: nat :: i < |registry[k].elements| ==> Placed(where, registry[k], i);
      ForgetAll(registry[k]);
      forall x | x in List()
        ensures !(x.mapping == mapping && x.index < |gone.elements| && x.size == gone.segmentSize)
      {
        RemoveSegmentsMember(before, mapping, gone.segmentSize, |gone.elements|, x);
      }
      Unregister(k);
    }

    method ForgetAll(st: Storage)
      requires Valid() && Stands(st)
      modifies root, where.Keys, this`order, this`currentMemory
      ensures Valid()
      ensures List() == RemoveSegments(old(List()), st.mapping, st.segmentSize, |st.elements|)
    {
      ghost var before := List();
      var i := 0;
      while i < |st.elements|
        invariant 0 <= i <= |st.elements| && where == old(where) && Valid()
        invariant List() == RemoveSegments(before, st.mapping, st.segmentSize, i)
      {
        ForgetAt(st, i, before);
        i := i + 1;
      }
    }

    ghost predicate Stands(st: Storage)
      reads this`where
    {
      forall i: nat :: i < |st.elements| ==> Placed(where, st, i)
    }

    method ForgetAt(st: Storage, i: nat, ghost before: seq<Seg>)
      requires Valid() && Stands(st) && i < |st.elements|
      requires List() == RemoveSegments(before, st.mapping, st.segmentSize, i)
      modifies root, where.Keys, this`order, this`currentMemory
      ensures Valid() && List() == RemoveSegments(before, st.mapping, st.segmentSize, i + 1)
    {
      assert Placed(where, st, i);
      Forget(st.elements[i], st.segmentSize);
    }

    /** Drops the storage of a mapping none of whose segments is listed any more. */
    method Unregister(k: nat)
      requires Valid() && k < |registry|
      requires forall x :: x in List() ==> !(x.mapping == registry[k].mapping && x.index < |registry[k].elements|
                                             && x.size == registry[k].segmentSize)
      modifies this`registry, this`where
      ensures Valid() && registry == Without(old(registry), k) && List() == old(List()) && order == old(order)
      ensures forall st :: st in registry ==> st.mapping != old(registry)[k].mapping
    {
      var st := registry[k];
      ghost var mine := set i | 0 <= i < |st.elements| :: st.elements[i];
      forall i | 0 <= i < |order| ensures order[i] !in mine {
        assert List()[i] in List();
        if order[i] in mine { MineAre(where, registry, k, mine, order[i]); }
      }
      DescribesWithout(where, registry, k, mine);
      assert Segs(where - mine, order) == Segs(where, order);
      registry := registry[..k] + registry[k + 1..];
      where := where - mine;
    }

    method MoveToFront(cur: ListElement)
      requires Listed() && Describes(where, registry) && cur in where
      modifies root, where.Keys, this`order
      ensures Listed() && List() == Touched(old(List()), where[cur])
      ensures NoDup(old(List())) && (where[cur] in old(List()) <==> cur in old(order))
    {
      RootApart(root, order);
      SegsNoDup(where, registry, order);
      SegsMember(where, registry, order, cur);
      ghost var i := Detach(cur);
      SegsRemove(where, old(order), order, cur, i);
      PushFront(cur);
      SegsPrepend(where, cur, order[1..], order);
    }
  }

  lemma MineAre(where: Directory, reg: seq<Storage>, k: nat, mine: set<ListElement>, e: ListElement)
    requires Describes(where, reg) && k < |reg| && e in mine
    requires mine == set i | 0 <= i < |reg[k].elements| :: reg[k].elements[i]
    ensures e in where && where[e].mapping == reg[k].mapping && where[e].size == reg[k].segmentSize
    ensures where[e].index < |reg[k].elements|
  {
    var i: nat :| i < |reg[k].elements| && reg[k].elements[i] == e;
    assert Placed(where, reg[k], i);
  }

  lemma DescribesWithout(where: Directory, reg: seq<Storage>, k: nat, mine: set<ListElement>)
    requires Describes(where, reg) && k < |reg|
    requires mine == set i | 0 <= i < |reg[k].elements| :: reg[k].elements[i]
    ensures Describes(where - mine, reg[..k] + reg[k + 1..])
    ensures forall st :: st in reg[..k] + reg[k + 1..] ==> st.mapping != reg[k].mapping
  {
    var rest, left := reg[..k] + reg[k + 1..], where - mine;
    forall l | 0 <= l < |rest| ensures rest[l].mapping != reg[k].mapping {
      assert rest[l] == reg[if l < k then l else l + 1];
    }
    forall l: nat, i: nat | l < |rest| && i < |rest[l].elements| ensures Placed(left, rest[l], i) {
      var m := if l < k then l else l + 1;
      assert rest[l] == reg[m] && Placed(where, reg[m], i);
      if rest[l].elements[i] in mine { MineAre(where, reg, k, mine, rest[l].elements[i]); }
    }
    forall e | e in left ensures InRegistry(e, rest) {
      assert InRegistry(e, reg);
      var m :| 0 <= m < |reg| && e in reg[m].elements;
      assert m != k;
      assert rest[if m < k then m else m - 1] == reg[m];
    }
  }

  lemma SegsPrepend(where: Directory, cur: ListElement, rest: seq<ListElement>, order: seq<ListElement>)
    requires AllIn(rest, where) && cur in where && order == [cur] + rest && AllIn(order, where)
    ensures Segs(where, order) == [where[cur]] + Segs(where, rest)
  {
  }

  /** An element out of the ring is its segment off the list and its size out of the total. */
  lemma SegsDetached(where: Directory, reg: seq<Storage>, before: seq<ListElement>, after: seq<ListElement>,
                     cur: ListElement, i: nat)
    requires Describes(where, reg) && AllIn(before, where) && AllIn(after, where) && cur in where && Distinct(before)
    requires if cur in before then i < |before| && before[i] == cur && after == Without(before, i) else after == before
    ensures Segs(where, after) == Remove(Segs(where, before), where[cur])
    ensures Total(Segs(where, before)) == Total(Segs(where, after)) + if cur in before then where[cur].size else 0
  {
    SegsNoDup(where, reg, before);
    SegsMember(where, reg, before, cur);
    RemoveTotal(Segs(where, before), where[cur]);
    SegsRemove(where, before, after, cur, i);
  }

  lemma SegsRemove(where: Directory, before: seq<ListElement>, after: seq<ListElement>, cur: ListElement, i: nat)
    requires AllIn(before, where) && AllIn(after, where) && cur in where && NoDup(Segs(where, before))
    requires where[cur] in Segs(where, before) <==> cur in before
    requires if cur in before then i < |before| && before[i] == cur && after == Without(before, i) else after == before
    ensures Segs(where, after) == Remove(Segs(where, before), where[cur])
  {
    var s := Segs(where, before);
    if cur in before {
      RemoveAt(s, i);
      assert Segs(where, after) == s[..i] + s[i + 1..];
    } else {
      RemoveAbsent(s, where[cur]);
    }
  }
}
