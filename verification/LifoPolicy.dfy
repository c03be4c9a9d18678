/**
 The LIFO policy: a touched segment goes to the end of the ring that evictions take from,
 after the evictions that make room for it. Its list is oldest first.
 */
module LifoPolicy {
  import opened PolicyLists

  /** What a touch leaves, when the segment fits the limit: the oldest other segments that
      fit beside it, and the segment itself at the end. */
  function Touch(list: seq<Seg>, s: Seg, limit: nat): seq<Seg>
    requires s.size <= limit
  {
    Kept(Remove(list, s), limit - s.size) + [s]
  }

  /** The limit holds after a touch, and one more of the evicted segments would break it. */
  lemma {:induction false} TouchFits(list: seq<Seg>, s: Seg, limit: nat)
    requires s.size <= limit
    ensures Total(Touch(list, s, limit)) <= limit && s in Touch(list, s, limit)
    ensures var r := Remove(list, s);
      var k := Survivors(r, limit - s.size);
      k < |r| ==> Total(r[..k + 1] + [s]) > limit
  {
    var r, room := Remove(list, s), limit - s.size;
    var k := Survivors(r, room);
    ShortestSuffix(r, room);
    TotalAppend(r[..k], s);
    assert Touch(list, s, limit)[k] == s;
    if k < |r| { TotalAppend(r[..k + 1], s); }
  }

  /** The touched segment is not among the victims. */
  lemma {:induction false} TouchedNotEvicted(list: seq<Seg>, s: Seg, room: nat)
    ensures s !in Victims(Remove(list, s), room)
  {
    var r := Remove(list, s);
    forall i | 0 <= i < |r| ensures r[i] != s { assert r[i] in r; }
  }

  lemma {:induction false} TouchNoDup(list: seq<Seg>, s: Seg, limit: nat)
    requires NoDup(list) && s.size <= limit
    ensures NoDup(Touch(list, s, limit))
  {
    var r := Remove(list, s);
    RemoveNoDup(list, s);
    forall i | 0 <= i < |r| ensures r[i] != s { assert r[i] in r; }
    AppendNoDup(Kept(r, limit - s.size), s);
  }

  lemma {:induction false} AppendNoDup(list: seq<Seg>, s: Seg)
    requires NoDup(list) && s !in list
    ensures NoDup(list + [s])
  {
  }

  /** The victims are the most recently touched other segments: every survivor was touched
      before every victim. */
  lemma {:induction false} NewestLeaveFirst(list: seq<Seg>, history: seq<Seg>, s: Seg, limit: nat, i: nat, j: nat)
    requires s.size <= limit && OrderedBy(Reversed(list), history)
    requires var r := Remove(list, s); i < Survivors(r, limit - s.size) <= j < |r|
    ensures var r := Remove(list, s); LastTouch(history, r[i]) < LastTouch(history, r[j])
  {
    RemoveSorted(list, history, s, i, j);
  }

  lemma {:induction false} RemoveSorted(list: seq<Seg>, history: seq<Seg>, s: Seg, i: nat, j: nat)
    requires OrderedBy(Reversed(list), history) && i < j < |Remove(list, s)|
    ensures LastTouch(history, Remove(list, s)[i]) < LastTouch(history, Remove(list, s)[j])
  {
    var n := |list| - 1;
    var v := Reversed(list);
    var shorter := Reversed(list[..n]);
    assert forall k :: 0 <= k < n ==> shorter[k] == v[k + 1];
    var r := Remove(list[..n], s);
    if list[n] != s && j == |r| {
      assert r[i] in r;
      var k :| 0 <= k < n && list[k] == r[i];
      assert v[n - k] == list[k] && v[0] == list[n];
    } else {
      RemoveSorted(list[..n], history, s, i, j);
    }
  }

  // ---- whole runs ------------------------------------------------------------------------

  /** Oldest first: `OrderedBy` read backwards, see `OldestFirstIs`. */
  predicate OldestFirst(list: seq<Seg>, history: seq<Seg>) {
    && (forall i :: 0 <= i < |list| ==> LastTouch(history, list[i]) > 0)
    && (forall i, j :: 0 <= i < j < |list| ==> LastTouch(history, list[i]) < LastTouch(history, list[j]))
  }

  lemma {:induction false} OldestFirstIs(list: seq<Seg>, history: seq<Seg>)
    ensures OldestFirst(list, history) <==> OrderedBy(Reversed(list), history)
  {
    var v, n := Reversed(list), |list| - 1;
    if OrderedBy(v, history) {
      forall i | 0 <= i < |list| ensures LastTouch(history, list[i]) > 0 { assert v[n - i] == list[i]; }
      forall i, j | 0 <= i < j < |list| ensures LastTouch(history, list[i]) < LastTouch(history, list[j]) {
        assert v[n - i] == list[i] && v[n - j] == list[j];
      }
    }
  }

  lemma {:induction false} RemoveOldestFirst(list: seq<Seg>, history: seq<Seg>, s: Seg)
    requires OldestFirst(list, history)
    ensures OldestFirst(Remove(list, s), history)
  {
    var r := Remove(list, s);
    OldestFirstIs(list, history);
    forall i | 0 <= i < |r| ensures LastTouch(history, r[i]) > 0 {
      assert r[i] in r;
      var k :| 0 <= k < |list| && list[k] == r[i];
    }
    forall i, j | 0 <= i < j < |r| ensures LastTouch(history, r[i]) < LastTouch(history, r[j]) {
      RemoveSorted(list, history, s, i, j);
    }
  }

  lemma {:induction false} KeptOldestFirst(list: seq<Seg>, history: seq<Seg>, limit: nat)
    requires OldestFirst(list, history)
    ensures OldestFirst(Kept(list, limit), history)
  {
  }

  lemma {:induction false} EndOldestFirst(list: seq<Seg>, history: seq<Seg>, s: Seg)
    requires OldestFirst(list, history) && s !in list
    ensures OldestFirst(list + [s], history + [s])
  {
    LaterTouch(history, s, s);
    forall i | 0 <= i < |list|
      ensures LastTouch(history + [s], list[i]) == LastTouch(history, list[i]) <= |history|
    {
      assert list[i] in list;
      LaterTouch(history, s, list[i]);
      LastTouchBound(history, list[i]);
    }
  }

  /** A touch keeps the list ordered by last touch, the touched segment last. */
  lemma {:induction false} TouchOldestFirst(list: seq<Seg>, history: seq<Seg>, s: Seg, limit: nat)
    requires s.size <= limit && OldestFirst(list, history)
    ensures OldestFirst(Touch(list, s, limit), history + [s])
  {
    var r, room := Remove(list, s), limit - s.size;
    RemoveOldestFirst(list, history, s);
    KeptOldestFirst(r, history, room);
    forall i | 0 <= i < |Kept(r, room)| ensures Kept(r, room)[i] != s { assert r[i] in r; }
    EndOldestFirst(Kept(r, room), history, s);
  }

  /** Every touched segment fits the limit of its touch; others never return. */
  predicate AllFit(ops: seq<ListOp>) {
    forall i :: 0 <= i < |ops| && ops[i].TouchOp? ==> ops[i].s.size <= ops[i].limit
  }

  function Run(ops: seq<ListOp>): seq<Seg>
    requires AllFit(ops)
  {
    if ops == [] then []
    else
      var list := Run(ops[..|ops| - 1]);
      match ops[|ops| - 1]
      case TouchOp(s, limit) => Touch(list, s, limit)
      case ShrinkOp(limit) => Kept(list, limit)
      case ForgetOp(s) => Remove(list, s)
  }

  /** After every run the list is ordered by last touch, oldest first, holds no segment twice
      and fits the limit the last touch or shrink was given. */
  lemma {:induction false} RunOldestFirst(ops: seq<ListOp>)
    requires AllFit(ops)
    ensures NoDup(Run(ops)) && OldestFirst(Run(ops), History(ops))
    ensures ops != [] && !ops[|ops| - 1].ForgetOp? ==> Total(Run(ops)) <= ops[|ops| - 1].limit
  {
    if ops != [] {
      var before, op := ops[..|ops| - 1], ops[|ops| - 1];
      var list, history := Run(before), History(before);
      RunOldestFirst(before);
      match op
      case TouchOp(s, limit) =>
        TouchOldestFirst(list, history, s, limit);
        TouchNoDup(list, s, limit);
        TouchFits(list, s, limit);
      case ShrinkOp(limit) =>
        KeptNoDup(list, limit);
        KeptOldestFirst(list, history, limit);
        ShortestSuffix(list, limit);
      case ForgetOp(s) =>
        RemoveTotal(list, s);
        RemoveOldestFirst(list, history, s);
    }
  }

  lemma {:induction false} CutOrder(r: seq<Seg>, history: seq<Seg>, room: nat, victim: Seg, stays: Seg)
    requires OldestFirst(r, history) && victim in Victims(r, room) && stays in Kept(r, room)
    ensures LastTouch(history, stays) < LastTouch(history, victim)
  {
    var v := Victims(r, room);
    var i :| 0 <= i < |v| && v[i] == victim;
    assert r[|r| - 1 - i] == victim;
    var j :| 0 <= j < Survivors(r, room) && r[j] == stays;
  }

  lemma {:induction false} NotLast(list: seq<Seg>, s: Seg, x: Seg)
    requires x in list + [s] && x != s
    ensures x in list
  {
  }

  lemma {:induction false} TouchOrder(list: seq<Seg>, history: seq<Seg>, s: Seg, limit: nat, victim: Seg, stays: Seg)
    requires OldestFirst(Remove(list, s), history) && s.size <= limit
    requires victim in Victims(Remove(list, s), limit - s.size) && stays in Touch(list, s, limit) && stays != s
    ensures LastTouch(history, stays) < LastTouch(history, victim)
  {
    var r, room := Remove(list, s), limit - s.size;
    NotLast(Kept(r, room), s, stays);
    CutOrder(r, history, room, victim, stays);
  }

  /** Last in, first out, over every run: what a touch evicts was touched later than every
      other segment that stays. */
  lemma {:induction false} VictimsAreNewest(ops: seq<ListOp>, s: Seg, limit: nat, victim: Seg, stays: Seg)
    requires AllFit(ops) && s.size <= limit
    requires victim in Victims(Remove(Run(ops), s), limit - s.size)
    requires stays in Touch(Run(ops), s, limit) && stays != s
    ensures LastTouch(History(ops), stays) < LastTouch(History(ops), victim)
  {
    assert OldestFirst(Remove(Run(ops), s), History(ops)) by {
      RunOldestFirst(ops);
      RemoveOldestFirst(Run(ops), History(ops), s);
    }
    TouchOrder(Run(ops), History(ops), s, limit, victim, stays);
  }

  class LifoPolicy {
    var root: seq<Seg>
    var currentMemory: nat
    var dynamicMaxMemory: nat

    ghost predicate Valid()
      reads this
    {
      NoDup(root) && currentMemory == Total(root)
    }

    constructor (maxMemory: nat)
      ensures Valid() && root == [] && dynamicMaxMemory == maxMemory
    {
      root, currentMemory, dynamicMaxMemory := [], 0, maxMemory;
    }

    /** The counter already includes the touched segment while the loop runs on the list
        without it: the loop ends because the segment alone fits the limit. */
    method NotifyTouch(s: Seg) returns (victims: seq<Seg>, aborted: bool)
      requires Valid() && s.size <= dynamicMaxMemory
      modifies this`root, this`currentMemory
      ensures aborted <==> |Victims(Remove(old(root), s), dynamicMaxMemory - s.size)| >= MAX_VICTIMS
      ensures !aborted ==> Valid() && root == Touch(old(root), s, dynamicMaxMemory)
      ensures !aborted ==> victims == Victims(Remove(old(root), s), dynamicMaxMemory - s.size)
    {
      ghost var before := root;
      TakeOut(s);
      victims, aborted := EvictFor(s.size);
      if !aborted {
        Append(s);
        assert root == Touch(before, s, dynamicMaxMemory);
        TouchNoDup(before, s, dynamicMaxMemory);
      }
    }

    /** The segment leaves the list but is counted. */
    method TakeOut(s: Seg)
      requires Valid()
      modifies this`root, this`currentMemory
      ensures root == Remove(old(root), s) && currentMemory == Total(root) + s.size
    {
      RemoveTotal(root, s);
      var isFirstAccess := s !in root;
      root := Remove(root, s);
      if isFirstAccess { currentMemory := currentMemory + s.size; }
    }

    method Append(s: Seg)
      requires currentMemory == Total(root) + s.size
      modifies this`root
      ensures root == old(root) + [s] && currentMemory == Total(root)
    {
      TotalAppend(root, s);
      root := root + [s];
    }

    /** The eviction loop, with `size` bytes counted that are not on the list. */
    method EvictFor(size: nat) returns (victims: seq<Seg>, aborted: bool)
      requires currentMemory == Total(root) + size && size <= dynamicMaxMemory
      modifies this`root, this`currentMemory
      ensures aborted <==> |Victims(old(root), dynamicMaxMemory - size)| >= MAX_VICTIMS
      ensures !aborted ==> currentMemory == Total(root) + size && root == Kept(old(root), dynamicMaxMemory - size)
      ensures !aborted ==> victims == Victims(old(root), dynamicMaxMemory - size)
    {
      ghost var all, limit := root, dynamicMaxMemory - size;
      victims := [];
      PopStart(all, limit);
      while currentMemory > dynamicMaxMemory
        invariant currentMemory == Total(root) + size && |root| <= |all| && root == all[..|root|]
        invariant Popped(all, |root|, limit, victims) && |victims| < MAX_VICTIMS
        decreases |root|
      {
        PopStep(all, |root|, limit, victims);
        var v := root[|root| - 1];
        root := root[..|root| - 1];
        victims := victims + [v];
        if |victims| >= MAX_VICTIMS { return victims, true; }
        currentMemory := currentMemory - v.size;
      }
      PopDone(all, |root|, limit, victims);
      aborted := false;
    }

    method ShrinkMemory() returns (victims: seq<Seg>, aborted: bool)
      requires Valid()
      modifies this`root, this`currentMemory
      ensures aborted <==> |Victims(old(root), dynamicMaxMemory)| >= MAX_VICTIMS
      ensures !aborted ==> Valid() && root == Kept(old(root), dynamicMaxMemory)
      ensures !aborted ==> victims == Victims(old(root), dynamicMaxMemory)
    {
      victims, aborted := EvictFor(0);
    }
  }

  /** The counter in the loop once `n` segments are left on the list. */
  function Counter(list: seq<Seg>, s: Seg, n: nat): nat
    requires n <= |list|
  {
    Total(list[..n]) + s.size
  }

  /** The loop can leave exactly when the segment fits the limit: a larger one keeps the
      counter above the limit even with an empty list, and the loop never ends. */
  lemma LoopLeavesExactly(list: seq<Seg>, s: Seg, limit: nat)
    ensures (exists n: nat :: n <= |list| && Counter(list, s, n) <= limit) <==> s.size <= limit
  {
    assert list[..0] == [];
    assert Counter(list, s, 0) == s.size;
  }
}
