/**
 Eviction lists on values: the segments a policy tracks, newest first, and what touching,
 evicting and shrinking do to them. The linked rings of the policies refine these lists.
 */
module PolicyLists {

  /** A segment as a policy sees it. */
  datatype Seg = Seg(mapping: nat, index: nat, size: nat)

  /** A FIFO policy: what it lists, newest first, and its dynamicMaxMemory. */
  datatype Policy = Policy(list: seq<Seg>, limit: nat)

  /** The process aborts when one touch or shrink needs this many victims. */
  const MAX_VICTIMS := 128

  function Total(list: seq<Seg>): nat {
    if list == [] then 0 else Total(list[..|list| - 1]) + list[|list| - 1].size
  }

  predicate NoDup(list: seq<Seg>) {
    forall i, j :: 0 <= i < j < |list| ==> list[i] != list[j]
  }

  function Remove(list: seq<Seg>, s: Seg): (r: seq<Seg>)
    ensures |r| <= |list|
    ensures forall x {:trigger x in r} :: x in r <==> x in list && x != s
  {
    if list == [] then []
    else
      var n := |list| - 1;
      if list[n] == s then Remove(list[..n], s) else Remove(list[..n], s) + [list[n]]
  }

  /** A touched segment becomes the newest one. */
  function Touched(list: seq<Seg>, s: Seg): seq<Seg> {
    [s] + Remove(list, s)
  }

  /** How many of the newest segments survive the eviction loop. */
  function Survivors(list: seq<Seg>, limit: nat): (n: nat)
    ensures n <= |list|
  {
    if Total(list) <= limit then |list| else Survivors(list[..|list| - 1], limit)
  }

  function Kept(list: seq<Seg>, limit: nat): seq<Seg> { list[..Survivors(list, limit)] }

  function Reversed(list: seq<Seg>): (r: seq<Seg>)
    ensures |r| == |list|
    ensures forall i :: 0 <= i < |list| ==> r[i] == list[|list| - 1 - i]
  {
    if list == [] then [] else [list[|list| - 1]] + Reversed(list[..|list| - 1])
  }

  /** The evicted segments, oldest first: the order in which the loop pops them. */
  function Victims(list: seq<Seg>, limit: nat): seq<Seg> { Reversed(list[Survivors(list, limit)..]) }

  lemma {:induction false} ReversedPrepend(s: Seg, list: seq<Seg>)
    ensures Reversed([s] + list) == Reversed(list) + [s]
  {
    var a, b := Reversed([s] + list), Reversed(list) + [s];
    forall i | 0 <= i < |a| ensures a[i] == b[i] {}
  }

  /** The first n segments of a mapping taken off a list. */
  function RemoveSegments(list: seq<Seg>, mapping: nat, size: nat, n: nat): seq<Seg> {
    if n == 0 then list
    else Remove(RemoveSegments(list, mapping, size, n - 1), Seg(mapping, n - 1, size))
  }

  /** Exactly those segments are gone. */
  lemma {:induction false} RemoveSegmentsMember(list: seq<Seg>, mapping: nat, size: nat, n: nat, x: Seg)
    ensures x in RemoveSegments(list, mapping, size, n)
       <==> x in list && !(x.mapping == mapping && x.size == size && x.index < n)
  {
    if n > 0 { RemoveSegmentsMember(list, mapping, size, n - 1, x); }
  }

  /** A state of the eviction loop: the n newest segments of `all` are still listed. */
  ghost predicate Popped(all: seq<Seg>, n: nat, limit: nat, victims: seq<Seg>) {
    n <= |all| && victims == Reversed(all[n..]) && Survivors(all, limit) == Survivors(all[..n], limit)
  }

  lemma PopStart(all: seq<Seg>, limit: nat)
    ensures Popped(all, |all|, limit, [])
  {
    assert all[..|all|] == all && all[|all|..] == [];
  }

  lemma PopStep(all: seq<Seg>, n: nat, limit: nat, victims: seq<Seg>)
    requires Popped(all, n, limit, victims) && Total(all[..n]) > limit
    ensures n > 0 && Total(all[..n]) == Total(all[..n - 1]) + all[n - 1].size
    ensures Popped(all, n - 1, limit, victims + [all[n - 1]])
    ensures all[..n][..n - 1] == all[..n - 1]
    ensures |Victims(all, limit)| > |victims|
  {
    assert all[..n][..n - 1] == all[..n - 1];
    assert all[n - 1..] == [all[n - 1]] + all[n..];
    ReversedPrepend(all[n - 1], all[n..]);
  }

  lemma PopDone(all: seq<Seg>, n: nat, limit: nat, victims: seq<Seg>)
    requires Popped(all, n, limit, victims) && Total(all[..n]) <= limit
    ensures all[..n] == Kept(all, limit) && victims == Victims(all, limit)
  {
  }

  // ---- memory -----------------------------------------------------------------

  lemma {:induction false} TotalConcat(a: seq<Seg>, b: seq<Seg>)
    ensures Total(a + b) == Total(a) + Total(b)
  {
    if b == [] {
      assert a + b == a;
    } else {
      var n := |b| - 1;
      assert (a + b)[..|a + b| - 1] == a + b[..n];
      TotalConcat(a, b[..n]);
    }
  }

  lemma TotalOne(s: Seg)
    ensures Total([s]) == s.size
  {
    assert [s][..0] == [];
  }

  lemma {:induction false} TotalAppend(list: seq<Seg>, s: Seg)
    ensures Total(list + [s]) == Total(list) + s.size
  {
    assert (list + [s])[..|list|] == list;
  }

  lemma {:induction false} TotalPrepend(s: Seg, list: seq<Seg>)
    ensures Total([s] + list) == s.size + Total(list)
  {
    TotalConcat([s], list);
    TotalOne(s);
  }

  lemma {:induction false} RemoveAbsent(list: seq<Seg>, s: Seg)
    requires s !in list
    ensures Remove(list, s) == list
  {
    if list != [] { RemoveAbsent(list[..|list| - 1], s); }
  }

  lemma {:induction false} RemoveNoDup(list: seq<Seg>, s: Seg)
    requires NoDup(list)
    ensures NoDup(Remove(list, s))
  {
    if list != [] {
      var n := |list| - 1;
      RemoveNoDup(list[..n], s);
      var r := Remove(list[..n], s);
      forall i | 0 <= i < |r| ensures r[i] != list[n] {
        assert r[i] in r;
      }
    }
  }

  /** Removing a listed segment frees exactly its size. */
  lemma {:induction false} RemoveTotal(list: seq<Seg>, s: Seg)
    requires NoDup(list)
    ensures NoDup(Remove(list, s))
    ensures Total(list) == Total(Remove(list, s)) + if s in list then s.size else 0
  {
    RemoveNoDup(list, s);
    if s in list {
      var i :| 0 <= i < |list| && list[i] == s;
      RemoveAt(list, i);
      assert list == list[..i] + [s] + list[i + 1..];
      TotalConcat(list[..i] + [s], list[i + 1..]);
      TotalConcat(list[..i], [s]);
      TotalConcat(list[..i], list[i + 1..]);
      TotalOne(s);
    } else {
      RemoveAbsent(list, s);
    }
  }

  /** Removing position i of a list without duplicates. */
  lemma {:induction false} RemoveAt(list: seq<Seg>, i: nat)
    requires NoDup(list) && i < |list|
    ensures Remove(list, list[i]) == list[..i] + list[i + 1..]
  {
    var n := |list| - 1;
    if i == n {
      RemoveAbsent(list[..n], list[n]);
      assert list[..i] + list[i + 1..] == list[..n];
    } else {
      RemoveAt(list[..n], i);
      assert list[..n][i + 1..] + [list[n]] == list[i + 1..];
    }
  }

  lemma {:induction false} TouchedNoDup(list: seq<Seg>, s: Seg)
    requires NoDup(list)
    ensures NoDup(Touched(list, s))
  {
    var r := Remove(list, s);
    RemoveNoDup(list, s);
    forall i | 0 <= i < |r| ensures r[i] != s { assert r[i] in r; }
  }

  lemma {:induction false} TouchedTotal(list: seq<Seg>, s: Seg)
    requires NoDup(list)
    ensures NoDup(Touched(list, s))
    ensures Total(Touched(list, s)) == Total(list) + if s in list then 0 else s.size
  {
    TouchedNoDup(list, s);
    RemoveTotal(list, s);
    TotalPrepend(s, Remove(list, s));
  }

  /** The loop evicts the shortest suffix of oldest segments that brings the memory within
      the limit: what survives fits, and one segment more would not. */
  lemma {:induction false} ShortestSuffix(list: seq<Seg>, limit: nat)
    ensures Total(Kept(list, limit)) <= limit
    ensures Survivors(list, limit) < |list| ==> Total(list[..Survivors(list, limit) + 1]) > limit
    ensures Total(list) == Total(Kept(list, limit)) + Total(list[Survivors(list, limit)..])
  {
    var k := Survivors(list, limit);
    TotalConcat(list[..k], list[k..]);
    assert list == list[..k] + list[k..];
    if Total(list) <= limit {
      assert list[..k] == list;
    } else {
      var n := |list| - 1;
      ShortestSuffix(list[..n], limit);
      assert list[..n][..k] == list[..k];
      if k < n { assert list[..n][..k + 1] == list[..k + 1]; } else { assert list[..k + 1] == list; }
    }
  }

  /** No longer prefix fits: the survivors are the longest one. */
  lemma SurvivorsMaximal(list: seq<Seg>, limit: nat, j: nat)
    requires j <= |list| && Total(list[..j]) <= limit
    ensures j <= Survivors(list, limit)
  {
    var k := Survivors(list, limit);
    ShortestSuffix(list, limit);
    if k < j {
      assert list[..j] == list[..k + 1] + list[k + 1..j];
      TotalConcat(list[..k + 1], list[k + 1..j]);
    }
  }

  /** The segment just touched is never among the victims when it fits the limit. */
  lemma TouchedSurvives(list: seq<Seg>, s: Seg, limit: nat)
    requires NoDup(list)
    ensures s !in Victims(Touched(list, s), limit) <==> s.size <= limit
    ensures s.size <= limit ==> Kept(Touched(list, s), limit) != [] && Kept(Touched(list, s), limit)[0] == s
  {
    var t := Touched(list, s);
    TotalOne(s);
    assert t[..1] == [s];
    ShortestSuffix(t, limit);
    var k := Survivors(t, limit);
    if s.size <= limit {
      SurvivorsMaximal(t, limit, 1);
      assert forall i :: k <= i < |t| ==> t[i] in Remove(list, s);
    } else {
      if k > 0 {
        assert t[..k] == [s] + t[1..k];
        TotalConcat([s], t[1..k]);
        assert false;
      }
      assert Victims(t, limit)[|t| - 1] == s;
    }
  }

  predicate Uniform(list: seq<Seg>, size: nat) {
    forall i :: 0 <= i < |list| ==> list[i].size == size
  }

  lemma {:induction false} UniformSubset(a: seq<Seg>, b: seq<Seg>, g: nat)
    requires Uniform(b, g) && forall x :: x in a ==> x in b
    ensures Uniform(a, g)
  {
    forall i | 0 <= i < |a| ensures a[i].size == g { assert a[i] in a; }
  }

  lemma {:induction false} UniformTotal(list: seq<Seg>, size: nat)
    requires Uniform(list, size)
    ensures Total(list) == |list| * size
  {
    if list != [] {
      UniformTotal(list[..|list| - 1], size);
      assert |list| * size == (|list| - 1) * size + size;
    }
  }

  /** With one segment size and a limit respected before the touch, a touch evicts at most
      one segment, so the victim buffer never overflows. */
  lemma AtMostOneVictim(list: seq<Seg>, s: Seg, limit: nat)
    requires NoDup(list) && Uniform(list, s.size) && 0 < s.size && Total(list) <= limit
    ensures |Victims(Touched(list, s), limit)| <= 1
  {
    var t := Touched(list, s);
    TouchedTotal(list, s);
    if Total(t) > limit {
      var n := |t| - 1;
      RemoveAbsent(list, s);
      assert t == [s] + list;
      assert Total(t[..n]) == Total(t) - t[n].size;
      SurvivorsMaximal(t, limit, n);
    }
  }

  lemma VictimsNoDup(list: seq<Seg>, limit: nat)
    requires NoDup(list)
    ensures NoDup(Victims(list, limit))
  {
    var v, n := Victims(list, limit), |list| - 1;
    assert forall i :: 0 <= i < |v| ==> v[i] == list[n - i];
  }

  /** The kept and the evicted segments split the list. */
  lemma KeptNoDup(list: seq<Seg>, limit: nat)
    requires NoDup(list)
    ensures NoDup(Kept(list, limit))
    ensures forall x :: x in list <==> x in Kept(list, limit) || x in Victims(list, limit)
    ensures forall x :: x in Kept(list, limit) ==> x !in Victims(list, limit)
  {
    var k := Survivors(list, limit);
    var v := Victims(list, limit);
    forall x | x in list ensures x in Kept(list, limit) || x in v {
      var i :| 0 <= i < |list| && list[i] == x;
      if i >= k { assert v[|list| - 1 - i] == x; }
    }
  }

  // ---- many removals --------------------------------------------------------------

  function RemoveAll(list: seq<Seg>, gone: seq<Seg>): (r: seq<Seg>)
    ensures forall x {:trigger x in r} :: x in r <==> x in list && x !in gone
    decreases |gone|
  {
    if gone == [] then list else RemoveAll(Remove(list, gone[0]), gone[1..])
  }

  lemma RemoveAllOne(list: seq<Seg>, s: Seg)
    ensures RemoveAll(list, [s]) == Remove(list, s)
  {
    assert [s][1..] == [];
    assert RemoveAll(Remove(list, s), []) == Remove(list, s);
  }

  lemma {:induction false} RemoveAllTotal(list: seq<Seg>, gone: seq<Seg>)
    requires NoDup(list)
    ensures NoDup(RemoveAll(list, gone)) && Total(RemoveAll(list, gone)) <= Total(list)
    decreases |gone|
  {
    if gone != [] {
      RemoveTotal(list, gone[0]);
      RemoveAllTotal(Remove(list, gone[0]), gone[1..]);
    }
  }

  // ---- order of the last touch ------------------------------------------------------

  /** One past the position of the last touch of s in a history, 0 if there is none. */
  function LastTouch(history: seq<Seg>, s: Seg): nat {
    if history == [] then 0
    else if history[|history| - 1] == s then |history|
    else LastTouch(history[..|history| - 1], s)
  }

  /** Newest first: every listed segment was touched later than the next ones. */
  predicate OrderedBy(list: seq<Seg>, history: seq<Seg>) {
    && (forall i :: 0 <= i < |list| ==> LastTouch(history, list[i]) > 0)
    && (forall i, j :: 0 <= i < j < |list| ==> LastTouch(history, list[i]) > LastTouch(history, list[j]))
  }

  lemma LastTouchBound(history: seq<Seg>, s: Seg)
    ensures LastTouch(history, s) <= |history|
  {
  }

  /** A touch of s does not change when others were touched. */
  lemma {:induction false} LaterTouch(history: seq<Seg>, s: Seg, x: Seg)
    ensures LastTouch(history + [s], s) == |history| + 1
    ensures x != s ==> LastTouch(history + [s], x) == LastTouch(history, x)
  {
    var h := history + [s];
    assert h[..|h| - 1] == history;
  }

  lemma {:induction false} LaterOrdered(list: seq<Seg>, history: seq<Seg>, s: Seg)
    requires OrderedBy(list, history) && s !in list
    ensures OrderedBy(list, history + [s])
  {
    forall i | 0 <= i < |list| ensures LastTouch(history + [s], list[i]) == LastTouch(history, list[i]) {
      assert list[i] in list;
      LaterTouch(history, s, list[i]);
    }
  }

  lemma {:induction false} FrontOrdered(list: seq<Seg>, history: seq<Seg>, s: Seg)
    requires OrderedBy(list, history) && s !in list
    ensures OrderedBy([s] + list, history + [s])
  {
    LaterOrdered(list, history, s);
    forall i | 0 <= i < |list| ensures LastTouch(history + [s], list[i]) <= |history| {
      assert list[i] in list;
      LaterTouch(history, s, list[i]);
      LastTouchBound(history, list[i]);
    }
    LaterTouch(history, s, s);
  }

  lemma {:induction false} KeptOrdered(list: seq<Seg>, history: seq<Seg>, limit: nat)
    requires OrderedBy(list, history)
    ensures OrderedBy(Kept(list, limit), history)
  {
  }

  lemma {:induction false} RemoveAllOrdered(list: seq<Seg>, history: seq<Seg>, gone: seq<Seg>)
    requires OrderedBy(list, history)
    ensures OrderedBy(RemoveAll(list, gone), history)
    decreases |gone|
  {
    if gone != [] {
      RemoveOrdered(list, history, gone[0]);
      RemoveAllOrdered(Remove(list, gone[0]), history, gone[1..]);
    }
  }

  /** A touch followed by the evictions keeps the list ordered by last touch. */
  lemma {:induction false} TouchOrdered(list: seq<Seg>, history: seq<Seg>, s: Seg, limit: nat)
    requires OrderedBy(list, history)
    ensures OrderedBy(Kept(Touched(list, s), limit), history + [s])
  {
    RemoveOrdered(list, history, s);
    FrontOrdered(Remove(list, s), history, s);
    KeptOrdered(Touched(list, s), history + [s], limit);
  }

  lemma {:induction false} RemoveOrdered(list: seq<Seg>, history: seq<Seg>, s: Seg)
    requires OrderedBy(list, history)
    ensures OrderedBy(Remove(list, s), history)
  {
    if list != [] {
      var n := |list| - 1;
      RemoveOrdered(list[..n], history, s);
      var r := Remove(list[..n], s);
      forall i | 0 <= i < |r| ensures LastTouch(history, r[i]) > LastTouch(history, list[n]) {
        assert r[i] in r;
        var j :| 0 <= j < n && list[j] == r[i];
      }
    }
  }

  // ---- whole runs of one FIFO list ------------------------------------------------

  datatype ListOp = TouchOp(s: Seg, limit: nat) | ShrinkOp(limit: nat) | ForgetOp(s: Seg)

  function ListStep(list: seq<Seg>, op: ListOp): seq<Seg> {
    match op
    case TouchOp(s, limit) => Kept(Touched(list, s), limit)
    case ShrinkOp(limit) => Kept(list, limit)
    case ForgetOp(s) => Remove(list, s)
  }

  function ListRun(ops: seq<ListOp>): seq<Seg> {
    if ops == [] then [] else ListStep(ListRun(ops[..|ops| - 1]), ops[|ops| - 1])
  }

  function History(ops: seq<ListOp>): seq<Seg> {
    if ops == [] then []
    else
      var before, op := History(ops[..|ops| - 1]), ops[|ops| - 1];
      if op.TouchOp? then before + [op.s] else before
  }

  /** After every run the list is ordered by the last notified touch, holds no segment
      twice, and fits the limit the last touch or shrink was given. */
  lemma {:induction false} RunOrdered(ops: seq<ListOp>)
    ensures NoDup(ListRun(ops)) && OrderedBy(ListRun(ops), History(ops))
    ensures ops != [] && !ops[|ops| - 1].ForgetOp? ==> Total(ListRun(ops)) <= ops[|ops| - 1].limit
  {
    if ops != [] {
      var before, op := ops[..|ops| - 1], ops[|ops| - 1];
      var list := ListRun(before);
      RunOrdered(before);
      match op
      case TouchOp(s, limit) =>
        TouchOrdered(list, History(before), s, limit);
        TouchedTotal(list, s);
        KeptNoDup(Touched(list, s), limit);
        ShortestSuffix(Touched(list, s), limit);
      case ShrinkOp(limit) =>
        KeptNoDup(list, limit);
        ShortestSuffix(list, limit);
      case ForgetOp(s) =>
        RemoveTotal(list, s);
        RemoveOrdered(list, History(before), s);
    }
  }
}
