/**
 The FIFO-window policy: the first segments fill a fixed window that is never evicted,
 the others slide through a FIFO window. Two lists, two byte counters and one flag per
 segment that says in which list it is.
 */
module WindowPolicy {
  import opened PolicyLists

  datatype Window = Window(pinned: seq<Seg>, sliding: seq<Seg>, maxFixed: nat, maxSliding: nat)

  /** A touched segment leaves its list and goes to the fixed window if that is not full
      without it, to the front of the sliding one otherwise. */
  function Placed(w: Window, s: Seg): Window {
    var pinned, sliding := Remove(w.pinned, s), Remove(w.sliding, s);
    if Total(pinned) < w.maxFixed then w.(pinned := [s] + pinned, sliding := sliding)
    else w.(pinned := pinned, sliding := [s] + sliding)
  }

  /** The oldest sliding segments leave until the sliding window fits. */
  function Shrink(w: Window): Window { w.(sliding := Kept(w.sliding, w.maxSliding)) }

  function Touch(w: Window, s: Seg): Window { Shrink(Placed(w, s)) }

  /** notifyEvict and freeElementStorage. */
  function Forget(w: Window, gone: seq<Seg>): Window {
    w.(pinned := RemoveAll(w.pinned, gone), sliding := RemoveAll(w.sliding, gone))
  }

  datatype Op = OpTouch(s: Seg) | OpShrink | OpForget(gone: seq<Seg>)

  function Step(w: Window, op: Op): Window {
    match op
    case OpTouch(s) => Touch(w, s)
    case OpShrink => Shrink(w)
    case OpForget(gone) => Forget(w, gone)
  }

  function Run(w: Window, ops: seq<Op>): Window {
    if ops == [] then w else Step(Run(w, ops[..|ops| - 1]), ops[|ops| - 1])
  }

  predicate Apart(a: seq<Seg>, b: seq<Seg>) { forall x {:trigger x in a} {:trigger x in b} :: x in a ==> x !in b }

  predicate SizesUpTo(list: seq<Seg>, max: nat) {
    forall i :: 0 <= i < |list| ==> list[i].size <= max
  }

  /** No segment twice, no list over its bound: the fixed window may exceed its size by
      less than one segment. */
  ghost predicate Inv(w: Window, largest: nat) {
    && NoDup(w.pinned) && NoDup(w.sliding) && Apart(w.pinned, w.sliding)
    && SizesUpTo(w.pinned, largest) && SizesUpTo(w.sliding, largest)
    && Total(w.sliding) <= w.maxSliding
    && Total(w.pinned) < w.maxFixed + largest
  }

  lemma {:induction false} SizesSubset(a: seq<Seg>, b: seq<Seg>, max: nat)
    requires SizesUpTo(b, max) && forall x :: x in a ==> x in b
    ensures SizesUpTo(a, max)
  {
    forall i | 0 <= i < |a| ensures a[i].size <= max { assert a[i] in a; }
  }

  lemma {:induction false} PrependNoDup(s: Seg, list: seq<Seg>)
    requires NoDup(list) && s !in list
    ensures NoDup([s] + list)
  {
  }

  lemma {:induction false} TouchKeeps(w: Window, s: Seg, largest: nat)
    requires Inv(w, largest) && s.size <= largest
    ensures Inv(Touch(w, s), largest)
  {
    var pinned, sliding := Remove(w.pinned, s), Remove(w.sliding, s);
    RemoveTotal(w.pinned, s);
    RemoveTotal(w.sliding, s);
    SizesSubset(pinned, w.pinned, largest);
    SizesSubset(sliding, w.sliding, largest);
    if Total(pinned) < w.maxFixed {
      Pinned(s, pinned, sliding, largest);
      SlidingKept(sliding, w.maxSliding, largest);
    } else {
      Pinned(s, sliding, pinned, largest);
      SlidingKept([s] + sliding, w.maxSliding, largest);
    }
  }

  /** A segment of neither list put in front of one of them. */
  lemma {:induction false} Pinned(s: Seg, list: seq<Seg>, other: seq<Seg>, largest: nat)
    requires NoDup(list) && s !in list && s !in other && Apart(list, other) && SizesUpTo(list, largest)
    requires s.size <= largest
    ensures NoDup([s] + list) && Apart([s] + list, other) && SizesUpTo([s] + list, largest)
    ensures Total([s] + list) == s.size + Total(list)
  {
    PrependNoDup(s, list);
    TotalPrepend(s, list);
  }

  lemma {:induction false} SlidingKept(list: seq<Seg>, limit: nat, largest: nat)
    requires NoDup(list) && SizesUpTo(list, largest)
    ensures var k := Kept(list, limit);
      NoDup(k) && Total(k) <= limit && SizesUpTo(k, largest) && forall x :: x in k ==> x in list
  {
    ShortestSuffix(list, limit);
  }

  lemma {:induction false} ForgetKeeps(w: Window, gone: seq<Seg>, largest: nat)
    requires Inv(w, largest)
    ensures Inv(Forget(w, gone), largest)
  {
    RemoveAllTotal(w.pinned, gone);
    RemoveAllTotal(w.sliding, gone);
    SizesSubset(RemoveAll(w.pinned, gone), w.pinned, largest);
    SizesSubset(RemoveAll(w.sliding, gone), w.sliding, largest);
  }

  lemma {:induction false} ShrinkIdle(w: Window, largest: nat)
    requires Inv(w, largest)
    ensures Shrink(w) == w
  {
    assert w.sliding[..|w.sliding|] == w.sliding;
  }

  predicate Touches(ops: seq<Op>, largest: nat) {
    forall i :: 0 <= i < |ops| && ops[i].OpTouch? ==> ops[i].s.size <= largest
  }

  /** From a new policy, whatever its sizes: over every run the windows are disjoint, the
      sliding one fits and the fixed one exceeds its size by less than one segment. */
  lemma {:induction false} NewRunKeeps(maxFixed: nat, maxSliding: nat, ops: seq<Op>, largest: nat)
    requires 0 < largest && Touches(ops, largest)
    ensures Inv(Run(Window([], [], maxFixed, maxSliding), ops), largest)
  {
    RunKeeps(Window([], [], maxFixed, maxSliding), ops, largest);
  }

  /** Both windows respect their bounds after every run. */
  lemma {:induction false} RunKeeps(w: Window, ops: seq<Op>, largest: nat)
    requires Inv(w, largest) && Touches(ops, largest)
    ensures Inv(Run(w, ops), largest)
    ensures Run(w, ops).maxFixed == w.maxFixed && Run(w, ops).maxSliding == w.maxSliding
  {
    if ops != [] {
      var n := |ops| - 1;
      RunKeeps(w, ops[..n], largest);
      var v := Run(w, ops[..n]);
      match ops[n]
      case OpTouch(s) => TouchKeeps(v, s, largest);
      case OpShrink => ShrinkIdle(v, largest);
      case OpForget(gone) => ForgetKeeps(v, gone, largest);
    }
  }

  /** Touching a segment of the fixed window leaves it there exactly when the rest of the
      window is below its size; touching another one always does. */
  lemma {:induction false} FixedStaysExactly(w: Window, s: Seg, x: Seg, largest: nat)
    requires Inv(w, largest) && s in w.pinned
    ensures s in Touch(w, x).pinned <==> x != s || Total(w.pinned) - s.size < w.maxFixed
  {
    RemoveTotal(w.pinned, s);
    assert s !in w.sliding;
    RemoveAbsent(w.sliding, s);
  }

  predicate NeverForgets(ops: seq<Op>, s: Seg) {
    forall i :: 0 <= i < |ops| && ops[i].OpForget? ==> s !in ops[i].gone
  }

  /** With one segment size, a segment in the fixed window stays fixed and resident through
      any run until it is evicted from outside or its mapping is freed. */
  lemma {:induction false} FixedForGood(w: Window, ops: seq<Op>, s: Seg, size: nat)
    requires Inv(w, size) && s in w.pinned && s.size == size
    requires Touches(ops, size) && NeverForgets(ops, s)
    ensures s in Run(w, ops).pinned
  {
    if ops != [] {
      var n := |ops| - 1;
      FixedForGood(w, ops[..n], s, size);
      RunKeeps(w, ops[..n], size);
      var v := Run(w, ops[..n]);
      match ops[n]
      case OpTouch(x) => FixedStaysExactly(v, s, x, size);
      case OpShrink =>
      case OpForget(gone) =>
    }
  }

  /** With two sizes the promise fails: touching a small fixed segment can move it to the
      sliding window, although nothing evicted it. */
  lemma MixedSizesDemote(small: Seg, big: Seg)
    requires small.mapping != big.mapping && 0 < small.size < big.size
    ensures var w := Touch(Touch(Window([], [], small.size + 1, big.size), small), big);
      && small in w.pinned && small !in Touch(w, small).pinned
  {
    var w0 := Window([], [], small.size + 1, big.size);
    var w1 := Touch(w0, small);
    TotalOne(small);
    assert w1.pinned == [small];
    RemoveAbsent([small], big);
    var w2 := Touch(w1, big);
    assert w2.pinned == [big, small];
    assert [big, small][..1] == [big];
    RemoveAbsent([big], small);
    TotalOne(big);
  }

  // ---- where a touched segment goes, and the order of both windows --------------------

  /** A touched segment is fixed if and only if the fixed window has room without it, and slides
      otherwise, wherever it was before, if it fits at all. */
  lemma {:induction false} PlacedExactly(w: Window, s: Seg, largest: nat)
    requires Inv(w, largest)
    ensures var others := Total(w.pinned) - if s in w.pinned then s.size else 0;
      && (s in Touch(w, s).pinned <==> others < w.maxFixed)
      && (s in Touch(w, s).sliding <==> others >= w.maxFixed && s.size <= w.maxSliding)
  {
    RemoveTotal(w.pinned, s);
    TouchedSurvives(w.sliding, s, w.maxSliding);
    var sliding := Remove(w.sliding, s);
    if Total(Remove(w.pinned, s)) >= w.maxFixed {
      TouchedNoDup(w.sliding, s);
      KeptNoDup([s] + sliding, w.maxSliding);
    } else {
      RemoveNoDup(w.sliding, s);
      KeptNoDup(sliding, w.maxSliding);
    }
  }

  function History(ops: seq<Op>): seq<Seg> {
    if ops == [] then []
    else
      var before, op := History(ops[..|ops| - 1]), ops[|ops| - 1];
      if op.OpTouch? then before + [op.s] else before
  }

  predicate Ordered(w: Window, history: seq<Seg>) {
    OrderedBy(w.pinned, history) && OrderedBy(w.sliding, history)
  }

  lemma {:induction false} TouchKeepsOrder(w: Window, s: Seg, history: seq<Seg>)
    requires Ordered(w, history)
    ensures Ordered(Touch(w, s), history + [s])
  {
    var pinned, sliding := Remove(w.pinned, s), Remove(w.sliding, s);
    RemoveOrdered(w.pinned, history, s);
    RemoveOrdered(w.sliding, history, s);
    FrontOrdered(pinned, history, s);
    FrontOrdered(sliding, history, s);
    LaterOrdered(pinned, history, s);
    LaterOrdered(sliding, history, s);
    KeptOrdered(sliding, history + [s], w.maxSliding);
    KeptOrdered([s] + sliding, history + [s], w.maxSliding);
  }

  /** First in, first out, over every run from a new policy: both windows are ordered by last
      touch, so what slides out is what was touched longest ago. */
  lemma {:induction false} RunOrdered(maxFixed: nat, maxSliding: nat, ops: seq<Op>)
    ensures Ordered(Run(Window([], [], maxFixed, maxSliding), ops), History(ops))
  {
    if ops != [] {
      var n := |ops| - 1;
      RunOrdered(maxFixed, maxSliding, ops[..n]);
      var w, history := Run(Window([], [], maxFixed, maxSliding), ops[..n]), History(ops[..n]);
      match ops[n]
      case OpTouch(s) => TouchKeepsOrder(w, s, history);
      case OpShrink => KeptOrdered(w.sliding, history, w.maxSliding);
      case OpForget(gone) =>
        RemoveAllOrdered(w.pinned, history, gone);
        RemoveAllOrdered(w.sliding, history, gone);
    }
  }

  // ---- the object -----------------------------------------------------------------

  const WORD: nat := 0x1_0000_0000_0000_0000

  class FifoWindowPolicy {
    const maxFixedMemory: nat
    const maxSlidingMemory: nat
    var rootFixedWindow: seq<Seg>
    var rootSlidingWindow: seq<Seg>
    var isFixedMemory: map<Seg, bool>
    var currentFixedMemory: nat
    var currentSlidingWindowMemory: nat

    ghost function Value(): Window
      reads this
    {
      Window(rootFixedWindow, rootSlidingWindow, maxFixedMemory, maxSlidingMemory)
    }

    /** Counters are the memory of the lists, flags say in which list a segment is. */
    ghost predicate Valid()
      reads this
    {
      && NoDup(rootFixedWindow) && NoDup(rootSlidingWindow) && Apart(rootFixedWindow, rootSlidingWindow)
      && currentFixedMemory == Total(rootFixedWindow)
      && currentSlidingWindowMemory == Total(rootSlidingWindow)
      && (forall x :: x in rootFixedWindow ==> x in isFixedMemory && isFixedMemory[x])
      && (forall x :: x in rootSlidingWindow ==> x in isFixedMemory && !isFixedMemory[x])
    }

    /** The subtraction is on size_t: a sliding window larger than the memory wraps. */
    constructor (maxMemory: nat, maxSliding: nat)
      ensures Valid() && Value() == Window([], [], (maxMemory - maxSliding) % WORD, maxSliding)
    {
      maxFixedMemory, maxSlidingMemory := (maxMemory - maxSliding) % WORD, maxSliding;
      rootFixedWindow, rootSlidingWindow, isFixedMemory := [], [], map[];
      currentFixedMemory, currentSlidingWindowMemory := 0, 0;
    }

    /** Takes a segment off its list and its size out of the counter its flag names. */
    method Detach(s: Seg)
      requires Valid()
      modifies this
      ensures Valid() && isFixedMemory == old(isFixedMemory)
      ensures rootFixedWindow == Remove(old(rootFixedWindow), s)
      ensures rootSlidingWindow == Remove(old(rootSlidingWindow), s)
    {
      RemoveTotal(rootFixedWindow, s);
      RemoveTotal(rootSlidingWindow, s);
      if s in rootFixedWindow || s in rootSlidingWindow {
        if isFixedMemory[s] {
          currentFixedMemory := currentFixedMemory - s.size;
        } else {
          currentSlidingWindowMemory := currentSlidingWindowMemory - s.size;
        }
      }
      rootFixedWindow, rootSlidingWindow := Remove(rootFixedWindow, s), Remove(rootSlidingWindow, s);
    }

    method Insert(s: Seg)
      requires Valid() && s !in rootFixedWindow && s !in rootSlidingWindow
      modifies this
      ensures Valid()
      ensures if Total(old(rootFixedWindow)) < maxFixedMemory
              then rootFixedWindow == [s] + old(rootFixedWindow) && rootSlidingWindow == old(rootSlidingWindow)
              else rootFixedWindow == old(rootFixedWindow) && rootSlidingWindow == [s] + old(rootSlidingWindow)
    {
      TotalPrepend(s, rootFixedWindow);
      TotalPrepend(s, rootSlidingWindow);
      var isFixed := currentFixedMemory < maxFixedMemory;
      isFixedMemory := isFixedMemory[s := isFixed];
      if isFixed {
        PrependNoDup(s, rootFixedWindow);
        rootFixedWindow := [s] + rootFixedWindow;
        currentFixedMemory := currentFixedMemory + s.size;
      } else {
        PrependNoDup(s, rootSlidingWindow);
        rootSlidingWindow := [s] + rootSlidingWindow;
        currentSlidingWindowMemory := currentSlidingWindowMemory + s.size;
      }
    }

    /** The eviction loop, also the whole of shrinkMemory. */
    method ShrinkMemory() returns (victims: seq<Seg>, aborted: bool)
      requires Valid()
      modifies this
      ensures aborted <==> |Victims(old(rootSlidingWindow), maxSlidingMemory)| >= MAX_VICTIMS
      ensures !aborted ==> Valid() && Value() == Shrink(old(Value()))
      ensures !aborted ==> victims == Victims(old(rootSlidingWindow), maxSlidingMemory)
    {
      victims := [];
      ghost var all := rootSlidingWindow;
      PopStart(all, maxSlidingMemory);
      while currentSlidingWindowMemory > maxSlidingMemory
        invariant Valid() && rootFixedWindow == old(rootFixedWindow)
        invariant |rootSlidingWindow| <= |all| && rootSlidingWindow == all[..|rootSlidingWindow|]
        invariant Popped(all, |rootSlidingWindow|, maxSlidingMemory, victims) && |victims| < MAX_VICTIMS
        decreases |rootSlidingWindow|
      {
        ghost var n := |rootSlidingWindow|;
        PopStep(all, n, maxSlidingMemory, victims);
        var s := rootSlidingWindow[|rootSlidingWindow| - 1];
        rootSlidingWindow := rootSlidingWindow[..|rootSlidingWindow| - 1];
        victims := victims + [s];
        if |victims| >= MAX_VICTIMS { return victims, true; }
        currentSlidingWindowMemory := currentSlidingWindowMemory - s.size;
      }
      PopDone(all, |rootSlidingWindow|, maxSlidingMemory, victims);
      aborted := false;
    }

    method NotifyTouch(s: Seg) returns (victims: seq<Seg>, aborted: bool)
      requires Valid()
      modifies this
      ensures aborted <==> |Victims(Placed(old(Value()), s).sliding, maxSlidingMemory)| >= MAX_VICTIMS
      ensures !aborted ==> Valid() && Value() == Touch(old(Value()), s)
      ensures !aborted ==> victims == Victims(Placed(old(Value()), s).sliding, maxSlidingMemory)
    {
      Detach(s);
      Insert(s);
      victims, aborted := ShrinkMemory();
    }

    /** All segments of a mapping leave their lists and counters. */
    method FreeElementStorage(mapping: nat, segmentSize: nat, elementCount: nat)
      requires Valid()
      modifies this
      ensures Valid()
      ensures rootFixedWindow == RemoveSegments(old(rootFixedWindow), mapping, segmentSize, elementCount)
      ensures rootSlidingWindow == RemoveSegments(old(rootSlidingWindow), mapping, segmentSize, elementCount)
    {
      for i := 0 to elementCount
        invariant Valid()
        invariant rootFixedWindow == RemoveSegments(old(rootFixedWindow), mapping, segmentSize, i)
        invariant rootSlidingWindow == RemoveSegments(old(rootSlidingWindow), mapping, segmentSize, i)
      {
        Detach(Seg(mapping, i, segmentSize));
      }
    }

    /** The source asserts that the segment is listed. */
    method NotifyEvict(s: Seg)
      requires Valid() && (s in rootFixedWindow || s in rootSlidingWindow)
      modifies this
      ensures Valid() && Value() == Forget(old(Value()), [s])
    {
      RemoveAllOne(rootFixedWindow, s);
      RemoveAllOne(rootSlidingWindow, s);
      Detach(s);
    }
  }
}
