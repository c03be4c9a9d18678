/**
 One interface for the three policies, as the mappings and the other policies see them:
 what a touch lists and evicts, what a notification removes, and when the touched segment
 is spared. Nothing else about a kind of policy matters to the mappings.
 */
module PolicyKinds {
  import opened Arithmetic
  import opened PolicyLists
  import LP = LifoPolicy
  import WP = WindowPolicy

  datatype AnyPolicy =
    | Fifo(list: seq<Seg>, limit: nat)
    | Lifo(list: seq<Seg>, limit: nat)
    | Windowed(window: WP.Window)

  /** The segment is linked in the policy (isInList). */
  predicate Has(p: AnyPolicy, x: Seg) {
    match p
    case Fifo(list, _) => x in list
    case Lifo(list, _) => x in list
    case Windowed(w) => x in w.pinned || x in w.sliding
  }

  /** A segment of this size fits what the policy evicts from. */
  predicate Fits(p: AnyPolicy, size: nat) {
    match p
    case Fifo(_, limit) => size <= limit
    case Lifo(_, limit) => size <= limit
    case Windowed(w) => size <= w.maxSliding
  }

  /** What registerMapping checks: a segment is not larger than the whole policy. */
  predicate Accepts(p: AnyPolicy, size: nat) {
    match p
    case Windowed(w) => size <= w.maxFixed + w.maxSliding
    case _ => Fits(p, size)
  }

  /** No segment twice, and within the limit. */
  ghost predicate Ok(p: AnyPolicy) {
    match p
    case Fifo(list, limit) => NoDup(list) && Total(list) <= limit
    case Lifo(list, limit) => NoDup(list) && Total(list) <= limit
    case Windowed(w) =>
      NoDup(w.pinned) && NoDup(w.sliding) && WP.Apart(w.pinned, w.sliding) && Total(w.sliding) <= w.maxSliding
  }

  /** notifyTouch: what is left. */
  function Touch(p: AnyPolicy, s: Seg): AnyPolicy
    requires Accepts(p, s.size)
  {
    match p
    case Fifo(list, limit) => Fifo(Kept(Touched(list, s), limit), limit)
    case Lifo(list, limit) => Lifo(LP.Touch(list, s, limit), limit)
    case Windowed(w) => Windowed(WP.Touch(w, s))
  }

  /** notifyTouch: what it asks the mappings to evict, in this order. */
  function VictimsOf(p: AnyPolicy, s: Seg): seq<Seg>
    requires Accepts(p, s.size)
  {
    match p
    case Fifo(list, limit) => Victims(Touched(list, s), limit)
    case Lifo(list, limit) => Victims(Remove(list, s), limit - s.size)
    case Windowed(w) => Victims(WP.Placed(w, s).sliding, w.maxSliding)
  }

  /** notifyEvict, of a listed segment. */
  function Forget(p: AnyPolicy, s: Seg): AnyPolicy {
    match p
    case Fifo(list, limit) => Fifo(Remove(list, s), limit)
    case Lifo(list, limit) => Lifo(Remove(list, s), limit)
    case Windowed(w) => Windowed(w.(pinned := Remove(w.pinned, s), sliding := Remove(w.sliding, s)))
  }

  lemma {:induction false} ForgetOk(p: AnyPolicy, s: Seg)
    requires Ok(p)
    ensures Ok(Forget(p, s))
    ensures forall x {:trigger Has(Forget(p, s), x)} :: Has(Forget(p, s), x) <==> Has(p, x) && x != s
  {
    match p
    case Fifo(list, _) => RemoveTotal(list, s);
    case Lifo(list, _) => RemoveTotal(list, s);
    case Windowed(w) =>
      RemoveTotal(w.pinned, s);
      RemoveTotal(w.sliding, s);
  }

  lemma {:induction false} SameFits(p: AnyPolicy, s: Seg, size: nat)
    ensures Fits(Forget(p, s), size) <==> Fits(p, size)
    ensures Accepts(p, s.size) ==> (Fits(Touch(p, s), size) <==> Fits(p, size))
  {
  }

  /** The contract between a policy and the mappings: the touched segment is listed, the
      victims are other listed segments, each once, and exactly they leave. */
  ghost predicate Exchanges(p: AnyPolicy, s: Seg, r: AnyPolicy, victims: seq<Seg>) {
    && Ok(r) && NoDup(victims) && s !in victims && Has(r, s)
    && (forall x {:trigger Has(r, x)} :: Has(r, x) <==> (Has(p, x) || x == s) && x !in victims)
    && (forall x {:trigger x in victims} :: x in victims ==> Has(p, x))
  }

  lemma {:induction false} VictimsSplit(list: seq<Seg>, limit: nat)
    requires NoDup(list)
    ensures NoDup(Victims(list, limit)) && NoDup(Kept(list, limit)) && Total(Kept(list, limit)) <= limit
    ensures forall x :: x in list <==> x in Kept(list, limit) || x in Victims(list, limit)
    ensures forall x :: x in Kept(list, limit) ==> x !in Victims(list, limit)
  {
    KeptNoDup(list, limit);
    ShortestSuffix(list, limit);
    VictimsNoDup(list, limit);
  }

  lemma {:induction false} FifoTouch(list: seq<Seg>, limit: nat, s: Seg)
    requires Ok(Fifo(list, limit)) && s.size <= limit
    ensures Exchanges(Fifo(list, limit), s, Touch(Fifo(list, limit), s), VictimsOf(Fifo(list, limit), s))
  {
    TouchedTotal(list, s);
    TouchedSurvives(list, s, limit);
    VictimsSplit(Touched(list, s), limit);
  }

  lemma {:induction false} AppendMember(list: seq<Seg>, s: Seg, x: Seg)
    ensures x in list + [s] <==> x in list || x == s
  {
  }

  lemma {:induction false} LifoTotal(list: seq<Seg>, limit: nat, s: Seg)
    requires NoDup(list) && s.size <= limit
    ensures NoDup(LP.Touch(list, s, limit)) && Total(LP.Touch(list, s, limit)) <= limit
  {
    LP.TouchFits(list, s, limit);
    LP.TouchNoDup(list, s, limit);
  }

  /** The LIFO case, from the list without the touched segment. */
  lemma {:induction false} LifoExchange(list: seq<Seg>, limit: nat, s: Seg, rest: seq<Seg>, room: nat, r: AnyPolicy)
    requires NoDup(rest) && s !in rest && Ok(r)
    requires forall x :: x in rest <==> x in list && x != s
    requires r == Lifo(Kept(rest, room) + [s], limit)
    ensures Exchanges(Lifo(list, limit), s, r, Victims(rest, room))
  {
    var p, kept, victims := Lifo(list, limit), Kept(rest, room), Victims(rest, room);
    VictimsSplit(rest, room);
    forall x ensures Has(r, x) <==> (Has(p, x) || x == s) && x !in victims {
      AppendMember(kept, s, x);
      assert x in rest <==> x in kept || x in victims;
    }
    forall x | x in victims ensures Has(p, x) { assert x in rest; }
  }

  lemma {:induction false} LifoTouch(list: seq<Seg>, limit: nat, s: Seg)
    requires Ok(Lifo(list, limit)) && s.size <= limit
    ensures Exchanges(Lifo(list, limit), s, Touch(Lifo(list, limit), s), VictimsOf(Lifo(list, limit), s))
  {
    LifoTotal(list, limit, s);
    RemoveNoDup(list, s);
    LifoExchange(list, limit, s, Remove(list, s), limit - s.size, Touch(Lifo(list, limit), s));
  }

  lemma {:induction false} PrependLists(s: Seg, list: seq<Seg>)
    requires NoDup(list) && s !in list
    ensures NoDup([s] + list)
    ensures forall x {:trigger x in [s] + list} :: x in [s] + list <==> x == s || x in list
  {
  }

  /** The window case, from the lists before and after. */
  lemma {:induction false} WindowExchange(w: WP.Window, s: Seg, pinned: seq<Seg>, queue: seq<Seg>,
                                           r: WP.Window, victims: seq<Seg>)
    requires Ok(Windowed(w)) && NoDup(pinned) && NoDup(queue) && WP.Apart(pinned, queue)
    requires forall x :: x in pinned || x in queue <==> x in w.pinned || x in w.sliding || x == s
    requires r == w.(pinned := pinned, sliding := Kept(queue, w.maxSliding))
    requires victims == Victims(queue, w.maxSliding) && s !in victims
    ensures Exchanges(Windowed(w), s, Windowed(r), victims)
  {
    var p, q := Windowed(w), Windowed(r);
    VictimsSplit(queue, w.maxSliding);
    forall x ensures Has(q, x) <==> (Has(p, x) || x == s) && x !in victims {
      assert Has(q, x) <==> x in pinned || x in r.sliding;
      assert x in pinned ==> x !in queue;
      assert x in queue <==> x in r.sliding || x in victims;
    }
    forall x | x in victims ensures Has(p, x) { assert x in queue && x != s; }
  }

  lemma {:induction false} WindowPinned(w: WP.Window, s: Seg, r: AnyPolicy, victims: seq<Seg>)
    requires Ok(Windowed(w)) && s.size <= w.maxSliding && Total(Remove(w.pinned, s)) < w.maxFixed
    requires r == Touch(Windowed(w), s) && victims == VictimsOf(Windowed(w), s)
    ensures Exchanges(Windowed(w), s, r, victims)
  {
    var pinned, sliding := Remove(w.pinned, s), Remove(w.sliding, s);
    RemoveNoDup(w.pinned, s);
    RemoveNoDup(w.sliding, s);
    PrependLists(s, pinned);
    VictimsSplit(sliding, w.maxSliding);
    assert s !in sliding;
    WindowExchange(w, s, [s] + pinned, sliding, r.window, victims);
  }

  lemma {:induction false} WindowSliding(w: WP.Window, s: Seg, r: AnyPolicy, victims: seq<Seg>)
    requires Ok(Windowed(w)) && s.size <= w.maxSliding && Total(Remove(w.pinned, s)) >= w.maxFixed
    requires r == Touch(Windowed(w), s) && victims == VictimsOf(Windowed(w), s)
    ensures Exchanges(Windowed(w), s, r, victims)
  {
    var pinned, sliding := Remove(w.pinned, s), Remove(w.sliding, s);
    RemoveNoDup(w.pinned, s);
    RemoveNoDup(w.sliding, s);
    PrependLists(s, sliding);
    TouchedSurvives(w.sliding, s, w.maxSliding);
    WindowExchange(w, s, pinned, [s] + sliding, r.window, victims);
  }

  /** Every kind of policy keeps the contract. */
  lemma {:induction false} TouchExchanges(p: AnyPolicy, s: Seg)
    requires Ok(p) && Fits(p, s.size)
    ensures Exchanges(p, s, Touch(p, s), VictimsOf(p, s))
  {
    match p
    case Fifo(list, limit) => FifoTouch(list, limit, s);
    case Lifo(list, limit) => LifoTouch(list, limit, s);
    case Windowed(w) =>
      if Total(Remove(w.pinned, s)) < w.maxFixed { WindowPinned(w, s, Touch(p, s), VictimsOf(p, s)); }
      else { WindowSliding(w, s, Touch(p, s), VictimsOf(p, s)); }
  }

  /** When a policy spares the segment it has just been told of: FIFO and LIFO always, given
      that it was accepted; a window if it is placed in the fixed part or fits the sliding
      part. */
  lemma {:induction false} SparesExactly(p: AnyPolicy, s: Seg)
    requires Ok(p) && Accepts(p, s.size)
    ensures s !in VictimsOf(p, s) <==>
      (p.Windowed? ==> Total(Remove(p.window.pinned, s)) < p.window.maxFixed || s.size <= p.window.maxSliding)
  {
    match p
    case Fifo(list, limit) => FifoTouch(list, limit, s);
    case Lifo(list, limit) => LifoTouch(list, limit, s);
    case Windowed(w) =>
      TouchedSurvives(w.sliding, s, w.maxSliding);
      RemoveNoDup(w.sliding, s);
      VictimsSplit(Remove(w.sliding, s), w.maxSliding);
  }

  // ---- no victim too many ----------------------------------------------------------------

  /** Bytes the policy evicts from. */
  function Counted(p: AnyPolicy): nat {
    match p
    case Fifo(list, _) => Total(list)
    case Lifo(list, _) => Total(list)
    case Windowed(w) => Total(w.sliding)
  }

  function Limit(p: AnyPolicy): nat {
    match p
    case Fifo(_, limit) => limit
    case Lifo(_, limit) => limit
    case Windowed(w) => w.maxSliding
  }

  /** What is left fits, and would not with the last victim. */
  predicate Tight(left: nat, limit: nat, victims: seq<Seg>)
    requires victims != []
  {
    left <= limit < left + victims[|victims| - 1].size
  }

  lemma {:induction false} LastVictim(list: seq<Seg>, limit: nat)
    requires Victims(list, limit) != []
    ensures Tight(Total(Kept(list, limit)), limit, Victims(list, limit))
  {
    var k, v := Survivors(list, limit), Victims(list, limit);
    ShortestSuffix(list, limit);
    assert v[|v| - 1] == list[k];
    assert list[..k + 1][..k] == list[..k];
  }

  lemma {:induction false} LifoLastVictim(list: seq<Seg>, limit: nat, s: Seg)
    requires s.size <= limit && Victims(Remove(list, s), limit - s.size) != []
    ensures Tight(Total(LP.Touch(list, s, limit)), limit, Victims(Remove(list, s), limit - s.size))
  {
    var rest, room := Remove(list, s), limit - s.size;
    assert Tight(Total(Kept(rest, room)), room, Victims(rest, room)) by { LastVictim(rest, room); }
    assert Total(LP.Touch(list, s, limit)) == Total(Kept(rest, room)) + s.size by { TotalAppend(Kept(rest, room), s); }
  }

  /** In every kind of policy a touch evicts no more than it has to: without its last victim the
      limit would be exceeded. In particular nothing is evicted while there is room. */
  lemma {:induction false} EvictsNoMore(p: AnyPolicy, s: Seg)
    requires Fits(p, s.size) && VictimsOf(p, s) != []
    ensures Tight(Counted(Touch(p, s)), Limit(p), VictimsOf(p, s))
  {
    match p
    case Fifo(_, _) => FifoNoMore(p, s);
    case Lifo(_, _) => LifoNoMore(p, s);
    case Windowed(_) => WindowNoMore(p, s);
  }

  lemma {:induction false} FifoNoMore(p: AnyPolicy, s: Seg)
    requires p.Fifo? && Fits(p, s.size) && VictimsOf(p, s) != []
    ensures Tight(Counted(Touch(p, s)), Limit(p), VictimsOf(p, s))
  {
    LastVictim(Touched(p.list, s), p.limit);
  }

  lemma {:induction false} LifoNoMore(p: AnyPolicy, s: Seg)
    requires p.Lifo? && Fits(p, s.size) && VictimsOf(p, s) != []
    ensures Tight(Counted(Touch(p, s)), Limit(p), VictimsOf(p, s))
  {
    LifoLastVictim(p.list, p.limit, s);
  }

  lemma {:induction false} WindowNoMore(p: AnyPolicy, s: Seg)
    requires p.Windowed? && Fits(p, s.size) && VictimsOf(p, s) != []
    ensures Tight(Counted(Touch(p, s)), Limit(p), VictimsOf(p, s))
  {
    LastVictim(WP.Placed(p.window, s).sliding, p.window.maxSliding);
  }

  // ---- how many victims a touch can have --------------------------------------------------

  predicate SizesFrom(list: seq<Seg>, small: nat) {
    forall i :: 0 <= i < |list| ==> list[i].size >= small
  }

  lemma {:induction false} TotalFrom(list: seq<Seg>, small: nat)
    requires SizesFrom(list, small)
    ensures |list| * small <= Total(list)
  {
    if list != [] {
      TotalFrom(list[..|list| - 1], small);
      Distributes(|list| - 1, 1, small);
    }
  }

  /** Getting below the limit by less than `big` drops all but one victim from less than
      `big`. */
  lemma {:induction false} VictimBound(list: seq<Seg>, room: nat, big: nat, small: nat)
    requires SizesFrom(list, small) && Total(list) <= room + big && big <= (MAX_VICTIMS - 1) * small && 0 < big
    ensures |Victims(list, room)| < MAX_VICTIMS
  {
    var k := Survivors(list, room);
    ShortestSuffix(list, room);
    if k < |list| {
      var rest := list[k + 1..];
      assert list == list[..k + 1] + rest;
      TotalConcat(list[..k + 1], rest);
      TotalFrom(rest, small);
      assert |rest| * small < (MAX_VICTIMS - 1) * small;
      Cancel(small, MAX_VICTIMS - 1, |rest|);
    }
  }

  ghost predicate HasSizesFrom(p: AnyPolicy, small: nat) { forall x :: Has(p, x) ==> x.size >= small }

  lemma {:induction false} ListSizes(list: seq<Seg>, small: nat)
    requires forall x :: x in list ==> x.size >= small
    ensures SizesFrom(list, small)
  {
    forall i | 0 <= i < |list| ensures list[i].size >= small { assert list[i] in list; }
  }

  lemma {:induction false} FifoBound(list: seq<Seg>, limit: nat, s: Seg, small: nat)
    requires NoDup(list) && Total(list) <= limit && 0 < s.size <= (MAX_VICTIMS - 1) * small && small <= s.size
    requires forall x :: x in list ==> x.size >= small
    ensures |Victims(Touched(list, s), limit)| < MAX_VICTIMS
  {
    TouchedTotal(list, s);
    ListSizes(Remove(list, s), small);
    VictimBound(Touched(list, s), limit, s.size, small);
  }

  lemma {:induction false} RestBound(list: seq<Seg>, room: nat, s: Seg, small: nat)
    requires NoDup(list) && Total(list) <= room + s.size && 0 < s.size <= (MAX_VICTIMS - 1) * small
    requires forall x :: x in list ==> x.size >= small
    ensures |Victims(Remove(list, s), room)| < MAX_VICTIMS
  {
    RemoveTotal(list, s);
    ListSizes(Remove(list, s), small);
    VictimBound(Remove(list, s), room, s.size, small);
  }

  /** No kind of policy overruns its buffer while no segment is more than 127 times as large
      as another; one segment size is the common case. */
  lemma {:induction false} FewVictims(p: AnyPolicy, s: Seg, small: nat)
    requires Ok(p) && Fits(p, s.size) && HasSizesFrom(p, small)
    requires 0 < small <= s.size <= (MAX_VICTIMS - 1) * small
    ensures |VictimsOf(p, s)| < MAX_VICTIMS
  {
    match p
    case Fifo(list, limit) =>
      assert forall x :: x in list ==> Has(p, x);
      FifoBound(list, limit, s, small);
    case Lifo(list, limit) =>
      assert forall x :: x in list ==> Has(p, x);
      RestBound(list, limit - s.size, s, small);
    case Windowed(w) =>
      assert forall x :: x in w.sliding ==> Has(p, x);
      FifoBound(w.sliding, w.maxSliding, s, small);
      RestBound(w.sliding, w.maxSliding, s, small);
  }

  ghost predicate Comparable(p: AnyPolicy, s: Seg) {
    forall x :: Has(p, x) ==> s.size <= (MAX_VICTIMS - 1) * x.size
  }

  lemma {:induction false} ComparableFew(p: AnyPolicy, s: Seg)
    requires Ok(p) && Fits(p, s.size) && 0 < s.size && Comparable(p, s)
    ensures |VictimsOf(p, s)| < MAX_VICTIMS
  {
    FewVictims(p, s, (s.size + MAX_VICTIMS - 2) / (MAX_VICTIMS - 1));
  }

  /** A FIFO policy with room for `count` segments of size `small`, full of them. */
  function Full(count: nat, small: nat): (list: seq<Seg>)
    ensures |list| == count && Uniform(list, small) && NoDup(list)
    ensures forall x :: x in list ==> x.mapping == 0
  {
    seq(count, k requires 0 <= k < count => Seg(0, k, small))
  }

  lemma {:induction false} TooMuch(count: nat, kept: nat, small: nat, big: nat)
    requires (MAX_VICTIMS - 1) * small < big && MAX_VICTIMS <= count <= kept + MAX_VICTIMS - 1
    ensures count * small < big + kept * small
  {
    TimesMono(count - (MAX_VICTIMS - 1), kept, small);
    Distributes(count - (MAX_VICTIMS - 1), MAX_VICTIMS - 1, small);
  }

  lemma {:induction false} FullOverruns(list: seq<Seg>, s: Seg, small: nat, limit: nat)
    requires Uniform(list, small) && MAX_VICTIMS <= |list| && limit == |list| * small
    requires (MAX_VICTIMS - 1) * small < s.size
    ensures |Victims([s] + list, limit)| >= MAX_VICTIMS
  {
    var t := [s] + list;
    var k := Survivors(t, limit);
    ShortestSuffix(t, limit);
    if k > 0 {
      assert t[..k] == [s] + list[..k - 1];
      TotalPrepend(s, list[..k - 1]);
      UniformTotal(list[..k - 1], small);
      if |list| <= k - 1 + MAX_VICTIMS - 1 { TooMuch(|list|, k - 1, small, s.size); }
    }
  }

  lemma {:induction false} ManyVictims(small: nat, big: nat)
    requires 0 < small <= big && (MAX_VICTIMS - 1) * small < big
    ensures var count := MAX_VICTIMS + big;
      var p, s := Fifo(Full(count, small), count * small), Seg(1, 0, big);
      Ok(p) && Fits(p, big) && HasSizesFrom(p, small) && |VictimsOf(p, s)| >= MAX_VICTIMS
  {
    var count := MAX_VICTIMS + big;
    var list, s := Full(count, small), Seg(1, 0, big);
    UniformTotal(list, small);
    Grows(count, 1, small);
    RemoveAbsent(list, s);
    FullOverruns(list, s, small, count * small);
  }

  ghost predicate NeverOverruns(small: nat, big: nat) {
    forall p, s: Seg :: Ok(p) && Fits(p, s.size) && HasSizesFrom(p, small) && small <= s.size <= big ==>
      |VictimsOf(p, s)| < MAX_VICTIMS
  }

  /** Segments between two sizes never overrun the buffer of any policy if and only if the
      larger size is at most 127 times the smaller. */
  lemma {:induction false} OverrunsExactly(small: nat, big: nat)
    requires 0 < small <= big
    ensures NeverOverruns(small, big) <==> big <= (MAX_VICTIMS - 1) * small
  {
    if big <= (MAX_VICTIMS - 1) * small {
      forall p, s: Seg | Ok(p) && Fits(p, s.size) && HasSizesFrom(p, small) && small <= s.size <= big
        ensures |VictimsOf(p, s)| < MAX_VICTIMS
      {
        FewVictims(p, s, small);
      }
    } else {
      ManyVictims(small, big);
    }
  }
}
