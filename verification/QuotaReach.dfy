/**
 States of a quota that runs really reach: members join empty, each touches segments of
 its own mapping, one segment size. Any shares that fit the quota are reached.
 */
module QuotaReach {
  import opened Arithmetic
  import opened PolicyLists
  import opened Quota
  import opened QuotaRuns
  import opened Wrappers

  /** At most n members, which join empty; segments of size g. */
  predicate Admits(policies: seq<Policy>, n: nat, g: nat, op: Op) {
    && Allowed(policies, op)
    && (op.Register? ==> |policies| < n && op.policy.list == [])
    && (op.Touch? ==> op.s.size == g)
  }

  predicate Admitted(policies: seq<Policy>, n: nat, g: nat, max: nat, ops: seq<Op>)
    requires Within(policies, max)
    decreases |ops|
  {
    ops == [] ||
    (Admits(policies, n, g, ops[0])
     && (StepWithin(policies, max, ops[0]);
         var r := Step(policies, max, ops[0]);
         r.Done? ==> Admitted(r.value, n, g, max, ops[1..])))
  }

  lemma {:induction false} AdmittedRuns(policies: seq<Policy>, n: nat, g: nat, max: nat, ops: seq<Op>)
    requires Within(policies, max) && Admitted(policies, n, g, max, ops)
    ensures CanRun(policies, max, ops)
    decreases |ops|
  {
    if ops != [] {
      StepWithin(policies, max, ops[0]);
      var r := Step(policies, max, ops[0]);
      if r.Done? { AdmittedRuns(r.value, n, g, max, ops[1..]); }
    }
  }

  /** The run ends like this. */
  ghost predicate Ends(policies: seq<Policy>, n: nat, g: nat, max: nat, ops: seq<Op>, r: Outcome<seq<Policy>>)
    requires Within(policies, max)
  {
    Admitted(policies, n, g, max, ops) && CanRun(policies, max, ops) && Run(policies, max, ops) == r
  }

  lemma {:induction false} EndsThen(policies: seq<Policy>, n: nat, g: nat, max: nat, ops: seq<Op>,
                                     p: seq<Policy>, op: Op)
    requires Within(policies, max) && Ends(policies, n, g, max, ops, Done(p))
    requires Within(p, max) && Admits(p, n, g, op)
    ensures Ends(policies, n, g, max, ops + [op], Step(p, max, op))
    decreases |ops|
  {
    if ops == [] {
      assert ops + [op] == [op] && [op][1..] == [];
      StepWithin(p, max, op);
    } else {
      assert (ops + [op])[1..] == ops[1..] + [op];
      StepWithin(policies, max, ops[0]);
      EndsThen(Step(policies, max, ops[0]).value, n, g, max, ops[1..], p, op);
    }
  }

  ghost predicate Reached(n: nat, g: nat, max: nat, p: seq<Policy>) {
    exists ops :: Ends([], n, g, max, ops, Done(p))
  }

  lemma {:induction false} ReachedNext(n: nat, g: nat, max: nat, p: seq<Policy>, op: Op, q: seq<Policy>)
    requires Reached(n, g, max, p) && Within(p, max) && Admits(p, n, g, op) && Step(p, max, op) == Done(q)
    ensures Reached(n, g, max, q)
  {
    var ops :| Ends([], n, g, max, ops, Done(p));
    EndsThen([], n, g, max, ops, p, op);
  }

  // ---- members with given shares ------------------------------------------------------

  /** The first c segments of mapping i, the last touched first. */
  function Stack(i: nat, c: nat, g: nat): (list: seq<Seg>)
    ensures |list| == c && forall k :: 0 <= k < c ==> list[k] == Seg(i, c - 1 - k, g)
  {
    if c == 0 then [] else [Seg(i, c - 1, g)] + Stack(i, c - 1, g)
  }

  function Members(counts: seq<nat>, g: nat, max: nat): (ps: seq<Policy>)
    ensures |ps| == |counts| && forall i :: 0 <= i < |ps| ==> ps[i] == Policy(Stack(i, counts[i], g), max)
  {
    seq(|counts|, i requires 0 <= i < |counts| => Policy(Stack(i, counts[i], g), max))
  }

  function Sum(counts: seq<nat>): nat {
    if counts == [] then 0 else Sum(counts[..|counts| - 1]) + counts[|counts| - 1]
  }

  lemma {:induction false} SumUpdate(counts: seq<nat>, i: nat, c: nat)
    requires i < |counts|
    ensures Sum(counts[i := c]) == Sum(counts) - counts[i] + c
  {
    var n := |counts| - 1;
    if i < n {
      assert counts[i := c][..n] == counts[..n][i := c];
      SumUpdate(counts[..n], i, c);
    } else {
      assert counts[i := c][..n] == counts[..n];
    }
  }

  lemma {:induction false} SumAtLeast(counts: seq<nat>, i: nat)
    requires i < |counts|
    ensures counts[i] <= Sum(counts)
  {
    var n := |counts| - 1;
    if i < n { SumAtLeast(counts[..n], i); }
  }

  lemma {:induction false} StackMemory(i: nat, c: nat, g: nat)
    ensures NoDup(Stack(i, c, g)) && Uniform(Stack(i, c, g), g) && Total(Stack(i, c, g)) == c * g
  {
    UniformTotal(Stack(i, c, g), g);
  }

  lemma {:induction false} MembersSound(counts: seq<nat>, g: nat, max: nat)
    ensures Sound(Members(counts, g, max), g) && NoSharing(Members(counts, g, max))
    ensures forall i :: 0 <= i < |counts| ==> Memory(Members(counts, g, max)[i]) == counts[i] * g
  {
    var ps := Members(counts, g, max);
    forall i | 0 <= i < |ps| ensures NoDup(ps[i].list) && Uniform(ps[i].list, g) && Memory(ps[i]) == counts[i] * g {
      StackMemory(i, counts[i], g);
    }
    forall i, x | 0 <= i < |ps| && x in ps[i].list ensures x.mapping == i {
      var k :| 0 <= k < |ps[i].list| && ps[i].list[k] == x;
    }
  }

  lemma {:induction false} MembersUsed(counts: seq<nat>, g: nat, ps: seq<Policy>)
    requires |ps| == |counts| && forall i :: 0 <= i < |ps| ==> Memory(ps[i]) == counts[i] * g
    ensures Used(ps) == Sum(counts) * g
  {
    if ps != [] {
      var n := |ps| - 1;
      MembersUsed(counts[..n], g, ps[..n]);
      Distributes(Sum(counts[..n]), counts[n], g);
    }
  }

  lemma {:induction false} MembersWithin(counts: seq<nat>, g: nat, max: nat)
    requires Sum(counts) * g <= max
    ensures Within(Members(counts, g, max), max)
  {
    MembersSound(counts, g, max);
    MembersUsed(counts, g, Members(counts, g, max));
  }

  /** One more segment for member i: nothing is evicted. */
  lemma {:induction false} TouchAdds(counts: seq<nat>, g: nat, max: nat, i: nat)
    requires i < |counts| && (counts[i] + 1) * g <= max
    ensures var ps, s := Members(counts, g, max), Seg(i, counts[i], g);
      && TouchVictims(ps, i, s) == []
      && TouchMember(ps, i, s) == Members(counts[i := counts[i] + 1], g, max)
  {
    var ps, s, c := Members(counts, g, max), Seg(i, counts[i], g), counts[i];
    var list := Stack(i, c, g);
    RemoveAbsent(list, s);
    assert Touched(list, s) == Stack(i, c + 1, g);
    StackMemory(i, c + 1, g);
    KeepsAll(Stack(i, c + 1, g), max);
    var r := TouchMember(ps, i, s);
    forall j | 0 <= j < |ps| ensures r[j] == Members(counts[i := c + 1], g, max)[j] {}
  }

  lemma {:induction false} TouchGrows(counts: seq<nat>, g: nat, max: nat, i: nat)
    requires 0 < g && i < |counts| && (counts[i] + 1) * g <= max
    ensures NotifiesQuota(Members(counts, g, max), i, Seg(i, counts[i], g))
  {
    TouchAdds(counts, g, max, i);
    StackMemory(i, counts[i], g);
    StackMemory(i, counts[i] + 1, g);
    Distributes(counts[i], 1, g);
  }

  lemma {:induction false} KeepsAll(list: seq<Seg>, limit: nat)
    requires Total(list) <= limit
    ensures Kept(list, limit) == list && Victims(list, limit) == []
  {
    assert list[..|list|] == list;
    SurvivorsMaximal(list, limit, |list|);
  }

  // ---- every share that fits is reached --------------------------------------------------

  function Zeros(n: nat): (counts: seq<nat>)
    ensures |counts| == n && forall i :: 0 <= i < n ==> counts[i] == 0
  {
    seq(n, _ => 0)
  }

  lemma {:induction false} ReachZeros(n: nat, k: nat, g: nat, max: nat)
    requires k <= n
    ensures Reached(n, g, max, Members(Zeros(k), g, max))
  {
    if k == 0 {
      assert Members(Zeros(0), g, max) == [];
      assert Ends([], n, g, max, [], Done([]));
    } else {
      ReachZeros(n, k - 1, g, max);
      var ps, qs := Members(Zeros(k - 1), g, max), Members(Zeros(k), g, max);
      var op := Register(Policy([], 0));
      SumZero(Zeros(k - 1));
      SumZero(Zeros(k));
      MembersWithin(Zeros(k - 1), g, max);
      MembersWithin(Zeros(k), g, max);
      assert FullLimits(ps + [op.policy], max) == qs;
      UpdatedIdle(qs, max);
      ReachedNext(n, g, max, ps, op, qs);
    }
  }

  lemma {:induction false} SumZero(counts: seq<nat>)
    requires forall i :: 0 <= i < |counts| ==> counts[i] == 0
    ensures Sum(counts) == 0
  {
    if counts != [] { SumZero(counts[..|counts| - 1]); }
  }

  /** A touch that stays within the quota is a plain step. */
  lemma {:induction false} TouchStep(counts: seq<nat>, g: nat, max: nat, i: nat)
    requires i < |counts| && Sum(counts) * g <= max && (counts[i] + 1) * g <= max
    requires Sum(counts[i := counts[i] + 1]) * g <= max
    ensures Within(Members(counts, g, max), max)
    ensures Step(Members(counts, g, max), max, Touch(i, Seg(i, counts[i], g)))
         == Done(Members(counts[i := counts[i] + 1], g, max))
  {
    MembersWithin(counts, g, max);
    MembersWithin(counts[i := counts[i] + 1], g, max);
    TouchAdds(counts, g, max, i);
    UpdatedIdle(Members(counts[i := counts[i] + 1], g, max), max);
  }

  lemma {:induction false} RoomFor(counts: seq<nat>, g: nat, max: nat, i: nat)
    requires i < |counts| && (Sum(counts) + 1) * g <= max
    ensures Sum(counts) * g <= max && (counts[i] + 1) * g <= max && Sum(counts[i := counts[i] + 1]) * g <= max
  {
    SumUpdate(counts, i, counts[i] + 1);
    SumAtLeast(counts, i);
    TimesMono(Sum(counts), Sum(counts) + 1, g);
    TimesMono(counts[i] + 1, Sum(counts) + 1, g);
  }

  lemma {:induction false} TouchReaches(n: nat, counts: seq<nat>, g: nat, max: nat, i: nat)
    requires i < |counts| && (Sum(counts) + 1) * g <= max
    requires Reached(n, g, max, Members(counts, g, max))
    ensures Reached(n, g, max, Members(counts[i := counts[i] + 1], g, max))
  {
    RoomFor(counts, g, max, i);
    TouchStep(counts, g, max, i);
    ReachedNext(n, g, max, Members(counts, g, max), Touch(i, Seg(i, counts[i], g)),
                Members(counts[i := counts[i] + 1], g, max));
  }

  lemma {:induction false} Reach(n: nat, counts: seq<nat>, g: nat, max: nat)
    requires |counts| <= n && Sum(counts) * g <= max
    ensures Reached(n, g, max, Members(counts, g, max))
    decreases Sum(counts)
  {
    if i :| 0 <= i < |counts| && counts[i] > 0 {
      var fewer := counts[i := counts[i] - 1];
      SumUpdate(counts, i, counts[i] - 1);
      TimesMono(Sum(fewer), Sum(counts), g);
      Reach(n, fewer, g, max);
      TouchReaches(n, fewer, g, max, i);
      assert fewer[i := counts[i]] == counts;
    } else {
      assert counts == Zeros(|counts|);
      ReachZeros(n, |counts|, g, max);
    }
  }

  // ---- what every run keeps ---------------------------------------------------------------

  /** Each member within its limit, each limit within the quota. */
  predicate Limited(policies: seq<Policy>, max: nat) {
    forall j :: 0 <= j < |policies| ==> Memory(policies[j]) <= policies[j].limit <= max
  }

  predicate Fit(policies: seq<Policy>, n: nat, g: nat, max: nat) {
    |policies| <= n && Sound(policies, g) && Used(policies) <= max && Limited(policies, max)
  }

  lemma {:induction false} MemoryInUsed(policies: seq<Policy>, j: nat)
    requires j < |policies|
    ensures Memory(policies[j]) <= Used(policies)
  {
    var n := |policies| - 1;
    if j < n { MemoryInUsed(policies[..n], j); }
  }

  lemma {:induction false} FullFit(policies: seq<Policy>, n: nat, g: nat, max: nat)
    requires Sound(policies, g) && Used(policies) <= max && |policies| <= n
    ensures Fit(FullLimits(policies, max), n, g, max)
  {
    var r := FullLimits(policies, max);
    if policies != [] { UsedMono(r, policies, 0); }
    forall j | 0 <= j < |r| ensures Memory(r[j]) <= max { MemoryInUsed(policies, j); }
  }

  lemma {:induction false} UsedAppend(policies: seq<Policy>, p: Policy)
    ensures Used(policies + [p]) == Used(policies) + Memory(p)
  {
    assert (policies + [p])[..|policies|] == policies;
  }

  lemma {:induction false} UsedWithout(policies: seq<Policy>, i: nat)
    requires i < |policies|
    ensures Used(policies[..i] + policies[i + 1..]) <= Used(policies)
  {
    var n := |policies| - 1;
    if i < n {
      var shorter := policies[..n];
      UsedWithout(shorter, i);
      assert policies[..i] + policies[i + 1..] == shorter[..i] + shorter[i + 1..] + [policies[n]];
      UsedAppend(shorter[..i] + shorter[i + 1..], policies[n]);
    } else {
      assert policies[..i] + policies[i + 1..] == policies[..n];
    }
  }

  lemma {:induction false} RoundLimited(policies: seq<Policy>, max: nat, a: nat)
    requires AllNoDup(policies) && policies != [] && Used(policies) > max && IsAverage(a, |policies|, max)
    requires Limited(policies, max)
    ensures Limited(Balanced(policies, max, a), max)
  {
    var i := Largest(policies);
    RoundDecreases(policies, max, a);
    var limited := policies[i := policies[i].(limit := NewLimit(a, Memory(policies[i])))];
    ShrinkNoLarger(limited, i);
  }

  lemma {:induction false} BalanceLimited(policies: seq<Policy>, max: nat, a: nat)
    requires AllNoDup(policies) && IsAverage(a, |policies|, max) && Limited(policies, max)
    ensures Limited(Balance(policies, max, a), max)
    decreases Used(policies)
  {
    if policies != [] && Used(policies) > max {
      RoundLimited(policies, max, a);
      BalanceLimited(Balanced(policies, max, a), max, a);
    }
  }

  lemma {:induction false} UpdatedFit(policies: seq<Policy>, n: nat, g: nat, max: nat)
    requires policies != [] && |policies| <= n && Sound(policies, g) && Limited(policies, max)
    ensures Updated(policies, max).Done? ==> Fit(Updated(policies, max).value, n, g, max)
  {
    var a := max / |policies|;
    UpdatedIs(policies, max, a);
    UpdatedFits(policies, max);
    UpdatedSound(policies, max, g);
    BalanceLimited(policies, max, a);
  }

  lemma {:induction false} TouchOwn(list: seq<Seg>, s: Seg, limit: nat)
    requires NoDup(list) && Uniform(list, s.size) && 0 < s.size && Total(list) <= limit
    ensures var t := Kept(Touched(list, s), limit);
      NoDup(t) && Uniform(t, s.size) && Total(t) <= limit && |Victims(Touched(list, s), limit)| <= 1
  {
    AtMostOneVictim(list, s, limit);
    TouchedTotal(list, s);
    KeptNoDup(Touched(list, s), limit);
    ShortestSuffix(Touched(list, s), limit);
    UniformSubset(Remove(list, s), list, s.size);
  }

  /** A touch evicts at most one segment and keeps every member within its limit. */
  lemma {:induction false} TouchFit(policies: seq<Policy>, i: nat, s: Seg, n: nat, g: nat, max: nat)
    requires 0 < g && Fit(policies, n, g, max) && i < |policies| && s.size == g
    ensures |TouchVictims(policies, i, s)| <= 1
    ensures Sound(TouchMember(policies, i, s), g) && Limited(TouchMember(policies, i, s), max)
  {
    var r, victims := TouchMember(policies, i, s), TouchVictims(policies, i, s);
    TouchOwn(policies[i].list, s, policies[i].limit);
    forall j | 0 <= j < |r| && j != i
      ensures NoDup(r[j].list) && Uniform(r[j].list, g) && Memory(r[j]) <= Memory(policies[j])
    {
      RemoveAllTotal(policies[j].list, victims);
      UniformSubset(r[j].list, policies[j].list, g);
    }
  }

  // ---- what each operation does to the members -----------------------------------------

  /** Member j of the rest when member i has gone. */
  function Other(i: nat, j: nat): nat { if j < i then j else j + 1 }

  lemma {:induction false} WithoutAt(policies: seq<Policy>, i: nat, j: nat)
    requires i < |policies| && j < |policies| - 1
    ensures (policies[..i] + policies[i + 1..])[j] == policies[Other(i, j)]
  {
  }

  /** Members within the quota only get the whole of it as their limit. */
  lemma {:induction false} LimitsOnly(policies: seq<Policy>, max: nat)
    requires AllNoDup(policies) && Used(policies) <= max
    ensures Updated(FullLimits(policies, max), max) == Done(FullLimits(policies, max))
  {
    FullUsed(policies, max);
    UpdatedIdle(FullLimits(policies, max), max);
  }

  /** Leaving a quota that holds: that member is gone, and the others keep their segments, with
      the whole quota as limit. */
  lemma {:induction false} UnregisterExactly(policies: seq<Policy>, max: nat, i: nat)
    requires Within(policies, max) && i < |policies|
    ensures var r := Step(policies, max, Unregister(i));
      && r.Done? && |r.value| == |policies| - 1
      && forall j :: 0 <= j < |r.value| ==> r.value[j] == Policy(policies[Other(i, j)].list, max)
  {
    var rest := policies[..i] + policies[i + 1..];
    UsedWithout(policies, i);
    forall j | 0 <= j < |rest| ensures rest[j] == policies[Other(i, j)] && NoDup(rest[j].list) {
      WithoutAt(policies, i, j);
    }
    LimitsOnly(rest, max);
  }

  /** Joining with what still fits: everyone keeps their segments, with the whole quota as limit. */
  lemma {:induction false} RegisterExactly(policies: seq<Policy>, max: nat, p: Policy)
    requires Within(policies, max) && NoDup(p.list) && Used(policies) + Memory(p) <= max
    ensures var r := Step(policies, max, Register(p));
      && r.Done? && |r.value| == |policies| + 1 && r.value[|policies|] == Policy(p.list, max)
      && forall j :: 0 <= j < |policies| ==> r.value[j] == Policy(policies[j].list, max)
  {
    UsedAppend(policies, p);
    LimitsOnly(policies + [p], max);
  }

  /** Evicting or freeing segments of a member: exactly these leave it, in the order of the
      others, and no other member changes. */
  lemma {:induction false} ForgetExactly(policies: seq<Policy>, max: nat, i: nat, gone: seq<Seg>, history: seq<Seg>)
    requires AllNoDup(policies) && i < |policies|
    ensures var r := Step(policies, max, Forget(i, gone));
      && r.Done? && |r.value| == |policies| && Lost(policies[i], r.value[i], gone)
      && (forall j :: 0 <= j < |policies| && j != i ==> r.value[j] == policies[j])
      && (OrderedBy(policies[i].list, history) ==> OrderedBy(r.value[i].list, history))
  {
    if OrderedBy(policies[i].list, history) { RemoveAllOrdered(policies[i].list, history, gone); }
  }

  lemma {:induction false} FullUsed(policies: seq<Policy>, max: nat)
    ensures Used(FullLimits(policies, max)) == Used(policies)
  {
    if policies != [] {
      UsedMono(FullLimits(policies, max), policies, 0);
      UsedMono(policies, FullLimits(policies, max), 0);
    }
  }

  lemma {:induction false} JoinFit(policies: seq<Policy>, n: nat, g: nat, max: nat)
    requires Sound(policies, g) && Used(policies) <= max && |policies| <= n
    ensures var r := Updated(FullLimits(policies, max), max); r.Done? && Fit(r.value, n, g, max)
  {
    FullFit(policies, n, g, max);
    UpdatedIdle(FullLimits(policies, max), max);
  }

  lemma {:induction false} RegisterFit(policies: seq<Policy>, n: nat, g: nat, max: nat, p: Policy)
    requires Fit(policies, n, g, max) && |policies| < n && p.list == []
    ensures var r := Step(policies, max, Register(p)); r.Done? && Fit(r.value, n, g, max)
  {
    UsedAppend(policies, p);
    JoinFit(policies + [p], n, g, max);
  }

  lemma {:induction false} WithoutSound(policies: seq<Policy>, i: nat, g: nat)
    requires Sound(policies, g) && i < |policies|
    ensures Sound(policies[..i] + policies[i + 1..], g)
  {
    var rest := policies[..i] + policies[i + 1..];
    forall j | 0 <= j < |rest| ensures NoDup(rest[j].list) && Uniform(rest[j].list, g) {
      assert rest[j] == policies[if j < i then j else j + 1];
    }
  }

  lemma {:induction false} UnregisterFit(policies: seq<Policy>, n: nat, g: nat, max: nat, i: nat)
    requires Fit(policies, n, g, max) && i < |policies|
    ensures var r := Step(policies, max, Unregister(i)); r.Done? && Fit(r.value, n, g, max)
  {
    var rest := policies[..i] + policies[i + 1..];
    UsedWithout(policies, i);
    WithoutSound(policies, i, g);
    JoinFit(rest, n, g, max);
  }

  lemma {:induction false} ForgetFit(policies: seq<Policy>, n: nat, g: nat, max: nat, i: nat, gone: seq<Seg>)
    requires Fit(policies, n, g, max) && i < |policies|
    ensures var r := Step(policies, max, Forget(i, gone)); r.Done? && Fit(r.value, n, g, max)
  {
    RemoveAllTotal(policies[i].list, gone);
    UniformSubset(RemoveAll(policies[i].list, gone), policies[i].list, g);
    StepWithin(policies, max, Forget(i, gone));
  }

  lemma {:induction false} TouchKeepsFit(policies: seq<Policy>, i: nat, s: Seg, n: nat, g: nat, max: nat)
    requires 0 < g && Fit(policies, n, g, max) && i < |policies| && s.size == g
    ensures var r := Step(policies, max, Touch(i, s)); r.Done? ==> Fit(r.value, n, g, max)
  {
    var t := TouchMember(policies, i, s);
    TouchFit(policies, i, s, n, g, max);
    UpdatedFit(t, n, g, max);
    StepWithin(policies, max, Touch(i, s));
  }

  lemma {:induction false} StepFit(policies: seq<Policy>, n: nat, g: nat, max: nat, op: Op)
    requires 0 < g && Fit(policies, n, g, max) && Admits(policies, n, g, op)
    ensures var r := Step(policies, max, op); r.Done? ==> Fit(r.value, n, g, max)
  {
    match op
    case Register(p) => RegisterFit(policies, n, g, max, p);
    case Unregister(i) => UnregisterFit(policies, n, g, max, i);
    case Touch(i, s) => TouchKeepsFit(policies, i, s, n, g, max);
    case Forget(i, gone) => ForgetFit(policies, n, g, max, i, gone);
  }

  lemma {:induction false} RunFit(policies: seq<Policy>, n: nat, g: nat, max: nat, ops: seq<Op>, r: seq<Policy>)
    requires 0 < g && Fit(policies, n, g, max) && Ends(policies, n, g, max, ops, Done(r))
    ensures Fit(r, n, g, max)
    decreases |ops|
  {
    if ops != [] {
      StepFit(policies, n, g, max, ops[0]);
      RunFit(Step(policies, max, ops[0]).value, n, g, max, ops[1..], r);
    }
  }

  /** Every reached member is within its limit, and every limit within the quota. */
  lemma {:induction false} ReachedFit(n: nat, g: nat, max: nat, p: seq<Policy>)
    requires 0 < g && Reached(n, g, max, p)
    ensures Fit(p, n, g, max)
  {
    var ops :| Ends([], n, g, max, ops, Done(p));
    RunFit([], n, g, max, ops, p);
  }
}
