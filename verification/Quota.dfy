/**
 A quota shared by several policies of one process. `update` repeatedly takes the largest
 user and halves what it holds above the average, until the total fits. Evicting a
 segment through its mapping also removes it from the other policy of that mapping.
 */
module Quota {
  import opened Arithmetic
  import opened PolicyLists
  import opened Wrappers

  function Memory(p: Policy): nat { Total(p.list) }

  function Used(policies: seq<Policy>): nat {
    if policies == [] then 0 else Used(policies[..|policies| - 1]) + Memory(policies[|policies| - 1])
  }

  predicate AllNoDup(policies: seq<Policy>) {
    forall i :: 0 <= i < |policies| ==> NoDup(policies[i].list)
  }

  /** The largest user, the first one among equals. */
  function Largest(policies: seq<Policy>): (i: nat)
    requires policies != []
    ensures i < |policies|
    ensures forall j :: 0 <= j < |policies| ==> Memory(policies[j]) <= Memory(policies[i])
    ensures forall j :: 0 <= j < i ==> Memory(policies[j]) < Memory(policies[i])
  {
    var n := |policies| - 1;
    if n == 0 then 0
    else
      var i := Largest(policies[..n]);
      if Memory(policies[n]) > Memory(policies[i]) then n else i
  }

  /** Policy i shrinks to its limit; its victims leave the lists of the others too. */
  function Shrink(policies: seq<Policy>, i: nat): (r: seq<Policy>)
    requires i < |policies|
    ensures |r| == |policies|
    ensures forall j :: 0 <= j < |policies| ==> r[j] == ShrunkMember(policies, i, j)
  {
    seq(|policies|, j requires 0 <= j < |policies| => ShrunkMember(policies, i, j))
  }

  function ShrunkMember(policies: seq<Policy>, i: nat, j: nat): Policy
    requires i < |policies| && j < |policies|
  {
    var p := policies[i];
    if j == i then p.(list := Kept(p.list, p.limit))
    else policies[j].(list := RemoveAll(policies[j].list, Victims(p.list, p.limit)))
  }

  function NewLimit(average: nat, memory: nat): nat
    requires average <= memory
  {
    average + (memory - average) / 2
  }

  /** One round of the balancing loop. The subtraction is on unsigned numbers: that the
      largest user is above the average is an obligation, see `LargestAboveAverage`. */
  function Round(policies: seq<Policy>, average: nat): (r: seq<Policy>)
    requires policies != [] && average <= Memory(policies[Largest(policies)])
    ensures |r| == |policies|
  {
    var i := Largest(policies);
    Shrink(policies[i := policies[i].(limit := NewLimit(average, Memory(policies[i])))], i)
  }

  // ---- one round ------------------------------------------------------------------

  lemma {:induction false} UsedBound(policies: seq<Policy>, b: nat)
    requires forall j :: 0 <= j < |policies| ==> Memory(policies[j]) <= b
    ensures Used(policies) <= |policies| * b
  {
    if policies != [] {
      UsedBound(policies[..|policies| - 1], b);
      assert |policies| * b == (|policies| - 1) * b + b;
    }
  }

  /** The average is computed once, as the quota divided by the number of members. */
  predicate IsAverage(a: nat, n: nat, max: nat) { n * a <= max }

  lemma AverageOf(n: nat, max: nat)
    requires 0 < n
    ensures IsAverage(max / n, n, max)
  {
    assert max == n * (max / n) + max % n;
  }

  /** The largest user of an overloaded quota is strictly above the average. */
  lemma {:induction false} LargestAboveAverage(policies: seq<Policy>, max: nat, a: nat)
    requires policies != [] && Used(policies) > max && IsAverage(a, |policies|, max)
    ensures Memory(policies[Largest(policies)]) > a
  {
    UsedBound(policies, Memory(policies[Largest(policies)]));
    Cancel(|policies|, Memory(policies[Largest(policies)]), a);
  }

  predicate NoLarger(after: seq<Policy>, before: seq<Policy>) {
    && |after| == |before|
    && forall j :: 0 <= j < |after| ==> Memory(after[j]) <= Memory(before[j])
  }

  lemma {:induction false} UsedMono(after: seq<Policy>, before: seq<Policy>, i: nat)
    requires NoLarger(after, before) && i < |after|
    ensures Used(after) <= Used(before)
    ensures Memory(after[i]) < Memory(before[i]) ==> Used(after) < Used(before)
  {
    var n := |after| - 1;
    if n == 0 {
      assert after[..0] == [] && before[..0] == [];
    } else if i < n {
      UsedMono(after[..n], before[..n], i);
    } else {
      UsedMono(after[..n], before[..n], 0);
    }
  }

  lemma {:induction false} ShrinkNoLarger(policies: seq<Policy>, i: nat)
    requires AllNoDup(policies) && i < |policies|
    ensures NoLarger(Shrink(policies, i), policies) && AllNoDup(Shrink(policies, i))
    ensures Memory(Shrink(policies, i)[i]) <= policies[i].limit
  {
    var r := Shrink(policies, i);
    var victims := Victims(policies[i].list, policies[i].limit);
    forall j | 0 <= j < |policies| ensures Memory(r[j]) <= Memory(policies[j]) && NoDup(r[j].list) {
      if j == i {
        ShortestSuffix(policies[i].list, policies[i].limit);
      } else {
        RemoveAllTotal(policies[j].list, victims);
      }
    }
    ShortestSuffix(policies[i].list, policies[i].limit);
  }

  /** What shrinkMemory does to all members: its own list is cut to the longest newest part that
      fits, what is cut leaves every other list too, and nothing else changes. */
  lemma {:induction false} ShrinkExactly(policies: seq<Policy>, i: nat)
    requires i < |policies|
    ensures var r, list := Shrink(policies, i), policies[i].list;
      var kept := r[i].list;
      && r[i].limit == policies[i].limit && kept <= list && Total(kept) <= policies[i].limit
      && (|kept| < |list| ==> Total(list[..|kept| + 1]) > policies[i].limit)
      && forall j :: 0 <= j < |policies| && j != i ==> Lost(policies[j], r[j], list[|kept|..])
  {
    var list, limit := policies[i].list, policies[i].limit;
    ShortestSuffix(list, limit);
    var k := Survivors(list, limit);
    forall j | 0 <= j < |policies| && j != i ensures Lost(policies[j], Shrink(policies, i)[j], list[k..]) {
      LostVictims(policies[j], list, limit);
    }
  }

  /** Exactly these segments have left the policy. */
  ghost predicate Lost(before: Policy, after: Policy, gone: seq<Seg>) {
    && after.limit == before.limit
    && forall x {:trigger x in after.list} :: x in after.list <==> x in before.list && x !in gone
  }

  lemma {:induction false} LostVictims(p: Policy, list: seq<Seg>, limit: nat)
    ensures Lost(p, p.(list := RemoveAll(p.list, Victims(list, limit))), list[Survivors(list, limit)..])
  {
    var gone, victims := list[Survivors(list, limit)..], Victims(list, limit);
    forall x ensures x in victims <==> x in gone {
      if x in victims { var i :| 0 <= i < |victims| && victims[i] == x; assert gone[|gone| - 1 - i] == x; }
      if x in gone { var i :| 0 <= i < |gone| && gone[i] == x; assert victims[|gone| - 1 - i] == x; }
    }
  }

  lemma {:induction false} RoundNoLarger(policies: seq<Policy>, average: nat)
    requires AllNoDup(policies) && policies != [] && average < Memory(policies[Largest(policies)])
    ensures var r, i := Round(policies, average), Largest(policies);
      AllNoDup(r) && NoLarger(r, policies) && Memory(r[i]) < Memory(policies[i])
  {
    var i := Largest(policies);
    var limited := policies[i := policies[i].(limit := NewLimit(average, Memory(policies[i])))];
    ShrinkNoLarger(limited, i);
  }

  /** Every round strictly lowers the total: the loop terminates. */
  lemma {:induction false} RoundDecreases(policies: seq<Policy>, max: nat, a: nat)
    requires AllNoDup(policies) && policies != [] && Used(policies) > max && IsAverage(a, |policies|, max)
    ensures a < Memory(policies[Largest(policies)])
    ensures var r := Round(policies, a); AllNoDup(r) && NoLarger(r, policies) && Used(r) < Used(policies)
  {
    LargestAboveAverage(policies, max, a);
    RoundNoLarger(policies, a);
    UsedMono(Round(policies, a), policies, Largest(policies));
  }

  // ---- update ---------------------------------------------------------------------

  /** The loop body on an overloaded quota. */
  function Balanced(policies: seq<Policy>, max: nat, a: nat): (r: seq<Policy>)
    requires AllNoDup(policies) && policies != [] && Used(policies) > max && IsAverage(a, |policies|, max)
    ensures |r| == |policies| && AllNoDup(r) && NoLarger(r, policies) && Used(r) < Used(policies)
  {
    RoundDecreases(policies, max, a);
    Round(policies, a)
  }

  /** The loop, for an average computed before it, while no round overruns its buffer. */
  function Balance(policies: seq<Policy>, max: nat, a: nat): (r: seq<Policy>)
    requires AllNoDup(policies) && IsAverage(a, |policies|, max)
    ensures |r| == |policies|
    decreases Used(policies)
  {
    if policies == [] || Used(policies) <= max then policies else Balance(Balanced(policies, max, a), max, a)
  }

  /** What shrinkMemory of the largest member evicts in one round. */
  function RoundVictims(policies: seq<Policy>, average: nat): seq<Seg>
    requires policies != [] && average <= Memory(policies[Largest(policies)])
  {
    var p := policies[Largest(policies)];
    Victims(p.list, NewLimit(average, Memory(p)))
  }

  /** Some round of the loop has more victims than the buffer of shrinkMemory holds, which
      stops the process. */
  predicate Overruns(policies: seq<Policy>, max: nat, a: nat)
    requires AllNoDup(policies) && IsAverage(a, |policies|, max)
    decreases Used(policies)
  {
    && policies != [] && Used(policies) > max
    && (RoundDecreases(policies, max, a);
        |RoundVictims(policies, a)| >= MAX_VICTIMS || Overruns(Balanced(policies, max, a), max, a))
  }

  function Updated(policies: seq<Policy>, max: nat): (r: Outcome<seq<Policy>>)
    requires AllNoDup(policies)
    ensures r.Done? ==> |r.value| == |policies|
  {
    if policies == [] then Done(policies)
    else
      AverageOf(|policies|, max);
      if Overruns(policies, max, max / |policies|) then Aborted
      else Done(Balance(policies, max, max / |policies|))
  }

  lemma UpdatedIs(policies: seq<Policy>, max: nat, a: nat)
    requires AllNoDup(policies) && policies != [] && a == max / |policies|
    ensures IsAverage(a, |policies|, max)
    ensures Updated(policies, max) == if Overruns(policies, max, a) then Aborted else Done(Balance(policies, max, a))
  {
    AverageOf(|policies|, max);
  }

  /** A quota that already holds is left alone. */
  lemma UpdatedIdle(policies: seq<Policy>, max: nat)
    requires AllNoDup(policies) && Used(policies) <= max
    ensures Updated(policies, max) == Done(policies)
  {
    if policies != [] { UpdatedIs(policies, max, max / |policies|); }
  }

  lemma {:induction false} UniformSurvivors(list: seq<Seg>, g: nat, limit: nat)
    requires 0 < g && Uniform(list, g) && Total(list) > limit
    ensures Survivors(list, limit) == limit / g
  {
    var k, q := Survivors(list, limit), limit / g;
    ShortestSuffix(list, limit);
    UniformTotal(list, g);
    UniformTotal(list[..k], g);
    Divides(k, g, limit);
    Divides(|list|, g, limit);
    UniformTotal(list[..q], g);
    Divides(q, g, limit);
    SurvivorsMaximal(list, limit, q);
  }

  lemma {:induction false} OneUsed(policies: seq<Policy>)
    requires |policies| == 1
    ensures Used(policies) == Memory(policies[0])
  {
    assert policies[..0] == [];
  }

  predicate AllUniform(policies: seq<Policy>, g: nat) {
    forall i :: 0 <= i < |policies| ==> Uniform(policies[i].list, g)
  }

  predicate Sound(policies: seq<Policy>, g: nat) { AllNoDup(policies) && AllUniform(policies, g) }

  lemma BalancedUniform(policies: seq<Policy>, max: nat, a: nat, g: nat)
    requires Sound(policies, g) && policies != [] && Used(policies) > max && IsAverage(a, |policies|, max)
    ensures Sound(Balanced(policies, max, a), g)
  {
    var r := Balanced(policies, max, a);
    forall j | 0 <= j < |r| ensures Uniform(r[j].list, g) { UniformSubset(r[j].list, policies[j].list, g); }
  }

  lemma {:induction false} BalanceUniform(policies: seq<Policy>, max: nat, a: nat, g: nat)
    requires Sound(policies, g) && IsAverage(a, |policies|, max)
    ensures Sound(Balance(policies, max, a), g)
    decreases Used(policies)
  {
    if policies != [] && Used(policies) > max {
      BalancedUniform(policies, max, a, g);
      BalanceUniform(Balanced(policies, max, a), max, a, g);
    }
  }

  lemma UpdatedSound(policies: seq<Policy>, max: nat, g: nat)
    requires Sound(policies, g)
    ensures Updated(policies, max).Done? ==> Sound(Updated(policies, max).value, g)
  {
    if policies != [] {
      var a := max / |policies|;
      UpdatedIs(policies, max, a);
      BalanceUniform(policies, max, a, g);
    }
  }

  /** On exit the total fits the quota, and no policy has grown. */
  lemma {:induction false} BalanceFits(policies: seq<Policy>, max: nat, a: nat)
    requires AllNoDup(policies) && IsAverage(a, |policies|, max)
    ensures var r := Balance(policies, max, a); Used(r) <= max && NoLarger(r, policies) && AllNoDup(r)
    decreases Used(policies)
  {
    if policies != [] && Used(policies) > max { BalanceFits(Balanced(policies, max, a), max, a); }
  }

  lemma {:induction false} UpdatedFits(policies: seq<Policy>, max: nat)
    requires AllNoDup(policies)
    ensures var r := Updated(policies, max);
      r.Done? ==> Used(r.value) <= max && NoLarger(r.value, policies) && AllNoDup(r.value)
  {
    if policies != [] {
      var a := max / |policies|;
      UpdatedIs(policies, max, a);
      BalanceFits(policies, max, a);
    }
  }

  /** Segments of different policies belong to different mappings. */
  predicate NoSharing(policies: seq<Policy>) {
    forall i, j, x :: 0 <= i < |policies| && 0 <= j < |policies| && i != j && x in policies[i].list ==>
      x !in policies[j].list
  }

  function LargestSegment(list: seq<Seg>): (m: nat)
    ensures forall i :: 0 <= i < |list| ==> list[i].size <= m
  {
    if list == [] then 0
    else
      var m := LargestSegment(list[..|list| - 1]);
      if list[|list| - 1].size > m then list[|list| - 1].size else m
  }

  /** What happened to one member: nothing, or it ended within one segment of the average. */
  predicate FairlyTreated(before: Policy, after: Policy, average: nat) {
    || after == before
    || (Memory(before) > average && Memory(after) + LargestSegment(before.list) > average)
  }

  lemma {:induction false} RemoveAllAbsent(list: seq<Seg>, gone: seq<Seg>)
    requires forall x :: x in gone ==> x !in list
    ensures RemoveAll(list, gone) == list
    decreases |gone|
  {
    if gone != [] {
      assert gone[0] in gone;
      RemoveAbsent(list, gone[0]);
      RemoveAllAbsent(list, gone[1..]);
    }
  }

  lemma {:induction false} LargestSegmentPrefix(list: seq<Seg>, k: nat)
    requires k <= |list|
    ensures LargestSegment(list[..k]) <= LargestSegment(list)
  {
    if k < |list| {
      LargestSegmentPrefix(list[..|list| - 1], k);
      assert list[..|list| - 1][..k] == list[..k];
    } else {
      assert list[..k] == list;
    }
  }

  /** The largest member is taken no further than one segment below the average. */
  lemma {:induction false} LargestFair(p: Policy, a: nat)
    requires a < Memory(p)
    ensures var limit := NewLimit(a, Memory(p));
      Total(Kept(p.list, limit)) + LargestSegment(p.list) > a
  {
    var list, limit := p.list, NewLimit(a, Memory(p));
    var k := Survivors(list, limit);
    ShortestSuffix(list, limit);
    assert list[..|list|] == list;
    assert list[..k + 1][..k] == list[..k];
  }

  /** One round leaves every other member alone. */
  lemma {:induction false} RoundFair(policies: seq<Policy>, max: nat, a: nat, j: nat)
    requires AllNoDup(policies) && NoSharing(policies) && policies != [] && Used(policies) > max
    requires IsAverage(a, |policies|, max) && j < |policies|
    ensures var r := Balanced(policies, max, a);
      && FairlyTreated(policies[j], r[j], a)
      && LargestSegment(r[j].list) <= LargestSegment(policies[j].list)
      && (forall x :: x in r[j].list ==> x in policies[j].list)
  {
    LargestAboveAverage(policies, max, a);
    var i := Largest(policies);
    var list, limit := policies[i].list, NewLimit(a, Memory(policies[i]));
    if j == i {
      LargestFair(policies[i], a);
      LargestSegmentPrefix(list, Survivors(list, limit));
    } else {
      var victims := Victims(list, limit);
      forall x | x in victims ensures x !in policies[j].list {
        assert x in list;
      }
      RemoveAllAbsent(policies[j].list, victims);
    }
  }

  lemma {:induction false} RoundKeepsApart(policies: seq<Policy>, max: nat, a: nat)
    requires AllNoDup(policies) && NoSharing(policies) && policies != [] && Used(policies) > max
    requires IsAverage(a, |policies|, max)
    ensures NoSharing(Balanced(policies, max, a))
  {
    forall j | 0 <= j < |policies|
      ensures forall x :: x in Balanced(policies, max, a)[j].list ==> x in policies[j].list
    {
      RoundFair(policies, max, a, j);
    }
  }

  lemma {:induction false} BalanceFair(policies: seq<Policy>, max: nat, a: nat, j: nat)
    requires AllNoDup(policies) && NoSharing(policies) && IsAverage(a, |policies|, max) && j < |policies|
    ensures FairlyTreated(policies[j], Balance(policies, max, a)[j], a)
    decreases Used(policies)
  {
    if Used(policies) > max {
      RoundFair(policies, max, a, j);
      RoundKeepsApart(policies, max, a);
      BalanceFair(Balanced(policies, max, a), max, a, j);
    }
  }

  /** Fairness: when no two members share a mapping, a policy at or below the average is
      not touched, and a shrunk one keeps more than the average minus one segment. */
  lemma {:induction false} UpdatedFair(policies: seq<Policy>, max: nat, average: nat, j: nat)
    requires AllNoDup(policies) && NoSharing(policies) && j < |policies| && average == max / |policies|
    ensures var r := Updated(policies, max); r.Done? ==> FairlyTreated(policies[j], r.value[j], average)
  {
    UpdatedIs(policies, max, average);
    BalanceFair(policies, max, average, j);
  }
}
