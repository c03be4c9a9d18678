/**
 The public documentation says that the quota guarantees each policy at least the average
 memory. With one segment size, over all states on which a run calls update, this is true
 exactly when there is one policy, no segment fits, or the size divides the average.
 */
module QuotaAverage {
  import opened Arithmetic
  import opened PolicyLists
  import opened Quota
  import opened QuotaRuns
  import opened QuotaReach
  import opened QuotaAborts
  import opened Wrappers

  /** Members that had the average keep it. */
  predicate KeepsAverage(policies: seq<Policy>, max: nat)
    requires AllNoDup(policies) && policies != []
  {
    var r, average := Updated(policies, max), max / |policies|;
    r.Done? ==> forall j :: 0 <= j < |policies| && Memory(policies[j]) >= average ==> Memory(r.value[j]) >= average
  }

  /** A run of n members touches a segment and calls update on this. */
  ghost predicate UpdatedOn(n: nat, max: nat, g: nat, t: seq<Policy>) {
    exists p, i, s :: TouchedInto(n, max, g, p, i, s, t)
  }

  ghost predicate TouchedInto(n: nat, max: nat, g: nat, p: seq<Policy>, i: nat, s: Seg, t: seq<Policy>) {
    && Reached(n, g, max, p) && |p| == n && i < n && s.size == g
    && |TouchVictims(p, i, s)| < MAX_VICTIMS && NotifiesQuota(p, i, s) && t == TouchMember(p, i, s)
  }

  ghost predicate GuaranteesAverage(n: nat, max: nat, g: nat) {
    forall t :: UpdatedOn(n, max, g, t) && AllNoDup(t) && NoSharing(t) && t != [] ==> KeepsAverage(t, max)
  }

  lemma {:induction false} UpdatedOnFit(n: nat, max: nat, g: nat, p: seq<Policy>, i: nat, s: Seg, t: seq<Policy>)
    requires 0 < g && TouchedInto(n, max, g, p, i, s, t)
    ensures |t| == n && Sound(t, g) && Limited(t, max)
  {
    ReachedFit(n, g, max, p);
    TouchFit(p, i, s, n, g, max);
  }

  // ---- sizes that divide the average ------------------------------------------------

  lemma {:induction false} BalanceSubset(policies: seq<Policy>, max: nat, a: nat, j: nat)
    requires AllNoDup(policies) && NoSharing(policies) && IsAverage(a, |policies|, max) && j < |policies|
    ensures forall x :: x in Balance(policies, max, a)[j].list ==> x in policies[j].list
    decreases Used(policies)
  {
    if Used(policies) > max {
      RoundFair(policies, max, a, j);
      RoundKeepsApart(policies, max, a);
      BalanceSubset(Balanced(policies, max, a), max, a, j);
    }
  }

  lemma {:induction false} UniformLargest(list: seq<Seg>, g: nat)
    requires Uniform(list, g)
    ensures LargestSegment(list) <= g
  {
    if list != [] { UniformLargest(list[..|list| - 1], g); }
  }

  /** A multiple of g above q * g - g is at least q * g. */
  lemma {:induction false} NextMultiple(k: int, q: int, g: nat)
    requires k * g + g > q * g
    ensures k * g >= q * g
  {
    Cancel(g, k + 1, q);
    assert k - q >= 0 && g * (k - q) >= 0;
  }

  lemma {:induction false} DivisorKeeps(policies: seq<Policy>, max: nat, a: nat, g: nat, j: nat)
    requires AllNoDup(policies) && NoSharing(policies) && AllUniform(policies, g) && j < |policies|
    requires IsAverage(a, |policies|, max) && 0 < g && a % g == 0 && Memory(policies[j]) >= a
    ensures Memory(Balance(policies, max, a)[j]) >= a
  {
    BalanceFair(policies, max, a, j);
    BalanceSubset(policies, max, a, j);
    StaysAboveAverage(policies[j], Balance(policies, max, a)[j], a, g);
  }

  lemma {:induction false} DivisorKeepsAverage(policies: seq<Policy>, max: nat, a: nat, g: nat)
    requires policies != [] && Sound(policies, g) && NoSharing(policies)
    requires a == max / |policies| && 0 < g && a % g == 0
    ensures KeepsAverage(policies, max)
  {
    UpdatedIs(policies, max, a);
    forall j | 0 <= j < |policies| && Memory(policies[j]) >= a ensures Memory(Balance(policies, max, a)[j]) >= a {
      DivisorKeeps(policies, max, a, g, j);
    }
  }

  lemma {:induction false} StaysAboveAverage(before: Policy, after: Policy, a: nat, g: nat)
    requires Uniform(before.list, g) && FairlyTreated(before, after, a) && Memory(before) >= a
    requires forall x :: x in after.list ==> x in before.list
    requires 0 < g && a % g == 0
    ensures Memory(after) >= a
  {
    UniformSubset(after.list, before.list, g);
    UniformLargest(before.list, g);
    UniformTotal(after.list, g);
    assert a == (a / g) * g;
    if after != before { NextMultiple(|after.list|, a / g, g); }
  }

  // ---- sizes that do not ------------------------------------------------------------

  /** The first h members hold one segment more than the others. */
  function Shares(n: nat, h: nat, q: nat): (counts: seq<nat>)
    ensures |counts| == n && forall i :: 0 <= i < n ==> counts[i] == if i < h then q + 1 else q
  {
    seq(n, i => if i < h then q + 1 else q)
  }

  lemma {:induction false} SharesSum(n: nat, h: nat, q: nat)
    ensures Sum(Shares(n, h, q)) == n * q + if n < h then n else h
  {
    if n > 0 {
      assert Shares(n, h, q)[..n - 1] == Shares(n - 1, h, q);
      SharesSum(n - 1, h, q);
      assert n * q == (n - 1) * q + q;
    }
  }

  /** n averages of at least q whole segments are at least n * q segments. */
  lemma {:induction false} AtLeast(n: nat, q: nat, g: nat, a: nat, max: nat)
    requires q * g <= a && n * a <= max
    ensures n * q * g <= max
  {
    Grows(n, q * g, a);
    assert n * q * g == n * (q * g);
  }

  lemma {:induction false} AtMost(n: nat, q: nat, g: nat, a: nat, max: nat)
    requires a + 1 <= (q + 1) * g && max < n * (a + 1)
    ensures max < n * (q + 1) * g
  {
    Grows(n, a + 1, (q + 1) * g);
    assert n * (q + 1) * g == n * ((q + 1) * g);
  }

  lemma {:induction false} AverageBounds(n: nat, max: nat, a: nat)
    requires 0 < n && a == max / n
    ensures n * a <= max < n * (a + 1)
  {
    assert max == n * a + max % n;
    assert n * (a + 1) == n * a + n;
  }

  /** How many members hold q + 1 segments when the total is just above the quota. */
  lemma {:induction false} Remainder(n: nat, max: nat, g: nat, q: nat) returns (h: nat)
    requires 0 < n && 0 < g && q == (max / n) / g && (max / n) % g != 0
    ensures 1 <= h <= n && n * q + h == max / g + 1
  {
    var a, t := max / n, max / g;
    AverageBounds(n, max, a);
    NextAbove(a, g, q);
    AtLeast(n, q, g, a, max);
    Divides(n * q, g, max);
    AtMost(n, q, g, a, max);
    Divides(n * (q + 1), g, max);
    assert n * (q + 1) == n * q + n;
    h := t + 1 - n * q;
  }

  lemma {:induction false} JustAbove(max: nat, g: nat)
    requires 0 < g
    ensures max < (max / g + 1) * g <= max + g
  {
    assert max == (max / g) * g + max % g;
    Distributes(max / g, 1, g);
  }

  /** The members before and after the touch that exceeds the quota. */
  lemma {:induction false} JustBelow(n: nat, h: nat, q: nat, g: nat, max: nat)
    requires 1 <= h <= n && 0 < g && n * q + h == max / g + 1 && (q + 1) * g <= max
    ensures var before, after := Shares(n, h - 1, q), Shares(n, h, q);
      && Sum(before) * g <= max && before[h - 1 := before[h - 1] + 1] == after
      && Sum(after) == max / g + 1 && (before[h - 1] + 1) * g <= max
  {
    SharesSum(n, h - 1, q);
    SharesSum(n, h, q);
    Divides(max / g, g, max);
  }

  /** A total just above the quota, as even as whole segments allow: a touch reaches it, and
      the first member, which holds the first multiple of g above the average, is shrunk
      below it. */
  lemma {:induction false} NonDivisorReached(n: nat, max: nat, g: nat, h: nat, q: nat)
    requires 1 <= h <= n && 0 < g && n * q + h == max / g + 1 && (q + 1) * g <= max
    ensures UpdatedOn(n, max, g, Members(Shares(n, h, q), g, max))
  {
    JustBelow(n, h, q, g, max);
    TouchedMembers(n, max, g, Shares(n, h - 1, q), h - 1);
  }

  lemma {:induction false} TouchedMembers(n: nat, max: nat, g: nat, counts: seq<nat>, i: nat)
    requires 0 < g && |counts| == n && i < n && Sum(counts) * g <= max && (counts[i] + 1) * g <= max
    ensures UpdatedOn(n, max, g, Members(counts[i := counts[i] + 1], g, max))
  {
    Reach(n, counts, g, max);
    TouchAdds(counts, g, max, i);
    TouchGrows(counts, g, max, i);
    assert TouchedInto(n, max, g, Members(counts, g, max), i, Seg(i, counts[i], g),
                       Members(counts[i := counts[i] + 1], g, max));
  }

  lemma {:induction false} FirstOfMembers(n: nat, max: nat, g: nat, h: nat, q: nat, a: nat)
    requires 1 <= h <= n && 0 < g && n * q + h == max / g + 1
    requires q * g <= a && (q + 1) * g - g < a < (q + 1) * g && IsAverage(a, n, max)
    ensures var t := Members(Shares(n, h, q), g, max);
      && Sound(t, g) && NoSharing(t) && Memory(t[0]) > a && Memory(Balance(t, max, a)[0]) < a
      && !Overruns(t, max, a)
  {
    var counts := Shares(n, h, q);
    var t, c := Members(counts, g, max), (q + 1) * g;
    MembersSound(counts, g, max);
    MembersUsed(counts, g, t);
    SharesSum(n, h, q);
    JustAbove(max, g);
    forall i | 0 <= i < n ensures Memory(t[i]) <= c { TimesMono(counts[i], q + 1, g); }
    FirstLoses(t, max, a, g, c);
    OverrunsExactly(t, max, a, g);
    OneVictim(c, a, g);
  }

  /** A member less than a segment above the average gives up one segment. */
  lemma {:induction false} OneVictim(m: nat, a: nat, g: nat)
    requires 0 < g && a < m < a + g
    ensures Needed(m, a, g) <= 1
  {
    CeilIs(m - a, 2);
  }

  lemma {:induction false} MostShares(n: nat, max: nat, g: nat, q: nat)
    requires 2 <= n && 0 < g <= max && q == (max / n) / g
    ensures (q + 1) * g <= max
  {
    var a := max / n;
    AverageBounds(n, max, a);
    Divides(q, g, a);
    Grows(a, 2, n);
    Distributes(q, 1, g);
    if q > 0 { TimesMono(1, q, g); }
  }

  lemma {:induction false} FirstLosesAverage(t: seq<Policy>, max: nat, a: nat)
    requires t != [] && AllNoDup(t) && a == max / |t| && IsAverage(a, |t|, max) && !Overruns(t, max, a)
    requires Memory(t[0]) > a && Memory(Balance(t, max, a)[0]) < a
    ensures !KeepsAverage(t, max)
  {
    UpdatedIs(t, max, a);
  }

  lemma {:induction false} WitnessLoses(n: nat, max: nat, g: nat, average: nat, h: nat, q: nat)
    requires 2 <= n && 0 < g && average == max / n && average % g != 0 && q == average / g
    requires 1 <= h <= n && n * q + h == max / g + 1
    ensures var t := Members(Shares(n, h, q), g, max);
      t != [] && AllNoDup(t) && NoSharing(t) && !KeepsAverage(t, max)
  {
    NextAbove(average, g, q);
    AverageOf(n, max);
    FirstOfMembers(n, max, g, h, q, average);
    FirstLosesAverage(Members(Shares(n, h, q), g, max), max, average);
  }

  lemma {:induction false} NonDivisorLosesAverage(n: nat, max: nat, g: nat, average: nat)
    requires 2 <= n && 0 < g <= max && average == max / n && average % g != 0
    ensures !GuaranteesAverage(n, max, g)
  {
    var q := average / g;
    var h := Remainder(n, max, g, q);
    assert (q + 1) * g <= max by { MostShares(n, max, g, q); }
    NonDivisorReached(n, max, g, h, q);
    WitnessLoses(n, max, g, average, h, q);
  }

  lemma {:induction false} NextAbove(a: nat, g: nat, q: nat)
    requires 0 < g && q == a / g && a % g != 0
    ensures q * g <= a && (q + 1) * g - g < a < (q + 1) * g && q * g <= (q + 1) * g
  {
    assert a == q * g + a % g;
    assert (q + 1) * g == q * g + g;
  }

  lemma {:induction false} FirstLoses(ps: seq<Policy>, max: nat, a: nat, g: nat, c: nat)
    requires ps != [] && Sound(ps, g) && NoSharing(ps) && 0 < g
    requires Memory(ps[0]) == c && forall i :: 0 <= i < |ps| ==> Memory(ps[i]) <= c
    requires Used(ps) > max && IsAverage(a, |ps|, max) && c - g < a < c && c == |ps[0].list| * g
    ensures Memory(Balance(ps, max, a)[0]) < a && Top(ps) == c
  {
    RoundDecreases(ps, max, a);
    var next, i := Balanced(ps, max, a), Largest(ps);
    assert i == 0;
    RoundFair(ps, max, a, 0);
    RoundNoLarger(ps, a);
    UniformSubset(next[0].list, ps[0].list, g);
    UniformTotal(next[0].list, g);
    MultipleBelow(|next[0].list|, |ps[0].list|, g);
    BalanceFits(next, max, a);
  }

  lemma {:induction false} MultipleBelow(k: nat, count: nat, g: nat)
    requires k * g < count * g
    ensures k * g <= count * g - g
  {
    assert g * count > g * k;
    Cancel(g, count, k);
    Grows(g, k, count - 1);
    assert g * (count - 1) == count * g - g;
  }

  /** A single member never exceeds the quota, and no touch of a segment larger than the
      quota makes a member grow: nothing is taken from anyone. */
  lemma {:induction false} AloneKeeps(n: nat, max: nat, g: nat, t: seq<Policy>)
    requires 0 < g && n == 1 && UpdatedOn(n, max, g, t) && AllNoDup(t) && t != []
    ensures KeepsAverage(t, max)
  {
    var p, i: nat, s :| TouchedInto(n, max, g, p, i, s, t);
    UpdatedOnFit(n, max, g, p, i, s, t);
    OneUsed(t);
    UpdatedIdle(t, max);
  }

  lemma {:induction false} TooLargeNeverUpdates(n: nat, max: nat, g: nat, t: seq<Policy>)
    requires max < g
    ensures !UpdatedOn(n, max, g, t)
  {
    if UpdatedOn(n, max, g, t) {
      var p, i: nat, s :| TouchedInto(n, max, g, p, i, s, t);
      UpdatedOnFit(n, max, g, p, i, s, t);
      HoldsNothing(t[i].list, g, max);
    }
  }

  lemma {:induction false} HoldsNothing(list: seq<Seg>, g: nat, max: nat)
    requires Uniform(list, g) && Total(list) <= max < g
    ensures Total(list) == 0
  {
    UniformTotal(list, g);
    Divides(|list|, g, max);
    QuotientOf(0, max, g);
  }

  lemma {:induction false} DividesKeeps(n: nat, max: nat, g: nat, average: nat, t: seq<Policy>)
    requires 0 < g && 0 < n && average == max / n && average % g == 0
    requires UpdatedOn(n, max, g, t) && AllNoDup(t) && NoSharing(t) && t != []
    ensures KeepsAverage(t, max)
  {
    var p, i: nat, s :| TouchedInto(n, max, g, p, i, s, t);
    UpdatedOnFit(n, max, g, p, i, s, t);
    DivisorKeepsAverage(t, max, average, g);
  }

  /** The documented guarantee, for every number of members, quota and segment size, over
      every state on which a run calls update. */
  lemma {:induction false} AverageGuarantee(n: nat, max: nat, g: nat, average: nat)
    requires 0 < n && 0 < g && average == max / n
    ensures GuaranteesAverage(n, max, g) <==> n == 1 || g > max || average % g == 0
  {
    if n == 1 || g > max || average % g == 0 {
      forall t | UpdatedOn(n, max, g, t) && AllNoDup(t) && NoSharing(t) && t != [] ensures KeepsAverage(t, max) {
        if n == 1 { AloneKeeps(n, max, g, t); }
        else if g > max { TooLargeNeverUpdates(n, max, g, t); }
        else { DividesKeeps(n, max, g, average, t); }
      }
    } else {
      NonDivisorLosesAverage(n, max, g, average);
    }
  }
}
