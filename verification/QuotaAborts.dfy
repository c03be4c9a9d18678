/**
 When the balancing of a quota stops the process. One round of the loop evicts half of what
 the largest member holds above the average, and shrinkMemory has room for fewer than 128
 victims. With one segment size only the first round matters, and an ordinary touch is
 enough: the exact condition is given for one update and for whole runs.
 */
module QuotaAborts {
  import opened Arithmetic
  import opened PolicyLists
  import opened Quota
  import opened QuotaRuns
  import opened QuotaReach
  import opened Wrappers

  /** The quotient rounded up, see `CeilIs`. */
  function Ceil(x: nat, d: nat): nat
    requires 0 < d
  {
    if x == 0 then 0 else if x <= d then 1 else 1 + Ceil(x - d, d)
  }

  lemma {:induction false} CeilIs(x: nat, d: nat)
    requires 0 < d
    ensures Ceil(x, d) == (x + d - 1) / d
  {
    if x == 0 {
      QuotientOf(0, d - 1, d);
    } else if x <= d {
      QuotientOf(1, x - 1, d);
    } else {
      CeilIs(x - d, d);
      NextQuotient(x - 1, d);
    }
  }

  lemma {:induction false} NextQuotient(x: nat, d: nat)
    requires 0 < d
    ensures (x + d) / d == x / d + 1
  {
    var q := x / d;
    assert x == q * d + x % d;
    Distributes(q, 1, d);
    QuotientOf(q + 1, x % d, d);
  }

  /** Victims of a round on a member of m bytes: half of its excess over the average, in
      whole segments. */
  function Needed(m: nat, average: nat, g: nat): nat
    requires 0 < g
  {
    Ceil(Ceil(if m > average then m - average else 0, 2), g)
  }

  lemma {:induction false} CeilMono(x: nat, y: nat, d: nat)
    requires 0 < d && x <= y
    ensures Ceil(x, d) <= Ceil(y, d)
  {
    if d < x { CeilMono(x - d, y - d, d); }
  }

  lemma {:induction false} NeededMono(m: nat, a: nat, k: nat, b: nat, g: nat)
    requires 0 < g && m <= k && b <= a
    ensures Needed(m, a, g) <= Needed(k, b, g)
  {
    var x, y := if m > a then m - a else 0, if k > b then k - b else 0;
    CeilMono(x, y, 2);
    CeilMono(Ceil(x, 2), Ceil(y, 2), g);
  }

  /** Segments to drop from c of them to get down to a limit. */
  lemma {:induction false} CeilOver(c: nat, g: nat, limit: nat)
    requires 0 < g && limit <= c * g
    ensures limit / g <= c && Ceil(c * g - limit, g) == c - limit / g
  {
    var q, r := limit / g, limit % g;
    assert limit == q * g + r;
    Divides(q, g, limit);
    Divides(q, g, c * g);
    Quotient(c, g);
    Distributes(q, c - q, g);
    CeilBelow(c - q, g, r);
  }

  lemma {:induction false} CeilBelow(k: nat, g: nat, r: nat)
    requires 0 < g && r < g && r <= k * g
    ensures Ceil(k * g - r, g) == k
  {
    if k > 1 {
      Distributes(k - 1, 1, g);
      TimesMono(1, k - 1, g);
      CeilBelow(k - 1, g, r);
    }
  }

  lemma {:induction false} QuotientOf(k: nat, t: nat, g: nat)
    requires t < g
    ensures (k * g + t) / g == k
  {
    Divides(k, g, k * g + t);
    Divides(k + 1, g, k * g + t);
    Distributes(k, 1, g);
  }

  lemma {:induction false} VictimCount(p: Policy, a: nat, g: nat)
    requires 0 < g && Uniform(p.list, g) && a < Memory(p)
    ensures |Victims(p.list, NewLimit(a, Memory(p)))| == Needed(Memory(p), a, g)
  {
    var m, limit := Memory(p), NewLimit(a, Memory(p));
    UniformSurvivors(p.list, g, limit);
    UniformTotal(p.list, g);
    CeilOver(|p.list|, g, limit);
    CeilIs(m - a, 2);
  }

  // ---- one update -------------------------------------------------------------------

  function Top(policies: seq<Policy>): nat
    requires policies != []
  {
    Memory(policies[Largest(policies)])
  }

  lemma {:induction false} RoundLowersTop(policies: seq<Policy>, max: nat, a: nat)
    requires AllNoDup(policies) && policies != [] && Used(policies) > max && IsAverage(a, |policies|, max)
    ensures Top(Balanced(policies, max, a)) <= Top(policies)
  {
    var r := Balanced(policies, max, a);
    assert Memory(r[Largest(r)]) <= Memory(policies[Largest(r)]);
  }

  /** Only the first round matters. */
  lemma {:induction false} OverrunsExactly(policies: seq<Policy>, max: nat, a: nat, g: nat)
    requires 0 < g && Sound(policies, g) && IsAverage(a, |policies|, max)
    ensures Overruns(policies, max, a)
       <==> policies != [] && Used(policies) > max && Needed(Top(policies), a, g) >= MAX_VICTIMS
    decreases Used(policies)
  {
    if policies != [] && Used(policies) > max {
      var r := Balanced(policies, max, a);
      RoundDecreases(policies, max, a);
      VictimCount(policies[Largest(policies)], a, g);
      RoundLowersTop(policies, max, a);
      NeededMono(Top(r), a, Top(policies), a, g);
      BalancedUniform(policies, max, a, g);
      OverrunsExactly(r, max, a, g);
    }
  }

  /** An update stops the process if and only if the quota is exceeded and half the excess
      of the largest member over the average is 128 segments or more. */
  lemma {:induction false} UpdateAbortsExactly(policies: seq<Policy>, max: nat, average: nat, g: nat)
    requires 0 < g && Sound(policies, g) && policies != [] && average == max / |policies|
    ensures Updated(policies, max).Aborted?
       <==> Used(policies) > max && Needed(Top(policies), average, g) >= MAX_VICTIMS
  {
    UpdatedIs(policies, max, average);
    OverrunsExactly(policies, max, average, g);
  }

  // ---- whole runs -----------------------------------------------------------------------

  /** The most that whole segments fill of the quota. */
  function Most(g: nat, max: nat): nat
    requires 0 < g
  {
    if max < g then 0 else g + Most(g, max - g)
  }

  lemma {:induction false} MostIs(g: nat, max: nat)
    requires 0 < g
    ensures Most(g, max) == (max / g) * g
  {
    if max < g {
      QuotientOf(0, max, g);
    } else {
      MostIs(g, max - g);
      NextQuotient(max - g, g);
      Distributes((max - g) / g, 1, g);
    }
  }

  /** The average of n members. */
  function Part(n: nat, max: nat): nat
    requires 0 < n
  {
    if max < n then 0 else 1 + Part(n, max - n)
  }

  lemma {:induction false} PartIs(n: nat, max: nat)
    requires 0 < n
    ensures Part(n, max) == max / n
  {
    if max < n {
      QuotientOf(0, max, n);
    } else {
      PartIs(n, max - n);
      NextQuotient(max - n, n);
    }
  }

  /** The worst update: one member holds all that fits, with the smallest average. */
  predicate Spared(n: nat, g: nat, max: nat)
    requires 0 < g
  {
    n <= 1 || Needed(Most(g, max), Part(n, max), g) < MAX_VICTIMS
  }

  lemma {:induction false} SparedIs(n: nat, g: nat, max: nat)
    requires 0 < g
    ensures Spared(n, g, max) <==> n <= 1 || Needed((max / g) * g, max / n, g) < MAX_VICTIMS
  {
    MostIs(g, max);
    if n > 1 { PartIs(n, max); }
  }

  lemma {:induction false} SmallerShare(k: nat, n: nat, max: nat, average: nat)
    requires 0 < k <= n && average == max / k
    ensures Part(n, max) <= average
  {
    PartIs(n, max);
    var q := max / n;
    Divides(q, n, max);
    Grows(q, k, n);
    Divides(q, k, max);
  }

  lemma {:induction false} TopFits(policies: seq<Policy>, g: nat, max: nat)
    requires 0 < g && policies != [] && AllUniform(policies, g) && Limited(policies, max)
    ensures Top(policies) <= Most(g, max)
  {
    var list := policies[Largest(policies)].list;
    MostIs(g, max);
    UniformTotal(list, g);
    Divides(|list|, g, max);
    TimesMono(|list|, max / g, g);
  }

  lemma {:induction false} NeededSpared(policies: seq<Policy>, average: nat, n: nat, g: nat, max: nat)
    requires 0 < g && Spared(n, g, max) && 2 <= |policies| <= n && average == max / |policies|
    requires AllUniform(policies, g) && Limited(policies, max)
    ensures Needed(Top(policies), average, g) < MAX_VICTIMS
  {
    TopFits(policies, g, max);
    SmallerShare(|policies|, n, max, average);
    NeededMono(Top(policies), average, Most(g, max), Part(n, max), g);
  }

  lemma {:induction false} UpdateSpared(policies: seq<Policy>, n: nat, g: nat, max: nat)
    requires 0 < g && Spared(n, g, max) && policies != [] && |policies| <= n
    requires Sound(policies, g) && Limited(policies, max)
    ensures Updated(policies, max).Done?
  {
    var average := max / |policies|;
    UpdateAbortsExactly(policies, max, average, g);
    if |policies| == 1 { OneUsed(policies); } else { NeededSpared(policies, average, n, g, max); }
  }

  lemma {:induction false} TouchSpared(policies: seq<Policy>, i: nat, s: Seg, n: nat, g: nat, max: nat)
    requires 0 < g && Spared(n, g, max) && Fit(policies, n, g, max) && i < |policies| && s.size == g
    ensures Step(policies, max, Touch(i, s)).Done?
  {
    TouchFit(policies, i, s, n, g, max);
    UpdateSpared(TouchMember(policies, i, s), n, g, max);
  }

  lemma {:induction false} StepSpared(policies: seq<Policy>, n: nat, g: nat, max: nat, op: Op)
    requires 0 < g && Spared(n, g, max) && Fit(policies, n, g, max) && Admits(policies, n, g, op)
    ensures var r := Step(policies, max, op); r.Done? && Fit(r.value, n, g, max)
  {
    match op
    case Register(p) => RegisterFit(policies, n, g, max, p);
    case Unregister(i) => UnregisterFit(policies, n, g, max, i);
    case Touch(i, s) =>
      TouchSpared(policies, i, s, n, g, max);
      TouchKeepsFit(policies, i, s, n, g, max);
    case Forget(i, gone) => ForgetFit(policies, n, g, max, i, gone);
  }

  lemma {:induction false} RunSpared(policies: seq<Policy>, n: nat, g: nat, max: nat, ops: seq<Op>)
    requires 0 < g && Spared(n, g, max) && Fit(policies, n, g, max)
    requires Admitted(policies, n, g, max, ops) && CanRun(policies, max, ops)
    ensures Run(policies, max, ops).Done?
    decreases |ops|
  {
    if ops != [] {
      StepSpared(policies, n, g, max, ops[0]);
      RunSpared(Step(policies, max, ops[0]).value, n, g, max, ops[1..]);
    }
  }

  /** One member fills the quota, the second touches its first segment. */
  lemma {:induction false} AbortReached(n: nat, g: nat, max: nat)
    requires 0 < g <= max && !Spared(n, g, max)
    ensures exists ops :: Ends([], n, g, max, ops, Aborted)
  {
    var q, counts := max / g, Zeros(n)[0 := max / g];
    Divides(q, g, max);
    SumZero(Zeros(n));
    SumUpdate(Zeros(n), 0, q);
    Reach(n, counts, g, max);
    MembersWithin(counts, g, max);
    var ps, op := Members(counts, g, max), Touch(1, Seg(1, 0, g));
    SecondTouchAborts(n, counts, g, max);
    var ops :| Ends([], n, g, max, ops, Done(ps));
    EndsThen([], n, g, max, ops, ps, op);
  }

  /** The second member has grown, the quota is exceeded by less than a segment. */
  lemma {:induction false} FullPlusOne(n: nat, counts: seq<nat>, more: seq<nat>, g: nat, max: nat, q: nat)
    requires 0 < g && 2 <= n && q == max / g && 1 <= q && counts == Zeros(n)[0 := q] && Sum(counts) == q
    requires more == counts[1 := 1]
    ensures var t := Members(more, g, max);
      Sound(t, g) && |t| == n && Used(t) > max && Top(t) == q * g && Memory(t[1]) == g
  {
    var t := Members(more, g, max);
    MembersSound(more, g, max);
    MembersUsed(more, g, t);
    SumUpdate(counts, 1, 1);
    Divides(q + 1, g, max);
    TopIs(more, g, max, q);
  }

  lemma {:induction false} SecondTouchAborts(n: nat, counts: seq<nat>, g: nat, max: nat)
    requires 0 < g <= max && !Spared(n, g, max) && counts == Zeros(n)[0 := max / g]
    requires Sum(counts) == max / g && Within(Members(counts, g, max), max)
    ensures Step(Members(counts, g, max), max, Touch(1, Seg(1, 0, g))) == Aborted
  {
    var ps, more := Members(counts, g, max), counts[1 := 1];
    Divides(1, g, max);
    MostIs(g, max);
    FullPlusOne(n, counts, more, g, max, max / g);
    TouchAdds(counts, g, max, 1);
    FullAborts(n, Members(more, g, max), g, max);
    assert ps[1].list == [];
  }

  lemma {:induction false} FullAborts(n: nat, t: seq<Policy>, g: nat, max: nat)
    requires 0 < g && !Spared(n, g, max) && |t| == n && Sound(t, g) && Used(t) > max && Top(t) == Most(g, max)
    ensures Updated(t, max) == Aborted
  {
    PartIs(n, max);
    UpdateAbortsExactly(t, max, Part(n, max), g);
  }

  lemma {:induction false} TopIs(counts: seq<nat>, g: nat, max: nat, q: nat)
    requires 0 < |counts| && counts[0] == q && forall i :: 0 <= i < |counts| ==> counts[i] <= q
    ensures Top(Members(counts, g, max)) == q * g
  {
    var t := Members(counts, g, max);
    MembersSound(counts, g, max);
    forall i | 0 <= i < |counts| ensures Memory(t[i]) <= q * g { TimesMono(counts[i], q, g); }
    assert Memory(t[0]) == q * g;
  }

  ghost predicate NeverAborts(n: nat, g: nat, max: nat) {
    forall ops, r :: Ends([], n, g, max, ops, r) ==> r.Done?
  }

  /** Over all runs of at most n members that join empty, with one segment size: the process
      is never stopped if and only if there is at most one member, or half of what a full
      quota exceeds the average by is less than 128 segments. */
  lemma {:induction false} RunsAbortExactly(n: nat, g: nat, max: nat)
    requires 0 < g <= max
    ensures NeverAborts(n, g, max) <==> n <= 1 || Needed((max / g) * g, max / n, g) < MAX_VICTIMS
  {
    SparedIs(n, g, max);
    if Spared(n, g, max) {
      forall ops, r | Ends([], n, g, max, ops, r) ensures r.Done? {
        assert Fit([], n, g, max);
        RunSpared([], n, g, max, ops);
      }
    } else {
      AbortReached(n, g, max);
    }
  }

  /** Two members of four-kilobyte segments sharing 1000 of them. */
  lemma {:induction false} OrdinaryAbort()
    ensures !NeverAborts(2, 4096, 4096 * 1000)
  {
    CeilIs(4096000 - 2048000, 2);
    CeilIs(1024000, 4096);
    RunsAbortExactly(2, 4096, 4096 * 1000);
  }
}
