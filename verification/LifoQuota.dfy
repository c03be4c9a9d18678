/**
 LIFO members of a quota. `notifyTouch` of LIFO shadows its first-access flag, so a touch
 never asks the quota to update; registering and leaving still do. What such a quota
 keeps is decided exactly: members of one segment size stay within it if and only if the
 segments that fit their limits do, and from an empty quota that is so if and only if
 there is at most one member.
 */
module LifoQuota {
  import opened Arithmetic
  import opened PolicyLists
  import opened Quota
  import opened Wrappers
  import LP = LifoPolicy
  import Q = QuotaRuns

  /** notifyTouch of member i: room is made, the segment goes to the end, the victims leave
      the lists of the others too; the flag tested for the update is the outer one, which
      is never set. */
  function TouchMember(policies: seq<Policy>, i: nat, s: Seg): (r: seq<Policy>)
    requires i < |policies| && s.size <= policies[i].limit
    ensures |r| == |policies|
    ensures forall j :: 0 <= j < |policies| ==> r[j] == TouchedMember(policies, i, s, j)
  {
    seq(|policies|, j requires 0 <= j < |policies| => TouchedMember(policies, i, s, j))
  }

  function TouchedMember(policies: seq<Policy>, i: nat, s: Seg, j: nat): Policy
    requires i < |policies| && j < |policies| && s.size <= policies[i].limit
  {
    var p := policies[i];
    if j == i then p.(list := LP.Touch(p.list, s, p.limit))
    else policies[j].(list := RemoveAll(policies[j].list, TouchVictims(policies, i, s)))
  }

  /** At most n members, one segment size; a touch that does not fit the limit never ends,
      see `LifoPolicy.LoopLeavesExactly`. */
  predicate Allowed(policies: seq<Policy>, n: nat, g: nat, op: Q.Op) {
    match op
    case Register(p) => |policies| < n && NoDup(p.list) && Uniform(p.list, g)
    case Unregister(i) => i < |policies|
    case Touch(i, s) => i < |policies| && s.size == g <= policies[i].limit
    case Forget(i, _) => i < |policies|
  }

  function TouchVictims(policies: seq<Policy>, i: nat, s: Seg): seq<Seg>
    requires i < |policies| && s.size <= policies[i].limit
  {
    Victims(Remove(policies[i].list, s), policies[i].limit - s.size)
  }

  function Step(policies: seq<Policy>, n: nat, g: nat, max: nat, op: Q.Op): Outcome<seq<Policy>>
    requires Sound(policies, g) && Allowed(policies, n, g, op)
  {
    match op
    case Touch(i, s) =>
      if |TouchVictims(policies, i, s)| >= MAX_VICTIMS then Aborted else Done(TouchMember(policies, i, s))
    case _ => Q.Step(policies, max, op)
  }

  // ---- what every step keeps ---------------------------------------------------------

  lemma {:induction false} TouchOwn(list: seq<Seg>, s: Seg, limit: nat)
    requires NoDup(list) && Uniform(list, s.size) && s.size <= limit
    ensures var t := LP.Touch(list, s, limit); NoDup(t) && Uniform(t, s.size) && Total(t) <= limit
  {
    LP.TouchNoDup(list, s, limit);
    LP.TouchFits(list, s, limit);
    UniformTouch(list, s, limit);
  }

  lemma {:induction false} UniformTouch(list: seq<Seg>, s: Seg, limit: nat)
    requires Uniform(list, s.size) && s.size <= limit
    ensures Uniform(LP.Touch(list, s, limit), s.size)
  {
    var r := Remove(list, s);
    UniformSubset(r, list, s.size);
  }

  lemma {:induction false} TouchOther(list: seq<Seg>, gone: seq<Seg>, g: nat)
    requires NoDup(list) && Uniform(list, g)
    ensures var r := RemoveAll(list, gone); NoDup(r) && Uniform(r, g) && Total(r) <= Total(list)
  {
    RemoveAllTotal(list, gone);
    UniformSubset(RemoveAll(list, gone), list, g);
  }

  /** What a touch does to its own member: the oldest other segments that fit beside the touched
      one stay, and the touched one comes last. */
  lemma {:induction false} TouchExactly(policies: seq<Policy>, i: nat, s: Seg)
    requires i < |policies| && s.size <= policies[i].limit
    ensures var r, rest := TouchMember(policies, i, s)[i], Remove(policies[i].list, s);
      var k := |r.list| - 1;
      && 0 <= k <= |rest| && r == policies[i].(list := rest[..k] + [s])
      && Total(rest[..k]) + s.size <= policies[i].limit
      && (k < |rest| ==> Total(rest[..k + 1]) + s.size > policies[i].limit)
  {
    ShortestSuffix(Remove(policies[i].list, s), policies[i].limit - s.size);
  }

  lemma {:induction false} OtherCut(policies: seq<Policy>, i: nat, s: Seg, j: nat, rest: seq<Seg>, room: nat)
    requires i < |policies| && s.size <= policies[i].limit && j < |policies| && j != i
    requires rest == Remove(policies[i].list, s) && room == policies[i].limit - s.size
    ensures TouchMember(policies, i, s)[j] == policies[j].(list := RemoveAll(policies[j].list, Victims(rest, room)))
    ensures |TouchMember(policies, i, s)[i].list| == Survivors(rest, room) + 1
  {
  }

  /** What is cut, all but the first k of the others, leaves the list of every other member too. */
  lemma {:induction false} TouchOthers(policies: seq<Policy>, i: nat, s: Seg, j: nat, r: seq<Policy>, k: nat)
    requires i < |policies| && s.size <= policies[i].limit && j < |policies| && j != i
    requires r == TouchMember(policies, i, s) && |r[i].list| == k + 1
    ensures var rest := Remove(policies[i].list, s); k <= |rest| && Lost(policies[j], r[j], rest[k..])
  {
    var rest, room := Remove(policies[i].list, s), policies[i].limit - s.size;
    OtherCut(policies, i, s, j, rest, room);
    LostVictims(policies[j], rest, room);
  }

  lemma {:induction false} TouchSound(policies: seq<Policy>, i: nat, s: Seg, g: nat)
    requires Sound(policies, g) && i < |policies| && s.size == g <= policies[i].limit
    ensures var r := TouchMember(policies, i, s);
      && Sound(r, g) && Memory(r[i]) <= policies[i].limit
      && forall j :: 0 <= j < |r| && j != i ==> Memory(r[j]) <= Memory(policies[j])
  {
    var r, p := TouchMember(policies, i, s), policies[i];
    TouchOwn(p.list, s, p.limit);
    forall j | 0 <= j < |r| && j != i
      ensures NoDup(r[j].list) && Uniform(r[j].list, g) && Memory(r[j]) <= Memory(policies[j])
    {
      TouchOther(policies[j].list, TouchVictims(policies, i, s), g);
    }
  }

  lemma {:induction false} StepSound(policies: seq<Policy>, n: nat, g: nat, max: nat, op: Q.Op)
    requires Sound(policies, g) && Allowed(policies, n, g, op)
    ensures Step(policies, n, g, max, op).Done? ==> Sound(Step(policies, n, g, max, op).value, g)
  {
    match op
    case Register(p) => UpdatedSound(Q.FullLimits(policies + [p], max), max, g);
    case Unregister(i) => UpdatedSound(Q.FullLimits(policies[..i] + policies[i + 1..], max), max, g);
    case Touch(i, s) => TouchSound(policies, i, s, g);
    case Forget(i, gone) =>
      RemoveAllTotal(policies[i].list, gone);
      UniformSubset(RemoveAll(policies[i].list, gone), policies[i].list, g);
  }

  predicate CanRun(policies: seq<Policy>, n: nat, g: nat, max: nat, ops: seq<Q.Op>)
    requires Sound(policies, g)
    decreases |ops|
  {
    ops == [] ||
    (Allowed(policies, n, g, ops[0])
     && (StepSound(policies, n, g, max, ops[0]);
         var r := Step(policies, n, g, max, ops[0]);
         r.Done? ==> CanRun(r.value, n, g, max, ops[1..])))
  }

  function Run(policies: seq<Policy>, n: nat, g: nat, max: nat, ops: seq<Q.Op>): Outcome<seq<Policy>>
    requires Sound(policies, g) && CanRun(policies, n, g, max, ops)
    decreases |ops|
  {
    if ops == [] then Done(policies)
    else
      StepSound(policies, n, g, max, ops[0]);
      var r := Step(policies, n, g, max, ops[0]);
      if r.Done? then Run(r.value, n, g, max, ops[1..]) else Aborted
  }

  /** The run is stopped, or ends within the quota. */
  predicate StaysWithin(r: Outcome<seq<Policy>>, max: nat) { r.Done? ==> Used(r.value) <= max }

  // ---- segments counted --------------------------------------------------------------

  /** Each member is within its own limit. */
  predicate Fits(policies: seq<Policy>, g: nat) {
    Sound(policies, g) && forall j :: 0 <= j < |policies| ==> Memory(policies[j]) <= policies[j].limit
  }

  function Count(policies: seq<Policy>): nat {
    if policies == [] then 0 else Count(policies[..|policies| - 1]) + |policies[|policies| - 1].list|
  }

  /** How many segments fit the limits of all members. */
  function Slots(policies: seq<Policy>, g: nat): nat
    requires 0 < g
  {
    if policies == [] then 0
    else Slots(policies[..|policies| - 1], g) + policies[|policies| - 1].limit / g
  }

  lemma {:induction false} UsedCount(policies: seq<Policy>, g: nat)
    requires AllUniform(policies, g)
    ensures Used(policies) == Count(policies) * g
  {
    if policies != [] {
      var n := |policies| - 1;
      UsedCount(policies[..n], g);
      UniformTotal(policies[n].list, g);
    }
  }

  lemma {:induction false} FitsCount(p: Policy, g: nat)
    requires 0 < g && Uniform(p.list, g)
    ensures Memory(p) <= p.limit <==> |p.list| <= p.limit / g
  {
    UniformTotal(p.list, g);
    Divides(|p.list|, g, p.limit);
  }

  /** Members within their limits hold at most the slots, and if fewer, one has room. */
  lemma {:induction false} CountSlots(policies: seq<Policy>, g: nat)
    requires 0 < g && Fits(policies, g)
    ensures Count(policies) <= Slots(policies, g)
    ensures Count(policies) < Slots(policies, g) ==>
              exists i :: 0 <= i < |policies| && |policies[i].list| < policies[i].limit / g
  {
    if policies != [] {
      var n := |policies| - 1;
      CountSlots(policies[..n], g);
      FitsCount(policies[n], g);
      if Count(policies[..n]) < Slots(policies[..n], g) {
        var i :| 0 <= i < n && |policies[..n][i].list| < policies[..n][i].limit / g;
        assert policies[i] == policies[..n][i];
      }
    }
  }

  lemma {:induction false} SameSlots(a: seq<Policy>, b: seq<Policy>, g: nat)
    requires 0 < g && |a| == |b| && forall j :: 0 <= j < |a| ==> a[j].limit == b[j].limit
    ensures Slots(a, g) == Slots(b, g)
  {
    if a != [] { SameSlots(a[..|a| - 1], b[..|b| - 1], g); }
  }

  lemma {:induction false} CountUpdate(policies: seq<Policy>, i: nat, p: Policy)
    requires i < |policies|
    ensures Count(policies[i := p]) == Count(policies) - |policies[i].list| + |p.list|
  {
    var n := |policies| - 1;
    if i < n {
      assert policies[i := p][..n] == policies[..n][i := p];
      CountUpdate(policies[..n], i, p);
    } else {
      assert policies[i := p][..n] == policies[..n];
    }
  }

  // ---- fixed members: exactly the slots ------------------------------------------------

  predicate Steady(ops: seq<Q.Op>) {
    forall j :: 0 <= j < |ops| ==> ops[j].Touch? || ops[j].Forget?
  }

  lemma {:induction false} SteadyStep(policies: seq<Policy>, n: nat, g: nat, max: nat, op: Q.Op)
    requires 0 < g && Fits(policies, g) && Allowed(policies, n, g, op) && (op.Touch? || op.Forget?)
    ensures var r := Step(policies, n, g, max, op);
      r.Done? ==> Fits(r.value, g) && |r.value| == |policies| && Slots(r.value, g) == Slots(policies, g)
  {
    var r := Step(policies, n, g, max, op);
    StepSound(policies, n, g, max, op);
    if r.Done? { SameSlots(r.value, policies, g); }
    match op
    case Touch(i, s) => TouchSound(policies, i, s, g);
    case Forget(i, gone) => RemoveAllTotal(policies[i].list, gone);
  }

  lemma {:induction false} SteadyRun(policies: seq<Policy>, n: nat, g: nat, max: nat, ops: seq<Q.Op>)
    requires 0 < g && Fits(policies, g) && CanRun(policies, n, g, max, ops) && Steady(ops)
    ensures var r := Run(policies, n, g, max, ops);
      r.Done? ==> Fits(r.value, g) && Slots(r.value, g) == Slots(policies, g)
    decreases |ops|
  {
    if ops != [] {
      SteadyStep(policies, n, g, max, ops[0]);
      var r := Step(policies, n, g, max, ops[0]);
      if r.Done? { SteadyRun(r.value, n, g, max, ops[1..]); }
    }
  }

  lemma {:induction false} UsedWithinSlots(policies: seq<Policy>, g: nat)
    requires 0 < g && Fits(policies, g)
    ensures Used(policies) <= Slots(policies, g) * g
  {
    var count, slots := Count(policies), Slots(policies, g);
    assert count <= slots by { CountSlots(policies, g); }
    TimesMono(count, slots, g);
    UsedCount(policies, g);
  }

  /** A segment index no list uses. */
  function Unused(list: seq<Seg>): (b: nat)
    ensures forall i :: 0 <= i < |list| ==> list[i].index < b
  {
    if list == [] then 0
    else
      var b, x := Unused(list[..|list| - 1]), list[|list| - 1].index;
      if x < b then b else x + 1
  }

  /** A touch of a new segment in a member with room adds it and evicts nothing. */
  lemma {:induction false} TouchWithRoom(policies: seq<Policy>, i: nat, s: Seg, g: nat)
    requires 0 < g && Fits(policies, g) && i < |policies| && |policies[i].list| < policies[i].limit / g
    requires s.size == g && s !in policies[i].list
    ensures g <= policies[i].limit
    ensures TouchVictims(policies, i, s) == []
    ensures TouchMember(policies, i, s) == policies[i := policies[i].(list := policies[i].list + [s])]
  {
    var p := policies[i];
    Divides(|p.list| + 1, g, p.limit);
    UniformTotal(p.list, g);
    assert Total(p.list) + g <= p.limit;
    RemoveAbsent(p.list, s);
    assert p.list[..|p.list|] == p.list;
    SurvivorsMaximal(p.list, p.limit - g, |p.list|);
    assert Victims(p.list, p.limit - g) == [];
  }

  lemma {:induction false} FillOne(policies: seq<Policy>, n: nat, g: nat, max: nat) returns (op: Q.Op)
    requires 0 < g && Fits(policies, g) && Count(policies) < Slots(policies, g)
    ensures op.Touch? && Allowed(policies, n, g, op)
    ensures var r := Step(policies, n, g, max, op);
      r.Done? && Fits(r.value, g) && Slots(r.value, g) == Slots(policies, g) && Count(r.value) == Count(policies) + 1
  {
    CountSlots(policies, g);
    var i :| 0 <= i < |policies| && |policies[i].list| < policies[i].limit / g;
    var s := Seg(i, Unused(policies[i].list), g);
    op := Q.Touch(i, s);
    TouchWithRoom(policies, i, s, g);
    SteadyStep(policies, n, g, max, op);
    CountUpdate(policies, i, policies[i].(list := policies[i].list + [s]));
  }

  /** Touches of new segments fill every slot, each member with its own mapping. */
  lemma {:induction false} Fill(policies: seq<Policy>, n: nat, g: nat, max: nat) returns (ops: seq<Q.Op>)
    requires 0 < g && Fits(policies, g)
    ensures CanRun(policies, n, g, max, ops) && Steady(ops)
    ensures var r := Run(policies, n, g, max, ops);
      r.Done? && Sound(r.value, g) && Count(r.value) == Slots(policies, g)
    decreases Slots(policies, g) - Count(policies)
  {
    ops := [];
    assert Count(policies) <= Slots(policies, g) by { CountSlots(policies, g); }
    if Count(policies) < Slots(policies, g) {
      var op := FillOne(policies, n, g, max);
      var rest := Fill(Step(policies, n, g, max, op).value, n, g, max);
      ops := [op] + rest;
      assert ops[1..] == rest;
    }
  }

  ghost predicate KeepsQuota(policies: seq<Policy>, g: nat, max: nat)
    requires Sound(policies, g)
  {
    forall ops :: CanRun(policies, |policies|, g, max, ops) && Steady(ops) ==>
      StaysWithin(Run(policies, |policies|, g, max, ops), max)
  }

  /** Between registrations, with whatever limits the last update left: every run stays
      within the quota if and only if the slots of all members do. */
  lemma {:induction false} LimitsExactly(policies: seq<Policy>, g: nat, max: nat)
    requires 0 < g && Fits(policies, g)
    ensures KeepsQuota(policies, g, max) <==> Slots(policies, g) * g <= max
  {
    var n := |policies|;
    var ops := Fill(policies, n, g, max);
    UsedCount(Run(policies, n, g, max, ops).value, g);
    forall ops | CanRun(policies, n, g, max, ops) && Steady(ops)
      ensures StaysWithin(Run(policies, n, g, max, ops), Slots(policies, g) * g)
    {
      SteadyRun(policies, n, g, max, ops);
      var r := Run(policies, n, g, max, ops);
      if r.Done? { UsedWithinSlots(r.value, g); }
    }
  }

  // ---- whole runs: at most one member ----------------------------------------------------

  /** One member under the balancing loop: when it ends, the slots of its limit fit. */
  ghost predicate OneFits(p: Policy, g: nat, max: nat)
    requires 0 < g
  {
    Memory(p) <= max ==> Memory(p) <= p.limit && (p.limit / g) * g <= max
  }

  lemma {:induction false} KeptUniform(list: seq<Seg>, g: nat, limit: nat)
    requires 0 < g && Uniform(list, g) && Total(list) > limit
    ensures Total(Kept(list, limit)) == (limit / g) * g
  {
    UniformSurvivors(list, g, limit);
    UniformTotal(Kept(list, limit), g);
  }

  lemma {:induction false} OneBalanced(policies: seq<Policy>, g: nat, max: nat)
    requires 0 < g && |policies| == 1 && Sound(policies, g) && IsAverage(max, 1, max)
    requires OneFits(policies[0], g, max)
    ensures var r := Balance(policies, max, max); |r| == 1 && OneFits(r[0], g, max)
    decreases Used(policies)
  {
    if Used(policies) > max {
      var r, p := Balanced(policies, max, max), policies[0];
      UniformSubset(r[0].list, p.list, g);
      OneUsed(policies);
      KeptUniform(p.list, g, NewLimit(max, Memory(p)));
      Divides(r[0].limit / g, g, r[0].limit);
      OneBalanced(r, g, max);
    }
  }

  /** A single member, its limit possibly lowered by an update. */
  ghost predicate Single(policies: seq<Policy>, g: nat, max: nat) {
    && 0 < g && Sound(policies, g) && |policies| <= 1
    && (|policies| == 1 ==> Memory(policies[0]) <= policies[0].limit && (policies[0].limit / g) * g <= max)
  }

  lemma {:induction false} SingleUsed(policies: seq<Policy>, g: nat, max: nat)
    requires Single(policies, g, max)
    ensures Used(policies) <= max
  {
    if |policies| == 1 {
      var p := policies[0];
      OneUsed(policies);
      FitsCount(p, g);
      UniformTotal(p.list, g);
      assert (p.limit / g - |p.list|) * g >= 0;
    }
  }

  lemma {:induction false} SingleRegister(p: Policy, g: nat, max: nat)
    requires 0 < g && NoDup(p.list) && Uniform(p.list, g)
    ensures var r := Updated(Q.FullLimits([p], max), max); r.Done? ==> Single(r.value, g, max)
  {
    var full := Q.FullLimits([p], max);
    Divides(max / g, g, max);
    UpdatedIs(full, max, max);
    UpdatedSound(full, max, g);
    UpdatedFits(full, max);
    OneBalanced(full, g, max);
    var r := Updated(full, max);
    if r.Done? { OneUsed(r.value); }
  }

  lemma {:induction false} SingleStep(policies: seq<Policy>, n: nat, g: nat, max: nat, op: Q.Op)
    requires n <= 1 && Single(policies, g, max) && Allowed(policies, n, g, op)
    ensures var r := Step(policies, n, g, max, op); r.Done? ==> Single(r.value, g, max)
  {
    match op
    case Register(p) => assert policies + [p] == [p]; SingleRegister(p, g, max);
    case Unregister(i) => assert policies[..i] + policies[i + 1..] == [];
    case _ => SteadyStep(policies, n, g, max, op);
  }

  lemma {:induction false} SingleRun(policies: seq<Policy>, n: nat, g: nat, max: nat, ops: seq<Q.Op>)
    requires n <= 1 && Single(policies, g, max) && CanRun(policies, n, g, max, ops)
    ensures StaysWithin(Run(policies, n, g, max, ops), max)
    decreases |ops|
  {
    if ops == [] {
      SingleUsed(policies, g, max);
    } else {
      SingleStep(policies, n, g, max, ops[0]);
      var r := Step(policies, n, g, max, ops[0]);
      if r.Done? { SingleRun(r.value, n, g, max, ops[1..]); }
    }
  }

  /** Two empty members registered one after the other both have the whole quota as limit. */
  lemma {:induction false} TwoMembers(n: nat, g: nat, max: nat, ops: seq<Q.Op>)
    requires 2 <= n && 0 < g
    ensures var two := [Policy([], max), Policy([], max)];
      var all := [Q.Register(Policy([], 0)), Q.Register(Policy([], 0))] + ops;
      && Fits(two, g) && Slots(two, g) == 2 * (max / g)
      && (CanRun(two, n, g, max, ops) ==>
            CanRun([], n, g, max, all) && Run([], n, g, max, all) == Run(two, n, g, max, ops))
  {
    var empty, full := Policy([], 0), Policy([], max);
    var reg, two := Q.Register(empty), [full, full];
    assert Q.FullLimits([] + [empty], max) == [full];
    assert Q.FullLimits([full] + [empty], max) == two;
    assert [full][..0] == [] && two[..1] == [full];
    assert Used([full]) == Used([]) + Memory(full) == 0;
    assert Used(two) == Used([full]) + Memory(full) == 0;
    assert Slots([full], g) == Slots([], g) + max / g;
    assert Slots(two, g) == Slots([full], g) + max / g;
    UpdatedIdle([full], max);
    UpdatedIdle(two, max);
    assert Step([], n, g, max, reg) == Done([full]);
    assert Step([full], n, g, max, reg) == Done(two);
    var all := [reg, reg] + ops;
    assert all[1..] == [reg] + ops && all[1..][1..] == ops;
  }

  lemma {:induction false} TwiceExceeds(g: nat, max: nat)
    requires 0 < g <= max
    ensures 2 * (max / g) * g > max
  {
    var q := max / g;
    Divides(1, g, max);
    Divides(q + 1, g, max);
    assert (q + q) * g == (q + 1) * g + (q - 1) * g;
    assert (q - 1) * g >= 0;
  }

  ghost predicate LifoKeepsQuota(n: nat, g: nat, max: nat) {
    forall ops :: CanRun([], n, g, max, ops) ==> StaysWithin(Run([], n, g, max, ops), max)
  }

  /** From an empty quota, with at most n members at a time: every run of registrations,
      touches, evictions and frees is stopped or stays within the quota if and only if n is
      at most 1. */
  lemma {:induction false} LifoQuotaExactly(n: nat, g: nat, max: nat)
    requires 0 < g <= max
    ensures LifoKeepsQuota(n, g, max) <==> n <= 1
  {
    if n <= 1 {
      forall ops | CanRun([], n, g, max, ops) ensures StaysWithin(Run([], n, g, max, ops), max) {
        SingleRun([], n, g, max, ops);
      }
    } else {
      LifoEscapesQuota(n, g, max);
    }
  }

  /** Two members fill their limits and together exceed the quota. */
  lemma {:induction false} LifoEscapesQuota(n: nat, g: nat, max: nat)
    requires 2 <= n && 0 < g <= max
    ensures exists ops :: CanRun([], n, g, max, ops) && Run([], n, g, max, ops).Done?
              && Used(Run([], n, g, max, ops).value) > max
  {
    var two := [Policy([], max), Policy([], max)];
    TwoMembers(n, g, max, []);
    var ops := Fill(two, n, g, max);
    TwoMembers(n, g, max, ops);
    UsedCount(Run(two, n, g, max, ops).value, g);
    TwiceExceeds(g, max);
    var all := [Q.Register(Policy([], 0)), Q.Register(Policy([], 0))] + ops;
    assert CanRun([], n, g, max, all);
  }
}
