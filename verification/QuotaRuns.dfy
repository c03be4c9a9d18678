/**
 The quota object and its life: policies register and leave, touch, evict and free
 segments. After every step the total memory is within the quota.
 */
module QuotaRuns {
  import opened PolicyLists
  import opened Quota
  import opened Wrappers

  datatype Op =
    | Register(policy: Policy)
    | Unregister(i: nat)
    | Touch(i: nat, s: Seg)
    | Forget(i: nat, gone: seq<Seg>)   // notifyEvict, or freeElementStorage of a mapping

  /** updateNotifyLimit gives every member the whole quota as limit. */
  function FullLimits(policies: seq<Policy>, max: nat): (r: seq<Policy>)
    ensures |r| == |policies| && forall j :: 0 <= j < |r| ==> r[j] == policies[j].(limit := max)
  {
    seq(|policies|, j requires 0 <= j < |policies| => policies[j].(limit := max))
  }

  /** notifyTouch of member i: the touch and its evictions. */
  function TouchMember(policies: seq<Policy>, i: nat, s: Seg): (r: seq<Policy>)
    requires i < |policies|
    ensures |r| == |policies|
  {
    Shrink(policies[i := policies[i].(list := Touched(policies[i].list, s))], i)
  }

  function TouchVictims(policies: seq<Policy>, i: nat, s: Seg): seq<Seg>
    requires i < |policies|
  {
    Victims(Touched(policies[i].list, s), policies[i].limit)
  }

  /** The quota is updated if this was a first access that made the member grow. */
  predicate NotifiesQuota(policies: seq<Policy>, i: nat, s: Seg)
    requires i < |policies|
  {
    s !in policies[i].list && Memory(TouchMember(policies, i, s)[i]) > Memory(policies[i])
  }

  predicate Allowed(policies: seq<Policy>, op: Op) {
    match op
    case Register(p) => NoDup(p.list)
    case Unregister(i) => i < |policies|
    case Touch(i, _) => i < |policies|
    case Forget(i, _) => i < |policies|
  }

  /** Both the touch and the update stop the process when they have too many victims. */
  function Step(policies: seq<Policy>, max: nat, op: Op): (r: Outcome<seq<Policy>>)
    requires AllNoDup(policies) && Allowed(policies, op)
  {
    match op
    case Register(p) => Updated(FullLimits(policies + [p], max), max)
    case Unregister(i) => Updated(FullLimits(policies[..i] + policies[i + 1..], max), max)
    case Touch(i, s) =>
      TouchNoLarger(policies, i, s);
      var t := TouchMember(policies, i, s);
      if |TouchVictims(policies, i, s)| >= MAX_VICTIMS then Aborted
      else if NotifiesQuota(policies, i, s) then Updated(t, max) else Done(t)
    case Forget(i, gone) => Done(policies[i := policies[i].(list := RemoveAll(policies[i].list, gone))])
  }

  /** A touch without growth of its own member never makes the total grow. */
  lemma {:induction false} TouchNoLarger(policies: seq<Policy>, i: nat, s: Seg)
    requires AllNoDup(policies) && i < |policies|
    ensures AllNoDup(TouchMember(policies, i, s))
    ensures s in policies[i].list || Memory(TouchMember(policies, i, s)[i]) <= Memory(policies[i]) ==>
              NoLarger(TouchMember(policies, i, s), policies)
  {
    TouchedTotal(policies[i].list, s);
    var touched := policies[i := policies[i].(list := Touched(policies[i].list, s))];
    ShrinkNoLarger(touched, i);
  }

  predicate Within(policies: seq<Policy>, max: nat) {
    AllNoDup(policies) && Used(policies) <= max
  }

  lemma {:induction false} StepWithin(policies: seq<Policy>, max: nat, op: Op)
    requires Within(policies, max) && Allowed(policies, op)
    ensures Step(policies, max, op).Done? ==> Within(Step(policies, max, op).value, max)
  {
    match op
    case Register(p) => UpdatedFits(FullLimits(policies + [p], max), max);
    case Unregister(i) => UpdatedFits(FullLimits(policies[..i] + policies[i + 1..], max), max);
    case Touch(i, s) =>
      TouchNoLarger(policies, i, s);
      UpdatedFits(TouchMember(policies, i, s), max);
      if !NotifiesQuota(policies, i, s) { UsedMono(TouchMember(policies, i, s), policies, i); }
    case Forget(i, gone) =>
      RemoveAllTotal(policies[i].list, gone);
      UsedMono(Step(policies, max, op).value, policies, i);
  }

  predicate CanRun(policies: seq<Policy>, max: nat, ops: seq<Op>)
    requires Within(policies, max)
    decreases |ops|
  {
    ops == [] ||
    (Allowed(policies, ops[0])
     && (StepWithin(policies, max, ops[0]);
         var r := Step(policies, max, ops[0]);
         r.Done? ==> CanRun(r.value, max, ops[1..])))
  }

  /** A run ends at the first step that stops the process. */
  function Run(policies: seq<Policy>, max: nat, ops: seq<Op>): Outcome<seq<Policy>>
    requires Within(policies, max) && CanRun(policies, max, ops)
    decreases |ops|
  {
    if ops == [] then Done(policies)
    else
      StepWithin(policies, max, ops[0]);
      var r := Step(policies, max, ops[0]);
      if r.Done? then Run(r.value, max, ops[1..]) else Aborted
  }

  /** The quota holds after every run, unless the process has been stopped;
      `QuotaAborts` says exactly when that happens. */
  lemma {:induction false} QuotaAlwaysHolds(policies: seq<Policy>, max: nat, ops: seq<Op>)
    requires Within(policies, max) && CanRun(policies, max, ops)
    ensures var r := Run(policies, max, ops); r.Done? ==> Within(r.value, max)
    decreases |ops|
  {
    if ops != [] {
      StepWithin(policies, max, ops[0]);
      var r := Step(policies, max, ops[0]);
      if r.Done? { QuotaAlwaysHolds(r.value, max, ops[1..]); }
    }
  }

  // ---- the object -----------------------------------------------------------------

  class PolicyQuotaLocal {
    var staticMaxMemory: nat
    var policies: seq<Policy>

    constructor (max: nat)
      ensures staticMaxMemory == max && policies == []
    {
      staticMaxMemory, policies := max, [];
    }

    method GetUsedMemory() returns (total: nat)
      ensures total == Used(policies)
    {
      total := 0;
      for i := 0 to |policies|
        invariant total == Used(policies[..i])
      {
        total := total + Memory(policies[i]);
        assert policies[..i + 1][..i] == policies[..i];
      }
      assert policies[..|policies|] == policies;
    }

    method SearchMax() returns (best: nat)
      requires policies != []
      ensures best == Largest(policies)
    {
      best := 0;
      for i := 1 to |policies|
        invariant best < i && best == Largest(policies[..i])
      {
        assert policies[..i + 1][..i] == policies[..i];
        if Memory(policies[i]) > Memory(policies[best]) { best := i; }
      }
      assert policies[..|policies|] == policies;
    }

    /** The balancing loop: it ends, never underflows, and computes `Updated`. */
    method Update() returns (aborted: bool)
      requires AllNoDup(policies)
      modifies this`policies
      ensures aborted == Updated(old(policies), staticMaxMemory).Aborted?
      ensures !aborted ==> policies == Updated(old(policies), staticMaxMemory).value
    {
      if |policies| == 0 { return false; }
      UpdatedIs(policies, staticMaxMemory, staticMaxMemory / |policies|);
      aborted := BalanceAll(staticMaxMemory / |policies|);
    }

    method BalanceAll(averageMem: nat) returns (aborted: bool)
      requires AllNoDup(policies) && policies != [] && IsAverage(averageMem, |policies|, staticMaxMemory)
      modifies this`policies
      ensures aborted <==> Overruns(old(policies), staticMaxMemory, averageMem)
      ensures !aborted ==> policies == Balance(old(policies), staticMaxMemory, averageMem)
    {
      var totMem := GetUsedMemory();
      while totMem > staticMaxMemory
        invariant |policies| == |old(policies)| && AllNoDup(policies) && totMem == Used(policies)
        invariant Balance(policies, staticMaxMemory, averageMem) == Balance(old(policies), staticMaxMemory, averageMem)
        invariant Overruns(policies, staticMaxMemory, averageMem)
               == Overruns(old(policies), staticMaxMemory, averageMem)
        decreases totMem
      {
        aborted := ReduceLargest(averageMem);
        if aborted { return; }
        totMem := GetUsedMemory();
      }
      aborted := false;
    }

    /** One round: the subtraction cannot underflow; shrinkMemory stops the process when its
        buffer is full. */
    method ReduceLargest(averageMem: nat) returns (aborted: bool)
      requires AllNoDup(policies) && policies != [] && Used(policies) > staticMaxMemory
      requires IsAverage(averageMem, |policies|, staticMaxMemory)
      modifies this`policies
      ensures averageMem <= Memory(old(policies)[Largest(old(policies))])
      ensures aborted <==> |RoundVictims(old(policies), averageMem)| >= MAX_VICTIMS
      ensures !aborted ==> policies == Balanced(old(policies), staticMaxMemory, averageMem)
    {
      LargestAboveAverage(policies, staticMaxMemory, averageMem);
      var polMax := SearchMax();
      var limit := NewLimit(averageMem, Memory(policies[polMax]));
      var limited := policies[polMax := policies[polMax].(limit := limit)];
      aborted := |Victims(limited[polMax].list, limit)| >= MAX_VICTIMS;
      if !aborted { policies := Shrink(limited, polMax); }
    }

    method UpdateNotifyLimit()
      modifies this`policies
      ensures policies == FullLimits(old(policies), staticMaxMemory)
    {
      var n := |policies|;
      for i := 0 to n
        invariant |policies| == n
        invariant forall j :: 0 <= j < n ==>
                    policies[j] == if j < i then old(policies)[j].(limit := staticMaxMemory) else old(policies)[j]
      {
        policies := policies[i := policies[i].(limit := staticMaxMemory)];
      }
    }

    method RegisterPolicy(p: Policy) returns (aborted: bool)
      requires AllNoDup(policies) && NoDup(p.list)
      modifies this`policies
      ensures aborted == Step(old(policies), staticMaxMemory, Register(p)).Aborted?
      ensures !aborted ==> policies == Step(old(policies), staticMaxMemory, Register(p)).value
    {
      policies := policies + [p];
      UpdateNotifyLimit();
      aborted := Update();
    }

    method UnregisterPolicy(i: nat) returns (aborted: bool)
      requires AllNoDup(policies) && i < |policies|
      modifies this`policies
      ensures aborted == Step(old(policies), staticMaxMemory, Unregister(i)).Aborted?
      ensures !aborted ==> policies == Step(old(policies), staticMaxMemory, Unregister(i)).value
    {
      policies := policies[..i] + policies[i + 1..];
      UpdateNotifyLimit();
      aborted := Update();
    }

    /** Any operation of the object is the corresponding step; the quota holds after it. */
    method Perform(op: Op) returns (aborted: bool)
      requires Within(policies, staticMaxMemory) && Allowed(policies, op)
      modifies this`policies
      ensures aborted == Step(old(policies), staticMaxMemory, op).Aborted?
      ensures !aborted ==> policies == Step(old(policies), staticMaxMemory, op).value
      ensures !aborted ==> Within(policies, staticMaxMemory)
    {
      StepWithin(policies, staticMaxMemory, op);
      match op
      case Register(p) => aborted := RegisterPolicy(p);
      case Unregister(i) => aborted := UnregisterPolicy(i);
      case Touch(i, s) => aborted := NotifyTouch(i, s);
      case Forget(i, gone) =>
        policies := policies[i := policies[i].(list := RemoveAll(policies[i].list, gone))];
        aborted := false;
    }

    method NotifyTouch(i: nat, s: Seg) returns (aborted: bool)
      requires AllNoDup(policies) && i < |policies|
      modifies this`policies
      ensures aborted == Step(old(policies), staticMaxMemory, Touch(i, s)).Aborted?
      ensures !aborted ==> policies == Step(old(policies), staticMaxMemory, Touch(i, s)).value
    {
      TouchNoLarger(policies, i, s);
      var isFirstAccess, memOrig := s !in policies[i].list, Memory(policies[i]);
      if |TouchVictims(policies, i, s)| >= MAX_VICTIMS { return true; }
      policies := TouchMember(policies, i, s);
      aborted := false;
      if isFirstAccess && Memory(policies[i]) > memOrig { aborted := Update(); }
    }
  }
}
