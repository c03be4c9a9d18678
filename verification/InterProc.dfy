/**
 The quota shared by several processes: a table of process ids in shared memory, joined
 and left under a spinlock, swept of dead processes by signalAll. Processes may crash at
 any time; process ids are not reused. Each member allows itself the total divided by the
 number of processes it last read.
 */
module InterProc {
  import opened Arithmetic
  import opened Quota

  /** Slot 0-values are free. `members` have joined and not left, dead ones included;
      `updated` are those that recomputed their quota since the last join, `current` those
      that did since the counter last changed by a join, leave or sweep; `reused` counts
      the joins that took over the slot of a dead process. */
  datatype World = World(processes: int, pids: seq<nat>, live: set<nat>, members: set<nat>,
                         reused: nat, updated: set<nat>, current: set<nat>, quota: map<nat, nat>)

  datatype Step =
    | Start(p: nat)       // an unrelated process appears
    | Crash(p: nat)
    | Join(p: nat)
    | Leave(p: nat)
    | SignalAll
    | Update(p: nat)

  /** kill(pid, 0) succeeds. */
  predicate Alive(live: set<nat>, pid: nat) { pid in live }

  // ---- the table ------------------------------------------------------------------

  /** The first slot that is free or belongs to a dead process, from i on. */
  function SlotFrom(pids: seq<nat>, live: set<nat>, i: nat): (k: nat)
    requires i <= |pids|
    ensures i <= k <= |pids|
    ensures k < |pids| ==> pids[k] == 0 || !Alive(live, pids[k])
    decreases |pids| - i
  {
    if i == |pids| || pids[i] == 0 || !Alive(live, pids[i]) then i else SlotFrom(pids, live, i + 1)
  }

  /** It is the first one. */
  lemma {:induction false} SlotFirst(pids: seq<nat>, live: set<nat>, i: nat, j: nat)
    requires i <= |pids| && i <= j < SlotFrom(pids, live, i)
    ensures pids[j] != 0 && pids[j] in live
    decreases |pids| - i
  {
    if i < j { SlotFirst(pids, live, i + 1, j); }
  }

  /** A join puts the process in the first slot that is free or dead, or in a new one when all
      are taken by live processes; no other slot changes. */
  lemma {:induction false} JoinedExactly(pids: seq<nat>, live: set<nat>, p: nat)
    ensures exists k :: 0 <= k <= |pids| && JoinedAt(pids, live, p, k)
  {
    var k := SlotFrom(pids, live, 0);
    forall j | 0 <= j < k ensures pids[j] != 0 && pids[j] in live { SlotFirst(pids, live, 0, j); }
    assert JoinedAt(pids, live, p, k);
  }

  predicate JoinedAt(pids: seq<nat>, live: set<nat>, p: nat, k: nat)
    requires k <= |pids|
  {
    && (forall j :: 0 <= j < k ==> pids[j] != 0 && pids[j] in live)
    && (if k < |pids| then (pids[k] == 0 || pids[k] !in live) && Joined(pids, live, p) == pids[k := p]
        else Joined(pids, live, p) == pids + [p])
  }

  function Joined(pids: seq<nat>, live: set<nat>, p: nat): (r: seq<nat>)
    ensures |pids| <= |r|
  {
    var k := SlotFrom(pids, live, 0);
    if k < |pids| then pids[k := p] else pids + [p]
  }

  /** The first slot holding p, from i on. */
  function Find(pids: seq<nat>, p: nat, i: nat): (k: nat)
    requires i <= |pids|
    ensures i <= k <= |pids| && (k < |pids| ==> pids[k] == p)
    ensures forall j :: i <= j < k ==> pids[j] != p
    decreases |pids| - i
  {
    if i == |pids| || pids[i] == p then i else Find(pids, p, i + 1)
  }

  function Left(pids: seq<nat>, p: nat): (r: seq<nat>)
    ensures |r| == |pids|
  {
    var k := Find(pids, p, 0);
    if k < |pids| then pids[k := 0] else pids
  }

  function Swept(pids: seq<nat>, live: set<nat>): (r: seq<nat>)
    ensures |r| == |pids|
    ensures forall i :: 0 <= i < |pids| ==> r[i] == if Alive(live, pids[i]) then pids[i] else 0
  {
    seq(|pids|, i requires 0 <= i < |pids| => if Alive(live, pids[i]) then pids[i] else 0)
  }

  function Occupied(pids: seq<nat>): nat {
    if pids == [] then 0 else Occupied(pids[..|pids| - 1]) + if pids[|pids| - 1] != 0 then 1 else 0
  }

  /** Slots the sweep frees; each one also lowers the process counter. */
  function Dead(pids: seq<nat>, live: set<nat>): nat {
    if pids == [] then 0
    else Dead(pids[..|pids| - 1], live)
         + if pids[|pids| - 1] != 0 && !Alive(live, pids[|pids| - 1]) then 1 else 0
  }

  function One(b: bool): nat { if b then 1 else 0 }

  lemma {:induction false} OccupiedUpdate(pids: seq<nat>, k: nat, v: nat)
    requires k < |pids|
    ensures Occupied(pids[k := v]) == Occupied(pids) - One(pids[k] != 0) + One(v != 0)
  {
    var n := |pids| - 1;
    if k < n {
      OccupiedUpdate(pids[..n], k, v);
      assert pids[k := v][..n] == pids[..n][k := v];
    } else {
      assert pids[k := v][..n] == pids[..n];
    }
  }

  lemma {:induction false} OccupiedAppend(pids: seq<nat>, v: nat)
    ensures Occupied(pids + [v]) == Occupied(pids) + One(v != 0)
  {
    assert (pids + [v])[..|pids|] == pids;
  }

  lemma {:induction false} OccupiedSwept(pids: seq<nat>, live: set<nat>)
    requires 0 !in live
    ensures Occupied(Swept(pids, live)) == Occupied(pids) - Dead(pids, live)
  {
    if pids != [] {
      var n := |pids| - 1;
      OccupiedSwept(pids[..n], live);
      assert Swept(pids, live)[..n] == Swept(pids[..n], live);
    }
  }

  // ---- steps ----------------------------------------------------------------------

  predicate Enabled(w: World, s: Step) {
    match s
    case Start(p) => p != 0 && p !in w.live && p !in w.members && p !in w.pids
    case Crash(p) => p in w.live
    case Join(p) => p in w.live && p !in w.members
    case Leave(p) => p in w.live && p in w.members
    case SignalAll => true
    case Update(p) => p in w.live && p in w.members && w.processes > 0
  }

  function Next(w: World, total: nat, s: Step): World
    requires Enabled(w, s)
  {
    match s
    case Start(p) => w.(live := w.live + {p})
    case Crash(p) => w.(live := w.live - {p})
    case Join(p) =>
      var k := SlotFrom(w.pids, w.live, 0);
      w.(processes := w.processes + 1, pids := Joined(w.pids, w.live, p), members := w.members + {p},
         reused := w.reused + One(k < |w.pids| && w.pids[k] != 0), updated := {}, current := {})
    case Leave(p) =>
      w.(processes := w.processes - 1, pids := Left(w.pids, p), members := w.members - {p}, current := {})
    case SignalAll =>
      w.(processes := w.processes - Dead(w.pids, w.live), pids := Swept(w.pids, w.live), current := {})
    case Update(p) =>
      w.(quota := w.quota[p := total / w.processes], updated := w.updated + {p}, current := w.current + {p})
  }

  const EMPTY := World(0, [], {}, {}, 0, {}, {}, map[])

  /** Live members. */
  function Active(w: World): set<nat> { w.members * w.live }

  predicate Owns(pids: seq<nat>, p: nat, i: nat) { i < |pids| && pids[i] == p }

  /** q is the share of one of n processes, rounded down. */
  predicate IsShare(q: nat, n: int, total: nat) { q * n <= total < (q + 1) * n }

  ghost predicate Inv(w: World, total: nat) {
    && 0 !in w.live
    && (forall i :: 0 <= i < |w.pids| && w.pids[i] != 0 ==> w.pids[i] in w.members)
    && Once(w.pids)
    && (forall p :: p in Active(w) ==> p in w.pids)
    && w.processes == Occupied(w.pids) + w.reused
    && (forall p :: p in w.updated && p in Active(w) ==>
          p in w.quota && w.quota[p] * |Active(w)| <= total)
    && (forall p :: p in w.current && p in Active(w) ==> p in w.quota && IsShare(w.quota[p], w.processes, total))
  }

  // ---- every step keeps the invariant -------------------------------------------------

  /** The process ids in the table. */
  function InTable(pids: seq<nat>): (r: set<nat>)
    ensures forall p :: p in r <==> p != 0 && p in pids
  {
    if pids == [] then {}
    else
      var n := |pids| - 1;
      assert pids == pids[..n] + [pids[n]];
      InTable(pids[..n]) + if pids[n] != 0 then {pids[n]} else {}
  }

  predicate Once(pids: seq<nat>) {
    forall i, j :: 0 <= i < j < |pids| && pids[i] == pids[j] ==> pids[i] == 0
  }

  lemma {:induction false} OccupiedCounts(pids: seq<nat>)
    ensures |InTable(pids)| <= Occupied(pids)
    ensures Once(pids) ==> |InTable(pids)| == Occupied(pids)
  {
    if pids != [] {
      var n := |pids| - 1;
      OccupiedCounts(pids[..n]);
      if Once(pids) && pids[n] != 0 { assert pids[n] !in pids[..n]; }
    }
  }

  lemma {:induction false} Smaller(a: set<nat>, b: set<nat>)
    requires a <= b
    ensures |a| <= |b|
  {
    assert |b - a| == |b| - |a|;
  }

  /** processes >= occupied slots >= live members; the excess is the number of joins that
      took over a dead slot, which nothing ever takes back. */
  lemma {:induction false} CountersOrdered(w: World, total: nat)
    requires Inv(w, total)
    ensures w.processes == Occupied(w.pids) + w.reused && Occupied(w.pids) >= |Active(w)|
  {
    OccupiedCounts(w.pids);
    Smaller(Active(w), InTable(w.pids));
  }

  /** Nothing takes a reused slot back. */
  lemma {:induction false} ReusedStays(w: World, total: nat, steps: seq<Step>)
    requires CanRun(w, total, steps)
    ensures Run(w, total, steps).reused >= w.reused
    decreases |steps|
  {
    if steps != [] { ReusedStays(Next(w, total, steps[0]), total, steps[1..]); }
  }

  /** A process dies without leaving and the next one takes its slot: two are counted for
      good where one is alive. */
  lemma {:induction false} ReusedReached(total: nat)
    ensures var steps := [Start(1), Join(1), Crash(1), Start(2), Join(2)];
      && CanRun(EMPTY, total, steps)
      && var w := Run(EMPTY, total, steps);
         w.processes == 2 && w.reused == 1 && w.pids == [2] && Active(w) == {2}
  {
    var w1 := EMPTY.(live := {1});
    var w2 := w1.(processes := 1, pids := [1], members := {1});
    var w3 := w2.(live := {});
    var w4 := w3.(live := {2});
    var w5 := w4.(processes := 2, pids := [2], members := {1, 2}, reused := 1);
    assert Next(EMPTY, total, Start(1)) == w1;
    assert Joined([], {1}, 1) == [1];
    assert Next(w1, total, Join(1)) == w2;
    assert Next(w2, total, Crash(1)) == w3;
    assert Next(w3, total, Start(2)) == w4;
    assert SlotFrom([1], {2}, 0) == 0 && Joined([1], {2}, 2) == [2];
    assert {1} + {2} == {1, 2};
    assert Next(w4, total, Join(2)) == w5;
    RunFirst(w4, total, Join(2), []);
    RunFirst(w3, total, Start(2), [Join(2)] + []);
    RunFirst(w2, total, Crash(1), [Start(2)] + ([Join(2)] + []));
    RunFirst(w1, total, Join(1), [Crash(1)] + ([Start(2)] + ([Join(2)] + [])));
    RunFirst(EMPTY, total, Start(1), [Join(1)] + ([Crash(1)] + ([Start(2)] + ([Join(2)] + []))));
    assert [Start(1), Join(1), Crash(1), Start(2), Join(2)]
        == [Start(1)] + ([Join(1)] + ([Crash(1)] + ([Start(2)] + ([Join(2)] + []))));
  }

  lemma {:induction false} RunFirst(w: World, total: nat, s: Step, steps: seq<Step>)
    requires Enabled(w, s) && CanRun(Next(w, total, s), total, steps)
    ensures CanRun(w, total, [s] + steps) && Run(w, total, [s] + steps) == Run(Next(w, total, s), total, steps)
  {
    assert ([s] + steps)[1..] == steps;
  }

  /** Fewer live members keep every quota affordable. */
  lemma {:induction false} QuotaSurvives(q: nat, n: nat, m: nat, total: nat)
    requires q * m <= total && n <= m
    ensures q * n <= total
  {
    assert q * (m - n) >= 0;
    assert q * m == q * n + q * (m - n);
  }

  lemma {:induction false} ShareFits(total: nat, processes: int, n: nat)
    requires 0 < processes && n <= processes
    ensures (total / processes) * n <= total
  {
    assert total == processes * (total / processes) + total % processes;
    QuotaSurvives(total / processes, n, processes, total);
  }

  lemma {:induction false} KeepQuotas(w: World, r: World, total: nat)
    requires Inv(w, total) && Active(r) <= Active(w) && r.quota == w.quota && r.updated == w.updated
    ensures forall p :: p in r.updated && p in Active(r) ==> p in r.quota && r.quota[p] * |Active(r)| <= total
  {
    Smaller(Active(r), Active(w));
    forall p | p in r.updated && p in Active(r) ensures r.quota[p] * |Active(r)| <= total {
      QuotaSurvives(r.quota[p], |Active(r)|, |Active(w)|, total);
    }
  }

  /** The table after a join: the newcomer is in it once, and everyone alive still is. */
  lemma {:induction false} JoinedTable(pids: seq<nat>, live: set<nat>, p: nat)
    requires Once(pids) && p !in pids && p != 0 && 0 !in live
    ensures var r := Joined(pids, live, p);
      && Once(r) && p in r && (forall q :: q in pids && q in live ==> q in r)
      && (forall q :: q in r ==> q in pids || q == p)
  {
    var k, r := SlotFrom(pids, live, 0), Joined(pids, live, p);
    assert r[k] == p;
    forall q | q in pids && q in live ensures q in r {
      var i :| 0 <= i < |pids| && pids[i] == q;
      assert r[i] == q;
    }
  }

  lemma {:induction false} JoinKeeps(w: World, total: nat, p: nat)
    requires Inv(w, total) && Enabled(w, Join(p))
    ensures Inv(Next(w, total, Join(p)), total)
  {
    var r, k := Next(w, total, Join(p)), SlotFrom(w.pids, w.live, 0);
    assert p !in w.pids;
    if k < |w.pids| { OccupiedUpdate(w.pids, k, p); } else { OccupiedAppend(w.pids, p); }
    JoinedTable(w.pids, w.live, p);
    forall i | 0 <= i < |r.pids| && r.pids[i] != 0 ensures r.pids[i] in r.members { assert r.pids[i] in r.pids; }
    forall q | q in Active(r) ensures q in r.pids {
      if q != p { assert q in Active(w); }
    }
  }

  /** The destructor always finds its own process id, in exactly one slot. */
  lemma {:induction false} OwnsOneSlot(w: World, total: nat, p: nat)
    requires Inv(w, total) && p in Active(w)
    ensures Find(w.pids, p, 0) < |w.pids|
    ensures forall i :: Owns(w.pids, p, i) <==> i == Find(w.pids, p, 0)
  {
  }

  lemma {:induction false} LeaveKeeps(w: World, total: nat, p: nat)
    requires Inv(w, total) && Enabled(w, Leave(p))
    ensures Inv(Next(w, total, Leave(p)), total)
  {
    var r, k := Next(w, total, Leave(p)), Find(w.pids, p, 0);
    OwnsOneSlot(w, total, p);
    OccupiedUpdate(w.pids, k, 0);
    KeepQuotas(w, r, total);
    forall i | 0 <= i < |r.pids| && r.pids[i] != 0 ensures r.pids[i] in r.members {
      assert !Owns(w.pids, p, i);
    }
    forall q | q in Active(r) ensures q in r.pids {
      var i :| 0 <= i < |w.pids| && w.pids[i] == q;
      assert r.pids[i] == q;
    }
  }

  /** A leave frees exactly its own slot and uncounts that process. */
  lemma {:induction false} LeaveExactly(w: World, total: nat, p: nat)
    requires Inv(w, total) && Enabled(w, Leave(p))
    ensures var r := Next(w, total, Leave(p));
      && |r.pids| == |w.pids|
      && (forall i :: 0 <= i < |w.pids| ==> r.pids[i] == if w.pids[i] == p then 0 else w.pids[i])
      && r.processes == w.processes - 1 && Occupied(r.pids) == Occupied(w.pids) - 1
      && p !in r.members && r.members + {p} == w.members && r.live == w.live && r.quota == w.quota
  {
    var k := Find(w.pids, p, 0);
    OwnsOneSlot(w, total, p);
    OccupiedUpdate(w.pids, k, 0);
    forall i | 0 <= i < |w.pids| ensures w.pids[i] == p <==> i == k { assert Owns(w.pids, p, i) <==> i == k; }
  }

  /** The slots of live processes are as before, and all others are free or as before. */
  predicate Restored(before: seq<nat>, live: set<nat>, after: seq<nat>) {
    && |before| <= |after|
    && forall i :: 0 <= i < |after| ==>
         if i < |before| then after[i] == before[i] || (after[i] == 0 && before[i] !in live) else after[i] == 0
  }

  lemma {:induction false} RejoinedSlots(pids: seq<nat>, live: set<nat>, p: nat, after: seq<nat>)
    requires p !in pids && 0 !in live && |after| == |Joined(pids, live, p)|
    requires forall i :: 0 <= i < |after| ==>
      after[i] == if Joined(pids, live, p)[i] == p then 0 else Joined(pids, live, p)[i]
    ensures Restored(pids, live, after)
  {
  }

  /** Joining and leaving again restores the counter, the members and the slots of all live
      processes; at most a dead process has lost its slot. */
  lemma {:induction false} JoinThenLeave(w: World, total: nat, p: nat)
    requires Inv(w, total) && Enabled(w, Join(p))
    ensures var h := Next(w, total, Join(p)); Enabled(h, Leave(p)) && h.processes == w.processes + 1
    ensures var r := Next(Next(w, total, Join(p)), total, Leave(p));
      && r.processes == w.processes && r.members == w.members && r.live == w.live
      && Restored(w.pids, w.live, r.pids)
  {
    var h := Next(w, total, Join(p));
    assert Inv(h, total) by { JoinKeeps(w, total, p); }
    LeaveExactly(h, total, p);
    assert p !in w.pids;
    RejoinedSlots(w.pids, w.live, p, Next(h, total, Leave(p)).pids);
  }

  lemma {:induction false} SweepKeeps(w: World, total: nat)
    requires Inv(w, total)
    ensures Inv(Next(w, total, SignalAll), total)
  {
    var r := Next(w, total, SignalAll);
    OccupiedSwept(w.pids, w.live);
    KeepQuotas(w, r, total);
    forall q | q in Active(r) ensures q in r.pids {
      var i :| 0 <= i < |w.pids| && w.pids[i] == q;
      assert r.pids[i] == q;
    }
  }

  /** An update gives its process exactly the share by the processes then counted, and leaves
      the quotas of the others. */
  lemma {:induction false} UpdateShare(w: World, total: nat, p: nat)
    requires Enabled(w, Update(p))
    ensures var r := Next(w, total, Update(p));
      && p in r.quota && IsShare(r.quota[p], w.processes, total)
      && (forall q :: q in w.quota && q != p ==> q in r.quota && r.quota[q] == w.quota[q])
  {
    DivideShare(total, w.processes);
  }

  lemma {:induction false} DivideShare(total: nat, n: int)
    requires 0 < n
    ensures IsShare(total / n, n, total)
  {
    var q := total / n;
    assert total == n * q + total % n;
    assert (q + 1) * n == n * q + n;
  }

  lemma {:induction false} ShareUnique(a: nat, b: nat, n: int, total: nat)
    requires 0 < n && IsShare(a, n, total) && IsShare(b, n, total)
    ensures a == b
  {
    ShareAtMost(a, b, n, total);
    ShareAtMost(b, a, n, total);
  }

  lemma {:induction false} ShareAtMost(a: nat, b: nat, n: nat, total: nat)
    requires a * n <= total < (b + 1) * n
    ensures a <= b
  {
    if b + 1 <= a { TimesMono(b + 1, a, n); }
  }

  lemma {:induction false} UpdateKeeps(w: World, total: nat, p: nat)
    requires Inv(w, total) && Enabled(w, Update(p))
    ensures Inv(Next(w, total, Update(p)), total)
  {
    CountersOrdered(w, total);
    ShareFits(total, w.processes, |Active(w)|);
    UpdateShare(w, total, p);
  }

  /** Update never divides by zero: a live member counts itself. */
  lemma {:induction false} MemberCounted(w: World, total: nat, p: nat)
    requires Inv(w, total) && p in Active(w)
    ensures w.processes > 0
  {
    CountersOrdered(w, total);
    Smaller({p}, Active(w));
  }

  lemma {:induction false} StepKeeps(w: World, total: nat, s: Step)
    requires Inv(w, total) && Enabled(w, s)
    ensures Inv(Next(w, total, s), total)
  {
    match s
    case Start(p) => KeepQuotas(w, Next(w, total, s), total);
    case Crash(p) => KeepQuotas(w, Next(w, total, s), total);
    case Join(p) => JoinKeeps(w, total, p);
    case Leave(p) => LeaveKeeps(w, total, p);
    case SignalAll => SweepKeeps(w, total);
    case Update(p) => UpdateKeeps(w, total, p);
  }

  predicate CanRun(w: World, total: nat, steps: seq<Step>)
    decreases |steps|
  {
    steps == [] || (Enabled(w, steps[0]) && CanRun(Next(w, total, steps[0]), total, steps[1..]))
  }

  function Run(w: World, total: nat, steps: seq<Step>): World
    requires CanRun(w, total, steps)
    decreases |steps|
  {
    if steps == [] then w else Run(Next(w, total, steps[0]), total, steps[1..])
  }

  lemma {:induction false} RunKeeps(w: World, total: nat, steps: seq<Step>)
    requires Inv(w, total) && CanRun(w, total, steps)
    ensures Inv(Run(w, total, steps), total)
    decreases |steps|
  {
    if steps != [] {
      StepKeeps(w, total, steps[0]);
      RunKeeps(Next(w, total, steps[0]), total, steps[1..]);
    }
  }

  // ---- the quotas fit together -------------------------------------------------------

  ghost function Sum(who: set<nat>, quota: map<nat, nat>): nat
    requires who <= quota.Keys
    decreases |who|
  {
    if who == {} then 0
    else
      var p :| p in who;
      quota[p] + Sum(who - {p}, quota)
  }

  lemma {:induction false} SumBound(who: set<nat>, quota: map<nat, nat>, n: nat, total: nat)
    requires who <= quota.Keys && forall p :: p in who ==> quota[p] * n <= total
    ensures Sum(who, quota) * n <= |who| * total
    decreases |who|
  {
    if who != {} {
      var p :| p in who && Sum(who, quota) == quota[p] + Sum(who - {p}, quota);
      SumBound(who - {p}, quota, n, total);
      OneMore(quota[p], Sum(who - {p}, quota), n, |who - {p}|, total);
    }
  }

  lemma {:induction false} OneMore(q: nat, rest: nat, n: nat, k: nat, total: nat)
    requires q * n <= total && rest * n <= k * total
    ensures (q + rest) * n <= (k + 1) * total
  {
    assert (q + rest) * n == q * n + rest * n;
    assert (k + 1) * total == k * total + total;
  }

  lemma {:induction false} Cancel(n: nat, a: nat, b: nat)
    requires 0 < n && a * n <= n * b
    ensures a <= b
  {
    assert (a - b) * n == a * n - n * b;
  }

  /** Over every interleaving of joins, leaves, crashes, sweeps and updates: once every
      live member has recomputed its quota since the last join, the quotas of the live
      members sum to at most the total. */
  lemma {:induction false} QuotasFit(total: nat, steps: seq<Step>)
    requires CanRun(EMPTY, total, steps)
    ensures var w := Run(EMPTY, total, steps);
      Active(w) <= w.updated ==> Active(w) <= w.quota.Keys && Sum(Active(w), w.quota) <= total
  {
    RunKeeps(EMPTY, total, steps);
    var w := Run(EMPTY, total, steps);
    if Active(w) <= w.updated && Active(w) != {} {
      SumBound(Active(w), w.quota, |Active(w)|, total);
      Cancel(|Active(w)|, Sum(Active(w), w.quota), total);
    }
  }

  /** A sweep frees exactly the slots of dead processes, and uncounts them. */
  lemma {:induction false} SweepExactly(w: World, total: nat)
    requires Inv(w, total)
    ensures var r := Next(w, total, SignalAll);
      && |r.pids| == |w.pids| && r.live == w.live && r.members == w.members && r.quota == w.quota
      && (forall i :: 0 <= i < |w.pids| ==> r.pids[i] == if w.pids[i] in w.live then w.pids[i] else 0)
      && w.processes - r.processes == Occupied(w.pids) - Occupied(r.pids)
  {
    OccupiedSwept(w.pids, w.live);
  }

  /** Every occupied slot belongs to a live process. */
  predicate AllSlotsLive(w: World) { forall i :: 0 <= i < |w.pids| && w.pids[i] != 0 ==> w.pids[i] in w.live }

  lemma {:induction false} CounterExact(w: World, total: nat)
    requires Inv(w, total) && AllSlotsLive(w)
    ensures w.processes == |Active(w)| + w.reused
  {
    OccupiedCounts(w.pids);
    assert InTable(w.pids) == Active(w);
  }

  lemma {:induction false} MemberShare(w: World, total: nat, p: nat, n: nat)
    requires Inv(w, total) && AllSlotsLive(w) && p in Active(w) && p in w.current && n == |Active(w)| + w.reused
    ensures 0 < n && p in w.quota && w.quota[p] == total / n
  {
    CounterExact(w, total);
    ShareIs(w.quota[p], n, total);
  }

  lemma {:induction false} ShareIs(q: nat, n: nat, total: nat)
    requires IsShare(q, n, total)
    ensures 0 < n && q == total / n
  {
    if n != 0 {
      DivideShare(total, n);
      ShareUnique(q, total / n, n, total);
    }
  }

  /** Over every run: when no slot of a dead process was taken over and none is left, each of
      the n live members that updated since the counter last changed has exactly the n-th part
      of the total, rounded down. */
  lemma {:induction false} ExactShares(total: nat, steps: seq<Step>, p: nat)
    requires CanRun(EMPTY, total, steps)
    requires var w := Run(EMPTY, total, steps); w.reused == 0 && AllSlotsLive(w) && p in Active(w) && p in w.current
    ensures var w := Run(EMPTY, total, steps); p in w.quota && w.quota[p] == total / |Active(w)|
  {
    var w := Run(EMPTY, total, steps);
    RunKeeps(EMPTY, total, steps);
    MemberShare(w, total, p, |Active(w)| + w.reused);
  }

  /** Whatever was taken over, such a member has the part by the members and the reused slots. */
  lemma {:induction false} SharesCountReused(total: nat, steps: seq<Step>, p: nat)
    requires CanRun(EMPTY, total, steps)
    requires var w := Run(EMPTY, total, steps); AllSlotsLive(w) && p in Active(w) && p in w.current
    ensures var w := Run(EMPTY, total, steps); p in w.quota && w.quota[p] == total / (|Active(w)| + w.reused)
  {
    var w := Run(EMPTY, total, steps);
    RunKeeps(EMPTY, total, steps);
    MemberShare(w, total, p, |Active(w)| + w.reused);
  }

  lemma {:induction false} SumPick(who: set<nat>, quota: map<nat, nat>, p: nat)
    requires who <= quota.Keys && p in who
    ensures Sum(who, quota) == quota[p] + Sum(who - {p}, quota)
    decreases |who|
  {
    var q :| q in who && Sum(who, quota) == quota[q] + Sum(who - {q}, quota);
    if q != p {
      SumPick(who - {q}, quota, p);
      SumPick(who - {p}, quota, q);
      assert who - {q} - {p} == who - {p} - {q};
    }
  }

  lemma {:induction false} SumMono(who: set<nat>, used: map<nat, nat>, quota: map<nat, nat>)
    requires who <= used.Keys && who <= quota.Keys && forall p :: p in who ==> used[p] <= quota[p]
    ensures Sum(who, used) <= Sum(who, quota)
    decreases |who|
  {
    if p :| p in who {
      SumPick(who, used, p);
      SumPick(who, quota, p);
      SumMono(who - {p}, used, quota);
    }
  }

  /** What a live process holds after it has balanced its own members to its share. */
  ghost predicate Balanced(quota: nat, used: nat) {
    exists members :: AllNoDup(members) && Updated(members, quota).Done? && Used(Updated(members, quota).value) == used
  }

  /** The promise to the machine: once every live member has updated since the last join, all
      processes together hold at most the total. */
  lemma {:induction false} MemoryFits(total: nat, steps: seq<Step>, used: map<nat, nat>)
    requires CanRun(EMPTY, total, steps)
    requires var w := Run(EMPTY, total, steps);
      Active(w) <= w.updated && Active(w) <= used.Keys && Active(w) <= w.quota.Keys
      && forall p :: p in Active(w) ==> Balanced(w.quota[p], used[p])
    ensures Sum(Active(Run(EMPTY, total, steps)), used) <= total
  {
    var w := Run(EMPTY, total, steps);
    QuotasFit(total, steps);
    forall p | p in Active(w) ensures used[p] <= w.quota[p] {
      var members :| AllNoDup(members) && Updated(members, w.quota[p]).Done?
                     && Used(Updated(members, w.quota[p]).value) == used[p];
      UpdatedFits(members, w.quota[p]);
    }
    SumMono(Active(w), used, w.quota);
  }

  // ---- the shared table in memory ------------------------------------------------------

  /** One megabyte less four counters of four bytes, four bytes per process id. */
  const SHARED_TAB_ENTRIES := (1024 * 1024 - 4 * 4) / 4

  class SharedTable {
    var processes: int
    var indexMax: nat
    const pids: array<nat>

    ghost predicate Valid()
      reads this
    {
      indexMax <= pids.Length == SHARED_TAB_ENTRIES
    }

    ghost function Pids(): seq<nat>
      requires Valid()
      reads this, pids
    {
      pids[..indexMax]
    }

    /** A zeroed shared memory segment. */
    constructor ()
      ensures Valid() && fresh(pids) && processes == 0 && Pids() == []
    {
      processes, indexMax := 0, 0;
      pids := new nat[SHARED_TAB_ENTRIES](_ => 0);
    }

    /** The critical section of the constructor of a quota. The source does not check that
        the table has room for one more entry: its callers must. */
    method Join(self: nat, live: set<nat>)
      requires Valid() && (SlotFrom(Pids(), live, 0) < indexMax || indexMax < SHARED_TAB_ENTRIES)
      modifies this, pids
      ensures Valid() && processes == old(processes) + 1
      ensures Pids() == Joined(old(Pids()), live, self)
    {
      processes := processes + 1;
      var i := 0;
      while i < indexMax
        invariant i <= indexMax && SlotFrom(Pids(), live, i) == SlotFrom(Pids(), live, 0)
      {
        if pids[i] == 0 || !Alive(live, pids[i]) {
          pids[i] := self;
          return;
        }
        i := i + 1;
      }
      pids[indexMax] := self;
      indexMax := indexMax + 1;
    }

    /** The critical section of the destructor. */
    method Leave(self: nat) returns (found: bool)
      requires Valid()
      modifies this, pids
      ensures Valid() && processes == old(processes) - 1
      ensures Pids() == Left(old(Pids()), self)
      ensures found <==> Find(old(Pids()), self, 0) < |old(Pids())|
    {
      processes := processes - 1;
      var i := 0;
      while i < indexMax
        invariant i <= indexMax && Find(Pids(), self, i) == Find(Pids(), self, 0)
      {
        if pids[i] == self {
          pids[i] := 0;
          return true;
        }
        i := i + 1;
      }
      return false;
    }

    /** The quota of this process, by the counter as it stands; the source asserts that it is
        positive. */
    method PerProcessQuota(totalAllowed: nat) returns (quota: nat)
      requires Valid() && processes > 0
      ensures IsShare(quota, processes, totalAllowed)
    {
      DivideShare(totalAllowed, processes);
      quota := totalAllowed / processes;
    }

    /** The sweep of signalAll; `signalled` are the processes it then sends a signal to. */
    method SignalAll(self: nat, live: set<nat>) returns (signalled: set<nat>)
      requires Valid() && 0 !in live
      modifies this, pids
      ensures Valid() && processes == old(processes) - Dead(old(Pids()), live)
      ensures Pids() == Swept(old(Pids()), live)
      ensures forall p :: p in signalled <==> p in Pids() && p != self && p != 0
    {
      ghost var before := Pids();
      var i := 0;
      while i < indexMax
        invariant i <= indexMax == old(indexMax)
        invariant processes == old(processes) - Dead(before[..i], live)
        invariant forall j :: 0 <= j < indexMax ==>
                    pids[j] == if j < i && !Alive(live, before[j]) then 0 else before[j]
      {
        assert before[..i + 1][..i] == before[..i];
        if pids[i] != 0 && !Alive(live, pids[i]) {
          processes := processes - 1;
          pids[i] := 0;
        }
        i := i + 1;
      }
      assert before[..indexMax] == before;
      signalled := {};
      for k := 0 to indexMax
        invariant forall p :: p in signalled <==> p in Pids()[..k] && p != self && p != 0
      {
        if pids[k] != self && pids[k] != 0 { signalled := signalled + {pids[k]}; }
        assert Pids()[..k + 1] == Pids()[..k] + [pids[k]];
      }
      assert Pids()[..indexMax] == Pids();
    }
  }
}
