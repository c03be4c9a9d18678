/**
 What the operations hold. The lock order says that nobody waits for ever; this says that
 the mutexes protect what they are for: a flush holds the mutexes of all its segments at
 once, a victim's policies are notified under its segment mutex, and every round of a
 balancing runs under the quota mutex.
 */
module LockHolds {
  import opened LockOrder

  /** Somewhere in the program lock l is taken while at least `under` is held. */
  ghost predicate TakenUnder(held: Held, prog: seq<Event>, l: Lock, under: Held) {
    exists j :: 0 <= j < |prog| && prog[j] == Take(l) && under <= Final(held, prog[..j])
  }

  lemma {:induction false} InFirst(held: Held, a: seq<Event>, b: seq<Event>, l: Lock, under: Held)
    requires TakenUnder(held, a, l, under)
    ensures TakenUnder(held, a + b, l, under)
  {
    var j :| 0 <= j < |a| && a[j] == Take(l) && under <= Final(held, a[..j]);
    assert (a + b)[j] == Take(l) && (a + b)[..j] == a[..j];
  }

  lemma {:induction false} InSecond(held: Held, a: seq<Event>, b: seq<Event>, l: Lock, under: Held)
    requires TakenUnder(Final(held, a), b, l, under)
    ensures TakenUnder(held, a + b, l, under)
  {
    var j :| 0 <= j < |b| && b[j] == Take(l) && under <= Final(Final(held, a), b[..j]);
    var k := |a| + j;
    assert (a + b)[k] == Take(l) && (a + b)[..k] == a + b[..j];
    Concat(held, a, b[..j]);
  }

  lemma {:induction false} AfterNeat(held: Held, a: seq<Event>, b: seq<Event>, l: Lock, under: Held)
    requires Neat(held, a) && TakenUnder(held, b, l, under)
    ensures TakenUnder(held, a + b, l, under)
  {
    InSecond(held, a, b, l, under);
  }

  /** The lock a section starts with. */
  lemma {:induction false} Head(held: Held, l: Lock, rest: seq<Event>)
    ensures TakenUnder(held, [Take(l)] + rest, l, held)
  {
    var prog := [Take(l)] + rest;
    assert prog[0] == Take(l) && prog[..0] == [];
  }

  lemma {:induction false} Inside(held: Held, outer: Lock, body: seq<Event>, l: Lock, under: Held)
    requires TakenUnder(held + multiset{outer}, body, l, under)
    ensures TakenUnder(held, [Take(outer)] + body + [Give(outer)], l, under)
  {
    One(held, Take(outer));
    InSecond(held, [Take(outer)], body, l, under);
    InFirst(held, [Take(outer)] + body, [Give(outer)], l, under);
  }

  // ---- policies, evictions, rounds ------------------------------------------------------

  lemma {:induction false} SectionTakes(held: Held, p: nat, n: nat)
    ensures TakenUnder(held, PolicySection(p, n), PolicyMutex(p), held)
  {
    Head(held, PolicyMutex(p), Nested(p, n) + [Give(PolicyMutex(p))]);
    assert PolicySection(p, n) == [Take(PolicyMutex(p))] + (Nested(p, n) + [Give(PolicyMutex(p))]);
  }

  lemma {:induction false} NotifyTakes(held: Held, ps: seq<nat>, i: nat)
    requires NoPolicy(held) && i < |ps|
    ensures TakenUnder(held, Notify(ps), PolicyMutex(ps[i]), held)
  {
    var first, rest := PolicySection(ps[0], 1), Notify(ps[1..]);
    assert Notify(ps) == first + rest;
    if i == 0 {
      assert TakenUnder(held, first, PolicyMutex(ps[0]), held) by { SectionTakes(held, ps[0], 1); }
      InFirst(held, first, rest, PolicyMutex(ps[0]), held);
    } else {
      assert ps[i] == ps[1..][i - 1];
      assert TakenUnder(held, rest, PolicyMutex(ps[i]), held) by { NotifyTakes(held, ps[1..], i - 1); }
      assert Neat(held, first) by { SectionNeat(held, ps[0], 1); }
      AfterNeat(held, first, rest, PolicyMutex(ps[i]), held);
    }
  }

  function MutexOf(v: Victim): Lock { SegmentMutex(v.m, v.i) }

  /** What evicting the victims has to lock: each victim's segment, and under it each policy
      that is notified. */
  ghost predicate VictimsLock(vs: seq<Victim>, l: Lock, under: Held) {
    exists v :: v in vs && VictimLocks(v, l, under)
  }

  predicate VictimLocks(v: Victim, l: Lock, under: Held) {
    || (l == MutexOf(v) && under == multiset{})
    || (l.PolicyMutex? && l.p in v.notified && under == multiset{MutexOf(v)})
  }

  lemma {:induction false} EvictTakes(held: Held, v: Victim, l: Lock, under: Held)
    requires QuotaOnly(held) && VictimLocks(v, l, under)
    ensures TakenUnder(held, EvictEvents(v), l, held + under)
  {
    if l == MutexOf(v) {
      Head(held, l, Notify(v.notified) + [Give(l)]);
      assert EvictEvents(v) == [Take(l)] + (Notify(v.notified) + [Give(l)]);
      assert held + under == held;
    } else {
      var i :| 0 <= i < |v.notified| && v.notified[i] == l.p;
      NotifyTakes(held + multiset{MutexOf(v)}, v.notified, i);
      Inside(held, MutexOf(v), Notify(v.notified), l, held + under);
    }
  }

  lemma {:induction false} EvictNeat(held: Held, v: Victim)
    requires QuotaOnly(held)
    ensures Neat(held, EvictEvents(v))
  {
    NotifyNeat(held + multiset{MutexOf(v)}, v.notified);
    NeatWrap(held, MutexOf(v), Notify(v.notified));
  }

  lemma {:induction false} EvictAllTakes(held: Held, vs: seq<Victim>, l: Lock, under: Held)
    requires QuotaOnly(held) && VictimsLock(vs, l, under)
    ensures TakenUnder(held, EvictAll(vs), l, held + under)
  {
    var first, rest := EvictEvents(vs[0]), EvictAll(vs[1..]);
    if VictimLocks(vs[0], l, under) {
      EvictTakes(held, vs[0], l, under);
      InFirst(held, first, rest, l, held + under);
    } else {
      var v :| v in vs && VictimLocks(v, l, under);
      assert v in vs[1..];
      EvictAllTakes(held, vs[1..], l, under);
      EvictNeat(held, vs[0]);
      AfterNeat(held, first, rest, l, held + under);
    }
  }

  /** shrinkMemory and notifyTouch: the policy, then its victims. */
  ghost predicate ShrinkLocks(s: Shrunk, l: Lock, under: Held) {
    (l == PolicyMutex(s.p) && under == multiset{}) || VictimsLock(s.victims, l, under)
  }

  lemma {:induction false} ShrinkTakes(held: Held, s: Shrunk, l: Lock, under: Held)
    requires QuotaOnly(held) && ShrinkLocks(s, l, under)
    ensures TakenUnder(held, ShrinkEvents(s), l, held + under)
  {
    if VictimsLock(s.victims, l, under) {
      EvictAllTakes(held, s.victims, l, under);
      SectionNeat(held, s.p, s.nested);
      AfterNeat(held, PolicySection(s.p, s.nested), EvictAll(s.victims), l, held + under);
    } else {
      assert held + under == held;
      SectionTakes(held, s.p, s.nested);
      InFirst(held, PolicySection(s.p, s.nested), EvictAll(s.victims), l, held);
    }
  }

  lemma {:induction false} RoundsTakes(held: Held, rs: seq<Shrunk>, i: nat, l: Lock, under: Held)
    requires QuotaOnly(held) && i < |rs| && ShrinkLocks(rs[i], l, under)
    ensures TakenUnder(held, Rounds(rs), l, held + under)
  {
    var first, rest := ShrinkEvents(rs[0]), Rounds(rs[1..]);
    if i == 0 {
      ShrinkTakes(held, rs[0], l, under);
      InFirst(held, first, rest, l, held + under);
    } else {
      RoundsTakes(held, rs[1..], i - 1, l, under);
      ShrinkNeat(held, rs[0]);
      AfterNeat(held, first, rest, l, held + under);
    }
  }

  /** update: the quota mutex, and under it all that every round locks. */
  ghost predicate UpdateLocks(b: Balance, l: Lock, under: Held) {
    || (l == QuotaMutex(b.q) && under == multiset{})
    || exists i, inner :: 0 <= i < |b.rounds| && RoundLocks(b, i, inner, l, under)
  }

  ghost predicate RoundLocks(b: Balance, i: nat, inner: Held, l: Lock, under: Held)
    requires i < |b.rounds|
  {
    ShrinkLocks(b.rounds[i], l, inner) && under == multiset{QuotaMutex(b.q)} + inner
  }

  lemma {:induction false} UpdateTakes(b: Balance, l: Lock, under: Held)
    requires UpdateLocks(b, l, under)
    ensures TakenUnder(multiset{}, UpdateEvents(b), l, under)
  {
    var q := QuotaMutex(b.q);
    if l == q && under == multiset{} {
      Head(multiset{}, q, Rounds(b.rounds) + [Give(q)]);
      assert UpdateEvents(b) == [Take(q)] + (Rounds(b.rounds) + [Give(q)]);
    } else {
      var i, inner :| 0 <= i < |b.rounds| && RoundLocks(b, i, inner, l, under);
      var held := multiset{} + multiset{q};
      RoundsTakes(held, b.rounds, i, l, inner);
      assert held + inner == under;
      Inside(multiset{}, q, Rounds(b.rounds), l, under);
    }
  }

  lemma {:induction false} UpdatesTakes(bs: seq<Balance>, i: nat, l: Lock, under: Held)
    requires i < |bs| && UpdateLocks(bs[i], l, under)
    ensures TakenUnder(multiset{}, Updates(bs), l, under)
  {
    var first, rest := UpdateEvents(bs[0]), Updates(bs[1..]);
    if i == 0 {
      UpdateTakes(bs[0], l, under);
      InFirst(multiset{}, first, rest, l, under);
    } else {
      UpdatesTakes(bs[1..], i - 1, l, under);
      UpdateNeat(bs[0]);
      AfterNeat(multiset{}, first, rest, l, under);
    }
  }

  /** notifyTouch of one policy, and the update that follows it. */
  ghost predicate TouchLocks(t: Touched, l: Lock, under: Held) {
    ShrinkLocks(t.shrunk, l, under) || exists i :: 0 <= i < |t.quota| && UpdateLocks(t.quota[i], l, under)
  }

  function TouchEvents(t: Touched): seq<Event> { ShrinkEvents(t.shrunk) + Updates(t.quota) }

  lemma {:induction false} TouchTakes(t: Touched, l: Lock, under: Held)
    requires TouchLocks(t, l, under)
    ensures TakenUnder(multiset{}, TouchEvents(t), l, under)
  {
    if ShrinkLocks(t.shrunk, l, under) {
      ShrinkTakes(multiset{}, t.shrunk, l, under);
      assert multiset{} + under == under;
      InFirst(multiset{}, ShrinkEvents(t.shrunk), Updates(t.quota), l, under);
    } else {
      var i :| 0 <= i < |t.quota| && UpdateLocks(t.quota[i], l, under);
      UpdatesTakes(t.quota, i, l, under);
      ShrinkNeat(multiset{}, t.shrunk);
      AfterNeat(multiset{}, ShrinkEvents(t.shrunk), Updates(t.quota), l, under);
    }
  }

  lemma {:induction false} TouchNeat(t: Touched)
    ensures Neat(multiset{}, TouchEvents(t))
  {
    ShrinkNeat(multiset{}, t.shrunk);
    UpdatesNeat(t.quota);
    NeatConcat(multiset{}, ShrinkEvents(t.shrunk), Updates(t.quota));
  }

  lemma {:induction false} TouchAllTakes(ts: seq<Touched>, i: nat, l: Lock, under: Held)
    requires i < |ts| && TouchLocks(ts[i], l, under)
    ensures TakenUnder(multiset{}, TouchAll(ts), l, under)
  {
    var first, rest := TouchEvents(ts[0]), TouchAll(ts[1..]);
    assert TouchAll(ts) == first + rest;
    if i == 0 {
      TouchTakes(ts[0], l, under);
      InFirst(multiset{}, first, rest, l, under);
    } else {
      TouchAllTakes(ts[1..], i - 1, l, under);
      TouchNeat(ts[0]);
      AfterNeat(multiset{}, first, rest, l, under);
    }
  }

  // ---- whole operations ------------------------------------------------------------------

  /** What an operation has to lock, and what it has to hold meanwhile. */
  ghost predicate MustLock(op: Operation, l: Lock, under: Held) {
    match op
    case Fault(m, i, touched) =>
      || (l == SegmentMutex(m, i) && under == multiset{})
      || exists j :: 0 <= j < |touched| && TouchLocks(touched[j], l, under)
    case Flush(m, mask) => exists i :: 0 <= i < |mask| && mask[i] && l == SegmentMutex(m, i) && under == multiset{}
    case Sweep(m, count) => l.SegmentMutex? && l.m == m && l.i < count && under == multiset{}
    case RegisterOnQuota(q, update) => (l == QuotaMutex(q) && under == multiset{}) || UpdateLocks(update, l, under)
    case OnPolicy(p, _) => l == PolicyMutex(p) && under == multiset{}
  }

  lemma {:induction false} MaskTakes(m: nat, mask: seq<bool>, n: nat, i: nat)
    requires i < n <= |mask| && mask[i]
    ensures TakenUnder(multiset{}, TakeMask(m, mask, n), SegmentMutex(m, i), multiset{})
  {
    var l := SegmentMutex(m, i);
    var before := TakeMask(m, mask, n - 1);
    if i == n - 1 {
      Head(Final(multiset{}, before), l, []);
      assert [Take(l)] + [] == [Take(l)];
      WeakerUnder(Final(multiset{}, before), [Take(l)], l);
      InSecond(multiset{}, before, [Take(l)], l, multiset{});
    } else {
      MaskTakes(m, mask, n - 1, i);
      InFirst(multiset{}, before, if mask[n - 1] then [Take(SegmentMutex(m, n - 1))] else [], l, multiset{});
    }
  }

  lemma {:induction false} WeakerUnder(held: Held, prog: seq<Event>, l: Lock)
    requires TakenUnder(held, prog, l, held)
    ensures TakenUnder(held, prog, l, multiset{})
  {
    var j :| 0 <= j < |prog| && prog[j] == Take(l) && held <= Final(held, prog[..j]);
    assert multiset{} <= Final(held, prog[..j]);
  }

  lemma {:induction false} FaultTakes(m: nat, i: nat, touched: seq<Touched>, l: Lock, under: Held)
    requires MustLock(Fault(m, i, touched), l, under)
    ensures TakenUnder(multiset{}, Program(Fault(m, i, touched)), l, under)
  {
    var s := SegmentMutex(m, i);
    var first, rest := [Take(s), Give(s)], TouchAll(touched);
    if l == s && under == multiset{} {
      Head(multiset{}, s, [Give(s)]);
      assert first == [Take(s)] + [Give(s)];
      InFirst(multiset{}, first, rest, l, under);
    } else {
      var j :| 0 <= j < |touched| && TouchLocks(touched[j], l, under);
      TouchAllTakes(touched, j, l, under);
      PairNeat(multiset{}, s);
      AfterNeat(multiset{}, first, rest, l, under);
    }
  }

  lemma {:induction false} RegisterTakes(q: nat, update: Balance, l: Lock, under: Held)
    requires MustLock(RegisterOnQuota(q, update), l, under)
    ensures TakenUnder(multiset{}, Program(RegisterOnQuota(q, update)), l, under)
  {
    var s := QuotaMutex(q);
    var first, rest := [Take(s), Give(s)], UpdateEvents(update);
    if l == s && under == multiset{} {
      Head(multiset{}, s, [Give(s)]);
      assert first == [Take(s)] + [Give(s)];
      InFirst(multiset{}, first, rest, l, under);
    } else {
      UpdateTakes(update, l, under);
      PairNeat(multiset{}, s);
      AfterNeat(multiset{}, first, rest, l, under);
    }
  }

  /** Every operation takes every mutex it has to, under everything it has to hold: the
      segment of a fault, the segment of each victim, the notified policies under the victim's
      segment, and all of that in a balancing under the quota. */
  lemma {:induction false} OperationLocks(op: Operation, l: Lock, under: Held)
    requires MustLock(op, l, under)
    ensures TakenUnder(multiset{}, Program(op), l, under)
  {
    match op
    case Fault(m, i, touched) => FaultTakes(m, i, touched, l, under);
    case Flush(m, mask) =>
      var i :| 0 <= i < |mask| && mask[i] && l == SegmentMutex(m, i);
      MaskTakes(m, mask, |mask|, i);
      InFirst(multiset{}, TakeMask(m, mask, |mask|), GiveMask(m, mask, |mask|), l, multiset{});
    case Sweep(m, count) =>
      var all := AllMutexes(count);
      MaskTakes(m, all, count, l.i);
      InFirst(multiset{}, TakeMask(m, all, count), GiveMask(m, all, count), l, multiset{});
    case RegisterOnQuota(q, update) => RegisterTakes(q, update, l, under);
    case OnPolicy(p, nested) => SectionTakes(multiset{}, p, nested);
  }

  // ---- a flush holds its whole range at once -----------------------------------------------

  lemma {:induction false} SelectedHas(m: nat, mask: seq<bool>, n: nat, i: nat)
    requires i < n <= |mask| && mask[i]
    ensures SegmentMutex(m, i) in Selected(m, mask, n)
  {
    if i < n - 1 { SelectedHas(m, mask, n - 1, i); }
  }

  /** At some point the operation holds exactly the mutexes of the mapping that are wanted. */
  ghost predicate HoldsTogether(op: Operation, m: nat, wanted: seq<bool>) {
    exists j :: 0 <= j <= |Program(op)| && HoldsAt(op, m, wanted, j)
  }

  ghost predicate HoldsAt(op: Operation, m: nat, wanted: seq<bool>, j: nat)
    requires j <= |Program(op)|
  {
    var held := Final(multiset{}, Program(op)[..j]);
    && (forall i: nat :: i < |wanted| ==> (SegmentMutex(m, i) in held <==> wanted[i]))
    && forall h :: h in held ==> h.SegmentMutex? && h.m == m && h.i < |wanted|
  }

  lemma {:induction false} MaskHolds(op: Operation, m: nat, mask: seq<bool>)
    requires Program(op) == TakeMask(m, mask, |mask|) + GiveMask(m, mask, |mask|)
    ensures HoldsTogether(op, m, mask)
  {
    var take := TakeMask(m, mask, |mask|);
    TakeMaskOrderly(m, mask, |mask|);
    assert Program(op)[..|take|] == take;
    forall i: nat | i < |mask| && mask[i] ensures SegmentMutex(m, i) in Selected(m, mask, |mask|) {
      SelectedHas(m, mask, |mask|, i);
    }
    assert HoldsAt(op, m, mask, |take|);
  }

  lemma {:induction false} FlushHolds(m: nat, mask: seq<bool>)
    ensures HoldsTogether(Flush(m, mask), m, mask)
  {
    MaskHolds(Flush(m, mask), m, mask);
  }

  /** dropClean and markCleanAsDirty hold every mutex of the mapping. */
  lemma {:induction false} SweepHolds(m: nat, count: nat)
    ensures HoldsTogether(Sweep(m, count), m, AllMutexes(count))
  {
    MaskHolds(Sweep(m, count), m, AllMutexes(count));
  }

  /** The mask getMutexRange computes for a range of segments. */
  ghost predicate MaskFor(mask: seq<bool>, baseId: nat, count: nat, mutexes: nat) {
    && 0 < mutexes && |mask| == mutexes
    && forall i :: 0 <= i < mutexes ==>
         (mask[i] <==> exists id :: baseId <= id < baseId + count && Uses(id, mutexes, i))
  }

  /** A flush of any range holds, all at once, the mutex of every segment of the range and no
      mutex that no segment of the range uses. */
  lemma {:induction false} FlushHoldsRange(m: nat, mask: seq<bool>, baseId: nat, count: nat, mutexes: nat)
    requires MaskFor(mask, baseId, count, mutexes)
    ensures exists j :: 0 <= j <= |Program(Flush(m, mask))| && HoldsRange(m, mask, baseId, count, mutexes, j)
  {
    FlushHolds(m, mask);
    var j :| 0 <= j <= |Program(Flush(m, mask))| && HoldsAt(Flush(m, mask), m, mask, j);
    forall id: nat | baseId <= id < baseId + count
      ensures SegmentMutex(m, id % mutexes) in Final(multiset{}, Program(Flush(m, mask))[..j])
    {
      assert Uses(id, mutexes, id % mutexes);
    }
    assert HoldsRange(m, mask, baseId, count, mutexes, j);
  }

  ghost predicate HoldsRange(m: nat, mask: seq<bool>, baseId: nat, count: nat, mutexes: nat, j: nat)
    requires 0 < mutexes && j <= |Program(Flush(m, mask))|
  {
    var held := Final(multiset{}, Program(Flush(m, mask))[..j]);
    && (forall id: nat :: baseId <= id < baseId + count ==> SegmentMutex(m, id % mutexes) in held)
    && (forall h :: h in held ==> h.SegmentMutex? && h.m == m && UsedIn(baseId, count, mutexes, h.i))
  }

  ghost predicate UsedIn(baseId: nat, count: nat, mutexes: nat, i: nat)
    requires 0 < mutexes
  {
    exists id :: baseId <= id < baseId + count && Uses(id, mutexes, i)
  }

  // ---- threads run their operations ----------------------------------------------------------

  function Gos(t: Tid, n: nat): seq<Step> { if n == 0 then [] else [Go(t)] + Gos(t, n - 1) }

  /** The system with this one thread, after n of its events. */
  ghost function Alone(t: Tid, prog: seq<Event>, n: nat): System
    requires n <= |prog|
  {
    map[t := Thread(prog, n, Final(multiset{}, prog[..n]))]
  }

  lemma {:induction false} OneGo(t: Tid, prog: seq<Event>, k: nat)
    requires k < |prog|
    ensures Enabled(Alone(t, prog, k), Go(t)) && Next(Alone(t, prog, k), Go(t)) == Alone(t, prog, k + 1)
  {
    assert prog[..k + 1][..k] == prog[..k];
  }

  lemma {:induction false} LoneGoes(t: Tid, prog: seq<Event>, k: nat, n: nat)
    requires k <= n <= |prog|
    ensures CanRun(Alone(t, prog, k), Gos(t, n - k))
    ensures Run(Alone(t, prog, k), Gos(t, n - k)) == Alone(t, prog, n)
    decreases n - k
  {
    if k < n {
      OneGo(t, prog, k);
      LoneGoes(t, prog, k + 1, n);
      RunAfter(Alone(t, prog, k), Go(t), Gos(t, n - k - 1), Alone(t, prog, n));
    }
  }

  lemma {:induction false} BeginAlone(t: Tid, op: Operation)
    ensures Enabled(map[], Begin(t, op)) && Next(map[], Begin(t, op)) == Alone(t, Program(op), 0)
  {
    assert Program(op)[..0] == [];
  }

  lemma {:induction false} RunAfter(s: System, step: Step, rest: seq<Step>, r: System)
    requires Enabled(s, step) && CanRun(Next(s, step), rest) && Run(Next(s, step), rest) == r
    ensures CanRun(s, [step] + rest) && Run(s, [step] + rest) == r
  {
    assert ([step] + rest)[1..] == rest;
  }

  /** A thread alone runs its whole operation, event by event. */
  lemma {:induction false} LoneThread(t: Tid, op: Operation, n: nat)
    requires n <= |Program(op)|
    ensures CanRun(map[], [Begin(t, op)] + Gos(t, n))
    ensures var s := Run(map[], [Begin(t, op)] + Gos(t, n));
      t in s && s[t].held == Final(multiset{}, Program(op)[..n]) && (Busy(s, t) <==> n < |Program(op)|)
  {
    BeginAlone(t, op);
    LoneGoes(t, Program(op), 0, n);
    RunAfter(map[], Begin(t, op), Gos(t, n), Alone(t, Program(op), n));
  }
}
