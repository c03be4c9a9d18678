/**
 Deadlock freedom. Every operation takes its mutexes in one order: the quota mutex, then
 segment mutexes of one mapping by ascending index, then one recursive policy mutex. The
 lock events of every operation are generated from what the operation does; in every
 interleaving of any number of threads some thread can always go on.
 */
module LockOrder {

  datatype Lock = QuotaMutex(q: nat) | SegmentMutex(m: nat, i: nat) | PolicyMutex(p: nat)

  datatype Event = Take(lock: Lock) | Give(lock: Lock)

  /** The lock order. */
  predicate Less(a: Lock, b: Lock) {
    match a
    case QuotaMutex(q) => !b.QuotaMutex? || q < b.q
    case SegmentMutex(m, i) => b.PolicyMutex? || (b.SegmentMutex? && (m < b.m || (m == b.m && i < b.i)))
    case PolicyMutex(p) => b.PolicyMutex? && p < b.p
  }

  lemma {:induction false} LessTotal(a: Lock, b: Lock, c: Lock)
    ensures !Less(a, a)
    ensures a != b ==> Less(a, b) || Less(b, a)
    ensures Less(a, b) && Less(b, c) ==> Less(a, c)
  {
  }

  // ---- what the operations do -----------------------------------------------------

  /** A segment evicted through Mapping::evict, and the policies that are notified. */
  datatype Victim = Victim(m: nat, i: nat, notified: seq<nat>)

  /** shrinkMemory of one policy, with the searches it nests in its critical section. */
  datatype Shrunk = Shrunk(p: nat, nested: nat, victims: seq<Victim>)

  /** notifyTouch: like shrinkMemory, followed by an update of a quota if there is one. */
  datatype Touched = Touched(shrunk: Shrunk, quota: seq<Balance>)

  /** update: the rounds of the balancing loop, under the quota mutex. */
  datatype Balance = Balance(q: nat, rounds: seq<Shrunk>)

  datatype Operation =
    | Fault(m: nat, i: nat, touched: seq<Touched>)   // local policy, then global policy
    | Flush(m: nat, mask: seq<bool>)                 // the mutexes getMutexRange selects
    | Sweep(m: nat, count: nat)                      // dropClean, markCleanAsDirty
    | RegisterOnQuota(q: nat, update: Balance)       // registerPolicy, unregisterPolicy
    | OnPolicy(p: nat, nested: nat)                  // registerMapping, freeElementStorage

  // ---- the lock events they make ----------------------------------------------------

  /** A critical section of a policy: its recursive mutex, taken again `n` times. */
  function PolicySection(p: nat, n: nat): seq<Event> {
    [Take(PolicyMutex(p))] + Nested(p, n) + [Give(PolicyMutex(p))]
  }

  function Nested(p: nat, n: nat): seq<Event> {
    if n == 0 then [] else Nested(p, n - 1) + [Take(PolicyMutex(p)), Give(PolicyMutex(p))]
  }

  function Notify(ps: seq<nat>): seq<Event> {
    if ps == [] then [] else PolicySection(ps[0], 1) + Notify(ps[1..])
  }

  function EvictEvents(v: Victim): seq<Event> {
    [Take(SegmentMutex(v.m, v.i))] + Notify(v.notified) + [Give(SegmentMutex(v.m, v.i))]
  }

  function EvictAll(vs: seq<Victim>): seq<Event> {
    if vs == [] then [] else EvictEvents(vs[0]) + EvictAll(vs[1..])
  }

  /** The evictions run after the policy mutex has been given back. */
  function ShrinkEvents(s: Shrunk): seq<Event> { PolicySection(s.p, s.nested) + EvictAll(s.victims) }

  function Rounds(rs: seq<Shrunk>): seq<Event> {
    if rs == [] then [] else ShrinkEvents(rs[0]) + Rounds(rs[1..])
  }

  function UpdateEvents(b: Balance): seq<Event> {
    [Take(QuotaMutex(b.q))] + Rounds(b.rounds) + [Give(QuotaMutex(b.q))]
  }

  function Updates(bs: seq<Balance>): seq<Event> {
    if bs == [] then [] else UpdateEvents(bs[0]) + Updates(bs[1..])
  }

  function TouchAll(ts: seq<Touched>): seq<Event> {
    if ts == [] then [] else ShrinkEvents(ts[0].shrunk) + Updates(ts[0].quota) + TouchAll(ts[1..])
  }

  function TakeMask(m: nat, mask: seq<bool>, n: nat): seq<Event>
    requires n <= |mask|
  {
    if n == 0 then []
    else TakeMask(m, mask, n - 1) + if mask[n - 1] then [Take(SegmentMutex(m, n - 1))] else []
  }

  function GiveMask(m: nat, mask: seq<bool>, n: nat): seq<Event>
    requires n <= |mask|
  {
    if n == 0 then []
    else GiveMask(m, mask, n - 1) + if mask[n - 1] then [Give(SegmentMutex(m, n - 1))] else []
  }

  function AllMutexes(count: nat): (mask: seq<bool>)
    ensures |mask| == count && forall i :: 0 <= i < count ==> mask[i]
  {
    if count == 0 then [] else AllMutexes(count - 1) + [true]
  }

  function Program(op: Operation): seq<Event> {
    match op
    case Fault(m, i, touched) => [Take(SegmentMutex(m, i)), Give(SegmentMutex(m, i))] + TouchAll(touched)
    case Flush(m, mask) => TakeMask(m, mask, |mask|) + GiveMask(m, mask, |mask|)
    case Sweep(m, count) => TakeMask(m, AllMutexes(count), count) + GiveMask(m, AllMutexes(count), count)
    case RegisterOnQuota(q, update) => [Take(QuotaMutex(q)), Give(QuotaMutex(q))] + UpdateEvents(update)
    case OnPolicy(p, nested) => PolicySection(p, nested)
  }

  // ---- the order is respected -------------------------------------------------------

  type Held = multiset<Lock>

  ghost predicate Above(held: Held, l: Lock) {
    forall h :: h in held ==> Less(h, l)
  }

  /** A recursive policy mutex may be taken again; anything else must be above all held. */
  ghost predicate Legal(held: Held, e: Event) {
    match e
    case Take(l) => (l in held && l.PolicyMutex?) || Above(held, l)
    case Give(l) => l in held
  }

  function After(held: Held, e: Event): Held {
    match e
    case Take(l) => held + multiset{l}
    case Give(l) => held - multiset{l}
  }

  function Final(held: Held, prog: seq<Event>): Held {
    if prog == [] then held else After(Final(held, prog[..|prog| - 1]), prog[|prog| - 1])
  }

  ghost predicate Orderly(held: Held, prog: seq<Event>) {
    prog == [] || (Orderly(held, prog[..|prog| - 1]) && Legal(Final(held, prog[..|prog| - 1]), prog[|prog| - 1]))
  }

  /** Orderly, and everything taken is given back. */
  ghost predicate Neat(held: Held, prog: seq<Event>) {
    Orderly(held, prog) && Final(held, prog) == held
  }

  lemma {:induction false} Concat(held: Held, a: seq<Event>, b: seq<Event>)
    ensures Final(held, a + b) == Final(Final(held, a), b)
    ensures Orderly(held, a + b) <==> Orderly(held, a) && Orderly(Final(held, a), b)
  {
    if b == [] {
      assert a + b == a;
    } else {
      var n := |b| - 1;
      assert (a + b)[..|a + b| - 1] == a + b[..n];
      Concat(held, a, b[..n]);
    }
  }

  lemma {:induction false} NeatConcat(held: Held, a: seq<Event>, b: seq<Event>)
    requires Neat(held, a) && Neat(held, b)
    ensures Neat(held, a + b)
  {
    Concat(held, a, b);
  }

  lemma {:induction false} One(held: Held, e: Event)
    ensures Final(held, [e]) == After(held, e)
    ensures Orderly(held, [e]) <==> Legal(held, e)
  {
    assert [e][..0] == [];
  }

  /** A body that is neat under one more lock, wrapped in taking and giving that lock. */
  lemma {:induction false} NeatWrap(held: Held, l: Lock, body: seq<Event>)
    requires Legal(held, Take(l)) && Neat(held + multiset{l}, body)
    ensures Neat(held, [Take(l)] + body + [Give(l)])
  {
    One(held, Take(l));
    Concat(held, [Take(l)], body);
    Concat(held, [Take(l)] + body, [Give(l)]);
    One(held + multiset{l}, Give(l));
    assert held + multiset{l} - multiset{l} == held;
  }

  lemma {:induction false} PairNeat(held: Held, l: Lock)
    requires Legal(held, Take(l))
    ensures Neat(held, [Take(l), Give(l)])
  {
    NeatWrap(held, l, []);
    assert [Take(l), Give(l)] == [Take(l)] + [] + [Give(l)];
  }

  ghost predicate NoPolicy(held: Held) { forall h :: h in held ==> !h.PolicyMutex? }
  ghost predicate QuotaOnly(held: Held) { forall h :: h in held ==> h.QuotaMutex? }

  lemma {:induction false} NestedNeat(held: Held, p: nat, n: nat)
    requires PolicyMutex(p) in held
    ensures Neat(held, Nested(p, n))
  {
    if n > 0 {
      NestedNeat(held, p, n - 1);
      PairNeat(held, PolicyMutex(p));
      NeatConcat(held, Nested(p, n - 1), [Take(PolicyMutex(p)), Give(PolicyMutex(p))]);
    }
  }

  lemma {:induction false} SectionNeat(held: Held, p: nat, n: nat)
    requires NoPolicy(held)
    ensures Neat(held, PolicySection(p, n))
  {
    NestedNeat(held + multiset{PolicyMutex(p)}, p, n);
    NeatWrap(held, PolicyMutex(p), Nested(p, n));
  }

  lemma {:induction false} NotifyNeat(held: Held, ps: seq<nat>)
    requires NoPolicy(held)
    ensures Neat(held, Notify(ps))
  {
    if ps != [] {
      SectionNeat(held, ps[0], 1);
      NotifyNeat(held, ps[1..]);
      NeatConcat(held, PolicySection(ps[0], 1), Notify(ps[1..]));
    }
  }

  lemma {:induction false} EvictAllNeat(held: Held, vs: seq<Victim>)
    requires QuotaOnly(held)
    ensures Neat(held, EvictAll(vs))
  {
    if vs != [] {
      var l := SegmentMutex(vs[0].m, vs[0].i);
      NotifyNeat(held + multiset{l}, vs[0].notified);
      NeatWrap(held, l, Notify(vs[0].notified));
      EvictAllNeat(held, vs[1..]);
      NeatConcat(held, EvictEvents(vs[0]), EvictAll(vs[1..]));
    }
  }

  lemma {:induction false} ShrinkNeat(held: Held, s: Shrunk)
    requires QuotaOnly(held)
    ensures Neat(held, ShrinkEvents(s))
  {
    SectionNeat(held, s.p, s.nested);
    EvictAllNeat(held, s.victims);
    NeatConcat(held, PolicySection(s.p, s.nested), EvictAll(s.victims));
  }

  lemma {:induction false} RoundsNeat(held: Held, rs: seq<Shrunk>)
    requires QuotaOnly(held)
    ensures Neat(held, Rounds(rs))
  {
    if rs != [] {
      ShrinkNeat(held, rs[0]);
      RoundsNeat(held, rs[1..]);
      NeatConcat(held, ShrinkEvents(rs[0]), Rounds(rs[1..]));
    }
  }

  lemma {:induction false} UpdateNeat(b: Balance)
    ensures Neat(multiset{}, UpdateEvents(b))
  {
    RoundsNeat(multiset{} + multiset{QuotaMutex(b.q)}, b.rounds);
    NeatWrap(multiset{}, QuotaMutex(b.q), Rounds(b.rounds));
  }

  lemma {:induction false} UpdatesNeat(bs: seq<Balance>)
    ensures Neat(multiset{}, Updates(bs))
  {
    if bs != [] {
      UpdateNeat(bs[0]);
      UpdatesNeat(bs[1..]);
      NeatConcat(multiset{}, UpdateEvents(bs[0]), Updates(bs[1..]));
    }
  }

  lemma {:induction false} TouchAllNeat(ts: seq<Touched>)
    ensures Neat(multiset{}, TouchAll(ts))
  {
    if ts != [] {
      ShrinkNeat(multiset{}, ts[0].shrunk);
      UpdatesNeat(ts[0].quota);
      TouchAllNeat(ts[1..]);
      NeatConcat(multiset{}, ShrinkEvents(ts[0].shrunk), Updates(ts[0].quota));
      NeatConcat(multiset{}, ShrinkEvents(ts[0].shrunk) + Updates(ts[0].quota), TouchAll(ts[1..]));
    }
  }

  /** The mutexes selected by a mask below n, once each. */
  ghost function Selected(m: nat, mask: seq<bool>, n: nat): (held: Held)
    requires n <= |mask|
    ensures forall h :: h in held ==> h.SegmentMutex? && h.m == m && h.i < n && mask[h.i]
  {
    if n == 0 then multiset{}
    else Selected(m, mask, n - 1) + if mask[n - 1] then multiset{SegmentMutex(m, n - 1)} else multiset{}
  }

  /** A flush takes the selected mutexes in ascending order. */
  lemma {:induction false} TakeMaskOrderly(m: nat, mask: seq<bool>, n: nat)
    requires n <= |mask|
    ensures Orderly(multiset{}, TakeMask(m, mask, n)) && Final(multiset{}, TakeMask(m, mask, n)) == Selected(m, mask, n)
  {
    if n > 0 {
      TakeMaskOrderly(m, mask, n - 1);
      var l := SegmentMutex(m, n - 1);
      if mask[n - 1] {
        One(Selected(m, mask, n - 1), Take(l));
        Concat(multiset{}, TakeMask(m, mask, n - 1), [Take(l)]);
      } else {
        assert TakeMask(m, mask, n) == TakeMask(m, mask, n - 1);
        assert Selected(m, mask, n) == Selected(m, mask, n - 1);
      }
    }
  }

  lemma {:induction false} GiveMaskOrderly(m: nat, mask: seq<bool>, n: nat, held: Held)
    requires n <= |mask| && Selected(m, mask, n) <= held
    ensures Orderly(held, GiveMask(m, mask, n)) && Final(held, GiveMask(m, mask, n)) == held - Selected(m, mask, n)
  {
    if n > 0 {
      GiveMaskOrderly(m, mask, n - 1, held);
      var l := SegmentMutex(m, n - 1);
      if mask[n - 1] {
        LastLeft(held, Selected(m, mask, n - 1), l);
        One(held - Selected(m, mask, n - 1), Give(l));
        Concat(held, GiveMask(m, mask, n - 1), [Give(l)]);
      } else {
        assert GiveMask(m, mask, n) == GiveMask(m, mask, n - 1);
        assert Selected(m, mask, n) == Selected(m, mask, n - 1);
      }
    }
  }

  lemma {:induction false} LastLeft(held: Held, some: Held, l: Lock)
    requires some + multiset{l} <= held
    ensures l in held - some && held - some - multiset{l} == held - (some + multiset{l})
  {
    assert (some + multiset{l})[l] == some[l] + 1 <= held[l];
  }

  lemma {:induction false} MaskNeat(m: nat, mask: seq<bool>)
    ensures Neat(multiset{}, TakeMask(m, mask, |mask|) + GiveMask(m, mask, |mask|))
  {
    TakeMaskOrderly(m, mask, |mask|);
    GiveMaskOrderly(m, mask, |mask|, Selected(m, mask, |mask|));
    Concat(multiset{}, TakeMask(m, mask, |mask|), GiveMask(m, mask, |mask|));
  }

  lemma {:induction false} PairThen(l: Lock, rest: seq<Event>)
    requires Neat(multiset{}, rest)
    ensures Neat(multiset{}, [Take(l), Give(l)] + rest)
  {
    PairNeat(multiset{}, l);
    NeatConcat(multiset{}, [Take(l), Give(l)], rest);
  }

  lemma {:induction false} FaultNeat(m: nat, i: nat, touched: seq<Touched>)
    ensures Neat(multiset{}, Program(Fault(m, i, touched)))
  {
    TouchAllNeat(touched);
    PairThen(SegmentMutex(m, i), TouchAll(touched));
  }

  lemma {:induction false} RegisterNeat(q: nat, update: Balance)
    ensures Neat(multiset{}, Program(RegisterOnQuota(q, update)))
  {
    UpdateNeat(update);
    PairThen(QuotaMutex(q), UpdateEvents(update));
  }

  /** Every operation respects the lock order and gives everything back. */
  lemma {:induction false} ProgramNeat(op: Operation)
    ensures Neat(multiset{}, Program(op))
  {
    match op
    case Fault(m, i, touched) => FaultNeat(m, i, touched);
    case Flush(m, mask) => MaskNeat(m, mask);
    case Sweep(m, count) => MaskNeat(m, AllMutexes(count));
    case RegisterOnQuota(q, update) => RegisterNeat(q, update);
    case OnPolicy(p, nested) => SectionNeat(multiset{}, p, nested);
  }

  // ---- threads ------------------------------------------------------------------------

  type Tid = nat

  /** A thread between two lock events: its operation and how far it has come. */
  datatype Thread = Thread(prog: seq<Event>, pc: nat, held: Held)

  type System = map<Tid, Thread>

  datatype Step =
    | Begin(t: Tid, op: Operation)  // a thread at rest starts any operation
    | Go(t: Tid)                    // it performs its next lock event

  /** A mutex can be taken when no other thread holds it. */
  ghost predicate Free(s: System, t: Tid, l: Lock) {
    forall u :: u in s && u != t ==> l !in s[u].held
  }

  /** Some thread is in the middle of an operation. */
  predicate Busy(s: System, t: Tid) { t in s && s[t].pc < |s[t].prog| }

  function Upcoming(s: System, t: Tid): Event
    requires Busy(s, t)
  {
    s[t].prog[s[t].pc]
  }

  ghost predicate CanGo(s: System, t: Tid) {
    Busy(s, t) && (Upcoming(s, t).Take? ==> Free(s, t, Upcoming(s, t).lock))
  }

  ghost predicate Enabled(s: System, step: Step) {
    match step
    case Begin(t, _) => !Busy(s, t)
    case Go(t) => CanGo(s, t)
  }

  function Next(s: System, step: Step): System
    requires step.Go? ==> Busy(s, step.t)
  {
    match step
    case Begin(t, op) => s[t := Thread(Program(op), 0, multiset{})]
    case Go(t) =>
      var h := s[t];
      s[t := Thread(h.prog, h.pc + 1, After(h.held, h.prog[h.pc]))]
  }

  /** It runs a neat program, and holds what the first part of it has taken. */
  ghost predicate ThreadOk(h: Thread) {
    h.pc <= |h.prog| && Neat(multiset{}, h.prog) && h.held == Final(multiset{}, h.prog[..h.pc])
  }

  ghost predicate Apart(a: Held, b: Held) {
    forall l :: l in a ==> l !in b
  }

  ghost predicate AllOk(s: System) { forall t :: t in s ==> ThreadOk(s[t]) }

  /** No mutex is held twice. */
  ghost predicate AllApart(s: System) {
    forall t, u :: t in s && u in s && t != u ==> Apart(s[t].held, s[u].held)
  }

  ghost predicate Inv(s: System) { AllOk(s) && AllApart(s) }

  lemma {:induction false} OrderlyPrefix(held: Held, prog: seq<Event>, k: nat)
    requires Orderly(held, prog) && k <= |prog|
    ensures Orderly(held, prog[..k])
  {
    if k == |prog| {
      assert prog[..k] == prog;
    } else {
      var shorter := prog[..|prog| - 1];
      assert Orderly(held, shorter);
      OrderlyPrefix(held, shorter, k);
      assert shorter[..k] == prog[..k];
    }
  }

  lemma {:induction false} PrefixLegal(held: Held, prog: seq<Event>, k: nat)
    requires Orderly(held, prog) && k < |prog|
    ensures Legal(Final(held, prog[..k]), prog[k])
  {
    OrderlyPrefix(held, prog, k + 1);
    assert prog[..k + 1][..k] == prog[..k];
  }

  /** The next event of a thread is legal for what it holds; a finished one holds nothing. */
  lemma {:induction false} NextLegal(h: Thread)
    requires ThreadOk(h)
    ensures h.pc == |h.prog| ==> h.held == multiset{}
    ensures h.pc < |h.prog| ==> Legal(h.held, h.prog[h.pc])
  {
    assert h.prog[..|h.prog|] == h.prog;
    if h.pc < |h.prog| { PrefixLegal(multiset{}, h.prog, h.pc); }
  }

  lemma {:induction false} ThreadGoes(h: Thread)
    requires ThreadOk(h) && h.pc < |h.prog|
    ensures ThreadOk(Thread(h.prog, h.pc + 1, After(h.held, h.prog[h.pc])))
  {
    assert h.prog[..h.pc + 1][..h.pc] == h.prog[..h.pc];
  }

  lemma {:induction false} StaysApart(mine: Held, other: Held, e: Event)
    requires Apart(mine, other) && (e.Take? ==> e.lock !in other)
    ensures Apart(After(mine, e), other) && Apart(other, After(mine, e))
  {
  }

  /** One thread replaced by another good one. */
  lemma {:induction false} ReplaceOk(s: System, t: Tid, h: Thread)
    requires AllOk(s) && ThreadOk(h)
    ensures AllOk(s[t := h])
  {
    var r := s[t := h];
    forall u | u in r ensures ThreadOk(r[u]) {
      if u != t { assert r[u] == s[u]; }
    }
  }

  lemma {:induction false} GoKeepsOk(s: System, t: Tid)
    requires AllOk(s) && Busy(s, t)
    ensures AllOk(Next(s, Go(t)))
  {
    var h := s[t];
    ThreadGoes(h);
    ReplaceOk(s, t, Thread(h.prog, h.pc + 1, After(h.held, h.prog[h.pc])));
  }

  lemma {:induction false} GoKeepsApart(s: System, t: Tid)
    requires AllApart(s) && CanGo(s, t)
    ensures AllApart(Next(s, Go(t)))
  {
    var r := Next(s, Go(t));
    forall u, v | u in r && v in r && u != v ensures Apart(r[u].held, r[v].held) {
      if u == t { StaysApart(s[t].held, s[v].held, Upcoming(s, t)); }
      else if v == t { StaysApart(s[t].held, s[u].held, Upcoming(s, t)); }
    }
  }

  lemma {:induction false} StepKeeps(s: System, step: Step)
    requires Inv(s) && Enabled(s, step)
    ensures Inv(Next(s, step))
  {
    match step
    case Begin(t, op) =>
      ProgramNeat(op);
      assert Program(op)[..0] == [];
    case Go(t) =>
      GoKeepsOk(s, t);
      GoKeepsApart(s, t);
  }

  /** The thread that holds what a blocked one waits for waits itself for a higher mutex. */
  lemma {:induction false} WaitsHigher(s: System, t: Tid, u: Tid)
    requires Inv(s) && Busy(s, t) && u in s && u != t && Upcoming(s, t).Take? && Upcoming(s, t).lock in s[u].held
    ensures Busy(s, u)
    ensures !CanGo(s, u) ==> Upcoming(s, u).Take? && Less(Upcoming(s, t).lock, Upcoming(s, u).lock)
  {
    NextLegal(s[u]);
    if !CanGo(s, u) {
      var l := Upcoming(s, u).lock;
      var v :| v in s && v != u && l in s[v].held;
      assert Apart(s[v].held, s[u].held);
    }
  }

  /** Among the locks of a set of threads there is one that is not below another. */
  lemma {:induction false} Highest(waits: map<Tid, Lock>, who: set<Tid>) returns (t: Tid)
    requires who != {} && who <= waits.Keys
    ensures t in who && forall u :: u in who ==> !Less(waits[t], waits[u])
    decreases |who|
  {
    t :| t in who;
    var rest := who - {t};
    LessTotal(waits[t], waits[t], waits[t]);
    if rest == {} {
      assert who == {t};
    } else {
      var r := Highest(waits, rest);
      var first := t;
      if Less(waits[first], waits[r]) { t := r; }
      forall u | u in who ensures !Less(waits[t], waits[u]) {
        LessTotal(waits[first], waits[r], waits[u]);
        LessTotal(waits[r], waits[first], waits[u]);
        assert u == first || u in rest;
      }
    }
  }

  /** No deadlock: as long as a thread is busy, some thread can perform its next event. */
  lemma {:induction false} SomeoneCanGo(s: System)
    requires Inv(s) && exists t :: Busy(s, t)
    ensures exists t :: CanGo(s, t)
  {
    var busy := set t | t in s && Busy(s, t);
    var t0 :| Busy(s, t0);
    assert t0 in busy;
    var t := Highest(map u | u in busy :: Upcoming(s, u).lock, busy);
    if !CanGo(s, t) {
      var u :| u in s && u != t && Upcoming(s, t).lock in s[u].held;
      WaitsHigher(s, t, u);
      assert u in busy && CanGo(s, u);
    }
  }

  ghost predicate CanRun(s: System, steps: seq<Step>)
    decreases |steps|
  {
    steps == [] || (Enabled(s, steps[0]) && CanRun(Next(s, steps[0]), steps[1..]))
  }

  ghost function Run(s: System, steps: seq<Step>): System
    requires CanRun(s, steps)
    decreases |steps|
  {
    if steps == [] then s else Run(Next(s, steps[0]), steps[1..])
  }

  lemma {:induction false} RunKeeps(s: System, steps: seq<Step>)
    requires Inv(s) && CanRun(s, steps)
    ensures Inv(Run(s, steps))
    decreases |steps|
  {
    if steps != [] {
      StepKeeps(s, steps[0]);
      RunKeeps(Next(s, steps[0]), steps[1..]);
    }
  }

  /** Whatever operations any number of threads run, no reachable state is stuck. */
  lemma {:induction false} DeadlockFree(steps: seq<Step>)
    requires CanRun(map[], steps)
    ensures var s := Run(map[], steps);
      (exists t :: Busy(s, t)) ==> exists t :: CanGo(s, t)
  {
    RunKeeps(map[], steps);
    if exists t :: Busy(Run(map[], steps), t) { SomeoneCanGo(Run(map[], steps)); }
  }

  // ---- the mutexes of a flush ------------------------------------------------------------

  /** getMutexRange: the mask holds exactly the mutexes of the segments of the range. */
  method GetMutexRange(baseId: nat, count: nat, mutexes: nat) returns (list: array<bool>)
    requires 0 < mutexes
    ensures list.Length == mutexes
    ensures forall i :: 0 <= i < mutexes ==>
              (list[i] <==> exists id :: baseId <= id < baseId + count && Uses(id, mutexes, i))
  {
    list := new bool[mutexes](_ => false);
    var id := baseId;
    while id < baseId + count
      invariant baseId <= id <= baseId + count
      invariant forall i :: 0 <= i < mutexes ==>
                  (list[i] <==> exists k :: baseId <= k < id && Uses(k, mutexes, i))
    {
      list[id % mutexes] := true;
      assert Uses(id, mutexes, id % mutexes);
      id := id + 1;
    }
  }

  /** Segment id is protected by mutex i. */
  predicate Uses(id: nat, mutexes: nat, i: int)
    requires 0 < mutexes
  {
    id % mutexes == i
  }
}
