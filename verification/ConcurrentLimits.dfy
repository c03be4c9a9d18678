/**
 The limits of the concurrent cache. The thread-unsafe mode loads in place and flushes
 without protecting the page: from a new mapping every run shows exactly the program's
 stores if and only if the mode is thread-safe or no segment can be hurt. And in
 thread-safe mode a read fault after a write fault leaves a segment that refuses every
 store until it is flushed.
 */
module ConcurrentLimits {
  import SC = SegmentCache
  import opened ConcurrentCache

  // ---- paths through the step system ----------------------------------------------

  /** A run from some world: its steps, where it ends, and what segment k should show. */
  datatype Trail = Trail(steps: seq<Step>, at: World, flat: seq<SC.Byte>)

  ghost predicate Follows(cfg: Config, w: World, k: nat, p: Trail) {
    && cfg.Valid() && k < |w.segs| && CanRun(cfg, w, p.steps) && Run(cfg, w, p.steps) == p.at
    && FlatRun(p.steps, k, View(w.segs[k])) == p.flat
  }

  lemma {:induction false} RunThen(cfg: Config, w: World, steps: seq<Step>, s: Step, k: nat, flat: seq<SC.Byte>)
    requires cfg.Valid() && CanRun(cfg, w, steps) && Enabled(cfg, Run(cfg, w, steps), s)
    ensures CanRun(cfg, w, steps + [s])
    ensures Run(cfg, w, steps + [s]) == Next(cfg, Run(cfg, w, steps), s)
    ensures FlatRun(steps + [s], k, flat) == FlatStep(s, k, FlatRun(steps, k, flat))
    decreases |steps|
  {
    if steps == [] {
      assert steps + [s] == [s] && [s][1..] == [];
    } else {
      assert (steps + [s])[1..] == steps[1..] + [s];
      RunThen(cfg, Next(cfg, w, steps[0]), steps[1..], s, k, FlatStep(steps[0], k, flat));
    }
  }

  lemma Start(cfg: Config, w: World, k: nat) returns (p: Trail)
    requires cfg.Valid() && k < |w.segs|
    ensures p.at == w && p.flat == View(w.segs[k]) && Follows(cfg, w, k, p)
  {
    p := Trail([], w, View(w.segs[k]));
  }

  lemma Do(cfg: Config, w: World, k: nat, p: Trail, s: Step) returns (r: Trail)
    requires Follows(cfg, w, k, p) && Enabled(cfg, p.at, s)
    ensures Follows(cfg, w, k, r) && r.at == Next(cfg, p.at, s)
    ensures r.flat == FlatStep(s, k, p.flat) && r.steps == p.steps + [s]
  {
    RunThen(cfg, w, p.steps, s, k, View(w.segs[k]));
    r := Trail(p.steps + [s], Next(cfg, p.at, s), FlatStep(s, k, p.flat));
  }

  // ---- the thread-unsafe mode --------------------------------------------------------

  ghost predicate ShowsStores(cfg: Config, w: World)
    requires cfg.Valid()
  {
    forall steps, k: nat :: CanRun(cfg, w, steps) && k < |w.segs| ==>
      View(Run(cfg, w, steps).segs[k]) == FlatRun(steps, k, View(w.segs[k]))
  }

  /** Nothing to lose: no byte, no access, or zeros that nobody may write. */
  predicate Harmless(cfg: Config, g: Segment) {
    |g.mem| == 0 || !cfg.accessible || (!cfg.writable && !g.needRead)
  }

  /** The in-place load opens the page before it reads storage: a store that arrives in
      between is overwritten. Even a read fault does this. */
  lemma InPlaceLoadLosesWrite(cfg: Config, w: World, k: nat)
    requires Initial(cfg, w) && !cfg.threadSafe && k < |w.segs|
    requires cfg.accessible && |w.segs[k].mem| > 0 && w.segs[k].needRead
    ensures !ShowsStores(cfg, w)
  {
    var m, g := cfg.MutexOf(k), w.segs[k];
    var b: SC.Byte := if g.store[0] == 0 then 1 else 0;
    var p := Start(cfg, w, k);
    p := Do(cfg, w, k, p, Acquire(0, m));
    p := Do(cfg, w, k, p, FaultCheck(0, k, false));
    p := Do(cfg, w, k, p, UserStore(k, 0, b));
    p := Do(cfg, w, k, p, Fill(0));
    assert View(p.at.segs[k])[0] == g.store[0] && p.flat[0] == b;
  }

  /** The flush writes the page out while it stays writable: a store between pwrite and
      the clearing of the dirty bit is gone after the eviction. */
  lemma UnprotectedFlushLosesWrite(cfg: Config, w: World, k: nat)
    requires Initial(cfg, w) && !cfg.threadSafe && k < |w.segs|
    requires cfg.writable && |w.segs[k].mem| > 0 && !w.segs[k].needRead
    ensures !ShowsStores(cfg, w)
  {
    var m, g := cfg.MutexOf(k), w.segs[k];
    var p := Start(cfg, w, k);
    p := Do(cfg, w, k, p, Acquire(0, m));
    p := Do(cfg, w, k, p, FaultCheck(0, k, true));
    p := Do(cfg, w, k, p, SetDirty(0));
    p := Do(cfg, w, k, p, SetMapped(0));
    assert p.flat == View(g) && p.at.Act(0) == Rest && p.at.owner[m] == 0;
    assert p.at.segs[k] == g.(access := SC.ReadWrite, dirty := true, mapped := true);
    FlushAfterWriteFault(cfg, w, k, p);
  }

  lemma FlushAfterWriteFault(cfg: Config, w: World, k: nat, before: Trail)
    requires Follows(cfg, w, k, before) && !cfg.threadSafe && k < |before.at.segs| && Ready(cfg, before.at, 0, k)
    requires var g := before.at.segs[k];
      g.mapped && g.dirty && g.access == SC.ReadWrite && |g.mem| > 0 && g.mem == before.flat && g.mem[0] == 0
    ensures !ShowsStores(cfg, w)
  {
    var m := cfg.MutexOf(k);
    var p := Do(cfg, w, k, before, Release(0, m));
    p := Do(cfg, w, k, p, Acquire(0, m));
    p := Do(cfg, w, k, p, FlushStart(0, k, true));
    p := Do(cfg, w, k, p, WriteOut(0));
    StoreAfterWriteOut(cfg, w, k, p);
  }

  lemma StoreAfterWriteOut(cfg: Config, w: World, k: nat, before: Trail)
    requires Follows(cfg, w, k, before) && k < |before.at.segs| && before.at.Act(0) == Written(k, true)
    requires var g := before.at.segs[k];
      g.access == SC.ReadWrite && |g.mem| == |before.flat| > 0 && g.store == g.mem && g.mem[0] == 0
    ensures !ShowsStores(cfg, w)
  {
    var p := Do(cfg, w, k, before, UserStore(k, 0, 1));
    p := Do(cfg, w, k, p, ClearDirty(0));
    p := Do(cfg, w, k, p, Close(0));
    assert View(p.at.segs[k])[0] == 0 && p.flat[0] == 1;
  }

  // What a harmless segment keeps, in any mode.

  ghost predicate Empty(w: World, k: nat) {
    && k < |w.segs| && |w.segs[k].mem| == 0 && |w.segs[k].store| == 0
    && forall t: Tid :: w.Act(t).Loaded? && w.Act(t).k == k ==> w.Act(t).page == []
  }

  ghost predicate Sealed(cfg: Config, w: World, k: nat) {
    && !cfg.accessible && !cfg.writable && k < |w.segs| && !w.segs[k].mapped && w.segs[k].access == SC.NoAccess
    && forall t: Tid :: w.Act(t).Rest? || w.Act(t).k != k
  }

  /** Clean zeros that storage has never replaced. */
  predicate Virtual(g: Segment) {
    !g.needRead && !g.dirty && g.access != SC.ReadWrite && g.mem == SC.Zeros(|g.mem|)
  }

  ghost predicate Still(cfg: Config, w: World, k: nat) {
    && !cfg.writable && k < |w.segs| && Virtual(w.segs[k])
    && forall t: Tid :: !w.Act(t).Rest? && w.Act(t).k == k ==> Passive(w.Act(t))
  }

  /** The actions that neither load, open for writing, nor write out. */
  predicate Passive(a: Action) {
    (a.Opened? && !a.isWrite) || a.Flushed? || a.Closing? || a.Closed? || a.Discarded?
  }

  ghost predicate Quiet(cfg: Config, w: World, k: nat) {
    Empty(w, k) || Sealed(cfg, w, k) || Still(cfg, w, k)
  }

  /** Only the thread of a step changes its action. */
  lemma OthersStay(cfg: Config, w: World, s: Step, t: Tid)
    requires cfg.Valid() && Enabled(cfg, w, s)
    requires s.UserStore? || s.UserLoad? || s.Acquire? || s.Release? || t != s.t
    ensures Next(cfg, w, s).Act(t) == w.Act(t)
  {
  }

  lemma EmptyStep(cfg: Config, w: World, s: Step, k: nat)
    requires cfg.Valid() && Empty(w, k) && Enabled(cfg, w, s)
    ensures Empty(Next(cfg, w, s), k)
  {
    var r := Next(cfg, w, s);
    forall t: Tid | r.Act(t).Loaded? && r.Act(t).k == k ensures r.Act(t).page == [] {
      if s.UserStore? || s.UserLoad? || s.Acquire? || s.Release? || t != s.t { OthersStay(cfg, w, s, t); }
    }
  }

  lemma SealedStep(cfg: Config, w: World, s: Step, k: nat)
    requires cfg.Valid() && Sealed(cfg, w, k) && Enabled(cfg, w, s)
    ensures Sealed(cfg, Next(cfg, w, s), k) && Next(cfg, w, s).segs[k] == w.segs[k] && !StoresTo(s, k)
  {
    var r := Next(cfg, w, s);
    forall t: Tid ensures r.Act(t).Rest? || r.Act(t).k != k {
      if s.UserStore? || s.UserLoad? || s.Acquire? || s.Release? || t != s.t { OthersStay(cfg, w, s, t); }
    }
  }

  lemma StillStep(cfg: Config, w: World, s: Step, k: nat)
    requires cfg.Valid() && Still(cfg, w, k) && Enabled(cfg, w, s)
    ensures Still(cfg, Next(cfg, w, s), k) && |Next(cfg, w, s).segs[k].mem| == |w.segs[k].mem| && !StoresTo(s, k)
  {
    var r := Next(cfg, w, s);
    forall t: Tid | !r.Act(t).Rest? && r.Act(t).k == k ensures Passive(r.Act(t)) {
      if s.UserStore? || s.UserLoad? || s.Acquire? || s.Release? || t != s.t { OthersStay(cfg, w, s, t); }
    }
  }

  lemma QuietStep(cfg: Config, w: World, s: Step, k: nat)
    requires cfg.Valid() && Quiet(cfg, w, k) && Enabled(cfg, w, s)
    ensures Quiet(cfg, Next(cfg, w, s), k)
    ensures View(Next(cfg, w, s).segs[k]) == FlatStep(s, k, View(w.segs[k]))
  {
    if Empty(w, k) { EmptyStep(cfg, w, s, k); }
    else if Sealed(cfg, w, k) { SealedStep(cfg, w, s, k); }
    else { StillStep(cfg, w, s, k); }
  }

  lemma {:induction false} QuietRun(cfg: Config, w: World, steps: seq<Step>, k: nat)
    requires cfg.Valid() && Quiet(cfg, w, k) && CanRun(cfg, w, steps)
    ensures View(Run(cfg, w, steps).segs[k]) == FlatRun(steps, k, View(w.segs[k]))
    decreases |steps|
  {
    if steps != [] {
      QuietStep(cfg, w, steps[0], k);
      QuietRun(cfg, Next(cfg, w, steps[0]), steps[1..], k);
    }
  }

  /** From a new mapping, every run shows exactly the program's stores if and only if the
      mode is thread-safe or every segment is harmless. */
  lemma NoLostWriteExactly(cfg: Config, w: World)
    requires Initial(cfg, w)
    ensures ShowsStores(cfg, w) <==> cfg.threadSafe || forall k :: 0 <= k < |w.segs| ==> Harmless(cfg, w.segs[k])
  {
    if cfg.threadSafe {
      InitialInv(cfg, w);
      forall steps, k: nat | CanRun(cfg, w, steps) && k < |w.segs|
        ensures View(Run(cfg, w, steps).segs[k]) == FlatRun(steps, k, View(w.segs[k]))
      {
        RunInvisible(cfg, w, steps, k);
      }
    } else if k :| 0 <= k < |w.segs| && !Harmless(cfg, w.segs[k]) {
      if w.segs[k].needRead { InPlaceLoadLosesWrite(cfg, w, k); } else { UnprotectedFlushLosesWrite(cfg, w, k); }
    } else {
      forall steps, k: nat | CanRun(cfg, w, steps) && k < |w.segs|
        ensures View(Run(cfg, w, steps).segs[k]) == FlatRun(steps, k, View(w.segs[k]))
      {
        assert Harmless(cfg, w.segs[k]);
        QuietRun(cfg, w, steps, k);
      }
    }
  }

  // ---- dirty and read-only ------------------------------------------------------------

  /** Dirty, read-only, and no flush of the segment under way. */
  ghost predicate Stuck(cfg: Config, w: World, k: nat) {
    && Inv(cfg, w) && k < |w.segs|
    && w.segs[k].mapped && w.segs[k].dirty && w.segs[k].access == SC.ReadOnly
    && (ActionOn(cfg, w, k) == Rest || ActionOn(cfg, w, k) == Opened(k, false))
  }

  predicate Flushes(s: Step, k: nat) { s.FlushStart? && s.k == k }

  predicate StoresTo(s: Step, k: nat) { s.UserStore? && s.k == k }

  lemma StuckContinue(cfg: Config, w: World, s: Step, k: nat)
    requires Stuck(cfg, w, k) && Enabled(cfg, w, s) && Continues(s)
    ensures Stuck(cfg, Next(cfg, w, s), k)
  {
    ContinueSteps(cfg, w, s);
    Owns(cfg, w, s.t);
  }

  lemma StuckStart(cfg: Config, w: World, s: Step, k: nat)
    requires Stuck(cfg, w, k) && Enabled(cfg, w, s) && Starts(s) && !Flushes(s, k)
    ensures Stuck(cfg, Next(cfg, w, s), k)
    ensures s.FaultCheck? && s.k == k && s.isWrite ==> Next(cfg, w, s) == w
  {
    StartSteps(cfg, w, s);
    ReadyIsAtRest(cfg, w, s.t, s.k);
  }

  lemma StuckStep(cfg: Config, w: World, s: Step, k: nat)
    requires Stuck(cfg, w, k) && Enabled(cfg, w, s) && !Flushes(s, k)
    ensures Stuck(cfg, Next(cfg, w, s), k) && !StoresTo(s, k)
  {
    if Continues(s) { StuckContinue(cfg, w, s, k); }
    else if Starts(s) { StuckStart(cfg, w, s, k); }
    else { StepInvisible(cfg, w, s, k); }
  }

  /** Until it is flushed, a stuck segment stays stuck whatever all threads do: no store
      gets through, so the thread that wants to write faults for ever. */
  lemma {:induction false} StuckUntilFlush(cfg: Config, w: World, steps: seq<Step>, k: nat)
    requires Stuck(cfg, w, k) && CanRun(cfg, w, steps)
    requires forall j :: 0 <= j < |steps| ==> !Flushes(steps[j], k)
    ensures Stuck(cfg, Run(cfg, w, steps), k)
    ensures forall j :: 0 <= j < |steps| ==> !StoresTo(steps[j], k)
    decreases |steps|
  {
    if steps != [] {
      StuckStep(cfg, w, steps[0], k);
      StuckUntilFlush(cfg, Next(cfg, w, steps[0]), steps[1..], k);
      forall j | 0 <= j < |steps| ensures !StoresTo(steps[j], k) {
        if j > 0 { assert steps[j] == steps[1..][j - 1]; }
      }
    }
  }

  /** A flush by any idle thread frees it: the next write fault opens the page. */
  lemma FlushFrees(cfg: Config, w: World, k: nat, t: Tid)
    requires Stuck(cfg, w, k) && cfg.writable && cfg.MutexOf(k) !in w.owner && w.Act(t) == Rest
    ensures exists steps :: CanRun(cfg, w, steps) && Run(cfg, w, steps).segs[k].access == SC.ReadWrite
  {
    var m := cfg.MutexOf(k);
    var p := Start(cfg, w, k);
    p := Do(cfg, w, k, p, Acquire(t, m));
    p := Do(cfg, w, k, p, FlushStart(t, k, false));
    p := Do(cfg, w, k, p, WriteOut(t));
    p := Do(cfg, w, k, p, ClearDirty(t));
    p := Do(cfg, w, k, p, FaultCheck(t, k, true));
    assert CanRun(cfg, w, p.steps);
  }

  /** A write fault leads to an open page exactly when the segment is not stuck. */
  lemma WriteFaultOpens(cfg: Config, w: World, t: Tid, k: nat)
    requires Inv(cfg, w) && Enabled(cfg, w, FaultCheck(t, k, true))
    ensures var r := Next(cfg, w, FaultCheck(t, k, true));
      if w.segs[k].dirty && w.segs[k].access == SC.ReadOnly then Stuck(cfg, w, k) && r == w
      else r.segs[k].access == SC.ReadWrite
           || (r.Act(t) == Loaded(k, true, w.segs[k].store)
               && Next(cfg, r, Swap(t)).segs[k].access == SC.ReadWrite)
  {
    ReadyIsAtRest(cfg, w, t, k);
  }

  /** From every new writable mapping, any segment can get stuck: two threads fault on it,
      the writer's handler comes first and the reader's second. */
  lemma ReadFaultAfterWriteFault(cfg: Config, w: World, k: nat)
    requires Initial(cfg, w) && cfg.threadSafe && cfg.writable && k < |w.segs|
    ensures exists steps :: CanRun(cfg, w, steps)
              && Run(cfg, w, steps).owner == map[] && Stuck(cfg, Run(cfg, w, steps), k)
  {
    var m := cfg.MutexOf(k);
    var p := WriteFault(cfg, w, k);
    p := Do(cfg, w, k, p, Acquire(1, m));
    p := Do(cfg, w, k, p, FaultCheck(1, k, false));
    p := Do(cfg, w, k, p, SetMapped(1));
    p := Do(cfg, w, k, p, Release(1, m));
    InitialInv(cfg, w);
    RunInvisible(cfg, w, p.steps, k);
    assert p.at.owner == map[];
    assert CanRun(cfg, w, p.steps);
  }

  lemma WriteFault(cfg: Config, w: World, k: nat) returns (p: Trail)
    requires Initial(cfg, w) && cfg.threadSafe && cfg.writable && k < |w.segs|
    ensures Follows(cfg, w, k, p) && p.at.owner == map[] && p.at.Act(1) == Rest && k < |p.at.segs|
    ensures var g := p.at.segs[k]; g.mapped && g.dirty && g.access == SC.ReadWrite
  {
    var m := cfg.MutexOf(k);
    p := OpenForWriting(cfg, w, k);
    p := Do(cfg, w, k, p, SetDirty(0));
    p := Do(cfg, w, k, p, SetMapped(0));
    p := Do(cfg, w, k, p, Release(0, m));
    assert p.at.owner == map[];
  }

  lemma OpenForWriting(cfg: Config, w: World, k: nat) returns (p: Trail)
    requires Initial(cfg, w) && cfg.threadSafe && cfg.writable && k < |w.segs|
    ensures Follows(cfg, w, k, p) && p.at.owner == map[cfg.MutexOf(k) := 0] && k < |p.at.segs|
    ensures p.at.Act(0) == Opened(k, true) && p.at.Act(1) == Rest && p.at.segs[k].access == SC.ReadWrite
  {
    p := Start(cfg, w, k);
    p := Do(cfg, w, k, p, Acquire(0, cfg.MutexOf(k)));
    p := Do(cfg, w, k, p, FaultCheck(0, k, true));
    if w.segs[k].needRead { p := Do(cfg, w, k, p, Swap(0)); }
  }

  // ---- every critical section does its work ---------------------------------------------

  /** Thread t starts an operation on k and finishes it by its own next effects alone, in the
      world r: it is at rest again, and no other segment and no mutex has changed. */
  ghost predicate Completes(cfg: Config, w: World, start: Step, t: Tid, k: nat, r: World)
    requires cfg.Valid()
  {
    && |r.segs| == |w.segs| && r.owner == w.owner && r.Act(t) == Rest
    && (forall l :: 0 <= l < |w.segs| && l != k ==> r.segs[l] == w.segs[l])
    && (forall u: Tid :: u != t ==> r.Act(u) == w.Act(u))
    && exists steps :: OwnSteps(steps, start, t) && CanRun(cfg, w, steps) && Run(cfg, w, steps) == r
  }

  predicate OwnSteps(steps: seq<Step>, start: Step, t: Tid) {
    |steps| > 0 && steps[0] == start && forall j :: 0 < j < |steps| ==> Continues(steps[j]) && steps[j].t == t
  }

  /** In the middle of a critical section a thread has exactly one next effect, so the way an
      operation completes is the only one. */
  lemma {:induction false} OneOwnStep(cfg: Config, w: World, a: Step, b: Step)
    requires cfg.Valid() && Continues(a) && Continues(b) && a.t == b.t && Enabled(cfg, w, a) && Enabled(cfg, w, b)
    ensures a == b
  {
  }

  lemma {:induction false} NoneAtRest(cfg: Config, w: World, s: Step)
    requires cfg.Valid() && Continues(s) && w.Act(s.t) == Rest
    ensures !Enabled(cfg, w, s)
  {
  }

  /** The progress of t on segment k: an own run so far, from w to here. */
  ghost predicate Going(cfg: Config, w: World, start: Step, t: Tid, k: nat, here: World, steps: seq<Step>) {
    && cfg.Valid() && k < |w.segs| && |here.segs| == |w.segs| && here.owner == w.owner
    && (forall l :: 0 <= l < |w.segs| && l != k ==> here.segs[l] == w.segs[l])
    && (forall u: Tid :: u != t ==> here.Act(u) == w.Act(u))
    && OwnSteps(steps, start, t) && CanRun(cfg, w, steps) && Run(cfg, w, steps) == here
  }

  lemma {:induction false} Begin(cfg: Config, w: World, s: Step) returns (here: World, steps: seq<Step>)
    requires cfg.Valid() && Starts(s) && Enabled(cfg, w, s)
    ensures here == Next(cfg, w, s) && Going(cfg, w, s, s.t, s.k, here, steps)
  {
    steps, here := [s], Next(cfg, w, s);
    assert steps[1..] == [];
  }

  lemma {:induction false} Go(cfg: Config, w: World, start: Step, t: Tid, k: nat, here: World,
                                 steps: seq<Step>, s: Step)
    returns (there: World, more: seq<Step>)
    requires Going(cfg, w, start, t, k, here, steps) && Continues(s) && s.t == t && here.Act(t) != Rest
    requires here.Act(t).k == k && Enabled(cfg, here, s)
    ensures there == Next(cfg, here, s) && Going(cfg, w, start, t, k, there, more)
  {
    RunThen(cfg, w, steps, s, k, []);
    there, more := Next(cfg, here, s), steps + [s];
  }

  /** Thread t holds the mutex of k and nobody works on k. */
  predicate Idle(cfg: Config, w: World, t: Tid, k: nat)
    requires cfg.Valid()
  {
    Ready(cfg, w, t, k) && AtRest(w.segs[k]) && |w.segs[k].mem| == |w.segs[k].store|
  }

  lemma {:induction false} ReadyIsIdle(cfg: Config, w: World, t: Tid, k: nat)
    requires Inv(cfg, w) && Ready(cfg, w, t, k)
    ensures Idle(cfg, w, t, k)
  {
    ReadyIsAtRest(cfg, w, t, k);
  }

  /** A fault of an unmapped segment, in either mode: it is loaded, opened and marked. */
  lemma {:induction false} LoadFaultCompletes(cfg: Config, w: World, t: Tid, k: nat, isWrite: bool) returns (r: World)
    requires cfg.Valid() && Idle(cfg, w, t, k) && cfg.accessible && (isWrite ==> cfg.writable) && !w.segs[k].mapped
    ensures Completes(cfg, w, FaultCheck(t, k, isWrite), t, k, r)
    ensures var g, h := w.segs[k], r.segs[k];
      && h.mapped && h.dirty == isWrite && h.access == (if isWrite then SC.ReadWrite else SC.ReadOnly)
      && h.mem == View(g) && h.store == g.store && h.needRead == g.needRead
  {
    var start := FaultCheck(t, k, isWrite);
    var here, steps := Begin(cfg, w, start);
    if w.segs[k].needRead {
      if cfg.threadSafe {
        here, steps := Go(cfg, w, start, t, k, here, steps, Swap(t));
      } else {
        here, steps := Go(cfg, w, start, t, k, here, steps, Fill(t));
        if !isWrite { here, steps := Go(cfg, w, start, t, k, here, steps, Shut(t)); }
      }
    }
    r := OpenedCompletes(cfg, w, start, t, k, here, steps, isWrite);
  }

  /** From an open page to the end of the handler. */
  lemma {:induction false} OpenedCompletes(cfg: Config, w: World, start: Step, t: Tid, k: nat,
                                            here: World, steps: seq<Step>, isWrite: bool) returns (r: World)
    requires Going(cfg, w, start, t, k, here, steps) && here.Act(t) == Opened(k, isWrite)
    ensures Completes(cfg, w, start, t, k, r)
    ensures r.segs[k] == here.segs[k].(mapped := true, dirty := here.segs[k].dirty || isWrite)
  {
    var at, so := here, steps;
    if isWrite { at, so := Go(cfg, w, start, t, k, at, so, SetDirty(t)); }
    at, so := Go(cfg, w, start, t, k, at, so, SetMapped(t));
    r := at;
  }

  /** A permitted read fault ends with the segment resident and readable. */
  lemma {:induction false} ReadFaultCompletes(cfg: Config, w: World, t: Tid, k: nat) returns (r: World)
    requires cfg.Valid() && Idle(cfg, w, t, k) && cfg.accessible
    ensures Completes(cfg, w, FaultCheck(t, k, false), t, k, r)
    ensures r.segs[k].mapped && r.segs[k].access != SC.NoAccess && r.segs[k].dirty == w.segs[k].dirty
    ensures r.segs[k].mem == View(w.segs[k]) && r.segs[k].store == w.segs[k].store
  {
    if !w.segs[k].mapped {
      r := LoadFaultCompletes(cfg, w, t, k, false);
    } else {
      var start := FaultCheck(t, k, false);
      var here, steps := Begin(cfg, w, start);
      if w.segs[k].dirty { r := OpenedCompletes(cfg, w, start, t, k, here, steps, false); } else { r := here; }
    }
  }

  /** A permitted write fault ends with the segment resident, dirty and writable, unless it
      was dirty and read-only, see `WriteFaultOpens`. */
  lemma {:induction false} WriteFaultCompletes(cfg: Config, w: World, t: Tid, k: nat) returns (r: World)
    requires cfg.Valid() && Idle(cfg, w, t, k) && cfg.writable
    requires !(w.segs[k].dirty && w.segs[k].access == SC.ReadOnly)
    ensures Completes(cfg, w, FaultCheck(t, k, true), t, k, r)
    ensures r.segs[k].mapped && r.segs[k].dirty && r.segs[k].access == SC.ReadWrite
    ensures r.segs[k].mem == View(w.segs[k]) && r.segs[k].store == w.segs[k].store
  {
    if !w.segs[k].mapped {
      r := LoadFaultCompletes(cfg, w, t, k, true);
    } else {
      var start := FaultCheck(t, k, true);
      var here, steps := Begin(cfg, w, start);
      if w.segs[k].dirty { r := here; } else { r := OpenedCompletes(cfg, w, start, t, k, here, steps, true); }
    }
  }

  /** From the decision to unmap to the end. */
  lemma {:induction false} ClosingCompletes(cfg: Config, w: World, start: Step, t: Tid, k: nat,
                                             here: World, steps: seq<Step>) returns (r: World)
    requires Going(cfg, w, start, t, k, here, steps) && here.Act(t) == Closing(k)
    ensures Completes(cfg, w, start, t, k, r)
    ensures var g := here.segs[k];
      r.segs[k] == g.(mapped := false, access := SC.NoAccess, mem := SC.Zeros(|g.mem|))
  {
    var at, so := Go(cfg, w, start, t, k, here, steps, Close(t));
    at, so := Go(cfg, w, start, t, k, at, so, Discard(t));
    at, so := Go(cfg, w, start, t, k, at, so, Unmap(t));
    r := at;
  }

  /** A flush ends with the segment clean and, where it was dirty, on storage as the program
      saw it; an unmapping one ends with it closed and not resident. */
  lemma {:induction false} FlushCompletes(cfg: Config, w: World, t: Tid, k: nat, unmap: bool) returns (r: World)
    requires cfg.Valid() && Idle(cfg, w, t, k)
    ensures Completes(cfg, w, FlushStart(t, k, unmap), t, k, r)
    ensures var g, h := w.segs[k], r.segs[k];
      && !h.dirty && h.mapped == (g.mapped && !unmap) && h.needRead == (g.needRead || g.dirty)
      && h.store == (if g.dirty then View(g) else g.store)
      && h.access == (if h.mapped then SC.ReadOnly else SC.NoAccess) && (h.mapped ==> h.mem == g.mem)
  {
    var start := FlushStart(t, k, unmap);
    var here, steps := Begin(cfg, w, start);
    if w.segs[k].dirty {
      here, steps := Go(cfg, w, start, t, k, here, steps, WriteOut(t));
      here, steps := Go(cfg, w, start, t, k, here, steps, ClearDirty(t));
    }
    if here.Act(t).Closing? {
      r := ClosingCompletes(cfg, w, start, t, k, here, steps);
    } else {
      if here.Act(t).Flushed? { here, steps := Go(cfg, w, start, t, k, here, steps, Shut(t)); }
      r := here;
    }
  }

  /** dropClean ends with a clean segment closed and not resident, and leaves a dirty one. */
  lemma {:induction false} DropCompletes(cfg: Config, w: World, t: Tid, k: nat) returns (r: World)
    requires cfg.Valid() && Idle(cfg, w, t, k)
    ensures Completes(cfg, w, DropStart(t, k), t, k, r)
    ensures r.segs[k].mapped == r.segs[k].dirty == w.segs[k].dirty && r.segs[k].store == w.segs[k].store
    ensures if w.segs[k].dirty then r.segs[k] == w.segs[k] else r.segs[k].access == SC.NoAccess
  {
    var here, steps := Begin(cfg, w, DropStart(t, k));
    if here.Act(t).Closing? { r := ClosingCompletes(cfg, w, DropStart(t, k), t, k, here, steps); } else { r := here; }
  }

  /** markCleanAsDirty ends with a resident segment of a writable mapping dirty, and changes
      nothing else. */
  lemma {:induction false} MarkCompletes(cfg: Config, w: World, t: Tid, k: nat) returns (r: World)
    requires cfg.Valid() && Idle(cfg, w, t, k)
    ensures Completes(cfg, w, MarkStart(t, k), t, k, r)
    ensures var g, h := w.segs[k], r.segs[k];
      if g.mapped && !g.dirty && cfg.writable then h == g.(dirty := true, access := SC.ReadWrite) else h == g
  {
    var here, steps := Begin(cfg, w, MarkStart(t, k));
    if here.Act(t).Opened? {
      r := OpenedCompletes(cfg, w, MarkStart(t, k), t, k, here, steps, true);
    } else {
      r := here;
    }
  }
}
