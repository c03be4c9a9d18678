/**
 The same mapping used by many threads. Loads and stores of the program need no lock,
 only an open page; faults, flushes, evictions, dropClean and markCleanAsDirty are split
 into the single system calls and status updates they perform between taking and giving
 back the mutexes of the segments they work on. In thread-safe mode no interleaving loses
 a write; ConcurrentLimits says exactly when the other mode can.
 */
module ConcurrentCache {
  import opened SegmentCache

  type Tid = nat

  /** `accessible` is a protection other than PROT_NONE, `threadSafe` the mode that
      disableThreadSafety switches off. */
  datatype Config = Config(segments: nat, mutexes: nat, accessible: bool, writable: bool, threadSafe: bool) {
    predicate Valid() { 0 < mutexes && (writable ==> accessible) }
    function MutexOf(k: nat): nat requires Valid() { k % mutexes }
  }

  /** One segment: its status bits, its page protection, its page and its storage bytes. */
  datatype Segment = Segment(mapped: bool, dirty: bool, needRead: bool, access: Access,
                             mem: seq<Byte>, store: seq<Byte>)

  /** Where a thread stands inside a critical section, between two steps. */
  datatype Action =
    | Rest
    | Loaded(k: nat, isWrite: bool, page: seq<Byte>)  // storage read into a private page
    | Filling(k: nat, isWrite: bool)                  // thread-unsafe load: page opened, not read yet
    | Filled(k: nat)                                  // thread-unsafe load for reading: read, still open
    | Opened(k: nat, isWrite: bool)                   // protection opened, status not updated
    | DirtySet(k: nat)                                // dirty written, mapped not yet
    | Protected(k: nat, unmap: bool)                  // flush: page made read-only
    | Written(k: nat, unmap: bool)                    // flush: pwrite done
    | Flushed(k: nat)                                 // thread-unsafe flush: about to be read-only
    | Closing(k: nat)                                 // about to be unmapped
    | Closed(k: nat)                                  // protection dropped
    | Discarded(k: nat)                               // pages given back

  datatype World = World(segs: seq<Segment>, owner: map<nat, Tid>, acts: map<Tid, Action>) {
    function Act(t: Tid): Action { if t in acts then acts[t] else Rest }
  }

  datatype Step =
    | Acquire(t: Tid, m: nat)
    | Release(t: Tid, m: nat)
    | UserStore(k: nat, j: nat, b: Byte)
    | UserLoad(k: nat, j: nat)
    | FaultCheck(t: Tid, k: nat, isWrite: bool)
    | Swap(t: Tid)
    | Fill(t: Tid)
    | Shut(t: Tid)
    | SetDirty(t: Tid)
    | SetMapped(t: Tid)
    | FlushStart(t: Tid, k: nat, unmap: bool)
    | WriteOut(t: Tid)
    | ClearDirty(t: Tid)
    | DropStart(t: Tid, k: nat)
    | MarkStart(t: Tid, k: nat)
    | Close(t: Tid)
    | Discard(t: Tid)
    | Unmap(t: Tid)

  /** Thread t is between critical sections of segments and holds the mutex of k. */
  predicate Ready(cfg: Config, w: World, t: Tid, k: nat)
    requires cfg.Valid()
  {
    && k < |w.segs| && w.Act(t) == Rest
    && cfg.MutexOf(k) in w.owner && w.owner[cfg.MutexOf(k)] == t
  }

  predicate Enabled(cfg: Config, w: World, s: Step)
    requires cfg.Valid()
  {
    match s
    case Acquire(t, m) => m < cfg.mutexes && m !in w.owner && w.Act(t) == Rest
    case Release(t, m) => m in w.owner && w.owner[m] == t && w.Act(t) == Rest
    case UserStore(k, j, _) => k < |w.segs| && j < |w.segs[k].mem| && w.segs[k].access == ReadWrite
    case UserLoad(k, j) => k < |w.segs| && j < |w.segs[k].mem| && w.segs[k].access != NoAccess
    case FaultCheck(t, k, isWrite) => Ready(cfg, w, t, k) && cfg.accessible && (isWrite ==> cfg.writable)
    case Swap(t) => w.Act(t).Loaded? && w.Act(t).k < |w.segs|
    case Fill(t) => w.Act(t).Filling? && w.Act(t).k < |w.segs|
    case Shut(t) => (w.Act(t).Filled? || w.Act(t).Flushed?) && w.Act(t).k < |w.segs|
    case SetDirty(t) => w.Act(t).Opened? && w.Act(t).isWrite && w.Act(t).k < |w.segs|
    case SetMapped(t) =>
      (w.Act(t).DirtySet? || (w.Act(t).Opened? && !w.Act(t).isWrite)) && w.Act(t).k < |w.segs|
    case FlushStart(t, k, _) => Ready(cfg, w, t, k)
    case WriteOut(t) => w.Act(t).Protected? && w.Act(t).k < |w.segs|
    case ClearDirty(t) => w.Act(t).Written? && w.Act(t).k < |w.segs|
    case DropStart(t, k) => Ready(cfg, w, t, k)
    case MarkStart(t, k) => Ready(cfg, w, t, k)
    case Close(t) => w.Act(t).Closing? && w.Act(t).k < |w.segs|
    case Discard(t) => w.Act(t).Closed? && w.Act(t).k < |w.segs|
    case Unmap(t) => w.Act(t).Discarded? && w.Act(t).k < |w.segs|
  }

  /** Thread t turns segment k into `seg` and moves on to `act`. */
  function Set(w: World, t: Tid, k: nat, seg: Segment, act: Action): World
    requires k < |w.segs|
  {
    w.(segs := w.segs[k := seg], acts := w.acts[t := act])
  }

  function Next(cfg: Config, w: World, s: Step): (r: World)
    requires cfg.Valid() && Enabled(cfg, w, s)
    ensures |r.segs| == |w.segs|
  {
    match s
    case Acquire(t, m) => w.(owner := w.owner[m := t])
    case Release(t, m) => w.(owner := w.owner - {m})
    case UserStore(k, j, b) => w.(segs := w.segs[k := w.segs[k].(mem := w.segs[k].mem[j := b])])
    case UserLoad(_, _) => w
    case FaultCheck(t, k, isWrite) =>
      var g := w.segs[k];
      if isWrite == g.dirty && g.mapped then w
      else if !g.mapped && g.needRead then
        if cfg.threadSafe then Set(w, t, k, g, Loaded(k, isWrite, g.store))
        else Set(w, t, k, g.(access := ReadWrite), Filling(k, isWrite))
      else Set(w, t, k, g.(access := if isWrite then ReadWrite else ReadOnly), Opened(k, isWrite))
    case Swap(t) =>
      var a := w.Act(t);
      Set(w, t, a.k, w.segs[a.k].(mem := a.page, access := if a.isWrite then ReadWrite else ReadOnly),
          Opened(a.k, a.isWrite))
    case Fill(t) =>
      var a := w.Act(t);
      Set(w, t, a.k, w.segs[a.k].(mem := w.segs[a.k].store), if a.isWrite then Opened(a.k, true) else Filled(a.k))
    case Shut(t) =>
      var a := w.Act(t);
      Set(w, t, a.k, w.segs[a.k].(access := ReadOnly), if a.Filled? then Opened(a.k, false) else Rest)
    case SetDirty(t) => var k := w.Act(t).k; Set(w, t, k, w.segs[k].(dirty := true), DirtySet(k))
    case SetMapped(t) => var k := w.Act(t).k; Set(w, t, k, w.segs[k].(mapped := true), Rest)
    case FlushStart(t, k, unmap) =>
      var g := w.segs[k];
      if g.dirty && g.mapped then
        Set(w, t, k, if cfg.threadSafe then g.(access := ReadOnly) else g, Protected(k, unmap))
      else if g.mapped && unmap then Set(w, t, k, g, Closing(k))
      else if g.mapped && !cfg.threadSafe then Set(w, t, k, g, Flushed(k))
      else w
    case WriteOut(t) =>
      var a := w.Act(t);
      Set(w, t, a.k, w.segs[a.k].(store := w.segs[a.k].mem), Written(a.k, a.unmap))
    case ClearDirty(t) =>
      var a := w.Act(t);
      Set(w, t, a.k, w.segs[a.k].(dirty := false, needRead := true),
          if a.unmap then Closing(a.k) else if cfg.threadSafe then Rest else Flushed(a.k))
    case DropStart(t, k) =>
      if w.segs[k].mapped && !w.segs[k].dirty then Set(w, t, k, w.segs[k], Closing(k)) else w
    case MarkStart(t, k) =>
      if w.segs[k].mapped && !w.segs[k].dirty && cfg.writable
      then Set(w, t, k, w.segs[k].(access := ReadWrite), Opened(k, true)) else w
    case Close(t) => var k := w.Act(t).k; Set(w, t, k, w.segs[k].(access := NoAccess), Closed(k))
    case Discard(t) =>
      var k := w.Act(t).k; Set(w, t, k, w.segs[k].(mem := Zeros(|w.segs[k].mem|)), Discarded(k))
    case Unmap(t) => var k := w.Act(t).k; Set(w, t, k, w.segs[k].(mapped := false), Rest)
  }

  // ---- invariant --------------------------------------------------------------

  /** The page holds nothing that storage (or zeros) could not give back. */
  predicate Clean(g: Segment) {
    g.mem == if g.needRead then g.store else Zeros(|g.mem|)
  }

  predicate AtRest(g: Segment) {
    && (g.mapped <==> g.access != NoAccess)
    && (g.access == ReadWrite ==> g.dirty)
    && (g.dirty ==> g.mapped)
    && (g.mapped && !g.dirty ==> Clean(g))
    && (!g.mapped ==> g.mem == Zeros(|g.mem|))
  }

  /** What a segment satisfies while a thread stands at `a` on it. */
  predicate Consistent(g: Segment, a: Action) {
    && |g.mem| == |g.store|
    && match a
       case Rest => AtRest(g)
       case Loaded(_, _, page) => AtRest(g) && !g.mapped && g.needRead && page == g.store
       case Filling(_, _) => false  // the next three are of the thread-unsafe mode only
       case Filled(_) => false
       case Flushed(_) => false
       case Opened(_, isWrite) =>
         if isWrite then g.access == ReadWrite
         else g.access == ReadOnly && (g.dirty ==> g.mapped) && (!g.dirty ==> Clean(g))
       case DirtySet(_) => g.access == ReadWrite && g.dirty
       case Protected(_, _) => g.mapped && g.dirty && g.access == ReadOnly
       case Written(_, _) => g.mapped && g.dirty && g.access == ReadOnly && g.mem == g.store
       case Closing(_) => g.mapped && !g.dirty && g.access == ReadOnly && Clean(g)
       case Closed(_) => g.mapped && !g.dirty && g.access == NoAccess && Clean(g)
       case Discarded(_) => g.mapped && !g.dirty && g.access == NoAccess && g.mem == Zeros(|g.mem|)
  }

  /** The action in progress on segment k: only the owner of its mutex can have one. */
  function ActionOn(cfg: Config, w: World, k: nat): Action
    requires cfg.Valid()
  {
    var m := cfg.MutexOf(k);
    if m in w.owner && !w.Act(w.owner[m]).Rest? && w.Act(w.owner[m]).k == k then w.Act(w.owner[m]) else Rest
  }

  ghost predicate Inv(cfg: Config, w: World) {
    && cfg.Valid() && cfg.threadSafe
    && (forall t: Tid :: !w.Act(t).Rest? ==>
          var k := w.Act(t).k;
          k < |w.segs| && cfg.MutexOf(k) in w.owner && w.owner[cfg.MutexOf(k)] == t)
    && (forall k: nat :: k < |w.segs| ==> Consistent(w.segs[k], ActionOn(cfg, w, k)))
  }

  /** What the program sees in a segment, whatever the threads are doing to it. */
  function View(g: Segment): seq<Byte> {
    if g.access != NoAccess then g.mem else if g.needRead then g.store else Zeros(|g.mem|)
  }

  /** The flat view: only a store of the program changes it. */
  function FlatStep(s: Step, k: nat, flat: seq<Byte>): (r: seq<Byte>)
    ensures |r| == |flat|
  {
    if s.UserStore? && s.k == k && s.j < |flat| then flat[s.j := s.b] else flat
  }

  /** A step of thread t on segment k disturbs no other segment. */
  lemma SetFrame(cfg: Config, w: World, t: Tid, k: nat, seg: Segment, act: Action)
    requires Inv(cfg, w) && k < |w.segs| && (act == Rest || act.k == k)
    requires w.Act(t) == Rest || w.Act(t).k == k
    requires cfg.MutexOf(k) in w.owner && w.owner[cfg.MutexOf(k)] == t
    requires Consistent(seg, act)
    ensures Inv(cfg, Set(w, t, k, seg, act))
  {
    var r := Set(w, t, k, seg, act);
    forall l: nat | l < |w.segs| ensures Consistent(r.segs[l], ActionOn(cfg, r, l)) {
      assert Consistent(w.segs[l], ActionOn(cfg, w, l));
      if l != k { assert ActionOn(cfg, r, l) == ActionOn(cfg, w, l); }
    }
    forall u: Tid | !r.Act(u).Rest?
      ensures var l := r.Act(u).k;
              l < |w.segs| && cfg.MutexOf(l) in r.owner && r.owner[cfg.MutexOf(l)] == u
    {
      if u != t { assert !w.Act(u).Rest?; }
    }
  }

  /** The thread and segment of a step made inside a critical section. */
  lemma Owns(cfg: Config, w: World, t: Tid)
    requires Inv(cfg, w) && !w.Act(t).Rest?
    ensures var k := w.Act(t).k;
            && k < |w.segs| && cfg.MutexOf(k) in w.owner && w.owner[cfg.MutexOf(k)] == t
            && ActionOn(cfg, w, k) == w.Act(t) && Consistent(w.segs[k], w.Act(t))
  {
    assert Consistent(w.segs[w.Act(t).k], ActionOn(cfg, w, w.Act(t).k));
  }

  lemma ReadyIsAtRest(cfg: Config, w: World, t: Tid, k: nat)
    requires Inv(cfg, w) && Ready(cfg, w, t, k)
    ensures Consistent(w.segs[k], Rest)
  {
    assert ActionOn(cfg, w, k) == Rest;
  }

  /** Taking or giving back a mutex moves no segment. */
  lemma LockSteps(cfg: Config, w: World, s: Step)
    requires Inv(cfg, w) && Enabled(cfg, w, s) && (s.Acquire? || s.Release?)
    ensures Inv(cfg, Next(cfg, w, s))
  {
    var r := Next(cfg, w, s);
    forall l: nat | l < |w.segs| ensures Consistent(r.segs[l], ActionOn(cfg, r, l)) {
      assert Consistent(w.segs[l], ActionOn(cfg, w, l));
      assert ActionOn(cfg, r, l) == ActionOn(cfg, w, l);
    }
    forall u: Tid | !r.Act(u).Rest?
      ensures var l := r.Act(u).k;
              l < |w.segs| && cfg.MutexOf(l) in r.owner && r.owner[cfg.MutexOf(l)] == u
    {
      assert !w.Act(u).Rest?;
    }
  }

  /** A store of the program may hit a segment in the middle of any critical section:
      it finds the page open for writing only where the pending dirty bit covers it. */
  lemma StoreStep(cfg: Config, w: World, k: nat, j: nat, b: Byte)
    requires Inv(cfg, w) && Enabled(cfg, w, UserStore(k, j, b))
    ensures Inv(cfg, Next(cfg, w, UserStore(k, j, b)))
  {
    var r := Next(cfg, w, UserStore(k, j, b));
    forall l: nat | l < |w.segs| ensures Consistent(r.segs[l], ActionOn(cfg, r, l)) {
      assert Consistent(w.segs[l], ActionOn(cfg, w, l));
      assert ActionOn(cfg, r, l) == ActionOn(cfg, w, l);
    }
    forall u: Tid | !r.Act(u).Rest?
      ensures var l := r.Act(u).k;
              l < |w.segs| && cfg.MutexOf(l) in r.owner && r.owner[cfg.MutexOf(l)] == u
    {
      assert !w.Act(u).Rest?;
    }
  }

  predicate Starts(s: Step) { s.FaultCheck? || s.FlushStart? || s.DropStart? || s.MarkStart? }

  lemma StartSteps(cfg: Config, w: World, s: Step)
    requires Inv(cfg, w) && Enabled(cfg, w, s) && Starts(s)
    ensures Inv(cfg, Next(cfg, w, s))
    ensures View(Next(cfg, w, s).segs[s.k]) == View(w.segs[s.k])
  {
    var r := Next(cfg, w, s);
    ReadyIsAtRest(cfg, w, s.t, s.k);
    if r != w {
      assert r == Set(w, s.t, s.k, r.segs[s.k], r.Act(s.t));
      SetFrame(cfg, w, s.t, s.k, r.segs[s.k], r.Act(s.t));
    }
  }

  predicate Continues(s: Step) {
    || s.Swap? || s.Fill? || s.Shut? || s.SetDirty? || s.SetMapped? || s.WriteOut? || s.ClearDirty?
    || s.Close? || s.Discard? || s.Unmap?
  }

  lemma ContinueSteps(cfg: Config, w: World, s: Step)
    requires Inv(cfg, w) && Enabled(cfg, w, s) && Continues(s)
    ensures Inv(cfg, Next(cfg, w, s))
    ensures var k := w.Act(s.t).k; View(Next(cfg, w, s).segs[k]) == View(w.segs[k])
  {
    var r, k := Next(cfg, w, s), w.Act(s.t).k;
    Owns(cfg, w, s.t);
    assert r == Set(w, s.t, k, r.segs[k], r.Act(s.t));
    SetFrame(cfg, w, s.t, k, r.segs[k], r.Act(s.t));
  }

  /** Every step of every thread keeps the invariant, and every view but the one the
      program itself stores to. */
  lemma StepInvisible(cfg: Config, w: World, s: Step, k: nat)
    requires Inv(cfg, w) && Enabled(cfg, w, s) && k < |w.segs|
    ensures Inv(cfg, Next(cfg, w, s))
    ensures View(Next(cfg, w, s).segs[k]) == FlatStep(s, k, View(w.segs[k]))
  {
    if s.Acquire? || s.Release? { LockSteps(cfg, w, s); }
    else if s.UserStore? { StoreStep(cfg, w, s.k, s.j, s.b); }
    else if Starts(s) { StartSteps(cfg, w, s); }
    else if Continues(s) { ContinueSteps(cfg, w, s); }
  }

  // ---- runs -------------------------------------------------------------------

  predicate CanRun(cfg: Config, w: World, steps: seq<Step>)
    requires cfg.Valid()
    decreases |steps|
  {
    steps == [] || (Enabled(cfg, w, steps[0]) && CanRun(cfg, Next(cfg, w, steps[0]), steps[1..]))
  }

  function Run(cfg: Config, w: World, steps: seq<Step>): (r: World)
    requires cfg.Valid() && CanRun(cfg, w, steps)
    ensures |r.segs| == |w.segs|
    decreases |steps|
  {
    if steps == [] then w else Run(cfg, Next(cfg, w, steps[0]), steps[1..])
  }

  function FlatRun(steps: seq<Step>, k: nat, flat: seq<Byte>): (r: seq<Byte>)
    ensures |r| == |flat|
  {
    if steps == [] then flat else FlatRun(steps[1..], k, FlatStep(steps[0], k, flat))
  }

  /** No lost write: under every interleaving each segment shows exactly the program's
      own stores, in order. */
  lemma {:induction false} RunInvisible(cfg: Config, w: World, steps: seq<Step>, k: nat)
    requires Inv(cfg, w) && CanRun(cfg, w, steps) && k < |w.segs|
    ensures Inv(cfg, Run(cfg, w, steps))
    ensures View(Run(cfg, w, steps).segs[k]) == FlatRun(steps, k, View(w.segs[k]))
    decreases |steps|
  {
    if steps != [] {
      StepInvisible(cfg, w, steps[0], k);
      RunInvisible(cfg, Next(cfg, w, steps[0]), steps[1..], k);
    }
  }

  /** A mapping just built, no mutex taken. */
  predicate Initial(cfg: Config, w: World) {
    && cfg.Valid() && w.owner == map[] && w.acts == map[] && |w.segs| == cfg.segments
    && forall k :: 0 <= k < |w.segs| ==>
         var g := w.segs[k];
         !g.mapped && !g.dirty && g.access == NoAccess && |g.mem| == |g.store| && g.mem == Zeros(|g.mem|)
  }

  lemma InitialInv(cfg: Config, w: World)
    requires Initial(cfg, w) && cfg.threadSafe
    ensures Inv(cfg, w)
  {
    forall l: nat | l < |w.segs| ensures Consistent(w.segs[l], ActionOn(cfg, w, l)) {}
  }

  /** What holds of a segment nobody works on, after any run: a writable page is mapped
      and dirty, and a clean one can be dropped without losing anything. */
  lemma UnlockedSegmentSafe(cfg: Config, w: World, steps: seq<Step>, k: nat)
    requires Initial(cfg, w) && cfg.threadSafe && CanRun(cfg, w, steps) && k < |w.segs|
    requires cfg.MutexOf(k) !in Run(cfg, w, steps).owner
    ensures var g := Run(cfg, w, steps).segs[k];
      && (g.access == ReadWrite ==> g.mapped && g.dirty)
      && (g.mapped && !g.dirty ==> Clean(g))
      && View(g) == (if g.mapped then g.mem else if g.needRead then g.store else Zeros(|g.mem|))
      && View(g) == FlatRun(steps, k, View(w.segs[k]))
  {
    InitialInv(cfg, w);
    RunInvisible(cfg, w, steps, k);
    var r := Run(cfg, w, steps);
    assert Consistent(r.segs[k], ActionOn(cfg, r, k));
  }

  /** When a flush declares a segment clean, storage holds exactly what the program sees. */
  lemma ClearedIsDurable(cfg: Config, w: World, t: Tid)
    requires Inv(cfg, w) && Enabled(cfg, w, ClearDirty(t))
    ensures var k := w.Act(t).k; w.segs[k].store == View(w.segs[k])
  {
    Owns(cfg, w, t);
  }
}
