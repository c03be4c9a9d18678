/**
 The whole library under one thread: many mappings, each with its cache, and the policies
 they use, each of any kind and shared by any mappings. A fault loads the segment, then
 notifies the policies of the mapping one by one; each chooses its victims, and every
 eviction tells the other policies of the victim's mapping and flushes its segment. The
 program sees one plain byte array per mapping, in what it loads and in what is left.
 */
module MappedProgram {
  import SC = SegmentCache
  import CR = CacheRuns
  import RD = CacheRedirect
  import opened PolicyLists
  import opened PolicyKinds

  /** `uses` are the policies of the mapping in the order they are notified: the local one
      and the global one, where present. */
  datatype Mapped = Mapped(g: SC.Geometry, c: SC.Cache, uses: seq<nat>)

  datatype System = System(maps: map<nat, Mapped>, policies: map<nat, AnyPolicy>)

  /** How an operation ends: done; stopped by the bound on victims; stopped by an assertion
      of the source; or left faulting on the same access. */
  datatype Outcome<T> = Done(value: T) | Aborted | AssertionFailed | FaultsAgain

  predicate Uses(sys: System, m: nat, p: nat) { m in sys.maps && p in sys.maps[m].uses }

  /** The segment exists, with the size of the segments of its mapping. */
  predicate Known(sys: System, v: Seg) {
    && v.mapping in sys.maps
    && var x := sys.maps[v.mapping];
       SC.Shaped(x.g, x.c) && v.index < x.g.Segments() && v.size == x.g.segmentSize
  }

  // ---- evictions and notifications --------------------------------------------------

  /** What notifyEvict asserts of the policies it is sent to. */
  predicate ListedByOthers(sys: System, source: nat, v: Seg) {
    forall p :: p in sys.policies && p != source && Uses(sys, v.mapping, p) ==> Has(sys.policies[p], v)
  }

  function ForgottenBy(sys: System, source: nat, v: Seg, p: nat): AnyPolicy
    requires p in sys.policies
  {
    if p != source && Uses(sys, v.mapping, p) then Forget(sys.policies[p], v) else sys.policies[p]
  }

  /** Mapping::evict. */
  function Evict(sys: System, source: nat, v: Seg): Outcome<System> {
    if !Known(sys, v) || !ListedByOthers(sys, source, v) then AssertionFailed
    else
      var x := sys.maps[v.mapping];
      Done(System(sys.maps[v.mapping := x.(c := SC.FlushSegment(x.g, x.c, v.index, true))],
                  map p | p in sys.policies :: ForgottenBy(sys, source, v, p)))
  }

  function EvictEach(sys: System, source: nat, victims: seq<Seg>): Outcome<System>
    decreases |victims|
  {
    if victims == [] then Done(sys)
    else
      var r := Evict(sys, source, victims[0]);
      if r.Done? then EvictEach(r.value, source, victims[1..]) else r
  }

  /** notifyTouch of one policy and the evictions it orders. A segment larger than the
      policy was refused when its mapping was registered. */
  function TouchOne(sys: System, p: nat, s: Seg): Outcome<System> {
    if p !in sys.policies || !Accepts(sys.policies[p], s.size) then AssertionFailed
    else
      var victims := VictimsOf(sys.policies[p], s);
      if |victims| >= MAX_VICTIMS then Aborted
      else EvictEach(sys.(policies := sys.policies[p := Touch(sys.policies[p], s)]), p, victims)
  }

  function TouchEach(sys: System, ps: seq<nat>, s: Seg): Outcome<System>
    decreases |ps|
  {
    if ps == [] then Done(sys)
    else
      var r := TouchOne(sys, ps[0], s);
      if r.Done? then TouchEach(r.value, ps[1..], s) else r
  }

  /** The segment behind byte i of a mapping. */
  function SegmentAt(sys: System, m: nat, i: nat): Seg
    requires m in sys.maps && sys.maps[m].g.Valid()
  {
    Seg(m, sys.maps[m].g.SegmentOf(i), sys.maps[m].g.segmentSize)
  }

  predicate InMapping(sys: System, m: nat, i: nat) {
    m in sys.maps && SC.Shaped(sys.maps[m].g, sys.maps[m].c) && i < sys.maps[m].g.Aligned()
  }

  function WithCache(sys: System, m: nat, c: SC.Cache): System
    requires m in sys.maps
  {
    sys.(maps := sys.maps[m := sys.maps[m].(c := c)])
  }

  /** onSegmentationFault. */
  function Fault(sys: System, m: nat, i: nat, isWrite: bool): Outcome<System>
    requires InMapping(sys, m, i)
  {
    var x, s := sys.maps[m], SegmentAt(sys, m, i);
    TouchEach(WithCache(sys, m, SC.Fault(x.g, x.c, s.index, isWrite)), x.uses, s)
  }

  predicate Granted(sys: System, m: nat, i: nat, isWrite: bool) {
    InMapping(sys, m, i) && CR.Granted(sys.maps[m].g, sys.maps[m].c, i, isWrite)
  }

  /** One access of the processor, tried again after its fault. */
  function Access(sys: System, m: nat, i: nat, isWrite: bool): Outcome<System>
    requires InMapping(sys, m, i)
  {
    if Granted(sys, m, i, isWrite) then Done(sys)
    else
      var r := Fault(sys, m, i, isWrite);
      if r.Done? && !Granted(r.value, m, i, isWrite) then FaultsAgain else r
  }

  // ---- programs ------------------------------------------------------------------------

  datatype Op =
    | Load(m: nat, i: nat)
    | Store(m: nat, i: nat, b: SC.Byte)
    | Manage(m: nat, op: CR.Op)   // flush, dropClean or markCleanAsDirty of a mapping

  predicate Allowed(sys: System, op: Op) {
    match op
    case Load(m, i) => InMapping(sys, m, i) && sys.maps[m].g.Permits(false)
    case Store(m, i, _) => InMapping(sys, m, i) && sys.maps[m].g.Permits(true)
    case Manage(m, o) =>
      && InMapping(sys, m, 0) && CR.Allowed(sys.maps[m].g, o)
      && (o.Flush? || o.DropCleanPages? || o.MarkDirty?)
  }

  function Instruction(sys: System, op: Op): Outcome<System>
    requires Allowed(sys, op)
  {
    match op
    case Load(m, i) => Access(sys, m, i, false)
    case Store(m, i, b) =>
      var r := Access(sys, m, i, true);
      if r.Done? && Granted(r.value, m, i, true) then
        var c := r.value.maps[m].c;
        Done(WithCache(r.value, m, c.(memory := c.memory[i := b])))
      else r
    case Manage(m, o) => Done(WithCache(sys, m, CR.Step(sys.maps[m].g, sys.maps[m].c, o)))
  }

  /** What a load inside the mapping returns. */
  function Loaded(sys: System, op: Op): seq<SC.Byte> {
    if op.Load? && InMapping(sys, op.m, op.i) && op.i < sys.maps[op.m].g.size
    then [sys.maps[op.m].c.memory[op.i]] else []
  }

  /** The state after a program and the bytes its loads returned, in order. */
  function Run(sys: System, ops: seq<Op>): Outcome<(System, seq<SC.Byte>)> {
    if ops == [] then Done((sys, []))
    else
      var before, op := Run(sys, ops[..|ops| - 1]), ops[|ops| - 1];
      if !before.Done? then before
      else if !Allowed(before.value.0, op) then AssertionFailed
      else
        match Instruction(before.value.0, op)
        case Done(r) => Done((r, before.value.1 + Loaded(r, op)))
        case Aborted => Aborted
        case AssertionFailed => AssertionFailed
        case FaultsAgain => FaultsAgain
  }

  // ---- the reference: plain arrays --------------------------------------------------------

  type Arrays = map<nat, seq<SC.Byte>>

  function PlainStep(arrays: Arrays, op: Op): Arrays {
    if op.Store? && op.m in arrays && op.i < |arrays[op.m]| then arrays[op.m := arrays[op.m][op.i := op.b]]
    else arrays
  }

  function PlainLoad(arrays: Arrays, op: Op): seq<SC.Byte> {
    if op.Load? && op.m in arrays && op.i < |arrays[op.m]| then [arrays[op.m][op.i]] else []
  }

  function PlainRun(arrays: Arrays, ops: seq<Op>): (Arrays, seq<SC.Byte>) {
    if ops == [] then (arrays, [])
    else
      var before, op := PlainRun(arrays, ops[..|ops| - 1]), ops[|ops| - 1];
      (PlainStep(before.0, op), before.1 + PlainLoad(before.0, op))
  }

  // ---- invariant ---------------------------------------------------------------------------

  predicate Resident(sys: System, x: Seg) {
    Known(sys, x) && sys.maps[x.mapping].c.status[x.index].mapped
  }

  ghost predicate Somewhere(sys: System, x: Seg) {
    Resident(sys, x) || exists p :: p in sys.policies && Has(sys.policies[p], x)
  }

  ghost predicate Everywhere(sys: System, x: Seg) {
    forall p :: p in sys.policies && Uses(sys, x.mapping, p) ==> Has(sys.policies[p], x)
  }

  /** A segment that is resident, or listed by some policy, is listed by all policies of
      its mapping. */
  ghost predicate Settled(sys: System, x: Seg) { Somewhere(sys, x) ==> Everywhere(sys, x) }

  /** A policy lists only segments of mappings that use it. */
  ghost predicate ListsOwn(sys: System, p: nat)
    requires p in sys.policies
  {
    forall x :: Has(sys.policies[p], x) ==> Known(sys, x) && Uses(sys, x.mapping, p)
  }

  /** Limits of at least one segment. */
  ghost predicate Serves(sys: System, m: nat)
    requires m in sys.maps
  {
    forall p :: p in sys.maps[m].uses ==> p in sys.policies && Fits(sys.policies[p], sys.maps[m].g.segmentSize)
  }

  ghost predicate Sound(sys: System) {
    && (forall m :: m in sys.maps ==> SC.Inv(sys.maps[m].g, sys.maps[m].c) && Serves(sys, m))
    && (forall p :: p in sys.policies ==> Ok(sys.policies[p]) && ListsOwn(sys, p))
  }

  ghost predicate Inv(sys: System) { Sound(sys) && forall x :: Settled(sys, x) }

  /** A victim on its way out: gone from the policy that chose it, listed by the others. */
  ghost predicate Leaving(sys: System, source: nat, v: Seg) {
    && Known(sys, v) && source in sys.policies && !Has(sys.policies[source], v)
    && ListedByOthers(sys, source, v)
  }

  /** In the middle of a touch of s: the policies `done` list it already, and `victims`
      still have to be evicted for `source`. */
  ghost predicate Mid(sys: System, s: Seg, done: set<nat>, source: nat, victims: seq<Seg>) {
    && Sound(sys) && Known(sys, s) && NoDup(victims) && s !in victims
    && (forall p :: p in done && p in sys.policies ==> Has(sys.policies[p], s))
    && (forall x {:trigger Settled(sys, x)} :: x != s && x !in victims ==> Settled(sys, x))
    && (forall i :: 0 <= i < |victims| ==> Leaving(sys, source, victims[i]))
  }

  function ViewOf(x: Mapped): seq<SC.Byte>
    requires SC.Shaped(x.g, x.c)
  {
    SC.View(x.g, x.c)
  }

  /** A mapping keeps its shape, its view and the storage outside its window. */
  ghost predicate SameMapping(x: Mapped, y: Mapped) {
    && y.g == x.g && y.uses == x.uses && SC.Shaped(x.g, x.c) && SC.Shaped(y.g, y.c)
    && ViewOf(y) == ViewOf(x) && SC.SameOutside(x.g, x.c.storage, y.c.storage)
  }

  /** Nothing the program can see has changed, and the page of s is as open as before. */
  ghost predicate Quietly(sys: System, r: System, s: Seg) {
    && r.maps.Keys == sys.maps.Keys && r.policies.Keys == sys.policies.Keys
    && (forall m :: m in sys.maps ==> SameMapping(sys.maps[m], r.maps[m]))
    && (Known(sys, s) ==> Known(r, s) && PageOf(r, s) == PageOf(sys, s))
  }

  function PageOf(sys: System, s: Seg): SC.Access
    requires Known(sys, s)
  {
    sys.maps[s.mapping].c.access[s.index]
  }

  /** Two mappings share a policy, and a segment of one is more than 127 times as large as a
      segment of the other. */
  ghost predicate Lopsided(sys: System) {
    exists p, m, n :: Uses(sys, m, p) && Uses(sys, n, p)
      && sys.maps[m].g.segmentSize > (MAX_VICTIMS - 1) * sys.maps[n].g.segmentSize
  }

  /** The mappings keep their geometry and their policies. */
  ghost predicate SameLayout(sys: System, r: System) {
    && r.maps.Keys == sys.maps.Keys
    && forall m :: m in sys.maps ==> r.maps[m].g == sys.maps[m].g && r.maps[m].uses == sys.maps[m].uses
  }

  lemma {:induction false} LopsidedBefore(sys: System, r: System)
    requires SameLayout(sys, r) && Lopsided(r)
    ensures Lopsided(sys)
  {
    var p, m, n :| Uses(r, m, p) && Uses(r, n, p)
      && r.maps[m].g.segmentSize > (MAX_VICTIMS - 1) * r.maps[n].g.segmentSize;
    assert Uses(sys, m, p) && Uses(sys, n, p);
  }

  lemma {:induction false} QuietlyLayout(sys: System, r: System, s: Seg)
    requires Quietly(sys, r, s)
    ensures SameLayout(sys, r)
  {
    forall m | m in sys.maps ensures r.maps[m].g == sys.maps[m].g && r.maps[m].uses == sys.maps[m].uses {
      assert SameMapping(sys.maps[m], r.maps[m]);
    }
  }

  lemma {:induction false} FewChosen(sys: System, p: nat, s: Seg)
    requires Sound(sys) && Known(sys, s) && Uses(sys, s.mapping, p) && !Lopsided(sys)
    ensures p in sys.policies && Fits(sys.policies[p], s.size)
    ensures |VictimsOf(sys.policies[p], s)| < MAX_VICTIMS
  {
    ServedFits(sys, p, s);
    forall x | Has(sys.policies[p], x) ensures s.size <= (MAX_VICTIMS - 1) * x.size {
      assert ListsOwn(sys, p);
      assert Known(sys, x) && Uses(sys, x.mapping, p);
    }
    ComparableFew(sys.policies[p], s);
  }

  // ---- one eviction --------------------------------------------------------------------------

  lemma {:induction false} FlushedSame(x: Mapped, k: nat)
    requires SC.Inv(x.g, x.c) && k < x.g.Segments()
    ensures SameMapping(x, x.(c := SC.FlushSegment(x.g, x.c, k, true)))
    ensures forall j: nat :: j < x.g.Segments() && j != k ==>
              SC.FlushSegment(x.g, x.c, k, true).access[j] == x.c.access[j]
  {
    SC.FlushSegmentInvisible(x.g, x.c, k, true);
  }

  lemma {:induction false} EvictCaches(sys: System, source: nat, v: Seg, s: Seg)
    requires Sound(sys) && Known(sys, v) && s != v && ListedByOthers(sys, source, v)
    ensures Quietly(sys, Evict(sys, source, v).value, s)
  {
    var r := Evict(sys, source, v).value;
    forall m | m in sys.maps ensures SameMapping(sys.maps[m], r.maps[m]) {
      assert SC.Inv(sys.maps[m].g, sys.maps[m].c);
      if m == v.mapping { FlushedSame(sys.maps[m], v.index); }
    }
    FlushedSame(sys.maps[v.mapping], v.index);
  }

  lemma {:induction false} EvictInv(sys: System, source: nat, v: Seg, m: nat)
    requires Sound(sys) && Known(sys, v) && ListedByOthers(sys, source, v) && m in sys.maps
    ensures var y := Evict(sys, source, v).value.maps[m]; SC.Inv(y.g, y.c)
  {
    var x := sys.maps[v.mapping];
    assert SC.Inv(sys.maps[m].g, sys.maps[m].c);
    SC.FlushSegmentInvisible(x.g, x.c, v.index, true);
  }

  /** Only the victim stops being resident. */
  lemma {:induction false} EvictResident(sys: System, source: nat, v: Seg, x: Seg)
    requires Sound(sys) && Known(sys, v) && ListedByOthers(sys, source, v)
    ensures var r := Evict(sys, source, v).value;
      && (Known(r, x) <==> Known(sys, x)) && (x != v ==> (Resident(r, x) <==> Resident(sys, x)))
      && !Resident(r, v)
  {
    var y := sys.maps[v.mapping];
    SC.FlushSegmentInvisible(y.g, y.c, v.index, true);
  }

  lemma {:induction false} EvictPolicies(sys: System, source: nat, v: Seg, p: nat)
    requires Sound(sys) && Leaving(sys, source, v) && p in sys.policies
    ensures var r := Evict(sys, source, v).value;
      && p in r.policies && Ok(r.policies[p]) && !Has(r.policies[p], v)
      && (forall x {:trigger Has(r.policies[p], x)} :: x != v ==> (Has(r.policies[p], x) <==> Has(sys.policies[p], x)))
      && (forall size :: Fits(r.policies[p], size) <==> Fits(sys.policies[p], size))
  {
    ForgetOk(sys.policies[p], v);
    forall size ensures Fits(Forget(sys.policies[p], v), size) <==> Fits(sys.policies[p], size) {
      SameFits(sys.policies[p], v, size);
    }
    assert ListsOwn(sys, p);
  }

  lemma {:induction false} EvictSound(sys: System, source: nat, v: Seg)
    requires Sound(sys) && Leaving(sys, source, v)
    ensures Evict(sys, source, v).Done? && Sound(Evict(sys, source, v).value)
  {
    var r := Evict(sys, source, v).value;
    forall p | p in r.policies ensures Ok(r.policies[p]) && ListsOwn(r, p) {
      EvictPolicies(sys, source, v, p);
      assert ListsOwn(sys, p);
      forall x | Has(r.policies[p], x) ensures Known(r, x) && Uses(r, x.mapping, p) {
        EvictResident(sys, source, v, x);
      }
    }
    forall m | m in r.maps ensures SC.Inv(r.maps[m].g, r.maps[m].c) && Serves(r, m) {
      EvictInv(sys, source, v, m);
      assert Serves(sys, m);
      forall p | p in r.maps[m].uses ensures p in r.policies && Fits(r.policies[p], r.maps[m].g.segmentSize) {
        EvictPolicies(sys, source, v, p);
      }
    }
  }

  lemma {:induction false} EvictSettled(sys: System, source: nat, v: Seg, x: Seg)
    requires Sound(sys) && Leaving(sys, source, v) && (x != v ==> Settled(sys, x))
    ensures Settled(Evict(sys, source, v).value, x)
  {
    var r := Evict(sys, source, v).value;
    EvictResident(sys, source, v, x);
    forall p | p in sys.policies
      ensures !Has(r.policies[p], v) && (x != v ==> (Has(r.policies[p], x) <==> Has(sys.policies[p], x)))
    {
      EvictPolicies(sys, source, v, p);
    }
  }

  lemma {:induction false} RestSettled(sys: System, s: Seg, done: set<nat>, source: nat, victims: seq<Seg>, x: Seg)
    requires Mid(sys, s, done, source, victims) && victims != [] && x != s && x !in victims[1..]
    ensures Settled(Evict(sys, source, victims[0]).value, x)
  {
    var v := victims[0];
    assert Leaving(sys, source, v);
    if x != v {
      assert x !in victims;
      assert Settled(sys, x);
    }
    EvictSettled(sys, source, v, x);
  }

  lemma {:induction false} RestLeaving(sys: System, s: Seg, done: set<nat>, source: nat, victims: seq<Seg>, i: nat)
    requires Mid(sys, s, done, source, victims) && 0 < i < |victims|
    ensures Leaving(Evict(sys, source, victims[0]).value, source, victims[i])
  {
    assert Leaving(sys, source, victims[0]) && Leaving(sys, source, victims[i]);
    StillLeaving(sys, source, victims[0], victims[i]);
  }

  lemma {:induction false} DoneStays(sys: System, s: Seg, done: set<nat>, source: nat, v: Seg, p: nat)
    requires Sound(sys) && Leaving(sys, source, v) && s != v && p in sys.policies && Has(sys.policies[p], s)
    ensures Has(Evict(sys, source, v).value.policies[p], s)
  {
    EvictPolicies(sys, source, v, p);
  }

  /** The three quantified parts of `Mid`, after one eviction. */
  lemma {:induction false} RestKept(sys: System, s: Seg, done: set<nat>, source: nat, victims: seq<Seg>)
    requires Mid(sys, s, done, source, victims) && victims != [] && Evict(sys, source, victims[0]).Done?
    ensures var r, rest := Evict(sys, source, victims[0]).value, victims[1..];
      && (forall p :: p in done && p in r.policies ==> Has(r.policies[p], s))
      && (forall x {:trigger Settled(r, x)} :: x != s && x !in rest ==> Settled(r, x))
      && (forall i :: 0 <= i < |rest| ==> Leaving(r, source, rest[i]))
  {
    var r, rest := Evict(sys, source, victims[0]).value, victims[1..];
    forall x | x != s && x !in rest ensures Settled(r, x) { RestSettled(sys, s, done, source, victims, x); }
    forall p | p in done && p in r.policies ensures Has(r.policies[p], s) {
      assert Leaving(sys, source, victims[0]);
      DoneStays(sys, s, done, source, victims[0], p);
    }
    forall i | 0 <= i < |rest| ensures Leaving(r, source, rest[i]) {
      RestLeaving(sys, s, done, source, victims, i + 1);
    }
  }

  lemma {:induction false} EvictKeeps(sys: System, s: Seg, done: set<nat>, source: nat, victims: seq<Seg>)
    requires Mid(sys, s, done, source, victims) && victims != []
    ensures var r := Evict(sys, source, victims[0]);
      r.Done? && Mid(r.value, s, done, source, victims[1..]) && Quietly(sys, r.value, s)
  {
    assert Leaving(sys, source, victims[0]);
    EvictSound(sys, source, victims[0]);
    EvictCaches(sys, source, victims[0], s);
    RestKept(sys, s, done, source, victims);
  }

  lemma {:induction false} StillLeaving(sys: System, source: nat, v: Seg, u: Seg)
    requires Sound(sys) && Leaving(sys, source, v) && Leaving(sys, source, u) && u != v
    ensures Leaving(Evict(sys, source, v).value, source, u)
  {
    var r := Evict(sys, source, v).value;
    EvictResident(sys, source, v, u);
    forall p | p in sys.policies ensures Has(r.policies[p], u) <==> Has(sys.policies[p], u) {
      EvictPolicies(sys, source, v, p);
    }
  }

  lemma {:induction false} QuietlyTrans(a: System, b: System, c: System, s: Seg)
    requires Quietly(a, b, s) && Quietly(b, c, s)
    ensures Quietly(a, c, s)
  {
    forall m | m in a.maps ensures SameMapping(a.maps[m], c.maps[m]) {
      assert SameMapping(a.maps[m], b.maps[m]) && SameMapping(b.maps[m], c.maps[m]);
    }
  }

  lemma {:induction false} EvictEachKeeps(sys: System, s: Seg, done: set<nat>, source: nat, victims: seq<Seg>)
    requires Mid(sys, s, done, source, victims)
    ensures var r := EvictEach(sys, source, victims);
      r.Done? && Mid(r.value, s, done, source, []) && Quietly(sys, r.value, s)
    decreases |victims|
  {
    if victims != [] {
      EvictKeeps(sys, s, done, source, victims);
      var r := Evict(sys, source, victims[0]).value;
      EvictEachKeeps(r, s, done, source, victims[1..]);
      QuietlyTrans(sys, r, EvictEach(r, source, victims[1..]).value, s);
    }
  }

  // ---- one touch -------------------------------------------------------------------------------

  /** The policy has taken the segment in and chosen its victims. */
  function Chosen(sys: System, p: nat, s: Seg): System
    requires p in sys.policies && Fits(sys.policies[p], s.size)
  {
    sys.(policies := sys.policies[p := Touch(sys.policies[p], s)])
  }

  lemma {:induction false} ChosenPolicy(sys: System, p: nat, s: Seg)
    requires Sound(sys) && Known(sys, s) && Uses(sys, s.mapping, p)
    ensures p in sys.policies && Fits(sys.policies[p], s.size)
    ensures Exchanges(sys.policies[p], s, Touch(sys.policies[p], s), VictimsOf(sys.policies[p], s))
  {
    assert Serves(sys, s.mapping);
    TouchExchanges(sys.policies[p], s);
  }

  lemma {:induction false} ChosenSound(sys: System, p: nat, s: Seg)
    requires Sound(sys) && Known(sys, s) && Uses(sys, s.mapping, p) && p in sys.policies
    requires Fits(sys.policies[p], s.size)
    ensures Sound(Chosen(sys, p, s))
  {
    var r := Chosen(sys, p, s);
    ChosenPolicy(sys, p, s);
    forall q | q in r.policies ensures Ok(r.policies[q]) && ListsOwn(r, q) {
      assert ListsOwn(sys, q);
      forall x | Has(r.policies[q], x) ensures Known(r, x) && Uses(r, x.mapping, q) {
        if q == p && x != s { assert Has(sys.policies[p], x); }
      }
    }
    forall m | m in r.maps ensures Serves(r, m) {
      assert Serves(sys, m);
      SameFits(sys.policies[p], s, r.maps[m].g.segmentSize);
    }
  }

  lemma {:induction false} ChosenSettled(sys: System, p: nat, s: Seg, x: Seg)
    requires Sound(sys) && Known(sys, s) && Uses(sys, s.mapping, p) && p in sys.policies
    requires Fits(sys.policies[p], s.size) && Settled(sys, x) && x != s && x !in VictimsOf(sys.policies[p], s)
    ensures Settled(Chosen(sys, p, s), x)
  {
    var r := Chosen(sys, p, s);
    ChosenPolicy(sys, p, s);
    assert Has(r.policies[p], x) <==> Has(sys.policies[p], x);
    forall q | q in sys.policies ensures Has(r.policies[q], x) <==> Has(sys.policies[q], x) {}
    assert Resident(r, x) <==> Resident(sys, x);
  }

  lemma {:induction false} ChosenLeaving(sys: System, p: nat, s: Seg, v: Seg)
    requires Sound(sys) && Known(sys, s) && Uses(sys, s.mapping, p) && p in sys.policies
    requires Fits(sys.policies[p], s.size) && v in VictimsOf(sys.policies[p], s) && Settled(sys, v)
    ensures Leaving(Chosen(sys, p, s), p, v)
  {
    var r := Chosen(sys, p, s);
    ChosenPolicy(sys, p, s);
    assert ListsOwn(sys, p) && Has(sys.policies[p], v);
    assert Everywhere(sys, v);
    assert !Has(r.policies[p], v);
  }

  lemma {:induction false} ChosenMid(sys: System, s: Seg, done: set<nat>, p: nat)
    requires Mid(sys, s, done, p, []) && Uses(sys, s.mapping, p) && p in sys.policies
    requires Fits(sys.policies[p], s.size)
    ensures Mid(Chosen(sys, p, s), s, done + {p}, p, VictimsOf(sys.policies[p], s))
  {
    var r, victims := Chosen(sys, p, s), VictimsOf(sys.policies[p], s);
    ChosenPolicy(sys, p, s);
    ChosenSound(sys, p, s);
    forall x | x != s && x !in victims ensures Settled(r, x) {
      assert Settled(sys, x);
      ChosenSettled(sys, p, s, x);
    }
    forall i | 0 <= i < |victims| ensures Leaving(r, p, victims[i]) {
      assert victims[i] in victims;
      assert Settled(sys, victims[i]);
      ChosenLeaving(sys, p, s, victims[i]);
    }
  }

  lemma {:induction false} MidSource(sys: System, s: Seg, done: set<nat>, p: nat, q: nat)
    requires Mid(sys, s, done, p, [])
    ensures Mid(sys, s, done, q, [])
  {
  }

  lemma {:induction false} ServedFits(sys: System, p: nat, s: Seg)
    requires Sound(sys) && Known(sys, s) && Uses(sys, s.mapping, p)
    ensures p in sys.policies && Fits(sys.policies[p], s.size)
  {
    assert Serves(sys, s.mapping);
  }

  lemma {:induction false} ChosenQuietly(sys: System, p: nat, s: Seg)
    requires Sound(sys) && p in sys.policies && Fits(sys.policies[p], s.size)
    ensures Quietly(sys, Chosen(sys, p, s), s)
  {
  }

  lemma {:induction false} EvictQuietly(sys: System, s: Seg, done: set<nat>, p: nat, t: System, victims: seq<Seg>)
    requires Mid(t, s, done, p, victims) && Quietly(sys, t, s)
    ensures var r := EvictEach(t, p, victims);
      r.Done? && Mid(r.value, s, done, p, []) && Quietly(sys, r.value, s)
  {
    EvictEachKeeps(t, s, done, p, victims);
    QuietlyTrans(sys, t, EvictEach(t, p, victims).value, s);
  }

  lemma {:induction false} ChosenEvicted(sys: System, s: Seg, done: set<nat>, p: nat)
    requires Mid(sys, s, done, p, []) && Uses(sys, s.mapping, p)
    ensures p in sys.policies && Fits(sys.policies[p], s.size)
    ensures var r := EvictEach(Chosen(sys, p, s), p, VictimsOf(sys.policies[p], s));
      r.Done? && Mid(r.value, s, done + {p}, p, []) && Quietly(sys, r.value, s)
  {
    ServedFits(sys, p, s);
    ChosenMid(sys, s, done, p);
    ChosenQuietly(sys, p, s);
    EvictQuietly(sys, s, done + {p}, p, Chosen(sys, p, s), VictimsOf(sys.policies[p], s));
  }

  lemma {:induction false} StopsIfLopsided(sys: System, p: nat, s: Seg)
    requires Sound(sys) && Known(sys, s) && Uses(sys, s.mapping, p)
    ensures p in sys.policies && Fits(sys.policies[p], s.size)
    ensures |VictimsOf(sys.policies[p], s)| >= MAX_VICTIMS ==> Lopsided(sys)
  {
    ServedFits(sys, p, s);
    if !Lopsided(sys) { FewChosen(sys, p, s); }
  }

  lemma {:induction false} TouchOneKeeps(sys: System, s: Seg, done: set<nat>, p: nat)
    requires Mid(sys, s, done, p, []) && Uses(sys, s.mapping, p)
    ensures var r := TouchOne(sys, p, s);
      || (r.Aborted? && Lopsided(sys))
      || (r.Done? && Mid(r.value, s, done + {p}, p, []) && Quietly(sys, r.value, s))
  {
    StopsIfLopsided(sys, p, s);
    if |VictimsOf(sys.policies[p], s)| < MAX_VICTIMS { ChosenEvicted(sys, s, done, p); }
  }

  lemma {:induction false} QuietlySelf(sys: System, s: Seg)
    requires Sound(sys)
    ensures Quietly(sys, sys, s)
  {
  }

  function Elements(ps: seq<nat>): set<nat> { set p | p in ps }

  lemma {:induction false} ElementsNext(done: set<nat>, ps: seq<nat>)
    ensures ps == [] ==> done + Elements(ps) == done
    ensures ps != [] ==> done + {ps[0]} + Elements(ps[1..]) == done + Elements(ps)
  {
  }

  predicate UsesAll(sys: System, m: nat, ps: seq<nat>) { forall i :: 0 <= i < |ps| ==> Uses(sys, m, ps[i]) }

  lemma {:induction false} UsesRest(sys: System, r: System, s: Seg, ps: seq<nat>)
    requires Known(sys, s) && Quietly(sys, r, s) && ps != [] && UsesAll(sys, s.mapping, ps)
    ensures UsesAll(r, s.mapping, ps[1..])
  {
    assert SameMapping(sys.maps[s.mapping], r.maps[s.mapping]);
    forall i | 0 <= i < |ps| - 1 ensures Uses(r, s.mapping, ps[1..][i]) { assert Uses(sys, s.mapping, ps[i + 1]); }
  }

  lemma {:induction false} TouchFirst(sys: System, s: Seg, done: set<nat>, p: nat)
    requires Mid(sys, s, done, 0, []) && Uses(sys, s.mapping, p)
    ensures var r := TouchOne(sys, p, s);
      || (r.Aborted? && Lopsided(sys))
      || (r.Done? && Mid(r.value, s, done + {p}, 0, []) && Quietly(sys, r.value, s))
  {
    MidSource(sys, s, done, 0, p);
    TouchOneKeeps(sys, s, done, p);
    var r := TouchOne(sys, p, s);
    if r.Done? { MidSource(r.value, s, done + {p}, p, 0); }
  }

  ghost predicate TouchGood(sys: System, s: Seg, all: set<nat>, r: Outcome<System>) {
    (r.Aborted? && Lopsided(sys)) || (r.Done? && Quietly(sys, r.value, s) && Mid(r.value, s, all, 0, []))
  }

  lemma {:induction false} TouchedTrans(sys: System, t: System, s: Seg, all: set<nat>, r: Outcome<System>)
    requires Quietly(sys, t, s) && TouchGood(t, s, all, r)
    ensures TouchGood(sys, s, all, r)
  {
    if r.Done? {
      QuietlyTrans(sys, t, r.value, s);
    } else {
      QuietlyLayout(sys, t, s);
      LopsidedBefore(sys, t);
    }
  }

  lemma {:induction false} TouchEachKeeps(sys: System, s: Seg, done: set<nat>, ps: seq<nat>)
    requires Mid(sys, s, done, 0, []) && UsesAll(sys, s.mapping, ps)
    ensures TouchGood(sys, s, done + Elements(ps), TouchEach(sys, ps, s))
    decreases |ps|
  {
    ElementsNext(done, ps);
    if ps == [] {
      QuietlySelf(sys, s);
    } else {
      TouchFirst(sys, s, done, ps[0]);
      var r := TouchOne(sys, ps[0], s);
      if r.Done? {
        UsesRest(sys, r.value, s, ps);
        TouchEachKeeps(r.value, s, done + {ps[0]}, ps[1..]);
        TouchedTrans(sys, r.value, s, done + Elements(ps), TouchEach(r.value, ps[1..], s));
      }
    }
  }

  // ---- one access ---------------------------------------------------------------------------------

  /** Once all its policies list the segment the invariant is back. */
  lemma {:induction false} MidEnds(sys: System, s: Seg, all: set<nat>, q: nat)
    requires Mid(sys, s, all, q, []) && forall p :: Uses(sys, s.mapping, p) ==> p in all
    ensures Inv(sys)
  {
    forall x ensures Settled(sys, x) {
      if x == s { assert Everywhere(sys, s); }
    }
  }

  /** Only the faulting segment becomes resident. */
  lemma {:induction false} FaultSettled(sys: System, m: nat, c: SC.Cache, s: Seg, y: Seg)
    requires Sound(sys) && m in sys.maps && Settled(sys, y) && y != s && s.mapping == m && Known(sys, s)
    requires SC.Shaped(sys.maps[m].g, c)
    requires forall k: nat :: k < sys.maps[m].g.Segments() && k != s.index ==> c.status[k] == sys.maps[m].c.status[k]
    ensures Settled(WithCache(sys, m, c), y)
  {
    assert SC.Inv(sys.maps[m].g, sys.maps[m].c);
    assert Resident(WithCache(sys, m, c), y) <==> Resident(sys, y);
  }

  lemma {:induction false} FaultSound(sys: System, m: nat, c: SC.Cache)
    requires Sound(sys) && m in sys.maps && SC.Inv(sys.maps[m].g, c)
    ensures Sound(WithCache(sys, m, c))
  {
    var t := WithCache(sys, m, c);
    assert SC.Inv(sys.maps[m].g, sys.maps[m].c);
    forall n | n in t.maps ensures SC.Inv(t.maps[n].g, t.maps[n].c) && Serves(t, n) { assert Serves(sys, n); }
    forall p | p in t.policies ensures ListsOwn(t, p) { assert ListsOwn(sys, p); }
  }

  lemma {:induction false} FaultMid(sys: System, m: nat, i: nat, isWrite: bool)
    requires Inv(sys) && InMapping(sys, m, i) && sys.maps[m].g.Permits(isWrite) && !Granted(sys, m, i, isWrite)
    ensures var x, s := sys.maps[m], SegmentAt(sys, m, i);
      var t := WithCache(sys, m, SC.Fault(x.g, x.c, s.index, isWrite));
      Mid(t, s, {}, 0, []) && Granted(t, m, i, isWrite) && SameSystem(sys, t)
  {
    var x, s := sys.maps[m], SegmentAt(sys, m, i);
    var c := SC.Fault(x.g, x.c, s.index, isWrite);
    assert SC.Inv(x.g, x.c);
    SC.FaultInvisible(x.g, x.c, s.index, isWrite);
    FaultSound(sys, m, c);
    forall y | y != s ensures Settled(WithCache(sys, m, c), y) { FaultSettled(sys, m, c, s, y); }
    FaultSame(sys, m, c);
  }

  lemma {:induction false} FaultSame(sys: System, m: nat, c: SC.Cache)
    requires Sound(sys) && m in sys.maps && SC.Shaped(sys.maps[m].g, c)
    requires SC.View(sys.maps[m].g, c) == SC.View(sys.maps[m].g, sys.maps[m].c) && c.storage == sys.maps[m].c.storage
    ensures SameSystem(sys, WithCache(sys, m, c))
  {
    forall n | n in sys.maps ensures SameMapping(sys.maps[n], WithCache(sys, m, c).maps[n]) {
      assert SC.Inv(sys.maps[n].g, sys.maps[n].c);
    }
  }

  ghost predicate SameSystem(sys: System, r: System) {
    r.maps.Keys == sys.maps.Keys && forall m :: m in sys.maps ==> SameMapping(sys.maps[m], r.maps[m])
  }

  lemma {:induction false} FaultEnds(sys: System, t: System, r: System, m: nat, i: nat, isWrite: bool, s: Seg)
    requires SameSystem(sys, t) && Granted(t, m, i, isWrite) && s == SegmentAt(t, m, i) && Quietly(t, r, s)
    requires Known(t, s) && Mid(r, s, {} + Elements(t.maps[m].uses), 0, [])
    ensures Inv(r) && Granted(r, m, i, isWrite) && SameSystem(sys, r)
  {
    assert SameMapping(t.maps[m], r.maps[m]);
    MidEnds(r, s, {} + Elements(t.maps[m].uses), 0);
    assert PageOf(r, s) == PageOf(t, s);
    forall n | n in sys.maps ensures SameMapping(sys.maps[n], r.maps[n]) {
      assert SameMapping(sys.maps[n], t.maps[n]) && SameMapping(t.maps[n], r.maps[n]);
    }
  }

  lemma {:induction false} FaultKeeps(sys: System, m: nat, i: nat, isWrite: bool)
    requires Inv(sys) && InMapping(sys, m, i) && sys.maps[m].g.Permits(isWrite) && !Granted(sys, m, i, isWrite)
    ensures var r := Fault(sys, m, i, isWrite);
      || (r.Aborted? && Lopsided(sys))
      || (r.Done? && Inv(r.value) && Granted(r.value, m, i, isWrite) && SameSystem(sys, r.value))
  {
    var x, s := sys.maps[m], SegmentAt(sys, m, i);
    var t := WithCache(sys, m, SC.Fault(x.g, x.c, s.index, isWrite));
    FaultMid(sys, m, i, isWrite);
    TouchEachKeeps(t, s, {}, x.uses);
    var r := TouchEach(t, x.uses, s);
    if r.Done? { FaultEnds(sys, t, r.value, m, i, isWrite, s); }
    if Lopsided(t) { LopsidedBefore(sys, t); }
  }

  /** An access completes after at most one fault, unless a policy overruns its buffer, which
      takes segments of very different sizes. */
  lemma {:induction false} AccessKeeps(sys: System, m: nat, i: nat, isWrite: bool)
    requires Inv(sys) && InMapping(sys, m, i) && sys.maps[m].g.Permits(isWrite)
    ensures var r := Access(sys, m, i, isWrite);
      || (r.Aborted? && Lopsided(sys))
      || (r.Done? && Inv(r.value) && Granted(r.value, m, i, isWrite) && SameSystem(sys, r.value))
  {
    if Granted(sys, m, i, isWrite) {
      QuietlySelf(sys, SegmentAt(sys, m, i));
    } else {
      FaultKeeps(sys, m, i, isWrite);
    }
  }

  // ---- whole programs ---------------------------------------------------------------------------

  function Views(sys: System): Arrays
    requires forall m :: m in sys.maps ==> SC.Shaped(sys.maps[m].g, sys.maps[m].c)
  {
    map m | m in sys.maps :: ViewOf(sys.maps[m])
  }

  /** Geometry stays, so what is allowed stays allowed. */
  ghost predicate SameShape(sys: System, r: System) {
    && r.maps.Keys == sys.maps.Keys
    && forall m :: m in sys.maps ==>
         && r.maps[m].g == sys.maps[m].g && r.maps[m].uses == sys.maps[m].uses
         && SC.Shaped(sys.maps[m].g, sys.maps[m].c)
         && SC.Shaped(r.maps[m].g, r.maps[m].c)
         && SC.SameOutside(sys.maps[m].g, sys.maps[m].c.storage, r.maps[m].c.storage)
  }

  /** A change of one cache that makes no segment resident keeps the invariant. */
  lemma {:induction false} CacheChanged(sys: System, m: nat, c: SC.Cache)
    requires Inv(sys) && m in sys.maps && SC.Inv(sys.maps[m].g, c)
    requires forall k: nat :: k < sys.maps[m].g.Segments() && c.status[k].mapped ==> sys.maps[m].c.status[k].mapped
    ensures Inv(WithCache(sys, m, c))
  {
    var r := WithCache(sys, m, c);
    assert SC.Inv(sys.maps[m].g, sys.maps[m].c);
    forall n | n in r.maps ensures SC.Inv(r.maps[n].g, r.maps[n].c) && Serves(r, n) { assert Serves(sys, n); }
    forall p | p in r.policies ensures ListsOwn(r, p) { assert ListsOwn(sys, p); }
    forall x ensures Settled(r, x) {
      assert Settled(sys, x);
      assert Resident(r, x) ==> Resident(sys, x);
    }
  }

  /** Flushes, dropClean and markCleanAsDirty make nothing resident. */
  lemma {:induction false} ManageMapsNothing(g: SC.Geometry, c: SC.Cache, op: CR.Op, k: nat)
    requires SC.Shaped(g, c) && CR.Allowed(g, op) && (op.Flush? || op.DropCleanPages? || op.MarkDirty?)
    requires k < g.Segments() && CR.Step(g, c, op).status[k].mapped
    ensures c.status[k].mapped
  {
    match op
    case Flush(offset, length, unmap) =>
      CR.FlushBounds(g, offset, length);
      CR.FlushRangeAt(g, c, offset / g.segmentSize, (offset + length) / g.segmentSize, unmap);
    case DropCleanPages => RD.DropCleanAt(g, c, g.Segments());
    case MarkDirty => RD.MarkAt(g, c, g.Segments());
  }

  ghost predicate Refines(sys: System, op: Op, r: System) {
    && Inv(sys) && Inv(r) && SameShape(sys, r)
    && Views(r) == PlainStep(Views(sys), op) && Loaded(r, op) == PlainLoad(Views(sys), op)
  }

  lemma {:induction false} SameViews(sys: System, r: System)
    requires SameSystem(sys, r)
    ensures SameShape(sys, r) && Views(r) == Views(sys)
  {
    forall m | m in sys.maps ensures SameMapping(sys.maps[m], r.maps[m]) {}
  }

  ghost predicate AllShaped(sys: System) {
    forall m :: m in sys.maps ==> SC.Shaped(sys.maps[m].g, sys.maps[m].c)
  }

  lemma {:induction false} InvShaped(sys: System)
    requires Inv(sys)
    ensures AllShaped(sys)
  {
    forall m | m in sys.maps ensures SC.Shaped(sys.maps[m].g, sys.maps[m].c) {
      assert SC.Inv(sys.maps[m].g, sys.maps[m].c);
    }
  }

  lemma {:induction false} OneShape(sys: System, m: nat, c: SC.Cache)
    requires AllShaped(sys) && m in sys.maps && SC.Shaped(sys.maps[m].g, c)
    requires SC.SameOutside(sys.maps[m].g, sys.maps[m].c.storage, c.storage)
    ensures SameShape(sys, WithCache(sys, m, c))
  {
    forall n | n in sys.maps ensures SC.SameOutside(sys.maps[n].g, sys.maps[n].c.storage, sys.maps[n].c.storage) {}
  }

  lemma {:induction false} OneView(sys: System, m: nat, c: SC.Cache)
    requires AllShaped(sys) && m in sys.maps && SC.Shaped(sys.maps[m].g, c)
    ensures AllShaped(WithCache(sys, m, c))
    ensures Views(WithCache(sys, m, c)) == Views(sys)[m := SC.View(sys.maps[m].g, c)]
  {
    var r := WithCache(sys, m, c);
    forall n | n in r.maps ensures SC.Shaped(r.maps[n].g, r.maps[n].c) {}
  }

  lemma {:induction false} Unchanged(arrays: Arrays, m: nat)
    requires m in arrays
    ensures arrays[m := arrays[m]] == arrays
  {
  }

  lemma {:induction false} ManageInv(sys: System, op: Op)
    requires Inv(sys) && op.Manage? && Allowed(sys, op)
    ensures var x := sys.maps[op.m];
      var c := CR.Step(x.g, x.c, op.op);
      && Inv(WithCache(sys, op.m, c)) && SC.View(x.g, c) == ViewOf(x)
      && SC.SameOutside(x.g, x.c.storage, c.storage)
  {
    var x := sys.maps[op.m];
    var c := CR.Step(x.g, x.c, op.op);
    assert SC.Inv(x.g, x.c);
    CR.StepRefines(x.g, x.c, op.op);
    forall k: nat | k < x.g.Segments() && c.status[k].mapped ensures x.c.status[k].mapped {
      ManageMapsNothing(x.g, x.c, op.op, k);
    }
    CacheChanged(sys, op.m, c);
  }

  lemma {:induction false} ManageViews(sys: System, m: nat, c: SC.Cache)
    requires AllShaped(sys) && m in sys.maps && SC.Shaped(sys.maps[m].g, c)
    requires SC.View(sys.maps[m].g, c) == ViewOf(sys.maps[m])
    ensures AllShaped(WithCache(sys, m, c)) && Views(WithCache(sys, m, c)) == Views(sys)
  {
    OneView(sys, m, c);
    Unchanged(Views(sys), m);
  }

  lemma {:induction false} ManageRefines(sys: System, op: Op)
    requires Inv(sys) && op.Manage? && Allowed(sys, op)
    ensures Refines(sys, op, Instruction(sys, op).value)
  {
    var x := sys.maps[op.m];
    var c := CR.Step(x.g, x.c, op.op);
    InvShaped(sys);
    ManageInv(sys, op);
    ManageViews(sys, op.m, c);
    OneShape(sys, op.m, c);
  }

  /** A page that is open holds the view. */
  lemma {:induction false} LoadedByte(r: System, op: Op)
    requires Inv(r) && op.Load? && Granted(r, op.m, op.i, false)
    requires forall m :: m in r.maps ==> SC.Shaped(r.maps[m].g, r.maps[m].c)
    ensures Loaded(r, op) == PlainLoad(Views(r), op)
  {
    var y := r.maps[op.m];
    assert SC.Inv(y.g, y.c);
    assert SC.Mirrors(y.g, y.c, y.g.SegmentOf(op.i));
  }

  lemma {:induction false} LoadRefines(sys: System, op: Op)
    requires Inv(sys) && op.Load? && Allowed(sys, op)
    ensures var r := Instruction(sys, op); (r.Aborted? && Lopsided(sys)) || (r.Done? && Refines(sys, op, r.value))
  {
    AccessKeeps(sys, op.m, op.i, false);
    var r := Access(sys, op.m, op.i, false);
    if r.Done? {
      SameViews(sys, r.value);
      LoadedByte(r.value, op);
    }
  }

  lemma {:induction false} StoreRefines(sys: System, op: Op)
    requires Inv(sys) && op.Store? && Allowed(sys, op)
    ensures var r := Instruction(sys, op); (r.Aborted? && Lopsided(sys)) || (r.Done? && Refines(sys, op, r.value))
  {
    AccessKeeps(sys, op.m, op.i, true);
    var a := Access(sys, op.m, op.i, true);
    if a.Done? { StoreOpen(sys, a.value, op); }
  }

  function Stored(a: System, op: Op): SC.Cache
    requires op.Store? && InMapping(a, op.m, op.i)
  {
    a.maps[op.m].c.(memory := a.maps[op.m].c.memory[op.i := op.b])
  }

  lemma {:induction false} StoreInv(a: System, op: Op)
    requires Inv(a) && op.Store? && Granted(a, op.m, op.i, true)
    ensures var x, c := a.maps[op.m], Stored(a, op);
      && Inv(WithCache(a, op.m, c)) && SC.Shaped(x.g, c)
      && SC.View(x.g, c) == if op.i < x.g.size then ViewOf(x)[op.i := op.b] else ViewOf(x)
  {
    var x, c := a.maps[op.m], Stored(a, op);
    assert SC.Inv(x.g, x.c);
    CR.WriteThrough(x.g, x.c, op.i, op.b);
    CacheChanged(a, op.m, c);
  }

  lemma {:induction false} StoreViews(a: System, op: Op, c: SC.Cache)
    requires AllShaped(a) && op.Store? && op.m in a.maps && SC.Shaped(a.maps[op.m].g, c)
    requires var x := a.maps[op.m];
      SC.View(x.g, c) == if op.i < x.g.size then ViewOf(x)[op.i := op.b] else ViewOf(x)
    ensures AllShaped(WithCache(a, op.m, c)) && Views(WithCache(a, op.m, c)) == PlainStep(Views(a), op)
  {
    OneView(a, op.m, c);
    Unchanged(Views(a), op.m);
  }

  lemma {:induction false} StoreOpen(sys: System, a: System, op: Op)
    requires Inv(sys) && Inv(a) && SameSystem(sys, a) && op.Store? && Granted(a, op.m, op.i, true)
    ensures Refines(sys, op, WithCache(a, op.m, Stored(a, op)))
  {
    var c := Stored(a, op);
    SameViews(sys, a);
    InvShaped(a);
    StoreInv(a, op);
    StoreViews(a, op, c);
    OneShape(a, op.m, c);
    SameShapeTrans(sys, a, WithCache(a, op.m, c));
  }

  lemma {:induction false} InstructionRefines(sys: System, op: Op)
    requires Inv(sys) && Allowed(sys, op)
    ensures var r := Instruction(sys, op); (r.Aborted? && Lopsided(sys)) || (r.Done? && Refines(sys, op, r.value))
  {
    match op
    case Load(_, _) => LoadRefines(sys, op);
    case Store(_, _, _) => StoreRefines(sys, op);
    case Manage(_, _) => ManageRefines(sys, op);
  }

  lemma {:induction false} SameShapeTrans(a: System, b: System, c: System)
    requires SameShape(a, b) && SameShape(b, c)
    ensures SameShape(a, c)
  {
  }

  lemma {:induction false} AllowedStays(sys: System, r: System, op: Op)
    requires SameShape(sys, r) && Allowed(sys, op)
    ensures Allowed(r, op)
  {
  }

  /** Every program, over all mappings and policies of any kind with limits of at least one
      segment: no assertion fails and no access faults for ever, and the loads return and the
      mappings show exactly what plain byte arrays would. Only mappings that share a policy
      while a segment of one is more than 127 times as large as one of the other can make a
      policy overrun its buffer and stop the process; see `PolicyKinds.OverrunsExactly`. */
  lemma {:induction false} SystemIsPlain(sys: System, ops: seq<Op>)
    requires Inv(sys) && forall j :: 0 <= j < |ops| ==> Allowed(sys, ops[j])
    ensures var r, plain := Run(sys, ops), PlainRun(Views(sys), ops);
      || (r.Aborted? && Lopsided(sys))
      || (r.Done? && Inv(r.value.0) && SameShape(sys, r.value.0)
          && Views(r.value.0) == plain.0 && r.value.1 == plain.1)
  {
    if ops == [] {
      forall m | m in sys.maps ensures SC.Shaped(sys.maps[m].g, sys.maps[m].c) {}
    } else {
      var before, op := ops[..|ops| - 1], ops[|ops| - 1];
      SystemIsPlain(sys, before);
      var b := Run(sys, before);
      if b.Done? {
        AllowedStays(sys, b.value.0, op);
        InstructionRefines(b.value.0, op);
        var r := Instruction(b.value.0, op);
        if r.Done? { SameShapeTrans(sys, b.value.0, r.value); } else { LopsidedBefore(sys, b.value.0); }
      }
    }
  }

  /** With one segment size per policy nothing stops a program. */
  lemma {:induction false} OneSizeNeverStops(sys: System, ops: seq<Op>)
    requires Inv(sys) && forall j :: 0 <= j < |ops| ==> Allowed(sys, ops[j])
    requires forall p, m, n :: Uses(sys, m, p) && Uses(sys, n, p) ==>
               sys.maps[m].g.segmentSize == sys.maps[n].g.segmentSize
    ensures AllShaped(sys)
    ensures var r, plain := Run(sys, ops), PlainRun(Views(sys), ops);
      r.Done? && AllShaped(r.value.0) && Views(r.value.0) == plain.0 && r.value.1 == plain.1
  {
    InvShaped(sys);
    SystemIsPlain(sys, ops);
    NotLopsided(sys);
    InvShaped(Run(sys, ops).value.0);
  }

  lemma {:induction false} NotLopsided(sys: System)
    requires Sound(sys)
    requires forall p, m, n :: Uses(sys, m, p) && Uses(sys, n, p) ==>
               sys.maps[m].g.segmentSize == sys.maps[n].g.segmentSize
    ensures !Lopsided(sys)
  {
    forall p, m, n | Uses(sys, m, p) && Uses(sys, n, p)
      ensures sys.maps[m].g.segmentSize <= (MAX_VICTIMS - 1) * sys.maps[n].g.segmentSize
    {
      assert SC.Inv(sys.maps[n].g, sys.maps[n].c);
    }
  }

  /** Managing one mapping touches no other mapping and no policy. */
  lemma {:induction false} ManageFrame(sys: System, m: nat, o: CR.Op)
    requires Allowed(sys, Manage(m, o))
    ensures var r := Instruction(sys, Manage(m, o));
      && r.Done? && r.value.policies == sys.policies && r.value.maps.Keys == sys.maps.Keys
      && (forall n :: n in sys.maps && n != m ==> r.value.maps[n] == sys.maps[n])
      && r.value.maps[m].g == sys.maps[m].g && r.value.maps[m].uses == sys.maps[m].uses
  {
  }

  /** After a flush instruction the bytes of its range are on storage as the program saw them. */
  lemma {:induction false} FlushInstruction(sys: System, m: nat, offset: nat, length: nat, unmap: bool)
    requires Inv(sys) && Allowed(sys, Manage(m, CR.Flush(offset, length, unmap)))
    ensures var r := Instruction(sys, Manage(m, CR.Flush(offset, length, unmap)));
      && r.Done? && m in r.value.maps && SC.Shaped(sys.maps[m].g, r.value.maps[m].c)
      && CR.DurableIn(sys.maps[m].g, sys.maps[m].c, r.value.maps[m].c, offset, length, unmap)
  {
    assert SC.Inv(sys.maps[m].g, sys.maps[m].c);
    CR.StepFlushDurable(sys.maps[m].g, sys.maps[m].c, offset, length, unmap);
  }

  /** After dropClean exactly the dirty segments of the mapping are resident; after
      markCleanAsDirty on a writable one every resident segment is dirty. */
  lemma {:induction false} SweepInstructions(sys: System, m: nat, k: nat)
    requires Inv(sys) && m in sys.maps && sys.maps[m].g.Valid() && k < sys.maps[m].g.Segments()
    ensures SC.Shaped(sys.maps[m].g, sys.maps[m].c)
    ensures var r := Instruction(sys, Manage(m, CR.DropCleanPages));
      && r.Done? && m in r.value.maps && k < |r.value.maps[m].c.status|
      && (r.value.maps[m].c.status[k].mapped <==> sys.maps[m].c.status[k].dirty)
    ensures var r := Instruction(sys, Manage(m, CR.MarkDirty));
      && r.Done? && m in r.value.maps && k < |r.value.maps[m].c.status|
      && (r.value.maps[m].c.status[k].dirty <==>
            if sys.maps[m].g.protection.write then sys.maps[m].c.status[k].mapped else sys.maps[m].c.status[k].dirty)
  {
    var x := sys.maps[m];
    assert SC.Inv(x.g, x.c);
    assert SC.Mirrors(x.g, x.c, k);
    RD.StepDrops(x.g, x.c);
    RD.StepMarks(x.g, x.c);
  }

  /** New mappings and empty policies whose limits are at least one segment. */
  ghost predicate Initial(sys: System) {
    && (forall m :: m in sys.maps ==> Serves(sys, m) && IsFresh(sys.maps[m]))
    && (forall p :: p in sys.policies ==> Ok(sys.policies[p]) && forall x :: !Has(sys.policies[p], x))
  }

  ghost predicate IsFresh(x: Mapped) {
    && x.g.Valid() && x.g.storageOffset + x.g.size <= |x.c.storage|
    && exists noFirstRead :: x.c == SC.Fresh(x.g, x.c.storage, noFirstRead)
  }

  lemma {:induction false} InitialInv(sys: System)
    requires Initial(sys)
    ensures Inv(sys)
  {
    forall m | m in sys.maps ensures SC.Inv(sys.maps[m].g, sys.maps[m].c) {
      var x := sys.maps[m];
      var noFirstRead :| x.c == SC.Fresh(x.g, x.c.storage, noFirstRead);
      SC.FreshView(x.g, x.c.storage, noFirstRead);
    }
    forall x ensures Settled(sys, x) {
      if x.mapping in sys.maps { assert IsFresh(sys.maps[x.mapping]); }
    }
  }

  /** After every program each resident segment is listed by every policy of its mapping,
      and the lists of policies that share mappings agree on them. */
  lemma {:induction false} ResidentListed(sys: System, ops: seq<Op>, x: Seg, p: nat)
    requires Initial(sys) && (forall j :: 0 <= j < |ops| ==> Allowed(sys, ops[j])) && Run(sys, ops).Done?
    requires var r := Run(sys, ops).value.0; Uses(r, x.mapping, p) && Somewhere(r, x)
    ensures var r := Run(sys, ops).value.0; p in r.policies && Has(r.policies[p], x) && Ok(r.policies[p])
  {
    InitialInv(sys);
    SystemIsPlain(sys, ops);
    var r := Run(sys, ops).value.0;
    assert Settled(r, x) && Serves(r, x.mapping);
  }
}
