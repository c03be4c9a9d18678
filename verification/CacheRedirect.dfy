/**
 Redirecting a mapping to another storage: copy-on-write (the resident or stored bytes
 are first copied to the new storage) and switch (nothing is copied, the clean resident
 segments are dropped, marked dirty or left as they are).
 */
module CacheRedirect {
  import opened SegmentCache
  import opened CacheRuns

  /** The byte that a copy sends for position i: what is on storage, except that clean
      resident data is taken from memory. */
  function CopiedByte(g: Geometry, c: Cache, i: nat): Byte
    requires Shaped(g, c) && i < g.size
  {
    var st := c.status[g.SegmentOf(i)];
    if st.mapped && !st.dirty then c.memory[i] else c.storage[g.storageOffset + i]
  }

  /** Bytes of segment k that a copy limited to `limit` bytes sends. */
  function CopySize(g: Geometry, limit: nat, k: nat): (n: nat)
    requires g.Valid() && g.Start(k) < limit <= g.size
    ensures g.Start(k) + n <= limit && n <= g.segmentSize
    ensures n == g.segmentSize || g.Start(k) + n == limit
  {
    if g.Start(k) + g.segmentSize > limit then limit - g.Start(k) else g.segmentSize
  }

  /** The new storage after the first m rounds of copyMappedPart. */
  function CopyRounds(g: Geometry, c: Cache, target: seq<Byte>, limit: nat, m: nat): (r: seq<Byte>)
    requires Shaped(g, c) && limit <= g.size && g.storageOffset + g.size <= |target|
    requires Within(g, limit, m)
    ensures |r| == |target|
  {
    if m == 0 then target
    else
      FewerRounds(g, limit, m);
      CopyRound(g, c, CopyRounds(g, c, target, limit, m - 1), limit, m - 1)
  }

  /** The m-th round, if any, starts below the limit. */
  predicate Within(g: Geometry, limit: nat, m: nat) {
    m == 0 || g.Start(m - 1) < limit
  }

  lemma FewerRounds(g: Geometry, limit: nat, m: nat)
    requires 0 < m && Within(g, limit, m)
    ensures Within(g, limit, m - 1)
  {
    if m > 1 { StartMono(g, m - 2, m - 1); }
  }

  /** What round k sends. */
  function CopySource(g: Geometry, c: Cache, limit: nat, k: nat): (data: seq<Byte>)
    requires Shaped(g, c) && g.Start(k) < limit <= g.size
    ensures |data| == CopySize(g, limit, k)
  {
    var at, n := g.Start(k), CopySize(g, limit, k);
    StartBelow(g, k, at, g.Segments());
    var st := c.status[k];
    if st.mapped && !st.dirty then c.memory[at..at + n]
    else c.storage[g.storageOffset + at..g.storageOffset + at + n]
  }

  function CopyRound(g: Geometry, c: Cache, target: seq<Byte>, limit: nat, k: nat): (r: seq<Byte>)
    requires Shaped(g, c) && g.Start(k) < limit <= g.size && g.storageOffset + g.size <= |target|
    ensures |r| == |target|
  {
    Splice(target, g.storageOffset + g.Start(k), CopySource(g, c, limit, k))
  }

  lemma {:induction false} CopyRoundOutside(g: Geometry, c: Cache, target: seq<Byte>, limit: nat, k: nat)
    requires Shaped(g, c) && g.Start(k) < limit <= g.size && g.storageOffset + g.size <= |target|
    ensures SameOutside(g, target, CopyRound(g, c, target, limit, k))
  {
  }

  lemma CopyRoundByte(g: Geometry, c: Cache, target: seq<Byte>, limit: nat, k: nat, i: nat)
    requires Shaped(g, c) && g.Start(k) < limit <= g.size && g.storageOffset + g.size <= |target| && i < g.size
    ensures CopyRound(g, c, target, limit, k)[g.storageOffset + i]
         == if g.SegmentOf(i) == k && i < limit then CopiedByte(g, c, i) else target[g.storageOffset + i]
  {
    SegmentUnique(g, i, k);
    var at, data := g.Start(k), CopySource(g, c, limit, k);
    if g.SegmentOf(i) == k && i < limit { assert data[i - at] == CopiedByte(g, c, i); }
    assert at <= i < at + |data| <==> g.SegmentOf(i) == k && i < limit;
  }

  /** Byte i of the target after m rounds. */
  predicate RoundsByte(g: Geometry, c: Cache, target: seq<Byte>, r: seq<Byte>, limit: nat, m: nat, i: nat)
    requires Shaped(g, c) && g.storageOffset + g.size <= |target| == |r| && i < g.size
  {
    r[g.storageOffset + i]
    == if g.SegmentOf(i) < m && i < limit then CopiedByte(g, c, i) else target[g.storageOffset + i]
  }

  lemma {:induction false} CopyRoundsByte(g: Geometry, c: Cache, target: seq<Byte>, limit: nat, m: nat, i: nat)
    requires Shaped(g, c) && limit <= g.size && g.storageOffset + g.size <= |target|
    requires Within(g, limit, m) && i < g.size
    ensures RoundsByte(g, c, target, CopyRounds(g, c, target, limit, m), limit, m, i)
  {
    if m > 0 {
      FewerRounds(g, limit, m);
      CopyRoundsByte(g, c, target, limit, m - 1, i);
      LastRoundByte(g, c, target, CopyRounds(g, c, target, limit, m - 1), limit, m - 1, i);
    }
  }

  lemma {:induction false} LastRoundByte(g: Geometry, c: Cache, target: seq<Byte>, r: seq<Byte>, limit: nat, k: nat,
                                         i: nat)
    requires Shaped(g, c) && g.Start(k) < limit <= g.size && g.storageOffset + g.size <= |target| == |r|
    requires i < g.size && RoundsByte(g, c, target, r, limit, k, i)
    ensures RoundsByte(g, c, target, CopyRound(g, c, r, limit, k), limit, k + 1, i)
  {
    CopyRoundByte(g, c, r, limit, k, i);
  }

  lemma {:induction false} CopyRoundsOutside(g: Geometry, c: Cache, target: seq<Byte>, limit: nat, m: nat)
    requires Shaped(g, c) && limit <= g.size && g.storageOffset + g.size <= |target|
    requires Within(g, limit, m)
    ensures SameOutside(g, target, CopyRounds(g, c, target, limit, m))
  {
    if m > 0 {
      FewerRounds(g, limit, m);
      CopyRoundsOutside(g, c, target, limit, m - 1);
      CopyRoundOutside(g, c, CopyRounds(g, c, target, limit, m - 1), limit, m - 1);
    }
  }

  /** After m rounds exactly the bytes below `limit` of the first m segments are copied. */
  lemma {:induction false} CopyRoundsAt(g: Geometry, c: Cache, target: seq<Byte>, limit: nat, m: nat)
    requires Shaped(g, c) && limit <= g.size && g.storageOffset + g.size <= |target|
    requires Within(g, limit, m)
    ensures var r := CopyRounds(g, c, target, limit, m);
      && SameOutside(g, target, r)
      && forall i: nat :: i < g.size ==>
           r[g.storageOffset + i] == if g.SegmentOf(i) < m && i < limit then CopiedByte(g, c, i)
                                     else target[g.storageOffset + i]
  {
    CopyRoundsOutside(g, c, target, limit, m);
    forall i: nat | i < g.size
      ensures CopyRounds(g, c, target, limit, m)[g.storageOffset + i]
           == if g.SegmentOf(i) < m && i < limit then CopiedByte(g, c, i) else target[g.storageOffset + i]
    {
      CopyRoundsByte(g, c, target, limit, m, i);
    }
  }

  /** Copy-on-write with the size its callers pass, then redirection of the driver. */
  function Cow(g: Geometry, c: Cache, target: seq<Byte>): (r: Cache)
    requires Shaped(g, c) && g.storageOffset + g.size <= |target|
    ensures Shaped(g, r)
  {
    c.(storage := CopyRounds(g, c, target, g.size, g.Segments()))
  }

  /** Copy-on-write changes nothing the user sees; the invariant now holds against the
      new storage and the dirty segments are still to be written to it. */
  lemma CowInvisible(g: Geometry, c: Cache, target: seq<Byte>)
    requires Inv(g, c) && g.storageOffset + g.size <= |target|
    ensures var r := Cow(g, c, target);
      && Inv(g, r) && View(g, r) == View(g, c) && r.status == c.status
      && SameOutside(g, target, r.storage)
  {
    var r := Cow(g, c, target);
    CopyRoundsAt(g, c, target, g.size, g.Segments());
    forall k: nat | k < g.Segments() ensures Mirrors(g, r, k) { assert Mirrors(g, c, k); }
    forall i: nat | i < g.Aligned() ensures Backed(g, r, i) { assert Backed(g, c, i); }
    forall i: nat | i < g.size ensures ViewAt(g, r, i) == ViewAt(g, c, i) {}
  }

  /** Two independent copies: after a copy-on-write and any run of the mapping, the view
      is the flat array of that run started from the view before the copy. */
  lemma CowThenRun(g: Geometry, c: Cache, target: seq<Byte>, ops: seq<Op>)
    requires Inv(g, c) && g.storageOffset + g.size <= |target| && AllAllowed(g, ops)
    ensures var r := Cow(g, c, target);
      && View(g, Run(g, r, ops)) == FlatRun(g, r, ops, View(g, c))
      && SameOutside(g, target, Run(g, r, ops).storage)
  {
    CowInvisible(g, c, target);
    RunRefines(g, Cow(g, c, target), ops);
  }

  // ---- switch -----------------------------------------------------------------

  datatype CleanAction = NoAction | DropCleanSegments | MarkCleanSegments

  function Switch(g: Geometry, c: Cache, target: seq<Byte>, action: CleanAction): (r: Cache)
    requires Shaped(g, c) && g.storageOffset + g.size <= |target|
    ensures Shaped(g, r)
  {
    var moved := c.(storage := target);
    match action
    case NoAction => moved
    case DropCleanSegments => DropClean(g, moved, g.Segments())
    case MarkCleanSegments => MarkCleanAsDirty(g, moved, g.Segments())
  }

  lemma {:induction false} DropCleanAt(g: Geometry, c: Cache, n: nat)
    requires Shaped(g, c) && n <= g.Segments()
    ensures var r := DropClean(g, c, n);
      && r.storage == c.storage
      && (forall k: nat :: k < g.Segments() ==>
            var gone := k < n && c.status[k].mapped && !c.status[k].dirty;
            && r.status[k] == (if gone then c.status[k].(mapped := false) else c.status[k])
            && r.access[k] == (if gone then NoAccess else c.access[k]))
      && (forall i: nat :: i < g.Aligned() ==>
            var st := c.status[g.SegmentOf(i)];
            r.memory[i] == if g.SegmentOf(i) < n && st.mapped && !st.dirty then 0 else c.memory[i])
  {
    if n > 0 {
      DropCleanAt(g, c, n - 1);
      InSegment(g, n - 1);
      SegmentFits(g, n - 1);
    }
  }

  lemma {:induction false} MarkAt(g: Geometry, c: Cache, n: nat)
    requires Shaped(g, c) && n <= g.Segments()
    ensures var r := MarkCleanAsDirty(g, c, n);
      && r.storage == c.storage && r.memory == c.memory
      && forall k: nat :: k < g.Segments() ==>
            var marked := k < n && c.status[k].mapped && !c.status[k].dirty && g.protection.write;
            && r.status[k] == (if marked then c.status[k].(dirty := true) else c.status[k])
            && r.access[k] == (if marked then ReadWrite else c.access[k])
  {
    if n > 0 { MarkAt(g, c, n - 1); }
  }

  /** dropClean as an operation: a clean resident segment is no longer resident, and nothing
      else changes, storage included. */
  lemma {:induction false} StepDrops(g: Geometry, c: Cache)
    requires Shaped(g, c)
    ensures var r := Step(g, c, DropCleanPages);
      && r.storage == c.storage
      && forall k: nat :: k < g.Segments() ==>
           if c.status[k].mapped && !c.status[k].dirty
           then r.status[k] == c.status[k].(mapped := false) && r.access[k] == NoAccess
           else r.status[k] == c.status[k] && r.access[k] == c.access[k]
  {
    DropCleanAt(g, c, g.Segments());
  }

  /** markCleanAsDirty as an operation: every resident segment of a writable mapping is dirty
      and open, and nothing else changes, memory and storage included. */
  lemma {:induction false} StepMarks(g: Geometry, c: Cache)
    requires Shaped(g, c)
    ensures var r := Step(g, c, MarkDirty);
      && r.storage == c.storage && r.memory == c.memory
      && forall k: nat :: k < g.Segments() ==>
           if c.status[k].mapped && !c.status[k].dirty && g.protection.write
           then r.status[k] == c.status[k].(dirty := true) && r.access[k] == ReadWrite
           else r.status[k] == c.status[k] && r.access[k] == c.access[k]
  {
    MarkAt(g, c, g.Segments());
  }

  /** What a dropped or never loaded byte shows: the new storage, or zero while the segment
      has not been read or written back since UMMAP_NO_FIRST_READ. */
  function Reloaded(g: Geometry, c: Cache, target: seq<Byte>, i: nat): Byte
    requires Shaped(g, c) && g.storageOffset + g.size <= |target| && i < g.size
  {
    if c.status[g.SegmentOf(i)].needRead then target[g.storageOffset + i] else 0
  }

  /** DROP_CLEAN: dirty segments keep their view, all the others show the new storage. */
  lemma SwitchDropsClean(g: Geometry, c: Cache, target: seq<Byte>)
    requires Inv(g, c) && g.storageOffset + g.size <= |target|
    ensures var r := Switch(g, c, target, DropCleanSegments);
      && Inv(g, r) && r.storage == target
      && forall i: nat :: i < g.size ==>
           View(g, r)[i] == if c.status[g.SegmentOf(i)].dirty then View(g, c)[i] else Reloaded(g, c, target, i)
  {
    var moved := c.(storage := target);
    var r := Switch(g, c, target, DropCleanSegments);
    DropCleanAt(g, moved, g.Segments());
    forall k: nat | k < g.Segments() ensures Mirrors(g, r, k) { assert Mirrors(g, c, k); }
    forall i: nat | i < g.Aligned() ensures Backed(g, r, i) { assert Backed(g, c, i); }
    forall i: nat | i < g.size
      ensures ViewAt(g, r, i)
           == if c.status[g.SegmentOf(i)].dirty then ViewAt(g, c, i) else Reloaded(g, c, target, i)
    {
      assert Mirrors(g, c, g.SegmentOf(i));
    }
  }

  /** MARK_CLEAN_DIRTY then a full flush: the new storage holds the old view of every
      segment resident at the switch, and is unchanged elsewhere. */
  lemma SwitchMarksThenFlush(g: Geometry, c: Cache, target: seq<Byte>, unmap: bool)
    requires Inv(g, c) && g.protection.write && g.storageOffset + g.size <= |target|
    ensures var r := Switch(g, c, target, MarkCleanSegments);
      var f := FlushRange(g, r, 0, g.Segments(), unmap);
      && Inv(g, r) && Inv(g, f) && SameOutside(g, target, f.storage)
      && forall i: nat :: i < g.size ==>
           f.storage[g.storageOffset + i]
             == if c.status[g.SegmentOf(i)].mapped then View(g, c)[i] else target[g.storageOffset + i]
  {
    var moved := c.(storage := target);
    var r := Switch(g, c, target, MarkCleanSegments);
    MarkAt(g, moved, g.Segments());
    forall k: nat | k < g.Segments() ensures Mirrors(g, r, k) { assert Mirrors(g, c, k); }
    forall i: nat | i < g.Aligned() ensures Backed(g, r, i) { assert Backed(g, c, i); }
    FlushRangeInvisible(g, r, 0, g.Segments(), unmap);
    FlushRangeAt(g, r, 0, g.Segments(), unmap);
  }

  /** What a switch without action would have to find on the new storage: every clean byte
      that is read from storage, for the resident segments or for all of them. */
  predicate Matches(g: Geometry, c: Cache, target: seq<Byte>, i: nat)
    requires Shaped(g, c) && g.storageOffset + g.size <= |target| && i < g.size
  {
    var st := c.status[g.SegmentOf(i)];
    !st.dirty && st.needRead ==> ViewAt(g, c, i) == target[g.storageOffset + i]
  }

  predicate ResidentMatch(g: Geometry, c: Cache, target: seq<Byte>)
    requires Shaped(g, c) && g.storageOffset + g.size <= |target|
  {
    forall i: nat :: i < g.size && c.status[g.SegmentOf(i)].mapped ==> Matches(g, c, target, i)
  }

  predicate AllMatch(g: Geometry, c: Cache, target: seq<Byte>)
    requires Shaped(g, c) && g.storageOffset + g.size <= |target|
  {
    forall i: nat :: i < g.size ==> Matches(g, c, target, i)
  }

  /** Every run from r shows the given bytes under the completed writes. */
  ghost predicate Continues(g: Geometry, r: Cache, flat: seq<Byte>)
    requires Shaped(g, r) && |flat| == g.size
  {
    forall ops :: AllAllowed(g, ops) ==> View(g, Run(g, r, ops)) == FlatRun(g, r, ops, flat)
  }

  lemma {:induction false} NoActionInv(g: Geometry, c: Cache, target: seq<Byte>)
    requires Inv(g, c) && g.storageOffset + g.size <= |target| && ResidentMatch(g, c, target)
    ensures Inv(g, Switch(g, c, target, NoAction))
  {
    var r := Switch(g, c, target, NoAction);
    forall k: nat | k < g.Segments() ensures Mirrors(g, r, k) { assert Mirrors(g, c, k); }
    forall i: nat | i < g.Aligned() ensures Backed(g, r, i) {
      assert Backed(g, c, i);
      if i < g.size && c.status[g.SegmentOf(i)].mapped { assert Matches(g, c, target, i); }
    }
  }

  /** The failing family of NO_ACTION, byte by byte: evicting a clean resident segment
      then shows the new storage instead of the byte that was there. */
  lemma {:induction false} SwitchNoActionThenEvict(g: Geometry, c: Cache, target: seq<Byte>, i: nat)
    requires Inv(g, c) && g.storageOffset + g.size <= |target| && i < g.size
    requires c.status[g.SegmentOf(i)] == SegmentStatus(true, false, true)
    ensures var r := Switch(g, c, target, NoAction);
      && View(g, r)[i] == View(g, c)[i]
      && View(g, FlushSegment(g, r, g.SegmentOf(i), true))[i] == target[g.storageOffset + i]
  {
  }

  lemma {:induction false} EvictRun(g: Geometry, r: Cache, k: nat, flat: seq<Byte>)
    requires Shaped(g, r) && k < g.Segments() && |flat| == g.size
    ensures AllAllowed(g, [Evict(k)])
    ensures Run(g, r, [Evict(k)]) == FlushSegment(g, r, k, true) && FlatRun(g, r, [Evict(k)], flat) == flat
  {
    var ops := [Evict(k)];
    assert ops[..0] == [];
    assert Run(g, r, []) == r && FlatRun(g, r, [], flat) == flat;
  }

  /** NO_ACTION: every later run goes on from the bytes shown right after the switch if and
      only if the new storage already holds every clean resident byte. */
  lemma {:induction false} SwitchNoActionSound(g: Geometry, c: Cache, target: seq<Byte>)
    requires Inv(g, c) && g.storageOffset + g.size <= |target|
    ensures var r := Switch(g, c, target, NoAction);
      Continues(g, r, View(g, r)) <==> ResidentMatch(g, c, target)
  {
    var r := Switch(g, c, target, NoAction);
    if ResidentMatch(g, c, target) {
      NoActionInv(g, c, target);
      forall ops | AllAllowed(g, ops) ensures View(g, Run(g, r, ops)) == FlatRun(g, r, ops, View(g, r)) {
        RunRefines(g, r, ops);
      }
    } else {
      var i: nat :| i < g.size && c.status[g.SegmentOf(i)].mapped && !Matches(g, c, target, i);
      EvictRun(g, r, g.SegmentOf(i), View(g, r));
      SwitchNoActionThenEvict(g, c, target, i);
    }
  }

  lemma {:induction false} NoActionView(g: Geometry, c: Cache, target: seq<Byte>)
    requires Inv(g, c) && g.storageOffset + g.size <= |target| && AllMatch(g, c, target)
    ensures View(g, Switch(g, c, target, NoAction)) == View(g, c)
  {
    var r := Switch(g, c, target, NoAction);
    forall i: nat | i < g.size ensures ViewAt(g, r, i) == ViewAt(g, c, i) {
      assert Matches(g, c, target, i);
      assert Mirrors(g, c, g.SegmentOf(i));
    }
  }

  /** NO_ACTION keeps the old bytes in every later run if and only if the new storage holds
      every byte the program sees that is not dirty and comes from storage. */
  lemma {:induction false} SwitchNoActionKeepsOld(g: Geometry, c: Cache, target: seq<Byte>)
    requires Inv(g, c) && g.storageOffset + g.size <= |target|
    ensures Continues(g, Switch(g, c, target, NoAction), View(g, c)) <==> AllMatch(g, c, target)
  {
    var r := Switch(g, c, target, NoAction);
    SwitchNoActionSound(g, c, target);
    if AllMatch(g, c, target) {
      assert ResidentMatch(g, c, target);
      NoActionView(g, c, target);
    } else {
      var i: nat :| i < g.size && !Matches(g, c, target, i);
      if c.status[g.SegmentOf(i)].mapped {
        EvictRun(g, r, g.SegmentOf(i), View(g, c));
        SwitchNoActionThenEvict(g, c, target, i);
      } else {
        assert AllAllowed(g, []) && Run(g, r, []) == r && FlatRun(g, r, [], View(g, c)) == View(g, c);
        assert View(g, r)[i] == target[g.storageOffset + i];
      }
    }
  }
}
