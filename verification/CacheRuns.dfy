/**
 Whole runs of one mapping seen by one thread: attempts to read and write a byte,
 faults with whatever evictions the policies order, flushes, evictions, dropClean and
 markCleanAsDirty. Every run looks like a flat byte array updated by the completed
 writes, and a flushed mapping can be mapped again without losing anything.
 */
module CacheRuns {
  import opened SegmentCache

  /** `Read` and `Write` are single attempts of the processor: they complete when the
      protection allows them, otherwise they fault and `victims` are evicted. */
  datatype Op =
    | Read(i: nat, victims: seq<nat>)
    | Write(i: nat, b: Byte, victims: seq<nat>)
    | Flush(offset: nat, length: nat, unmap: bool)
    | Evict(segment: nat)
    | DropCleanPages
    | MarkDirty

  /** The argument check of `Mapping::flush`. */
  predicate FlushAccepts(g: Geometry, offset: nat, length: nat)
    requires g.Valid()
  {
    && offset < g.size
    && offset + length <= g.Aligned()
    && offset % g.segmentSize == 0
    && length % g.segmentSize == 0
  }

  lemma FlushBounds(g: Geometry, offset: nat, length: nat)
    requires g.Valid() && FlushAccepts(g, offset, length)
    ensures offset / g.segmentSize <= (offset + length) / g.segmentSize <= g.Segments()
    ensures g.Start(offset / g.segmentSize) == offset
    ensures g.Start((offset + length) / g.segmentSize) == offset + length
  {
    WholeSegments(g, offset, length);
    RangeInside(g, offset / g.segmentSize, (offset + length) / g.segmentSize);
  }

  lemma RangeInside(g: Geometry, from: nat, to: nat)
    requires g.Valid() && g.Start(from) <= g.Start(to) <= g.Aligned()
    ensures from <= to <= g.Segments()
  {
    if g.Segments() < to { StartMono(g, g.Segments(), to); }
    if to < from { StartMono(g, to, from); }
  }

  lemma WholeSegments(g: Geometry, offset: nat, length: nat)
    requires g.Valid() && offset % g.segmentSize == 0 && length % g.segmentSize == 0
    ensures g.Start(offset / g.segmentSize) == offset
    ensures g.Start((offset + length) / g.segmentSize) == offset + length
  {
    var a, b := offset / g.segmentSize, length / g.segmentSize;
    assert offset == a * g.segmentSize && length == b * g.segmentSize;
    assert offset + length == (a + b) * g.segmentSize;
    StartIsProduct(g, a);
    StartIsProduct(g, a + b);
    StartQuotient(g, a + b);
  }

  lemma {:induction false} StartAligned(g: Geometry, k: nat)
    requires g.Valid()
    ensures g.Start(k) % g.segmentSize == 0
  {
    StartIsProduct(g, k);
    StartQuotient(g, k);
    assert g.Start(k) == g.segmentSize * (g.Start(k) / g.segmentSize) + g.Start(k) % g.segmentSize;
  }

  lemma {:induction false} WholeLength(g: Geometry, from: nat, to: nat)
    requires g.Valid() && from <= to
    ensures g.Start(to) == g.Start(from) + g.Start(to - from)
  {
    if from < to { WholeLength(g, from, to - 1); }
  }

  /** The accepted ranges are exactly the runs of whole existing segments that start before
      the end of the mapping; the empty ones included. */
  lemma {:induction false} FlushAcceptsExactly(g: Geometry, offset: nat, length: nat)
    requires g.Valid()
    ensures FlushAccepts(g, offset, length) <==>
      exists from: nat, to: nat :: WholeRange(g, offset, length, from, to)
  {
    if FlushAccepts(g, offset, length) {
      FlushBounds(g, offset, length);
      var from, to := offset / g.segmentSize, (offset + length) / g.segmentSize;
      if g.Segments() <= from { StartMono(g, g.Segments(), from); }
      assert WholeRange(g, offset, length, from, to);
    } else if from: nat, to: nat :| WholeRange(g, offset, length, from, to) {
      StartMono(g, from, g.Segments() - 1);
      StartMono(g, to, g.Segments());
      StartAligned(g, from);
      WholeLength(g, from, to);
      StartAligned(g, to - from);
    }
  }

  predicate WholeRange(g: Geometry, offset: nat, length: nat, from: nat, to: nat)
    requires g.Valid()
  {
    from < g.Segments() && from <= to <= g.Segments() && offset == g.Start(from) && offset + length == g.Start(to)
  }

  /** `flush(bool)` passes the unaligned size: it aborts unless the size is a whole
      number of segments, while the aligned size is always accepted. */
  lemma WholeFlushAccepted(g: Geometry)
    requires g.Valid()
    ensures FlushAccepts(g, 0, g.size) <==> g.size % g.segmentSize == 0
    ensures FlushAccepts(g, 0, g.Aligned()) && g.Aligned() / g.segmentSize == g.Segments()
  {
    SegmentsRoundUp(g);
    StartQuotient(g, g.Segments());
    StartIsProduct(g, g.Segments());
    assert g.Aligned() == (g.Aligned() / g.segmentSize) * g.segmentSize + g.Aligned() % g.segmentSize;
  }

  /** Otherwise the process stops with a fatal error (or a segmentation fault). */
  predicate Allowed(g: Geometry, op: Op)
    requires g.Valid()
  {
    match op
    case Read(i, victims) => i < g.Aligned() && g.Permits(false) && InRange(g, victims)
    case Write(i, _, victims) => i < g.Aligned() && g.Permits(true) && InRange(g, victims)
    case Flush(offset, length, _) => FlushAccepts(g, offset, length)
    case Evict(k) => k < g.Segments()
    case DropCleanPages => true
    case MarkDirty => true
  }

  predicate InRange(g: Geometry, victims: seq<nat>)
    requires g.Valid()
  {
    forall j :: 0 <= j < |victims| ==> victims[j] < g.Segments()
  }

  /** The processor lets the access through without a fault. */
  predicate Granted(g: Geometry, c: Cache, i: nat, isWrite: bool)
    requires Shaped(g, c) && i < g.Aligned()
  {
    var a := c.access[g.SegmentOf(i)];
    if isWrite then a == ReadWrite else a != NoAccess
  }

  /** A fault at byte i followed by the evictions the policies ask for. */
  function Faulted(g: Geometry, c: Cache, i: nat, isWrite: bool, victims: seq<nat>): (r: Cache)
    requires Shaped(g, c) && i < g.Aligned() && InRange(g, victims)
    ensures Shaped(g, r)
  {
    EvictAll(g, Fault(g, c, g.SegmentOf(i), isWrite), victims)
  }

  function Step(g: Geometry, c: Cache, op: Op): (r: Cache)
    requires Shaped(g, c) && Allowed(g, op)
    ensures Shaped(g, r)
  {
    match op
    case Read(i, victims) => if Granted(g, c, i, false) then c else Faulted(g, c, i, false, victims)
    case Write(i, b, victims) =>
      if Granted(g, c, i, true) then c.(memory := c.memory[i := b]) else Faulted(g, c, i, true, victims)
    case Flush(offset, length, unmap) =>
      FlushBounds(g, offset, length);
      FlushRange(g, c, offset / g.segmentSize, (offset + length) / g.segmentSize, unmap)
    case Evict(k) => FlushSegment(g, c, k, true)
    case DropCleanPages => DropClean(g, c, g.Segments())
    case MarkDirty => MarkCleanAsDirty(g, c, g.Segments())
  }

  predicate AllAllowed(g: Geometry, ops: seq<Op>)
    requires g.Valid()
  {
    forall j :: 0 <= j < |ops| ==> Allowed(g, ops[j])
  }

  function Run(g: Geometry, c: Cache, ops: seq<Op>): (r: Cache)
    requires Shaped(g, c) && AllAllowed(g, ops)
    ensures Shaped(g, r)
  {
    if ops == [] then c else Step(g, Run(g, c, ops[..|ops| - 1]), ops[|ops| - 1])
  }

  /** The flat array: only a write that got through changes it. */
  function FlatStep(g: Geometry, c: Cache, op: Op, flat: seq<Byte>): (r: seq<Byte>)
    requires Shaped(g, c) && Allowed(g, op) && |flat| == g.size
    ensures |r| == g.size
  {
    if op.Write? && op.i < g.size && Granted(g, c, op.i, true) then flat[op.i := op.b] else flat
  }

  function FlatRun(g: Geometry, c: Cache, ops: seq<Op>, flat: seq<Byte>): (r: seq<Byte>)
    requires Shaped(g, c) && AllAllowed(g, ops) && |flat| == g.size
    ensures |r| == g.size
  {
    if ops == [] then flat
    else
      var before := ops[..|ops| - 1];
      FlatStep(g, Run(g, c, before), ops[|ops| - 1], FlatRun(g, c, before, flat))
  }

  // ---- every operation is invisible -------------------------------------------

  /** The invariant, the view and the outside of the storage window all survive. */
  ghost predicate Invisible(g: Geometry, c: Cache, r: Cache)
    requires Shaped(g, c) && Shaped(g, r)
  {
    Inv(g, r) && View(g, r) == View(g, c) && SameOutside(g, c.storage, r.storage)
  }

  lemma {:induction false} FlushRangeInvisible(g: Geometry, c: Cache, from: nat, to: nat, unmap: bool)
    requires Inv(g, c) && from <= to <= g.Segments()
    ensures Invisible(g, c, FlushRange(g, c, from, to, unmap))
  {
    if from < to {
      FlushRangeInvisible(g, c, from, to - 1, unmap);
      FlushSegmentInvisible(g, FlushRange(g, c, from, to - 1, unmap), to - 1, unmap);
    }
  }

  lemma {:induction false} EvictAllInvisible(g: Geometry, c: Cache, victims: seq<nat>)
    requires Inv(g, c) && InRange(g, victims)
    ensures Invisible(g, c, EvictAll(g, c, victims))
    ensures forall k: nat :: k < g.Segments() ==>
              EvictAll(g, c, victims).access[k] == if k in victims then NoAccess else c.access[k]
  {
    if victims != [] {
      var n := |victims| - 1;
      var e := EvictAll(g, c, victims[..n]);
      EvictAllInvisible(g, c, victims[..n]);
      FlushSegmentInvisible(g, e, victims[n], true);
      assert victims == victims[..n] + [victims[n]];
      assert Mirrors(g, EvictAll(g, c, victims), victims[n]);
    }
  }

  lemma {:induction false} DropCleanInvisible(g: Geometry, c: Cache, n: nat)
    requires Inv(g, c) && n <= g.Segments()
    ensures Invisible(g, c, DropClean(g, c, n))
  {
    if n > 0 {
      DropCleanInvisible(g, c, n - 1);
      var d := DropClean(g, c, n - 1);
      if d.status[n - 1].mapped && !d.status[n - 1].dirty { UnmapInvisible(g, d, n - 1); }
    }
  }

  lemma {:induction false} MarkInvisible(g: Geometry, c: Cache, n: nat)
    requires Inv(g, c) && n <= g.Segments()
    ensures Invisible(g, c, MarkCleanAsDirty(g, c, n))
  {
    if n > 0 {
      MarkInvisible(g, c, n - 1);
      var d, r := MarkCleanAsDirty(g, c, n - 1), MarkCleanAsDirty(g, c, n);
      assert Mirrors(g, d, n - 1);
      if r != d {
        assert Touches(g, d, r, n - 1);
        LocalChange(g, d, r, n - 1);
      }
    }
  }

  lemma FaultedInvisible(g: Geometry, c: Cache, i: nat, isWrite: bool, victims: seq<nat>)
    requires Inv(g, c) && i < g.Aligned() && InRange(g, victims)
    requires g.Permits(isWrite) && !Granted(g, c, i, isWrite)
    ensures Invisible(g, c, Faulted(g, c, i, isWrite, victims))
  {
    FaultInvisible(g, c, g.SegmentOf(i), isWrite);
    EvictAllInvisible(g, Fault(g, c, g.SegmentOf(i), isWrite), victims);
  }

  /** A write that gets through changes one byte of the view: its own. */
  lemma WriteThrough(g: Geometry, c: Cache, i: nat, b: Byte)
    requires Inv(g, c) && i < g.Aligned() && Granted(g, c, i, true)
    ensures var r := c.(memory := c.memory[i := b]);
            Inv(g, r) && View(g, r) == if i < g.size then View(g, c)[i := b] else View(g, c)
  {
    var r := c.(memory := c.memory[i := b]);
    assert Mirrors(g, c, g.SegmentOf(i));
    forall k: nat | k < g.Segments() ensures Mirrors(g, r, k) { assert Mirrors(g, c, k); }
    forall j: nat | j < g.Aligned() ensures Backed(g, r, j) { assert Backed(g, c, j); }
    forall j: nat | j < g.size
      ensures ViewAt(g, r, j) == if j == i then b else ViewAt(g, c, j) {}
  }

  lemma StepRefines(g: Geometry, c: Cache, op: Op)
    requires Inv(g, c) && Allowed(g, op)
    ensures var r := Step(g, c, op);
            && Inv(g, r) && SameOutside(g, c.storage, r.storage)
            && View(g, r) == FlatStep(g, c, op, View(g, c))
  {
    match op
    case Read(i, victims) => if !Granted(g, c, i, false) { FaultedInvisible(g, c, i, false, victims); }
    case Write(i, b, victims) =>
      if Granted(g, c, i, true) { WriteThrough(g, c, i, b); } else { FaultedInvisible(g, c, i, true, victims); }
    case Flush(offset, length, unmap) =>
      FlushBounds(g, offset, length);
      FlushRangeInvisible(g, c, offset / g.segmentSize, (offset + length) / g.segmentSize, unmap);
    case Evict(k) => FlushSegmentInvisible(g, c, k, true);
    case DropCleanPages => DropCleanInvisible(g, c, g.Segments());
    case MarkDirty => MarkInvisible(g, c, g.Segments());
  }

  /** Flat-array refinement over every run. */
  lemma {:induction false} RunRefines(g: Geometry, c: Cache, ops: seq<Op>)
    requires Inv(g, c) && AllAllowed(g, ops)
    ensures var r := Run(g, c, ops);
            && Inv(g, r) && SameOutside(g, c.storage, r.storage)
            && View(g, r) == FlatRun(g, c, ops, View(g, c))
  {
    if ops != [] {
      var before := ops[..|ops| - 1];
      RunRefines(g, c, before);
      StepRefines(g, Run(g, c, before), ops[|ops| - 1]);
    }
  }

  /** A read that gets through, after any run, returns the byte of the flat array. */
  lemma ReadReturnsFlatByte(g: Geometry, c: Cache, ops: seq<Op>, i: nat)
    requires Inv(g, c) && AllAllowed(g, ops) && i < g.size
    requires Granted(g, Run(g, c, ops), i, false)
    ensures Run(g, c, ops).memory[i] == FlatRun(g, c, ops, View(g, c))[i]
  {
    RunRefines(g, c, ops);
    assert Mirrors(g, Run(g, c, ops), g.SegmentOf(i));
  }

  /** Access progress: one fault is enough exactly when the policies do not evict the
      segment just touched. */
  lemma OneFaultSuffices(g: Geometry, c: Cache, i: nat, isWrite: bool, victims: seq<nat>)
    requires Inv(g, c) && i < g.Aligned() && InRange(g, victims)
    requires g.Permits(isWrite) && !Granted(g, c, i, isWrite)
    ensures Granted(g, Faulted(g, c, i, isWrite, victims), i, isWrite) <==> g.SegmentOf(i) !in victims
  {
    FaultInvisible(g, c, g.SegmentOf(i), isWrite);
    EvictAllInvisible(g, Fault(g, c, g.SegmentOf(i), isWrite), victims);
  }

  /** A read fault that reaches an already dirty segment (two threads racing on it)
      takes its write access away and leaves it dirty: the page table mirrors the status
      only because the processor never raises that fault in a sequential run. */
  lemma ReadFaultOnDirtyBreaksMirror(g: Geometry, c: Cache, k: nat)
    requires Inv(g, c) && k < g.Segments() && g.Permits(false)
    ensures Mirrors(g, Fault(g, c, k, false), k) <==> !c.status[k].dirty
  {
    assert Mirrors(g, c, k);
  }

  // ---- what a flush leaves on storage -----------------------------------------

  /** r is c with the segments of [from, to) flushed, from any state. */
  ghost predicate Flushed(g: Geometry, c: Cache, r: Cache, from: nat, to: nat, unmap: bool)
    requires Shaped(g, c) && Shaped(g, r) && from <= to <= g.Segments()
  {
    && SameOutside(g, c.storage, r.storage)
    && (forall k: nat :: k < g.Segments() && !(from <= k < to) ==> r.status[k] == c.status[k])
    && (forall k: nat :: from <= k < to ==> r.status[k] == FlushedStatus(c.status[k], unmap))
    && (forall i: nat :: i < g.Aligned() && !(from <= g.SegmentOf(i) < to) ==> r.memory[i] == c.memory[i])
    && (forall i: nat :: i < g.size ==>
          var st := c.status[g.SegmentOf(i)];
          r.storage[g.storageOffset + i]
            == if from <= g.SegmentOf(i) < to && st.dirty && st.mapped then c.memory[i]
               else c.storage[g.storageOffset + i])
  }

  function FlushedStatus(st: SegmentStatus, unmap: bool): SegmentStatus {
    SegmentStatus(st.mapped && !unmap, st.dirty && !st.mapped, st.needRead || (st.dirty && st.mapped))
  }

  lemma FlushSegmentAt(g: Geometry, c: Cache, k: nat, unmap: bool)
    requires Shaped(g, c) && k < g.Segments()
    ensures Flushed(g, c, FlushSegment(g, c, k, unmap), k, k + 1, unmap)
  {
    var r := FlushSegment(g, c, k, unmap);
    WrittenBackAt(g, c, k);
    forall i: nat | i < g.Aligned() && g.SegmentOf(i) != k ensures r.memory[i] == c.memory[i] {
      SegmentUnique(g, i, k);
      SegmentFits(g, k);
    }
  }

  lemma {:induction false} FlushRangeAt(g: Geometry, c: Cache, from: nat, to: nat, unmap: bool)
    requires Shaped(g, c) && from <= to <= g.Segments()
    ensures Flushed(g, c, FlushRange(g, c, from, to, unmap), from, to, unmap)
  {
    if from < to {
      var m := FlushRange(g, c, from, to - 1, unmap);
      FlushRangeAt(g, c, from, to - 1, unmap);
      FlushSegmentAt(g, m, to - 1, unmap);
      FlushedOneMore(g, c, m, FlushSegment(g, m, to - 1, unmap), from, to, unmap);
    }
  }

  lemma FlushedOneMore(g: Geometry, c: Cache, m: Cache, r: Cache, from: nat, to: nat, unmap: bool)
    requires Shaped(g, c) && Shaped(g, m) && Shaped(g, r) && from < to <= g.Segments()
    requires Flushed(g, c, m, from, to - 1, unmap) && Flushed(g, m, r, to - 1, to, unmap)
    ensures Flushed(g, c, r, from, to, unmap)
  {
    forall k: nat | k < g.Segments()
      ensures r.status[k] == if from <= k < to then FlushedStatus(c.status[k], unmap) else c.status[k] {}
    forall i: nat | i < g.Aligned() && !(from <= g.SegmentOf(i) < to) ensures r.memory[i] == c.memory[i] {}
    forall i: nat | i < g.size
      ensures var st := c.status[g.SegmentOf(i)];
        r.storage[g.storageOffset + i]
          == if from <= g.SegmentOf(i) < to && st.dirty && st.mapped then c.memory[i]
             else c.storage[g.storageOffset + i] {}
  }

  /** Byte i lies in the range. */
  predicate Covers(offset: int, length: int, i: int) { offset <= i < offset + length }

  /** What a flush of a byte range leaves, from any state: inside the range a dirty resident
      segment is written out, clean and to be read from storage, and all resident ones are
      unmapped on request; outside nothing changes. Every segment has a byte below the size,
      so this says it of every segment. */
  ghost predicate FlushedBytes(g: Geometry, c: Cache, r: Cache, offset: nat, length: nat, unmap: bool)
    requires Shaped(g, c) && Shaped(g, r)
  {
    && SameOutside(g, c.storage, r.storage)
    && forall i: nat :: i < g.size ==> FlushedByte(g, c, r, i, Covers(offset, length, i), unmap)
  }

  ghost predicate FlushedByte(g: Geometry, c: Cache, r: Cache, i: nat, covered: bool, unmap: bool)
    requires Shaped(g, c) && Shaped(g, r) && i < g.size
  {
    var st, after := c.status[g.SegmentOf(i)], r.status[g.SegmentOf(i)];
    var stored, written := c.storage[g.storageOffset + i], r.storage[g.storageOffset + i];
    if !covered then after == st && written == stored && r.memory[i] == c.memory[i]
    else
      && after.mapped == (st.mapped && !unmap)
      && (if st.mapped && st.dirty then !after.dirty && after.needRead && written == c.memory[i]
          else after.dirty == st.dirty && after.needRead == st.needRead && written == stored)
  }

  /** A byte is in a range of whole segments exactly when its segment is. */
  lemma {:induction false} CoversSegment(g: Geometry, from: nat, to: nat, i: nat)
    requires g.Valid() && from <= to
    ensures Covers(g.Start(from), g.Start(to) - g.Start(from), i) <==> from <= g.SegmentOf(i) < to
  {
    var k := g.SegmentOf(i);
    StartMono(g, from, to);
    if k < from { StartMono(g, k, from); } else { StartMono(g, from, k); }
    if k < to { StartMono(g, k, to); } else { StartMono(g, to, k); }
  }

  lemma {:induction false} RangeFlushed(g: Geometry, c: Cache, from: nat, to: nat, unmap: bool,
                                         offset: nat, length: nat)
    requires Shaped(g, c) && from <= to <= g.Segments() && offset == g.Start(from) && offset + length == g.Start(to)
    ensures FlushedBytes(g, c, FlushRange(g, c, from, to, unmap), offset, length, unmap)
  {
    var r := FlushRange(g, c, from, to, unmap);
    FlushRangeAt(g, c, from, to, unmap);
    forall i: nat | i < g.size ensures FlushedByte(g, c, r, i, Covers(offset, length, i), unmap) {
      CoversSegment(g, from, to, i);
    }
  }

  /** The flush operation flushes exactly the bytes it is given. */
  lemma {:induction false} StepFlushes(g: Geometry, c: Cache, offset: nat, length: nat, unmap: bool)
    requires Shaped(g, c) && FlushAccepts(g, offset, length)
    ensures FlushedBytes(g, c, Step(g, c, Flush(offset, length, unmap)), offset, length, unmap)
  {
    FlushBounds(g, offset, length);
    RangeFlushed(g, c, offset / g.segmentSize, (offset + length) / g.segmentSize, unmap, offset, length);
  }

  lemma {:induction false} OneSegmentRange(g: Geometry, c: Cache, k: nat, unmap: bool)
    requires Shaped(g, c) && k < g.Segments()
    ensures FlushRange(g, c, k, k + 1, unmap) == FlushSegment(g, c, k, unmap)
  {
    assert FlushRange(g, c, k, k, unmap) == c;
  }

  /** An eviction flushes and unmaps exactly its segment. */
  lemma {:induction false} StepEvicts(g: Geometry, c: Cache, k: nat)
    requires Shaped(g, c) && k < g.Segments()
    ensures FlushedBytes(g, c, Step(g, c, Evict(k)), g.Start(k), g.segmentSize, true)
  {
    OneSegmentRange(g, c, k, true);
    RangeFlushed(g, c, k, k + 1, true, g.Start(k), g.segmentSize);
  }

  /** What the user is promised by a flush: in the range nothing is dirty, nothing is resident
      after an unmapping one, and whatever will be read from storage is there as the program
      saw it; outside nothing changes. */
  ghost predicate DurableIn(g: Geometry, c: Cache, r: Cache, offset: nat, length: nat, unmap: bool)
    requires Shaped(g, c) && Shaped(g, r)
  {
    forall i: nat :: i < g.size ==>
      var st, after := c.status[g.SegmentOf(i)], r.status[g.SegmentOf(i)];
      if Covers(offset, length, i) then
        && !after.dirty && after.mapped == (st.mapped && !unmap) && (st.dirty || st.needRead ==> after.needRead)
        && (after.needRead ==> r.storage[g.storageOffset + i] == View(g, c)[i])
      else after == st && r.storage[g.storageOffset + i] == c.storage[g.storageOffset + i]
  }

  lemma {:induction false} StepFlushDurable(g: Geometry, c: Cache, offset: nat, length: nat, unmap: bool)
    requires Inv(g, c) && FlushAccepts(g, offset, length)
    ensures var r := Step(g, c, Flush(offset, length, unmap));
      Inv(g, r) && View(g, r) == View(g, c) && DurableIn(g, c, r, offset, length, unmap)
  {
    var r := Step(g, c, Flush(offset, length, unmap));
    StepFlushes(g, c, offset, length, unmap);
    StepRefines(g, c, Flush(offset, length, unmap));
    forall i: nat | i < g.size
      ensures FlushedByte(g, c, r, i, Covers(offset, length, i), unmap)
      ensures r.status[g.SegmentOf(i)].needRead && Covers(offset, length, i) ==>
                r.storage[g.storageOffset + i] == View(g, c)[i]
      ensures c.status[g.SegmentOf(i)].dirty ==> c.status[g.SegmentOf(i)].mapped
    {
      assert Mirrors(g, c, g.SegmentOf(i));
      assert Backed(g, r, i);
      assert View(g, r)[i] == View(g, c)[i];
    }
  }

  /** A flush makes the range durable: nothing dirty is left in it and every byte the
      mapping may read back is on storage. */
  lemma FlushDurable(g: Geometry, c: Cache, from: nat, to: nat, unmap: bool)
    requires Inv(g, c) && from <= to <= g.Segments()
    ensures var r := FlushRange(g, c, from, to, unmap);
      forall i: nat :: i < g.size && from <= g.SegmentOf(i) < to ==>
        && !r.status[g.SegmentOf(i)].dirty
        && (r.status[g.SegmentOf(i)].needRead ==> r.storage[g.storageOffset + i] == View(g, c)[i])
  {
    var r := FlushRange(g, c, from, to, unmap);
    FlushRangeInvisible(g, c, from, to, unmap);
    FlushRangeAt(g, c, from, to, unmap);
    forall i: nat | i < g.size && from <= g.SegmentOf(i) < to
      ensures !r.status[g.SegmentOf(i)].dirty
      ensures r.status[g.SegmentOf(i)].needRead ==> r.storage[g.storageOffset + i] == View(g, c)[i]
    {
      assert Mirrors(g, c, g.SegmentOf(i));
      assert Backed(g, r, i);
      assert View(g, r)[i] == View(g, c)[i];
    }
  }

  /** Unmapping with sync and mapping the same storage again gives back every byte, for
      exactly those mappings whose never-read clean segments are zero on storage. */
  lemma RemapRoundTrip(g: Geometry, c: Cache)
    requires Inv(g, c)
    ensures var r := FlushRange(g, c, 0, g.Segments(), false);
      View(g, Fresh(g, r.storage, false)) == View(g, c)
      <==> forall i: nat :: i < g.size ==>
             var st := c.status[g.SegmentOf(i)];
             st.needRead || st.dirty || c.storage[g.storageOffset + i] == 0
  {
    var n := g.Segments();
    var r := FlushRange(g, c, 0, n, false);
    FlushRangeAt(g, c, 0, n, false);
    FreshView(g, r.storage, false);
    var again := View(g, Fresh(g, r.storage, false));
    forall i: nat | i < g.size
      ensures var st := c.status[g.SegmentOf(i)];
              again[i] == View(g, c)[i] <==> st.needRead || st.dirty || c.storage[g.storageOffset + i] == 0
    {
      assert Backed(g, c, i);
      assert Mirrors(g, c, g.SegmentOf(i));
    }
  }

  /** needRead is never cleared after construction, so the previous lemma applies to every
      run of a mapping built without UMMAP_NO_FIRST_READ. */
  lemma {:induction false} NeedReadStays(g: Geometry, c: Cache, ops: seq<Op>, k: nat)
    requires Shaped(g, c) && AllAllowed(g, ops) && k < g.Segments() && c.status[k].needRead
    ensures Run(g, c, ops).status[k].needRead
  {
    if ops != [] {
      NeedReadStays(g, c, ops[..|ops| - 1], k);
      StepKeepsNeedRead(g, Run(g, c, ops[..|ops| - 1]), ops[|ops| - 1], k);
    }
  }

  lemma StepKeepsNeedRead(g: Geometry, c: Cache, op: Op, k: nat)
    requires Shaped(g, c) && Allowed(g, op) && k < g.Segments() && c.status[k].needRead
    ensures Step(g, c, op).status[k].needRead
  {
    match op
    case Read(i, victims) => FaultedKeepsNeedRead(g, c, i, false, victims, k);
    case Write(i, b, victims) => FaultedKeepsNeedRead(g, c, i, true, victims, k);
    case Flush(offset, length, unmap) =>
      FlushBounds(g, offset, length);
      FlushRangeAt(g, c, offset / g.segmentSize, (offset + length) / g.segmentSize, unmap);
    case Evict(_) =>
    case DropCleanPages => DropKeepsNeedRead(g, c, g.Segments(), k);
    case MarkDirty => MarkKeepsNeedRead(g, c, g.Segments(), k);
  }

  lemma FaultedKeepsNeedRead(g: Geometry, c: Cache, i: nat, isWrite: bool, victims: seq<nat>, k: nat)
    requires Shaped(g, c) && i < g.Aligned() && InRange(g, victims) && k < g.Segments() && c.status[k].needRead
    ensures Faulted(g, c, i, isWrite, victims).status[k].needRead
  {
    EvictKeepsNeedRead(g, Fault(g, c, g.SegmentOf(i), isWrite), victims, k);
  }

  lemma EvictKeepsNeedRead(g: Geometry, c: Cache, victims: seq<nat>, k: nat)
    requires Shaped(g, c) && InRange(g, victims) && k < g.Segments() && c.status[k].needRead
    ensures EvictAll(g, c, victims).status[k].needRead
  {
  }

  lemma DropKeepsNeedRead(g: Geometry, c: Cache, n: nat, k: nat)
    requires Shaped(g, c) && n <= g.Segments() && k < g.Segments() && c.status[k].needRead
    ensures DropClean(g, c, n).status[k].needRead
  {
  }

  lemma MarkKeepsNeedRead(g: Geometry, c: Cache, n: nat, k: nat)
    requires Shaped(g, c) && n <= g.Segments() && k < g.Segments() && c.status[k].needRead
    ensures MarkCleanAsDirty(g, c, n).status[k].needRead
  {
  }
}
