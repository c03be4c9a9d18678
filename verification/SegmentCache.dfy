/**
 The segment state machine of a mapping, on values: three status bits and a page
 protection per segment, the bytes held in memory and the bytes of the backing
 storage. Every function below is the specification of one operation of `Mapping`
 (see Mapping.dfy); the lemmas say that all of them are invisible to the user.
 */
module SegmentCache {

  newtype Byte = x: int | 0 <= x < 256

  datatype Protection = Protection(read: bool, write: bool, exec: bool) {
    predicate None() { !read && !write && !exec }
  }

  /** What the constructor of a mapping fixes for its whole life. */
  datatype Geometry = Geometry(size: nat, segmentSize: nat, storageOffset: nat,
                               protection: Protection, threadSafe: bool) {
    predicate Valid() { 0 < size && 0 < segmentSize }

    /** Where segment k starts; `StartIsProduct` says it is k times the segment size. */
    function Start(k: nat): nat {
      if k == 0 then 0 else Start(k - 1) + segmentSize
    }

    /** The segment holding a byte offset; `SegmentUnique` says it is the only one and
        `SegmentIsQuotient` that it is the quotient of the offset by the segment size. */
    function SegmentOf(i: nat): (k: nat)
      requires Valid()
      ensures Start(k) <= i < Start(k) + segmentSize
      ensures i < Aligned() ==> k < Segments()
    {
      HasSegment(this, i);
      var k: nat :| k <= i && Start(k) <= i < Start(k) + segmentSize;
      if i < Aligned() then StartBelow(this, k, i, Segments()); k else k
    }

    /** Number of segments: the size rounded up to whole segments, see `SegmentsRoundUp`. */
    function Segments(): (n: nat)
      requires Valid()
      ensures 0 < n && Start(n - 1) < size <= Start(n)
    {
      HasSegment(this, size - 1);
      var k: nat :| k <= size - 1 && Start(k) <= size - 1 < Start(k) + segmentSize;
      k + 1
    }

    function Aligned(): (n: nat)
      requires Valid()
      ensures size <= n < size + segmentSize
    {
      Start(Segments())
    }

    /** Bytes of segment k that exist on storage: the last segment may be short. */
    function ReadWriteSize(offset: nat): (n: nat)
      requires offset < size
    {
      if size - offset >= segmentSize then segmentSize else size - offset
    }

    predicate Permits(isWrite: bool) {
      !protection.None() && (isWrite ==> protection.write)
    }
  }

  lemma {:induction false} StartIsProduct(g: Geometry, k: nat)
    ensures g.Start(k) == k * g.segmentSize
  {
    if k > 0 { StartIsProduct(g, k - 1); }
  }

  lemma {:induction false} StartMono(g: Geometry, a: nat, b: nat)
    requires a <= b
    ensures g.Start(a) <= g.Start(b)
    ensures a < b ==> g.Start(a) + g.segmentSize <= g.Start(b)
  {
    if a < b { StartMono(g, a, b - 1); }
  }

  lemma StartBelow(g: Geometry, k: nat, i: nat, n: nat)
    requires g.Start(k) <= i < g.Start(n)
    ensures k < n
  {
    if n <= k { StartMono(g, n, k); }
  }

  lemma {:induction false} HasSegment(g: Geometry, i: nat)
    requires g.Valid()
    ensures exists k: nat :: k <= i && g.Start(k) <= i < g.Start(k) + g.segmentSize
    ensures forall k: nat, l: nat ::
      g.Start(k) <= i < g.Start(k) + g.segmentSize && g.Start(l) <= i < g.Start(l) + g.segmentSize ==> k == l
  {
    forall k: nat, l: nat
      | g.Start(k) <= i < g.Start(k) + g.segmentSize && g.Start(l) <= i < g.Start(l) + g.segmentSize
      ensures k == l
    {
      if k < l { StartMono(g, k, l); }
      if l < k { StartMono(g, l, k); }
    }
    if i < g.segmentSize {
      assert g.Start(0) == 0;
    } else {
      HasSegment(g, i - g.segmentSize);
      var k: nat :| k <= i - g.segmentSize && g.Start(k) <= i - g.segmentSize < g.Start(k) + g.segmentSize;
      assert g.Start(k + 1) == g.Start(k) + g.segmentSize;
    }
  }

  lemma SegmentUnique(g: Geometry, i: nat, k: nat)
    requires g.Valid()
    ensures g.Start(k) <= i < g.Start(k) + g.segmentSize <==> g.SegmentOf(i) == k
  {
    var j := g.SegmentOf(i);
    if j < k { StartMono(g, j, k); }
    if k < j { StartMono(g, k, j); }
  }

  /** The source computes the segment of an address by an integer division. */
  lemma SegmentIsQuotient(g: Geometry, i: nat)
    requires g.Valid()
    ensures g.SegmentOf(i) == i / g.segmentSize
  {
    var q := i / g.segmentSize;
    assert i == q * g.segmentSize + i % g.segmentSize;
    StartIsProduct(g, q);
    SegmentUnique(g, i, q);
  }

  lemma StartQuotient(g: Geometry, k: nat)
    requires g.Valid()
    ensures g.Start(k) / g.segmentSize == k
  {
    SegmentUnique(g, g.Start(k), k);
    SegmentIsQuotient(g, g.Start(k));
  }

  /** The source rounds the size up to a multiple of the segment size and divides. */
  lemma SegmentsRoundUp(g: Geometry)
    requires g.Valid()
    ensures var mapSize := if g.size % g.segmentSize != 0 then g.size + (g.segmentSize - g.size % g.segmentSize)
                           else g.size;
            g.Aligned() == mapSize && g.Segments() == mapSize / g.segmentSize
  {
    var q, n := g.size / g.segmentSize, g.Segments();
    assert g.size == q * g.segmentSize + g.size % g.segmentSize;
    StartIsProduct(g, q);
    StartQuotient(g, n);
    if n - 1 < q { StartMono(g, n, q); }
    if q < n - 1 { StartMono(g, q, n - 1); }
  }

  /** Segment k lies inside the aligned range, and starts inside the mapped size. */
  lemma SegmentFits(g: Geometry, k: nat)
    requires g.Valid() && k < g.Segments()
    ensures g.Start(k) < g.size
    ensures g.Start(k) + g.segmentSize <= g.Aligned()
  {
    StartMono(g, k, g.Segments() - 1);
    StartMono(g, k, g.Segments());
  }

  datatype SegmentStatus = SegmentStatus(mapped: bool, dirty: bool, needRead: bool)

  datatype Access = NoAccess | ReadOnly | ReadWrite

  datatype Cache = Cache(status: seq<SegmentStatus>, access: seq<Access>,
                         memory: seq<Byte>, storage: seq<Byte>)

  /** Bytes `data` written over `s` at position `at` (memcpy, pread, pwrite). */
  function Splice(s: seq<Byte>, at: nat, data: seq<Byte>): (r: seq<Byte>)
    requires at + |data| <= |s|
    ensures |r| == |s|
    ensures forall i :: 0 <= i < |s| ==> r[i] == if at <= i < at + |data| then data[i - at] else s[i]
  {
    s[..at] + data + s[at + |data|..]
  }

  /** Writing bytes and then the bytes already there is writing the first ones only. */
  lemma SpliceTail(s: seq<Byte>, at: nat, data: seq<Byte>, end: nat)
    requires at + |data| <= end <= |s|
    ensures Splice(s, at, data + s[at + |data|..end]) == Splice(s, at, data)
  {
  }

  function Zeros(n: nat): (r: seq<Byte>)
    ensures |r| == n && forall i :: 0 <= i < n ==> r[i] == 0
  {
    seq(n, _ => 0)
  }

  /** The shape of the state, without which nothing below is defined. */
  predicate Shaped(g: Geometry, c: Cache) {
    && g.Valid()
    && |c.status| == |c.access| == g.Segments()
    && |c.memory| == g.Aligned()
    && g.storageOffset + g.size <= |c.storage|
  }

  /** The protection the status bits call for. */
  function AccessFor(st: SegmentStatus): Access {
    if !st.mapped then NoAccess else if st.dirty then ReadWrite else ReadOnly
  }

  /** The page table mirrors the status of segment k. */
  predicate Mirrors(g: Geometry, c: Cache, k: nat)
    requires Shaped(g, c) && k < g.Segments()
  {
    && c.access[k] == AccessFor(c.status[k])
    && (c.status[k].dirty ==> c.status[k].mapped && g.protection.write)
    && (c.status[k].mapped ==> !g.protection.None())
  }

  /** Byte i may be dropped from memory unless its segment is dirty. */
  predicate Backed(g: Geometry, c: Cache, i: nat)
    requires Shaped(g, c) && i < g.Aligned()
  {
    var st := c.status[g.SegmentOf(i)];
    && (!st.mapped ==> c.memory[i] == 0)
    && (st.mapped && !st.dirty ==>
          if st.needRead then i < g.size ==> c.memory[i] == c.storage[g.storageOffset + i]
          else c.memory[i] == 0)
  }

  ghost predicate Inv(g: Geometry, c: Cache) {
    && Shaped(g, c)
    && (forall k: nat :: k < g.Segments() ==> Mirrors(g, c, k))
    && (forall i: nat :: i < g.Aligned() ==> Backed(g, c, i))
  }

  /** What the user sees at byte i. */
  function ViewAt(g: Geometry, c: Cache, i: nat): Byte
    requires Shaped(g, c) && i < g.size
  {
    var st := c.status[g.SegmentOf(i)];
    if st.mapped then c.memory[i] else if st.needRead then c.storage[g.storageOffset + i] else 0
  }

  function View(g: Geometry, c: Cache): (v: seq<Byte>)
    requires Shaped(g, c)
    ensures |v| == g.size && forall i: nat :: i < g.size ==> v[i] == ViewAt(g, c, i)
  {
    seq(g.size, i requires 0 <= i < g.size => ViewAt(g, c, i))
  }

  /** Storage bytes outside the mapped window. */
  predicate SameOutside(g: Geometry, a: seq<Byte>, b: seq<Byte>) {
    && |a| == |b|
    && forall j :: 0 <= j < |a| && !(g.storageOffset <= j < g.storageOffset + g.size) ==> a[j] == b[j]
  }

  // ---- construction -------------------------------------------------------

  function Fresh(g: Geometry, storage: seq<Byte>, noFirstRead: bool): (c: Cache)
    requires g.Valid() && g.storageOffset + g.size <= |storage|
  {
    Cache(seq(g.Segments(), _ => SegmentStatus(false, false, !noFirstRead)),
          seq(g.Segments(), _ => NoAccess), Zeros(g.Aligned()), storage)
  }

  /** A new mapping shows its storage window, or zeros under UMMAP_NO_FIRST_READ. */
  lemma FreshView(g: Geometry, storage: seq<Byte>, noFirstRead: bool)
    requires g.Valid() && g.storageOffset + g.size <= |storage|
    ensures Inv(g, Fresh(g, storage, noFirstRead))
    ensures View(g, Fresh(g, storage, noFirstRead))
         == if noFirstRead then Zeros(g.size) else storage[g.storageOffset..g.storageOffset + g.size]
  {
  }

  // ---- faults ---------------------------------------------------------------

  /** The bytes segment k receives when it is read from storage. A thread-safe mapping
      reads into a new zeroed page, the other one over the page already in place. */
  function LoadedSegment(g: Geometry, c: Cache, k: nat): (page: seq<Byte>)
    requires Shaped(g, c) && k < g.Segments()
    ensures |page| == g.segmentSize
  {
    SegmentFits(g, k);
    var at := g.Start(k);
    var n := g.ReadWriteSize(at);
    var tail := if g.threadSafe then Zeros(g.segmentSize - n) else c.memory[at + n..at + g.segmentSize];
    c.storage[g.storageOffset + at..g.storageOffset + at + n] + tail
  }

  /** The memory once segment k has been read from storage. */
  function LoadedMemory(g: Geometry, c: Cache, k: nat): (m: seq<Byte>)
    requires Shaped(g, c) && k < g.Segments()
    ensures |m| == |c.memory|
  {
    SegmentFits(g, k);
    Splice(c.memory, g.Start(k), LoadedSegment(g, c, k))
  }

  /** Reading in place touches the stored bytes only. */
  lemma LoadedInPlace(g: Geometry, c: Cache, k: nat, at: nat, n: nat)
    requires Shaped(g, c) && k < g.Segments() && !g.threadSafe
    requires at == g.Start(k) < g.size && n == g.ReadWriteSize(at) && at + n <= |c.memory|
    ensures LoadedMemory(g, c, k) == Splice(c.memory, at, c.storage[g.storageOffset + at..g.storageOffset + at + n])
  {
    SegmentFits(g, k);
    SpliceTail(c.memory, at, c.storage[g.storageOffset + at..g.storageOffset + at + n], at + g.segmentSize);
  }

  /** onSegmentationFault on segment k, the policies' reaction left to `EvictAll`. */
  function Fault(g: Geometry, c: Cache, k: nat, isWrite: bool): (r: Cache)
    requires Shaped(g, c) && k < g.Segments()
    ensures Shaped(g, r)
  {
    var st := c.status[k];
    if isWrite == st.dirty && st.mapped then c
    else
      var touched := c.(access := c.access[k := if isWrite then ReadWrite else ReadOnly],
                       status := c.status[k := st.(mapped := true, dirty := st.dirty || isWrite)]);
      if !st.mapped && st.needRead then touched.(memory := LoadedMemory(g, c, k)) else touched
  }

  // ---- flush and eviction ---------------------------------------------------

  /** The storage once the bytes of segment k have been written to it. */
  function WrittenBack(g: Geometry, c: Cache, k: nat): (s: seq<Byte>)
    requires Shaped(g, c) && k < g.Segments()
    ensures |s| == |c.storage|
  {
    SegmentFits(g, k);
    var at := g.Start(k);
    Splice(c.storage, g.storageOffset + at, c.memory[at..at + g.ReadWriteSize(at)])
  }

  /** Segment k unmapped: protection dropped and the pages given back to the system. */
  function Unmapped(g: Geometry, c: Cache, k: nat): (r: Cache)
    requires Shaped(g, c) && k < g.Segments()
    ensures Shaped(g, r)
  {
    SegmentFits(g, k);
    c.(access := c.access[k := NoAccess],
       memory := Splice(c.memory, g.Start(k), Zeros(g.segmentSize)),
       status := c.status[k := c.status[k].(mapped := false)])
  }

  /** The body of the flush loop on one segment. */
  function FlushSegment(g: Geometry, c: Cache, k: nat, unmap: bool): (r: Cache)
    requires Shaped(g, c) && k < g.Segments()
    ensures Shaped(g, r)
  {
    var st := c.status[k];
    var w := if st.dirty && st.mapped then
               c.(storage := WrittenBack(g, c, k),
                  status := c.status[k := st.(dirty := false, needRead := true)],
                  access := if g.threadSafe then c.access[k := ReadOnly] else c.access)
             else c;
    if !st.mapped then w
    else if unmap then Unmapped(g, w, k)
    else if !g.threadSafe then w.(access := w.access[k := ReadOnly])
    else w
  }

  function FlushRange(g: Geometry, c: Cache, from: nat, to: nat, unmap: bool): (r: Cache)
    requires Shaped(g, c) && from <= to <= g.Segments()
    ensures Shaped(g, r)
  {
    if to == from then c else FlushSegment(g, FlushRange(g, c, from, to - 1, unmap), to - 1, unmap)
  }

  /** The evictions the policies order after a touch. */
  function EvictAll(g: Geometry, c: Cache, victims: seq<nat>): (r: Cache)
    requires Shaped(g, c) && forall j :: 0 <= j < |victims| ==> victims[j] < g.Segments()
    ensures Shaped(g, r)
  {
    if victims == [] then c
    else FlushSegment(g, EvictAll(g, c, victims[..|victims| - 1]), victims[|victims| - 1], true)
  }

  // ---- dropClean and markCleanAsDirty ---------------------------------------

  function DropClean(g: Geometry, c: Cache, n: nat): (r: Cache)
    requires Shaped(g, c) && n <= g.Segments()
    ensures Shaped(g, r)
  {
    if n == 0 then c
    else
      var d := DropClean(g, c, n - 1);
      if d.status[n - 1].mapped && !d.status[n - 1].dirty then Unmapped(g, d, n - 1) else d
  }

  function MarkCleanAsDirty(g: Geometry, c: Cache, n: nat): (r: Cache)
    requires Shaped(g, c) && n <= g.Segments()
    ensures Shaped(g, r)
  {
    if n == 0 then c
    else
      var d := MarkCleanAsDirty(g, c, n - 1);
      var st := d.status[n - 1];
      if st.mapped && !st.dirty && g.protection.write then
        d.(access := d.access[n - 1 := ReadWrite], status := d.status[n - 1 := st.(dirty := true)])
      else d
  }

  // ---- one segment changes, the rest of the state does not --------------------

  /** r differs from c at most in segment k, and shows the same bytes there. */
  ghost predicate Touches(g: Geometry, c: Cache, r: Cache, k: nat)
    requires Shaped(g, c) && Shaped(g, r) && k < g.Segments()
  {
    && |r.storage| == |c.storage|
    && (forall j: nat :: j < g.Segments() && j != k ==> r.status[j] == c.status[j] && r.access[j] == c.access[j])
    && (forall i: nat :: i < g.Aligned() && g.SegmentOf(i) != k ==> r.memory[i] == c.memory[i])
    && (forall i: nat :: i < g.size && g.SegmentOf(i) != k ==>
          r.storage[g.storageOffset + i] == c.storage[g.storageOffset + i])
    && SameOutside(g, c.storage, r.storage)
  }

  /** Such a change keeps the invariant and the view if it keeps them inside segment k. */
  lemma LocalChange(g: Geometry, c: Cache, r: Cache, k: nat)
    requires Inv(g, c) && Shaped(g, r) && k < g.Segments() && Touches(g, c, r, k)
    requires Mirrors(g, r, k)
    requires forall i: nat :: i < g.Aligned() && g.SegmentOf(i) == k ==> Backed(g, r, i)
    requires forall i: nat :: i < g.size && g.SegmentOf(i) == k ==> ViewAt(g, r, i) == ViewAt(g, c, i)
    ensures Inv(g, r) && View(g, r) == View(g, c)
  {
    forall j: nat | j < g.Segments() ensures Mirrors(g, r, j) {
      assert Mirrors(g, c, j);
    }
    forall i: nat | i < g.Aligned() ensures Backed(g, r, i) {
      assert Backed(g, c, i);
    }
    forall i: nat | i < g.size ensures ViewAt(g, r, i) == ViewAt(g, c, i) {}
  }

  lemma InSegment(g: Geometry, k: nat)
    requires g.Valid()
    ensures forall i: nat :: g.SegmentOf(i) == k <==> g.Start(k) <= i < g.Start(k) + g.segmentSize
  {
    forall i: nat { SegmentUnique(g, i, k); }
  }

  /** A fault the processor raised leaves the view alone and opens the access. */
  lemma FaultInvisible(g: Geometry, c: Cache, k: nat, isWrite: bool)
    requires Inv(g, c) && k < g.Segments() && g.Permits(isWrite)
    requires if isWrite then c.access[k] != ReadWrite else c.access[k] == NoAccess
    ensures var r := Fault(g, c, k, isWrite);
            && Inv(g, r) && View(g, r) == View(g, c) && r.storage == c.storage
            && (forall j: nat :: j < g.Segments() && j != k ==>
                  r.status[j] == c.status[j] && r.access[j] == c.access[j])
            && r.access[k] == (if isWrite then ReadWrite else ReadOnly)
  {
    var r := Fault(g, c, k, isWrite);
    assert Mirrors(g, c, k);
    InSegment(g, k);
    SegmentFits(g, k);
    forall i: nat | i < g.Aligned() && g.SegmentOf(i) == k
      ensures Backed(g, r, i) && (i < g.size ==> ViewAt(g, r, i) == ViewAt(g, c, i))
    {
      assert Backed(g, c, i);
    }
    LocalChange(g, c, r, k);
  }

  lemma UnmapInvisible(g: Geometry, c: Cache, k: nat)
    requires Inv(g, c) && k < g.Segments() && !c.status[k].dirty
    ensures Inv(g, Unmapped(g, c, k)) && View(g, Unmapped(g, c, k)) == View(g, c)
    ensures Touches(g, c, Unmapped(g, c, k), k)
  {
    var r := Unmapped(g, c, k);
    InSegment(g, k);
    SegmentFits(g, k);
    assert Mirrors(g, c, k);
    forall i: nat | i < g.Aligned() && g.SegmentOf(i) == k
      ensures Backed(g, r, i) && (i < g.size ==> ViewAt(g, r, i) == ViewAt(g, c, i))
    {
      assert Backed(g, c, i);
    }
    LocalChange(g, c, r, k);
  }

  /** Writing a dirty segment to storage is invisible, and leaves the segment clean. */
  lemma WriteBackInvisible(g: Geometry, c: Cache, k: nat)
    requires Inv(g, c) && k < g.Segments() && c.status[k].dirty
    ensures var w := FlushSegment(g, c, k, false);
            Inv(g, w) && View(g, w) == View(g, c) && !w.status[k].dirty && Touches(g, c, w, k)
  {
    var w := FlushSegment(g, c, k, false);
    assert Mirrors(g, c, k);
    WrittenBackAt(g, c, k);
    forall i: nat | i < g.Aligned() && g.SegmentOf(i) == k
      ensures Backed(g, w, i) && (i < g.size ==> ViewAt(g, w, i) == ViewAt(g, c, i))
    {
      assert Backed(g, c, i);
    }
    LocalChange(g, c, w, k);
  }

  lemma WrittenBackAt(g: Geometry, c: Cache, k: nat)
    requires Shaped(g, c) && k < g.Segments()
    ensures var s := WrittenBack(g, c, k);
      && SameOutside(g, c.storage, s)
      && forall i: nat :: i < g.size ==>
           s[g.storageOffset + i] == if g.SegmentOf(i) == k then c.memory[i] else c.storage[g.storageOffset + i]
  {
    var s := WrittenBack(g, c, k);
    SegmentFits(g, k);
    forall i: nat | i < g.size
      ensures s[g.storageOffset + i] == if g.SegmentOf(i) == k then c.memory[i] else c.storage[g.storageOffset + i]
    {
      SegmentUnique(g, i, k);
    }
  }

  /** Flushing one segment is invisible, and leaves the segment clean. */
  lemma FlushSegmentInvisible(g: Geometry, c: Cache, k: nat, unmap: bool)
    requires Inv(g, c) && k < g.Segments()
    ensures var r := FlushSegment(g, c, k, unmap);
            && Inv(g, r) && View(g, r) == View(g, c) && !r.status[k].dirty
            && (unmap ==> !r.status[k].mapped)
            && Touches(g, c, r, k)
  {
    var st := c.status[k];
    assert Mirrors(g, c, k);
    if st.dirty {
      WriteBackInvisible(g, c, k);
      if unmap {
        var w := FlushSegment(g, c, k, false);
        UnmapInvisible(g, w, k);
        assert FlushSegment(g, c, k, true) == Unmapped(g, w, k);
      }
    } else if unmap && st.mapped {
      UnmapInvisible(g, c, k);
    } else {
      assert FlushSegment(g, c, k, unmap).access == c.access;
    }
  }
}
