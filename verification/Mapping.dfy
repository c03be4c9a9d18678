/**
 The mapping object: arrays of segment status, page protections and memory bytes,
 updated in place and written to a driver. Every method is proved to perform the
 corresponding step of SegmentCache, CacheRuns or CacheRedirect.
 */
module Mapping {
  import opened SegmentCache
  import opened CacheRuns
  import opened CacheRedirect
  import opened MemoryDriver

  const PAGE_SIZE := 4096

  class Mapping {
    const g: Geometry
    const status: array<SegmentStatus>
    const access: array<Access>
    const memory: array<Byte>
    var driver: MemoryDriver

    ghost predicate Valid()
      reads this
    {
      && g.Valid()
      && status.Length == access.Length == g.Segments()
      && memory.Length == g.Aligned()
      && g.storageOffset + g.size <= driver.buffer.Length
      && memory != driver.buffer
    }

    ghost function State(): (c: Cache)
      requires Valid()
      reads this, status, access, memory, driver.buffer
      ensures Shaped(g, c)
    {
      Cache(status[..], access[..], memory[..], driver.buffer[..])
    }

    constructor (size: nat, segmentSize: nat, storageOffset: nat, protection: Protection,
                 threadUnsafe: bool, noFirstRead: bool, driver: MemoryDriver)
      requires 0 < size && 0 < segmentSize && segmentSize % PAGE_SIZE == 0
      requires storageOffset + size <= driver.buffer.Length
      ensures Valid() && this.driver == driver
      ensures fresh(status) && fresh(access) && fresh(memory)
      ensures g == Geometry(size, segmentSize, storageOffset, protection, !threadUnsafe)
      ensures State() == Fresh(g, driver.buffer[..], noFirstRead)
    {
      var geometry := Geometry(size, segmentSize, storageOffset, protection, !threadUnsafe);
      g := geometry;
      this.driver := driver;
      status := new SegmentStatus[geometry.Segments()](_ => SegmentStatus(false, false, true));
      access := new Access[geometry.Segments()](_ => NoAccess);
      memory := new Byte[geometry.Aligned()](_ => 0);
      new;
      if noFirstRead { SkipFirstRead(); }
      assert State() == Fresh(g, driver.buffer[..], noFirstRead);
    }

    /** Sound only before any touch: nothing but the constructor calls it here. */
    method SkipFirstRead()
      requires Valid()
      modifies status
      ensures forall k :: 0 <= k < status.Length ==> status[k] == old(status[k]).(needRead := false)
    {
      for i := 0 to status.Length
        invariant forall k :: 0 <= k < status.Length ==>
                    status[k] == if k < i then old(status[k]).(needRead := false) else old(status[k])
      {
        status[i] := status[i].(needRead := false);
      }
    }

    /** Reads segment k from storage: into a new page moved over the segment at once when
        the mapping is thread-safe, directly into the opened segment otherwise. */
    method LoadAndSwapSegment(k: nat, writeAccess: bool)
      requires Valid() && k < g.Segments()
      modifies memory, access
      ensures memory[..] == LoadedMemory(g, old(State()), k)
      ensures access[..] == old(access[..])[k := if writeAccess then ReadWrite else ReadOnly]
    {
      if g.threadSafe {
        LoadInNewPage(k);
        access[k] := if writeAccess then ReadWrite else ReadOnly;
      } else {
        access[k] := ReadWrite;
        LoadInPlace(k);
        if !writeAccess { access[k] := ReadOnly; }
      }
    }

    method LoadInNewPage(k: nat)
      requires Valid() && k < g.Segments() && g.threadSafe
      modifies memory
      ensures memory[..] == LoadedMemory(g, old(State()), k)
    {
      SegmentFits(g, k);
      var offset := g.Start(k);
      var page := new Byte[g.segmentSize](_ => 0);
      driver.Pread(page, 0, g.ReadWriteSize(offset), g.storageOffset + offset);
      assert page[..] == LoadedSegment(g, old(State()), k);
      Overwrite(memory, offset, page);
    }

    method LoadInPlace(k: nat)
      requires Valid() && k < g.Segments() && !g.threadSafe
      modifies memory
      ensures memory[..] == LoadedMemory(g, old(State()), k)
    {
      SegmentFits(g, k);
      var offset := g.Start(k);
      var n := g.ReadWriteSize(offset);
      LoadedInPlace(g, State(), k, offset, n);
      driver.Pread(memory, offset, n, g.storageOffset + offset);
    }

    /** The fault handler. `ok` is false where the source stops the process. */
    method OnSegmentationFault(address: nat, isWrite: bool) returns (ok: bool)
      requires Valid()
      modifies status, access, memory
      ensures Valid() && ok == (address < g.Aligned() && g.Permits(isWrite))
      ensures State() == if ok then Fault(g, old(State()), g.SegmentOf(address), isWrite) else old(State())
    {
      ok := address < g.Aligned();
      if !ok || g.protection.None() || (isWrite && !g.protection.write) { ok := false; return; }
      SegmentIsQuotient(g, address);
      var k := address / g.segmentSize;
      var st := status[k];
      if isWrite == st.dirty && st.mapped { return; }
      if !st.mapped && st.needRead {
        LoadAndSwapSegment(k, isWrite);
        if isWrite { status[k] := status[k].(dirty := true); }
      } else if isWrite {
        access[k] := ReadWrite;
        status[k] := status[k].(dirty := true);
      } else {
        access[k] := ReadOnly;
      }
      status[k] := status[k].(mapped := true);
      assert State() == Fault(g, old(State()), k, isWrite);
    }

    /** mprotect NONE, madvise DONTNEED, mapped = false. */
    method Unmap(k: nat)
      requires Valid() && k < g.Segments()
      modifies status, access, memory
      ensures Valid() && State() == Unmapped(g, old(State()), k)
    {
      SegmentFits(g, k);
      var offset := g.Start(k);
      access[k] := NoAccess;
      forall j | 0 <= j < g.segmentSize { memory[offset + j] := 0; }
      status[k] := status[k].(mapped := false);
      assert memory[..] == Unmapped(g, old(State()), k).memory;
    }

    method WriteBack(k: nat)
      requires Valid() && k < g.Segments()
      modifies driver.buffer
      ensures driver.buffer[..] == WrittenBack(g, old(State()), k)
    {
      SegmentFits(g, k);
      var offset := g.Start(k);
      driver.Pwrite(memory, offset, g.ReadWriteSize(offset), g.storageOffset + offset);
    }

    /** The body of the flush loop. */
    method FlushOne(k: nat, unmap: bool)
      requires Valid() && k < g.Segments()
      modifies status, access, memory, driver.buffer
      ensures Valid() && State() == FlushSegment(g, old(State()), k, unmap)
    {
      if status[k].dirty && status[k].mapped {
        if g.threadSafe { access[k] := ReadOnly; }
        WriteBack(k);
        status[k] := status[k].(dirty := false, needRead := true);
      }
      if status[k].mapped {
        if unmap { Unmap(k); }
        else if !g.threadSafe { access[k] := ReadOnly; }
      }
    }

    /** `ok` is false where the argument check stops the process. */
    method FlushPages(offset: nat, length: nat, unmap: bool) returns (ok: bool)
      requires Valid()
      modifies status, access, memory, driver.buffer
      ensures Valid() && ok == FlushAccepts(g, offset, length)
      ensures !ok ==> State() == old(State())
      ensures ok ==> State() == Step(g, old(State()), Flush(offset, length, unmap))
      ensures ok ==> FlushedBytes(g, old(State()), State(), offset, length, unmap)
    {
      ok := offset < g.size && offset + length <= g.Aligned()
            && offset % g.segmentSize == 0 && length % g.segmentSize == 0;
      if !ok { return; }
      FlushBounds(g, offset, length);
      StepFlushes(g, State(), offset, length, unmap);
      FlushLoop(offset, offset + length, unmap, offset / g.segmentSize, (offset + length) / g.segmentSize);
    }

    /** The segment that starts at an offset. */
    method SegmentAt(offset: nat, ghost k: nat) returns (id: nat)
      requires g.Valid() && offset == g.Start(k)
      ensures id == k
    {
      StartQuotient(g, k);
      id := offset / g.segmentSize;
    }

    method FlushLoop(offset: nat, end: nat, unmap: bool, ghost from: nat, ghost to: nat)
      requires Valid() && from <= to <= g.Segments()
      requires offset == g.Start(from) && end == g.Start(to)
      modifies status, access, memory, driver.buffer
      ensures Valid() && State() == FlushRange(g, old(State()), from, to, unmap)
    {
      var cur := offset;
      ghost var k := from;
      StartMono(g, from, to);
      while cur < end
        invariant from <= k <= to && cur == g.Start(k) && (cur < end <==> k < to) && Valid()
        invariant State() == FlushRange(g, old(State()), from, k, unmap)
      {
        var id := SegmentAt(cur, k);
        FlushOne(id, unmap);
        StartMono(g, k + 1, to);
        cur := cur + g.segmentSize;
        k := k + 1;
      }
    }

    /** evict, once the policies have been told. */
    method EvictSegment(k: nat)
      requires Valid() && k < g.Segments()
      modifies status, access, memory, driver.buffer
      ensures Valid() && State() == Step(g, old(State()), Evict(k))
      ensures FlushedBytes(g, old(State()), State(), g.Start(k), g.segmentSize, true)
    {
      StepEvicts(g, State(), k);
      FlushOne(k, true);
    }

    method DropCleanPages()
      requires Valid()
      modifies status, access, memory
      ensures Valid() && State() == DropClean(g, old(State()), g.Segments())
    {
      for i := 0 to g.Segments()
        invariant Valid() && State() == DropClean(g, old(State()), i)
      {
        if status[i].mapped && !status[i].dirty { Unmap(i); }
      }
    }

    method MarkDirty()
      requires Valid()
      modifies status, access
      ensures Valid() && State() == MarkCleanAsDirty(g, old(State()), g.Segments())
    {
      for i := 0 to g.Segments()
        invariant Valid() && State() == MarkCleanAsDirty(g, old(State()), i)
      {
        if status[i].mapped && !status[i].dirty && g.protection.write {
          access[i] := ReadWrite;
          status[i] := status[i].(dirty := true);
        }
      }
    }

    /** One attempt of the processor to reach byte i, with the evictions the policies
        order if it faults. A write that gets through stores b. */
    method Attempt(i: nat, isWrite: bool, b: Byte, victims: seq<nat>) returns (completed: bool, value: Byte)
      requires Valid() && i < g.Aligned() && g.Permits(isWrite) && InRange(g, victims)
      modifies status, access, memory, driver.buffer
      ensures Valid() && completed == Granted(g, old(State()), i, isWrite)
      ensures completed && !isWrite ==> value == old(memory[i])
      ensures State() == Step(g, old(State()), if isWrite then Write(i, b, victims) else Read(i, victims))
    {
      value := b;
      var a := access[g.SegmentOf(i)];
      completed := if isWrite then a == ReadWrite else a != NoAccess;
      if completed {
        if isWrite { memory[i] := b; } else { value := memory[i]; }
      } else {
        var ok := OnSegmentationFault(i, isWrite);
        ghost var faulted := State();
        for j := 0 to |victims|
          invariant Valid() && State() == EvictAll(g, faulted, victims[..j])
        {
          EvictSegment(victims[j]);
          assert victims[..j + 1][..j] == victims[..j];
        }
        assert victims[..|victims|] == victims;
      }
    }

    method Perform(op: Op)
      requires Valid() && Allowed(g, op)
      modifies status, access, memory, driver.buffer
      ensures Valid() && State() == Step(g, old(State()), op)
    {
      match op
      case Read(i, victims) => var _, _ := Attempt(i, false, 0, victims);
      case Write(i, b, victims) => var _, _ := Attempt(i, true, b, victims);
      case Flush(offset, length, unmap) => var _ := FlushPages(offset, length, unmap);
      case Evict(k) => EvictSegment(k);
      case DropCleanPages => DropCleanPages();
      case MarkDirty => MarkDirty();
    }

    /** Any run of the object is a run of the model; nothing but the current driver's
        buffer and the mapping's own arrays is written. */
    method Execute(ops: seq<Op>)
      requires Valid() && AllAllowed(g, ops)
      modifies status, access, memory, driver.buffer
      ensures Valid() && State() == Run(g, old(State()), ops)
    {
      for j := 0 to |ops|
        invariant Valid() && State() == Run(g, old(State()), ops[..j])
      {
        Perform(ops[j]);
        assert ops[..j + 1][..j] == ops[..j];
      }
      assert ops[..|ops|] == ops;
    }

    // ---- copy-on-write and switch ---------------------------------------------

    /** copyMappedPart, for a storage of `limit` bytes from the mapping's offset; m counts
        the rounds. */
    method CopyMappedPart(newDriver: MemoryDriver, limit: nat) returns (ghost m: nat)
      requires Valid() && limit <= g.size && g.storageOffset + g.size <= newDriver.buffer.Length
      requires newDriver.buffer != driver.buffer && newDriver.buffer != memory
      modifies newDriver.buffer
      ensures Within(g, limit, m) && limit <= g.Start(m)
      ensures newDriver.buffer[..] == CopyRounds(g, State(), old(newDriver.buffer[..]), limit, m)
    {
      var page := new Byte[g.segmentSize];
      var i := 0;
      m := 0;
      while i < limit
        invariant i == g.Start(m) && Within(g, limit, m)
        invariant newDriver.buffer[..] == CopyRounds(g, State(), old(newDriver.buffer[..]), limit, m)
      {
        var k := SegmentAt(i, m);
        CopyOne(newDriver, page, limit, i, k);
        i := i + g.segmentSize;
        m := m + 1;
      }
    }

    method CopyOne(newDriver: MemoryDriver, page: array<Byte>, limit: nat, i: nat, k: nat)
      requires Valid() && i == g.Start(k) < limit <= g.size && g.storageOffset + g.size <= newDriver.buffer.Length
      requires newDriver.buffer != driver.buffer && newDriver.buffer != memory && page.Length == g.segmentSize
      requires page != newDriver.buffer && page != driver.buffer && page != memory
      modifies newDriver.buffer, page
      ensures newDriver.buffer[..] == CopyRound(g, State(), old(newDriver.buffer[..]), limit, k)
    {
      StartBelow(g, k, i, g.Segments());
      var copySize := CopySize(g, limit, k);
      if status[k].mapped && !status[k].dirty {
        newDriver.Pwrite(memory, i, copySize, g.storageOffset + i);
      } else {
        Forward(driver, newDriver, page, copySize, g.storageOffset + i);
      }
    }

    /** copyToDriver with the size all its callers pass, then the redirection. The old
        driver is not in the frame, here or in any later call. */
    method CopyOnWrite(newDriver: MemoryDriver)
      requires Valid() && g.storageOffset + g.size <= newDriver.buffer.Length
      requires newDriver.buffer != driver.buffer && newDriver.buffer != memory
      modifies newDriver.buffer, this`driver
      ensures Valid() && driver == newDriver
      ensures State() == Cow(g, old(State()), old(newDriver.buffer[..]))
    {
      ghost var m := CopyMappedPart(newDriver, g.size);
      SegmentsUnique(g, m);
      driver := newDriver;
    }

    method SwitchDriver(newDriver: MemoryDriver, action: CleanAction)
      requires Valid() && g.storageOffset + g.size <= newDriver.buffer.Length && newDriver.buffer != memory
      modifies this`driver, status, access, memory
      ensures Valid() && driver == newDriver
      ensures State() == Switch(g, old(State()), newDriver.buffer[..], action)
    {
      driver := newDriver;
      match action
      case NoAction =>
      case DropCleanSegments => DropCleanPages();
      case MarkCleanSegments => MarkDirty();
    }
  }

  /** Bytes read from one driver and written to another at the same place. */
  method Forward(source: MemoryDriver, target: MemoryDriver, page: array<Byte>, n: nat, at: nat)
    requires n <= page.Length && at < source.buffer.Length && at + n <= source.buffer.Length
    requires at < target.buffer.Length && at + n <= target.buffer.Length
    requires source.buffer != target.buffer && page != source.buffer && page != target.buffer
    modifies target.buffer, page
    ensures target.buffer[..] == Splice(old(target.buffer[..]), at, source.buffer[at..at + n])
  {
    source.Pread(page, 0, n, at);
    assert page[0..n] == source.buffer[at..at + n];
    target.Pwrite(page, 0, n, at);
  }

  /** One page moved over another: mremap. */
  method Overwrite(target: array<Byte>, at: nat, source: array<Byte>)
    requires target != source && at + source.Length <= target.Length
    modifies target
    ensures target[..] == Splice(old(target[..]), at, source[..])
  {
    forall j | 0 <= j < source.Length { target[at + j] := source[j]; }
  }

  lemma SegmentsUnique(g: Geometry, m: nat)
    requires g.Valid() && 0 < m && g.Start(m - 1) < g.size <= g.Start(m)
    ensures m == g.Segments()
  {
    var n := g.Segments();
    if m < n { StartMono(g, m, n - 1); }
    if n < m { StartMono(g, n, m - 1); }
  }

  /** Copy-on-write isolates the old storage: whatever runs on the mapping afterwards,
      the old driver keeps the bytes it had and the user sees one flat array. */
  method CowIsolates(m: Mapping, newDriver: MemoryDriver, ops: seq<Op>)
    requires m.Valid() && Inv(m.g, m.State()) && AllAllowed(m.g, ops)
    requires m.g.storageOffset + m.g.size <= newDriver.buffer.Length
    requires newDriver.buffer != m.driver.buffer && newDriver.buffer != m.memory
    modifies m`driver, m.status, m.access, m.memory, newDriver.buffer
    ensures m.Valid() && Inv(m.g, m.State())
    ensures old(m.driver).buffer[..] == old(m.driver.buffer[..])
    ensures View(m.g, m.State())
         == FlatRun(m.g, Cow(m.g, old(m.State()), old(newDriver.buffer[..])), ops,
                    View(m.g, old(m.State())))
  {
    CowInvisible(m.g, m.State(), newDriver.buffer[..]);
    m.CopyOnWrite(newDriver);
    RunRefines(m.g, m.State(), ops);
    m.Execute(ops);
  }
}
