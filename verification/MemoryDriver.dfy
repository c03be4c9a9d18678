/** The in-memory storage driver: the concrete meaning of pread and pwrite. */
module MemoryDriver {
  import opened SegmentCache

  class MemoryDriver {
    const buffer: array<Byte>

    constructor (size: nat, defaultValue: Byte)
      requires 0 < size
      ensures fresh(buffer) && buffer.Length == size
      ensures forall i :: 0 <= i < size ==> buffer[i] == defaultValue
    {
      buffer := new Byte[size](_ => defaultValue);
    }

    /** Out-of-range positions stop the process: the caller must stay inside. */
    method Pwrite(source: array<Byte>, from: nat, size: nat, offset: nat)
      requires source != buffer && from + size <= source.Length
      requires offset < buffer.Length && size + offset <= buffer.Length
      modifies buffer
      ensures buffer[..] == Splice(old(buffer[..]), offset, source[from..from + size])
    {
      forall j | 0 <= j < size { buffer[offset + j] := source[from + j]; }
    }

    method Pread(target: array<Byte>, at: nat, size: nat, offset: nat)
      requires target != buffer && at + size <= target.Length
      requires offset < buffer.Length && size + offset <= buffer.Length
      modifies target
      ensures target[..] == Splice(old(target[..]), at, buffer[offset..offset + size])
    {
      forall j | 0 <= j < size { target[at + j] := buffer[offset + j]; }
    }
  }
}
