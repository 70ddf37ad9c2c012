/** The kernel32 primitives the engine calls: a bulk copy that assumes the two
    ranges do not overlap (`CopyMemory`) and a fill (`RtlFillMemory`). A
    pointer is an array together with a start index into it. */
module NativeMethods {
  import opened CopyPlan
  import opened Memory

  /** The two ranges of a copy do not overlap: they lie in different buffers,
      or one ends before the other begins. */
  predicate Disjoint(dst: array<byte>, dstStart: nat, src: array<byte>, srcStart: nat, length: nat) {
    dst != src || dstStart + length <= srcStart || srcStart + length <= dstStart
  }

  /** `CopyMemory(destination, source, length)`: the `length` bytes at
      `src[srcStart..]` are written to `dst[dstStart..]`; every other byte of
      `dst` keeps its value. */
  method CopyMemory(dst: array<byte>, dstStart: nat, src: array<byte>, srcStart: nat, length: uint32)
    requires dstStart + length <= dst.Length && srcStart + length <= src.Length
    requires Disjoint(dst, dstStart, src, srcStart, length)
    modifies dst
    ensures dst[..] == Copied(old(dst[..]), dstStart, old(src[..]), srcStart, length)
  {
    var i := 0;
    while i < length
      invariant 0 <= i <= length
      invariant forall k :: 0 <= k < dst.Length ==>
        dst[k] == if dstStart <= k < dstStart + i then old(src[srcStart + (k - dstStart)]) else old(dst[k])
    {
      dst[dstStart + i] := src[srcStart + i];
      i := i + 1;
    }
  }

  /** `RtlFillMemory(destination, length, fill)`: the `length` bytes from
      `dst[start]` on become `value`; every other byte keeps its value. */
  method FillMemory(dst: array<byte>, start: nat, length: uint32, value: byte)
    requires start + length <= dst.Length
    modifies dst
    ensures forall k :: 0 <= k < dst.Length ==>
      dst[k] == if start <= k < start + length then value else old(dst[k])
  {
    var i := 0;
    while i < length
      invariant 0 <= i <= length
      invariant forall k :: 0 <= k < dst.Length ==>
        dst[k] == if start <= k < start + i then value else old(dst[k])
    {
      dst[start + i] := value;
      i := i + 1;
    }
  }
}

/** .NET's `Buffer.MemoryCopy(source, destination, destinationSizeInBytes,
    sourceBytesToCopy)`: a portable copy that is correct even when the ranges
    overlap, and that refuses (with an `ArgumentOutOfRangeException`) to copy
    more bytes than the destination is declared to hold. */
module SystemBuffer {
  import opened Memory

  /** Copies `bytesToCopy` bytes as if through a temporary buffer; `ok` is
      false, and nothing is written, exactly when `bytesToCopy` exceeds
      `destinationSize`. */
  method MemoryCopy(src: array<byte>, srcStart: nat, dst: array<byte>, dstStart: nat, destinationSize: nat, bytesToCopy: nat)
    returns (ok: bool)
    requires srcStart + bytesToCopy <= src.Length && dstStart + destinationSize <= dst.Length
    modifies dst
    ensures ok <==> bytesToCopy <= destinationSize
    ensures ok ==> dst[..] == Copied(old(dst[..]), dstStart, old(src[..]), srcStart, bytesToCopy)
    ensures !ok ==> dst[..] == old(dst[..])
  {
    if bytesToCopy > destinationSize {
      return false;
    }
    var pending := src[..];
    var i := 0;
    while i < bytesToCopy
      invariant 0 <= i <= bytesToCopy
      invariant forall k :: 0 <= k < dst.Length ==>
        dst[k] == if dstStart <= k < dstStart + i then pending[srcStart + (k - dstStart)] else old(dst[k])
    {
      dst[dstStart + i] := pending[srcStart + i];
      i := i + 1;
    }
    return true;
  }
}
