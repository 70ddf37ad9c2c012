/** The memory-copy engine of the Windows platform layer. */
module Platform {
  import opened CopyPlan
  import opened Memory
  import NativeMethods
  import SystemBuffer

  /** How `CopyMemory` moves bytes. */
  datatype MemoryCopyStrategy = Native | ParallelNative | Buffer

  /** The engine: a parallelism fixed when it is built and a copy strategy
      (the C# code builds one instance, with parallelism derived from the
      processor count and the ParallelNative strategy). */
  class WindowsNativeMethods {
    const parallelism: int
    const copyStrategy: MemoryCopyStrategy

    constructor (parallelism: int, copyStrategy: MemoryCopyStrategy)
      requires parallelism >= 1
      ensures this.parallelism == parallelism && this.copyStrategy == copyStrategy
    {
      this.parallelism := parallelism;
      this.copyStrategy := copyStrategy;
    }

    /** Sets `length` bytes from `dst[start]` on to `value`. */
    method FillMemory(dst: array<byte>, start: nat, length: uint32, value: byte)
      requires start + length <= dst.Length
      modifies dst
      ensures forall k :: 0 <= k < dst.Length ==>
        dst[k] == if start <= k < start + length then value else old(dst[k])
    {
      NativeMethods.FillMemory(dst, start, length, value);
    }

    /** Copies `copyLength` bytes from `src[srcStart..]` to `dst[dstStart..]`
        with the configured strategy; whichever it is, the destination range
        ends up equal to the source range and nothing else changes. Only the
        strategies that end in kernel32's copy need the ranges not to
        overlap; `Buffer.MemoryCopy` copies overlapping ranges correctly. */
    method CopyMemory(dst: array<byte>, dstStart: nat, src: array<byte>, srcStart: nat, copyLength: uint32)
      requires dstStart + copyLength <= dst.Length && srcStart + copyLength <= src.Length
      requires copyStrategy != Buffer ==> NativeMethods.Disjoint(dst, dstStart, src, srcStart, copyLength)
      modifies dst
      ensures dst[..] == Copied(old(dst[..]), dstStart, old(src[..]), srcStart, copyLength)
    {
      match copyStrategy
      case Native =>
        NativeMethods.CopyMemory(dst, dstStart, src, srcStart, copyLength);
      case ParallelNative =>
        CopyMemoryParallel(dst, dstStart, src, srcStart, copyLength);
      case Buffer =>
        var ok := SystemBuffer.MemoryCopy(src, srcStart, dst, dstStart, copyLength, copyLength);
        assert ok;
    }

    /** The parallel strategy. Up to 2 MiB, or when only one block would be
        used, it is one native copy; otherwise `Plan(copyLength, parallelism)`
        splits the range into blocks, each copied by its own native call. The
        result is that of a single native copy of the whole range. */
    method CopyMemoryParallel(dst: array<byte>, dstStart: nat, src: array<byte>, srcStart: nat, copyLength: uint32)
      requires dstStart + copyLength <= dst.Length && srcStart + copyLength <= src.Length
      requires NativeMethods.Disjoint(dst, dstStart, src, srcStart, copyLength)
      modifies dst
      ensures dst[..] == ApplyBlocks(old(dst[..]), dstStart, old(src[..]), srcStart, Plan(copyLength, parallelism))
      ensures dst[..] == Copied(old(dst[..]), dstStart, old(src[..]), srcStart, copyLength)
    {
      ghost var original, source := dst[..], src[..];
      PlanCopiesWholeRange(original, dstStart, source, srcStart, copyLength, parallelism);

      // at or below 2 MiB: one native copy
      if copyLength <= OptimalBlockSize {
        NativeMethods.CopyMemory(dst, dstStart, src, srcStart, copyLength);
        return;
      }

      var blockCount := BlockCount(copyLength, parallelism);
      var lastBlockIndex := blockCount - 1;
      var blockSize := BlockSize(copyLength, parallelism);
      var lastBlockSize := LastBlockSize(copyLength, parallelism);

      if blockCount <= 1 {
        NativeMethods.CopyMemory(dst, dstStart, src, srcStart, copyLength);
        return;
      }

      PlanStrided(copyLength, parallelism);
      ParallelFor(dst, dstStart, src, srcStart, copyLength, blockCount, lastBlockIndex, blockSize, lastBlockSize);
    }

    /** `Parallel.For(0, blockCount, ...)` over `CopyBlock`. The blocks are
        disjoint (`PlanDisjoint`) and the order in which they are copied does
        not change the result (`ApplyAnyOrder`), so the concurrent loop is
        modelled as a loop over the block indices in order; afterwards every
        block of the plan has been copied. */
    method ParallelFor(dst: array<byte>, dstStart: nat, src: array<byte>, srcStart: nat, copyLength: uint32,
                       blockCount: int, lastBlockIndex: int, blockSize: uint32, lastBlockSize: uint32)
      requires blockCount == |Plan(copyLength, parallelism)| && lastBlockIndex == blockCount - 1
      requires Strided(Plan(copyLength, parallelism), blockSize, lastBlockSize)
      requires dstStart + copyLength <= dst.Length && srcStart + copyLength <= src.Length
      requires NativeMethods.Disjoint(dst, dstStart, src, srcStart, copyLength)
      modifies dst
      ensures dst[..] == ApplyBlocks(old(dst[..]), dstStart, old(src[..]), srcStart, Plan(copyLength, parallelism))
    {
      ghost var original, source := dst[..], src[..];
      var blockIndex := 0;
      while blockIndex < blockCount
        invariant 0 <= blockIndex <= blockCount
        invariant dst[..] == ApplyBlocks(original, dstStart, source, srcStart, Plan(copyLength, parallelism)[..blockIndex])
        invariant src != dst ==> src[..] == source
      {
        // one run of the delegate; the block's source bytes are still the
        // original ones: either the buffers differ, or the bytes written so
        // far lie outside the source range
        ghost var before, input := dst[..], src[..];
        CopyBlock(dst, dstStart, src, srcStart, copyLength, blockIndex, lastBlockIndex, blockSize, lastBlockSize);
        PlanStep(original, dstStart, source, srcStart, copyLength, parallelism, blockIndex, before, input, dst[..]);
        blockIndex := blockIndex + 1;
      }
      assert Plan(copyLength, parallelism)[..blockIndex] == Plan(copyLength, parallelism);
    }

    /** The body of the `Parallel.For` delegate: block `blockIndex` starts
        `blockIndex * blockSize` bytes into both ranges and is `lastBlockSize`
        long if it is the last block, `blockSize` long otherwise; it is copied
        with one native call. */
    method CopyBlock(dst: array<byte>, dstStart: nat, src: array<byte>, srcStart: nat, copyLength: uint32,
                     blockIndex: nat, lastBlockIndex: int, blockSize: uint32, lastBlockSize: uint32)
      requires blockIndex <= lastBlockIndex == |Plan(copyLength, parallelism)| - 1
      requires Strided(Plan(copyLength, parallelism), blockSize, lastBlockSize)
      requires dstStart + copyLength <= dst.Length && srcStart + copyLength <= src.Length
      requires NativeMethods.Disjoint(dst, dstStart, src, srcStart, copyLength)
      modifies dst
      ensures var b := Plan(copyLength, parallelism)[blockIndex];
        dst[..] == Copied(old(dst[..]), dstStart + b.offset, old(src[..]), srcStart + b.offset, b.length)
    {
      ghost var b := Plan(copyLength, parallelism)[blockIndex];
      var offset: nat := blockIndex * blockSize;
      var chunkSize := if blockIndex == lastBlockIndex then lastBlockSize else blockSize;
      assert b == Block(offset, chunkSize);
      assert offset + chunkSize <= copyLength;
      NativeMethods.CopyMemory(dst, dstStart + offset, src, srcStart + offset, chunkSize);
    }
  }
}
