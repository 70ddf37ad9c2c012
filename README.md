# FFME memory-copy engine, in Dafny

This project models the memory-copy engine of the FFME media player's
Windows platform layer, the class `WindowsNativeMethods`. It covers:

- `CopyMemory`, which dispatches among three strategies:
  - `Native`: one kernel32 `CopyMemory` call;
  - `ParallelNative`: `CopyMemoryParallel`;
  - `Buffer`: .NET's `Buffer.MemoryCopy`.
- `CopyMemoryParallel`, in three steps:
  - Up to 2 MiB it issues one native copy.
  - Above that it computes `blockCount`, `blockSize` and `lastBlockSize`.
  - It then runs one native copy per block inside `Parallel.For`.
- `FillMemory`, a thin wrapper over kernel32's `RtlFillMemory`.

A pointer is modelled as an array of bytes together with a start index.

The model has five modules, in four files:

- `CopyPlan`: the partitioning arithmetic as pure functions.
  - `Plan` is the list of native copies the parallel strategy issues.
  - Lemmas show the blocks tile the copy range exactly: contiguous, disjoint and in range, with lengths summing to the copy length.
- `Memory`: what copies do to a buffer, as values. `Copied` is one range copy; `ApplyBlocks` is a list of copies done in order.
- `NativeMethods`: kernel32's `CopyMemory` and `RtlFillMemory`, as loops over arrays.
- `SystemBuffer`: .NET's `Buffer.MemoryCopy`, as a loop over arrays that copies through a snapshot.
- `Platform`: the class itself, with its strategy and parallelism.

The main result is the postcondition of
`Platform.WindowsNativeMethods.CopyMemory`. Whatever the strategy, the
destination range ends up holding the source range and every other byte
is unchanged. In particular, the parallel strategy leaves the destination
exactly as one native copy of the whole range would. The parallel result
uses the true block offsets. The C# code computes them in 32 bits. With four
blocks they wrap from 2863311532 bytes (about 2.67 GiB) on and then point
before both buffers; see "## Findings".

Dividing `copyLength` into `blockCount` parts leaves `copyLength %
blockCount` over. Line 143 instead adds `copyLength % blockSize` to the
last block. The model follows the code, and `LastRemainder` proves that
the two remainders agree whenever the split happens:
`blockSize` is then at least 2 MiB, which is larger than `blockCount`
(at most 4).

The parallelism is an input of at least 1; its origin is under "Left out".

## Model

| member | source | states |
|---|---|---|
| CopyPlan.BlockCount | Unosquare.FFME.Windows/Platform/WindowsNativeMethods.cs:139-140 | the block count is between 1 and 4, and at most the parallelism when that is at least 1 |
| CopyPlan.BlockCountCaps | Unosquare.FFME.Windows/Platform/WindowsNativeMethods.cs:139-140 | from 2 MiB on, the count is at most `copyLength / 2 MiB`, and it equals one of its three caps (4, parallelism, `copyLength / 2 MiB`) |
| CopyPlan.BlockSize | Unosquare.FFME.Windows/Platform/WindowsNativeMethods.cs:142 | the block size is the floor quotient of the length by the count (`count * size <= length < count * (size + 1)`), fits in 32 bits, and past 2 MiB is at least 2 MiB |
| CopyPlan.Share | Unosquare.FFME.Windows/Platform/WindowsNativeMethods.cs:142 | `n / c` is the floor quotient, at most `n`, and at least 2 MiB when `c` parts of 2 MiB fit |
| CopyPlan.LastBlockSize | Unosquare.FFME.Windows/Platform/WindowsNativeMethods.cs:143 | the last block is at least a block and less than a block plus the count, and `(count - 1) * blockSize + lastBlockSize == copyLength` |
| CopyPlan.LastShare | Unosquare.FFME.Windows/Platform/WindowsNativeMethods.cs:141-143 | with `s == n / c` and `c <= s`, the last block `s + n % s` is below `s + c` and the `c` blocks add up to `n` |
| CopyPlan.LastRemainder | Unosquare.FFME.Windows/Platform/WindowsNativeMethods.cs:141-143 | past 2 MiB, `copyLength % blockSize` equals `copyLength % blockCount` for the model's own block size and count |
| CopyPlan.RemainderAgrees | Unosquare.FFME.Windows/Platform/WindowsNativeMethods.cs:143 | the remainder by the block size equals the remainder by the block count once the quotient is at least the count |
| CopyPlan.Plan | Unosquare.FFME.Windows/Platform/WindowsNativeMethods.cs:133-158 | the strategy issues 1 to 4 copies, never more than the parallelism; up to 2 MiB exactly one whole-range copy; no copy reaches past the copy length |
| CopyPlan.PlanShape | Unosquare.FFME.Windows/Platform/WindowsNativeMethods.cs:133-150 | the range is split exactly when it is over 2 MiB and the count is over 1, into `blockCount` copies; otherwise one copy of the whole range |
| CopyPlan.PlanBlock | Unosquare.FFME.Windows/Platform/WindowsNativeMethods.cs:155-156 | copy `i` of a split starts at `i * blockSize` and is `lastBlockSize` long if it is the last, `blockSize` long otherwise |
| CopyPlan.PlanStrided | Unosquare.FFME.Windows/Platform/WindowsNativeMethods.cs:153-156 | a split plan has `blockCount` copies, each at the offset and with the length the loop body computes |
| CopyPlan.PlanTiles | Unosquare.FFME.Windows/Platform/WindowsNativeMethods.cs:139-158 | the plan's copies lie end to end from 0 to the copy length |
| CopyPlan.PlanSum | Unosquare.FFME.Windows/Platform/WindowsNativeMethods.cs:141-157 | the plan's copy lengths add up to the copy length |
| CopyPlan.PlanDisjoint | Unosquare.FFME.Windows/Platform/WindowsNativeMethods.cs:153-158 | any earlier copy of the plan ends at or before the start of any later one, so no two overlap |
| CopyPlan.UniformTiles | Unosquare.FFME.Windows/Platform/WindowsNativeMethods.cs:153-156 | `k` copies of `s` bytes at offsets `i * s` lie end to end over `[0, k * s)` |
| CopyPlan.TilesSum | Unosquare.FFME.Windows/Platform/WindowsNativeMethods.cs:141-143 | the lengths of blocks that tile `[0, n)` add up to `n` |
| CopyPlan.TilesWithin | Unosquare.FFME.Windows/Platform/WindowsNativeMethods.cs:153-158 | no block of a tiling of `[0, n)` ends past `n` |
| CopyPlan.TilesOrdered | Unosquare.FFME.Windows/Platform/WindowsNativeMethods.cs:153-158 | blocks of a tiling come in offset order and do not overlap |
| CopyPlan.WrapInt32 | Unosquare.FFME.Windows/Platform/WindowsNativeMethods.cs:155 | C# unchecked `int` arithmetic: the result is in the 32-bit signed range, congruent to the true value mod 2^32, and equal to it when it fits |
| CopyPlan.AsWrittenOffset | Unosquare.FFME.Windows/Platform/WindowsNativeMethods.cs:155 | the delegate's offset as the C# code computes it, `blockIndex * (int)blockSize` in unchecked 32-bit `int` arithmetic: it lies in the signed 32-bit range, differs from the true product `blockIndex * blockSize` by a multiple of 2^32, and equals it when the product is below 2^31 |
| CopyPlan.AsWrittenOffsetBelow2GiB | Unosquare.FFME.Windows/Platform/WindowsNativeMethods.cs:155 | for copies under 2 GiB, the 32-bit offset the C# code computes is the true block offset |
| CopyPlan.AsWrittenOffsetOverflows | Unosquare.FFME.Windows/Platform/WindowsNativeMethods.cs:155 | for a copy of 2^32 - 1 bytes with parallelism 4, the 32-bit offset of the fourth block is negative, 2^32 below the true offset |
| Memory.CopiedNothing | Unosquare.FFME.Windows/Platform/WindowsNativeMethods.cs:133-137 | a copy of zero bytes leaves the destination as it was |
| Memory.CopiedAdjacent | Unosquare.FFME.Windows/Platform/WindowsNativeMethods.cs:153-158 | copying two adjacent ranges one after the other is one copy of their union |
| Memory.CopiedSameSource | Unosquare.FFME.Windows/Platform/WindowsNativeMethods.cs:157 | a copy depends only on the source bytes in its range |
| Memory.CopiedCommute | Unosquare.FFME.Windows/Platform/WindowsNativeMethods.cs:153-158 | copies into disjoint destination ranges give the same result in either order |
| Memory.ApplyTiles | Unosquare.FFME.Windows/Platform/WindowsNativeMethods.cs:153-158 | copying blocks that tile `[0, n)`, one after the other, is one copy of `n` bytes |
| Memory.LaterSourceIntact | Unosquare.FFME.Windows/Platform/WindowsNativeMethods.cs:153-158 | while the blocks are copied, the source bytes of each block still to come are the original ones, even when source and destination share a buffer |
| Memory.BlockStep | Unosquare.FFME.Windows/Platform/WindowsNativeMethods.cs:153-158 | copying block `i` from the current source, after the blocks before it, yields the destination after the blocks up to `i` |
| Memory.PlanStep | Unosquare.FFME.Windows/Platform/WindowsNativeMethods.cs:153-158 | the same step for the blocks of the plan |
| Memory.PlanCopiesWholeRange | Unosquare.FFME.Windows/Platform/WindowsNativeMethods.cs:127-159 | the plan's copies, done in order, are one copy of the whole range |
| Memory.ApplyAt | Unosquare.FFME.Windows/Platform/WindowsNativeMethods.cs:153-158 | after any sequence of in-bounds block copies, a byte some block writes holds its source byte, and any other byte keeps its value |
| Memory.ApplyAnyOrder | Unosquare.FFME.Windows/Platform/WindowsNativeMethods.cs:153-158 | copying the plan's blocks in any order, repetitions allowed, is still one copy of the whole range |
| NativeMethods.CopyMemory | Unosquare.FFME.Windows/Platform/WindowsNativeMethods.cs:182-183 | kernel32 copy of non-overlapping ranges: the destination range becomes the source range and nothing else changes |
| NativeMethods.FillMemory | Unosquare.FFME.Windows/Platform/WindowsNativeMethods.cs:191-192 | every byte of the range becomes the fill value and nothing else changes |
| SystemBuffer.MemoryCopy | Unosquare.FFME.Windows/Platform/WindowsNativeMethods.cs:114 | copies as if through a temporary buffer, so overlap is harmless; it fails, writing nothing, exactly when more bytes are asked for than the destination size |
| Platform.WindowsNativeMethods.constructor | Unosquare.FFME.Windows/Platform/WindowsNativeMethods.cs:18-30 | the object keeps the given parallelism (at least 1) and copy strategy |
| Platform.WindowsNativeMethods.FillMemory | Unosquare.FFME.Windows/Platform/WindowsNativeMethods.cs:72-75 | the range is set to the value and the rest of the buffer is unchanged |
| Platform.WindowsNativeMethods.CopyMemory | Unosquare.FFME.Windows/Platform/WindowsNativeMethods.cs:95-118 | under every strategy the destination range ends up equal to the old source range and nothing else changes; only the kernel32-based strategies need disjoint ranges |
| Platform.WindowsNativeMethods.CopyMemoryParallel | Unosquare.FFME.Windows/Platform/WindowsNativeMethods.cs:127-159 | the destination is the plan's copies applied in order, which is one native copy of the whole range |
| Platform.WindowsNativeMethods.ParallelFor | Unosquare.FFME.Windows/Platform/WindowsNativeMethods.cs:153-158 | running the delegate for every block index leaves the destination as all of the plan's copies do |
| Platform.WindowsNativeMethods.CopyBlock | Unosquare.FFME.Windows/Platform/WindowsNativeMethods.cs:154-157 | one run of the delegate is the plan's copy for that block index, at the true (unbounded) offset |

## Left out

- `Parallelism`'s initial value, `max(1, ProcessorCount * 0.8)` (line 20): it reads the environment and uses floating point. The parallelism is a constructor argument of at least 1; the arithmetic functions accept any integer, as `Math.Max(1, ...)` would.
- The singleton `Instance` and the private constructor (lines 18-30, 59): the model builds an explicit object instead.
- `CopyStrategy`'s default, `ParallelNative` (line 64): the strategy is a constructor argument, so every strategy can be reasoned about.
- The `default:` label of the strategy switch (line 112): it is unreachable for the three strategies, and Dafny's `match` is exhaustive.
- `SetDllDirectory` and the `DllImport` bindings (lines 84-87, 164-193): these are foreign calls. The two primitives used are modelled by their byte-level contracts, written as loops.
- Concurrency in `Parallel.For` (line 153): the loop runs the delegate for the block indices in increasing order. `PlanDisjoint` and `ApplyAnyOrder` show the order does not matter. `ApplyAnyOrder` is stated on values, for a source the copies do not write. Threads interleaving inside one block is not modelled.
- Exceptions: `Buffer.MemoryCopy`'s `ArgumentOutOfRangeException` becomes a `false` result, which `CopyMemory` never produces because it passes the copy length as the destination size.
- `IntPtr` arithmetic and `unsafe` casts: a pointer is an array plus a start index, and offsets are unbounded. The C# code's 32-bit offset is modelled separately, by `AsWrittenOffset`; see "Findings".
- Platform.WindowsNativeMethods.CopyMemory: for the `Native` and `ParallelNative` strategies it requires the two ranges not to overlap, because kernel32's copy is undefined for overlapping ranges. The C# code states no such condition.
- Memory.ApplyBlocks skips a block that would reach past either buffer. The plans of the parallel strategy never contain one (`Plan`, `PlanTiles`), so this case is never used.
- The rest of the repository (the media engine, its workers and the other platforms) is not part of this model.

## Findings

| source | as written | input that shows it | evidently intended | confidence | as-written member | corrected member |
|---|---|---|---|---|---|---|
| Unosquare.FFME.Windows/Platform/WindowsNativeMethods.cs:155 | the block offset `blockIndex * (int)blockSize` is a 32-bit signed product, which wraps in C#'s default unchecked context | a copy of 0xFFFFFFFF bytes with `Parallelism` 4: block 3 should start at 3221225469, but the product wraps to -1073741827, so the copy would read and write before both buffers | the offset of block `i` is exactly `i * blockSize`, computed in 64 bits | not executed | CopyPlan.AsWrittenOffsetOverflows | Platform.WindowsNativeMethods.CopyBlock |
