/** The block-partitioning arithmetic of the parallel copy strategy: how many
    blocks a copy of `copyLength` bytes is split into, how long each block is,
    and the proof that the blocks tile `[0, copyLength)` exactly. */
module CopyPlan {

  /** C#'s `uint`: an unsigned 32-bit length. */
  type uint32 = x: int | 0 <= x < 0x1_0000_0000

  /** Bytes handed to one thread: 2 MiB. At or below it nothing is split. */
  const OptimalBlockSize: nat := 1024 * 1024 * 2

  /** The hard ceiling on the number of blocks. */
  const MaxParallelism: nat := 4

  /** One native copy of a job: `length` bytes starting `offset` bytes into
      both the source and the destination. */
  datatype Block = Block(offset: nat, length: nat) {
    function End(): nat { offset + length }
  }

  function Min(a: int, b: int): int { if a <= b then a else b }

  function Max(a: int, b: int): int { if a >= b then a else b }

  /** `blockCount`: `max(1, min(parallelism, copyLength / 2 MiB))`, capped at 4. */
  function BlockCount(copyLength: uint32, parallelism: int): (r: int)
    ensures 1 <= r <= MaxParallelism
    ensures parallelism >= 1 ==> r <= parallelism
  {
    var blockCount := Max(1, Min(parallelism, copyLength / OptimalBlockSize));
    if blockCount > MaxParallelism then MaxParallelism else blockCount
  }

  /** From 2 MiB on, every block gets at least 2 MiB, and the count is as
      large as the three caps (parallelism, 2 MiB per block, 4) allow: it
      meets one of them. */
  lemma BlockCountCaps(copyLength: uint32, parallelism: int)
    requires copyLength >= OptimalBlockSize
    ensures BlockCount(copyLength, parallelism) <= copyLength / OptimalBlockSize
    ensures parallelism >= 1 ==>
      var r := BlockCount(copyLength, parallelism);
      r == MaxParallelism || r == parallelism || r == copyLength / OptimalBlockSize
  {
  }

  /** `blockSize`: the length of every block but the last. */
  function BlockSize(copyLength: uint32, parallelism: int): (r: uint32)
    ensures r <= copyLength
    ensures copyLength > OptimalBlockSize ==> r >= OptimalBlockSize
    ensures BlockCount(copyLength, parallelism) * r <= copyLength
    ensures copyLength < BlockCount(copyLength, parallelism) * (r + 1)
  {
    assert copyLength > OptimalBlockSize ==> BlockCount(copyLength, parallelism) <= copyLength / OptimalBlockSize by {
      if copyLength > OptimalBlockSize {
        BlockCountCaps(copyLength, parallelism);
      }
    }
    Share(copyLength, BlockCount(copyLength, parallelism))
  }

  /** `n / c`: the whole number of bytes each of `c` parts gets; past 2 MiB,
      with no more parts than 2 MiB pieces, a part gets at least 2 MiB. */
  function Share(n: uint32, c: int): (r: uint32)
    requires 1 <= c && (n > OptimalBlockSize ==> c <= n / OptimalBlockSize)
    ensures r <= n
    ensures n > OptimalBlockSize ==> r >= OptimalBlockSize
    ensures c * r <= n < c * (r + 1)
  {
    DivBounds(n, c);
    assert n > OptimalBlockSize ==> n / c >= OptimalBlockSize by {
      if n > OptimalBlockSize {
        LargeQuotient(n, c, OptimalBlockSize);
      }
    }
    n / c
  }

  /** `lastBlockSize`: `blockSize + copyLength % blockSize`, which `CopyMemoryParallel`
      computes only past the 2 MiB threshold. The last block absorbs the
      remainder, so the blocks add up to the whole copy. */
  function LastBlockSize(copyLength: uint32, parallelism: int): (r: uint32)
    requires copyLength > OptimalBlockSize
    ensures BlockSize(copyLength, parallelism) <= r
    ensures r < BlockSize(copyLength, parallelism) + BlockCount(copyLength, parallelism)
    ensures (BlockCount(copyLength, parallelism) - 1) * BlockSize(copyLength, parallelism) + r == copyLength
  {
    var c := BlockCount(copyLength, parallelism);
    var s := BlockSize(copyLength, parallelism);
    assert s == copyLength / c;
    LastShare(copyLength, c, s);
    s + copyLength % s
  }

  /** With `s == n / c`, the last of `c` blocks takes `s` plus the remainder
      `n % s`, which is less than `c`; all blocks together are `n` bytes. */
  lemma LastShare(n: nat, c: nat, s: nat)
    requires 1 <= c <= s && s == n / c
    ensures s + n % s < s + c
    ensures (c - 1) * s + (s + n % s) == n
    ensures s + n % s <= n
  {
    RemainderAgrees(n, c);
    DivBounds(n, c);
    assert n == c * s + n % c;
    assert (c - 1) * s + s == c * s;
    MulAtLeastOne(c, s);
  }

  /** `i * s`, spelled out as repeated addition so that the offsets of the
      plan stay linear for the solver; `TimesIsMul` relates it to `*`. */
  function Times(i: nat, s: nat): nat {
    if i == 0 then 0 else Times(i - 1, s) + s
  }

  lemma {:induction false} TimesIsMul(i: nat, s: nat)
    ensures Times(i, s) == i * s
  {
    if i > 0 {
      TimesIsMul(i - 1, s);
      MulPred(i, s);
    }
  }

  /** `k` blocks of `s` bytes, block `i` at offset `i * s`. */
  function Uniform(s: nat, k: nat): (blocks: seq<Block>)
    ensures |blocks| == k
  {
    if k == 0 then [] else Uniform(s, k - 1) + [Block(Times(k - 1, s), s)]
  }

  /** The native copies the parallel strategy issues, in block order: one
      whole-range copy at or below the threshold or when only one block would
      be used, otherwise block `i` at offset `i * blockSize`, the last one
      `lastBlockSize` long and the others `blockSize` long. */
  function Plan(copyLength: uint32, parallelism: int): (blocks: seq<Block>)
    ensures 1 <= |blocks| <= MaxParallelism
    ensures parallelism >= 1 ==> |blocks| <= parallelism
    ensures copyLength <= OptimalBlockSize ==> blocks == [Block(0, copyLength)]
    ensures forall i :: 0 <= i < |blocks| ==> blocks[i].End() <= copyLength
  {
    if copyLength <= OptimalBlockSize || BlockCount(copyLength, parallelism) <= 1 then
      [Block(0, copyLength)]
    else
      var c := BlockCount(copyLength, parallelism);
      var s := BlockSize(copyLength, parallelism);
      var blocks := Uniform(s, c - 1) + [Block(Times(c - 1, s), LastBlockSize(copyLength, parallelism))];
      assert forall i :: 0 <= i < |blocks| ==> blocks[i].End() <= copyLength by {
        UniformTiles(s, c - 1);
        TimesIsMul(c - 1, s);
        assert blocks[..c - 1] == Uniform(s, c - 1);
        TilesWithin(blocks, copyLength);
      }
      blocks
  }

  /** The plan tiles `[0, copyLength)`: its blocks lie end to end from 0, so
      their lengths add up to the whole copy, `lastBlockSize` included. */
  lemma PlanTiles(copyLength: uint32, parallelism: int)
    ensures Tiles(Plan(copyLength, parallelism), copyLength)
  {
    if copyLength > OptimalBlockSize && BlockCount(copyLength, parallelism) > 1 {
      var c := BlockCount(copyLength, parallelism);
      var s := BlockSize(copyLength, parallelism);
      var blocks := Uniform(s, c - 1) + [Block(Times(c - 1, s), LastBlockSize(copyLength, parallelism))];
      assert Plan(copyLength, parallelism) == blocks;
      UniformTiles(s, c - 1);
      TimesIsMul(c - 1, s);
      assert blocks[..c - 1] == Uniform(s, c - 1);
    }
  }

  /** `k` uniform blocks of `s` bytes tile `[0, k * s)`. */
  lemma {:induction false} UniformTiles(s: nat, k: nat)
    ensures Tiles(Uniform(s, k), Times(k, s))
  {
    if k > 0 {
      UniformTiles(s, k - 1);
      assert Uniform(s, k)[..k - 1] == Uniform(s, k - 1);
    }
  }

  /** Block `i` of `k` uniform blocks. */
  lemma {:induction false} UniformAt(s: nat, k: nat, i: nat)
    requires i < k
    ensures Uniform(s, k)[i] == Block(Times(i, s), s)
  {
    if i < k - 1 {
      UniformAt(s, k - 1, i);
    }
  }

  /** `blocks` lie end to end, starting at 0 and ending at `n`: the last one
      ends at `n` and the others tile up to where it starts. */
  ghost predicate Tiles(blocks: seq<Block>, n: nat)
    decreases |blocks|
  {
    if |blocks| == 0 then n == 0
    else
      var last := blocks[|blocks| - 1];
      last.End() == n && Tiles(blocks[..|blocks| - 1], last.offset)
  }

  function SumLengths(blocks: seq<Block>): nat {
    if |blocks| == 0 then 0 else SumLengths(blocks[..|blocks| - 1]) + blocks[|blocks| - 1].length
  }

  /** A tiling cut before block `i` tiles the range up to that block's offset. */
  lemma {:induction false} TilesPrefix(blocks: seq<Block>, n: nat, i: nat)
    requires Tiles(blocks, n) && i < |blocks|
    ensures Tiles(blocks[..i], blocks[i].offset)
  {
    var k := |blocks| - 1;
    if i < k {
      TilesPrefix(blocks[..k], blocks[k].offset, i);
      assert blocks[..k][..i] == blocks[..i];
    }
  }

  /** The block lengths of a tiling add up to the tiled length. */
  lemma {:induction false} TilesSum(blocks: seq<Block>, n: nat)
    requires Tiles(blocks, n)
    ensures SumLengths(blocks) == n
  {
    if |blocks| > 0 {
      var k := |blocks| - 1;
      TilesSum(blocks[..k], blocks[k].offset);
    }
  }

  /** No block of a tiling reaches past the tiled length. */
  lemma {:induction false} TilesWithin(blocks: seq<Block>, n: nat)
    requires Tiles(blocks, n)
    ensures forall i :: 0 <= i < |blocks| ==> blocks[i].End() <= n
  {
    if |blocks| > 0 {
      var k := |blocks| - 1;
      TilesWithin(blocks[..k], blocks[k].offset);
      assert forall i :: 0 <= i < k ==> blocks[..k][i] == blocks[i];
    }
  }

  /** Blocks of a tiling come in order and never overlap: every block ends
      where or before any later block begins. */
  lemma TilesOrdered(blocks: seq<Block>, n: nat, i: nat, j: nat)
    requires Tiles(blocks, n) && i < j < |blocks|
    ensures blocks[i].End() <= blocks[j].offset
  {
    TilesPrefix(blocks, n, j);
    TilesWithin(blocks[..j], blocks[j].offset);
    assert blocks[..j][i] == blocks[i];
  }

  /** The blocks of the parallel plan are pairwise disjoint, which is what
      makes running them concurrently, in any order, equal to running them
      one after the other. */
  lemma PlanDisjoint(copyLength: uint32, parallelism: int, i: nat, j: nat)
    requires i < j < |Plan(copyLength, parallelism)|
    ensures Plan(copyLength, parallelism)[i].End() <= Plan(copyLength, parallelism)[j].offset
  {
    PlanTiles(copyLength, parallelism);
    TilesOrdered(Plan(copyLength, parallelism), copyLength, i, j);
  }

  /** The plan's lengths add up to the copy length. */
  lemma PlanSum(copyLength: uint32, parallelism: int)
    ensures SumLengths(Plan(copyLength, parallelism)) == copyLength
  {
    PlanTiles(copyLength, parallelism);
    TilesSum(Plan(copyLength, parallelism), copyLength);
  }

  /** The parallel split is used exactly above the threshold and with more
      than one block, and then it has `blockCount` blocks. */
  lemma PlanShape(copyLength: uint32, parallelism: int)
    ensures var blocks := Plan(copyLength, parallelism);
      (|blocks| > 1 <==> copyLength > OptimalBlockSize && BlockCount(copyLength, parallelism) > 1) &&
      (|blocks| > 1 ==> |blocks| == BlockCount(copyLength, parallelism)) &&
      (|blocks| == 1 ==> blocks == [Block(0, copyLength)])
  {
  }

  /** Block `i` of a split plan, as `CopyMemoryParallel`'s `Parallel.For` delegate computes it: it
      starts at `i * blockSize` and is `blockSize` long, except the last, which
      is `lastBlockSize` long. */
  lemma PlanBlock(copyLength: uint32, parallelism: int, i: nat)
    requires copyLength > OptimalBlockSize && BlockCount(copyLength, parallelism) > 1
    requires i < BlockCount(copyLength, parallelism)
    ensures i < |Plan(copyLength, parallelism)|
    ensures Plan(copyLength, parallelism)[i]
         == Block(i * BlockSize(copyLength, parallelism),
                      if i == BlockCount(copyLength, parallelism) - 1 then LastBlockSize(copyLength, parallelism)
                      else BlockSize(copyLength, parallelism))
  {
    var c, s := BlockCount(copyLength, parallelism), BlockSize(copyLength, parallelism);
    TimesIsMul(i, s);
    if i < c - 1 {
      UniformAt(s, c - 1, i);
    }
  }

  /** The blocks `CopyMemoryParallel`'s `Parallel.For` loop issues: block `i` starts at
      `i * blockSize` and is `blockSize` long, except the last, which is
      `lastBlockSize` long. */
  ghost predicate Strided(blocks: seq<Block>, blockSize: nat, lastBlockSize: nat) {
    forall i :: 0 <= i < |blocks| ==>
      blocks[i] == Block(i * blockSize, if i == |blocks| - 1 then lastBlockSize else blockSize)
  }

  /** Past the threshold with more than one block, the plan is exactly what
      the loop issues from the computed `blockSize` and `lastBlockSize`. */
  lemma PlanStrided(copyLength: uint32, parallelism: int)
    requires copyLength > OptimalBlockSize && BlockCount(copyLength, parallelism) > 1
    ensures |Plan(copyLength, parallelism)| == BlockCount(copyLength, parallelism)
    ensures Strided(Plan(copyLength, parallelism), BlockSize(copyLength, parallelism), LastBlockSize(copyLength, parallelism))
  {
    PlanShape(copyLength, parallelism);
    forall i | 0 <= i < BlockCount(copyLength, parallelism)
      ensures Plan(copyLength, parallelism)[i]
           == Block(i * BlockSize(copyLength, parallelism),
                        if i == BlockCount(copyLength, parallelism) - 1 then LastBlockSize(copyLength, parallelism)
                        else BlockSize(copyLength, parallelism))
    {
      PlanBlock(copyLength, parallelism, i);
    }
  }

  /** `lastBlockSize` takes the remainder by `blockSize`, where dividing
      `copyLength` into `blockCount` parts leaves the remainder by
      `blockCount`: the two agree once the quotient is at least the divisor,
      as it is past the threshold (`blockSize >= 2 MiB > 4 >= blockCount`). */
  lemma RemainderAgrees(n: nat, c: nat)
    requires 1 <= c && c <= n / c
    ensures n % (n / c) == n % c
  {
    var s, r := n / c, n % c;
    assert n == s * c + r;
    DivModUnique(n, c, r, s);
  }

  /** Past the threshold, the remainder `lastBlockSize` adds is the one
      left over by dividing the copy into `blockCount` parts. */
  lemma LastRemainder(copyLength: uint32, parallelism: int)
    requires copyLength > OptimalBlockSize
    ensures copyLength % BlockSize(copyLength, parallelism) == copyLength % BlockCount(copyLength, parallelism)
  {
    RemainderAgrees(copyLength, BlockCount(copyLength, parallelism));
  }

  /** `n / c` is the largest `q` with `c * q <= n`. */
  lemma DivBounds(n: nat, c: nat)
    requires c >= 1
    ensures c * (n / c) <= n < c * (n / c + 1)
    ensures 0 <= n / c <= n
  {
    assert n == c * (n / c) + n % c;
    assert c * (n / c + 1) == c * (n / c) + c;
    MulAtLeastOne(c, n / c);
  }

  /** Splitting `n` into at most `n / m` parts leaves each at least `m`. */
  lemma LargeQuotient(n: nat, c: nat, m: nat)
    requires m >= 1 && 1 <= c <= n / m
    ensures n / c >= m
  {
    BlocksFit(n, c, m);
    QuotientAtLeast(n, c, m);
  }

  /** `c` blocks of `m` fit in `n` when `c` is at most `n / m`. */
  lemma BlocksFit(n: nat, c: nat, m: nat)
    requires m >= 1 && c <= n / m
    ensures c * m <= n
  {
    DivBounds(n, m);
    MulMono(c, n / m, m);
  }

  lemma MulMono(i: nat, j: nat, s: nat)
    requires i <= j
    ensures i * s <= j * s
  {
    assert j * s == i * s + (j - i) * s;
  }

  /** `n / c` at least `m` whenever `c` blocks of `m` fit in `n`. */
  lemma QuotientAtLeast(n: nat, c: nat, m: nat)
    requires 1 <= c && c * m <= n
    ensures n / c >= m
  {
    if n / c < m {
      calc {
        n;
      <  (n / c + 1) * c;
      <= m * c;
      }
    }
  }

  /** The remainder of `n` by `d` is `r` whenever `n = q * d + r` with `0 <= r < d`. */
  lemma DivModUnique(n: nat, q: nat, r: nat, d: nat)
    requires 0 <= r < d && n == q * d + r
    ensures n % d == r && n / d == q
  {
    var q', r' := n / d, n % d;
    assert n == q' * d + r';
    if q' < q {
      assert q * d - q' * d == (q - q') * d;
      MulAtLeastOne(q - q', d);
    } else if q < q' {
      assert q' * d - q * d == (q' - q) * d;
      MulAtLeastOne(q' - q, d);
    }
  }

  lemma MulAtLeastOne(k: nat, d: nat)
    requires k >= 1
    ensures k * d >= d
  {
    assert k * d == d + (k - 1) * d;
  }

  lemma MulPred(i: nat, s: nat)
    requires i >= 1
    ensures i * s == (i - 1) * s + s
  {
  }

  // ---------------------------------------------------------------------
  // The delegate's offset computation as the C# code writes it.

  /** C#'s `int` arithmetic in its default unchecked context: the value
      reduced to 32-bit two's complement. */
  function WrapInt32(x: int): (r: int)
    ensures -0x8000_0000 <= r < 0x8000_0000
    ensures (x - r) % 0x1_0000_0000 == 0
    ensures -0x8000_0000 <= x < 0x8000_0000 ==> r == x
  {
    (x + 0x8000_0000) % 0x1_0000_0000 - 0x8000_0000
  }

  /** `blockIndex * (int)blockSize`: both operands are `int`, so the product
      wraps at 2^31 before it is added to the base addresses. */
  function AsWrittenOffset(blockIndex: nat, blockSize: uint32): (r: int)
    ensures -0x8000_0000 <= r < 0x8000_0000
    ensures (blockIndex * blockSize - r) % 0x1_0000_0000 == 0
    ensures blockIndex * blockSize < 0x8000_0000 ==> r == blockIndex * blockSize
  {
    WrapProduct(blockIndex, blockSize);
    WrapInt32(blockIndex * WrapInt32(blockSize))
  }

  /** Casting the block size to `int` first changes the product by a
      multiple of 2^32, and not at all when the product fits. */
  lemma WrapProduct(i: nat, b: uint32)
    ensures var x, y := i * b, i * WrapInt32(b);
      (x - WrapInt32(y)) % 0x1_0000_0000 == 0 &&
      (x < 0x8000_0000 ==> y == x)
  {
    var w := WrapInt32(b);
    var y := i * w;
    var q := (y - WrapInt32(y)) / 0x1_0000_0000;
    assert y - WrapInt32(y) == q * 0x1_0000_0000;
    if b < 0x8000_0000 {
      assert w == b;
      assert i * b - WrapInt32(y) == q * 0x1_0000_0000;
    } else {
      assert w == b - 0x1_0000_0000;
      assert i * b == y + i * 0x1_0000_0000;
      assert i * b - WrapInt32(y) == (q + i) * 0x1_0000_0000;
      if i >= 1 {
        MulAtLeastOne(i, b);
      }
    }
  }

  /** Below 2 GiB the C# code's 32-bit offsets are the true offsets. */
  lemma AsWrittenOffsetBelow2GiB(copyLength: uint32, parallelism: int, i: nat)
    requires copyLength < 0x8000_0000 && |Plan(copyLength, parallelism)| > 1
    requires i < |Plan(copyLength, parallelism)|
    ensures AsWrittenOffset(i, BlockSize(copyLength, parallelism)) == Plan(copyLength, parallelism)[i].offset
  {
    PlanShape(copyLength, parallelism);
    PlanBlock(copyLength, parallelism, i);
    PlanTiles(copyLength, parallelism);
    TilesWithin(Plan(copyLength, parallelism), copyLength);
  }

  /** A 4 GiB - 1 copy with four threads: the fourth block starts at
      3 * 1073741823 = 3221225469, which the 32-bit product wraps to a
      negative offset, so the C# code would copy to and from memory before
      both buffers. */
  lemma AsWrittenOffsetOverflows()
    ensures BlockCount(0xFFFF_FFFF, 4) == 4
    ensures BlockSize(0xFFFF_FFFF, 4) == 0x3FFF_FFFF
    ensures Plan(0xFFFF_FFFF, 4)[3].offset == 3 * 0x3FFF_FFFF
    ensures AsWrittenOffset(3, BlockSize(0xFFFF_FFFF, 4)) == 3 * 0x3FFF_FFFF - 0x1_0000_0000
    ensures AsWrittenOffset(3, BlockSize(0xFFFF_FFFF, 4)) < 0
  {
    PlanBlock(0xFFFF_FFFF, 4, 3);
  }
}
