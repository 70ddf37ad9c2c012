/** Byte buffers as values: what a copy into a range does to the whole
    destination, and what a sequence of block copies adds up to. */
module Memory {
  import opened CopyPlan

  type byte = b: int | 0 <= b < 256

  /** `d` after `length` bytes of `s`, starting at index `from`, are written
      over it starting at index `at`. */
  function Copied(d: seq<byte>, at: nat, s: seq<byte>, from: nat, length: nat): (r: seq<byte>)
    requires at + length <= |d| && from + length <= |s|
    ensures |r| == |d|
  {
    seq(|d|, k requires 0 <= k < |d| => if at <= k < at + length then s[from + (k - at)] else d[k])
  }

  /** Inside the written range a byte comes from `s`, outside it from `d`. */
  lemma CopiedAt(d: seq<byte>, at: nat, s: seq<byte>, from: nat, length: nat)
    requires at + length <= |d| && from + length <= |s|
    ensures forall k :: 0 <= k < |d| ==>
      Copied(d, at, s, from, length)[k] == if at <= k < at + length then s[from + (k - at)] else d[k]
  {
  }

  /** Copying nothing changes nothing. */
  lemma CopiedNothing(d: seq<byte>, at: nat, s: seq<byte>, from: nat)
    requires at <= |d| && from <= |s|
    ensures Copied(d, at, s, from, 0) == d
  {
    CopiedAt(d, at, s, from, 0);
  }

  /** The destination after the native copies `blocks`, each taking the bytes
      `srcStart + offset ..` of `s` to `dstStart + offset ..` of `d`, done one
      after the other in block order. A block that would reach past either
      buffer is not copied; the plans of the parallel strategy have none. */
  function ApplyBlocks(d: seq<byte>, dstStart: nat, s: seq<byte>, srcStart: nat, blocks: seq<Block>): (r: seq<byte>)
    ensures |r| == |d|
    decreases |blocks|
  {
    if |blocks| == 0 then d
    else
      var b := blocks[|blocks| - 1];
      var before := ApplyBlocks(d, dstStart, s, srcStart, blocks[..|blocks| - 1]);
      if dstStart + b.End() <= |d| && srcStart + b.End() <= |s| then
        Copied(before, dstStart + b.offset, s, srcStart + b.offset, b.length)
      else
        before
  }

  /** Copying two adjacent ranges is copying their union. */
  lemma CopiedAdjacent(d: seq<byte>, at: nat, s: seq<byte>, from: nat, l1: nat, l2: nat)
    requires at + l1 + l2 <= |d| && from + l1 + l2 <= |s|
    ensures Copied(Copied(d, at, s, from, l1), at + l1, s, from + l1, l2) == Copied(d, at, s, from, l1 + l2)
  {
    CopiedAt(d, at, s, from, l1);
    CopiedAt(Copied(d, at, s, from, l1), at + l1, s, from + l1, l2);
    CopiedAt(d, at, s, from, l1 + l2);
  }

  /** A copy reads only its source range: sources that agree there give the
      same result. */
  lemma CopiedSameSource(d: seq<byte>, at: nat, s: seq<byte>, t: seq<byte>, from: nat, length: nat)
    requires at + length <= |d| && from + length <= |s| && from + length <= |t|
    requires forall j :: from <= j < from + length ==> s[j] == t[j]
    ensures Copied(d, at, s, from, length) == Copied(d, at, t, from, length)
  {
    CopiedAt(d, at, s, from, length);
    CopiedAt(d, at, t, from, length);
  }

  /** Copies to disjoint ranges commute, so the blocks of one job may land in
      any order. */
  lemma CopiedCommute(d: seq<byte>, a: nat, s: seq<byte>, from: nat, m: nat, b: nat, t: seq<byte>, from': nat, n: nat)
    requires a + m <= |d| && from + m <= |s| && b + n <= |d| && from' + n <= |t|
    requires a + m <= b || b + n <= a
    ensures Copied(Copied(d, a, s, from, m), b, t, from', n) == Copied(Copied(d, b, t, from', n), a, s, from, m)
  {
    CopiedAt(d, a, s, from, m);
    CopiedAt(Copied(d, a, s, from, m), b, t, from', n);
    CopiedAt(d, b, t, from', n);
    CopiedAt(Copied(d, b, t, from', n), a, s, from, m);
  }

  /** The last block is copied after all the others. */
  lemma ApplyLast(d: seq<byte>, dstStart: nat, s: seq<byte>, srcStart: nat, blocks: seq<Block>)
    requires |blocks| > 0
    requires dstStart + blocks[|blocks| - 1].End() <= |d| && srcStart + blocks[|blocks| - 1].End() <= |s|
    ensures var k := |blocks| - 1;
      ApplyBlocks(d, dstStart, s, srcStart, blocks)
      == Copied(ApplyBlocks(d, dstStart, s, srcStart, blocks[..k]), dstStart + blocks[k].offset,
                s, srcStart + blocks[k].offset, blocks[k].length)
  {
  }

  /** Copying the blocks up to `i` and then block `i`. */
  lemma ApplyNext(d: seq<byte>, dstStart: nat, s: seq<byte>, srcStart: nat, blocks: seq<Block>, i: nat)
    requires i < |blocks| && dstStart + blocks[i].End() <= |d| && srcStart + blocks[i].End() <= |s|
    ensures ApplyBlocks(d, dstStart, s, srcStart, blocks[..i + 1])
         == Copied(ApplyBlocks(d, dstStart, s, srcStart, blocks[..i]), dstStart + blocks[i].offset,
                   s, srcStart + blocks[i].offset, blocks[i].length)
  {
    var p := blocks[..i + 1];
    assert p[..i] == blocks[..i] && p[i] == blocks[i];
    ApplyLast(d, dstStart, s, srcStart, p);
  }

  /** If the blocks before the last one have copied the first `m` bytes and
      the last block covers `[m, e)`, all of them have copied the first `e`. */
  lemma ApplyExtends(d: seq<byte>, dstStart: nat, s: seq<byte>, srcStart: nat, blocks: seq<Block>, m: nat, e: nat)
    requires |blocks| > 0 && blocks[|blocks| - 1].offset == m && blocks[|blocks| - 1].End() == e
    requires dstStart + e <= |d| && srcStart + e <= |s|
    requires ApplyBlocks(d, dstStart, s, srcStart, blocks[..|blocks| - 1]) == Copied(d, dstStart, s, srcStart, m)
    ensures ApplyBlocks(d, dstStart, s, srcStart, blocks) == Copied(d, dstStart, s, srcStart, e)
  {
    ApplyLast(d, dstStart, s, srcStart, blocks);
    CopiedAdjacent(d, dstStart, s, srcStart, m, e - m);
  }

  /** Copying a tiling of `[0, n)` block by block leaves the destination as a
      single copy of all `n` bytes does. */
  lemma {:induction false} ApplyTiles(d: seq<byte>, dstStart: nat, s: seq<byte>, srcStart: nat, blocks: seq<Block>, n: nat)
    requires Tiles(blocks, n)
    requires dstStart + n <= |d| && srcStart + n <= |s|
    ensures ApplyBlocks(d, dstStart, s, srcStart, blocks) == Copied(d, dstStart, s, srcStart, n)
  {
    if |blocks| == 0 {
      CopiedAt(d, dstStart, s, srcStart, n);
    } else {
      var k := |blocks| - 1;
      ApplyTiles(d, dstStart, s, srcStart, blocks[..k], blocks[k].offset);
      ApplyExtends(d, dstStart, s, srcStart, blocks, blocks[k].offset, n);
    }
  }

  /** While a tiling of `[0, n)` is copied, the source bytes of each block
      still to come are the original ones: `cur`, the source buffer now, is
      either untouched or the destination buffer itself, written so far only
      in a range disjoint from the source range. */
  lemma LaterSourceIntact(d: seq<byte>, dstStart: nat, s: seq<byte>, srcStart: nat, blocks: seq<Block>, n: nat, i: nat,
                          cur: seq<byte>)
    requires Tiles(blocks, n) && i < |blocks|
    requires dstStart + n <= |d| && srcStart + n <= |s| && |cur| == |s|
    requires cur == s ||
      (s == d && (dstStart + n <= srcStart || srcStart + n <= dstStart) &&
       cur == ApplyBlocks(d, dstStart, s, srcStart, blocks[..i]))
    ensures blocks[i].End() <= n
    ensures forall j :: srcStart + blocks[i].offset <= j < srcStart + blocks[i].End() ==> cur[j] == s[j]
  {
    TilesWithin(blocks, n);
    if cur != s {
      TilesPrefix(blocks, n, i);
      ApplyTiles(d, dstStart, s, srcStart, blocks[..i], blocks[i].offset);
      CopiedAt(d, dstStart, s, srcStart, blocks[i].offset);
    }
  }

  /** One step of copying a tiling block by block, as the parallel loop takes
      it: if `prevDst` is the destination after the blocks before `i` and
      `prevSrc` the source buffer then (untouched, or the destination buffer
      itself), copying block `i` out of `prevSrc` gives the destination after
      the blocks up to `i`. */
  lemma BlockStep(d: seq<byte>, dstStart: nat, s: seq<byte>, srcStart: nat, blocks: seq<Block>, n: nat, i: nat,
                  prevDst: seq<byte>, prevSrc: seq<byte>)
    requires Tiles(blocks, n) && i < |blocks| && blocks[i].End() <= n
    requires dstStart + n <= |d| && srcStart + n <= |s| && |prevSrc| == |s|
    requires prevDst == ApplyBlocks(d, dstStart, s, srcStart, blocks[..i])
    requires prevSrc == s || (s == d && (dstStart + n <= srcStart || srcStart + n <= dstStart) && prevSrc == prevDst)
    ensures Copied(prevDst, dstStart + blocks[i].offset, prevSrc, srcStart + blocks[i].offset, blocks[i].length)
         == ApplyBlocks(d, dstStart, s, srcStart, blocks[..i + 1])
  {
    LaterSourceIntact(d, dstStart, s, srcStart, blocks, n, i, prevSrc);
    CopiedSameSource(prevDst, dstStart + blocks[i].offset, prevSrc, s, srcStart + blocks[i].offset, blocks[i].length);
    ApplyNext(d, dstStart, s, srcStart, blocks, i);
  }

  /** `BlockStep` for the blocks of the parallel plan. */
  lemma PlanStep(d: seq<byte>, dstStart: nat, s: seq<byte>, srcStart: nat, copyLength: uint32, parallelism: int, i: nat,
                 prevDst: seq<byte>, prevSrc: seq<byte>, next: seq<byte>)
    requires i < |Plan(copyLength, parallelism)|
    requires dstStart + copyLength <= |d| && srcStart + copyLength <= |s| && |prevSrc| == |s|
    requires prevDst == ApplyBlocks(d, dstStart, s, srcStart, Plan(copyLength, parallelism)[..i])
    requires prevSrc == s ||
      (s == d && (dstStart + copyLength <= srcStart || srcStart + copyLength <= dstStart) && prevSrc == prevDst)
    requires next == Copied(prevDst, dstStart + Plan(copyLength, parallelism)[i].offset,
                            prevSrc, srcStart + Plan(copyLength, parallelism)[i].offset, Plan(copyLength, parallelism)[i].length)
    ensures next == ApplyBlocks(d, dstStart, s, srcStart, Plan(copyLength, parallelism)[..i + 1])
  {
    PlanTiles(copyLength, parallelism);
    BlockStep(d, dstStart, s, srcStart, Plan(copyLength, parallelism), copyLength, i, prevDst, prevSrc);
  }

  /** The parallel strategy's copies, done in block order, amount to
      one copy of the whole range. */
  lemma PlanCopiesWholeRange(d: seq<byte>, dstStart: nat, s: seq<byte>, srcStart: nat, copyLength: uint32, parallelism: int)
    requires dstStart + copyLength <= |d| && srcStart + copyLength <= |s|
    ensures ApplyBlocks(d, dstStart, s, srcStart, Plan(copyLength, parallelism))
         == Copied(d, dstStart, s, srcStart, copyLength)
  {
    PlanTiles(copyLength, parallelism);
    ApplyTiles(d, dstStart, s, srcStart, Plan(copyLength, parallelism), copyLength);
  }

  /** Some block of `blocks` writes destination index `k`. */
  ghost predicate Covers(dstStart: nat, blocks: seq<Block>, k: int) {
    exists i :: 0 <= i < |blocks| && dstStart + blocks[i].offset <= k < dstStart + blocks[i].End()
  }

  /** The blocks that write index `k` are the last one, if it does, and
      those of the others that do. */
  lemma CoversLast(dstStart: nat, blocks: seq<Block>, k: int)
    requires |blocks| > 0
    ensures var n := |blocks| - 1;
      Covers(dstStart, blocks, k) <==>
      Covers(dstStart, blocks[..n], k) || dstStart + blocks[n].offset <= k < dstStart + blocks[n].End()
  {
    var n := |blocks| - 1;
    if Covers(dstStart, blocks, k) {
      var i :| 0 <= i < |blocks| && dstStart + blocks[i].offset <= k < dstStart + blocks[i].End();
      if i < n {
        assert blocks[..n][i] == blocks[i];
      }
    }
    if Covers(dstStart, blocks[..n], k) {
      var i :| 0 <= i < n && dstStart + blocks[..n][i].offset <= k < dstStart + blocks[..n][i].End();
      assert blocks[..n][i] == blocks[i];
    }
    if dstStart + blocks[n].offset <= k < dstStart + blocks[n].End() {
      assert 0 <= n < |blocks|;
    }
  }

  /** More blocks write at least the same indices. */
  lemma CoversMore(dstStart: nat, a: seq<Block>, b: seq<Block>, k: int)
    requires forall x :: x in a ==> x in b
    ensures Covers(dstStart, a, k) ==> Covers(dstStart, b, k)
  {
    if Covers(dstStart, a, k) {
      var i :| 0 <= i < |a| && dstStart + a[i].offset <= k < dstStart + a[i].End();
      assert a[i] in b;
      var j :| 0 <= j < |b| && b[j] == a[i];
    }
  }

  /** Byte `k` after copying `blocks` that fit both buffers: every block moves
      source index `srcStart + j` to destination index `dstStart + j`, so a
      written byte holds its source byte however many blocks write it and in
      whatever order; an unwritten byte keeps its value. */
  lemma {:induction false} ApplyAt(d: seq<byte>, dstStart: nat, s: seq<byte>, srcStart: nat, blocks: seq<Block>, k: nat)
    requires forall i :: 0 <= i < |blocks| ==> dstStart + blocks[i].End() <= |d| && srcStart + blocks[i].End() <= |s|
    requires k < |d|
    ensures Covers(dstStart, blocks, k) ==>
      dstStart <= k && srcStart + (k - dstStart) < |s| &&
      ApplyBlocks(d, dstStart, s, srcStart, blocks)[k] == s[srcStart + (k - dstStart)]
    ensures !Covers(dstStart, blocks, k) ==> ApplyBlocks(d, dstStart, s, srcStart, blocks)[k] == d[k]
  {
    if |blocks| > 0 {
      var n := |blocks| - 1;
      var b, p := blocks[n], blocks[..n];
      assert forall i :: 0 <= i < |p| ==> p[i] == blocks[i];
      ApplyAt(d, dstStart, s, srcStart, p, k);
      CoversLast(dstStart, blocks, k);
      var before := ApplyBlocks(d, dstStart, s, srcStart, p);
      assert dstStart + b.End() <= |d| && srcStart + b.End() <= |s|;
      assert ApplyBlocks(d, dstStart, s, srcStart, blocks)[k]
          == if dstStart + b.offset <= k < dstStart + b.End() then s[srcStart + b.offset + (k - (dstStart + b.offset))]
             else before[k];
    }
  }

  /** `Parallel.For` leaves the schedule to the thread pool: copying the
      plan's blocks in any order, even with repetitions, still amounts to one
      copy of the whole range. */
  lemma ApplyAnyOrder(d: seq<byte>, dstStart: nat, s: seq<byte>, srcStart: nat, copyLength: uint32, parallelism: int,
                      blocks: seq<Block>)
    requires dstStart + copyLength <= |d| && srcStart + copyLength <= |s|
    requires forall b :: b in blocks <==> b in Plan(copyLength, parallelism)
    ensures ApplyBlocks(d, dstStart, s, srcStart, blocks) == Copied(d, dstStart, s, srcStart, copyLength)
  {
    var plan := Plan(copyLength, parallelism);
    PlanCopiesWholeRange(d, dstStart, s, srcStart, copyLength, parallelism);
    assert forall i :: 0 <= i < |blocks| ==> blocks[i] in plan;
    forall k | 0 <= k < |d|
      ensures ApplyBlocks(d, dstStart, s, srcStart, blocks)[k] == ApplyBlocks(d, dstStart, s, srcStart, plan)[k]
    {
      ApplyAt(d, dstStart, s, srcStart, blocks, k);
      ApplyAt(d, dstStart, s, srcStart, plan, k);
      CoversMore(dstStart, blocks, plan, k);
      CoversMore(dstStart, plan, blocks, k);
    }
  }
}
