/** Erase blocks, and what writing a range does to a memory made of them. Both flash drivers are proved
    against this one specification. */
module Sectors {

  import opened Base

  const ERASED: Byte := 0xFF

  /** A run of equal erase blocks. */
  datatype Region = Region(offset: nat, size: nat, blocks: nat, blockSize: nat)

  /** The regions cover [0, size) in order, without gaps or overlap. */
  ghost predicate Tiles(regions: seq<Region>, size: nat)
  {
    && (forall i :: 0 <= i < |regions| ==> regions[i].size == regions[i].blocks * regions[i].blockSize)
    && (regions != [] ==> regions[0].offset == 0)
    && (forall i :: 0 < i < |regions| ==> regions[i].offset == regions[i - 1].offset + regions[i - 1].size)
    && size == if regions == [] then 0 else regions[|regions| - 1].offset + regions[|regions| - 1].size
  }

  /** Where block j of region i starts; (i, blocks) is where the region ends. */
  ghost function At(regions: seq<Region>, i: nat, j: nat): (a: nat)
    requires i <= |regions| && (j == 0 || i < |regions|)
    decreases i, j
  {
    if j > 0 then At(regions, i, j - 1) + regions[i].blockSize
    else if i > 0 then At(regions, i - 1, regions[i - 1].blocks)
    else 0
  }

  lemma {:induction false} AtLinear(regions: seq<Region>, i: nat, j: nat)
    requires i < |regions|
    ensures At(regions, i, j) == At(regions, i, 0) + j * regions[i].blockSize
    decreases j
  {
    if j > 0 {
      AtLinear(regions, i, j - 1);
    }
  }

  /** In a tiling, blocks start where the region table says. */
  lemma {:induction false} AtTiles(regions: seq<Region>, size: nat, i: nat)
    requires Tiles(regions, size) && i <= |regions|
    ensures At(regions, i, 0) == if i == |regions| then size else regions[i].offset
    decreases i
  {
    hide At, Tiles;
    if i == 0 {
      TilesFirst(regions, size);
    } else {
      AtTiles(regions, size, i - 1);
      AtEnd(regions, i - 1);
      TilesNext(regions, size, i - 1);
    }
  }

  lemma TilesFirst(regions: seq<Region>, size: nat)
    requires Tiles(regions, size)
    ensures At(regions, 0, 0) == if regions == [] then size else regions[0].offset
  {
  }

  /** A region ends where the next one starts. */
  lemma AtEnd(regions: seq<Region>, i: nat)
    requires i < |regions|
    ensures At(regions, i + 1, 0) == At(regions, i, 0) + regions[i].blocks * regions[i].blockSize
  {
    AtLinear(regions, i, regions[i].blocks);
  }

  lemma TilesNext(regions: seq<Region>, size: nat, i: nat)
    requires Tiles(regions, size) && i < |regions|
    ensures regions[i].offset + regions[i].blocks * regions[i].blockSize ==
            if i + 1 == |regions| then size else regions[i + 1].offset
  {
  }

  lemma {:induction false} AtMonotone(regions: seq<Region>, i: nat, j: nat, i': nat, j': nat)
    requires i < i' || (i == i' && j <= j')
    requires i' <= |regions| && (j' == 0 || i' < |regions|) && (i < |regions| ==> j <= regions[i].blocks || i == i')
    requires i == |regions| ==> j == 0
    ensures At(regions, i, j) <= At(regions, i', j')
    decreases i', j'
  {
    if j' > 0 && !(i == i' && j == j') {
      AtMonotone(regions, i, j, i', j' - 1);
    } else if i' > i {
      AtMonotone(regions, i, j, i' - 1, regions[i' - 1].blocks);
    }
  }

  function Blank(n: nat): (s: seq<Byte>)
    ensures |s| == n && forall i :: 0 <= i < n ==> s[i] == ERASED
  {
    seq(n, _ => ERASED)
  }

  /** Bitwise and. */
  function And(x: Byte, y: Byte): (z: Byte)
    ensures z <= x && z <= y
  {
    if x == 0 || y == 0 then 0
    else 2 * And(x / 2, y / 2) + (if x % 2 == 1 && y % 2 == 1 then 1 else 0)
  }

  lemma {:induction false} AndSelf(x: Byte)
    ensures And(x, x) == x
  {
    if x != 0 {
      AndSelf(x / 2);
    }
  }

  lemma {:induction false} AndComm(x: Byte, y: Byte)
    ensures And(x, y) == And(y, x)
  {
    if x != 0 && y != 0 {
      AndComm(x / 2, y / 2);
    }
  }

  /** Ones down to bit 0 keep what they cover. */
  lemma {:induction false} AndMask(ones: Byte, x: Byte)
    requires x <= ones && ones in {0, 1, 3, 7, 15, 31, 63, 127, 255}
    ensures And(ones, x) == x
  {
    if x != 0 {
      AndMask(ones / 2, x / 2);
    }
  }

  /** Programming can only clear bits. */
  function Anded(cells: seq<Byte>, word: seq<Byte>): (s: seq<Byte>)
    requires |cells| == |word|
    ensures |s| == |word|
  {
    seq(|word|, k requires 0 <= k < |word| => And(cells[k], word[k]))
  }

  lemma AndOnes(b: Byte)
    ensures And(ERASED, b) == b && And(b, ERASED) == b && And(b, b) == b
  {
    AndMask(ERASED, b);
    AndComm(ERASED, b);
    AndSelf(b);
  }

  /** The range [off, off + n) meets the block [start, start + size). */
  predicate Meets(start: nat, size: nat, off: nat, n: nat)
  {
    off < start + size && start < off + n && size > 0 && n > 0
  }

  /** Where in the block the range begins. */
  function Lo(start: nat, off: nat): (lo: nat)
  {
    if off > start then off - start else 0
  }

  /** Where in the block the range ends. */
  function Hi(start: nat, size: nat, off: nat, n: nat): (hi: nat)
    requires Meets(start, size, off, n)
    ensures Lo(start, off) < hi <= size && start + hi <= off + n
  {
    if off + n < start + size then off + n - start else size
  }

  /** The part of the source that falls into the block. */
  function Part(start: nat, size: nat, off: nat, src: seq<Byte>): (p: seq<Byte>)
    requires Meets(start, size, off, |src|)
    ensures |p| == Hi(start, size, off, |src|) - Lo(start, off)
    ensures forall k :: 0 <= k < |p| ==> p[k] == src[start + Lo(start, off) + k - off]
  {
    src[start + Lo(start, off) - off..start + Hi(start, size, off, |src|) - off]
  }

  /** One block that starts at `start`, after `src` was written at `off`: untouched if the range misses it
      or already matches, otherwise erased and the range's part written. */
  ghost function NewBlock(block: seq<Byte>, start: nat, off: nat, src: seq<Byte>): (b: seq<Byte>)
    ensures |b| == |block|
  {
    if !Meets(start, |block|, off, |src|) then block
    else
      var lo, hi := Lo(start, off), Hi(start, |block|, off, |src|);
      var part := Part(start, |block|, off, src);
      if block[lo..hi] == part then block else Blank(lo) + part + Blank(|block| - hi)
  }

  /** All blocks before block j of region i, after `src` was written at `off`. */
  ghost function Written(mem: seq<Byte>, regions: seq<Region>, i: nat, j: nat, off: nat, src: seq<Byte>): (w: seq<Byte>)
    requires i <= |regions| && (j == 0 || i < |regions|) && At(regions, i, j) <= |mem|
    ensures |w| == At(regions, i, j)
    decreases i, j
  {
    if j > 0 then
      var a := At(regions, i, j - 1);
      Written(mem, regions, i, j - 1, off, src) + NewBlock(mem[a..a + regions[i].blockSize], a, off, src)
    else if i > 0 then Written(mem, regions, i - 1, regions[i - 1].blocks, off, src)
    else []
  }

  lemma BlockMisses(block: seq<Byte>, start: nat, off: nat, src: seq<Byte>)
    requires start + |block| <= off || off + |src| <= start || block == []
    ensures NewBlock(block, start, off, src) == block
  {
  }

  /** Blocks the range misses keep their contents. */
  lemma {:induction false} WrittenMisses(mem: seq<Byte>, regions: seq<Region>, i: nat, j: nat, i': nat, j': nat,
                                         off: nat, src: seq<Byte>)
    requires i < i' || (i == i' && j <= j')
    requires i' <= |regions| && (j' == 0 || i' < |regions|) && (i < |regions| ==> j <= regions[i].blocks || i == i')
    requires i == |regions| ==> j == 0
    requires At(regions, i, j) <= At(regions, i', j') <= |mem|
    requires At(regions, i', j') <= off || off + |src| <= At(regions, i, j) || At(regions, i, j) == At(regions, i', j')
    ensures Written(mem, regions, i', j', off, src) ==
            Written(mem, regions, i, j, off, src) + mem[At(regions, i, j)..At(regions, i', j')]
    decreases i', j'
  {
    hide NewBlock, Written, At;
    var a := At(regions, i, j);
    if i == i' && j == j' {
      assert mem[a..a] == [];
    } else if j' > 0 {
      AtMonotone(regions, i, j, i', j' - 1);
      AtMonotone(regions, i', j' - 1, i', j');
      WrittenMisses(mem, regions, i, j, i', j' - 1, off, src);
      MissStep(mem, regions, i', j' - 1, off, src);
      SliceJoin(mem, a, At(regions, i', j' - 1), At(regions, i', j'));
    } else {
      AtMonotone(regions, i, j, i' - 1, regions[i' - 1].blocks);
      RegionStep(mem, regions, i' - 1, off, src);
      WrittenMisses(mem, regions, i, j, i' - 1, regions[i' - 1].blocks, off, src);
    }
  }

  lemma MissStep(mem: seq<Byte>, regions: seq<Region>, i: nat, j: nat, off: nat, src: seq<Byte>)
    requires i < |regions| && At(regions, i, j) <= At(regions, i, j + 1) <= |mem|
    requires At(regions, i, j + 1) <= off || off + |src| <= At(regions, i, j) || At(regions, i, j) == At(regions, i, j + 1)
    ensures Written(mem, regions, i, j + 1, off, src) ==
            Written(mem, regions, i, j, off, src) + mem[At(regions, i, j)..At(regions, i, j + 1)]
  {
    hide NewBlock;
    BlockMisses(mem[At(regions, i, j)..At(regions, i, j + 1)], At(regions, i, j), off, src);
  }

  lemma RegionStep(mem: seq<Byte>, regions: seq<Region>, i: nat, off: nat, src: seq<Byte>)
    requires i < |regions| && At(regions, i + 1, 0) <= |mem|
    ensures At(regions, i + 1, 0) == At(regions, i, regions[i].blocks)
    ensures Written(mem, regions, i + 1, 0, off, src) == Written(mem, regions, i, regions[i].blocks, off, src)
  {
  }

  lemma SliceJoin(m: seq<Byte>, a: nat, b: nat, c: nat)
    requires a <= b <= c <= |m|
    ensures m[a..c] == m[a..b] + m[b..c]
  {
  }

  /** Each block of the result is the new block for the old contents. */
  lemma {:induction false} WrittenBlock(mem: seq<Byte>, regions: seq<Region>, i: nat, j: nat, i': nat, j': nat,
                                        off: nat, src: seq<Byte>)
    requires i < |regions| && j < regions[i].blocks
    requires i < i' || (i == i' && j + 1 <= j')
    requires i' <= |regions| && (j' == 0 || i' < |regions|)
    requires At(regions, i', j') <= |mem|
    ensures At(regions, i, j) <= At(regions, i, j + 1) <= At(regions, i', j')
    ensures Written(mem, regions, i', j', off, src)[At(regions, i, j)..At(regions, i, j + 1)] ==
            NewBlock(mem[At(regions, i, j)..At(regions, i, j + 1)], At(regions, i, j), off, src)
    decreases i', j'
  {
    hide NewBlock;
    AtMonotone(regions, i, j + 1, i', j');
    var a, b := At(regions, i, j), At(regions, i, j + 1);
    if j' > 0 {
      var c := At(regions, i', j' - 1);
      var w, last := Written(mem, regions, i', j' - 1, off, src), NewBlock(mem[c..At(regions, i', j')], c, off, src);
      assert Written(mem, regions, i', j', off, src) == w + last;
      if i == i' && j + 1 == j' {
        TailSlice(w, last);
      } else {
        WrittenBlock(mem, regions, i, j, i', j' - 1, off, src);
        HeadSlice(w, last, a, b);
      }
    } else {
      WrittenBlock(mem, regions, i, j, i' - 1, regions[i' - 1].blocks, off, src);
    }
  }

  lemma TailSlice(x: seq<Byte>, y: seq<Byte>)
    ensures (x + y)[|x|..|x| + |y|] == y
  {
  }

  lemma HeadSlice(x: seq<Byte>, y: seq<Byte>, a: nat, b: nat)
    requires a <= b <= |x|
    ensures (x + y)[a..b] == x[a..b]
  {
  }

  /** The range reads back as the source; everything else is as it was, or erased. */
  lemma {:induction false} WrittenReads(mem: seq<Byte>, regions: seq<Region>, i: nat, j: nat, off: nat, src: seq<Byte>, a: nat)
    requires i <= |regions| && (j == 0 || i < |regions|) && a < At(regions, i, j) <= |mem|
    ensures var w := Written(mem, regions, i, j, off, src);
            if off <= a < off + |src| then w[a] == src[a - off] else w[a] == mem[a] || w[a] == ERASED
    decreases i, j
  {
    hide NewBlock;
    if j > 0 {
      var c := At(regions, i, j - 1);
      var block := mem[c..At(regions, i, j)];
      var w, last := Written(mem, regions, i, j - 1, off, src), NewBlock(block, c, off, src);
      assert Written(mem, regions, i, j, off, src) == w + last;
      if a < c {
        WrittenReads(mem, regions, i, j - 1, off, src, a);
        assert (w + last)[a] == w[a];
      } else {
        BlockReads(block, c, off, src, a);
        assert (w + last)[a] == last[a - c] && block[a - c] == mem[a];
      }
    } else if i > 0 {
      WrittenReads(mem, regions, i - 1, regions[i - 1].blocks, off, src, a);
    }
  }

  lemma BlockReads(block: seq<Byte>, start: nat, off: nat, src: seq<Byte>, a: nat)
    requires start <= a < start + |block|
    ensures var b := NewBlock(block, start, off, src);
            if off <= a < off + |src| then b[a - start] == src[a - off]
            else b[a - start] == block[a - start] || b[a - start] == ERASED
  {
    hide Part, Blank;
    if Meets(start, |block|, off, |src|) {
      var lo, hi := Lo(start, off), Hi(start, |block|, off, |src|);
      var part := Part(start, |block|, off, src);
      InThree(Blank(lo), part, Blank(|block| - hi), a - start);
      if lo <= a - start < hi && block[lo..hi] == part {
        assert block[lo..hi][a - start - lo] == block[a - start];
      }
    }
  }

  lemma InThree(x: seq<Byte>, y: seq<Byte>, z: seq<Byte>, k: nat)
    requires k < |x| + |y| + |z|
    ensures (x + y + z)[k] ==
            if k < |x| then x[k] else if k < |x| + |y| then y[k - |x|] else z[k - |x| - |y|]
  {
  }

  /** Writing what is already there changes nothing: a second identical write erases no block. */
  lemma {:induction false} WrittenTwice(mem: seq<Byte>, regions: seq<Region>, i: nat, j: nat, off: nat, src: seq<Byte>)
    requires i <= |regions| && (j == 0 || i < |regions|) && At(regions, i, j) <= |mem|
    requires forall a :: off <= a < off + |src| && a < At(regions, i, j) ==> mem[a] == src[a - off]
    ensures Written(mem, regions, i, j, off, src) == mem[..At(regions, i, j)]
    decreases i, j
  {
    hide NewBlock;
    if j > 0 {
      WrittenTwice(mem, regions, i, j - 1, off, src);
      var a, b := At(regions, i, j - 1), At(regions, i, j);
      BlockMatches(mem[a..b], a, off, src);
      assert mem[..b] == mem[..a] + mem[a..b];
    } else if i > 0 {
      WrittenTwice(mem, regions, i - 1, regions[i - 1].blocks, off, src);
    }
  }

  lemma BlockMatches(block: seq<Byte>, start: nat, off: nat, src: seq<Byte>)
    requires forall k :: 0 <= k < |block| && off <= start + k < off + |src| ==> block[k] == src[start + k - off]
    ensures NewBlock(block, start, off, src) == block
  {
    hide Part;
    if Meets(start, |block|, off, |src|) {
      var lo, hi := Lo(start, off), Hi(start, |block|, off, |src|);
      var part := Part(start, |block|, off, src);
      forall k | 0 <= k < |part|
        ensures block[lo..hi][k] == part[k]
      {
        assert block[lo..hi][k] == block[lo + k];
      }
      assert block[lo..hi] == part;
    }
  }
}
