/** The walk over erase blocks that both flash drivers make: which part of a write is done at each block,
    and what a visited block must hold. */
module SectorWalk {
  import opened Base
  import opened Sectors

  /** A memory with `src` written at `off`. */
  function Overlaid(m: seq<Byte>, off: nat, src: seq<Byte>): (s: seq<Byte>)
    requires off + |src| <= |m|
    ensures |s| == |m|
  {
    m[..off] + src + m[off + |src|..]
  }

  /** Writing a further piece over a partly written range that was erased. */
  lemma OverlaidStep(was: seq<Byte>, off: nat, src: seq<Byte>, i: nat, j: nat)
    requires off + |src| <= |was| && i <= j <= |src|
    requires was[off..off + |src|] == Blank(|src|)
    ensures Overlaid(was, off, src[..i])[off + i..off + j] == Blank(j - i)
    ensures Overlaid(Overlaid(was, off, src[..i]), off + i, src[i..j]) == Overlaid(was, off, src[..j])
  {
    var o := Overlaid(was, off, src[..i]);
    forall k | off + i <= k < off + j
      ensures o[k] == ERASED
    {
      assert o[k] == was[off..off + |src|][k - off];
    }
    assert src[..j] == src[..i] + src[i..j];
  }

  /** Memories that differ at most in [lo, hi). */
  ghost predicate Within(was: seq<Byte>, m: seq<Byte>, lo: int, hi: int)
  {
    0 <= lo <= hi <= |was| == |m| && m[..lo] == was[..lo] && m[hi..] == was[hi..]
  }

  lemma WithinChain(a: seq<Byte>, b: seq<Byte>, c: seq<Byte>, lo: int, hi: int, lo': int, hi': int)
    requires Within(a, b, lo, hi) && lo <= lo' && hi' <= hi && Within(b, c, lo', hi')
    ensures Within(a, c, lo, hi)
  {
    assert c[..lo] == c[..lo'][..lo] && b[..lo] == b[..lo'][..lo];
    assert c[hi..] == c[hi'..][hi - hi'..] && b[hi..] == b[hi'..][hi - hi'..];
  }

  lemma OverlaidBlank(m: seq<Byte>, start: nat, size: nat, offset: nat, src: seq<Byte>)
    requires start + size <= |m| && start <= offset && offset + |src| <= start + size
    requires m[start..start + size] == Blank(size)
    ensures Overlaid(m, offset, src)[start..start + size] ==
            Blank(offset - start) + src + Blank(start + size - offset - |src|)
  {
    var o := Overlaid(m, offset, src);
    var n := start + size - offset - |src|;
    BlankPart(m, start, size, start, offset - start);
    BlankPart(m, start, size, offset + |src|, n);
    assert o[start..start + size] == m[start..offset] + src + m[offset + |src|..start + size];
  }

  lemma WithinSelf(was: seq<Byte>, lo: int, hi: int)
    requires 0 <= lo <= hi <= |was|
    ensures Within(was, was, lo, hi)
  {
  }

  lemma OverlaidNothing(was: seq<Byte>, off: nat)
    requires off <= |was|
    ensures Overlaid(was, off, []) == was
  {
  }

  lemma BlankPart(m: seq<Byte>, start: nat, size: nat, offset: nat, n: nat)
    requires start + size <= |m| && start <= offset && offset + n <= start + size
    requires m[start..start + size] == Blank(size)
    ensures m[offset..offset + n] == Blank(n)
  {
    forall a | offset <= a < offset + n
      ensures m[a] == ERASED
    {
      assert m[a] == m[start..start + size][a - start];
    }
  }

  lemma SamePart(a: seq<Byte>, b: seq<Byte>, start: nat, x: nat, y: nat)
    requires |a| == |b| && start <= x <= y <= |a| && a[start..] == b[start..]
    ensures a[x..y] == b[x..y]
  {
    assert a[start..|a|] == b[start..|b|];
    PartOfBlock(a, start, |a|, x, y - x);
    PartOfBlock(b, start, |b|, x, y - x);
  }

  lemma PartOfBlock(m: seq<Byte>, start: nat, end: nat, x: nat, n: nat)
    requires start <= x && x + n <= end <= |m|
    ensures m[start..end][x - start..x - start + n] == m[x..x + n]
  {
    var part, whole := m[start..end][x - start..x - start + n], m[x..x + n];
    forall k | 0 <= k < n
      ensures part[k] == whole[k]
    {
      assert m[start..end][x - start + k] == m[x + k];
    }
  }

  lemma WrittenStep(mem: seq<Byte>, regions: seq<Region>, i: nat, j: nat, off: nat, src: seq<Byte>)
    requires i < |regions| && At(regions, i, j + 1) <= |mem|
    ensures var a, b := At(regions, i, j), At(regions, i, j + 1);
            Written(mem, regions, i, j + 1, off, src) ==
            Written(mem, regions, i, j, off, src) + NewBlock(mem[a..b], a, off, src)
  {
    hide NewBlock;
  }

  lemma Spliced(m: seq<Byte>, after: seq<Byte>, was: seq<Byte>, start: nat, end: nat, done: seq<Byte>, block: seq<Byte>)
    requires Within(m, after, start, end) && |was| == |m|
    requires m[..start] == done && m[start..] == was[start..] && after[start..end] == block
    ensures after[..end] == done + block && after[end..] == was[end..]
  {
    SamePart(m, was, start, end, |m|);
    assert m[end..|m|] == m[end..] && was[end..|m|] == was[end..];
    assert after[..end] == after[..start] + after[start..end];
  }

  /** The visited block holds the new contents. */
  lemma BlockDone(was: seq<Byte>, m: seq<Byte>, start: nat, end: nat, off: nat, src: seq<Byte>, offset: nat, done: nat,
                  n: nat, after: seq<Byte>)
    requires |was| == |m| == |after| && start <= offset < end <= |m| && m[start..] == was[start..]
    requires offset == off + done && done <= |src| && (done > 0 ==> start == offset)
    requires n == if end - offset > |src| - done then |src| - done else end - offset
    requires after[start..end] ==
             (if m[offset..offset + n] == src[done..done + n] then m[start..end]
              else Blank(offset - start) + src[done..done + n] + Blank(end - offset - n))
    ensures after[start..end] == NewBlock(was[start..end], start, off, src)
  {
    hide NewBlock, Blank;
    SamePart(m, was, start, start, end);
    SamePart(m, was, start, offset, offset + n);
    PartOfBlock(was, start, end, offset, n);
    ChunkIsPart(was[start..end], start, off, src, offset, done, n);
  }

  /** Every block before block j of region i is final, and nothing behind it has changed. */
  ghost predicate Through(was: seq<Byte>, m: seq<Byte>, regions: seq<Region>, i: nat, j: nat, off: nat, src: seq<Byte>)
  {
    && |was| == |m| && i <= |regions| && (j == 0 || (i < |regions| && j <= regions[i].blocks))
    && At(regions, i, j) <= |m|
    && m[..At(regions, i, j)] == Written(was, regions, i, j, off, src)
    && m[At(regions, i, j)..] == was[At(regions, i, j)..]
  }

  /** The walk is before block j of region i, and `done` source bytes are written or found in place. */
  ghost predicate Progress(was: seq<Byte>, m: seq<Byte>, regions: seq<Region>, i: nat, j: nat, off: nat, src: seq<Byte>,
                           offset: nat, done: nat)
  {
    && Tiles(regions, |m|) && Through(was, m, regions, i, j, off, src)
    && offset == off + done && done <= |src| && (done == |src| ==> src == [])
    && At(regions, i, j) <= offset && (done > 0 ==> At(regions, i, j) == offset)
  }

  /** A write stopped at block j of region i: blocks before it are final, blocks behind it untouched. */
  ghost predicate Stopped(was: seq<Byte>, m: seq<Byte>, regions: seq<Region>, i: nat, j: nat, off: nat, src: seq<Byte>)
  {
    && |was| == |m| && i < |regions| && j < regions[i].blocks && At(regions, i, j) <= At(regions, i, j + 1) <= |m|
    && m[..At(regions, i, j)] == Written(was, regions, i, j, off, src)
    && m[At(regions, i, j + 1)..] == was[At(regions, i, j + 1)..]
  }

  /** Every block holds what writing `src` at `off` leaves in it. */
  ghost predicate Finished(was: seq<Byte>, m: seq<Byte>, regions: seq<Region>, off: nat, src: seq<Byte>)
  {
    |was| == |m| == At(regions, |regions|, 0) && m == Written(was, regions, |regions|, 0, off, src)
  }

  /** What visiting the block [start, start + size) with a part of the source does: nothing if the part is
      there already, else the block is erased and the part written. */
  ghost predicate Visited(m: seq<Byte>, after: seq<Byte>, start: nat, size: nat, offset: nat, part: seq<Byte>)
  {
    && start <= offset && offset + |part| <= start + size && Within(m, after, start, start + size)
    && after[start..start + size] ==
       (if m[offset..offset + |part|] == part then m[start..start + size]
        else Blank(offset - start) + part + Blank(start + size - offset - |part|))
  }

  lemma ProgressStart(was: seq<Byte>, regions: seq<Region>, off: nat, src: seq<Byte>)
    requires Tiles(regions, |was|)
    ensures Progress(was, was, regions, 0, 0, off, src, off, 0)
  {
  }

  /** The end of one region is the start of the next. */
  lemma NextRegion(was: seq<Byte>, m: seq<Byte>, regions: seq<Region>, i: nat, off: nat, src: seq<Byte>, offset: nat, done: nat)
    requires i < |regions| && Progress(was, m, regions, i, regions[i].blocks, off, src, offset, done)
    ensures Progress(was, m, regions, i + 1, 0, off, src, offset, done)
  {
  }

  /** The walk ran off the end of the device. */
  lemma ProgressEnd(was: seq<Byte>, m: seq<Byte>, regions: seq<Region>, off: nat, src: seq<Byte>, offset: nat, done: nat)
    requires Progress(was, m, regions, |regions|, 0, off, src, offset, done)
    ensures Finished(was, m, regions, off, src)
  {
    AtTiles(regions, |m|, |regions|);
    assert m[..|m|] == m;
  }

  /** A region starts and ends where the table says. */
  lemma RegionBounds(regions: seq<Region>, size: nat, i: nat)
    requires Tiles(regions, size) && i < |regions|
    ensures regions[i].offset == At(regions, i, 0)
    ensures regions[i].offset + regions[i].size == At(regions, i + 1, 0)
  {
    AtTiles(regions, size, i);
    AtTiles(regions, size, i + 1);
  }

  lemma AtStep(regions: seq<Region>, i: nat, j: nat)
    requires i < |regions|
    ensures At(regions, i, j + 1) == At(regions, i, j) + regions[i].blockSize
  {
  }

  /** Blocks lie in the device. */
  lemma BlockInside(regions: seq<Region>, size: nat, i: nat, j: nat)
    requires Tiles(regions, size) && i < |regions| && j < regions[i].blocks
    ensures At(regions, i, j) <= At(regions, i, j + 1) == At(regions, i, j) + regions[i].blockSize <= size
  {
    AtMonotone(regions, i, j + 1, |regions|, 0);
    AtTiles(regions, size, |regions|);
  }

  /** A stretch the range does not reach into is passed over unchanged. */
  lemma SkipTo(was: seq<Byte>, m: seq<Byte>, regions: seq<Region>, i: nat, j: nat, i': nat, j': nat, off: nat, src: seq<Byte>)
    requires i < |regions| && j <= regions[i].blocks
    requires (i' == i && j <= j' <= regions[i].blocks) || (i' == i + 1 && j' == 0)
    requires Through(was, m, regions, i, j, off, src) && At(regions, i, j) <= At(regions, i', j') <= |m|
    requires At(regions, i', j') <= off || off + |src| <= At(regions, i, j) || At(regions, i, j) == At(regions, i', j')
    ensures Through(was, m, regions, i', j', off, src)
  {
    hide At, Written;
    var a, b := At(regions, i, j), At(regions, i', j');
    WrittenMisses(was, regions, i, j, i', j', off, src);
    assert m[..b] == m[..a] + m[a..b];
    SamePart(m, was, a, a, b);
    SamePart(m, was, a, b, |m|);
    assert m[b..|m|] == m[b..] && was[b..|m|] == was[b..];
  }

  /** A region the range does not start in is passed over unchanged. */
  lemma SkipRegion(was: seq<Byte>, m: seq<Byte>, regions: seq<Region>, i: nat, off: nat, src: seq<Byte>, offset: nat, done: nat)
    requires i < |regions| && Progress(was, m, regions, i, 0, off, src, offset, done)
    requires !(At(regions, i, 0) <= offset < At(regions, i + 1, 0))
    ensures Progress(was, m, regions, i + 1, 0, off, src, offset, done)
  {
    hide At, Through, Tiles;
    AtMonotone(regions, i, 0, i + 1, 0);
    AtMonotone(regions, i + 1, 0, |regions|, 0);
    AtTiles(regions, |m|, |regions|);
    ThroughLength(was, m, regions, i, 0, off, src);
    SkipTo(was, m, regions, i, 0, i + 1, 0, off, src);
  }

  /** A block the range does not start in is passed over unchanged. */
  lemma SkipBlock(was: seq<Byte>, m: seq<Byte>, regions: seq<Region>, i: nat, j: nat, off: nat, src: seq<Byte>, offset: nat, done: nat)
    requires i < |regions| && j < regions[i].blocks && Progress(was, m, regions, i, j, off, src, offset, done)
    requires !(At(regions, i, j) <= offset < At(regions, i, j + 1))
    ensures Progress(was, m, regions, i, j + 1, off, src, offset, done)
  {
    hide At, Through, Tiles;
    BlockInside(regions, |m|, i, j);
    ThroughLength(was, m, regions, i, j, off, src);
    SkipTo(was, m, regions, i, j, i, j + 1, off, src);
  }

  lemma ThroughLength(was: seq<Byte>, m: seq<Byte>, regions: seq<Region>, i: nat, j: nat, off: nat, src: seq<Byte>)
    requires Through(was, m, regions, i, j, off, src)
    ensures |was| == |m|
  {
  }

  /** A block just visited is what the specification says. */
  lemma BlockWritten(was: seq<Byte>, m: seq<Byte>, after: seq<Byte>, regions: seq<Region>, i: nat, j: nat, off: nat,
                     src: seq<Byte>, offset: nat, done: nat, n: nat)
    requires i < |regions| && j < regions[i].blocks && Progress(was, m, regions, i, j, off, src, offset, done)
    requires At(regions, i, j) <= offset < At(regions, i, j + 1)
    requires n == if At(regions, i, j + 1) - offset > |src| - done then |src| - done else At(regions, i, j + 1) - offset
    requires Visited(m, after, At(regions, i, j), regions[i].blockSize, offset, src[done..done + n])
    ensures Through(was, after, regions, i, j + 1, off, src)
  {
    hide At, Written, NewBlock, Within, Tiles, Blank, Visited, Through, Progress;
    ProgressFacts(was, m, regions, i, j, off, src, offset, done);
    ThroughFacts(was, m, regions, i, j, off, src);
    BlockInside(regions, |m|, i, j);
    var start, end, prefix := At(regions, i, j), At(regions, i, j + 1), Written(was, regions, i, j, off, src);
    BlockSpliced(was, m, after, start, end, prefix, off, src, offset, done, n);
    WrittenStep(was, regions, i, j, off, src);
    ThroughFrom(was, after, regions, i, j + 1, off, src);
  }

  /** The same for the contents alone. */
  lemma BlockSpliced(was: seq<Byte>, m: seq<Byte>, after: seq<Byte>, start: nat, end: nat, prefix: seq<Byte>, off: nat,
                     src: seq<Byte>, offset: nat, done: nat, n: nat)
    requires |was| == |m| && start <= offset < end <= |m| && m[..start] == prefix && m[start..] == was[start..]
    requires offset == off + done && done <= |src| && (done > 0 ==> start == offset)
    requires n == if end - offset > |src| - done then |src| - done else end - offset
    requires Visited(m, after, start, end - start, offset, src[done..done + n])
    ensures |after| == |m| && after[..end] == prefix + NewBlock(was[start..end], start, off, src) && after[end..] == was[end..]
  {
    hide NewBlock, Within, Blank;
    WithinLength(m, after, start, end);
    BlockDone(was, m, start, end, off, src, offset, done, n, after);
    Spliced(m, after, was, start, end, prefix, NewBlock(was[start..end], start, off, src));
  }

  lemma ProgressFacts(was: seq<Byte>, m: seq<Byte>, regions: seq<Region>, i: nat, j: nat, off: nat, src: seq<Byte>,
                      offset: nat, done: nat)
    requires i < |regions| && Progress(was, m, regions, i, j, off, src, offset, done)
    ensures Tiles(regions, |m|) && Through(was, m, regions, i, j, off, src)
    ensures offset == off + done && done <= |src| && (done > 0 ==> At(regions, i, j) == offset)
  {
    hide Tiles, Through, At;
  }

  lemma ThroughFacts(was: seq<Byte>, m: seq<Byte>, regions: seq<Region>, i: nat, j: nat, off: nat, src: seq<Byte>)
    requires i < |regions| && Through(was, m, regions, i, j, off, src)
    ensures |was| == |m| && At(regions, i, j) <= |m|
    ensures m[..At(regions, i, j)] == Written(was, regions, i, j, off, src)
    ensures m[At(regions, i, j)..] == was[At(regions, i, j)..]
  {
    hide At, Written;
  }

  lemma ThroughFrom(was: seq<Byte>, m: seq<Byte>, regions: seq<Region>, i: nat, j: nat, off: nat, src: seq<Byte>)
    requires |was| == |m| && i < |regions| && j <= regions[i].blocks && At(regions, i, j) <= |m|
    requires m[..At(regions, i, j)] == Written(was, regions, i, j, off, src)
    requires m[At(regions, i, j)..] == was[At(regions, i, j)..]
    ensures Through(was, m, regions, i, j, off, src)
  {
    hide At, Written;
  }

  lemma WithinLength(m: seq<Byte>, after: seq<Byte>, lo: int, hi: int)
    requires Within(m, after, lo, hi)
    ensures 0 <= lo <= hi <= |m| == |after|
  {
  }

  /** A block that failed leaves its neighbours alone. */
  lemma BlockFailed(was: seq<Byte>, m: seq<Byte>, after: seq<Byte>, regions: seq<Region>, i: nat, j: nat, off: nat, src: seq<Byte>)
    requires Tiles(regions, |m|) && i < |regions| && j < regions[i].blocks && Through(was, m, regions, i, j, off, src)
    requires Within(m, after, At(regions, i, j), At(regions, i, j + 1))
    ensures Stopped(was, after, regions, i, j, off, src)
  {
    hide At, Written, Tiles;
    BlockInside(regions, |m|, i, j);
    var start, end := At(regions, i, j), At(regions, i, j + 1);
    SamePart(m, was, start, end, |m|);
    assert m[end..|m|] == m[end..] && was[end..|m|] == was[end..];
  }

  /** Where the walk goes after a block that was visited and not the last. */
  lemma VisitedOn(was: seq<Byte>, m: seq<Byte>, after: seq<Byte>, regions: seq<Region>, i: nat, j: nat, off: nat,
                  src: seq<Byte>, offset: nat, done: nat, n: nat)
    requires Progress(was, m, regions, i, j, off, src, offset, done) && |after| == |m|
    requires i < |regions| && Through(was, after, regions, i, j + 1, off, src)
    requires n == At(regions, i, j + 1) - offset < |src| - done
    ensures Progress(was, after, regions, i, j + 1, off, src, At(regions, i, j + 1), done + n)
  {
    hide At, Through, Tiles;
  }

  /** Blocks behind the last one written are not in the range. */
  lemma WriteEnds(was: seq<Byte>, m: seq<Byte>, regions: seq<Region>, i: nat, j: nat, off: nat, src: seq<Byte>)
    requires Tiles(regions, |m|) && i < |regions| && j < regions[i].blocks
    requires Through(was, m, regions, i, j + 1, off, src) && off + |src| <= At(regions, i, j + 1)
    ensures Finished(was, m, regions, off, src)
  {
    hide Written, NewBlock, At, Tiles;
    AtTiles(regions, |m|, |regions|);
    WrittenMisses(was, regions, i, j + 1, |regions|, 0, off, src);
    var b := At(regions, i, j + 1);
    assert m == m[..b] + m[b..];
    assert was[b..|was|] == was[b..];
  }

  /** What one visit programs is the source's part of the block. */
  lemma ChunkIsPart(block: seq<Byte>, start: nat, off: nat, src: seq<Byte>, offset: nat, done: nat, n: nat)
    requires start <= offset < start + |block| && offset == off + done && done <= |src|
    requires done > 0 ==> start == offset
    requires n == if start + |block| - offset > |src| - done then |src| - done else start + |block| - offset
    ensures NewBlock(block, start, off, src) ==
            (if block[offset - start..offset - start + n] == src[done..done + n] then block
             else Blank(offset - start) + src[done..done + n] + Blank(start + |block| - offset - n))
  {
    hide NewBlock, Meets, Lo, Hi, Part, Blank;
    if n == 0 {
      assert block[offset - start..offset - start + n] == src[done..done + n];
      NewBlockMisses(block, start, off, src);
    } else {
      ChunkBounds(start, |block|, off, src, offset, done, n);
      NewBlockIs(block, start, off, src, offset - start, offset - start + n, src[done..done + n]);
    }
  }

  lemma NewBlockMisses(block: seq<Byte>, start: nat, off: nat, src: seq<Byte>)
    requires off + |src| <= start || src == []
    ensures NewBlock(block, start, off, src) == block
  {
  }

  lemma NewBlockIs(block: seq<Byte>, start: nat, off: nat, src: seq<Byte>, lo: nat, hi: nat, part: seq<Byte>)
    requires Meets(start, |block|, off, |src|)
    requires lo == Lo(start, off) && hi == Hi(start, |block|, off, |src|) && part == Part(start, |block|, off, src)
    ensures NewBlock(block, start, off, src) ==
            if block[lo..hi] == part then block else Blank(lo) + part + Blank(|block| - hi)
  {
  }

  lemma ChunkBounds(start: nat, size: nat, off: nat, src: seq<Byte>, offset: nat, done: nat, n: nat)
    requires start <= offset < start + size && offset == off + done && done <= |src| && n > 0
    requires done > 0 ==> start == offset
    requires n == if start + size - offset > |src| - done then |src| - done else start + size - offset
    ensures Meets(start, size, off, |src|)
    ensures Lo(start, off) == offset - start && Hi(start, size, off, |src|) == offset - start + n
    ensures Part(start, size, off, src) == src[done..done + n]
  {
    var lo, hi := offset - start, offset - start + n;
    assert Meets(start, size, off, |src|);
    assert Lo(start, off) == lo && Hi(start, size, off, |src|) == hi;
    hide Meets, Lo, Hi;
    assert start + lo - off == done && start + hi - off == done + n;
  }

  /** After a successful write the range reads back as the source as far as the device goes; a part behind
      the end of the device is dropped without an error. Bytes outside the range keep their value or are erased. */
  lemma ReadsBack(was: seq<Byte>, m: seq<Byte>, regions: seq<Region>, off: nat, src: seq<Byte>)
    requires Finished(was, m, regions, off, src)
    ensures off + |src| <= |m| ==> m[off..off + |src|] == src
    ensures off <= |m| <= off + |src| ==> m[off..] == src[..|m| - off]
    ensures forall a :: 0 <= a < |m| && !(off <= a < off + |src|) ==> m[a] == was[a] || m[a] == ERASED
    ensures |m| <= off ==> m == was
  {
    hide Written, At;
    forall a | 0 <= a < |m|
      ensures if off <= a < off + |src| then m[a] == src[a - off] else m[a] == was[a] || m[a] == ERASED
    {
      WrittenReads(was, regions, |regions|, 0, off, src, a);
    }
    if |m| <= off {
      AtMonotone(regions, 0, 0, |regions|, 0);
      WrittenNowhere(was, regions, off, src);
    }
  }

  lemma WrittenNowhere(was: seq<Byte>, regions: seq<Region>, off: nat, src: seq<Byte>)
    requires At(regions, |regions|, 0) == |was| <= off
    ensures Written(was, regions, |regions|, 0, off, src) == was
  {
    AtMonotone(regions, 0, 0, |regions|, 0);
    WrittenMisses(was, regions, 0, 0, |regions|, 0, off, src);
  }

  /** A block outside the range, or one that holds the source already, is not changed. */
  lemma KeepsBlock(was: seq<Byte>, m: seq<Byte>, regions: seq<Region>, off: nat, src: seq<Byte>, i: nat, j: nat)
    requires Finished(was, m, regions, off, src) && i < |regions| && j < regions[i].blocks
    requires forall a :: 0 <= a < |was| && At(regions, i, j) <= a < At(regions, i, j + 1) && off <= a < off + |src| ==>
                           was[a] == src[a - off]
    ensures At(regions, i, j) <= At(regions, i, j + 1) <= |was|
    ensures m[At(regions, i, j)..At(regions, i, j + 1)] == was[At(regions, i, j)..At(regions, i, j + 1)]
  {
    hide Written, At, NewBlock;
    var a, b := At(regions, i, j), At(regions, i, j + 1);
    AtMonotone(regions, i, j, i, j + 1);
    AtMonotone(regions, i, j + 1, |regions|, 0);
    WrittenBlock(was, regions, i, j, |regions|, 0, off, src);
    forall k | 0 <= k < b - a && off <= a + k < off + |src|
      ensures was[a..b][k] == src[a + k - off]
    {
      assert was[a..b][k] == was[a + k];
    }
    BlockMatches(was[a..b], a, off, src);
  }
}
