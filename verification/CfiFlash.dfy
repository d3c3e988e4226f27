/** Parallel flash behind the Common Flash Interface: the block walk, the word programmer and the
    region table. Erasing and programming are steps of the device that succeed or fail. */
module CfiFlash {
  import opened Base
  import opened Sectors
  import opened SectorWalk

  const EIO := 5
  const ETIMEDOUT := 116

  lemma AlignedStep(x: int, w: int)
    requires w == 1 || w == 2 || w == 4
    ensures (x + w) % w == x % w
    ensures 0 <= x % w < w
    ensures (x - x % w) % w == 0
    ensures (x + w - x % w) % w == 0
  {
  }

  lemma OnlyBetween(was: seq<Byte>, m: seq<Byte>, lo: nat, hi: nat)
    requires lo <= hi <= |was| == |m|
    requires forall a :: 0 <= a < |m| && !(lo <= a < hi) ==> m[a] == was[a]
    ensures m[..lo] == was[..lo] && m[hi..] == was[hi..]
  {
  }

  lemma AndedAt(was: seq<Byte>, m: seq<Byte>, addr: nat, word: seq<Byte>)
    requires |was| == |m| && addr + |word| <= |m|
    requires forall a :: addr <= a < addr + |word| ==> m[a] == And(was[a], word[a - addr])
    ensures m[addr..addr + |word|] == Anded(was[addr..addr + |word|], word)
  {
    var after, before := m[addr..addr + |word|], was[addr..addr + |word|];
    forall k | 0 <= k < |word|
      ensures after[k] == Anded(before, word)[k]
    {
      assert after[k] == m[addr + k] && before[k] == was[addr + k];
    }
  }

  /** Over erased cells a program is exact, and bytes programmed over themselves stay. */
  lemma AndedExact(before: seq<Byte>, data: seq<Byte>, after: seq<Byte>)
    ensures Anded(before + Blank(|data|) + after, before + data + after) == before + data + after
  {
    forall k | 0 <= k < |before + data + after|
      ensures Anded(before + Blank(|data|) + after, before + data + after)[k] == (before + data + after)[k]
    {
      AndOnes((before + data + after)[k]);
    }
  }

  lemma WordOverlaid(was: seq<Byte>, m: seq<Byte>, addr: int, width: int, before: seq<Byte>, data: seq<Byte>, after: seq<Byte>)
    requires 0 <= addr && 0 <= width && addr + width <= |was| == |m|
    requires m[..addr] == was[..addr] && m[addr + width..] == was[addr + width..]
    requires width == |before| + |data| + |after|
    requires was[addr..addr + width] == before + Blank(|data|) + after
    requires m[addr..addr + width] == before + data + after
    ensures m == Overlaid(was, addr + |before|, data)
  {
    var o := Overlaid(was, addr + |before|, data);
    assert was[..addr + |before|] == was[..addr] + was[addr..addr + width][..|before|];
    assert was[addr + |before| + |data|..] == was[addr..addr + width][|before| + |data|..] + was[addr + width..];
    assert m == m[..addr] + m[addr..addr + width] + m[addr + width..];
  }

  class Flash {
    const mem: array<Byte>
    const width: int
    const regions: seq<Region>
    /** How many erases, programs and unlocks the device has failed. */
    ghost var faults: nat

    ghost predicate Valid() {
      && (width == 1 || width == 2 || width == 4)
      && Tiles(regions, mem.Length)
      && (forall i :: 0 <= i < |regions| ==> regions[i].blockSize % width == 0)
    }

    constructor (mem: array<Byte>, width: int, regions: seq<Region>)
      requires width in {1, 2, 4} && Tiles(regions, mem.Length)
      requires forall i :: 0 <= i < |regions| ==> regions[i].blockSize % width == 0
      ensures Valid() && this.mem == mem && this.width == width && this.regions == regions
    {
      this.mem, this.width, this.regions, faults := mem, width, regions, 0;
    }

    /** The device erases one block. A failed erase may leave anything in it. */
    method EraseBlock(start: nat, size: nat) returns (rc: int)
      requires start + size <= mem.Length
      modifies mem, `faults
      ensures old(faults) <= faults && (rc == 0 <==> faults == old(faults))
      ensures rc == 0 || rc == -EIO || rc == -ETIMEDOUT
      ensures mem[..start] == old(mem[..start]) && mem[start + size..] == old(mem[start + size..])
      ensures rc == 0 ==> mem[start..start + size] == Blank(size)
    {
      ghost var was := mem[..];
      var good: bool := *;
      var late: bool := *;
      rc := if good then 0 else if late then -ETIMEDOUT else -EIO;
      faults := if good then faults else faults + 1;
      var k := 0;
      while k < size
        invariant 0 <= k <= size && (rc == 0 <==> good) && faults == old(faults) + (if good then 0 else 1)
        invariant mem[..start] == was[..start] && mem[start + size..] == was[start + size..]
        invariant rc == 0 ==> forall j :: start <= j < start + k ==> mem[j] == ERASED
      {
        var b: Byte := *;
        mem[start + k] := if good then ERASED else b;
        k := k + 1;
      }
    }

    /** The device programs one aligned word. A failed program may leave anything in that word. */
    method ProgramWord(addr: int, word: seq<Byte>) returns (rc: int)
      requires Valid() && 0 <= addr && addr % width == 0 && addr + width <= mem.Length && |word| == width
      modifies mem, `faults
      ensures old(faults) <= faults && (rc == 0 <==> faults == old(faults))
      ensures rc == 0 || rc == -EIO || rc == -ETIMEDOUT
      ensures mem[..addr] == old(mem[..addr]) && mem[addr + width..] == old(mem[addr + width..])
      ensures rc == 0 ==> mem[addr..addr + width] == Anded(old(mem[addr..addr + width]), word)
    {
      hide Tiles, Anded;
      ghost var was := mem[..];
      var good: bool := *;
      var late: bool := *;
      rc := if good then 0 else if late then -ETIMEDOUT else -EIO;
      faults := if good then faults else faults + 1;
      var k := 0;
      while k < width
        invariant 0 <= k <= width && (rc == 0 <==> good) && faults == old(faults) + (if good then 0 else 1)
        invariant forall a :: 0 <= a < mem.Length && !(addr <= a < addr + k) ==> mem[a] == was[a]
        invariant rc == 0 ==> forall a :: addr <= a < addr + k ==> mem[a] == And(was[a], word[a - addr])
      {
        var b: Byte := *;
        mem[addr + k] := if good then And(mem[addr + k], word[k]) else b;
        k := k + 1;
      }
      OnlyBetween(was, mem[..], addr, addr + width);
      assert mem[..][..addr] == mem[..addr] && mem[..][addr + width..] == mem[addr + width..];
      if rc == 0 {
        AndedAt(was, mem[..], addr, word);
        assert mem[addr..addr + width] == mem[..][addr..addr + width];
      }
    }

    /** Program a word that keeps `before` and `after` and sets the erased bytes between them. */
    method ProgramPart(addr: int, ghost before: seq<Byte>, ghost data: seq<Byte>, ghost after: seq<Byte>, word: seq<Byte>)
      returns (rc: int)
      requires Valid() && 0 <= addr && addr % width == 0 && addr + width <= mem.Length
      requires word == before + data + after && |word| == width
      requires mem[addr..addr + width] == before + Blank(|data|) + after
      modifies mem, `faults
      ensures old(faults) <= faults && (rc == 0 <==> faults == old(faults))
      ensures Within(old(mem[..]), mem[..], addr, addr + width)
      ensures rc == 0 ==> mem[..] == Overlaid(old(mem[..]), addr + |before|, data)
    {
      AndedExact(before, data, after);
      rc := ProgramWord(addr, word);
      if rc == 0 {
        WordOverlaid(old(mem[..]), mem[..], addr, width, before, data, after);
      }
    }

    /** Fill the `unaligned` buffer byte by byte from two runs. */
    static method Gather(first: seq<Byte>, second: seq<Byte>) returns (word: seq<Byte>)
      requires |first| + |second| <= 4
      ensures word == first + second
    {
      var unaligned := new Byte[4];
      for k := 0 to |first|
        invariant unaligned[..k] == first[..k]
      {
        unaligned[k] := first[k];
      }
      for k := 0 to |second|
        invariant unaligned[..|first|] == first
        invariant unaligned[|first|..|first| + k] == second[..k]
      {
        unaligned[|first| + k] := second[k];
      }
      word := unaligned[..|first| + |second|];
      assert word == unaligned[..|first|] + unaligned[|first|..|first| + |second|];
      assert second[..|second|] == second;
    }

    /** The partial word in front of an unaligned range. */
    method ProgramHead(offset: nat, src: seq<Byte>, preserve: nat) returns (rc: int)
      requires Valid() && 0 < preserve < width && preserve <= offset && (offset - preserve) % width == 0
      requires |src| == width - preserve && offset + |src| <= mem.Length
      requires mem[offset..offset + |src|] == Blank(|src|)
      modifies mem, `faults
      ensures old(faults) <= faults && (rc == 0 <==> faults == old(faults))
      ensures Within(old(mem[..]), mem[..], offset - preserve, offset + |src|)
      ensures rc == 0 ==> mem[..] == Overlaid(old(mem[..]), offset, src)
    {
      ghost var before := mem[offset - preserve..offset];
      var word := Gather(mem[offset - preserve..offset], src);
      assert mem[offset - preserve..offset + |src|] == before + mem[offset..offset + |src|];
      rc := ProgramPart(offset - preserve, before, src, [], word);
    }

    /** The partial word at the end of a range. */
    method ProgramTail(at: nat, src: seq<Byte>) returns (rc: int)
      requires Valid() && 0 < |src| < width && at % width == 0 && at + width <= mem.Length
      requires mem[at..at + |src|] == Blank(|src|)
      modifies mem, `faults
      ensures old(faults) <= faults && (rc == 0 <==> faults == old(faults))
      ensures Within(old(mem[..]), mem[..], at, at + width)
      ensures rc == 0 ==> mem[..] == Overlaid(old(mem[..]), at, src)
    {
      ghost var after := mem[at + |src|..at + width];
      var word := Gather(src, mem[at + |src|..at + width]);
      assert mem[at..at + width] == mem[at..at + |src|] + after;
      rc := ProgramPart(at, [], src, after, word);
    }

    method ProgramWhole(addr: nat, word: seq<Byte>) returns (rc: int)
      requires Valid() && addr % width == 0 && |word| == width && addr + width <= mem.Length
      requires mem[addr..addr + width] == Blank(width)
      modifies mem, `faults
      ensures old(faults) <= faults && (rc == 0 <==> faults == old(faults))
      ensures Within(old(mem[..]), mem[..], addr, addr + width)
      ensures rc == 0 ==> mem[..] == Overlaid(old(mem[..]), addr, word)
    {
      hide Within, Overlaid, Blank;
      rc := ProgramPart(addr, [], word, [], word);
    }

    /** The whole words of a range. */
    method ProgramWords(at: nat, src: seq<Byte>) returns (rc: int)
      requires Valid() && at % width == 0 && |src| % width == 0 && at + |src| <= mem.Length
      requires mem[at..at + |src|] == Blank(|src|)
      modifies mem, `faults
      ensures old(faults) <= faults && (rc == 0 <==> faults == old(faults))
      ensures Within(old(mem[..]), mem[..], at, at + |src|)
      ensures rc == 0 ==> mem[..] == Overlaid(old(mem[..]), at, src)
    {
      hide Overlaid, Within, Blank, Tiles;
      ghost var was := mem[..];
      OverlaidNothing(was, at);
      WithinSelf(was, at, at + |src|);
      rc := 0;
      var i := 0;
      while rc == 0 && i < |src|
        invariant 0 <= i <= |src| && (at + i) % width == 0 && (|src| - i) % width == 0
        invariant Within(was, mem[..], at, at + |src|)
        invariant old(faults) <= faults && (rc == 0 <==> faults == old(faults))
        invariant rc == 0 ==> mem[..] == Overlaid(was, at, src[..i])
      {
        AlignedStep(at + i, width);
        AlignedRest(|src| - i, width);
        OverlaidStep(was, at, src, i, i + width);
        assert mem[at + i..at + i + width] == mem[..][at + i..at + i + width];
        ghost var m := mem[..];
        rc := ProgramWhole(at + i, src[i..i + width]);
        WithinChain(was, m, mem[..], at, at + |src|, at + i, at + i + width);
        i := i + width;
      }
      assert rc == 0 ==> src[..i] == src;
    }

    /** alt_flash_program_block: whole words, with the bytes around an unaligned range read back and
        programmed over themselves. */
    method ProgramBlock(ghost start: nat, ghost size: nat, offset: nat, src: seq<Byte>) returns (rc: int)
      requires Valid() && start % width == 0 && size % width == 0 && start + size <= mem.Length
      requires start <= offset && offset + |src| <= start + size
      requires offset % width == 0 || |src| >= width - offset % width
      requires mem[offset..offset + |src|] == Blank(|src|)
      modifies mem, `faults
      ensures old(faults) <= faults && (rc == 0 <==> faults == old(faults))
      ensures Within(old(mem[..]), mem[..], start, start + size)
      ensures rc == 0 ==> mem[..] == Overlaid(old(mem[..]), offset, src)
    {
      hide Overlaid, Within, Blank, Tiles;
      ghost var was := mem[..];
      WithinSelf(was, start, start + size);
      var preserve, tail := offset % width, (offset + |src|) % width;
      var head := if preserve != 0 then width - preserve else 0;
      Fits(start, size, offset, |src|, width);
      rc := 0;
      assert was[offset..offset + |src|] == mem[offset..offset + |src|];
      if preserve != 0 {
        rc := ProgramStart(start, size, offset, src, preserve, head);
      } else {
        OverlaidNothing(was, offset);
      }
      if rc == 0 {
        rc := ProgramRest(was, start, size, offset, src, head, |src| - tail);
      }
    }

    /** The first partial word of a range. */
    method ProgramStart(ghost start: nat, ghost size: nat, offset: nat, src: seq<Byte>, preserve: nat, head: nat)
      returns (rc: int)
      requires Valid() && start + size <= mem.Length && offset + |src| <= start + size
      requires 0 < preserve < width && head == width - preserve <= |src|
      requires start <= offset - preserve && (offset - preserve) % width == 0
      requires mem[offset..offset + |src|] == Blank(|src|)
      modifies mem, `faults
      ensures old(faults) <= faults && (rc == 0 <==> faults == old(faults))
      ensures Within(old(mem[..]), mem[..], start, start + size)
      ensures rc == 0 ==> mem[..] == Overlaid(old(mem[..]), offset, src[..head])
    {
      hide Overlaid, Within, Blank, Tiles;
      ghost var was := mem[..];
      WithinSelf(was, start, start + size);
      assert mem[..][offset..offset + |src|] == mem[offset..offset + |src|];
      BlankPart(was, offset, |src|, offset, head);
      assert mem[offset..offset + head] == was[offset..offset + head];
      rc := ProgramHead(offset, src[..head], preserve);
      WithinChain(was, was, mem[..], start, start + size, offset - preserve, offset + head);
    }

    /** Everything behind the first partial word. */
    method ProgramRest(ghost was: seq<Byte>, ghost start: nat, ghost size: nat, offset: nat, src: seq<Byte>, head: nat, body: nat)
      returns (rc: int)
      requires Valid() && start + size <= mem.Length == |was| && start <= offset && offset + |src| <= start + size
      requires head <= body <= |src| && |src| - body < width
      requires (offset + head) % width == 0 && (body - head) % width == 0 && (offset + body) % width == 0
      requires body < |src| ==> offset + body + width <= start + size
      requires was[offset..offset + |src|] == Blank(|src|)
      requires mem[..] == Overlaid(was, offset, src[..head]) && Within(was, mem[..], start, start + size)
      modifies mem, `faults
      ensures old(faults) <= faults && (rc == 0 <==> faults == old(faults))
      ensures Within(was, mem[..], start, start + size)
      ensures rc == 0 ==> mem[..] == Overlaid(was, offset, src)
    {
      hide Overlaid, Within, Blank;
      OverlaidStep(was, offset, src, head, body);
      ghost var m := mem[..];
      assert m[offset + head..offset + body] == mem[offset + head..offset + body];
      rc := ProgramWords(offset + head, src[head..body]);
      WithinChain(was, m, mem[..], start, start + size, offset + head, offset + body);
      if rc == 0 {
        if body < |src| {
          rc := ProgramEnd(was, start, size, offset, src, body);
        } else {
          assert src[..body] == src;
        }
      }
    }

    /** The last partial word of a range. */
    method ProgramEnd(ghost was: seq<Byte>, ghost start: nat, ghost size: nat, offset: nat, src: seq<Byte>, body: nat)
      returns (rc: int)
      requires Valid() && start + size <= mem.Length == |was| && start <= offset && offset + |src| <= start + size
      requires body < |src| && |src| - body < width
      requires (offset + body) % width == 0 && offset + body + width <= start + size
      requires was[offset..offset + |src|] == Blank(|src|)
      requires mem[..] == Overlaid(was, offset, src[..body]) && Within(was, mem[..], start, start + size)
      modifies mem, `faults
      ensures old(faults) <= faults && (rc == 0 <==> faults == old(faults))
      ensures Within(was, mem[..], start, start + size)
      ensures rc == 0 ==> mem[..] == Overlaid(was, offset, src)
    {
      hide Overlaid, Within, Blank;
      OverlaidStep(was, offset, src, body, |src|);
      assert src[..|src|] == src && src[body..|src|] == src[body..];
      ghost var m := mem[..];
      assert m[offset + body..offset + |src|] == mem[offset + body..offset + |src|];
      rc := ProgramTail(offset + body, src[body..]);
      WithinChain(was, m, mem[..], start, start + size, offset + body, offset + body + width);
    }

    /** alt_erase_block_intel: unlock the block, then erase it. */
    method EraseIntel(start: nat, size: nat) returns (rc: int)
      requires start + size <= mem.Length
      modifies mem, `faults
      ensures old(faults) <= faults && (rc == 0 <==> faults == old(faults))
      ensures Within(old(mem[..]), mem[..], start, start + size)
      ensures rc == 0 ==> mem[start..start + size] == Blank(size)
    {
      rc := UnlockBlock();
      if rc == 0 {
        rc := EraseBlock(start, size);
      }
    }

    /** alt_unlock_block_intel touches no data. */
    method UnlockBlock() returns (rc: int)
      modifies `faults
      ensures old(faults) <= faults && (rc == 0 <==> faults == old(faults))
      ensures rc == 0 || rc == -EIO || rc == -ETIMEDOUT
    {
      var good: bool := *;
      var late: bool := *;
      rc := if good then 0 else if late then -ETIMEDOUT else -EIO;
      faults := if good then faults else faults + 1;
    }

    /** alt_program_intel: unlock the block, then program the range. */
    method ProgramIntel(ghost start: nat, ghost size: nat, offset: nat, src: seq<Byte>) returns (rc: int)
      requires Valid() && start % width == 0 && size % width == 0 && start + size <= mem.Length
      requires start <= offset && offset + |src| <= start + size
      requires offset % width == 0 || |src| >= width - offset % width
      requires mem[offset..offset + |src|] == Blank(|src|)
      modifies mem, `faults
      ensures old(faults) <= faults && (rc == 0 <==> faults == old(faults))
      ensures Within(old(mem[..]), mem[..], start, start + size)
      ensures rc == 0 ==> mem[..] == Overlaid(old(mem[..]), offset, src)
    {
      rc := UnlockBlock();
      if rc == 0 {
        rc := ProgramBlock(start, size, offset, src);
      }
    }

    /** One block of the walk: compare, and only if different erase and program. */
    method WriteOneBlock(start: nat, size: nat, offset: nat, src: seq<Byte>) returns (rc: int)
      requires Valid() && start % width == 0 && size % width == 0 && start + size <= mem.Length
      requires start <= offset && offset + |src| <= start + size
      requires src != [] && offset % width != 0 ==> |src| >= width - offset % width
      modifies mem, `faults
      ensures old(faults) <= faults && (rc == 0 <==> faults == old(faults))
      ensures Within(old(mem[..]), mem[..], start, start + size)
      ensures rc == 0 ==> Visited(old(mem[..]), mem[..], start, size, offset, src)
    {
      hide Overlaid, Within;
      ghost var was := mem[..];
      rc := 0;
      WithinSelf(was, start, start + size);
      if mem[offset..offset + |src|] != src {
        rc := EraseIntel(start, size);
        if rc == 0 {
          ghost var m := mem[..];
          BlankPart(m, start, size, offset, |src|);
          assert m[offset..offset + |src|] == mem[offset..offset + |src|];
          rc := ProgramIntel(start, size, offset, src);
          WithinChain(was, m, mem[..], start, start + size, start, start + size);
          if rc == 0 {
            OverlaidBlank(m, start, size, offset, src);
            assert mem[start..start + size] == mem[..][start..start + size];
          }
        }
      }
    }

    lemma {:induction false} AtAligned(i: nat, j: nat)
      requires Valid() && i <= |regions| && (j == 0 || i < |regions|)
      ensures At(regions, i, j) % width == 0
      decreases i, j
    {
      if j > 0 {
        AtAligned(i, j - 1);
        SumAligned(At(regions, i, j - 1), regions[i].blockSize, width);
      } else if i > 0 {
        AtAligned(i - 1, regions[i - 1].blocks);
      }
    }

    /** Block j of region i, as the walk treats it. */
    method Block(ghost was: seq<Byte>, ghost i: nat, ghost j: nat, ghost off: nat, src: seq<Byte>, offset: nat, done: nat,
                 current: nat, size: nat)
      returns (rc: int, offset': nat, done': nat, stop: bool)
      requires Valid() && i < |regions| && j < regions[i].blocks
      requires size == regions[i].blockSize && current == At(regions, i, j)
      requires Progress(was, mem[..], regions, i, j, off, src, offset, done)
      requires src == [] || off % width == 0 || |src| >= width - off % width
      modifies mem, `faults
      ensures old(faults) <= faults && (rc == 0 <==> faults == old(faults))
      ensures !stop ==> rc == 0 && Progress(was, mem[..], regions, i, j + 1, off, src, offset', done')
      ensures stop && rc == 0 ==> Finished(was, mem[..], regions, off, src)
      ensures rc != 0 ==> stop && Stopped(was, mem[..], regions, i, j, off, src)
    {
      hide Tiles, At, Through, Finished, Stopped, Visited, Within;
      rc, offset', done', stop := 0, offset, done, false;
      ghost var m := mem[..];
      BlockInside(regions, mem.Length, i, j);
      if current <= offset < current + size {
        var n := current + size - offset;
        if n > |src| - done {
          n := |src| - done;
        }
        AtAligned(i, j);
        AtAligned(i, j + 1);
        ChunkAligned(offset, current + size, width);
        rc := WriteOneBlock(current, size, offset, src[done..done + n]);
        if rc != 0 {
          BlockFailed(was, m, mem[..], regions, i, j, off, src);
          stop := true;
          return;
        }
        BlockWritten(was, m, mem[..], regions, i, j, off, src, offset, done, n);
        if |src| - done == n {
          WriteEnds(was, mem[..], regions, i, j, off, src);
          stop := true;
          return;
        }
        VisitedOn(was, m, mem[..], regions, i, j, off, src, offset, done, n);
        offset', done' := current + size, done + n;
      } else {
        SkipBlock(was, m, regions, i, j, off, src, offset, done);
      }
    }

    /** alt_flash_cfi_read: the copy into the caller's buffer. */
    method Read(dest: array<Byte>, offset: nat, length: nat) returns (rc: int)
      requires offset + length <= mem.Length && length <= dest.Length && dest != mem
      modifies dest
      ensures rc == 0 && dest[..length] == mem[offset..offset + length] && dest[length..] == old(dest[length..])
    {
      for k := 0 to length
        invariant dest[..k] == mem[offset..offset + k] && dest[length..] == old(dest[length..])
      {
        dest[k] := mem[offset + k];
      }
      rc := 0;
    }

    /** alt_flash_cfi_write. `failed` names the block a failed write stopped at. */
    method Write(start: int, src: seq<Byte>) returns (rc: int, ghost failed: (nat, nat))
      requires Valid()
      requires src == [] || start < 0 || start % width == 0 || |src| >= width - start % width
      modifies mem, `faults
      ensures old(faults) <= faults && (rc == 0 <==> faults == old(faults))
      ensures start < 0 ==> rc == 0 && mem[..] == old(mem[..])
      ensures start >= 0 && rc == 0 ==> Finished(old(mem[..]), mem[..], regions, start, src)
      ensures rc != 0 ==> start >= 0 && Stopped(old(mem[..]), mem[..], regions, failed.0, failed.1, start, src)
    {
      hide Tiles, Progress, At, Stopped, Finished;
      ghost var was := mem[..];
      rc, failed := 0, (0, 0);
      var offset, done := start, 0;
      var i := 0;
      if start >= 0 {
        ProgressStart(was, regions, start, src);
      }
      while i < |regions|
        invariant 0 <= i <= |regions| && rc == 0 && faults == old(faults)
        invariant start < 0 ==> offset == start && mem[..] == was
        invariant start >= 0 ==> offset >= 0 && Progress(was, mem[..], regions, i, 0, start, src, offset, done)
      {
        var r := regions[i];
        RegionBounds(regions, mem.Length, i);
        if r.offset <= offset < r.offset + r.size {
          var current := r.offset;
          var j := 0;
          while j < r.blocks
            invariant 0 <= j <= r.blocks && rc == 0 && faults == old(faults) && current == At(regions, i, j) && start >= 0 && offset >= 0
            invariant Progress(was, mem[..], regions, i, j, start, src, offset, done)
          {
            var stop;
            rc, offset, done, stop := Block(was, i, j, start, src, offset, done, current, r.blockSize);
            if stop {
              failed := (i, j);
              return;
            }
            AtStep(regions, i, j);
            current := current + r.blockSize;
            j := j + 1;
          }
          NextRegion(was, mem[..], regions, i, start, src, offset, done);
        } else if start >= 0 {
          SkipRegion(was, mem[..], regions, i, start, src, offset, done);
        }
        i := i + 1;
      }
      if start >= 0 {
        ProgressEnd(was, mem[..], regions, start, src, offset, done);
      }
    }

    /** What a successful write left in the device is what a read returns: the source, with nothing else in the buffer
        touched; bytes outside the range keep their value or are blank. */
    method WriteThenRead(start: nat, src: seq<Byte>, dest: array<Byte>) returns (rc: int)
      requires Valid() && dest != mem && start + |src| <= mem.Length && |src| <= dest.Length
      requires src == [] || start % width == 0 || |src| >= width - start % width
      modifies mem, `faults, dest
      ensures old(faults) <= faults && (rc == 0 <==> faults == old(faults))
      ensures rc == 0 ==> dest[..] == src + old(dest[|src|..])
      ensures rc == 0 ==> forall a :: 0 <= a < mem.Length && !(start <= a < start + |src|) ==>
                            mem[a] == old(mem[a]) || mem[a] == ERASED
      ensures rc != 0 ==> dest[..] == old(dest[..])
    {
      hide Tiles, Finished, Stopped;
      ghost var was, failed := mem[..], (0, 0);
      rc, failed := Write(start, src);
      if rc == 0 {
        ReadsBack(was, mem[..], regions, start, src);
        rc := Read(dest, start, |src|);
        assert dest[..] == dest[..|src|] + dest[|src|..];
      }
    }
  }

  lemma ChunkAligned(offset: nat, end: nat, w: int)
    requires (w == 1 || w == 2 || w == 4) && end % w == 0 && offset < end
    ensures offset % w != 0 ==> end - offset >= w - offset % w
  {
  }

  lemma SumAligned(x: nat, y: nat, w: int)
    requires (w == 1 || w == 2 || w == 4) && x % w == 0 && y % w == 0
    ensures (x + y) % w == 0
  {
  }

  lemma AlignedRest(x: nat, w: int)
    requires (w == 1 || w == 2 || w == 4) && 0 < x && x % w == 0
    ensures w <= x && (x - w) % w == 0
  {
  }

  /** How a range in an aligned block splits into a partial word, whole words and a partial word. */
  ghost predicate Splits(start: nat, size: nat, offset: nat, length: nat, w: int)
    requires 0 < w
  {
    var preserve, tail := offset % w, (offset + length) % w;
    var head := if preserve != 0 then w - preserve else 0;
    && start <= offset - preserve && (offset - preserve) % w == 0
    && head <= length - tail
    && (offset + head) % w == 0 && (length - tail - head) % w == 0 && (offset + length - tail) % w == 0
    && (tail != 0 ==> offset + length - tail + w <= start + size)
  }

  lemma Splits2(start: nat, size: nat, offset: nat, length: nat)
    requires start % 2 == 0 && size % 2 == 0 && start <= offset && offset + length <= start + size
    requires offset % 2 == 0 || length >= 2 - offset % 2
    ensures Splits(start, size, offset, length, 2)
  {
    hide Splits;
    Halves(offset);
    Halves(offset + length);
    var a, b := offset / 2, (offset + length) / 2;
    TwoTimes(a);
    TwoTimes(a + 1);
    TwoTimes(b);
    TwoTimes(b - a);
    TwoTimes(b - a - 1);
    SplitsAt2(start, size, offset, length, a, b);
  }

  lemma SplitsAt2(start: nat, size: nat, offset: nat, length: nat, a: nat, b: nat)
    requires start % 2 == 0 && size % 2 == 0 && start <= offset && offset + length <= start + size
    requires offset % 2 == 0 || length >= 2 - offset % 2
    requires offset == 2 * a + offset % 2 && offset + length == 2 * b + (offset + length) % 2
    requires (2 * a) % 2 == 0 && (2 * (a + 1)) % 2 == 0 && (2 * b) % 2 == 0
    requires (2 * (b - a)) % 2 == 0 && (2 * (b - a - 1)) % 2 == 0
    ensures Splits(start, size, offset, length, 2)
  {
    Halves(start);
    Halves(start + size);
    SumAligned(start, size, 2);
    Linear2(start / 2, (start + size) / 2, a, b, offset % 2, (offset + length) % 2, length);
  }

  lemma Linear2(s: nat, e: nat, a: nat, b: nat, p: nat, t: nat, length: nat)
    requires 2 * s <= 2 * a + p && 2 * b + t <= 2 * e && 2 * a + p + length == 2 * b + t && p < 2 && t < 2
    requires p == 0 || length >= 2 - p
    ensures 2 * s <= 2 * a && (t != 0 ==> 2 * b + 2 <= 2 * e)
    ensures p != 0 ==> 2 - p <= length - t && length - t - (2 - p) == 2 * (b - a - 1)
    ensures p == 0 ==> t <= length && length - t == 2 * (b - a)
  {
  }

  lemma Halves(x: int)
    ensures x == 2 * (x / 2) + x % 2 && 0 <= x % 2 < 2
  {
  }

  lemma TwoTimes(x: int)
    ensures (2 * x) % 2 == 0
  {
  }

  lemma Splits4(start: nat, size: nat, offset: nat, length: nat)
    requires start % 4 == 0 && size % 4 == 0 && start <= offset && offset + length <= start + size
    requires offset % 4 == 0 || length >= 4 - offset % 4
    ensures Splits(start, size, offset, length, 4)
  {
    hide Splits;
    Quarters(offset);
    Quarters(offset + length);
    var a, b := offset / 4, (offset + length) / 4;
    FourTimes(a);
    FourTimes(a + 1);
    FourTimes(b);
    FourTimes(b - a);
    FourTimes(b - a - 1);
    SplitsAt4(start, size, offset, length, a, b);
  }

  lemma SplitsAt4(start: nat, size: nat, offset: nat, length: nat, a: nat, b: nat)
    requires start % 4 == 0 && size % 4 == 0 && start <= offset && offset + length <= start + size
    requires offset % 4 == 0 || length >= 4 - offset % 4
    requires offset == 4 * a + offset % 4 && offset + length == 4 * b + (offset + length) % 4
    requires (4 * a) % 4 == 0 && (4 * (a + 1)) % 4 == 0 && (4 * b) % 4 == 0
    requires (4 * (b - a)) % 4 == 0 && (4 * (b - a - 1)) % 4 == 0
    ensures Splits(start, size, offset, length, 4)
  {
    Quarters(start);
    Quarters(start + size);
    SumAligned(start, size, 4);
    Linear4(start / 4, (start + size) / 4, a, b, offset % 4, (offset + length) % 4, length);
  }

  lemma Linear4(s: nat, e: nat, a: nat, b: nat, p: nat, t: nat, length: nat)
    requires 4 * s <= 4 * a + p && 4 * b + t <= 4 * e && 4 * a + p + length == 4 * b + t && p < 4 && t < 4
    requires p == 0 || length >= 4 - p
    ensures 4 * s <= 4 * a && (t != 0 ==> 4 * b + 4 <= 4 * e)
    ensures p != 0 ==> 4 - p <= length - t && length - t - (4 - p) == 4 * (b - a - 1)
    ensures p == 0 ==> t <= length && length - t == 4 * (b - a)
  {
  }

  lemma Quarters(x: int)
    ensures x == 4 * (x / 4) + x % 4 && 0 <= x % 4 < 4
  {
  }

  lemma FourTimes(x: int)
    ensures (4 * x) % 4 == 0
  {
  }

  lemma Fits(start: nat, size: nat, offset: nat, length: nat, w: int)
    requires w == 1 || w == 2 || w == 4
    requires start % w == 0 && size % w == 0 && start <= offset && offset + length <= start + size
    requires offset % w == 0 || length >= w - offset % w
    ensures Splits(start, size, offset, length, w)
  {
    hide Splits;
    if w == 1 {
      Splits1(start, size, offset, length);
    } else if w == 2 {
      Splits2(start, size, offset, length);
    } else {
      Splits4(start, size, offset, length);
    }
  }

  lemma Splits1(start: nat, size: nat, offset: nat, length: nat)
    requires start <= offset && offset + length <= start + size
    ensures Splits(start, size, offset, length, 1)
  {
  }
}
