/** Serial configuration flash: the command set, the page splitter, the chunked compare and the block walk. */
module Epcs {
  import opened Base
  import opened Sectors
  import opened SectorWalk
  import opened SerialFlash
  import opened Spi

  const EIO := 5
  const ENODEV := 19
  const U31: int := 0x8000_0000
  const U24: nat := 0x100_0000

  function AddressBytes(offset: nat, four: bool): (s: seq<Byte>)
    ensures |s| == AddressLength(four)
  {
    var low := [ByteOf(offset / 0x1_0000), ByteOf(offset / 0x100), ByteOf(offset)];
    if four then [ByteOf(offset / 0x100_0000)] + low else low
  }

  /** The chip decodes the address that was sent, and it is sent with its highest byte first. */
  lemma AddressSent(offset: nat, four: bool)
    requires offset < if four then 0x1_0000_0000 else U24
    ensures Address(AddressBytes(offset, four)) == offset
    ensures var s := AddressBytes(offset, four);
            && |s| == (if four then 4 else 3) && s[|s| - 1] as int == offset % 0x100
            && s[|s| - 2] as int == offset / 0x100 % 0x100 && s[|s| - 3] as int == offset / 0x1_0000 % 0x100
            && (four ==> s[0] as int == offset / 0x100_0000)
  {
    var s := AddressBytes(offset, four);
    Digits(offset);
    if four {
      FourDigits(s);
    } else {
      ThreeDigits(s);
    }
  }

  lemma ThreeDigits(s: seq<Byte>)
    requires |s| == 3
    ensures Address(s) == 256 * (256 * s[0] as int + s[1] as int) + s[2] as int
  {
    assert s[..2][..1] == [s[0]] && s[..2][1] == s[1] && [s[0]][..0] == [];
    assert Address([s[0]]) == s[0] as int;
    assert Address(s[..2]) == 256 * Address(s[..2][..1]) + s[1] as int;
  }

  lemma FourDigits(s: seq<Byte>)
    requires |s| == 4
    ensures Address(s) == 256 * (256 * (256 * s[0] as int + s[1] as int) + s[2] as int) + s[3] as int
  {
    ThreeDigits(s[..3]);
  }

  lemma Digits(x: nat)
    requires x < 0x1_0000_0000
    ensures 256 * (256 * (256 * (x / 0x100_0000 % 256) + x / 0x1_0000 % 256) + x / 0x100 % 256) + x % 256 == x
    ensures x < U24 ==> x / 0x100_0000 == 0
  {
    assert x / 0x100 / 0x100 == x / 0x1_0000 && x / 0x1_0000 / 0x100 == x / 0x100_0000;
  }

  /** Between commands the chip is ready and takes addresses of three bytes. */
  ghost predicate Ready(c: Chip)
  {
    c.WellFormed() && c.busy == 0 && !c.four
  }

  /** Same chip; only its memory and its write enable latch may differ. */
  ghost predicate SameChip(c: Chip, d: Chip)
  {
    d == c.(mem := d.mem, enabled := d.enabled) && |d.mem| == |c.mem|
  }

  /** The first difference decides, as in memcmp. */
  function Compare(a: seq<Byte>, b: seq<Byte>): (r: int)
    requires |a| == |b|
    ensures r == 0 <==> a == b
  {
    if a == [] then 0
    else if a[0] != b[0] then (if a[0] < b[0] then -1 else 1)
    else
      assert a == [a[0]] + a[1..] && b == [b[0]] + b[1..];
      Compare(a[1..], b[1..])
  }

  /** Which one is less is decided by the first difference. */
  lemma {:induction false} CompareDecides(a: seq<Byte>, b: seq<Byte>, k: nat)
    requires |a| == |b| && k < |a| && a[..k] == b[..k] && a[k] != b[k]
    ensures Compare(a, b) == if a[k] < b[k] then -1 else 1
  {
    if k > 0 {
      assert a[0] == a[..k][0] == b[..k][0] == b[0];
      assert a[1..][..k - 1] == a[..k][1..] && b[1..][..k - 1] == b[..k][1..];
      CompareDecides(a[1..], b[1..], k - 1);
    }
  }

  /** A signed 32-bit number compared as unsigned. */
  function Unsigned(x: int): (u: int)
    requires -U31 <= x < U31
    ensures x >= 0 ==> u == x
    ensures x < 0 ==> u >= U31
  {
    if x < 0 then x + 2 * U31 else x
  }

  function NextPage(offset: nat): (p: nat)
    ensures p % PAGE == 0 && offset < p <= offset + PAGE
    ensures offset % PAGE + (p - offset) == PAGE
  {
    offset + PAGE - (offset + PAGE) % PAGE
  }

  /** What the parts the driver knows look like. */
  datatype Part = Unknown | Part(size: nat, blocks: nat, blockSize: nat, four: bool)

  function Known(signature: Byte, id: seq<Byte>): (p: Part)
    requires |id| == 3
    ensures p.Part? ==> p.size == p.blocks * p.blockSize && 0 < p.size < U31 && p.blockSize > 0 && p.blockSize % PAGE == 0
    ensures p.Part? ==> (p.four <==> p.size > U24)
  {
    if signature == 0x16 then Part(64 * 1024 * 1024 / 8, 128, 65536, false)
    else if signature == 0x14 then Part(16 * 1024 * 1024 / 8, 32, 65536, false)
    else if signature == 0x13 then Part(8 * 1024 * 1024 / 8, 16, 65536, false)
    else if signature == 0x12 then Part(4 * 1024 * 1024 / 8, 8, 65536, false)
    else if signature == 0x10 then Part(1 * 1024 * 1024 / 8, 4, 32768, false)
    else if id == [0x20, 0xBA, 0x18] then Part(128 * 1024 * 1024 / 8, 256, 65536, false)
    else if id[2] == 0x18 then Part(128 * 1024 * 1024 / 8, 64, 262144, false)
    else if id[2] == 0x19 then Part(256 * 1024 * 1024 / 8, 512, 65536, true)
    else Unknown
  }

  class Driver {
    const bus: Bus
    var regions: seq<Region>
    var fourBytes: bool

    /** Nothing under way on the bus. */
    ghost predicate AtRest()
      reads this, bus
    {
      Ready(bus.chip) && !bus.selected && bus.shifted == []
    }

    /** The region table describes the chip. */
    ghost predicate Valid()
      reads this, bus
    {
      && AtRest() && Tiles(regions, |bus.chip.mem|) && |regions| == 1
      && (forall i :: 0 <= i < |regions| ==> regions[i].blockSize == bus.chip.sector)
      && |bus.chip.mem| < U31 && (fourBytes || |bus.chip.mem| <= U24)
    }

    constructor (bus: Bus)
      ensures this.bus == bus
    {
      this.bus, regions, fourBytes := bus, [], false;
    }

    method WriteEnable()
      requires bus.chip.WellFormed() && bus.chip.busy == 0 && !bus.selected && bus.shifted == []
      modifies bus
      ensures !bus.selected && bus.shifted == [] && bus.chip == old(bus.chip).(enabled := true)
    {
      var none := bus.Command([WREN], 0, false);
      assert [] + Clocked([WREN], 0) == [WREN];
    }

    method EnterFourBytes()
      requires bus.chip.WellFormed() && bus.chip.busy == 0 && !bus.selected && bus.shifted == []
      modifies bus
      ensures !bus.selected && bus.shifted == [] && bus.chip == old(bus.chip).(four := true, enabled := false)
    {
      WriteEnable();
      var none := bus.Command([EN4B], 0, false);
      assert [] + Clocked([EN4B], 0) == [EN4B];
    }

    method ExitFourBytes()
      requires bus.chip.WellFormed() && bus.chip.busy == 0 && !bus.selected && bus.shifted == []
      modifies bus
      ensures !bus.selected && bus.shifted == [] && bus.chip == old(bus.chip).(four := false, enabled := false)
    {
      WriteEnable();
      var none := bus.Command([DIS4B], 0, false);
      assert [] + Clocked([DIS4B], 0) == [DIS4B];
    }

    method ReadStatus() returns (status: Byte)
      requires bus.chip.WellFormed() && !bus.selected && bus.shifted == []
      modifies bus
      ensures !bus.selected && bus.shifted == [] && status == Status(old(bus.chip))
      ensures bus.chip == old(bus.chip).(busy := if old(bus.chip.busy) > 0 then old(bus.chip.busy) - 1 else 0)
    {
      var data := bus.Command([RDSR], 1, false);
      var sent := [] + Clocked([RDSR], 1);
      assert sent == [RDSR, 0] && sent[..1] == [RDSR];
      status := data[0];
    }

    /** Poll until the write-in-progress bit is clear. */
    method AwaitReady()
      requires bus.chip.WellFormed() && !bus.selected && bus.shifted == []
      modifies bus
      ensures !bus.selected && bus.shifted == [] && bus.chip == old(bus.chip).(busy := 0)
    {
      var status := ReadStatus();
      while status % 2 != 0
        invariant bus.chip.WellFormed() && !bus.selected && bus.shifted == []
        invariant bus.chip == old(bus.chip).(busy := bus.chip.busy)
        invariant status % 2 == 0 ==> bus.chip.busy == 0
        decreases bus.chip.busy, status % 2
      {
        status := ReadStatus();
      }
    }

    /** epcs_sector_erase. */
    method SectorErase(offset: nat)
      requires Valid() && offset < |bus.chip.mem|
      modifies bus
      ensures Valid() && SameChip(old(bus.chip), bus.chip)
      ensures bus.chip.mem == SectorErased(old(bus.chip.mem), bus.chip.sector, offset)
    {
      if fourBytes {
        EnterFourBytes();
      }
      ghost var four := bus.chip.four;
      var se := [SE] + AddressBytes(offset, fourBytes);
      WriteEnable();
      ghost var c := bus.chip;
      var none := bus.Command(se, 0, false);
      assert [] + Clocked(se, 0) == se;
      AddressSent(offset, fourBytes);
      Erases(c, se, offset);
      AwaitReady();
      if fourBytes {
        ExitFourBytes();
      }
    }

    /** epcs_write_buffer: two merged commands make one page program transaction. */
    method WriteBuffer(offset: nat, src: seq<Byte>)
      requires Valid() && offset < |bus.chip.mem| && src != []
      modifies bus
      ensures Valid() && SameChip(old(bus.chip), bus.chip)
      ensures bus.chip.mem == Programmed(old(bus.chip.mem), offset, src)
    {
      if fourBytes {
        EnterFourBytes();
      }
      var pp := [PP] + AddressBytes(offset, fourBytes);
      WriteEnable();
      ghost var c := bus.chip;
      var none := bus.Command(pp, 0, true);
      none := bus.Command(src, 0, false);
      assert [] + Clocked(pp, 0) == pp && pp + Clocked(src, 0) == pp + src;
      AddressSent(offset, fourBytes);
      Programs(c, pp, offset, src);
      AwaitReady();
      if fourBytes {
        ExitFourBytes();
      }
    }

    /** epcs_read_buffer: a read that runs over the end of the chip wraps to its start. */
    method ReadBuffer(offset: nat, length: nat) returns (data: seq<Byte>)
      requires Valid() && offset < |bus.chip.mem|
      modifies bus
      ensures Valid() && SameChip(old(bus.chip), bus.chip) && bus.chip.mem == old(bus.chip.mem)
      ensures |data| == length
      ensures forall k :: 0 <= k < length ==> data[k] == bus.chip.mem[(offset + k) % |bus.chip.mem|]
    {
      if fourBytes {
        EnterFourBytes();
      }
      var command := [READ] + AddressBytes(offset, fourBytes);
      AwaitReady();
      ghost var c := bus.chip;
      data := bus.Command(command, length, false);
      AddressSent(offset, fourBytes);
      Reads(c, command, offset, length);
      if fourBytes {
        ExitFourBytes();
      }
    }

    /** alt_epcs_test_address: also catches negative offsets, which compare as large ones. */
    method TestAddress(offset: int) returns (rc: int)
      requires Valid() && -U31 <= offset < U31
      ensures rc == if 0 <= offset < |bus.chip.mem| then 0 else -EIO
    {
      RegionsEnd(regions, |bus.chip.mem|);
      var last := regions[|regions| - 1].offset + regions[|regions| - 1].size - 1;
      rc := if Unsigned(offset) > last then -EIO else 0;
    }

    method EraseBlock(offset: int) returns (rc: int)
      requires Valid() && -U31 <= offset < U31
      modifies bus
      ensures Valid() && SameChip(old(bus.chip), bus.chip)
      ensures rc == if 0 <= offset < |bus.chip.mem| then 0 else -EIO
      ensures bus.chip.mem == if rc == 0 then SectorErased(old(bus.chip.mem), bus.chip.sector, offset) else old(bus.chip.mem)
    {
      rc := TestAddress(offset);
      if rc >= 0 {
        SectorErase(offset);
      }
    }

    /** alt_epcs_flash_write_block: page by page, none of them crossed. */
    method WriteBlock(offset: int, data: seq<Byte>) returns (rc: int)
      requires Valid() && -U31 <= offset < U31
      requires 0 <= offset < |bus.chip.mem| ==>
                 offset + |data| <= |bus.chip.mem| && bus.chip.mem[offset..offset + |data|] == Blank(|data|)
      modifies bus
      ensures Valid() && SameChip(old(bus.chip), bus.chip)
      ensures rc == if 0 <= offset < |bus.chip.mem| then 0 else -EIO
      ensures bus.chip.mem == if rc == 0 then Overlaid(old(bus.chip.mem), offset, data) else old(bus.chip.mem)
    {
      hide Overlaid, Blank, Tiles;
      rc := TestAddress(offset);
      if rc >= 0 {
        ghost var was := bus.chip.mem;
        OverlaidNothing(was, offset);
        var length, at, dataOffset := |data|, 0, offset;
        while length != 0
          invariant Valid() && SameChip(old(bus.chip), bus.chip)
          invariant 0 <= at && 0 <= length && at + length == |data| && 0 <= dataOffset && (length > 0 ==> dataOffset == offset + at)
          invariant bus.chip.mem == Overlaid(was, offset, data[..at])
          decreases length
        {
          var nextPage := NextPage(dataOffset);
          var now := Min(length, nextPage - dataOffset);
          WritePage(was, offset, data, at, now);
          length := length - now;
          at := at + now;
          dataOffset := nextPage;
        }
        assert data[..at] == data;
      }
    }

    /** The next piece of a block write. */
    method WritePage(ghost was: seq<Byte>, offset: nat, data: seq<Byte>, at: nat, now: nat)
      requires Valid() && |was| == |bus.chip.mem| && offset + |data| <= |was| && was[offset..offset + |data|] == Blank(|data|)
      requires 0 < now && at + now <= |data| && (offset + at) % PAGE + now <= PAGE
      requires bus.chip.mem == Overlaid(was, offset, data[..at])
      modifies bus
      ensures Valid() && SameChip(old(bus.chip), bus.chip)
      ensures bus.chip.mem == Overlaid(was, offset, data[..at + now])
    {
      hide Overlaid, Blank, Programmed;
      OverlaidStep(was, offset, data, at, at + now);
      ghost var m := bus.chip.mem;
      ProgrammedFits(m, offset + at, data[at..at + now]);
      WriteBuffer(offset + at, data[at..at + now]);
    }

    /** alt_epcs_flash_read. */
    method Read(offset: int, length: nat) returns (rc: int, data: seq<Byte>)
      requires Valid() && -U31 <= offset < U31
      modifies bus
      ensures Valid() && SameChip(old(bus.chip), bus.chip) && bus.chip.mem == old(bus.chip.mem)
      ensures rc == if 0 <= offset < |bus.chip.mem| then 0 else -EIO
      ensures rc == 0 ==> |data| == length && forall k :: 0 <= k < length ==> data[k] == bus.chip.mem[(offset + k) % |bus.chip.mem|]
      ensures rc == 0 && offset + length <= |bus.chip.mem| ==> data == bus.chip.mem[offset..offset + length]
    {
      data := [];
      rc := TestAddress(offset);
      if rc >= 0 {
        data := ReadBuffer(offset, length);
        rc := |data|;
        if rc == length {
          rc := 0;
        }
        if offset + length <= |bus.chip.mem| {
          Unwrapped(bus.chip.mem, offset, data);
        }
      }
    }

    /** alt_epcs_flash_memcmp, 32 bytes at a time. */
    method MemCompare(src: seq<Byte>, offset: int) returns (cmp: int)
      requires Valid() && -U31 <= offset && offset + |src| < U31
      modifies bus
      ensures Valid() && SameChip(old(bus.chip), bus.chip) && bus.chip.mem == old(bus.chip.mem)
      ensures 0 <= offset && offset + |src| <= |bus.chip.mem| ==>
                (cmp == 0 <==> bus.chip.mem[offset..offset + |src|] == src)
      ensures src != [] && !(0 <= offset < |bus.chip.mem|) ==> cmp == -1
    {
      hide Tiles, Compare;
      ghost var m := bus.chip.mem;
      var n, current := |src|, 0;
      while n > 0
        invariant 0 <= current && 0 <= n && current + n == |src|
        invariant Valid() && SameChip(old(bus.chip), bus.chip) && bus.chip.mem == m
        invariant 0 <= offset && offset + |src| <= |m| ==> m[offset..offset + current] == src[..current]
        invariant !(0 <= offset < |m|) ==> current == 0
      {
        var chunk := if n > 32 then 32 else n;
        var rc, buffer := Read(offset + current, chunk);
        if rc < 0 {
          return -1;
        }
        cmp := Compare(src[current..current + chunk], buffer);
        if 0 <= offset && offset + |src| <= |m| {
          ChunkDecides(m, src, offset, current, chunk);
        }
        if cmp != 0 {
          return;
        }
        n := n - chunk;
        current := current + chunk;
      }
      assert src[..current] == src;
      return 0;
    }

    /** One block of the walk: compare, and only if different erase and program. */
    method WriteOneBlock(start: nat, size: nat, offset: nat, src: seq<Byte>) returns (rc: int)
      requires Valid() && size == bus.chip.sector && start % size == 0 && start + size <= |bus.chip.mem|
      requires start <= offset < start + size && offset + |src| <= start + size
      modifies bus
      ensures Valid() && SameChip(old(bus.chip), bus.chip) && rc == 0
      ensures Visited(old(bus.chip.mem), bus.chip.mem, start, size, offset, src)
    {
      hide Tiles, Overlaid, Blank, SectorErased, Within;
      ghost var was := bus.chip.mem;
      rc := 0;
      WithinSelf(was, start, start + size);
      var cmp := MemCompare(src, offset);
      if cmp != 0 {
        rc := EraseBlock(start);
        if rc == 0 {
          SectorAt(was, size, start);
          rc := FillErased(was, start, size, offset, src);
        }
      }
    }

    /** Write into a block just erased. */
    method FillErased(ghost was: seq<Byte>, start: nat, size: nat, offset: nat, src: seq<Byte>) returns (rc: int)
      requires Valid() && Within(was, bus.chip.mem, start, start + size) && start + size <= |bus.chip.mem|
      requires bus.chip.mem[start..start + size] == Blank(size)
      requires start <= offset < start + size && offset + |src| <= start + size
      modifies bus
      ensures Valid() && SameChip(old(bus.chip), bus.chip) && rc == 0
      ensures Within(was, bus.chip.mem, start, start + size)
      ensures bus.chip.mem[start..start + size] == Blank(offset - start) + src + Blank(start + size - offset - |src|)
    {
      hide Tiles, Overlaid, Blank, Within;
      ghost var m := bus.chip.mem;
      BlankPart(m, start, size, offset, |src|);
      rc := WriteBlock(offset, src);
      OverlaidBlank(m, start, size, offset, src);
      OverlaidWithin(m, start, size, offset, src);
      WithinChain(was, m, bus.chip.mem, start, start + size, start, start + size);
    }

    /** Block j of region i, as the walk treats it. */
    method Block(ghost was: seq<Byte>, ghost i: nat, ghost j: nat, ghost off: nat, src: seq<Byte>, offset: nat, done: nat,
                 current: nat, size: nat)
      returns (rc: int, offset': nat, done': nat, stop: bool)
      requires Valid() && i < |regions| && j < regions[i].blocks
      requires size == regions[i].blockSize && current == At(regions, i, j)
      requires Progress(was, bus.chip.mem, regions, i, j, off, src, offset, done)
      modifies bus
      ensures Valid() && SameChip(old(bus.chip), bus.chip) && rc == 0
      ensures !stop ==> Progress(was, bus.chip.mem, regions, i, j + 1, off, src, offset', done')
      ensures stop ==> Finished(was, bus.chip.mem, regions, off, src)
    {
      hide Tiles, At, Through, Finished, Visited, Within;
      rc, offset', done', stop := 0, offset, done, false;
      ghost var m := bus.chip.mem;
      BlockInside(regions, |m|, i, j);
      if current <= offset < current + size {
        var n := current + size - offset;
        if n > |src| - done {
          n := |src| - done;
        }
        SectorStart(regions, |m|, i, j, size);
        rc := WriteOneBlock(current, size, offset, src[done..done + n]);
        BlockWritten(was, m, bus.chip.mem, regions, i, j, off, src, offset, done, n);
        if |src| - done == n || rc != 0 {
          WriteEnds(was, bus.chip.mem, regions, i, j, off, src);
          stop := true;
          return;
        }
        VisitedOn(was, m, bus.chip.mem, regions, i, j, off, src, offset, done, n);
        offset', done' := current + size, done + n;
      } else {
        SkipBlock(was, m, regions, i, j, off, src, offset, done);
      }
    }

    /** alt_epcs_flash_write. */
    method Write(start: int, src: seq<Byte>) returns (rc: int)
      requires Valid()
      modifies bus
      ensures Valid() && SameChip(old(bus.chip), bus.chip) && rc == 0
      ensures start < 0 ==> bus.chip.mem == old(bus.chip.mem)
      ensures start >= 0 ==> Finished(old(bus.chip.mem), bus.chip.mem, regions, start, src)
    {
      hide Tiles, Progress, At, Finished;
      ghost var was := bus.chip.mem;
      rc := 0;
      var offset, done := start, 0;
      var i := 0;
      if start >= 0 {
        ProgressStart(was, regions, start, src);
      }
      while i < |regions|
        invariant 0 <= i <= |regions| && Valid() && SameChip(old(bus.chip), bus.chip)
        invariant start < 0 ==> offset == start && bus.chip.mem == was
        invariant start >= 0 ==> offset >= 0 && Progress(was, bus.chip.mem, regions, i, 0, start, src, offset, done)
      {
        var r := regions[i];
        RegionBounds(regions, |bus.chip.mem|, i);
        if r.offset <= offset < r.offset + r.size {
          var current := r.offset;
          var j := 0;
          while j < r.blocks
            invariant 0 <= j <= r.blocks && current == At(regions, i, j) && start >= 0 && offset >= 0
            invariant Valid() && SameChip(old(bus.chip), bus.chip)
            invariant Progress(was, bus.chip.mem, regions, i, j, start, src, offset, done)
          {
            var stop;
            rc, offset, done, stop := Block(was, i, j, start, src, offset, done, current, r.blockSize);
            if stop {
              return;
            }
            AtStep(regions, i, j);
            current := current + r.blockSize;
            j := j + 1;
          }
          NextRegion(was, bus.chip.mem, regions, i, start, src, offset, done);
        } else if start >= 0 {
          SkipRegion(was, bus.chip.mem, regions, i, start, src, offset, done);
        }
        i := i + 1;
      }
      if start >= 0 {
        ProgressEnd(was, bus.chip.mem, regions, start, src, offset, done);
      }
    }

    /** A range written is read back as the source, whatever was there before. */
    method WriteThenRead(start: nat, src: seq<Byte>) returns (rc: int, data: seq<Byte>)
      requires Valid() && start < |bus.chip.mem| && start + |src| <= |bus.chip.mem| && start < U31
      modifies bus
      ensures Valid() && rc == 0 && data == src
    {
      hide Tiles, Finished, Valid;
      ghost var was := bus.chip.mem;
      rc := Write(start, src);
      ReadsBack(was, bus.chip.mem, regions, start, src);
      rc, data := Read(start, |src|);
    }

    /** alt_epcs_flash_query: a chip of a known part ends up described. */
    method Query() returns (rc: int)
      requires AtRest()
      requires var p := Known(bus.chip.signature, bus.chip.id);
               p.Part? ==> |bus.chip.mem| == p.size && bus.chip.sector == p.blockSize
      modifies this, bus
      ensures bus.chip == old(bus.chip)
      ensures rc == if Known(bus.chip.signature, bus.chip.id).Part? then 0 else -ENODEV
      ensures rc == 0 ==> Valid()
      ensures rc == 0 ==>
                var s, id := bus.chip.signature, bus.chip.id;
                && regions == [if s == 0x16 then Region(0, 0x80_0000, 128, 0x1_0000)
                               else if s == 0x14 then Region(0, 0x20_0000, 32, 0x1_0000)
                               else if s == 0x13 then Region(0, 0x10_0000, 16, 0x1_0000)
                               else if s == 0x12 then Region(0, 0x8_0000, 8, 0x1_0000)
                               else if s == 0x10 then Region(0, 0x2_0000, 4, 0x8000)
                               else if id[2] == 0x19 then Region(0, 0x200_0000, 512, 0x1_0000)
                               else if id == [0x20, 0xBA, 0x18] then Region(0, 0x100_0000, 256, 0x1_0000)
                               else Region(0, 0x100_0000, 64, 0x4_0000)]
                && (fourBytes <==> s !in [0x10, 0x12, 0x13, 0x14, 0x16] && id[2] == 0x19)
      ensures rc != 0 <==> bus.chip.signature !in [0x10, 0x12, 0x13, 0x14, 0x16] && bus.chip.id[2] !in [0x18, 0x19]
    {
      hide Reply;
      rc, fourBytes := 0, false;
      ghost var c := bus.chip;
      var data := bus.Command([RES, 0, 0, 0], 1, false);
      Identifies(c);
      var siliconId := data[0];
      var size, blocks, blockSize := 0, 0, 0;
      if siliconId == 0x16 {
        size, blocks, blockSize := 64 * 1024 * 1024 / 8, 128, 65536;
      } else if siliconId == 0x14 {
        size, blocks, blockSize := 16 * 1024 * 1024 / 8, 32, 65536;
      } else if siliconId == 0x13 {
        size, blocks, blockSize := 8 * 1024 * 1024 / 8, 16, 65536;
      } else if siliconId == 0x12 {
        size, blocks, blockSize := 4 * 1024 * 1024 / 8, 8, 65536;
      } else if siliconId == 0x10 {
        size, blocks, blockSize := 1 * 1024 * 1024 / 8, 4, 32768;
      } else {
        var id := bus.Command([RDID], 3, false);
        if id == [0x20, 0xBA, 0x18] {
          size, blocks, blockSize := 128 * 1024 * 1024 / 8, 256, 65536;
        } else if id[2] == 0x18 {
          size, blocks, blockSize := 128 * 1024 * 1024 / 8, 64, 262144;
        } else if id[2] == 0x19 {
          size, blocks, blockSize, fourBytes := 256 * 1024 * 1024 / 8, 512, 65536, true;
        } else {
          rc := -ENODEV;
        }
      }
      if rc == 0 {
        regions := [Region(0, size, blocks, blockSize)];
      }
    }
  }

  /** The density codes are logarithms: a part holds two to that many bytes, one more for the older signatures. */
  lemma DensityCodes(signature: Byte, id: seq<Byte>)
    requires |id| == 3 && Known(signature, id).Part?
    ensures var code := if signature in [0x10, 0x12, 0x13, 0x14, 0x16] then signature as nat + 1 else id[2] as nat;
            Known(signature, id).size == TwoTo(code)
  {
    assert TwoTo(5) == 32 && TwoTo(10) == 32 * TwoTo(5) && TwoTo(15) == 32 * TwoTo(10);
    assert TwoTo(20) == 32 * TwoTo(15);
  }

  function TwoTo(n: nat): nat {
    if n == 0 then 1 else 2 * TwoTo(n - 1)
  }

  /** The answers to the two identification commands. */
  lemma Identifies(c: Chip)
    requires c.WellFormed() && c.busy == 0
    ensures Commits(c, [] + Clocked([RES, 0, 0, 0], 1), c) && Commits(c, [] + Clocked([RDID], 3), c)
    ensures forall d: Chip :: Commits(c, [] + Clocked([RES, 0, 0, 0], 1), d) ==> d == c
    ensures forall d: Chip :: Commits(c, [] + Clocked([RDID], 3), d) ==> d == c
    ensures Replies(c, [], Clocked([RES, 0, 0, 0], 1))[4..] == [c.signature]
    ensures Replies(c, [], Clocked([RDID], 3))[1..] == c.id
  {
    var res, rdid := Clocked([RES, 0, 0, 0], 1), Clocked([RDID], 3);
    assert [] + res == res && [] + rdid == rdid;
    assert |[] + res[..4]| == 4;
    assert |[] + rdid[..1]| == 1 && |[] + rdid[..2]| == 2 && |[] + rdid[..3]| == 3;
  }

  /** The erased sector is the block. */
  lemma SectorAt(m: seq<Byte>, size: nat, start: nat)
    requires size > 0 && |m| % size == 0 && start % size == 0 && start < |m| && start + size <= |m|
    ensures Within(m, SectorErased(m, size, start), start, start + size)
    ensures SectorErased(m, size, start)[start..start + size] == Blank(size)
  {
    hide Blank;
  }

  lemma OverlaidWithin(m: seq<Byte>, start: nat, size: nat, offset: nat, src: seq<Byte>)
    requires start + size <= |m| && start <= offset && offset + |src| <= start + size
    ensures Within(m, Overlaid(m, offset, src), start, start + size)
  {
  }

  /** With one region the blocks are the sectors. */
  lemma {:induction false} SectorStart(regions: seq<Region>, size: nat, i: nat, j: nat, sector: nat)
    requires Tiles(regions, size) && |regions| == 1 && i == 0 && regions[0].blockSize == sector > 0
    ensures At(regions, i, j) % sector == 0
    decreases j
  {
    if j > 0 {
      SectorStart(regions, size, i, j - 1, sector);
      StepMultiple(At(regions, i, j - 1), sector);
    }
  }

  lemma StepMultiple(x: nat, y: nat)
    requires y > 0 && x % y == 0
    ensures (x + y) % y == 0
  {
    var q := x / y;
    assert x == q * y;
    assert x + y == (q + 1) * y;
    MultipleMod(q + 1, y);
  }

  lemma MultipleMod(q: nat, y: nat)
    requires y > 0
    ensures (q * y) % y == 0
  {
    var p, r := q * y / y, (q * y) % y;
    assert q * y == p * y + r;
    assert (p + 1) * y == p * y + y;
    if q > p {
      TimesMonotone(p + 1, q, y);
      assert false;
    }
  }

  lemma RegionsEnd(regions: seq<Region>, size: nat)
    requires Tiles(regions, size) && |regions| > 0
    ensures regions[|regions| - 1].offset + regions[|regions| - 1].size == size
  {
  }

  /** A read that does not wrap is a slice. */
  lemma Unwrapped(m: seq<Byte>, offset: nat, data: seq<Byte>)
    requires offset < |m| && offset + |data| <= |m|
    requires forall k :: 0 <= k < |data| ==> data[k] == m[(offset + k) % |m|]
    ensures data == m[offset..offset + |data|]
  {
    forall k | 0 <= k < |data|
      ensures data[k] == m[offset + k]
    {
      Below(offset + k, |m|);
    }
  }

  lemma Below(x: nat, y: nat)
    requires x < y
    ensures x % y == x
  {
  }

  /** Once the chunks before are equal, this chunk decides. */
  lemma ChunkDecides(m: seq<Byte>, src: seq<Byte>, offset: nat, at: nat, n: nat)
    requires offset + |src| <= |m| && at + n <= |src| && m[offset..offset + at] == src[..at]
    ensures m[offset + at..offset + at + n] == src[at..at + n] ==> m[offset..offset + at + n] == src[..at + n]
    ensures m[offset + at..offset + at + n] != src[at..at + n] ==> m[offset..offset + |src|] != src
  {
    assert src[..at + n] == src[..at] + src[at..at + n];
    assert m[offset..offset + at + n] == m[offset..offset + at] + m[offset + at..offset + at + n];
    if m[offset..offset + |src|] == src {
      PartOfBlock(m, offset, offset + |src|, offset + at, n);
    }
  }

  /** The erase command with its address is one the chip carries out. */
  lemma Erases(c: Chip, se: seq<Byte>, offset: nat)
    requires c.WellFormed() && c.busy == 0 && c.enabled && offset < |c.mem|
    requires |se| == 1 + AddressLength(c.four) && se[0] == SE && Address(se[1..]) == offset
    ensures Effect(c, se) == c.(mem := SectorErased(c.mem, c.sector, offset), enabled := false) && SelfTimed(c, se)
  {
    assert Asked(c, se) == Erase(offset) by {
      hide Address;
      assert se[1..1 + AddressLength(c.four)] == se[1..];
    }
    hide Asked, SectorErased;
    Below(offset, |c.mem|);
  }

  lemma Programs(c: Chip, pp: seq<Byte>, offset: nat, src: seq<Byte>)
    requires c.WellFormed() && c.busy == 0 && c.enabled && offset < |c.mem| && src != []
    requires |pp| == 1 + AddressLength(c.four) && pp[0] == PP && Address(pp[1..]) == offset
    ensures Effect(c, pp + src) == c.(mem := Programmed(c.mem, offset, src), enabled := false) && SelfTimed(c, pp + src)
  {
    var sent := pp + src;
    assert Asked(c, sent) == Program(offset, src) by {
      hide Address;
      assert sent[1..1 + AddressLength(c.four)] == pp[1..] && sent[1 + AddressLength(c.four)..] == src && sent[0] == PP;
    }
    hide Asked, Programmed;
    Below(offset, |c.mem|);
  }

  lemma Reads(c: Chip, command: seq<Byte>, offset: nat, length: nat)
    requires c.WellFormed() && c.busy == 0 && offset < |c.mem|
    requires |command| == 1 + AddressLength(c.four) && command[0] == READ && Address(command[1..]) == offset
    ensures var sent := [] + Clocked(command, length);
            Effect(c, sent) == c && !SelfTimed(c, sent)
    ensures forall k :: 0 <= k < length ==>
              Replies(c, [], Clocked(command, length))[|command|..][k] == c.mem[(offset + k) % |c.mem|]
  {
    hide Address;
    var all := Clocked(command, length);
    assert [] + all == all && all[0] == READ;
    assert Asked(c, all) == Nothing;
    var data := Replies(c, [], all)[|command|..];
    forall k | 0 <= k < length
      ensures data[k] == c.mem[(offset + k) % |c.mem|]
    {
      ReadsAt(c, command, offset, length, k);
    }
  }

  lemma ReadsAt(c: Chip, command: seq<Byte>, offset: nat, length: nat, k: nat)
    requires c.WellFormed() && c.busy == 0 && offset < |c.mem| && k < length
    requires |command| == 1 + AddressLength(c.four) && command[0] == READ && Address(command[1..]) == offset
    ensures Replies(c, [], Clocked(command, length))[|command| + k] == Fetch(c.mem, offset + k)
  {
    hide Address, Fetch;
    var all := Clocked(command, length);
    var sent := [] + all[..|command| + k];
    assert sent == all[..|command| + k] && sent[0] == READ && |sent| == |command| + k;
    assert sent[1..|command|] == command[1..];
    assert Reply(c, sent) == Fetch(c.mem, offset + k);
  }
}
