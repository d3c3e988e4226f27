/** Reading the region table out of the Common Flash Interface query data: sizes, the reversal of top-boot
    parts, and offsets. */
module CfiTable {
  import opened Base
  import opened Sectors
  import CfiFlash

  type Octet = x: int | 0 <= x < 256 witness 0

  const ENODEV := 19
  const ENOMEM := 12
  const EIO := 5
  const MAX_REGIONS: nat := 8
  const INTEL_STRATA: Octet := 1
  const AMD: Octet := 2
  const INTEL: Octet := 3
  const TOP_BOOT: Octet := 3

  /** A region without its place in the device. */
  datatype Shape = Shape(size: nat, blocks: nat, blockSize: nat)

  function ShapeOf(r: Region): Shape {
    Shape(r.size, r.blocks, r.blockSize)
  }

  function ShapesOf(regions: seq<Region>): (s: seq<Shape>)
    ensures |s| == |regions| && forall k :: 0 <= k < |s| ==> s[k] == ShapeOf(regions[k])
  {
    seq(|regions|, k requires 0 <= k < |regions| => ShapeOf(regions[k]))
  }

  /** The swap loop after j steps: the outermost j regions on each side have changed places. */
  function Flipped(d: seq<Shape>, j: nat): (s: seq<Shape>)
    ensures |s| == |d| && forall k :: 0 <= k < |d| ==> s[k] == d[if k < j || |d| - 1 - j < k then |d| - 1 - k else k]
  {
    seq(|d|, k requires 0 <= k < |d| => d[if k < j || |d| - 1 - j < k then |d| - 1 - k else k])
  }

  lemma FlipNext(d: seq<Shape>, j: nat)
    requires 2 * j < |d|
    ensures var s, i := Flipped(d, j), |d| - 1 - j;
            Flipped(d, j + 1) == s[i := s[j]][j := s[i]]
  {
  }

  lemma FlipNone(d: seq<Shape>)
    ensures Flipped(d, 0) == d
  {
  }

  lemma FlipAll(d: seq<Shape>, j: nat)
    requires |d| <= 2 * j
    ensures Flipped(d, j) == Backwards(d)
  {
  }

  function Word(query: nat -> Octet, address: nat): (w: nat)
    ensures w < 0x10000
  {
    query(address) + 256 * query(address + 1)
  }

  /** The device names a primary table that starts with the letters PRI. */
  predicate HasPrimary(query: nat -> Octet) {
    var p := Word(query, 0x15);
    query(p) == 'P' as int && query(p + 1) == 'R' as int && query(p + 2) == 'I' as int
  }

  predicate KnownAlgorithm(query: nat -> Octet) {
    query(0x13) in [INTEL_STRATA, AMD, INTEL]
  }

  predicate TopBoot(query: nat -> Octet) {
    query(0x13) == AMD && query(Word(query, 0x15) + 0xF) == TOP_BOOT
  }

  /** The k-th erase block region as the device describes it. */
  function Described(query: nat -> Octet, k: nat): (s: Shape)
    ensures s.size == s.blocks * s.blockSize && s.blockSize % 256 == 0 && s.blocks > 0
  {
    var blocks, blockSize := Word(query, 0x2D + k * 4) + 1, Word(query, 0x2F + k * 4) * 256;
    Shape(blocks * blockSize, blocks, blockSize)
  }

  function AllDescribed(query: nat -> Octet): (s: seq<Shape>)
    ensures |s| == query(0x2C)
  {
    seq(query(0x2C), k requires 0 <= k => Described(query, k))
  }

  /** The regions in the order of their addresses. */
  function InOrder(query: nat -> Octet): (s: seq<Shape>)
    ensures |s| == query(0x2C)
    ensures forall k :: 0 <= k < |s| ==> s[k].size == s[k].blocks * s[k].blockSize && s[k].blockSize % 256 == 0
  {
    if TopBoot(query) then Backwards(AllDescribed(query)) else AllDescribed(query)
  }

  function Backwards(s: seq<Shape>): (r: seq<Shape>)
    ensures |r| == |s| && forall k :: 0 <= k < |s| ==> r[k] == s[|s| - 1 - k]
  {
    if s == [] then [] else [s[|s| - 1]] + Backwards(s[..|s| - 1])
  }

  function Total(s: seq<Shape>): nat
  {
    if s == [] then 0 else Total(s[..|s| - 1]) + s[|s| - 1].size
  }

  lemma {:induction false} TotalCons(x: Shape, s: seq<Shape>)
    ensures Total([x] + s) == x.size + Total(s)
  {
    if s == [] {
      assert [x] + s == [x] && [x][..0] == [];
    } else {
      TotalCons(x, s[..|s| - 1]);
      assert ([x] + s)[..|s|] == [x] + s[..|s| - 1];
    }
  }

  /** Reversing the regions does not change how much they cover. */
  lemma {:induction false} TotalBackwards(s: seq<Shape>)
    ensures Total(Backwards(s)) == Total(s)
  {
    if s != [] {
      TotalBackwards(s[..|s| - 1]);
      TotalCons(s[|s| - 1], Backwards(s[..|s| - 1]));
    }
  }

  lemma TotalNone()
    ensures Total([]) == 0
  {
  }

  lemma TotalTake(s: seq<Shape>, k: nat)
    requires k < |s|
    ensures Total(s[..k + 1]) == Total(s[..k]) + s[k].size
  {
    assert s[..k + 1][..k] == s[..k];
  }

  function DeviceSize(query: nat -> Octet): nat {
    Power(query(0x27))
  }

  function Power(n: nat): (p: nat)
    ensures p > 0
  {
    if n == 0 then 1 else 2 * Power(n - 1)
  }

  /** Powers of two: this and the first are all of them. */
  lemma {:induction false} PowerAdd(a: nat, b: nat)
    ensures Power(a + b) == Power(a) * Power(b) && Power(1) == 2
  {
    if a > 0 {
      PowerAdd(a - 1, b);
      Twice(Power(a - 1), Power(b));
    }
  }

  lemma Twice(x: nat, y: nat)
    ensures (2 * x) * y == 2 * (x * y)
  {
  }

  /** The k-th region in the order of addresses, as the bytes of the query data tell it. */
  lemma RawRegion(query: nat -> Octet, k: nat)
    requires k < query(0x2C)
    ensures var p := query(0x15) + 256 * query(0x16);
            var j := if query(0x13) == 2 && query(p + 15) == 3 then query(0x2C) - 1 - k else k;
            && InOrder(query)[k].blocks == query(0x2D + 4 * j) + 256 * query(0x2E + 4 * j) + 1
            && InOrder(query)[k].blockSize == 256 * (query(0x2F + 4 * j) + 256 * query(0x30 + 4 * j))
  {
    hide Described, Backwards;
    var p := query(0x15) + 256 * query(0x16);
    var j := if query(0x13) == 2 && query(p + 15) == 3 then query(0x2C) - 1 - k else k;
    assert InOrder(query)[k] == AllDescribed(query)[j] == Described(query, j);
    RawShape(query, j);
  }

  /** The regions are the ones in the bytes of the query data, the last first in a top-boot AMD part. */
  ghost predicate AsBytesTell(query: nat -> Octet, regions: seq<Region>)
  {
    && |regions| == query(0x2C)
    && forall k :: 0 <= k < |regions| ==>
         var p := query(0x15) + 256 * query(0x16);
         var j := if query(0x13) == 2 && query(p + 15) == 3 then query(0x2C) - 1 - k else k;
         && regions[k].blocks == query(0x2D + 4 * j) + 256 * query(0x2E + 4 * j) + 1
         && regions[k].blockSize == 256 * (query(0x2F + 4 * j) + 256 * query(0x30 + 4 * j))
  }

  lemma RawRegions(query: nat -> Octet, regions: seq<Region>)
    requires ShapesOf(regions) == InOrder(query)
    ensures AsBytesTell(query, regions)
  {
    hide InOrder;
    forall k | 0 <= k < |regions|
      ensures var p := query(0x15) + 256 * query(0x16);
              var j := if query(0x13) == 2 && query(p + 15) == 3 then query(0x2C) - 1 - k else k;
              && regions[k].blocks == query(0x2D + 4 * j) + 256 * query(0x2E + 4 * j) + 1
              && regions[k].blockSize == 256 * (query(0x2F + 4 * j) + 256 * query(0x30 + 4 * j))
    {
      assert ShapesOf(regions)[k] == ShapeOf(regions[k]);
      RawRegion(query, k);
    }
  }

  lemma RawShape(query: nat -> Octet, j: nat)
    ensures Described(query, j).blocks == query(0x2D + 4 * j) + 256 * query(0x2E + 4 * j) + 1
    ensures Described(query, j).blockSize == 256 * (query(0x2F + 4 * j) + 256 * query(0x30 + 4 * j))
  {
    RawWord(query, 0x2D + 4 * j);
    RawWord(query, 0x2F + 4 * j);
    hide Word;
    assert 0x2D + j * 4 == 0x2D + 4 * j && 0x2F + j * 4 == 0x2F + 4 * j;
  }

  lemma RawWord(query: nat -> Octet, address: nat)
    ensures Word(query, address) == query(address) + 256 * query(address + 1)
  {
  }

  /** What a table needs to be read, as the bytes of the query data tell it. */
  lemma RawHeader(query: nat -> Octet)
    ensures var p := query(0x15) + 256 * query(0x16);
            HasPrimary(query) <==> query(p) == 0x50 && query(p + 1) == 0x52 && query(p + 2) == 0x49
    ensures KnownAlgorithm(query) <==> 1 <= query(0x13) <= 3
  {
  }

  /** The regions have these shapes and lie end to end from 0. */
  ghost predicate LaidOut(regions: seq<Region>, shapes: seq<Shape>)
  {
    && |regions| == |shapes|
    && ShapesOf(regions) == shapes
    && forall k :: 0 <= k < |regions| ==> regions[k].offset == Total(shapes[..k])
  }

  lemma NextOffset(regions: seq<Region>, shapes: seq<Shape>, k: nat)
    requires LaidOut(regions, shapes) && k < |regions|
    ensures regions[k].offset + regions[k].size == Total(shapes[..k + 1])
  {
    TotalTake(shapes, k);
  }

  lemma OffsetFrom(regions: seq<Region>, shapes: seq<Shape>, k: nat)
    requires LaidOut(regions, shapes) && k < |regions|
    ensures regions[k].offset == if k == 0 then 0 else regions[k - 1].offset + regions[k - 1].size
  {
    if k > 0 {
      NextOffset(regions, shapes, k - 1);
    }
  }

  /** Region descriptions laid end to end from 0 tile what they add up to. */
  lemma LaidOutTiles(regions: seq<Region>, shapes: seq<Shape>)
    requires LaidOut(regions, shapes)
    requires forall k :: 0 <= k < |shapes| ==> shapes[k].size == shapes[k].blocks * shapes[k].blockSize
    ensures Tiles(regions, Total(shapes))
  {
    hide Total;
    forall k | 0 <= k < |regions|
      ensures regions[k].offset == if k == 0 then 0 else regions[k - 1].offset + regions[k - 1].size
    {
      OffsetFrom(regions, shapes, k);
    }
    assert shapes[..|shapes|] == shapes;
    if |regions| > 0 {
      NextOffset(regions, shapes, |regions| - 1);
      OffsetFrom(regions, shapes, 0);
      assert Total(shapes) == regions[|regions| - 1].offset + regions[|regions| - 1].size;
    } else {
      TotalNone();
    }
  }

  lemma InOrderTotal(query: nat -> Octet)
    ensures Total(InOrder(query)) == Total(AllDescribed(query))
    ensures TopBoot(query) ==> InOrder(query) == Backwards(AllDescribed(query))
    ensures !TopBoot(query) ==> InOrder(query) == AllDescribed(query)
  {
    TotalBackwards(AllDescribed(query));
  }

  /** The k-th erase block region as JESD68.01 section 3 means it: a block size entry of 0 stands for 128 bytes. */
  function Standard(query: nat -> Octet, k: nat): (s: Shape)
    ensures s == Described(query, k) <==> Word(query, 0x2F + k * 4) != 0
    ensures s.size >= Described(query, k).size && (s.size == Described(query, k).size <==> s == Described(query, k))
  {
    var blocks, entry := Word(query, 0x2D + k * 4) + 1, Word(query, 0x2F + k * 4);
    var blockSize := if entry == 0 then 128 else entry * 256;
    Shape(blocks * blockSize, blocks, blockSize)
  }

  function AllStandard(query: nat -> Octet): (s: seq<Shape>)
    ensures |s| == query(0x2C)
  {
    seq(query(0x2C), k requires 0 <= k => Standard(query, k))
  }

  /** The table uses the entry that stands for 128 bytes. */
  predicate HasTinyBlocks(query: nat -> Octet) {
    exists k: nat :: k < query(0x2C) && BlockEntry(query, k) == 0
  }

  function BlockEntry(query: nat -> Octet, k: nat): nat {
    Word(query, 0x2F + k * 4)
  }

  /** What the code computes falls short of the standard exactly if a region has 128-byte blocks. */
  lemma {:induction false} TotalFallsShort(query: nat -> Octet, n: nat)
    requires n <= query(0x2C)
    ensures Total(AllDescribed(query)[..n]) <= Total(AllStandard(query)[..n])
    ensures Total(AllDescribed(query)[..n]) == Total(AllStandard(query)[..n]) <==>
            forall k: nat :: k < n ==> BlockEntry(query, k) != 0
  {
    hide Total, Word, Described, Standard;
    if n == 0 {
      assert AllDescribed(query)[..0] == [] == AllStandard(query)[..0];
    } else {
      TotalFallsShort(query, n - 1);
      TotalTake(AllDescribed(query), n - 1);
      TotalTake(AllStandard(query), n - 1);
      assert AllStandard(query)[n - 1] == Standard(query, n - 1) && AllDescribed(query)[n - 1] == Described(query, n - 1);
      assert BlockEntry(query, n - 1) == Word(query, 0x2F + (n - 1) * 4);
    }
  }

  /** The result of reading a table. */
  function ReadResult(query: nat -> Octet): int {
    if !HasPrimary(query) then -ENODEV
    else if !KnownAlgorithm(query) then -EIO
    else if query(0x2C) > MAX_REGIONS then -ENOMEM
    else if Total(AllDescribed(query)) != DeviceSize(query) then -ENODEV
    else 0
  }

  /** A table that is in order by the standard is read exactly if no region has 128-byte blocks; otherwise the device is
      refused. */
  lemma StandardTableRead(query: nat -> Octet)
    requires HasPrimary(query) && KnownAlgorithm(query) && query(0x2C) <= MAX_REGIONS
    requires Total(AllStandard(query)) == DeviceSize(query)
    ensures ReadResult(query) == if HasTinyBlocks(query) then -ENODEV else 0
    ensures Total(AllDescribed(query)) <= DeviceSize(query)
  {
    hide HasPrimary, KnownAlgorithm, Total, DeviceSize, AllDescribed, AllStandard, BlockEntry;
    var n := query(0x2C);
    TotalFallsShort(query, n);
    assert AllDescribed(query)[..n] == AllDescribed(query) && AllStandard(query)[..n] == AllStandard(query);
  }

  /** One block of 128 bytes in a device of 128 bytes, refused. */
  function TinyDevice(address: nat): Octet {
    if address == 0x13 then INTEL
    else if address == 0x15 then 0x40
    else if address == 0x27 then 7
    else if address == 0x2C then 1
    else if address == 0x40 then 'P' as int
    else if address == 0x41 then 'R' as int
    else if address == 0x42 then 'I' as int
    else 0
  }

  lemma TinyDeviceRefused()
    ensures HasPrimary(TinyDevice) && KnownAlgorithm(TinyDevice) && TinyDevice(0x2C) <= MAX_REGIONS
    ensures Total(AllStandard(TinyDevice)) == DeviceSize(TinyDevice) && ReadResult(TinyDevice) == -ENODEV
  {
    assert Power(3) == 8 && Power(5) == 32 && Power(7) == 128;
    assert AllStandard(TinyDevice) == [Shape(128, 1, 128)];
    assert AllStandard(TinyDevice)[..0] == [];
    assert BlockEntry(TinyDevice, 0) == 0;
    StandardTableRead(TinyDevice);
  }

  /** The part of the device structure that holds the region table. */
  class Table {
    const region: array<Region>
    var count: nat

    ghost predicate Valid()
      reads this
    {
      region.Length == MAX_REGIONS
    }

    constructor ()
      ensures Valid() && fresh(region)
    {
      region := new Region[MAX_REGIONS](_ => Region(0, 0, 0, 0));
      count := 0;
    }

    /** Copy the descriptions; the result says how much they cover together. */
    method Fill(query: nat -> Octet) returns (size: nat)
      requires Valid() && count == query(0x2C) <= MAX_REGIONS
      modifies region
      ensures ShapesOf(region[..count]) == AllDescribed(query)
      ensures size == Total(AllDescribed(query))
    {
      hide Described, Word, Total;
      ghost var d := AllDescribed(query);
      TotalNone();
      size := 0;
      for i := 0 to count
        invariant ShapesOf(region[..i]) == d[..i]
        invariant size == Total(d[..i])
      {
        var s := Described(query, i);
        region[i] := Region(region[i].offset, s.size, s.blocks, s.blockSize);
        size := size + region[i].size;
        TotalTake(d, i);
      }
      assert d[..count] == d;
    }

    /** The swap loop of a top-boot part. */
    method Reverse(ghost d: seq<Shape>)
      requires Valid() && count <= MAX_REGIONS && ShapesOf(region[..count]) == d
      modifies region
      ensures ShapesOf(region[..count]) == Backwards(d)
    {
      hide ShapesOf, Flipped, Backwards;
      var i, j := count - 1, 0;
      FlipNone(d);
      while j <= i
        invariant i + j == count - 1 && 0 <= j <= i + 2
        invariant ShapesOf(region[..count]) == Flipped(d, j)
        decreases i
      {
        FlipNext(d, j);
        Swap(i, j);
        i, j := i - 1, j + 1;
      }
      FlipAll(d, j);
    }

    method Swap(i: nat, j: nat)
      requires Valid() && i < count <= MAX_REGIONS && j < count
      modifies region
      ensures var s := old(ShapesOf(region[..count]));
              ShapesOf(region[..count]) == s[i := s[j]][j := s[i]]
    {
      var swap := region[i].size;
      region[i] := region[i].(size := region[j].size);
      region[j] := region[j].(size := swap);
      swap := region[i].blockSize;
      region[i] := region[i].(blockSize := region[j].blockSize);
      region[j] := region[j].(blockSize := swap);
      swap := region[i].blocks;
      region[i] := region[i].(blocks := region[j].blocks);
      region[j] := region[j].(blocks := swap);
    }

    method SetOffset(i: nat, offset: nat)
      requires Valid() && i < count <= MAX_REGIONS
      modifies region
      ensures region[i].offset == offset && ShapesOf(region[..count]) == old(ShapesOf(region[..count]))
      ensures forall k :: 0 <= k < count && k != i ==> region[k].offset == old(region[k].offset)
    {
      region[i] := region[i].(offset := offset);
    }

    /** Lay the regions end to end. */
    method Place(ghost shapes: seq<Shape>)
      requires Valid() && count <= MAX_REGIONS && ShapesOf(region[..count]) == shapes
      modifies region
      ensures LaidOut(region[..count], shapes)
    {
      hide Total;
      TotalNone();
      var offset := 0;
      for i := 0 to count
        invariant offset == Total(shapes[..i])
        invariant ShapesOf(region[..count]) == shapes
        invariant forall k :: 0 <= k < i ==> region[k].offset == Total(shapes[..k])
      {
        SetOffset(i, offset);
        assert ShapesOf(region[..count])[i] == ShapeOf(region[i]);
        offset := offset + region[i].size;
        TotalTake(shapes, i);
      }
    }

    /** Fill the table and put it in order. */
    method Arrange(query: nat -> Octet) returns (size: nat)
      requires Valid() && count == query(0x2C) <= MAX_REGIONS
      modifies region
      ensures size == Total(AllDescribed(query)) && ShapesOf(region[..count]) == InOrder(query)
      ensures Tiles(region[..count], size)
    {
      hide Word, Described, AllDescribed, InOrder, Backwards, Total, Power, Tiles;
      size := Fill(query);
      if TopBoot(query) {
        Reverse(AllDescribed(query));
      }
      InOrderTotal(query);
      Place(InOrder(query));
      LaidOutTiles(region[..count], InOrder(query));
    }

    /** alt_read_cfi_table. */
    method Read(query: nat -> Octet) returns (rc: int)
      requires Valid()
      requires query(0x27) <= 30 && Total(AllDescribed(query)) < 0x8000_0000
      modifies this, region
      ensures rc == ReadResult(query)
      ensures var p := query(0x15) + 256 * query(0x16);
              if query(p) != 0x50 || query(p + 1) != 0x52 || query(p + 2) != 0x49 then rc == -19
              else if query(0x13) == 0 || query(0x13) > 3 then rc == -5
              else if query(0x2C) > 8 then rc == -12
              else rc == 0 || rc == -19
      ensures rc == 0 ==> count == query(0x2C) <= MAX_REGIONS && Tiles(region[..count], DeviceSize(query))
      ensures rc == 0 ==> ShapesOf(region[..count]) == InOrder(query)
      ensures rc == 0 ==> AsBytesTell(query, region[..count])
    {
      hide AsBytesTell, HasPrimary, KnownAlgorithm, AllDescribed, InOrder, Total, Power, Tiles;
      RawHeader(query);
      if !HasPrimary(query) {
        return -ENODEV;
      }
      rc := 0;
      var algorithm := query(0x13);
      var deviceSize := Power(query(0x27));
      count := query(0x2C);
      if count > MAX_REGIONS {
        rc := -ENOMEM;
      } else {
        var size := Arrange(query);
        RawRegions(query, region[..count]);
        if size != deviceSize {
          rc := -ENODEV;
        }
      }
      if algorithm !in [AMD, INTEL, INTEL_STRATA] {
        rc := -EIO;
      }
    }
  }

  /** A device whose table was read is one the write walk accepts: bus widths 1, 2 and 4 divide every block. */
  method Open(query: nat -> Octet, mem: array<Byte>, width: int) returns (rc: int, flash: CfiFlash.Flash?)
    requires width in {1, 2, 4} && query(0x27) <= 30 && Total(AllDescribed(query)) < 0x8000_0000
    requires mem.Length == DeviceSize(query)
    ensures rc == 0 <==> flash != null
    ensures rc == 0 ==> flash.Valid() && flash.mem == mem && flash.width == width && |flash.regions| == query(0x2C)
    ensures rc == 0 ==> ShapesOf(flash.regions) == InOrder(query) && AsBytesTell(query, flash.regions)
  {
    hide AsBytesTell;
    flash := null;
    var t := new Table();
    rc := t.Read(query);
    if rc == 0 {
      forall k | 0 <= k < t.count
        ensures t.region[..t.count][k].blockSize % width == 0
      {
        assert ShapeOf(t.region[..t.count][k]) == InOrder(query)[k];
        Multiple(InOrder(query)[k].blockSize, width);
      }
      flash := new CfiFlash.Flash(mem, width, t.region[..t.count]);
    }
  }

  lemma Multiple(x: nat, w: int)
    requires x % 256 == 0 && w in {1, 2, 4}
    ensures x % w == 0
  {
    assert x == 256 * (x / 256);
    if w == 2 {
      assert x == 2 * (128 * (x / 256));
    } else if w == 4 {
      assert x == 4 * (64 * (x / 256));
    }
  }
}
