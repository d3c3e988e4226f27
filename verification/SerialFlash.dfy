/** A serial flash chip behind an SPI master: what it answers to the bytes of a transaction, and what it does
    when it is deselected. Page programs wrap inside a page of 256 bytes. */
module SerialFlash {
  import opened Base
  import opened Sectors
  import opened SectorWalk

  const PAGE: nat := 256

  const WREN: Byte := 0x06
  const RDSR: Byte := 0x05
  const READ: Byte := 0x03
  const PP: Byte := 0x02
  const SE: Byte := 0xD8
  const RES: Byte := 0xAB
  const RDID: Byte := 0x9F
  const EN4B: Byte := 0xB7
  const DIS4B: Byte := 0xE9

  /** `busy` counts the status reads until a program or erase is over. */
  datatype Chip = Chip(mem: seq<Byte>, sector: nat, enabled: bool, busy: nat, four: bool, signature: Byte, id: seq<Byte>)
  {
    predicate WellFormed()
    {
      && |mem| > 0 && sector > 0 && |mem| % PAGE == 0 && |mem| % sector == 0
      && |id| == 3
    }
  }

  function AddressLength(four: bool): nat
  {
    if four then 4 else 3
  }

  /** Addresses are sent with the most significant byte first. */
  function Address(bytes: seq<Byte>): nat
  {
    if bytes == [] then 0 else 256 * Address(bytes[..|bytes| - 1]) + bytes[|bytes| - 1] as int
  }

  function Status(c: Chip): (s: Byte)
    ensures s % 2 == 1 <==> c.busy > 0
  {
    (if c.busy > 0 then 1 else 0) + (if c.enabled then 2 else 0)
  }

  /** Reading over the end of the memory starts again at its beginning. */
  function Fetch(mem: seq<Byte>, address: nat): Byte
    requires |mem| > 0
  {
    mem[address % |mem|]
  }

  /** The byte the chip returns after it received `sent` in this transaction. */
  function Reply(c: Chip, sent: seq<Byte>): Byte
    requires |c.mem| > 0 && |c.id| == 3
  {
    var a := 1 + AddressLength(c.four);
    if sent == [] then ERASED
    else if sent[0] == RDSR then Status(c)
    else if c.busy > 0 then ERASED
    else if sent[0] == READ && |sent| >= a then Fetch(c.mem, Address(sent[1..a]) + |sent| - a)
    else if sent[0] == RES && |sent| >= 4 then c.signature
    else if sent[0] == RDID && |sent| <= 3 then c.id[|sent| - 1]
    else ERASED
  }

  /** The bytes returned while `sent` follows `before`. */
  function Replies(c: Chip, before: seq<Byte>, sent: seq<Byte>): (r: seq<Byte>)
    requires |c.mem| > 0 && |c.id| == 3
    ensures |r| == |sent| && forall k :: 0 <= k < |r| ==> r[k] == Reply(c, before + sent[..k])
  {
    seq(|sent|, k requires 0 <= k < |sent| => Reply(c, before + sent[..k]))
  }

  function Wrapped(column: nat): (c: nat)
    ensures c < PAGE
    ensures column < PAGE ==> c == column
    ensures PAGE <= column < 2 * PAGE ==> c == column - PAGE
  {
    column % PAGE
  }

  /** The page buffer after `data` was loaded from a column on, wrapping at the end of the page. */
  function Loaded(column: nat, data: seq<Byte>): (b: seq<Byte>)
    ensures |b| == PAGE
  {
    if data == [] then Blank(PAGE)
    else Loaded(column, data[..|data| - 1])[Wrapped(column + |data| - 1) := data[|data| - 1]]
  }

  function Programmed(mem: seq<Byte>, address: nat, data: seq<Byte>): (m: seq<Byte>)
    requires |mem| % PAGE == 0 && address < |mem|
    ensures |m| == |mem|
  {
    PageInside(|mem|, address);
    var page := address - address % PAGE;
    mem[..page] + Anded(mem[page..page + PAGE], Loaded(address % PAGE, data)) + mem[page + PAGE..]
  }

  function SectorErased(mem: seq<Byte>, sector: nat, address: nat): (m: seq<Byte>)
    requires sector > 0 && |mem| % sector == 0 && address < |mem|
    ensures |m| == |mem|
  {
    SectorInside(|mem|, sector, address);
    var start := address - address % sector;
    mem[..start] + Blank(sector) + mem[start + sector..]
  }

  lemma PageInside(size: nat, address: nat)
    requires size % PAGE == 0 && address < size
    ensures address - address % PAGE + PAGE <= size
  {
  }

  lemma SectorInside(size: nat, sector: nat, address: nat)
    requires sector > 0 && size % sector == 0 && address < size
    ensures 0 <= address - address % sector && address - address % sector + sector <= size
  {
    var q, n := address / sector, size / sector;
    assert address == q * sector + address % sector && size == n * sector;
    if q >= n {
      TimesMonotone(n, q, sector);
      assert false;
    }
    TimesMonotone(q + 1, n, sector);
    assert (q + 1) * sector == q * sector + sector;
  }

  lemma TimesMonotone(x: nat, y: nat, z: nat)
    requires x <= y
    ensures x * z <= y * z
  {
  }

  datatype Action = Nothing | Enable | FourBytes(on: bool) | Erase(address: nat) | Program(address: nat, data: seq<Byte>)

  /** The action a finished transaction asks for. A command that needs WREN and did not get it, has the wrong
      length, or comes while the chip is busy is ignored. */
  function Asked(c: Chip, sent: seq<Byte>): Action
  {
    var a := 1 + AddressLength(c.four);
    if sent == [] || c.busy > 0 then Nothing
    else if sent == [WREN] then Enable
    else if !c.enabled then Nothing
    else if sent == [EN4B] then FourBytes(true)
    else if sent == [DIS4B] then FourBytes(false)
    else if sent[0] == SE && |sent| == a then Erase(Address(sent[1..a]))
    else if sent[0] == PP && |sent| > a then Program(Address(sent[1..a]), sent[a..])
    else Nothing
  }

  /** What an action does to the chip, apart from how long it is busy. */
  function Perform(c: Chip, action: Action): (d: Chip)
    requires c.WellFormed()
    ensures d.WellFormed()
  {
    match action
    case Nothing => c
    case Enable => c.(enabled := true)
    case FourBytes(on) => c.(four := on, enabled := false)
    case Erase(address) => c.(mem := SectorErased(c.mem, c.sector, address % |c.mem|), enabled := false)
    case Program(address, data) => c.(mem := Programmed(c.mem, address % |c.mem|, data), enabled := false)
  }

  function Effect(c: Chip, sent: seq<Byte>): (d: Chip)
    requires c.WellFormed()
    ensures d.WellFormed()
  {
    Perform(c, Asked(c, sent))
  }

  /** The memory changes only under a command of the right length to an enabled chip at rest, which is disabled again by
      it; a busy chip ignores everything. */
  lemma NeedsEnable(c: Chip, sent: seq<Byte>)
    requires c.WellFormed()
    ensures Effect(c, sent).mem != c.mem ==>
              && sent != [] && c.busy == 0 && c.enabled && !Effect(c, sent).enabled
              && (if |sent| == 1 + AddressLength(c.four) then sent[0] == SE
                  else sent[0] == PP && |sent| > 1 + AddressLength(c.four))
    ensures c.busy > 0 ==> Effect(c, sent) == c
  {
    hide SectorErased, Programmed, Address;
  }

  /** The codes of the commands without data. */
  lemma SwitchCodes(c: Chip)
    requires c.WellFormed() && c.busy == 0 && c.enabled
    ensures Asked(c, [0x06]) == Enable && Asked(c, [0xB7]) == FourBytes(true) && Asked(c, [0xE9]) == FourBytes(false)
  {
  }

  /** The codes of sector erase, 0xD8, and page program, 0x02. */
  lemma ChangeCodes(c: Chip, address: seq<Byte>, data: seq<Byte>)
    requires c.WellFormed() && c.busy == 0 && c.enabled && |address| == AddressLength(c.four) && data != []
    ensures Asked(c, [0xD8] + address) == Erase(Address(address))
    ensures Asked(c, [0x02] + address + data) == Program(Address(address), data)
  {
    hide Address;
    var erase, program := [0xD8 as Byte] + address, [0x02 as Byte] + address + data;
    assert erase[0] == SE && program[0] == PP && |erase| == |address| + 1;
    assert program[1..1 + |address|] == address && program[1 + |address|..] == data && erase[1..1 + |address|] == address;
  }

  /** The codes of the status, 0x05, the memory, 0x03, the signature, 0xAB, and the identification, 0x9F. */
  lemma AnswerCodes(c: Chip, address: seq<Byte>)
    requires c.WellFormed() && c.busy == 0 && |address| == AddressLength(c.four)
    ensures Reply(c, [0x05]) == (if c.enabled then 2 else 0) && Reply(c, [0x9F]) == c.id[0]
    ensures Reply(c, [0xAB, 0, 0, 0]) == c.signature
    ensures Reply(c, [0x03] + address) == Fetch(c.mem, Address(address))
  {
    hide Address, Fetch;
    var read := [0x03 as Byte] + address;
    assert read[0] == READ && |read| == 1 + AddressLength(c.four) && read[1..1 + |address|] == address;
  }

  predicate SelfTimed(c: Chip, sent: seq<Byte>) {
    Asked(c, sent).Erase? || Asked(c, sent).Program?
  }

  /** How a chip may be after the transaction `sent`: a program or erase takes any time. */
  ghost predicate Commits(c: Chip, sent: seq<Byte>, d: Chip)
    requires c.WellFormed()
  {
    && d == Effect(c, sent).(busy := d.busy)
    && (!SelfTimed(c, sent) ==>
          d.busy == if sent != [] && sent[0] == RDSR && c.busy > 0 then c.busy - 1 else c.busy)
  }

  /** A load that does not reach the end of the page lies where it was addressed. */
  lemma {:induction false} LoadedFits(column: nat, data: seq<Byte>)
    requires column + |data| <= PAGE
    ensures Loaded(column, data) == Blank(column) + data + Blank(PAGE - column - |data|)
  {
    hide Loaded, Blank;
    if data == [] {
      LoadedNone(column);
    } else {
      var n := |data| - 1;
      LoadedFits(column, data[..n]);
      LoadedNext(column, data);
      SetNext(Blank(column), data[..n], PAGE - column - n, data[n]);
      assert data[..n] + [data[n]] == data;
    }
  }

  lemma LoadedNone(column: nat)
    requires column <= PAGE
    ensures Loaded(column, []) == Blank(column) + [] + Blank(PAGE - column)
  {
  }

  lemma LoadedNext(column: nat, data: seq<Byte>)
    requires data != [] && column + |data| <= PAGE
    ensures Loaded(column, data) == Loaded(column, data[..|data| - 1])[column + |data| - 1 := data[|data| - 1]]
  {
    hide Blank, Wrapped;
  }

  lemma SetNext(before: seq<Byte>, data: seq<Byte>, blank: nat, b: Byte)
    requires blank > 0
    ensures (before + data + Blank(blank))[|before| + |data| := b] == before + (data + [b]) + Blank(blank - 1)
  {
  }

  /** Programming erased cells inside one page writes them and nothing else. */
  lemma ProgrammedFits(mem: seq<Byte>, address: nat, data: seq<Byte>)
    requires |mem| % PAGE == 0 && address < |mem| && address % PAGE + |data| <= PAGE
    requires address + |data| <= |mem| && mem[address..address + |data|] == Blank(|data|)
    ensures Programmed(mem, address, data) == Overlaid(mem, address, data)
  {
    hide Loaded, Blank, Overlaid;
    var column := address % PAGE;
    PageInside(|mem|, address);
    LoadedFits(column, data);
    PageSplit(mem, address - column, column, data);
  }

  lemma PageSplit(mem: seq<Byte>, page: nat, column: nat, data: seq<Byte>)
    requires page + PAGE <= |mem| && column + |data| <= PAGE
    requires mem[page + column..page + column + |data|] == Blank(|data|)
    ensures mem[..page] + Anded(mem[page..page + PAGE], Blank(column) + data + Blank(PAGE - column - |data|)) +
            mem[page + PAGE..] == Overlaid(mem, page + column, data)
  {
    hide Blank, Anded, Overlaid;
    var a, b := page + column, page + column + |data|;
    var before, after := mem[page..a], mem[b..page + PAGE];
    assert mem[page..page + PAGE] == before + mem[a..b] + after;
    PartProgrammed(before, data, after);
    Regroup(mem[..page], before, data, after, mem[page + PAGE..]);
    assert mem[..a] == mem[..page] + before;
    assert mem[b..] == after + mem[page + PAGE..];
    assert Overlaid(mem, a, data) == mem[..a] + data + mem[b..] by {
      OverlaidIs(mem, a, data);
    }
  }

  lemma OverlaidIs(mem: seq<Byte>, at: nat, data: seq<Byte>)
    requires at + |data| <= |mem|
    ensures Overlaid(mem, at, data) == mem[..at] + data + mem[at + |data|..]
  {
  }

  lemma Regroup(a: seq<Byte>, b: seq<Byte>, c: seq<Byte>, d: seq<Byte>, e: seq<Byte>)
    ensures a + (b + c + d) + e == (a + b) + c + (d + e)
  {
  }

  /** Cells programmed with ones keep their value, erased cells take the data. */
  lemma PartProgrammed(before: seq<Byte>, data: seq<Byte>, after: seq<Byte>)
    ensures Anded(before + Blank(|data|) + after, Blank(|before|) + data + Blank(|after|)) == before + data + after
  {
    var cells, load := before + Blank(|data|) + after, Blank(|before|) + data + Blank(|after|);
    forall k | 0 <= k < |cells|
      ensures Anded(cells, load)[k] == (before + data + after)[k]
    {
      AndOnes(cells[k]);
      AndOnes(load[k]);
      InThree(before, Blank(|data|), after, k);
      InThree(Blank(|before|), data, Blank(|after|), k);
      InThree(before, data, after, k);
    }
  }

  /** A load that runs over the end of the page comes back at its start: this is what the splitter avoids. */
  lemma LoadedWraps(column: nat, data: seq<Byte>, k: nat)
    requires column < PAGE && PAGE - column <= k < |data| <= PAGE
    ensures Loaded(column, data)[column + k - PAGE] == data[k]
  {
    hide Wrapped;
    if k < |data| - 1 {
      LoadedWraps(column, data[..|data| - 1], k);
    }
  }
}
