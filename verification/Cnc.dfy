/** The cycle protocol of the CNC: the host component packs commands into a frame, the interrupt handler of the
    board applies them to its registers and answers, and the host unpacks the answer. */
module Cnc {
  import opened Base
  import opened Nic

  const FRAME_MAX: nat := 512
  const SEND_LEN: nat := 64
  const REPLY_LEN: nat := 46
  const COMMAND_REGS: nat := 9
  const INPUT_REGS: nat := 8

  type Word = x: nat | x < U32 witness 0

  /** Four bytes as a word, low byte first. */
  function WordAt(s: seq<Byte>, at: nat): (w: Word)
    requires at + 4 <= |s|
  {
    s[at] as nat + 0x100 * (s[at + 1] as nat) + 0x1_0000 * (s[at + 2] as nat) + 0x100_0000 * (s[at + 3] as nat)
  }

  /** A word cut into bytes is the same word when put together. */
  lemma BytesOfWord(w: Word)
    ensures ByteOf(w) as nat + 0x100 * (ByteOf(w / 0x100) as nat) + 0x1_0000 * (ByteOf(w / 0x1_0000) as nat) +
            0x100_0000 * (ByteOf(w / 0x100_0000) as nat) == w
  {
    assert w / 0x100 / 0x100 == w / 0x1_0000 && w / 0x1_0000 / 0x100 == w / 0x100_0000;
  }

  /** The bytes of a word, the lowest first. */
  lemma WordBytes(s: seq<Byte>, at: nat)
    requires at + 4 <= |s|
    ensures var w := WordAt(s, at);
            && s[at] as nat == w % 0x100 && s[at + 1] as nat == w / 0x100 % 0x100
            && s[at + 2] as nat == w / 0x1_0000 % 0x100 && s[at + 3] as nat == w / 0x100_0000
  {
    var w, b, c, d := WordAt(s, at), s[at + 1] as nat, s[at + 2] as nat, s[at + 3] as nat;
    hide WordAt;
    LowByte(w, s[at] as nat, b + 0x100 * (c + 0x100 * d));
    LowByte(w / 0x100, b, c + 0x100 * d);
    LowByte(w / 0x1_0000, c, d);
  }

  lemma LowByte(w: nat, low: nat, rest: nat)
    requires w == low + 0x100 * rest && low < 0x100
    ensures w % 0x100 == low && w / 0x100 == rest && w / 0x1_0000 == rest / 0x100 && w / 0x100_0000 == rest / 0x1_0000
  {
  }

  method PutWord(buf: array<Byte>, at: nat, w: Word)
    requires at + 4 <= buf.Length
    modifies buf
    ensures WordAt(buf[..], at) == w
    ensures forall k :: 0 <= k < buf.Length && !(at <= k < at + 4) ==> buf[k] == old(buf[k])
  {
    BytesOfWord(w);
    buf[at] := ByteOf(w);
    buf[at + 1] := ByteOf(w / 0x100);
    buf[at + 2] := ByteOf(w / 0x1_0000);
    buf[at + 3] := ByteOf(w / 0x100_0000);
  }

  /** Bit i of a number. */
  function Bit(x: nat, i: nat): bool
  {
    if i == 0 then x % 2 == 1 else Bit(x / 2, i - 1)
  }

  function BitsValue(bits: seq<bool>): nat
  {
    if bits == [] then 0 else (if bits[0] then 1 else 0) + 2 * BitsValue(bits[1..])
  }

  function Shifted(b: bool, i: nat): nat
  {
    if i == 0 then (if b then 1 else 0) else 2 * Shifted(b, i - 1)
  }

  /** Packed bits are found where they were put; there is nothing above them. */
  lemma {:induction false} BitsFound(bits: seq<bool>, i: nat)
    ensures Bit(BitsValue(bits), i) == (i < |bits| && bits[i])
    decreases i
  {
    var v := BitsValue(bits);
    if bits == [] {
      if i > 0 {
        BitsFound(bits, i - 1);
      }
    } else {
      assert v / 2 == BitsValue(bits[1..]) && (v % 2 == 1 <==> bits[0]);
      if i > 0 {
        BitsFound(bits[1..], i - 1);
      }
    }
  }

  lemma {:induction false} BitsSnoc(bits: seq<bool>, b: bool)
    ensures BitsValue(bits + [b]) == BitsValue(bits) + Shifted(b, |bits|)
  {
    if bits == [] {
      assert [] + [b] == [b] && [b][1..] == [];
    } else {
      BitsSnoc(bits[1..], b);
      assert (bits + [b])[1..] == bits[1..] + [b];
    }
  }

  lemma {:induction false} BitsBound(bits: seq<bool>)
    requires |bits| <= 32
    ensures BitsValue(bits) < Shifted(true, |bits|) <= U32
    ensures |bits| <= 8 ==> BitsValue(bits) < 256
  {
    if bits != [] {
      BitsBound(bits[1..]);
    }
    ShiftedMonotone(|bits|, 32);
    ShiftedMonotone(|bits|, 8);
    Shifted8();
    Shifted32();
  }

  lemma {:induction false} ShiftedMonotone(i: nat, j: nat)
    ensures i <= j ==> Shifted(true, i) <= Shifted(true, j)
    ensures Shifted(true, i) >= 1
    decreases j
  {
    if i > 0 && j > 0 {
      ShiftedMonotone(i - 1, j - 1);
    } else if j > 0 {
      ShiftedMonotone(0, j - 1);
    } else if i > 0 {
      ShiftedPositive(i);
    }
  }

  lemma {:induction false} ShiftedPositive(i: nat)
    ensures Shifted(true, i) >= 1
  {
    if i > 0 {
      ShiftedPositive(i - 1);
    }
  }

  lemma Shifted8()
    ensures Shifted(true, 8) == 256
  {
    assert Shifted(true, 4) == 16;
    assert Shifted(true, 8) == 16 * Shifted(true, 4);
  }

  lemma Shifted32()
    ensures Shifted(true, 32) == U32
  {
    Shifted8();
    assert Shifted(true, 12) == 16 * Shifted(true, 8);
    assert Shifted(true, 16) == 16 * Shifted(true, 12);
    assert Shifted(true, 20) == 16 * Shifted(true, 16);
    assert Shifted(true, 24) == 16 * Shifted(true, 20);
    assert Shifted(true, 28) == 16 * Shifted(true, 24);
    assert Shifted(true, 32) == 16 * Shifted(true, 28);
  }

  lemma {:induction false} BitsJoin(s: seq<bool>, t: seq<bool>)
    requires |s| == 8
    ensures BitsValue(s + t) == BitsValue(s) + 256 * BitsValue(t)
  {
    BitsPrefix(s, t);
    Shifted8();
  }

  lemma {:induction false} BitsPrefix(s: seq<bool>, t: seq<bool>)
    ensures BitsValue(s + t) == BitsValue(s) + Shifted(true, |s|) * BitsValue(t)
  {
    if s == [] {
      assert s + t == t;
    } else {
      BitsPrefix(s[1..], t);
      assert (s + t)[1..] == s[1..] + t;
      assert Shifted(true, |s|) * BitsValue(t) == 2 * (Shifted(true, |s| - 1) * BitsValue(t));
    }
  }

  /** A request carries 0x80 0xAB behind the addresses. */
  predicate Requested(s: seq<Byte>)
  {
    |s| >= 14 && s[12] == 0x80 && s[13] == 0xAB
  }

  predicate Answered(s: seq<Byte>)
  {
    |s| >= 14 && s[12] == 0x08 && s[13] == 0xAB
  }

  /** The command registers that a request asks for. */
  function Commands(s: seq<Byte>): (r: seq<Word>)
    requires |s| >= 50
    ensures |r| == COMMAND_REGS
  {
    seq(COMMAND_REGS, k requires 0 <= k < COMMAND_REGS => WordAt(s, 14 + 4 * k))
  }

  lemma CommandsPrefix(s: seq<Byte>, t: seq<Byte>)
    requires 50 <= |s| <= |t| && t[..|s|] == s
    ensures Commands(t) == Commands(s) && (Requested(t) <==> Requested(s))
  {
    forall k | 0 <= k < |s|
      ensures t[k] == s[k]
    {
      assert t[..|s|][k] == s[k];
    }
  }

  /** What the board answers: the two input bytes, the pendant, and seven counters. */
  ghost predicate Reports(reply: seq<Byte>, inputs: seq<Word>, pendantLow: Byte, pendantHigh: Byte)
    requires |inputs| == INPUT_REGS
  {
    && |reply| == REPLY_LEN && Answered(reply)
    && WordAt(reply, 14) == inputs[0] % 0x1_0000 + 0x1_0000 * (pendantLow as nat + 0x100 * pendantHigh as nat)
    && forall k :: 1 <= k < INPUT_REGS ==> WordAt(reply, 14 + 4 * k) == inputs[k]
  }

  /** Clear bit i, then or in the new value. */
  function SetBit(x: nat, i: nat, v: bool): nat
  {
    if i == 0 then x - x % 2 + (if v then 1 else 0) else x % 2 + 2 * SetBit(x / 2, i - 1, v)
  }

  lemma {:induction false} SetBitBits(x: nat, i: nat, v: bool, j: nat)
    ensures Bit(SetBit(x, i, v), j) == if j == i then v else Bit(x, j)
    decreases i
  {
    var y := SetBit(x, i, v);
    if i > 0 {
      assert y / 2 == SetBit(x / 2, i - 1, v) && y % 2 == x % 2;
      if j > 0 {
        SetBitBits(x / 2, i - 1, v, j - 1);
      }
    }
  }

  lemma {:induction false} SetBitBound(x: nat, i: nat, v: bool)
    requires i < 8 && x < 256
    ensures SetBit(x, i, v) < 256
  {
    SetBitBelow(x, i, v, 7);
  }

  lemma {:induction false} SetBitBelow(x: nat, i: nat, v: bool, n: nat)
    requires i <= n && x < Shifted(true, n + 1)
    ensures SetBit(x, i, v) < Shifted(true, n + 1)
    decreases i
  {
    hide SetBit, Shifted;
    Doubled(n);
    HalfBelow(x, Shifted(true, n));
    if i == 0 {
      SetLowest(x, v);
    } else {
      SetBitBelow(x / 2, i - 1, v, n - 1);
      SetBitHalf(x, i, v);
    }
  }

  lemma Doubled(n: nat)
    ensures Shifted(true, n + 1) == 2 * Shifted(true, n)
  {
  }

  lemma HalfBelow(x: nat, p: nat)
    requires x < 2 * p
    ensures 0 <= x / 2 < p && 0 <= x % 2 < 2
  {
  }

  lemma SetLowest(x: nat, v: bool)
    ensures SetBit(x, 0, v) == 2 * (x / 2) + (if v then 1 else 0)
  {
  }

  lemma SetBitHalf(x: nat, i: nat, v: bool)
    requires i > 0
    ensures SetBit(x, i, v) == x % 2 + 2 * SetBit(x / 2, i - 1, v)
  {
  }

  /** The sixteen pendant inputs. */
  function PendantBit(low: Byte, high: Byte, b: nat): bool
    requires b < 16
  {
    if b < 8 then Bit(low as nat, b) else Bit(high as nat, b - 8)
  }

  /** An access to a register of the CNC module, with the value that went over the bus. */
  datatype Access = Read(register: nat, value: Word) | Write(register: nat, value: Word)

  /** The input registers read one after the other. */
  function Reads(values: seq<Word>): (a: seq<Access>)
    ensures |a| == |values|
  {
    seq(|values|, k requires 0 <= k < |values| => Read(COMMAND_REGS + k, values[k]))
  }

  /** The command registers written one after the other. */
  function Writes(values: seq<Word>): (a: seq<Access>)
    ensures |a| == |values|
  {
    seq(|values|, k requires 0 <= k < |values| => Write(k, values[k]))
  }

  class Board {
    const nic: Dm9000
    const rxt: array<Byte>
    const txt: array<Byte>
    /** The CNC module: registers 0 to 8 are written, 9 to 16 are read. */
    var regs: seq<Word>
    var inputs: seq<Word>
    var pendantLow: Byte
    var pendantHigh: Byte
    /** History: all accesses to the module. */
    ghost var bus: seq<Access>
    var packets: nat
    var garbage: nat

    ghost predicate Valid()
      reads this, txt
    {
      && rxt.Length == FRAME_MAX && txt.Length == REPLY_LEN && rxt != txt
      && |regs| == COMMAND_REGS && |inputs| == INPUT_REGS
      && txt[12] == 0x08 && txt[13] == 0xAB
    }

    constructor (nic: Dm9000)
      ensures Valid() && this.nic == nic && fresh(rxt) && fresh(txt) && !Requested(rxt[..]) && regs[5] == 0
    {
      this.nic := nic;
      rxt := new Byte[FRAME_MAX](_ => 0);
      txt := new Byte[REPLY_LEN](i => if i == 12 then 0x08 else if i == 13 then 0xAB else 0);
      regs, inputs := [0, 0, 0, 0, 0, 0, 0, 0, 0], [0, 0, 0, 0, 0, 0, 0, 0];
      pendantLow, pendantHigh, packets, garbage, bus := 0, 0, 0, 0, [];
    }

    /** The machine runs on: any input may change before it is read. */
    method ReadRegister(k: nat) returns (w: Word)
      requires Valid() && COMMAND_REGS <= k < COMMAND_REGS + INPUT_REGS
      modifies `inputs, `bus
      ensures Valid() && w == inputs[k - COMMAND_REGS] && bus == old(bus) + [Read(k, w)]
    {
      var moved: seq<Word> := *;
      if |moved| == INPUT_REGS {
        inputs := moved;
      }
      w := inputs[k - COMMAND_REGS];
      bus := bus + [Read(k, w)];
    }

    method WriteRegister(k: nat, w: Word)
      requires Valid() && k < COMMAND_REGS
      modifies `regs, `bus
      ensures Valid() && regs == old(regs)[k := w] && bus == old(bus) + [Write(k, w)]
    {
      regs := regs[k := w];
      bus := bus + [Write(k, w)];
    }

    /** The pendant part of the main loop: a key event sets one of sixteen bits. The key register is read twice, for the
        button and for its state; an event that comes in between gives its state to the button of the one before. */
    method PendantKey(keys: Byte, later: Byte)
      requires Valid()
      modifies `pendantLow, `pendantHigh
      ensures Valid()
      ensures forall b :: 0 <= b < 16 ==>
                PendantBit(pendantLow, pendantHigh, b) ==
                if b == keys as nat / 16 then later % 2 == 1 else PendantBit(old(pendantLow), old(pendantHigh), b)
    {
      var button := keys as nat / 16;
      var v := later % 2 == 1;
      var low, high := pendantLow, pendantHigh;
      if button <= 7 {
        SetBitBound(low as nat, button, v);
        pendantLow := SetBit(low as nat, button, v) as Byte;
      } else {
        SetBitBound(high as nat, button - 8, v);
        pendantHigh := SetBit(high as nat, button - 8, v) as Byte;
      }
      forall b | 0 <= b < 16
        ensures PendantBit(pendantLow, pendantHigh, b) == if b == button then v else PendantBit(low, high, b)
      {
        if button <= 7 && b < 8 {
          SetBitBits(low as nat, button, v, b);
        } else if button > 7 && b >= 8 {
          SetBitBits(high as nat, button - 8, v, b - 8);
        }
      }
    }

    /** Fill the answer from the input registers, which go on changing, and the pendant: the answer carries the values
        that were read. */
    method FillReply() returns (ghost values: seq<Word>)
      requires Valid()
      modifies txt, `inputs, `bus
      ensures Valid() && |values| == INPUT_REGS && bus == old(bus) + Reads(values)
      ensures Reports(txt[..], values, pendantLow, pendantHigh)
    {
      var temp := ReadRegister(9);
      values := [temp];
      txt[14] := ByteOf(temp);
      txt[15] := ByteOf(temp / 0x100);
      txt[16] := pendantLow;
      txt[17] := pendantHigh;
      LowHalf(temp);
      var k := 1;
      while k < INPUT_REGS
        invariant 1 <= k <= INPUT_REGS && Valid() && |values| == k && bus == old(bus) + Reads(values)
        invariant WordAt(txt[..], 14) == values[0] % 0x1_0000 + 0x1_0000 * (pendantLow as nat + 0x100 * pendantHigh as nat)
        invariant forall j :: 1 <= j < k ==> WordAt(txt[..], 14 + 4 * j) == values[j]
      {
        temp := ReadRegister(9 + k);
        PutWord(txt, 14 + 4 * k, temp);
        ReadsNext(values, temp);
        values := values + [temp];
        k := k + 1;
      }
    }

    /** Write the nine command registers from the receive buffer. */
    method Apply()
      requires Valid()
      modifies `regs, `bus
      ensures Valid() && regs == Commands(rxt[..]) && bus == old(bus) + Writes(regs)
    {
      var k := 0;
      ghost var written: seq<Word> := [];
      while k < COMMAND_REGS
        invariant 0 <= k <= COMMAND_REGS && Valid() && written == regs[..k] && bus == old(bus) + Writes(written)
        invariant forall j :: 0 <= j < k ==> regs[j] == WordAt(rxt[..], 14 + 4 * j)
      {
        ghost var w: Word := WordAt(rxt[..], 14 + 4 * k);
        WritesNext(written, w);
        written := written + [w];
        WriteRegister(k, WordAt(rxt[..], 14 + 4 * k));
        k := k + 1;
      }
      assert regs[..k] == regs;
    }

    /** ethernet_interrupts. The handler goes by what is in the buffer, whether or not a frame was received. */
    method EthernetInterrupt(received: bool, ghost frames: seq<Frame>) returns (ghost values: seq<Word>)
      requires Valid() && Readable(frames)
      modifies this, rxt, txt, nic
      ensures Valid()
      ensures !received ==> nic.rx == old(nic.rx) && nic.wire == old(nic.wire) && nic.irqOn == old(nic.irqOn) &&
                            regs == old(regs) && bus == old(bus) && rxt[..] == old(rxt[..])
      ensures received ==> nic.irqOn && |nic.wire| == |old(nic.wire)| + 1 && nic.wire[..|old(nic.wire)|] == old(nic.wire)
      ensures received && old(nic.rx) != [] && old(nic.rx[0]) % 4 == 1 ==>
                nic.rx == Memory(frames[1..]) &&
                (if frames[0].Good() then Prefixed(frames[0].bytes, rxt[..]) else rxt[..] == old(rxt[..]))
      ensures received && (old(nic.rx) == [] || old(nic.rx[0]) % 4 != 1) ==> rxt[..] == old(rxt[..])
      ensures received && (old(nic.rx) == [] || old(nic.rx[0]) % 4 == 0) ==> nic.rx == old(nic.rx)
      ensures received && old(nic.rx) != [] && old(nic.rx[0]) % 4 >= 2 ==> nic.rx == []
      ensures received && Requested(rxt[..]) ==>
                && |values| == INPUT_REGS && Reports(nic.wire[|old(nic.wire)|], values, pendantLow, pendantHigh)
                && regs == Commands(rxt[..]) && bus == old(bus) + Reads(values) + Writes(regs)
      ensures received && !Requested(rxt[..]) ==>
                |nic.wire[|old(nic.wire)|]| == 14 && !Answered(nic.wire[|old(nic.wire)|]) && regs == old(regs) && bus == old(bus)
      ensures pendantLow == old(pendantLow) && pendantHigh == old(pendantHigh)
      ensures received ==>
                var answer := nic.wire[|old(nic.wire)|];
                && |answer| >= 14 && answer[12] == 0x08
                && answer[13] == (if rxt[12] == 0x80 && rxt[13] == 0xAB then 0xAB else 0xAA)
      ensures packets == old(packets) + (if received && Requested(rxt[..]) then 1 else 0)
      ensures garbage == old(garbage) + (if received && !Requested(rxt[..]) then 1 else 0)
    {
      values := [];
      if received {
        var rc, length := nic.ReceivePacket(rxt, frames);
        if rxt[12] != 0x80 || rxt[13] != 0xAB {
          garbage := garbage + 1;
          txt[13] := 0xAA;
          rc := nic.TransmitPacket(txt, 14);
          txt[13] := 0xAB;
          return;
        }
        values := FillReply();
        rc := nic.TransmitPacket(txt, REPLY_LEN);
        assert txt[..REPLY_LEN] == txt[..];
        packets := packets + 1;
        Apply();
      }
    }

    /** Receive memory is in order, and a good frame fits the buffer. */
    ghost predicate Readable(frames: seq<Frame>)
      reads nic
    {
      nic.rx != [] && nic.rx[0] % 4 == 1 ==>
        && frames != [] && AllFramed(frames) && nic.rx == Memory(frames)
        && (frames[0].Good() ==> |frames[0].bytes| <= FRAME_MAX)
    }
  }

  lemma ReadsNext(values: seq<Word>, w: Word)
    ensures Reads(values + [w]) == Reads(values) + [Read(COMMAND_REGS + |values|, w)]
  {
  }

  lemma WritesNext(values: seq<Word>, w: Word)
    ensures Writes(values + [w]) == Writes(values) + [Write(|values|, w)]
  {
  }

  predicate Prefixed(s: seq<Byte>, t: seq<Byte>)
  {
    |s| <= |t| && t[..|s|] == s
  }

  lemma LowHalf(w: Word)
    ensures ByteOf(w) as nat + 0x100 * (ByteOf(w / 0x100) as nat) == w % 0x1_0000
  {
    BytesOfWord(w);
    LowPart(ByteOf(w) as nat + 0x100 * (ByteOf(w / 0x100) as nat),
            ByteOf(w / 0x1_0000) as nat + 0x100 * (ByteOf(w / 0x100_0000) as nat));
  }

  lemma LowPart(low: nat, high: nat)
    requires low < 0x1_0000
    ensures (low + 0x1_0000 * high) % 0x1_0000 == low
  {
  }

  /** The newest good frame of a run, and the newest one that was a request. */
  function LastGood(done: seq<Frame>): Option<seq<Byte>>
  {
    if done == [] then None
    else if done[|done| - 1].Good() then Some(done[|done| - 1].bytes)
    else LastGood(done[..|done| - 1])
  }

  function LastRequest(done: seq<Frame>): Option<seq<Byte>>
  {
    if done == [] then None
    else if done[|done| - 1].Good() && Requested(done[|done| - 1].bytes) then Some(done[|done| - 1].bytes)
    else LastRequest(done[..|done| - 1])
  }

  /** The frames the protocol is about: good ones carry a whole request and fit the buffer. */
  predicate Usable(frames: seq<Frame>)
  {
    AllFramed(frames) && forall k :: 0 <= k < |frames| && frames[k].Good() ==> 50 <= |frames[k].bytes| <= FRAME_MAX
  }

  lemma {:induction false} LastAgree(done: seq<Frame>)
    requires Usable(done)
    ensures LastGood(done).Some? ==> 50 <= |LastGood(done).value| <= FRAME_MAX
    ensures LastRequest(done).Some? ==> 50 <= |LastRequest(done).value| <= FRAME_MAX
    ensures LastGood(done).Some? && Requested(LastGood(done).value) ==> LastRequest(done) == LastGood(done)
  {
    if done != [] {
      LastAgree(done[..|done| - 1]);
    }
  }

  lemma LastSnoc(done: seq<Frame>, f: Frame)
    ensures LastGood(done + [f]) == if f.Good() then Some(f.bytes) else LastGood(done)
    ensures LastRequest(done + [f]) == if f.Good() && Requested(f.bytes) then Some(f.bytes) else LastRequest(done)
  {
    assert (done + [f])[..|done|] == done;
  }

  /** The board after the frames `done`: the buffer holds the newest good frame, and the command registers are
      those of the newest request. */
  ghost predicate UpToDate(board: Board, done: seq<Frame>)
    requires Usable(done)
    reads board, board.rxt
  {
    Current(done, board.rxt[..], board.regs)
  }

  ghost predicate Current(done: seq<Frame>, buffer: seq<Byte>, regs: seq<Word>)
    requires Usable(done)
  {
    && (match LastGood(done)
        case None => !Requested(buffer)
        case Some(s) => Prefixed(s, buffer))
    && (match LastRequest(done)
        case None => true
        case Some(s) => |s| >= 50 && regs == Commands(s))
  }

  /** A reception that left the buffer alone, or a new good frame in it, and the registers written or not by what is in
      the buffer. */
  lemma StaysCurrent(done: seq<Frame>, done': seq<Frame>, buffer: seq<Byte>, buffer': seq<Byte>, regs: seq<Word>, regs': seq<Word>)
    requires Usable(done) && Usable(done') && Current(done, buffer, regs) && |buffer'| == FRAME_MAX
    requires done' == done || (|done'| == |done| + 1 && done'[..|done|] == done)
    requires if done' != done && done'[|done|].Good() then Prefixed(done'[|done|].bytes, buffer') else buffer' == buffer
    requires regs' == if Requested(buffer') then Commands(buffer') else regs
    ensures Current(done', buffer', regs')
  {
    hide Commands;
    LastAgree(done);
    LastAgree(done');
    if done' != done {
      assert done' == done + [done'[|done|]];
      LastSnoc(done, done'[|done|]);
    }
    if LastGood(done').Some? {
      CommandsPrefix(LastGood(done').value, buffer');
    }
  }

  /** One interrupt keeps the board up to date, whatever became of the frame. */
  method Visit(board: Board, ghost done: seq<Frame>, ghost frames: seq<Frame>) returns (ghost done': seq<Frame>, ghost frames': seq<Frame>)
    requires board.Valid() && Usable(done) && Usable(frames) && board.nic.rx == Memory(frames) && UpToDate(board, done)
    modifies board, board.rxt, board.txt, board.nic
    ensures board.Valid() && Usable(done') && Usable(frames') && board.nic.rx == Memory(frames') && UpToDate(board, done')
    ensures done' + frames' == done + frames && (frames != [] ==> done' == done + [frames[0]])
    ensures board.nic.irqOn
  {
    hide Commands, FrameWords, Reports, Current, Requested, Prefixed, Usable, Memory, AllFramed;
    done', frames' := done, frames;
    HeadReady(frames);
    ghost var values := board.EthernetInterrupt(true, frames);
    if frames != [] {
      done', frames' := done + [frames[0]], frames[1..];
      UsableNext(done, frames);
    }
    StaysCurrent(done, done', old(board.rxt[..]), board.rxt[..], old(board.regs), board.regs);
  }

  /** An interrupt that finds the chip out of order. */
  method Reset(board: Board, ghost done: seq<Frame>)
    requires board.Valid() && Usable(done) && UpToDate(board, done)
    requires board.nic.rx != [] && board.nic.rx[0] % 4 >= 2
    modifies board, board.rxt, board.txt, board.nic
    ensures board.Valid() && UpToDate(board, done) && board.nic.rx == Memory([]) && board.nic.irqOn
  {
    hide Commands, FrameWords, Reports, Current, Requested, Prefixed;
    ghost var values := board.EthernetInterrupt(true, []);
    StaysCurrent(done, done, old(board.rxt[..]), board.rxt[..], old(board.regs), board.regs);
  }

  lemma UsableNext(done: seq<Frame>, frames: seq<Frame>)
    requires Usable(done) && Usable(frames) && frames != []
    ensures Usable(done + [frames[0]]) && Usable(frames[1..]) && done + frames == done + [frames[0]] + frames[1..]
  {
  }

  lemma HeadReady(frames: seq<Frame>)
    requires Usable(frames)
    ensures AllFramed(frames) && (frames != [] && frames[0].Good() ==> |frames[0].bytes| <= FRAME_MAX)
    ensures frames == [] <==> Memory(frames) == []
    ensures frames != [] ==> Memory(frames)[0] % 4 == 1
  {
  }

  /** More frames arrive behind those in receive memory. */
  lemma {:induction false} MemoryAppend(a: seq<Frame>, b: seq<Frame>)
    requires AllFramed(a) && AllFramed(b)
    ensures AllFramed(a + b) && Memory(a + b) == Memory(a) + Memory(b)
  {
    hide FrameWords;
    if a == [] {
      assert a + b == b;
    } else {
      MemoryAppend(a[1..], b);
      var ab := a + b;
      assert ab[1..] == a[1..] + b && ab[0] == a[0];
      assert Memory(ab) == FrameWords(ab[0]) + Memory(ab[1..]);
      assert Memory(a) == FrameWords(a[0]) + Memory(a[1..]);
    }
  }

  /** Any run: frames arrive, interrupts come, the pendant is used. The registers are always those of the newest
      request among the frames that were processed, through garbage and failed receptions. */
  method Run(board: Board, steps: nat) returns (ghost done: seq<Frame>, ghost frames: seq<Frame>)
    requires board.Valid() && board.nic.rx == [] && !Requested(board.rxt[..])
    modifies board, board.rxt, board.txt, board.nic
    ensures board.Valid() && Usable(done) && UpToDate(board, done)
    ensures LastRequest(done).Some? ==> |LastRequest(done).value| >= 50 && board.regs == Commands(LastRequest(done).value)
  {
    hide Commands, FrameWords;
    done, frames := [], [];
    for i := 0 to steps
      invariant board.Valid() && Usable(done) && Usable(frames) && board.nic.rx == Memory(frames) && UpToDate(board, done)
    {
      var choice: int := *;
      if choice == 0 {
        var f: Frame := *;
        if f.Framed() && (f.Good() ==> 50 <= |f.bytes| <= FRAME_MAX) {
          MemoryAppend(frames, [f]);
          assert Memory([f]) == FrameWords(f) + Memory([]);
          board.nic.rx := board.nic.rx + FrameWords(f);
          frames := frames + [f];
        }
      } else if choice == 1 {
        var keys: Byte := *;
        var later: Byte := *;
        board.PendantKey(keys, later);
      } else if choice == 2 {
        // the chip gets out of order; the handler resets it, and what it held is lost
        var w: Half := *;
        if w % 4 >= 2 {
          board.nic.rx := [w];
          Reset(board, done);
          frames := [];
        }
      } else {
        done, frames := Visit(board, done, frames);
      }
    }
  }

  /** The offset-binary counter as a signed 32-bit number: the C subtraction wraps and is then stored. */
  function Counted(steps: Word): (loc: int)
    ensures loc == steps - 0x8000_0000
  {
    var u := (steps - 0x8000_0000) % U32;
    if u < 0x8000_0000 then u else u - U32
  }

  /** Everything the host sends in a cycle. */
  datatype Command = Command(periods: seq<Word>, dirs: seq<bool>, enables: seq<bool>, pwmCounter: Word, pwmCapture: Word,
                             gpioOut: seq<bool>)
  {
    predicate Valid() {
      |periods| == 5 && |dirs| == 5 && |enables| == 5 && |gpioOut| == 32
    }
  }

  /** The register contents that a command means. */
  ghost predicate Means(c: Command, regs: seq<Word>)
    requires c.Valid()
  {
    && |regs| == COMMAND_REGS
    && (forall k :: 0 <= k < 5 ==> regs[k] == c.periods[k])
    && regs[5] == BitsValue(c.dirs + c.enables)
    && regs[6] == c.pwmCounter && regs[7] == c.pwmCapture
    && regs[8] == BitsValue(c.gpioOut)
  }

  class Host {
    const buf: array<Byte>
    const rxBuf: array<Byte>
    var pins: seq<bool>
    var counters: seq<int>
    var errors: nat

    ghost predicate Valid()
      reads this, buf
    {
      && buf.Length == FRAME_MAX && rxBuf.Length == FRAME_MAX && buf != rxBuf
      && Requested(buf[..]) && buf[36] == 0 && buf[37] == 0
      && |pins| == 32 && |counters| == 5
    }

    constructor ()
      ensures Valid() && fresh(buf) && fresh(rxBuf) && errors == 0
    {
      buf := new Byte[FRAME_MAX](i => if i == 12 then 0x80 else if i == 13 then 0xAB else 0);
      rxBuf := new Byte[FRAME_MAX](_ => 0);
      pins, counters, errors := seq(32, _ => false), [0, 0, 0, 0, 0], 0;
    }

    /** The sending half of do_work. */
    method Send(c: Command) returns (frame: seq<Byte>)
      requires Valid() && c.Valid()
      modifies buf
      ensures Valid() && |frame| == SEND_LEN && Requested(frame) && Means(c, Commands(frame))
    {
      var k := 0;
      while k < 5
        invariant 0 <= k <= 5 && Valid()
        invariant forall j :: 0 <= j < k ==> WordAt(buf[..], 14 + 4 * j) == c.periods[j]
      {
        PutWord(buf, 14 + 4 * k, c.periods[k]);
        k := k + 1;
      }
      PutFlags(c);
      PutWord(buf, 38, c.pwmCounter);
      PutWord(buf, 42, c.pwmCapture);
      var opins := Pack(c.gpioOut);
      PutWord(buf, 46, opins);
      frame := buf[..SEND_LEN];
      CommandsPrefix(frame, buf[..]);
    }

    /** The direction and enable bits. */
    method PutFlags(c: Command)
      requires Valid() && c.Valid()
      modifies buf
      ensures Valid() && WordAt(buf[..], 34) == BitsValue(c.dirs + c.enables)
      ensures forall k :: 0 <= k < FRAME_MAX && k != 34 && k != 35 ==> buf[k] == old(buf[k])
    {
      var low := [c.dirs[0], c.dirs[1], c.dirs[2], c.dirs[3], c.dirs[4], c.enables[0], c.enables[1], c.enables[2]];
      var high := [c.enables[3], c.enables[4]];
      BitsBound(low);
      BitsBound(high);
      buf[34] := BitsValue(low) as Byte;
      buf[35] := BitsValue(high) as Byte;
      assert c.dirs + c.enables == low + high;
      BitsJoin(low, high);
    }

    /** The loop over the output pins. */
    static method Pack(bits: seq<bool>) returns (opins: Word)
      requires |bits| == 32
      ensures opins == BitsValue(bits)
    {
      var v := 0;
      for i := 0 to 32
        invariant v == BitsValue(bits[..i])
      {
        BitsSnoc(bits[..i], bits[i]);
        assert bits[..i + 1] == bits[..i] + [bits[i]];
        v := v + Shifted(bits[i], i);
      }
      assert bits[..32] == bits;
      BitsBound(bits);
      opins := v;
    }

    /** The receiving half of do_work: the buffer is cleared, then filled with what came. */
    method Receive(received: seq<Byte>)
      requires Valid() && |received| <= FRAME_MAX
      modifies this, rxBuf
      ensures Valid()
      ensures received == [] ==> pins == old(pins) && counters == old(counters) && errors == old(errors)
      ensures received != [] && !Answered(Padded(received)) ==>
                pins == old(pins) && counters == old(counters) && errors == old(errors) + 1
      ensures received != [] && Answered(Padded(received)) ==>
                errors == old(errors) && Shows(pins, counters, Padded(received))
    {
      var i := 0;
      while i < FRAME_MAX
        modifies rxBuf
        invariant 0 <= i <= FRAME_MAX && rxBuf[..i] == Padded(received)[..i]
      {
        rxBuf[i] := if i < |received| then received[i] else 0;
        i := i + 1;
      }
      assert rxBuf[..] == Padded(received);
      if received == [] {
        return;
      }
      if rxBuf[12] != 0x08 || rxBuf[13] != 0xAB {
        errors := errors + 1;
        return;
      }
      var ipins := WordAt(rxBuf[..], 14);
      i := 0;
      while i < 32
        modifies `pins
        invariant 0 <= i <= 32 && |pins| == 32 && rxBuf[..] == Padded(received)
        invariant forall j :: 0 <= j < i ==> pins[j] == Bit(ipins, j)
      {
        pins := pins[i := Bit(ipins, i)];
        i := i + 1;
      }
      i := 0;
      while i < 5
        modifies `counters
        invariant 0 <= i <= 5 && |counters| == 5 && rxBuf[..] == Padded(received)
        invariant forall j :: 0 <= j < i ==> counters[j] == WordAt(rxBuf[..], 18 + 4 * j) - 0x8000_0000
      {
        counters := counters[i := Counted(WordAt(rxBuf[..], 18 + 4 * i))];
        i := i + 1;
      }
    }
  }

  /** A received packet in the cleared buffer. */
  function Padded(s: seq<Byte>): (t: seq<Byte>)
    requires |s| <= FRAME_MAX
    ensures |t| == FRAME_MAX && Prefixed(s, t)
  {
    s + seq(FRAME_MAX - |s|, _ => 0)
  }

  /** What the host shows is what an answer says. */
  ghost predicate Shows(pins: seq<bool>, counters: seq<int>, answer: seq<Byte>)
    requires |answer| == FRAME_MAX
  {
    && |pins| == 32 && (forall i :: 0 <= i < 32 ==> pins[i] == Bit(WordAt(answer, 14), i))
    && |counters| == 5 && (forall k :: 0 <= k < 5 ==> counters[k] == WordAt(answer, 18 + 4 * k) - 0x8000_0000)
  }

  /** Where the registers are in a frame: the lowest byte of register k is byte 14 + 4 * k. */
  lemma RegisterBytes(frame: seq<Byte>, k: nat)
    requires |frame| >= 50 && k < 9
    ensures var w := Commands(frame)[k];
            && frame[14 + 4 * k] as nat == w % 0x100 && frame[15 + 4 * k] as nat == w / 0x100 % 0x100
            && frame[16 + 4 * k] as nat == w / 0x1_0000 % 0x100 && frame[17 + 4 * k] as nat == w / 0x100_0000
  {
    hide WordAt;
    assert Commands(frame)[k] == WordAt(frame, 14 + 4 * k);
    WordBytes(frame, 14 + 4 * k);
  }

  /** What the registers of a command are, in figures. */
  lemma InFigures(c: Command, regs: seq<Word>)
    requires c.Valid() && Means(c, regs)
    ensures |regs| == 9 && forall k :: 0 <= k < 5 ==> regs[k] == c.periods[k]
    ensures regs[5] == One(c.dirs[0]) + 2 * One(c.dirs[1]) + 4 * One(c.dirs[2]) + 8 * One(c.dirs[3]) +
                       16 * One(c.dirs[4]) + 32 * One(c.enables[0]) + 64 * One(c.enables[1]) +
                       128 * One(c.enables[2]) + 256 * One(c.enables[3]) + 512 * One(c.enables[4])
    ensures regs[6] == c.pwmCounter && regs[7] == c.pwmCapture
    ensures forall k :: 0 <= k < 32 ==> Bit(regs[8], k) == c.gpioOut[k]
  {
    hide BitsValue, Bit;
    var flags := c.dirs + c.enables;
    FirstBits(flags);
    FirstBits(flags[5..]);
    assert flags[5..][5..] == [];
    NoBits();
    forall k | 0 <= k < 32
      ensures Bit(regs[8], k) == c.gpioOut[k]
    {
      PinsArrive(c, regs, k);
    }
  }

  function One(b: bool): nat {
    if b then 1 else 0
  }

  lemma NoBits()
    ensures BitsValue([]) == 0
  {
  }

  lemma FirstBits(s: seq<bool>)
    requires |s| >= 5
    ensures BitsValue(s) == One(s[0]) + 2 * One(s[1]) + 4 * One(s[2]) + 8 * One(s[3]) + 16 * One(s[4]) + 32 * BitsValue(s[5..])
  {
    assert BitsValue(s) == One(s[0]) + 2 * BitsValue(s[1..]);
    assert BitsValue(s[1..]) == One(s[1]) + 2 * BitsValue(s[2..]) by { assert s[1..][1..] == s[2..]; }
    assert BitsValue(s[2..]) == One(s[2]) + 2 * BitsValue(s[3..]) by { assert s[2..][1..] == s[3..]; }
    assert BitsValue(s[3..]) == One(s[3]) + 2 * BitsValue(s[4..]) by { assert s[3..][1..] == s[4..]; }
    assert BitsValue(s[4..]) == One(s[4]) + 2 * BitsValue(s[5..]) by { assert s[4..][1..] == s[5..]; }
  }

  /** A whole cycle over a link that delivers: the frame arrives with a checksum, the answer padded. The board ends
      up with the registers commanded; the host shows the inputs as the module gave them before the first command
      register was written, each counter without its offset. */
  method Cycle(host: Host, board: Board, c: Command, crc: seq<Byte>, padding: seq<Byte>) returns (ghost values: seq<Word>)
    requires host.Valid() && board.Valid() && c.Valid() && board.nic.rx == []
    requires |crc| <= FRAME_MAX - SEND_LEN && |padding| <= FRAME_MAX - REPLY_LEN
    requires {host, host.buf, host.rxBuf} !! {board, board.rxt, board.txt, board.nic}
    modifies host, host.buf, host.rxBuf, board, board.rxt, board.txt, board.nic
    ensures host.Valid() && board.Valid() && Means(c, board.regs) && board.nic.rx == [] && board.nic.irqOn
    ensures forall k :: 0 <= k < 5 ==> board.regs[k] == c.periods[k]
    ensures forall k :: 0 <= k < 5 ==> Bit(board.regs[5], k) == c.dirs[k] && Bit(board.regs[5], 5 + k) == c.enables[k]
    ensures board.regs[6] == c.pwmCounter && board.regs[7] == c.pwmCapture
    ensures forall k :: 0 <= k < 32 ==> Bit(board.regs[8], k) == c.gpioOut[k]
    ensures |values| == INPUT_REGS && board.bus == old(board.bus) + Reads(values) + Writes(board.regs)
    ensures forall k :: 0 <= k < 5 ==> host.counters[k] == Counted(values[k + 1])
    ensures forall i :: 0 <= i < 32 ==>
              host.pins[i] == Bit(values[0] % 0x1_0000 +
                                  0x1_0000 * (old(board.pendantLow) as nat + 0x100 * old(board.pendantHigh) as nat), i)
  {
    hide Reports, Shows, Means, Commands, Padded, Answered, FrameWords, Memory, Bit, Reads, Writes;
    var sent := host.Send(c);
    var f := Frame(1, sent + crc);
    OneFrame(f);
    board.nic.rx := FrameWords(f);
    ghost var wire := board.nic.wire;
    values := board.EthernetInterrupt(true, [f]);
    CommandsPrefix(sent, f.bytes);
    CommandsPrefix(f.bytes, board.rxt[..]);
    var reply := board.nic.wire[|board.nic.wire| - 1];
    AnswerKept(reply, padding, values, old(board.pendantLow), old(board.pendantHigh));
    host.Receive(reply + padding);
    AnswerShown(reply, Padded(reply + padding), values, old(board.pendantLow), old(board.pendantHigh), host.pins,
                host.counters);
    BitByBit(c, board.regs);
  }

  lemma BitByBit(c: Command, regs: seq<Word>)
    requires c.Valid() && Means(c, regs)
    ensures |regs| == 9 && forall k :: 0 <= k < 5 ==> regs[k] == c.periods[k]
    ensures regs[6] == c.pwmCounter && regs[7] == c.pwmCapture
    ensures forall k :: 0 <= k < 5 ==> Bit(regs[5], k) == c.dirs[k] && Bit(regs[5], 5 + k) == c.enables[k]
    ensures forall k :: 0 <= k < 32 ==> Bit(regs[8], k) == c.gpioOut[k]
  {
    InFigures(c, regs);
    hide Bit;
    forall k | 0 <= k < 5
      ensures Bit(regs[5], k) == c.dirs[k] && Bit(regs[5], 5 + k) == c.enables[k]
    {
      FlagsArrive(c, regs, k);
    }
  }

  lemma OneFrame(f: Frame)
    requires f.Framed()
    ensures Memory([f]) == FrameWords(f) && FrameWords(f) != [] && FrameWords(f)[0] == f.status && Memory([f][1..]) == []
  {
    assert [f][1..] == [];
    assert Memory([f]) == FrameWords(f) + Memory([]);
  }

  /** What the host shows of an answer is what the board reported. */
  lemma AnswerShown(reply: seq<Byte>, answer: seq<Byte>, inputs: seq<Word>, low: Byte, high: Byte, pins: seq<bool>,
                    counters: seq<int>)
    requires |inputs| == INPUT_REGS && Reports(reply, inputs, low, high)
    requires |answer| == FRAME_MAX && Prefixed(reply, answer) && Shows(pins, counters, answer)
    ensures forall k :: 0 <= k < 5 ==> counters[k] == Counted(inputs[k + 1])
    ensures forall i :: 0 <= i < 32 ==>
              pins[i] == Bit(inputs[0] % 0x1_0000 + 0x1_0000 * (low as nat + 0x100 * high as nat), i)
  {
    hide WordAt, Bit;
    SameWord(reply, answer, 14);
    forall k | 0 <= k < INPUT_REGS
      ensures WordAt(answer, 14 + 4 * k) == WordAt(reply, 14 + 4 * k)
    {
      SameWord(reply, answer, 14 + 4 * k);
    }
    forall k | 0 <= k < 5
      ensures counters[k] == Counted(inputs[k + 1])
    {
      assert 18 + 4 * k == 14 + 4 * (k + 1);
    }
  }

  lemma AnswerKept(reply: seq<Byte>, padding: seq<Byte>, inputs: seq<Word>, low: Byte, high: Byte)
    requires |inputs| == INPUT_REGS && Reports(reply, inputs, low, high) && |padding| <= FRAME_MAX - REPLY_LEN
    ensures var answer := Padded(reply + padding);
            reply + padding != [] && Prefixed(reply, answer) && Answered(answer)
  {
  }

  lemma SameWord(s: seq<Byte>, t: seq<Byte>, at: nat)
    requires at + 4 <= |s| <= |t| && t[..|s|] == s
    ensures WordAt(t, at) == WordAt(s, at)
  {
    assert t[at] == t[..|s|][at] && t[at + 1] == t[..|s|][at + 1] && t[at + 2] == t[..|s|][at + 2] && t[at + 3] == t[..|s|][at + 3];
  }

  /** The bits of register 5 are the directions, then the enables. */
  lemma FlagsArrive(c: Command, regs: seq<Word>, k: nat)
    requires c.Valid() && Means(c, regs) && k < 5
    ensures Bit(regs[5], k) == c.dirs[k] && Bit(regs[5], 5 + k) == c.enables[k]
  {
    BitsFound(c.dirs + c.enables, k);
    BitsFound(c.dirs + c.enables, 5 + k);
  }

  /** The bits of register 8 are the output pins. */
  lemma PinsArrive(c: Command, regs: seq<Word>, k: nat)
    requires c.Valid() && Means(c, regs) && k < 32
    ensures Bit(regs[8], k) == c.gpioOut[k]
  {
    BitsFound(c.gpioOut, k);
  }

  /** An input pin is a bit of the input register or a key of the pendant. */
  lemma {:induction false} InputBits(x: nat, low: Byte, high: Byte, i: nat)
    requires i < 32
    ensures Bit(x % 0x1_0000 + 0x1_0000 * (low as nat + 0x100 * high as nat), i) ==
            if i < 16 then Bit(x % 0x1_0000, i) else PendantBit(low, high, i - 16)
  {
    var hi := low as nat + 0x100 * high as nat;
    BitsAbove(x % 0x1_0000, hi, 16, i);
    if i >= 16 {
      BitsAbove(low as nat, high as nat, 8, i - 16);
      Shifted8();
    }
    assert Shifted(true, 16) == 0x1_0000 by {
      Shifted8();
      assert Shifted(true, 12) == 16 * Shifted(true, 8);
      assert Shifted(true, 16) == 16 * Shifted(true, 12);
    }
  }

  lemma {:induction false} BitsAbove(low: nat, high: nat, n: nat, i: nat)
    requires low < Shifted(true, n)
    ensures Bit(low + Shifted(true, n) * high, i) == if i < n then Bit(low, i) else Bit(high, i - n)
    decreases n
  {
    if n > 0 {
      var x := low + Shifted(true, n) * high;
      assert Shifted(true, n) * high == 2 * (Shifted(true, n - 1) * high);
      assert x / 2 == low / 2 + Shifted(true, n - 1) * high && x % 2 == low % 2;
      if i > 0 {
        BitsAbove(low / 2, high, n - 1, i - 1);
      }
    } else {
      assert low == 0;
    }
  }
}
