/** The Ethernet controller: receive memory read word by word, and packets sent word by word. */
module Nic {
  import opened Base

  const MAX_PACKET_SIZE: nat := 1522
  const DMFE_SUCCESS: nat := 0
  const DMFE_FAIL: nat := 1

  newtype Half = x: int | 0 <= x < 0x1_0000

  /** Two bytes as the data port carries them, low byte first. */
  function Joined(lo: Byte, hi: Byte): Half
  {
    lo as Half + 256 * (hi as Half)
  }

  function Low(w: Half): (b: Byte)
  {
    (w % 256) as Byte
  }

  function High(w: Half): (b: Byte)
  {
    (w / 256) as Byte
  }

  lemma JoinedParts(lo: Byte, hi: Byte)
    ensures Low(Joined(lo, hi)) == lo && High(Joined(lo, hi)) == hi
  {
  }

  /** A received frame. The low byte of the first word tells that a packet is ready. */
  datatype Frame = Frame(status: Half, bytes: seq<Byte>)
  {
    predicate Framed() {
      status % 4 == 1 && |bytes| < 0x1_0000
    }

    /** No status bit but the multicast bit is set, and the length is one the buffer check lets through. */
    predicate Good() {
      (status / 0x100 == 0 || status / 0x100 == 0x40) && |bytes| < MAX_PACKET_SIZE
    }
  }

  /** Bit by bit: no bit of 0xBF is set in the upper byte of a good status. */
  lemma GoodStatus(f: Frame)
    ensures var h := f.status as nat / 0x100;
            f.Good() <==> && |f.bytes| < 1522
                          && h % 2 == 0 && h / 2 % 2 == 0 && h / 4 % 2 == 0 && h / 8 % 2 == 0
                          && h / 16 % 2 == 0 && h / 32 % 2 == 0 && h / 128 % 2 == 0
  {
  }

  /** Bytes two to a word; an odd last byte is padded. */
  function DataWords(bytes: seq<Byte>): (ws: seq<Half>)
  {
    if bytes == [] then []
    else if |bytes| == 1 then [Joined(bytes[0], 0)]
    else [Joined(bytes[0], bytes[1])] + DataWords(bytes[2..])
  }

  /** A frame in receive memory. */
  function FrameWords(f: Frame): seq<Half>
    requires f.Framed()
  {
    [f.status, |f.bytes| as Half] + DataWords(f.bytes)
  }

  predicate AllFramed(frames: seq<Frame>) {
    forall k :: 0 <= k < |frames| ==> frames[k].Framed()
  }

  function Memory(frames: seq<Frame>): seq<Half>
    requires AllFramed(frames)
  {
    if frames == [] then [] else FrameWords(frames[0]) + Memory(frames[1..])
  }

  /** The bytes that words carry. */
  function Unpacked(ws: seq<Half>): (bytes: seq<Byte>)
    ensures |bytes| == 2 * |ws|
  {
    if ws == [] then [] else Unpacked(ws[..|ws| - 1]) + [Low(ws[|ws| - 1]), High(ws[|ws| - 1])]
  }

  class Dm9000 {
    /** Receive memory from the read pointer on. */
    var rx: seq<Half>
    /** The packet being written to transmit memory, and the length registers. */
    var tx: seq<Half>
    var txLength: nat
    /** Packets put on the wire. */
    var wire: seq<seq<Byte>>
    /** The receive interrupt is unmasked. */
    var irqOn: bool

    constructor ()
      ensures rx == [] && wire == [] && irqOn
    {
      rx, tx, txLength, wire, irqOn := [], [], 0, [], true;
    }

    method ReadWord() returns (w: Half)
      requires rx != []
      modifies `rx
      ensures w == old(rx[0]) && rx == old(rx[1..])
    {
      w := rx[0];
      rx := rx[1..];
    }

    /** The chip sends the first txLength bytes it was given. */
    method Request()
      requires txLength <= 2 * |tx|
      modifies `wire
      ensures wire == old(wire) + [Unpacked(tx)[..txLength]]
    {
      wire := wire + [Unpacked(tx)[..txLength]];
    }

    /** ReceivePacket. `frames` describes the receive memory of a chip that has a packet ready. The receive
        interrupt stays masked, except that a chip found out of order is reset. */
    method ReceivePacket(data: array<Byte>, ghost frames: seq<Frame>) returns (rc: nat, length: nat)
      requires rx != [] && rx[0] % 4 == 1 ==> frames != [] && AllFramed(frames) && rx == Memory(frames)
      requires rx != [] && rx[0] % 4 == 1 && frames[0].Good() ==> Stored(frames[0]) <= data.Length
      modifies `rx, `irqOn, data
      ensures old(rx) == [] || old(rx[0]) % 4 == 0 ==>
                rc == DMFE_FAIL && length == 0 && rx == old(rx) && data[..] == old(data[..]) && !irqOn
      ensures old(rx) != [] && old(rx[0]) % 4 >= 2 ==>
                rc == DMFE_FAIL && length == 0 && rx == [] && data[..] == old(data[..]) && irqOn
      ensures old(rx) != [] && old(rx[0]) % 4 == 1 ==> rx == Memory(frames[1..]) && !irqOn
      ensures old(rx) != [] && old(rx[0]) % 4 == 1 && !frames[0].Good() ==>
                rc == DMFE_FAIL && length == 0 && data[..] == old(data[..])
      ensures old(rx) != [] && old(rx[0]) % 4 == 1 && frames[0].Good() ==>
                rc == DMFE_SUCCESS && length == |frames[0].bytes| && data[..length] == frames[0].bytes
      ensures old(rx) != [] && old(rx[0]) % 4 == 1 && frames[0].Good() ==>
                data[length + length % 2..] == old(data[length + length % 2..])
      // in the words of receive memory: the status, the length, then the bytes, low byte first
      ensures rc == DMFE_SUCCESS ==>
                && |old(rx)| >= 2 + (length + 1) / 2 && length == old(rx[1]) as nat < 1522
                && forall j :: 0 <= j < (length + 1) / 2 ==>
                     && old(rx[2..])[j] as nat % 0x100 == data[2 * j] as nat
                     && (2 * j + 1 < length ==> old(rx[2..])[j] as nat / 0x100 == data[2 * j + 1] as nat)
    {
      rc, length := DMFE_FAIL, 0;
      irqOn := false;
      var ready := if rx == [] then 0 else rx[0] % 4;
      if ready == 1 {
        hide DataWords;
        ghost var f := frames[0];
        assert FrameWords(f) + Memory(frames[1..]) == [f.status, |f.bytes| as Half] + (DataWords(f.bytes) + Memory(frames[1..]));
        var status := ReadWord();
        var len := ReadWord();
        length := len as nat;
        if (status / 0x100 == 0 || status / 0x100 == 0x40) && length < MAX_PACKET_SIZE {
          rc := DMFE_SUCCESS;
          ReadData(data, length, f.bytes, Memory(frames[1..]));
          InWords(old(rx[2..]), f.bytes, Memory(frames[1..]));
        } else {
          SkipData(length, f.bytes, Memory(frames[1..]));
          length := 0;
        }
      } else if ready != 0 {
        rx := [];
        irqOn := true;
      }
    }

    /** Read a good packet out of receive memory. */
    method ReadData(data: array<Byte>, length: nat, ghost bytes: seq<Byte>, ghost rest: seq<Half>)
      requires |bytes| == length && rx == DataWords(bytes) + rest && length + length % 2 <= data.Length
      modifies `rx, data
      ensures rx == rest && data[..length] == bytes
      ensures data[length + length % 2..] == old(data[length + length % 2..])
    {
      hide DataWords, Low, High;
      var i := 0;
      ghost var was, end := data[..], length + length % 2;
      assert bytes[0..] == bytes;
      while i < length
        invariant 0 <= i <= end && i % 2 == 0
        invariant rx == DataWords(bytes[Least(i, length)..]) + rest
        invariant forall k :: 0 <= k < Least(i, length) ==> data[k] == bytes[k]
        invariant data[end..] == was[end..]
      {
        NextWord(bytes[i..], rest);
        TakeTwo(bytes, i);
        var word := ReadWord();
        data[i] := Low(word);
        data[i + 1] := High(word);
        i := i + 2;
      }
      assert bytes[length..] == [];
      NoData(rest);
    }

    /** Dump a bad packet from receive memory. */
    method SkipData(length: nat, ghost bytes: seq<Byte>, ghost rest: seq<Half>)
      requires |bytes| == length && rx == DataWords(bytes) + rest
      modifies `rx
      ensures rx == rest
    {
      hide DataWords, Low, High;
      var i := 0;
      ghost var end := length + length % 2;
      assert bytes[0..] == bytes;
      while i < length
        invariant 0 <= i <= end && i % 2 == 0
        invariant rx == DataWords(bytes[Least(i, length)..]) + rest
      {
        NextWord(bytes[i..], rest);
        TakeTwo(bytes, i);
        var word := ReadWord();
        i := i + 2;
      }
      assert bytes[length..] == [];
      NoData(rest);
    }

    /** TransmitPacket: the packet on the wire is the buffer, byte for byte. The length goes to two byte registers. */
    method TransmitPacket(data: array<Byte>, length: nat) returns (rc: nat)
      requires length < 0x10000 && length + length % 2 <= data.Length
      modifies `irqOn, `tx, `txLength, `wire
      ensures rc == DMFE_SUCCESS && irqOn && wire == old(wire) + [data[..length]]
      ensures |tx| == (length + 1) / 2 && txLength == length
      ensures forall j :: 0 <= j < |tx| ==> tx[j] as nat == data[2 * j] as nat + 256 * data[2 * j + 1] as nat
    {
      hide Unpacked, Low, High, Joined;
      irqOn := false;
      TwoBytes(length);
      txLength := length / 0x100 % 0x100 * 0x100 + length % 0x100;
      tx := [];
      var i := 0;
      NothingUnpacked();
      ghost var end := length + length % 2;
      while i < length
        invariant 0 <= i <= end && i % 2 == 0
        invariant txLength == length && wire == old(wire) && 2 * |tx| == i && Unpacked(tx) == data[..i]
        invariant forall j :: 0 <= j < |tx| ==> tx[j] as nat == data[2 * j] as nat + 256 * data[2 * j + 1] as nat
      {
        WordSent(data[..], tx, i);
        JoinedIs(data[i], data[i + 1]);
        tx := tx + [Joined(data[i], data[i + 1])];
        i := i + 2;
      }
      Request();
      assert data[..i][..length] == data[..length];
      irqOn := true;
      rc := DMFE_SUCCESS;
    }
  }

  lemma JoinedIs(lo: Byte, hi: Byte)
    ensures Joined(lo, hi) as nat == lo as nat + 256 * hi as nat
  {
  }

  lemma TwoBytes(length: nat)
    requires length < 0x10000
    ensures length / 0x100 % 0x100 * 0x100 + length % 0x100 == length
  {
  }

  lemma NothingUnpacked()
    ensures Unpacked([]) == []
  {
  }

  /** One more word written to transmit memory. */
  lemma WordSent(data: seq<Byte>, tx: seq<Half>, i: nat)
    requires i + 2 <= |data| && Unpacked(tx) == data[..i]
    ensures Unpacked(tx + [Joined(data[i], data[i + 1])]) == data[..i + 2]
  {
    hide Unpacked, Low, High, Joined;
    JoinedParts(data[i], data[i + 1]);
    UnpackedNext(tx, Joined(data[i], data[i + 1]));
    assert data[..i + 2] == data[..i] + [data[i], data[i + 1]];
  }

  /** How many bytes of a buffer a frame takes: it is stored word by word. */
  function Stored(f: Frame): nat {
    |f.bytes| + |f.bytes| % 2
  }

  /** A buffer takes every frame the check lets through exactly if it has 1522 bytes. */
  lemma FitsEveryGoodFrame(n: nat)
    ensures (forall f: Frame :: f.Framed() && f.Good() ==> Stored(f) <= n) <==> n >= MAX_PACKET_SIZE
  {
    var longest := Frame(1, seq(MAX_PACKET_SIZE - 1, _ => 0 as Byte));
    assert longest.Framed() && longest.Good() && Stored(longest) == MAX_PACKET_SIZE;
  }

  lemma UnpackedNext(ws: seq<Half>, w: Half)
    ensures Unpacked(ws + [w]) == Unpacked(ws) + [Low(w), High(w)]
  {
    hide Low, High;
    assert (ws + [w])[..|ws|] == ws;
  }

  lemma NoData(rest: seq<Half>)
    ensures DataWords([]) + rest == rest
  {
  }

  function Least(x: int, y: int): int {
    if x < y then x else y
  }

  lemma InWords(words: seq<Half>, bytes: seq<Byte>, rest: seq<Half>)
    requires words == DataWords(bytes) + rest
    ensures |words| >= (|bytes| + 1) / 2
    ensures forall j :: 0 <= j < (|bytes| + 1) / 2 ==>
              && words[j] as nat % 0x100 == bytes[2 * j] as nat
              && (2 * j + 1 < |bytes| ==> words[j] as nat / 0x100 == bytes[2 * j + 1] as nat)
  {
    hide DataWords;
    DataWordsAre(bytes);
    forall j | 0 <= j < (|bytes| + 1) / 2
      ensures words[j] as nat % 0x100 == bytes[2 * j] as nat
      ensures 2 * j + 1 < |bytes| ==> words[j] as nat / 0x100 == bytes[2 * j + 1] as nat
    {
      var w := DataWords(bytes)[j];
      assert words[j] == w;
      Halves(w as nat, bytes[2 * j] as nat, if 2 * j + 1 < |bytes| then bytes[2 * j + 1] as nat else 0);
    }
  }

  lemma Halves(w: nat, lo: nat, hi: nat)
    requires w == lo + 256 * hi && lo < 256
    ensures w % 0x100 == lo && w / 0x100 == hi
  {
  }

  /** The next word of the packet and what is behind it. */
  lemma NextWord(bytes: seq<Byte>, rest: seq<Half>)
    requires bytes != []
    ensures var ws := DataWords(bytes) + rest;
            && ws != [] && Low(ws[0]) == bytes[0] && (|bytes| > 1 ==> High(ws[0]) == bytes[1])
            && ws[1..] == DataWords(bytes[Least(2, |bytes|)..]) + rest
  {
    hide Low, High, Joined, DataWords;
    var hi: Byte := if |bytes| > 1 then bytes[1] else 0;
    JoinedParts(bytes[0], hi);
    DataStep(bytes, hi);
    var w, tail := Joined(bytes[0], hi), DataWords(bytes[Least(2, |bytes|)..]);
    assert [w] + tail + rest == [w] + (tail + rest);
  }

  /** In figures: the word with the bytes of an even and the next odd position, low byte first. */
  lemma {:induction false} DataWordsAre(bytes: seq<Byte>)
    ensures var ws := DataWords(bytes);
            && |ws| == (|bytes| + 1) / 2
            && forall j :: 0 <= j < |ws| ==>
                 ws[j] as nat == bytes[2 * j] as nat + 256 * if 2 * j + 1 < |bytes| then bytes[2 * j + 1] as nat else 0
    decreases |bytes|
  {
    if |bytes| > 1 {
      DataWordsAre(bytes[2..]);
    }
  }

  lemma DataStep(bytes: seq<Byte>, hi: Byte)
    requires bytes != [] && hi == if |bytes| > 1 then bytes[1] else 0
    ensures DataWords(bytes) == [Joined(bytes[0], hi)] + DataWords(bytes[Least(2, |bytes|)..])
  {
    hide Joined;
    if |bytes| == 1 {
      assert bytes[1..] == [];
    }
  }

  lemma TakeTwo(bytes: seq<Byte>, i: nat)
    requires i < |bytes|
    ensures bytes[i..][Least(2, |bytes| - i)..] == bytes[Least(i + 2, |bytes|)..]
  {
  }
}
