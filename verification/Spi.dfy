/** One transaction of the SPI master: the credit loop. */
module Spi {
  import opened Base
  import opened Sectors
  import opened SerialFlash

  function Zeros(n: nat): (z: seq<Byte>)
    ensures |z| == n
  {
    seq(n, _ => 0)
  }

  /** The bytes the master clocks out: the data to write, then zeros to clock the answer in. */
  function Clocked(write: seq<Byte>, readLength: nat): (s: seq<Byte>)
    ensures |s| == |write| + readLength
  {
    write + Zeros(readLength)
  }

  function Min(x: int, y: int): int {
    if x < y then x else y
  }

  /** What goes out next, and what comes back for it. */
  lemma NextClocked(c: Chip, before: seq<Byte>, write: seq<Byte>, readLength: nat, sent: nat)
    requires c.WellFormed() && sent < |write| + readLength
    ensures var all := Clocked(write, readLength);
            && all[sent] == (if sent < |write| then write[sent] else 0)
            && before + all[..sent] + [all[sent]] == before + all[..sent + 1]
            && Replies(c, before, all)[sent] == Reply(c, before + all[..sent])
  {
    hide Reply;
  }

  /** How the credit loop stands before one of its turns. */
  datatype Turn = Turn(credits: int, sent: nat, received: nat)
  {
    predicate InCredit() {
      0 <= credits <= 1 && sent - received == 1 - credits
    }
  }

  ghost predicate AllInCredit(turns: seq<Turn>) {
    forall k :: 0 <= k < |turns| ==> turns[k].InCredit()
  }

  lemma NoTurns()
    ensures AllInCredit([])
  {
  }

  lemma InCreditNext(turns: seq<Turn>, t: Turn)
    requires AllInCredit(turns) && t.InCredit()
    ensures AllInCredit(turns + [t])
  {
  }

  /** The master core and the chip on its bus. `reply` is the byte the core is shifting in or has ready. */
  class Bus {
    var chip: Chip
    var selected: bool
    var shifted: seq<Byte>
    var reply: Option<Byte>
    /** History: the turns of all commands. */
    ghost var turns: seq<Turn>

    constructor (chip: Chip)
      ensures this.chip == chip && !selected && shifted == [] && reply.None?
    {
      this.chip, selected, shifted, reply, turns := chip, false, [], None, [];
    }

    /** Clock one byte out; one comes back. */
    method Transmit(b: Byte)
      requires chip.WellFormed() && reply.None?
      modifies `reply, `shifted
      ensures chip == old(chip) && selected == old(selected)
      ensures shifted == old(shifted) + [b] && reply == Some(Reply(chip, old(shifted)))
    {
      reply := Some(Reply(chip, shifted));
      shifted := shifted + [b];
    }

    /** Release the chip select: the chip acts on what it received. */
    method Deselect()
      requires chip.WellFormed()
      modifies `chip, `selected, `shifted
      ensures Commits(old(chip), old(shifted), chip) && chip.WellFormed()
      ensures !selected && shifted == [] && reply == old(reply)
    {
      selected := false;
      var time: int := *;
      ghost var before := chip;
      var busy: nat := if SelfTimed(chip, shifted) then (if time >= 0 then time else -time)
                  else if shifted != [] && shifted[0] == RDSR && chip.busy > 0 then chip.busy - 1 else chip.busy;
      chip := Effect(chip, shifted).(busy := busy);
      shifted := [];
    }

    /** The transmit part of a turn: the next byte of the data, then zeros, and never more than that. */
    method SendNext(write: seq<Byte>, readLength: nat, credits: int, writeAt: nat, writeZeros: int, ghost before: seq<Byte>,
                    ghost sent: nat)
      returns (credits': int, writeAt': nat, writeZeros': int)
      requires chip.WellFormed() && reply.None? && sent < |write| + readLength
      requires writeAt == Min(sent, |write|) && writeZeros == readLength - (sent - writeAt)
      requires shifted == before + Clocked(write, readLength)[..sent]
      modifies `reply, `shifted
      ensures credits' == credits - 1
      ensures writeAt' == Min(sent + 1, |write|) && writeZeros' == readLength - (sent + 1 - writeAt')
      ensures shifted == before + Clocked(write, readLength)[..sent + 1]
      ensures reply == Some(Replies(chip, before, Clocked(write, readLength))[sent])
    {
      hide Reply, Replies, Clocked;
      NextClocked(chip, before, write, readLength, sent);
      credits', writeAt', writeZeros' := credits - 1, writeAt, writeZeros;
      if writeAt < |write| {
        Transmit(write[writeAt]);
        writeAt' := writeAt + 1;
      } else if writeZeros > 0 {
        writeZeros' := writeZeros - 1;
        Transmit(0);
      } else {
        assert false;
        credits' := -1024;
      }
    }

    /** alt_avalon_spi_command without the toggle flag. */
    method Command(write: seq<Byte>, readLength: nat, merge: bool) returns (data: seq<Byte>)
      requires chip.WellFormed() && |write| + readLength > 0
      requires !selected ==> shifted == []
      modifies this
      ensures chip.WellFormed()
      ensures data == Replies(old(chip), old(shifted), Clocked(write, readLength))[|write|..]
      ensures merge ==> selected && chip == old(chip) && shifted == old(shifted) + Clocked(write, readLength)
      // never more than one byte is in flight, and what is in flight or ready has used the credit
      ensures old(turns) < turns && AllInCredit(turns[|old(turns)|..])
      ensures turns[|turns| - 1] == Turn(1, |write| + readLength, |write| + readLength)
      ensures !merge ==> !selected && shifted == [] && Commits(old(chip), old(shifted) + Clocked(write, readLength), chip)
    {
      hide Reply, Effect, Replies, Clocked, AllInCredit;
      ghost var before, all, replies := shifted, Clocked(write, readLength), Replies(chip, shifted, Clocked(write, readLength));
      var writeAt, writeZeros, readIgnore, credits := 0, readLength, |write|, 1;
      data := [];
      selected := true;
      reply := None;
      ghost var sent, received, log: seq<Turn> := 0, 0, [];
      NoTurns();
      while true
        invariant chip == old(chip) && selected
        invariant 0 <= received <= sent <= |all| && received < |all|
        invariant 0 <= credits <= 1 && sent - received == 1 - credits
        invariant writeAt == Min(sent, |write|) && writeZeros == readLength - (sent - writeAt)
        invariant readIgnore == |write| - Min(received, |write|)
        invariant shifted == before + all[..sent]
        invariant reply == if credits == 0 then Some(replies[received]) else None
        invariant data == replies[|write| - readIgnore..received]
        invariant turns == old(turns) && AllInCredit(log)
        decreases 2 * |all| - sent - received
      {
        InCreditNext(log, Turn(credits, sent, received));
        log := log + [Turn(credits, sent, received)];
        // Some status ends the poll, and any that the core can show may be the one that does.
        var trdy: bool, rrdy: bool :| (rrdy ==> reply.Some?) && ((trdy && credits > 0) || rrdy) by {
          assert reply.Some? || (true && credits > 0);
        }
        if trdy && credits > 0 {
          credits, writeAt, writeZeros := SendNext(write, readLength, credits, writeAt, writeZeros, before, sent);
          sent := sent + 1;
        }
        if rrdy {
          var rxdata := reply.value;
          reply := None;
          if readIgnore > 0 {
            readIgnore := readIgnore - 1;
          } else {
            data := data + [rxdata];
          }
          received := received + 1;
          credits := credits + 1;
          if readIgnore == 0 && |data| == readLength {
            break;
          }
        }
      }
      assert all[..|all|] == all;
      InCreditNext(log, Turn(credits, sent, received));
      log := log + [Turn(credits, sent, received)];
      turns := turns + log;
      assert turns[|old(turns)|..] == log;
      if !merge {
        Deselect();
      }
    }
  }
}
