/** The transmit half of the interrupt-driven Avalon UART: a 64-byte ring between write callers and
    a one-byte data register, throttled by the CTS line when flow control is on.

    As in JtagUart, Interrupts() stands for any number of interrupt visits with any device status
    between two foreground accesses, and a call that still waits when its polls run out says so. */
module UartTx {
  import opened Base
  import opened Rings

  const BUF_LEN: nat := 64
  const EWOULDBLOCK := 11

  /** The enable bits the driver changes at run time: transmit ready, CTS change, receive ready. */
  datatype Enables = Enables(trdy: bool, dcts: bool, rrdy: bool)

  /** One read of the status register. */
  datatype Status = Status(trdy: bool, dcts: bool, rrdy: bool, cts: bool)

  class Uart {
    // The driver's state record
    var ctrl: Enables
    var txStart: nat
    var txEnd: nat
    const txBuf: array<Byte>
    const flowControl: bool

    // The device: its control register, and every byte written to its data register
    var control: Enables
    var line: seq<Byte>

    // History: bytes taken from callers; bytes are queued that no enable has followed yet;
    // the transmitter was throttled because a second status read still showed CTS low; bytes were written to the
    // data register in interrupts whose status did not show it ready
    ghost var accepted: seq<Byte>
    ghost var gap: bool
    ghost var throttled: bool
    ghost var unready: nat

    ghost predicate Indices()
      reads this
    {
      txBuf.Length == BUF_LEN && txStart < BUF_LEN && txEnd < BUF_LEN
    }

    ghost function TxRing(): seq<Byte>
      requires Indices()
      reads this, txBuf
    {
      Ring(txBuf[..], txStart, txEnd)
    }

    /** The ring refines a FIFO; queued bytes always have an interrupt on the way. */
    ghost predicate Valid()
      reads this, txBuf
    {
      && Indices()
      && accepted == line + TxRing()
      && control == ctrl
      && (throttled ==> flowControl && !ctrl.trdy)
      && (!gap && TxRing() != [] ==> ctrl.dcts && (ctrl.trdy || throttled))
    }

    /** What interrupts never touch. */
    twostate predicate Background()
      reads this
    {
      txEnd == old(txEnd) && accepted == old(accepted) && gap == old(gap) && old(line) <= line
    }

    constructor (flowControl: bool)
      ensures Valid() && !gap && fresh(txBuf) && this.flowControl == flowControl
      ensures accepted == line == [] && unready == 0 && control == Enables(false, true, true)
    {
      this.flowControl := flowControl;
      txBuf := new Byte[BUF_LEN];
      ctrl, control := Enables(false, true, true), Enables(false, true, true);
      txStart, txEnd, line, accepted := 0, 0, [], [];
      gap, throttled, unready := false, false, 0;
    }

    /** Move the oldest queued byte to the data register. */
    method SendOldest()
      requires Indices() && txStart != txEnd
      modifies this`line, this`txStart
      ensures Indices() && line + TxRing() == old(line + TxRing())
      ensures old(line) <= line && |line| == |old(line)| + 1
    {
      hide Ring, Occupied;
      PopRun(txBuf[..], txStart, txEnd, 1);
      line := line + [txBuf[txStart]];
      txStart := (txStart + 1) % BUF_LEN;
    }

    /** altera_avalon_uart_txirq: `second` is the CTS line at the re-read that precedes throttling. */
    method TransmitIrq(cts: bool, second: bool)
      requires Valid()
      modifies `ctrl, `control, `txStart, `line, `throttled
      ensures Valid() && Background() && ctrl.rrdy == old(ctrl).rrdy
      // one byte is written exactly when there is one and flow control lets it
      ensures |line| - |old(line)| == if old(TxRing()) != [] && (!flowControl || cts) then 1 else 0
      // throttling starts exactly after two status reads that both showed CTS low
      ensures throttled == (if old(TxRing()) == [] then old(throttled)
                            else if !flowControl || cts then false else old(throttled) || !second)
      // an empty ring needs no interrupt; otherwise a byte sent asks for the next one, and throttling waits for CTS
      ensures ctrl == (if |old(TxRing())| == 0 || (|old(TxRing())| == 1 && (!flowControl || cts)) then
                         old(ctrl).(trdy := false, dcts := false)
                       else if !flowControl || cts then old(ctrl).(trdy := true)
                       else if !second then old(ctrl).(trdy := false) else old(ctrl))
    {
      hide Ring, Occupied;
      if txStart != txEnd {
        if !flowControl || cts {
          SendOldest();
          ctrl, throttled := ctrl.(trdy := true), false;
        } else if !second {
          ctrl, throttled := ctrl.(trdy := false), true;
        }
      }
      if txStart == txEnd {
        ctrl := ctrl.(trdy := false, dcts := false);
      }
      control := ctrl;
    }

    /** The interrupt routine. The receive half touches only its own enable bit here. */
    method Isr(status: Status, second: bool)
      requires Valid()
      modifies this
      ensures Valid() && Background() && (!status.rrdy ==> ctrl.rrdy == old(ctrl).rrdy)
      ensures |line| - |old(line)| ==
              if (status.trdy || status.dcts) && old(TxRing()) != [] && (!flowControl || status.cts) then 1 else 0
      // nothing but a change of CTS on its own makes the handler write without knowing that there is room for the byte
      ensures unready == old(unready) + if status.trdy then 0 else |line| - |old(line)|
      ensures !status.trdy && !status.dcts ==> throttled == old(throttled) && ctrl == old(ctrl).(rrdy := ctrl.rrdy)
    {
      hide Ring, Occupied;
      if status.rrdy {
        var full: bool := *;
        if full {
          ctrl := ctrl.(rrdy := false);
          control := ctrl;
        }
      }
      if status.trdy || status.dcts {
        TransmitIrq(status.cts, second);
        unready := unready + if status.trdy then 0 else |line| - |old(line)|;
      }
    }

    method Interrupts()
      requires Valid()
      modifies this
      ensures Valid() && Background()
    {
      var n: nat := *;
      while n > 0
        invariant Valid() && Background()
      {
        var status: Status := *;
        var second: bool := *;
        Isr(status, second);
        n := n - 1;
      }
    }

    /** Enable both transmit interrupts. */
    method EnableTransmit()
      requires Valid()
      modifies this`ctrl, this`control, this`gap, this`throttled
      ensures Valid() && !gap && !throttled && ctrl.trdy && ctrl.dcts
    {
      ctrl := ctrl.(trdy := true, dcts := true);
      control, gap, throttled := ctrl, false, false;
    }

    /** Queue one byte behind `tx_end`. */
    method Enqueue(data: Byte, next: nat)
      requires Valid() && next == (txEnd + 1) % BUF_LEN && next != txStart
      modifies this`txEnd, this`accepted, this`gap, txBuf
      ensures Valid() && gap && accepted == old(accepted) + [data] && txEnd == next
    {
      ghost var buf := txBuf[..];
      StoreFree(buf, txStart, txEnd, 0, data);
      PushRun(buf[txEnd := data], txStart, txEnd, 1);
      txBuf[txEnd] := data;
      assert txBuf[..] == buf[txEnd := data];
      txEnd, accepted, gap := next, accepted + [data], true;
    }

    lemma FullRing()
      requires Valid() && (txEnd + 1) % BUF_LEN == txStart
      ensures |TxRing()| == BUF_LEN - 1 && |accepted| == |line| + BUF_LEN - 1
    {
    }

    /** Block while the ring stays full. */
    method AwaitRoom(next: nat, polls: nat) returns (left: nat, blocked: bool)
      requires Valid() && !gap && next == (txEnd + 1) % BUF_LEN
      modifies this
      ensures Valid() && Background() && left <= polls
      ensures blocked <==> next == txStart
    {
      left, blocked := polls, false;
      while next == txStart
        invariant Valid() && Background() && left <= polls && !blocked
        decreases left
      {
        if left == 0 {
          blocked := true;
          return;
        }
        left := left - 1;
        Interrupts();
      }
    }

    /** altera_avalon_uart_write. Returns how many bytes were queued, and whether the call still waits. */
    method Write(data: seq<Byte>, nonblock: bool, polls: nat) returns (n: nat, blocked: bool, errno: int)
      requires Valid() && !gap
      modifies this, txBuf
      ensures Valid() && !gap
      ensures n <= |data| && accepted == old(accepted) + data[..n]
      // only a non-blocking call comes back short, with errno set
      ensures !blocked && n < |data| ==> nonblock && errno == EWOULDBLOCK
      // and then it has used all the room there was
      ensures n < |data| ==> |old(TxRing())| + n >= BUF_LEN - 1
      ensures n == |data| ==> !blocked && errno == 0
      // a blocked caller faces a full ring whose drain is enabled or throttled by CTS
      ensures blocked ==> !nonblock && |TxRing()| == BUF_LEN - 1 && ctrl.dcts && (ctrl.trdy || throttled)
    {
      hide Ring, Occupied;
      n, errno := 0, 0;
      assert |old(TxRing())| == |old(accepted)| - |old(line)|;
      var left := polls;
      while n < |data|
        invariant Valid() && n <= |data| && accepted == old(accepted) + data[..n]
        invariant errno == 0 && old(line) <= line
      {
        Interrupts();
        var next := (txEnd + 1) % BUF_LEN;
        if next == txStart {
          FullRing();
          if nonblock {
            errno := EWOULDBLOCK;
            break;
          }
          EnableTransmit();
          left, blocked := AwaitRoom(next, left);
          if blocked {
            FullRing();
            return;
          }
        }
        Interrupts();
        Enqueue(data[n], next);
        n := n + 1;
      }
      Interrupts();
      EnableTransmit();
      blocked := false;
    }

    /** altera_avalon_uart_close: wait until everything queued has left. */
    method Close(nonblock: bool, polls: nat) returns (rc: int, blocked: bool)
      requires Valid() && !gap
      modifies this
      ensures Valid() && Background()
      ensures !blocked && rc == 0 ==> accepted == line
      ensures rc != 0 ==> nonblock && rc == -EWOULDBLOCK && !blocked && TxRing() != []
      ensures blocked ==> !nonblock && TxRing() != [] && ctrl.dcts && (ctrl.trdy || throttled)
    {
      var left := polls;
      rc, blocked := 0, false;
      while txStart != txEnd
        invariant Valid() && Background()
        decreases left
      {
        if nonblock {
          return -EWOULDBLOCK, false;
        }
        if left == 0 {
          return 0, true;
        }
        left := left - 1;
        Interrupts();
      }
    }
  }

  /** Any sequence of writes: the bytes the calls say they queued leave in that order. */
  method Session(uart: Uart, calls: seq<(seq<Byte>, bool)>, polls: nat) returns (counts: seq<nat>, blocked: bool)
    requires uart.Valid() && !uart.gap && uart.accepted == []
    modifies uart, uart.txBuf
    ensures uart.Valid() && !uart.gap && |counts| <= |calls|
    ensures Queued(calls, counts) == uart.line + uart.TxRing()
    ensures !blocked ==> |counts| == |calls|
  {
    hide Ring, Occupied;
    counts, blocked := [], false;
    for k := 0 to |calls|
      invariant uart.Valid() && !uart.gap && |counts| == k && !blocked
      invariant Queued(calls, counts) == uart.accepted
    {
      uart.Interrupts();
      var n, errno;
      n, blocked, errno := uart.Write(calls[k].0, calls[k].1, polls);
      assert (counts + [n])[..k] == counts;
      counts := counts + [n];
      if blocked {
        return;
      }
    }
  }

  /** The concatenation of what each call queued. */
  function Queued(calls: seq<(seq<Byte>, bool)>, counts: seq<nat>): (s: seq<Byte>)
    requires |counts| <= |calls|
  {
    if counts == [] then []
    else
      var k := |counts| - 1;
      var data := calls[k].0;
      Queued(calls, counts[..k]) + if counts[k] <= |data| then data[..counts[k]] else data
  }
}
