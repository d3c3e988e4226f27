/** The interrupt-driven JTAG UART driver.

    One foreground caller copies whole chunks between its buffers and two rings; the
    interrupt routine moves single bytes between the rings and the device. Foreground
    methods call Interrupts() between any two accesses to shared state: it runs an
    arbitrary number of interrupt visits, alarm ticks and host arrivals, with arbitrary
    device answers, so what is proved of a method holds for every interleaving.

    Spinning is cut after `polls` rounds: a call that is still waiting then reports
    Polling, so a contract speaks of every finite prefix of every run. */
module JtagUart {
  import opened Base
  import opened Rings

  const BUF_LEN: nat := 2048
  const INT_MAX: nat := 0x7FFF_FFFF
  const EIO := 5
  const EWOULDBLOCK := 11

  /** The two interrupt enable bits of the control register. */
  datatype Enables = Enables(re: bool, we: bool)

  /** How a call stands: it has returned rc, or it is spinning after `done` bytes. */
  datatype Progress = Returned(rc: int) | Polling(done: nat)

  lemma PrefixGrows<T>(data: seq<T>, done: nat, n: nat)
    requires done + n <= |data|
    ensures data[..done + n] == data[..done] + data[done..done + n] && data[done..][..n] == data[done..done + n]
  {
  }

  class Uart {
    // The driver's state record
    var irqEnable: Enables
    var hostInactive: nat
    var timeout: nat
    var rxIn: nat
    var rxOut: nat
    var txIn: nat
    var txOut: nat
    const rxBuf: array<Byte>
    const txBuf: array<Byte>

    // The device: its enable bits, its receive FIFO, and every byte written to its data register
    var control: Enables
    var fifo: seq<Byte>
    var line: seq<Byte>

    // History: bytes taken from write callers, popped from the device, handed to read callers
    ghost var accepted: seq<Byte>
    ghost var popped: seq<Byte>
    ghost var delivered: seq<Byte>

    // A writer has published bytes and not yet enabled WE; a reader has freed slots and not yet enabled RE
    ghost var txGap: bool
    ghost var rxGap: bool

    // How often the alarm has found that the host did not look for too long
    ghost var absences: nat

    ghost predicate Indices()
      reads this
    {
      && rxBuf.Length == BUF_LEN && txBuf.Length == BUF_LEN && rxBuf != txBuf
      && rxIn < BUF_LEN && rxOut < BUF_LEN && txIn < BUF_LEN && txOut < BUF_LEN
    }

    /** The bytes waiting to be sent. */
    ghost function TxRing(): seq<Byte>
      requires Indices()
      reads this, txBuf
    {
      Ring(txBuf[..], txOut, txIn)
    }

    /** The bytes waiting to be read. */
    ghost function RxRing(): seq<Byte>
      requires Indices()
      reads this, rxBuf
    {
      Ring(rxBuf[..], rxOut, rxIn)
    }

    /** Both rings refine plain FIFOs, the shadow mirrors the device, and no wakeup is lost. */
    ghost predicate Valid()
      reads this, rxBuf, txBuf
    {
      && Indices()
      && accepted == line + TxRing()
      && popped == delivered + RxRing()
      && control == irqEnable
      && (!txGap && TxRing() != [] ==> control.we)
      && (!rxGap && !control.re ==> |RxRing()| == BUF_LEN - 1)
    }

    ghost predicate AtRest()
      reads this, rxBuf, txBuf
    {
      Valid() && !txGap && !rxGap
    }

    /** The host counts as gone only if it did before or the alarm has found it so since. */
    twostate predicate Watched()
      reads this
    {
      old(absences) <= absences && (hostInactive >= timeout ==> absences > old(absences) || old(hostInactive) >= old(timeout))
    }

    /** The host was counted as gone at some moment. */
    twostate predicate HostGone()
      reads this
    {
      absences > old(absences) || old(hostInactive) >= old(timeout)
    }

    /** What interrupts never touch, and the only direction in which they move the device's histories. */
    twostate predicate Background()
      reads this
    {
      && rxOut == old(rxOut) && txIn == old(txIn) && timeout == old(timeout) && Watched()
      && accepted == old(accepted) && delivered == old(delivered)
      && txGap == old(txGap) && rxGap == old(rxGap)
      && old(line) <= line && old(popped) <= popped
    }

    constructor (timeout: nat)
      ensures AtRest() && fresh(rxBuf) && fresh(txBuf)
      ensures accepted == [] && popped == [] && delivered == [] && line == []
      ensures control == Enables(true, false) && this.timeout == timeout && hostInactive == 0
    {
      rxBuf, txBuf := new Byte[BUF_LEN], new Byte[BUF_LEN];
      rxIn, rxOut, txIn, txOut := 0, 0, 0, 0;
      irqEnable, control := Enables(true, false), Enables(true, false);
      hostInactive, this.timeout := 0, timeout;
      fifo, line := [], [];
      accepted, popped, delivered := [], [], [];
      txGap, rxGap, absences := false, false, 0;
    }

    /** Queue one byte popped from the device; the ring must have room for it. */
    method StoreReceived(data: Byte)
      requires Indices() && (rxIn + 1) % BUF_LEN != rxOut
      modifies this`rxIn, rxBuf
      ensures Indices() && RxRing() == old(RxRing()) + [data]
    {
      ghost var buf := rxBuf[..];
      StoreFree(buf, rxOut, rxIn, 0, data);
      PushRun(buf[rxIn := data], rxOut, rxIn, 1);
      rxBuf[rxIn] := data;
      assert rxBuf[..] == buf[rxIn := data];
      rxIn := (rxIn + 1) % BUF_LEN;
    }

    /** Hand the oldest queued byte to the device. */
    method SendOldest()
      requires Indices() && txOut != txIn
      modifies this`line, this`txOut
      ensures Indices() && line + TxRing() == old(line + TxRing()) && |line| == |old(line)| + 1
      ensures old(line) <= line
    {
      hide Ring, Occupied;
      PopRun(txBuf[..], txOut, txIn, 1);
      line := line + [txBuf[txOut]];
      txOut := (txOut + 1) % BUF_LEN;
    }

    /** Pop one byte from the device into the ring. Returns what the data register said: whether the
        byte was valid, and whether more remain. The host may send at any time. */
    method PopDevice() returns (valid: bool, available: bool)
      requires Indices() && (rxIn + 1) % BUF_LEN != rxOut
      requires popped == delivered + RxRing()
      modifies this`fifo, this`popped, this`rxIn, rxBuf
      ensures Indices() && popped == delivered + RxRing() && old(popped) <= popped
      ensures available ==> valid
      ensures |RxRing()| == |old(RxRing())| + if valid then 1 else 0
      ensures available <==> fifo != []
      ensures old(popped + fifo) <= popped + fifo
    {
      var burst: seq<Byte> := *;
      fifo := fifo + burst;
      valid, available := fifo != [], |fifo| > 1;
      if valid {
        StoreReceived(fifo[0]);
        popped := popped + [fifo[0]];
        fifo := fifo[1..];
      }
    }

    /** The read half of one interrupt visit: move bytes while both the device and the ring allow. */
    method ReceiveIrq()
      requires Valid()
      modifies this, rxBuf
      ensures Valid() && Background()
      ensures line == old(line) && txOut == old(txOut) && hostInactive == old(hostInactive)
      ensures control.we == old(control).we
      // nothing the host sent is lost; receive interrupts stay on only while the device is empty
      ensures old(popped + fifo) <= popped + fifo
      ensures fifo != [] ==> |RxRing()| == BUF_LEN - 1
      ensures control.re ==> old(control).re && fifo == []
    {
      hide Ring;
      var available, valid := true, true;
      while valid && (rxIn + 1) % BUF_LEN != rxOut
        invariant Valid() && Background()
        invariant available ==> valid
        invariant !available ==> fifo == []
        invariant old(popped + fifo) <= popped + fifo
        invariant control == old(control)
        invariant line == old(line) && txOut == old(txOut) && hostInactive == old(hostInactive)
        decreases valid, BUF_LEN - |RxRing()|
      {
        valid, available := PopDevice();
      }
      if available {
        irqEnable := irqEnable.(re := false);
        control := irqEnable;
      }
    }

    /** The write half: move bytes to the device while it has space. */
    method TransmitIrq(wspace: nat)
      requires Valid() && control.we
      modifies this
      ensures Valid() && Background()
      ensures popped == old(popped) && rxIn == old(rxIn) && fifo == old(fifo) && hostInactive == old(hostInactive)
      // as many bytes as fit leave, and the interrupt is turned off exactly when the ring ran out
      ensures |line| - |old(line)| == if wspace <= |old(TxRing())| then wspace else |old(TxRing())|
      ensures control == old(control).(we := wspace <= |old(TxRing())|)
    {
      hide Ring, Occupied;
      var space := wspace;
      while space > 0 && txOut != txIn
        invariant Valid() && Background()
        invariant control == old(control) && popped == old(popped)
        invariant rxIn == old(rxIn) && fifo == old(fifo) && hostInactive == old(hostInactive)
        invariant |line| - |old(line)| == wspace - space
        decreases space
      {
        SendOldest();
        space := space - 1;
      }
      if space > 0 {
        irqEnable := irqEnable.(we := false);
        control := irqEnable;
      }
    }

    /** One turn of the interrupt routine, for the sources it found pending and the space the device reported. */
    method Visit(ri: bool, wi: bool, wspace: nat)
      requires Valid() && (ri ==> control.re) && (wi ==> control.we)
      modifies this, rxBuf
      ensures Valid() && Background() && hostInactive == old(hostInactive)
      // a pending read leaves the device empty, or the ring full and its interrupt off
      ensures ri ==> (fifo != [] ==> |RxRing()| == BUF_LEN - 1) && (control.re ==> fifo == [])
      ensures !ri ==> popped == old(popped) && fifo == old(fifo) && control.re == old(control).re
      ensures old(popped + fifo) <= popped + fifo
      // a pending write sends what fits, and its interrupt goes off exactly when the ring ran out
      ensures wi ==> |line| - |old(line)| == (if wspace <= |old(TxRing())| then wspace else |old(TxRing())|)
      ensures wi ==> control.we == (wspace <= |old(TxRing())|)
      ensures !wi ==> line == old(line) && control.we == old(control).we
    {
      hide Ring, Occupied;
      if ri {
        ReceiveIrq();
      }
      if wi {
        TransmitIrq(wspace);
      }
    }

    /** The interrupt routine; a source is pending only while it is enabled. The parameters are what the first read of the
        control register shows; what later reads show is up to the device. */
    method Isr(ri0: bool, wi0: bool, wspace0: nat)
      requires Valid() && (ri0 ==> control.re) && (wi0 ==> control.we)
      modifies this, rxBuf
      ensures Valid() && Background() && hostInactive == old(hostInactive)
      // what is pending at first is served: at least this much is sent, and all that was received is taken up to a full ring
      ensures wi0 ==> |line| - |old(line)| >= if wspace0 <= |old(TxRing())| then wspace0 else |old(TxRing())|
      ensures ri0 ==> |popped| - |old(popped)| >= |old(fifo)| || |RxRing()| == BUF_LEN - 1
      ensures old(popped + fifo) <= popped + fifo
    {
      hide Ring, Occupied;
      var ri, wi, wspace := ri0, wi0, wspace0;
      var visits: nat := *;
      ghost var first := true;
      while ri || wi
        invariant Valid() && Background() && hostInactive == old(hostInactive)
        invariant (ri ==> control.re) && (wi ==> control.we)
        invariant first ==> ri == ri0 && wi == wi0 && wspace == wspace0 && unchanged(this)
        invariant !first && wi0 ==> |line| - |old(line)| >= if wspace0 <= |old(TxRing())| then wspace0 else |old(TxRing())|
        invariant !first && ri0 ==> |popped| - |old(popped)| >= |old(fifo)| || |RxRing()| == BUF_LEN - 1
        invariant old(popped + fifo) <= popped + fifo
        decreases first, visits
      {
        Visit(ri, wi, wspace);
        assert |popped| == |delivered| + |RxRing()| && |RxRing()| < BUF_LEN;
        first := false;
        if visits == 0 {
          break;
        }
        visits := visits - 1;
        ri, wi, wspace := *, *, *;
        ri, wi := ri && control.re, wi && control.we;
      }
    }

    /** The alarm callback that watches for the host; `active` is the bit the host sets when it looks. */
    method Timeout(active: bool)
      requires Valid()
      modifies this
      ensures Valid() && Background() && control == old(control)
      ensures line == old(line) && popped == old(popped) && txOut == old(txOut) && rxIn == old(rxIn)
      ensures hostInactive ==
              if active then 0 else if old(hostInactive) < INT_MAX - 2 then old(hostInactive) + 1 else old(hostInactive)
      ensures absences == old(absences) + if hostInactive >= timeout then 1 else 0
    {
      if active {
        control := irqEnable;
        hostInactive := 0;
      } else if hostInactive < INT_MAX - 2 {
        hostInactive := hostInactive + 1;
      }
      absences := absences + if hostInactive >= timeout then 1 else 0;
    }

    /** Anything that can happen between two foreground accesses. */
    method Interrupts()
      requires Valid()
      modifies this, rxBuf
      ensures Valid() && Background()
    {
      var n: nat := *;
      while n > 0
        invariant Valid() && Background()
      {
        var alarm: bool := *;
        if alarm {
          var active: bool := *;
          Timeout(active);
        } else {
          var ri: bool := *;
          var wi: bool := *;
          var wspace: nat := *;
          Isr(ri && control.re, wi && control.we, wspace);
        }
        n := n - 1;
      }
    }

    /** What a writer leaves alone on the read side. */
    twostate predicate WriterFrame()
      reads this
    {
      && rxOut == old(rxOut) && delivered == old(delivered) && rxGap == old(rxGap)
      && timeout == old(timeout) && old(line) <= line && old(popped) <= popped && Watched()
    }

    /** Copy into free slots behind `txIn`, with interrupts between any two bytes. */
    method CopyIn(chunk: seq<Byte>)
      requires Valid() && |TxRing()| + |chunk| < BUF_LEN && txIn + |chunk| <= BUF_LEN
      modifies this, rxBuf, txBuf
      ensures Valid() && Background() && |TxRing()| <= |old(TxRing())|
      ensures txBuf[txIn..txIn + |chunk|] == chunk
    {
      hide Ring, Occupied;
      var j := 0;
      while j < |chunk|
        invariant 0 <= j <= |chunk| && Valid() && Background()
        invariant |TxRing()| <= |old(TxRing())|
        invariant txBuf[txIn..txIn + j] == chunk[..j]
      {
        StoreFree(txBuf[..], txOut, txIn, j, chunk[j]);
        ghost var buf := txBuf[..];
        txBuf[txIn + j] := chunk[j];
        assert txBuf[..] == buf[txIn + j := chunk[j]];
        Interrupts();
        j := j + 1;
      }
    }

    /** Publish n copied bytes. */
    method PublishTx(n: nat)
      requires Valid() && 0 < n && |TxRing()| + n < BUF_LEN && txIn + n <= BUF_LEN
      modifies this`txIn, this`accepted, this`txGap
      ensures Valid() && txGap
      ensures accepted == old(accepted) + txBuf[old(txIn)..old(txIn) + n]
      ensures |TxRing()| == |old(TxRing())| + n
    {
      hide Ring, Occupied;
      PushRun(txBuf[..], txOut, txIn, n);
      accepted, txGap := accepted + txBuf[txIn..txIn + n], true;
      txIn := (txIn + n) % BUF_LEN;
    }

    /** One pass of the copy loop: copy, then publish. */
    method Append(chunk: seq<Byte>)
      requires Valid() && chunk != [] && |TxRing()| + |chunk| < BUF_LEN && txIn + |chunk| <= BUF_LEN
      modifies this, rxBuf, txBuf
      ensures Valid() && WriterFrame() && txGap
      ensures accepted == old(accepted) + chunk
    {
      CopyIn(chunk);
      PublishTx(|chunk|);
    }

    /** The inner loop of a write: copy and publish chunks until the data or the room runs out.
        Returns the count taken and the last snapshot of `tx_out`. */
    method FillRing(data: seq<Byte>) returns (done: nat, out: nat)
      requires Valid()
      modifies this, rxBuf, txBuf
      ensures Valid() && WriterFrame()
      ensures done <= |data| && accepted == old(accepted) + data[..done]
      ensures done == 0 ==> txGap == old(txGap) && |TxRing()| <= |old(TxRing())|
      ensures done == 0 && data != [] ==> |old(TxRing())| == BUF_LEN - 1
      ensures done < |data| ==> out < BUF_LEN && Occupied(BUF_LEN, out, txIn) == BUF_LEN - 1
      // it stops short only when it has used all the room there was
      ensures done < |data| ==> |old(TxRing())| + done >= BUF_LEN - 1
    {
      hide Ring, Occupied, RoomAhead;
      done, out := 0, 0;
      while done < |data|
        invariant Valid() && WriterFrame()
        invariant done <= |data| && accepted == old(accepted) + data[..done]
        invariant done == 0 ==> txGap == old(txGap) && |TxRing()| <= |old(TxRing())|
      {
        Interrupts();
        out := txOut;
        var n := RoomAhead(txIn, out);
        if n == 0 {
          break;
        }
        if n > |data| - done {
          n := |data| - done;
        }
        Append(data[done..done + n]);
        PrefixGrows(data, done, n);
        done := done + n;
      }
    }

    /** Enable transmit interrupts, which closes the gap opened by publishing. */
    method EnableWrite()
      requires Valid()
      modifies this`irqEnable, this`control, this`txGap
      ensures Valid() && !txGap && control.we
    {
      irqEnable := irqEnable.(we := true);
      control, txGap := irqEnable, false;
    }

    /** Fill the ring, then enable its drain. */
    method FillAndEnable(data: seq<Byte>) returns (done: nat, out: nat)
      requires Valid() && !txGap
      modifies this, rxBuf, txBuf
      ensures Valid() && WriterFrame() && !txGap && control.we
      ensures done <= |data| && accepted == old(accepted) + data[..done]
      ensures done == 0 ==> |TxRing()| <= |old(TxRing())|
      ensures done == 0 && data != [] ==> |old(TxRing())| == BUF_LEN - 1
      ensures done < |data| ==> out < BUF_LEN && Occupied(BUF_LEN, out, txIn) == BUF_LEN - 1
      ensures done < |data| ==> |old(TxRing())| + done >= BUF_LEN - 1
    {
      hide Ring, Occupied;
      done, out := FillRing(data);
      Interrupts();
      EnableWrite();
    }

    /** Spin until the ring moves or the host is declared gone. The pointer test is exact:
        it sees a drain if and only if a byte was drained. */
    method AwaitDrain(out: nat, polls: nat) returns (left: nat, spinning: bool)
      requires Valid() && !txGap && out < BUF_LEN && Occupied(BUF_LEN, out, txIn) == BUF_LEN - 1
      requires |TxRing()| == BUF_LEN - 1 ==> control.we
      modifies this, rxBuf
      ensures Valid() && Background()
      ensures out == txOut <==> |TxRing()| == BUF_LEN - 1
      ensures |TxRing()| <= |old(TxRing())|
      ensures spinning ==> out == txOut && control.we && hostInactive < timeout
      ensures !spinning && out == txOut ==> hostInactive >= timeout
    {
      left, spinning := polls, false;
      NoAbaOut(BUF_LEN, out, txOut, txIn);
      while out == txOut && hostInactive < timeout
        invariant Valid() && Background()
        invariant out == txOut <==> |TxRing()| == BUF_LEN - 1
        invariant |TxRing()| <= |old(TxRing())|
        decreases left
      {
        if left == 0 {
          spinning := true;
          return;
        }
        left := left - 1;
        Interrupts();
        NoAbaOut(BUF_LEN, out, txOut, txIn);
      }
    }

    /** The wait at a full ring and the look at it afterwards. */
    method AwaitRoom(out: nat, polls: nat) returns (left: nat, spinning: bool, full: bool)
      requires Valid() && !txGap && out < BUF_LEN && Occupied(BUF_LEN, out, txIn) == BUF_LEN - 1
      requires |TxRing()| == BUF_LEN - 1 ==> control.we
      modifies this, rxBuf
      ensures Valid() && Background()
      ensures |TxRing()| <= |old(TxRing())| && (full <==> |TxRing()| == BUF_LEN - 1)
      ensures spinning ==> full && control.we && hostInactive < timeout
      ensures !spinning && full ==> HostGone()
    {
      left, spinning := AwaitDrain(out, polls);
      if !spinning {
        Interrupts();
      }
      NoAbaOut(BUF_LEN, out, txOut, txIn);
      full := out == txOut;
    }

    /** Write, altera_avalon_jtag_uart_write: append to the transmit ring, blocking while it is full. */
    method Write(data: seq<Byte>, nonblock: bool, polls: nat) returns (r: Progress)
      requires AtRest()
      modifies this, rxBuf, txBuf
      ensures Valid() && !rxGap && !txGap && delivered == old(delivered)
      // a call that returns has appended exactly what it says, or nothing and an error
      ensures r.Returned? && r.rc > 0 ==> r.rc <= |data| && accepted == old(accepted) + data[..r.rc]
      ensures r.Returned? && r.rc <= 0 ==>
                accepted == old(accepted) && r.rc == if nonblock then -EWOULDBLOCK else -EIO
      // a non-blocking call comes back short only when it has used all the room there was
      ensures r.Returned? && nonblock && r.rc < |data| && data != [] ==>
                |old(TxRing())| + (if r.rc > 0 then r.rc else 0) >= BUF_LEN - 1
      // a blocking call comes back short only if the host was gone, with the ring still full
      ensures r.Returned? && !nonblock && r.rc < |data| && data != [] ==> HostGone() && |TxRing()| == BUF_LEN - 1
      // a call still spinning faces a full ring whose drain is enabled
      ensures r.Polling? ==> !nonblock && r.done < |data| && accepted == old(accepted) + data[..r.done]
      ensures r.Polling? ==> |TxRing()| == BUF_LEN - 1 && control.we && hostInactive < timeout
    {
      hide Ring, Occupied, RoomAhead;
      var done, left := 0, polls;
      while true
        invariant Valid() && WriterFrame() && !txGap
        invariant 0 <= done <= |data| && accepted == old(accepted) + data[..done]
        invariant done == |data| ==> data == []
        decreases |data| - done, |TxRing()|
      {
        var taken, out := FillAndEnable(data[done..]);
        PrefixGrows(data, done, taken);
        done := done + taken;
        if done == |data| || nonblock {
          break;
        }
        var spinning, full;
        left, spinning, full := AwaitRoom(out, left);
        if spinning {
          return Polling(done);
        }
        if full {
          break;
        }
      }
      if done != 0 {
        r := Returned(done);
      } else if nonblock {
        r := Returned(-EWOULDBLOCK);
      } else {
        r := Returned(-EIO);
      }
    }

    /** What a reader leaves alone on the write side. */
    twostate predicate ReaderFrame()
      reads this
    {
      && txIn == old(txIn) && accepted == old(accepted) && txGap == old(txGap)
      && timeout == old(timeout) && old(line) <= line && old(popped) <= popped && Watched()
    }

    /** Interrupts only append to the receive ring. */
    twostate lemma RxRingGrows()
      requires old(Valid()) && Valid() && Background()
      ensures old(RxRing()) <= RxRing()
    {
      hide Ring, Occupied;
      var n := |old(RxRing())|;
      assert old(RxRing()) == old(popped)[|delivered|..];
      assert RxRing() == popped[|delivered|..];
      assert popped[..|old(popped)|] == old(popped);
      assert RxRing()[..n] == popped[|delivered|..|delivered| + n];
    }

    /** Copy the n oldest bytes out, with interrupts between any two bytes. */
    method CopyOut(buffer: array<Byte>, at: nat, n: nat)
      requires Valid() && n <= |RxRing()| && rxOut + n <= BUF_LEN
      requires at + n <= buffer.Length && buffer != rxBuf && buffer != txBuf
      modifies this, rxBuf, buffer
      ensures Valid() && Background() && n <= |RxRing()|
      ensures buffer[..at] == old(buffer[..at]) && buffer[at..at + n] == RxRing()[..n]
    {
      hide Ring, Occupied;
      var j := 0;
      while j < n
        invariant Valid() && Background()
        invariant 0 <= j <= n <= |RxRing()|
        invariant buffer[..at] == old(buffer[..at]) && buffer[at..at + j] == RxRing()[..j]
      {
        RingAt(rxBuf[..], rxOut, rxIn, j);
        buffer[at + j] := rxBuf[rxOut + j];
        assert buffer[at..at + j + 1] == RxRing()[..j + 1];
        label copied:
        Interrupts();
        RxRingGrows@copied();
        j := j + 1;
      }
    }

    /** Release the n oldest slots. */
    method PublishRx(n: nat)
      requires Valid() && 0 < n <= |RxRing()| && rxOut + n <= BUF_LEN
      modifies this`rxOut, this`delivered, this`rxGap
      ensures Valid() && rxGap && delivered == old(delivered) + old(RxRing())[..n]
    {
      hide Ring, Occupied;
      PopRun(rxBuf[..], rxOut, rxIn, n);
      delivered, rxGap := delivered + RxRing()[..n], true;
      rxOut := (rxOut + n) % BUF_LEN;
    }

    /** One pass of the read loop. */
    method Take(buffer: array<Byte>, at: nat, n: nat)
      requires Valid() && 0 < n <= |RxRing()| && rxOut + n <= BUF_LEN
      requires at + n <= buffer.Length && buffer != rxBuf && buffer != txBuf
      modifies this, rxBuf, buffer
      ensures Valid() && ReaderFrame() && rxGap
      ensures buffer[..at] == old(buffer[..at])
      ensures delivered == old(delivered) + buffer[at..at + n]
    {
      hide Ring, Occupied;
      CopyOut(buffer, at, n);
      PublishRx(n);
    }

    /** The inner loop of a read: take chunks until the ring or the caller's space runs out.
        Returns the count taken and the last snapshot of `rx_in`. */
    method DrainRing(buffer: array<Byte>, space: nat) returns (got: nat, into: nat)
      requires Valid() && 0 < space <= buffer.Length && buffer != rxBuf && buffer != txBuf
      modifies this, rxBuf, buffer
      ensures Valid() && ReaderFrame()
      ensures got <= space && delivered == old(delivered) + buffer[..got]
      ensures got == 0 ==> rxGap == old(rxGap) && into == rxOut && old(RxRing()) == []
      ensures got > 0 ==> rxGap
      // it stops short only when it has taken all there was
      ensures got < space ==> got >= |old(RxRing())|
    {
      hide Ring, Occupied;
      got, into := 0, 0;
      while true
        invariant Valid() && ReaderFrame()
        invariant got <= space && delivered == old(delivered) + buffer[..got]
        invariant got == 0 ==> rxGap == old(rxGap) && rxOut == old(rxOut) && |old(RxRing())| <= |RxRing()|
        invariant got > 0 ==> rxGap
        invariant got < space
        decreases space - got
      {
        label snapshot:
        Interrupts();
        RxRingGrows@snapshot();
        into := rxIn;
        var n := RunAhead(rxOut, into);
        if n == 0 {
          break;
        }
        if n > space - got {
          n := space - got;
        }
        ghost var before := buffer[..got];
        Take(buffer, got, n);
        assert buffer[..got + n] == before + buffer[got..got + n];
        got := got + n;
        if got == space {
          break;
        }
      }
    }

    /** Spin until a byte arrives or the host is declared gone. */
    method AwaitData(into: nat, polls: nat) returns (left: nat, spinning: bool)
      requires Valid() && into == rxOut
      modifies this, rxBuf
      ensures Valid() && Background()
      ensures into == rxIn <==> RxRing() == []
      ensures into == rxIn <==> popped == delivered
      ensures spinning ==> into == rxIn && hostInactive < timeout
      ensures !spinning && into == rxIn ==> hostInactive >= timeout
    {
      left, spinning := polls, false;
      while into == rxIn && hostInactive < timeout
        invariant Valid() && Background()
        decreases left
      {
        if left == 0 {
          spinning := true;
          return;
        }
        left := left - 1;
        Interrupts();
      }
      NoAbaIn(BUF_LEN, rxOut, into, rxIn);
    }

    /** There is room again: the device may interrupt. */
    method EnableRead()
      requires Valid()
      modifies `irqEnable, `control, `rxGap
      ensures Valid() && control == old(control).(re := true) && !rxGap
    {
      irqEnable := irqEnable.(re := true);
      control, rxGap := irqEnable, false;
    }

    /** Read, altera_avalon_jtag_uart_read: take what the receive ring holds, blocking while it is empty. */
    method Read(buffer: array<Byte>, space: nat, nonblock: bool, polls: nat)
      returns (r: Progress)
      requires AtRest() && space <= buffer.Length && buffer != rxBuf && buffer != txBuf
      modifies this, rxBuf, buffer
      ensures AtRest() && accepted == old(accepted)
      // a call that returns has delivered exactly the bytes it counts, or none and an error
      ensures r.Returned? && r.rc > 0 ==> r.rc <= space && delivered == old(delivered) + buffer[..r.rc]
      ensures r.Returned? && r.rc <= 0 ==>
                delivered == old(delivered) && r.rc == if nonblock then -EWOULDBLOCK else -EIO
      // a call that returns has taken all that was there before it, or filled its buffer
      ensures r.Returned? && r.rc < space && space > 0 ==> (if r.rc > 0 then r.rc else 0) >= |old(RxRing())|
      // a blocking call fails only if the host was gone, with the ring still empty
      ensures r.Returned? && r.rc <= 0 && !nonblock && space > 0 ==> HostGone() && RxRing() == []
      // a call still spinning faces an empty ring that the device may still fill
      ensures r.Polling? ==> !nonblock && r.done == 0 && delivered == old(delivered)
      ensures r.Polling? ==> RxRing() == [] && control.re && hostInactive < timeout
    {
      hide Ring, Occupied, RunAhead;
      var got, left := 0, polls;
      while got == 0 && space > 0
        invariant Valid() && ReaderFrame() && !txGap
        invariant got == 0 && delivered == old(delivered) && !rxGap
        decreases got == 0, RxRing() == []
      {
        assert |popped| - |delivered| == |RxRing()| && |RxRing()| >= |old(RxRing())|;
        var into;
        got, into := DrainRing(buffer, space);
        if got != 0 || nonblock {
          break;
        }
        var spinning;
        left, spinning := AwaitData(into, left);
        if spinning {
          return Polling(0);
        }
        Interrupts();
        if into == rxIn {
          break;
        }
      }
      if got != 0 {
        Interrupts();
        EnableRead();
        r := Returned(got);
      } else if nonblock {
        r := Returned(-EWOULDBLOCK);
      } else {
        r := Returned(-EIO);
      }
    }

    /** Close, altera_avalon_jtag_uart_close: wait for the transmit ring to drain. */
    method Close(nonblock: bool, polls: nat) returns (r: Progress)
      requires AtRest()
      modifies this, rxBuf
      ensures AtRest() && Background()
      ensures r == Returned(0) ==> accepted == line || hostInactive >= timeout
      ensures r.Returned? && r.rc != 0 ==> nonblock && r.rc == -EWOULDBLOCK && TxRing() != [] && hostInactive < timeout
      ensures r.Polling? ==> !nonblock && TxRing() != [] && control.we && hostInactive < timeout
    {
      var left := polls;
      while txOut != txIn && hostInactive < timeout
        invariant AtRest() && Background()
        decreases left
      {
        if nonblock {
          return Returned(-EWOULDBLOCK);
        }
        if left == 0 {
          return Polling(0);
        }
        left := left - 1;
        Interrupts();
      }
      r := Returned(0);
    }
  }

  /** How many bytes fit in one piece behind `into`, by a snapshot of the read index. */
  function RoomAhead(into: nat, out: nat): (n: nat)
    requires into < BUF_LEN && out < BUF_LEN
    ensures into + n <= BUF_LEN && Occupied(BUF_LEN, out, into) + n < BUF_LEN
    ensures n == 0 <==> Occupied(BUF_LEN, out, into) == BUF_LEN - 1
  {
    if into < out then out - 1 - into
    else if out > 0 then BUF_LEN - into
    else BUF_LEN - 1 - into
  }

  /** How many bytes can be taken in one piece from `out`, by a snapshot of the write index. */
  function RunAhead(out: nat, into: nat): (n: nat)
    requires into < BUF_LEN && out < BUF_LEN
    ensures out + n <= BUF_LEN && n <= Occupied(BUF_LEN, out, into)
    ensures n == 0 <==> out == into
  {
    if into >= out then into - out else BUF_LEN - out
  }

  datatype Call =
    | WriteCall(data: seq<Byte>, nonblock: bool)
    | ReadCall(space: nat, nonblock: bool)
    | CloseCall(nonblock: bool)

  /** A call's return value, and the bytes a read handed over. */
  datatype Answer = Answer(rc: int, bytes: seq<Byte>)

  /** The bytes the driver says it took in one call. */
  function TakenBy(call: Call, answer: Answer): (s: seq<Byte>)
  {
    match call
    case WriteCall(data, _) => if 0 <= answer.rc <= |data| then data[..answer.rc] else []
    case _ => []
  }

  /** The bytes the driver says it took, over a whole session. */
  function Taken(calls: seq<Call>, answers: seq<Answer>): (s: seq<Byte>)
    requires |answers| <= |calls|
  {
    if answers == [] then []
    else
      var k := |answers| - 1;
      Taken(calls, answers[..k]) + TakenBy(calls[k], answers[k])
  }

  /** The bytes the driver handed over. */
  function Given(answers: seq<Answer>): (s: seq<Byte>)
  {
    if answers == [] then []
    else Given(answers[..|answers| - 1]) + answers[|answers| - 1].bytes
  }

  /** One call of a session. A call that is still spinning answers with what it has done so far. */
  method Serve(uart: Uart, call: Call, polls: nat) returns (answer: Answer, blocked: bool)
    requires uart.AtRest()
    modifies uart, uart.rxBuf, uart.txBuf
    ensures uart.AtRest()
    ensures uart.accepted == old(uart.accepted) + TakenBy(call, answer)
    ensures uart.delivered == old(uart.delivered) + answer.bytes
  {
    hide Ring, Occupied;
    match call {
      case WriteCall(data, nonblock) =>
        var r := uart.Write(data, nonblock, polls);
        answer, blocked := Answer(if r.Returned? then r.rc else r.done, []), r.Polling?;
      case ReadCall(space, nonblock) =>
        var buffer := new Byte[space];
        var r := uart.Read(buffer, space, nonblock, polls);
        answer := if r.Returned? then Answer(r.rc, if r.rc > 0 then buffer[..r.rc] else []) else Answer(0, []);
        blocked := r.Polling?;
      case CloseCall(nonblock) =>
        var r := uart.Close(nonblock, polls);
        answer, blocked := Answer(if r.Returned? then r.rc else 0, []), r.Polling?;
    }
  }

  /** Any session of calls under any interrupts: what was taken is what was sent followed by what is
      queued, and what was handed over followed by what is queued is what the device received. The
      session stops early only at a call that is still spinning when its polls run out. */
  method Session(uart: Uart, calls: seq<Call>, polls: nat) returns (answers: seq<Answer>, blocked: bool)
    requires uart.AtRest() && uart.accepted == uart.delivered == []
    modifies uart, uart.rxBuf, uart.txBuf
    ensures uart.AtRest() && |answers| <= |calls|
    ensures Taken(calls, answers) == uart.line + uart.TxRing()
    ensures Given(answers) + uart.RxRing() == uart.popped
    ensures !blocked ==> |answers| == |calls|
  {
    hide Ring, Occupied;
    answers, blocked := [], false;
    for k := 0 to |calls|
      invariant uart.AtRest() && |answers| == k && !blocked
      invariant Taken(calls, answers) == uart.accepted && Given(answers) == uart.delivered
    {
      uart.Interrupts();
      var answer;
      answer, blocked := Serve(uart, calls[k], polls);
      assert (answers + [answer])[..k] == answers;
      answers := answers + [answer];
      if blocked {
        return;
      }
    }
  }
}
