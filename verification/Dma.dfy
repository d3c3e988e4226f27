/** Memory-to-memory DMA: two descriptor rings that advance in lockstep, with completion callbacks that may
    post further requests. */
module Dma {
  import opened Base
  import opened Rings

  const NSLOTS: nat := 4
  const EINVAL := 22
  const ENOSPC := 28

  /** A transmit descriptor. `done` names the callback, if there is one. */
  datatype TxSlot = TxSlot(from: nat, len: nat, done: Option<int>, handle: int)

  /** A receive descriptor. */
  datatype RxSlot = RxSlot(data: nat, len: nat, done: Option<int>, handle: int)

  /** What the hardware is started with. */
  datatype Transfer = Transfer(from: nat, to: nat, len: nat)

  /** A callback that was made. */
  datatype Call = TxDone(done: int, handle: int) | RxDone(done: int, handle: int, data: nat)

  function Paired(s: TxSlot, p: RxSlot): Transfer
  {
    Transfer(s.from, p.data, if s.len > p.len then p.len else s.len)
  }

  /** A transfer takes what the send describes to where the receive wants it, as much as both allow and no less. */
  lemma PairedExactly(s: TxSlot, p: RxSlot)
    ensures var t := Paired(s, p);
            && t.from == s.from && t.to == p.data
            && t.len <= s.len && t.len <= p.len && (t.len == s.len || t.len == p.len)
  {
  }

  function TxCall(s: TxSlot): seq<Call>
  {
    if s.done.Some? then [TxDone(s.done.value, s.handle)] else []
  }

  function RxCall(p: RxSlot): seq<Call>
  {
    if p.done.Some? then [RxDone(p.done.value, p.handle, p.data)] else []
  }

  /** The callbacks for completed pairs: in order, each once, the transmit one first. */
  function Calls(s: seq<TxSlot>, p: seq<RxSlot>): seq<Call>
    requires |s| == |p|
  {
    if s == [] then []
    else Calls(s[..|s| - 1], p[..|p| - 1]) + TxCall(s[|s| - 1]) + RxCall(p[|p| - 1])
  }

  /** The transmit callbacks in a list of calls. */
  function OfTx(calls: seq<Call>): seq<Call>
  {
    if calls == [] then []
    else OfTx(calls[..|calls| - 1]) + (if calls[|calls| - 1].TxDone? then [calls[|calls| - 1]] else [])
  }

  function TxCalls(s: seq<TxSlot>): seq<Call>
  {
    if s == [] then [] else TxCalls(s[..|s| - 1]) + TxCall(s[|s| - 1])
  }

  lemma {:induction false} OfTxAppend(a: seq<Call>, b: seq<Call>)
    ensures OfTx(a + b) == OfTx(a) + OfTx(b)
  {
    if b == [] {
      assert a + b == a;
    } else {
      OfTxAppend(a, b[..|b| - 1]);
      assert (a + b)[..|a + b| - 1] == a + b[..|b| - 1];
    }
  }

  /** However the receive callbacks fall, every transmit callback is made exactly once and in order. */
  lemma {:induction false} TxOnceInOrder(s: seq<TxSlot>, p: seq<RxSlot>)
    requires |s| == |p|
    ensures OfTx(Calls(s, p)) == TxCalls(s)
  {
    if s != [] {
      var n := |s| - 1;
      TxOnceInOrder(s[..n], p[..n]);
      OfTxAppend(Calls(s[..n], p[..n]) + TxCall(s[n]), RxCall(p[n]));
      OfTxAppend(Calls(s[..n], p[..n]), TxCall(s[n]));
      if p[n].done.Some? {
        assert RxCall(p[n])[..0] == [];
      }
      if s[n].done.Some? {
        assert TxCall(s[n])[..0] == [];
      }
    }
  }

  /** Every completed request with a callback is among the calls, with its own handle and data. */
  lemma {:induction false} EachCalled(s: seq<TxSlot>, p: seq<RxSlot>, k: nat)
    requires k < |s| == |p|
    ensures s[k].done.Some? ==> TxDone(s[k].done.value, s[k].handle) in Calls(s, p)
    ensures p[k].done.Some? ==> RxDone(p[k].done.value, p[k].handle, p[k].data) in Calls(s, p)
    decreases |s|
  {
    var n := |s| - 1;
    if k < n {
      EachCalled(s[..n], p[..n], k);
    } else {
      assert s[k].done.Some? ==> TxCall(s[n]) == [TxDone(s[k].done.value, s[k].handle)];
      assert p[k].done.Some? ==> RxCall(p[n]) == [RxDone(p[k].done.value, p[k].handle, p[k].data)];
    }
  }

  /** And there are no others: if every send has a callback, the k-th transmit callback is that of the k-th send. */
  lemma {:induction false} CalledInOrder(s: seq<TxSlot>, k: nat)
    requires k < |s| && forall j :: 0 <= j < |s| ==> s[j].done.Some?
    ensures |TxCalls(s)| == |s| && TxCalls(s)[k] == TxDone(s[k].done.value, s[k].handle)
    decreases |s|
  {
    var n := |s| - 1;
    if k < n {
      CalledInOrder(s[..n], k);
    } else if n > 0 {
      CalledInOrder(s[..n], 0);
    }
  }

  /** One more completed pair. */
  lemma CallsNext(s: seq<TxSlot>, p: seq<RxSlot>, n: nat)
    requires n < |s| && n < |p|
    ensures Calls(s[..n + 1], p[..n + 1]) == Calls(s[..n], p[..n]) + TxCall(s[n]) + RxCall(p[n])
  {
    assert s[..n + 1][..n] == s[..n] && p[..n + 1][..n] == p[..n];
  }

  /** What callbacks posted to the channel of a foreground call while it ran: how many requests were accepted between
      its reading the start and the end of the ring, and between its reading the end and storing the new one. Did it
      change a request that was queued when it filled its slot? When it stores the end: is there room in the ring,
      and does the slot hold the request? */
  datatype Race = Race(early: nat, late: nat, hit: bool, room: bool, kept: bool)
  {
    /** No callback posted between the first read and the store. */
    predicate Undisturbed() {
      early == 0 && late == 0
    }

    /** The queue was left alone, and the end that is stored is the one behind it and adds the request. */
    predicate Clean() {
      !hit && late % NSLOTS == 0 && room && kept
    }
  }

  const NO_RACE := Race(0, 0, false, true, true)

  predicate Accepted<T(==)>(k: nat, posts: seq<T>, request: T)
  {
    k < |posts| && posts[k] == request
  }

  /** A slot with the next field of a request stored, in the order in which they are stored. */
  function WithTx(slot: TxSlot, request: TxSlot, field: nat): TxSlot
    requires field < 4
  {
    match field
    case 0 => slot.(from := request.from)
    case 1 => slot.(len := request.len)
    case 2 => slot.(done := request.done)
    case _ => slot.(handle := request.handle)
  }

  predicate HasTx(slot: TxSlot, request: TxSlot, fields: nat) {
    && (fields > 0 ==> slot.from == request.from) && (fields > 1 ==> slot.len == request.len)
    && (fields > 2 ==> slot.done == request.done) && (fields > 3 ==> slot.handle == request.handle)
  }

  lemma HasAllTx(slot: TxSlot, request: TxSlot)
    requires HasTx(slot, request, 4)
    ensures slot == request
  {
  }

  lemma HasNextTx(slot: TxSlot, request: TxSlot, field: nat)
    requires field < 4
    ensures HasTx(slot, request, field) ==> HasTx(WithTx(slot, request, field), request, field + 1)
  {
  }

  function WithRx(slot: RxSlot, request: RxSlot, field: nat): RxSlot
    requires field < 4
  {
    match field
    case 0 => slot.(data := request.data)
    case 1 => slot.(len := request.len)
    case 2 => slot.(done := request.done)
    case _ => slot.(handle := request.handle)
  }

  predicate HasRx(slot: RxSlot, request: RxSlot, fields: nat) {
    && (fields > 0 ==> slot.data == request.data) && (fields > 1 ==> slot.len == request.len)
    && (fields > 2 ==> slot.done == request.done) && (fields > 3 ==> slot.handle == request.handle)
  }

  lemma HasAllRx(slot: RxSlot, request: RxSlot)
    requires HasRx(slot, request, 4)
    ensures slot == request
  {
  }

  lemma HasNextRx(slot: RxSlot, request: RxSlot, field: nat)
    requires field < 4
    ensures HasRx(slot, request, field) ==> HasRx(WithRx(slot, request, field), request, field + 1)
  {
  }

  /** The slot of the k-th request of a channel. */
  function Slot(k: nat): (i: nat)
    ensures i < NSLOTS
  {
    k % NSLOTS
  }

  lemma NextSlot(k: nat)
    ensures Next(Slot(k)) == Slot(k + 1)
  {
  }

  class Channels {
    const txBuf: array<TxSlot>
    const rxBuf: array<RxSlot>
    var txStart: nat
    var txEnd: nat
    var rxStart: nat
    var rxEnd: nat
    const alignMask: nat
    const maxLength: nat
    var active: bool
    /** The transfer the hardware is working on. */
    var inFlight: Option<Transfer>
    /** History: the accepted requests, the transfers started, the transfers completed, the callbacks made. */
    var sends: seq<TxSlot>
    var prepares: seq<RxSlot>
    ghost var launched: seq<Transfer>
    ghost var completed: nat
    ghost var calls: seq<Call>

    ghost predicate Shape()
      reads `txStart, `txEnd, `rxStart, `rxEnd
    {
      && alignMask in {0x0, 0x1, 0x3, 0x7, 0xF} && txBuf.Length == NSLOTS && rxBuf.Length == NSLOTS
      && txStart < NSLOTS && txEnd < NSLOTS && rxStart < NSLOTS && rxEnd < NSLOTS
    }

    /** The rings hold the accepted requests that are not completed, and both have released the same number. */
    ghost predicate Queues()
      reads `txStart, `txEnd, `rxStart, `rxEnd, `sends, `prepares, `completed, txBuf, rxBuf
    {
      && Shape()
      && completed <= |sends| && completed <= |prepares|
      && txStart == Slot(completed) && rxStart == Slot(completed)
      && Ring(txBuf[..], txStart, txEnd) == sends[completed..]
      && Ring(rxBuf[..], rxStart, rxEnd) == prepares[completed..]
    }

    /** The k-th transfer started pairs the k-th send with the k-th prepare; one at most is under way. */
    ghost predicate Lockstep()
      reads `sends, `prepares, `completed, `launched, `active, `inFlight
    {
      && completed <= |sends| && completed <= |prepares|
      && |launched| == completed + (if active then 1 else 0)
      && |launched| <= |sends| && |launched| <= |prepares|
      && (forall k :: 0 <= k < |launched| ==> launched[k] == Paired(sends[k], prepares[k]))
      && inFlight == if active then Some(launched[completed]) else None
    }

    /** What interrupts keep. `gap` is the moment between publishing a request and looking at `active`. */
    ghost predicate Core(gap: bool)
      reads `txStart, `txEnd, `rxStart, `rxEnd, `sends, `prepares, `completed, `launched, `active, `inFlight, txBuf, rxBuf
    {
      && Queues() && Lockstep()
      && (active || gap || txStart == txEnd || rxStart == rxEnd)
    }

    /** At rest the hardware runs exactly when both rings hold a request, and all callbacks are made. */
    ghost predicate Valid()
      reads this, txBuf, rxBuf
    {
      && Core(false)
      && (active <==> txStart != txEnd && rxStart != rxEnd)
      && CallsMade()
    }

    ghost predicate CallsMade()
      requires completed <= |sends| && completed <= |prepares|
      reads `calls, `sends, `prepares, `completed
    {
      calls == Calls(sends[..completed], prepares[..completed])
    }

    /** The number of queued requests is the number accepted and not completed. */
    ghost predicate Counted()
      reads `txStart, `txEnd, `rxStart, `rxEnd, `sends, `prepares, `completed
    {
      && Shape()
      && completed <= |sends| && completed <= |prepares|
      && Occupied(NSLOTS, txStart, txEnd) == |sends| - completed
      && Occupied(NSLOTS, rxStart, rxEnd) == |prepares| - completed
      && txStart == Slot(completed) && rxStart == Slot(completed) && txEnd == Slot(|sends|) && rxEnd == Slot(|prepares|)
    }

    /** The history only grows, and a channel to which nothing was posted keeps its slots. */
    twostate predicate Later()
      reads this, txBuf, rxBuf
    {
      && old(sends) <= sends && old(prepares) <= prepares && old(completed) <= completed
      && (sends == old(sends) ==> txBuf[..] == old(txBuf[..]))
      && (prepares == old(prepares) ==> rxBuf[..] == old(rxBuf[..]))
    }

    /** No transfer completed and no callback was made. */
    twostate predicate NoneCompleted()
      reads this
    {
      completed == old(completed) && calls == old(calls) && txStart == old(txStart) && rxStart == old(rxStart)
    }

    constructor (alignMask: nat, maxLength: nat)
      requires alignMask in {0x0, 0x1, 0x3, 0x7, 0xF}
      ensures Valid() && sends == [] && prepares == [] && this.alignMask == alignMask && this.maxLength == maxLength
      ensures fresh(txBuf) && fresh(rxBuf)
    {
      txBuf := new TxSlot[NSLOTS](_ => TxSlot(0, 0, None, 0));
      rxBuf := new RxSlot[NSLOTS](_ => RxSlot(0, 0, None, 0));
      txStart, txEnd, rxStart, rxEnd := 0, 0, 0, 0;
      this.alignMask, this.maxLength := alignMask, maxLength;
      active, inFlight := false, None;
      sends, prepares, launched, completed, calls := [], [], [], 0, [];
    }

    /** alt_avalon_dma_launch_bidir. */
    method Launch()
      requires Shape()
      modifies `active, `inFlight, `launched
      ensures active <==> txStart != txEnd && rxStart != rxEnd
      ensures inFlight == if active then Some(Paired(txBuf[txStart], rxBuf[rxStart])) else None
      // from the oldest send to the oldest receive, no more than either holds, and all that both allow
      ensures active ==> inFlight.value.from == txBuf[txStart].from && inFlight.value.to == rxBuf[rxStart].data
      ensures active ==> inFlight.value.len <= txBuf[txStart].len && inFlight.value.len <= rxBuf[rxStart].len
      ensures active ==> inFlight.value.len == txBuf[txStart].len || inFlight.value.len == rxBuf[rxStart].len
      ensures launched == old(launched) + (if active then [Paired(txBuf[txStart], rxBuf[rxStart])] else [])
      ensures old(Idle()) ==> Core(false)
    {
      hide Ring, Slot;
      if Idle() {
        Heads();
      }
      if txStart != txEnd && rxStart != rxEnd {
        active := true;
        var tx, rx := txBuf[txStart], rxBuf[rxStart];
        inFlight := Some(Transfer(tx.from, rx.data, if tx.len > rx.len then rx.len else tx.len));
        launched := launched + [inFlight.value];
      } else {
        active := false;
        inFlight := None;
      }
    }

    /** In order, with no transfer under way. */
    ghost predicate Idle()
      reads `txStart, `txEnd, `rxStart, `rxEnd, `sends, `prepares, `completed, `launched, txBuf, rxBuf
    {
      && Queues() && |launched| == completed
      && forall k :: 0 <= k < |launched| ==> launched[k] == Paired(sends[k], prepares[k])
    }

    /** The oldest request of a channel is in the slot behind the start. */
    lemma Heads()
      requires Queues()
      ensures txStart != txEnd ==> completed < |sends| && txBuf[txStart] == sends[completed]
      ensures rxStart != rxEnd ==> completed < |prepares| && rxBuf[rxStart] == prepares[completed]
    {
      if txStart != txEnd {
        RingAt(txBuf[..], txStart, txEnd, 0);
      }
      if rxStart != rxEnd {
        RingAt(rxBuf[..], rxStart, rxEnd, 0);
      }
    }

    /** The check of `active` behind a publication. */
    method StartIdle()
      requires Shape()
      modifies `active, `inFlight, `launched
      ensures old(active) ==> active && inFlight == old(inFlight) && launched == old(launched)
      ensures !old(active) ==> (active <==> txStart != txEnd && rxStart != rxEnd)
      ensures !old(active) ==>
                launched == old(launched) + (if active then [Paired(txBuf[txStart], rxBuf[rxStart])] else [])
      ensures old(Core(true)) ==> Core(false)
    {
      if !active {
        Launch();
      }
    }

    predicate Misaligned(address: nat, len: nat)
    {
      address % (alignMask + 1) != 0 || len % (alignMask + 1) != 0 || len > maxLength
    }

    lemma MisalignedIs(address: nat, len: nat)
      ensures Misaligned(address, len) <==>
                address % (alignMask + 1) != 0 || len % (alignMask + 1) != 0 || len > maxLength
    {
    }

    lemma Unmasked()
      requires alignMask == 0
      ensures forall address: nat, len: nat :: len <= maxLength ==> !Misaligned(address, len)
    {
    }

    /** A callback posts whatever it likes to both channels. It runs with interrupts off. */
    method Callback()
      requires Core(false)
      modifies this, txBuf, rxBuf
      ensures Core(false) && Later() && NoneCompleted()
      ensures txBuf[Before(txStart)] == old(txBuf[Before(txStart)]) && rxBuf[Before(rxStart)] == old(rxBuf[Before(rxStart)])
      decreases 1, 0
    {
      var posts: int := *;
      while posts > 0
        invariant Core(false) && Later() && NoneCompleted()
        invariant txBuf[Before(txStart)] == old(txBuf[Before(txStart)]) && rxBuf[Before(rxStart)] == old(rxBuf[Before(rxStart)])
        decreases posts
      {
        var tx: bool := *;
        var rc, race;
        if tx {
          var request: TxSlot := *;
          rc, race := Send(request, false);
        } else {
          var request: RxSlot := *;
          rc, race := Prepare(request, false);
        }
        posts := posts - 1;
      }
    }

    /** alt_avalon_dma_irq: release the completed pair, start the next, then call back. The slots of the
        completed pair are read after requests may have been posted. */
    method Irq(ghost gap: bool)
      requires Core(gap) && active && CallsMade()
      modifies this, txBuf, rxBuf
      ensures Core(false) && Later() && CallsMade() && completed == old(completed) + 1
      decreases 2
    {
      hide Core, Calls;
      ghost var n := completed;
      Bounds(gap);
      CallsNext(sends, prepares, n);
      var t, r := Retire(gap);
      Bounds(false);
      NotifyTx(t);
      NotifyRx(r);
      CallsStay(old(sends), sends, old(prepares), prepares, n + 1);
    }

    /** Call back for the released transmit slot t. */
    method NotifyTx(t: nat)
      requires Core(false) && t < NSLOTS && Shape()
      modifies this, txBuf, rxBuf
      ensures Core(false) && Later() && Shape()
      ensures completed == old(completed) && txStart == old(txStart) && rxStart == old(rxStart)
      ensures calls == old(calls) + TxCall(old(txBuf[t]))
      ensures calls == old(calls) + if old(txBuf[t]).done.Some? then [TxDone(old(txBuf[t]).done.value, old(txBuf[t]).handle)] else []
      ensures rxBuf[Before(rxStart)] == old(rxBuf[Before(rxStart)])
      decreases 1, 1
    {
      hide Core;
      if txBuf[t].done.Some? {
        calls := calls + [TxDone(txBuf[t].done.value, txBuf[t].handle)];
        Callback();
        Bounds(false);
      }
    }

    method NotifyRx(r: nat)
      requires Core(false) && r < NSLOTS && Shape()
      modifies this, txBuf, rxBuf
      ensures Core(false) && Later() && Shape()
      ensures completed == old(completed) && txStart == old(txStart) && rxStart == old(rxStart)
      ensures calls == old(calls) + RxCall(old(rxBuf[r]))
      ensures calls == old(calls) + if old(rxBuf[r]).done.Some? then [RxDone(old(rxBuf[r]).done.value, old(rxBuf[r]).handle, old(rxBuf[r]).data)] else []
      decreases 1, 1
    {
      hide Core;
      if rxBuf[r].done.Some? {
        calls := calls + [RxDone(rxBuf[r].done.value, rxBuf[r].handle, rxBuf[r].data)];
        Callback();
        Bounds(false);
      }
    }

    /** Release the completed pair and start the next. */
    method Retire(ghost gap: bool) returns (t: nat, r: nat)
      requires Shape() && active
      modifies `inFlight, `txStart, `rxStart, `completed, `active, `launched
      ensures t == old(txStart) && r == old(rxStart) && txStart == Next(t) && rxStart == Next(r)
      ensures t == Before(txStart) && r == Before(rxStart) && completed == old(completed) + 1
      ensures active <==> txStart != txEnd && rxStart != rxEnd
      ensures launched == old(launched) + (if active then [Paired(txBuf[txStart], rxBuf[rxStart])] else [])
      ensures old(Core(gap)) ==> Core(false) && old(completed) < |sends| && old(completed) < |prepares|
      ensures old(Core(gap)) ==> txBuf[t] == sends[old(completed)] && rxBuf[r] == prepares[old(completed)]
    {
      hide Ring, Paired, Slot, Next, Before, Occupied;
      t, r := txStart, rxStart;
      if Core(gap) {
        Popped(t, r);
        NextSlot(completed);
      }
      inFlight := None;
      txStart, rxStart := Next(t), Next(r);
      completed := completed + 1;
      BeforeNext(t);
      BeforeNext(r);
      Launch();
    }

    lemma Bounds(gap: bool)
      requires Core(gap)
      ensures Counted()
      ensures active ==> completed < |sends| && completed < |prepares|
      ensures !gap && completed < |sends| && completed < |prepares| ==> active
    {
      hide Ring, Occupied, Slot, Paired;
      assert |Ring(txBuf[..], txStart, txEnd)| == |sends[completed..]|;
      assert |Ring(rxBuf[..], rxStart, rxEnd)| == |prepares[completed..]|;
      EndSlot(completed, |sends|, txEnd);
      EndSlot(completed, |prepares|, rxEnd);
    }

    lemma Popped(t: nat, r: nat)
      requires Queues() && t == txStart && r == rxStart && t != txEnd && r != rxEnd
      ensures txBuf[t] == sends[completed] && rxBuf[r] == prepares[completed]
      ensures Ring(txBuf[..], Next(t), txEnd) == sends[completed + 1..]
      ensures Ring(rxBuf[..], Next(r), rxEnd) == prepares[completed + 1..]
    {
      RingAt(txBuf[..], t, txEnd, 0);
      RingAt(rxBuf[..], r, rxEnd, 0);
      PopRun(txBuf[..], t, txEnd, 1);
      PopRun(rxBuf[..], r, rxEnd, 1);
    }

    /** Completions that interrupt the foreground. */
    method Background(ghost gap: bool)
      requires Core(gap) && CallsMade()
      modifies this, txBuf, rxBuf
      ensures Core(gap) && Later() && CallsMade()
      decreases 3
    {
      var irqs: int := *;
      while irqs > 0
        invariant Core(gap) && Later() && CallsMade()
        decreases irqs
      {
        if active {
          Irq(gap);
        }
        irqs := irqs - 1;
      }
    }

    /** Store a descriptor, or one with a field changed. This changes the queue exactly if the slot is queued and held
        something else. */
    method StoreTx(value: TxSlot, end: nat) returns (hit: bool)
      requires Shape() && end < NSLOTS
      modifies txBuf
      ensures txBuf[..] == old(txBuf[..])[end := value]
      ensures hit == (TxQueued(end) && old(txBuf[end]) != value)
      ensures old(Core(false)) ==> if hit then !Queues() else Core(false)
    {
      hide Paired, Calls;
      hit := TxQueued(end) && txBuf[end] != value;
      StoreExact(txBuf[..], txStart, txEnd, end, value);
      txBuf[end] := value;
    }

    /** The slot holds a queued request. */
    predicate TxQueued(i: nat)
      requires Shape() && i < NSLOTS
      reads `txStart, `txEnd, `rxStart, `rxEnd
    {
      Occupied(NSLOTS, txStart, i) < Occupied(NSLOTS, txStart, txEnd)
    }

    /** Make the filled slot part of the queue: right exactly when it is still the free slot behind the queue and the
        ring has room. */
    method PublishTx(request: TxSlot, end: nat)
      requires Shape() && end < NSLOTS && completed <= |sends| && completed <= |prepares|
      modifies `txEnd, `sends
      ensures completed <= |sends| && completed <= |prepares| && (old(CallsMade()) ==> CallsMade())
      ensures sends == old(sends) + [request] && txEnd == Next(end)
      ensures old(Counted()) && !(end == old(txEnd) && old(TxRoom()) && txBuf[end] == request) ==> !Queues()
      ensures old(Core(false)) && end == old(txEnd) && old(TxRoom()) && txBuf[end] == request ==> Core(true)
    {
      hide Ring, Paired, Calls, Occupied;
      CallsStay(sends, sends + [request], prepares, prepares, completed);
      if Core(false) {
        Bounds(false);
      }
      if Counted() {
        Published(txBuf[..], txStart, txEnd, end, sends, completed, request);
      }
      NextSlot(|sends|);
      sends := sends + [request];
      txEnd := Next(end);
    }

    predicate TxRoom()
      requires txStart < NSLOTS && txEnd < NSLOTS
      reads `txStart, `txEnd
    {
      Next(txEnd) != txStart
    }

    /** The indices as a call reads them, the start first. */
    method ReadTx(foreground: bool) returns (start: nat, end: nat, early: nat)
      requires Core(false) && (foreground ==> CallsMade())
      modifies this, txBuf, rxBuf
      ensures Core(false) && (foreground ==> CallsMade()) && Shape() && start == old(txStart) && end == txEnd
      ensures Next(end) == start <==> Slot(old(Occupied(NSLOTS, txStart, txEnd)) + early) == NSLOTS - 1
      ensures early == 0 && Next(end) != start ==> TxRoom()
      ensures old(sends) <= sends && old(prepares) <= prepares && old(completed) <= completed
      ensures |sends| == old(|sends|) + early
      ensures !foreground ==> early == 0 && unchanged(this, txBuf, rxBuf)
      decreases if foreground then 4 else 0, 1
    {
      hide Core, Calls, Queues, Ring, Slot, Next, Before, Occupied;
      Bounds(false);
      start := txStart;
      var posts := |sends|;
      if foreground {
        Background(false);
        Bounds(false);
      }
      end := txEnd;
      early := |sends| - posts;
      Snapshot(old(completed), completed, |sends|, posts);
    }

    /** alt_avalon_dma_send, by the foreground with completions and posting callbacks at any point, or by a callback. */
    method Send(request: TxSlot, foreground: bool) returns (rc: int, race: Race)
      requires Core(false) && (foreground ==> CallsMade())
      modifies this, txBuf, rxBuf
      ensures rc != 0 || race.Clean() ==> Core(false) && (foreground ==> CallsMade())
      ensures rc == if Misaligned(request.from, request.len) then -EINVAL
                    else if Slot(old(Occupied(NSLOTS, txStart, txEnd)) + race.early) == NSLOTS - 1 then -ENOSPC else 0
      ensures rc == -EINVAL <==>
                || request.from % (alignMask + 1) != 0 || request.len % (alignMask + 1) != 0 || request.len > maxLength
      ensures old(sends) <= sends && old(prepares) <= prepares && old(completed) <= completed
      ensures rc == 0 && !race.hit ==> Accepted(old(|sends|) + race.early + race.late, sends, request)
      ensures rc == 0 && race.Undisturbed() ==> race.Clean()
      ensures rc == 0 && !race.Clean() ==> !Queues()
      ensures !foreground ==> race == NO_RACE && NoneCompleted() && Later() && prepares == old(prepares)
      ensures !foreground ==> sends == if rc == 0 then old(sends) + [request] else old(sends)
      ensures !foreground ==> txBuf[Before(txStart)] == old(txBuf[Before(txStart)])
      decreases if foreground then 4 else 0
    {
      hide Core, Calls, Queues, Ring, Slot, Next, Before, Occupied, Accepted, Race.Clean, Misaligned;
      MisalignedIs(request.from, request.len);
      race := NO_RACE;
      if Misaligned(request.from, request.len) {
        return -EINVAL, race;
      }
      var start, end, early := ReadTx(foreground);
      race := race.(early := early);
      var next := Next(end);
      if next == start {
        return -ENOSPC, race;
      }
      race := AcceptTx(request, end, foreground, race);
      rc := 0;
    }

    /** Store one field of the descriptor. */
    method FillTx(request: TxSlot, end: nat, field: nat, foreground: bool) returns (hit: bool)
      requires Core(false) && (foreground ==> CallsMade()) && Shape() && end < NSLOTS && field < 4
      modifies this, txBuf, rxBuf
      ensures Counted() && if hit then !Queues() else Core(false) && (foreground ==> CallsMade())
      ensures old(sends) <= sends && old(prepares) <= prepares && old(completed) <= completed
      ensures sends == old(sends) && end == old(txEnd) ==>
                !hit && end == txEnd && txBuf[..] == old(txBuf[..])[end := WithTx(old(txBuf[end]), request, field)]
      ensures !foreground ==> unchanged(this, rxBuf)
      decreases if foreground then 4 else 0, 1, 0
    {
      hide Core, Calls, Queues, Ring, Slot, Next, Before, WithTx;
      Bounds(false);
      ghost var posts := |sends|;
      if foreground {
        Background(false);
        Bounds(false);
      }
      EndMoves(|sends|, posts);
      hit := StoreTx(WithTx(txBuf[end], request, field), end);
    }

    /** From reading the end to storing the new one: completions may come before and behind each field of the slot that is
        filled. A run in which the fill changes a queued request is left there. */
    method ReserveTx(request: TxSlot, end: nat, foreground: bool) returns (late: nat, hit: bool)
      requires Core(false) && (foreground ==> CallsMade()) && Shape() && end == txEnd
      requires !foreground ==> TxRoom()
      modifies this, txBuf, rxBuf
      ensures Counted() && |sends| == old(|sends|) + late && (end == txEnd <==> late % NSLOTS == 0)
      ensures if hit then !Queues() else Core(false) && (foreground ==> CallsMade())
      ensures late == 0 ==> !hit && txBuf[end] == request && (old(TxRoom()) ==> TxRoom())
      ensures old(sends) <= sends && old(prepares) <= prepares && old(completed) <= completed
      ensures !foreground ==> late == 0 && NoneCompleted() && prepares == old(prepares) && rxBuf[..] == old(rxBuf[..])
      ensures !foreground ==> sends == old(sends) && txBuf[Before(txStart)] == old(txBuf[Before(txStart)])
      decreases if foreground then 4 else 0, 1, 1
    {
      hide Core, Calls, Queues, Ring, Slot, Next, Before, Occupied, WithTx;
      Bounds(false);
      var posts := |sends|;
      hit := false;
      for field := 0 to 4
        invariant !hit && Counted() && Core(false) && (foreground ==> CallsMade())
        invariant old(sends) <= sends && old(prepares) <= prepares && old(completed) <= completed
        invariant sends == old(sends) ==> end == txEnd && HasTx(txBuf[end], request, field)
        invariant !foreground ==> unchanged(this, rxBuf) && txBuf[Before(txStart)] == old(txBuf[Before(txStart)])
      {
        HasNextTx(txBuf[end], request, field);
        hit := FillTx(request, end, field, foreground);
        if hit {
          break;
        }
      }
      if foreground && !hit {
        Background(false);
        Bounds(false);
      }
      if !hit && sends == old(sends) {
        HasAllTx(txBuf[end], request);
      }
      late := |sends| - posts;
      EndMoves(|sends|, posts);
    }

    /** Fill, publish, start if idle. A run that leaves the queue wrong is followed up to there. */
    method AcceptTx(request: TxSlot, end: nat, foreground: bool, before: Race) returns (race: Race)
      requires Core(false) && (foreground ==> CallsMade()) && Shape() && end == txEnd
      requires !foreground ==> TxRoom()
      modifies this, txBuf, rxBuf
      ensures race == Race(before.early, race.late, race.hit, race.room, race.kept)
      ensures if race.Clean() then Core(false) && (foreground ==> CallsMade()) else !Queues()
      ensures race.late == 0 && old(TxRoom()) ==> race.Clean()
      ensures old(sends) <= sends && old(prepares) <= prepares && old(completed) <= completed
      ensures !race.hit ==> Accepted(old(|sends|) + race.late, sends, request)
      ensures !foreground ==> race == Race(before.early, 0, false, true, true) && NoneCompleted() && prepares == old(prepares)
      ensures !foreground ==> Later() && sends == old(sends) + [request]
      ensures !foreground ==> txBuf[Before(txStart)] == old(txBuf[Before(txStart)])
      decreases if foreground then 4 else 0, 1, 2
    {
      hide Core, Calls, Queues, Ring, Slot, Next, Occupied, Before;
      var late, hit := ReserveTx(request, end, foreground);
      race := Race(before.early, late, hit, TxRoom(), txBuf[end] == request);
      if hit {
        return;
      }
      PublishTx(request, end);
      if race.Clean() {
        Join(foreground);
      }
    }

    /** Store a descriptor, or one with a field changed. This changes the queue exactly if the slot is queued and held
        something else. */
    method StoreRx(value: RxSlot, end: nat) returns (hit: bool)
      requires Shape() && end < NSLOTS
      modifies rxBuf
      ensures rxBuf[..] == old(rxBuf[..])[end := value]
      ensures hit == (RxQueued(end) && old(rxBuf[end]) != value)
      ensures old(Core(false)) ==> if hit then !Queues() else Core(false)
    {
      hide Paired, Calls;
      hit := RxQueued(end) && rxBuf[end] != value;
      StoreExact(rxBuf[..], rxStart, rxEnd, end, value);
      rxBuf[end] := value;
    }

    /** The slot holds a queued request. */
    predicate RxQueued(i: nat)
      requires Shape() && i < NSLOTS
      reads `txStart, `txEnd, `rxStart, `rxEnd
    {
      Occupied(NSLOTS, rxStart, i) < Occupied(NSLOTS, rxStart, rxEnd)
    }

    /** Make the filled slot part of the queue: right exactly when it is still the free slot behind the queue and the
        ring has room. */
    method PublishRx(request: RxSlot, end: nat)
      requires Shape() && end < NSLOTS && completed <= |sends| && completed <= |prepares|
      modifies `rxEnd, `prepares
      ensures completed <= |sends| && completed <= |prepares| && (old(CallsMade()) ==> CallsMade())
      ensures prepares == old(prepares) + [request] && rxEnd == Next(end)
      ensures old(Counted()) && !(end == old(rxEnd) && old(RxRoom()) && rxBuf[end] == request) ==> !Queues()
      ensures old(Core(false)) && end == old(rxEnd) && old(RxRoom()) && rxBuf[end] == request ==> Core(true)
    {
      hide Ring, Paired, Calls, Occupied;
      CallsStay(sends, sends, prepares, prepares + [request], completed);
      if Core(false) {
        Bounds(false);
      }
      if Counted() {
        Published(rxBuf[..], rxStart, rxEnd, end, prepares, completed, request);
      }
      NextSlot(|prepares|);
      prepares := prepares + [request];
      rxEnd := Next(end);
    }

    predicate RxRoom()
      requires rxStart < NSLOTS && rxEnd < NSLOTS
      reads `rxStart, `rxEnd
    {
      Next(rxEnd) != rxStart
    }

    /** The indices as a call reads them, the start first. */
    method ReadRx(foreground: bool) returns (start: nat, end: nat, early: nat)
      requires Core(false) && (foreground ==> CallsMade())
      modifies this, txBuf, rxBuf
      ensures Core(false) && (foreground ==> CallsMade()) && Shape() && start == old(rxStart) && end == rxEnd
      ensures Next(end) == start <==> Slot(old(Occupied(NSLOTS, rxStart, rxEnd)) + early) == NSLOTS - 1
      ensures early == 0 && Next(end) != start ==> RxRoom()
      ensures old(sends) <= sends && old(prepares) <= prepares && old(completed) <= completed
      ensures |prepares| == old(|prepares|) + early
      ensures !foreground ==> early == 0 && unchanged(this, rxBuf, txBuf)
      decreases if foreground then 4 else 0, 1
    {
      hide Core, Calls, Queues, Ring, Slot, Next, Before, Occupied;
      Bounds(false);
      start := rxStart;
      var posts := |prepares|;
      if foreground {
        Background(false);
        Bounds(false);
      }
      end := rxEnd;
      early := |prepares| - posts;
      Snapshot(old(completed), completed, |prepares|, posts);
    }

    /** alt_avalon_dma_prepare, by the foreground with completions and posting callbacks at any point, or by a callback. */
    method Prepare(request: RxSlot, foreground: bool) returns (rc: int, race: Race)
      requires Core(false) && (foreground ==> CallsMade())
      modifies this, txBuf, rxBuf
      ensures rc != 0 || race.Clean() ==> Core(false) && (foreground ==> CallsMade())
      ensures rc == if Misaligned(request.data, request.len) then -EINVAL
                    else if Slot(old(Occupied(NSLOTS, rxStart, rxEnd)) + race.early) == NSLOTS - 1 then -ENOSPC else 0
      ensures rc == -EINVAL <==>
                || request.data % (alignMask + 1) != 0 || request.len % (alignMask + 1) != 0 || request.len > maxLength
      ensures old(sends) <= sends && old(prepares) <= prepares && old(completed) <= completed
      ensures rc == 0 && !race.hit ==> Accepted(old(|prepares|) + race.early + race.late, prepares, request)
      ensures rc == 0 && race.Undisturbed() ==> race.Clean()
      ensures rc == 0 && !race.Clean() ==> !Queues()
      ensures !foreground ==> race == NO_RACE && NoneCompleted() && Later() && sends == old(sends)
      ensures !foreground ==> prepares == if rc == 0 then old(prepares) + [request] else old(prepares)
      ensures !foreground ==> rxBuf[Before(rxStart)] == old(rxBuf[Before(rxStart)])
      decreases if foreground then 4 else 0
    {
      hide Core, Calls, Queues, Ring, Slot, Next, Before, Occupied, Accepted, Race.Clean, Misaligned;
      MisalignedIs(request.data, request.len);
      race := NO_RACE;
      if Misaligned(request.data, request.len) {
        return -EINVAL, race;
      }
      var start, end, early := ReadRx(foreground);
      race := race.(early := early);
      var next := Next(end);
      if next == start {
        return -ENOSPC, race;
      }
      race := AcceptRx(request, end, foreground, race);
      rc := 0;
    }

    /** Store one field of the descriptor. */
    method FillRx(request: RxSlot, end: nat, field: nat, foreground: bool) returns (hit: bool)
      requires Core(false) && (foreground ==> CallsMade()) && Shape() && end < NSLOTS && field < 4
      modifies this, txBuf, rxBuf
      ensures Counted() && if hit then !Queues() else Core(false) && (foreground ==> CallsMade())
      ensures old(sends) <= sends && old(prepares) <= prepares && old(completed) <= completed
      ensures prepares == old(prepares) && end == old(rxEnd) ==>
                !hit && end == rxEnd && rxBuf[..] == old(rxBuf[..])[end := WithRx(old(rxBuf[end]), request, field)]
      ensures !foreground ==> unchanged(this, txBuf)
      decreases if foreground then 4 else 0, 1, 0
    {
      hide Core, Calls, Queues, Ring, Slot, Next, Before, WithRx;
      Bounds(false);
      ghost var posts := |prepares|;
      if foreground {
        Background(false);
        Bounds(false);
      }
      EndMoves(|prepares|, posts);
      hit := StoreRx(WithRx(rxBuf[end], request, field), end);
    }

    /** From reading the end to storing the new one: completions may come before and behind each field of the slot that is
        filled. A run in which the fill changes a queued request is left there. */
    method ReserveRx(request: RxSlot, end: nat, foreground: bool) returns (late: nat, hit: bool)
      requires Core(false) && (foreground ==> CallsMade()) && Shape() && end == rxEnd
      requires !foreground ==> RxRoom()
      modifies this, txBuf, rxBuf
      ensures Counted() && |prepares| == old(|prepares|) + late && (end == rxEnd <==> late % NSLOTS == 0)
      ensures if hit then !Queues() else Core(false) && (foreground ==> CallsMade())
      ensures late == 0 ==> !hit && rxBuf[end] == request && (old(RxRoom()) ==> RxRoom())
      ensures old(sends) <= sends && old(prepares) <= prepares && old(completed) <= completed
      ensures !foreground ==> late == 0 && NoneCompleted() && sends == old(sends) && txBuf[..] == old(txBuf[..])
      ensures !foreground ==> prepares == old(prepares) && rxBuf[Before(rxStart)] == old(rxBuf[Before(rxStart)])
      decreases if foreground then 4 else 0, 1, 1
    {
      hide Core, Calls, Queues, Ring, Slot, Next, Before, Occupied, WithRx;
      Bounds(false);
      var posts := |prepares|;
      hit := false;
      for field := 0 to 4
        invariant !hit && Counted() && Core(false) && (foreground ==> CallsMade())
        invariant old(sends) <= sends && old(prepares) <= prepares && old(completed) <= completed
        invariant prepares == old(prepares) ==> end == rxEnd && HasRx(rxBuf[end], request, field)
        invariant !foreground ==> unchanged(this, txBuf) && rxBuf[Before(rxStart)] == old(rxBuf[Before(rxStart)])
      {
        HasNextRx(rxBuf[end], request, field);
        hit := FillRx(request, end, field, foreground);
        if hit {
          break;
        }
      }
      if foreground && !hit {
        Background(false);
        Bounds(false);
      }
      if !hit && prepares == old(prepares) {
        HasAllRx(rxBuf[end], request);
      }
      late := |prepares| - posts;
      EndMoves(|prepares|, posts);
    }

    /** Fill, publish, start if idle. A run that leaves the queue wrong is followed up to there. */
    method AcceptRx(request: RxSlot, end: nat, foreground: bool, before: Race) returns (race: Race)
      requires Core(false) && (foreground ==> CallsMade()) && Shape() && end == rxEnd
      requires !foreground ==> RxRoom()
      modifies this, txBuf, rxBuf
      ensures race == Race(before.early, race.late, race.hit, race.room, race.kept)
      ensures if race.Clean() then Core(false) && (foreground ==> CallsMade()) else !Queues()
      ensures race.late == 0 && old(RxRoom()) ==> race.Clean()
      ensures old(sends) <= sends && old(prepares) <= prepares && old(completed) <= completed
      ensures !race.hit ==> Accepted(old(|prepares|) + race.late, prepares, request)
      ensures !foreground ==> race == Race(before.early, 0, false, true, true) && NoneCompleted() && sends == old(sends)
      ensures !foreground ==> Later() && prepares == old(prepares) + [request]
      ensures !foreground ==> rxBuf[Before(rxStart)] == old(rxBuf[Before(rxStart)])
      decreases if foreground then 4 else 0, 1, 2
    {
      hide Core, Calls, Queues, Ring, Slot, Next, Occupied, Before;
      var late, hit := ReserveRx(request, end, foreground);
      race := Race(before.early, late, hit, RxRoom(), rxBuf[end] == request);
      if hit {
        return;
      }
      PublishRx(request, end);
      if race.Clean() {
        Join(foreground);
      }
    }

    /** What a post by a callback does behind its checks while a transfer is under way, whatever the queue holds. */
    method PostTx(request: TxSlot)
      requires Shape() && TxRoom() && active && completed <= |sends| && completed <= |prepares|
      modifies txBuf, `txEnd, `sends, `active, `inFlight, `launched
      ensures Shape() && txBuf[..] == old(txBuf[..])[old(txEnd) := request] && txEnd == Next(old(txEnd))
      ensures sends == old(sends) + [request] && active && launched == old(launched)
    {
      var hit := StoreTx(request, txEnd);
      PublishTx(request, txEnd);
      StartIdle();
    }

    method PostRx(request: RxSlot)
      requires Shape() && RxRoom() && active && completed <= |sends| && completed <= |prepares|
      modifies rxBuf, `rxEnd, `prepares, `active, `inFlight, `launched
      ensures Shape() && rxBuf[..] == old(rxBuf[..])[old(rxEnd) := request] && rxEnd == Next(old(rxEnd))
      ensures prepares == old(prepares) + [request] && active && launched == old(launched)
    {
      var hit := StoreRx(request, rxEnd);
      PublishRx(request, rxEnd);
      StartIdle();
    }

    lemma LaunchedCount()
      requires Core(false)
      ensures |launched| == completed + (if active then 1 else 0)
      ensures completed <= |sends| && completed <= |prepares| && |launched| <= |sends| && |launched| <= |prepares|
      ensures forall k :: 0 <= k < |launched| ==> launched[k] == Paired(sends[k], prepares[k])
    {
    }

    lemma TxAt(k: nat)
      requires Core(false) && Shape() && completed + k < |sends| && k < NSLOTS
      ensures txBuf[Slot(completed + k)] == sends[completed + k] && TxQueued(Slot(completed + k))
    {
      hide Ring, Occupied, Slot, Paired, Advance;
      Bounds(false);
      SlotAhead(completed, k);
      RingAt(txBuf[..], txStart, txEnd, k);
      assert sends[completed..][k] == sends[completed + k];
    }

    lemma RxAt(k: nat)
      requires Core(false) && Shape() && completed + k < |prepares| && k < NSLOTS
      ensures rxBuf[Slot(completed + k)] == prepares[completed + k]
    {
      hide Ring, Occupied, Slot, Paired, Advance;
      Bounds(false);
      SlotAhead(completed, k);
      RingAt(rxBuf[..], rxStart, rxEnd, k);
      assert prepares[completed..][k] == prepares[completed + k];
    }

    /** The check of `active` behind the publication; completions and posts in between are harmless. */
    method Join(foreground: bool)
      requires Core(true) && (foreground ==> CallsMade())
      modifies this, txBuf, rxBuf
      ensures Core(false) && (foreground ==> CallsMade())
      ensures old(sends) <= sends && old(prepares) <= prepares && old(completed) <= completed
      ensures !foreground ==> NoneCompleted() && sends == old(sends) && prepares == old(prepares)
      ensures !foreground ==> txBuf[..] == old(txBuf[..]) && rxBuf[..] == old(rxBuf[..])
      decreases if foreground then 4 else 0, 0
    {
      hide Core, Calls;
      if foreground {
        Background(true);
      }
      Bounds(true);
      StartIdle();
      Bounds(false);
    }

    /** alt_avalon_dma_space. */
    method Space() returns (free: int)
      requires Valid()
      ensures free == NSLOTS - 1 - (|sends| - completed)
    {
      free := if txStart > txEnd then txStart - txEnd - 1 else NSLOTS + txStart - txEnd - 1;
    }

    /** Any run: the application posts while completions come in and callbacks post. Nothing goes wrong unless a callback
        posts to a channel between the moment a foreground call reads the start of its ring and the moment it stores the
        new end; then it goes wrong exactly if the fill changes a queued request or the end stored is a wrong one. There
        the run is left, with a queue that is not what was accepted. */
    method Session(steps: nat) returns (races: seq<Race>)
      requires Valid()
      modifies this, txBuf, rxBuf
      ensures (forall k :: 0 <= k < |races| ==> races[k].Clean()) ==> Valid()
      ensures !(forall k :: 0 <= k < |races| ==> races[k].Clean()) ==> !Queues()
      ensures forall k :: 0 <= k < |races| && races[k].Undisturbed() ==> races[k].Clean()
      // the k-th transfer takes the k-th send to the k-th receive, as much as both allow
      ensures (forall k :: 0 <= k < |races| ==> races[k].Clean()) ==>
                && |launched| <= |sends| && |launched| <= |prepares|
                && forall k :: 0 <= k < |launched| ==>
                     && launched[k].from == sends[k].from && launched[k].to == prepares[k].data
                     && launched[k].len <= sends[k].len && launched[k].len <= prepares[k].len
                     && (launched[k].len == sends[k].len || launched[k].len == prepares[k].len)
      ensures old(sends) <= sends && old(prepares) <= prepares && old(completed) <= completed
    {
      hide Core, Calls, Queues, Race.Clean;
      Bounds(false);
      races := [];
      for i := 0 to steps
        invariant Core(false) && completed <= |sends| && completed <= |prepares| && CallsMade()
        invariant forall k :: 0 <= k < |races| ==> races[k].Clean()
        invariant old(sends) <= sends && old(prepares) <= prepares && old(completed) <= completed
      {
        var choice: int := *;
        if choice == 0 || choice == 1 {
          var rc, race;
          if choice == 0 {
            var request: TxSlot := *;
            rc, race := Send(request, true);
          } else {
            var request: RxSlot := *;
            rc, race := Prepare(request, true);
          }
          if rc == 0 {
            races := races + [race];
            if !race.Clean() {
              assert !races[|races| - 1].Clean();
              return;
            }
          }
        } else {
          Background(false);
        }
        Bounds(false);
      }
      LaunchedExactly();
      Rest();
    }

    lemma LaunchedExactly()
      requires Core(false)
      ensures |launched| <= |sends| && |launched| <= |prepares|
      ensures forall k :: 0 <= k < |launched| ==>
                && launched[k].from == sends[k].from && launched[k].to == prepares[k].data
                && launched[k].len <= sends[k].len && launched[k].len <= prepares[k].len
                && (launched[k].len == sends[k].len || launched[k].len == prepares[k].len)
    {
      hide Queues, Paired;
      forall k | 0 <= k < |launched|
        ensures && launched[k].from == sends[k].from && launched[k].to == prepares[k].data
                && launched[k].len <= sends[k].len && launched[k].len <= prepares[k].len
                && (launched[k].len == sends[k].len || launched[k].len == prepares[k].len)
      {
        PairedExactly(sends[k], prepares[k]);
      }
    }

    lemma Rest()
      requires Core(false) && completed <= |sends| && completed <= |prepares| && CallsMade()
      ensures Valid()
    {
      Bounds(false);
    }
  }

  /** A pair of channels whose only requests are under way. */
  method OneInFlight(first: TxSlot, data: RxSlot, maxLength: nat) returns (c: Channels)
    requires first.len <= maxLength && data.len <= maxLength
    ensures fresh(c) && fresh(c.txBuf) && fresh(c.rxBuf) && c.alignMask == 0 && c.maxLength == maxLength
    ensures c.Core(false) && c.active && c.sends == [first] && c.prepares == [data] && c.completed == 0
    ensures c.launched == [Paired(first, data)]
  {
    hide Ring, Calls, Channels.Core, Channels.Queues, Channels.Misaligned, Channels.CallsMade;
    c := new Channels(0, maxLength);
    c.Unmasked();
    c.Bounds(false);
    var rc, race := c.Send(first, false);
    c.Bounds(false);
    rc, race := c.Prepare(data, false);
    c.Bounds(false);
    c.LaunchedCount();
  }

  /** The handler's steps spelled out: the oldest transfer completes, and its transmit callback posts `mine`. */
  method Interrupted(c: Channels, mine: TxSlot)
    requires c.Core(false) && c.active && c.alignMask == 0 && mine.len <= c.maxLength
    requires c.completed < |c.sends| < c.completed + NSLOTS
    modifies c, c.txBuf, c.rxBuf
    ensures c.Core(false) && c.completed == old(c.completed) + 1
    ensures c.sends == old(c.sends) + [mine] && c.prepares == old(c.prepares)
    ensures c.calls == old(c.calls) + TxCall(old(c.sends[c.completed]))
  {
    hide Ring, Calls, TxCall, Channels.Core, Channels.Queues, Channels.Misaligned, Channels.CallsMade;
    c.Unmasked();
    c.Bounds(false);
    var t, r := c.Retire(false);
    c.Bounds(false);
    c.calls := c.calls + TxCall(c.txBuf[t]);
    var rc, race := c.Send(mine, false);
  }

  /** A run that goes wrong, with the handler's steps spelled out: between reading the end of its ring and filling the
      slot, a foreground send is interrupted by the completion of the first transfer, whose callback posts `mine`.
      Both posts are accepted, into the same slot; the ring then holds only the later one. */
  method PostInsideWindow(first: TxSlot, data: RxSlot, mine: TxSlot, request: TxSlot) returns (c: Channels)
    requires first.done.Some?
    ensures fresh(c) && c.Shape() && c.sends == [first, mine, request] && c.completed == 1
    ensures c.calls != [] && c.calls[|c.calls| - 1] == TxDone(first.done.value, first.handle)
    ensures Ring(c.txBuf[..], c.txStart, c.txEnd) == [request] && !c.Queues()
  {
    hide Ring, Calls, Channels.Core, Channels.Queues, Channels.Misaligned, Channels.CallsMade;
    c := OneInFlight(first, data, MaxLen(MaxLen(first.len, data.len), mine.len));
    c.Bounds(false);
    var start, end, early := c.ReadTx(false);
    Interrupted(c, mine);
    c.Bounds(false);
    var hit := c.StoreTx(request, end);
    c.PublishTx(request, end);
    assert c.txStart == 1 && c.txEnd == 2;
    RingAt(c.txBuf[..], c.txStart, c.txEnd, 0);
  }

  /** Two sends and three receives accepted, the first pair under way. */
  method TwoQueued(first: TxSlot, second: TxSlot, d0: RxSlot, d1: RxSlot, d2: RxSlot, maxLength: nat) returns (c: Channels)
    requires first.len <= maxLength && second.len <= maxLength
    requires d0.len <= maxLength && d1.len <= maxLength && d2.len <= maxLength
    ensures fresh(c) && fresh(c.txBuf) && fresh(c.rxBuf) && c.alignMask == 0 && c.maxLength == maxLength
    ensures c.Core(false) && c.active && c.sends == [first, second] && c.prepares == [d0, d1, d2] && c.completed == 0
    ensures |c.launched| == 1
  {
    hide Ring, Calls, Channels.Core, Channels.Queues, Channels.Misaligned, Channels.CallsMade;
    c := OneInFlight(first, d0, maxLength);
    c.Unmasked();
    c.Bounds(false);
    var rc, race := c.Send(second, false);
    c.Bounds(false);
    rc, race := c.Prepare(d1, false);
    c.Bounds(false);
    rc, race := c.Prepare(d2, false);
    c.Bounds(false);
    c.LaunchedCount();
  }

  /** The rest of the run below up to the store of the end: three completions. The callback of the first posts p[0] and
      prepares d[3], that of the second posts p[1] and p[2]. */
  method ThreeCompletions(c: Channels, p: seq<TxSlot>, d: seq<RxSlot>, request: TxSlot)
    requires |p| == 3 && |d| == 4 && c.Shape() && c.active && c.completed == 1 && |c.launched| == 2
    requires c.txStart == c.rxStart == 1 && c.txEnd == c.rxEnd == 3 && |c.sends| == |c.prepares| == 3
    requires c.txBuf[2] == request && c.rxBuf[2] == d[2]
    modifies c, c.txBuf, c.rxBuf
    ensures c.Shape() && c.completed == 4 && c.txStart == 0 && c.txEnd == 2
    ensures c.sends == old(c.sends) + p && |c.prepares| == 4
    ensures |c.launched| == 4 && c.launched[2] == Paired(request, d[2]) && c.launched[3] == Paired(p[0], d[3])
    ensures c.txBuf[0] == p[1] && c.txBuf[1] == p[2] && c.txBuf[2] == request
  {
    hide Paired, Ring, Calls, Channels.Core, Channels.Queues, Channels.CallsMade, Channels.Counted, Channels.Idle;
    ThirdSent(c, p[0], d[3]);
    var t, r := c.Retire(false);
    c.PostTx(p[1]);
    c.PostTx(p[2]);
    t, r := c.Retire(false);
  }

  /** The first of them. */
  method ThirdSent(c: Channels, p: TxSlot, d: RxSlot)
    requires c.Shape() && c.active && c.completed == 1 && |c.launched| == 2
    requires c.txStart == c.rxStart == 1 && c.txEnd == c.rxEnd == 3 && |c.sends| == |c.prepares| == 3
    modifies c, c.txBuf, c.rxBuf
    ensures c.Shape() && c.completed == 2 && c.active && c.txStart == c.rxStart == 2 && c.txEnd == c.rxEnd == 0
    ensures c.sends == old(c.sends) + [p] && |c.prepares| == 4
    ensures c.launched == old(c.launched) + [Paired(old(c.txBuf[2]), old(c.rxBuf[2]))]
    ensures c.txBuf[2] == old(c.txBuf[2]) && c.txBuf[3] == p && c.rxBuf[3] == d
  {
    hide Paired, Ring, Calls, Channels.Core, Channels.Queues, Channels.CallsMade, Channels.Counted, Channels.Idle;
    var t, r := c.Retire(false);
    c.PostTx(p);
    c.PostRx(d);
  }

  /** Its beginning: a foreground send has read the indices when the first transfer completes; the callback posts `mine`,
      and the foreground fills the slot that was free. */
  method FillHits(first: TxSlot, second: TxSlot, mine: TxSlot, d: seq<RxSlot>, request: TxSlot, maxLength: nat)
    returns (c: Channels, end: nat, hit: bool)
    requires |d| == 4 && first.len <= maxLength && second.len <= maxLength && mine.len <= maxLength
    requires d[0].len <= maxLength && d[1].len <= maxLength && d[2].len <= maxLength
    ensures fresh(c) && fresh(c.txBuf) && fresh(c.rxBuf) && c.Shape() && c.active && c.completed == 1 && |c.launched| == 2
    ensures c.txStart == c.rxStart == 1 && c.txEnd == c.rxEnd == 3
    ensures c.sends == [first, second, mine] && |c.prepares| == 3
    ensures c.txBuf[2] == request && c.rxBuf[2] == d[2] && end == 2 && hit == (mine != request)
  {
    hide Ring, Calls, Paired, Channels.Core, Channels.Queues, Channels.Misaligned, Channels.CallsMade;
    c := TwoQueued(first, second, d[0], d[1], d[2], maxLength);
    c.Bounds(false);
    var start, early;
    start, end, early := c.ReadTx(false);
    c.Bounds(false);
    Interrupted(c, mine);
    c.Bounds(false);
    c.LaunchedCount();
    c.RxAt(1);
    c.TxAt(1);
    hit := c.StoreTx(request, end);
  }

  /** A run that ends with the right end stored all the same: so many posts and completions come behind a fill that
      changed `mine` that the ring goes once round. `request` was transferred in the place of `mine` meanwhile and is
      queued again. */
  method PostsAroundFill(first: TxSlot, second: TxSlot, mine: TxSlot, p: seq<TxSlot>, d: seq<RxSlot>, request: TxSlot, maxLength: nat)
    returns (c: Channels, race: Race)
    requires |p| == 3 && |d| == 4 && first.len <= maxLength && second.len <= maxLength && mine.len <= maxLength
    requires d[0].len <= maxLength && d[1].len <= maxLength && d[2].len <= maxLength && mine != request
    ensures c.Shape() && c.sends == [first, second, mine, p[0], p[1], p[2], request] && c.completed == 4
    ensures |c.launched| == 4 && c.launched[2] == Paired(request, d[2])
    ensures race == Race(0, 4, true, true, true)
    ensures Ring(c.txBuf[..], c.txStart, c.txEnd) == [p[1], p[2], request]
  {
    hide Calls, Paired, Channels.Core, Channels.Queues, Channels.CallsMade;
    var end, hit;
    c, end, hit := FillHits(first, second, mine, d, request, maxLength);
    ThreeCompletions(c, p, d, request);
    race := Race(0, |c.sends| - 2, hit, c.TxRoom(), c.txBuf[end] == request);
    c.PublishTx(request, end);
  }

  function MaxLen(x: nat, y: nat): nat {
    if x < y then y else x
  }

  function Next(i: nat): (j: nat)
    requires i < NSLOTS
    ensures j < NSLOTS && j == Advance(NSLOTS, i, 1)
  {
    (i + 1) % NSLOTS
  }

  function Before(i: nat): (j: nat)
    requires i < NSLOTS
    ensures j < NSLOTS && Next(j) == i
  {
    (i + NSLOTS - 1) % NSLOTS
  }

  lemma BeforeNext(i: nat)
    requires i < NSLOTS
    ensures Before(Next(i)) == i
  {
  }

  lemma CallsStay(s: seq<TxSlot>, s': seq<TxSlot>, p: seq<RxSlot>, p': seq<RxSlot>, n: nat)
    requires s <= s' && p <= p' && n <= |s| && n <= |p|
    ensures s'[..n] == s[..n] && p'[..n] == p[..n]
  {
  }

  /** The ring looks full to a call exactly when its queue was full when the start was read, counting what has been
      posted since. Without posts a ring that does not look full is not. */
  lemma Snapshot(completed: nat, completed': nat, now: nat, earlier: nat)
    requires completed <= earlier <= now && completed <= completed' <= now
    requires earlier - completed < NSLOTS && now - completed' < NSLOTS
    ensures Next(Slot(now)) == Slot(completed) <==> Slot(earlier - completed + (now - earlier)) == NSLOTS - 1
    ensures now == earlier && Next(Slot(now)) != Slot(completed) ==> Next(Slot(now)) != Slot(completed')
  {
  }

  lemma SlotAhead(completed: nat, k: nat)
    requires k < NSLOTS
    ensures Advance(NSLOTS, Slot(completed), k) == Slot(completed + k)
    ensures Occupied(NSLOTS, Slot(completed), Slot(completed + k)) == k
  {
  }

  lemma EndSlot(completed: nat, posts: nat, end: nat)
    requires completed <= posts && end < NSLOTS && Occupied(NSLOTS, Slot(completed), end) == posts - completed
    ensures end == Slot(posts)
  {
  }

  /** The end of the ring is back where it was exactly after whole rounds of posts. */
  lemma EndMoves(now: nat, earlier: nat)
    requires earlier <= now
    ensures Slot(now) == Slot(earlier) <==> (now - earlier) % NSLOTS == 0
  {
  }

  /** Storing the end behind slot `end` makes a queue with one more request exactly when that slot is the free one behind
      the queue, it holds the request, and the ring has room. */
  lemma Published<T>(buf: seq<T>, out: nat, into: nat, end: nat, posts: seq<T>, n: nat, request: T)
    requires |buf| == NSLOTS && out < NSLOTS && into < NSLOTS && end < NSLOTS
    requires n <= |posts| && Occupied(NSLOTS, out, into) == |posts| - n
    ensures Ring(buf, out, Next(end)) == (posts + [request])[n..] ==> end == into && Next(into) != out && buf[end] == request
    ensures Ring(buf, out, into) == posts[n..] && end == into && Next(into) != out && buf[end] == request ==>
              Ring(buf, out, Next(end)) == (posts + [request])[n..]
  {
    hide Ring;
    assert (posts + [request])[n..] == posts[n..] + [request];
    if end == into && Next(into) != out {
      PushRun(buf, out, into, 1);
      assert (Ring(buf, out, into) + [buf[end]])[|posts| - n] == buf[end];
      assert (posts[n..] + [request])[|posts| - n] == request;
    }
  }
}
