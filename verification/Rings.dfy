/** Circular buffers as the drivers keep them: `out` is the first occupied slot,
    `into` the first free one, and one slot always stays empty, so that
    `out == into` means empty and never full. */
module Rings {

  /** The number of occupied slots of a ring with n slots. */
  function Occupied(n: nat, out: nat, into: nat): (k: nat)
    requires out < n && into < n
    ensures k < n
    ensures k == 0 <==> out == into
    ensures k == n - 1 <==> into + 1 == out || (out == 0 && into == n - 1)
  {
    if out <= into then into - out else into + n - out
  }

  /** The slot k places after slot i. */
  function Advance(n: nat, i: nat, k: nat): (j: nat)
    requires i < n && k <= n
    ensures j < n
  {
    if i + k < n then i + k else i + k - n
  }

  /** The queued elements, oldest first. */
  function Ring<T>(buf: seq<T>, out: nat, into: nat): (q: seq<T>)
    requires out < |buf| && into < |buf|
    ensures |q| == Occupied(|buf|, out, into)
  {
    if out <= into then buf[out..into] else buf[out..] + buf[..into]
  }

  /** The k-th queued element sits k slots after `out`. */
  lemma RingAt<T>(buf: seq<T>, out: nat, into: nat, k: nat)
    requires out < |buf| && into < |buf| && k < Occupied(|buf|, out, into)
    ensures Ring(buf, out, into)[k] == buf[Advance(|buf|, out, k)]
  {
  }

  /** Publishing k filled free slots appends exactly their contents. */
  lemma PushRun<T>(buf: seq<T>, out: nat, into: nat, k: nat)
    requires out < |buf| && into < |buf| && into + k <= |buf|
    requires Occupied(|buf|, out, into) + k < |buf|
    ensures Ring(buf, out, Advance(|buf|, into, k)) == Ring(buf, out, into) + buf[into..into + k]
  {
    var q := Ring(buf, out, Advance(|buf|, into, k));
    assert |q| == |Ring(buf, out, into)| + k;
  }

  /** Releasing k occupied slots that do not wrap removes exactly the k oldest elements. */
  lemma PopRun<T>(buf: seq<T>, out: nat, into: nat, k: nat)
    requires out < |buf| && into < |buf| && out + k <= |buf|
    requires k <= Occupied(|buf|, out, into)
    ensures Ring(buf, out, into) == buf[out..out + k] + Ring(buf, Advance(|buf|, out, k), into)
  {
    var q := Ring(buf, Advance(|buf|, out, k), into);
    assert |q| == |Ring(buf, out, into)| - k;
  }

  /** Storing into a free slot leaves the queue alone. */
  lemma StoreFree<T>(buf: seq<T>, out: nat, into: nat, k: nat, x: T)
    requires out < |buf| && into < |buf| && into + k < |buf|
    requires Occupied(|buf|, out, into) + k < |buf|
    ensures Ring(buf[into + k := x], out, into) == Ring(buf, out, into)
  {
  }

  /** Exactly when a store leaves the queue alone: outside it, or of what is there already. */
  lemma StoreExact<T>(buf: seq<T>, out: nat, into: nat, i: nat, x: T)
    requires out < |buf| && into < |buf| && i < |buf|
    ensures Ring(buf[i := x], out, into) == Ring(buf, out, into) <==>
            Occupied(|buf|, out, i) >= Occupied(|buf|, out, into) || buf[i] == x
  {
    var k := Occupied(|buf|, out, i);
    if k < Occupied(|buf|, out, into) {
      RingAt(buf, out, into, k);
      RingAt(buf[i := x], out, into, k);
      if buf[i] == x {
        assert buf[i := x] == buf;
      }
    }
  }

  /** With the write index fixed, equal read indices mean equal occupancy: a ring
      pointer seen twice cannot have gone once round in between. */
  lemma NoAbaOut(n: nat, out: nat, out': nat, into: nat)
    requires out < n && out' < n && into < n
    ensures out == out' <==> Occupied(n, out, into) == Occupied(n, out', into)
  {
  }

  /** The same for a fixed read index. */
  lemma NoAbaIn(n: nat, out: nat, into: nat, into': nat)
    requires out < n && into < n && into' < n
    ensures into == into' <==> Occupied(n, out, into) == Occupied(n, out, into')
  {
  }
}
