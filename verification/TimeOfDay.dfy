/** settimeofday and gettimeofday over the tick counter, with their 32-bit arithmetic. */
module TimeOfDay {
  import opened Base

  const US: int := 1_000_000
  const ENOSYS := 88
  const ENOTSUP := 134

  datatype TimeVal = TimeVal(sec: int, usec: int)
  {
    /** The time in microseconds. */
    function Total(): int {
      sec * US + usec
    }

    predicate Normalised() {
      0 <= usec < US
    }
  }

  datatype TimeZone = TimeZone(minutesWest: int, dstTime: int)

  function Unsigned(x: int): (u: nat)
    ensures u < U32
  {
    x % U32
  }

  /** A 32-bit pattern read as a signed number. */
  function Signed(x: int): (s: int)
    ensures -(U32 as int) / 2 <= s < U32 / 2
  {
    var u := Unsigned(x);
    if u < U32 / 2 then u else u - U32
  }

  /** Microseconds in a tick, as the C division rounds them. */
  function TickLength(rate: nat): (l: nat)
    requires rate > 0
  {
    US / rate
  }

  class WallClock {
    var reset: TimeVal
    var zone: TimeZone
    var nticks: nat
    var rate: nat

    constructor (rate: nat)
      ensures reset == TimeVal(0, 0) && zone == TimeZone(0, 0) && nticks == 0 && this.rate == rate
    {
      reset, zone, nticks, this.rate := TimeVal(0, 0), TimeZone(0, 0), 0, rate;
    }

    /** ALT_SETTIMEOFDAY: all arithmetic is unsigned 32-bit, then stored as signed. */
    method Set(t: TimeVal, tz: TimeZone) returns (rc: int, errno: int)
      requires nticks < U32 && rate < U32
      modifies `reset, `zone
      ensures rate == 0 ==> rc == -1 && errno == ENOSYS && reset == old(reset) && zone == old(zone)
      ensures rate != 0 ==> rc == 0 && errno == 0 && reset == ResetFor(t, nticks, rate) && zone == tz
    {
      rc, errno := -1, ENOSYS;
      if rate != 0 {
        reset := TimeVal(Signed(t.sec - nticks / rate), Signed(t.usec - Unsigned(nticks * (US / rate)) % US));
        zone := tz;
        rc, errno := 0, 0;
      }
    }

    /** ALT_GETTIMEOFDAY: the product is 64-bit here, and two loops normalise the sum. */
    method Get(wantZone: bool) returns (rc: int, time: Option<TimeVal>, tz: Option<TimeZone>)
      requires nticks < U32 && rate < U32
      ensures rate == 0 ==> rc == -ENOTSUP && time == None && tz == None
      ensures rate != 0 ==> rc == 0 && time == Some(Reading(reset, nticks, rate)) && tz == if wantZone then Some(zone) else None
    {
      rc, time, tz := -ENOTSUP, None, None;
      if rate != 0 {
        var sec := Signed(reset.sec + nticks / rate);
        var usec := Signed(reset.usec + nticks * (US / rate) % US);
        var normal := Normalise(sec, usec);
        rc, time := 0, Some(normal);
        if wantZone {
          tz := Some(zone);
        }
      }
    }

    /** Setting the time and reading it when the tick counter has reached n1. */
    method SetThenGet(t: TimeVal, zone: TimeZone, n1: nat) returns (time: TimeVal)
      requires 0 < rate < U32 && US % rate == 0 && t.Normalised() && t.sec >= 0
      requires nticks <= n1 < U32 && t.sec - nticks / rate + n1 / rate < U32 / 2
      modifies `reset, `zone, `nticks
      ensures time.Normalised()
      ensures time.Total() == t.Total() + Span(old(nticks), n1, rate) <==>
              || WrapsEvenly(old(nticks), rate)
              || (t.Total() == 0 && old(nticks) == n1 && Slip(n1, rate) < 0)
    {
      hide Slip, Span, WrapsEvenly, Reading, ResetFor;
      ExactlyElapsed(t, nticks, n1, rate);
      var rc, errno := Set(t, zone);
      nticks := n1;
      var got, tz;
      rc, got, tz := Get(false);
      time := got.value;
    }

    /** The two loops of gettimeofday. */
    static method Normalise(sec0: int, usec0: int) returns (t: TimeVal)
      ensures t == Normal(TimeVal(sec0, usec0))
    {
      hide Normal;
      var sec, usec := sec0, usec0;
      ghost var total := sec0 * US + usec0;
      while usec < 0
        invariant sec * US + usec == total
        invariant usec0 >= 0 ==> usec == usec0
        invariant usec0 < 0 && usec >= 0 ==> sec >= 0
        decreases -usec
      {
        if sec <= 0 {
          sec := 0;
          usec := 0;
          Clamped(sec0, usec0);
          return TimeVal(sec, usec);
        } else {
          sec := sec - 1;
          usec := usec + US;
        }
      }
      while usec >= US
        invariant usec >= 0 && sec * US + usec == total
      {
        sec := sec + 1;
        usec := usec - US;
      }
      Settled(sec0, usec0, sec, usec);
      t := TimeVal(sec, usec);
    }
  }

  lemma Clamped(sec: int, usec: int)
    requires usec < 0 && sec * US + usec < 0
    ensures Normal(TimeVal(sec, usec)) == TimeVal(0, 0)
  {
  }

  lemma Settled(sec0: int, usec0: int, sec: int, usec: int)
    requires sec0 * US + usec0 == sec * US + usec && 0 <= usec < US
    requires usec0 >= 0 || sec0 * US + usec0 >= 0
    ensures Normal(TimeVal(sec0, usec0)) == TimeVal(sec, usec)
  {
    DivMod(sec * US + usec, sec, usec);
  }

  /** What a set stores. */
  function ResetFor(t: TimeVal, n: nat, rate: nat): TimeVal
    requires rate > 0
  {
    TimeVal(Signed(t.sec - n / rate), Signed(t.usec - Unsigned(n * TickLength(rate)) % US))
  }

  /** A time brought to 0 <= usec < 10^6; one that would be negative because of its microseconds is clamped to 0. */
  function Normal(t: TimeVal): (n: TimeVal)
    ensures n.Normalised()
    ensures t.usec >= 0 || t.Total() >= 0 ==> n.Total() == t.Total()
    ensures t.usec < 0 && t.Total() < 0 ==> n.Total() == 0
  {
    if t.usec < 0 && t.Total() < 0 then TimeVal(0, 0) else TimeVal(t.Total() / US, t.Total() % US)
  }

  function Reading(reset: TimeVal, n: nat, rate: nat): (t: TimeVal)
    requires rate > 0
    ensures t.Normalised()
  {
    Normal(TimeVal(Signed(reset.sec + n / rate), Signed(reset.usec + n * TickLength(rate) % US)))
  }

  /** With a rate that divides 10^6, ticks are whole microseconds and rate of them a second. */
  lemma WholeSeconds(n: nat, rate: nat)
    requires rate > 0 && US % rate == 0
    ensures n * TickLength(rate) == n / rate * US + n * TickLength(rate) % US
  {
    var step, q, r := TickLength(rate), n / rate, n % rate;
    Division(US, rate);
    Division(n, rate);
    Parts(n, rate, step, q, r);
    DivMod(n * step, q, r * step);
  }

  lemma Division(x: nat, y: nat)
    requires y > 0
    ensures x == x / y * y + x % y && 0 <= x % y < y
  {
  }

  lemma Parts(n: nat, rate: nat, step: nat, q: nat, r: nat)
    requires step * rate == US && n == q * rate + r && r < rate
    ensures n * step == q * US + r * step && 0 <= r * step < US
  {
    assert n * step == (q * rate) * step + r * step;
    assert (q * rate) * step == q * (step * rate);
    assert (rate - r) * step == US - r * step;
    Grows(1, rate - r, step);
    if step == 0 {
      assert false;
    }
  }

  lemma Grows(x: nat, y: nat, z: nat)
    requires x <= y
    ensures x * z <= y * z
  {
  }

  lemma DivMod(x: int, q: int, r: int)
    requires x == q * US + r && 0 <= r < US
    ensures x / US == q && x % US == r
  {
  }

  lemma SignedExact(x: int)
    requires -(U32 as int) / 2 <= x < U32 / 2
    ensures Signed(x) == x
  {
  }

  lemma SignedSum(x: int, y: int)
    ensures Signed(Signed(x) + y) == Signed(x + y)
  {
    var k := x / U32;
    assert x == k * U32 + x % U32;
    assert Signed(x) == x - k * U32 || Signed(x) == x - (k + 1) * U32;
    ModShift(x + y, k);
    ModShift(x + y, k + 1);
  }

  lemma ModShift(x: int, k: int)
    ensures (x - k * U32) % U32 == x % U32
  {
    var q, r := x / U32, x % U32;
    assert x - k * U32 == (q - k) * U32 + r;
  }

  /** The time between two ticks, in microseconds. */
  function Span(n0: nat, n1: nat, rate: nat): int
    requires rate > 0
  {
    (n1 - n0) * TickLength(rate)
  }

  /** The 32-bit product of a set wraps a multiple of 5^6 times. */
  predicate WrapsEvenly(n: nat, rate: nat)
    requires rate > 0
  {
    n * TickLength(rate) / U32 % 15625 == 0
  }

  /** By how much the 32-bit product in a set misses the true fraction of a second. */
  function Slip(n: nat, rate: nat): int
    requires rate > 0
  {
    n * TickLength(rate) % US - Unsigned(n * TickLength(rate)) % US
  }

  /** The exact result of setting the time at tick n0 and reading it at tick n1: the elapsed time is added
      without rounding, except for the slip of the set, and never below 0. */
  lemma ReadAfterSet(t: TimeVal, n0: nat, n1: nat, rate: nat)
    requires rate > 0 && US % rate == 0 && t.Normalised() && t.sec >= 0
    requires n0 <= n1 < U32 && t.sec - n0 / rate + n1 / rate < U32 / 2
    ensures var exact := t.Total() + Span(n0, n1, rate) + Slip(n0, rate);
            Reading(ResetFor(t, n0, rate), n1, rate).Total() == if exact < 0 then 0 else exact
  {
    hide Reading, ResetFor, Normal, TickLength, Span, Slip, Unsigned;
    WholeSeconds(n0, rate);
    WholeSeconds(n1, rate);
    Quotients(n0, n1, rate);
    SpanParts(n0, n1, rate);
    SlipParts(n0, rate);
    ReadingParts(t, n0, n1, rate);
  }

  lemma SpanParts(n0: nat, n1: nat, rate: nat)
    requires rate > 0
    ensures Span(n0, n1, rate) == n1 * TickLength(rate) - n0 * TickLength(rate)
  {
    hide TickLength;
  }

  lemma SlipParts(n: nat, rate: nat)
    requires rate > 0
    ensures Slip(n, rate) == n * TickLength(rate) % US - Unsigned(n * TickLength(rate)) % US
  {
  }

  /** What is read, before it is normalised: nothing is lost to 32 bits but the slip. */
  lemma ReadingParts(t: TimeVal, n0: nat, n1: nat, rate: nat)
    requires rate > 0 && t.Normalised() && t.sec >= 0
    requires 0 <= t.sec - n0 / rate + n1 / rate < U32 / 2
    ensures Reading(ResetFor(t, n0, rate), n1, rate) ==
            Normal(TimeVal(t.sec - n0 / rate + n1 / rate,
                           t.usec - Unsigned(n0 * TickLength(rate)) % US + n1 * TickLength(rate) % US))
  {
    hide Normal, TickLength, Unsigned, Signed;
    var q0, q1 := n0 / rate, n1 / rate;
    var w, u := Unsigned(n0 * TickLength(rate)) % US, n1 * TickLength(rate) % US;
    SignedSum(t.sec - q0, q1);
    SignedExact(t.sec - q0 + q1);
    SignedExact(t.usec - w);
    SignedExact(t.usec - w + u);
  }

  lemma Quotients(x: nat, y: nat, z: nat)
    requires x <= y && z > 0
    ensures x / z <= y / z
  {
    Division(x, z);
    Division(y, z);
    Ordered(x, y, z, x / z, x % z, y / z, y % z);
  }

  lemma Ordered(x: nat, y: nat, z: nat, a: nat, r: nat, b: nat, s: nat)
    requires x <= y && x == a * z + r && y == b * z + s && s < z
    ensures a <= b
  {
    if a > b {
      Grows(b + 1, a, z);
      assert false;
    }
  }

  /** The slip is zero exactly when the product wrapped a multiple of 5^6 times. */
  lemma NoSlip(n: nat, rate: nat)
    requires rate > 0
    ensures Slip(n, rate) == 0 <==> WrapsEvenly(n, rate)
  {
    var x := n * TickLength(rate);
    var k, w := x / U32, x % U32;
    assert x == k * U32 + w;
    if k % 15625 == 0 {
      var j := k / 15625;
      assert x == w + 67108864 * j * 64 * 15625;
      Same(w, 67108864 * j);
    } else if x % US == w % US {
      var d := x / US - w / US;
      assert k * U32 == d * US;
      assert k * 67108864 == 15625 * d;
      assert k == 15625 * (12659 * d - 54369991 * k);
      FactorMod(12659 * d - 54369991 * k);
      assert false;
    }
  }

  lemma Same(w: int, j: int)
    ensures (w + j * US) % US == w % US
  {
  }

  lemma FactorMod(j: int)
    ensures (15625 * j) % 15625 == 0
  {
  }

  /** The promise of the two calls, and when it is kept: reading d ticks after setting gives exactly the time set
      plus d ticks, normalised and unclamped, if and only if the product at the set did not slip. The one
      exception is reading a time of zero, where the clamp hides a slip backwards. */
  lemma ExactlyElapsed(t: TimeVal, n0: nat, n1: nat, rate: nat)
    requires rate > 0 && US % rate == 0 && t.Normalised() && t.sec >= 0
    requires n0 <= n1 < U32 && t.sec - n0 / rate + n1 / rate < U32 / 2
    ensures Reading(ResetFor(t, n0, rate), n1, rate).Total() == t.Total() + Span(n0, n1, rate) <==>
            || WrapsEvenly(n0, rate)
            || (t.Total() == 0 && n0 == n1 && Slip(n0, rate) < 0)
    ensures n0 * TickLength(rate) < U32 ==>
              Reading(ResetFor(t, n0, rate), n1, rate).Total() == t.Total() + Span(n0, n1, rate)
  {
    hide Reading, ResetFor, Slip, Span, WrapsEvenly;
    ReadAfterSet(t, n0, n1, rate);
    NoSlip(n0, rate);
    Elapsed(n0, n1, rate);
    HiddenSlip(t.Total(), Span(n0, n1, rate), Slip(n0, rate));
    NoWraps(n0, rate);
  }

  lemma HiddenSlip(total: nat, elapsed: nat, slip: int)
    ensures (if total + elapsed + slip < 0 then 0 else total + elapsed + slip) == total + elapsed <==>
            slip == 0 || (total == 0 && elapsed == 0 && slip < 0)
  {
  }

  lemma NoWraps(n: nat, rate: nat)
    requires rate > 0
    ensures n * TickLength(rate) < U32 ==> WrapsEvenly(n, rate)
  {
  }

  lemma Elapsed(n0: nat, n1: nat, rate: nat)
    requires rate > 0 && US % rate == 0 && n0 <= n1
    ensures Span(n0, n1, rate) >= n1 - n0
    ensures Span(n0, n1, rate) == 0 <==> n0 == n1
  {
    Division(US, rate);
    if TickLength(rate) >= 1 {
      Grows(1, TickLength(rate), n1 - n0);
    }
  }

  /** A clock of 1000 ticks a second that has run 72 minutes sets the wrong microseconds. */
  lemma SlipAfterWrap()
    ensures Reading(ResetFor(TimeVal(100, 0), 4_294_968, 1000), 4_294_968, 1000) != TimeVal(100, 0)
  {
    assert TickLength(1000) == 1000;
    assert 4_294_968 * 1000 / U32 == 1;
    ExactlyElapsed(TimeVal(100, 0), 4_294_968, 4_294_968, 1000);
  }

  /** What the clock reads after one second of ticks, for every rate: a rate below 10^6 that does not divide it makes
      the reading jump ahead, by nearly a second, because the whole seconds and the microseconds are counted apart. */
  lemma AfterOneSecond(t: TimeVal, rate: nat)
    requires rate > 0 && t.Normalised() && 0 <= t.sec < U32 / 2 - 2
    ensures Reading(ResetFor(t, 0, rate), rate, rate).Total() ==
            t.Total() + US + (if rate > US || US % rate == 0 then 0 else US - US % rate)
  {
    hide Reading, ResetFor, Normal;
    ReadAfterOneSecond(t, rate);
    TicksOfSecond(rate);
  }

  /** So a clock keeps the promise over a second exactly if its rate divides 10^6 or is above it. */
  lemma RateMustDivide(t: TimeVal, rate: nat)
    requires rate > 0 && t.Normalised() && 0 <= t.sec < U32 / 2 - 2
    ensures Reading(ResetFor(t, 0, rate), rate, rate).Total() == t.Total() + US <==> rate > US || US % rate == 0
  {
    hide Reading, ResetFor;
    AfterOneSecond(t, rate);
    Division(US, rate);
  }

  lemma TicksOfSecond(rate: nat)
    requires rate > 0
    ensures rate * TickLength(rate) % US == if rate > US || US % rate == 0 then 0 else US - US % rate
  {
    var step, lost := TickLength(rate), US % rate;
    Division(US, rate);
    if rate > US {
      Ordered(US, US, rate, step, lost, 0, US);
      assert step == 0;
      DivMod(rate * step, 0, 0);
    } else if lost == 0 {
      DivMod(rate * step, 1, 0);
    } else {
      Ordered(rate, US, rate, 1, 0, step, lost);
      DivMod(rate * step, 0, US - lost);
    }
  }

  lemma ReadAfterOneSecond(t: TimeVal, rate: nat)
    requires rate > 0 && t.Normalised() && 0 <= t.sec < U32 / 2 - 2
    ensures Reading(ResetFor(t, 0, rate), rate, rate).Total() == t.Total() + US + rate * TickLength(rate) % US
  {
    hide Normal, TickLength;
    var part := rate * TickLength(rate) % US;
    DivMod(0, 0, 0);
    Once(rate);
    SignedExact(t.sec);
    SignedExact(t.usec);
    SignedExact(t.sec + 1);
    SignedExact(t.usec + part);
    assert ResetFor(t, 0, rate) == TimeVal(t.sec, t.usec);
    assert Reading(TimeVal(t.sec, t.usec), rate, rate) == Normal(TimeVal(t.sec + 1, t.usec + part));
  }

  lemma Once(rate: nat)
    requires rate > 0
    ensures rate / rate == 1 && 0 / rate == 0 && Unsigned(0 * TickLength(rate)) % US == 0
  {
    DivMod(0, 0, 0);
  }
}
