/** The HAL's alarm list: 32-bit tick times plus a one-bit rollover flag, against an unbounded clock. */
module Alarms {
  import opened Base

  const EINVAL := 22
  const ENOTSUP := 134

  // ---------------------------------------------------------------- one alarm, as the words it holds

  /** The two words that tell when an alarm fires. */
  datatype Words = Words(time: nat, rollover: bool)

  /** What alt_alarm_start stores for an alarm n ticks ahead. */
  function Started(nticks: nat, n: nat): (w: Words)
    requires nticks < U32 && n < U32
    ensures w.time < U32
  {
    var time := (n + nticks + 1) % U32;
    Words(time, time < nticks)
  }

  /** What a tick does to the flag before it looks at the time. */
  function Cleared(w: Words, nticks: nat): (w': Words)
  {
    if w.rollover && nticks == 0 then w.(rollover := false) else w
  }

  predicate Expired(w: Words, nticks: nat)
  {
    w.time <= nticks && !w.rollover
  }

  /** What a tick stores after a callback that asked for r more ticks. */
  function Rearmed(w: Words, nticks: nat, r: nat): (w': Words)
    requires w.time < U32 && r < U32
    ensures w'.time < U32
  {
    var time := (w.time + r) % U32;
    Words(time, w.rollover || time < nticks)
  }

  /** The words describe an alarm due at the unbounded tick `due`, seen at tick `now`. */
  ghost predicate Tracks(w: Words, due: nat, now: nat)
  {
    && now < due
    && w.time == due % U32
    && (w.rollover ==> due / U32 == now / U32 + 1)
    && (!w.rollover ==> due / U32 == now / U32 || (now % U32 == U32 - 1 && due / U32 == now / U32 + 1))
  }

  /** Starting is exact, except for the longest delay, and then only if the counter is about to wrap. */
  lemma StartTracks(now: nat, n: nat)
    requires n < U32
    ensures Tracks(Started(now % U32, n), now + n + 1, now) <==> n < U32 - 1 || now % U32 == U32 - 1
  {
  }

  /** A tick fires the alarm exactly at its due tick, and otherwise keeps track of it. */
  lemma TickTracks(w: Words, due: nat, now: nat)
    requires Tracks(w, due, now)
    ensures var nticks := (now + 1) % U32;
            var w' := Cleared(w, nticks);
            && w.time < U32
            && (Expired(w', nticks) <==> due == now + 1)
            && (due != now + 1 ==> Tracks(w', due, now + 1))
            && (due == now + 1 ==> forall r | 0 < r < U32 :: Tracks(Rearmed(w', nticks, r), due + r, now + 1))
  {
    var nticks := (now + 1) % U32;
    var w' := Cleared(w, nticks);
    if due == now + 1 {
      forall r | 0 < r < U32
        ensures Tracks(Rearmed(w', nticks, r), due + r, now + 1)
      {
        assert Rearmed(w', nticks, r).time == (due + r) % U32;
      }
    }
  }

  /** The first tick after `now`, within `limit` ticks, at which the words fire. */
  function FirstFiring(w: Words, now: nat, limit: nat): (t: nat)
    ensures t == 0 || now < t <= now + limit
    decreases limit
  {
    if limit == 0 then 0
    else
      var nticks := (now + 1) % U32;
      var w' := Cleared(w, nticks);
      if Expired(w', nticks) then now + 1 else FirstFiring(w', now + 1, limit - 1)
  }

  /** Tracked words stay silent up to their due tick and fire there, across any number of wraps. */
  lemma {:induction false} FiresWhenDue(w: Words, due: nat, now: nat, limit: nat)
    requires Tracks(w, due, now)
    ensures FirstFiring(w, now, limit) == if due <= now + limit then due else 0
    decreases limit
  {
    if limit > 0 {
      TickTracks(w, due, now);
      if due != now + 1 {
        FiresWhenDue(Cleared(w, (now + 1) % U32), due, now + 1, limit - 1);
      }
    }
  }

  /** An alarm started n ticks ahead at tick `now` first fires at tick now + n + 1 if and only if n is not
      the longest delay, or the counter is about to wrap. */
  lemma StartedFiresOnTime(now: nat, n: nat)
    requires n < U32
    ensures FirstFiring(Started(now % U32, n), now, n + 1) == now + n + 1
            <==> n < U32 - 1 || now % U32 == U32 - 1
  {
    hide Started, Tracks, Expired, Cleared;
    StartTracks(now, n);
    if n < U32 - 1 || now % U32 == U32 - 1 {
      FiresWhenDue(Started(now % U32, n), now + n + 1, now, n + 1);
    } else {
      LongestDelayExpired(now, n);
    }
  }

  /** The longest delay counts as expired at the next tick, unless the counter wraps there. */
  lemma LongestDelayExpired(now: nat, n: nat)
    requires n == U32 - 1 && now % U32 != U32 - 1
    ensures Expired(Cleared(Started(now % U32, n), (now + 1) % U32), (now + 1) % U32)
  {
    assert (now + 1) % U32 == now % U32 + 1;
    assert (n + now % U32 + 1) % U32 == now % U32;
  }

  /** The input on which it is not: the longest delay, started at reset, fires at the very next tick. */
  lemma LongestDelayFiresAtOnce()
    ensures FirstFiring(Started(0, U32 - 1), 0, U32) == 1
  {
    assert Started(0, U32 - 1) == Words(0, false);
  }

  // ---------------------------------------------------------------- the unbounded clock

  /** One tick of a clock without wrap: alarms due now are called back, and go if the answer is 0. */
  function Next<A>(due: map<A, nat>, now: nat, answer: A -> nat): (due': map<A, nat>)
  {
    map a | a in due && !(due[a] == now && answer(a) == 0) :: if due[a] == now then now + answer(a) else due[a]
  }

  /** The ticks, up to `end`, at which an alarm due at `due` fires: each callback's answer gives the
      next, with no drift, and 0 gives none. answers[t] is what callbacks say at tick t. */
  ghost function Schedule<A(!new)>(a: A, due: nat, end: nat, answers: nat -> A -> nat): (s: seq<nat>)
    decreases if due <= end then end - due + 1 else 0
  {
    if due > end then []
    else [due] + if answers(due)(a) == 0 then [] else Schedule(a, due + answers(due)(a), end, answers)
  }

  /** What happens to the alarms. */
  datatype Event = Begin(alarm: nat, n: nat) | End(alarm: nat) | Tick
  {
    predicate About(a: nat) {
      !Tick? && alarm == a
    }
  }

  function TickCount(events: seq<Event>): nat
  {
    if events == [] then 0 else (if events[0].Tick? then 1 else 0) + TickCount(events[1..])
  }

  /** What one event makes of the due times of the unbounded clock. */
  function DueAfter(due: map<nat, nat>, now: nat, e: Event, answers: nat -> nat -> nat): map<nat, nat>
  {
    match e
    case Begin(b, n) => due[b := now + n + 1]
    case End(b) => due - {b}
    case Tick => Next(due, now + 1, answers(now + 1))
  }

  function NowAfter(now: nat, e: Event): nat
  {
    if e.Tick? then now + 1 else now
  }

  /** The ticks at which the unbounded clock fires `a` in a run. */
  function Fired(a: nat, due: map<nat, nat>, now: nat, events: seq<Event>, answers: nat -> nat -> nat): (s: seq<nat>)
    decreases |events|
  {
    if events == [] then []
    else
      (if events[0].Tick? && a in due && due[a] == now + 1 then [now + 1] else []) +
      Fired(a, DueAfter(due, now, events[0], answers), NowAfter(now, events[0]), events[1..], answers)
  }

  /** Alarms are started only while they are not registered, and not with the longest delay, unless the counter is
      about to wrap. */
  predicate Legal(due: map<nat, nat>, now: nat, events: seq<Event>, answers: nat -> nat -> nat)
    decreases |events|
  {
    events != [] ==>
      && (events[0].Begin? ==>
            events[0].alarm !in due && events[0].n < U32 && (events[0].n < U32 - 1 || now % U32 == U32 - 1))
      && Legal(DueAfter(due, now, events[0], answers), NowAfter(now, events[0]), events[1..], answers)
  }

  /** Nobody starts or stops the alarm. */
  predicate Quiet(a: nat, events: seq<Event>)
  {
    forall k :: 0 <= k < |events| ==> !events[k].About(a)
  }

  lemma NothingFired(a: nat, due: map<nat, nat>, now: nat, answers: nat -> nat -> nat)
    ensures Fired(a, due, now, [], answers) == []
  {
  }

  lemma ScheduleNext(a: nat, due: nat, end: nat, answers: nat -> nat -> nat)
    ensures Schedule(a, due, end, answers) ==
            if due > end then []
            else [due] + if answers(due)(a) == 0 then [] else Schedule(a, due + answers(due)(a), end, answers)
  {
  }

  /** What an event about another alarm, or a tick, does to this one. */
  lemma DueStays(a: nat, due: map<nat, nat>, now: nat, e: Event, answers: nat -> nat -> nat)
    requires !e.About(a) && (a in due ==> now < due[a])
    ensures var due', fires := DueAfter(due, now, e, answers), e.Tick? && a in due && due[a] == now + 1;
            && (a in due' <==> a in due && !(fires && answers(now + 1)(a) == 0))
            && (a in due' ==> due'[a] == if fires then due[a] + answers(now + 1)(a) else due[a])
            && (a in due' ==> NowAfter(now, e) < due'[a])
  {
  }

  /** The unbounded clock fires an alarm exactly on its schedule as long as nobody starts or stops it, whatever happens to
      the others. */
  lemma {:induction false} FiresOnSchedule(a: nat, due: map<nat, nat>, now: nat, events: seq<Event>, answers: nat -> nat -> nat)
    requires (a in due ==> now < due[a]) && Quiet(a, events)
    ensures Fired(a, due, now, events, answers) ==
            if a in due then Schedule(a, due[a], now + TickCount(events), answers) else []
    decreases |events|
  {
    hide Schedule, Fired, TickCount, DueAfter;
    if events == [] {
      NothingFired(a, due, now, answers);
      NoTicks(events);
    } else {
      var due', now' := DueAfter(due, now, events[0], answers), NowAfter(now, events[0]);
      FiredNext(a, due, now, events, answers);
      CountNext(events);
      DueStays(a, due, now, events[0], answers);
      FiresOnSchedule(a, due', now', events[1..], answers);
    }
    if a in due {
      ScheduleNext(a, due[a], now + TickCount(events), answers);
    }
  }

  /** An alarm that is started and then left alone fires on the schedule of its start; one that is stopped does not fire. */
  lemma StartedOrStopped(a: nat, n: nat, due: map<nat, nat>, now: nat, events: seq<Event>, answers: nat -> nat -> nat)
    requires Quiet(a, events)
    ensures Fired(a, due, now, [Begin(a, n)] + events, answers) == Schedule(a, now + n + 1, now + TickCount(events), answers)
    ensures Fired(a, due, now, [End(a)] + events, answers) == []
  {
    hide Schedule;
    assert ([Begin(a, n)] + events)[1..] == events && ([End(a)] + events)[1..] == events;
    FiresOnSchedule(a, due[a := now + n + 1], now, events, answers);
    FiresOnSchedule(a, due - {a}, now, events, answers);
  }

  /** The due times and the tick after a run. */
  function DueIn(due: map<nat, nat>, now: nat, events: seq<Event>, answers: nat -> nat -> nat): (r: (map<nat, nat>, nat))
    decreases |events|
  {
    if events == [] then (due, now)
    else DueIn(DueAfter(due, now, events[0], answers), NowAfter(now, events[0]), events[1..], answers)
  }

  lemma DueInNext(due: map<nat, nat>, now: nat, events: seq<Event>, answers: nat -> nat -> nat)
    ensures DueIn(due, now, events, answers) ==
            if events == [] then (due, now)
            else DueIn(DueAfter(due, now, events[0], answers), NowAfter(now, events[0]), events[1..], answers)
  {
    hide DueAfter;
  }

  lemma Regrouped<T>(x: seq<T>, y: seq<T>, z: seq<T>)
    ensures x + (y + z) == x + y + z
  {
  }

  /** A run fires an alarm as its first part does and then as the rest does from where that ended. */
  lemma {:induction false} FiredJoin(a: nat, due: map<nat, nat>, now: nat, xs: seq<Event>, ys: seq<Event>, answers: nat -> nat -> nat)
    ensures var (due', now') := DueIn(due, now, xs, answers);
            && now' == now + TickCount(xs)
            && Fired(a, due, now, xs + ys, answers) == Fired(a, due, now, xs, answers) + Fired(a, due', now', ys, answers)
    decreases |xs|
  {
    hide DueAfter, Fired, TickCount, DueIn;
    DueInNext(due, now, xs, answers);
    if xs == [] {
      assert xs + ys == ys;
      NothingFired(a, due, now, answers);
      NoTicks(xs);
      assert [] + Fired(a, due, now, ys, answers) == Fired(a, due, now, ys, answers);
    } else {
      assert (xs + ys)[1..] == xs[1..] + ys && (xs + ys)[0] == xs[0];
      CountNext(xs);
      var due', now' := DueAfter(due, now, xs[0], answers), NowAfter(now, xs[0]);
      var head := if xs[0].Tick? && a in due && due[a] == now + 1 then [now + 1] else [];
      FiredJoin(a, due', now', xs[1..], ys, answers);
      FiredNext(a, due, now, xs, answers);
      FiredNext(a, due, now, xs + ys, answers);
      var (due'', now'') := DueIn(due, now, xs, answers);
      Regrouped(head, Fired(a, due', now', xs[1..], answers), Fired(a, due'', now'', ys, answers));
    }
  }

  /** An alarm started or stopped anywhere in a run and then left alone: what it did before, and then its schedule, or
      nothing. */
  lemma StartedInRun(a: nat, n: nat, due: map<nat, nat>, now: nat, before: seq<Event>, events: seq<Event>, answers: nat -> nat -> nat)
    requires Quiet(a, events)
    ensures var at := now + TickCount(before);
            Fired(a, due, now, before + ([Begin(a, n)] + events), answers) ==
            Fired(a, due, now, before, answers) + Schedule(a, at + n + 1, at + TickCount(events), answers)
    ensures Fired(a, due, now, before + ([End(a)] + events), answers) == Fired(a, due, now, before, answers)
  {
    hide Schedule, Fired, TickCount, DueIn;
    var (due', at) := DueIn(due, now, before, answers);
    FiredJoin(a, due, now, before, [Begin(a, n)] + events, answers);
    FiredJoin(a, due, now, before, [End(a)] + events, answers);
    StartedOrStopped(a, n, due', at, events, answers);
  }

  // ---------------------------------------------------------------- the list the HAL walks

  /** A registered alarm: its identity and its two words. */
  datatype Entry = Entry(id: nat, words: Words)

  /** The flag, the test and the callback of one alarm, as one tick handles them: whether the callback
      was made, and what stays in the list. */
  function Visited(e: Entry, nticks: nat, reply: nat): (r: (bool, seq<Entry>))
    requires e.words.time < U32 && reply < U32
  {
    var w := Cleared(e.words, nticks);
    if !Expired(w, nticks) then (false, [Entry(e.id, w)])
    else (true, if reply == 0 then [] else [Entry(e.id, Rearmed(w, nticks, reply))])
  }

  /** What a tick makes of the first k entries: the entries that stay, and the alarms called back. */
  function Walked(list: seq<Entry>, k: nat, nticks: nat, answer: nat -> nat): (r: (seq<Entry>, seq<nat>))
    requires k <= |list| && forall i :: 0 <= i < |list| ==> list[i].words.time < U32 && answer(list[i].id) < U32
  {
    if k == 0 then ([], [])
    else
      var (kept, called) := Walked(list, k - 1, nticks, answer);
      var (fired, stays) := Visited(list[k - 1], nticks, answer(list[k - 1].id));
      (kept + stays, called + if fired then [list[k - 1].id] else [])
  }

  lemma WalkedNone(list: seq<Entry>, nticks: nat, answer: nat -> nat)
    requires forall i :: 0 <= i < |list| ==> list[i].words.time < U32 && answer(list[i].id) < U32
    ensures Walked(list, 0, nticks, answer) == ([], [])
  {
  }

  lemma WalkedNext(list: seq<Entry>, k: nat, nticks: nat, answer: nat -> nat)
    requires k < |list| && forall i :: 0 <= i < |list| ==> list[i].words.time < U32 && answer(list[i].id) < U32
    ensures var (kept, called) := Walked(list, k, nticks, answer);
            var (fired, stays) := Visited(list[k], nticks, answer(list[k].id));
            Walked(list, k + 1, nticks, answer) == (kept + stays, called + if fired then [list[k].id] else [])
  {
    hide Visited;
  }

  lemma Split(kept: seq<Entry>, list: seq<Entry>, k: nat)
    requires k < |list|
    ensures var all := kept + list[k..];
            all[|kept|] == list[k] && all[..|kept|] == kept && all[|kept| + 1..] == list[k + 1..]
  {
  }

  /** One of the first k entries is this alarm. */
  ghost predicate Has(list: seq<Entry>, k: nat, id: nat)
    requires k <= |list|
  {
    exists i :: 0 <= i < k && list[i].id == id
  }

  /** The list holds each alarm once and tracks the unbounded due times. */
  ghost predicate Lists(list: seq<Entry>, due: map<nat, nat>, now: nat)
  {
    && (forall i, j :: 0 <= i < j < |list| ==> list[i].id != list[j].id)
    && (forall i :: 0 <= i < |list| ==> list[i].id in due && Tracks(list[i].words, due[list[i].id], now))
    && (forall a :: a in due ==> Has(list, |list|, a))
  }

  /** The ids, in list order, that are due now. */
  function DueNow(list: seq<Entry>, k: nat, due: map<nat, nat>, now: nat): (s: seq<nat>)
    requires k <= |list| && forall i :: 0 <= i < |list| ==> list[i].id in due
  {
    if k == 0 then []
    else DueNow(list, k - 1, due, now) + if due[list[k - 1].id] == now then [list[k - 1].id] else []
  }

  /** The walk calls back exactly the alarms due, in list order. */
  lemma {:induction false} WalkCalls(list: seq<Entry>, k: nat, due: map<nat, nat>, now: nat, answer: nat -> nat)
    requires k <= |list| && forall i :: 0 <= i < |list| ==> list[i].words.time < U32 && answer(list[i].id) < U32
    requires forall i :: 0 <= i < |list| ==> list[i].id in due && Tracks(list[i].words, due[list[i].id], now)
    ensures Walked(list, k, (now + 1) % U32, answer).1 == DueNow(list, k, due, now + 1)
    decreases k
  {
    hide Tracks, Cleared, Expired, Rearmed;
    if k > 0 {
      WalkCalls(list, k - 1, due, now, answer);
      TickTracks(list[k - 1].words, due[list[k - 1].id], now);
    }
  }

  /** What one visit leaves in the list tracks the unbounded clock after the tick. */
  lemma VisitTracks(e: Entry, due: map<nat, nat>, now: nat, answer: nat -> nat)
    requires e.id in due && Tracks(e.words, due[e.id], now) && e.words.time < U32 && answer(e.id) < U32
    ensures var stays := Visited(e, (now + 1) % U32, answer(e.id)).1;
            var due' := Next(due, now + 1, answer);
            && |stays| <= 1 && (stays == [] <==> e.id !in due')
            && (stays != [] ==> stays[0].id == e.id && Tracks(stays[0].words, due'[e.id], now + 1))
  {
    hide Tracks, Cleared, Expired, Rearmed;
    TickTracks(e.words, due[e.id], now);
  }

  /** What is kept of the first k entries: each alarm that stays, once, with its new due time. */
  ghost predicate KeptOf(list: seq<Entry>, k: nat, kept: seq<Entry>, due': map<nat, nat>, now: nat)
    requires k <= |list|
  {
    && (forall i :: 0 <= i < |kept| ==> kept[i].id in due' && Has(list, k, kept[i].id) && Tracks(kept[i].words, due'[kept[i].id], now))
    && (forall i, j :: 0 <= i < j < |kept| ==> kept[i].id != kept[j].id)
    && (forall i :: 0 <= i < k && list[i].id in due' ==> Has(kept, |kept|, list[i].id))
  }

  lemma HasMore(list: seq<Entry>, k: nat, n: nat, id: nat)
    requires k <= n <= |list| && Has(list, k, id)
    ensures Has(list, n, id)
  {
  }

  lemma HasAppended(kept: seq<Entry>, more: seq<Entry>, id: nat)
    requires Has(kept, |kept|, id) || Has(more, |more|, id)
    ensures Has(kept + more, |kept + more|, id)
  {
    if Has(kept, |kept|, id) {
      var i :| 0 <= i < |kept| && kept[i].id == id;
      assert (kept + more)[i].id == id;
    } else {
      var i :| 0 <= i < |more| && more[i].id == id;
      assert (kept + more)[|kept| + i].id == id;
    }
  }

  lemma NotEarlier(list: seq<Entry>, k: nat, id: nat)
    requires k < |list| && Has(list, k, id)
    requires forall i, j :: 0 <= i < j < |list| ==> list[i].id != list[j].id
    ensures id != list[k].id
  {
  }

  lemma KeptNext(list: seq<Entry>, k: nat, kept: seq<Entry>, stays: seq<Entry>, due': map<nat, nat>, now: nat)
    requires k < |list| && KeptOf(list, k, kept, due', now)
    requires forall i, j :: 0 <= i < j < |list| ==> list[i].id != list[j].id
    requires |stays| <= 1 && (stays == [] <==> list[k].id !in due')
    requires stays != [] ==> stays[0].id == list[k].id && Tracks(stays[0].words, due'[list[k].id], now)
    ensures KeptOf(list, k + 1, kept + stays, due', now)
  {
    hide Tracks, Has;
    var all := kept + stays;
    HasLast(list, k);
    forall i | 0 <= i < |all|
      ensures all[i].id in due' && Has(list, k + 1, all[i].id) && Tracks(all[i].words, due'[all[i].id], now)
      ensures i < |kept| ==> all[i].id != list[k].id
    {
      if i < |kept| {
        assert all[i] == kept[i];
        NotEarlier(list, k, kept[i].id);
        HasMore(list, k, k + 1, kept[i].id);
      }
    }
    forall i | 0 <= i < k + 1 && list[i].id in due'
      ensures Has(all, |all|, list[i].id)
    {
      if i == k {
        HasLast(stays, 0);
      }
      HasAppended(kept, stays, list[i].id);
    }
  }

  lemma HasLast(list: seq<Entry>, k: nat)
    requires k < |list|
    ensures Has(list, k + 1, list[k].id)
  {
  }

  /** What the walk keeps tracks the unbounded clock. */
  lemma {:induction false} WalkTracks(list: seq<Entry>, k: nat, due: map<nat, nat>, now: nat, answer: nat -> nat)
    requires k <= |list| && Lists(list, due, now)
    requires forall i :: 0 <= i < |list| ==> list[i].words.time < U32 && answer(list[i].id) < U32
    ensures KeptOf(list, k, Walked(list, k, (now + 1) % U32, answer).0, Next(due, now + 1, answer), now + 1)
    decreases k
  {
    hide Tracks, Has, Next, Visited, Walked, KeptOf;
    var nticks, due' := (now + 1) % U32, Next(due, now + 1, answer);
    if k == 0 {
      WalkedNone(list, nticks, answer);
      KeptNone(list, due', now + 1);
    } else {
      WalkTracks(list, k - 1, due, now, answer);
      WalkedNext(list, k - 1, nticks, answer);
      VisitTracks(list[k - 1], due, now, answer);
      KeptNext(list, k - 1, Walked(list, k - 1, nticks, answer).0, Visited(list[k - 1], nticks, answer(list[k - 1].id)).1,
               due', now + 1);
    }
  }

  lemma KeptNone(list: seq<Entry>, due': map<nat, nat>, now: nat)
    ensures KeptOf(list, 0, [], due', now)
  {
  }

  /** A tick keeps the list in step with the unbounded clock. */
  lemma TickLists(list: seq<Entry>, due: map<nat, nat>, now: nat, answer: nat -> nat)
    requires Lists(list, due, now)
    requires forall i :: 0 <= i < |list| ==> list[i].words.time < U32 && answer(list[i].id) < U32
    ensures Lists(Walked(list, |list|, (now + 1) % U32, answer).0, Next(due, now + 1, answer), now + 1)
  {
    hide Tracks, Walked;
    WalkTracks(list, |list|, due, now, answer);
    var due', kept := Next(due, now + 1, answer), Walked(list, |list|, (now + 1) % U32, answer).0;
    forall a | a in due'
      ensures Has(kept, |kept|, a)
    {
      assert Has(list, |list|, a);
    }
  }

  lemma TracksSmall(list: seq<Entry>, due: map<nat, nat>, now: nat)
    requires Lists(list, due, now)
    ensures forall i :: 0 <= i < |list| ==> list[i].words.time < U32
  {
  }

  lemma ListedKeys(list: seq<Entry>, due: map<nat, nat>, now: nat)
    requires Lists(list, due, now)
    ensures forall i :: 0 <= i < |list| ==> list[i].id in due && Tracks(list[i].words, due[list[i].id], now)
  {
  }

  lemma NextTick(now: nat)
    ensures (now % U32 + 1) % U32 == (now + 1) % U32
  {
  }

  class Clock {
    var tickRate: nat
    var nticks: nat
    var alarms: seq<Entry>

    // The unbounded clock this one stands for
    ghost var now: nat
    ghost var due: map<nat, nat>

    ghost predicate Valid()
      reads this
    {
      nticks == now % U32 && Lists(alarms, due, now)
    }

    constructor (tickRate: nat)
      ensures Valid() && now == 0 && due == map[] && this.tickRate == tickRate
    {
      this.tickRate, nticks, alarms := tickRate, 0, [];
      now, due := 0, map[];
    }

    /** alt_alarm_start; `alarm` is None for a null pointer. The list stays in step with the unbounded clock exactly if
        the delay is not the longest or the counter is about to wrap. */
    method Start(alarm: Option<nat>, n: nat) returns (rc: int)
      requires Valid() && n < U32 && (alarm.Some? ==> alarm.value !in due)
      modifies this`alarms, this`due
      ensures rc == if tickRate == 0 then -ENOTSUP else if alarm.None? then -EINVAL else 0
      ensures rc == 0 ==> due == old(due)[alarm.value := now + n + 1]
      ensures rc == 0 ==> alarms == [Entry(alarm.value, Started(nticks, n))] + old(alarms)
      ensures rc == 0 ==> (Valid() <==> n < U32 - 1 || nticks == U32 - 1)
      ensures rc != 0 ==> Valid() && due == old(due) && alarms == old(alarms)
    {
      if tickRate != 0 {
        if alarm.Some? {
          var current := nticks;
          var time := (n + current + 1) % U32;
          var rollover := time < current;
          StartTracks(now, n);
          Link(Entry(alarm.value, Words(time, rollover)), now + n + 1);
          rc := 0;
        } else {
          rc := -EINVAL;
        }
      } else {
        rc := -ENOTSUP;
      }
    }

    /** Put an alarm at the head of the list. */
    method Link(e: Entry, ghost at: nat)
      requires Valid() && e.id !in due
      modifies this`alarms, this`due
      ensures due == old(due)[e.id := at] && alarms == [e] + old(alarms)
      ensures Valid() <==> Tracks(e.words, at, now)
    {
      hide Tracks;
      var list := alarms;
      alarms, due := [e] + list, due[e.id := at];
      assert alarms[0] == e;
      forall a | a in due
        ensures Has(alarms, |alarms|, a)
      {
        if a == e.id {
          assert alarms[0].id == a;
        } else {
          assert Has(list, |list|, a);
          var j :| 0 <= j < |list| && list[j].id == a;
          assert alarms[j + 1].id == a;
        }
      }
    }

    /** alt_alarm_stop; harmless for an alarm that is not registered. */
    method Stop(alarm: nat)
      requires Valid()
      modifies this`alarms, this`due
      ensures Valid() && due == old(due) - {alarm}
    {
      var i := 0;
      while i < |alarms| && alarms[i].id != alarm
        invariant 0 <= i <= |alarms| && forall j :: 0 <= j < i ==> alarms[j].id != alarm
      {
        i := i + 1;
      }
      if i < |alarms| {
        Unlink(i);
      }
    }

    /** Take the alarm at i out of the list. */
    method Unlink(i: nat)
      requires Valid() && i < |alarms|
      modifies this`alarms, this`due
      ensures Valid() && due == old(due) - {old(alarms)[i].id}
      ensures alarms == old(alarms)[..i] + old(alarms)[i + 1..]
    {
      hide Tracks;
      var list := alarms;
      alarms := list[..i] + list[i + 1..];
      due := due - {list[i].id};
      forall a | a in due
        ensures Has(alarms, |alarms|, a)
      {
        assert Has(list, |list|, a);
        var j :| 0 <= j < |list| && list[j].id == a;
        assert alarms[if j < i then j else j - 1].id == a;
      }
    }

    /** The flag, the test and the callback of one alarm. */
    static method Visit(alarm: Entry, nticks: nat, reply: nat) returns (fired: bool, stays: seq<Entry>)
      requires alarm.words.time < U32 && reply < U32
      ensures (fired, stays) == Visited(alarm, nticks, reply)
    {
      var w := alarm.words;
      if w.rollover && nticks == 0 {
        w := w.(rollover := false);
      }
      fired, stays := false, [Entry(alarm.id, w)];
      if w.time <= nticks && !w.rollover {
        fired := true;
        if reply == 0 {
          stays := [];
        } else {
          w := w.(time := (w.time + reply) % U32);
          if w.time < nticks {
            w := w.(rollover := true);
          }
          stays := [Entry(alarm.id, w)];
        }
      }
    }

    /** The walk of alt_tick: visit each entry, step over those that stay and unlink those that leave. */
    static method Walk(list: seq<Entry>, nticks: nat, answer: nat -> nat) returns (alarms: seq<Entry>, fired: seq<nat>)
      requires forall i :: 0 <= i < |list| ==> list[i].words.time < U32 && answer(list[i].id) < U32
      ensures (alarms, fired) == Walked(list, |list|, nticks, answer)
    {
      hide Visited, Walked;
      WalkedNone(list, nticks, answer);
      alarms, fired := list, [];
      ghost var k := 0;
      var i := 0;
      while i < |alarms|
        invariant 0 <= k <= |list| && i == |Walked(list, k, nticks, answer).0|
        invariant alarms == Walked(list, k, nticks, answer).0 + list[k..]
        invariant fired == Walked(list, k, nticks, answer).1
        decreases |list| - k
      {
        ghost var kept := Walked(list, k, nticks, answer).0;
        Split(kept, list, k);
        WalkedNext(list, k, nticks, answer);
        var alarm := alarms[i];
        var called, stays := Visit(alarm, nticks, answer(alarm.id));
        if called {
          fired := fired + [alarm.id];
        }
        alarms := alarms[..i] + stays + alarms[i + 1..];
        i := i + |stays|;
        k := k + 1;
      }
      assert k == |list| && alarms == Walked(list, k, nticks, answer).0;
    }

    /** alt_tick. `answer` is what each callback would return if called; the result lists the alarms
        called back, in list order. */
    method Tick(answer: nat -> nat) returns (fired: seq<nat>)
      requires Valid() && forall a :: a in due ==> answer(a) < U32
      modifies this
      ensures Valid() && now == old(now) + 1 && tickRate == old(tickRate)
      ensures due == Next(old(due), now, answer)
      ensures fired == DueNow(old(alarms), |old(alarms)|, old(due), now)
    {
      hide Tracks, Walked, Has, DueNow, Lists, Next;
      ghost var list := alarms;
      TracksSmall(list, due, now);
      ListedKeys(list, due, now);
      WalkCalls(list, |list|, due, now, answer);
      TickLists(list, due, now, answer);
      NextTick(now);
      nticks := (nticks + 1) % U32;
      now := now + 1;
      alarms, fired := Walk(alarms, nticks, answer);
      due := Next(due, now, answer);
    }
  }

  /** The ids due now, as the list gives them, are those the unbounded clock holds due now. */
  lemma {:induction false} DueNowExact(list: seq<Entry>, k: nat, due: map<nat, nat>, now: nat, a: nat)
    requires k <= |list| && forall i :: 0 <= i < |list| ==> list[i].id in due
    ensures a in DueNow(list, k, due, now) <==> Has(list, k, a) && a in due && due[a] == now
    decreases k
  {
    if k > 0 {
      DueNowExact(list, k - 1, due, now, a);
      assert list[k - 1].id == a ==> Has(list, k, a);
    }
  }

  /** The ticks at which a log of calls, one entry a tick from `now`, shows alarm a. */
  function Logged(log: seq<seq<nat>>, now: nat, a: nat): (s: seq<nat>)
  {
    if log == [] then []
    else
      var k := |log| - 1;
      Logged(log[..k], now, a) + if a in log[k] then [now + k + 1] else []
  }

  /** Every registered alarm is due in the future. */
  lemma TrackedAhead(list: seq<Entry>, due: map<nat, nat>, now: nat, a: nat)
    requires Lists(list, due, now)
    ensures a in due ==> now < due[a]
  {
    assert a in due ==> Has(list, |list|, a);
  }

  /** A tick calls exactly the alarms the unbounded clock holds due at it. */
  lemma CalledIffDue(list: seq<Entry>, due: map<nat, nat>, now: nat, a: nat)
    requires Lists(list, due, now)
    ensures a in DueNow(list, |list|, due, now + 1) <==> a in due && due[a] == now + 1
  {
    hide Tracks;
    DueNowExact(list, |list|, due, now + 1, a);
    assert a in due ==> Has(list, |list|, a);
  }

  /** What is logged so far, and what the unbounded clock has yet to fire, make up all its firings. */
  ghost predicate InStep(log: seq<seq<nat>>, due0: map<nat, nat>, start: nat, events: seq<Event>, due: map<nat, nat>,
                         left: seq<Event>, answers: nat -> nat -> nat)
  {
    forall a: nat :: Fired(a, due0, start, events, answers) ==
      Logged(log, start, a) + Fired(a, due, start + |log|, left, answers)
  }

  lemma InStepFirst(due0: map<nat, nat>, start: nat, events: seq<Event>, answers: nat -> nat -> nat)
    ensures InStep([], due0, start, events, due0, events, answers)
  {
    hide Fired;
    forall a: nat
      ensures Fired(a, due0, start, events, answers) == Logged([], start, a) + Fired(a, due0, start, events, answers)
    {
      assert [] + Fired(a, due0, start, events, answers) == Fired(a, due0, start, events, answers);
    }
  }

  lemma TickInStep(log: seq<seq<nat>>, fired: seq<nat>, due0: map<nat, nat>, start: nat, events: seq<Event>,
                   due: map<nat, nat>, left: seq<Event>, answers: nat -> nat -> nat)
    requires InStep(log, due0, start, events, due, left, answers) && left != [] && left[0].Tick?
    requires forall a: nat :: a in fired <==> a in due && due[a] == start + |log| + 1
    ensures InStep(log + [fired], due0, start, events, DueAfter(due, start + |log|, Tick, answers), left[1..], answers)
  {
    hide DueAfter, Fired, Logged;
    var now := start + |log| + 1;
    var due' := DueAfter(due, start + |log|, Tick, answers);
    forall a: nat
      ensures Fired(a, due0, start, events, answers) ==
                Logged(log + [fired], start, a) + Fired(a, due', now, left[1..], answers)
    {
      LoggedNext(log, fired, start, a);
      FiredNext(a, due, start + |log|, left, answers);
      if a in fired {
        assert Logged(log, start, a) + ([now] + Fired(a, due', now, left[1..], answers)) ==
               Logged(log, start, a) + [now] + Fired(a, due', now, left[1..], answers);
      }
    }
  }

  lemma LoggedNext(log: seq<seq<nat>>, fired: seq<nat>, now: nat, a: nat)
    ensures Logged(log + [fired], now, a) == Logged(log, now, a) + if a in fired then [now + |log| + 1] else []
  {
    assert (log + [fired])[..|log|] == log;
  }

  lemma FiredNext(a: nat, due: map<nat, nat>, now: nat, events: seq<Event>, answers: nat -> nat -> nat)
    requires events != []
    ensures Fired(a, due, now, events, answers) ==
            (if events[0].Tick? && a in due && due[a] == now + 1 then [now + 1] else []) +
            Fired(a, DueAfter(due, now, events[0], answers), NowAfter(now, events[0]), events[1..], answers)
  {
    hide DueAfter;
  }

  lemma OtherInStep(log: seq<seq<nat>>, due0: map<nat, nat>, start: nat, events: seq<Event>, due: map<nat, nat>,
                    left: seq<Event>, answers: nat -> nat -> nat)
    requires InStep(log, due0, start, events, due, left, answers) && left != [] && !left[0].Tick?
    ensures InStep(log, due0, start, events, DueAfter(due, start + |log|, left[0], answers), left[1..], answers)
  {
    hide DueAfter, Fired, Logged;
    forall a: nat
      ensures Fired(a, due0, start, events, answers) ==
                Logged(log, start, a) + Fired(a, DueAfter(due, start + |log|, left[0], answers), start + |log|, left[1..], answers)
    {
      FiredNext(a, due, start + |log|, left, answers);
    }
  }

  /** One event: the unbounded clock makes it too, and a tick calls back what is due there. */
  method Happen(clock: Clock, e: Event, now: nat, answers: nat -> nat -> nat) returns (fired: seq<nat>)
    requires clock.Valid() && clock.tickRate > 0 && clock.now == now && forall t: nat, a: nat :: answers(t)(a) < U32
    requires e.Begin? ==> e.alarm !in clock.due && e.n < U32 && (e.n < U32 - 1 || now % U32 == U32 - 1)
    modifies clock
    ensures clock.Valid() && clock.tickRate == old(clock.tickRate) && clock.now == NowAfter(now, e)
    ensures clock.due == DueAfter(old(clock.due), now, e, answers)
    ensures e.Tick? ==> forall a: nat :: a in fired <==> a in old(clock.due) && old(clock.due)[a] == now + 1
  {
    hide Lists, Next, DueNow, Tracks, Started;
    ghost var due, list := clock.due, clock.alarms;
    fired := [];
    match e
    case Begin(a, n) =>
      var rc := clock.Start(Some(a), n);
    case End(a) =>
      clock.Stop(a);
    case Tick =>
      fired := clock.Tick(answers(now + 1));
      forall a: nat
        ensures a in fired <==> a in due && due[a] == now + 1
      {
        CalledIffDue(list, due, now, a);
      }
  }

  /** Any run of starts, stops and ticks, across any number of wraps: the alarms called back are, tick by tick, those of
      the unbounded clock; so an alarm that is left alone is called exactly on its schedule. */
  method Run(clock: Clock, start: nat, events: seq<Event>, answers: nat -> nat -> nat) returns (log: seq<seq<nat>>)
    requires clock.Valid() && clock.tickRate > 0 && clock.now == start && Legal(clock.due, start, events, answers)
    requires forall t: nat, a: nat :: answers(t)(a) < U32
    modifies clock
    ensures clock.Valid() && clock.now == start + TickCount(events) && |log| == TickCount(events)
    ensures forall a: nat :: Logged(log, start, a) == Fired(a, old(clock.due), start, events, answers)
    ensures forall a: nat :: Quiet(a, events) ==>
              Logged(log, start, a) ==
              if a in old(clock.due) then Schedule(a, old(clock.due)[a], start + TickCount(events), answers) else []
  {
    hide Lists, Next, Fired, Schedule, TickCount, Legal, Quiet, DueAfter, InStep, Logged;
    log := [];
    ghost var due0, list0 := clock.due, clock.alarms;
    assert events[0..] == events;
    InStepFirst(due0, start, events, answers);
    for i := 0 to |events|
      invariant clock.Valid() && clock.tickRate > 0 && clock.now == start + |log|
      invariant |log| + TickCount(events[i..]) == TickCount(events)
      invariant Legal(clock.due, clock.now, events[i..], answers)
      invariant InStep(log, due0, start, events, clock.due, events[i..], answers)
    {
      ghost var left, due := events[i..], clock.due;
      assert left[1..] == events[i + 1..] && left[0] == events[i];
      LegalNext(due, clock.now, left, answers);
      CountNext(left);
      var fired := Happen(clock, events[i], start + |log|, answers);
      if events[i].Tick? {
        TickInStep(log, fired, due0, start, events, due, left, answers);
        log := log + [fired];
      } else {
        OtherInStep(log, due0, start, events, due, left, answers);
      }
    }
    NoTicks(events[|events|..]);
    RunComplete(log, list0, due0, start, events, clock.due, answers);
  }

  lemma LegalNext(due: map<nat, nat>, now: nat, events: seq<Event>, answers: nat -> nat -> nat)
    requires events != [] && Legal(due, now, events, answers)
    ensures events[0].Begin? ==>
              events[0].alarm !in due && events[0].n < U32 && (events[0].n < U32 - 1 || now % U32 == U32 - 1)
    ensures Legal(DueAfter(due, now, events[0], answers), NowAfter(now, events[0]), events[1..], answers)
  {
  }

  lemma CountNext(events: seq<Event>)
    requires events != []
    ensures TickCount(events) == (if events[0].Tick? then 1 else 0) + TickCount(events[1..])
  {
  }

  lemma NoTicks(events: seq<Event>)
    requires events == []
    ensures TickCount(events) == 0
  {
  }

  lemma RunComplete(log: seq<seq<nat>>, list: seq<Entry>, due0: map<nat, nat>, start: nat, events: seq<Event>,
                    due: map<nat, nat>, answers: nat -> nat -> nat)
    requires InStep(log, due0, start, events, due, [], answers) && Lists(list, due0, start) && |log| == TickCount(events)
    ensures forall a: nat :: Logged(log, start, a) == Fired(a, due0, start, events, answers)
    ensures forall a: nat :: Quiet(a, events) ==>
              Logged(log, start, a) == if a in due0 then Schedule(a, due0[a], start + TickCount(events), answers) else []
  {
    hide Lists, Quiet, Schedule;
    forall a: nat
      ensures Logged(log, start, a) == Fired(a, due0, start, events, answers)
      ensures Quiet(a, events) ==>
                Logged(log, start, a) == if a in due0 then Schedule(a, due0[a], start + TickCount(events), answers) else []
    {
      TrackedAhead(list, due0, start, a);
      if Quiet(a, events) {
        FiresOnSchedule(a, due0, start, events, answers);
      }
    }
  }
}
