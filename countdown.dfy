/**
 * The countdown ticker of CelestiaApp: splitting the remaining time into
 * days, hours, minutes and seconds, rewriting a digit slot only when its
 * value changes, and the one-way "launched" latch that stops the ticker.
 * Times are whole milliseconds, as returned by Date.prototype.getTime.
 */
module Countdown {
  import opened Text

  const MsPerSecond: nat := 1000
  const MsPerMinute: nat := 60 * MsPerSecond
  const MsPerHour: nat := 60 * MsPerMinute
  const MsPerDay: nat := 24 * MsPerHour

  /** The four digit slots of the page: #days, #hours, #minutes, #seconds. */
  datatype Unit = Days | Hours | Minutes | Seconds

  datatype Parts = Parts(days: nat, hours: nat, minutes: nat, seconds: nat)

  predicate InClockRange(p: Parts) {
    p.hours < 24 && p.minutes < 60 && p.seconds < 60
  }

  /** The milliseconds a set of displayed values stands for. */
  function Millis(p: Parts): nat {
    p.days * MsPerDay + p.hours * MsPerHour + p.minutes * MsPerMinute + p.seconds * MsPerSecond
  }

  function Component(p: Parts, u: Unit): nat {
    match u
    case Days => p.days
    case Hours => p.hours
    case Minutes => p.minutes
    case Seconds => p.seconds
  }

  /** The floor-division and modulo arithmetic of the tick, for a
      non-negative distance (where JavaScript's % agrees with Dafny's). */
  function Decompose(distance: nat): (p: Parts)
    ensures InClockRange(p)
    ensures p.days * MsPerDay <= distance < (p.days + 1) * MsPerDay
  {
    Parts(distance / MsPerDay,
          (distance % MsPerDay) / MsPerHour,
          (distance % MsPerHour) / MsPerMinute,
          (distance % MsPerMinute) / MsPerSecond)
  }

  /** A non-zero multiple of a positive number is at least that far from 0. */
  lemma {:induction false} MultipleBounds(k: int, d: int)
    requires d > 0
    ensures k >= 1 ==> k * d >= d
    ensures k <= -1 ==> k * d <= -d
    decreases if k < 0 then -k else k
  {
    if k > 1 {
      MultipleBounds(k - 1, d);
      assert k * d == (k - 1) * d + d;
    } else if k < -1 {
      MultipleBounds(k + 1, d);
      assert k * d == (k + 1) * d - d;
    }
  }

  /** Quotient and remainder are determined by any matching split. */
  lemma DivModUnique(n: int, d: int, q: int, r: int)
    requires 0 < d && 0 <= r < d && n == q * d + r
    ensures n / d == q && n % d == r
  {
    var q0, r0 := n / d, n % d;
    assert n == q0 * d + r0;
    assert (q - q0) * d == r0 - r;
    MultipleBounds(q - q0, d);
  }

  /** The decomposition is the mixed-radix expansion of the distance,
      truncated to whole seconds. */
  lemma DecomposeIsExpansion(distance: nat)
    ensures var p := Decompose(distance);
      InClockRange(p) && distance == Millis(p) + distance % MsPerSecond
  {
    var p := Decompose(distance);
    var rd := distance % MsPerDay;
    var rh := rd % MsPerHour;
    var rm := rh % MsPerMinute;
    assert distance == p.days * MsPerDay + rd;
    assert rd == p.hours * MsPerHour + rh;
    DivModUnique(distance, MsPerHour, p.days * 24 + p.hours, rh);
    assert rh == p.minutes * MsPerMinute + rm;
    DivModUnique(distance, MsPerMinute, (p.days * 24 + p.hours) * 60 + p.minutes, rm);
    assert rm == p.seconds * MsPerSecond + rm % MsPerSecond;
    DivModUnique(distance, MsPerSecond, ((p.days * 24 + p.hours) * 60 + p.minutes) * 60 + p.seconds, rm % MsPerSecond);
  }

  /** Bounds and reconstruction: the displayed values are in clock range and
      stand for at most `distance`, short of it by less than one second. */
  lemma DecomposeBrackets(distance: nat)
    ensures InClockRange(Decompose(distance))
    ensures Millis(Decompose(distance)) <= distance < Millis(Decompose(distance)) + MsPerSecond
  {
    DecomposeIsExpansion(distance);
  }

  /** Only one set of in-range values brackets a distance that way, so the
      bracketing property characterises Decompose. */
  lemma DecomposeUnique(distance: nat, p: Parts)
    requires InClockRange(p)
    requires Millis(p) <= distance < Millis(p) + MsPerSecond
    ensures Decompose(distance) == p
  {
    var r := distance - Millis(p);
    var toHours := p.days * 24 + p.hours;
    var toMinutes := toHours * 60 + p.minutes;
    DivModUnique(distance, MsPerDay, p.days, p.hours * MsPerHour + p.minutes * MsPerMinute + p.seconds * MsPerSecond + r);
    DivModUnique(distance % MsPerDay, MsPerHour, p.hours, p.minutes * MsPerMinute + p.seconds * MsPerSecond + r);
    DivModUnique(distance, MsPerHour, toHours, p.minutes * MsPerMinute + p.seconds * MsPerSecond + r);
    DivModUnique(distance % MsPerHour, MsPerMinute, p.minutes, p.seconds * MsPerSecond + r);
    DivModUnique(distance, MsPerMinute, toMinutes, p.seconds * MsPerSecond + r);
    DivModUnique(distance % MsPerMinute, MsPerSecond, p.seconds, r);
  }

  // --------------------------------------------------------- digit slots

  /** animateCountdownValue on the slots that exist: a slot is rewritten
      with the padded value only when what it shows now parses to a
      different number. After the update every present slot reads `v`. */
  function Animate(slots: map<Unit, string>, u: Unit, v: nat): (r: map<Unit, string>)
    ensures r.Keys == slots.Keys
    ensures forall w :: w in slots && w != u ==> r[w] == slots[w]
    ensures u in slots ==> ParseIntOrZero(r[u]) == v
    ensures u in slots && r[u] != slots[u] ==> ParseIntOrZero(slots[u]) != v && r[u] == Padded(v)
  {
    if u in slots && ParseIntOrZero(slots[u]) != v then
      ParsePadded(v);
      slots[u := Padded(v)]
    else slots
  }

  /** The four slot updates of one tick, in the source's order. */
  function Render(slots: map<Unit, string>, p: Parts): (r: map<Unit, string>)
    ensures r.Keys == slots.Keys
  {
    Animate(Animate(Animate(Animate(slots, Days, p.days), Hours, p.hours), Minutes, p.minutes), Seconds, p.seconds)
  }

  /** After rendering, the same slots exist and each reads its part. */
  lemma RenderShows(slots: map<Unit, string>, p: Parts)
    ensures Render(slots, p).Keys == slots.Keys
    ensures forall u :: u in Render(slots, p) ==> ParseIntOrZero(Render(slots, p)[u]) == Component(p, u)
  {
  }

  /** Rendering values the slots already show writes nothing. */
  lemma RenderIdempotent(slots: map<Unit, string>, p: Parts)
    ensures Render(Render(slots, p), p) == Render(slots, p)
  {
  }

  // ------------------------------------------------------- tick and latch

  /** The ticker's state: the completion latch, whether the one-second
      interval is installed, and the text of the digit slots present. */
  datatype Ticker = Ticker(complete: bool, intervalActive: bool, slots: map<Unit, string>)

  /** Whether a tick at `now` runs the "launched" transition. */
  predicate Launches(c: Ticker, target: int, now: int) {
    target - now < 0 && !c.complete
  }

  /** handleCountdownComplete: set the latch and clear the interval. */
  function Launch(c: Ticker): (r: Ticker)
    ensures r.complete && LatchStopsInterval(r)
    ensures r.slots == c.slots
  {
    c.(complete := true, intervalActive := false)
  }

  /** updateCountdown. */
  function Tick(c: Ticker, target: int, now: int): (r: Ticker)
    ensures r.complete == (c.complete || target - now < 0)
    ensures LatchStopsInterval(c) ==> LatchStopsInterval(r)
  {
    var distance := target - now;
    if distance < 0 && !c.complete then Launch(c)
    else if distance >= 0 then c.(slots := Render(c.slots, Decompose(distance)))
    else c
  }

  /** The three branches of a tick, one per case of the distance and latch. */
  lemma TickCases(c: Ticker, target: int, now: int)
    ensures Launches(c, target, now) ==> Tick(c, target, now) == Launch(c)
    ensures target - now >= 0 ==> Tick(c, target, now) == c.(slots := Render(c.slots, Decompose(target - now)))
    ensures target - now < 0 && c.complete ==> Tick(c, target, now) == c
  {
  }

  /** No digits are rendered for a negative distance; the launch sets the
      latch and stops the interval; the latch is never reset. */
  lemma TickEffects(c: Ticker, target: int, now: int)
    ensures target - now < 0 ==> Tick(c, target, now).slots == c.slots
    ensures Launches(c, target, now) ==> Tick(c, target, now).complete && !Tick(c, target, now).intervalActive
    ensures !Launches(c, target, now) ==> Tick(c, target, now).intervalActive == c.intervalActive
    ensures Tick(c, target, now).complete == (c.complete || target - now < 0)
  {
  }

  /** For a non-negative distance every present slot reads the
      corresponding part of the decomposition after the tick. */
  lemma TickShowsDecomposition(c: Ticker, target: int, now: int, u: Unit)
    requires target - now >= 0 && u in c.slots
    ensures u in Tick(c, target, now).slots
    ensures ParseIntOrZero(Tick(c, target, now).slots[u]) == Component(Decompose(target - now), u)
  {
    RenderShows(c.slots, Decompose(target - now));
  }

  /** The state after a sequence of ticks at the given clock readings. */
  function Run(c: Ticker, target: int, nows: seq<int>): Ticker
    decreases |nows|
  {
    if nows == [] then c else Run(Tick(c, target, nows[0]), target, nows[1..])
  }

  /** How many of those ticks ran the launched transition. */
  function LaunchCount(c: Ticker, target: int, nows: seq<int>): nat
    decreases |nows|
  {
    if nows == [] then 0
    else (if Launches(c, target, nows[0]) then 1 else 0) + LaunchCount(Tick(c, target, nows[0]), target, nows[1..])
  }

  /** The latch ends set exactly when it started set or some tick saw the
      clock past the target. */
  lemma {:induction false} RunCompletes(c: Ticker, target: int, nows: seq<int>)
    ensures Run(c, target, nows).complete <==> c.complete || exists i :: 0 <= i < |nows| && nows[i] > target
    decreases |nows|
  {
    if nows != [] {
      RunCompletes(Tick(c, target, nows[0]), target, nows[1..]);
      if exists i :: 0 <= i < |nows[1..]| && nows[1..][i] > target {
        var i :| 0 <= i < |nows[1..]| && nows[1..][i] > target;
        assert nows[i + 1] > target;
      }
      if exists i :: 0 <= i < |nows| && nows[i] > target {
        var i :| 0 <= i < |nows| && nows[i] > target;
        if i > 0 {
          assert nows[1..][i - 1] > target;
        }
      }
    }
  }

  /** The launched transition fires once for each time the latch goes from
      unset to set, so at most once over any sequence of ticks. */
  lemma {:induction false} LaunchAtMostOnce(c: Ticker, target: int, nows: seq<int>)
    ensures LaunchCount(c, target, nows) == if !c.complete && Run(c, target, nows).complete then 1 else 0
    decreases |nows|
  {
    if nows != [] {
      var c1 := Tick(c, target, nows[0]);
      LaunchAtMostOnce(c1, target, nows[1..]);
      if c1.complete {
        RunStaysComplete(c1, target, nows[1..]);
      }
    }
  }

  lemma {:induction false} RunStaysComplete(c: Ticker, target: int, nows: seq<int>)
    requires c.complete
    ensures Run(c, target, nows).complete
    decreases |nows|
  {
    if nows != [] {
      RunStaysComplete(Tick(c, target, nows[0]), target, nows[1..]);
    }
  }

  /** A clock that crosses the target while the latch is unset launches
      exactly once, however many ticks follow the crossing. */
  lemma LaunchOnceWhenCrossing(c: Ticker, target: int, nows: seq<int>, i: nat)
    requires !c.complete && i < |nows| && nows[i] > target
    ensures LaunchCount(c, target, nows) == 1
  {
    RunCompletes(c, target, nows);
    LaunchAtMostOnce(c, target, nows);
  }

  // ----------------------------------------------------------- starting

  /** The ticker invariant the launched transition is meant to establish:
      once the latch is set no interval keeps running. */
  predicate LatchStopsInterval(c: Ticker) {
    c.complete ==> !c.intervalActive
  }

  /** startCountdown as written: one immediate tick, then the interval is
      installed whatever that tick did. */
  function StartAsWritten(c: Ticker, target: int, now: int): (r: Ticker)
    ensures r.intervalActive
    ensures r.complete == (c.complete || target - now < 0)
  {
    Tick(c, target, now).(intervalActive := true)
  }

  /** Once the latch is set, no sequence of ticks changes the interval:
      every later tick takes neither branch of updateCountdown. */
  lemma {:induction false} RunKeepsIntervalOnceComplete(c: Ticker, target: int, nows: seq<int>)
    requires c.complete
    ensures Run(c, target, nows).complete
    ensures Run(c, target, nows).intervalActive == c.intervalActive
    decreases |nows|
  {
    if nows != [] {
      RunKeepsIntervalOnceComplete(Tick(c, target, nows[0]), target, nows[1..]);
    }
  }

  /** Loaded after the target, the first tick sets the latch and finds no
      interval to clear; the interval installed next is never cleared,
      whatever ticks follow. */
  lemma StartAsWrittenLeavesIntervalRunning(c: Ticker, target: int, now: int, nows: seq<int>)
    requires !c.complete && now > target
    ensures !LatchStopsInterval(StartAsWritten(c, target, now))
    ensures Run(StartAsWritten(c, target, now), target, nows).complete
    ensures Run(StartAsWritten(c, target, now), target, nows).intervalActive
  {
    RunKeepsIntervalOnceComplete(StartAsWritten(c, target, now), target, nows);
  }

  /** A slot whose text is not a number, such as "--", reads as 0, so it is
      never rewritten while the value to show is 0. */
  lemma NonNumericSlotKeptAtZero()
    ensures Animate(map[Days := "--"], Days, 0) == map[Days := "--"]
  {
    var dashes := "--";
    assert !IsWhitespace(dashes[0]) && !IsDigit(dashes[1]);
    assert TrimStart(dashes) == dashes;
    assert LeadingDigits(dashes[1..]) == [];
    assert ParseIntOrZero(dashes) == 0;
  }

  /** startCountdown with the interval installed before the first tick, so
      that a launch on that tick clears it. */
  function Start(c: Ticker, target: int, now: int): (r: Ticker)
    ensures !c.complete ==> (r.intervalActive <==> !r.complete)
  {
    Tick(c.(intervalActive := true), target, now)
  }

  /** Started from an unset latch, the ticker keeps LatchStopsInterval on
      the first tick and on every later one, and the interval runs exactly
      while the latch is unset. */
  lemma {:induction false} StartStopsIntervalOnceLaunched(c: Ticker, target: int, now: int, nows: seq<int>)
    requires !c.complete
    ensures LatchStopsInterval(Run(Start(c, target, now), target, nows))
    ensures Run(Start(c, target, now), target, nows).intervalActive <==> !Run(Start(c, target, now), target, nows).complete
  {
    var s := Start(c, target, now);
    assert s.intervalActive <==> !s.complete;
    TickKeepsStoppedInterval(s, target, nows);
  }

  lemma {:induction false} TickKeepsStoppedInterval(c: Ticker, target: int, nows: seq<int>)
    requires c.intervalActive <==> !c.complete
    ensures Run(c, target, nows).intervalActive <==> !Run(c, target, nows).complete
    decreases |nows|
  {
    if nows != [] {
      TickKeepsStoppedInterval(Tick(c, target, nows[0]), target, nows[1..]);
    }
  }
}
