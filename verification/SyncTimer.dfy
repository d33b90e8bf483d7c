/** Periodic timers that correct themselves when the clock jumps. Times are in seconds. */
module SyncTimer {

  import opened Arithmetic

  datatype Timer = Timer(next: real, period: int)

  /** A new timer first fires at the next multiple of its period. */
  function Registered(now: real, period: int): Timer
    requires now >= 0.0 && period > 0
  {
    Timer((now / period as real).Floor as real * period as real + period as real, period)
  }

  predicate Due(t: Timer, now: real) {
    t.next <= now
  }

  /** One look at a timer: fire if due, then correct jumps forwards and backwards. */
  function Tick(t: Timer, now: real): Timer {
    var p := t.period as real;
    var fired := if !Due(t, now) then t.next else if t.next + p < now then now + p else t.next + p;
    t.(next := if fired > now + 2.0 * p then now + p else fired)
  }

  /** The loop over all timers; fired lists those whose handler ran. */
  method IterateTimers(timers: array<Timer>, now: real) returns (fired: seq<nat>)
    modifies timers
    ensures forall i | 0 <= i < timers.Length :: timers[i] == Tick(old(timers[i]), now)
    ensures forall i :: i in fired <==> 0 <= i < timers.Length && Due(old(timers[i]), now)
    ensures forall i, j | 0 <= i < j < |fired| :: fired[i] < fired[j]
  {
    fired := [];
    for n := 0 to timers.Length
      invariant forall i | 0 <= i < n :: timers[i] == Tick(old(timers[i]), now)
      invariant forall i | n <= i < timers.Length :: timers[i] == old(timers[i])
      invariant forall i :: i in fired <==> 0 <= i < n && Due(old(timers[i]), now)
      invariant forall i | 0 <= i < |fired| :: fired[i] < n
      invariant forall i, j | 0 <= i < j < |fired| :: fired[i] < fired[j]
    {
      var loop := timers[n];
      var p := loop.period as real;
      if loop.next <= now {
        fired := fired + [n];
        loop := loop.(next := loop.next + p);
        if loop.next < now {
          loop := loop.(next := now + p);
        }
      }
      if loop.next > now + 2.0 * p {
        loop := loop.(next := now + p);
      }
      timers[n] := loop;
    }
  }

  /** A registered timer fires first within one period. */
  lemma RegisteredWithinPeriod(now: real, period: int)
    requires now >= 0.0 && period > 0
    ensures now < Registered(now, period).next <= now + period as real
  {
    var p, q := period as real, now / period as real;
    FloorTimes(now, q, q.Floor as real, p);
  }

  /** It does so at a multiple of the period, the first one after now. */
  lemma RegisteredAtMultiple(now: real, period: int) returns (k: int)
    requires now >= 0.0 && period > 0
    ensures Registered(now, period).next == (k * period) as real
    ensures forall j: int :: (j * period) as real > now <==> j >= k
  {
    var p, q := period as real, now / period as real;
    k := q.Floor + 1;
    assert (k * period) as real == k as real * p == q.Floor as real * p + p;
    RegisteredWithinPeriod(now, period);
    forall j: int
      ensures (j * period) as real > now <==> j >= k
    {
      MultiplesInOrder(j, k, period);
    }
  }

  lemma MultiplesInOrder(j: int, k: int, period: int)
    requires period > 0
    ensures j >= k ==> j * period >= k * period
    ensures j < k ==> j * period + period <= k * period
  {
    if j >= k {
      MulMonotone(k, j, period);
    } else {
      MulMonotone(j + 1, k, period);
    }
  }

  lemma FloorTimes(now: real, q: real, f: real, p: real)
    requires f <= q < f + 1.0 && p > 0.0 && q * p == now
    ensures f * p <= now < f * p + p
  {
    var below, above := q - f, f + 1.0 - q;
    assert below * p >= 0.0 && above * p > 0.0;
    assert (q - f) * p == q * p - f * p;
    assert (f + 1.0 - q) * p == f * p + p - q * p;
  }

  /** After every look, whatever the clock did, the next firing is between now and two periods on. */
  lemma NextIsNear(t: Timer, now: real)
    requires t.period > 0
    ensures now <= Tick(t, now).next <= now + 2.0 * t.period as real
  {
  }

  // ---- Runs ----

  function After(t: Timer, clocks: seq<real>): (t': Timer)
    ensures t'.period == t.period
  {
    if clocks == [] then t else Tick(After(t, clocks[..|clocks| - 1]), clocks[|clocks| - 1])
  }

  function Firings(t: Timer, clocks: seq<real>): nat {
    if clocks == [] then 0
    else
      var before := clocks[..|clocks| - 1];
      Firings(t, before) + (if Due(After(t, before), clocks[|clocks| - 1]) then 1 else 0)
  }

  predicate NonDecreasing(clocks: seq<real>) {
    forall i | 0 < i < |clocks| :: clocks[i - 1] <= clocks[i]
  }

  function Times(k: int, p: real): real {
    k as real * p
  }

  lemma OneMore(k: int, p: real)
    ensures Times(k + 1, p) == Times(k, p) + p
  {
    assert (k as real + 1.0) * p == k as real * p + p;
  }

  lemma TimesNonNegative(k: int, p: real)
    requires k >= 0 && p >= 0.0
    ensures Times(k, p) >= 0.0 && Times(0, p) == 0.0
  {
  }

  /** With a clock that never goes back, firings are at least one period apart. */
  lemma {:induction false} FiringsAreSpaced(t: Timer, clocks: seq<real>)
    requires t.period > 0 && clocks != [] && NonDecreasing(clocks) && t.next <= clocks[0] + 2.0 * t.period as real
    ensures var k, p, last := Firings(t, clocks), t.period as real, clocks[|clocks| - 1];
      && After(t, clocks).next >= t.next + Times(k, p)
      && (k > 0 ==> last >= t.next + Times(k - 1, p))
    decreases |clocks|
  {
    var n, p := |clocks| - 1, t.period as real;
    var before, now := clocks[..n], clocks[n];
    var u := After(t, before);
    var k: int := Firings(t, before);
    TimesNonNegative(0, p);
    if n > 0 {
      FiringsAreSpaced(t, before);
      NextIsNear(After(t, before[..n - 1]), before[n - 1]);
      assert clocks[n - 1] <= clocks[n];
    }
    assert u.next <= now + 2.0 * p && u.next >= t.next + Times(k, p);
    OneMore(k, p);
    OneMore(k - 1, p);
  }

  /**
   The number of firings by the last clock reading is at most one more than the periods since
   the first due time, and zero before it.
   */
  lemma FiringsBounded(t: Timer, clocks: seq<real>)
    requires t.period > 0 && clocks != [] && NonDecreasing(clocks) && t.next <= clocks[0] + 2.0 * t.period as real
    ensures var k, p, last := Firings(t, clocks), t.period as real, clocks[|clocks| - 1];
      && (last < t.next ==> k == 0)
      && (last >= t.next ==> Times(k - 1, p) <= last - t.next)
  {
    FiringsAreSpaced(t, clocks);
    var k: int, p := Firings(t, clocks), t.period as real;
    if k > 0 {
      TimesNonNegative(k - 1, p);
    } else {
      OneMore(-1, p);
      TimesNonNegative(0, p);
    }
  }

  /** A timer fires at most once per period from its registration on. */
  lemma RegisteredTimerIsBounded(now: real, period: int, clocks: seq<real>)
    requires now >= 0.0 && period > 0 && clocks != [] && now <= clocks[0] && NonDecreasing(clocks)
    ensures var t := Registered(now, period); var k, last := Firings(t, clocks), clocks[|clocks| - 1];
      && (last < t.next ==> k == 0)
      && (last >= t.next ==> Times(k - 1, period as real) <= last - t.next)
  {
    RegisteredWithinPeriod(now, period);
    FiringsBounded(Registered(now, period), clocks);
  }

  /** The clock is read at least once per period. */
  ghost predicate Regular(t: Timer, clocks: seq<real>) {
    && (clocks != [] ==> clocks[0] <= t.next + t.period as real)
    && forall i, j | 0 <= i < j < |clocks| && j == i + 1 :: clocks[j] <= clocks[i] + t.period as real
  }

  lemma RegularBefore(t: Timer, clocks: seq<real>)
    requires clocks != [] && Regular(t, clocks)
    ensures Regular(t, clocks[..|clocks| - 1])
  {
    var before := clocks[..|clocks| - 1];
    assert forall i | 0 <= i < |before| :: before[i] == clocks[i];
  }

  /** Looked at often enough, a timer loses no firing and keeps its grid. */
  lemma {:induction false} NoFiringIsLost(t: Timer, clocks: seq<real>)
    requires t.period > 0 && clocks != [] && NonDecreasing(clocks) && t.next <= clocks[0] + 2.0 * t.period as real
    requires Regular(t, clocks)
    ensures var k, p, last := Firings(t, clocks), t.period as real, clocks[|clocks| - 1];
      && After(t, clocks).next == t.next + Times(k, p)
      && (last >= t.next ==> Times(k - 1, p) <= last - t.next <= Times(k, p))
    decreases |clocks|
  {
    var n, p := |clocks| - 1, t.period as real;
    var before, now := clocks[..n], clocks[n];
    var u := After(t, before);
    var k: int := Firings(t, before);
    TimesNonNegative(0, p);
    if n > 0 {
      RegularBefore(t, clocks);
      NoFiringIsLost(t, before);
      NextIsNear(After(t, before[..n - 1]), before[n - 1]);
      assert clocks[n - 1] <= clocks[n];
      assert before[n - 1] == clocks[n - 1];
    }
    assert u.next == t.next + Times(k, p) && u.next <= now + 2.0 * p && now <= u.next + p;
    OneMore(k, p);
    OneMore(k - 1, p);
    FiringsBounded(t, clocks);
    NextIsNear(u, now);
  }
}
