/** Instants and durations as the polls models use them.

    An aware `datetime` is an exact instant with microsecond resolution, and a
    `timedelta` is an exact whole number of microseconds; neither involves
    floating point. Both are therefore modelled as integers counting
    microseconds, instants from the Unix epoch.
 */
module Time {

  /** An instant, in microseconds since 1970-01-01T00:00:00Z. */
  type Instant = int

  const MicrosPerSecond: int := 1_000_000

  /** The length of `timedelta(days=days, hours=hours, minutes=minutes,
      seconds=seconds)` in microseconds. */
  function Delta(days: int, hours: int, minutes: int, seconds: int): int
  {
    (((days * 24 + hours) * 60 + minutes) * 60 + seconds) * MicrosPerSecond
  }

  /** `timedelta(days=1)`: the width of the "published recently" window. */
  const OneDay: int := Delta(1, 0, 0, 0)

  lemma OneDayInMicroseconds()
    ensures OneDay == 86_400_000_000
    ensures OneDay == Delta(0, 24, 0, 0) == Delta(0, 0, 24 * 60, 0)
  {
  }

  /** The window shared by both models: `now - timedelta(days=1) <= t <= now`,
      written as a chained comparison just as the models write it. It holds
      exactly when `t` is not in the future and is at most one day old. */
  function InWindow(t: Instant, now: Instant): (r: bool)
    ensures r <==> t <= now && now - t <= OneDay
    ensures t == now ==> r
    ensures t == now - OneDay ==> r
    ensures t > now || t < now - OneDay ==> !r
  {
    now - OneDay <= t <= now
  }

  /** A fixed publication instant `t` is in the window exactly for the clock
      readings from `t` up to and including `t` plus one day: recency starts
      at publication and expires one day later, for good. */
  lemma InWindowAsClockRange(t: Instant, now: Instant)
    ensures InWindow(t, now) <==> t <= now <= t + OneDay
  {
  }

  /** The window is convex in the clock: an instant recent at two readings is
      recent at every reading between them. */
  lemma InWindowConvex(t: Instant, now1: Instant, now2: Instant, now: Instant)
    requires now1 <= now <= now2
    requires InWindow(t, now1) && InWindow(t, now2)
    ensures InWindow(t, now)
  {
  }

  /** `lo <= t <= hi`, named so that it can serve as the trigger of the
      comprehension below. */
  predicate Between(lo: int, t: int, hi: int)
  {
    lo <= t <= hi
  }

  /** The integers from `lo` to `hi`, both included. */
  ghost function Interval(lo: int, hi: int): set<int>
  {
    set t: int {:trigger Between(lo, t, hi)} | lo <= t <= hi
  }

  lemma {:induction false} IntervalSize(lo: int, hi: int)
    requires lo <= hi + 1
    ensures |Interval(lo, hi)| == hi - lo + 1
    decreases hi - lo + 1
  {
    if lo <= hi {
      assert Interval(lo, hi) == Interval(lo, hi - 1) + {hi};
      IntervalSize(lo, hi - 1);
    } else {
      assert Interval(lo, hi) == {};
    }
  }

  /** The publication instants that count as recent at clock reading `now`,
      searched for over a range wider than the window on both sides. */
  ghost function RecentInstants(now: Instant): set<Instant>
  {
    set t: int | now - 2 * OneDay <= t <= now + OneDay && InWindow(t, now)
  }

  /** Both bounds are inclusive: at any reading the recent instants are the
      whole day before `now` together with both of its end points, that is
      one day plus one microsecond of instants. */
  lemma RecentInstantsSize(now: Instant)
    ensures RecentInstants(now) == Interval(now - OneDay, now)
    ensures |RecentInstants(now)| == OneDay + 1
  {
    assert RecentInstants(now) == Interval(now - OneDay, now);
    IntervalSize(now - OneDay, now);
  }
}
