/**
 * Game clock arithmetic. Play-by-play events carry the time LEFT in the
 * period as "MM:SS" together with the period number; the model works with
 * the already split minutes and seconds and turns them into cumulative game
 * seconds since puck-drop.
 */
module Clock {
  /** Regulation periods last twenty minutes. */
  const PeriodLengthSeconds: int := 1200

  /** A "MM:SS" reading of time remaining in the period, already split. */
  datatype Clock = Clock(minutes: int, seconds: int)

  /** Seconds left in the period according to the clock. */
  function Remaining(c: Clock): int
  {
    c.minutes * 60 + c.seconds
  }

  /** A clock a real game can show: seconds below 60, at most 20:00 left. */
  predicate WellFormed(c: Clock)
  {
    0 <= c.minutes && 0 <= c.seconds < 60 && Remaining(c) <= PeriodLengthSeconds
  }

  /**
   * Cumulative seconds since puck-drop. The clock counts down towards the end
   * of period `period`, which lies `period` period lengths after puck-drop,
   * and a well-formed clock places the result inside that period.
   */
  function ClockToSeconds(c: Clock, period: int): (t: int)
    ensures t + Remaining(c) == period * PeriodLengthSeconds
    ensures WellFormed(c) ==>
      (period - 1) * PeriodLengthSeconds <= t <= period * PeriodLengthSeconds
  {
    var left := Remaining(c);
    var elapsed := PeriodLengthSeconds - left;
    (period - 1) * PeriodLengthSeconds + elapsed
  }

  /**
   * The reading a game clock shows at cumulative second `t`: the period it
   * falls in and the time left. A period boundary is shown as 20:00 of the
   * next period.
   */
  function SecondsToClock(t: int): (r: (int, Clock))
    ensures WellFormed(r.1) && Remaining(r.1) > 0
  {
    var left := PeriodLengthSeconds - t % PeriodLengthSeconds;
    (t / PeriodLengthSeconds + 1, Clock(left / 60, left % 60))
  }

  /** Reading the clock back gives the same cumulative second. */
  lemma SecondsRoundTrip(t: int)
    ensures var (period, c) := SecondsToClock(t); ClockToSeconds(c, period) == t
  {
    var left := PeriodLengthSeconds - t % PeriodLengthSeconds;
    assert left / 60 * 60 + left % 60 == left;
    assert t / PeriodLengthSeconds * PeriodLengthSeconds + t % PeriodLengthSeconds == t;
  }

  /**
   * A well-formed clock that is not at 00:00 is recovered from its cumulative
   * second; 00:00 of a period is the same instant as 20:00 of the next one.
   */
  lemma ClockRoundTrip(c: Clock, period: int)
    requires WellFormed(c) && Remaining(c) > 0
    ensures SecondsToClock(ClockToSeconds(c, period)) == (period, c)
  {
    var t := ClockToSeconds(c, period);
    var elapsed := PeriodLengthSeconds - Remaining(c);
    assert 0 <= elapsed < PeriodLengthSeconds;
    assert t == (period - 1) * PeriodLengthSeconds + elapsed;
    assert t / PeriodLengthSeconds == period - 1 && t % PeriodLengthSeconds == elapsed by {
      DivModUnique(t, period - 1, elapsed);
    }
    var left := PeriodLengthSeconds - elapsed;
    assert left == Remaining(c);
    assert left / 60 == c.minutes && left % 60 == c.seconds by {
      MinutesSecondsUnique(left, c.minutes, c.seconds);
    }
  }

  lemma DivModUnique(t: int, q: int, r: int)
    requires 0 <= r < 1200 && t == q * 1200 + r
    ensures t / 1200 == q && t % 1200 == r
  {
  }

  lemma MinutesSecondsUnique(left: int, m: int, s: int)
    requires 0 <= s < 60 && left == m * 60 + s
    ensures left / 60 == m && left % 60 == s
  {
  }

  /** 00:00 of a period and 20:00 of the next are the same instant. */
  lemma PeriodEndIsNextStart(period: int)
    ensures ClockToSeconds(Clock(0, 0), period) == ClockToSeconds(Clock(20, 0), period + 1)
  {
    assert Remaining(Clock(0, 0)) == 0;
    assert Remaining(Clock(20, 0)) == PeriodLengthSeconds;
  }

  /**
   * Time order of well-formed readings: within a period, less time left is
   * later; a later period is never earlier.
   */
  lemma ClockOrder(c1: Clock, p1: int, c2: Clock, p2: int)
    requires WellFormed(c1) && WellFormed(c2)
    ensures p1 == p2 ==>
      (ClockToSeconds(c1, p1) <= ClockToSeconds(c2, p2) <==> Remaining(c1) >= Remaining(c2))
    ensures p1 < p2 ==> ClockToSeconds(c1, p1) <= ClockToSeconds(c2, p2)
  {
  }

  /** Puck-drop and the ends of the first and second periods. */
  lemma ClockExamples()
    ensures ClockToSeconds(Clock(20, 0), 1) == 0
    ensures ClockToSeconds(Clock(0, 0), 1) == 1200
    ensures ClockToSeconds(Clock(0, 0), 2) == 2400
  {
  }
}
