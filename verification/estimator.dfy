/**
 The session estimator: one author's timestamps to an hour count.

 Every quantity is kept in exact integer seconds. The gap test "gap in
 minutes below max_commit_diff" is `gap < 60 * maxCommitDiff`, the bonus for
 starting a session is `60 * firstCommitAdd` seconds, and the 10-hour base is
 36000 seconds.
 */
module Estimator {
  import opened Sorting

  const SecondsPerMinute := 60
  const SecondsPerHour := 3600
  /** The flat 10 hours every author with two or more commits starts from. */
  const BaseSeconds := 10 * SecondsPerHour
  const U32Max := 0xFFFF_FFFF

  /** What one consecutive pair adds: the real gap while it stays below the
      session threshold, otherwise the bonus for starting a new session. */
  function PairSeconds(time: int, next: int, maxCommitDiff: nat, firstCommitAdd: nat): int
  {
    var gap := next - time;
    if gap < maxCommitDiff * SecondsPerMinute then gap else firstCommitAdd * SecondsPerMinute
  }

  /** The sum of PairSeconds over every window of two consecutive timestamps. */
  function SessionSeconds(times: seq<int>, maxCommitDiff: nat, firstCommitAdd: nat): int
  {
    if |times| < 2 then
      0
    else
      SessionSeconds(times[..|times| - 1], maxCommitDiff, firstCommitAdd)
        + PairSeconds(times[|times| - 2], times[|times| - 1], maxCommitDiff, firstCommitAdd)
  }

  /** Rounds seconds to the nearest whole hour, halves away from zero. */
  function RoundToHours(seconds: int): (hours: int)
    ensures hours * SecondsPerHour - 1800 <= seconds <= hours * SecondsPerHour + 1800
    ensures seconds >= 0 ==> seconds < hours * SecondsPerHour + 1800 && hours >= 0
    ensures seconds < 0 ==> hours * SecondsPerHour - 1800 < seconds && hours <= 0
  {
    if seconds >= 0 then (seconds + 1800) / SecondsPerHour
    else -((-seconds + 1800) / SecondsPerHour)
  }

  /** The distance between two integers on the number line. */
  function Distance(a: int, b: int): nat
  {
    if a <= b then b - a else a - b
  }

  /** Conversion of a rounded hour count to an unsigned 32-bit integer,
      which saturates: the result is the value of the u32 range closest to
      `x`. */
  function SaturateU32(x: int): (r: nat)
    ensures r <= U32Max
    ensures forall y :: 0 <= y <= U32Max ==> Distance(x, r) <= Distance(x, y)
  {
    if x < 0 then 0 else if x > U32Max then U32Max else x
  }

  /** The estimate the method computes, as a function of its inputs. */
  function Estimate(times: seq<int>, maxCommitDiff: nat, firstCommitAdd: nat): nat
  {
    if |times| < 2 then 0
    else SaturateU32(RoundToHours(BaseSeconds + SessionSeconds(times, maxCommitDiff, firstCommitAdd)))
  }

  /** Folds over the windows of two consecutive timestamps, accumulating
      seconds from the 10-hour base, and rounds once at the end. */
  method EstimateHours(times: seq<int>, maxCommitDiff: nat, firstCommitAdd: nat) returns (hours: nat)
    ensures |times| < 2 ==> hours == 0
    ensures hours == Estimate(times, maxCommitDiff, firstCommitAdd)
  {
    if |times| < 2 {
      return 0;
    }
    var total := BaseSeconds;
    for i := 1 to |times|
      invariant total == BaseSeconds + SessionSeconds(times[..i], maxCommitDiff, firstCommitAdd)
    {
      var time, nextTime := times[i - 1], times[i];
      var diff := nextTime - time;
      if diff < maxCommitDiff * SecondsPerMinute {
        total := total + diff;
      } else {
        total := total + firstCommitAdd * SecondsPerMinute;
      }
      assert times[..i + 1][..i] == times[..i];
    }
    assert times[..|times|] == times;
    hours := SaturateU32(RoundToHours(total));
  }

  /** For ascending timestamps every pair adds a non-negative amount. */
  lemma {:induction false} SessionSecondsNonNegative(times: seq<int>, maxCommitDiff: nat, firstCommitAdd: nat)
    requires SortedAsc(times)
    ensures SessionSeconds(times, maxCommitDiff, firstCommitAdd) >= 0
    decreases |times|
  {
    if |times| >= 2 {
      SessionSecondsNonNegative(times[..|times| - 1], maxCommitDiff, firstCommitAdd);
    }
  }

  /** On ascending timestamps (what the collector hands over) the estimate is
      at least the 10-hour base once there are two or more of them. */
  lemma EstimateAtLeastBase(times: seq<int>, maxCommitDiff: nat, firstCommitAdd: nat)
    requires SortedAsc(times) && |times| >= 2
    ensures Estimate(times, maxCommitDiff, firstCommitAdd) >= 10
  {
    SessionSecondsNonNegative(times, maxCommitDiff, firstCommitAdd);
  }

  /** When no gap reaches the threshold the pairs telescope: the estimate
      covers exactly the span from the first commit to the last. */
  lemma {:induction false} OneSessionSpansFirstToLast(times: seq<int>, maxCommitDiff: nat, firstCommitAdd: nat)
    requires |times| >= 1
    requires forall i :: 0 < i < |times| ==> times[i] - times[i - 1] < maxCommitDiff * SecondsPerMinute
    ensures SessionSeconds(times, maxCommitDiff, firstCommitAdd) == times[|times| - 1] - times[0]
    decreases |times|
  {
    if |times| >= 2 {
      OneSessionSpansFirstToLast(times[..|times| - 1], maxCommitDiff, firstCommitAdd);
    }
  }

  /** When every gap reaches the threshold each commit after the first opens
      a session and adds exactly the bonus. */
  lemma {:induction false} EverySessionAddsBonus(times: seq<int>, maxCommitDiff: nat, firstCommitAdd: nat)
    requires |times| >= 1
    requires forall i :: 0 < i < |times| ==> times[i] - times[i - 1] >= maxCommitDiff * SecondsPerMinute
    ensures SessionSeconds(times, maxCommitDiff, firstCommitAdd) == (|times| - 1) * firstCommitAdd * SecondsPerMinute
    decreases |times|
  {
    if |times| >= 2 {
      EverySessionAddsBonus(times[..|times| - 1], maxCommitDiff, firstCommitAdd);
    }
  }

  lemma {:induction false} SessionSecondsMonotoneInBonus(times: seq<int>, maxCommitDiff: nat, bonus1: nat, bonus2: nat)
    requires bonus1 <= bonus2
    ensures SessionSeconds(times, maxCommitDiff, bonus1) <= SessionSeconds(times, maxCommitDiff, bonus2)
    decreases |times|
  {
    if |times| >= 2 {
      SessionSecondsMonotoneInBonus(times[..|times| - 1], maxCommitDiff, bonus1, bonus2);
    }
  }

  lemma RoundToHoursMonotone(s1: int, s2: int)
    requires s1 <= s2
    ensures RoundToHours(s1) <= RoundToHours(s2)
  {
    if s1 < 0 && s2 < 0 {
      assert (-s2 + 1800) / SecondsPerHour <= (-s1 + 1800) / SecondsPerHour;
    } else if s1 >= 0 {
      assert (s1 + 1800) / SecondsPerHour <= (s2 + 1800) / SecondsPerHour;
    }
  }

  /** Raising the session-start bonus, with the timestamps and threshold
      fixed, never lowers the estimate. */
  lemma EstimateMonotoneInBonus(times: seq<int>, maxCommitDiff: nat, bonus1: nat, bonus2: nat)
    requires bonus1 <= bonus2
    ensures Estimate(times, maxCommitDiff, bonus1) <= Estimate(times, maxCommitDiff, bonus2)
  {
    if |times| >= 2 {
      SessionSecondsMonotoneInBonus(times, maxCommitDiff, bonus1, bonus2);
      RoundToHoursMonotone(BaseSeconds + SessionSeconds(times, maxCommitDiff, bonus1),
                           BaseSeconds + SessionSeconds(times, maxCommitDiff, bonus2));
    }
  }

  /** Defaults 120/120, commits at minutes 0, 30 and 500: 10 + 0.5 + 2 =
      12.5 hours, rounded up to 13. */
  lemma DefaultsWorkedExample()
    ensures Estimate([0, 30 * 60, 500 * 60], 120, 120) == 13
  {
    var t := [0, 30 * 60, 500 * 60];
    assert t[..2] == [0, 30 * 60];
    assert SessionSeconds(t[..2], 120, 120) == 1800;
    assert SessionSeconds(t, 120, 120) == 1800 + 7200;
  }
}
