/**
 * The gamification arithmetic of `confirmUpload`: the streak rule on whole
 * day numbers and the fixed reward of 10 points per confirmed recording.
 * `Run` is an independent definition of a streak (the number of consecutive
 * contribution days ending on a given day), and the lemmas show that the
 * stored streak keeps agreeing with it.
 */
module Gamification {
  import opened Common

  const PointsPerRecording: nat := 10

  /** The streak after a confirmation on day `today`, given the stored streak
      and the day of the last contribution. */
  function NewStreak(current: nat, lastDay: Option<int>, today: int): nat
  {
    match lastDay
    case None => 1
    case Some(last) =>
      var diffDays := today - last;
      if diffDays == 0 then current
      else if diffDays == 1 then current + 1
      else 1
  }

  /** `recordingIds.length * 10` */
  function PointsFor(confirmed: nat): nat
  {
    confirmed * PointsPerRecording
  }

  /** The users row after `confirmed` recordings are confirmed on `today`:
      new streak, last contribution refreshed, reputation incremented. */
  function Credit(u: User, confirmed: nat, today: int): User
  {
    u.(currentStreak := NewStreak(u.currentStreak, u.lastContributionDay, today),
       lastContributionDay := Some(today),
       reputationScore := u.reputationScore + PointsFor(confirmed))
  }

  // ---------------------------------------------------------------------
  // Reference definition

  ghost function DaysUpTo(days: set<int>, d: int): set<int>
  {
    set x | x in days && x <= d
  }

  /** The number of consecutive days in `days` ending on day `d`. */
  ghost function Run(days: set<int>, d: int): nat
    decreases |DaysUpTo(days, d)|
  {
    if d in days then
      assert DaysUpTo(days, d) == DaysUpTo(days, d - 1) + {d};
      1 + Run(days, d - 1)
    else 0
  }

  /** A contribution after day `d` does not change the run ending on `d`. */
  lemma {:induction false} RunIgnoresLaterDay(days: set<int>, t: int, d: int)
    requires d < t
    ensures Run(days + {t}, d) == Run(days, d)
    decreases |DaysUpTo(days, d)|
  {
    if d in days {
      assert DaysUpTo(days, d) == DaysUpTo(days, d - 1) + {d};
      RunIgnoresLaterDay(days, t, d - 1);
    }
  }

  /** The stored streak and last contribution day describe the set of days
      on which the user contributed. */
  ghost predicate StreakAgrees(u: User, days: set<int>)
  {
    match u.lastContributionDay
    case None => days == {}
    case Some(last) =>
      last in days && (forall x :: x in days ==> x <= last) && u.currentStreak == Run(days, last)
  }

  /** For a clock that does not go backwards, a confirmation keeps the stored
      streak equal to the run of consecutive contribution days ending today. */
  lemma StreakTracksConsecutiveDays(u: User, days: set<int>, confirmed: nat, today: int)
    requires StreakAgrees(u, days)
    requires u.lastContributionDay.Some? ==> u.lastContributionDay.value <= today
    ensures StreakAgrees(Credit(u, confirmed, today), days + {today})
    ensures Credit(u, confirmed, today).currentStreak == Run(days + {today}, today)
  {
    var all := days + {today};
    match u.lastContributionDay
    case None =>
      assert all == {today};
      assert Run(all, today - 1) == 0;
    case Some(last) =>
      if today == last {
        assert all == days;
      } else if today == last + 1 {
        RunIgnoresLaterDay(days, today, last);
        assert Run(all, today) == 1 + Run(all, last);
      } else {
        assert today - 1 !in all;
        assert Run(all, today) == 1 + Run(all, today - 1);
      }
  }

  /** Several confirmations on one day count the day once. */
  lemma SameDayConfirmationsKeepStreak(u: User, a: nat, b: nat, today: int)
    ensures Credit(Credit(u, a, today), b, today).currentStreak == Credit(u, a, today).currentStreak
  {
  }

  /** A last contribution dated after today (clock skew) resets the streak. */
  lemma FutureLastContributionResets(current: nat, last: int, today: int)
    requires today < last
    ensures NewStreak(current, Some(last), today) == 1
  {
  }

  /** Reputation is incremented, never replaced: two confirmations of `a` and
      `b` recordings add `10 * (a + b)` points. */
  lemma ReputationAccumulates(u: User, a: nat, b: nat, day1: int, day2: int)
    ensures Credit(Credit(u, a, day1), b, day2).reputationScore == u.reputationScore + 10 * (a + b)
  {
  }
}
