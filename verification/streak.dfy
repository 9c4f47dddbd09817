/**
 The current writing streak (backend/controllers/achievementController.js and
 backend/controllers/statsController.js). Starting from today the walk looks
 at one day after another going back; a day with an entry extends the streak,
 the first day without one ends it, except that a missing today is passed
 over. The walk looks at no more than `horizon` days: 400 for the achievement
 evaluator, 365 for the overview.
 */
module Streak {

  const EvaluatorHorizon := 400
  const OverviewHorizon := 365

  /** How many of the days `start`, `start - 1`, ... (at most `n` of them) are
      in `dates` before the first one that is not. */
  function RunLength(dates: set<int>, start: int, n: nat): (r: nat)
    ensures r <= n
    decreases n
  {
    if n == 0 || start !in dates then 0 else 1 + RunLength(dates, start - 1, n - 1)
  }

  /** The day `j` days before `day`. */
  function DaysBefore(day: int, j: int): int {
    day - j
  }

  /** The `k` days ending at `last` all have entries. */
  ghost predicate RunOf(dates: set<int>, last: int, k: nat) {
    forall j :: 0 <= j < k ==> DaysBefore(last, j) in dates
  }

  /** The day the counted run ends on: today, or yesterday when today has no entry. */
  function Anchor(dates: set<int>, today: int): int {
    if today in dates then today else today - 1
  }

  /** The number of days the walk may still count from the anchor. */
  function Cap(dates: set<int>, today: int, horizon: nat): nat {
    if today in dates || horizon == 0 then horizon else horizon - 1
  }

  /** The streak the walk reports. */
  function StreakOf(dates: set<int>, today: int, horizon: nat): nat {
    RunLength(dates, Anchor(dates, today), Cap(dates, today, horizon))
  }

  /** The run length is the longest run from `start`, cut at `n`: all its days
      are present and the day after it (going back) is not, unless the cut was reached. */
  lemma {:induction false} RunLengthIsMaximal(dates: set<int>, start: int, n: nat)
    ensures RunOf(dates, start, RunLength(dates, start, n))
    ensures RunLength(dates, start, n) < n ==> start - RunLength(dates, start, n) !in dates
    decreases n
  {
    if n > 0 && start in dates {
      RunLengthIsMaximal(dates, start - 1, n - 1);
      var k := RunLength(dates, start - 1, n - 1);
      forall j | 0 <= j < k + 1
        ensures DaysBefore(start, j) in dates
      {
        if j > 0 {
          assert DaysBefore(start - 1, j - 1) == DaysBefore(start, j);
        }
      }
    }
  }

  /** Any `k` with the maximal-run property is the run length. */
  lemma {:induction false} RunLengthUnique(dates: set<int>, start: int, n: nat, k: nat)
    requires k <= n && RunOf(dates, start, k)
    requires k < n ==> start - k !in dates
    ensures RunLength(dates, start, n) == k
    decreases n
  {
    if k == 0 {
      if n > 0 {
        assert DaysBefore(start, 0) !in dates;
      }
    } else {
      assert DaysBefore(start, 0) in dates;
      var prev := start - 1;
      assert RunOf(dates, prev, k - 1) by {
        forall j | 0 <= j < k - 1
          ensures DaysBefore(prev, j) in dates
        {
          assert DaysBefore(start, j + 1) in dates;
        }
      }
      RunLengthUnique(dates, start - 1, n - 1, k - 1);
    }
  }

  /** The streak is the length of the run of consecutive days with entries ending
      today, or ending yesterday when today has none, cut at the horizon. */
  lemma StreakCharacterization(dates: set<int>, today: int, horizon: nat, k: nat)
    ensures StreakOf(dates, today, horizon) <= horizon
    ensures today !in dates && today - 1 !in dates ==> StreakOf(dates, today, horizon) == 0
    ensures RunOf(dates, Anchor(dates, today), StreakOf(dates, today, horizon))
    ensures k <= Cap(dates, today, horizon) && RunOf(dates, Anchor(dates, today), k)
            && (k < Cap(dates, today, horizon) ==> Anchor(dates, today) - k !in dates)
            <==> k == StreakOf(dates, today, horizon)
  {
    var a, c := Anchor(dates, today), Cap(dates, today, horizon);
    RunLengthIsMaximal(dates, a, c);
    if k <= c && RunOf(dates, a, k) && (k < c ==> a - k !in dates) {
      RunLengthUnique(dates, a, c, k);
    }
  }

  /** A shorter horizon cuts the same walk earlier: the overview's 365-day streak
      is the evaluator's 400-day streak, capped. */
  lemma {:induction false} RunLengthCut(dates: set<int>, start: int, n: nat, m: nat)
    requires n <= m
    ensures RunLength(dates, start, n) == if RunLength(dates, start, m) < n then RunLength(dates, start, m) else n
    decreases n
  {
    if n > 0 && start in dates {
      RunLengthCut(dates, start - 1, n - 1, m - 1);
    }
  }

  lemma HorizonsAgree(dates: set<int>, today: int)
    ensures var c := Cap(dates, today, OverviewHorizon);
      StreakOf(dates, today, OverviewHorizon)
      == if StreakOf(dates, today, EvaluatorHorizon) < c then StreakOf(dates, today, EvaluatorHorizon) else c
  {
    RunLengthCut(dates, Anchor(dates, today), Cap(dates, today, OverviewHorizon), Cap(dates, today, EvaluatorHorizon));
  }

  /** The loop of the controllers: `for (i = 0; i < horizon; i++) { if (dateSet.has(today - i)) streak++; else if (i > 0) break; }`. */
  method Walk(dates: set<int>, today: int, horizon: nat) returns (streak: nat)
    ensures streak == StreakOf(dates, today, horizon)
    ensures streak <= horizon
  {
    streak := 0;
    var skip := if today in dates then 0 else 1;
    var i := 0;
    while i < horizon
      invariant 0 <= i <= horizon
      invariant streak == if i == 0 then 0 else i - skip
      invariant RunOf(dates, Anchor(dates, today), streak)
    {
      if today - i in dates {
        assert DaysBefore(Anchor(dates, today), streak) == today - i;
        streak := streak + 1;
      } else if i > 0 {
        assert Anchor(dates, today) - streak == today - i;
        RunLengthUnique(dates, Anchor(dates, today), Cap(dates, today, horizon), streak);
        return;
      }
      i := i + 1;
    }
    RunLengthUnique(dates, Anchor(dates, today), Cap(dates, today, horizon), streak);
  }

  /** The worked cases: three days ending today give 3; two days ending
      yesterday give 2; a lone entry two days ago gives 0. */
  lemma Scenarios(t: int)
    ensures StreakOf({t, t - 1, t - 2}, t, EvaluatorHorizon) == 3
    ensures StreakOf({t - 1, t - 2}, t, EvaluatorHorizon) == 2
    ensures StreakOf({t - 2}, t, EvaluatorHorizon) == 0
  {
    var d3 := {t, t - 1, t - 2};
    assert RunOf(d3, t, 3) by {
      assert DaysBefore(t, 0) == t && DaysBefore(t, 1) == t - 1 && DaysBefore(t, 2) == t - 2;
    }
    RunLengthUnique(d3, t, 400, 3);
    var d2 := {t - 1, t - 2};
    assert RunOf(d2, t - 1, 2) by {
      assert DaysBefore(t - 1, 0) == t - 1 && DaysBefore(t - 1, 1) == t - 2;
    }
    RunLengthUnique(d2, t - 1, 399, 2);
  }
}
