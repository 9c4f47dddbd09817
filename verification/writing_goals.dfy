/**
 The writing goal of one user and the progress towards it
 (backend/models/WritingGoal.js and the goal handlers of
 backend/controllers/achievementController.js). A user has at most one goal
 row; reading or updating a missing goal first creates it with the column
 defaults. Progress compares today's words and this week's entries with the
 goal, as whole percentages capped at 100.
 */
module WritingGoals {
  import opened Results
  import opened Calendar
  import opened EntryModel
  import Queries

  const DefaultDailyWordGoal := 300
  const DefaultWeeklyEntryGoal := 3
  const DefaultReminderTime := "21:00"

  /** The bounds the goal route accepts. */
  const MinDailyWordGoal := 50
  const MaxDailyWordGoal := 10000
  const MinWeeklyEntryGoal := 1
  const MaxWeeklyEntryGoal := 14

  datatype WritingGoal = WritingGoal(
    dailyWordGoal: int,
    weeklyEntryGoal: int,
    reminderEnabled: bool,
    reminderTime: string,
    reminderEmail: bool)

  /** The row `create({ userId })` inserts. */
  const DefaultGoal := WritingGoal(DefaultDailyWordGoal, DefaultWeeklyEntryGoal, false, DefaultReminderTime, false)

  /** The fields of an update request; `None` is a field the request leaves out. */
  datatype GoalPatch = GoalPatch(
    dailyWordGoal: Option<int>,
    weeklyEntryGoal: Option<int>,
    reminderEnabled: Option<bool>,
    reminderTime: Option<string>,
    reminderEmail: Option<bool>)

  predicate IsDigit(c: char) {
    '0' <= c <= '9'
  }

  /** `/^\d{2}:\d{2}$/`: two digits, a colon, two digits (hours and minutes are not range-checked). */
  predicate IsClockTime(s: string) {
    |s| == 5 && IsDigit(s[0]) && IsDigit(s[1]) && s[2] == ':' && IsDigit(s[3]) && IsDigit(s[4])
  }

  predicate ValidPatch(p: GoalPatch) {
    && (p.dailyWordGoal.Some? ==> MinDailyWordGoal <= p.dailyWordGoal.value <= MaxDailyWordGoal)
    && (p.weeklyEntryGoal.Some? ==> MinWeeklyEntryGoal <= p.weeklyEntryGoal.value <= MaxWeeklyEntryGoal)
    && (p.reminderTime.Some? ==> IsClockTime(p.reminderTime.value))
  }

  /** A goal every field of which was set by the defaults or by an accepted request. */
  predicate ValidGoal(g: WritingGoal) {
    && MinDailyWordGoal <= g.dailyWordGoal <= MaxDailyWordGoal
    && MinWeeklyEntryGoal <= g.weeklyEntryGoal <= MaxWeeklyEntryGoal
    && IsClockTime(g.reminderTime)
  }

  /** The route's validation: a request with an out-of-range field is refused. */
  function ValidateGoalPatch(p: GoalPatch): (r: Result<GoalPatch>)
    ensures r.Ok? <==> ValidPatch(p)
    ensures r.Ok? ==> r.value == p
    ensures r.Err? ==> r.failure == ValidationFailure
  {
    if ValidPatch(p) then Ok(p) else Err(ValidationFailure)
  }

  /** `findOne`, and `create` when there is none. */
  function LoadGoal(stored: Option<WritingGoal>): (g: WritingGoal)
    ensures stored.Some? ==> g == stored.value
    ensures stored.None? ==> g == DefaultGoal
  {
    stored.GetOr(DefaultGoal)
  }

  /** `getGoal`: the goal returned and the goal stored afterwards. */
  function GetGoal(stored: Option<WritingGoal>): (r: (WritingGoal, Option<WritingGoal>))
    ensures r.1 == Some(r.0)
    ensures stored.Some? ==> r.0 == stored.value
    ensures stored.None? ==> r.0 == DefaultGoal
  {
    var g := LoadGoal(stored);
    (g, Some(g))
  }

  function Override<T>(field: Option<T>, current: T): T {
    if field.Some? then field.value else current
  }

  /** `updateGoal`: every field the request carries replaces the stored one. */
  function UpdateGoal(stored: Option<WritingGoal>, p: GoalPatch): (r: (WritingGoal, Option<WritingGoal>))
    ensures r.1 == Some(r.0)
    ensures var before := LoadGoal(stored);
      && r.0.dailyWordGoal == (if p.dailyWordGoal.Some? then p.dailyWordGoal.value else before.dailyWordGoal)
      && r.0.weeklyEntryGoal == (if p.weeklyEntryGoal.Some? then p.weeklyEntryGoal.value else before.weeklyEntryGoal)
      && r.0.reminderEnabled == (if p.reminderEnabled.Some? then p.reminderEnabled.value else before.reminderEnabled)
      && r.0.reminderTime == (if p.reminderTime.Some? then p.reminderTime.value else before.reminderTime)
      && r.0.reminderEmail == (if p.reminderEmail.Some? then p.reminderEmail.value else before.reminderEmail)
  {
    var g := LoadGoal(stored);
    var g' := WritingGoal(
      Override(p.dailyWordGoal, g.dailyWordGoal),
      Override(p.weeklyEntryGoal, g.weeklyEntryGoal),
      Override(p.reminderEnabled, g.reminderEnabled),
      Override(p.reminderTime, g.reminderTime),
      Override(p.reminderEmail, g.reminderEmail));
    (g', Some(g'))
  }

  const EmptyPatch := GoalPatch(None, None, None, None, None)

  /** A later request's fields win over an earlier one's. */
  function Then(p: GoalPatch, q: GoalPatch): GoalPatch {
    GoalPatch(
      if q.dailyWordGoal.Some? then q.dailyWordGoal else p.dailyWordGoal,
      if q.weeklyEntryGoal.Some? then q.weeklyEntryGoal else p.weeklyEntryGoal,
      if q.reminderEnabled.Some? then q.reminderEnabled else p.reminderEnabled,
      if q.reminderTime.Some? then q.reminderTime else p.reminderTime,
      if q.reminderEmail.Some? then q.reminderEmail else p.reminderEmail)
  }

  /** Reading creates the goal once; later reads return it unchanged, and an
      update that carries no field is a read. */
  lemma GetGoalIsStable(stored: Option<WritingGoal>)
    ensures GetGoal(GetGoal(stored).1) == GetGoal(stored)
    ensures UpdateGoal(stored, EmptyPatch) == GetGoal(stored)
  {
  }

  /** Two updates in a row are one update with the later fields winning. */
  lemma UpdatesCompose(stored: Option<WritingGoal>, p: GoalPatch, q: GoalPatch)
    ensures UpdateGoal(UpdateGoal(stored, p).1, q) == UpdateGoal(stored, Then(p, q))
  {
  }

  /** The defaults are acceptable values, and accepted updates keep a goal acceptable. */
  lemma ValidUpdatesKeepGoalValid(stored: Option<WritingGoal>, p: GoalPatch)
    requires stored.Some? ==> ValidGoal(stored.value)
    requires ValidateGoalPatch(p).Ok?
    ensures ValidGoal(DefaultGoal)
    ensures ValidGoal(UpdateGoal(stored, p).0)
  {
  }

  // ---- Percentages ----

  /** `Math.round(n / d)` in exact arithmetic: the nearest integer, halves rounded up. */
  function RoundHalfUp(n: int, d: int): (r: int)
    requires d != 0
    ensures d > 0 ==> 2 * d * r <= 2 * n + d < 2 * d * (r + 1)
    ensures d < 0 ==> 2 * d * r >= 2 * n + d > 2 * d * (r + 1)
  {
    if d > 0 then
      var q := (2 * n + d) / (2 * d);
      DivBounds(2 * n + d, 2 * d);
      q
    else
      var q := (-(2 * n + d)) / (-2 * d);
      DivBounds(-(2 * n + d), -2 * d);
      q
  }

  lemma DivBounds(a: int, b: int)
    requires b > 0
    ensures b * (a / b) <= a < b * (a / b + 1)
  {
  }

  /** `Math.min(100, Math.round((achieved / goal) * 100))`. Dividing by a zero
      goal gives `Infinity`, capped to 100, or `NaN` when nothing was achieved. */
  function Percent(achieved: nat, goal: int): (r: JsNumber)
    ensures goal != 0 ==> r.Finite? && r.n <= 100
    ensures goal == 0 ==> r == if achieved == 0 then NaN else Finite(100)
  {
    if goal == 0 then (if achieved == 0 then NaN else Finite(100))
    else Finite(Min(100, RoundHalfUp(100 * achieved, goal)))
  }

  /** For a positive goal: the percentage is between 0 and 100, it is 100
      exactly when 99.5% of the goal is reached, and below that it is the
      nearest whole percentage. */
  lemma PercentMeaning(achieved: nat, goal: int)
    requires goal > 0
    ensures Percent(achieved, goal).Finite?
    ensures 0 <= Percent(achieved, goal).n <= 100
    ensures Percent(achieved, goal).n == 100 <==> 200 * achieved >= 199 * goal
    ensures var p := Percent(achieved, goal).n;
      p < 100 ==> 2 * goal * p <= 200 * achieved + goal < 2 * goal * (p + 1)
  {
    var q := RoundHalfUp(100 * achieved, goal);
    assert 0 <= q by {
      if q < 0 {
        MulMono(2 * goal, q + 1, 0);
      }
    }
    if 200 * achieved >= 199 * goal {
      assert 2 * goal * (q + 1) > 200 * goal;
      MulCancel(2 * goal, q + 1, 100);
    } else {
      assert 2 * goal * q < 200 * goal;
      MulCancel(2 * goal, 100, q);
    }
  }

  lemma MulMono(k: int, a: int, b: int)
    requires k > 0 && a <= b
    ensures k * a <= k * b
  {
  }

  /** For a positive factor, `k * a > k * b` means `a > b`. */
  lemma MulCancel(k: int, a: int, b: int)
    requires k > 0 && k * a > k * b
    ensures a > b
  {
    if a <= b {
      MulMono(k, a, b);
    }
  }

  /** More words or entries never lower the percentage. */
  lemma PercentMonotone(a: nat, b: nat, goal: int)
    requires goal > 0 && a <= b
    ensures Percent(a, goal).n <= Percent(b, goal).n
  {
    var qa, qb := RoundHalfUp(100 * a, goal), RoundHalfUp(100 * b, goal);
    if qa > qb {
      MulMono(2 * goal, qb + 1, qa);
      MulMono(200, a, b);
    }
  }

  // ---- Progress ----

  /** The Monday of the week containing `today` (weeks run Monday to Sunday). */
  function WeekStart(today: Day): (monday: Day)
    ensures Weekday(monday) == 1
    ensures monday <= today <= monday + 6
  {
    today - IsoWeekday(today) + 1
  }

  /** The Monday on or before a day, at most six days back, is that day's week start. */
  lemma WeekStartUnique(today: Day, m: Day)
    requires Weekday(m) == 1 && m <= today <= m + 6
    ensures m == WeekStart(today)
  {
    var w := WeekStart(today);
    assert m % 7 == 0 && w % 7 == 0;
    assert m / 7 == today / 7 == w / 7;
  }

  datatype Progress = Progress(
    dailyWords: nat,
    dailyWordGoal: int,
    dailyPercent: JsNumber,
    weeklyEntries: nat,
    weeklyEntryGoal: int,
    weeklyPercent: JsNumber)

  /** `getGoalProgress`: today's words (0 when there is no entry today) and
      the number of entries dated on or after this week's Monday. */
  function GoalProgress(stored: Option<WritingGoal>, entries: seq<Entry>, user: Id, today: Day)
    : (r: (Progress, Option<WritingGoal>))
    ensures r.1 == Some(LoadGoal(stored))
    ensures var mine := Queries.OfUser(entries, user);
      && r.0.dailyWords == Queries.TotalWords(Queries.OnDay(mine, today))
      && r.0.weeklyEntries == |Queries.Select(mine, (e: Entry) => e.date >= WeekStart(today))|
    ensures r.0.dailyPercent == Percent(r.0.dailyWords, LoadGoal(stored).dailyWordGoal)
    ensures r.0.weeklyPercent == Percent(r.0.weeklyEntries, LoadGoal(stored).weeklyEntryGoal)
  {
    var goal := LoadGoal(stored);
    var mine := Queries.OfUser(entries, user);
    var todayWords := Queries.SumWords(Queries.OnDay(mine, today)).GetOr(0);
    var monday := WeekStart(today);
    var weekEntries := |Queries.Select(mine, (e: Entry) => e.date >= monday)|;
    (Progress(todayWords, goal.dailyWordGoal, Percent(todayWords, goal.dailyWordGoal),
              weekEntries, goal.weeklyEntryGoal, Percent(weekEntries, goal.weeklyEntryGoal)),
     Some(goal))
  }

  /** With a goal set through the route, both percentages are whole numbers
      between 0 and 100, and the week's count includes every entry of the
      seven days Monday to Sunday. */
  lemma ProgressWithValidGoal(stored: Option<WritingGoal>, entries: seq<Entry>, user: Id, today: Day)
    requires stored.Some? ==> ValidGoal(stored.value)
    ensures var p := GoalProgress(stored, entries, user, today).0;
      && p.dailyPercent.Finite? && 0 <= p.dailyPercent.n <= 100
      && p.weeklyPercent.Finite? && 0 <= p.weeklyPercent.n <= 100
    ensures var mine := Queries.OfUser(entries, user);
      var monday := WeekStart(today);
      forall e | e in mine && monday <= e.date <= monday + 6 ::
        e in Queries.Select(mine, (x: Entry) => x.date >= monday)
  {
    var p := GoalProgress(stored, entries, user, today).0;
    PercentMeaning(p.dailyWords, LoadGoal(stored).dailyWordGoal);
    PercentMeaning(p.weeklyEntries, LoadGoal(stored).weeklyEntryGoal);
  }
}
