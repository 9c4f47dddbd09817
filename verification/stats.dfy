/**
 The statistics handlers (backend/controllers/statsController.js): the
 overview figures, the mood breakdown, the per-day activity of a year, and the
 twenty most used tags.
 */
module Stats {
  import opened Results
  import opened Calendar
  import opened EntryModel
  import opened Queries
  import Streak
  import Sorting

  // ---- Overview ----

  datatype Overview = Overview(totalEntries: nat, totalWords: nat, streak: nat, thisMonth: nat)

  /** The entries dated on or after the first day of the month of `today`. */
  function FromMonthOf(s: seq<Entry>, today: Day): seq<Entry> {
    Select(s, (e: Entry) => e.date >= FirstOfMonth(today))
  }

  /** `overview`: count, word total (0 instead of a null sum), 365-day streak,
      and the count of entries dated from the first of this month on. */
  function GetOverview(store: Store, user: Id, today: Day): (r: Overview)
    ensures var mine := OfUser(store.entries, user);
      && r.totalEntries == |mine|
      && r.totalWords == TotalWords(mine)
      && r.streak <= Streak.OverviewHorizon
      && r.thisMonth <= r.totalEntries
      && r.thisMonth == |Select(mine, (e: Entry) => MonthNotBefore(e.date, today))|
  {
    var mine := OfUser(store.entries, user);
    FromMonthMeaning(mine, today);
    Overview(|mine|, SumWords(mine).GetOr(0),
             Streak.StreakOf(DatesOf(mine), today, Streak.OverviewHorizon),
             |FromMonthOf(mine, today)|)
  }

  /** Day `d` falls in the month of `t` or in a later month. */
  predicate MonthNotBefore(d: Day, t: Day) {
    YearOf(d) > YearOf(t) || (YearOf(d) == YearOf(t) && MonthOf(d) >= MonthOf(t))
  }

  /** Two days of the same month are as far apart as their days of the month. */
  lemma SameMonthDistance(d: Day, f: Day)
    requires YearOf(d) == YearOf(f) && MonthOf(d) == MonthOf(f)
    ensures DayOfMonth(d) - DayOfMonth(f) == d - f
  {
  }

  /** An entry is counted in `thisMonth` exactly when it is dated in the
      current month or a later one. */
  lemma ThisMonthMeaning(d: Day, today: Day)
    ensures d >= FirstOfMonth(today) <==> MonthNotBefore(d, today)
  {
    var f := FirstOfMonth(today);
    if d >= f {
      YearMonthMonotone(f, d);
    } else {
      YearMonthMonotone(d, f);
      if YearOf(d) == YearOf(f) && MonthOf(d) == MonthOf(f) {
        SameMonthDistance(d, f);
      }
    }
  }

  /** The entries counted from the first of the month on are those dated in
      the current month or a later one. */
  lemma FromMonthMeaning(s: seq<Entry>, today: Day)
    ensures FromMonthOf(s, today) == Select(s, (e: Entry) => MonthNotBefore(e.date, today))
  {
    forall e: Entry
      ensures (e.date >= FirstOfMonth(today)) == MonthNotBefore(e.date, today)
    {
      ThisMonthMeaning(e.date, today);
    }
    SelectSame(s, (e: Entry) => e.date >= FirstOfMonth(today), (e: Entry) => MonthNotBefore(e.date, today));
  }

  /** The overview's streak is the achievement evaluator's walk cut at 365 days,
      and it is the run of days with entries ending today or yesterday. */
  lemma OverviewStreak(store: Store, user: Id, today: Day)
    ensures var dates := DatesOf(OfUser(store.entries, user));
      var s := GetOverview(store, user, today).streak;
      var c := Streak.Cap(dates, today, Streak.OverviewHorizon);
      && Streak.RunOf(dates, Streak.Anchor(dates, today), s)
      && s == Min(Streak.StreakOf(dates, today, Streak.EvaluatorHorizon), c)
  {
    var dates := DatesOf(OfUser(store.entries, user));
    Streak.HorizonsAgree(dates, today);
    Streak.StreakCharacterization(dates, today, Streak.OverviewHorizon, 0);
  }

  // ---- Moods ----

  datatype MoodRow = MoodRow(mood: Mood, count: nat)

  /** The optional `startDate` / `endDate` bounds of the query. */
  predicate InDateRange(e: Entry, startDate: Option<Day>, endDate: Option<Day>) {
    (startDate.None? || e.date >= startDate.value) && (endDate.None? || e.date <= endDate.value)
  }

  function WithMood(s: seq<Entry>, m: Mood): seq<Entry> {
    Select(s, (e: Entry) => e.mood == Some(m))
  }

  function WithMoodIn(s: seq<Entry>, ms: seq<Mood>): seq<Entry> {
    Select(s, (e: Entry) => e.mood.Some? && e.mood.value in ms)
  }

  /** One row per mood of `ms` that occurs, with the number of its entries. */
  function MoodRows(s: seq<Entry>, ms: seq<Mood>): (r: seq<MoodRow>)
    ensures forall row | row in r :: row.mood in ms && row.count == |WithMood(s, row.mood)| > 0
    ensures forall m | m in ms && |WithMood(s, m)| > 0 :: MoodRow(m, |WithMood(s, m)|) in r
  {
    if |ms| == 0 then []
    else
      var rest := MoodRows(s, ms[1..]);
      var n := |WithMood(s, ms[0])|;
      if n > 0 then [MoodRow(ms[0], n)] + rest else rest
  }

  /** `moods`: group the user's entries that have a mood and lie in the
      optional date range by mood. The store leaves the row order open; the
      model lists moods in the column's declared order. */
  function MoodBreakdown(store: Store, user: Id, startDate: Option<Day>, endDate: Option<Day>): seq<MoodRow> {
    var inRange := Select(OfUser(store.entries, user), (e: Entry) => InDateRange(e, startDate, endDate));
    MoodRows(inRange, Moods)
  }

  function SumMoodCounts(rows: seq<MoodRow>): nat {
    if |rows| == 0 then 0 else rows[0].count + SumMoodCounts(rows[1..])
  }

  /** The rows account for every entry with a mood once: their counts add up
      to the number of entries whose mood is one of `ms`. */
  lemma {:induction false} MoodRowsTotal(s: seq<Entry>, ms: seq<Mood>)
    requires forall i, j :: 0 <= i < j < |ms| ==> ms[i] != ms[j]
    ensures SumMoodCounts(MoodRows(s, ms)) == |WithMoodIn(s, ms)|
    decreases |ms|
  {
    if |ms| == 0 {
      EmptySelect(s, (e: Entry) => e.mood.Some? && e.mood.value in ms);
    } else {
      var tail := ms[1..];
      forall i, j | 0 <= i < j < |tail|
        ensures tail[i] != tail[j]
      {
        assert tail[i] == ms[i + 1] && tail[j] == ms[j + 1];
      }
      MoodRowsTotal(s, tail);
      assert ms[0] !in tail by {
        forall k | 0 <= k < |tail|
          ensures tail[k] != ms[0]
        {
          assert tail[k] == ms[k + 1];
        }
      }
      assert forall m :: m in ms <==> m == ms[0] || m in tail;
      SelectSplit(s, (e: Entry) => e.mood.Some? && e.mood.value in ms,
                  (e: Entry) => e.mood == Some(ms[0]),
                  (e: Entry) => e.mood.Some? && e.mood.value in tail);
    }
  }

  /** The breakdown: distinct moods, each with its count in the range, every
      mood that occurs in the range listed, and the counts adding up to the
      number of entries in the range that have a mood. */
  lemma MoodBreakdownMeaning(store: Store, user: Id, startDate: Option<Day>, endDate: Option<Day>)
    ensures var inRange := Select(OfUser(store.entries, user), (e: Entry) => InDateRange(e, startDate, endDate));
      var rows := MoodBreakdown(store, user, startDate, endDate);
      && (forall row | row in rows :: row.count == |WithMood(inRange, row.mood)| > 0)
      && MoodsDistinct(rows)
      && (forall e | e in inRange && e.mood.Some? :: MoodRow(e.mood.value, |WithMood(inRange, e.mood.value)|) in rows)
      && SumMoodCounts(rows) == |Select(inRange, (e: Entry) => e.mood.Some?)|
  {
    var inRange := Select(OfUser(store.entries, user), (e: Entry) => InDateRange(e, startDate, endDate));
    EntryModel.MoodEnumeration();
    MoodRowsTotal(inRange, Moods);
    MoodRowsDistinct(inRange, Moods);
    SelectSame(inRange, (e: Entry) => e.mood.Some? && e.mood.value in Moods, (e: Entry) => e.mood.Some?);
    forall e | e in inRange && e.mood.Some?
      ensures |WithMood(inRange, e.mood.value)| > 0
    {
      assert e in WithMood(inRange, e.mood.value);
    }
  }

  ghost predicate MoodsDistinct(rows: seq<MoodRow>) {
    forall i, j :: 0 <= i < j < |rows| ==> rows[i].mood != rows[j].mood
  }

  /** Distinct moods give rows with distinct moods. */
  lemma {:induction false} MoodRowsDistinct(s: seq<Entry>, ms: seq<Mood>)
    requires forall i, j :: 0 <= i < j < |ms| ==> ms[i] != ms[j]
    ensures MoodsDistinct(MoodRows(s, ms))
    decreases |ms|
  {
    if |ms| > 0 {
      var tail := ms[1..];
      forall i, j | 0 <= i < j < |tail|
        ensures tail[i] != tail[j]
      {
        assert tail[i] == ms[i + 1] && tail[j] == ms[j + 1];
      }
      MoodRowsDistinct(s, tail);
      var rest := MoodRows(s, tail);
      assert MoodsDistinct(rest);
      forall k | 0 <= k < |rest|
        ensures rest[k].mood != ms[0]
      {
        assert rest[k] in rest;
        var m :| 0 <= m < |tail| && tail[m] == rest[k].mood;
        assert ms[m + 1] == tail[m];
      }
      var r := MoodRows(s, ms);
      if |WithMood(s, ms[0])| > 0 {
        assert r == [MoodRow(ms[0], |WithMood(s, ms[0])|)] + rest;
        forall i, j | 0 <= i < j < |r|
          ensures r[i].mood != r[j].mood
        {
          assert r[j] == rest[j - 1];
          if i > 0 {
            assert r[i] == rest[i - 1];
            assert rest[i - 1].mood != rest[j - 1].mood;
          }
        }
      } else {
        assert r == rest;
      }
    }
  }

  /** Selecting by two predicates that agree everywhere selects the same entries. */
  lemma {:induction false} SelectSame(s: seq<Entry>, p: Entry -> bool, q: Entry -> bool)
    requires forall e :: p(e) == q(e)
    ensures Select(s, p) == Select(s, q)
    decreases |s|
  {
    if |s| > 0 {
      SelectSame(s[1..], p, q);
    }
  }

  // ---- Activity ----

  /** `activity`: the per-day aggregate of the user's entries between January 1
      and December 31 of `year`. */
  function Activity(store: Store, user: Id, year: int): seq<DayRow>
    requires year >= 1
  {
    DailyRows(OfUser(store.entries, user), Jan1(year), Dec31(year))
  }

  /** Each row is a day of `year` with its entry count and word total, the rows
      ascend by date, every day of the year with entries has one, and together
      they account for every entry of the year. */
  lemma ActivityMeaning(store: Store, user: Id, year: int)
    requires year >= 1
    ensures var mine := OfUser(store.entries, user);
      var rows := Activity(store, user, year);
      && (forall row | row in rows :: YearOf(row.date) == year && row == RowOf(mine, row.date) && row.count > 0)
      && (forall i, j :: 0 <= i < j < |rows| ==> rows[i].date < rows[j].date)
      && (forall e | e in mine && YearOf(e.date) == year :: exists i :: 0 <= i < |rows| && rows[i].date == e.date)
      && SumCounts(rows) == |InRange(mine, Jan1(year), Dec31(year))|
      && SumRowWords(rows) == TotalWords(InRange(mine, Jan1(year), Dec31(year)))
  {
    var mine := OfUser(store.entries, user);
    var rows := Activity(store, user, year);
    DailyRowsValues(mine, Jan1(year), Dec31(year));
    DailyRowsTotals(mine, Jan1(year), Dec31(year));
    forall row | row in rows
      ensures YearOf(row.date) == year && row.count > 0
    {
      var i :| 0 <= i < |rows| && rows[i] == row;
      InYearIff(row.date, year);
    }
    forall e | e in mine && YearOf(e.date) == year
      ensures exists i :: 0 <= i < |rows| && rows[i].date == e.date
    {
      InYearIff(e.date, year);
      assert e in OnDay(mine, e.date);
      DailyRowsComplete(mine, Jan1(year), Dec31(year), e.date);
    }
  }

  // ---- Tags ----

  const TagRankLimit := 20

  datatype TagUse = TagUse(name: string, count: nat)

  function TaggedWith(s: seq<Entry>, name: string): seq<Entry> {
    Select(s, (e: Entry) => name in e.tags)
  }

  /** The join of tags with the entries carrying them: one use per tag row
      that at least one entry carries, in tag-table order. */
  function TagUses(rows: seq<TagRow>, s: seq<Entry>): (r: seq<TagUse>)
    ensures forall u | u in r :: u.count == |TaggedWith(s, u.name)| > 0 && exists t | t in rows :: t.name == u.name
    ensures forall t | t in rows && |TaggedWith(s, t.name)| > 0 :: TagUse(t.name, |TaggedWith(s, t.name)|) in r
  {
    if |rows| == 0 then []
    else
      var rest := TagUses(rows[1..], s);
      var n := |TaggedWith(s, rows[0].name)|;
      if n > 0 then [TagUse(rows[0].name, n)] + rest else rest
  }

  /** `ORDER BY count DESC`. */
  function ByCountDesc(u: TagUse): Sorting.Key {
    Sorting.Key(-(u.count as int), 0)
  }

  /** `tags`: the user's tags by number of entries, most used first, at most twenty. */
  function TopTags(store: Store, user: Id): seq<TagUse> {
    var mine := OfUser(store.entries, user);
    var ranked := Sorting.SortBy(TagUses(TagsOf(store.tags, user), mine), ByCountDesc);
    ranked[..Min(TagRankLimit, |ranked|)]
  }

  /** The ranking lists at most twenty of the user's tags, each with the number
      of the user's entries carrying it, most used first; a used tag that is
      left out is used no more often than every listed one, and is left out
      only when twenty tags are listed. */
  lemma TopTagsMeaning(store: Store, user: Id)
    ensures var mine := OfUser(store.entries, user);
      var top := TopTags(store, user);
      && |top| <= TagRankLimit
      && (forall u | u in top :: u.count == |TaggedWith(mine, u.name)| > 0 && TagRow(user, u.name) in store.tags)
      && (forall i, j :: 0 <= i < j < |top| ==> top[i].count >= top[j].count)
      && (forall t | t in TagsOf(store.tags, user) && |TaggedWith(mine, t.name)| > 0
            && TagUse(t.name, |TaggedWith(mine, t.name)|) !in top ::
            |top| == TagRankLimit && forall u | u in top :: |TaggedWith(mine, t.name)| <= u.count)
  {
    var mine := OfUser(store.entries, user);
    var uses := TagUses(TagsOf(store.tags, user), mine);
    var ranked := Sorting.SortBy(uses, ByCountDesc);
    TopOfRanked(uses, ranked, TagRankLimit);
    forall u | u in uses
      ensures TagRow(user, u.name) in store.tags
    {
      var t :| t in TagsOf(store.tags, user) && t.name == u.name;
      assert t == TagRow(user, u.name);
    }
  }

  /** A prefix of a ranking by descending count: members of the input, in
      descending count, and no input row outside it counts more than a row in it. */
  lemma TopOfRanked(uses: seq<TagUse>, ranked: seq<TagUse>, n: nat)
    requires Sorting.SortedBy(ranked, ByCountDesc) && multiset(ranked) == multiset(uses)
    ensures var top := ranked[..Min(n, |ranked|)];
      && (forall u | u in top :: u in uses)
      && (forall i, j :: 0 <= i < j < |top| ==> top[i].count >= top[j].count)
      && (forall v | v in uses && v !in top :: |top| == n && forall u | u in top :: v.count <= u.count)
  {
    var top := ranked[..Min(n, |ranked|)];
    forall u | u in top
      ensures u in uses
    {
      assert u in multiset(ranked);
    }
    forall i, j | 0 <= i < j < |top|
      ensures top[i].count >= top[j].count
    {
      assert top[i] == ranked[i] && top[j] == ranked[j];
    }
    forall v | v in uses && v !in top
      ensures |top| == n && forall u | u in top :: v.count <= u.count
    {
      assert v in multiset(ranked);
      var k :| 0 <= k < |ranked| && ranked[k] == v;
      assert k >= |top|;
      forall u | u in top
        ensures v.count <= u.count
      {
        var i :| 0 <= i < |top| && top[i] == u;
        assert ranked[i] == u;
      }
    }
  }
}
