/**
 The queries the controllers send to the store, as pure functions of the
 stored entries: filtered selection (`findAll` with a `where`), `count`,
 `sum("wordCount")`, distinct moods, distinct dates, and the per-date
 aggregate (`GROUP BY date` with `COUNT(id)` and `SUM(word_count)`).
 */
module Queries {
  import opened Results
  import opened Calendar
  import opened EntryModel

  /** The entries satisfying `p`, in store order. */
  function Select(s: seq<Entry>, p: Entry -> bool): (r: seq<Entry>)
    ensures |r| <= |s|
    ensures forall e :: e in r <==> e in s && p(e)
  {
    if |s| == 0 then []
    else if p(s[0]) then [s[0]] + Select(s[1..], p)
    else Select(s[1..], p)
  }

  /** `where: { userId }`. */
  function OfUser(s: seq<Entry>, user: Id): (r: seq<Entry>)
    ensures forall e :: e in r <==> e in s && e.userId == user
  {
    Select(s, (e: Entry) => e.userId == user)
  }

  /** Sum of the word counts, counting each entry once. */
  function TotalWords(s: seq<Entry>): nat {
    if |s| == 0 then 0 else s[0].wordCount + TotalWords(s[1..])
  }

  /** `Entry.sum("wordCount")`: SQL `SUM` is null over no rows. */
  function SumWords(s: seq<Entry>): (r: Option<nat>)
    ensures r.None? <==> |s| == 0
    ensures r.Some? ==> r.value == TotalWords(s)
  {
    if |s| == 0 then None else Some(TotalWords(s))
  }

  /** The distinct non-null moods used (`count(distinct mood) where mood is not null`). */
  function DistinctMoods(s: seq<Entry>): (r: set<Mood>)
    ensures forall m :: m in r <==> exists e :: e in s && e.mood == Some(m)
  {
    set e | e in s && e.mood.Some? :: e.mood.value
  }

  /** The distinct entry dates. */
  function DatesOf(s: seq<Entry>): (r: set<int>)
    ensures forall d :: d in r <==> exists e :: e in s && e.date == d
  {
    set e | e in s :: e.date as int
  }

  /** The user's rows of the tag table, in storage order. */
  function TagsOf(tags: seq<TagRow>, user: Id): (r: seq<TagRow>)
    ensures forall t :: t in r <==> t in tags && t.userId == user
  {
    if |tags| == 0 then []
    else if tags[0].userId == user then [tags[0]] + TagsOf(tags[1..], user)
    else TagsOf(tags[1..], user)
  }

  /** `Tag.count({ where: { userId } })`: every tag the user ever created. */
  function TagCount(tags: seq<TagRow>, user: Id): nat {
    |TagsOf(tags, user)|
  }

  function OnDay(s: seq<Entry>, d: int): seq<Entry> {
    Select(s, (e: Entry) => e.date == d)
  }

  function InRange(s: seq<Entry>, lo: int, hi: int): seq<Entry> {
    Select(s, (e: Entry) => lo <= e.date <= hi)
  }

  /** One row of the per-date aggregate. */
  datatype DayRow = DayRow(date: Day, count: nat, words: nat)

  /** The per-date aggregate over the days `lo..hi`: one row per day that has
      entries, in ascending date order (`GROUP BY date ORDER BY date ASC`). */
  function DailyRows(s: seq<Entry>, lo: Day, hi: int): (r: seq<DayRow>)
    ensures forall i :: 0 <= i < |r| ==> lo <= r[i].date <= hi && r[i].count > 0
    ensures forall i, j :: 0 <= i < j < |r| ==> r[i].date < r[j].date
    decreases hi - lo
  {
    if lo > hi then []
    else
      var rest := DailyRows(s, lo + 1, hi);
      if |OnDay(s, lo)| > 0 then [RowOf(s, lo)] + rest
      else rest
  }

  /** The row a day with entries contributes to the aggregate. */
  function RowOf(s: seq<Entry>, d: Day): DayRow {
    DayRow(d, |OnDay(s, d)|, TotalWords(OnDay(s, d)))
  }

  /** Each row carries its date's entry count and word total. */
  lemma {:induction false} DailyRowsValues(s: seq<Entry>, lo: Day, hi: int)
    ensures forall row | row in DailyRows(s, lo, hi) :: row == RowOf(s, row.date)
    decreases hi - lo
  {
    if lo <= hi {
      DailyRowsValues(s, lo + 1, hi);
      var rest := DailyRows(s, lo + 1, hi);
      if |OnDay(s, lo)| > 0 {
        assert DailyRows(s, lo, hi) == [RowOf(s, lo)] + rest;
      } else {
        assert DailyRows(s, lo, hi) == rest;
      }
    }
  }

  /** Every day of the range that has entries has a row. */
  lemma {:induction false} DailyRowsComplete(s: seq<Entry>, lo: Day, hi: int, d: Day)
    requires lo <= d <= hi && |OnDay(s, d)| > 0
    ensures exists i :: 0 <= i < |DailyRows(s, lo, hi)| && DailyRows(s, lo, hi)[i].date == d
    decreases hi - lo
  {
    var r, rest := DailyRows(s, lo, hi), DailyRows(s, lo + 1, hi);
    if d == lo {
      assert r == [RowOf(s, lo)] + rest;
      HasDateHead(RowOf(s, lo), rest, d);
    } else {
      DailyRowsComplete(s, lo + 1, hi, d);
      if |OnDay(s, lo)| > 0 {
        assert r == [RowOf(s, lo)] + rest;
        HasDateTail(RowOf(s, lo), rest, d);
      }
    }
  }

  lemma HasDateHead(row: DayRow, rest: seq<DayRow>, d: Day)
    requires row.date == d
    ensures exists i :: 0 <= i < |[row] + rest| && ([row] + rest)[i].date == d
  {
    assert ([row] + rest)[0].date == d;
  }

  lemma HasDateTail(row: DayRow, rest: seq<DayRow>, d: Day)
    requires exists i :: 0 <= i < |rest| && rest[i].date == d
    ensures exists i :: 0 <= i < |[row] + rest| && ([row] + rest)[i].date == d
  {
    var i :| 0 <= i < |rest| && rest[i].date == d;
    assert ([row] + rest)[i + 1] == rest[i];
  }

  function SumCounts(rows: seq<DayRow>): nat {
    if |rows| == 0 then 0 else rows[0].count + SumCounts(rows[1..])
  }

  function SumRowWords(rows: seq<DayRow>): nat {
    if |rows| == 0 then 0 else rows[0].words + SumRowWords(rows[1..])
  }

  /** Selecting by a predicate that splits into two disjoint ones splits the
      selected rows' number and word total. */
  lemma {:induction false} SelectSplit(s: seq<Entry>, p: Entry -> bool, q: Entry -> bool, r: Entry -> bool)
    requires forall e :: p(e) == (q(e) || r(e))
    requires forall e :: !(q(e) && r(e))
    ensures |Select(s, p)| == |Select(s, q)| + |Select(s, r)|
    ensures TotalWords(Select(s, p)) == TotalWords(Select(s, q)) + TotalWords(Select(s, r))
    decreases |s|
  {
    if |s| > 0 {
      SelectSplit(s[1..], p, q, r);
    }
  }

  /** The aggregate accounts for every entry of the range exactly once. */
  lemma {:induction false} DailyRowsTotals(s: seq<Entry>, lo: Day, hi: int)
    ensures SumCounts(DailyRows(s, lo, hi)) == |InRange(s, lo, hi)|
    ensures SumRowWords(DailyRows(s, lo, hi)) == TotalWords(InRange(s, lo, hi))
    decreases hi - lo
  {
    if lo > hi {
      EmptySelect(s, (e: Entry) => lo <= e.date <= hi);
    } else {
      DailyRowsTotals(s, lo + 1, hi);
      SelectSplit(s, (e: Entry) => lo <= e.date <= hi, (e: Entry) => e.date == lo, (e: Entry) => lo + 1 <= e.date <= hi);
      if |OnDay(s, lo)| == 0 {
        EmptyWords(OnDay(s, lo));
      }
    }
  }

  lemma {:induction false} EmptySelect(s: seq<Entry>, p: Entry -> bool)
    requires forall e :: !p(e)
    ensures Select(s, p) == []
    decreases |s|
  {
    if |s| > 0 {
      EmptySelect(s[1..], p);
    }
  }

  lemma EmptyWords(s: seq<Entry>)
    requires |s| == 0
    ensures TotalWords(s) == 0
  {
  }

  /** Selecting twice is selecting by both predicates. */
  lemma {:induction false} SelectSelect(s: seq<Entry>, p: Entry -> bool, q: Entry -> bool, pq: Entry -> bool)
    requires forall e :: pq(e) == (p(e) && q(e))
    ensures Select(Select(s, p), q) == Select(s, pq)
    decreases |s|
  {
    if |s| > 0 {
      SelectSelect(s[1..], p, q, pq);
    }
  }
}
