/**
 The year heatmap (`heatmap` in backend/controllers/memoryController.js): the
 per-day aggregate of one year's entries spread over every day of that year,
 with zero cells for the days without entries, and the year's totals.
 */
module Heatmap {
  import opened Results
  import opened Calendar
  import opened EntryModel
  import opened Queries

  /** One day of the heatmap. */
  datatype Cell = Cell(date: Day, count: nat, words: nat)

  datatype YearTotals = YearTotals(totalDays: nat, totalEntries: nat, totalWords: nat)

  datatype Report = Report(cells: seq<Cell>, year: int, stats: YearTotals)

  /** The aggregate's row for day `d`, when the aggregate has one (`map[key]`). */
  function Lookup(rows: seq<DayRow>, d: Day): (r: Option<DayRow>)
    ensures r.Some? ==> r.value in rows && r.value.date == d
    ensures r.None? <==> forall row | row in rows :: row.date != d
  {
    if |rows| == 0 then None
    else if rows[0].date == d then Some(rows[0])
    else Lookup(rows[1..], d)
  }

  /** The cell of day `d`: the row's count and words, or zeros (`?.count || 0`). */
  function CellOf(rows: seq<DayRow>, d: Day): Cell {
    match Lookup(rows, d)
    case Some(row) => Cell(d, row.count, row.words)
    case None => Cell(d, 0, 0)
  }

  /** Day `d` with its number of entries and their word total. */
  function DayCell(s: seq<Entry>, d: Day): Cell {
    Cell(d, |OnDay(s, d)|, TotalWords(OnDay(s, d)))
  }

  /** Cell `i` is day `lo + i` of the entries `s`. */
  ghost predicate DaysFrom(cells: seq<Cell>, s: seq<Entry>, lo: Day) {
    forall i :: 0 <= i < |cells| ==> cells[i] == DayCell(s, lo + i)
  }

  /** The number of days with at least one entry. */
  function ActiveDays(cells: seq<Cell>): nat {
    if |cells| == 0 then 0
    else (if cells[0].count > 0 then 1 else 0) + ActiveDays(cells[1..])
  }

  /** `heatmap`: one cell per day from January 1 to December 31 of `year`,
      followed by the number of days with entries and the year's entry and
      word totals. */
  method BuildHeatmap(store: Store, user: Id, year: int) returns (report: Report)
    requires year >= 1
    ensures report.year == year
    ensures |report.cells| == YearLength(year)
    ensures DaysFrom(report.cells, OfUser(store.entries, user), Jan1(year))
    ensures report.stats.totalDays == ActiveDays(report.cells)
    ensures var mine := OfUser(store.entries, user);
      && report.stats.totalEntries == |InRange(mine, Jan1(year), Dec31(year))|
      && report.stats.totalWords == TotalWords(InRange(mine, Jan1(year), Dec31(year)))
  {
    var mine, lo, hi := OfUser(store.entries, user), Jan1(year), Dec31(year);
    YearSpan(year);
    var cells, totals := Spread(mine, lo, hi);
    report := Report(cells, year, totals);
  }

  /** The heatmap of the days `lo..hi` of the entries `s`. */
  method Spread(s: seq<Entry>, lo: Day, hi: int) returns (cells: seq<Cell>, totals: YearTotals)
    requires lo <= hi + 1
    ensures |cells| == hi - lo + 1
    ensures DaysFrom(cells, s, lo)
    ensures totals.totalDays == ActiveDays(cells)
    ensures totals.totalEntries == |InRange(s, lo, hi)|
    ensures totals.totalWords == TotalWords(InRange(s, lo, hi))
  {
    var rows := DailyRows(s, lo, hi);
    cells := FillCells(rows, lo, hi);
    CellsOfDays(s, lo, hi, cells);
    DailyRowsTotals(s, lo, hi);
    totals := YearTotals(|rows|, SumCounts(rows), SumRowWords(rows));
  }

  /** The loop over the days `lo..hi`: one cell per day, in date order. */
  method FillCells(rows: seq<DayRow>, lo: Day, hi: int) returns (cells: seq<Cell>)
    requires lo <= hi + 1
    ensures |cells| == hi - lo + 1
    ensures forall i :: 0 <= i < |cells| ==> cells[i] == CellOf(rows, lo + i)
  {
    cells := [];
    var d := lo;
    while d <= hi
      invariant lo <= d <= hi + 1
      invariant |cells| == d - lo
      invariant forall i :: 0 <= i < |cells| ==> cells[i] == CellOf(rows, lo + i)
    {
      cells := cells + [CellOf(rows, d)];
      d := d + 1;
    }
  }

  /** The cells of the aggregate over `lo..hi` hold each day's count and words,
      and there are as many active cells as aggregate rows. */
  lemma CellsOfDays(s: seq<Entry>, lo: Day, hi: int, cells: seq<Cell>)
    requires |cells| == hi - lo + 1
    requires forall i :: 0 <= i < |cells| ==> cells[i] == CellOf(DailyRows(s, lo, hi), lo + i)
    ensures DaysFrom(cells, s, lo)
    ensures ActiveDays(cells) == |DailyRows(s, lo, hi)|
  {
    CellsHoldDays(s, lo, hi, cells);
    ActiveDaysMatchRows(s, lo, hi, cells);
  }

  lemma CellsHoldDays(s: seq<Entry>, lo: Day, hi: int, cells: seq<Cell>)
    requires forall i :: 0 <= i < |cells| ==> cells[i] == CellOf(DailyRows(s, lo, hi), lo + i)
    requires |cells| == hi - lo + 1
    ensures forall i :: 0 <= i < |cells| ==> cells[i] == DayCell(s, lo + i)
  {
    forall i | 0 <= i < |cells|
      ensures cells[i] == DayCell(s, lo + i)
    {
      CellOfDay(s, lo, hi, lo + i);
    }
  }

  /** A year runs from its January 1 to its December 31: 366 days exactly in leap years. */
  lemma YearSpan(year: int)
    requires year >= 1
    ensures Dec31(year) - Jan1(year) + 1 == YearLength(year)
    ensures YearLength(year) == 366 <==> IsLeapYear(year)
  {
  }

  /** The cell of a day of the range holds that day's entry count and word total. */
  lemma CellOfDay(s: seq<Entry>, lo: Day, hi: int, d: Day)
    requires lo <= d <= hi
    ensures CellOf(DailyRows(s, lo, hi), d) == DayCell(s, d)
  {
    var rows := DailyRows(s, lo, hi);
    DailyRowsValues(s, lo, hi);
    if |OnDay(s, d)| > 0 {
      DailyRowsComplete(s, lo, hi, d);
      var i :| 0 <= i < |rows| && rows[i].date == d;
      CellFromRow(rows, s, d, i);
    } else {
      forall row | row in rows
        ensures row.count > 0
      {
        var i :| 0 <= i < |rows| && rows[i] == row;
      }
      CellWithoutRow(rows, s, d);
    }
  }

  /** Rows holding their days' values give a day with a row that row's values. */
  lemma CellFromRow(rows: seq<DayRow>, s: seq<Entry>, d: Day, i: nat)
    requires forall row | row in rows :: row == RowOf(s, row.date)
    requires i < |rows| && rows[i].date == d
    ensures CellOf(rows, d) == DayCell(s, d)
  {
    assert rows[i] in rows;
  }

  /** A day without entries has no row among rows of active days: its cell is zero. */
  lemma CellWithoutRow(rows: seq<DayRow>, s: seq<Entry>, d: Day)
    requires forall row | row in rows :: row == RowOf(s, row.date) && row.count > 0
    requires |OnDay(s, d)| == 0
    ensures CellOf(rows, d) == DayCell(s, d)
  {
    EmptyWords(OnDay(s, d));
  }

  /** A run of cells for the days `lo..hi` has as many active days as the
      aggregate has rows. */
  lemma {:induction false} ActiveDaysMatchRows(s: seq<Entry>, lo: Day, hi: int, cells: seq<Cell>)
    requires |cells| == hi - lo + 1
    requires forall i :: 0 <= i < |cells| ==> cells[i] == DayCell(s, lo + i)
    ensures ActiveDays(cells) == |DailyRows(s, lo, hi)|
    decreases |cells|
  {
    if |cells| > 0 {
      ActiveDaysMatchRows(s, lo + 1, hi, cells[1..]);
    }
  }
}
