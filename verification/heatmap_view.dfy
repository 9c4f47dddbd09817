/**
 The pure helpers of the heatmap component (frontend/src/components/Heatmap.jsx):
 the color step of a day's entry count, the grid of weeks the year's cells are
 laid out in (one column per week, Sunday first), and the month labels placed
 above the weeks that hold the first day of a month.
 */
module HeatmapView {
  import opened Results
  import opened Calendar
  import opened Heatmap

  // ---- Colors ----

  /** The five colors of the scale, from empty to the most intense. */
  datatype Level = Empty | L1 | L2 | L3 | L4

  function Rank(l: Level): nat {
    match l
    case Empty => 0
    case L1 => 1
    case L2 => 2
    case L3 => 3
    case L4 => 4
  }

  /** `getColor`: 0, 1 and 2 entries have their own color, 3 and 4 share one,
      and five or more share the last. */
  function LevelOf(count: int): Level {
    if count == 0 then Empty
    else if count == 1 then L1
    else if count == 2 then L2
    else if count <= 4 then L3
    else L4
  }

  /** More entries never give a lighter color. */
  lemma LevelMonotone(a: int, b: int)
    requires 0 <= a <= b
    ensures Rank(LevelOf(a)) <= Rank(LevelOf(b))
  {
  }

  /** The color is a step of the count: the count's range for each color. */
  lemma LevelRanges(count: nat)
    ensures LevelOf(count) == Empty <==> count == 0
    ensures LevelOf(count) == L3 <==> 3 <= count <= 4
    ensures LevelOf(count) == L4 <==> count >= 5
    ensures Rank(LevelOf(count)) == Min(count, 3) + (if count >= 5 then 1 else 0)
  {
  }

  /** The counts the legend shows. */
  const LegendSamples: seq<int> := [0, 1, 2, 3, 5]

  /** The legend shows each of the five colors exactly once, lightest first. */
  lemma LegendShowsEveryLevel()
    ensures forall l: Level :: Rank(l) < |LegendSamples| && LevelOf(LegendSamples[Rank(l)]) == l
    ensures forall i, j :: 0 <= i < j < |LegendSamples| ==> Rank(LevelOf(LegendSamples[i])) < Rank(LevelOf(LegendSamples[j]))
  {
  }

  // ---- The week grid ----

  /** A grid slot: a day's cell, or padding. */
  type Slot = Option<Cell>

  function Blanks(n: nat): (r: seq<Slot>)
    ensures |r| == n && forall i :: 0 <= i < n ==> r[i] == None
  {
    seq(n, i => None)
  }

  function Filled(data: seq<Cell>): (r: seq<Slot>)
    ensures |r| == |data| && forall i :: 0 <= i < |data| ==> r[i] == Some(data[i])
  {
    seq(|data|, i requires 0 <= i < |data| => Some(data[i]))
  }

  /** The slots of the weeks read row by row. */
  function Flatten(weeks: seq<seq<Slot>>): seq<Slot> {
    if |weeks| == 0 then [] else Flatten(weeks[..|weeks| - 1]) + weeks[|weeks| - 1]
  }

  /** The cells among some slots, in order. */
  function Present(slots: seq<Slot>): seq<Cell> {
    if |slots| == 0 then []
    else Present(slots[..|slots| - 1]) + (if slots[|slots| - 1].Some? then [slots[|slots| - 1].value] else [])
  }

  /** The padding that completes the last week of `n` slots. */
  function TailPad(n: nat): nat {
    (7 - n % 7) % 7
  }

  /** `weeks`: `startDay` blank slots (the weekday of January 1, Sunday being
      0), then the cells in order, cut into weeks of seven, the last week
      completed with blanks. No data gives no weeks. */
  method BuildWeeks(data: seq<Cell>, startDay: nat) returns (weeks: seq<seq<Slot>>)
    requires startDay <= 6
    ensures |data| == 0 ==> weeks == []
    ensures forall w | w in weeks :: |w| == 7
    ensures |data| > 0 ==> Flatten(weeks) == Blanks(startDay) + Filled(data) + Blanks(TailPad(startDay + |data|))
    ensures |data| > 0 ==> |weeks| == (startDay + |data| + 6) / 7
    ensures Present(Flatten(weeks)) == data
    ensures forall k :: 0 <= k < |data| ==>
      (startDay + k) / 7 < |weeks| && weeks[(startDay + k) / 7][(startDay + k) % 7] == Some(data[k])
  {
    if |data| == 0 {
      return [];
    }
    weeks := GridOf(data, startDay);
    GridMeaning(data, startDay, weeks);
  }

  /** The grid of a non-empty run of cells. */
  method GridOf(data: seq<Cell>, startDay: nat) returns (weeks: seq<seq<Slot>>)
    requires startDay <= 6 && |data| > 0
    ensures forall w | w in weeks :: |w| == 7
    ensures Flatten(weeks) == Blanks(startDay) + Filled(data) + Blanks(TailPad(startDay + |data|))
  {
    var current;
    weeks, current := FillWeeks(data, startDay);
    if |current| > 0 {
      var last := PadWeek(current);
      CloseGrid(weeks, current, last, startDay, data);
      weeks := weeks + [last];
    } else {
      ExactGrid(weeks, current, startDay, data);
    }
  }

  /** Completing the last, partial week with blanks pads the grid by the tail padding. */
  lemma CloseGrid(weeks: seq<seq<Slot>>, current: seq<Slot>, last: seq<Slot>, a: nat, data: seq<Cell>)
    requires Flatten(weeks) + current == Blanks(a) + Filled(data)
    requires |Flatten(weeks)| == 7 * |weeks| && 0 < |current| < 7
    requires last == current + Blanks(7 - |current|)
    ensures Flatten(weeks + [last]) == Blanks(a) + Filled(data) + Blanks(TailPad(a + |data|))
  {
    FlattenSnoc(weeks, last);
    PadIsTailPad(|Flatten(weeks)|, |current|, |weeks|, a + |data|);
    assert Flatten(weeks) + last == (Flatten(weeks) + current) + Blanks(7 - |current|);
  }

  /** When the cells end a week, there is no padding. */
  lemma ExactGrid(weeks: seq<seq<Slot>>, current: seq<Slot>, a: nat, data: seq<Cell>)
    requires Flatten(weeks) + current == Blanks(a) + Filled(data)
    requires |Flatten(weeks)| == 7 * |weeks| && |current| == 0
    ensures Flatten(weeks) == Blanks(a) + Filled(data) + Blanks(TailPad(a + |data|))
  {
    assert Flatten(weeks) + current == Flatten(weeks);
    assert TailPad(a + |data|) == 0 by {
      assert (7 * |weeks|) % 7 == 0;
    }
    assert Blanks(0) == [];
  }

  /** The loop over the cells: full weeks are emitted as they fill up, and the
      week being filled is returned alongside. */
  method FillWeeks(data: seq<Cell>, startDay: nat) returns (weeks: seq<seq<Slot>>, current: seq<Slot>)
    requires startDay <= 6
    ensures |current| < 7
    ensures forall w | w in weeks :: |w| == 7
    ensures Flatten(weeks) + current == Blanks(startDay) + Filled(data)
    ensures |Flatten(weeks)| == 7 * |weeks|
  {
    weeks := [];
    current := Blanks(startDay);
    var i := 0;
    while i < |data|
      invariant 0 <= i <= |data|
      invariant |current| < 7
      invariant forall w | w in weeks :: |w| == 7
      invariant Flatten(weeks) + current == Blanks(startDay) + Filled(data[..i])
      invariant |Flatten(weeks)| == 7 * |weeks|
    {
      PushCell(Flatten(weeks), current, Blanks(startDay), data, i);
      current := current + [Some(data[i])];
      if |current| == 7 {
        FlattenSnoc(weeks, current);
        weeks := weeks + [current];
        current := [];
        assert Flatten(weeks) + current == Flatten(weeks);
      }
      i := i + 1;
    }
    assert data[..i] == data;
  }

  /** Pushing cell `i` onto the week being filled extends the slots read so far by it. */
  lemma PushCell(done: seq<Slot>, current: seq<Slot>, pad: seq<Slot>, data: seq<Cell>, i: nat)
    requires i < |data| && done + current == pad + Filled(data[..i])
    ensures done + (current + [Some(data[i])]) == pad + Filled(data[..i + 1])
  {
    assert Filled(data[..i + 1]) == Filled(data[..i]) + [Some(data[i])];
    assert done + (current + [Some(data[i])]) == (done + current) + [Some(data[i])];
  }

  /** `while (currentWeek.length < 7) currentWeek.push(null)`. */
  method PadWeek(current: seq<Slot>) returns (week: seq<Slot>)
    requires |current| <= 7
    ensures week == current + Blanks(7 - |current|)
  {
    week := current;
    while |week| < 7
      invariant |current| <= |week| <= 7
      invariant week == current + Blanks(|week| - |current|)
      decreases 7 - |week|
    {
      assert Blanks(|week| + 1 - |current|) == Blanks(|week| - |current|) + [None];
      week := week + [None];
    }
  }

  lemma FlattenSnoc(weeks: seq<seq<Slot>>, w: seq<Slot>)
    ensures Flatten(weeks + [w]) == Flatten(weeks) + w
  {
    assert (weeks + [w])[..|weeks|] == weeks;
  }

  /** The blanks added to a last week of `filled` slots are the tail padding. */
  lemma PadIsTailPad(before: nat, filled: nat, k: nat, n: nat)
    requires before == 7 * k && n == before + filled && 0 < filled < 7
    ensures 7 - filled == TailPad(n)
  {
    assert n % 7 == filled by {
      assert n == 7 * k + filled;
    }
  }

  /** The weeks of seven slots read row by row have seven slots each. */
  lemma {:induction false} FlattenLength(weeks: seq<seq<Slot>>)
    requires forall w | w in weeks :: |w| == 7
    ensures |Flatten(weeks)| == 7 * |weeks|
  {
    if |weeks| > 0 {
      FlattenLength(weeks[..|weeks| - 1]);
    }
  }

  /** Slot `j` of week `w` is slot `7 * w + j` of the rows read in order. */
  lemma {:induction false} FlattenIndex(weeks: seq<seq<Slot>>, w: nat, j: nat)
    requires forall x | x in weeks :: |x| == 7
    requires w < |weeks| && j < 7
    ensures 7 * w + j < |Flatten(weeks)| && Flatten(weeks)[7 * w + j] == weeks[w][j]
  {
    var front := weeks[..|weeks| - 1];
    FlattenLength(front);
    if w < |weeks| - 1 {
      FlattenIndex(front, w, j);
    }
  }

  lemma {:induction false} PresentAppend(x: seq<Slot>, y: seq<Slot>)
    ensures Present(x + y) == Present(x) + Present(y)
    decreases |y|
  {
    if |y| > 0 {
      var y' := y[..|y| - 1];
      assert (x + y)[..|x + y| - 1] == x + y';
      PresentAppend(x, y');
    } else {
      assert x + y == x;
    }
  }

  lemma {:induction false} PresentBlanks(n: nat)
    ensures Present(Blanks(n)) == []
  {
    if n > 0 {
      assert Blanks(n)[..n - 1] == Blanks(n - 1);
      PresentBlanks(n - 1);
    }
  }

  lemma {:induction false} PresentFilled(data: seq<Cell>)
    ensures Present(Filled(data)) == data
  {
    if |data| > 0 {
      var front := data[..|data| - 1];
      assert Filled(data)[..|data| - 1] == Filled(front);
      PresentFilled(front);
      assert front + [data[|data| - 1]] == data;
    }
  }

  /** `n` slots completed to whole weeks make `ceil(n / 7)` weeks. */
  lemma WeeksOfSlots(n: nat, k: nat)
    requires n > 0 && 7 * k == n + TailPad(n)
    ensures k == (n + 6) / 7
  {
    var q, r := n / 7, n % 7;
    assert n == 7 * q + r;
    if r == 0 {
      assert 7 * k == 7 * q;
    } else {
      assert 7 * k == 7 * (q + 1);
      assert n + 6 == 7 * (q + 1) + (r - 1);
    }
  }

  /** The grid holds the cells in order and nothing else, over the fewest
      weeks, each cell in the column of its week and the row of its weekday. */
  lemma GridMeaning(data: seq<Cell>, startDay: nat, weeks: seq<seq<Slot>>)
    requires startDay <= 6 && |data| > 0
    requires forall w | w in weeks :: |w| == 7
    requires Flatten(weeks) == Blanks(startDay) + Filled(data) + Blanks(TailPad(startDay + |data|))
    ensures |weeks| == (startDay + |data| + 6) / 7
    ensures Present(Flatten(weeks)) == data
    ensures forall k :: 0 <= k < |data| ==>
      (startDay + k) / 7 < |weeks| && weeks[(startDay + k) / 7][(startDay + k) % 7] == Some(data[k])
  {
    GridWeeks(weeks, startDay, data, TailPad(startDay + |data|));
    GridPresent(startDay, data, TailPad(startDay + |data|));
    forall k | 0 <= k < |data|
      ensures (startDay + k) / 7 < |weeks| && weeks[(startDay + k) / 7][(startDay + k) % 7] == Some(data[k])
    {
      GridSlot(weeks, startDay, data, TailPad(startDay + |data|), k);
    }
  }

  lemma GridWeeks(weeks: seq<seq<Slot>>, a: nat, data: seq<Cell>, b: nat)
    requires a + |data| > 0 && b == TailPad(a + |data|)
    requires forall w | w in weeks :: |w| == 7
    requires Flatten(weeks) == Blanks(a) + Filled(data) + Blanks(b)
    ensures |weeks| == (a + |data| + 6) / 7
  {
    FlattenLength(weeks);
    WeeksOfSlots(a + |data|, |weeks|);
  }

  lemma GridPresent(a: nat, data: seq<Cell>, b: nat)
    ensures Present(Blanks(a) + Filled(data) + Blanks(b)) == data
  {
    PresentAppend(Blanks(a) + Filled(data), Blanks(b));
    PresentAppend(Blanks(a), Filled(data));
    PresentBlanks(a);
    PresentBlanks(b);
    PresentFilled(data);
  }

  lemma GridSlot(weeks: seq<seq<Slot>>, a: nat, data: seq<Cell>, b: nat, k: nat)
    requires forall w | w in weeks :: |w| == 7
    requires Flatten(weeks) == Blanks(a) + Filled(data) + Blanks(b)
    requires k < |data|
    ensures (a + k) / 7 < |weeks| && weeks[(a + k) / 7][(a + k) % 7] == Some(data[k])
  {
    var w, j := WeekAndDay(a + k);
    FlattenLength(weeks);
    SlotOfCell(a, data, b, k);
    FlattenIndex(weeks, w, j);
  }

  /** Slot `n` is day `n % 7` of week `n / 7`. */
  lemma WeekAndDay(n: nat) returns (w: nat, j: nat)
    ensures w == n / 7 && j == n % 7 && 7 * w + j == n && j < 7
  {
    w, j := n / 7, n % 7;
  }

  /** Cell `k` is slot `a + k` of the padded run. */
  lemma SlotOfCell(a: nat, data: seq<Cell>, b: nat, k: nat)
    requires k < |data|
    ensures a + k < |Blanks(a) + Filled(data) + Blanks(b)|
    ensures (Blanks(a) + Filled(data) + Blanks(b))[a + k] == Some(data[k])
  {
    assert (Blanks(a) + Filled(data))[a + k] == Filled(data)[k];
  }

  /** The grid of a year's heatmap, started on the weekday of January 1: each
      cell of the year's run of days sits in the row of its own weekday. */
  method YearWeeks(report: Report) returns (weeks: seq<seq<Slot>>)
    requires report.year >= 1
    ensures Present(Flatten(weeks)) == report.cells
    ensures forall k :: 0 <= k < |report.cells| && report.cells[k].date == Jan1(report.year) + k ==>
      (Weekday(Jan1(report.year)) + k) / 7 < |weeks| && |weeks[(Weekday(Jan1(report.year)) + k) / 7]| == 7
      && weeks[(Weekday(Jan1(report.year)) + k) / 7][Weekday(report.cells[k].date)] == Some(report.cells[k])
  {
    var start := Weekday(Jan1(report.year));
    weeks := BuildWeeks(report.cells, start);
    WeekdayRows(report, weeks);
  }

  lemma WeekdayRows(report: Report, weeks: seq<seq<Slot>>)
    requires report.year >= 1
    requires forall w | w in weeks :: |w| == 7
    requires var start := Weekday(Jan1(report.year));
      forall k :: 0 <= k < |report.cells| ==>
        (start + k) / 7 < |weeks| && weeks[(start + k) / 7][(start + k) % 7] == Some(report.cells[k])
    ensures forall k :: 0 <= k < |report.cells| && report.cells[k].date == Jan1(report.year) + k ==>
      (Weekday(Jan1(report.year)) + k) / 7 < |weeks| && |weeks[(Weekday(Jan1(report.year)) + k) / 7]| == 7
      && weeks[(Weekday(Jan1(report.year)) + k) / 7][Weekday(report.cells[k].date)] == Some(report.cells[k])
  {
    var start := Weekday(Jan1(report.year));
    forall k | 0 <= k < |report.cells| && report.cells[k].date == Jan1(report.year) + k
      ensures (start + k) / 7 < |weeks| && |weeks[(start + k) / 7]| == 7
      ensures weeks[(start + k) / 7][Weekday(report.cells[k].date)] == Some(report.cells[k])
    {
      WeekdayAdvance(Jan1(report.year), k);
      assert weeks[(start + k) / 7] in weeks;
    }
  }

  /** `k` days after a day, the weekday has advanced by `k` modulo 7. */
  lemma WeekdayAdvance(d: Day, k: nat)
    ensures Weekday(d + k) == (Weekday(d) + k) % 7
  {
    var q, r := (d + 1) / 7, (d + 1) % 7;
    assert d + 1 + k == 7 * q + (r + k);
    assert (d + 1 + k) % 7 == (r + k) % 7 by {
      LemmaModShift(q, r + k);
    }
  }

  lemma LemmaModShift(q: nat, x: nat)
    ensures (7 * q + x) % 7 == x % 7
  {
    var a, b := x / 7, x % 7;
    assert 7 * q + x == 7 * (q + a) + b;
  }

  // ---- Month labels ----

  /** A month label: the month (January being 0) over the week it starts in. */
  datatype MonthLabel = MonthLabel(month: int, weekIndex: nat)

  /** A slot holding the first day of a month. */
  predicate StartsMonth(s: Slot) {
    s.Some? && DayOfMonth(s.value.date) == 1
  }

  function LabelOf(s: Slot, w: nat): MonthLabel
    requires s.Some?
  {
    MonthLabel(MonthOf(s.value.date) - 1, w)
  }

  /** The labels of week `w`'s slots, in row order. */
  function WeekLabels(week: seq<Slot>, w: nat): seq<MonthLabel> {
    if |week| == 0 then []
    else WeekLabels(week[..|week| - 1], w) + (if StartsMonth(week[|week| - 1]) then [LabelOf(week[|week| - 1], w)] else [])
  }

  /** `monthLabels`: a label for each first day of a month in the grid,
      column by column. */
  function MonthLabels(weeks: seq<seq<Slot>>): seq<MonthLabel> {
    if |weeks| == 0 then []
    else MonthLabels(weeks[..|weeks| - 1]) + WeekLabels(weeks[|weeks| - 1], |weeks| - 1)
  }

  lemma {:induction false} WeekLabelsFrom(week: seq<Slot>, w: nat, j: nat)
    requires j < |week| && StartsMonth(week[j])
    ensures LabelOf(week[j], w) in WeekLabels(week, w)
  {
    if j < |week| - 1 {
      WeekLabelsFrom(week[..|week| - 1], w, j);
    }
  }

  /** Each first day of a month in the grid gets its label over its week. */
  lemma {:induction false} LabelForEveryFirst(weeks: seq<seq<Slot>>, w: nat, j: nat)
    requires w < |weeks| && j < |weeks[w]| && StartsMonth(weeks[w][j])
    ensures LabelOf(weeks[w][j], w) in MonthLabels(weeks)
  {
    if w < |weeks| - 1 {
      LabelForEveryFirst(weeks[..|weeks| - 1], w, j);
    } else {
      WeekLabelsFrom(weeks[w], w, j);
    }
  }

  lemma {:induction false} WeekLabelSource(week: seq<Slot>, w: nat, i: nat) returns (j: nat)
    requires i < |WeekLabels(week, w)|
    ensures j < |week| && StartsMonth(week[j]) && WeekLabels(week, w)[i] == LabelOf(week[j], w)
  {
    var front := week[..|week| - 1];
    if i < |WeekLabels(front, w)| {
      j := WeekLabelSource(front, w, i);
    } else {
      j := |week| - 1;
    }
  }

  /** Every label stands over a week holding the first day of its month. */
  lemma {:induction false} LabelSource(weeks: seq<seq<Slot>>, i: nat) returns (j: nat)
    requires i < |MonthLabels(weeks)|
    ensures var l := MonthLabels(weeks)[i];
      l.weekIndex < |weeks| && j < |weeks[l.weekIndex]| && StartsMonth(weeks[l.weekIndex][j])
      && l == LabelOf(weeks[l.weekIndex][j], l.weekIndex)
  {
    var front := weeks[..|weeks| - 1];
    if i < |MonthLabels(front)| {
      j := LabelSource(front, i);
    } else {
      j := WeekLabelSource(weeks[|weeks| - 1], |weeks| - 1, i - |MonthLabels(front)|);
    }
  }

  lemma {:induction false} WeekLabelsAt(week: seq<Slot>, w: nat)
    ensures forall l | l in WeekLabels(week, w) :: l.weekIndex == w
  {
    if |week| > 0 {
      WeekLabelsAt(week[..|week| - 1], w);
    }
  }

  /** The labels run from left to right: their week indexes never decrease,
      and all lie within the grid. */
  lemma {:induction false} LabelsLeftToRight(weeks: seq<seq<Slot>>)
    ensures forall l | l in MonthLabels(weeks) :: l.weekIndex < |weeks|
    ensures forall i, j :: 0 <= i < j < |MonthLabels(weeks)| ==> MonthLabels(weeks)[i].weekIndex <= MonthLabels(weeks)[j].weekIndex
  {
    if |weeks| > 0 {
      var front := weeks[..|weeks| - 1];
      LabelsLeftToRight(front);
      WeekLabelsAt(weeks[|weeks| - 1], |weeks| - 1);
      var a: seq<MonthLabel>, b: seq<MonthLabel> := MonthLabels(front), WeekLabels(weeks[|weeks| - 1], |weeks| - 1);
      assert MonthLabels(weeks) == a + b;
      forall i, j | 0 <= i < j < |a + b|
        ensures (a + b)[i].weekIndex <= (a + b)[j].weekIndex
      {
        if j >= |a| {
          assert (a + b)[j] in b;
          if i < |a| {
            assert (a + b)[i] in a;
          } else {
            assert (a + b)[i] in b;
          }
        }
      }
    }
  }
}
