/**
 Retrospective views (backend/controllers/memoryController.js): the entries
 written on today's month and day in earlier years, one random entry, and the
 timeline, a page of entries newest first grouped by (year, month) together
 with the list of years the user has written in.
 */
module Memories {
  import opened Results
  import opened Calendar
  import opened EntryModel
  import opened Queries
  import Sorting
  import Pagination

  /** `ORDER BY date DESC`; entries of the same date keep their storage order. */
  function NewestFirst(e: Entry): Sorting.Key {
    Sorting.Key(-(e.date as int), 0)
  }

  lemma NewestFirstOrder(s: seq<Entry>)
    requires Sorting.SortedBy(s, NewestFirst)
    ensures DatesDescend(s)
  {
    forall i, j | 0 <= i < j < |s|
      ensures s[i].date >= s[j].date
    {
      assert Sorting.KeyLe(NewestFirst(s[i]), NewestFirst(s[j]));
    }
  }

  // ---- On this day ----

  /** Same month and day as `today`, in an earlier year. */
  predicate SameDayEarlierYear(d: Day, today: Day) {
    MonthOf(d) == MonthOf(today) && DayOfMonth(d) == DayOfMonth(today) && YearOf(d) < YearOf(today)
  }

  datatype Memory = Memory(entry: Entry, yearsAgo: int)

  function EarlierOnThisDay(s: seq<Entry>, today: Day): seq<Entry> {
    Select(s, (e: Entry) => SameDayEarlierYear(e.date, today))
  }

  /** Each entry with the number of years between its year and the year of `today`. */
  function Annotate(ordered: seq<Entry>, today: Day): (r: seq<Memory>)
    ensures |r| == |ordered|
    ensures forall i :: 0 <= i < |r| ==> r[i].entry == ordered[i]
    ensures forall i :: 0 <= i < |r| ==> r[i].yearsAgo == YearOf(today) - YearOf(ordered[i].date)
  {
    seq(|ordered|, i requires 0 <= i < |ordered| => Memory(ordered[i], YearOf(today) - YearOf(ordered[i].date)))
  }

  /** `onThisDay`: the matching entries newest first, each with how many years ago it was written. */
  function OnThisDay(store: Store, user: Id, today: Day): seq<Memory> {
    Annotate(Sorting.SortBy(EarlierOnThisDay(OfUser(store.entries, user), today), NewestFirst), today)
  }

  /** Exactly the user's entries of today's month and day in earlier years, each
      once, newest first, so that `yearsAgo` (at least 1) never decreases. */
  lemma OnThisDayMeaning(store: Store, user: Id, today: Day)
    ensures var r := OnThisDay(store, user, today);
      var mine := OfUser(store.entries, user);
      && (forall m | m in r :: m.entry in mine && SameDayEarlierYear(m.entry.date, today)
                                && m.yearsAgo == YearOf(today) - YearOf(m.entry.date) >= 1)
      && (forall e | e in mine && SameDayEarlierYear(e.date, today) :: exists i :: 0 <= i < |r| && r[i].entry == e)
      && |r| == |EarlierOnThisDay(mine, today)|
      && (forall i, j :: 0 <= i < j < |r| ==> r[i].entry.date >= r[j].entry.date && r[i].yearsAgo <= r[j].yearsAgo)
  {
    var mine := OfUser(store.entries, user);
    var matching := EarlierOnThisDay(mine, today);
    var ordered := Sorting.SortBy(matching, NewestFirst);
    var r := Annotate(ordered, today);
    assert |ordered| == |multiset(ordered)| == |matching|;
    MemoriesMembers(ordered, matching, mine, today);
    MemoriesOrder(ordered, today);
  }

  lemma MemoriesMembers(ordered: seq<Entry>, matching: seq<Entry>, mine: seq<Entry>, today: Day)
    requires matching == EarlierOnThisDay(mine, today)
    requires multiset(ordered) == multiset(matching)
    ensures var r := Annotate(ordered, today);
      && (forall m | m in r :: m.entry in mine && SameDayEarlierYear(m.entry.date, today))
      && (forall e | e in mine && SameDayEarlierYear(e.date, today) :: exists i :: 0 <= i < |r| && r[i].entry == e)
  {
    var r := Annotate(ordered, today);
    forall m | m in r
      ensures m.entry in mine && SameDayEarlierYear(m.entry.date, today)
    {
      var i :| 0 <= i < |r| && r[i] == m;
      assert ordered[i] in multiset(matching);
    }
    forall e | e in mine && SameDayEarlierYear(e.date, today)
      ensures exists i :: 0 <= i < |r| && r[i].entry == e
    {
      assert e in matching;
      assert e in multiset(ordered);
      var i :| 0 <= i < |ordered| && ordered[i] == e;
      assert r[i].entry == e;
    }
  }

  lemma MemoriesOrder(ordered: seq<Entry>, today: Day)
    requires Sorting.SortedBy(ordered, NewestFirst)
    ensures var r := Annotate(ordered, today);
      forall i, j :: 0 <= i < j < |r| ==> r[i].entry.date >= r[j].entry.date && r[i].yearsAgo <= r[j].yearsAgo
  {
    var r := Annotate(ordered, today);
    NewestFirstOrder(ordered);
    forall i, j | 0 <= i < j < |r|
      ensures r[i].entry.date >= r[j].entry.date && r[i].yearsAgo <= r[j].yearsAgo
    {
      YearMonotone(ordered[j].date, ordered[i].date);
    }
  }

  // ---- Random memory ----

  /** `randomMemory`: the store's random order is the parameter `pick`. */
  function RandomMemory(store: Store, user: Id, pick: nat): (r: Option<Entry>)
    ensures r.None? <==> |OfUser(store.entries, user)| == 0
    ensures r.Some? ==> r.value in OfUser(store.entries, user)
  {
    var mine := OfUser(store.entries, user);
    if |mine| == 0 then None else Some(mine[pick % |mine|])
  }

  /** Every entry of the user can come up. */
  lemma RandomMemoryReachesAll(store: Store, user: Id, e: Entry)
    requires e in OfUser(store.entries, user)
    ensures exists pick: nat :: RandomMemory(store, user, pick) == Some(e)
  {
    var mine := OfUser(store.entries, user);
    var i := PickOf(mine, e);
    assert RandomMemory(store, user, i) == Some(mine[i % |mine|]);
  }

  /** A pick that lands on `e`. */
  lemma PickOf(mine: seq<Entry>, e: Entry) returns (i: nat)
    requires e in mine
    ensures |mine| > 0 && mine[i % |mine|] == e
  {
    i :| i < |mine| && mine[i] == e;
    assert i % |mine| == i;
  }

  // ---- Timeline ----

  const TimelineDefaultLimit := 50
  const TimelineMaxFetch := 100

  /** The `YYYY-MM` key an entry is grouped under. */
  datatype MonthKey = MonthKey(year: int, month: int)

  function KeyOf(e: Entry): MonthKey {
    MonthKey(YearOf(e.date), MonthOf(e.date))
  }

  datatype TimelineGroup = TimelineGroup(key: MonthKey, entries: seq<Entry>)

  /** Append an entry to the group of its key, opening a group at the end when there is none. */
  function AddTo(groups: seq<TimelineGroup>, e: Entry): seq<TimelineGroup> {
    if |groups| == 0 then [TimelineGroup(KeyOf(e), [e])]
    else if groups[0].key == KeyOf(e) then [groups[0].(entries := groups[0].entries + [e])] + groups[1..]
    else [groups[0]] + AddTo(groups[1..], e)
  }

  /** The grouping loop over the fetched entries; groups appear in the order of their first entry. */
  function GroupByMonth(s: seq<Entry>): seq<TimelineGroup>
    decreases |s|
  {
    if |s| == 0 then [] else AddTo(GroupByMonth(s[..|s| - 1]), s[|s| - 1])
  }

  /** The entries of the first group with key `k`, or none. */
  function GroupFor(groups: seq<TimelineGroup>, k: MonthKey): seq<Entry> {
    if |groups| == 0 then []
    else if groups[0].key == k then groups[0].entries
    else GroupFor(groups[1..], k)
  }

  function InMonth(s: seq<Entry>, k: MonthKey): seq<Entry> {
    Select(s, (e: Entry) => KeyOf(e) == k)
  }

  ghost predicate KeysDistinct(groups: seq<TimelineGroup>) {
    forall i, j :: 0 <= i < j < |groups| ==> groups[i].key != groups[j].key
  }

  ghost predicate NonEmptyGroups(groups: seq<TimelineGroup>) {
    forall g | g in groups :: |g.entries| > 0
  }

  function GroupKeys(groups: seq<TimelineGroup>): set<MonthKey> {
    set g | g in groups :: g.key
  }

  lemma TailKeysDistinct(groups: seq<TimelineGroup>)
    requires |groups| > 0 && KeysDistinct(groups)
    ensures KeysDistinct(groups[1..])
    ensures groups[0].key !in GroupKeys(groups[1..])
    ensures GroupKeys(groups) == {groups[0].key} + GroupKeys(groups[1..])
  {
    var tail := groups[1..];
    forall i, j | 0 <= i < j < |tail|
      ensures tail[i].key != tail[j].key
    {
      assert tail[i] == groups[i + 1] && tail[j] == groups[j + 1];
    }
    forall g | g in tail
      ensures g.key != groups[0].key
    {
      var i :| 0 <= i < |tail| && tail[i] == g;
      assert groups[i + 1] == g;
    }
  }

  /** Adding an entry keeps one non-empty group per key and adds its key. */
  lemma {:induction false} AddToKeys(groups: seq<TimelineGroup>, e: Entry)
    requires KeysDistinct(groups) && NonEmptyGroups(groups)
    ensures KeysDistinct(AddTo(groups, e)) && NonEmptyGroups(AddTo(groups, e))
    ensures GroupKeys(AddTo(groups, e)) == GroupKeys(groups) + {KeyOf(e)}
    decreases |groups|
  {
    if |groups| > 0 {
      var tail := groups[1..];
      TailKeysDistinct(groups);
      if groups[0].key == KeyOf(e) {
        var g := groups[0].(entries := groups[0].entries + [e]);
        assert AddTo(groups, e) == [g] + tail;
        ConsKeys(g, tail);
      } else {
        AddToKeys(tail, e);
        ConsKeys(groups[0], AddTo(tail, e));
      }
    }
  }

  /** A non-empty group with a new key in front of groups with distinct keys. */
  lemma ConsKeys(g: TimelineGroup, rest: seq<TimelineGroup>)
    requires KeysDistinct(rest) && NonEmptyGroups(rest)
    requires |g.entries| > 0 && g.key !in GroupKeys(rest)
    ensures KeysDistinct([g] + rest) && NonEmptyGroups([g] + rest)
    ensures GroupKeys([g] + rest) == {g.key} + GroupKeys(rest)
  {
    var r := [g] + rest;
    forall i, j | 0 <= i < j < |r|
      ensures r[i].key != r[j].key
    {
      assert r[j] == rest[j - 1];
      if i > 0 {
        assert r[i] == rest[i - 1];
      } else {
        assert rest[j - 1] in rest;
      }
    }
  }

  /** Adding an entry appends it to its key's group and leaves the others alone. */
  lemma {:induction false} AddToGroupFor(groups: seq<TimelineGroup>, e: Entry, k: MonthKey)
    requires KeysDistinct(groups)
    ensures GroupFor(AddTo(groups, e), k) == GroupFor(groups, k) + (if KeyOf(e) == k then [e] else [])
    decreases |groups|
  {
    if |groups| > 0 {
      TailKeysDistinct(groups);
      if groups[0].key == KeyOf(e) {
        if k != KeyOf(e) {
          assert GroupFor(AddTo(groups, e), k) == GroupFor(groups[1..], k);
        }
      } else {
        AddToGroupFor(groups[1..], e, k);
      }
    }
  }

  lemma {:induction false} GroupForAbsent(groups: seq<TimelineGroup>, k: MonthKey)
    requires k !in GroupKeys(groups)
    ensures GroupFor(groups, k) == []
    decreases |groups|
  {
    if |groups| > 0 {
      assert groups[0] in groups;
      assert GroupKeys(groups[1..]) <= GroupKeys(groups);
      GroupForAbsent(groups[1..], k);
    }
  }

  /** With distinct keys, a group is what `GroupFor` finds under its key. */
  lemma {:induction false} GroupForMember(groups: seq<TimelineGroup>, g: TimelineGroup)
    requires KeysDistinct(groups) && g in groups
    ensures GroupFor(groups, g.key) == g.entries
    decreases |groups|
  {
    if groups[0] != g {
      var tail := groups[1..];
      assert g in tail;
      var i :| 0 <= i < |tail| && tail[i] == g;
      assert groups[i + 1] == g;
      assert KeysDistinct(tail) by {
        forall a, b | 0 <= a < b < |tail|
          ensures tail[a].key != tail[b].key
        {
          assert tail[a] == groups[a + 1] && tail[b] == groups[b + 1];
        }
      }
      GroupForMember(tail, g);
    }
  }

  lemma {:induction false} SelectSnoc(s: seq<Entry>, x: Entry, p: Entry -> bool)
    ensures Select(s + [x], p) == Select(s, p) + (if p(x) then [x] else [])
    decreases |s|
  {
    if |s| > 0 {
      assert (s + [x])[1..] == s[1..] + [x];
      SelectSnoc(s[1..], x, p);
    }
  }

  /** The grouping: one group per (year, month) key, none empty, and the group
      of each key holds exactly the entries of that month, in fetch order. */
  lemma {:induction false} GroupByMonthMeaning(s: seq<Entry>)
    ensures KeysDistinct(GroupByMonth(s)) && NonEmptyGroups(GroupByMonth(s))
    ensures GroupKeys(GroupByMonth(s)) == set e | e in s :: KeyOf(e)
    ensures forall k :: GroupFor(GroupByMonth(s), k) == InMonth(s, k)
    decreases |s|
  {
    if |s| == 0 {
      forall k
        ensures GroupFor([], k) == InMonth(s, k)
      {
        assert InMonth(s, k) == [];
      }
    } else {
      var init, x := s[..|s| - 1], s[|s| - 1];
      assert s == init + [x];
      GroupByMonthMeaning(init);
      GroupStep(GroupByMonth(init), init, x);
    }
  }

  /** One step of the grouping loop keeps the grouping's meaning. */
  lemma GroupStep(gs: seq<TimelineGroup>, init: seq<Entry>, x: Entry)
    requires KeysDistinct(gs) && NonEmptyGroups(gs)
    requires GroupKeys(gs) == set e | e in init :: KeyOf(e)
    requires forall k :: GroupFor(gs, k) == InMonth(init, k)
    ensures KeysDistinct(AddTo(gs, x)) && NonEmptyGroups(AddTo(gs, x))
    ensures GroupKeys(AddTo(gs, x)) == set e | e in init + [x] :: KeyOf(e)
    ensures forall k :: GroupFor(AddTo(gs, x), k) == InMonth(init + [x], k)
  {
    AddToKeys(gs, x);
    KeysSnoc(init, x);
    forall k
      ensures GroupFor(AddTo(gs, x), k) == InMonth(init + [x], k)
    {
      AddToGroupFor(gs, x, k);
      SelectSnoc(init, x, (e: Entry) => KeyOf(e) == k);
    }
  }

  lemma KeysSnoc(init: seq<Entry>, x: Entry)
    ensures (set e | e in init + [x] :: KeyOf(e)) == (set e | e in init :: KeyOf(e)) + {KeyOf(x)}
  {
    assert forall e :: e in init + [x] <==> e in init || e == x;
  }

  ghost predicate DatesDescend(s: seq<Entry>) {
    forall i, j :: 0 <= i < j < |s| ==> s[i].date >= s[j].date
  }

  /** Selecting from a newest-first sequence keeps it newest first. */
  lemma {:induction false} SelectKeepsOrder(s: seq<Entry>, p: Entry -> bool)
    requires DatesDescend(s)
    ensures DatesDescend(Select(s, p))
    decreases |s|
  {
    if |s| > 0 {
      var tail := s[1..];
      forall i, j | 0 <= i < j < |tail|
        ensures tail[i].date >= tail[j].date
      {
        assert tail[i] == s[i + 1] && tail[j] == s[j + 1];
      }
      SelectKeepsOrder(tail, p);
      var r := Select(s, p);
      var rest := Select(tail, p);
      assert DatesDescend(rest);
      if p(s[0]) {
        assert r == [s[0]] + rest;
        forall i, j | 0 <= i < j < |r|
          ensures r[i].date >= r[j].date
        {
          assert r[j] == rest[j - 1] && rest[j - 1] in tail;
          var k :| 0 <= k < |tail| && tail[k] == rest[j - 1];
          assert s[k + 1] == r[j];
          if i > 0 {
            assert r[i] == rest[i - 1];
            assert rest[i - 1].date >= rest[j - 1].date;
          } else {
            assert s[0].date >= s[k + 1].date;
          }
        }
      } else {
        assert r == rest;
      }
    }
  }

  // ---- Years ----

  /** Adjacent duplicates dropped. */
  function Dedup(ys: seq<int>): seq<int> {
    if |ys| <= 1 then ys
    else if ys[0] == ys[1] then Dedup(ys[1..])
    else [ys[0]] + Dedup(ys[1..])
  }

  lemma {:induction false} DedupMeaning(ys: seq<int>)
    requires forall i, j :: 0 <= i < j < |ys| ==> ys[i] >= ys[j]
    ensures var r := Dedup(ys);
      && (forall i, j :: 0 <= i < j < |r| ==> r[i] > r[j])
      && (forall y :: y in r <==> y in ys)
      && (|ys| > 0 ==> |r| > 0 && r[0] == ys[0])
    decreases |ys|
  {
    if |ys| > 1 {
      var tail := ys[1..];
      forall i, j | 0 <= i < j < |tail|
        ensures tail[i] >= tail[j]
      {
        assert tail[i] == ys[i + 1] && tail[j] == ys[j + 1];
      }
      DedupMeaning(tail);
      var rest := Dedup(tail);
      if ys[0] != ys[1] {
        var r := Dedup(ys);
        assert r == [ys[0]] + rest;
        forall i, j | 0 <= i < j < |r|
          ensures r[i] > r[j]
        {
          assert r[j] == rest[j - 1] && rest[j - 1] in tail;
          var k :| 0 <= k < |tail| && tail[k] == rest[j - 1];
          assert ys[k + 1] == r[j];
          if i > 0 {
            assert r[i] == rest[i - 1];
          } else {
            assert ys[0] >= ys[1] >= ys[k + 1];
          }
        }
      }
    }
  }

  function YearList(s: seq<Entry>): (r: seq<int>)
    ensures |r| == |s| && forall i :: 0 <= i < |s| ==> r[i] == YearOf(s[i].date)
  {
    seq(|s|, i requires 0 <= i < |s| => YearOf(s[i].date))
  }

  /** The distinct years of the user's entries, latest first. */
  function Years(mine: seq<Entry>): seq<int> {
    Dedup(YearList(Sorting.SortBy(mine, NewestFirst)))
  }

  lemma YearsMeaning(mine: seq<Entry>)
    ensures var r := Years(mine);
      && (forall i, j :: 0 <= i < j < |r| ==> r[i] > r[j])
      && (forall y :: y in r <==> exists e | e in mine :: YearOf(e.date) == y)
  {
    var ordered := Sorting.SortBy(mine, NewestFirst);
    NewestFirstOrder(ordered);
    YearsDescend(ordered);
    DedupMeaning(YearList(ordered));
    YearListCovers(ordered, mine);
  }

  /** The years of entries with descending dates descend too. */
  lemma YearsDescend(ordered: seq<Entry>)
    requires DatesDescend(ordered)
    ensures var ys := YearList(ordered); forall i, j :: 0 <= i < j < |ys| ==> ys[i] >= ys[j]
  {
    forall i, j | 0 <= i < j < |ordered|
      ensures YearOf(ordered[i].date) >= YearOf(ordered[j].date)
    {
      YearMonotone(ordered[j].date, ordered[i].date);
    }
  }

  /** A reordering has the same years. */
  lemma YearListCovers(ordered: seq<Entry>, mine: seq<Entry>)
    requires multiset(ordered) == multiset(mine)
    ensures forall y :: y in YearList(ordered) <==> exists e | e in mine :: YearOf(e.date) == y
  {
    var ys := YearList(ordered);
    forall y
      ensures y in ys <==> exists e | e in mine :: YearOf(e.date) == y
    {
      if y in ys {
        var i :| 0 <= i < |ys| && ys[i] == y;
        assert ordered[i] in multiset(ordered);
      }
      if exists e | e in mine :: YearOf(e.date) == y {
        var e :| e in mine && YearOf(e.date) == y;
        assert e in multiset(ordered);
        var i :| 0 <= i < |ordered| && ordered[i] == e;
        assert ys[i] == y;
      }
    }
  }

  // ---- The timeline request ----

  /** The optional `year` filter: dates from January 1 to December 31 of that year. */
  predicate InYearFilter(e: Entry, year: Option<int>)
    requires year.Some? ==> year.value >= 1
  {
    year.None? || Jan1(year.value) <= e.date <= Dec31(year.value)
  }

  function Matching(mine: seq<Entry>, year: Option<int>): seq<Entry>
    requires year.Some? ==> year.value >= 1
  {
    Select(mine, (e: Entry) => InYearFilter(e, year))
  }

  /** A `LIMIT` and `OFFSET` sent to the store. */
  datatype Fetch = Fetch(limit: int, offset: int)

  /** The fetch as the handler writes it: the limit is capped at 100, but the
      offset is computed from the limit as given. */
  function TimelineFetch(page: int, limit: int): (f: Fetch)
    ensures f.limit <= TimelineMaxFetch
    ensures f.offset == (Max(1, page) - 1) * limit
    ensures limit >= 0 ==> f.offset >= 0 && f.limit >= 0
  {
    if limit >= 0 then
      Pagination.LemmaMulLe(0, Max(1, page) - 1, limit);
      Fetch(Min(TimelineMaxFetch, limit), (Max(1, page) - 1) * limit)
    else
      Fetch(Min(TimelineMaxFetch, limit), (Max(1, page) - 1) * limit)
  }

  /** With a limit above 100 the offsets as written step by the requested
      limit while each page holds only 100 rows: with limit 200, row 100
      (counting from 0) is on no page. The capped offset puts it on page 2.
      The page count as written also divides by the requested limit: 150 rows
      make one page of 200, although a page holds only 100 of them. */
  lemma TimelineSkipsRows(page: int)
    ensures var f := TimelineFetch(page, 200);
      f.limit == 100 && !(f.offset <= 100 < f.offset + f.limit)
    ensures var g := ClampedTimelineFetch(2, 200);
      g.offset <= 100 < g.offset + g.limit
    ensures Pagination.CeilPages(150, 200) == Finite(1)
    ensures Pagination.CeilPages(150, ClampedTimelineFetch(1, 200).limit) == Finite(2)
  {
    var p := Max(1, page);
    assert (p - 1) * 200 == 200 * p - 200;
  }

  /** The fetch with the offset computed from the capped limit, as the paging
      of entry lists does. It differs from the fetch as written only for limits
      above 100. */
  function ClampedTimelineFetch(page: int, limit: int): (f: Fetch)
    ensures f.limit <= TimelineMaxFetch && f.limit <= limit
    ensures limit <= TimelineMaxFetch ==> f == TimelineFetch(page, limit)
    ensures limit >= 1 ==> 1 <= f.limit <= TimelineMaxFetch && f.offset >= 0 && f.offset % f.limit == 0
  {
    var l := Min(TimelineMaxFetch, limit);
    if l >= 1 then
      Pagination.LemmaMulLe(0, Max(1, page) - 1, l);
      Pagination.LemmaMulDiv(Max(1, page) - 1, l);
      Fetch(l, (Max(1, page) - 1) * l)
    else
      Fetch(l, (Max(1, page) - 1) * l)
  }

  /** With the capped offset, row `k` of `count` matching rows is on exactly one
      page, and that page is within the reported page count. */
  lemma ClampedFetchReachesEveryRow(k: nat, count: nat, limit: int)
    requires limit >= 1 && k < count
    ensures var l := Min(TimelineMaxFetch, limit);
      var p := k / l + 1;
      var f := ClampedTimelineFetch(p, limit);
      && f.offset <= k < f.offset + f.limit
      && Pagination.CeilPages(count, l).Finite? && p <= Pagination.CeilPages(count, l).n
      && (forall q :: q >= 1 && ClampedTimelineFetch(q, limit).offset <= k < ClampedTimelineFetch(q, limit).offset + l ==> q == p)
  {
    var l := Min(TimelineMaxFetch, limit);
    var p := k / l + 1;
    Pagination.RowPage(k, l, p);
    var n := Pagination.CeilPages(count, l).n;
    if p > n {
      Pagination.LemmaMulLe(n, p - 1, l);
    }
    forall q | q >= 1 && ClampedTimelineFetch(q, limit).offset <= k < ClampedTimelineFetch(q, limit).offset + l
      ensures q == p
    {
      Pagination.RowPage(k, l, q);
    }
  }

  datatype Timeline = Timeline(
    groups: seq<TimelineGroup>,
    years: seq<int>,
    total: nat,
    page: int,
    limit: int,
    pages: JsNumber)

  /** `timeline`. A negative `LIMIT` or `OFFSET` is refused by the store. */
  function TimelineOf(store: Store, user: Id, year: Option<int>, page: int, limit: int): (r: Result<Timeline>)
    requires year.Some? ==> year.value >= 1
    ensures r.Err? <==> limit < 0
    ensures r.Err? ==> r.failure == StoreFailure
  {
    var mine := OfUser(store.entries, user);
    var matching := Matching(mine, year);
    var f := ClampedTimelineFetch(page, limit);
    if f.limit < 0 || f.offset < 0 then Err(StoreFailure)
    else
      var rows := Pagination.Slice(Sorting.SortBy(matching, NewestFirst), f.offset, f.limit);
      Ok(Timeline(GroupByMonth(rows), Years(mine), |matching|, page, limit,
                  Pagination.CeilPages(|matching|, f.limit)))
  }

  /** The rows a timeline page shows, newest first. */
  function PageRows(store: Store, user: Id, year: Option<int>, page: int, limit: int): seq<Entry>
    requires year.Some? ==> year.value >= 1
    requires limit >= 0
  {
    var f := ClampedTimelineFetch(page, limit);
    Pagination.Slice(Sorting.SortBy(Matching(OfUser(store.entries, user), year), NewestFirst), f.offset, f.limit)
  }

  /** A timeline page: at most 100 rows and no more than `limit`, all the
      user's and in the year filter, newest first; each (year, month) of the
      page has one group holding exactly that month's rows of the page, newest
      first; the years list and the total cover all matching entries. */
  lemma TimelineMeaning(store: Store, user: Id, year: Option<int>, page: int, limit: int)
    requires year.Some? ==> year.value >= 1
    requires limit >= 0
    ensures var r := TimelineOf(store, user, year, page, limit);
      var mine := OfUser(store.entries, user);
      var rows := PageRows(store, user, year, page, limit);
      && r.Ok?
      && |rows| <= Min(TimelineMaxFetch, limit)
      && (forall e | e in rows :: e in Matching(mine, year))
      && DatesDescend(rows)
      && KeysDistinct(r.value.groups) && NonEmptyGroups(r.value.groups)
      && (forall g | g in r.value.groups :: g.entries == InMonth(rows, g.key) && DatesDescend(g.entries))
      && (forall e | e in rows :: KeyOf(e) in GroupKeys(r.value.groups))
      && Concat(r.value.groups) == rows
      && r.value.total == |Matching(mine, year)|
      && r.value.pages == Pagination.CeilPages(|Matching(mine, year)|, Min(TimelineMaxFetch, limit))
      && (forall i, j :: 0 <= i < j < |r.value.years| ==> r.value.years[i] > r.value.years[j])
      && (forall y :: y in r.value.years <==> exists e | e in mine :: YearOf(e.date) == y)
  {
    var mine := OfUser(store.entries, user);
    var rows := PageRows(store, user, year, page, limit);
    PageRowsMeaning(store, user, year, page, limit);
    GroupsOfPage(rows);
    YearsMeaning(mine);
  }

  lemma PageRowsMeaning(store: Store, user: Id, year: Option<int>, page: int, limit: int)
    requires year.Some? ==> year.value >= 1
    requires limit >= 0
    ensures var rows := PageRows(store, user, year, page, limit);
      && |rows| <= Min(TimelineMaxFetch, limit)
      && (forall e | e in rows :: e in Matching(OfUser(store.entries, user), year))
      && DatesDescend(rows)
  {
    var matching := Matching(OfUser(store.entries, user), year);
    var f := ClampedTimelineFetch(page, limit);
    WindowOfSorted(matching, Sorting.SortBy(matching, NewestFirst), f.offset, f.limit);
  }

  /** A window of the newest-first ordering of `matching`. */
  lemma WindowOfSorted(matching: seq<Entry>, ordered: seq<Entry>, offset: nat, limit: nat)
    requires Sorting.SortedBy(ordered, NewestFirst) && multiset(ordered) == multiset(matching)
    ensures var rows := Pagination.Slice(ordered, offset, limit);
      && (forall e | e in rows :: e in matching)
      && DatesDescend(rows)
  {
    var rows := Pagination.Slice(ordered, offset, limit);
    NewestFirstOrder(ordered);
    WindowOfDescending(ordered, offset, limit);
    forall e | e in rows
      ensures e in matching
    {
      assert e in multiset(ordered);
    }
  }

  lemma WindowOfDescending(s: seq<Entry>, offset: nat, limit: nat)
    requires DatesDescend(s)
    ensures DatesDescend(Pagination.Slice(s, offset, limit))
    ensures forall e | e in Pagination.Slice(s, offset, limit) :: e in s
  {
    var w := Pagination.Slice(s, offset, limit);
    forall i, j | 0 <= i < j < |w|
      ensures w[i].date >= w[j].date
    {
      assert w[i] == s[offset + i] && w[j] == s[offset + j];
    }
    forall e | e in w
      ensures e in s
    {
      var i :| 0 <= i < |w| && w[i] == e;
      assert s[offset + i] == e;
    }
  }

  /** The groups of a newest-first page. */
  lemma GroupsOfPage(rows: seq<Entry>)
    requires DatesDescend(rows)
    ensures var groups := GroupByMonth(rows);
      && KeysDistinct(groups) && NonEmptyGroups(groups)
      && (forall g | g in groups :: g.entries == InMonth(rows, g.key) && DatesDescend(g.entries))
      && (forall e | e in rows :: KeyOf(e) in GroupKeys(groups))
      && Concat(groups) == rows
  {
    var groups := GroupByMonth(rows);
    GroupByMonthMeaning(rows);
    GroupsReproducePage(rows);
    forall g | g in groups
      ensures g.entries == InMonth(rows, g.key) && DatesDescend(g.entries)
    {
      GroupForMember(groups, g);
      SelectKeepsOrder(rows, (e: Entry) => KeyOf(e) == g.key);
    }
  }

  /** The groups' entries read one group after another (`Object.values(groups)`). */
  function Concat(groups: seq<TimelineGroup>): seq<Entry> {
    if |groups| == 0 then [] else groups[0].entries + Concat(groups[1..])
  }

  /** Adding an entry whose month is new or is the last group's appends it to
      the reading order, and its month becomes the last group's. */
  lemma {:induction false} AddToConcat(groups: seq<TimelineGroup>, e: Entry)
    requires KeysDistinct(groups)
    requires KeyOf(e) in GroupKeys(groups) ==> groups[|groups| - 1].key == KeyOf(e)
    ensures Concat(AddTo(groups, e)) == Concat(groups) + [e]
    ensures |AddTo(groups, e)| > 0 && AddTo(groups, e)[|AddTo(groups, e)| - 1].key == KeyOf(e)
    decreases |groups|
  {
    if |groups| == 0 {
    } else if groups[0].key == KeyOf(e) {
      assert groups[0] in groups;
      assert groups[|groups| - 1].key == groups[0].key;
      assert |groups| == 1;
      var g := groups[0].(entries := groups[0].entries + [e]);
      assert AddTo(groups, e) == [g];
      assert Concat([g]) == g.entries;
      assert Concat(groups) == groups[0].entries;
    } else {
      var tail := groups[1..];
      assert KeysDistinct(tail);
      if KeyOf(e) in GroupKeys(tail) {
        var t :| t in tail && t.key == KeyOf(e);
        assert t in groups;
        assert tail[|tail| - 1] == groups[|groups| - 1];
      }
      AddToConcat(tail, e);
      var rest := AddTo(tail, e);
      assert AddTo(groups, e) == [groups[0]] + rest;
      assert Concat([groups[0]] + rest) == groups[0].entries + Concat(rest) by {
        assert ([groups[0]] + rest)[1..] == rest;
      }
    }
  }

  /** Days in date order have month keys in the same order: a day between two
      days of one month is in that month. */
  lemma SameMonthBetween(d1: Day, d2: Day, d3: Day)
    requires d1 <= d2 <= d3
    requires YearOf(d1) == YearOf(d3) && MonthOf(d1) == MonthOf(d3)
    ensures YearOf(d2) == YearOf(d1) && MonthOf(d2) == MonthOf(d1)
  {
    YearMonthMonotone(d1, d2);
    YearMonthMonotone(d2, d3);
  }

  /** After newest-first rows, a row no newer than the last one whose month
      occurs among them shares the month of the last one. */
  lemma KnownMonthIsLast(init: seq<Entry>, x: Entry)
    requires |init| > 0 && x.date <= init[|init| - 1].date
    requires forall i :: 0 <= i < |init| ==> init[i].date >= init[|init| - 1].date
    requires KeyOf(x) in (set e | e in init :: KeyOf(e))
    ensures KeyOf(init[|init| - 1]) == KeyOf(x)
  {
    var e :| e in init && KeyOf(e) == KeyOf(x);
    var i :| 0 <= i < |init| && init[i] == e;
    SameMonthBetween(x.date, init[|init| - 1].date, e.date);
  }

  /** The keys of the grouping are distinct and are the months of the entries. */
  lemma GroupShape(s: seq<Entry>)
    ensures KeysDistinct(GroupByMonth(s))
    ensures GroupKeys(GroupByMonth(s)) == set e | e in s :: KeyOf(e)
  {
    GroupByMonthMeaning(s);
  }

  /** Dropping the last row of date-descending rows keeps them descending, and
      the dropped row is no newer than any other. */
  lemma DescendPrefix(rows: seq<Entry>)
    requires DatesDescend(rows) && |rows| > 0
    ensures DatesDescend(rows[..|rows| - 1])
    ensures forall i :: 0 <= i < |rows| - 1 ==> rows[i].date >= rows[|rows| - 2].date >= rows[|rows| - 1].date
  {
  }

  /** Grouping a newest-first page and reading the groups in order gives the
      page back, and the last group is the month of the last row. */
  lemma {:induction false} GroupsReproducePage(rows: seq<Entry>)
    requires DatesDescend(rows)
    ensures Concat(GroupByMonth(rows)) == rows
    ensures |rows| > 0 ==>
      (|GroupByMonth(rows)| > 0 && GroupByMonth(rows)[|GroupByMonth(rows)| - 1].key == KeyOf(rows[|rows| - 1]))
    decreases |rows|
  {
    if |rows| > 0 {
      var init, x := rows[..|rows| - 1], rows[|rows| - 1];
      DescendPrefix(rows);
      GroupsReproducePage(init);
      var gs := GroupByMonth(init);
      GroupShape(init);
      if KeyOf(x) in GroupKeys(gs) {
        KnownMonthIsLast(init, x);
      }
      AddToConcat(gs, x);
      assert init + [x] == rows;
    }
  }

  /** Two entries of one month fetched newest first form one group, in that order. */
  lemma SameMonthExample(a: Entry, b: Entry)
    requires KeyOf(a) == KeyOf(b)
    ensures GroupByMonth([a, b]) == [TimelineGroup(KeyOf(a), [a, b])]
  {
    assert [a][..0] == [];
    assert GroupByMonth([a]) == [TimelineGroup(KeyOf(a), [a])];
    assert [a, b][..1] == [a] && [a, b][1] == b;
    var g := [TimelineGroup(KeyOf(a), [a])];
    assert AddTo(g, b) == [TimelineGroup(KeyOf(a), [a] + [b])] + g[1..];
    assert [a] + [b] == [a, b];
  }
}
