/**
 The browser's entry store (frontend/src/store/entryStore.js): the current page
 of entries, its paging figures, the list filters, and a loading flag and error
 message. Every action hands a partial state to the store's `set`, which
 overwrites the keys it is given and keeps the others.
 */
module ClientStore {
  import opened Results
  import opened EntryModel
  import Pagination
  import Entries

  datatype PageInfo = PageInfo(total: int, page: int, limit: int, pages: int)

  datatype ListFilters = ListFilters(search: string, mood: string, tag: string, sortBy: string, order: string)

  datatype State = State(
    entries: seq<Entry>,
    pagination: PageInfo,
    filters: ListFilters,
    loading: bool,
    error: Option<string>)

  /** The state the store starts in. */
  const Initial: State := State(
    [],
    PageInfo(0, 1, 20, 0),
    ListFilters("", "", "", "date", "desc"),
    false,
    None)

  /** The store starts on the server's default page and page size, listing by
      date, newest first. */
  lemma InitialMatchesServerDefaults()
    ensures Initial.entries == [] && Initial.pagination.total == 0 && Initial.pagination.pages == 0
    ensures Pagination.Paginate(Initial.pagination.page, Initial.pagination.limit)
         == Pagination.Paginate(Pagination.DefaultPage, Pagination.DefaultLimit)
    ensures Entries.SortFieldOf(Initial.filters.sortBy) == Entries.ByDate
    ensures Entries.DirectionOf(Initial.filters.order) == Some(Entries.Descending)
  {
    assert Entries.Upper("desc") == "DESC";
  }

  // ---- The store's `set` ----

  /** A partial state: the keys an action sets. */
  datatype StatePatch = StatePatch(
    entries: Option<seq<Entry>>,
    pagination: Option<PageInfo>,
    filters: Option<ListFilters>,
    loading: Option<bool>,
    error: Option<Option<string>>)

  const NoPatch: StatePatch := StatePatch(None, None, None, None, None)

  /** `set(partial)`: the given keys take the new values, the rest are kept. */
  function Set(s: State, p: StatePatch): State {
    State(
      p.entries.GetOr(s.entries),
      p.pagination.GetOr(s.pagination),
      p.filters.GetOr(s.filters),
      p.loading.GetOr(s.loading),
      p.error.GetOr(s.error))
  }

  // ---- Actions ----

  /** `setEntries`: a fetched page of entries and its paging figures. */
  function SetEntries(s: State, entries: seq<Entry>, pagination: PageInfo): (r: State)
    ensures r.entries == entries && r.pagination == pagination
    ensures r.filters == s.filters && r.loading == s.loading && r.error == s.error
  {
    Set(s, NoPatch.(entries := Some(entries), pagination := Some(pagination)))
  }

  function SetLoading(s: State, loading: bool): (r: State)
    ensures r.loading == loading
    ensures r.entries == s.entries && r.pagination == s.pagination && r.filters == s.filters && r.error == s.error
  {
    Set(s, NoPatch.(loading := Some(loading)))
  }

  function SetError(s: State, error: Option<string>): (r: State)
    ensures r.error == error
    ensures r.entries == s.entries && r.pagination == s.pagination && r.filters == s.filters && r.loading == s.loading
  {
    Set(s, NoPatch.(error := Some(error)))
  }

  /** The filter keys a `setFilters` call names. */
  datatype FilterPatch = FilterPatch(
    search: Option<string>,
    mood: Option<string>,
    tag: Option<string>,
    sortBy: Option<string>,
    order: Option<string>)

  const NoFilterPatch: FilterPatch := FilterPatch(None, None, None, None, None)

  /** `{ ...filters, ...patch }`. */
  function MergeFilters(f: ListFilters, p: FilterPatch): ListFilters {
    ListFilters(
      p.search.GetOr(f.search),
      p.mood.GetOr(f.mood),
      p.tag.GetOr(f.tag),
      p.sortBy.GetOr(f.sortBy),
      p.order.GetOr(f.order))
  }

  /** `setFilters`: the named filter keys change, nothing else does. */
  function SetFilters(s: State, p: FilterPatch): (r: State)
    ensures r.entries == s.entries && r.pagination == s.pagination && r.loading == s.loading && r.error == s.error
    ensures r.filters == MergeFilters(s.filters, p)
  {
    Set(s, NoPatch.(filters := Some(MergeFilters(s.filters, p))))
  }

  /** Each filter key takes the patch's value when the patch names it, and
      keeps its value otherwise. */
  lemma SetFiltersKeepsOthers(s: State, p: FilterPatch)
    ensures var f := SetFilters(s, p).filters;
      && (p.search.None? ==> f.search == s.filters.search) && (p.search.Some? ==> f.search == p.search.value)
      && (p.mood.None? ==> f.mood == s.filters.mood) && (p.mood.Some? ==> f.mood == p.mood.value)
      && (p.tag.None? ==> f.tag == s.filters.tag) && (p.tag.Some? ==> f.tag == p.tag.value)
      && (p.sortBy.None? ==> f.sortBy == s.filters.sortBy) && (p.sortBy.Some? ==> f.sortBy == p.sortBy.value)
      && (p.order.None? ==> f.order == s.filters.order) && (p.order.Some? ==> f.order == p.order.value)
  {
  }

  /** Two patches in a row: the later one wins on the keys it names. */
  function ThenPatch(p: FilterPatch, q: FilterPatch): FilterPatch {
    FilterPatch(
      if q.search.Some? then q.search else p.search,
      if q.mood.Some? then q.mood else p.mood,
      if q.tag.Some? then q.tag else p.tag,
      if q.sortBy.Some? then q.sortBy else p.sortBy,
      if q.order.Some? then q.order else p.order)
  }

  /** An empty patch changes nothing, a patch applied twice is applied once,
      and two patches in a row are one combined patch. */
  lemma SetFiltersAlgebra(s: State, p: FilterPatch, q: FilterPatch)
    ensures SetFilters(s, NoFilterPatch) == s
    ensures SetFilters(SetFilters(s, p), p) == SetFilters(s, p)
    ensures SetFilters(SetFilters(s, p), q) == SetFilters(s, ThenPatch(p, q))
  {
  }

  /** `addEntry`: the new entry goes first. */
  function AddEntry(s: State, e: Entry): (r: State)
    ensures r.entries == [e] + s.entries
    ensures r.pagination == s.pagination && r.filters == s.filters && r.loading == s.loading && r.error == s.error
  {
    Set(s, NoPatch.(entries := Some([e] + s.entries)))
  }

  /** `entries.map(e => e.id === updated.id ? updated : e)`. */
  function Replace(xs: seq<Entry>, u: Entry): (r: seq<Entry>)
    ensures |r| == |xs|
    ensures forall i :: 0 <= i < |xs| ==> r[i] == (if xs[i].id == u.id then u else xs[i])
  {
    if |xs| == 0 then []
    else [if xs[0].id == u.id then u else xs[0]] + Replace(xs[1..], u)
  }

  /** `updateEntry`. */
  function UpdateEntry(s: State, u: Entry): (r: State)
    ensures r.entries == Replace(s.entries, u)
    ensures r.pagination == s.pagination && r.filters == s.filters && r.loading == s.loading && r.error == s.error
  {
    Set(s, NoPatch.(entries := Some(Replace(s.entries, u))))
  }

  /** An update keeps the list's ids in place and changes nothing when no item
      has the id. */
  lemma ReplaceKeepsIds(xs: seq<Entry>, u: Entry)
    ensures forall i :: 0 <= i < |xs| ==> Replace(xs, u)[i].id == xs[i].id
    ensures (forall x | x in xs :: x.id != u.id) ==> Replace(xs, u) == xs
  {
    if forall x | x in xs :: x.id != u.id {
      forall i | 0 <= i < |xs|
        ensures Replace(xs, u)[i] == xs[i]
      {
        assert xs[i] in xs;
      }
    }
  }

  /** A second identical update changes nothing more. */
  lemma ReplaceIdempotent(xs: seq<Entry>, u: Entry)
    ensures Replace(Replace(xs, u), u) == Replace(xs, u)
  {
    var r := Replace(xs, u);
    forall i | 0 <= i < |xs|
      ensures Replace(r, u)[i] == r[i]
    {
    }
  }

  /** The updated entry is in the list afterwards exactly when some item had its id. */
  lemma ReplaceHits(xs: seq<Entry>, u: Entry)
    ensures u in Replace(xs, u) <==> exists x | x in xs :: x.id == u.id
  {
    var r := Replace(xs, u);
    if exists x | x in xs :: x.id == u.id {
      var x :| x in xs && x.id == u.id;
      var i :| 0 <= i < |xs| && xs[i] == x;
      assert r[i] == u;
    }
    if u in r {
      var i :| 0 <= i < |r| && r[i] == u;
      assert xs[i].id == u.id;
      assert xs[i] in xs;
    }
  }

  /** `entries.filter(e => e.id !== id)`. */
  function Without(xs: seq<Entry>, id: Id): (r: seq<Entry>)
    ensures forall x :: x in r <==> x in xs && x.id != id
    ensures |r| <= |xs|
  {
    if |xs| == 0 then []
    else (if xs[0].id != id then [xs[0]] else []) + Without(xs[1..], id)
  }

  /** `removeEntry`. */
  function RemoveEntry(s: State, id: Id): (r: State)
    ensures r.entries == Without(s.entries, id)
    ensures r.pagination == s.pagination && r.filters == s.filters && r.loading == s.loading && r.error == s.error
  {
    Set(s, NoPatch.(entries := Some(Without(s.entries, id))))
  }

  /** Removal keeps the order of what it keeps: it works piece by piece. */
  lemma {:induction false} WithoutConcat(a: seq<Entry>, b: seq<Entry>, id: Id)
    ensures Without(a + b, id) == Without(a, id) + Without(b, id)
  {
    if |a| == 0 {
      assert a + b == b;
    } else {
      assert (a + b)[1..] == a[1..] + b;
      WithoutConcat(a[1..], b, id);
    }
  }

  /** Removal changes nothing when no item has the id. */
  lemma {:induction false} WithoutNothing(xs: seq<Entry>, id: Id)
    requires forall x | x in xs :: x.id != id
    ensures Without(xs, id) == xs
  {
    if |xs| > 0 {
      assert forall x | x in xs[1..] :: x.id != id by {
        forall x | x in xs[1..] ensures x in xs { }
      }
      WithoutNothing(xs[1..], id);
      assert [xs[0]] + xs[1..] == xs;
    }
  }

  /** Removal drops exactly the items with the id. */
  lemma {:induction false} WithoutCount(xs: seq<Entry>, id: Id)
    ensures |Without(xs, id)| == |xs| - CountId(xs, id)
  {
    if |xs| > 0 {
      WithoutCount(xs[1..], id);
    }
  }

  /** A second removal changes nothing more. */
  lemma WithoutIdempotent(xs: seq<Entry>, id: Id)
    ensures Without(Without(xs, id), id) == Without(xs, id)
  {
    WithoutNothing(Without(xs, id), id);
  }

  /** The number of items with id `id`. */
  function CountId(xs: seq<Entry>, id: Id): nat {
    if |xs| == 0 then 0 else (if xs[0].id == id then 1 else 0) + CountId(xs[1..], id)
  }

  /** Removing an entry just added leaves the list as removing it before the
      add would; updating an entry and then removing its id is the same as
      only removing it. */
  lemma RemoveUndoes(s: State, e: Entry, u: Entry)
    ensures RemoveEntry(AddEntry(s, e), e.id).entries == RemoveEntry(s, e.id).entries
    ensures RemoveEntry(UpdateEntry(s, u), u.id) == RemoveEntry(s, u.id)
  {
    WithoutConcat([e], s.entries, e.id);
    assert Without([e], e.id) == [];
    ReplaceThenWithout(s.entries, u);
  }

  lemma {:induction false} ReplaceThenWithout(xs: seq<Entry>, u: Entry)
    ensures Without(Replace(xs, u), u.id) == Without(xs, u.id)
  {
    if |xs| > 0 {
      assert Replace(xs, u)[1..] == Replace(xs[1..], u);
      ReplaceThenWithout(xs[1..], u);
    }
  }
}
