/**
 The entry handlers of backend/controllers/entryController.js: resolving tag
 names to the user's tag rows, creating, reading, updating, deleting and
 pinning one of the user's entries, and the filtered, ordered and paged entry
 list. Each write runs in one transaction, so a failing step leaves the store
 as it was: a failure returns no store.
 */
module Entries {
  import opened Results
  import opened Calendar
  import opened EntryModel
  import opened Queries
  import PlainText
  import Sorting
  import Pagination

  // ---- Tags ----

  ghost predicate DistinctRows(tags: seq<TagRow>) {
    forall i, j :: 0 <= i < j < |tags| ==> tags[i] != tags[j]
  }

  /** The requested names as `findOrCreate` looks them up: trimmed. */
  function TrimAll(names: seq<string>): (r: seq<string>)
    ensures |r| == |names|
    ensures forall i :: 0 <= i < |names| ==> r[i] == PlainText.Trim(names[i])
  {
    seq(|names|, i requires 0 <= i < |names| => PlainText.Trim(names[i]))
  }

  /** Some name is empty or longer than 50 characters. */
  predicate SomeNameInvalid(names: seq<string>) {
    exists n | n in names :: !ValidTagName(n)
  }

  /** `resolveTags`: each name, trimmed, is looked up among the user's tag rows
      and created when missing (`findOrCreate`). */
  function ResolveTags(tags: seq<TagRow>, user: Id, names: seq<string>): (r: Result<(seq<TagRow>, set<string>)>)
  {
    Resolve(tags, user, TrimAll(names))
  }

  /** Finding or creating the rows of trimmed names one by one; the tag model
      refuses a name that is empty or longer than 50 characters. The result is
      the grown tag table and the set of resolved names. */
  function Resolve(tags: seq<TagRow>, user: Id, names: seq<string>): (r: Result<(seq<TagRow>, set<string>)>)
    ensures r.Err? <==> SomeNameInvalid(names)
    ensures r.Err? ==> r.failure == ValidationFailure
    ensures r.Ok? ==> forall n :: n in r.value.1 <==> n in names
    ensures r.Ok? ==> forall n | n in r.value.1 :: ValidTagName(n) && TagRow(user, n) in r.value.0
    ensures r.Ok? ==> |tags| <= |r.value.0| && r.value.0[..|tags|] == tags
    ensures r.Ok? ==> forall k :: |tags| <= k < |r.value.0| ==> r.value.0[k].userId == user && r.value.0[k].name in r.value.1
    ensures r.Ok? && DistinctRows(tags) ==> DistinctRows(r.value.0)
    decreases |names|
  {
    if |names| == 0 then Ok((tags, {}))
    else
      var n := names[0];
      assert names == [n] + names[1..];
      if !ValidTagName(n) then Err(ValidationFailure)
      else
        var grown := if TagRow(user, n) in tags then tags else tags + [TagRow(user, n)];
        match Resolve(grown, user, names[1..])
        case Err(f) => Err(f)
        case Ok((rows, resolved)) =>
          GrowStep(tags, user, n, grown, rows);
          Ok((rows, {n} + resolved))
  }

  /** One step of `Resolve`: the row of `n` is found or appended, and the table
      the rest of the names grow keeps it. */
  lemma GrowStep(tags: seq<TagRow>, user: Id, n: string, grown: seq<TagRow>, rows: seq<TagRow>)
    requires grown == if TagRow(user, n) in tags then tags else tags + [TagRow(user, n)]
    requires |grown| <= |rows| && rows[..|grown|] == grown
    ensures |tags| <= |rows| && rows[..|tags|] == tags
    ensures forall k :: |tags| <= k < |grown| ==> rows[k] == TagRow(user, n)
    ensures DistinctRows(tags) ==> DistinctRows(grown)
    ensures TagRow(user, n) in rows
  {
    assert rows[..|tags|] == grown[..|grown|][..|tags|];
    assert forall k :: |tags| <= k < |grown| ==> rows[k] == grown[k];
    var k :| 0 <= k < |grown| && grown[k] == TagRow(user, n);
    assert rows[..|grown|][k] == rows[k];
  }

  /** Resolving the same names again finds every row: the table does not grow. */
  lemma ResolveTagsAgain(tags: seq<TagRow>, user: Id, names: seq<string>)
    requires ResolveTags(tags, user, names).Ok?
    ensures var (rows, resolved) := ResolveTags(tags, user, names).value;
      ResolveTags(rows, user, names) == Ok((rows, resolved))
  {
    var trimmed := TrimAll(names);
    var (rows, resolved) := Resolve(tags, user, trimmed).value;
    ResolveFound(rows, user, trimmed);
    var again := Resolve(rows, user, trimmed).value.1;
    assert again == resolved;
  }

  /** A trimmed name given twice that the entry is not yet tagged with:
      `setTags` inserts one `entry_tags` row per resolved tag the entry does
      not have, repeats included, and the (entry, tag) key refuses the second
      row, so the request fails with a conflict and the transaction rolls back. */
  predicate RepeatsOutside(names: seq<string>, present: set<string>) {
    exists i, j | 0 <= i < j < |names| :: names[i] == names[j] && names[i] !in present
  }

  /** When every name already has a row, resolving adds none. */
  lemma {:induction false} ResolveFound(rows: seq<TagRow>, user: Id, names: seq<string>)
    requires !SomeNameInvalid(names)
    requires forall n | n in names :: TagRow(user, n) in rows
    ensures Resolve(rows, user, names).Ok? && Resolve(rows, user, names).value.0 == rows
    decreases |names|
  {
    if |names| > 0 {
      assert names == [names[0]] + names[1..];
      ResolveFound(rows, user, names[1..]);
    }
  }

  // ---- One entry ----

  /** `findOne({ where: { id, userId } })` matches the entry. */
  predicate Owns(e: Entry, user: Id, id: Id) {
    e.id == id && e.userId == user
  }

  /** The position of the user's entry `id`, if there is one. */
  function Find(s: seq<Entry>, user: Id, id: Id): (r: Option<nat>)
    ensures r.Some? ==> r.value < |s| && Owns(s[r.value], user, id)
    ensures r.Some? ==> forall j :: 0 <= j < r.value ==> !Owns(s[j], user, id)
    ensures r.None? <==> forall x | x in s :: !Owns(x, user, id)
  {
    if |s| == 0 then None
    else if Owns(s[0], user, id) then Some(0)
    else
      assert forall x | x in s :: x == s[0] || x in s[1..];
      match Find(s[1..], user, id)
      case None => None
      case Some(k) => Some(k + 1)
  }

  /** The first owned position is the one `Find` reports. */
  lemma FindAt(s: seq<Entry>, user: Id, id: Id, i: nat)
    requires i < |s| && Owns(s[i], user, id)
    requires forall j :: 0 <= j < i ==> !Owns(s[j], user, id)
    ensures Find(s, user, id) == Some(i)
  {
    assert s[i] in s;
  }

  /** `get`. */
  function Get(store: Store, user: Id, id: Id): (r: Result<Entry>)
    ensures r.Err? <==> forall x | x in store.entries :: !Owns(x, user, id)
    ensures r.Err? ==> r.failure == NotFound
    ensures r.Ok? ==> r.value in store.entries && Owns(r.value, user, id)
  {
    match Find(store.entries, user, id)
    case None => Err(NotFound)
    case Some(i) => Ok(store.entries[i])
  }

  /** The body of a create request as the controller reads it. */
  datatype NewEntry = NewEntry(
    title: string,
    content: string,
    mood: Option<Mood>,
    date: Day,
    tags: seq<string>,
    isPinned: Option<bool>)

  predicate IdTaken(store: Store, id: Id) {
    exists x | x in store.entries :: x.id == id
  }

  /** `create`: the plain text and word count are derived from the content,
      the entry is inserted under the fresh `id` at time `now`, and a non-empty
      tag list is resolved and associated. */
  function Create(store: Store, user: Id, id: Id, now: int, req: NewEntry): (r: Result<(Store, Entry)>)
    ensures var names := TrimAll(req.tags);
      r.Err? <==>
        || !ValidTitle(req.title) || IdTaken(store, id)
        || (|req.tags| > 0 && (SomeNameInvalid(names) || RepeatsOutside(names, {})))
    ensures r.Err? ==> (r.failure == StoreFailure <==>
      ValidTitle(req.title) && (IdTaken(store, id) || !SomeNameInvalid(TrimAll(req.tags))))
    ensures r.Ok? ==> r.value.0.entries == store.entries + [r.value.1]
  {
    var text := PlainText.StripHtml(req.content);
    var row := EntryInsert(id, user, req.title, req.content, text, req.mood,
                           Some(PlainText.WordCount(text)), req.date, req.isPinned, now);
    match BuildEntry(row, {})
    case Err(f) => Err(f)
    case Ok(e) =>
      if IdTaken(store, id) then Err(StoreFailure)
      else if |req.tags| == 0 then Ok((Store(store.entries + [e], store.tags), e))
      else
        match ResolveTags(store.tags, user, req.tags)
        case Err(f) => Err(f)
        case Ok((tags, names)) =>
          if RepeatsOutside(TrimAll(req.tags), {}) then Err(StoreFailure)
          else
            var tagged := e.(tags := names);
            Ok((Store(store.entries + [tagged], tags), tagged))
  }

  /** A created entry holds the request's fields, the user, the id, the time,
      the plain text and word count of its content, and the trimmed tag names;
      pinning defaults to false. The tag table only grows, by rows of the user. */
  lemma CreateMeaning(store: Store, user: Id, id: Id, now: int, req: NewEntry)
    requires Create(store, user, id, now, req).Ok?
    ensures var (st, e) := Create(store, user, id, now, req).value;
      && e.id == id && e.userId == user && e.createdAt == now
      && e.title == req.title && e.content == req.content && e.mood == req.mood && e.date == req.date
      && e.isPinned == (req.isPinned == Some(true))
      && e.contentText == PlainText.StripHtml(req.content)
      && e.wordCount == PlainText.WordCount(e.contentText)
      && (forall n :: n in e.tags <==> n in TrimAll(req.tags))
      && |store.tags| <= |st.tags| && st.tags[..|store.tags|] == store.tags
      && (forall k :: |store.tags| <= k < |st.tags| ==> st.tags[k].userId == user)
  {
    var text := PlainText.StripHtml(req.content);
    var row := EntryInsert(id, user, req.title, req.content, text, req.mood,
                           Some(PlainText.WordCount(text)), req.date, req.isPinned, now);
    var e := BuildEntry(row, {}).value;
    var r := Create(store, user, id, now, req).value;
    if |req.tags| > 0 {
      var (tags, names) := ResolveTags(store.tags, user, req.tags).value;
      assert r == (Store(store.entries + [e.(tags := names)], tags), e.(tags := names));
    } else {
      assert TrimAll(req.tags) == [];
      assert r == (Store(store.entries + [e], store.tags), e);
    }
  }

  /** A name given twice fails the create: with a title the model accepts and
      a fresh id, by the conflict on the second `entry_tags` row when the name
      is a valid tag name, and by the tag validation otherwise. */
  lemma RepeatedTagFailsCreate(store: Store, user: Id, id: Id, now: int, req: NewEntry, n: string)
    requires req.tags == [n, n]
    ensures Create(store, user, id, now, req).Err?
    ensures ValidTitle(req.title) && !IdTaken(store, id) && ValidTagName(PlainText.Trim(n)) ==>
      Create(store, user, id, now, req).failure == StoreFailure
  {
    TwiceRepeats(n);
  }

  /** A name given twice repeats after trimming, and a valid trimmed name
      leaves nothing for the tag validation to refuse. */
  lemma TwiceRepeats(n: string)
    ensures RepeatsOutside(TrimAll([n, n]), {})
    ensures ValidTagName(PlainText.Trim(n)) ==> !SomeNameInvalid(TrimAll([n, n]))
  {
    var names := TrimAll([n, n]);
    assert names[0] == PlainText.Trim(n) == names[1];
    PairRepeats(names);
  }

  lemma PairRepeats(names: seq<string>)
    requires |names| == 2 && names[0] == names[1]
    ensures RepeatsOutside(names, {})
    ensures ValidTagName(names[0]) ==> !SomeNameInvalid(names)
  {
    assert forall x | x in names :: x == names[0];
  }

  /** The created entry is the one `get` then returns. */
  lemma GetAfterCreate(store: Store, user: Id, id: Id, now: int, req: NewEntry)
    requires Create(store, user, id, now, req).Ok?
    ensures var (st, e) := Create(store, user, id, now, req).value;
      Get(st, user, id) == Ok(e)
  {
    var (st, e) := Create(store, user, id, now, req).value;
    forall j | 0 <= j < |store.entries|
      ensures !Owns(st.entries[j], user, id)
    {
      assert st.entries[j] in store.entries;
    }
    FindAt(st.entries, user, id, |store.entries|);
  }

  /** Which fields an update request supplies; `mood: Some(None)` clears the mood. */
  datatype EntryPatch = EntryPatch(
    title: Option<string>,
    content: Option<string>,
    mood: Option<Option<Mood>>,
    date: Option<Day>,
    isPinned: Option<bool>,
    tags: Option<seq<string>>)

  const NoChanges := EntryPatch(None, None, None, None, None, None)

  /** The column updates of `update`: each supplied field replaces the stored one,
      and new content also renews the plain text and the word count. */
  function Patched(e: Entry, p: EntryPatch): Entry {
    var derived := if p.content.Some? then Derive(p.content.value) else (e.contentText, e.wordCount);
    e.(title := p.title.GetOr(e.title),
       content := p.content.GetOr(e.content),
       contentText := derived.0,
       wordCount := derived.1,
       mood := p.mood.GetOr(e.mood),
       date := p.date.GetOr(e.date),
       isPinned := p.isPinned.GetOr(e.isPinned))
  }

  /** The plain text of some content and its word count. */
  function Derive(content: string): (string, nat) {
    var text := PlainText.StripHtml(content);
    (text, PlainText.WordCount(text))
  }

  /** `update`: not found unless the entry is the user's; a supplied title must
      be valid; tags are left alone when absent, cleared by an empty list, and
      replaced by the resolved names otherwise. */
  function Update(store: Store, user: Id, id: Id, p: EntryPatch): (r: Result<(Store, Entry)>)
    ensures r.Err? <==>
      || Find(store.entries, user, id).None?
      || (p.title.Some? && !ValidTitle(p.title.value))
      || (p.tags.Some? && |p.tags.value| > 0 &&
          (SomeNameInvalid(TrimAll(p.tags.value))
           || RepeatsOutside(TrimAll(p.tags.value), store.entries[Find(store.entries, user, id).value].tags)))
    ensures Find(store.entries, user, id).None? ==> r == Err(NotFound)
    ensures r.Err? && Find(store.entries, user, id).Some? ==>
      (r.failure == ValidationFailure <==>
         (p.title.Some? && !ValidTitle(p.title.value))
         || (p.tags.Some? && |p.tags.value| > 0 && SomeNameInvalid(TrimAll(p.tags.value))))
  {
    match Find(store.entries, user, id)
    case None => Err(NotFound)
    case Some(i) =>
      var e := Patched(store.entries[i], p);
      if p.title.Some? && !ValidTitle(p.title.value) then Err(ValidationFailure)
      else if p.tags.None? then Ok((Store(store.entries[i := e], store.tags), e))
      else if |p.tags.value| == 0 then
        var cleared := e.(tags := {});
        Ok((Store(store.entries[i := cleared], store.tags), cleared))
      else
        match ResolveTags(store.tags, user, p.tags.value)
        case Err(f) => Err(f)
        case Ok((tags, names)) =>
          if RepeatsOutside(TrimAll(p.tags.value), store.entries[i].tags) then Err(StoreFailure)
          else
            var tagged := e.(tags := names);
            Ok((Store(store.entries[i := tagged], tags), tagged))
  }

  /** The updated columns are exactly the supplied ones; content renews the
      plain text and the word count; the id, owner, creation time and tags stay. */
  lemma PatchedMeaning(e: Entry, p: EntryPatch)
    ensures var u := Patched(e, p);
      && u.id == e.id && u.userId == e.userId && u.createdAt == e.createdAt && u.tags == e.tags
      && u.title == p.title.GetOr(e.title)
      && u.mood == p.mood.GetOr(e.mood)
      && u.date == p.date.GetOr(e.date)
      && u.isPinned == p.isPinned.GetOr(e.isPinned)
      && u.content == p.content.GetOr(e.content)
      && (p.content.None? ==> u.contentText == e.contentText && u.wordCount == e.wordCount)
      && (p.content.Some? ==> u.contentText == PlainText.StripHtml(u.content)
                              && u.wordCount == PlainText.WordCount(u.contentText))
  {
  }

  /** An update replaces the entry in place by its patched form, whose tags
      follow the tag rule: kept when absent, otherwise the trimmed names. */
  lemma UpdateMeaning(store: Store, user: Id, id: Id, p: EntryPatch)
    requires Update(store, user, id, p).Ok?
    ensures var i := Find(store.entries, user, id).value;
      var (st, e) := Update(store, user, id, p).value;
      && st.entries == store.entries[i := e]
      && e.(tags := store.entries[i].tags) == Patched(store.entries[i], p)
      && (p.tags.None? ==> e.tags == store.entries[i].tags && st.tags == store.tags)
      && (p.tags.Some? ==> forall n :: n in e.tags <==> n in TrimAll(p.tags.value))
  {
    var i := Find(store.entries, user, id).value;
    var u := Patched(store.entries[i], p);
    PatchedMeaning(store.entries[i], p);
    assert u.(tags := store.entries[i].tags) == u;
  }

  /** An update that supplies nothing leaves the store and the entry as they are. */
  lemma UpdateNothing(store: Store, user: Id, id: Id)
    requires Find(store.entries, user, id).Some?
    ensures var i := Find(store.entries, user, id).value;
      Update(store, user, id, NoChanges) == Ok((store, store.entries[i]))
  {
    var i := Find(store.entries, user, id).value;
    assert store.entries[i := store.entries[i]] == store.entries;
  }

  /** `remove`: the user's entry `id` is deleted; its tag rows stay. */
  function Remove(store: Store, user: Id, id: Id): (r: Result<Store>)
    ensures Find(store.entries, user, id).None? <==> r == Err(NotFound)
    ensures r.Ok? ==> r.value.tags == store.tags && |r.value.entries| == |store.entries| - 1
  {
    match Find(store.entries, user, id)
    case None => Err(NotFound)
    case Some(i) => Ok(Store(store.entries[..i] + store.entries[i + 1..], store.tags))
  }

  /** After a removal, `get` no longer finds the entry, and every other entry
      is still there in its order. */
  lemma RemoveMeaning(store: Store, user: Id, id: Id)
    requires UniqueIds(store.entries)
    requires Remove(store, user, id).Ok?
    ensures var st := Remove(store, user, id).value;
      var i := Find(store.entries, user, id).value;
      && Get(st, user, id) == Err(NotFound)
      && st.entries == store.entries[..i] + store.entries[i + 1..]
      && (forall x :: x in st.entries <==> x in store.entries && x.id != id)
  {
    var i := Find(store.entries, user, id).value;
    DropId(store.entries, i, id);
  }

  /** Dropping the one entry with id `id` from entries with unique ids keeps
      exactly the entries with other ids. */
  lemma DropId(s: seq<Entry>, i: nat, id: Id)
    requires UniqueIds(s) && i < |s| && s[i].id == id
    ensures forall x :: x in s[..i] + s[i + 1..] <==> x in s && x.id != id
  {
    var t := s[..i] + s[i + 1..];
    forall x
      ensures x in t <==> x in s && x.id != id
    {
      if x in t {
        var k :| 0 <= k < |t| && t[k] == x;
        if k < i {
          assert s[k] == x;
        } else {
          assert s[k + 1] == x;
        }
      }
      if x in s && x.id != id {
        var k :| 0 <= k < |s| && s[k] == x;
        if k < i {
          assert t[k] == x;
        } else {
          assert k != i;
          assert t[k - 1] == x;
        }
      }
    }
  }

  /** `togglePin`: flips `isPinned` of the user's entry `id`. */
  function TogglePin(store: Store, user: Id, id: Id): (r: Result<(Store, Entry)>)
    ensures Find(store.entries, user, id).None? <==> r == Err(NotFound)
    ensures r.Ok? ==> var i := Find(store.entries, user, id).value;
      && r.value.1 == store.entries[i].(isPinned := !store.entries[i].isPinned)
      && r.value.0 == Store(store.entries[i := r.value.1], store.tags)
  {
    match Find(store.entries, user, id)
    case None => Err(NotFound)
    case Some(i) =>
      var e := store.entries[i].(isPinned := !store.entries[i].isPinned);
      Ok((Store(store.entries[i := e], store.tags), e))
  }

  /** Toggling twice gives back the store and the entry as they were. */
  lemma TogglePinTwice(store: Store, user: Id, id: Id)
    requires TogglePin(store, user, id).Ok?
    ensures var once := TogglePin(store, user, id).value.0;
      var i := Find(store.entries, user, id).value;
      TogglePin(once, user, id) == Ok((store, store.entries[i]))
  {
    var once := TogglePin(store, user, id).value.0;
    var i := Find(store.entries, user, id).value;
    FindAt(once.entries, user, id, i);
    assert once.entries[i := store.entries[i]] == store.entries;
  }

  // ---- The stored invariant ----

  /** Creating keeps the stored data consistent. */
  lemma CreateKeepsConsistent(store: Store, user: Id, id: Id, now: int, req: NewEntry)
    requires Consistent(store)
    requires Create(store, user, id, now, req).Ok?
    ensures Consistent(Create(store, user, id, now, req).value.0)
  {
    var (st, e) := Create(store, user, id, now, req).value;
    CreateParts(store, user, id, now, req);
    assert !IdTaken(store, id);
    AppendKeepsConsistent(store, st, e);
  }

  /** What a create adds: the new entry last, with a fresh id, a valid title,
      current derived columns and rows for its tags, in a table that keeps
      every old row and adds only valid, distinct ones. */
  ghost predicate AddsEntry(store: Store, id: Id, st: Store, e: Entry) {
    && st.entries == store.entries + [e] && e.id == id
    && ValidTitle(e.title) && DerivedCurrent(e)
    && (forall t | t in e.tags :: TagRow(e.userId, t) in st.tags)
    && (forall r | r in store.tags :: r in st.tags)
    && ((forall r | r in store.tags :: ValidTagName(r.name)) ==> forall r | r in st.tags :: ValidTagName(r.name))
    && (DistinctRows(store.tags) ==> DistinctRows(st.tags))
  }

  lemma CreateParts(store: Store, user: Id, id: Id, now: int, req: NewEntry)
    requires Create(store, user, id, now, req).Ok?
    ensures var (st, e) := Create(store, user, id, now, req).value;
      AddsEntry(store, id, st, e)
  {
    if |req.tags| == 0 {
      CreateUntagged(store, user, id, now, req);
    } else {
      CreateTagged(store, user, id, now, req);
    }
  }

  lemma CreateUntagged(store: Store, user: Id, id: Id, now: int, req: NewEntry)
    requires Create(store, user, id, now, req).Ok? && |req.tags| == 0
    ensures var (st, e) := Create(store, user, id, now, req).value;
      AddsEntry(store, id, st, e)
  {
    var (st, e) := Create(store, user, id, now, req).value;
    var text := PlainText.StripHtml(req.content);
    var row := EntryInsert(id, user, req.title, req.content, text, req.mood,
                           Some(PlainText.WordCount(text)), req.date, req.isPinned, now);
    var b := BuildEntry(row, {}).value;
    assert (st, e) == (Store(store.entries + [b], store.tags), b);
  }

  lemma CreateTagged(store: Store, user: Id, id: Id, now: int, req: NewEntry)
    requires Create(store, user, id, now, req).Ok? && |req.tags| > 0
    ensures var (st, e) := Create(store, user, id, now, req).value;
      AddsEntry(store, id, st, e)
  {
    var (st, e) := Create(store, user, id, now, req).value;
    var text := PlainText.StripHtml(req.content);
    var row := EntryInsert(id, user, req.title, req.content, text, req.mood,
                           Some(PlainText.WordCount(text)), req.date, req.isPinned, now);
    var b := BuildEntry(row, {}).value;
    var (tags, names) := ResolveTags(store.tags, user, req.tags).value;
    assert (st, e) == (Store(store.entries + [b.(tags := names)], tags), b.(tags := names));
    TableParts(store.tags, user, req.tags);
  }

  /** Resolving tag names keeps every old row, adds only valid and distinct
      rows, and leaves a row for every resolved name. */
  lemma TableParts(table: seq<TagRow>, user: Id, names: seq<string>)
    requires ResolveTags(table, user, names).Ok?
    ensures var (rows, resolved) := ResolveTags(table, user, names).value;
      && (forall t | t in resolved :: TagRow(user, t) in rows)
      && (forall r | r in table :: r in rows)
      && ((forall r | r in table :: ValidTagName(r.name)) ==> forall r | r in rows :: ValidTagName(r.name))
      && (DistinctRows(table) ==> DistinctRows(rows))
  {
    var (rows, resolved) := ResolveTags(table, user, names).value;
    if forall r | r in table :: ValidTagName(r.name) {
      forall r | r in rows
        ensures ValidTagName(r.name)
      {
        var k :| 0 <= k < |rows| && rows[k] == r;
        if k < |table| {
          assert rows[..|table|][k] == r;
        }
      }
    }
    GrownTable(table, rows);
  }

  /** Appending an entry with a fresh id, a valid title, current derived columns
      and tags with rows keeps the data consistent, given a tag table that still
      holds every row. */
  lemma AppendKeepsConsistent(store: Store, st: Store, e: Entry)
    requires Consistent(store)
    requires st.entries == store.entries + [e]
    requires forall x | x in store.entries :: x.id != e.id
    requires ValidTitle(e.title) && DerivedCurrent(e)
    requires forall t | t in e.tags :: TagRow(e.userId, t) in st.tags
    requires forall r | r in store.tags :: r in st.tags
    requires forall r | r in st.tags :: ValidTagName(r.name)
    requires DistinctRows(st.tags)
    ensures Consistent(st)
  {
    AppendAt(store.entries, e);
    forall x, t | x in st.entries && t in x.tags
      ensures TagRow(x.userId, t) in st.tags
    {
      if x != e {
        assert x in store.entries;
      }
    }
    forall x | x in st.entries
      ensures ValidTitle(x.title) && DerivedCurrent(x)
    {
      if x != e {
        assert x in store.entries;
      }
    }
  }

  /** Appending an entry with a fresh id keeps ids unique and brings in no
      entry but the new one. */
  lemma AppendAt(s: seq<Entry>, e: Entry)
    requires forall x | x in s :: x.id != e.id
    ensures forall x | x in s + [e] :: x == e || x in s
    ensures UniqueIds(s) ==> UniqueIds(s + [e])
  {
    var t := s + [e];
    if UniqueIds(s) {
      forall a, b | 0 <= a < b < |t|
        ensures t[a].id != t[b].id
      {
        if b == |s| {
          assert t[a] in s;
        } else {
          assert t[a] == s[a] && t[b] == s[b];
        }
      }
    }
  }

  /** A table that keeps the old one as its prefix still holds every old row. */
  lemma GrownTable(tags: seq<TagRow>, grown: seq<TagRow>)
    requires |tags| <= |grown| && grown[..|tags|] == tags
    ensures forall r | r in tags :: r in grown
  {
    forall r | r in tags
      ensures r in grown
    {
      var k :| 0 <= k < |tags| && tags[k] == r;
      assert grown[k] == r;
    }
  }

  /** Updating keeps the stored data consistent. */
  lemma UpdateKeepsConsistent(store: Store, user: Id, id: Id, p: EntryPatch)
    requires Consistent(store)
    requires Update(store, user, id, p).Ok?
    ensures Consistent(Update(store, user, id, p).value.0)
  {
    var (st, e) := Update(store, user, id, p).value;
    var i := Find(store.entries, user, id).value;
    UpdateMeaning(store, user, id, p);
    assert store.entries[i] in store.entries;
    if p.tags.Some? && |p.tags.value| > 0 {
      var r := ResolveTags(store.tags, user, p.tags.value);
      GrownTable(store.tags, st.tags);
    }
    ReplaceKeepsConsistent(store, st, i, e);
  }

  /** Replacing entry `i` by one with the same id, a valid title, current derived
      columns and tags with rows keeps the data consistent, given a tag table
      that still holds every row. */
  lemma ReplaceKeepsConsistent(store: Store, st: Store, i: nat, e: Entry)
    requires Consistent(store)
    requires i < |store.entries| && st.entries == store.entries[i := e]
    requires e.id == store.entries[i].id && e.userId == store.entries[i].userId
    requires ValidTitle(e.title) && DerivedCurrent(e)
    requires forall t | t in e.tags :: TagRow(e.userId, t) in st.tags
    requires forall r | r in store.tags :: r in st.tags
    requires forall r | r in st.tags :: ValidTagName(r.name)
    requires DistinctRows(st.tags)
    ensures Consistent(st)
  {
    ReplaceAt(store.entries, i, e);
    forall x, t | x in st.entries && t in x.tags
      ensures TagRow(x.userId, t) in st.tags
    {
      if x != e {
        assert x in store.entries;
      }
    }
    forall x | x in st.entries
      ensures ValidTitle(x.title) && DerivedCurrent(x)
    {
      if x != e {
        assert x in store.entries;
      }
    }
  }

  /** Replacing position `i` by an entry with the same id keeps ids unique and
      brings in no entry but the new one. */
  lemma ReplaceAt(s: seq<Entry>, i: nat, e: Entry)
    requires i < |s| && e.id == s[i].id
    ensures forall x | x in s[i := e] :: x == e || x in s
    ensures UniqueIds(s) ==> UniqueIds(s[i := e])
  {
    forall x | x in s[i := e]
      ensures x == e || x in s
    {
      var k :| 0 <= k < |s| && s[i := e][k] == x;
      if k != i {
        assert s[k] == x;
      }
    }
  }

  /** Toggling a pin keeps the stored data consistent. */
  lemma TogglePinKeepsConsistent(store: Store, user: Id, id: Id)
    requires Consistent(store)
    requires TogglePin(store, user, id).Ok?
    ensures Consistent(TogglePin(store, user, id).value.0)
  {
    var (st, e) := TogglePin(store, user, id).value;
    var i := Find(store.entries, user, id).value;
    assert store.entries[i] in store.entries;
    ReplaceKeepsConsistent(store, st, i, e);
  }

  /** Removing keeps the stored data consistent. */
  lemma RemoveKeepsConsistent(store: Store, user: Id, id: Id)
    requires Consistent(store)
    requires Remove(store, user, id).Ok?
    ensures Consistent(Remove(store, user, id).value)
  {
    var i := Find(store.entries, user, id).value;
    DropOne(store.entries, i);
    FewerKeepsConsistent(store, Store(store.entries[..i] + store.entries[i + 1..], store.tags));
  }

  /** Keeping some of the entries, with unique ids, and the whole tag table
      keeps the data consistent. */
  lemma FewerKeepsConsistent(store: Store, st: Store)
    requires Consistent(store)
    requires st.tags == store.tags && UniqueIds(st.entries)
    requires forall x | x in st.entries :: x in store.entries
    ensures Consistent(st)
  {
  }

  /** Dropping position `i` keeps ids unique and adds no entry. */
  lemma DropOne(s: seq<Entry>, i: nat)
    requires i < |s|
    ensures forall x | x in s[..i] + s[i + 1..] :: x in s
    ensures UniqueIds(s) ==> UniqueIds(s[..i] + s[i + 1..])
  {
    var t := s[..i] + s[i + 1..];
    forall k | 0 <= k < |t|
      ensures t[k] == s[if k < i then k else k + 1]
    {
    }
    forall x | x in t
      ensures x in s
    {
      var k :| 0 <= k < |t| && t[k] == x;
    }
  }

  // ---- The entry list ----

  datatype SortField = ByDate | ByCreatedAt | ByWordCount

  datatype Direction = Ascending | Descending

  /** `validSortFields[sortBy] || "date"`: an unknown field sorts by date. */
  function SortFieldOf(sortBy: string): SortField {
    if sortBy == "createdAt" then ByCreatedAt
    else if sortBy == "wordCount" then ByWordCount
    else ByDate
  }

  function FieldValue(e: Entry, f: SortField): int {
    match f
    case ByDate => e.date
    case ByCreatedAt => e.createdAt
    case ByWordCount => e.wordCount
  }

  function UpperChar(c: char): char {
    if 'a' <= c <= 'z' then (c as int - 32) as char else c
  }

  function LowerChar(c: char): char {
    if 'A' <= c <= 'Z' then (c as int + 32) as char else c
  }

  function Upper(s: string): (r: string)
    ensures |r| == |s| && forall i :: 0 <= i < |s| ==> r[i] == UpperChar(s[i])
  {
    seq(|s|, i requires 0 <= i < |s| => UpperChar(s[i]))
  }

  function Lower(s: string): (r: string)
    ensures |r| == |s| && forall i :: 0 <= i < |s| ==> r[i] == LowerChar(s[i])
  {
    seq(|s|, i requires 0 <= i < |s| => LowerChar(s[i]))
  }

  /** The directions the store's ORDER BY accepts. `NULLS FIRST` and
      `NULLS LAST` alone sort ascending. */
  const OrderDirections: set<string> := {"ASC", "DESC", "ASC NULLS FIRST", "ASC NULLS LAST",
                                         "DESC NULLS FIRST", "DESC NULLS LAST", "NULLS FIRST", "NULLS LAST"}

  /** `order.toUpperCase()` as the store reads it: one of the accepted
      directions, descending when it starts with `DESC`; the store refuses any
      other direction. The controllers always write the sort fields, so where
      nulls go does not change the order. */
  function DirectionOf(order: string): (r: Option<Direction>)
    ensures r.None? <==> Upper(order) !in OrderDirections
    ensures r == Some(Descending) <==> Upper(order) in OrderDirections && |Upper(order)| >= 4 && Upper(order)[..4] == "DESC"
  {
    var u := Upper(order);
    if u == "DESC" || u == "DESC NULLS FIRST" || u == "DESC NULLS LAST" then Some(Descending)
    else if u == "ASC" || u == "ASC NULLS FIRST" || u == "ASC NULLS LAST" || u == "NULLS FIRST" || u == "NULLS LAST" then
      assert u[0] != 'D' && (|u| >= 4 ==> u[..4][0] == u[0]);
      Some(Ascending)
    else None
  }

  /** `desc nulls last` sorts descending and `nulls first` ascending. */
  lemma NullsDirections()
    ensures DirectionOf("desc nulls last") == Some(Descending)
    ensures DirectionOf("nulls first") == Some(Ascending)
    ensures DirectionOf("up") == None
  {
    assert Upper("desc nulls last") == "DESC NULLS LAST";
    assert Upper("nulls first") == "NULLS FIRST";
    assert Upper("up") == "UP";
  }

  /** `ILIKE '%needle%'`: `needle` occurs in `hay`, letters compared without case. */
  predicate ContainsIgnoringCase(hay: string, needle: string) {
    exists i | 0 <= i <= |hay| - |needle| :: MatchesAt(hay, needle, i)
  }

  predicate MatchesAt(hay: string, needle: string, i: int) {
    0 <= i <= |hay| - |needle| && Lower(hay[i..i + |needle|]) == Lower(needle)
  }

  /** The filters of `list`; `None` is an absent parameter. */
  datatype Filters = Filters(
    search: Option<string>,
    mood: Option<string>,
    tag: Option<string>,
    startDate: Option<Day>,
    endDate: Option<Day>,
    pinned: Option<string>)

  /** The query string of `list`, after parsing. */
  datatype ListQuery = ListQuery(page: int, limit: int, filters: Filters, sortBy: string, order: string)

  const NoFilters := Filters(None, None, None, None, None, None)

  /** The defaults of `list`: page 1, 20 per page, newest date first. */
  const DefaultQuery := ListQuery(1, 20, NoFilters, "date", "desc")

  /** The `where` clause of `list` and the tag join: the user's entries, narrowed
      by each filter that is given (an empty search or tag is no filter). */
  predicate Listed(e: Entry, user: Id, q: Filters) {
    && e.userId == user
    && (q.mood.Some? && q.mood.value != "" ==> e.mood == MoodNamed(q.mood.value))
    && (q.pinned.Some? ==> e.isPinned == (q.pinned.value == "true"))
    && (q.search.Some? && q.search.value != "" ==>
          ContainsIgnoringCase(e.title, q.search.value) || ContainsIgnoringCase(e.contentText, q.search.value))
    && (q.startDate.Some? ==> e.date >= q.startDate.value)
    && (q.endDate.Some? ==> e.date <= q.endDate.value)
    && (q.tag.Some? && q.tag.value != "" ==> q.tag.value in e.tags)
  }

  /** The query the store runs can be executed: the direction is `ASC` or
      `DESC`, and a given mood is a value of the enum column. */
  predicate Accepted(q: ListQuery) {
    && DirectionOf(q.order).Some?
    && (q.filters.mood.Some? && q.filters.mood.value != "" ==> MoodNamed(q.filters.mood.value).Some?)
  }

  function Listing(store: Store, user: Id, q: Filters): seq<Entry> {
    Select(store.entries, (e: Entry) => Listed(e, user, q))
  }

  /** `ORDER BY is_pinned DESC, <field> <direction>`. */
  function ListKey(f: SortField, d: Direction): Entry -> Sorting.Key {
    (e: Entry) => Sorting.Key(if e.isPinned then 0 else 1, if d == Ascending then FieldValue(e, f) else -FieldValue(e, f))
  }

  /** `a` may precede `b` in the list: pinned entries first, then by the field
      in the requested direction. */
  predicate Before(a: Entry, b: Entry, f: SortField, d: Direction) {
    || (a.isPinned && !b.isPinned)
    || (a.isPinned == b.isPinned &&
        (if d == Ascending then FieldValue(a, f) <= FieldValue(b, f) else FieldValue(a, f) >= FieldValue(b, f)))
  }

  datatype ListPage = ListPage(entries: seq<Entry>, total: nat, page: int, limit: int, pages: JsNumber)

  /** `list`: the matching entries in list order, the page `paginate` selects,
      the number of matches, and the number of pages of the limit `paginate`
      fetches with. */
  function List(store: Store, user: Id, q: ListQuery): (r: Result<ListPage>)
    ensures r.Err? <==> !Accepted(q)
    ensures r.Err? ==> r.failure == StoreFailure
  {
    if !Accepted(q) then Err(StoreFailure)
    else
      var d := DirectionOf(q.order).value;
      var matching := Listing(store, user, q.filters);
      var w := Pagination.Paginate(q.page, q.limit);
      var ordered := Sorting.SortBy(matching, ListKey(SortFieldOf(q.sortBy), d));
      Ok(ListPage(Pagination.Slice(ordered, w.offset, w.limit), |matching|, q.page, q.limit,
                  Finite(Pagination.PageCount(|matching|, q.limit))))
  }

  /** A page of the list: at most the clamped limit of entries, every one the
      user's and passing the filters, pinned ones first and then in the field's
      order; the total counts all matches. */
  lemma ListMeaning(store: Store, user: Id, q: ListQuery)
    requires Accepted(q)
    ensures var r := List(store, user, q);
      var rows := r.value.entries;
      && r.Ok?
      && |rows| <= Pagination.Paginate(q.page, q.limit).limit
      && (forall e | e in rows :: e in store.entries && Listed(e, user, q.filters))
      && (forall i, j :: 0 <= i < j < |rows| ==>
            Before(rows[i], rows[j], SortFieldOf(q.sortBy), DirectionOf(q.order).value))
      && r.value.total == |Listing(store, user, q.filters)|
      && r.value.pages == Pagination.CeilPages(|Listing(store, user, q.filters)|, Pagination.Paginate(1, q.limit).limit)
  {
    var d := DirectionOf(q.order).value;
    var f := SortFieldOf(q.sortBy);
    var matching := Listing(store, user, q.filters);
    var ordered := Sorting.SortBy(matching, ListKey(f, d));
    var w := Pagination.Paginate(q.page, q.limit);
    var rows := Pagination.Slice(ordered, w.offset, w.limit);
    KeysOrder(ordered, f, d);
    forall e | e in rows
      ensures e in store.entries && Listed(e, user, q.filters)
    {
      var i :| 0 <= i < |rows| && rows[i] == e;
      assert e in multiset(ordered);
      assert e in matching;
    }
    forall i, j | 0 <= i < j < |rows|
      ensures Before(rows[i], rows[j], f, d)
    {
      assert rows[i] == ordered[w.offset + i] && rows[j] == ordered[w.offset + j];
    }
  }

  /** The sort key orders exactly as `Before` says. */
  lemma KeysOrder(s: seq<Entry>, f: SortField, d: Direction)
    requires Sorting.SortedBy(s, ListKey(f, d))
    ensures forall i, j :: 0 <= i < j < |s| ==> Before(s[i], s[j], f, d)
  {
    forall i, j | 0 <= i < j < |s|
      ensures Before(s[i], s[j], f, d)
    {
      assert Sorting.KeyLe(ListKey(f, d)(s[i]), ListKey(f, d)(s[j]));
    }
  }

  /** Every matching entry is on the page its position in the list order
      selects: paging the list loses no entry. */
  lemma ListReachesEveryEntry(store: Store, user: Id, q: ListQuery, e: Entry) returns (p: int)
    requires Accepted(q)
    requires e in Listing(store, user, q.filters)
    ensures p >= 1 && e in List(store, user, q.(page := p)).value.entries
  {
    var ordered := Ordered(store, user, q);
    assert e in multiset(ordered);
    p := Pagination.PageWith(ordered, e, q.limit);
    var q' := q.(page := p);
    assert Ordered(store, user, q') == ordered;
    ListRows(store, user, q');
  }

  /** The matching entries in list order. */
  function Ordered(store: Store, user: Id, q: ListQuery): (r: seq<Entry>)
    requires DirectionOf(q.order).Some?
    ensures multiset(r) == multiset(Listing(store, user, q.filters))
  {
    Sorting.SortBy(Listing(store, user, q.filters), ListKey(SortFieldOf(q.sortBy), DirectionOf(q.order).value))
  }

  lemma ListRows(store: Store, user: Id, q: ListQuery)
    requires Accepted(q)
    ensures var w := Pagination.Paginate(q.page, q.limit);
      List(store, user, q).value.entries == Pagination.Slice(Ordered(store, user, q), w.offset, w.limit)
  {
  }

  /** A search matches text that contains it, whatever the letter case of either. */
  lemma SearchFindsSubstring(a: string, b: string, c: string, needle: string)
    requires Lower(b) == Lower(needle)
    ensures ContainsIgnoringCase(a + b + c, needle)
  {
    var hay := a + b + c;
    assert hay[|a|..|a| + |needle|] == b;
    assert MatchesAt(hay, needle, |a|);
  }

  /** `Math.ceil(count / limit)` as written uses the limit as requested while
      the rows are fetched at most 100 at a time: with a limit of 200 and 150
      matches it reports one page, which holds only 100 of them. The page
      count of the fetch limit reports the second page. */
  lemma ListPagesUndercount(store: Store, user: Id, q: ListQuery)
    requires Accepted(q) && q.page == 1 && q.limit == 200
    requires |Listing(store, user, q.filters)| == 150
    ensures var r := List(store, user, q).value;
      && Pagination.CeilPages(r.total, q.limit) == Finite(1)
      && |r.entries| == 100 && |r.entries| < r.total
      && r.pages == Finite(2)
  {
  }
}
