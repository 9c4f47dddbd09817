/**
 The stored records (backend/models/Entry.js, backend/models/Tag.js): journal
 entries, the per-user tag rows, and the column defaults and validations the
 models declare. The database itself becomes the `Store` value.
 */
module EntryModel {
  import opened Results
  import opened Calendar
  import PlainText

  /** The eight moods of the `mood` enum column. */
  datatype Mood = Happy | Calm | Sad | Angry | Anxious | Excited | Grateful | Tired

  const Moods: seq<Mood> := [Happy, Calm, Sad, Angry, Anxious, Excited, Grateful, Tired]

  /** Identifiers (UUIDs in the database) of users, entries and tags. */
  type Id = int

  const TitleMaxLength := 300
  const TagNameMaxLength := 50
  const DefaultWordCount := 0
  const DefaultPinned := false

  /** A journal entry. `tags` holds the names of the tags associated with it;
      a tag is identified by its name within its owner's tags. */
  datatype Entry = Entry(
    id: Id,
    userId: Id,
    title: string,
    content: string,
    contentText: string,
    mood: Option<Mood>,
    wordCount: nat,
    date: Day,
    isPinned: bool,
    createdAt: int,
    tags: set<string>)

  /** A row of the `tags` table: unique per (user, name). */
  datatype TagRow = TagRow(userId: Id, name: string)

  /** The persisted entries and tags of all users, each table in storage order. */
  datatype Store = Store(entries: seq<Entry>, tags: seq<TagRow>)

  /** An insert into `entries` as the controller issues it; `None` leaves the column default. */
  datatype EntryInsert = EntryInsert(
    id: Id,
    userId: Id,
    title: string,
    content: string,
    contentText: string,
    mood: Option<Mood>,
    wordCount: Option<nat>,
    date: Day,
    isPinned: Option<bool>,
    createdAt: int)

  predicate ValidTitle(title: string) {
    1 <= |title| <= TitleMaxLength
  }

  predicate ValidTagName(name: string) {
    1 <= |name| <= TagNameMaxLength
  }

  /** The derived columns agree with the content they are derived from. */
  predicate DerivedCurrent(e: Entry) {
    e.contentText == PlainText.StripHtml(e.content)
    && e.wordCount == PlainText.WordCount(e.contentText)
  }

  ghost predicate UniqueIds(entries: seq<Entry>) {
    forall i, j :: 0 <= i < j < |entries| ==> entries[i].id != entries[j].id
  }

  /** What the models and the controllers keep true of the stored data. */
  ghost predicate Consistent(st: Store) {
    && UniqueIds(st.entries)
    && (forall e | e in st.entries :: ValidTitle(e.title) && DerivedCurrent(e))
    && (forall e, t | e in st.entries && t in e.tags :: TagRow(e.userId, t) in st.tags)
    && (forall r | r in st.tags :: ValidTagName(r.name))
    && (forall i, j :: 0 <= i < j < |st.tags| ==> st.tags[i] != st.tags[j])
  }

  /** Applying the model to an insert: the omitted columns take their defaults
      (word count 0, not pinned) and the title must be 1 to 300 characters. */
  function BuildEntry(row: EntryInsert, tags: set<string>): (r: Result<Entry>)
    ensures r.Err? <==> !ValidTitle(row.title)
    ensures r.Err? ==> r.failure == ValidationFailure
    ensures r.Ok? ==> r.value.wordCount == (if row.wordCount.Some? then row.wordCount.value else 0)
    ensures r.Ok? ==> r.value.isPinned == (row.isPinned.Some? && row.isPinned.value)
    ensures r.Ok? ==> (r.value.id == row.id && r.value.userId == row.userId && r.value.date == row.date
                       && r.value.title == row.title && r.value.content == row.content
                       && r.value.contentText == row.contentText && r.value.mood == row.mood
                       && r.value.createdAt == row.createdAt && r.value.tags == tags)
  {
    if !ValidTitle(row.title) then Err(ValidationFailure)
    else Ok(Entry(row.id, row.userId, row.title, row.content, row.contentText, row.mood,
                  row.wordCount.GetOr(DefaultWordCount), row.date,
                  row.isPinned.GetOr(DefaultPinned), row.createdAt, tags))
  }

  /** The value of a mood in the enum column. */
  function MoodName(m: Mood): string {
    match m
    case Happy => "happy"
    case Calm => "calm"
    case Sad => "sad"
    case Angry => "angry"
    case Anxious => "anxious"
    case Excited => "excited"
    case Grateful => "grateful"
    case Tired => "tired"
  }

  /** A string read as a value of the enum column: the mood of that name, or
      `None` when no mood has it (the database refuses such a value). */
  function MoodNamed(s: string): (r: Option<Mood>)
    ensures r.Some? ==> MoodName(r.value) == s
    ensures r.None? <==> forall m: Mood :: MoodName(m) != s
  {
    if s == "happy" then Some(Happy)
    else if s == "calm" then Some(Calm)
    else if s == "sad" then Some(Sad)
    else if s == "angry" then Some(Angry)
    else if s == "anxious" then Some(Anxious)
    else if s == "excited" then Some(Excited)
    else if s == "grateful" then Some(Grateful)
    else if s == "tired" then Some(Tired)
    else None
  }

  /** Every mood reads back from its name, so the names are distinct. */
  lemma MoodNamesRoundTrip(m: Mood)
    ensures MoodNamed(MoodName(m)) == Some(m)
  {
  }

  /** The mood column admits exactly the eight listed moods. */
  lemma MoodEnumeration()
    ensures |Moods| == 8
    ensures forall m: Mood :: m in Moods
    ensures forall i, j :: 0 <= i < j < |Moods| ==> Moods[i] != Moods[j]
  {
    forall m: Mood
      ensures m in Moods
    {
      match m
      case Happy => assert Moods[0] == m;
      case Calm => assert Moods[1] == m;
      case Sad => assert Moods[2] == m;
      case Angry => assert Moods[3] == m;
      case Anxious => assert Moods[4] == m;
      case Excited => assert Moods[5] == m;
      case Grateful => assert Moods[6] == m;
      case Tired => assert Moods[7] == m;
    }
  }
}
