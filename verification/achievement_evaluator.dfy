/**
 Unlocking and listing achievements (backend/controllers/achievementController.js).
 The evaluator reads the user's unlocked keys and stats once, walks the
 catalog in order, skips unlocked keys, and inserts a record for each item
 whose rule holds. An insert that fails ends the walk and the failure reaches
 the caller; the records inserted before it stay. The records of one user are
 a map from key to unlock time, so there is at most one record per key.
 */
module AchievementEvaluator {
  import opened Results
  import opened AchievementCatalog
  import EntryModel
  import Queries
  import Streak
  import Calendar

  /** A timestamp of the clock the caller passes in. */
  type Time = int

  /** One user's achievement records: key to `unlocked_at` (`None` is a null column). */
  type Records = map<string, Option<Time>>

  /** The figures the evaluator gathers before walking the catalog. */
  datatype UserStats = UserStats(
    totalEntries: nat,
    totalWords: Option<nat>,  // `SUM` is null when the user has no entries
    uniqueMoods: nat,
    tagCount: nat,
    streak: nat)

  /** The rule of each category; a special item has its own rule per key. */
  predicate Qualifies(a: Achievement, st: UserStats) {
    match a.category
    case StreakCategory => st.streak >= a.threshold
    case EntriesCategory => st.totalEntries >= a.threshold
    case WordsCategory => st.totalWords.GetOr(0) >= a.threshold
    case Special =>
      if a.key == FirstEntryKey then st.totalEntries >= 1
      else if a.key == MoodVarietyKey then st.uniqueMoods >= 8
      else if a.key == TagMasterKey then st.tagCount >= 10
      else false
  }

  datatype Unlock = Unlock(achievement: Achievement, unlockedAt: Time)

  /** The result of one evaluation: the newly unlocked items, or the failure
      that ended it; either way the records as they are afterwards. */
  datatype Outcome =
    | Unlocked(newly: seq<Unlock>, records: Records)
    | Aborted(failure: Failure, records: Records)

  /** The catalog walk. `skip` is the set of keys read before the walk;
      `failing` holds the keys whose insert fails in the store. */
  function Evaluate(items: seq<Achievement>, skip: set<string>, st: UserStats,
                    records: Records, failing: set<string>, now: Time): Outcome
    decreases |items|
  {
    if |items| == 0 then Unlocked([], records)
    else
      var a := items[0];
      if a.key in skip || !Qualifies(a, st) then Evaluate(items[1..], skip, st, records, failing, now)
      // the (user, key) uniqueness constraint rejects a second record
      else if a.key in failing || a.key in records then Aborted(StoreFailure, records)
      else
        match Evaluate(items[1..], skip, st, records[a.key := Some(now)], failing, now)
        case Unlocked(newly, rs) => Unlocked([Unlock(a, now)] + newly, rs)
        case Aborted(f, rs) => Aborted(f, rs)
  }

  /** `checkAchievements`: evaluate the whole catalog against the user's records. */
  function CheckAchievements(st: UserStats, records: Records, failing: set<string>, now: Time): Outcome {
    Evaluate(All, records.Keys, st, records, failing, now)
  }

  /** Gathering the stats of one user from the store, with the 400-day streak walk. */
  function GatherStats(store: EntryModel.Store, user: EntryModel.Id, today: Calendar.Day): (st: UserStats)
    ensures var mine := Queries.OfUser(store.entries, user);
      && st.totalEntries == |mine|
      && st.totalWords == Queries.SumWords(mine)
      && st.uniqueMoods == |Queries.DistinctMoods(mine)| <= 8
      && st.tagCount == |Queries.TagsOf(store.tags, user)|
      && st.streak == Streak.StreakOf(Queries.DatesOf(mine), today, Streak.EvaluatorHorizon)
    ensures st.totalWords.None? <==> st.totalEntries == 0
    ensures st.streak <= Streak.EvaluatorHorizon
  {
    var mine := Queries.OfUser(store.entries, user);
    MoodsBounded(Queries.DistinctMoods(mine));
    UserStats(|mine|, Queries.SumWords(mine), |Queries.DistinctMoods(mine)|,
              Queries.TagCount(store.tags, user),
              Streak.StreakOf(Queries.DatesOf(mine), today, Streak.EvaluatorHorizon))
  }

  /** The gathered stats in terms of the user's rows: the word sum is the sum of
      the word counts (null without entries), the mood count is the number of
      different moods on the user's entries, and the streak is the longest run
      of dated days ending today, or yesterday when today has no entry, that the
      400-day walk can count. */
  lemma GatherStatsMeaning(store: EntryModel.Store, user: EntryModel.Id, today: Calendar.Day)
    ensures var st := GatherStats(store, user, today);
      var mine := Queries.OfUser(store.entries, user);
      var dates := set e | e in store.entries && e.userId == user :: e.date as int;
      var a := Streak.Anchor(dates, today);
      && (st.totalWords.None? <==> forall e | e in store.entries :: e.userId != user)
      && (st.totalWords.Some? ==> st.totalWords.value == Queries.TotalWords(mine))
      && st.uniqueMoods == |set e | e in store.entries && e.userId == user && e.mood.Some? :: e.mood.value|
      && Streak.RunOf(dates, a, st.streak)
      && (st.streak < Streak.Cap(dates, today, Streak.EvaluatorHorizon) ==> a - st.streak !in dates)
      && (today !in dates && today - 1 !in dates ==> st.streak == 0)
  {
    var mine := Queries.OfUser(store.entries, user);
    var dates := set e | e in store.entries && e.userId == user :: e.date as int;
    assert Queries.DatesOf(mine) == dates;
    var moods := set e | e in store.entries && e.userId == user && e.mood.Some? :: e.mood.value;
    assert Queries.DistinctMoods(mine) == moods;
    if |mine| > 0 {
      assert mine[0] in mine;
    }
    var st := GatherStats(store, user, today);
    Streak.StreakCharacterization(dates, today, Streak.EvaluatorHorizon, st.streak);
  }

  /** There are eight moods, so no more than eight distinct ones. */
  lemma MoodsBounded(ms: set<EntryModel.Mood>)
    ensures |ms| <= 8
  {
    EntryModel.MoodEnumeration();
    var all := set m | m in EntryModel.Moods;
    assert ms <= all;
    SetOfSeqSize(EntryModel.Moods);
    SubsetSize(ms, all);
  }

  lemma {:induction false} SetOfSeqSize<T>(s: seq<T>)
    ensures |set x | x in s| <= |s|
    decreases |s|
  {
    if |s| > 0 {
      SetOfSeqSize(s[1..]);
      assert (set x | x in s) <= (set x | x in s[1..]) + {s[0]};
      SubsetSize(set x | x in s, (set x | x in s[1..]) + {s[0]});
    }
  }

  lemma SubsetSize<T>(a: set<T>, b: set<T>)
    requires a <= b
    ensures |a| <= |b|
  {
    assert b == a + (b - a);
  }

  // ---- Reference definitions ----

  /** The catalog items an evaluation should unlock, in catalog order. */
  function Pending(items: seq<Achievement>, skip: set<string>, st: UserStats): seq<Achievement> {
    if |items| == 0 then []
    else if items[0].key !in skip && Qualifies(items[0], st) then [items[0]] + Pending(items[1..], skip, st)
    else Pending(items[1..], skip, st)
  }

  /** The longest prefix of `items` none of whose keys fails to insert. */
  function InsertedPrefix(items: seq<Achievement>, failing: set<string>): (p: seq<Achievement>)
    ensures |p| <= |items| && p == items[..|p|]
    ensures forall a | a in p :: a.key !in failing
    ensures |p| < |items| ==> items[|p|].key in failing
  {
    if |items| == 0 || items[0].key in failing then []
    else [items[0]] + InsertedPrefix(items[1..], failing)
  }

  /** The records with a record stamped `now` added for each item. */
  function Stamp(records: Records, items: seq<Achievement>, now: Time): Records {
    records + map k | k in KeySet(items) :: Some(now)
  }

  function KeySet(items: seq<Achievement>): set<string> {
    set a | a in items :: a.key
  }

  function Achievements(us: seq<Unlock>): seq<Achievement> {
    seq(|us|, i requires 0 <= i < |us| => us[i].achievement)
  }

  /** `p` is `s` with some items left out, the rest in their order. */
  ghost predicate Subsequence<T>(p: seq<T>, s: seq<T>)
    decreases |s|
  {
    |p| == 0 || (|s| > 0 && ((p[0] == s[0] && Subsequence(p[1..], s[1..])) || Subsequence(p, s[1..])))
  }

  // ---- The walk meets its reference definition ----

  /** What the walk over `items` does, against the reference definitions. */
  ghost predicate MeetsSpec(o: Outcome, pending: seq<Achievement>, records: Records,
                            failing: set<string>, now: Time)
  {
    var inserted := InsertedPrefix(pending, failing);
    && o.records == Stamp(records, inserted, now)
    && (o.Unlocked? <==> inserted == pending)
    && (o.Aborted? ==> o.failure == StoreFailure)
    && (o.Unlocked? ==> Achievements(o.newly) == pending && forall u | u in o.newly :: u.unlockedAt == now)
  }

  lemma {:induction false} EvaluateMeetsSpec(items: seq<Achievement>, skip: set<string>, st: UserStats,
                                             records: Records, failing: set<string>, now: Time)
    requires DistinctKeys(items)
    requires forall a | a in items && a.key in records :: a.key in skip
    ensures MeetsSpec(Evaluate(items, skip, st, records, failing, now), Pending(items, skip, st), records, failing, now)
    decreases |items|
  {
    var pending := Pending(items, skip, st);
    if |items| == 0 {
      StampNone(records, now);
    } else {
      var a := items[0];
      TailKeysDistinct(items);
      if a.key in skip || !Qualifies(a, st) {
        EvaluateMeetsSpec(items[1..], skip, st, records, failing, now);
      } else if a.key in failing {
        assert InsertedPrefix(pending, failing) == [];
        StampNone(records, now);
      } else {
        var records' := records[a.key := Some(now)];
        forall b | b in items[1..] && b.key in records'
          ensures b.key in skip
        {
          var j :| 0 <= j < |items[1..]| && items[1..][j] == b;
          assert items[j + 1] == b;
        }
        EvaluateMeetsSpec(items[1..], skip, st, records', failing, now);
        InsertStep(items, skip, st, records, failing, now);
      }
    }
  }

  /** The step that inserts the first item, given what the rest of the walk does. */
  lemma InsertStep(items: seq<Achievement>, skip: set<string>, st: UserStats,
                   records: Records, failing: set<string>, now: Time)
    requires |items| > 0 && items[0].key !in skip && Qualifies(items[0], st)
    requires items[0].key !in failing && items[0].key !in records
    requires var records' := records[items[0].key := Some(now)];
      MeetsSpec(Evaluate(items[1..], skip, st, records', failing, now), Pending(items[1..], skip, st), records', failing, now)
    ensures MeetsSpec(Evaluate(items, skip, st, records, failing, now), Pending(items, skip, st), records, failing, now)
  {
    var a := items[0];
    var records' := records[a.key := Some(now)];
    var rest := Pending(items[1..], skip, st);
    assert Pending(items, skip, st) == [a] + rest;
    var o' := Evaluate(items[1..], skip, st, records', failing, now);
    assert Evaluate(items, skip, st, records, failing, now) == Prepend(Unlock(a, now), o');
    MeetsSpecCons(o', a, rest, records, failing, now);
  }

  /** The outcome of a walk that inserted `u` before the walk that gave `o`. */
  function Prepend(u: Unlock, o: Outcome): Outcome {
    match o
    case Unlocked(newly, rs) => Unlocked([u] + newly, rs)
    case Aborted(f, rs) => Aborted(f, rs)
  }

  /** Inserting `a` in front of a walk that meets its specification meets the
      specification of the walk with `a` pending first. */
  lemma MeetsSpecCons(o: Outcome, a: Achievement, rest: seq<Achievement>,
                      records: Records, failing: set<string>, now: Time)
    requires a.key !in failing
    requires MeetsSpec(o, rest, records[a.key := Some(now)], failing, now)
    ensures MeetsSpec(Prepend(Unlock(a, now), o), [a] + rest, records, failing, now)
  {
    var inserted := InsertedPrefix(rest, failing);
    assert InsertedPrefix([a] + rest, failing) == [a] + inserted by {
      assert ([a] + rest)[1..] == rest;
    }
    StampCons(records, a, inserted, now);
    if o.Unlocked? {
      assert Achievements([Unlock(a, now)] + o.newly) == [a] + Achievements(o.newly);
    }
  }

  lemma TailKeysDistinct(items: seq<Achievement>)
    requires |items| > 0 && DistinctKeys(items)
    ensures DistinctKeys(items[1..])
  {
    forall i, j | 0 <= i < j < |items[1..]|
      ensures items[1..][i].key != items[1..][j].key
    {
      assert items[1..][i] == items[i + 1] && items[1..][j] == items[j + 1];
    }
  }

  lemma StampNone(records: Records, now: Time)
    ensures Stamp(records, [], now) == records
  {
    assert KeySet([]) == {};
  }

  lemma StampCons(records: Records, a: Achievement, inserted: seq<Achievement>, now: Time)
    ensures Stamp(records[a.key := Some(now)], inserted, now) == Stamp(records, [a] + inserted, now)
  {
    assert KeySet([a] + inserted) == {a.key} + KeySet(inserted);
    UpdateThenConst(records, a.key, Some(now), KeySet(inserted));
  }

  /** Setting one key and then a constant over a set of keys is setting the
      constant over the set with that key added. */
  lemma UpdateThenConst<K, V>(m: map<K, V>, k: K, v: V, ks: set<K>)
    ensures m[k := v] + (map x | x in ks :: v) == m + (map x | x in {k} + ks :: v)
  {
    var l, r := m[k := v] + (map x | x in ks :: v), m + (map x | x in {k} + ks :: v);
    assert l.Keys == r.Keys;
    forall x | x in l.Keys
      ensures l[x] == r[x]
    {
    }
  }

  lemma {:induction false} PendingIsSubsequence(items: seq<Achievement>, skip: set<string>, st: UserStats)
    ensures Subsequence(Pending(items, skip, st), items)
    ensures forall a | a in Pending(items, skip, st) :: a in items && a.key !in skip && Qualifies(a, st)
    ensures forall a | a in items && a.key !in skip && Qualifies(a, st) :: a in Pending(items, skip, st)
    decreases |items|
  {
    if |items| > 0 {
      PendingIsSubsequence(items[1..], skip, st);
      var p := Pending(items, skip, st);
      if items[0].key !in skip && Qualifies(items[0], st) {
        assert p[1..] == Pending(items[1..], skip, st);
      }
      forall a | a in items && a.key !in skip && Qualifies(a, st)
        ensures a in p
      {
        if a != items[0] {
          assert a in items[1..];
        }
      }
    }
  }

  // ---- Properties of `checkAchievements` ----

  /** A successful check unlocks exactly the qualifying items not yet unlocked,
      in catalog order, none of them unlocked before, and records each of them. */
  lemma CheckUnlocksPending(st: UserStats, records: Records, failing: set<string>, now: Time)
    ensures var o := CheckAchievements(st, records, failing, now);
      var pending := Pending(All, records.Keys, st);
      && (o.Unlocked? <==> forall a | a in pending :: a.key !in failing)
      && (o.Unlocked? ==> Achievements(o.newly) == pending && Subsequence(pending, All)
                          && (forall u | u in o.newly :: u.achievement.key !in records && Qualifies(u.achievement, st))
                          && o.records == Stamp(records, pending, now))
  {
    CatalogKeysDistinct();
    EvaluateMeetsSpec(All, records.Keys, st, records, failing, now);
    PendingIsSubsequence(All, records.Keys, st);
    var o := CheckAchievements(st, records, failing, now);
    var pending := Pending(All, records.Keys, st);
    InsertedAllIff(pending, failing);
    if o.Unlocked? {
      NewlyFromPending(o.newly, pending, records, st);
    }
  }

  /** The newly unlocked items are the pending ones, so they qualify and had no record. */
  lemma NewlyFromPending(newly: seq<Unlock>, pending: seq<Achievement>, records: Records, st: UserStats)
    requires Achievements(newly) == pending
    requires forall a | a in pending :: a.key !in records && Qualifies(a, st)
    ensures forall u | u in newly :: u.achievement in pending
    ensures forall u | u in newly :: u.achievement.key !in records && Qualifies(u.achievement, st)
  {
    forall u | u in newly
      ensures u.achievement in pending
    {
      var i :| 0 <= i < |newly| && newly[i] == u;
      assert Achievements(newly)[i] == u.achievement;
    }
  }

  /** Every pending item is inserted exactly when none of them fails. */
  lemma InsertedAllIff(pending: seq<Achievement>, failing: set<string>)
    ensures InsertedPrefix(pending, failing) == pending <==> forall a | a in pending :: a.key !in failing
  {
    if forall a | a in pending :: a.key !in failing {
      InsertedAll(pending, failing);
    }
  }

  lemma {:induction false} InsertedAll(items: seq<Achievement>, failing: set<string>)
    requires forall a | a in items :: a.key !in failing
    ensures InsertedPrefix(items, failing) == items
    decreases |items|
  {
    if |items| > 0 {
      InsertedAll(items[1..], failing);
    }
  }

  /** An insert that fails ends the walk: the items before it are recorded, the
      failing one and every later one are not, and the failure is reported. */
  lemma CheckAbortsAtFirstFailure(st: UserStats, records: Records, failing: set<string>, now: Time, k: nat)
    requires var pending := Pending(All, records.Keys, st);
      k < |pending| && pending[k].key in failing && forall j :: 0 <= j < k ==> pending[j].key !in failing
    ensures var o := CheckAchievements(st, records, failing, now);
      var pending := Pending(All, records.Keys, st);
      && o == Aborted(StoreFailure, Stamp(records, pending[..k], now))
      && (forall j :: k <= j < |pending| ==> pending[j].key !in o.records)
  {
    CatalogKeysDistinct();
    EvaluateMeetsSpec(All, records.Keys, st, records, failing, now);
    var pending := Pending(All, records.Keys, st);
    PendingKeysDistinct(pending, st, records);
    AbortsAt(CheckAchievements(st, records, failing, now), pending, records, failing, now, k);
  }

  /** A walk meeting its specification over fresh, distinct keys stops at the
      first failing item and records exactly the items before it. */
  lemma AbortsAt(o: Outcome, pending: seq<Achievement>, records: Records, failing: set<string>, now: Time, k: nat)
    requires MeetsSpec(o, pending, records, failing, now)
    requires DistinctKeys(pending) && forall a | a in pending :: a.key !in records
    requires k < |pending| && pending[k].key in failing && forall j :: 0 <= j < k ==> pending[j].key !in failing
    ensures o == Aborted(StoreFailure, Stamp(records, pending[..k], now))
    ensures forall j :: k <= j < |pending| ==> pending[j].key !in o.records
  {
    InsertedUpTo(pending, failing, k);
    assert pending[..k] != pending by {
      assert |pending[..k]| < |pending|;
    }
    PrefixKeysExclude(pending, k);
    forall j | k <= j < |pending|
      ensures pending[j].key !in records
    {
      assert pending[j] in pending;
    }
  }

  /** With distinct keys, no later item's key is among a prefix's keys. */
  lemma PrefixKeysExclude(items: seq<Achievement>, k: nat)
    requires k <= |items| && DistinctKeys(items)
    ensures forall j | k <= j < |items| :: items[j].key !in KeySet(items[..k])
  {
    forall j, b | k <= j < |items| && b in items[..k]
      ensures b.key != items[j].key
    {
      var i :| 0 <= i < k && items[..k][i] == b;
      assert items[i] == b;
    }
  }

  /** The inserted prefix ends just before the first failing item. */
  lemma {:induction false} InsertedUpTo(items: seq<Achievement>, failing: set<string>, k: nat)
    requires k < |items| && items[k].key in failing
    requires forall j :: 0 <= j < k ==> items[j].key !in failing
    ensures InsertedPrefix(items, failing) == items[..k]
    decreases k
  {
    if k > 0 {
      assert items[0].key !in failing;
      var tail := items[1..];
      assert tail[k - 1] == items[k];
      forall j | 0 <= j < k - 1
        ensures tail[j].key !in failing
      {
        assert tail[j] == items[j + 1];
      }
      InsertedUpTo(tail, failing, k - 1);
      assert items[..k] == [items[0]] + tail[..k - 1];
    }
  }

  lemma PendingKeysDistinct(pending: seq<Achievement>, st: UserStats, records: Records)
    requires pending == Pending(All, records.Keys, st)
    ensures DistinctKeys(pending)
    ensures forall a | a in pending :: a.key !in records
  {
    CatalogKeysDistinct();
    PendingIsSubsequence(All, records.Keys, st);
    SubsequenceKeysDistinct(pending, All);
  }

  lemma {:induction false} SubsequenceKeysDistinct(p: seq<Achievement>, s: seq<Achievement>)
    requires Subsequence(p, s) && DistinctKeys(s)
    ensures DistinctKeys(p)
    decreases |s|
  {
    if |p| > 0 {
      TailKeysDistinct(s);
      if p[0] == s[0] && Subsequence(p[1..], s[1..]) {
        SubsequenceKeysDistinct(p[1..], s[1..]);
        SubsequenceMembers(p[1..], s[1..]);
        forall i, j | 0 <= i < j < |p|
          ensures p[i].key != p[j].key
        {
          if i == 0 {
            assert p[j] == p[1..][j - 1] && p[1..][j - 1] in p[1..];
            assert p[j] in s[1..];
            var m :| 0 <= m < |s[1..]| && s[1..][m] == p[j];
            assert s[m + 1] == p[j];
          } else {
            assert p[i] == p[1..][i - 1] && p[j] == p[1..][j - 1];
          }
        }
      } else {
        SubsequenceKeysDistinct(p, s[1..]);
      }
    }
  }

  lemma {:induction false} SubsequenceMembers<T>(p: seq<T>, s: seq<T>)
    requires Subsequence(p, s)
    ensures forall x | x in p :: x in s
    decreases |s|
  {
    if |p| > 0 {
      if p[0] == s[0] && Subsequence(p[1..], s[1..]) {
        SubsequenceMembers(p[1..], s[1..]);
        forall x | x in p
          ensures x in s
        {
          if x != p[0] {
            assert x in p[1..];
          }
        }
      } else {
        SubsequenceMembers(p, s[1..]);
      }
    }
  }

  /** Achievements are never revoked: whatever the stats (say, after entries were
      deleted) and whatever fails, every existing record keeps its timestamp. */
  lemma CheckIsMonotone(st: UserStats, records: Records, failing: set<string>, now: Time)
    ensures var o := CheckAchievements(st, records, failing, now);
      forall k | k in records :: k in o.records && o.records[k] == records[k]
  {
    CatalogKeysDistinct();
    EvaluateMeetsSpec(All, records.Keys, st, records, failing, now);
    var pending := Pending(All, records.Keys, st);
    PendingKeysDistinct(pending, st, records);
    var inserted := InsertedPrefix(pending, failing);
    forall k, b | k in records && b in inserted
      ensures b.key != k
    {
      var i :| 0 <= i < |inserted| && inserted[i] == b;
      assert pending[i] == b && pending[i] in pending;
    }
  }

  /** Running the check again with unchanged stats unlocks nothing and changes nothing. */
  lemma CheckIsIdempotent(st: UserStats, records: Records, failing: set<string>, now: Time,
                          failing': set<string>, later: Time)
    requires CheckAchievements(st, records, failing, now).Unlocked?
    ensures var rs := CheckAchievements(st, records, failing, now).records;
      CheckAchievements(st, rs, failing', later) == Unlocked([], rs)
  {
    CheckUnlocksPending(st, records, failing, now);
    var pending := Pending(All, records.Keys, st);
    var rs := CheckAchievements(st, records, failing, now).records;
    PendingIsSubsequence(All, records.Keys, st);
    forall a | a in All && Qualifies(a, st)
      ensures a.key in rs
    {
      if a.key !in records {
        assert a in pending;
        assert a.key in KeySet(pending);
      }
    }
    PendingEmpty(All, rs.Keys, st);
    CatalogKeysDistinct();
    EvaluateMeetsSpec(All, rs.Keys, st, rs, failing', later);
    StampNone(rs, later);
  }

  lemma {:induction false} PendingEmpty(items: seq<Achievement>, skip: set<string>, st: UserStats)
    requires forall a | a in items :: a.key in skip || !Qualifies(a, st)
    ensures Pending(items, skip, st) == []
    decreases |items|
  {
    if |items| > 0 {
      assert items[0] in items;
      PendingEmpty(items[1..], skip, st);
    }
  }

  // ---- Listing ----

  datatype Listed = Listed(achievement: Achievement, unlocked: bool, unlockedAt: Option<Time>)

  /** `list`: the catalog in order, each item marked unlocked when it has a
      record with a timestamp. */
  function ListAchievements(records: Records): (r: seq<Listed>)
    ensures |r| == |All|
    ensures forall i :: 0 <= i < |r| ==> r[i].achievement == All[i]
    ensures forall i :: 0 <= i < |r| ==>
              (r[i].unlocked <==> All[i].key in records && records[All[i].key].Some?)
    ensures forall i :: 0 <= i < |r| ==> (r[i].unlocked <==> r[i].unlockedAt.Some?)
  {
    seq(|All|, i requires 0 <= i < |All| =>
      var at := if All[i].key in records then records[All[i].key] else None;
      Listed(All[i], at.Some?, at))
  }

  /** After any check, every item listed unlocked before is still listed unlocked
      with the same time, and a successful check lists each newly unlocked item
      as unlocked at the check's time. */
  lemma ListAfterCheck(st: UserStats, records: Records, failing: set<string>, now: Time)
    ensures var before := ListAchievements(records);
      var o := CheckAchievements(st, records, failing, now);
      var after := ListAchievements(o.records);
      && (forall i :: 0 <= i < |All| && before[i].unlocked ==> after[i] == before[i])
      && (o.Unlocked? ==> forall u | u in o.newly :: exists i :: 0 <= i < |All| && after[i] == Listed(u.achievement, true, Some(now)))
  {
    var o := CheckAchievements(st, records, failing, now);
    CheckIsMonotone(st, records, failing, now);
    ListKeepsUnlocked(records, o.records);
    if o.Unlocked? {
      CheckUnlocksPending(st, records, failing, now);
      ListShowsNewly(o.newly, Pending(All, records.Keys, st), records, o.records, now);
    }
  }

  /** Records that keep every old record list every unlocked item as before. */
  lemma ListKeepsUnlocked(records: Records, rs: Records)
    requires forall k | k in records :: k in rs && rs[k] == records[k]
    ensures forall i :: 0 <= i < |All| && ListAchievements(records)[i].unlocked ==>
      ListAchievements(rs)[i] == ListAchievements(records)[i]
  {
  }

  /** Stamping the pending items lists each newly unlocked one as unlocked now. */
  lemma ListShowsNewly(newly: seq<Unlock>, pending: seq<Achievement>, records: Records, rs: Records, now: Time)
    requires Achievements(newly) == pending && Subsequence(pending, All)
    requires rs == Stamp(records, pending, now)
    ensures forall u | u in newly :: exists i :: 0 <= i < |All| && ListAchievements(rs)[i] == Listed(u.achievement, true, Some(now))
  {
    SubsequenceMembers(pending, All);
    forall u | u in newly
      ensures exists i :: 0 <= i < |All| && ListAchievements(rs)[i] == Listed(u.achievement, true, Some(now))
    {
      var j :| 0 <= j < |newly| && newly[j] == u;
      assert Achievements(newly)[j] == u.achievement;
      StampHas(records, pending, u.achievement, now);
      ListedUnlocked(rs, u.achievement, now);
    }
  }

  /** Stamping items records each of them at the stamp's time. */
  lemma StampHas(records: Records, items: seq<Achievement>, a: Achievement, now: Time)
    requires a in items
    ensures a.key in Stamp(records, items, now) && Stamp(records, items, now)[a.key] == Some(now)
  {
    assert a.key in KeySet(items);
  }

  /** A catalog item with a timestamped record is listed unlocked at that time. */
  lemma ListedUnlocked(rs: Records, a: Achievement, now: Time)
    requires a in All && a.key in rs && rs[a.key] == Some(now)
    ensures exists i :: 0 <= i < |All| && ListAchievements(rs)[i] == Listed(a, true, Some(now))
  {
    var i :| 0 <= i < |All| && All[i] == a;
    assert ListAchievements(rs)[i] == Listed(a, true, Some(now));
  }

  /** For the catalog's special items, the bespoke rule is "measure ≥ threshold". */
  lemma SpecialRulesMatchThresholds(st: UserStats)
    ensures Qualifies(All[11], st) <==> st.totalEntries >= All[11].threshold
    ensures Qualifies(All[12], st) <==> st.uniqueMoods >= All[12].threshold
    ensures Qualifies(All[13], st) <==> st.tagCount >= All[13].threshold
  {
    CatalogThresholds();
  }

  /** The catalog's streak, entries and words items qualify when the measure
      reaches the threshold; a null word sum (no entries) reaches none. */
  lemma CategoryRules(st: UserStats)
    ensures forall i | 0 <= i < 4 :: Qualifies(All[i], st) <==> st.streak >= All[i].threshold
    ensures forall i | 4 <= i < 8 :: Qualifies(All[i], st) <==> st.totalEntries >= All[i].threshold
    ensures forall i | 8 <= i < 11 ::
      Qualifies(All[i], st) <==> st.totalWords.Some? && st.totalWords.value >= All[i].threshold
  {
    CatalogThresholds();
  }
}
