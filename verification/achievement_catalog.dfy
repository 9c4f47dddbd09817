/**
 The fixed achievement catalog (backend/models/Achievement.js): fourteen
 definitions in a fixed order, each with a stable key, a category and a
 threshold read according to the category.
 */
module AchievementCatalog {

  datatype Category = StreakCategory | EntriesCategory | WordsCategory | Special

  datatype Achievement = Achievement(key: string, category: Category, threshold: nat)

  const All: seq<Achievement> := [
    Achievement("streak_7", StreakCategory, 7),
    Achievement("streak_30", StreakCategory, 30),
    Achievement("streak_100", StreakCategory, 100),
    Achievement("streak_365", StreakCategory, 365),
    Achievement("entries_10", EntriesCategory, 10),
    Achievement("entries_50", EntriesCategory, 50),
    Achievement("entries_100", EntriesCategory, 100),
    Achievement("entries_365", EntriesCategory, 365),
    Achievement("words_10000", WordsCategory, 10000),
    Achievement("words_50000", WordsCategory, 50000),
    Achievement("words_100000", WordsCategory, 100000),
    Achievement("first_entry", Special, 1),
    Achievement("mood_variety", Special, 8),
    Achievement("tag_master", Special, 10)
  ]

  const FirstEntryKey := "first_entry"
  const MoodVarietyKey := "mood_variety"
  const TagMasterKey := "tag_master"

  /** The position of a category in the catalog's grouping. */
  function Rank(c: Category): nat {
    match c
    case StreakCategory => 0
    case EntriesCategory => 1
    case WordsCategory => 2
    case Special => 3
  }

  ghost predicate DistinctKeys(items: seq<Achievement>) {
    forall i, j :: 0 <= i < j < |items| ==> items[i].key != items[j].key
  }

  const Keys: seq<string> := ["streak_7", "streak_30", "streak_100", "streak_365",
                              "entries_10", "entries_50", "entries_100", "entries_365",
                              "words_10000", "words_50000", "words_100000",
                              "first_entry", "mood_variety", "tag_master"]

  /** Fourteen items with pairwise distinct keys: the keys are the fourteen
      listed strings, and no two of those are equal. */
  lemma CatalogKeysDistinct()
    ensures |All| == 14
    ensures forall i | 0 <= i < |All| :: All[i].key == Keys[i]
    ensures DistinctKeys(All)
  {
    forall i, j | 0 <= i < j < |All|
      ensures All[i].key != All[j].key
    {
      KeyCodes();
      assert Code(All[i].key) != Code(All[j].key);
    }
  }

  /** A proof device telling the keys apart: the length and the fifth and
      second characters from the end. */
  function Code(k: string): int
    requires |k| >= 5
  {
    |k| * 65536 + (k[|k| - 5] as int) * 256 + (k[|k| - 2] as int)
  }

  const Codes: seq<int> := [550239, 614707, 682800, 682806, 681265, 681269, 750384,
                            750390, 733488, 734512, 798768, 746866, 815732, 680293]

  lemma KeyCodes()
    ensures forall i | 0 <= i < |All| :: |All[i].key| >= 5 && Code(All[i].key) == Codes[i]
    ensures forall i, j | 0 <= i < j < |Codes| :: Codes[i] != Codes[j]
  {
    CodesDistinct();
  }

  lemma CodesDistinct()
    ensures forall i, j | 0 <= i < j < |Codes| :: Codes[i] != Codes[j]
  {
  }

  /** Items are grouped streak, entries, words, special, and thresholds ascend within a group. */
  lemma CatalogOrder()
    ensures forall i, j :: 0 <= i < j < |All| ==> Rank(All[i].category) <= Rank(All[j].category)
    ensures forall i, j ::
              0 <= i < j < |All| && All[i].category == All[j].category ==> All[i].threshold < All[j].threshold
  {
  }

  /** The group thresholds, and the special items' thresholds 1, 8 and 10. */
  lemma CatalogThresholds()
    ensures seq(4, i requires 0 <= i < 4 => All[i].threshold) == [7, 30, 100, 365]
    ensures seq(4, i requires 0 <= i < 4 => All[4 + i].threshold) == [10, 50, 100, 365]
    ensures seq(3, i requires 0 <= i < 3 => All[8 + i].threshold) == [10000, 50000, 100000]
    ensures All[11] == Achievement(FirstEntryKey, Special, 1)
    ensures All[12] == Achievement(MoodVarietyKey, Special, 8)
    ensures All[13] == Achievement(TagMasterKey, Special, 10)
  {
  }
}
