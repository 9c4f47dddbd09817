# Journal metrics engine — a Dafny model

This project models the derived-metrics core of a personal journal application
(an Express/Sequelize backend with a React front end). The journal stores a
user's entries, each with a date, a mood, tags, rich-text content and a
derived plain text and word count. The core is the logic that computes things
from those entries:

- the **writing streak**, a backwards walk over the entry dates from today,
  with a 400-day horizon in the achievement check and 365 days in the overview;
- the **achievement evaluator**, which walks the fixed 14-item catalog and
  unlocks qualifying items; `list` then marks each catalog item unlocked or not;
- the **writing goal**: lazy creation with defaults, partial updates,
  percentages of the daily and weekly goals, and the Monday that starts the week;
- the **memories**: on-this-day entries with their `yearsAgo`, a random memory,
  the timeline grouped by year and month with its paging and its list of years,
  and the dense heatmap of one year with its totals;
- the **statistics**: the overview, the mood breakdown, the per-day activity and
  the tag ranking;
- the **entry controller**: `stripHtml` and the word count, tag resolution,
  create, update, remove and pin toggle, the ownership checks, and the list with
  its filters, ordering and paging through `paginate`;
- on the client, the heatmap's colour scale, its week grid and month labels,
  and the entry store's list operations.

The database is a value. A `Store` holds one sequence of entries and one
sequence of tag rows for all users, and every query is a pure function over it.
Calendar days are integers counted from 0001-01-01. `Calendar` defines the
years, months, days of the month and weekdays on them, with round-trip lemmas
in both directions. The clock (`today`, `now`), the random choice of
`randomMemory` (`pick`), the ids the database generates (`id`) and the record
inserts that fail (`failing`) are all parameters. Store errors are the
`Failure` values of `Results`.

Modules, one per file:

- `Results`, `Calendar`, `PlainText`, `Sorting`, `Pagination`: the support
  modules;
- `EntryModel`, `Queries`: the data model and the shared aggregates;
- `Streak`, `AchievementCatalog`, `AchievementEvaluator`, `WritingGoals`:
  achievements and goals;
- `Stats`, `Memories`, `Heatmap`: statistics and memories;
- `Entries`: the entry controller;
- `HeatmapView`, `ClientStore`: the client side.

`Achievement.create` in the achievement check
(backend/controllers/achievementController.js:65-66) is not inside a `try`, so
an insert that fails, a duplicate unlock among them, ends the check.
`AchievementEvaluator` models that.

## Model

| member | source | states |
|---|---|---|
| Pagination.Paginate | backend/utils/pagination.js:1-4 | The limit is clamped into 1..100, keeping an in-range limit. The offset is a whole number of pages: offset / limit + 1 is the page clamped to at least 1. |
| Pagination.DefaultWindow | backend/utils/pagination.js:1-4 | Called with the defaults (page 1, limit 20), paginate fetches 20 rows from offset 0. |
| Pagination.PagesPartitionRows | backend/utils/pagination.js:2-4 | For any limit, every row position lies on exactly one page, the page k / limit + 1. |
| Pagination.RowOnItsPage | backend/utils/pagination.js:4 | Row k of a result is among the rows of the page that the partition assigns it. |
| Pagination.PageWith | backend/utils/pagination.js:4 | Every row of a result is fetched by some page. |
| Pagination.Slice | backend/controllers/entryController.js:60-69 | LIMIT/OFFSET keep the rows offset .. offset+limit-1 that exist, in order, and no more than limit of them. |
| Pagination.CeilPages | backend/controllers/entryController.js:77 | `Math.ceil(count / limit)` in JavaScript numbers. A zero limit gives NaN for no rows and Infinity otherwise. A positive limit gives the least n with n * limit >= count. |
| Pagination.PageCount | backend/controllers/entryController.js:67-77 | The page count of the limit the rows are actually fetched with is a finite natural number. |
| Pagination.PageCountCoversRows | backend/controllers/entryController.js:67-77 | With the fetch limit, every row's page is within the page count, and every page up to the count starts at an existing row. |
| EntryModel.BuildEntry | backend/models/Entry.js:19-51 | An insert fails validation exactly when the title is not 1..300 characters long. Otherwise the omitted word count defaults to 0 and the omitted pin flag to false, and the given columns are kept. |
| EntryModel.MoodNamed | backend/models/Entry.js:3 | A string is read as a mood exactly when it is one of the eight names, and the mood read has that name. |
| EntryModel.MoodNamesRoundTrip | backend/models/Entry.js:3 | Every mood reads back from its name. |
| EntryModel.MoodEnumeration | backend/models/Entry.js:34-37 | The mood column admits exactly eight distinct values, and every mood is one of them. |
| Calendar.MonthsFillYear | backend/controllers/memoryController.js:139-151 | The twelve months together are exactly the length of the year: 365 days, or 366 in a leap year. |
| Calendar.YearOf | backend/controllers/memoryController.js:83-84 | The year of a day is the one whose span from January 1 contains it. |
| Calendar.YearOfUnique | backend/controllers/memoryController.js:83-84 | Any year whose span contains the day is its year. |
| Calendar.MonthOf | backend/controllers/memoryController.js:83-84 | The month of a day is between 1 and 12, and the day of the year falls within that month's span. |
| Calendar.MonthOfUnique | backend/controllers/memoryController.js:83-84 | Any month whose span contains the day of the year is its month. |
| Calendar.DayOfMonth | frontend/src/components/Heatmap.jsx:71-72 | The day of the month lies between 1 and the length of its month. |
| Calendar.CivilRoundTrip | backend/controllers/memoryController.js:83-84 | A day read as year, month and day of the month is a valid date that converts back to the same day. |
| Calendar.DayRoundTrip | backend/controllers/memoryController.js:67 | A valid civil date converts to a day whose year, month and day of the month are the date's. |
| Calendar.YearMonthMonotone | backend/controllers/memoryController.js:74-87 | A later day never lies in an earlier (year, month). |
| Calendar.YearMonotone | backend/controllers/memoryController.js:90-93 | A later day never lies in an earlier year, so descending dates give descending years. |
| Calendar.InYearIff | backend/controllers/memoryController.js:121 | A day lies in year y exactly when it is between y-01-01 and y-12-31. |
| Calendar.Weekday | frontend/src/components/Heatmap.jsx:35-36 | `getDay` is a weekday number 0..6. |
| Calendar.YearStartClosedForm | backend/controllers/memoryController.js:121 | January 1 of a year lies 365 days per earlier year, plus one per Gregorian leap year, after 0001-01-01. |
| Calendar.Jan1Weekday | frontend/src/components/Heatmap.jsx:35-36 | The weekday of January 1 advances one per year and two after a leap year. |
| Calendar.WeekdayAnchors | frontend/src/components/Heatmap.jsx:35-36 | The weekday numbering is JavaScript's: 1970-01-01 comes out a Thursday (4) and 2024-01-01 a Monday (1). |
| Calendar.IsoWeekday | backend/controllers/achievementController.js:161 | `getDay() \|\| 7` is 1..7 and agrees with the weekday modulo 7: Sunday becomes 7. |
| Calendar.FirstOfMonth | backend/controllers/statsController.js:39 | The first day of the current month is in the same year and month, has day of the month 1, and is at most 30 days back. |
| PlainText.IndexOf | backend/controllers/entryController.js:6 | The first `c` at or after a position: it is a `c`, and no earlier position from there holds one. |
| PlainText.ReplaceTags | backend/controllers/entryController.js:6 | Replacing each `<…>` span by a space never lengthens the text. |
| PlainText.ReplaceTagsLeavesNoTag | backend/controllers/entryController.js:6 | After the tag replacement, no `<` has a `>` anywhere after it. |
| PlainText.NoCloseUnchanged | backend/controllers/entryController.js:6 | Text without any `>` is left unchanged by the tag replacement. |
| PlainText.Collapse | backend/controllers/entryController.js:6 | Collapsing whitespace runs never lengthens the text and keeps whether it starts with whitespace. |
| PlainText.CollapseShape | backend/controllers/entryController.js:6 | After collapsing, no two whitespace characters are adjacent, and every whitespace character is a plain space. |
| PlainText.CollapseKeepsChars | backend/controllers/entryController.js:6 | A non-whitespace character occurs in the collapsed text exactly when it occurs in the original. |
| PlainText.CollapseKeepsNoTag | backend/controllers/entryController.js:6 | Collapsing whitespace cannot create a tag. |
| PlainText.Trim | backend/controllers/entryController.js:12 | `trim` gives a contiguous piece of the text with no whitespace at either end. |
| PlainText.StripHtml | backend/controllers/entryController.js:6 | The plain text has no whitespace at either end, no two adjacent whitespace characters, only plain spaces and no complete tag, and it is no longer than the HTML. |
| PlainText.StripHtmlIdempotent | backend/controllers/entryController.js:6 | Stripping already stripped text changes nothing. |
| PlainText.StripHtmlWordCount | backend/controllers/entryController.js:105-106 | Collapsing and trimming only touch whitespace: the word count of the stripped text is that of the text with its tags replaced. |
| PlainText.NoTagNoClose | backend/controllers/entryController.js:6 | Text without a complete tag passes through the tag replacement unchanged, even when it holds a lone `>`. |
| PlainText.CollapseNormal | backend/controllers/entryController.js:6 | Text with single plain spaces only is left unchanged by the collapse. |
| PlainText.TrimNormal | backend/controllers/entryController.js:6 | Text without surrounding whitespace is left unchanged by `trim`. |
| PlainText.RemoveSpaces | backend/controllers/entryController.js:106 | Removing whitespace leaves no whitespace and never lengthens the text. |
| PlainText.JsLength | backend/controllers/entryController.js:106 | `.length` counts UTF-16 code units: between the number of characters and twice it, and equal to the number of characters exactly when none lies above U+FFFF. |
| PlainText.WordCount | backend/controllers/entryController.js:105-106 | The word count is the `.length` of the text without whitespace: the UTF-16 code units of the non-whitespace characters, at least their number and at most twice it. It is at most the text's own `.length`, and equal to it exactly when the text has no whitespace. |
| PlainText.WordCountOfAstral | backend/controllers/entryController.js:106 | A character above U+FFFF, such as an emoji, adds two to the word count. |
| PlainText.RemoveSpacesCounts | backend/controllers/entryController.js:106 | The `.length` after removing whitespace is the code-unit count of the non-whitespace characters. It is at most the text's `.length`, and equal to it exactly when no character is whitespace. |
| Queries.Select | backend/controllers/statsController.js:9-12 | A `where` clause keeps exactly the entries satisfying it, and never more entries than it was given. |
| Queries.OfUser | backend/controllers/statsController.js:9-12 | `where: { userId }` keeps exactly that user's entries. |
| Queries.SumWords | backend/controllers/statsController.js:10 | `SUM(word_count)` is null exactly over no rows, and otherwise is the word total. |
| Queries.DistinctMoods | backend/controllers/achievementController.js:20 | The distinct non-null moods are exactly the moods some entry carries. |
| Queries.DatesOf | backend/controllers/achievementController.js:34 | The date set holds exactly the dates some entry has. |
| Queries.TagsOf | backend/controllers/achievementController.js:21 | The user's tag rows are exactly the rows with that user. |
| Queries.DailyRows | backend/controllers/memoryController.js:118-131 | The per-date aggregate has strictly ascending dates within the range, each with a positive count. |
| Queries.DailyRowsValues | backend/controllers/memoryController.js:124-127 | Each aggregate row holds its date's entry count and word total. |
| Queries.DailyRowsComplete | backend/controllers/memoryController.js:118-131 | Every day of the range that has entries has a row. |
| Queries.DailyRowsTotals | backend/controllers/memoryController.js:154-156 | The rows' counts add up to the number of entries in the range, and their words to the range's word total. |
| Sorting.Insert | backend/controllers/entryController.js:63-66 | Inserting into a sorted list keeps it sorted and adds exactly that item. |
| Sorting.SortBy | backend/controllers/entryController.js:63-66 | `ORDER BY` gives a sorted permutation of its input. |
| Streak.RunLength | backend/controllers/achievementController.js:31-41 | The counted run never exceeds the number of days the walk may visit. |
| Streak.RunLengthIsMaximal | backend/controllers/achievementController.js:31-41 | All the counted days have entries, and the day just past a run shorter than the cap has none. |
| Streak.RunLengthUnique | backend/controllers/achievementController.js:31-41 | Any length with that maximal-run property is the run length. |
| Streak.StreakCharacterization | backend/controllers/achievementController.js:31-41 | The streak is the length of the run of consecutive dated days ending today, or yesterday when today has none, cut at the horizon. It is 0 when both today and yesterday are missing. |
| Streak.Walk | backend/controllers/achievementController.js:31-41 | The loop with its `break` computes that streak and never exceeds the horizon. |
| Streak.RunLengthCut | backend/controllers/statsController.js:25-31 | A shorter walk stops at the same place or at its own horizon. |
| Streak.HorizonsAgree | backend/controllers/statsController.js:25-31 | The 365-day overview streak is the 400-day evaluator streak, capped. |
| Streak.Scenarios | backend/controllers/achievementController.js:35-41 | Three days ending today give 3. Two days ending yesterday give 2. A gap of two days gives 0. |
| AchievementCatalog.CatalogKeysDistinct | backend/models/Achievement.js:4-23 | The catalog has 14 items whose keys are the fourteen listed strings, in order, and no two keys are equal. |
| AchievementCatalog.CatalogOrder | backend/models/Achievement.js:6-18 | The items are grouped streak, entries, words, special, and thresholds strictly ascend within a group. |
| AchievementCatalog.CatalogThresholds | backend/models/Achievement.js:6-22 | The thresholds are 7/30/100/365, 10/50/100/365 and 10000/50000/100000; the special items are first_entry (1), mood_variety (8) and tag_master (10). |
| AchievementEvaluator.GatherStats | backend/controllers/achievementController.js:17-41 | The stats are the user's entry count, the `SUM` of their word counts (null exactly when there are no entries), the number of distinct moods on them (at most 8), the number of the user's tag rows, and the 400-day streak walk over their dates. |
| AchievementEvaluator.GatherStatsMeaning | backend/controllers/achievementController.js:17-41 | In terms of the user's rows: the word sum is null exactly when the user has no entry and otherwise the sum of the word counts, the mood count is the number of different moods used, and the streak is a run of dated days ending today (or yesterday when today has no entry) that stops at an undated day unless the 400-day walk ends first; with neither today nor yesterday dated it is 0. |
| AchievementEvaluator.MoodsBounded | backend/models/Entry.js:34-37 | No more than eight distinct moods can ever be counted. |
| AchievementEvaluator.InsertedPrefix | backend/controllers/achievementController.js:65-66 | The inserts that succeed are the pending items up to, not including, the first failing one. |
| AchievementEvaluator.EvaluateMeetsSpec | backend/controllers/achievementController.js:44-69 | The catalog walk records exactly the inserted prefix of the pending items. It succeeds exactly when every pending item was inserted, then returning the pending items stamped now. Otherwise it fails with the store's failure. |
| AchievementEvaluator.InsertStep | backend/controllers/achievementController.js:65-68 | A qualifying item whose insert succeeds is recorded, and the walk continues with the rest. |
| AchievementEvaluator.MeetsSpecCons | backend/controllers/achievementController.js:65-68 | Putting a successful insert in front of a walk that meets its specification still meets it. |
| AchievementEvaluator.PendingIsSubsequence | backend/controllers/achievementController.js:44-63 | The pending items are exactly the catalog items not yet unlocked that qualify, in catalog order. |
| AchievementEvaluator.CheckUnlocksPending | backend/controllers/achievementController.js:44-71 | The check succeeds exactly when no pending insert fails. It then unlocks, in catalog order, exactly the qualifying items that had no record, and adds one record stamped now for each. |
| AchievementEvaluator.NewlyFromPending | backend/controllers/achievementController.js:44-68 | The newly unlocked items qualify and had no record before. |
| AchievementEvaluator.InsertedAllIff | backend/controllers/achievementController.js:65-66 | Every pending item is inserted exactly when none of their inserts fails. |
| AchievementEvaluator.CheckAbortsAtFirstFailure | backend/controllers/achievementController.js:65-66 | A failing insert ends the check with a store failure. Only the items before it are recorded, and no later item is. |
| AchievementEvaluator.AbortsAt | backend/controllers/achievementController.js:65-66 | A walk over fresh, distinct keys that meets its specification stops at the first failing item. |
| AchievementEvaluator.PendingKeysDistinct | backend/models/Achievement.js:52-54 | The pending items have distinct keys, none already recorded, so there is at most one record per key. |
| AchievementEvaluator.CheckIsMonotone | backend/controllers/achievementController.js:44-45 | Achievements are never revoked: every existing record survives a check unchanged, whatever the stats. |
| AchievementEvaluator.CheckIsIdempotent | backend/controllers/achievementController.js:8-45 | A second check with unchanged stats unlocks nothing and changes no record. |
| AchievementEvaluator.PendingEmpty | backend/controllers/achievementController.js:44-65 | When every item is unlocked already or unqualified, nothing is pending. |
| AchievementEvaluator.ListAchievements | backend/controllers/achievementController.js:81-90 | `list` shows every catalog item once, in catalog order. An item is unlocked exactly when its key has a timestamped record, and it carries that timestamp exactly when unlocked. |
| AchievementEvaluator.ListAfterCheck | backend/controllers/achievementController.js:81-90 | After a check, every item listed unlocked before is listed the same. Each newly unlocked item is listed unlocked at the check's time. |
| AchievementEvaluator.ListKeepsUnlocked | backend/controllers/achievementController.js:81-90 | Records that keep every old record list every unlocked item as before. |
| AchievementEvaluator.ListShowsNewly | backend/controllers/achievementController.js:81-90 | Stamping the pending items lists each of them as unlocked at the stamp's time. |
| AchievementEvaluator.ListedUnlocked | backend/controllers/achievementController.js:86-90 | A catalog item with a timestamped record is listed unlocked at that time. |
| AchievementEvaluator.CategoryRules | backend/controllers/achievementController.js:48-57 | A streak, entries or words item qualifies exactly when its measure reaches the threshold. A null word sum (no entries) reaches no words threshold. |
| AchievementEvaluator.SpecialRulesMatchThresholds | backend/controllers/achievementController.js:58-62 | The bespoke rules of the special items are "measure at least the item's threshold". |
| WritingGoals.ValidateGoalPatch | backend/routes/achievements.js:15-22 | A goal update is accepted exactly when every supplied field is in range: 50..10000 words, 1..14 entries and a `dd:dd` time. |
| WritingGoals.LoadGoal | backend/controllers/achievementController.js:111-114 | An existing goal is used as it is; a missing one is created with the defaults. |
| WritingGoals.GetGoal | backend/controllers/achievementController.js:109-119 | `getGoal` returns the stored goal, or the default goal, which it then stores. |
| WritingGoals.UpdateGoal | backend/controllers/achievementController.js:121-142 | Each supplied field replaces the stored one. Every other field keeps the stored value, or the default when no goal existed. The result is stored. |
| WritingGoals.GetGoalIsStable | backend/controllers/achievementController.js:109-137 | Reading creates the goal once, later reads return it unchanged, and an empty update is a read. |
| WritingGoals.UpdatesCompose | backend/controllers/achievementController.js:130-137 | Two updates in a row are one update in which the later fields win. |
| WritingGoals.ValidUpdatesKeepGoalValid | backend/models/WritingGoal.js:19-45 | The defaults (300 words, 3 entries, reminders off, "21:00") are acceptable, and accepted updates keep a goal acceptable. |
| WritingGoals.RoundHalfUp | backend/controllers/achievementController.js:178 | `Math.round` of a quotient is the nearest integer, with halves rounded up. |
| WritingGoals.Percent | backend/controllers/achievementController.js:178-181 | For a non-zero goal, the percentage is finite and at most 100. A zero goal gives NaN for nothing achieved and 100 otherwise. |
| WritingGoals.PercentMeaning | backend/controllers/achievementController.js:178-181 | For a positive goal, the percentage lies in 0..100 and reaches 100 exactly when at least 99.5% of the goal is achieved. Below 100, it is the nearest whole percent. |
| WritingGoals.PercentMonotone | backend/controllers/achievementController.js:178-181 | More words or entries never lower the percentage. |
| WritingGoals.WeekStart | backend/controllers/achievementController.js:160-164 | The week start is a Monday between 0 and 6 days before today. |
| WritingGoals.WeekStartUnique | backend/controllers/achievementController.js:160-164 | The Monday on or at most six days before a day is that day's week start. |
| WritingGoals.GoalProgress | backend/controllers/achievementController.js:145-183 | The daily words are today's word total, 0 without entries. The weekly entries are those dated on or after the week start. Each percentage is taken against the loaded goal. |
| WritingGoals.ProgressWithValidGoal | backend/controllers/achievementController.js:166-181 | With a goal set through the route, both percentages are whole numbers in 0..100, and every entry of the current week is counted. |
| Stats.GetOverview | backend/controllers/statsController.js:4-53 | The overview counts the user's entries, totals their words (0 rather than null), keeps the streak within 365 days, and counts for `thisMonth` exactly the user's entries dated in the current month or a later one. |
| Stats.FromMonthMeaning | backend/controllers/statsController.js:35-42 | The entries dated on or after the first of the month are exactly those dated in the current month or a later one. |
| Stats.ThisMonthMeaning | backend/controllers/statsController.js:35-42 | An entry counts for `thisMonth` exactly when it is dated in the current month or any later month. |
| Stats.OverviewStreak | backend/controllers/statsController.js:20-31 | The overview streak is a run of dated days ending at the anchor, and equals the evaluator's streak cut at 365. |
| Stats.MoodRows | backend/controllers/statsController.js:66-71 | Each mood row is a listed mood with its positive entry count, and every mood that occurs has its row. |
| Stats.MoodRowsTotal | backend/controllers/statsController.js:66-71 | The mood rows' counts add up to the number of entries with one of the moods. |
| Stats.MoodRowsDistinct | backend/controllers/statsController.js:68-69 | `GROUP BY mood` gives each mood at most one row. |
| Stats.MoodBreakdownMeaning | backend/controllers/statsController.js:55-73 | The breakdown covers exactly the user's entries with a mood in the optional date range. It has one row per mood used, each with its count, and the counts add up to the number of such entries. |
| Stats.ActivityMeaning | backend/controllers/statsController.js:83-98 | Activity has one row per date of the year with entries, with that date's count and words, in ascending date order, and accounts for every entry of the year once. |
| Stats.TagUses | backend/controllers/statsController.js:108-118 | Each tag use is a tag row's name with the positive number of entries carrying it, and every used tag appears. |
| Stats.TopTagsMeaning | backend/controllers/statsController.js:108-118 | The ranking lists at most 20 of the user's used tags with their counts, most used first. A used tag is left out only when 20 tags are listed, each used at least as often. |
| Stats.TopOfRanked | backend/controllers/statsController.js:115-116 | A prefix of a ranking by descending count holds input items in that order, and leaves out only items counted no higher. |
| Memories.NewestFirstOrder | backend/controllers/memoryController.js:23 | Sorting by `date DESC` gives non-increasing dates. |
| Memories.Annotate | backend/controllers/memoryController.js:26-29 | Each entry keeps its place and gets `yearsAgo` = this year − its year. |
| Memories.OnThisDayMeaning | backend/controllers/memoryController.js:14-31 | The result holds the user's entries with today's month and day in an earlier year, each once, newest first. Every `yearsAgo` is at least 1 and never decreases along the list. |
| Memories.MemoriesMembers | backend/controllers/memoryController.js:14-24 | Every memory is a matching entry of the user, and every matching entry is a memory. |
| Memories.MemoriesOrder | backend/controllers/memoryController.js:23-29 | Newest first, `yearsAgo` never decreases. |
| Memories.RandomMemory | backend/controllers/memoryController.js:42-53 | The random memory is null exactly when the user has no entries, and otherwise is one of the user's entries. |
| Memories.RandomMemoryReachesAll | backend/controllers/memoryController.js:42-46 | Every entry of the user can come up. |
| Memories.AddToKeys | backend/controllers/memoryController.js:82-87 | Adding an entry keeps one non-empty group per key and adds the entry's key. |
| Memories.AddToGroupFor | backend/controllers/memoryController.js:85-86 | Adding an entry appends it to the group of its key and leaves every other group alone. |
| Memories.GroupForMember | backend/controllers/memoryController.js:85-86 | With distinct keys, each group is the one found under its key. |
| Memories.GroupByMonthMeaning | backend/controllers/memoryController.js:81-87 | Grouping gives one non-empty group per (year, month) that occurs. The group of each key holds exactly that month's entries, in fetch order. |
| Memories.GroupStep | backend/controllers/memoryController.js:82-87 | One iteration of the grouping loop keeps that meaning for the entries seen so far. |
| Memories.SameMonthExample | backend/controllers/memoryController.js:81-87 | Two entries of one month fetched in turn make one group holding both, in fetch order. |
| Memories.DedupMeaning | backend/controllers/memoryController.js:92-93 | `DISTINCT` over descending years gives strictly descending years with the same members. |
| Memories.YearList | backend/controllers/memoryController.js:92 | `EXTRACT(YEAR FROM date)` of each entry, in order. |
| Memories.YearsMeaning | backend/controllers/memoryController.js:90-99 | `years` holds each year of the user's entries once, in strictly descending order. |
| Memories.YearsDescend | backend/controllers/memoryController.js:93 | The years of entries in descending date order descend too. |
| Memories.YearListCovers | backend/controllers/memoryController.js:90-95 | Reordering the entries does not change which years occur. |
| Memories.TimelineFetch | backend/controllers/memoryController.js:75-76 | The fetch as written: the size is at most 100, and the offset is (max(1, page) − 1) times the limit as requested, non-negative for a non-negative limit. |
| Memories.TimelineSkipsRows | backend/controllers/memoryController.js:75-76 | With limit 200, every page of the fetch as written holds 100 rows but its offset steps by 200, so row 100 is on no page; the capped offset puts it on page 2. With 150 rows the page count as written is 1, and with the capped limit it is 2. |
| Memories.ClampedTimelineFetch | backend/controllers/memoryController.js:75-76 | The corrected fetch is capped at 100 and never exceeds the request. For limits up to 100 it is the fetch as written. For a positive limit the offset is a non-negative whole number of pages. |
| Memories.ClampedFetchReachesEveryRow | backend/controllers/memoryController.js:75-104 | With the capped offset, every matching row is on exactly one page, within the page count. |
| Memories.TimelineOf | backend/controllers/memoryController.js:59-110 | A negative limit is a store failure, and nothing else fails. |
| Memories.TimelineMeaning | backend/controllers/memoryController.js:59-110 | A timeline page has at most min(100, limit) rows, all the user's and in the year filter, newest first. It has one non-empty group per (year, month) of the page, each holding that month's rows, and read in order the groups give back the page. `total` counts all matching entries and `pages` is ceil(total / min(100, limit)). The years are those of all the user's entries, strictly descending. |
| Memories.PageRowsMeaning | backend/controllers/memoryController.js:71-78 | The page's rows are matching entries, newest first, and no more than the fetch size. |
| Memories.WindowOfSorted | backend/controllers/memoryController.js:71-78 | A LIMIT/OFFSET window of the newest-first ordering holds matching entries in descending date order. |
| Memories.GroupsOfPage | backend/controllers/memoryController.js:80-98 | Grouping a newest-first page gives distinct, non-empty groups, each newest first, covering every row. Read in order, the groups give back the page. |
| Memories.AddToConcat | backend/controllers/memoryController.js:82-87 | An entry of a new month, or of the last group's month, is appended to the groups' reading order and its month becomes the last group's. |
| Memories.KnownMonthIsLast | backend/controllers/memoryController.js:73-87 | In date-descending rows, a row whose month occurred before shares the month of the row just before it. |
| Memories.GroupsReproducePage | backend/controllers/memoryController.js:81-98 | Reading the groups of date-descending rows in order gives the rows back, and the last group is the last row's month. |
| Heatmap.Lookup | backend/controllers/memoryController.js:134-137 | `map[date]` finds a row of that date exactly when the aggregate has one. |
| Heatmap.BuildHeatmap | backend/controllers/memoryController.js:113-162 | The heatmap has one cell per day of the year (365 or 366), cell i being January 1 + i with that day's entry count and words, or zeros. `totalDays` is the number of cells with entries, and the totals are those of the year's entries. |
| Heatmap.Spread | backend/controllers/memoryController.js:139-156 | The cells of the days lo..hi hold each day's figures, and the totals account for the range. |
| Heatmap.FillCells | backend/controllers/memoryController.js:144-151 | The day loop emits one cell per day, in date order, looked up in the aggregate with zero defaults. |
| Heatmap.CellsOfDays | backend/controllers/memoryController.js:144-154 | The looked-up cells hold each day's entry count and words, and the active cells are as many as the aggregate's rows. |
| Heatmap.CellOfDay | backend/controllers/memoryController.js:148-149 | The cell of a day of the range is that day's count and words, zero without entries. |
| Heatmap.YearSpan | backend/controllers/memoryController.js:139-141 | January 1 to December 31 spans the year's length, which is 366 exactly in leap years. |
| Heatmap.ActiveDaysMatchRows | backend/controllers/memoryController.js:154 | `totalDays` (the number of aggregate rows) is the number of cells with a positive count. |
| HeatmapView.LevelMonotone | frontend/src/components/Heatmap.jsx:8-14 | For counts of at least 0, more entries never give a lighter colour. |
| HeatmapView.LevelRanges | frontend/src/components/Heatmap.jsx:8-14 | 0 is empty, 3 and 4 share a level, 5 and more the darkest; the level's rank is min(count, 3), plus one from 5. |
| HeatmapView.LegendShowsEveryLevel | frontend/src/components/Heatmap.jsx:216 | The legend samples 0, 1, 2, 3, 5 hit each of the five levels exactly once, lightest first. |
| HeatmapView.BuildWeeks | frontend/src/components/Heatmap.jsx:30-56 | No cells give no weeks. Otherwise every week has 7 slots. Read row by row, the grid is startDay blanks, the cells, then blanks up to a whole week, over ceil((startDay + n) / 7) weeks. Cell k sits at week (startDay + k) / 7, day (startDay + k) % 7. |
| HeatmapView.GridOf | frontend/src/components/Heatmap.jsx:33-55 | The grid of a non-empty run of cells is made of whole weeks of blanks, cells and trailing blanks. |
| HeatmapView.FillWeeks | frontend/src/components/Heatmap.jsx:39-47 | The push loop emits full weeks and keeps an unfinished week of fewer than 7 slots, together reading as the blanks and the cells. |
| HeatmapView.PadWeek | frontend/src/components/Heatmap.jsx:50-53 | The last week is completed with blanks. |
| HeatmapView.GridMeaning | frontend/src/components/Heatmap.jsx:41-53 | Such a grid has ceil((startDay + n) / 7) weeks and holds exactly the cells, in order, each at its week and day. |
| HeatmapView.YearWeeks | frontend/src/components/Heatmap.jsx:33-47 | Started on the weekday of January 1, the grid of a year's heatmap holds its cells in order. Each day sits in the row of its own weekday. |
| HeatmapView.LabelForEveryFirst | frontend/src/components/Heatmap.jsx:67-76 | Each first day of a month in the grid gets a label with its month over its week. |
| HeatmapView.LabelSource | frontend/src/components/Heatmap.jsx:67-76 | Every label stands over a week that holds the first day of the label's month. |
| HeatmapView.LabelsLeftToRight | frontend/src/components/Heatmap.jsx:67-77 | The labels' week indexes lie within the grid and never decrease. |
| ClientStore.InitialMatchesServerDefaults | frontend/src/store/entryStore.js:4-8 | The store starts empty on page 1 of 20 with 0 pages, listing by date, newest first: the server's own defaults. |
| ClientStore.SetEntries | frontend/src/store/entryStore.js:10 | The page and its paging figures are replaced, and the filters, loading flag and error are kept. |
| ClientStore.SetLoading | frontend/src/store/entryStore.js:26 | Only the loading flag changes. |
| ClientStore.SetError | frontend/src/store/entryStore.js:27 | Only the error changes. |
| ClientStore.SetFilters | frontend/src/store/entryStore.js:12-13 | Only the filters change, merged with the given keys. |
| ClientStore.SetFiltersKeepsOthers | frontend/src/store/entryStore.js:12-13 | Each filter key takes the given value when given and keeps its value otherwise. |
| ClientStore.SetFiltersAlgebra | frontend/src/store/entryStore.js:12-13 | An empty merge changes nothing, a merge repeated is applied once, and two merges are one merge where the later keys win. |
| ClientStore.AddEntry | frontend/src/store/entryStore.js:15-16 | The new entry is put in front of the list, and nothing else changes. |
| ClientStore.Replace | frontend/src/store/entryStore.js:20 | Exactly the items with the updated id are replaced, in place, preserving length and order. |
| ClientStore.UpdateEntry | frontend/src/store/entryStore.js:18-21 | Only the list changes, by that replacement. |
| ClientStore.ReplaceKeepsIds | frontend/src/store/entryStore.js:18-21 | An update keeps each position's id, and changes nothing when no item has the id. |
| ClientStore.ReplaceIdempotent | frontend/src/store/entryStore.js:18-21 | Repeating an update changes nothing more. |
| ClientStore.ReplaceHits | frontend/src/store/entryStore.js:18-21 | The updated entry is in the list afterwards exactly when some item had its id. |
| ClientStore.Without | frontend/src/store/entryStore.js:24 | The filter keeps exactly the items without the id. |
| ClientStore.RemoveEntry | frontend/src/store/entryStore.js:23-24 | Only the list changes, by that filter. |
| ClientStore.WithoutConcat | frontend/src/store/entryStore.js:24 | Removal works piece by piece, so the kept items stay in their original order. |
| ClientStore.WithoutNothing | frontend/src/store/entryStore.js:24 | Removing an id no item has changes nothing. |
| ClientStore.WithoutCount | frontend/src/store/entryStore.js:24 | Removal drops exactly as many items as have the id. |
| ClientStore.WithoutIdempotent | frontend/src/store/entryStore.js:24 | Removing twice is removing once. |
| ClientStore.RemoveUndoes | frontend/src/store/entryStore.js:15-24 | Removing a just-added entry's id equals removing it without the add. Updating then removing an id equals only removing it. |
| Entries.TrimAll | backend/controllers/entryController.js:12 | Each requested tag name is looked up trimmed. |
| Entries.Resolve | backend/controllers/entryController.js:9-16 | Resolution fails exactly when some trimmed name is empty or over 50 characters. Otherwise every name has a row of the user, only the user's rows for those names are added, the old rows are kept, and a table without duplicates stays so. |
| Entries.ResolveTagsAgain | backend/controllers/entryController.js:9-16 | Resolving the same names again finds every row and adds none. |
| Entries.ResolveFound | backend/controllers/entryController.js:12 | When every name already has a row, `findOrCreate` creates nothing. |
| Entries.Find | backend/controllers/entryController.js:134-136 | `findOne({ id, userId })` finds the first entry with that id owned by the user, and finds none exactly when no entry is both. |
| Entries.FindAt | backend/controllers/entryController.js:134-136 | The first owned position is the one found. |
| Entries.Get | backend/controllers/entryController.js:85-98 | `get` is not found exactly when the user owns no entry with the id, and otherwise returns that entry. |
| Entries.Create | backend/controllers/entryController.js:100-129 | `create` fails exactly on an invalid title, a taken id, an invalid tag name, or a tag name given twice after trimming (the second `entry_tags` row breaks its key). Only the title and tag-name checks are validation failures. It appends the new entry. |
| Entries.RepeatedTagFailsCreate | backend/controllers/entryController.js:9-16 | A tag name given twice fails the create; with a valid title, a fresh id and a valid name the failure is the store's conflict on the repeated `entry_tags` row. |
| Entries.CreateMeaning | backend/controllers/entryController.js:103-116 | The new entry holds the request's fields, the user, the id and the time. Its plain text is the stripped content with its word count, and its tags are the trimmed names. The tag table only grows, by the user's rows. |
| Entries.GetAfterCreate | backend/controllers/entryController.js:120-124 | The created entry is what `get` then returns. |
| Entries.Update | backend/controllers/entryController.js:131-174 | `update` fails exactly when the user owns no such entry, a supplied title is invalid, a supplied tag name is invalid, or a tag name is given twice after trimming and the entry does not have it yet. Without the entry it is not found; the title and tag-name checks are the validation failures. |
| Entries.PatchedMeaning | backend/controllers/entryController.js:145-154 | Each supplied field replaces the stored one and every other field is kept. The plain text and word count are recomputed exactly when content is supplied. |
| Entries.UpdateMeaning | backend/controllers/entryController.js:143-161 | The entry is replaced in place by its patched form. Omitted tags leave the associations and the tag table untouched; supplied tags (`[]` clears) replace them by the trimmed names. |
| Entries.UpdateNothing | backend/controllers/entryController.js:145-156 | An update that supplies nothing changes nothing. |
| Entries.Remove | backend/controllers/entryController.js:176-189 | `remove` is not found exactly when the user owns no such entry. Otherwise it deletes one entry and keeps the tag table. |
| Entries.RemoveMeaning | backend/controllers/entryController.js:178-184 | After removal `get` no longer finds the entry, and every other entry remains, in order. |
| Entries.TogglePin | backend/controllers/entryController.js:191-207 | `togglePin` is not found exactly when the user owns no such entry. Otherwise it flips `isPinned` of that entry and changes nothing else. |
| Entries.TogglePinTwice | backend/controllers/entryController.js:198 | Toggling twice restores the store and the entry. |
| Entries.CreateKeepsConsistent | backend/controllers/entryController.js:100-118 | Creating keeps the stored data consistent: unique ids, valid titles, current derived columns, and tags that have valid, distinct rows. |
| Entries.UpdateKeepsConsistent | backend/controllers/entryController.js:131-163 | Updating keeps the stored data consistent. |
| Entries.TogglePinKeepsConsistent | backend/controllers/entryController.js:198 | Toggling a pin keeps the stored data consistent. |
| Entries.RemoveKeepsConsistent | backend/controllers/entryController.js:184 | Removing keeps the stored data consistent. |
| Entries.Upper | backend/controllers/entryController.js:65 | `toUpperCase` on ASCII text: each character is mapped on its own, so the length is kept. |
| Entries.DirectionOf | backend/controllers/entryController.js:65 | The upper-cased order is accepted exactly when it is one of the eight directions the store takes (ASC, DESC, each with NULLS FIRST or NULLS LAST, and NULLS FIRST or NULLS LAST alone), and it is descending exactly when it is an accepted one starting with DESC. |
| Entries.NullsDirections | backend/controllers/entryController.js:65 | "desc nulls last" sorts descending, "nulls first" ascending, and "up" is refused. |
| Entries.List | backend/controllers/entryController.js:18-83 | `list` fails with the store's failure exactly when the direction is not one the store accepts, or a non-empty mood filter is not one of the eight mood values. |
| Entries.ListMeaning | backend/controllers/entryController.js:33-79 | A list page has at most the clamped limit of entries, all the user's and matching every filter. Pinned entries come first, then the chosen field in the chosen direction. `total` counts all matches and `pages` is ceil(total / limit) of the limit `paginate` fetches with. |
| Entries.KeysOrder | backend/controllers/entryController.js:63-66 | The sort key orders pinned entries first, then by the field in the direction. |
| Entries.ListReachesEveryEntry | backend/controllers/entryController.js:60-69 | Every matching entry is on some page of the list. |
| Entries.Ordered | backend/controllers/entryController.js:63-66 | The list order is a permutation of the matching entries. |
| Entries.ListRows | backend/controllers/entryController.js:60-69 | A list page is the `paginate` window of the list order. |
| Entries.SearchFindsSubstring | backend/controllers/entryController.js:38-43 | A search matches text containing it, whatever the letter case of either. |
| Entries.ListPagesUndercount | backend/controllers/entryController.js:67-77 | With limit 200 and 150 matches, page 1 shows 100 entries and ceil(count / limit) as written gives 1 page, while the corrected count gives 2. |

## Left out

- The database and its driver are replaced by values. Queries are pure functions over a `Store`. Transactions are modelled by returning either the whole new store or an error. Raw SQL text, Sequelize options and `raw: true` shapes are not modelled.
- The SQL orderings break ties among equal keys in input order. SQL leaves that order unspecified.
- JavaScript `Date` time zones are not modelled; the model works on calendar days directly. The source depends on the time zone in three ways, none of them modelled:
  - A local time is turned into a UTC key with `toISOString`: the streak walks (achievementController.js:32-38, statsController.js:21-28), today's key and the goal's Monday (achievementController.js:152-169) and the `thisMonth` start (statsController.js:39). East of UTC a key can fall a day early.
  - A `"YYYY-MM-DD"` string is parsed as UTC midnight and read in local time: `yearsAgo` (memoryController.js:28), the timeline's year-month keys (memoryController.js:83-84), and on the client the weekday of January 1 (Heatmap.jsx:35-36) and the month labels (Heatmap.jsx:71-72). West of UTC each reads the previous day.
  - The heatmap starts at UTC midnight of January 1 (memoryController.js:140) and steps by local days (memoryController.js:144). Where the server keeps daylight saving time, one key repeats at one change and another is skipped at the other. Without daylight saving the keys are the year's days.
- The clock (`today`, `now`), `sequelize.random()` and the generated ids are parameters.
- Floating-point division: `Math.round(a / g * 100)` is modelled in exact rational arithmetic, with halves rounded up as `Math.round` does for positive numbers. Binary rounding of the quotient is not modelled.
- `parseInt` and `Number` of query strings are not modelled. Page, limit and year arrive as integers, and non-numeric strings (NaN) are out of scope.
- Memories.TimelineOf: a negative LIMIT or OFFSET is modelled as a store failure. The source leaves it to the database, which rejects it.
- Entries.List: an ORDER BY direction outside the eight the store accepts, and a mood filter that is not a value of the enum column, are modelled as store failures, for the same reason. Where the accepted NULLS FIRST/LAST directions put nulls is not modelled: the controllers always write the date, the creation time and the word count.
- Entries.List: a `startDate` or `endDate` that the database cannot read as a date makes the query fail; the model takes both as days, so that failure is not modelled. The same holds for the date range of `Stats.MoodBreakdown`.
- Memories.TimelineOf: above a limit of 100 it uses the corrected paging (see Findings). The code fetches from `(page - 1) * limit` with the raw limit and reports `ceil(total / limit)`; the model fetches from `(page - 1) * min(100, limit)` and reports `ceil(total / min(100, limit))`. The two agree for limits 1..100. The written fetch is `Memories.TimelineFetch`.
- Memories.TimelineMeaning: its window and its `pages` clause are those of the corrected paging, so above a limit of 100 they are not what the code returns.
- Entries.List: `pages` is the corrected count, ceil(count / clamped limit). The code reports ceil(count / limit) with the raw limit, which is too small above 100 and NaN, Infinity or not positive below 1. The two agree for limits 1..100. The written count is `Pagination.CeilPages`.
- Entries.ListMeaning: its `pages` clause is the corrected count, so above a limit of 100 or below 1 it is not what the code returns.
- Entries.Upper: only ASCII letters are upper-cased. JavaScript's `toUpperCase` maps every letter and can lengthen the text ("ß" becomes "SS"). The upper-cased order is only compared with "ASC" and "DESC", so the difference shows only for an order holding a non-ASCII character whose upper case is ASCII, such as "aſc" ("ſ" becomes "S"): the model refuses it as a store failure and the code sorts ascending.
- AchievementCatalog.Achievement: the `name`, `description` and `icon` of each catalog item (Achievement.js:4-23) are not modelled. They are display text that `list` passes through unchanged.
- Entries.ContainsIgnoringCase: `ILIKE` is modelled with ASCII case folding only. The `%` and `_` wildcards inside a search string are not modelled.
- The list's tag filter narrows which entries match. It also narrows the `tags` shown with each returned entry to the matching tag, and that narrowing is not modelled: entries keep all their tags.
- `validSortFields[sortBy]` for names inherited from `Object.prototype` (such as "constructor") is not modelled. Every unknown name falls back to the date.
- The request validation of the entry routes (title trimming, content required, a date required, at most 20 tags, UUID ids) is not modelled. Only the model's own title and tag-name length checks are. The goal route's validation is modelled (`WritingGoals.ValidateGoalPatch`).
- `setFilters` with a key explicitly set to `undefined`, and with keys outside the five filters, is not modelled. A filter key is either given a string or absent. Zustand's `set` is modelled as the shallow merge it performs.
- Concurrency is not modelled. The parallel `findOrCreate` calls of `resolveTags` and the `Promise.all` of the stats queries run one after another, and duplicate-unlock races between concurrent checks are not modelled.
- The achievement record's unique index on (user, key) is modelled as the records being a map from key to timestamp, which holds at most one record per key. A record insert that fails is given by the `failing` set of keys.
- The one-goal-per-user constraint is modelled by the goal being one optional value per user.
- A year must be at least 1 (`requires year >= 1`); the calendar starts at 0001-01-01.
- Rich-text content is a string. The TipTap JSON structure is not modelled.
- Heatmap.jsx rendering, the tooltip, the SVG sizes and the year buttons are not modelled. Only `getColor`, `weeks` and `monthLabels` are.
- Authentication, uploads, routing, logging and the React pages other than the heatmap are outside the core.

## Findings

Both findings concern paging with a limit above 100. The as-written members
keep the code's arithmetic and exhibit the gap. `Memories.TimelineOf` and
`Entries.List` use the corrected fetch and page count. These agree with the
code for every limit from 1 to 100. Below 1, the list's `pages` as written is
NaN, Infinity or not positive (`Pagination.CeilPages` states which). The
corrected count uses the limit of 1 that `paginate` clamps to.

| source | as written | input that shows it | evidently intended | confidence | as-written member | corrected member |
|---|---|---|---|---|---|---|
| backend/controllers/memoryController.js:75-104 | The fetch size is capped at 100, but the offset and `pages` use the requested limit. | limit=200: page 1 fetches rows 0..99 and page 2 rows 200..299, so rows 100..199 appear on no page. With 150 rows `pages` is 1. | The offset and `pages` use the capped limit, so the reported pages tile the rows. | not executed | Memories.TimelineSkipsRows | Memories.ClampedFetchReachesEveryRow |
| backend/controllers/entryController.js:67-77 | `pages` is ceil(count / limit) of the raw limit, but `paginate` fetches at most 100 rows a page. | limit=200 with 150 matches: 100 rows are shown and `pages` is 1, so the other 50 are on no reported page. | `pages` is computed with the limit the rows are fetched with. | not executed | Entries.ListPagesUndercount | Pagination.PageCountCoversRows |
