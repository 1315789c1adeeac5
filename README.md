# English-learning backend: progress, ledger, weak words, calendar and import

A Dafny model of the backend logic of a vocabulary drill for children run by a parent.
It covers three endpoint files:

- **`backend/app/api/learning.py`** (the learner endpoints):
  - the daily section step of `today_words` over the child's progress row;
  - answer checking and the append-only answer ledger (`submit_answer`);
  - the learned-word and weak-word id sets with their recency windows;
  - the review and weak quizzes, capped at ten words;
  - the menu counters;
  - the learner's own stats and weak-word report.
- **`backend/app/api/parent.py`** (the parent endpoints):
  - the ownership check;
  - the monthly calendar: a 3×3 grid of session type by outcome per regional (UTC+9) day;
  - the weak-word report: counts, accuracy rounded to three places, sorting by key;
  - child deletion and password reset.
- **`backend/app/api/admin.py`** (the CSV word import):
  - parse every row, skip known `(english, japanese)` pairs, collect errors by row number;
  - build the reply message.

Layout, one module per file:

| file | module | what it holds |
|---|---|---|
| `wrappers.dfy` | `Wrappers` | `Option` and `Result` |
| `seqs.dfy` | `Seqs` | `Count` and `Filter`, the SQL `COUNT`/`SUM(CASE …)`/`WHERE` |
| `text.dfy` | `Text` | Python's `str.strip()`, `str.lower()`, `<=` on `str`, `int(str)` and `str(int)` |
| `clock.dfy` | `Clock` | proleptic Gregorian ordinals (as `date.toordinal()`), `monthrange`, stepping a date by a day, the regional day of a UTC instant |
| `ledger.dfy` | `Ledger` | words, answer records, windows, learned and weak id sets |
| `progress.dfy` | `Progress` | the `(current_section, last_section_date)` step |
| `quiz.dfy` | `Quiz` | today/review/weak quiz selection and the answer check |
| `stats.dfy` | `Stats` | the monthly calendar: spec functions and the day-by-day loop |
| `report.dfy` | `Report` | the weak-word report: spec functions, the row loop and the sort |
| `admin.dfy` | `Admin` | the import row loop and its reply |
| `store.dfy` | `Api` | class `Store`, holding the users, the catalog, the ledger and the progress rows; its methods are the endpoints |

Conventions used throughout:

- **Time.** Timestamps are integer UTC seconds. The regional day of instant `t` is the day ordinal `719163 + (t + 32400) / 86400`. That is the `+ timedelta(hours=9)` of the source, taking the date.
- **Weakness.** The HAVING test `pure * 1.0 / total < 0.9` is the exact `10 * pure < 9 * total`.
- **Accuracy.** `round(pure / total, 3)` is held as an integer number of thousandths.
- **Randomness.** The database's random order is a parameter: `shuffled` must be a reordering of the eligible words. Otherwise results are stated up to reordering.

The code behaves as follows at four edges, and the model does the same:

- **Weak-word window.** `week` does not filter the weak-word ids; it falls through to no filter. Only `month` and `over_month` filter them.
- **`over_month`.** It keeps every word with *some* answer older than 30 days. A word answered both long ago and recently still counts.
- **Invalid year or month.** The stats endpoints reject these. `date()` or `monthrange()` raises; the model returns `InvalidDate`.
- **December 9999.** The stats endpoints fail for this month. The loop's `current += timedelta(days=1)` steps past the last representable date; the model returns `DateOverflow`.

## Model

| member | source | states |
|---|---|---|
| Api.Store.GetProgress | backend/app/api/learning.py:16-23 | returns the child's stored row, or creates section 1 with no timestamp when there is none; only that entry of the progress map changes |
| Api.Store.TodayWords | backend/app/api/learning.py:32-56 | the progress row becomes `Advance(old row, now)` and nothing else changes; the quiz is exactly the words of the resulting section, up to order |
| Progress.FirstVisitDoesNotAdvance | backend/app/api/learning.py:40-42 | on the first visit the section stays and the timestamp becomes `now` |
| Progress.LaterVisitAdvancesByOne | backend/app/api/learning.py:43-48 | on a later visit the section goes up by exactly one when the regional day changed, however long ago; otherwise the row is unchanged |
| Progress.StampIsToday | backend/app/api/learning.py:40-48 | after any visit the stored instant lies on today's regional day |
| Progress.SameDayVisitIsIdempotent | backend/app/api/learning.py:40-48 | a second visit on the same regional day changes nothing |
| Progress.SectionCountsDayChanges | backend/app/api/learning.py:40-48 | over any series of visits the section grows by exactly the number of regional-day changes between consecutive visits, so it never decreases |
| Progress.OneDayAdvancesAtMostOnce | backend/app/api/learning.py:40-48 | any number of visits within one regional day advance at most once |
| Clock.RegionalDayOfUtcTime | backend/app/api/learning.py:26-29 | an instant at `h:mi:s` UTC on date `d` falls on regional day `d` before 15:00 UTC and on `d + 1` from 15:00 on |
| Clock.RegionalOrdinalMonotonic | backend/app/api/learning.py:44 | a later instant never has an earlier regional day |
| Clock.RegionalOrdinalWithinADay | backend/app/api/learning.py:44 | instants less than a day apart are on the same or the next regional day |
| Clock.EpochOrdinalIsNewYear1970 | backend/app/api/parent.py:103 | the ordinal base of the regional-day formula is 1970-01-01 |
| Quiz.SectionWords | backend/app/api/learning.py:50-55 | a word is in today's quiz exactly when it is in the catalog with the current section |
| Ledger.PeriodArgument | backend/app/api/learning.py:87 | the period `all` becomes no period, and any other token is passed on unchanged |
| Ledger.LearnedIffAttempted | backend/app/api/learning.py:59-78 | a word id is learned in a window exactly when the child has an attempt at it that the window keeps |
| Ledger.LearnedIdsMonotonic | backend/app/api/learning.py:66-76 | a window that keeps fewer instants yields a subset of learned ids |
| Ledger.MonthSplitsLearnedIds | backend/app/api/learning.py:71-76 | `month` read at one instant and `over_month` read no earlier together give all learned ids; a word is in both exactly when the child answered it on or after the first cutoff and also before the second |
| Ledger.ReviewCountsNested | backend/app/api/learning.py:187-190 | learned ids of `week` ⊆ `month` ⊆ all time, and so do their counts |
| Ledger.WeakIdsCharacterized | backend/app/api/learning.py:100-127 | a word is weak in a window exactly when, among the child's records the window keeps, it has attempts and `10·pure < 9·total`; the window applies before grouping |
| Ledger.WeakIdsAreLearned | backend/app/api/learning.py:100-127 | the weak ids of a window are learned ids of the same window |
| Quiz.DrawQuiz | backend/app/api/learning.py:88-96 | an empty id set gives `[]`; otherwise `min(10, eligible)` words, all from the catalog with an eligible id, pairwise distinct when catalog ids are unique |
| Quiz.ReviewWords | backend/app/api/learning.py:81-97 | exactly `min(10, eligible)` words, all learned in the period's window, and no word twice |
| Quiz.WeakQuizWords | backend/app/api/learning.py:130-146 | exactly `min(10, eligible)` words, all weak in the period's window, and no word twice |
| Quiz.NoHistoryNoReview | backend/app/api/learning.py:88-89 | a child with no answers in the ledger, whatever other children answered, gets the empty review quiz for every period |
| Api.FindWord | backend/app/api/learning.py:155-160 | not found exactly when no catalog word has the id; otherwise a catalog word with that id |
| Api.Store.SubmitAnswer | backend/app/api/learning.py:149-176 | an unknown word gives `WordNotFound` and leaves the ledger as it was; otherwise exactly one record is appended with the verdict, hint flag, session type and `now`, and the reply carries the verdict and the catalog spelling and katakana |
| Quiz.AnswerIgnoresPadding | backend/app/api/learning.py:161 | whitespace around the submitted answer never changes the verdict |
| Quiz.AnswerIgnoresCase | backend/app/api/learning.py:161 | lower-casing the submitted answer never changes the verdict |
| Quiz.PaddedCatalogSpellingNeverMatches | backend/app/api/learning.py:161 | a catalog spelling with whitespace at either end is never matched, since only the answer is stripped |
| Ledger.AnswerAddsLearnedWord | backend/app/api/learning.py:162-171 | appending an answer adds exactly its word to the child's learned ids |
| Ledger.AnswerEffectOnWeakness | backend/app/api/learning.py:162-171 | a correct answer without a hint never makes a word weak; any other answer never makes a weak word strong |
| Api.Store.MenuStatus | backend/app/api/learning.py:179-205 | each counter is the size of its id set, with each windowed query at its own clock reading, and only the child's progress row may be created. Always: month, over_month and weak-all are at most all. When the readings allow it: week ≤ month (month cutoff no later than week cutoff), all ≤ month + over_month (over_month read no earlier than month), weak ≤ learned for `month` and `over_month` |
| Api.MenuCountsOrdered | backend/app/api/learning.py:179-205 | the comparisons among the menu's id-set sizes: month, over_month and weak-all are at most all; week ≤ month when the month cutoff is no later than the week cutoff; all ≤ month + over_month when over_month is read no earlier than month; weak ≤ learned for `month` and `over_month` under the matching reading order |
| Api.Store.MyStats | backend/app/api/learning.py:208-336 | the learner's calendar is `MonthReport` for the caller's own id; a success has one entry per day of the month |
| Api.Store.MyWeakWords | backend/app/api/learning.py:339-346 | the learner's report is a reordering of the weak rows, sorted by the requested key and direction |
| Api.Store.ChildStats | backend/app/api/parent.py:88-233 | a child that is not the caller's gives `ChildNotFound`; otherwise the result is `MonthReport`; nothing changes |
| Stats.MonthReport | backend/app/api/parent.py:105-107 | a success has one entry per day of the requested month |
| Stats.MonthlyStats | backend/app/api/parent.py:105-233 | an invalid year or month gives `InvalidDate`, December 9999 gives `DateOverflow`, any other month gives `MonthStats` |
| Stats.GroupRows | backend/app/api/parent.py:112-210 | the dictionary has a key for a day of the month exactly when some record of the child falls on that regional day, and its value tallies that day's records; a day without a key has no records |
| Stats.MonthStats | backend/app/api/parent.py:212-233 | the list has exactly as many entries as the month has days |
| Stats.MonthStatsDays | backend/app/api/parent.py:212-233 | entry `i` is dated day `i + 1` of the month, holds that day's tally, and the next entry is dated the next day |
| Stats.EmptyGroupIsZero | backend/app/api/parent.py:218-231 | a day without records has all nine counters at zero |
| Stats.DayRecordsMembers | backend/app/api/parent.py:188-193 | a record is counted on a day exactly when it is the child's and its `answered_at + 9h` falls on that date |
| Stats.ExactlyOneCell | backend/app/api/parent.py:116-186 | every record meets the CASE condition of exactly one of the nine cells |
| Stats.OutcomeOf | backend/app/api/parent.py:116-186 | the outcome column chosen for a record is one whose CASE condition it meets |
| Stats.CellCount | backend/app/api/parent.py:116-186 | a cell never counts more records than the group has |
| Stats.TallySum | backend/app/api/parent.py:116-186 | the nine counters of a group add up to its number of records |
| Stats.TallyAppend | backend/app/api/parent.py:116-186 | one more record raises its own cell by one and leaves the other eight alone |
| Stats.DayRecordsAppend | backend/app/api/parent.py:188-193 | a new answer joins exactly the group of its child and regional day |
| Stats.DayTotal | backend/app/api/parent.py:116-233 | a day's nine counters add up to the child's number of answers on that regional day |
| Stats.AnswerRaisesOneCell | backend/app/api/parent.py:116-233 | a new answer raises exactly one counter of the calendar: its session type and outcome, on its regional day, in its own child's report |
| Clock.DaysInMonth | backend/app/api/parent.py:106 | 28 to 31 days; February has 29 exactly in leap years; April, June, September and November have 30 and the seven other months 31 |
| Clock.OrdinalInMonth | backend/app/api/parent.py:105-107 | day `k` of a month is `k - 1` days after its first |
| Clock.LastDayOfMonthBound | backend/app/api/parent.py:105-107 | the last day of any valid month is representable, and is the last representable date exactly for December 9999 |
| Clock.NextDay | backend/app/api/parent.py:231 | the day after a valid date has a month in 1..12 and a day within that month, and is itself a valid date unless it steps past 31 December 9999 |
| Clock.NextDayOrdinal | backend/app/api/parent.py:231 | stepping a date by a day adds one to its ordinal |
| Clock.MaxOrdinalIsLastDate | backend/app/api/parent.py:231 | 9999-12-31 is the last representable date |
| Api.Store.ChildWeakWords | backend/app/api/parent.py:236-251 | a child that is not the caller's gives `ChildNotFound`; otherwise the report is a reordering of the weak rows, sorted by key and direction; nothing changes |
| Report.GetWeakWords | backend/app/api/parent.py:254-313 | the result is the sort of the weak rows, hence a reordering of them that is ordered by the chosen key in the chosen direction |
| Report.WeakGroups | backend/app/api/parent.py:271-287 | a catalog word is grouped and kept exactly when it is weak among the child's records |
| Report.RowsOf | backend/app/api/parent.py:289-302 | the loop builds one row per group |
| Report.RowsOfMembers | backend/app/api/parent.py:289-302 | a row is in the result exactly when it is the row of one of the kept words |
| Report.WeakRowsCharacterized | backend/app/api/parent.py:271-302 | every catalog word with attempts and `10·pure < 9·total` has its row in the report |
| Report.WeakRowsSound | backend/app/api/parent.py:271-302 | every row belongs to a catalog word, carries that word's total, correct and hint counts with `total > 0` and `10·pure < 9·total`, has `hint ≤ correct ≤ total`, and an accuracy between 0 and 0.9 |
| Report.CorrectSplits | backend/app/api/parent.py:262-269 | correct answers split into those without and with a hint, and `hint ≤ correct ≤ total` |
| Report.PureIsCorrectWithoutHint | backend/app/api/parent.py:291 | both branches of the conditional give `correct - hint`, the number of correct answers without a hint |
| Report.RoundThousandths | backend/app/api/parent.py:292 | the result is within half a thousandth of `p / t`: `2tr − t ≤ 2000p < 2tr + t` |
| Report.WeakAccuracyAtMostNineTenths | backend/app/api/parent.py:285-292 | a weak word's reported accuracy lies between 0 and 0.9 inclusive |
| Report.RoundingExamples | backend/app/api/parent.py:292 | 1/6 reports 0.167; 188/209 is weak yet reports 0.9 |
| Report.ParseSortBy | backend/app/api/parent.py:304-310 | `total_attempts`, `english` and `japanese` select their keys, and every other string selects accuracy |
| Report.SortDefaults | backend/app/api/parent.py:255-256 | an unknown key sorts by accuracy; the order is descending exactly for `desc`, so anything else is ascending |
| Report.InsertRow | backend/app/api/parent.py:311 | inserting adds exactly the new row to the multiset |
| Report.InsertRowSorted | backend/app/api/parent.py:311 | inserting into a sorted list keeps it sorted |
| Report.SortRowsCorrect | backend/app/api/parent.py:311 | the sort returns a reordering of its input that is non-decreasing in the key for ascending order and non-increasing for descending |
| Text.LexLeTotal | backend/app/api/parent.py:307-308 | any two strings are comparable |
| Text.LexLeTransitive | backend/app/api/parent.py:307-308 | string order is transitive |
| Text.LexLeAntisymmetric | backend/app/api/parent.py:307-308 | strings each `<=` the other are equal |
| Text.Lower | backend/app/api/parent.py:307 | lower-casing keeps the length and maps each character by itself |
| Text.LowerIdempotent | backend/app/api/learning.py:161 | lower-casing twice is lower-casing once |
| Text.StripCommutesWithLower | backend/app/api/learning.py:161 | stripping and lower-casing commute |
| Text.Strip | backend/app/api/learning.py:161 | the result is no longer than the input and has no whitespace at either end |
| Text.StripIgnoresPadding | backend/app/api/admin.py:30-33 | whitespace padding on either side does not change the stripped text |
| Text.StripIdempotent | backend/app/api/admin.py:30-33 | stripping twice is stripping once |
| Text.ParseInt | backend/app/api/admin.py:33 | a text is accepted exactly when it is decimal digits (single underscores between digits allowed) after an optional sign; the value is the digits' number, negated after `-` |
| Text.IntRoundTrip | backend/app/api/admin.py:33 | parsing the decimal text of any integer gives the integer back, and `int()` returns it whenever the text has at most 4300 digits |
| Text.ConvertInt | backend/app/api/admin.py:33-34 | `int()` with the digit limit: it succeeds exactly when the grammar accepts the text and the text has at most 4300 digits, with the grammar's value; a text the grammar refuses is an invalid literal whatever its length; an accepted text with more digits is refused with its digit count, always above the limit |
| Text.DigitLimitExamples | backend/app/api/admin.py:33-34 | 4300 ones convert; 4301 ones are refused with count 4301; 4301 ones followed by a letter are an invalid literal, since the grammar is checked before the length |
| Text.ParseIntExamples | backend/app/api/admin.py:33 | leading zeros, underscores between digits and `+` are accepted (`"007"` is 7, `"1_000"` is 1000); doubled or edge underscores, a lone sign and other letters are refused |
| Api.Store.DeleteChild | backend/app/api/parent.py:51-67 | a child that is not the caller's gives `ChildNotFound` and nothing changes; otherwise its records, progress row and user row are removed and the catalog is untouched |
| Api.RemoveChild | backend/app/api/parent.py:63 | a record is kept exactly when it was there and belongs to another child |
| Api.RemoveChildKeepsOthers | backend/app/api/parent.py:63 | every other child's records, in every window, are exactly as before |
| Api.RemoveChildLeavesNone | backend/app/api/parent.py:63 | none of the deleted child's records remain |
| Api.RemoveChildKeepsLearnedIds | backend/app/api/parent.py:63 | every other child's learned ids are unchanged |
| Api.Store.UpdateChildPassword | backend/app/api/parent.py:70-85 | a child that is not the caller's gives `ChildNotFound` and nothing changes; otherwise only that child's stored hash is replaced |
| Admin.Field | backend/app/api/admin.py:30-33 | a missing column fails with that column's `KeyError`; a missing cell fails; otherwise the stripped cell |
| Admin.ParseRow | backend/app/api/admin.py:29-36 | a row parses exactly when all four cells are present and `int()` converts the stripped section, within the digit limit; the word then holds the stripped cells and that integer |
| Admin.Classify | backend/app/api/admin.py:29-48 | a row is invalid exactly when it fails to parse (with that error), a duplicate exactly when it parses to a known `(english, japanese)` pair, and fresh with its parsed word otherwise |
| Admin.FreshWords | backend/app/api/admin.py:50-57 | no more words are added than there are rows |
| Admin.SkippedCount | backend/app/api/admin.py:46-48 | no more rows are skipped than there are rows |
| Admin.ErrorLines | backend/app/api/admin.py:34-36 | no more error lines than rows |
| Admin.Outcomes | backend/app/api/admin.py:28-48 | one outcome per row |
| Admin.OutcomeAt | backend/app/api/admin.py:28-48 | the outcome at position `i` is the fate `Classify` gives row `i` |
| Admin.AddedBy | backend/app/api/admin.py:50-57 | no more words are added than there are outcomes |
| Admin.SkippedBy | backend/app/api/admin.py:46-48 | no more outcomes are skipped than there are outcomes |
| Admin.LinesBy | backend/app/api/admin.py:34-36 | no more error lines than outcomes |
| Admin.AddedStep | backend/app/api/admin.py:50-57 | one more outcome adds its word exactly when it is fresh |
| Admin.SkippedStep | backend/app/api/admin.py:46-48 | one more outcome adds one to the skipped count exactly when it is a duplicate |
| Admin.LinesStep | backend/app/api/admin.py:34-36 | one more outcome adds its line, numbered after all earlier rows, exactly when it is invalid |
| Admin.CountedOnce | backend/app/api/admin.py:24-57 | every outcome is counted exactly once: added + skipped + error lines = outcomes |
| Admin.EveryRowCountedOnce | backend/app/api/admin.py:24-57 | imported + skipped + errors = number of rows |
| Admin.FreshWordsFromRows | backend/app/api/admin.py:38-57 | a word is added exactly when some row is classified as fresh with that word |
| Admin.FreshOutcomeIsAdded | backend/app/api/admin.py:50-57 | a fresh outcome's word is among the words added |
| Admin.AddedWordHasOutcome | backend/app/api/admin.py:50-57 | every added word comes from a fresh outcome |
| Admin.ErrorLinesFromRows | backend/app/api/admin.py:28-36 | an error line exists exactly for each row that fails to parse, tagged with its 1-based number and its error |
| Admin.InvalidOutcomeIsReported | backend/app/api/admin.py:28-36 | an invalid outcome's line, numbered by its position from 1, is among the error lines |
| Admin.ReportedLineHasOutcome | backend/app/api/admin.py:28-36 | every error line is the line of an invalid outcome, numbered by its position from 1 |
| Admin.FreshWordsAreStrippedAndNew | backend/app/api/admin.py:30-57 | every added word has no whitespace at the ends of its three text fields, and its pair was not in the catalog |
| Admin.SectionPlaysNoPart | backend/app/api/admin.py:38-48 | two well-formed rows that agree on English and Japanese are both skipped or both added, whatever their sections |
| Admin.PaddedRowIsDuplicate | backend/app/api/admin.py:30-48 | a row that spells a catalog pair with padding around the English is skipped |
| Admin.ImportRows | backend/app/api/admin.py:24-57 | the loop's counters, error list and added words equal the row-by-row spec functions, and imported + skipped + errors = rows |
| Admin.Join | backend/app/api/admin.py:64 | no parts give the empty string, one part gives that part, and the length is the parts' total plus one separator between each two |
| Admin.JoinPartAt | backend/app/api/admin.py:64 | part `k` stands after the `k` earlier parts and `k` separators |
| Admin.JoinSeparatorAfter | backend/app/api/admin.py:64 | every part but the last is followed by the separator; with JoinPartAt and the length this fixes every character |
| Admin.ImportMessage | backend/app/api/admin.py:60-65 | the message always starts with the counts; it is exactly the counts when there are no errors; otherwise the counts are followed by the error count and the joined lines |
| Api.Store.ImportWords | backend/app/api/admin.py:14-65 | when every added section fits SQLite's 64-bit `INTEGER`, the catalog gains exactly the added words under fresh ids, keeps ids unique and the reply is the message over the loop's counts, where a section over `int()`'s 4300-digit limit is an error line; otherwise the request fails and the catalog is unchanged |
| Api.Committed | backend/app/api/admin.py:50-59 | committing keeps the old catalog as a prefix, adds one word per added row, and keeps ids unique |
| Api.StampedKeepsIdsUnique | backend/app/api/admin.py:50-59 | new ids above every old one keep catalog ids unique |
| Progress.Advance | backend/app/api/learning.py:40-48 | the section stays or goes up by one, and the stored instant afterwards is on today's regional day |
| Clock.RegionalOrdinal | backend/app/api/learning.py:44 | defines the regional (UTC+9) day of an instant; RegionalDayOfUtcTime pins it to calendar dates |
| Ledger.LearnedWindow | backend/app/api/learning.py:66-76 | defines the recency filter of `_get_learned_word_ids`: `week` and `month` keep answers at or after the cutoff, `over_month` those before it, anything else keeps all |
| Ledger.LearnedIds | backend/app/api/learning.py:59-78 | defines the distinct word ids of the child's filtered answers; LearnedIffAttempted states its meaning |
| Ledger.WeakWindow | backend/app/api/learning.py:112-119 | defines the filter of `_get_weak_word_ids`: only `month` and `over_month` filter, `week` keeps all |
| Ledger.WeakRatio | backend/app/api/learning.py:124 | defines the HAVING test as `10·pure < 9·total` |
| Ledger.IsWeakAmong | backend/app/api/learning.py:121-126 | defines a weak group: attempted, and `10·pure < 9·total` over the group |
| Ledger.WeakIds | backend/app/api/learning.py:100-127 | defines the weak id set; WeakIdsCharacterized and WeakIdsAreLearned state its meaning |
| Quiz.IsCorrectAnswer | backend/app/api/learning.py:161 | a correct answer, once stripped, has exactly the catalog spelling's length |
| Report.PureOf | backend/app/api/parent.py:291 | defines the conditional pure-correct count; PureIsCorrectWithoutHint states its meaning |
| Report.Accuracy | backend/app/api/parent.py:292 | an accuracy over at most `total` pure answers lies between 0 and 1.000 |
| Report.RowOf | backend/app/api/parent.py:290-302 | a row carries its word's id and attempt count, `hint ≤ correct ≤ total`, and an accuracy between 0 and 1.000 |
| Report.WeakRows | backend/app/api/parent.py:258-302 | defines the unsorted report; WeakRowsCharacterized and WeakRowsSound state its contents |
| Report.KeyLe | backend/app/api/parent.py:304-311 | defines Python's `<=` on sort keys; KeyLeTotal and KeyLeTransitive make it a total preorder |
| Report.RowLe | backend/app/api/parent.py:311 | defines the order of `sort(key=…, reverse=…)` on rows; RowLeTotal and RowLeTransitive make it a total preorder |
| Report.SortRows | backend/app/api/parent.py:311 | defines the sort as repeated insertion; SortRowsCorrect states it is a sorted reordering |
| Stats.Tally | backend/app/api/parent.py:112-187 | defines the nine `SUM(CASE …)` columns of one group; TallySum and TallyAppend state their meaning |
| Stats.DayRecords | backend/app/api/parent.py:188-193 | defines the group of one regional day; DayRecordsMembers states its meaning |
| Api.Owns | backend/app/api/parent.py:57 | defines the ownership filter every parent endpoint makes (`id == child_id and parent_id == parent.id`) |
| Api.SectionsFit | backend/app/models.py:42 | defines the bound of the `section` column: every added section is a signed 64-bit integer |
| Admin.ErrorText | backend/app/api/admin.py:34-35 | defines `str(e)` for the four errors a row can raise: a missing column, a missing cell, an invalid literal and a section over the digit limit |
| Admin.ErrorLine | backend/app/api/admin.py:35 | defines the numbered error line `{i}行目: {e}` |
| Admin.IsDuplicate | backend/app/api/admin.py:38-46 | defines the duplicate test: some catalog word has the same English and Japanese |
| Admin.CountsMessage | backend/app/api/admin.py:60-61 | defines the counts part of the reply |

## Left out

- Authentication and roles (`require_child`, `require_parent`, JWT and bcrypt) are not modelled. The caller's id is an input.
- `hash_password` is a foreign library. `Api.Store.UpdateChildPassword` takes the resulting hash as a parameter.
- `list_children` and `create_child` (backend/app/api/parent.py:16-48) are account management and are not part of this model.
- HTTP plumbing is not modelled: routing, status codes and the Japanese `detail` texts of 404 errors. Not-found outcomes are the `ApiError` and `StatsError` values.
- The clock is a parameter `now`. In the source, `today_words` reads the clock twice, once for today's date and once for the stored instant; the model uses one instant for both.
- Concurrency is not modelled. Two simultaneous `today_words` requests on a new day both read the same section and both write it plus one, so the section rises once; two simultaneous first requests both try to insert the progress row and one fails on the unique `child_id`.
- `Api.Store.TodayWords`: the database's random order is not modelled. The quiz is the section in catalog order, and the contract states it only up to reordering.
- `Quiz.DrawQuiz`: which ten words a random draw picks is the `shuffled` parameter. The model states size, membership and distinctness, not uniformity.
- `Report.RoundThousandths`: an exact tie is rounded up. Python rounds the binary float `pure / total` instead; for example 1/16 reports 0.062 in Python but 63 thousandths here. Accuracy is an integer number of thousandths, not a float.
- `Ledger.WeakRatio`: the SQL float test `pure * 1.0 / total < 0.9` is the exact integer test `10 * pure < 9 * total`. Floating-point error near the boundary is not modelled.
- `Text.Lower`: only ASCII letters are lower-cased. Python's `str.lower()` also maps other scripts, and may change a text's length (`"İ".lower()` has two characters). The length property in `Quiz.IsCorrectAnswer`'s contract holds for this ASCII lowering only.
- `Text.ParseInt`: only ASCII digits are accepted. Python's `int()` also accepts other Unicode decimal digits.
- `Text.ConvertInt`: the digit limit is fixed at CPython's default of 4300. Raising or lifting it with `sys.set_int_max_str_digits()` or `PYTHONINTMAXSTRDIGITS` is not modelled. The order (grammar first, then length) and the error text follow CPython 3.12. CPython 3.11 words the message differently and checks the digit run's length before the characters after it.
- `Text.IntToString`: Python's `str()` refuses an integer of more than 4300 digits; the model formats any integer. The backend formats only row numbers and counts with it.
- `Admin.ErrorText`: the text of a rejected section is put between single quotes as it is. Python formats it with `%.200R`: `repr` switches to double quotes for a text holding a single quote, escapes backslashes and non-printable characters, and the result is cut at 200 characters.
- `Admin.ImportRows`: duplicates are checked against the catalog as it stood before the upload. Two equal rows in one file are both imported. With session autoflush on, the second would be skipped; the production setting of autoflush is not visible in the source.
- `Api.Store.ImportWords`: the database assigns new ids. The model takes consecutive ids above the largest existing one and does not bound them.
- `Api.Store.ImportWords`: a section beyond 64 bits fails at the flush of that word (at the next row's duplicate query or at the commit); the model checks the added words together after the loop, with the same outcome: the request fails and nothing is stored. A section with more than 4300 digits never gets that far: `int()` refuses it and the row becomes an error line. Python's `OverflowError` message is not modelled.
- CSV decoding is not modelled (`utf-8-sig`, `csv.DictReader`, backend/app/api/admin.py:20-22). Rows arrive as maps from column name to an optional cell, and extra columns are ignored.
- `Report.GetWeakWords`: the grouped query's row order is taken to be catalog order.
- `Report.GetWeakWords`: the in-place `list.sort` is modelled as a function, an insertion sort that is stable like Python's. The contract states the permutation and the ordering but not stability.
- `Stats.MonthlyStats`: calendar dates are `Date` values and day ordinals, not ISO strings. The SQL string comparison of `date(answered_at, '+9 hours')` against the month bounds is taken as a comparison of day ordinals.
