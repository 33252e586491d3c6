# cbp-dashboard scoreboard logic in Dafny

The dashboard shows CyberPatriot competition scores on two screens. A leaderboard orders the teams by total score. A big screen cycles through one slide per team and shows its national and state rank. Each image of a team carries a runtime badge that starts blinking as the image nears the competition's time limit. A setup page keeps the roster of teams. After every poll the dashboard remembers, per team and image category, the last runtime it saw and since when. An image whose runtime has not moved for two minutes or more counts as "stopped".

This project models that logic as pure functions over immutable datatypes and proves its contracts:

- `Base`: an optional value and JavaScript's arithmetic. That covers truncated `/` and `%`, the 32-bit `~~` and decimal rendering.
- `Types`: the poll response, the runtime log and the roster's team record.
- `Processing`: the helpers of the newer `app/utils/processing.ts`.
- `LegacyProcessing`: the older `app/processing.ts`. The leaderboard and the big screen still import it.
- `StableSort`: a reference stable sort, standing for `Array.prototype.sort`. ECMA-262 has required that sort to be stable since its 2019 edition (section 23.1.3.30 in the 2023 edition).
- `LogMerge`: the runtime-log merge of `app/routes/dashboard.tsx` and the poll step around it.
- `Leaderboard`, `ImageTime`, `TeamCard`, `Roster` and `BigScreen`: one module per component or page.

Modelling conventions:

- Scores and runtimes are integers.
- Dates are integer milliseconds.
- Runtimes are taken to count seconds, so the badge reads minutes:seconds. The code itself does not fix the unit; 345, 350, 355 and 360 are compared against the raw value.
- A response object is the list `Object.entries` returns. Its ids are distinct, because object keys are.
- JavaScript's `%` truncates toward zero. It is modelled by `Base.TruncRem`, never by Dafny's Euclidean `%`.

Two revisions of the helpers coexist and are modelled as written. For place 1 of 100 they disagree: the older file gives "1st Percentile" and the newer one "99th Percentile". The big screen shows the older label.

## Model

| member | source | states |
|---|---|---|
| Types.DataFor | app/components/big-screen.tsx:31 | `teamsData[id]` is the data of the first entry with that id, null included. An id with no entry reads as no data, like a null entry. |
| Processing.SumScoresAppend | app/utils/processing.ts:62 | The left-fold sum of scores splits over concatenation, so it is the plain sum of all scores. |
| Processing.TotalScore | app/utils/processing.ts:61-63 | The total is absent exactly when the data is null. It is 0 for an empty image list and otherwise the first score plus the sum of the rest. |
| Processing.TotalScoreExample | app/utils/processing.ts:61-63 | Scores 50, 30 and 20 total 100. |
| Processing.GetPercentile | app/utils/processing.ts:74-76 | The percentile is the floor of 100·(total−place)/total (p·total ≤ 100·(total−place) < (p+1)·total). For 1 ≤ place ≤ total it lies in 0..99. |
| Processing.GetOrdinal | app/utils/processing.ts:84-88 | The suffix is always one of "th", "st", "nd", "rd". The suffix array's index uses truncated remainders. |
| Processing.GetOrdinalIsEnglish | app/utils/processing.ts:84-88 | For n ≥ 0 the suffix is the English one: "th" when n mod 100 is 11, 12 or 13, otherwise st/nd/rd for a last digit of 1/2/3 and "th" for the rest. Negative n gets "th". |
| Processing.OrdinalExamples | app/utils/processing.ts:84-88 | 1st, 2nd, 3rd, 11th, 12th, 13th, 21st, 22nd, 99th, 0th, 100th, 111th. |
| Processing.FormatPercentile | app/utils/processing.ts:78-82 | The label is the percentile's digits, two suffix letters, then " Percentile". |
| Processing.FormatPercentileReadsBack | app/utils/processing.ts:78-82 | The label's digits read back as the percentile, and its two letters are that number's English suffix. |
| Processing.FirstOfHundred | app/utils/processing.ts:74-82 | Place 1 of 100 gives 99 and "99th Percentile". |
| Processing.PrepareHistory | app/utils/processing.ts:90-107 | There is one point per sample, in order, with the time and all three category values copied, nulls included. An empty history gives an empty series, and nothing is padded. |
| Processing.PrepareHistoryLossless | app/utils/processing.ts:95 | The samples can be rebuilt from the series. |
| Processing.IsStopped | app/utils/processing.ts:109-120 | Missing data, image, category, team log or entry gives false. With all present, the answer is true iff the entry's runtime equals the image's and `updated − since` ≥ 120 000 ms. |
| Processing.StaleThreshold | app/utils/processing.ts:117 | `differenceInMinutes > 1` holds exactly from 120 000 ms on. The whole-minute difference itself is `Processing.DifferenceInMinutes`. |
| Processing.IsStoppedExamples | app/utils/processing.ts:109-120 | Two minutes with the same runtime is stopped. Thirty seconds, or a changed runtime, is not. |
| Processing.ImageDisplayOrderIsPermutation | app/utils/processing.ts:122 | The display order lists each of the three categories exactly once. |
| LegacyProcessing.TotalScore | app/processing.ts:59-61 | The older total is absent iff the data is null, and 0 for an empty list. |
| LegacyProcessing.TotalScoreAgrees | app/processing.ts:59-61 | The older total equals the newer one for every input. |
| LegacyProcessing.GetPercentile | app/processing.ts:72-74 | The percentile is 100·place/total rounded half up (2pt − t ≤ 200·place < 2pt + t). It lies in 0..100 for a valid ranking, and place == total gives 100. |
| LegacyProcessing.GetOrdinal | app/processing.ts:82-86 | The older suffix is always one of the four suffixes. |
| LegacyProcessing.GetOrdinalAgrees | app/processing.ts:82-86 | The older suffix equals the newer one for every integer. |
| LegacyProcessing.FormatPercentile | app/processing.ts:76-80 | The label is digits, suffix, then " Percentile", over the rounded percentile. |
| LegacyProcessing.FormatPercentileReadsBack | app/processing.ts:76-80 | The label reads back as the rounded percentile, followed by its English suffix. |
| LegacyProcessing.FirstOfHundredRounded | app/processing.ts:72-80 | Place 1 of 100 rounds to 1 and reads "1st Percentile". |
| LegacyProcessing.RevisionsDiverge | app/processing.ts:72-80 | Place 1 of 100 reads "1st Percentile" here and "99th Percentile" in the newer file. |
| LegacyProcessing.LastPlaceIsHundredth | app/processing.ts:72-80 | Last place of any positive total reads "100th Percentile". |
| StableSort.Insert | app/components/leaderboard.tsx:18 | Insertion keeps the length and the multiset and yields an ascending list. |
| StableSort.SortBy | app/components/leaderboard.tsx:18 | The sort is a permutation and ascending by key. |
| StableSort.InsertWithKey | app/components/leaderboard.tsx:18 | An inserted element goes in front of the equal keys, first among the elements of its key. Other keys' elements are unaffected. |
| StableSort.SortByStable | app/components/leaderboard.tsx:18 | The elements of any one key keep their input order, so the sort is stable. |
| LogMerge.Observe | app/routes/dashboard.tsx:55-60 | The stored entry survives iff it records the observed runtime. Otherwise it becomes the runtime since `updated`. |
| LogMerge.MergeImage | app/routes/dashboard.tsx:54-61 | An image without a category changes nothing. One with a category adds only that key and leaves every other category's entry as it was. |
| LogMerge.MergeEntry | app/routes/dashboard.tsx:45-52 | A null entry is skipped. A team with data gets an inner map. |
| LogMerge.MergeImagesAt | app/routes/dashboard.tsx:54-61 | Each category's entry evolves on its own, through that category's runtimes in list order. |
| LogMerge.ObserveAllResult | app/routes/dashboard.tsx:54-61 | After a non-empty series the entry is the old one iff every runtime equals the stored one. Otherwise it is the last runtime since `updated`. |
| LogMerge.ObserveAllIdempotent | app/routes/dashboard.tsx:54-61 | Observing the same series twice equals observing it once. |
| LogMerge.MergeImagesIdempotent | app/routes/dashboard.tsx:54-61 | Replaying a team's images on its merged map changes nothing. |
| LogMerge.MergeAt | app/routes/dashboard.tsx:43-66 | The characterisation of the whole updater `Merge`, team by team. A team with data gets its old map (or `{}`) with its images merged in. Every other team keeps its entry or stays absent. |
| LogMerge.MergeLeavesOtherTeams | app/routes/dashboard.tsx:45-46 | Teams with null data, or absent from the response, keep their log entries. |
| LogMerge.MergeCreatesTeamLog | app/routes/dashboard.tsx:50-52 | A team with data always has an inner map afterwards, and it loses no category. |
| LogMerge.MergeEntryRule | app/routes/dashboard.tsx:55-60 | A category with no image is untouched. Runtimes all equal to the stored one keep the entry, `since` included. Otherwise the entry is the last runtime since `updated`. |
| LogMerge.MergeIdempotent | app/routes/dashboard.tsx:43-66 | Merging the same response twice gives the log of merging it once. |
| LogMerge.StoppedOnlyIfUnchanged | app/routes/dashboard.tsx:55-60 | Right after a merge, an image can be stopped only if its entry already held that runtime and was kept. |
| LogMerge.Tick | app/routes/dashboard.tsx:24-34 | An empty roster, an HTTP error or a failed parse changes nothing. A parsed response replaces the data and is merged into the log. |
| LogMerge.TickTwice | app/routes/dashboard.tsx:34-66 | Receiving the same response twice in a row leaves the state of receiving it once. |
| Leaderboard.FindTeam | app/components/leaderboard.tsx:16 | `find` returns the first roster team with the id, or none iff no team has it. |
| Leaderboard.Rows | app/components/leaderboard.tsx:15-16 | The rows are the response entries in order, each paired with its roster team. Resolution is required, after the `!`. |
| Leaderboard.SortRows | app/components/leaderboard.tsx:18 | The comparator sort is a permutation, ordered by descending total. |
| Leaderboard.SortRowsStable | app/components/leaderboard.tsx:18 | Sorting keeps the rows of each total in their input order. |
| Leaderboard.Sorted | app/components/leaderboard.tsx:14-19 | The result is a permutation of the rows, non-increasing in `total ?? -1`. Every team without data comes after every team with a total ≥ 0, 0 included. The sort key `total ?? -1` is `Leaderboard.SortKey`. |
| Leaderboard.SortedIsStable | app/components/leaderboard.tsx:18 | Rows with equal totals keep their response order. |
| Leaderboard.FlipKeySplits | app/components/leaderboard.tsx:29-31 | The flip key of seven-character ids is 7·n long, and its i-th block is the i-th sorted id. |
| Leaderboard.Render | app/components/leaderboard.tsx:21-31 | Skeletons appear iff the list is empty, one per roster team. Otherwise the board carries exactly the sorted rows, non-increasing in total, and the flip key of that order. |
| ImageTime.ClockText | app/components/image-time.tsx:26 | The text ends in a colon and two characters. Below 60·2^31 seconds it is the whole minutes (runtime div 60), a colon, and the leftover seconds (runtime mod 60, so below 60) padded to two digits: 65 reads "1:05". |
| ImageTime.TwoDigits | app/components/image-time.tsx:26 | Seconds below 60 pad to exactly two digits with their value. |
| ImageTime.PlaceholderIsNoClock | app/components/image-time.tsx:26 | "--:--" does not read as a clock. |
| ImageTime.ReadsBackParts | app/components/image-time.tsx:26 | Whole minutes, a colon and leftover seconds below 60, padded to two digits, parse back as minutes·60 + seconds. |
| ImageTime.ClockTextReadsBack | app/components/image-time.tsx:26 | For a runtime ≥ 0 below 60·2^31, minutes·60 + seconds give the runtime back. |
| ImageTime.ImageTime | app/components/image-time.tsx:10-29 | An unset runtime shows "--:--", a set one its clock text. The badge blinks iff the runtime is set, ≥ 345 and not stopped. The colour is yellow below 350, orange below 355 and red from 355. Stopped iff gray. |
| ImageTime.NeverActive | app/components/image-time.tsx:24 | A stopped image never blinks, and neither does one below 345 seconds or without a runtime. |
| ImageTime.Thresholds | app/components/image-time.tsx:16-24 | The exact boundaries: 344 and 345 for blinking, 349/350 and 354/355 for the colour. |
| TeamCard.IntToStringReadsBack | app/components/team-card.tsx:37 | A rendered integer is a minus sign (for negatives) and digits, and parses back as the integer. It is never "--". |
| TeamCard.PlaceholderIsNoTotal | app/components/team-card.tsx:57 | "--" does not read as a number. |
| TeamCard.TotalText | app/components/team-card.tsx:15-37 | The total reads "--" iff there is no data or no image. Otherwise it is the decimal rendering of the sum of scores (`TeamCard.SumNamed`, the `reduce`), which reads back as that sum. |
| TeamCard.GetImage | app/components/team-card.tsx:19-21 | The lookup returns the first image with that name, or none iff no image has it. |
| TeamCard.FindNamed | app/components/team-card.tsx:20 | `find` by name returns the first match, or none iff nothing matches. |
| TeamCard.ImageSlot | app/components/team-card.tsx:42-60 | A missing image counts as runtime 0 and shows "--:--" and "--". The badge blinks iff 345 ≤ runtime < 360 and is red iff runtime ≥ 360. A present image shows its runtime's clock text, which reads back as the runtime, and the score text is the score's decimal rendering, which reads back as the score. OVRT/MULT show iff those flags are set. |
| TeamCard.RenderCard | app/components/team-card.tsx:26-40 | The badge is the id, the heading is `alias ?? id` and the total line is the total-or-"--" text. There is one column per image key, each from that key's lookup. |
| Roster.EditId | app/routes/index.tsx:77-80 | Typing in the id field clears its error and changes nothing else. |
| Roster.EditAlias | app/routes/index.tsx:89-92 | Typing in the alias field changes nothing but that field. |
| Roster.AddTeam | app/routes/index.tsx:16-38 | A malformed id (one failing `Roster.ValidId`, the `NN-NNNN` pattern) only sets "Invalid team ID", and that check comes first. A listed id only sets "Team already added". Otherwise `{id, alias}` is appended and both inputs are cleared. |
| Roster.Remove | app/routes/index.tsx:41 | No remaining team has the id. A team remains iff it was there with another id. |
| Roster.DeleteTeam | app/routes/index.tsx:40-42 | Deleting filters the roster by the team's id and leaves the inputs alone. |
| Roster.RemoveAppend | app/routes/index.tsx:41 | The filter works piecewise, so the other teams keep their order. |
| Roster.RemoveAbsent | app/routes/index.tsx:41 | Deleting an id nobody has changes nothing. |
| Roster.AddThenDelete | app/routes/index.tsx:29-42 | Adding a team and then deleting it gives the roster back. |
| Roster.RemoveKeepsDistinct | app/routes/index.tsx:41 | Filtering keeps ids distinct. |
| Roster.EditsKeepWellFormed | app/routes/index.tsx:19-42 | Adding and deleting keep every id `NN-NNNN` and no id twice. |
| BigScreen.RemoveFirstHyphen | app/components/big-screen.tsx:29 | `replace("-", "")` removes at most one character, and nothing when there is no hyphen. |
| BigScreen.RemoveFirstHyphenAt | app/components/big-screen.tsx:29 | The character removed is the first '-', and the rest keeps its order. |
| BigScreen.FirstHyphenRemoved | app/components/big-screen.tsx:29 | Removing the hyphen at position k, when none comes before it, leaves the text before and after it. |
| BigScreen.SlideKeyOfValidId | app/components/big-screen.tsx:29 | On a roster id, the slide key (`BigScreen.SlideKey`, `parseInt` of the id without its hyphen) is the number formed by the six digits around the hyphen. |
| BigScreen.SlideKeysDistinct | app/components/big-screen.tsx:29 | Two roster ids with the same key are the same id. |
| BigScreen.OrderedTeams | app/components/big-screen.tsx:28-30 | The ordered roster is a permutation, ascending by key. |
| BigScreen.BuildSlides | app/components/big-screen.tsx:27-34 | The slides are the overview, then one slide per roster team (teams + 1 in all). Team slides are in ascending key order, each carrying `teamsData[id]`. |
| BigScreen.BuildSlidesStable | app/components/big-screen.tsx:30 | Teams with equal keys keep their roster order. |
| BigScreen.BuildSlidesStrict | app/components/big-screen.tsx:29-30 | On a well-formed roster the team slides are strictly ascending. |
| BigScreen.Next | app/components/big-screen.tsx:41-43 | `(i + 1) % len` stays in range and wraps from the last slide to 0. |
| BigScreen.Previous | app/components/big-screen.tsx:70 | `(i − 1 + len) % len` stays in range and wraps from 0 to the last slide. |
| BigScreen.NextPreviousInverse | app/components/big-screen.tsx:70 | For an index in range, next(previous(i)) = i and previous(next(i)) = i. |
| BigScreen.ResetIndexAsWritten | app/components/big-screen.tsx:61 | The index kept on a slide-list change, as written: an in-range index stays, a multiple of the length becomes 0, any other index stays, even past the end. |
| BigScreen.ResetIndexLeavesRange | app/components/big-screen.tsx:61 | As written, index 5 survives a shrink to 3 slides. |
| BigScreen.ResetIndex | app/components/big-screen.tsx:61 | The corrected reset is always in range and keeps an in-range index. It agrees with the code wherever the code stays in range. |
| BigScreen.SlidesChangedAsWritten | app/components/big-screen.tsx:59-66 | As written, a rebuilt slide list keeps an in-range index, resets a multiple of the new length to 0, and keeps any other index, even past the end. The index comes from BigScreen.ResetIndexAsWritten. |
| BigScreen.ShrinkLeavesNoSlide | app/components/big-screen.tsx:61 | As written, shrinking 6 slides to 3 at index 5 leaves no current slide and the heading "Overview", while the details show slide 1. The corrected transition moves to index 2. |
| BigScreen.SlidesChanged | app/components/big-screen.tsx:61 | The corrected transition always leaves the index on a slide, keeps an in-range index, and agrees with the code wherever the code stays in range. |
| BigScreen.Advance | app/components/big-screen.tsx:78-81 | The end of an animation moves to the next slide: one further, or back to the overview from the last slide. An index left past the end wraps to (index + 1) mod length. |
| BigScreen.UsableTeamSlide | app/components/big-screen.tsx:68-76 | The shown team is the current slide if it is a team slide, else the previous one if that is, else none. An index past the end has no current slide, so the previous slide decides. |
| BigScreen.OverviewKeepsLastTeam | app/components/big-screen.tsx:73-76 | On the overview, the details still show the last team. |
| BigScreen.Heading | app/components/big-screen.tsx:109 | The heading is the alias if defined, else "Team <id>", and "Overview" off a team slide. |
| BigScreen.IdBadge | app/components/big-screen.tsx:99 | The badge is the shown team's id, or "😭" without one. |
| BigScreen.RankText | app/components/big-screen.tsx:151 | The text is "Rank Unavailable" iff the ranking is missing. Otherwise it is the older helper's percentile label, which reads back as the rounded percentile (its English suffix is LegacyProcessing.FormatPercentileReadsBack's). |
| BigScreen.RankPanel | app/components/big-screen.tsx:122-151 | There is a National block and then a State block. Without a team or data both lines are unavailable and the location is "Unknown". A line shows its ranking's place and total, and any unavailable line shows 0 and 0. Each line's text is `BigScreen.RankText` of its ranking: unavailable iff the ranking is missing, and otherwise the older percentile label. |

## Left out

- Network and polling are modelled only as `LogMerge.Tick` over the outcome of one poll. That covers the `fetch`, the 30-second interval, superjson parsing and the request URL.
- Local-storage persistence of the roster and the runtime log is out. So is the legacy-key migration. They are key-value I/O through libraries outside this model.
- Animations are out: framer-motion controls, the progress bar timing, text transitions and animated numbers. They only affect how values appear on screen.
- `app/components/alternate.tsx` is out. Its timer flips a class, and only the `active` flag and the "on" colour its callers choose are modelled.
- Markup-only components (text input, team table, card skeleton, hotkey button, history tooltip) and the CSS set-up are out.
- Tier, division, issues and penalties are out. They are carried through but never computed on.
- Floating point is out:
  - scores are integers;
  - `Math.round` is exact rational round-half-up. Double arithmetic can land just below a half: for place 23 of 40, `23 / 40 * 100` is slightly under 57.5 in double precision, so the code shows 57 where `LegacyProcessing.GetPercentile` gives 58;
  - `differenceInMinutes` from date-fns is assumed to be the millisecond difference divided by 60 000 and truncated toward zero, since that library is not part of this model.
- A response with a repeated key cannot arise, because JavaScript object keys are unique. The merge lemmas require distinct ids.
- Negative runtimes, `place > total` and `total ≤ 0` are not handled by the code. They appear as preconditions rather than invented clamping.
- BigScreen.BuildSlides: `parseInt` is modelled only for `NN-NNNN` ids, which are the only ones the setup page adds. A hand-edited stored roster with other ids is outside the model.
- BigScreen.Next: the empty slide list of the first render, where `% 0` gives NaN, is excluded by a precondition. The same precondition, for the same reason, is on BigScreen.Previous, BigScreen.UsableTeamSlide, BigScreen.Advance, BigScreen.SlidesChanged and BigScreen.SlidesChangedAsWritten.
- ImageTime.ClockTextReadsBack: the round trip is stated only below 60·2^31 seconds, where `~~` does not wrap. Number-to-string exponent notation (from 1e21) is likewise not modelled.
- Roster.EditId: the value is taken after the browser's `maxLength` limit (7 for the id, 32 for the alias). The limit itself is not modelled.
- BigScreen.UsableTeamSlide: in the code, the current and previous slide are state that an effect sets after the index or the slide list changes. For one render they still show the old slides. The model computes them from the slide list and index directly, so BigScreen.Heading and BigScreen.IdBadge show the settled state only.
- TeamCard.TotalText: the total is shown after its effect has run. The one render with a stale total of 0 is not modelled.
- TeamCard: the three image keys come from `~/images`, which is not part of this model. They are a parameter of `RenderCard`.

Four behaviours differ from what one might expect; the model follows the code:

- An image that goes missing, or that has no category, does not reset `since`.
- Every runtime from 345 seconds on blinks (unless the image is stopped). There is no steady band between 350 and 355.
- "More than one minute" means `differenceInMinutes > 1`, that is at least 120 000 ms.
- The big screen uses the older, rounded percentile.

## Findings

| source | as written | input that shows it | evidently intended | confidence | as-written member | corrected member |
|---|---|---|---|---|---|---|
| app/components/big-screen.tsx:61 | `i % slides.length === 0 ? 0 : i` keeps any index that is not a multiple of the new length | index 5 when the slide list shrinks from 6 to 3: 5 % 3 = 2, so the index stays 5, past the end; the heading falls back to "Overview" until the next step | keep an in-range index and bring an out-of-range one back into range, i.e. `i % slides.length` | not executed | BigScreen.ShrinkLeavesNoSlide | BigScreen.SlidesChanged |
