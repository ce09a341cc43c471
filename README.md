# Weekly staffing analysis: classifier and labour-hour pipeline

The dashboard reads an export of cleaning and inspection tasks, one row per task,
and works out how many labour hours that week's tasks need. Each task title is
lower-cased and sent through a fixed cascade of keyword tests (`categorize_task`).
The first test that succeeds gives the task type, its hours and its skill level.
The script then:

1. drops rows whose due date did not parse;
2. sorts the rows by due date;
3. classifies every row;
4. keeps Monday to Saturday only;
5. shows the weekly total, "Senior Preferred" and "Hot Tub" hours, and the weekly hours per task type;
6. for each day from Monday to Saturday that has rows, shows the same three figures and the day's hours per task type and per skill level.

The model has these modules:

- `Text` (`text.dfy`) covers the parts of Python's `str` the script relies on: ASCII `lower()`, the `in` substring test, and the code-point order of strings that pandas uses to sort group keys.
- `Classifier` (`classifier.dfy`) holds `categorize_task` as the function `Categorize`. It also restates the cascade as an explicit rule table (`Rules`, `FirstMatch`) and proves that the two agree. Hours are counted in half-hours (0.5 h = 1, 1 h = 2, 1.5 h = 3), so every sum of them is exact.
- `Table` (`table.dfy`) is the classified data frame with the three pandas operations the script uses on it:
  - a boolean-mask selection (`Where`);
  - a column sum under a mask (`Hours`);
  - `groupby(column)["Hours"].sum()` (`GroupBy`), which lists the non-empty groups in ascending key order.
- `Pipeline` (`pipeline.dfy`) has the preparation steps, the weekly and per-day summaries (`Analysis`), and the lemmas about them. These cover conservation of hours, the bounds, and the fact that row order and excluded rows do not matter.
- `Script` (`script.dfy`) is the script body as a method, as written. `df` is reassigned step by step. When dropna leaves no row, the run stops, as the script does at its classification step (see Findings). Otherwise the loop over the days of the week is proved to build the report `Analysis` describes.
- `WorkedExample` (`worked.dfy`) is a four-row upload worked through to its weekly figures.

Choices the code makes, which the model follows:

- A title that matches no keyword gets task type "Other", 0 hours and skill level "Other" (app.py:80). There is no separate "Unclassified" type.
- Such rows stay in the frame with 0 hours. They are not dropped, so a day whose only rows are unclassified is still listed, with 0 hours.
- "Hot Tub" hours are the rows whose task type *contains* "Hot Tub" (`str.contains`, app.py:97). Among the eight task names, exactly the two hot-tub types contain it (`HotTubTypes`).
- VIP carries 1 hour (app.py:74). The dashboard's own rules text (app.py:22) gives VIP no hours.

## Model

| member | source | states |
|---|---|---|
| Classifier.CategorizeIsFirstMatch | app.py:47-80 | the if-cascade gives the outcome of the first rule of the ordered rule table that the lower-cased title matches, or the fallback |
| Classifier.FirstMatchWins | app.py:51-78 | if rule `i` matches and no earlier rule does, the rule search returns rule `i`'s triple |
| Classifier.FirstMatchFallsBack | app.py:80 | if no rule matches, the rule search returns the fallback |
| Classifier.FirstMatchIsSomeRule | app.py:51-80 | the rule search returns either the fallback or the triple of a rule that matches |
| Classifier.RuleTypesDistinct | app.py:57-78 | the seven rules give seven different task types, none of them "Other" |
| Classifier.CategorizeByRule | app.py:51-78 | a title gets rule `i`'s task type if and only if it matches rule `i` and no earlier rule (priority, both directions) |
| Classifier.EarliestMatch | app.py:51-78 | when some rule matches, there is an earliest rule that matches |
| Classifier.CategorizeFallback | app.py:80 | the result is ("Other", 0, "Other") if and only if the title matches none of the keywords |
| Classifier.CategorizeIgnoresCase | app.py:48 | classifying the lower-cased title gives the same triple as classifying the title |
| Classifier.CategorizeIsStandard | app.py:57-80 | every result is one of the eight fixed triples: its hours and skill level are determined by its task type |
| Classifier.SeniorExactly | app.py:65-74 | skill level "Senior Preferred" is given exactly for Post Rental Inspection, Managed Services Inspection, Managed Services Arrival and VIP |
| Classifier.HotTubTypes | app.py:57-61 | a task type's name contains "Hot Tub" exactly for the two hot-tub types |
| Classifier.HotTubIsNotSenior | app.py:57-61 | a hot-tub result always carries skill level "Other" |
| Classifier.HoArrivalRedundant | app.py:51-56 | a text contains one of the four regular hot-tub keywords if and only if it contains one of the three other than "ho arrival hot tub" |
| Classifier.HotTubBeforeInspection | app.py:51-65 | a title holding any regular hot-tub keyword is a regular hot-tub task (0.5 h, Other), whatever later keyword it also holds |
| Classifier.InspectionBeforeVip | app.py:67-74 | "vip managed services inspection" is a Managed Services Inspection (1 h, senior), not VIP |
| Classifier.CapitalisedVipTitle | app.py:48-74 | "VIP Managed Services Inspection", as typed, is also a Managed Services Inspection: the title is lower-cased first |
| Classifier.ContainsAnyOne | app.py:51 | `any` over a one-keyword list is the single substring test |
| Classifier.ContainsAnyTwo | app.py:60 | `any` over two keywords is the `or` of the two substring tests |
| Classifier.VipTitleHasNoHotTubKeyword | app.py:51-56 | "vip managed services inspection" contains no regular hot-tub keyword |
| Classifier.VipTitleHasNoDumpOrScrub | app.py:60 | "vip managed services inspection" contains neither "dump" nor "scrub" |
| Classifier.InspectionOccursInVipTitle | app.py:67 | "vip managed services inspection" contains "managed services inspection" |
| Text.LowerIdempotent | app.py:48 | lower-casing twice is lower-casing once |
| Text.LowerOfLowercase | app.py:48 | a text without ASCII capitals is its own lower-case form |
| Text.ContainsTransitive | app.py:51 | a substring of a substring is a substring |
| Text.AbsentCharacter | app.py:51-77 | a needle with a character the text lacks does not occur in it |
| Text.LessIrreflexive | app.py:106 | no string sorts before itself |
| Text.LessTransitive | app.py:106 | the string order is transitive |
| Text.LessAfterCommonPrefix | app.py:106 | strings that agree up to a position and differ there are ordered by that character |
| Text.ChainedCons | app.py:106 | a string below the head of an increasing chain extends the chain |
| Text.ChainedReaches | app.py:106 | in an increasing chain every key is below every later one |
| Text.ChainedIsAscending | app.py:106 | an increasing chain is strictly ascending and has no repeated keys |
| Table.SeniorMaskMeans | app.py:96 | the mask `Skill Level == "Senior Preferred"` selects exactly the senior-preferred records |
| Table.SeniorAndHotTubDisjoint | app.py:96-97 | no classified record is selected by both the senior and the hot-tub mask |
| Table.HoursAppend | app.py:95 | appending a row adds its hours exactly when the mask selects it |
| Table.WhereAppend | app.py:121-129 | appending a row adds it to a selection exactly when the mask selects it |
| Table.HoursConcat | app.py:95 | the sum of a concatenation is the sum of the sums |
| Table.HoursOfWhere | app.py:96-97 | summing the selected rows equals summing under the mask |
| Table.HoursAtMostAll | app.py:95-97 | a masked sum never exceeds the whole column's sum |
| Table.DisjointHours | app.py:95-97 | two masks that never select the same row sum to at most the total |
| Table.SeniorPlusHotTubAtMostTotal | app.py:95-97 | over classified records, senior hours plus hot-tub hours are at most the total hours |
| Table.HoursPermutation | app.py:44-95 | a sum is the same for any reordering of the rows |
| Table.RemoveOne | app.py:44 | taking the same record out of two equal multisets of rows leaves equal multisets |
| Table.HoursRemove | app.py:95 | taking one row out of a frame takes its hours out of the sum when the mask selects it |
| Table.WhereCount | app.py:121-129 | a record occurs in a selection as often as in the frame if the mask selects it, otherwise never |
| Table.WherePermutation | app.py:44-87 | selections of reordered frames hold the same rows |
| Table.WhereSubset | app.py:121-129 | every selected row is a row of the frame and is selected by the mask |
| Table.CellInDomain | app.py:57-115 | every task type, skill level and day name lies in its column's value list |
| Table.DomainAscending | app.py:106 | each column's value list is in ascending string order, without repeats |
| Table.TaskTypesChained | app.py:106 | the eight task-type names are in increasing order |
| Table.HotTubNamesOrdered | app.py:106 | "Hot Tub - Dump & Scrub" sorts before "Hot Tub - Regular" |
| Table.ManagedServicesNamesOrdered | app.py:106 | "Managed Services Arrival" sorts before "Managed Services Inspection" |
| Table.GroupsOverTotal | app.py:106 | the groups of a key list sum to the hours of those keys |
| Table.KeyedHoursAppend | app.py:106 | a new row adds its hours to the keyed sum when its key is listed, otherwise nothing |
| Table.PartitionHours | app.py:106 | when every row's key is listed once, the keyed sum is the total |
| Table.KeyedHoursOfEmpty | app.py:106 | an empty frame has no keyed hours |
| Table.GroupByConserves | app.py:95-106 | the values of `groupby(c)["Hours"].sum()` add up to the column total |
| Table.GroupsOverPermutation | app.py:44-106 | the groupby result is the same for any reordering of the rows |
| Table.GroupsOverKeys | app.py:106 | groups come only from listed keys, in ascending order when the key list is ascending |
| Table.GroupKeysAppend | app.py:106 | adding a group above all present keys keeps the keys ascending |
| Table.GroupByKeysAscending | app.py:106 | `groupby` lists its keys in ascending order, each at most once |
| Table.GroupByListsPresentKeys | app.py:106 | a key is listed if and only if some row holds it, and its value is that key's hours |
| Table.SelectionEmpty | app.py:121-123 | a selection on a key is empty if and only if no row holds the key |
| Table.GroupsOverListed | app.py:106 | a key is in the groups if and only if it is listed and some row holds it |
| Table.GroupsOverValues | app.py:106 | every group's value is its key's hours |
| Pipeline.InsertByDue | app.py:44 | inserting a row into a date-sorted list keeps it sorted and adds exactly that row |
| Pipeline.SortByDue | app.py:44 | the sorted frame is in due-date order and a permutation of the input |
| Pipeline.SortedCons | app.py:44 | a row due no later than every row of a sorted list can head it |
| Pipeline.DueNoEarlier | app.py:44 | after insertion into the tail, no row is due before the head |
| Pipeline.DropUndatedCount | app.py:41-42 | a dated row occurs after `dropna` as often as it was uploaded; undated rows never occur |
| Pipeline.DropUndatedOfDated | app.py:41-42 | when every date parsed, every row is kept, in order |
| Pipeline.AnnotateCount | app.py:82-84 | a record occurs after classification only with its title's triple, as often as its row |
| Pipeline.AnnotateEach | app.py:82-84 | every row gets its own title's triple, in place |
| Pipeline.MonToSatCount | app.py:87 | the weekday filter keeps every Monday-to-Saturday record as often as it occurs and drops every Sunday record |
| Pipeline.MonToSatOfWeekdays | app.py:87 | a Monday-to-Saturday frame passes the filter unchanged |
| Pipeline.PrepareCount | app.py:41-87 | a record is in the prepared frame as often as its row was uploaded, if it carries its title's triple and is due Monday to Saturday; otherwise never |
| Pipeline.PrepareKeepsMonToSat | app.py:82-87 | every prepared record is classified from its title and due Monday to Saturday |
| Pipeline.PrepareIsUnsortedPermuted | app.py:44 | sorting changes the frame's order and nothing else |
| Pipeline.DailyOverTotal | app.py:115-127 | the listed days' totals add up to the hours of those days |
| Pipeline.DaysOrderDistinct | app.py:115 | the week's days are distinct, and the w-th is the name of weekday w |
| Pipeline.FrameConsistent | app.py:95-143 | for classified records: senior + hot tub ≤ total, and the task-type groups and the skill-level groups each sum to the total |
| Pipeline.DailyOverConsistent | app.py:117-143 | every listed day's figures are consistent in the same sense |
| Pipeline.AnalysisAddsUp | app.py:87-143 | the report adds up: weekly senior + hot tub ≤ total; task-type groups and day totals sum to the weekly total; every day's groups sum to its total |
| Pipeline.DaysAddUp | app.py:87-127 | over a Monday-to-Saturday frame the day totals add up to the total |
| Pipeline.DailyOverLists | app.py:117-123 | a day is listed if and only if it is in the day list and some row falls on it; empty days are skipped |
| Pipeline.ListedWhenSelected | app.py:121-123 | a day is listed if and only if it is in the day list and its selection `df[df["Day"] == day]` is not empty |
| Pipeline.DailyOverValues | app.py:121-143 | every listed day is one of the days, has rows, and carries the three sums and the two groupbys of its own rows |
| Pipeline.DailyOverOrdered | app.py:117-119 | the listed days appear in the order of the day list: the i-th sits at a position of the list, and the positions strictly increase |
| Pipeline.DaysListedOnce | app.py:117-119 | each of Monday to Saturday is listed at most once |
| Pipeline.DailyOverNames | app.py:119-123 | the days listed are exactly the days of the list that have rows, in the list's order |
| Pipeline.ListedDaysPositions | app.py:119-123 | the i-th day that has rows sits at position `pos[i]` of the day list, and the positions strictly increase |
| Pipeline.TotalsPermutation | app.py:44-97 | the three weekly figures do not depend on row order |
| Pipeline.DailyOverPermutation | app.py:44-143 | the per-day summaries do not depend on row order |
| Pipeline.SummarizePermutation | app.py:44-143 | the whole report depends only on the multiset of prepared rows |
| Pipeline.SortChangesNothing | app.py:44 | the report equals the one computed without the sort |
| Pipeline.AnalysisIgnoresRowOrder | app.py:33-143 | two uploads with the same rows in any order give the same report |
| Pipeline.UnsortedIgnoresExcluded | app.py:41-87 | appending a row without a date, or due on a Sunday, leaves the frame unchanged |
| Pipeline.ExcludedRowIgnored | app.py:41-87 | inserting such a row anywhere leaves the whole report unchanged (where the script shows a report; see Findings) |
| Pipeline.NothingKeptNothingCounted | app.py:41-143 | when every row is undated or due on a Sunday, all figures are zero and nothing is listed (the intended outcome; see Findings) |
| Pipeline.AnalysisOfNothing | app.py:95-143 | an empty frame gives zero figures and no groups or days (the intended outcome for an empty upload; see Findings) |
| Pipeline.GroupsOverOfEmpty | app.py:106 | an empty frame has no groups |
| Pipeline.DailyOverOfEmpty | app.py:117-123 | an empty frame lists no days |
| Pipeline.DropUndatedEmpty | app.py:41-42 | dropna leaves no row exactly when no row has a parsed date |
| Pipeline.AsWrittenStops | app.py:41-84 | as written, the script stops exactly when no row has a parsed date, and otherwise shows `Analysis(rows)` |
| Pipeline.UndatedUploadStops | app.py:82-84 | an upload of one undated row makes the script as written stop |
| Pipeline.InsertKeepsEmptiness | app.py:41-42 | inserting an undated row, or any row into an upload that has a dated one, leaves the frame after dropna empty exactly when it was |
| Pipeline.AsWrittenIgnoresExcluded | app.py:41-143 | as written, inserting an undated row anywhere changes nothing, nor does inserting a Sunday row into an upload with a dated row |
| Script.SummarizeDay | app.py:121-143 | one day's figures are its three sums and its two groupbys over that day's rows, and they are consistent: senior and hot-tub hours within the total, each groupby summing to it |
| Script.SummarizeDays | app.py:115-143 | the loop over Monday to Saturday builds exactly the per-day summaries, skipping days without rows |
| Script.RunAnalysis | app.py:41-143 | the script as written: no report exactly when dropna leaves no row (the stop at app.py:82-84), and otherwise exactly `Analysis(rows)`, which adds up |
| WorkedExample.ArrivalHotTubService | app.py:51-57 | "Arrival Hot Tub Service" is a regular hot-tub task, 0.5 h |
| WorkedExample.NoHotTubKeyword | app.py:51-56 | a text without an "h" contains no regular hot-tub keyword |
| WorkedExample.PostRentalInspectionTitle | app.py:64-65 | "Post Rental Inspection" is 1 h, senior preferred |
| WorkedExample.DumpAndScrubTitle | app.py:60-61 | "Dump & Scrub" is 1.5 h of hot-tub work |
| WorkedExample.RandomTaskTitle | app.py:80 | "Random Task" is "Other", 0 h |
| WorkedExample.RandomTaskNoEarlyRule | app.py:51-64 | "random task" matches none of the first three rules |
| WorkedExample.RandomTaskNoLateRule | app.py:67-77 | "random task" matches none of the last four rules |
| WorkedExample.UploadPrepared | app.py:41-87 | the four-row upload prepares to its four classified records, in date order |
| WorkedExample.UploadDated | app.py:41-42 | all four dates parse |
| WorkedExample.UploadSorted | app.py:44 | the four rows are already in date order |
| WorkedExample.UploadAnnotated | app.py:82-84 | each of the four rows gets its triple |
| WorkedExample.UploadOnWeekdays | app.py:87 | all four rows are due Monday to Thursday |
| WorkedExample.SortedIsUnchanged | app.py:44 | sorting rows already in strictly increasing date order leaves them unchanged |
| WorkedExample.AppendLatest | app.py:44 | a row due after every row of a sorted list is inserted at its end |
| WorkedExample.HoursOfFour | app.py:95 | the masked sum of four rows is the sum of their selected hours |
| WorkedExample.UploadWeekly | app.py:95-97 | the upload's weekly figures are 3 h in all, 1 h senior-preferred, 2 h hot-tub work |
| WorkedExample.FrameTotal | app.py:95 | the four records hold 3 h |
| WorkedExample.FrameSenior | app.py:96 | 1 h of them is senior-preferred |
| WorkedExample.FrameHotTub | app.py:97 | 2 h of them are hot-tub work |

## Left out

- The Streamlit user interface is not modelled: the page set-up, the rules text, the file uploader, metrics, data-frame display and bar charts (app.py:4-29, 93-146). It is presentation only.
- Reading the CSV (app.py:33) and parsing dates (app.py:41) are library calls and are not modelled. A row arrives with its title and its parsed due date: `Option<Due>`, where `None` is a date that did not parse. A `Due` carries a position on the time line (`dateKey`) and its weekday.
- The rename by position (app.py:36-39) is not modelled. Each row already holds the tenth and nineteenth columns as title and due date. A CSV with fewer than 19 columns makes the script stop with an IndexError at app.py:37-38, and a `Row` cannot represent such an upload.
- `round(..., 2)` on the displayed figures (app.py:101-103, 132-134) is not modelled. It is float presentation, and the sums themselves are exact in half-hours.
- Case folding outside ASCII is not modelled. `Lower` lower-cases only `A`-`Z`, while Python's `str.lower` also folds other scripts.
- A missing title is not modelled: `str()` of a missing value gives `"nan"`. The model takes every title as a string, and `"nan"` matches no keyword anyway.
- `SortByDue` is a stable insertion sort, while pandas' default `sort_values` is not stable. The order of rows with equal due dates may therefore differ. `SortChangesNothing` and `AnalysisIgnoresRowOrder` prove that no figure depends on that order.
- The `df["Day"]` column (app.py:115) is not stored. The day of a record is computed from its weekday when a mask or groupby reads it.
- `report_generator.py` is not part of this model. It is PDF and chart assembly over libraries.
- The pandas column operations (`dropna`, `sort_values`, `apply`, the masks, `sum`, `groupby`) appear in the script method as calls of the model's functions, not as loops. The script itself has no loop there, and its one loop, over the days, is modelled as a loop.
- ExcludedRowIgnored: states the intended behaviour. As written, an upload whose rows all lack a parsed date stops with an error (see Findings), so the insertion is only guaranteed to change nothing where the script shows a report; `AsWrittenIgnoresExcluded` states the as-written outcome.
- NothingKeptNothingCounted: states the intended all-zero report. As written, the script shows it only when some row has a parsed date, all such rows falling on Sundays; when no row has a parsed date it stops with an error (`AsWrittenStops`).
- AnalysisOfNothing: states the intended report for an empty frame. As written, an empty upload stops with an error at the classification step (`UndatedUploadStops`, `AsWrittenStops`).

## Findings

| source | as written | input that shows it | evidently intended | confidence | as-written member | corrected member |
|---|---|---|---|---|---|---|
| app.py:82-84 | the per-row `apply` yields an empty Series, not a three-column frame, when no row survives dropna, and the assignment to three columns raises an error | an upload of one row whose due date does not parse (`UndatedUploadStops`) | an empty week: all figures zero, no groups and no days (`NothingKeptNothingCounted`, `AnalysisOfNothing`) | not executed; medium, from pandas' documented `apply` behaviour on an empty Series | Pipeline.AsWritten | Pipeline.Analysis |
