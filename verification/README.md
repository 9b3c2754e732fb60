# A verified model of the health-tracking app's core rules

This project models, in Dafny, the deterministic rules embedded in a Next.js
health-tracking application and its tool scripts. Dates, lab values,
blood-pressure readings, uploads, profiles, routing, blog content and
evaluation runs are immutable datatypes. Every page handler, reducer and
script step is a pure function or a small method over them. Network, database,
file system, clock and `Intl` calls are replaced by parameters that carry
their results.

One module per source file:

- `Dates` (`web/src/lib/date.ts`): ISO and `MM/DD/YYYY` recognition, normalisation to ISO, and the ascending date comparator.
- `Tracking` (`web/src/lib/tracking.ts`): blood-pressure classification and the relative-time label.
- `Metrics` (`web/src/lib/metrics.ts`): the out-of-range check for extracted lab values.
- `Lab`: the lab-value records shared by the dashboard and the chart.
- `Dashboard` (`web/src/app/dashboard/page.tsx`): the dashboard's list transforms:
  - range test and Turkish-insensitive names;
  - de-duplication with id remapping;
  - display order, latest value and averaging;
  - selection toggles, send-to-top and grid-height clamps.
- `Chart` (`web/src/components/metric-chart.tsx`): chart points, the y-axis domain and the latest-value badge.
- `Settings` (`web/src/app/settings/page.tsx`): the active tab, the report-file table sort and the guarded deletion.
- `TrackingHistory` (`web/src/components/tracking-history.tsx`): edit rights, the edit form, its validation and request body, and the list updates.
- `MeasurementDialogs` (the weight and blood-pressure dialogs): input filters, validity, request bodies, trend, recent entries and the 409 "already recorded" flow.
- `UploadPage` (`web/src/app/upload/page.tsx`): the upload state machine:
  - resume and polling;
  - metric-name aliases and their toggles;
  - review edits and the free-plan cap;
  - confirmation and cancellation.
- `UploadApi` (`web/src/app/api/upload/route.ts`): the ordered checks of `POST` and the reset and listing rules of `GET`, over an in-memory picture of the two tables.
- `ActiveProfile` (`web/src/hooks/use-active-profile.ts`): which profile is active, switching, and onboarding.
- `Access` (`web/src/app/settings/access/page.tsx`): access data, the owned/shared split and the known-people list.
- `Initials` (the header and the access page): avatar initials.
- `Middleware` (`web/src/middleware.ts`): routing as one decision function as written, and beside it the same function with the corrected redirect guard.
- `Blog` (`web/src/lib/blog.ts`): reading time, the locale-directory guard, post lookup and ordering, and alternate locales.
- `I18n` (`web/src/i18n/config.ts`) and `Sitemap` (`web/src/app/sitemap.ts`): locales, hreflang tables and sitemap entries.
- `Migration` (`web/scripts/run-migration.js`): `.env` parsing, database choice, the latest migration file, the `$$`-aware statement splitter and the tolerant execution loop.
- `Evals` (`evals/score-run.mjs`, `evals/run-eval.mjs`): scoring, run totals, the per-page merge, options and the 32-bit prompt hash.
- `Translations` (`scripts/check-translations.ts`): key flattening and the missing-key check.
- `ExtractionLoading` (`web/src/components/extraction-loading.tsx`): the cycling message and the lit progress dots.

Shared support modules model the JavaScript built-ins the code relies on:

- `Wrappers`: `Option`.
- `Text`: `trim`, `split`, `startsWith`, case mapping and string order.
- `Numbers`: `parseFloat`, `parseInt` and `Number` as partial parsers, where `None` is `NaN`.
- `Seqs`: array helpers.
- `Sorting`: the stable `Array.prototype.sort`, as insertion sort proved sorted, permuting and stable.
- `JsObject`: objects and `Map`s with string keys, as ordered entry lists.

JavaScript numbers are idealised as exact `real`s (values) or `int`s (counts, milliseconds). Where the 32-bit behaviour matters (the prompt hash), the wrap-around is written out.

## Model

| member | source | states |
|---|---|---|
| Dates.ParseToISO | web/src/lib/date.ts:6-20 | an ISO date comes back unchanged, an MM/DD/YYYY date is reordered to YYYY-MM-DD, anything else gives null; every result is itself a valid ISO date |
| Dates.ParseToISOIdempotent | web/src/lib/date.ts:10-20 | parsing the output of a successful parse gives the same date again |
| Dates.NormalizeIdempotent | web/src/lib/date.ts:24-25 | the `parseToISO(x) ?? x` form used before comparing is stable under a second application |
| Dates.CompareDateAsc | web/src/lib/date.ts:22-28 | the result is -1, 0 or 1; 0 exactly when both dates normalise to the same string, -1 exactly when the first normalised string sorts lexicographically before the second |
| Dates.CompareNormalized | web/src/lib/date.ts:22-28 | comparing the normalised dates gives the same answer as comparing the originals |
| Dates.CompareDateAntisymmetric | web/src/lib/date.ts:22-28 | swapping the arguments negates the result |
| Dates.CompareDateTransitive | web/src/lib/date.ts:22-28 | a <= b and b <= c in this order give a <= c |
| Dates.DateOrderIsTotalPreorder | web/src/lib/date.ts:22-28 | `compareDateAsc(a, b) <= 0` is a total preorder, so sorting with it is well defined |
| Tracking.GetBPStatus | web/src/lib/tracking.ts:27-58 | low iff systolic < 90 or diastolic < 60; high iff not low and systolic >= 140 or diastolic >= 90; high-normal and normal as the remaining bands; the class names follow the bucket's tone |
| Tracking.LowDominates | web/src/lib/tracking.ts:28-35 | a low value reports low, in critical colour, even when the other value is hypertensive |
| Tracking.CriticalIffExtreme | web/src/lib/tracking.ts:27-58 | the critical colour is used exactly for readings outside systolic 90..140 and diastolic 60..90 |
| Tracking.FormatRelativeDate | web/src/lib/tracking.ts:90-117 | "just now" exactly under one hour; for 1 to 24 hours the label names the whole number of hours elapsed; "yesterday" exactly for 24 to 48 hours; the formatted day after that |
| Metrics.CheckOutOfRange | web/src/lib/metrics.ts:12-25 | true exactly when the value is numeric and strictly below a numeric lower bound or strictly above a numeric upper bound; null and non-numeric values are never out of range |
| Metrics.BoundsInclusive | web/src/lib/metrics.ts:20-23 | a value equal to a bound, or between the bounds, is in range |
| Metrics.NoBoundsNeverOut | web/src/lib/metrics.ts:17-24 | a metric with no usable bound is never flagged |
| Metrics.StringValueAsNumber | web/src/lib/metrics.ts:18-19 | a numeric string is checked exactly like the number it spells |
| Lab.ValuesFor | web/src/components/metric-chart.tsx:108-110 | the values of one metric: exactly the input values with that metric id |
| Chart.ValueLeIsTotalPreorder | web/src/components/metric-chart.tsx:111 | the date comparator used by the chart's sort is a total preorder |
| Chart.SortedValues | web/src/components/metric-chart.tsx:109-111 | the metric's values, a permutation of exactly the values with its id, in ascending date order |
| Chart.ChartData | web/src/components/metric-chart.tsx:108-112 | one point per value of the metric, each the sorted value with its date normalised |
| Chart.ChartDataOnlyMetric | web/src/components/metric-chart.tsx:109-112 | every plotted point comes from a value of this metric |
| Chart.ChartDataComplete | web/src/components/metric-chart.tsx:109-112 | every value of this metric is plotted |
| Chart.ChartDataSorted | web/src/components/metric-chart.tsx:111-112 | the points run in ascending date order, also after normalisation |
| Chart.ChartDataEmptyIff | web/src/components/metric-chart.tsx:114 | the no-data card is shown exactly when no value has the metric's id |
| Chart.MinOf | web/src/components/metric-chart.tsx:144 | `Math.min` of a non-empty list is an element and a lower bound of it |
| Chart.MaxOf | web/src/components/metric-chart.tsx:145 | `Math.max` of a non-empty list is an element and an upper bound of it |
| Chart.YDomainAsWritten | web/src/components/metric-chart.tsx:141-157 | the domain as written: the lower end is never negative, and the upper end covers the data and the upper reference bound |
| Chart.YDomainAsWrittenOrdered | web/src/components/metric-chart.tsx:153-157 | with a non-negative top of range the written domain is ordered |
| Chart.YDomainAsWrittenInverted | web/src/components/metric-chart.tsx:156 | a single value of -5 gives the inverted domain [0, -5] |
| Chart.YDomain | web/src/components/metric-chart.tsx:141-157 | the corrected domain is ordered, covers every value and both reference bounds, and still starts at or above 0 when the range does |
| Chart.YDomainAgreesWhenNonNegative | web/src/components/metric-chart.tsx:156 | the correction changes nothing when the range does not dip below zero |
| Chart.ChartOf | web/src/components/metric-chart.tsx:108-160 | the chart as written: the no-data card exactly when the metric has no values; otherwise the sorted points, with the badge showing the last point and its in-range flag, and the written domain, whose lower end is never negative and whose upper end covers every point |
| Chart.ChartOfCorrected | web/src/components/metric-chart.tsx:140-157 | corrected: the same card, points and badge as the chart as written, with only the y-axis domain replaced by the corrected one |
| Chart.ChartAgreesWhenNonNegative | web/src/components/metric-chart.tsx:156 | when every point and the lower reference bound are non-negative, the corrected chart is the chart as written |
| Chart.ChartDomainCoversPoints | web/src/components/metric-chart.tsx:140-157 | corrected: the corrected chart's axis is ordered and shows every plotted value and both reference lines |
| Chart.BadgeIsLastSorted | web/src/components/metric-chart.tsx:159 | the badge value is that of the last value in date order |
| Chart.BadgeIsLatest | web/src/components/metric-chart.tsx:109-159 | the badge shows a value of the latest date, the last such value in input order, because the sort is stable |
| Dashboard.IsValueInRange | web/src/app/dashboard/page.tsx:68-77 | a missing value is never in range; with no bounds every present value is; a value in range lies between whichever bounds exist, inclusively |
| Dashboard.InRangeIffNotOutOfRange | web/src/app/dashboard/page.tsx:68-77 | for a present value, being in range is exactly not being flagged by the review form's out-of-range check (web/src/lib/metrics.ts) |
| Dashboard.NormalizeTurkish | web/src/app/dashboard/page.tsx:79-89 | the result has the input's length, folds each character independently, and contains none of İ ğ ü ş ı ö ç |
| Dashboard.NormalizeTurkishIdempotent | web/src/app/dashboard/page.tsx:79-89 | normalising twice is normalising once |
| Dashboard.NormalizeTurkishMergesSpellings | web/src/app/dashboard/page.tsx:79-89 | "HEMOGLOBİN" and "hemoglobin", and "Şeker" and "seker", normalise alike |
| Dashboard.NormalizeSame | web/src/app/dashboard/page.tsx:79-89 | names whose characters fold alike normalise to the same string |
| Dashboard.DedupLoop | web/src/app/dashboard/page.tsx:95-105 | the id mapping built by the loop has exactly the ids of the input metrics as keys |
| Dashboard.DedupKeepsFirstOfEachName | web/src/app/dashboard/page.tsx:95-107 | the kept metrics have pairwise distinct normalised names, each is the first input metric of its name, they keep input order, and every input name is represented |
| Dashboard.DedupMapsToCanonical | web/src/app/dashboard/page.tsx:95-105 | every id is mapped to the id of a kept metric, and the last metric carrying an id decides where it is mapped: to the first metric of that metric's name |
| Dashboard.RemapValues | web/src/app/dashboard/page.tsx:108-111 | one value per input value with date and value unchanged; unknown ids are kept, known ids are rewritten unless the target is the empty (falsy) id |
| Dashboard.DeduplicateMetrics | web/src/app/dashboard/page.tsx:91-117 | the first metric of each normalised name in input order, distinct names, every name covered; values keep count, dates and numbers, and unknown metric ids |
| Dashboard.DedupRemapsToCanonical | web/src/app/dashboard/page.tsx:98-111 | each value of a known metric is re-pointed at the id of the first metric sharing the name of the last metric that carries its id |
| Dashboard.DedupValuesPointAtKept | web/src/app/dashboard/page.tsx:107-111 | after de-duplication every value of a known metric points at a displayed metric, or keeps its id when the target id is empty |
| Dashboard.CompareForDisplay | web/src/app/dashboard/page.tsx:497-509 | negative, zero or positive exactly as the first metric's rank (tracking first, then saved-order position, unknown last) is below, equal to or above the second's |
| Dashboard.DisplayLeIsTotalPreorder | web/src/app/dashboard/page.tsx:497-509 | the display comparator is a total preorder |
| Dashboard.DisplayOrder | web/src/app/dashboard/page.tsx:496-512 | without a saved order the metrics are unchanged; with one they are a permutation sorted by rank |
| Dashboard.DisplayOrderGroups | web/src/app/dashboard/page.tsx:498-508 | tracking metrics come first, saved-order metrics follow in saved-order position, metrics absent from the saved order come last |
| Dashboard.DisplayOrderStable | web/src/app/dashboard/page.tsx:497-509 | metrics the comparator ranks equal keep their relative order |
| Dashboard.EntriesOf | web/src/app/dashboard/page.tsx:523-530 | one entry per value of the metric; a metric with a value has a non-empty group |
| Dashboard.EntryLeIsTotalPreorder | web/src/app/dashboard/page.tsx:539 | the entry date comparator is a total preorder |
| Dashboard.LatestEntry | web/src/app/dashboard/page.tsx:538-540 | the popped entry has the latest date, and no later entry in input order has that date (the sort is stable) |
| Dashboard.Summarize | web/src/app/dashboard/page.tsx:535-555 | the card as written shows the latest date; with averaging the mean of all the values and a count one less than their number, without it the latest value and a count of 1 |
| Dashboard.SummarizeCorrected | web/src/app/dashboard/page.tsx:535-555 | corrected: the same date and value, and with averaging the count of all the values averaged |
| Dashboard.SummarizeCorrectedOnlyCount | web/src/app/dashboard/page.tsx:536-545 | the correction changes only the count, and only by one when averaging |
| Dashboard.SummarizeAverageAsWritten | web/src/app/dashboard/page.tsx:536-545 | as written, the count is read after `pop()` and is one less than the number of values |
| Dashboard.AverageCountOffByOne | web/src/app/dashboard/page.tsx:536-545 | two averaged values are counted as 1 by the code as written and as 2 by the corrected summary |
| Dashboard.ValuesByMetric | web/src/app/dashboard/page.tsx:515-559 | one summary per metric id that has a value, each the as-written summary of that metric's entries |
| Dashboard.ToggleMetric | web/src/app/dashboard/page.tsx:577-583 | the id becomes selected exactly when it was not, and every other id keeps its membership |
| Dashboard.RemoveMetric | web/src/app/dashboard/page.tsx:585-587 | every occurrence of the id goes and every other id keeps its membership |
| Dashboard.ToggleTwiceRestoresMembership | web/src/app/dashboard/page.tsx:577-583 | toggling twice restores every id's membership |
| Dashboard.ToggleTwiceRestores | web/src/app/dashboard/page.tsx:577-583 | toggling an unselected id on and off gives back the same list |
| Dashboard.SendToTop | web/src/app/dashboard/page.tsx:706-740 | an absent or already-first id, or a failed save, leaves the order alone; otherwise the id followed by the others in their order, a permutation |
| Dashboard.SendToTopIdempotent | web/src/app/dashboard/page.tsx:706-717 | after a send-to-top the id is first and sending it again changes nothing |
| Dashboard.SendToTopMovesOne | web/src/app/dashboard/page.tsx:706-717 | in an order without repeated ids, a saved send to top gives the id followed by the order with the id removed (the remove action's result), so every other metric keeps its relative place |
| Dashboard.DragHeight | web/src/app/dashboard/page.tsx:612-615 | never below the minimum, never above the content height when that is at least the minimum, and exactly the dragged height when that is within range |
| Dashboard.ArrowDownHeight | web/src/app/dashboard/page.tsx:633-635 | grows by one step when there is room, by at most one step, and never past the content height |
| Dashboard.ArrowUpHeight | web/src/app/dashboard/page.tsx:636-638 | shrinks by one step when there is room, by at most one step, and never below the minimum |
| Dashboard.ResizeKeepsBounds | web/src/app/dashboard/page.tsx:612-638 | from a height within bounds, every drag and arrow key keeps the grid between the minimum and the content height |
| Settings.ActiveTab | web/src/app/settings/page.tsx:60-71 | a parameter naming one of the three tabs selects that tab; a missing or unknown parameter selects the reports tab |
| Settings.ActiveTabOfKey | web/src/app/settings/page.tsx:60-76 | the key that `setActiveTab` writes into the query selects the same tab again |
| Settings.UndatedCompareLast | web/src/app/settings/page.tsx:86-92 | in either direction a file without the column's date sorts after every dated file, and two undated files compare equal |
| Settings.DescendingIsReversed | web/src/app/settings/page.tsx:94-97 | for two dated files the descending comparison is the negated ascending one, i.e. the ascending comparison with the files swapped |
| Settings.FileLeIsTotalPreorder | web/src/app/settings/page.tsx:86-98 | the file comparator is a total preorder for either column and direction |
| Settings.SortedFiles | web/src/app/settings/page.tsx:86-99 | the sorted table is a permutation of the files, ordered by the comparator, with every undated file after every dated one |
| Settings.SortedDescendingReversesDated | web/src/app/settings/page.tsx:94-97 | sorted descending, the dated files run from the newest timestamp to the oldest |
| Settings.HandleSort | web/src/app/settings/page.tsx:101-108 | clicking a header makes its column the sort column; the same column flips the direction, a new column starts descending |
| Settings.HandleSortTwice | web/src/app/settings/page.tsx:101-108 | clicking the active column twice restores the sort state; clicking a new column twice sorts it ascending |
| Settings.RemoveFile | web/src/app/settings/page.tsx:210 | a file stays in the list exactly when it was there and its id differs |
| Settings.RemoveFileHomomorphism | web/src/app/settings/page.tsx:210 | removal distributes over concatenation and drops a single file exactly when its id matches, so it keeps order |
| Settings.RequestDelete | web/src/app/settings/page.tsx:197-200 | ignored while a deletion is in flight; otherwise marks the file as awaiting confirmation, leaving the list alone |
| Settings.ConfirmDelete | web/src/app/settings/page.tsx:202-204 | ignored, sending nothing, while a deletion is in flight; otherwise sends the delete request for that id and marks a deletion in flight |
| Settings.DeleteSettled | web/src/app/settings/page.tsx:205-220 | afterwards no deletion is in flight; success removes the file and clears the pending id, failure leaves the list and the pending id alone |
| Settings.InFlightIgnoresClicks | web/src/app/settings/page.tsx:197-204 | once a confirmation is in flight, further requests and confirmations for any file change nothing and send nothing |
| Settings.DeleteRemovesExactly | web/src/app/settings/page.tsx:202-220 | a confirmed, successful deletion keeps every file with another id, keeps none with that id, and never grows the list |
| TrackingHistory.StartEditing | web/src/components/tracking-history.tsx:70-79 | each present reading appears in the form as its text, each missing one as the empty string; missing notes become empty |
| TrackingHistory.SaveEdit | web/src/components/tracking-history.tsx:86-130 | a weight is rejected exactly when blank, unparsable or outside 1-500 kg; blood pressure outside 50-300/20-200 is rejected; with valid pressures, the pulse message is shown exactly when a typed pulse is unparsable or outside 20-250, and otherwise the request is sent; a sent body carries the parsed readings, all within their ranges, the pulse only when one was typed, and empty notes as null |
| TrackingHistory.ParsedIsNotBlank | web/src/components/tracking-history.tsx:88-106 | text that parses as a number is not blank after trimming, so the blank check never rejects a parsable value |
| TrackingHistory.WeightEditRoundTrip | web/src/components/tracking-history.tsx:70-130 | opening a valid weight reading for editing and saving it unchanged sends back the same weight and notes |
| TrackingHistory.BPEditRoundTrip | web/src/components/tracking-history.tsx:70-130 | opening a valid blood-pressure reading for editing and saving it unchanged sends back the same systolic, diastolic, pulse and notes |
| TrackingHistory.ReplaceMeasurement | web/src/components/tracking-history.tsx:140-142 | the list keeps its length and order; exactly the rows with that id become the server's measurement |
| TrackingHistory.ReplaceIdempotent | web/src/components/tracking-history.tsx:140-142 | applying the same saved measurement twice is applying it once |
| TrackingHistory.DeleteMeasurement | web/src/components/tracking-history.tsx:159 | a row stays exactly when it was there and its id differs, and the list never grows |
| TrackingHistory.DeleteAfterReplace | web/src/components/tracking-history.tsx:140-159 | deleting a row after editing it gives the same list as deleting it unedited |
| TrackingHistory.SaveSettled | web/src/components/tracking-history.tsx:138-148 | a successful save replaces the row and closes the editor; a failed one changes nothing; the delete state is untouched |
| TrackingHistory.DeleteSettled | web/src/components/tracking-history.tsx:154-168 | a successful delete removes the row and closes the confirmation; a failed one changes nothing; the edit state is untouched |
| MeasurementDialogs.WeightPatternIff | web/src/components/add-weight-dialog.tsx:143 | the input filter's pattern holds exactly when the text is digits with at most one `.` or `,` |
| MeasurementDialogs.AcceptWeightInput | web/src/components/add-weight-dialog.tsx:141-146 | a keystroke is accepted exactly when the new text is empty or matches the pattern, otherwise the field keeps its text, so a well-formed field stays well-formed |
| MeasurementDialogs.CommaIsPoint | web/src/components/add-weight-dialog.tsx:51 | a decimal comma reads as the same number as a decimal point |
| MeasurementDialogs.EmptyWeightInvalid | web/src/components/add-weight-dialog.tsx:51-52 | an empty weight field is not a valid input |
| MeasurementDialogs.Recent | web/src/components/add-weight-dialog.tsx:54-56 | the first min(3, n) of the n measurements of the dialog's type, in list order |
| MeasurementDialogs.RecentNewest | web/src/components/add-weight-dialog.tsx:54-56 | a measurement of the dialog's type put in front heads the recent list; one of another type leaves the list unchanged |
| MeasurementDialogs.LastWeight | web/src/components/add-weight-dialog.tsx:57 | the newest recent weight when there is one and it is non-zero (a truthy value), otherwise none |
| MeasurementDialogs.Diff | web/src/components/add-weight-dialog.tsx:58 | a difference exists exactly when the input is valid and there is a last weight |
| MeasurementDialogs.TrendAgreesWithWeights | web/src/components/add-weight-dialog.tsx:155-177 | the badge points up exactly when the new weight exceeds the last one and down exactly when it is below it |
| MeasurementDialogs.ReplaceField | web/src/components/add-weight-dialog.tsx:73 | the replace id is sent exactly when it is a non-empty string, and then unchanged |
| MeasurementDialogs.WeightSave | web/src/components/add-weight-dialog.tsx:60-75 | a request exists exactly when the weight is valid; it carries the parsed positive weight, the trimmed notes or null when blank, the profile and the replace id |
| MeasurementDialogs.LiveStatus | web/src/components/add-blood-pressure-dialog.tsx:58-65 | a status is shown exactly when both readings parse as positive integers, and it is the classification of those readings |
| MeasurementDialogs.BPSave | web/src/components/add-blood-pressure-dialog.tsx:67-82 | a request exists exactly when both readings are valid; it carries the parsed positive readings, the parsed pulse when one was typed and null when not, the profile and the replace id |
| MeasurementDialogs.BadgeMatchesRequest | web/src/components/add-blood-pressure-dialog.tsx:65-82 | the live badge classifies exactly the readings that the save request sends |
| MeasurementDialogs.ClearedBPInvalid | web/src/components/add-blood-pressure-dialog.tsx:58-103 | the cleared form cannot be saved again until new readings are typed |
| MeasurementDialogs.Settle | web/src/components/add-weight-dialog.tsx:77-103 | a 409 keeps the form open and records the existing entry; a failure changes nothing; a success clears the form and the entry and closes the dialog |
| MeasurementDialogs.OpenChange | web/src/components/add-weight-dialog.tsx:106-112 | the dialog takes the new open state and keeps the form; closing forgets the conflicting entry, opening keeps it |
| MeasurementDialogs.ConflictThenReplace | web/src/components/add-weight-dialog.tsx:77-81 | after a conflict, pressing save again sends the same request with the existing entry's id as the replace id; the save button at lines 209-212 passes the existing entry's id |
| MeasurementDialogs.SavedWeightFormInvalid | web/src/components/add-weight-dialog.tsx:88-92 | after a successful save the cleared form is invalid and no conflicting entry remains |
| UploadPage.FirstAlias | web/src/app/upload/page.tsx:205-206 | the first alias whose key equals the metric name case-insensitively, or past the end when none does |
| UploadPage.Aliased | web/src/app/upload/page.tsx:204-216 | only the name changes: to the first matching alias's canonical name, or not at all without a match |
| UploadPage.RenameEntries | web/src/app/upload/page.tsx:203-213 | one applied record per renamed metric, keyed by its lower-cased original name, and no record for any other metric |
| UploadPage.ApplyAliases | web/src/app/upload/page.tsx:194-222 | without an alias table the metrics come back unchanged with no records; with one every metric is renamed by its first matching alias, in place |
| UploadPage.RenamesRecordRenamedMetrics | web/src/app/upload/page.tsx:203-213 | a rename record exists under a key exactly when some metric with that lower-cased name was renamed |
| UploadPage.AliasToggle | web/src/app/upload/page.tsx:442-457 | only the toggled card changes, to the canonical name when checked and the original when not; the records keep their keys, the toggled record's `applied` follows the switch and every other record keeps its value |
| UploadPage.AliasToggleRoundTrip | web/src/app/upload/page.tsx:442-457 | switching an applied rename off and on again restores the cards and the records exactly |
| UploadPage.AliasToggleRenamesBack | web/src/app/upload/page.tsx:450-455 | switching a rename off and on restores the rename records |
| UploadPage.AliasToggleMetricsBack | web/src/app/upload/page.tsx:444-448 | switching a rename off and on restores the cards |
| UploadPage.RenameInfoMapLookup | web/src/app/upload/page.tsx:459-466 | a card name has rename info exactly when some record shows that name, and the info is that of the last such record |
| UploadPage.ApplyEdit | web/src/app/upload/page.tsx:397-404 | an edit changes exactly the one field it names |
| UploadPage.HandleMetricChange | web/src/app/upload/page.tsx:397-404 | the list keeps its length; only the card at the index is edited |
| UploadPage.HandleRemoveMetric | web/src/app/upload/page.tsx:406-408 | the card at the index is removed and the others keep their order; an index outside the list changes nothing |
| UploadPage.EditThenRemove | web/src/app/upload/page.tsx:397-408 | editing a card and then removing it leaves the same list as removing it unedited |
| UploadPage.DropzoneEnabledIff | web/src/app/upload/page.tsx:387-395 | a file can be dropped exactly when the page is idle or showing an error and the selected profile is not at the free report cap |
| UploadPage.OnDrop | web/src/app/upload/page.tsx:307-325 | no file does nothing; an upload starts exactly when a profile is selected and the file is a PDF, keeping its name; without a profile the user is asked to select one |
| UploadPage.UploadErrorMessage | web/src/app/upload/page.tsx:338-350 | a 409 names the earlier report's date, or "?" when unknown; a 403 with a cap names the cap; otherwise the server's message, or a generic one when it has none |
| UploadPage.FindRow | web/src/app/upload/page.tsx:166 | the first listed upload with that id, none exactly when no upload has it |
| UploadPage.PollTick | web/src/app/upload/page.tsx:149-191 | past five minutes polling stops with a timeout; a failed request waits; a vanished upload goes idle; review loads the data exactly when the upload reached review, and an error stops exactly when the upload failed |
| UploadPage.PollKeepsExtracting | web/src/app/upload/page.tsx:155-187 | an upload still extracting keeps polling until the timeout and is stopped with an error after it |
| UploadPage.CheckPending | web/src/app/upload/page.tsx:108-141 | the upload named in the URL, else the first listed one, is resumed: extracting polls, review loads, pending starts extraction; nothing is resumed exactly when there is no such upload |
| UploadPage.ReviewSampleDate | web/src/app/upload/page.tsx:236 | the extracted sample date when present, else the upload's, empty only when neither has one |
| UploadPage.ConfirmStart | web/src/app/upload/page.tsx:410-424 | a confirm request is sent exactly when there is an upload, a sample date and at least one metric, carrying them; otherwise nothing changes |
| UploadPage.ConfirmSettled | web/src/app/upload/page.tsx:426-440 | success ends in the success state; failure returns to review with the edits and date kept and an error shown |
| UploadPage.Cancel | web/src/app/upload/page.tsx:468-488 | the page returns to its initial state; the upload is deleted exactly when there was one |
| UploadPage.CancelResets | web/src/app/upload/page.tsx:468-488 | after cancelling, nothing can be confirmed, the drop zone accepts files again, and cancelling again does nothing more |
| UploadApi.ReportCount | web/src/app/api/upload/route.ts:87-90 | the number of processed reports of the profile: never more than the rows, zero exactly when none belongs to it |
| UploadApi.FindDuplicate | web/src/app/api/upload/route.ts:117-125 | a processed report of the same profile with the same content hash, found exactly when one exists |
| UploadApi.WithoutSameFile | web/src/app/api/upload/route.ts:139-144 | an unfinished upload survives exactly when it is not the same file for the same profile |
| UploadApi.StoredName | web/src/app/api/upload/route.ts:146 | the file's own name when it has one, otherwise an `upload-….pdf` name |
| UploadApi.Post | web/src/app/api/upload/route.ts:22-199 | only the listed status codes occur; every rejection leaves the tables alone; the checks run in order: no e-mail, then no user id, gives 401; then a missing file, a missing profile id or a non-PDF type gives 400; once these pass the answer is the one of the remaining checks |
| UploadApi.Admit | web/src/app/api/upload/route.ts:75-199 | no access gives 403 Forbidden; then at the cap the 403 cap body; then a bad PDF signature 400; then a confirmed duplicate 409 with its name and date; otherwise the same file's pending rows are removed and, with an id, one new pending row is added and 201 returned, without an id 500 |
| UploadApi.PostChecksInOrder | web/src/app/api/upload/route.ts:75-199 | each later rejection of `POST` happens exactly when all earlier checks passed and its own failed: 403 for access, the 403 cap body, 400 for the signature, 409 with the duplicate's name and date, 500 without an id (with the pending rows already cleaned); 201 exactly when every check passes and the insert returns an id, with exactly one new pending row |
| UploadApi.UserOf | web/src/app/api/upload/route.ts:33-39 | the session's user id when present, otherwise the one found by e-mail; never empty |
| UploadApi.CapIgnoresFile | web/src/app/api/upload/route.ts:84-101 | at the cap the answer is the same 403 naming the count and the cap, whatever file is sent |
| UploadApi.CapMessageNamesLimit | web/src/app/api/upload/route.ts:91-99 | the page turns the cap answer into the message naming the limit of 5 reports (with web/src/app/upload/page.tsx:345-346) |
| UploadApi.ReuploadKeepsOnePending | web/src/app/api/upload/route.ts:139-175 | uploading the same file again before confirming succeeds and leaves only the newest unfinished upload of it |
| UploadApi.ResetStuck | web/src/app/api/upload/route.ts:215-225 | the list keeps its length; exactly the user's uploads extracting for more than five minutes go back to pending with a timeout message |
| UploadApi.ResetStuckIdempotent | web/src/app/api/upload/route.ts:215-225 | after the reset no upload is stuck, so resetting again changes nothing |
| UploadApi.NewestFirstIsTotalPreorder | web/src/app/api/upload/route.ts:246-256 | ordering by creation time, newest first, is a total preorder |
| UploadApi.ListedRows | web/src/app/api/upload/route.ts:227-258 | the user's unfinished uploads (for the profile when one is given), each once, newest first |
| UploadApi.ListingOf | web/src/app/api/upload/route.ts:241-256 | one listed upload per row, in order |
| UploadApi.Get | web/src/app/api/upload/route.ts:203-261 | no session means 401 with nothing changed; otherwise stuck uploads are reset first; a profile the user cannot access means 403; a 200 lists only rows of the updated table |
| UploadApi.GetListsExactly | web/src/app/api/upload/route.ts:203-261 | with access, the answer is 200 and lists an upload exactly when it belongs to the user (and profile), is neither confirmed nor rejected, and none listed is stuck |
| UploadApi.ListedRowsHas | web/src/app/api/upload/route.ts:241-258 | an upload is listed exactly when it is in the table and passes the listing filter |
| UploadApi.FirstListedIsNewest | web/src/app/api/upload/route.ts:246-256 | the first upload listed is the most recently created |
| ActiveProfile.FindCookie | web/src/hooks/use-active-profile.ts:91-94 | the first cookie entry that starts with the prefix after trimming, or past the end when none does |
| ActiveProfile.CookieValue | web/src/hooks/use-active-profile.ts:91-95 | absent exactly when no entry names the cookie; a value found is trimmed and holds neither `=` nor `;` |
| ActiveProfile.CookieRoundTrip | web/src/hooks/use-active-profile.ts:91-95 | a cookie written as `name=value` among other entries is read back as that value when no earlier entry has the name |
| ActiveProfile.FindCookieFirst | web/src/hooks/use-active-profile.ts:92-94 | the lookup stops at the first entry with the prefix |
| ActiveProfile.Resolve | web/src/hooks/use-active-profile.ts:82-110 | with no profiles there is no active profile and the onboarding cookie is set; otherwise the cookie's profile when it is accessible, else the first, which the server is asked to select exactly when the cookie did not already name it |
| ActiveProfile.ResolveStable | web/src/hooks/use-active-profile.ts:90-109 | resolving again from the chosen id picks the same profile and selects nothing |
| ActiveProfile.UploadSelection | web/src/app/upload/page.tsx:284-297 | without profiles the upload page keeps its current selection |
| ActiveProfile.UploadSelectionAgrees | web/src/app/upload/page.tsx:284-297 | with profiles present the upload page selects the same profile as the hook (web/src/hooks/use-active-profile.ts:90-104) |
| ActiveProfile.SwitchProfile | web/src/hooks/use-active-profile.ts:132-161 | switching to the active profile sends nothing and succeeds; otherwise the selection is requested, and the active profile changes exactly when the request succeeds, which is also the result |
| ActiveProfile.SwitchTwice | web/src/hooks/use-active-profile.ts:150-161 | a successful switch followed by the same switch sends one request |
| ActiveProfile.ActiveProfileOf | web/src/hooks/use-active-profile.ts:164 | a profile with the active id from the list, none exactly when no profile has that id |
| ActiveProfile.ResolvedProfileExists | web/src/hooks/use-active-profile.ts:98-164 | with profiles present the resolved id always names a profile of the list |
| ActiveProfile.LoadProfiles | web/src/hooks/use-active-profile.ts:43-118 | only a successful fetch stores the profiles, resolves the active one and sets or clears the onboarding cookie; signed out, a 401 or a failure leave no profiles and no active id and do not touch the cookie, and only a failure records an error |
| ActiveProfile.OnboardingAgrees | web/src/hooks/use-active-profile.ts:78-167 | after a successful fetch the onboarding flag and the onboarding cookie agree |
| ActiveProfile.OnboardingWithoutCookie | web/src/hooks/use-active-profile.ts:47-118 | signed out, after a 401 or after a failure the flag asks for onboarding although no onboarding cookie was written |
| Initials.FirstChars | web/src/components/header.tsx:41-44 | one character per word when no word is empty, that word's first; never longer than the word list |
| Initials.NameInitials | web/src/components/header.tsx:41-46 | at most two characters, all upper case |
| Initials.HeaderInitials | web/src/components/header.tsx:39-47 | "?" without a name; otherwise the name's initials, at most two |
| Initials.InitialsOfWords | web/src/components/header.tsx:39-47 | for single-space-separated words, the upper-cased first letters of the first two words (one for a one-word name) |
| Initials.AccessInitials | web/src/app/settings/access/page.tsx:70-80 | without a name, the upper-cased first character of the e-mail; an empty address with no name has no initials, where the source throws |
| Initials.AccessAgreesWithHeader | web/src/app/settings/access/page.tsx:70-78 | with a name, the access page shows the same initials as the header (web/src/components/header.tsx:39-47) |
| Access.CardOf | web/src/app/settings/access/page.tsx:114-122 | a card keeps the profile's id and name, takes the server's access level unless it is empty (then the profile's own), and no members when none came back |
| Access.Cards | web/src/app/settings/access/page.tsx:110-126 | one card per profile whose request succeeded, and nothing else; a failed request drops its profile |
| Access.CardsAppend | web/src/app/settings/access/page.tsx:110-126 | the cards follow profile order: those of two lists of profiles in a row are the first list's cards followed by the second's |
| Access.CardsOne | web/src/app/settings/access/page.tsx:112-124 | a single profile gives its card when its request succeeded and nothing otherwise |
| Access.FetchAccessData | web/src/app/settings/access/page.tsx:103-132 | nothing is loaded when there are no profiles or a request throws; otherwise the cards of the successful requests |
| Access.Owned | web/src/app/settings/access/page.tsx:292 | a card is listed as owned exactly when its access level is "owner" |
| Access.Shared | web/src/app/settings/access/page.tsx:293 | a card is listed as shared exactly when its access level is not "owner" |
| Access.OwnedSharedPartition | web/src/app/settings/access/page.tsx:292-293 | the owned and shared lists together hold every card exactly once |
| Access.Known | web/src/app/settings/access/page.tsx:499-512 | the people offered have pairwise distinct e-mails, none of them already a member of the target profile |
| Access.KnownNames | web/src/app/settings/access/page.tsx:499-512 | each person offered carries the name from the first membership with that e-mail |
| Access.KnownComplete | web/src/app/settings/access/page.tsx:499-512 | every member whose e-mail is not on the target profile is offered |
| Access.AddMember | web/src/app/settings/access/page.tsx:503-509 | one member step keeps the loop's list and its seen-set in step with the offered people of the members so far |
| Access.AddMembers | web/src/app/settings/access/page.tsx:502-510 | the inner loop over one card's members extends the offered list as if its members were appended |
| Access.KnownUsers | web/src/app/settings/access/page.tsx:493-513 | the loop offers exactly the people of all cards, in card order, minus the target profile's members, each e-mail once |
| Access.KnownUsersOffersOthers | web/src/app/settings/access/page.tsx:493-513 | a member of any card is offered exactly when they are not already a member of the target profile |
| Middleware.FirstSegment | web/src/middleware.ts:19 | the path's first segment, which never contains a slash |
| Middleware.UrlNormalize | web/src/middleware.ts:94 | the redirect target as the URL parser reads it: tabs and newlines dropped, no backslash left, never longer |
| Middleware.LoginDestinationAsWritten | web/src/middleware.ts:89-93 | as written, any non-empty target that starts with one slash but not two is honoured |
| Middleware.AsWrittenGuardLeaks | web/src/middleware.ts:89-94 | the written check honours every target that starts with `/\`, such as `/\evil.example`, and the URL parser resolves each of them to another host |
| Middleware.LoginDestination | web/src/middleware.ts:86-95 | corrected: the post-login destination always stays on this site; an on-site target is honoured, anything else gives the dashboard |
| Middleware.CorrectedGuardStricter | web/src/middleware.ts:89-93 | whatever the corrected check honours, the written check honours too |
| Middleware.DoubleSlashLeaves | web/src/middleware.ts:91 | what the written check rejects for its double slash does leave the site |
| Middleware.Decide | web/src/middleware.ts:15-117 | the middleware as written: a locale cookie is only ever set to a supported locale; every redirect starts with one slash and not two; a signed-in visit to a login page redirects to the written guard's destination and every other redirect goes to onboarding; the login wall is raised only for a signed-out user and remembers the requested path |
| Middleware.DecideCorrected | web/src/middleware.ts:86-95 | corrected: the middleware with the corrected guard; every redirect stays on this site, and it differs from the written one only on the login-page redirect |
| Middleware.DecideAsWrittenLeaks | web/src/middleware.ts:89-94 | the written middleware sends a signed-in user who opens `/login?redirect=/\evil.example` to another host |
| Middleware.LocalePagesArePublic | web/src/middleware.ts:19-70 | no app page, login page or protected API route is also a localized public page |
| Middleware.RouteKindsDisjoint | web/src/middleware.ts:44-70 | app pages, the login page and protected API routes are three disjoint sets of paths |
| Middleware.LocaleSync | web/src/middleware.ts:18-33 | the locale cookie is set exactly on a localized page whose locale differs from the cookie, and to that page's locale |
| Middleware.LoginRoundTrip | web/src/middleware.ts:78-95 | a signed-out visit to an app page goes to login remembering the path, and signing in there returns to that path |
| Middleware.LoginPageHonours | web/src/middleware.ts:87-94 | as written, a signed-in visit to the login page with a target that starts with one slash and not two goes to that target |
| Middleware.ApiUnauthorizedIff | web/src/middleware.ts:65-104 | the answer is 401 exactly for a signed-out call to a protected API route other than the extraction worker |
| Middleware.OnboardingRedirect | web/src/middleware.ts:72-114 | a signed-in user with the onboarding cookie is sent to onboarding from every app page outside onboarding; a signed-out user, or a request on an onboarding path, never is |
| Middleware.SegmentBoundary | web/src/middleware.ts:44-47 | routes match whole path segments: `/dashboard` and `/dashboard/x` are protected, `/dashboardx` is not |
| Blog.WordCount | web/src/lib/blog.ts:25 | at least one word, even for an empty text |
| Blog.EstimateReadingTime | web/src/lib/blog.ts:24-27 | at least one minute, and the fewest whole minutes at 200 words a minute that cover the words |
| Blog.WordCountOfSentence | web/src/lib/blog.ts:25 | words separated by single spaces are counted one each |
| Blog.SafeLocaleDir | web/src/lib/blog.ts:30-39 | a directory is returned exactly when the joined path is the content directory or inside it, and it is that joined path |
| Blog.PlainLocaleAccepted | web/src/lib/blog.ts:30-39 | a plain locale name is accepted as the directory directly below the content directory |
| Blog.ParentRejected | web/src/lib/blog.ts:30-39 | a locale that climbs out with `../` is rejected |
| Blog.ClimbNeverDescends | web/src/lib/blog.ts:31 | a path of only `.`, `..` and empty segments never leads deeper than where it starts |
| Blog.MdxFiles | web/src/lib/blog.ts:42-45 | only `.mdx` files, and none when the locale directory is rejected |
| Blog.GetBlogPost | web/src/lib/blog.ts:41-62 | a post is found exactly when some `.mdx` file of the locale has the slug; it is one of those files, with a reading time of at least one minute |
| Blog.GetBlogPostFirst | web/src/lib/blog.ts:47-58 | the post returned is the first file in directory order with the slug |
| Blog.GetAllBlogPosts | web/src/lib/blog.ts:64-90 | every `.mdx` post of the locale exactly once, newest first |
| Blog.NewestFirstIsPreorder | web/src/lib/blog.ts:83-87 | ordering by publication time, newest first, is a total preorder |
| Blog.SortedNewestFirst | web/src/lib/blog.ts:83-87 | a list sorted by that order has non-increasing publication times |
| Blog.AlternateIn | web/src/lib/blog.ts:103-124 | a locale contributes an alternate exactly when it is not the post's own and one of its files matches; the alternate is that locale with a matching file's slug |
| Blog.AlternatesBy | web/src/lib/blog.ts:97-128 | every alternate is its locale's own contribution, and every contributing locale's alternate is listed |
| Blog.AlternatesLocales | web/src/lib/blog.ts:103-125 | the alternates' locales are exactly the contributing locales, in the order given |
| Blog.AlternatesOnePerLocale | web/src/lib/blog.ts:103-125 | with distinct locales given, no locale is listed twice |
| Blog.GetAlternateLocalesAsWritten | web/src/lib/blog.ts:97-128 | as written: every alternate is in another listed locale and names a file there whose canonical locale matches, and every other locale with such a file gets an alternate |
| Blog.GetAlternateLocales | web/src/lib/blog.ts:97-128 | corrected: every alternate is the same article, by slug, in a locale other than the post's |
| Blog.AsWrittenLinksWrongArticle | web/src/lib/blog.ts:116-123 | as written, the English page of article b lists the Turkish version of article a, where the corrected lookup lists Turkish b |
| I18n.Bcp47 | web/src/i18n/config.ts:13-19 | a tag other than "undefined" exactly for the five supported locales |
| I18n.Bcp47Injective | web/src/i18n/config.ts:1-19 | distinct locales have distinct tags, and no tag collides with "x-default" |
| Sitemap.Tagged | web/src/app/sitemap.ts:13-14 | one (tag, url) pair per locale, in locale order |
| Sitemap.LanguagesOfTable | web/src/app/sitemap.ts:12-66 | filling the hreflang object locale by locale gives exactly the table of tags and urls, each key new |
| Sitemap.TaggedGet | web/src/app/sitemap.ts:12-66 | the table has distinct keys; a locale's tag maps to its url exactly when the locale is listed; there is no "x-default" key yet |
| Sitemap.LocaleAlternatesGet | web/src/app/sitemap.ts:9-18 | every locale's tag maps to the site url of that locale's path, and "x-default" to the English one |
| Sitemap.LocaleAlternatesKeys | web/src/app/sitemap.ts:9-18 | the keys are the five tags in locale order followed by "x-default" |
| Sitemap.GroupAt | web/src/app/sitemap.ts:50-60 | a slug is grouped exactly when some post has it; its locale map holds a locale exactly when that locale has a post with the slug, with the last such post's date |
| Sitemap.PostLanguagesGet | web/src/app/sitemap.ts:62-69 | a post's alternates link each locale that has the slug to that locale's post page, and "x-default" to the English page exactly when English has it |
| Sitemap.SlugEntries | web/src/app/sitemap.ts:71-79 | one entry per locale that has the slug |
| Sitemap.PostEntriesFollowKeys | web/src/app/sitemap.ts:62-80 | post entry k belongs to the slug of the k-th (slug, locale) pair and carries that slug's hreflang alternates |
| Sitemap.PostEntriesUrls | web/src/app/sitemap.ts:71-79 | post entry k's url is the page of the k-th (slug, locale) pair |
| Sitemap.PostKeysExact | web/src/app/sitemap.ts:62-80 | a (slug, locale) pair gets an entry exactly when the slug is grouped and its map has the locale |
| Sitemap.PostKeysDistinct | web/src/app/sitemap.ts:62-80 | no (slug, locale) pair gets two entries |
| Sitemap.RowsHas | web/src/app/sitemap.ts:51-54 | the grouping loop sees a (slug, locale) row exactly when that locale's posts include the slug |
| Sitemap.SitemapLayout | web/src/app/sitemap.ts:20-91 | the five home pages come first with priority 1, then the five blog listings, then one entry per post page, and the privacy page last |
| Sitemap.SitemapPostUrls | web/src/app/sitemap.ts:62-80 | between the listings and the privacy page, entry k is the page of the k-th (slug, locale) pair |
| Sitemap.SitemapPostsExact | web/src/app/sitemap.ts:49-80 | the post pages are exactly the (slug, locale) pairs for which that locale has a post with that slug, each listed once |
| Migration.EnvLineAsWritten | web/scripts/run-migration.js:24-29 | as written, a line without '=' and a line ending in '\r' give no entry |
| Migration.EnvLine | web/scripts/run-migration.js:22-29 | corrected: a line ending in '\r' is read like the line without it, any other line exactly as written |
| Migration.EnvLineMatches | web/scripts/run-migration.js:24-29 | a line made of a non-empty key without '#' or '=', then '=', then a single-line value yields the trimmed key and value |
| Migration.EnvLineMatchShape | web/scripts/run-migration.js:24-29 | conversely every matching line splits as key '=' value with those constraints, and yields exactly their trimmed forms |
| Migration.CrlfLineIgnoredAsWritten | web/scripts/run-migration.js:22-29 | the expression as written rejects the line "K=v\r" of a file with CRLF line endings, while the corrected reader yields ("K", "v") |
| Migration.CrlfSameAsLf | web/scripts/run-migration.js:22-29 | with the correction a line ending in '\r' is read exactly like the same line without it, and like the expression on an LF line |
| Migration.LoadEnvFile | web/scripts/run-migration.js:20-31 | as written: a missing file gives the empty object, and the object is well formed |
| Migration.LoadEnvFileCorrected | web/scripts/run-migration.js:20-31 | corrected: the same reading with CRLF lines accepted; a missing file gives the empty object |
| Migration.EnvEntriesLast | web/scripts/run-migration.js:22-29 | for any line reader, the last entry for a key among the matched lines is the value of the last line defining it |
| Migration.LoadEnvFileGet | web/scripts/run-migration.js:20-31 | reading a key from the object as written, and from the corrected one, gives the value on the last line that its reader accepts for the key, nothing when none does |
| Migration.SelectDatabase | web/scripts/run-migration.js:36-67 | `--prod` anywhere selects production; otherwise a first argument starting with "postgres" is a custom url whose file is the second argument when present; the runner stops exactly when neither holds and `.env.test` has no usable url |
| Migration.CrlfTestFileExits | web/scripts/run-migration.js:52-64 | as written, a `.env.test` holding only `NEON_DATABASE_URL=postgres://db` with a CRLF ending stops the runner for want of a test database, while the corrected reader finds the url |
| Migration.CrlfLineNotLoaded | web/scripts/run-migration.js:20-31 | as written, a file made of one CRLF-terminated line yields nothing for any key |
| Migration.CrlfLineLoadedCorrected | web/scripts/run-migration.js:20-31 | the corrected reader loads the key and value of a file made of one CRLF-terminated line |
| Migration.UrlTestRedundant | web/scripts/run-migration.js:43 | the "not an option" test adds nothing to the "starts with postgres" test |
| Migration.LatestSql | web/scripts/run-migration.js:69-77 | none exactly when no file ends in ".sql"; otherwise a listed ".sql" file that no other ".sql" file follows in sorted order |
| Migration.MigrationFile | web/scripts/run-migration.js:43-77 | a custom run's non-empty file argument wins, every other run takes the latest ".sql" file |
| Migration.ChunkStartBounds | web/scripts/run-migration.js:85-120 | a chunk begins at 0 or just after a splitting ';' and holds no splitting ';' before the position |
| Migration.AnySqlLineIff | web/scripts/run-migration.js:107-110 | `some` over the lines holds exactly when one line is neither blank nor a `--` comment |
| Migration.CommentOnlyIffNoSql | web/scripts/run-migration.js:107-151 | the execution loop's comment-only test is exactly the negation of the splitter's SQL test |
| Migration.CloseChunk | web/scripts/run-migration.js:103-133 | closing a chunk records its trimmed text and span exactly when it holds SQL, keeping earlier records |
| Migration.Advance | web/scripts/run-migration.js:92-119 | one loop turn keeps the quote flag, open chunk and recorded spans equal to their definitions over the text read so far |
| Migration.SplitStatements | web/scripts/run-migration.js:85-133 | the statements are the trimmed texts of exactly the spans of the chunks holding SQL, in input order |
| Migration.Finish | web/scripts/run-migration.js:121-133 | the non-blank remainder becomes the last statement when it holds SQL, completing the spans |
| Migration.SpansBeforeAreChunks | web/scripts/run-migration.js:103-116 | every span recorded inside the loop is a chunk ending at a splitting ';' that passes the test |
| Migration.SpansBeforeOrdered | web/scripts/run-migration.js:103-116 | recorded spans come in input order and do not overlap |
| Migration.SpansBeforeComplete | web/scripts/run-migration.js:103-116 | every chunk closed by a splitting ';' that passes the test is recorded |
| Migration.SpansAreChunks | web/scripts/run-migration.js:85-133 | the spans are exactly the chunks whose trimmed text holds SQL, in input order: each span is such a chunk and each such chunk is a span |
| Migration.StatementsDoNotSplit | web/scripts/run-migration.js:96-116 | inside a statement no ';' outside `$$` quotes occurs except as its last character |
| Migration.ChunkHasNoInnerSplit | web/scripts/run-migration.js:96-116 | inside any chunk only the last character can be a splitting ';' |
| Migration.RunMigration | web/scripts/run-migration.js:137-192 | the run completes exactly when no statement is sent and rejected with an error other than "already exists" or "duplicate key"; then executed plus skipped is every statement; otherwise it stops at the first such statement with the database's message |
| Migration.RunWith | web/scripts/run-migration.js:137-187 | the same loop for any skip test: completion iff no fatal statement, counts add up, abort at the first fatal one |
| Migration.AllExecuted | web/scripts/run-migration.js:152-170 | when every statement is sent and succeeds, all of them count as executed |
| Migration.SplitOutputNeverSkipped | web/scripts/run-migration.js:107-151 | no statement the splitter produces is skipped as comment-only |
| Migration.SplitOutputFatal | web/scripts/run-migration.js:137-187 | on the splitter's output a statement aborts the run exactly when the database rejects it with an untolerated error |
| Evals.OrNull | evals/run-eval.mjs:162-163 | `?? null` turns exactly null and undefined into null and keeps every other value |
| Evals.LastNamed | evals/score-run.mjs:20-24 | the metric found is one of the list with that name; none exactly when no metric has the name |
| Evals.ByNameGet | evals/score-run.mjs:20-24 | filling the map metric by metric leaves each name holding its last metric, so later duplicates override earlier ones |
| Evals.NamesExact | evals/score-run.mjs:26-27 | the name set has no repeats and holds exactly the names occurring in the list |
| Evals.Tally | evals/score-run.mjs:33-48 | correct and wrong add up to the matched names and there is one error per wrong value |
| Evals.TallyErrors | evals/score-run.mjs:37-48 | each recorded error names a matched name, carries its expected and extracted values, and those differ under `===` |
| Evals.TallyComplete | evals/score-run.mjs:37-48 | every matched name whose values differ has an error recorded |
| Evals.ScoreCase | evals/score-run.mjs:17-68 | no score exactly without an expected file; otherwise the date matches under `===`, correct plus wrong is the matched count, errors number the wrong values, and accuracy is "N/A" exactly when nothing matched and else lies in 0..100 |
| Evals.Accuracy | evals/score-run.mjs:64 | "N/A" exactly when nothing matched; otherwise a percentage in 0..100 that is 100 exactly when every matched value is correct |
| Evals.ScorePartition | evals/score-run.mjs:29-30 | each expected name is matched exactly when also extracted and missed exactly when not, and the two lists together are as long as the expected names |
| Evals.ScoreHallucinated | evals/score-run.mjs:29-31 | hallucinated names are those extracted but not expected; matched and hallucinated are disjoint and together are the extracted names |
| Evals.ScoreValues | evals/score-run.mjs:37-48 | a value error names a matched metric whose last expected and last extracted values differ, with those values |
| Evals.ScoreErrorsComplete | evals/score-run.mjs:37-48 | conversely every matched metric whose last values differ has its error in the score |
| Evals.TotalsBalance | evals/score-run.mjs:81-121 | over the run, matched plus missed is the expected total and correct plus wrong is the matched total |
| Evals.TotalsSkipUnscored | evals/score-run.mjs:85-89 | a case without `expected.json` leaves the totals unchanged |
| Evals.ErrorText | evals/run-eval.mjs:141-144 | a failed reply's error carries its message when non-empty and "Unknown" otherwise |
| Evals.FirstError | evals/run-eval.mjs:141-144 | there is an error exactly when some reply failed |
| Evals.FirstDate | evals/run-eval.mjs:152-154 | the date found is always truthy |
| Evals.GetAssign | evals/run-eval.mjs:151 | after `Object.assign` a key holds the source's last value for it, or its old value when the source lacks it |
| Evals.MergeFromSpec | evals/run-eval.mjs:112-155 | merging fails exactly when some reply failed, with the first failure's message; otherwise each test comes from the last page reporting it and the date is the first truthy page date |
| Evals.Flatten | evals/run-eval.mjs:158-164 | one metric per test, in the object's order, with the test's name and value |
| Evals.FlattenFields | evals/run-eval.mjs:161-163 | the unit is kept exactly when truthy; a bound becomes null exactly when it is null or missing, so a bound of 0 survives |
| Evals.ExtractFromPages | evals/run-eval.mjs:112-167 | the extraction fails exactly when some page's reply failed |
| Evals.ExtractFromPagesDate | evals/run-eval.mjs:113-166 | the extracted date is the first truthy page date, null when there is none |
| Evals.ExtractFromPagesTests | evals/run-eval.mjs:151-166 | a name yields a metric exactly when some page reported it, with the value from the last such page |
| Evals.MergedWellFormed | evals/run-eval.mjs:151 | merging keeps test names unique |
| Evals.FlagValue | evals/run-eval.mjs:228 | null without the flag, the word after its first occurrence, undefined when it is the last word |
| Evals.ModelName | evals/run-eval.mjs:229 | "gpt-4o" without `--model`, the word after it otherwise |
| Evals.SelectCasesExact | evals/run-eval.mjs:228-244 | the selection is no longer than the cases, and a case is kept exactly when it contains the `--case` word (every case when there is none) |
| Evals.Wrap32 | evals/run-eval.mjs:327 | or-ing with 0 yields an int32 congruent to its input modulo 2^32 |
| Evals.Wrap32Congruent | evals/run-eval.mjs:327 | inputs congruent modulo 2^32 wrap to the same int32 |
| Evals.CodeUnits | evals/run-eval.mjs:326-327 | every UTF-16 code unit lies below 0x10000 and there are at least as many as characters |
| Evals.HashStepIsTimes31 | evals/run-eval.mjs:327 | one loop step `(hash << 5) - hash + code` is `hash * 31 + code` wrapped to int32 |
| Evals.HashIsPolynomial | evals/run-eval.mjs:324-330 | the wrapping loop equals the base-31 polynomial of the code units reduced to int32 |
| Evals.SimpleHash | evals/run-eval.mjs:324-330 | the hash text is non-empty and starts with '-' exactly when the int32 hash is negative |
| Evals.SimpleHashEmpty | evals/run-eval.mjs:324-330 | the empty string hashes to "0" |
| Evals.NatToStringValue | evals/run-eval.mjs:329 | reading the base-16 (or base-10) digits back gives the number written |
| Translations.JoinKey | scripts/check-translations.ts:10 | an empty prefix leaves the key alone; otherwise the result is the prefix, a dot, then the key |
| Translations.GetKeysAreLeafPaths | scripts/check-translations.ts:8-15 | `getKeys` lists exactly the leaves, in entry order, each as its path of keys joined with dots; objects contribute no key of their own |
| Translations.DottedPrepend | scripts/check-translations.ts:10-12 | paths below a key are written after the key is joined to the prefix |
| Translations.TopLevelLeaf | scripts/check-translations.ts:10-13 | a top-level leaf's key is its own name, without a dot |
| Translations.EmptyObjectNoKeys | scripts/check-translations.ts:11-12 | an empty nested object contributes no key |
| Translations.GetKeysUnderPrefix | scripts/check-translations.ts:10-12 | below a non-empty prefix every key starts with the prefix and a dot |
| Translations.LocaleOf | scripts/check-translations.ts:19 | removing the first ".json" shortens the name by five or leaves it unchanged |
| Translations.LocaleFiles | scripts/check-translations.ts:17-23 | every locale entry comes from a file ending in ".json", named after it and holding that file's key set |
| Translations.FindSource | scripts/check-translations.ts:25 | the position found is the first locale called "tr", or past the end when none is |
| Translations.Others | scripts/check-translations.ts:28 | the translations are exactly the listed locales other than "tr" |
| Translations.Check | scripts/check-translations.ts:25-49 | the check cannot run exactly when no locale is "tr"; otherwise it exits with 1 exactly when some key is missing and with 0 exactly when none is |
| Translations.NoMissingIff | scripts/check-translations.ts:28-34 | the missing count is zero exactly when every translation has every source key |
| Translations.CheckPassesIff | scripts/check-translations.ts:25-49 | the check passes exactly when every locale other than "tr" defines every key of the Turkish file |
| Translations.ExtrasDoNotCount | scripts/check-translations.ts:35-42 | keys only a translation has never count as errors: dropping them leaves the error count unchanged |
| Translations.MissingCountAppend | scripts/check-translations.ts:28-34 | each further translation adds the number of source keys it lacks |
| ExtractionLoading.NextIndex | web/src/components/extraction-loading.tsx:34-36 | the next index is a valid message index: one further, or back to the first message after the last |
| ExtractionLoading.IndexAfter | web/src/components/extraction-loading.tsx:34-36 | the index after any number of ticks is a valid message index |
| ExtractionLoading.IndexAfterIsModulo | web/src/components/extraction-loading.tsx:34-36 | after n ticks the message shown is number n modulo the six messages, so each message comes in turn |
| ExtractionLoading.LitIff | web/src/components/extraction-loading.tsx:94-103 | a dot is lit exactly when five times its step is at most four times the message index |
| ExtractionLoading.FloorOfProduct | web/src/components/extraction-loading.tsx:99 | `Math.floor(index * 0.8)` is the integer quotient of 4 × index by 5 |
| ExtractionLoading.LitGrows | web/src/components/extraction-loading.tsx:94-103 | a dot lit at one index stays lit at every later index |
| ExtractionLoading.LitAtEnds | web/src/components/extraction-loading.tsx:94-103 | the first dot is always lit, only it at index 0, and every dot at the last message |
| ExtractionLoading.LitCount | web/src/components/extraction-loading.tsx:8-103 | between one and five dots are lit, and the lit ones are exactly the first that many |
| Numbers.ParseFloat | web/src/components/add-weight-dialog.tsx:51 | `parseFloat` gives a number exactly when, after leading whitespace and an optional sign, the text starts with a decimal literal |
| Numbers.ParseInt | web/src/components/add-blood-pressure-dialog.tsx:58-59 | `parseInt` gives a number exactly when, after leading whitespace and an optional sign, the text starts with a digit |
| Text.Trim | web/scripts/run-migration.js:27 | `trim` yields a trimmed piece of the input, empty exactly when the input is all whitespace |
| Text.Split | web/scripts/run-migration.js:24 | `split` yields at least one piece, none holding the separator, and joining them gives the text back |
| Text.SplitJoin | web/scripts/run-migration.js:24 | splitting the join of separator-free pieces recovers the pieces |
| Text.LexLessTransitive | web/scripts/run-migration.js:73-75 | the string order used by the default sort is transitive |
| Text.LexLessTotal | web/scripts/run-migration.js:73-75 | any two distinct strings are ordered one way or the other |
| Sorting.Sort | web/src/components/metric-chart.tsx:111 | `sort` returns a permutation of its input ordered by the comparator |
| Sorting.SortStable | web/src/app/dashboard/page.tsx:496-512 | sorting keeps each class of equivalent elements in input order |
| Sorting.SortLastIndex | web/src/components/metric-chart.tsx:109-159 | the last element after sorting is greatest and is the last greatest element of the input |
| JsObject.GetSet | evals/score-run.mjs:21 | after assigning a key it holds the new value and every other key keeps its value |
| JsObject.FromEntriesGet | evals/score-run.mjs:20-21 | filling an object entry by entry leaves each key holding its last value |

## Left out

- `Intl` and `Date` formatting (`formatTR`, `formatDateTR`, `formatTrackingDate*`, `formatBlogDate`) is left out because it is locale and time-zone library behaviour. The date value `formatRelativeDate` shows past two days is therefore an opaque label.
- The clock is a parameter everywhere it is read: elapsed milliseconds, build time, poll time, upload timestamps.
- The dashboard's merge of weight and blood-pressure measurements into tracking metrics is left out (web/src/app/dashboard/page.tsx:410-464). It turns `measured_at` into a date through `toISOString`.
- The dashboard's date-range cutoff is left out (web/src/app/dashboard/page.tsx:466-480) because it reads the current clock.
- The dashboard's free-text search filter is left out (web/src/app/dashboard/page.tsx:485-494). It also matches `friendlyMetricName`, which is not part of this model; only its `normalizeTurkish` step is modelled.
- Drag reordering (`arrayMove` from dnd-kit) and `resetMetricOrder` are left out (web/src/app/dashboard/page.tsx:642-704): they are a library call followed by a `fetch`.
- All `fetch`, SQL, Vercel Blob, SHA-256, mupdf and OpenAI calls are left out. Their answers are parameters: a reply, a row set, a digest or an id.
- The upload route builds the stored file URL (Blob upload or data URL); only the file name it stores is modelled.
- React rendering, effects, timers, toasts, console output and `process.exit` are left out beyond the exit status.
- JSON parsing of files and API bodies is left out: parsed values arrive as datatypes, and a parse failure (which throws) is not modelled.
- Floating point is left out: JavaScript numbers are exact reals. Averages, the 0.8 product of the progress dots (shown to agree with its exact value) and `toFixed` rounding of the accuracy percentage are idealised.
- Object keys that look like integers are enumerated first by JavaScript. They are treated like any other key, and `__proto__` is treated as an ordinary key.
- The upload page's sample date can be `undefined` or `null`; both are one "absent" value.
- The evaluation scripts' file-system steps are left out: the case directories, the `input.pdf` check, PDF rendering, the run id and date, and writing scores back. The run totals' percentage lines are left out as rounding.
- Numbers.ParseFloat: does not accept exponent notation, `Infinity` or hexadecimal literals, because no input field of the app admits them.
- Numbers.NumberOf: only the blank-string case is stated as a contract; the other cases are used through the lemmas about `Metrics.CheckOutOfRange`.
- Lab.MetricValue: the value is a number, never null. The chart drops null values before taking the minimum and maximum (web/src/components/metric-chart.tsx:141-143), and a metric whose values are all null gives `Math.min()` of nothing, which is `Infinity`; neither is modelled.
- Text.LexLess: compares strings by Unicode code point, whereas JavaScript compares UTF-16 code units. The two orders differ only between characters above U+FFFF and characters from U+E000 to U+FFFF.
- Initials.FirstChars: takes the first code point of each word, whereas JavaScript's `w[0]` takes the first UTF-16 code unit, which for a character above U+FFFF is half a surrogate pair.
- Text.ToLower: like `Text.ToUpper`, maps case only for ASCII, Latin-1 and the Turkish letters, which are the characters the app handles; full Unicode case mapping is not modelled.
- Evals.FirstDate: states only that the date found is truthy; which page it comes from is stated by `Evals.MergeFromSpec`.
- Translations.LocaleOf: states only the length change; the locale names used by the check are the file names minus ".json".
- `web/src/lib/sheets` (the lab-value records' declarations) is not part of this model. The fields the modelled code reads are declared in `Lab`.
- The blog-cover script `web/scripts/generate-blog-og.py` is left out: drawing calls at fixed coordinates.
- Presentation-only pages and components are left out: landing, login, privacy, layout, theme and locale switchers, onboarding, invite modal, profile switcher and review card.

## Findings

| source | as written | input that shows it | evidently intended | confidence | as-written member | corrected member |
|---|---|---|---|---|---|---|
| web/src/components/metric-chart.tsx:156 | the y-axis minimum is clamped to 0 unconditionally | a metric whose values are all negative, for example a single base excess of -5 with no reference range, gives the domain [0, -5] | clamp to 0 only when the range does not go below 0, so the domain is ordered and covers every value | medium, not executed | Chart.YDomainAsWrittenInverted | Chart.ChartDomainCoversPoints |
| web/src/app/dashboard/page.tsx:536-545 | with averaging on, `count` is `values.length` read after `pop()` has removed the latest entry | a metric with two values reports a count of 1 | the count of the values averaged | high, not executed | Dashboard.AverageCountOffByOne | Dashboard.SummarizeCorrected |
| web/scripts/run-migration.js:24-29 | the line expression's `.` matches no '\r', so no line of a `.env` file saved with CRLF endings matches | the line `K=v\r` is ignored and the variable is never set | read a CRLF line like the same line with LF endings | high, not executed | Migration.CrlfTestFileExits | Migration.LoadEnvFileGet |
| web/src/middleware.ts:89-94 | the redirect target is honoured when it starts with "/" but not "//" | `/\evil.example` passes the check, and the URL parser reads the backslash as a slash, so the user lands on another host | honour only targets that stay on this site | high, not executed | Middleware.DecideAsWrittenLeaks | Middleware.DecideCorrected |
| web/src/lib/blog.ts:116-123 | an alternate is the first file of the other locale whose canonical locale matches; the slug is not compared | two English articles a and b, both translated into Turkish: the page of b links Turkish a | link the translation of the same article | medium, not executed | Blog.AsWrittenLinksWrongArticle | Blog.GetAlternateLocales |
