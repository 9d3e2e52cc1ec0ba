# Canvas Enable Totals — grade engine model

A Dafny model of the grade aggregation engine of the Canvas userscript
"Canvas Enable Totals". The script reads the grade table of a Canvas course
page, works out each assignment group's (category's) totals and the course
total, and writes them back into the page. It has three generations:

- the modular script (`modules/core.js`, `modules/policies.js`,
  `modules/gpa.js`, `modules/weights.js`);
- the single-file userscript `CanvasEnableTotals.user.js`;
- the original `CanvasEnableTotals.js`.

The DOM is replaced by plain data. A grade-table row is a `TableRow` with
optional cells. A cell is a `TextCell`: its trimmed text plus what
`parseFloat` makes of it (`None` for NaN or an infinity). Numbers are `real`.
A JavaScript `Map` from category to totals or records is a sequence in
insertion order. A weight or policy map, which is only looked up and
counted, is a Dafny `map`.

Modules:

- `Records` (`records.dfy`): the assignment and category records, the
  fraction an assignment scores, and the sums the scripts fold.
- `KeySort` (`key_sort.dfy`): the stable sort by a numeric key behind
  `Array.prototype.sort`. It is an insertion sort on an array, specified by
  the function `SortBy`. `StableSortIsUnique` shows that every stable sort
  gives this same result.
- `Policies` (`policies.dfy`): drop-lowest, full credit, and the policy table.
- `Gpa` (`gpa.dfy`): the percentage-to-GPA lookup and the scale table.
- `Decimal` (`decimal.dfy`): `toFixed(2)` and the weight pattern
  `(\d+(?:\.\d+)?)%`, proved to round-trip.
- `Core` (`core.dfy`): the modular script's row filter, grouping, assignment
  cache (class `AssignmentCache`), category totals, final grade (a plain
  weighted sum, not renormalised) and totals-row arithmetic.
- `UserScript` (`user_script.dfy`): the single-file script's renormalised
  final grade, its uncached grouping, and its default-weight reader.
- `Scaling` (`scaling.dfy`): the renormalised grade depends only on the
  ratios of the weights.
- `Weights` (`weights.dfy`): the custom-weights table and its 100% check.
- `Legacy` (`legacy.dfy`): the original script, whose JavaScript numbers
  can be NaN (`Num.NotFinite`).

`CanvasEnableTotals.user.js` carries copies of `applyGradePolicy`
(210-247), `extractGradeFromRow` (159-208), the grouping and totalling loops
(113-155), `getCustomWeights` (333-354), `updateWeightTotal` (356-373) and
`getGradePolicies` (465-496). They behave exactly like their modular
counterparts, so each is modelled once: by `Policies.ApplyGradePolicy`,
`Core.ExtractGradeFromRow`, `Core.GroupAssignments`/`Core.TotalsByCategory`,
`Weights.GetCustomWeights`, `Weights.UpdateWeightTotal` and
`Policies.GetGradePolicies`. The modular `recalculateGrade`
(modules/core.js:419-421) calls `extractDefaultWeights`, but no module
defines it. This model uses the userscript's definition,
`UserScript.ExtractDefaultWeights`.

## Model

| member | source | states |
|---|---|---|
| Records.ParseFloatOrZero | modules/core.js:40-43 | a parse that is not finite gives 0; otherwise the parsed number |
| Records.TotalReceived | modules/policies.js:29-32 | the loop total of points received is the sum over the records |
| Records.TotalPossible | modules/policies.js:34-37 | the loop total of max points is the sum over the records |
| KeySort.InsertionSort | modules/policies.js:18-22 | sorting the array in place leaves exactly `SortBy` of its old contents |
| KeySort.InsertStep | modules/policies.js:18-22 | one insertion step turns the prefix up to i into `InsertAfterTies` of the old prefix and old element i, leaving the rest of the array alone |
| KeySort.OpenGap | modules/policies.js:18-22 | shifting the elements with a greater key one place right opens the slot after the element's ties; nothing else moves |
| KeySort.SortByIsStableSort | modules/policies.js:18-22 | the sorted sequence is a permutation of the input, ascending by key, with equal keys in input order |
| KeySort.StableSortIsUnique | modules/policies.js:18-22 | any ascending sequence whose equal-key groups match the input's equals `SortBy`: every stable sort agrees |
| KeySort.SplitSorted | modules/policies.js:23 | cutting a sorted sequence splits its multiset and its equal-key groups, with the front no greater than the back and the back still sorted |
| Policies.ApplyGradePolicy | modules/policies.js:9-47 | no policy returns the records unchanged; otherwise the result is the drop-then-full-credit `PolicyResult` of a sorted copy |
| Policies.DropCount | modules/policies.js:17-24 | exactly N records go when N > 0 and more than N exist; none otherwise; a non-empty category never becomes empty |
| Policies.DropKeepsHighest | modules/policies.js:17-24 | kept plus dropped is the input multiset; no kept fraction is below a dropped one; the kept records ascend; among equal fractions the earlier ones go first |
| Policies.DropTotals | modules/policies.js:17-24 | the kept totals are the full totals less the dropped records' points |
| Policies.FullCreditTotals | modules/policies.js:26-46 | if the kept points reach a positive threshold, the result is one record earning all the kept possible points; otherwise it is the kept records |
| Policies.InactivePolicyIsIdentity | modules/policies.js:17-46 | a policy with no positive part leaves the records unchanged |
| Policies.EmptyCategoryNeverCollapses | modules/policies.js:27-33 | an empty category stays empty under any policy |
| Policies.DropLowestExample | modules/policies.js:17-24 | scores 0.5, 0.9, 0.3 with one drop keep 0.5 and 0.9 in sorted order |
| Policies.FullCreditExample | modules/policies.js:27-44 | 120 of 150 points against a threshold of 100 become one 150/150 record |
| Policies.DropBeforeFullCreditExample | modules/policies.js:17-44 | the threshold is compared with what remains after dropping |
| Policies.GetGradePolicies | modules/policies.js:104-135 | no table gives an empty map; otherwise the map is built row by row as `PoliciesFrom` |
| Policies.StoredPoliciesAreActive | modules/policies.js:113-129 | a label is stored exactly when some row with it has an active policy; the stored policy is active and is the last such row's |
| Policies.StoredPoliciesKeys | modules/policies.js:120-129 | a label is a key exactly when some row with it has an active policy; stored policies are active and their labels non-empty |
| Policies.LastStoredRow | modules/policies.js:127-129 | a stored label's policy is that of a row storing it after which no row stores it again |
| Gpa.CalculateGPA | modules/gpa.js:9-26 | sorting a copy by descending min and scanning gives `GpaOf`: null without ranges, else the first containing range's value, else 0.0 |
| Gpa.FirstContainingIsFirst | modules/gpa.js:19-23 | the scan finds nothing exactly when no range contains p; a found range contains p and no earlier one does |
| Gpa.GpaFallback | modules/gpa.js:25 | if no range contains p, the result is 0.0 |
| Gpa.SortedScanFindsGreatestMin | modules/gpa.js:15-23 | the range found has the greatest min among the ranges containing p |
| Gpa.GpaWinner | modules/gpa.js:9-26 | when some range contains p, the result is the value of a containing range of the scale with the greatest min, the first of its min ties |
| Gpa.Winner | modules/gpa.js:15-25 | the range the lookup picks contains p, has the greatest min among the containing ranges, and comes first among its min ties |
| Gpa.GpaExample | modules/gpa.js:9-26 | 85 gives 3.0 and 70 gives 0.0 on a two-range scale; an empty or absent scale gives null |
| Gpa.GetGPAScale | modules/gpa.js:82-109 | no table gives an empty scale; otherwise the scale is the ranges of the kept rows in order |
| Gpa.ScaleFromKeepsValidRows | modules/gpa.js:96-103 | every range in the scale has max ≥ min, and a range is in it exactly when a complete row with max ≥ min gives it |
| Decimal.FormatFixed2 | modules/core.js:38 | `toFixed(2)` text has a point with two digits after it, digits elsewhere, and a sign exactly for negatives |
| Decimal.FindPercent | CanvasEnableTotals.user.js:266-271 | the weight found by the pattern, when there is one, is never negative |
| Decimal.MatchAt | CanvasEnableTotals.user.js:268 | a match starts at a digit and captures a non-negative number |
| Decimal.NoPercentNoMatch | CanvasEnableTotals.user.js:266-272 | text without a '%' yields no weight |
| Decimal.WholePercentRoundTrip | CanvasEnableTotals.user.js:266-271 | a whole number written out and followed by '%' reads back as itself |
| Decimal.MatchFixedAt | CanvasEnableTotals.user.js:268 | digits, a point, two digits and '%' read as the whole part plus the hundredths |
| Decimal.FixedPercentRoundTrip | modules/weights.js:98 | `toFixed(2)` plus '%' reads back through the pattern as x rounded half up to hundredths, within 0.005 of x |
| Core.FormatPercent | modules/core.js:38 | a value that is not finite shows "0.00"; a non-negative value shows text that reads back within 0.005 |
| Core.ExtractGradeFromRow | modules/core.js:356-400 | nothing for a missing cell, max 0 or not a number, a weight of exactly 0, a '-' in the score, or a score that is not a number; otherwise the row's own category and numbers |
| Core.RowKept | modules/core.js:356-400 | a complete row with non-zero max, non-zero weight and a graded score is kept with its numbers |
| Core.GroupAssignments | modules/core.js:311-326 | the row loop builds exactly the grouping `Grouped` |
| Core.PushRecord | modules/core.js:319-325 | pushing a record appends it to its category's group, or adds a group for a new category at the end, as `AddToGroups` |
| Core.GroupedDistinct | modules/core.js:319-321 | grouping creates one group per category |
| Core.GroupedCovers | modules/core.js:311-326 | a category has a group exactly when some row yields a record for it |
| Core.GroupedRecords | modules/core.js:319-325 | each group is non-empty and holds exactly its category's records in row order |
| Core.GroupedInFirstSightingOrder | modules/core.js:311-326 | the Map keeps categories in first-seen order: every group's category is seen among the rows, and an earlier group's category is first seen at an earlier row than a later group's |
| Core.TotalsByCategory | modules/core.js:337-353 | one entry per group: the sums over what the category's policy leaves, and no policy when the map is null or has no entry |
| Core.AssignmentCache.constructor | modules/core.js:241-242 | the cache starts empty with size 0 |
| Core.AssignmentCache.ExtractAllAssignments | modules/core.js:296-331 | a valid cache is returned unchanged; no table returns nothing and keeps the cache; otherwise the table is regrouped and cached with the weight count |
| Core.AssignmentCache.ExtractGrades | modules/core.js:333-354 | the totals of the cached or regrouped groups, with the cache updated as above |
| Core.StaleCacheAfterWeightChange | modules/core.js:245-249 | changing a weight from 20 to 0 returns the stale grouping, although regrouping would drop the row |
| Core.CalculateFinalGrade | modules/core.js:253-277 | no weights: points over all categories as a percentage, 0 if nothing is possible; weights: Σ fraction × weight over categories with points possible and positive weight |
| Core.UnweightedBounds | modules/core.js:256-266 | at most full marks everywhere gives an unweighted grade between 0 and 100 |
| Core.WeightedBounds | modules/core.js:268-276 | the weighted grade lies between 0 and the weight actually used, with no renormalisation |
| Core.NothingCountsGivesZero | modules/core.js:268-276 | when no category has points possible and a positive weight, the weighted grade is 0 |
| Core.CategoryPercentage | modules/core.js:460-463 | 0 when nothing is possible; otherwise the percentage times possible equals received × 100; between 0 and 100 for at most full marks |
| Core.FinalRowTotals | modules/core.js:516-541 | the totals row sums every category whatever its weight, shows the unweighted grade, and shows points only when something is possible |
| UserScript.ExtractAllAssignments | CanvasEnableTotals.user.js:108-134 | no table gives no groups; otherwise the uncached grouping, one group per category |
| UserScript.ExtractGrades | CanvasEnableTotals.user.js:136-157 | each group's totals after its policy |
| UserScript.CalculateFinalGrade | CanvasEnableTotals.user.js:56-94 | the loops compute `FinalGrade`: unweighted over the categories with points possible, weighted renormalised by the weight used |
| UserScript.SumGraded | CanvasEnableTotals.user.js:60-72 | the unweighted loop sums received and possible points over the categories with points possible |
| UserScript.SumWeighted | CanvasEnableTotals.user.js:74-88 | the weighted loop sums fraction × weight and the weight over the categories with points possible and a non-zero weight |
| UserScript.UnweightedBounds | CanvasEnableTotals.user.js:60-72 | at most full marks everywhere gives an unweighted grade between 0 and 100 |
| UserScript.UnweightedAgreesWithCore | CanvasEnableTotals.user.js:64-68 | when every category has points possible, both scripts' unweighted grades agree |
| UserScript.WeightedBounds | CanvasEnableTotals.user.js:75-89 | with non-negative weights and at most full marks, the renormalised grade is between 0 and 100 |
| UserScript.FullMarksGiveHundred | CanvasEnableTotals.user.js:75-89 | full marks everywhere give exactly 100 when some weight is used, negative weights included |
| UserScript.NothingCountsGivesZero | CanvasEnableTotals.user.js:89 | when no category counts, the guard gives 0 instead of dividing by zero |
| Scaling.ScaleInvariant | CanvasEnableTotals.user.js:75-89 | multiplying every weight by the same positive factor leaves the grade unchanged |
| Scaling.ScaledSums | CanvasEnableTotals.user.js:74-88 | scaling every weight by k > 0 scales both the weighted sum and the weight used by k |
| UserScript.RenormalisesCore | CanvasEnableTotals.user.js:85-89 | with non-negative weights this grade is the modular one × 100 / weight used, so the two agree exactly when 100 weight is used |
| UserScript.ExtractDefaultWeights | CanvasEnableTotals.user.js:249-277 | no table gives an empty map; otherwise the rows are read in order into `DefaultWeightsFrom` |
| UserScript.DefaultWeightsRead | CanvasEnableTotals.user.js:262-273 | a label has a weight exactly when some row with it has both cells and a percentage; weights are never negative |
| UserScript.DefaultWeightsLastRow | CanvasEnableTotals.user.js:270-272 | a label's weight is the percentage of the last such row |
| UserScript.LastReadRow | CanvasEnableTotals.user.js:270-272 | a label's weight comes from a row reading it after which no row reads it again |
| UserScript.DefaultWeightExample | CanvasEnableTotals.user.js:266-272 | "40%" gives a weight of 40 |
| UserScript.NoPercentExample | CanvasEnableTotals.user.js:266-272 | a weight cell without '%' ("n/a") gives its label no weight |
| Weights.GetCustomWeights | modules/weights.js:60-81 | no table body gives an empty map; otherwise the rows are read in order into `CustomWeightsFrom` |
| Weights.CustomWeightsKeys | modules/weights.js:70-77 | a label is in the map exactly when some row has it non-empty and has an input |
| Weights.CustomWeightsLastRow | modules/weights.js:74-76 | a label's weight is the parsed input of its last row, 0 when it does not parse |
| Weights.LastKeptRow | modules/weights.js:74-76 | a label's weight comes from a row with it and an input after which no such row follows |
| Weights.UpdateWeightTotal | modules/weights.js:83-100 | nothing without table body or total cell; otherwise the total text and a valid flag set exactly when the total is within 0.01 of 100; the text reads back within 0.005 |
| Weights.TotalIsSumOfWeights | modules/weights.js:91-96 | with distinct non-empty labels, the total is the sum of the weights the map holds |
| Weights.WeightTotalExample | modules/weights.js:99 | 40 + 35 + 25 passes the check; 40 and an unparsable input total 40 and fail |
| Weights.InitialWeight | modules/weights.js:166 | a category without a saved weight starts at 0; otherwise at its saved weight |
| Legacy.Num.Add | CanvasEnableTotals.js:71-72 | a sum is a number exactly when both operands are, and then it is their sum |
| Legacy.Accepted | CanvasEnableTotals.js:36-64 | skips max text "0", weight exactly 0 and '-' in the score; otherwise accepts exactly when category, score and max texts are all non-empty, with unchecked parses |
| Legacy.GetGrades | CanvasEnableTotals.js:31-80 | no table gives no totals; otherwise the in-place accumulation gives `LegacyGrades` |
| Legacy.LegacyGradesDistinct | CanvasEnableTotals.js:65-67 | one entry per category |
| Legacy.LegacyGradesCover | CanvasEnableTotals.js:64-67 | a category has totals exactly when some row is accepted for it |
| Legacy.AccumulateFinds | CanvasEnableTotals.js:65-67 | accumulating a row gives its category totals and keeps every other category's |
| Legacy.LegacyGradesSums | CanvasEnableTotals.js:65-73 | each entry is 0 plus the scores and 0 plus the max points of its accepted rows, so one unparsed score makes it not a number |
| Legacy.GetFinalGrade | CanvasEnableTotals.js:12-29 | the loop computes `LegacyFinalGrade`: categories with points possible and a weight present, divided by the weight sum with no guard |
| Legacy.SumScores | CanvasEnableTotals.js:15-22 | the loop sums each counted category's score and weight, a score that is not a number making the sum not a number |
| Legacy.AgreesWithUserScript | CanvasEnableTotals.js:15-24 | on finite totals with positive weight used it equals the userscript's grade; with zero weight used it is not a number while the userscript shows 0 |
| Legacy.NothingGradedIsNotFinite | CanvasEnableTotals.js:24 | with weights but no graded category the total is not a number, where the userscript gives 0 |
| Legacy.UnparsedScorePoisonsTotal | CanvasEnableTotals.js:69-73 | a score "N/A" makes its category's received points and the final grade not numbers |
| Legacy.GetWeights | CanvasEnableTotals.js:82-109 | nothing unless the totals text says "disabled" and the table exists; fails exactly when a row with both cells has no percentage; otherwise the same map as the userscript |

## Left out

- DOM reading and writing: selectors, `getGradeTable`, `getDisplayElement`, text and style writes, and `aria-label` attributes. Rows and cells are given as data, and only the arithmetic of `updateCategoryTotals`/`updateFinalGradeRow` is modelled.
- UI construction and event wiring: every `create*`/`populate*`/`setup*` function, `injectStyles`, the `init` functions, `recalculateGrade` (it only chains the modelled operations) and the legacy script's startup function.
- `debounce`: timer behaviour.
- localStorage and JSON persistence: `getCourseSettings`, `saveCourseSettings` and every `save*`/`load*` function. These are calls into browser storage and `JSON`. The save at the end of `getCustomWeights`, `getGradePolicies` and `getGPAScale` is omitted.
- `getCourseId`: it reads the page URL.
- IEEE-754 arithmetic: sums, products and quotients are exact reals. `parseFloat`/`parseInt` are abstracted to the number a cell carries. `toFixed` is modelled for reals, not for doubles, and not its exponential form from 1e21 up.
- NaN in the drop-lowest comparator: a record's fraction is a real, so the comparator is always consistent.
- The GPA suffix of the total (modules/core.js:280-293): display, switched by a checkbox.
- CanvasEnableTotals.meta.js and CanvasEnableTotals-modular.user.js: headers and bootstrapping only.
- Policies.GetGradePolicies: a policy input that `parseInt`/`parseFloat` reads as NaN is stored as 0. The only comparisons the scripts make with it (`> 0`) treat NaN and 0 alike, but the value kept in the map differs. An input that reads as `Infinity` (a threshold text "Infinity", or a drop count too long for a double) is `> 0`, so the source stores it as an active policy; a cell here carries no infinite number, so the model reads it as 0 and stores no policy for it. An infinite drop count never drops (`length > Infinity` is false) and an infinite threshold never grants full credit, so applying the policy gives the same records either way; only the map's contents differ.
- Weights.InitialWeight: a saved weight that is NaN also starts at 0 in the source; weights are reals here, so that case is not represented.
- Core.AssignmentCache: the cached `Map` object is shared with callers in the source. Here the groups are values, so the model does not capture a caller mutating the cache through that reference.
- Legacy.GetGrades: the totals objects are mutated in place through the map. Here they are values replaced at their index. Only the map's final contents are captured, not the identity of the objects.
- Legacy.GetFinalGrade: NaN and the infinities are not told apart; both are `NotFinite`. As a consequence, a max-points cell that parses to `Infinity` counts in the source (`totals.possible > 0` holds), so its weight goes into `total_weight` and it adds `received / Infinity * weight = 0` to the grade. In the model that category's possible is `NotFinite`, `Legacy.Counts` is false, and its weight is not used.
- The legacy startup passes `undefined` as the weight map when the totals are not disabled, which makes `GetGrades` throw on `weight_map.has`. The startup is not modelled, so this is not either.

## Findings

| source | as written | input that shows it | evidently intended | confidence | as-written member | corrected member |
|---|---|---|---|---|---|---|
| CanvasEnableTotals.js:24 | `finalGrade * 100 / total_weight` with no guard | a weight map with entries but no category with points possible: total weight 0, so the total shows "NaN%" | a total of 0 when no weight is used, as `CanvasEnableTotals.user.js:89` does | high (proved on the model; not executed) | Legacy.NothingGradedIsNotFinite | UserScript.NothingCountsGivesZero |
