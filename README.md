# AFAssignment core, modelled in Dafny

AFAssignment assigns Air Force cadets to Air Force Specialty Codes (AFSCs).
This project models the parts of the application that compute something.

- **LP builder.** `CadetAssignment` scores every (cadet, AFSC) pair and builds
  the binary linear program for the GLPK solver. It also reads the solver's
  0/1 variable map back into assignments.
- **Synthetic cadet generator.** It uses cumulative weights, a weighted
  choice, a loop that draws distinct preferences, random degree tiers and a
  random cadet count.
- **CSV importers.** They split the text into rows of header-keyed fields.
  The `AFSC` and `Cadet` records are modelled with them.
- **Simulation page.** It tallies how many cadets list each AFSC and sorts
  the tally by count. It also keys cadets by name and AFSCs by code for the
  LP builder.
- **Editor handlers.** The cadet editor and the AFSC editor have add, delete
  and update handlers. They also have the comma-list parsers and display
  strings of the preference and degree cells, the export flattening, and
  the pagination arithmetic.

## How the model is organised

- **One module per source file:**

  | module | source file |
  |---|---|
  | `AssignmentSimulation` | `AssignmentSimulation.js` |
  | `CadetGeneration` | `CadetGeneration.js` |
  | `ImportCsv` and `CsvParse` | `ImportCsv.js` |
  | `CsvImportExport` | `CsvImportExport.js` |
  | `AfscModel` | `Afsc.js` |
  | `CadetModel` | `Cadet.js` |
  | `SimulationPage` | `assignment-simulation.js` |
  | `CadetEditor` | `cadet-editor.js` |
  | `AfscEditor` | `afsc-editor.js` |

  `Pagination` holds the page arithmetic both editors share. `Layout` holds
  the loop orders of the LP builder.
- **Modules for JavaScript built-ins:**
  - `Dicts` models plain objects used as dictionaries: entries in insertion
    order, `obj[k] = v`, `Object.keys` and `Object.fromEntries`.
  - `Strings` models `split`, `join`, `trim` and number-to-string conversion.
  - `Numbers` holds a few facts about flooring a scaled random draw.
- **Imperative code:**
  - `CadetAssignment` is a `class` with stored fields.
  - The loops are methods with loop invariants: `InitializeLP`,
    `AddConstraints`, `DisplayResults`, `createCumulativeWeights`,
    `weightedRandomChoice`, `generatePreferences`, `generateDegrees`,
    `getCalculatedCadetCount`, `GenerateCadets`, the tally, the keying
    loops, and the `forEach` loops of the cell parsers.
  - Each method is proved equal to a function. The properties are proved
    about those functions as lemmas.
- **Pure code:** the pipelines and the editor handlers are functions.
- **Randomness and host calls:** each `Math.random()` reads the next number
  of an explicit stream of draws in [0, 1). Number parsing and formatting
  are function parameters: `parseInt`, `parseFloat`, `toFixed(3)`, and the
  rendering of a number into a sheet cell.
- **Gaps filled from the records:**
  - `GetUtility` uses the undeclared `wc` and `rc`. The model takes them as
    a `Weights` parameter.
  - `AddConstraints` reads `this.targets`, `this.overclassFactor`,
    `this.usaCadetLimits`, `this.meritBounds`, `this.cadet` and
    `afsc.mandatory`. The constructor sets none of these. The model reads
    the fields of the AFSC and cadet records that the loop visits.
  - `cadetData.forEach` is called on a keyed object. The model reads it as a
    visit of the object's keys, in order.
  - As written, these gaps make the constructor throw on every input, so
    the source never builds a linear program. The model is the builder the
    code evidently intends. "## Left out" says so member by member.

## Model

| member | source | states |
|---|---|---|
| CadetModel.NewCadet | modules/models/Cadet.js:2-7 | The record holds the four arguments, in order: `cadetPreferences`, `cadetPercentile`, `cadetFromUSAFA`, `cadetDegrees`. It has no name field. |
| CadetModel.FiveArgumentCallShiftsFields | modules/client/CadetGeneration.js:17-23 | A five-argument call shifts every field. The name lands in `cadetPreferences`, the preferences in `cadetPercentile`, the percentile in `cadetFromUSAFA` and the USAFA flag in `cadetDegrees`. The degrees argument has no effect on the result. |
| AfscModel.NewAfsc | modules/models/Afsc.js:2-10 | The six arguments are stored unchanged. `weightedDistribution` is 0. |
| AfscModel.FromCsv | modules/models/Afsc.js:13-23 | Each column goes to its field. `target` goes through `parseInt` and the others through `parseFloat`. Each bound pair is `{min, max}`. The weight is 0 whatever the row holds, because the seventh argument is ignored. |
| AfscModel.ImportIgnoresWeightColumn | modules/models/Afsc.js:21 | The `weighted_distribution` column can be set to any text and the imported AFSC does not change. |
| CsvParse.FilterNonBlank | modules/client/ImportCsv.js:7 | A line is kept exactly when its trimmed text is non-empty. No line is added. |
| CsvParse.FilterNonBlankConcat | modules/client/ImportCsv.js:7 | The filter works line by line. A single line is kept exactly when it is non-blank, and filtering two runs of lines gives the kept lines of the first run, then those of the second. So the kept lines keep their order. |
| CsvParse.FilterNonBlankCounts | modules/client/ImportCsv.js:7 | Each non-blank line is kept as often as it occurs, and no blank line is kept. |
| CsvParse.FilterKeepsNonBlank | modules/client/ImportCsv.js:7 | When no line is blank, every line is kept, in order. |
| CsvParse.Field | modules/client/ImportCsv.js:13 | `values[index] \|\| ""` is the field at that index, or "" past the end of the row. |
| CsvParse.RowObject | modules/client/ImportCsv.js:12-15 | The row object has each header exactly once and no other key. |
| CsvParse.RowObjectGet | modules/client/ImportCsv.js:12-15 | A header reads the field under its last column, which is "" when the row is too short. A repeated header keeps its last column. A name that is not a header reads `undefined`. |
| CsvParse.ExtraFieldsDropped | modules/client/ImportCsv.js:11-15 | Fields beyond the header count do not change the row object. |
| CsvParse.RowObjectOfDistinctHeaders | modules/client/ImportCsv.js:12-15 | With distinct headers, the object's entries are the headers in order, each paired with its field. |
| CsvParse.RecordsOf | modules/client/ImportCsv.js:10-17 | There is one row object per data line, in line order, built with the shared headers. |
| CsvParse.Records | modules/client/ImportCsv.js:7-17 | The record count is the kept-row count minus 1. Record `i` comes from kept row `i + 1`, keyed by the trimmed cells of the first kept row. Input with no kept row is excluded, because `rows[0]` does not exist. |
| CsvParse.RecordField | modules/client/ImportCsv.js:8-15 | Field `h` of record `i` is the trimmed cell under the last column headed `h`, or "". A name that is not a header is absent. |
| ImportCsv.AfscsOf | modules/client/ImportCsv.js:10-17 | Each data line gives one AFSC, in order: `AFSC.fromCSV` of its row object. Every row object carries all the columns `fromCSV` reads. |
| ImportCsv.ImportAfscs | modules/client/ImportCsv.js:6-20 | There is one AFSC per data row, and every imported AFSC has weight 0. |
| ImportCsv.RecordHasColumns | modules/client/ImportCsv.js:12-16 | When the header row names every column `fromCSV` reads, every record has all of them, filled with "" where the row is short. |
| ImportCsv.ImportedAfscCode | modules/client/ImportCsv.js:13-16 | The code of AFSC `i` is the cell under the last `afsc` column of data row `i`. |
| ImportCsv.ImportCadets | modules/client/ImportCsv.js:23-37 | Import yields the empty list exactly when there is no data row. Otherwise the call to the missing `Cadet.fromCSV` is reached. |
| CsvImportExport.ImportAfscs | modules/client/CsvImportExport.js:4-18 | On every input it equals `ImportCsv.ImportAfscs`: the same kept rows, headers, defaulting and record mapping. |
| AssignmentSimulation.UtilityMatchesRuleTable | modules/client/AssignmentSimulation.js:18-45 | `GetUtility`'s if/else chain equals the first-match evaluation of the rule table, for every cadet and AFSC. The table scores a ranked preference Mandatory 10·p·wc+250, Desired 10·rc·wc+150, Permitted 10·p·wc; without a rank, Mandatory 100·p, Desired 50·p, Permitted 0; anything else gives the deviation penalty. |
| AssignmentSimulation.MissingPreferenceScoresAsRanked | modules/client/AssignmentSimulation.js:20-31 | An AFSC missing from the preference object reads `undefined`, which passes `!== null`. It is scored by the ranked branch of its tier. |
| AssignmentSimulation.NonTierScoresPenalty | modules/client/AssignmentSimulation.js:42-44 | When the degree is absent or is not one of the three tiers, the utility is the deviation penalty. |
| AssignmentSimulation.ObjectiveSize | modules/client/AssignmentSimulation.js:49-59 | The program is named "Cadet Assignment". It is maximised under the objective name "Total Utility", has #cadets·#AFSCs objective terms, and has no explicit bounds. |
| AssignmentSimulation.ObjectiveLayout | modules/client/AssignmentSimulation.js:62-72 | Term `i·#AFSCs + j` is named `cadet_afsc` after cadet `i` and AFSC `j`. Its coefficient is `GetUtility` of that pair, so the order is cadet-major. |
| AssignmentSimulation.BinariesLayout | modules/client/AssignmentSimulation.js:64-74 | The binaries list holds exactly the objective's variable names, in the same order. |
| AssignmentSimulation.BinaryAt | modules/client/AssignmentSimulation.js:64-74 | Binary `i·#AFSCs + j` is the variable of cadet `i` and AFSC `j`. |
| AssignmentSimulation.ConstraintCount | modules/client/AssignmentSimulation.js:85-165 | `AddConstraints` appends #cadets + 6·#AFSCs constraints. |
| AssignmentSimulation.OneAfscLayout | modules/client/AssignmentSimulation.js:87-97 | Constraint `i` is `One_AFSC_<cadet i>`, fixed at 1. It has coefficient 1 on cadet `i`'s variable for every AFSC, in AFSC order. |
| AssignmentSimulation.TargetBlock | modules/client/AssignmentSimulation.js:100-110 | The target block follows the `One_AFSC_` block, from position #cadets on. |
| AssignmentSimulation.MandatoryBlock | modules/client/AssignmentSimulation.js:114-124 | The mandatory-education block starts at #cadets + #AFSCs. |
| AssignmentSimulation.UsafaBlock | modules/client/AssignmentSimulation.js:127-144 | The USAFA block starts at #cadets + 2·#AFSCs. |
| AssignmentSimulation.MeritBlock | modules/client/AssignmentSimulation.js:147-164 | The merit block starts at #cadets + 4·#AFSCs. |
| AssignmentSimulation.TargetConstraint | modules/client/AssignmentSimulation.js:100-110 | Target constraint `j` is `Target_<afsc j>`, type LO. Its lower bound is the target and its upper bound is target·overclassFactor. It has coefficient 1 on every cadet's variable for that AFSC, in cadet order. |
| AssignmentSimulation.MandatoryConstraint | modules/client/AssignmentSimulation.js:114-124 | Mandatory constraint `j` is `Mandatory_Education_<afsc j>`, type LO, bounded by the target times the mandatory-degree min and max. A cadet's coefficient is 1 exactly when the cadet's degree for the AFSC is Mandatory, and 0 otherwise. |
| AssignmentSimulation.UsafaPair | modules/client/AssignmentSimulation.js:127-144 | AFSC `j` contributes `USAFA_Min_` (LO, upper bound +∞) and then `USAFA_Max_` (UP, lower bound −∞). The two are bounded by the target times the USAFA min and max. Both have the same terms, and a cadet's coefficient is 1 exactly when the cadet is from USAFA. |
| AssignmentSimulation.MeritPair | modules/client/AssignmentSimulation.js:147-164 | AFSC `j` contributes `Merit_Min_` (LO, upper bound +∞) and then `Merit_Max_` (UP, lower bound −∞). The two are bounded by the target times the merit min and max. Both have the same terms, and a cadet's coefficient is the cadet's percentile. |
| AssignmentSimulation.ColumnNames | modules/client/AssignmentSimulation.js:106-107 | A per-AFSC family's column has one term per cadet, in cadet order, on the cadet's variable for that AFSC. |
| AssignmentSimulation.AssignedIff | modules/client/AssignmentSimulation.js:181-190 | A pair is reported exactly when the cadet and the AFSC are both listed and the variable's value is exactly 1. A missing variable is not 1. |
| AssignmentSimulation.AssignedRowIff | modules/client/AssignmentSimulation.js:183-188 | One cadet's row reports exactly the AFSCs whose variable for that cadet is 1. |
| AssignmentSimulation.AssignedAreBinaries | modules/client/AssignmentSimulation.js:181-190 | Every reported pair names one of the program's binary variables. |
| AssignmentSimulation.RowResults | modules/client/AssignmentSimulation.js:183-188 | The inner loop of `DisplayResults` reports one cadet's assigned AFSCs, in AFSC order. |
| AssignmentSimulation.CadetAssignment.constructor | modules/client/AssignmentSimulation.js:8-15 | The constructor stores the keyed cadets, the keyed AFSCs, the penalty and the weights. |
| AssignmentSimulation.CadetAssignment.GetUtility | modules/client/AssignmentSimulation.js:18-45 | The utility of a listed cadet is the cascade applied to that cadet's record. |
| AssignmentSimulation.CadetAssignment.InitializeLP | modules/client/AssignmentSimulation.js:48-82 | The nested loops and `AddConstraints` build exactly `BuildLP` of the stored data. That is the program the lemmas above describe. |
| AssignmentSimulation.CadetAssignment.ObjectiveTerms | modules/client/AssignmentSimulation.js:62-76 | The nested loop pushes the cadet-major grid of utility terms. It pushes their names into the binaries. |
| AssignmentSimulation.CadetAssignment.AddConstraints | modules/client/AssignmentSimulation.js:85-165 | The constraint list is extended by the `One_AFSC_` block and then the target, mandatory, USAFA and merit blocks, in that order. No other field changes. |
| AssignmentSimulation.CadetAssignment.DisplayResults | modules/client/AssignmentSimulation.js:181-190 | The method reports exactly the pairs whose variable is 1, in cadet-major order. |
| CadetGeneration.Cumulative | modules/client/CadetGeneration.js:69-78 | There is one entry per AFSC, in order, named after the AFSC. |
| CadetGeneration.CreateCumulativeWeights | modules/client/CadetGeneration.js:69-78 | The running-sum loop returns the cumulative list. |
| CadetGeneration.CumulativeStep | modules/client/CadetGeneration.js:71-75 | Entry `i` is the sum of weights 0..i. It exceeds entry `i - 1` by AFSC `i`'s weight. |
| CadetGeneration.CumulativeShape | modules/client/CadetGeneration.js:69-78 | With non-negative weights, the entries never decrease, and the last entry is the total weight. |
| CadetGeneration.FirstExceeding | modules/client/CadetGeneration.js:85-89 | The scan returns the first index whose cumulative weight exceeds `rand`, or nothing when none does. |
| CadetGeneration.WeightedRandomChoice | modules/client/CadetGeneration.js:81-90 | The loop returns the name at the first exceeding entry, for `rand` = draw·total. Otherwise it returns `undefined`. |
| CadetGeneration.PositiveTotalPicks | modules/client/CadetGeneration.js:81-90 | With a positive total and a draw in [0, 1), some AFSC is always chosen. |
| CadetGeneration.ChosenHasPositiveWeight | modules/client/CadetGeneration.js:85-89 | With non-negative weights, the chosen AFSC has positive weight of its own. |
| CadetGeneration.ZeroTotalPicksNothing | modules/client/CadetGeneration.js:82-89 | With non-negative weights summing to 0, the choice is `undefined`. |
| CadetGeneration.GeneratePreferences | modules/client/CadetGeneration.js:29-42 | The loop stops at the first draw position where the number of distinct choices reaches `numChoices`. The preferences are the ranking of the draws up to there. The loop runs out of draws exactly when the whole stream holds fewer distinct choices. |
| CadetGeneration.ChosenAfterIsDedup | modules/client/CadetGeneration.js:34-40 | The `chosen` set is the list of choices so far with repeats removed, in order of first draw. |
| CadetGeneration.DedupMembers | modules/client/CadetGeneration.js:36-37 | Removing repeats keeps every choice that was drawn and adds none. |
| CadetGeneration.DedupDistinct | modules/client/CadetGeneration.js:36-37 | After repeats are removed, no choice appears twice. |
| CadetGeneration.PreferencesRanked | modules/client/CadetGeneration.js:36-39 | With a positive total weight, the preferences are the distinct choices in order of first draw, ranked 1, 2, … in that order. A repeated draw changes nothing. |
| CadetGeneration.PreferencesDistinct | modules/client/CadetGeneration.js:36-38 | No AFSC is ranked twice. |
| CadetGeneration.FewPositiveWeightsNeverFinish | modules/client/CadetGeneration.js:34-40 | The distinct choices never outnumber the AFSCs of positive weight. With fewer than six such AFSCs, the six-choice loop cannot end. |
| CadetGeneration.TierOf | modules/client/CadetGeneration.js:47-50 | `potentialDegrees[Math.floor(draw * 3)]` is always one of the three tiers. |
| CadetGeneration.GenerateDegrees | modules/client/CadetGeneration.js:45-53 | There is one degree per preference, keyed by the index strings "0", "1", … rather than by AFSC code. Degree `k` is the tier of draw `k`. The loop succeeds exactly when enough draws remain. |
| CadetGeneration.DegreesWellFormed | modules/client/CadetGeneration.js:48-51 | The generated degree object has distinct keys, and every value is a tier. |
| CadetGeneration.MinAtMostMax | modules/client/CadetGeneration.js:57-63 | The sum of ⌊target·factor⌋ is at most the sum of ⌈target·factor⌉. |
| CadetGeneration.CadetCountInRange | modules/client/CadetGeneration.js:65 | For a draw in [0, 1), the count lies between the two sums. |
| CadetGeneration.GetCalculatedCadetCount | modules/client/CadetGeneration.js:56-66 | The accumulator loop returns ⌊draw·(max − min + 1)⌋ + min. That count lies in [min, max]. |
| CadetGeneration.NextCadet | modules/client/CadetGeneration.js:13-23 | A cadet is made from draws in this order: preferences, then one degree draw per preference, then percentile, then USAFA (`DrawnCadet`). Its preferences are the first complete six-choice ranking. Through the five-argument call, its "preferences" field holds `Cadet i+1`, the next field holds the preferences, and the next holds the percentile text. Its last field is true exactly when the USAFA draw is < 0.5. |
| CadetGeneration.GeneratedPreferencesRanked | modules/client/CadetGeneration.js:29-42 | With a positive total weight, a generated cadet's preferences are six entries with distinct keys, ranked 1 to 6 in order (`SixRanked`). |
| CadetGeneration.GeneratedPreferencesPositive | modules/client/CadetGeneration.js:29-42 | With non-negative weights and a positive total, every preference names an AFSC of positive weight. |
| CadetGeneration.DrawnCadetsGrow | modules/client/CadetGeneration.js:10-24 | A cadet built from where the previous one stopped extends the list of cadets built in turn from the draws. |
| CadetGeneration.DrawnCadetsNamed | modules/client/CadetGeneration.js:18 | Cadet k of such a list is named "Cadet k+1". |
| CadetGeneration.DrawnCadetsRanked | modules/client/CadetGeneration.js:12-24 | With a positive total weight, every cadet of such a list has six distinct preferences ranked 1 to 6. |
| CadetGeneration.GenerateCadets | modules/client/CadetGeneration.js:5-26 | The `i <= numCadets` loop makes numCadets + 1 cadets, named "Cadet 1" onward in order. Cadet i is the one `NextCadet` builds from the draws where cadet i−1 stopped (`DrawnCadets`). With a positive total weight, every cadet has six distinct preferences ranked 1 to 6. With no AFSCs, `weightedRandomChoice` fails. |
| CadetGeneration.CadetNamesDistinct | modules/client/CadetGeneration.js:18 | Generated names are pairwise different. |
| SimulationPage.Tally | src/app/assignment-simulation.js:24-34 | The nested counting loop builds the tally function. |
| SimulationPage.TallyCounts | src/app/assignment-simulation.js:24-34 | The count of an AFSC is the number of cadets whose preference object has that key. An AFSC no cadet lists is absent, so every present count is positive. |
| SimulationPage.CadetsWithPositive | src/app/assignment-simulation.js:28-32 | An AFSC has a positive cadet count exactly when some cadet lists it. |
| SimulationPage.TallyTotal | src/app/assignment-simulation.js:25-33 | The counts sum to the number of preference keys over all cadets. |
| SimulationPage.TallyDistinct | src/app/assignment-simulation.js:24-34 | Each AFSC appears once in the tally. |
| SimulationPage.InsertByCountPermutes | src/app/assignment-simulation.js:36-37 | An insertion step adds exactly its entry. |
| SimulationPage.InsertByCountSorted | src/app/assignment-simulation.js:36-37 | An insertion step keeps the counts non-increasing. |
| SimulationPage.SortByCountSorted | src/app/assignment-simulation.js:36-37 | The sorted entries are a permutation of the tally, with counts non-increasing. |
| SimulationPage.SortByCountDistinct | src/app/assignment-simulation.js:36-37 | Sorting keeps the keys distinct. |
| SimulationPage.NoCadetsNoCounts | src/app/assignment-simulation.js:5-22 | With no cadets, the tally is skipped and `preferenceCount` stays `{}`. |
| SimulationPage.PreferenceCountShown | src/app/assignment-simulation.js:36-42 | After `Object.fromEntries`, every AFSC reads the number of cadets listing it, or is absent. When no preference key is integer-like, the entries are in non-increasing count order. |
| SimulationPage.KeyBy | src/app/assignment-simulation.js:53-60 | The keying loop builds the keyed object. |
| SimulationPage.KeyedByGet | src/app/assignment-simulation.js:55-60 | A key reads the last record with that name or code, so a later duplicate overwrites an earlier one. |
| SimulationPage.LastWithIndex | src/app/assignment-simulation.js:55-60 | The record a key reads has that key, and no later record does. |
| SimulationPage.KeyedByDistinct | src/app/assignment-simulation.js:53-60 | The keyed object has distinct keys, as the LP builder requires. |
| SimulationPage.RunSimulation | src/app/assignment-simulation.js:45-64 | Nothing happens while the solver instance is absent. Otherwise cadets are keyed by name and AFSCs by code, and the penalty is −50000. |
| Pagination.Slice | src/app/cadet-editor.js:104 | `slice(start, end)` has the clamped length. Element `k` is element `start + k` of the list. |
| Pagination.PageSlice | src/app/cadet-editor.js:102-104 | A page has at most 15 rows. Row `k` is element (page−1)·15 + k. The page ends at min(page·15, n). |
| Pagination.TotalPages | src/app/cadet-editor.js:106 | ⌈n/15⌉ is the least page count whose pages hold n rows. |
| Pagination.PageNonEmptyIff | src/app/cadet-editor.js:102-106 | A page has rows exactly when its number is at most `totalPages`. |
| Pagination.PagesArePrefix | src/app/afsc-editor.js:90-94 | Pages 1..c, concatenated, are the first min(15·c, n) elements. |
| Pagination.AllPagesCoverList | src/app/afsc-editor.js:90-94 | Pages 1..`totalPages`, concatenated, give back the whole list. |
| Pagination.RowPositionShown | src/app/afsc-editor.js:57 | `startIndex + index` is in range and is the element that row shows. |
| Pagination.PageSliceUpdateShown | src/app/afsc-editor.js:57 | Replacing the element at `startIndex + index` changes that row of the page and no other. |
| Pagination.PageSliceUpdateEarlier | src/app/cadet-editor.js:193 | Replacing an element before the page's start leaves the page unchanged. |
| CadetEditor.PrefReorder | src/app/cadet-editor.js:33-36 | The `forEach` builds the inverted preference object. |
| CadetEditor.ReorderGet | src/app/cadet-editor.js:33-36 | A rank reads the last AFSC holding that rank. |
| CadetEditor.RankedAsIndex | src/app/cadet-editor.js:34-35 | The AFSC read for a rank is that of the last entry with that rank. |
| CadetEditor.ExportedRank | src/app/cadet-editor.js:38-45 | Column `p<k>` is the AFSC whose rank is k. When two AFSCs share a rank, the later key wins. |
| CadetEditor.ExportedRankMissing | src/app/cadet-editor.js:40-45 | Column `p<k>` is "" when no AFSC has rank k. |
| CadetEditor.KeysWithTierIff | src/app/cadet-editor.js:48-56 | A degree key is listed in a tier's column exactly when its entry has that tier. |
| CadetEditor.ExportedDegrees | src/app/cadet-editor.js:48-56 | A degree column splits back on "\|" into the keys of that tier, in object order, when no key contains "\|". |
| CadetEditor.ExportCadets | src/app/cadet-editor.js:31-58 | There is one export row per cadet, in order. |
| CadetEditor.AddCadet | src/app/cadet-editor.js:68-86 | The list gains one blank cadet at the end. The cadets before it are unchanged. |
| CadetEditor.BlankCadetExport | src/app/cadet-editor.js:68-84 | A blank cadet exports with empty name, rank and degree columns, percentile 0, and origin "FALSE". |
| CadetEditor.DeleteCadet | src/app/cadet-editor.js:95-99 | `splice(index, 1)` removes exactly element `index` and keeps the rest in order. An index past the end removes nothing. |
| CadetEditor.DeletedIsGone | src/app/cadet-editor.js:96-97 | After the delete, the deleted cadet is absent from a list of distinct cadets. |
| CadetEditor.DeleteRowAsWrittenMissesRow | src/app/cadet-editor.js:290 | The delete button passes the row's page position. On any page after the first, with distinct cadets, it deletes the cadet at list position `index`, which is on an earlier page, and keeps the one shown. |
| CadetEditor.DeleteRowRemovesShownCadet | src/app/cadet-editor.js:95-104 | With the page offset, the delete removes exactly the cadet the row shows. |
| CadetEditor.SetName | src/app/cadet-editor.js:204-207 | Only the name of element `index` changes. |
| CadetEditor.SetPercentile | src/app/cadet-editor.js:237-240 | Only the percentile of element `index` changes. |
| CadetEditor.SetFromUsafa | src/app/cadet-editor.js:250-253 | Only the USAFA flag of element `index` changes. |
| CadetEditor.SetPreferences | src/app/cadet-editor.js:217-228 | Only the preferences of element `index` change, to the parse of the typed text. |
| CadetEditor.ParsePreferences | src/app/cadet-editor.js:219-226 | The `forEach` builds the parsed preference object. |
| CadetEditor.RankedItemsGet | src/app/cadet-editor.js:223-226 | After the first `n` items, a key reads the rank of its last occurrence among them. |
| CadetEditor.RankOfLastIndex | src/app/cadet-editor.js:223-226 | A key's rank is 1 + the position of its last occurrence, or none. |
| CadetEditor.ParsedPreferencesSize | src/app/cadet-editor.js:219-226 | A parse has at most 6 keys, and they are distinct. |
| CadetEditor.ParsedPreferencesGet | src/app/cadet-editor.js:219-226 | Among the first six trimmed items, a key gets 1 + the position of its last occurrence. Later items are ignored, and ranks may have gaps. |
| CadetEditor.ParsedPreferencesTrimmed | src/app/cadet-editor.js:221 | Every parsed key is trimmed. |
| CadetEditor.PreferencesRoundTrip | src/app/cadet-editor.js:216-226 | Parsing the ", "-joined display gives back the same object. This holds for one to six distinct, trimmed, comma-free keys, none of them integer-like, ranked 1..n in order. |
| CadetEditor.ItemsOfJoin | src/app/cadet-editor.js:216-221 | Splitting the ", "-joined keys on "," and trimming gives back the keys. |
| CadetEditor.TierChoice | src/app/cadet-editor.js:277-280 | The tier test always passes, so the typed value is stored verbatim. |
| CadetEditor.NonEmpty | src/app/cadet-editor.js:272 | The filter keeps exactly the non-empty items. |
| CadetEditor.ParseDegrees | src/app/cadet-editor.js:269-282 | The `forEach` builds the parsed degree object. |
| CadetEditor.DegreesFromGet | src/app/cadet-editor.js:274-281 | A key reads the value of its last item. An item without a key or a value leaves no entry. |
| CadetEditor.DegreeTexts | src/app/cadet-editor.js:261-263 | The display shows one `key: value` item per degree, in order. |
| CadetEditor.DegreeEntryOfText | src/app/cadet-editor.js:275-281 | A displayed `key: value` item parses back to its entry. |
| CadetEditor.DegreesRoundTrip | src/app/cadet-editor.js:261-282 | Parsing the displayed degree text gives back the same object. This holds for distinct keys and values with no separators and no surrounding spaces. |
| CadetEditor.EmptyDegreesText | src/app/cadet-editor.js:261-272 | The empty degree object's display parses back to the empty object. |
| CadetEditor.SetDegrees | src/app/cadet-editor.js:266-285 | Only the degrees of element `index` change, to the parse of the typed text. |
| CadetEditor.CellEditsAsWrittenMissRow | src/app/cadet-editor.js:193-283 | The cells get the row's page position as `index`. On any page after the first, the name, preferences, percentile, USAFA and degree cells each edit the cadet at list position `index`, and the page shows exactly the rows it showed before. |
| CadetEditor.CellEditsChangeShownCadet | src/app/cadet-editor.js:193-283 | With the page offset, each cell's edit shows on its own row: the page is unchanged except for that field of that row. |
| AfscEditor.Sanitized | src/app/afsc-editor.js:53-55 | NaN becomes 0 for every key except "afsc". Any other value is kept. |
| AfscEditor.NestedKeySplits | src/app/afsc-editor.js:59-65 | A key contains "." exactly when it is a bound cell's key, so only those take the nested branch. There it splits into the parent and child keys. |
| AfscEditor.AssignReadsBack | src/app/afsc-editor.js:59-66 | After the write, the field reads the new value and every other field is unchanged. |
| AfscEditor.AssignShownValue | src/app/afsc-editor.js:59-66 | Writing a field's own value changes nothing. |
| AfscEditor.UpdateChangesShownCell | src/app/afsc-editor.js:52-68 | Only element `startIndex + index` changes, and only the one field: nested child `c` of `p` for a key "p.c", otherwise the top-level key. That row is the one shown. The field reads the value, or 0 for NaN. |
| AfscEditor.DeleteAfscSplices | src/app/afsc-editor.js:70-73 | The filter removes exactly element `index` and keeps the rest in order. An index past the end removes nothing. |
| AfscEditor.DeleteAfscRemoves | src/app/afsc-editor.js:71 | The deleted AFSC is gone and every other one remains. |
| AfscEditor.DeleteRowAsWrittenMissesRow | src/app/afsc-editor.js:263 | The delete button passes the row's page position. On any page after the first, with distinct AFSCs, it deletes the AFSC at list position `index`, which is on an earlier page, and keeps the one shown. |
| AfscEditor.DeleteRowRemovesShownAfsc | src/app/afsc-editor.js:70-94 | With the page offset, the delete removes exactly the AFSC the row shows and keeps every other one. |
| AfscEditor.DefaultAfsc | src/app/afsc-editor.js:77-85 | The default record: code "newafsc", target 0, factor 1, every bound {0, 1}, weight 0. |
| AfscEditor.AddAfsc | src/app/afsc-editor.js:76-87 | The default record is appended at the end. The AFSCs before it are unchanged. |
| AfscEditor.ExportAfscs | src/app/afsc-editor.js:29-41 | There is one flat record per AFSC, in order, with the ten named columns. |
| AfscEditor.ExportImportRoundTrip | src/app/afsc-editor.js:30-41 | Importing an exported AFSC with `AFSC.fromCSV` gives back every field except the weight, which becomes 0. This assumes number rendering that parses back. |
| AfscEditor.ImportOfEntries | modules/models/Afsc.js:14-21 | A row holding exactly the exported columns has every column `fromCSV` reads, and imports as the AFSC with weight 0. |

## Left out

- **The GLPK solver.** `Solve`, and the asynchronous `GLPK()` load on the simulation page, call into a foreign library. `DisplayResults` takes the solver's variable map as its input. The page is modelled by a flag saying whether the instance has loaded. The instance passed as a fourth constructor argument is ignored by the source, and is left out.
- **I/O and tooling.** React rendering and state hooks, `FileReader`, the XLSX read and write calls, and console output are not modelled. Each handler returns the new list instead of calling `setCadets`/`setAfscs`. Export stops at the row records handed to the sheet writer.
- **Aliasing.** The handlers copy an array shallowly, then write into an element, so the previous state's objects are mutated as well. The model builds new values. The degree cell never calls `setCadets`: its change is visible only through that aliasing, which the model does not capture.
- **`Math.random()`.** It is a finite stream of draws. Where the source would loop for ever, or run past the stream's end, the model reports `OutOfDraws`. `FewPositiveWeightsNeverFinish` states when more draws cannot help.
- **Number parsing and formatting.** `parseInt`, `parseFloat`, `toFixed(3)` and the sheet's number rendering are function parameters. Numbers are reals: there are no IEEE doubles, so no NaN outside `updateAFSCValue`, and no `|| 0` fallback for NaN weights.
- **Editor percentile.** The percentile cell stores the input's text in the source. The model stores a number.
- **Key order of integer-like keys.** JavaScript objects list integer-like keys first, in numeric order. The model keeps insertion order for every key. `CadetEditor.PreferencesRoundTrip` therefore requires that no AFSC key be integer-like (`Dicts.IntegerLike`), and `SimulationPage.PreferenceCountShown` promises descending order only under the same condition. With such a key the source lists it first, so the shown text, and with it the ranks parsed back, can come out in another order.
- **`Array.prototype.sort`.** The sort step is modelled as a stable insertion sort by descending count. The comparator fixes only the count order.
- **`Cadet.fromCSV`.** It does not exist. Importing cadets is modelled as an error whenever a data row reaches it.
- SimulationPage.PreferenceCountShown: promises descending order only when no preference key is integer-like (`Dicts.IntegerLike`). `Object.fromEntries` (src/app/assignment-simulation.js:40) and `Object.entries` (line 99) list such keys first, in numeric order. The blank cadet of `addCadet` has the keys "1".."6", so once one is present the shown order is not descending. The model keeps insertion order for every key and does not represent this.
- AfscModel.FromCsv: requires the record to hold every column it reads, as under `ImportCsv.ImportAfscs` below. For a missing column the source stores `undefined`, or NaN after `parseInt`/`parseFloat`.
- ImportCsv.ImportAfscs: requires the header row to name every column `fromCSV` reads. When a column is missing, the source reads `undefined` and gets NaN fields, which the model does not represent.
- CsvParse.Records: excludes input with no non-blank line. The source throws there, reading `rows[0]`.
- AfscEditor.UpdateChangesShownCell: requires the edited row to be on the current page, as every table cell is. It also requires the value to have the field's type: text for the code, a number otherwise.
- CadetEditor.SetName: `index` is a list position. The source passes the row's page position, so past page 1 it edits another cadet (see Findings, `CadetEditor.CellEditsAsWrittenMissRow`).
- CadetEditor.SetPercentile: `index` is a list position. The source passes the row's page position, so past page 1 it edits another cadet (see Findings, `CadetEditor.CellEditsAsWrittenMissRow`).
- CadetEditor.SetFromUsafa: `index` is a list position. The source passes the row's page position, so past page 1 it edits another cadet (see Findings, `CadetEditor.CellEditsAsWrittenMissRow`).
- CadetEditor.SetPreferences: `index` is a list position. The source passes the row's page position, so past page 1 it edits another cadet (see Findings, `CadetEditor.CellEditsAsWrittenMissRow`).
- CadetEditor.SetDegrees: `index` is a list position. The source passes the row's page position, so past page 1 it edits another cadet (see Findings, `CadetEditor.CellEditsAsWrittenMissRow`).
- AssignmentSimulation.CadetAssignment.constructor: models the evidently intended builder. As written, `new CadetAssignment(...)` throws on every input. The constructor calls `InitializeLP`, which calls `forEach` (modules/client/AssignmentSimulation.js:62) on the plain keyed object that the simulation page builds (src/app/assignment-simulation.js:53-62), and plain objects have no `forEach`. The class is also not exported, although the page imports it (src/app/assignment-simulation.js:2).
- AssignmentSimulation.CadetAssignment.InitializeLP: models the intended builder. As written it throws a `TypeError` at its first `this.cadetData.forEach`, so the source never produces a linear program.
- AssignmentSimulation.CadetAssignment.GetUtility: models the intended utility. As written, the `wc` and `rc` it reads are undeclared (modules/client/AssignmentSimulation.js:25-31), so past the `forEach` it would throw a `ReferenceError`.
- AssignmentSimulation.CadetAssignment.AddConstraints: models the intended constraints. As written, it reads `this.targets[afsc]` (modules/client/AssignmentSimulation.js:104) and the other fields that the constructor never sets, so it would throw a `TypeError`.
- **Out of scope.** `CreateAFSCBasedCadets`, the file-upload handlers, the page and layout shells, and the `TestSimulation.js` fixture are not part of this model.

## Findings

| source | as written | input that shows it | evidently intended | confidence | as-written member | corrected member |
|---|---|---|---|---|---|---|
| src/app/cadet-editor.js:290 | The delete button calls `deleteCadet(index)` with the row's position on the current page. | 16 cadets, page 2, row 0: the sixteenth cadet is shown, but the first cadet is deleted. | Delete element `(page − 1)·15 + index`, the cadet the row shows. | not executed | CadetEditor.DeleteRowAsWrittenMissesRow | CadetEditor.DeleteRowRemovesShownCadet |
| src/app/afsc-editor.js:263 | The delete button calls `deleteAFSC(index)` with the page position. `updateAFSCValue` adds `startIndex` (line 57), but `deleteAFSC` does not offset `index` (line 71). | 16 AFSCs, page 2, row 0: the sixteenth AFSC is shown, but the first AFSC is deleted. | Delete element `startIndex + index`. | not executed | AfscEditor.DeleteRowAsWrittenMissesRow | AfscEditor.DeleteRowRemovesShownAfsc |
| src/app/cadet-editor.js:206 | The name, preferences, percentile, USAFA and degree cells (lines 206, 227, 239, 252, 283) write `newCadets[index]` with the row's position on the current page. | 16 cadets, page 2, row 0: typing a name in the row that shows the sixteenth cadet renames the first cadet, and the row still shows the old name. | Write element `(page − 1)·15 + index`, the cadet the row shows. | not executed | CadetEditor.CellEditsAsWrittenMissRow | CadetEditor.CellEditsChangeShownCadet |

Other behaviour the model keeps as written, with a lemma stating it:

- The degree tier test always passes (`CadetEditor.TierChoice`).
- `GenerateCadets` makes one cadet too many (`CadetGeneration.GenerateCadets`).
- The five-argument `Cadet` call shifts every field (`CadetModel.FiveArgumentCallShiftsFields`).
- Generated degrees are keyed by index strings (`CadetGeneration.GenerateDegrees`).
- The generator's six-choice loop cannot end when fewer than six AFSCs have positive weight (`CadetGeneration.FewPositiveWeightsNeverFinish`).
