# Verification of the ETL worker and its human review

The platform finds anomalies in a table, one record per column and kind, waits until a human has
decided on each, applies the decisions to the table, and writes it out. This project models four parts
of it and proves what they are for:

* **Decision application** (`Decisions`, `DecisionProperties`, `LastWriter`, `DecisionOutcome`, `DecisionOrder`,
  `MainDecision`, `Records`, `Corrections`, `TreeWrites`, `Review`, `DuplicateReview`, `DateRepair`, `DateRule`,
  `DateOrder`, and the detector/finder pairs `OutlierDetection`, `SequenceGap` with `SequenceRule`, `Duplicates`,
  `Inconsistent`). The detector counts the affected rows; much later the decision loop finds them again in a
  snapshot, edits column lists in place, strips text and repairs date order.
* **The correction language** (`IR`, `IRValidator`, `IRExecutor`, `IRRefinement`, `IRSentinels`,
  `TreeSuccess`, `IRSoundness`, `TreeReads`, and, for what its parts mean, `Conditions`, `ValueMeaning`,
  `AggregateMeaning`, `AggregateFill`). The API validates a small tree; the worker interprets it over a set of rows.
* **The review protocol** (`Store`, `Protocol`, `StaleDecisions`, `Requests`, `Waiting`, `SubmitDecisions`,
  `SaveAiSuggestions`, `JobRun`). API, webhook and worker share two tables without locks between a read
  and the write that follows it.
* **Two smaller stateful cores**: label encoding (`LabelEncoding`, `Transformer`) and the registry of
  server-sent-event connections (`Events`).

Code that changes things in place is modelled as methods over arrays, classes and reassigned frames, each
proved equal to a specification function; the theorems are about those functions, and say what they compute in
other terms: ranks, remainders of texts, running totals, tables of cases. Numbers are exact: a
float is a real, the z-score test is a squared comparison, 1.5 * IQR is computed on doubled values. Python's
and Polars' own string, parsing, rounding and mode functions are parameters, so every result holds for all
of them. The strict Polars column constructor is modelled as "every value fits, or a null, or an integer in
a float column".

## What the code does that its documentation does not say

* The header of the processing use case says that DISCARDED drops rows, and the language has DELETE_ROWS.
  No decision and no tree ever deletes a row (`Decisions.ApplyDecisions`).
* The fallback to text is there for Categorical columns. A correction that does not parse also turns a
  number, date or Boolean column into text when the corrected rows are all the rows that hold a value
  (`DecisionOutcome.UncastableWrite`). Approving the "null" that is suggested for an empty date column does
  so (`Review.ApprovedMissingDate`).
* A kept DUPLICATE decision on a column that is not text raises an exception nobody catches, which fails
  the job (`DuplicateReview.TypedDuplicatesRaise`, `DecisionOutcome.ApplyRaisesExactly`).
* With no decision at all the closing strip and the date repair are skipped, so discarding everything is not
  the same as deciding nothing (`DecisionOutcome.DiscardingAllExactly`).
* DISCARDED does not protect the end date of a DATE_LOGICAL anomaly: the closing repair overwrites it
  (`DecisionOutcome.DiscardedDateIsLost`).
* The closing strip can make new duplicates of values that a DUPLICATE decision had told apart
  (`DuplicateReview.ReturnedDuplicates`).
* A row told to KEEP or to be deleted is left alone only if the tree says so for all affected rows. In a mixed
  CONDITIONAL it becomes null, and a TRANSFORM above turns that null into a value (`IRSentinels.WritesExactly`).
* An accepted tree can raise an error outside the executor's own (`IRSoundness.ContainedExactly`).
* A SEQUENCE_GAP record of holes has a positive count and touches no row (`SequenceGap.DetectorMatchesFinder`).
* Date rules that chain undo each other: a list in which a rule moves the start of an earlier one leaves some
  frame with a broken rule (`DateOrder.OrderExactly`, `DateRepair.ChainBreaksExactly`).
* A late webhook save can put a resolved anomaly back to PENDING (`Protocol.StaleSaveReopens`). No decision
  disappears, but what it says can be lost: when a user decides anew while a webhook request holds the anomaly
  with its earlier decision, the webhook's save puts the withdrawn decision back, the anomaly stays RESOLVED,
  and the worker applies it (`StaleDecisions.WithdrawnDecisionReturns`). Such a save also takes back a suggestion
  that was stored since the read (`Protocol.SuggestionChangesExactly`).
* A submission that is refused has already stored the decisions before the refused one
  (`SubmitDecisions.SubmitStoresTheLeading`). A repeated decision keeps the id of the first, while the reply
  names a new one (`SubmitDecisions.SubmitSettles`).
* PROCESSING after a review reads back as AWAITING_REVIEW (`JobRun.ReadBackExactly`).
* A column named twice for label encoding reports a map from which its text cannot be recovered
  (`LabelEncoding.RoundTripExactly`).

## Model

| member | source | states |
|---|---|---|
| Decisions.EditColumn | worker/src/application/use_cases/process_dataset.py:1669-1711 | the in-place edit of one column's list, with every fallback, equals the specification of the effect |
| Decisions.StoreFill | worker/src/application/use_cases/process_dataset.py:1727-1759 | writing a tree's result: scalar broadcast, one value per row, or nothing; a type mismatch leaves the column; which row holds which value is `Rows.OverwrittenAt` and `TreeWrites.TreeColumnExactly` |
| Decisions.DecideStep | worker/src/application/use_cases/process_dataset.py:1653-1811 | one turn of the loop on one column, tree or no tree, equals its specification; what the human's answer puts where is `Corrections.ChosenArrives` |
| Decisions.DecideLoop | worker/src/application/use_cases/process_dataset.py:1652-1811 | the whole loop, which reassigns the frame turn by turn and stops at an uncaught exception, equals the fold of the turns |
| Decisions.ApplyDecisions | worker/src/application/use_cases/process_dataset.py:1296-1892 | maps, loop, closing strip and date repair together; every row, the row order and every column name survive any decisions, deletions included |
| DecisionProperties.ColumnIsItsSteps | worker/src/application/use_cases/process_dataset.py:1652-1811 | a column is edited from its own cells and the snapshot's rows alone, whatever happens to the other columns in between |
| DecisionProperties.RaiseHasColumn | worker/src/application/use_cases/process_dataset.py:1652-1811 | a run without trees that raises does so on the steps of one column |
| LastWriter.StepIsCellwise | worker/src/application/use_cases/process_dataset.py:1669-1811 | one effect on any column, seen cell by cell: exactly the found rows change; a text edit or an unparsable value leaves a typed column, turns it into text when nothing but text is left, or, for a mark, raises |
| LastWriter.StepsAreLastWriter | worker/src/application/use_cases/process_dataset.py:1652-1811 | for every column and every list of effects: the final cell is the value of the last one that takes hold on its row, with trimming and marking reading what they find; the first step that leaves the column's type raises or starts a text column, on which the same rule goes on |
| LastWriter.LastWriteWins | worker/src/application/use_cases/process_dataset.py:1652-1811 | the last value or null that takes hold on a row and that nothing reaches later is what the row holds, whatever came before |
| DecisionOutcome.LoopIsLastWriter | worker/src/application/use_cases/process_dataset.py:1652-1811 | a column whose decisions run no tree is its last-writer column, also when other columns' decisions run trees |
| DecisionOutcome.ApplyIsLastWriter | worker/src/application/use_cases/process_dataset.py:1296-1892 | a run in which no decision runs a tree, on any frame, exactly: None if the rule fails on some column, else the date repair of the frame of stripped last-writer columns |
| DecisionOutcome.ApplyRaisesExactly | worker/src/application/use_cases/process_dataset.py:1669-1681 | a run in which no decision runs a tree raises if and only if, on some column, a DUPLICATE decision marks a value while a value that is no text stays |
| DecisionOutcome.ApplyRaises | worker/src/application/use_cases/process_dataset.py:1669-1725 | any run, trees included, raises if and only if some decision, on the frame the earlier ones leave, marks a value beside one that is no text, or runs a tree that raises a malformed-document or cast error on the rows it found |
| DecisionOutcome.UncastableWrite | worker/src/application/use_cases/process_dataset.py:1761-1811 | a value that does not parse leaves a typed column alone if and only if some other row keeps a value; otherwise the column turns into text holding that value and nulls |
| DecisionOutcome.LoopKeepsRow | worker/src/application/use_cases/process_dataset.py:1652-1811 | with any decisions, trees included: a row that none of them finds keeps its value, and if it holds one the column keeps its type |
| DecisionOutcome.ApplyKeepsRow | worker/src/application/use_cases/process_dataset.py:1296-1892 | the same for the whole run: such a row is only stripped |
| DecisionOutcome.TypeChangesExactly | worker/src/application/use_cases/process_dataset.py:1669-1811 | with any decisions, trees included, a column changes its type if and only if one of them turns it into text as the earlier ones leave it |
| DecisionOutcome.ApplyMeetsDateRules | worker/src/application/use_cases/process_dataset.py:1825-1884 | after any decisions that turn no date column of a rule into text, every start <= end rule holds at once on the returned frame |
| DecisionOutcome.ApplySwaps | worker/src/application/use_cases/process_dataset.py:1652-1711 | neighbouring decisions on different columns commute, result and failure alike, trees included, unless one of the two trees names the other column |
| DecisionOrder.ApplyInAnyOrder | worker/src/application/use_cases/process_dataset.py:1652-1892 | the whole run gives the same frame, or fails alike, for every reordering of the decisions that keeps the order of those on one column and of a tree and the decisions on a column it names |
| TreeReads.ExecuteIgnores | worker/src/application/ir/executor.py:112-418 | a tree of any depth comes to the same result, errors included, whatever a column holds that is not its own and that it does not name |
| DecisionOutcome.ApplyDropsDiscarded | worker/src/application/use_cases/process_dataset.py:1707-1710 | a DISCARDED decision may be added or removed anywhere while another decision remains |
| DecisionOutcome.AllDiscarded | worker/src/application/use_cases/process_dataset.py:1707-1890 | for any anomalies: when every decision is DISCARDED the returned frame is the date repair of the stripped input, so it is the input if and only if that repair is |
| DecisionOutcome.DiscardingAllExactly | worker/src/application/use_cases/process_dataset.py:1317-1318 | discarding everything equals deciding nothing if and only if no text needs stripping and every date rule holds already |
| DecisionOutcome.DiscardedDateIsMoved | worker/src/application/use_cases/process_dataset.py:1843-1875 | if no other rule ends in the column and no earlier one moves the start, a row that breaks the rule of a DISCARDED DATE_LOGICAL anomaly gets the start plus 6570 days, at midnight in a Datetime column, or null past the last date |
| DecisionOutcome.DiscardedDateIsLost | worker/src/application/use_cases/process_dataset.py:1843-1875 | whatever other rules there are, as long as no earlier one moves the start: on a row that breaks a rule a discarded end date comes back as null or as a day that is not before the start |
| DecisionOutcome.MapOfDistinct | worker/src/application/use_cases/process_dataset.py:1320-1321 | the decision dictionary is the decision list itself when each anomaly has one decision |
| Records.LastAnomalyIsFound | worker/src/application/use_cases/process_dataset.py:1321-1321 | of the anomalies with one id the last is the one that is looked up |
| Records.NothingElseIsFound | worker/src/application/use_cases/process_dataset.py:1321-1321 | an id is found if and only if some anomaly has it |
| Records.LastDecisionCounts | worker/src/application/use_cases/process_dataset.py:1320-1320 | of the decisions for one anomaly the last is the one that is applied |
| Records.DecidedOnce | worker/src/application/use_cases/process_dataset.py:1320-1320 | every anomaly that has decisions is decided once |
| Records.OrderIsFirst | worker/src/application/use_cases/process_dataset.py:1320-1320 | and the order is that of the first decision for each anomaly |
| Records.RulesAreRecords | worker/src/application/use_cases/process_dataset.py:1843-1850 | a date rule exists if and only if some DATE_LOGICAL anomaly names both columns |
| Records.RulesKeepOrder | worker/src/application/use_cases/process_dataset.py:1843-1850 | and the rules come in the order of the anomalies |
| Corrections.ChosenArrives | worker/src/application/use_cases/process_dataset.py:1761-1811 | on the returned frame: a CORRECTED decision without a tree puts the human's text, and an approved one the suggestion, into exactly the found rows of a text column, the number it reads as into a float column, that number cut into an integer column; text that the column cannot hold leaves it alone while another row holds a value, and else makes it a text column |
| Corrections.NothingArrives | worker/src/application/use_cases/process_dataset.py:1707-1710 | a discarded decision, a correction without text or tree, and an approval without suggestion leave every row to the strip |
| Corrections.WhitespaceIsCleared | worker/src/application/use_cases/process_dataset.py:1684-1692 | an approved WHITESPACE_ONLY makes exactly the found rows null, in a column of any type |
| Corrections.FoundRowsAreStripped | worker/src/application/use_cases/process_dataset.py:1695-1705 | in the loop, an approved LEADING_TRAILING_WHITESPACE strips the found rows and no other |
| Corrections.FoundRowsAreMarked | worker/src/application/use_cases/process_dataset.py:1669-1681 | on the returned frame, a kept DUPLICATE decision appends _DUP to exactly the found texts that do not end with it |
| Rows.OverwrittenAt | worker/src/application/use_cases/process_dataset.py:1744-1747 | of the values listed for a row, the last is what the row holds |
| TreeWrites.TreeColumnExactly | worker/src/application/use_cases/process_dataset.py:1712-1759 | a tree that succeeds leaves in each found row what it means for that row, if all its values fit the column, and else the column as it was; one that fails leaves the column, or raises if the document is malformed or a cast fails |
| TreeWrites.TreeReturned | worker/src/application/use_cases/process_dataset.py:1712-1824 | the same on the returned frame, after the strip, with the columns the tree reads as they were unless a decision is about them |
| TreeWrites.CopiedFromColumn | worker/src/application/ir/executor.py:204-214 | FILL_FROM_COLUMN, on the returned frame: each found row holds the source column's cell of its own row |
| Review.FindersStayInside | worker/src/application/use_cases/process_dataset.py:1334-1650 | every row finder returns rows of the snapshot, which is what the loop relies on |
| MainDecision.OneDecision | worker/src/application/use_cases/process_dataset.py:1652-1824 | a decision whose column no other decision writes (they are discarded, have nothing to write, or trim) meets the input column up to what the closing strip removes, and its edit, stripped, is the returned column |
| MainDecision.OneEffect | worker/src/application/use_cases/process_dataset.py:1652-1824 | without a tree: the returned column is its own step on the input column, stripped, so that trims before or after it leave no trace; only for a mark on a text column must nothing trim |
| Review.ApprovedOutlier | worker/src/application/use_cases/process_dataset.py:1786-1811 | finder, loop and strip together: approving OUTLIER on a float column strictly lowers the sum of squared deviations about the new mean, however many other decisions, such as a MISSING_VALUE with the same suggestion, write that mean into other rows or write nothing; exactly those rows change |
| Review.ReturnedNumbers | worker/src/application/use_cases/process_dataset.py:1786-1824 | a float column whose decisions write one number or nothing is returned with that number in the rows they found and with its own values elsewhere |
| Review.ApprovedInconsistent | worker/src/application/use_cases/process_dataset.py:1786-1824 | after an approved INCONSISTENT the finder finds nothing on the returned, stripped frame, also when LEADING_TRAILING_WHITESPACE is approved with it |
| Review.ApprovedMissing | worker/src/application/use_cases/process_dataset.py:1786-1824 | approving MISSING_VALUE on a typed column that holds nothing fills it with the suggestion if that parses, and else returns it as text |
| Review.ApprovedMissingDate | worker/src/application/use_cases/process_dataset.py:1786-1824 | whatever is suggested for an empty date or Boolean column, approving it returns a text column that holds the suggestion, stripped, in every row |
| Review.MarkedDuplicates | worker/src/application/use_cases/process_dataset.py:1669-1681 | after a kept DUPLICATE decision the finder finds nothing on the edited column, before the closing strip |
| DuplicateReview.ReturnedDuplicates | worker/src/application/use_cases/process_dataset.py:1669-1824 | on the returned frame it finds nothing for emails and phones, and for other columns if and only if the strip makes one value of no two |
| DuplicateReview.TypedDuplicatesRaise | worker/src/application/use_cases/process_dataset.py:1360-1395 | with the real finder, a kept DUPLICATE decision on a column that is not text raises if and only if a found value does not print with the mark |
| DuplicateReview.TwoFivesRaise | worker/src/application/use_cases/process_dataset.py:1669-1681 | such a frame: an integer column holding 5 twice |
| Review.CorrectedByMean | worker/src/application/use_cases/process_dataset.py:1712-1759 | a MISSING_VALUE corrected with FILL_AGGREGATE(mean), through validator encoding, executor and loop: no null is left, no value changes, the mean stays |
| OutlierDetection.FindOutlier | worker/src/application/use_cases/process_dataset.py:1337-1358 | the finder's rows for numeric and for date columns |
| OutlierDetection.FlagNumbers | worker/src/application/use_cases/process_dataset.py:1338-1348 | the numeric branch: the two gates, then one squared z-score test per value, finds exactly the flagged rows |
| OutlierDetection.BeyondIsZScore | worker/src/application/use_cases/process_dataset.py:503-504 | the squared comparison used here is the z-score test, for the positive root of the sample variance |
| OutlierDetection.DetectorMatchesFinder | worker/src/application/use_cases/process_dataset.py:493-519 | the count on the anomaly equals the rows the decision touches |
| OutlierDetection.FlaggedBound | worker/src/application/use_cases/process_dataset.py:493-509 | nine times the flagged rows stay below n - 1, so a column of at most ten values never has an outlier |
| OutlierDetection.ElevenValuesCanFlag | worker/src/application/use_cases/process_dataset.py:493-509 | the bound of ten is sharp: eleven values can have one |
| OutlierDetection.ApprovalTightens | worker/src/application/use_cases/process_dataset.py:504-519 | putting the mean into the flagged cells, and into any others, nulls included, strictly lowers the spread about the column's own new mean |
| OutlierDetection.MeanMinimises | worker/src/application/use_cases/process_dataset.py:497-498 | the mean minimises the sum of squared deviations |
| SequenceGap.FindSequenceGap | worker/src/application/use_cases/process_dataset.py:1586-1633 | the two passes of the finder: collect the numbers of the prefix, flag those outside the fence |
| SequenceGap.HullIsFence | worker/src/application/use_cases/process_dataset.py:1221-1246 | on a sorted list, outside the hull of the inliers and outside the raw fence are the same numbers, in the wide and in the p10/p90 case |
| SequenceGap.RowsAreOutOfRange | worker/src/application/use_cases/process_dataset.py:1248-1251 | the rows found are as many as the out-of-range numbers, with multiplicity |
| SequenceGap.DetectorMatchesFinder | worker/src/application/use_cases/process_dataset.py:1248-1290 | a record of out-of-range values touches exactly its count of rows; a record of holes touches none |
| SequenceGap.FewerThanHalf | worker/src/application/use_cases/process_dataset.py:1586-1633 | strictly fewer than half of the rows with the prefix are ever flagged |
| SequenceRule.FlaggedExactly | worker/src/application/use_cases/process_dataset.py:1586-1633 | a row is found if and only if its identifier has the prefix and its number lies more than 1.5 interquartile ranges outside the quartiles, or outside the deciles when the quartiles are equal, quartiles and deciles being told by rank |
| SequenceRule.DetectExactly | worker/src/application/use_cases/process_dataset.py:1180-1290 | the whole record: at least four values, 95% distinct, 80% identifiers, 80% with the dominant prefix; it counts the flagged numbers, or if there is none the numbers missing between the smallest and the largest, or is not written |
| Duplicates.CountKeys | worker/src/application/use_cases/process_dataset.py:1361-1374 | the counting loop yields each normalised key's number of occurrences |
| Duplicates.FindDuplicate | worker/src/application/use_cases/process_dataset.py:1360-1395 | the finder with its counting and collecting loops equals its specification |
| Duplicates.FinderIsExact | worker/src/application/use_cases/process_dataset.py:1376-1395 | when no cell carries the mark yet, the rows are exactly the non-first occurrences, in order |
| Duplicates.DetectorMatchesFinder | worker/src/application/use_cases/process_dataset.py:569-576 | the detector's sum of count - 1 equals the rows found, for every listing order of the counts |
| Duplicates.MarkSurvives | worker/src/application/use_cases/process_dataset.py:1366-1371 | the mark survives each of the three normalisations |
| Duplicates.SecondRunFlagsNothing | worker/src/application/use_cases/process_dataset.py:1669-1676 | finding again on the marked column flags nothing |
| Duplicates.KeysMean | worker/src/application/use_cases/process_dataset.py:1366-1371 | what is compared: emails without the white space around them and case-folded, phones without separators, other texts as they are |
| Inconsistent.SuggestionExists | worker/src/application/use_cases/process_dataset.py:658-692 | when the gates pass, the most frequent value reaches the threshold, so the suggestion is never null |
| Inconsistent.DetectorMatchesFinder | worker/src/application/use_cases/process_dataset.py:669-677 | the rare count equals the rows found |
| Inconsistent.FoundExactly | worker/src/application/use_cases/process_dataset.py:1420-1433 | a row is found if and only if the column has at least ten texts and its own text occurs in fewer than two rows, or in fewer than the whole number in one percent of them |
| Inconsistent.DetectExactly | worker/src/application/use_cases/process_dataset.py:655-672 | a record is written if and only if there are at least ten texts, at most fifteen different ones and fewer than a tenth of them different, and some row holds a rare one |
| Inconsistent.ApprovalSettles | worker/src/application/use_cases/process_dataset.py:1420-1433 | after the overwrite and any later normalisation of the strings the finder returns no row |
| DateRepair.RepairInPlace | worker/src/application/use_cases/process_dataset.py:1855-1875 | the row loop that rewrites the end column's list |
| DateRepair.RebuildColumn | worker/src/application/use_cases/process_dataset.py:1850-1884 | the loop plus the rebuild with the column's type, as dates, or not at all |
| DateRepair.RepairFrame | worker/src/application/use_cases/process_dataset.py:1843-1884 | the loop over the DATE_LOGICAL anomalies |
| DateRule.RuleMeans | worker/src/application/use_cases/process_dataset.py:1843-1884 | one rule, on columns of any type: exactly the ends that read as a day before the start become the start plus 18 years of 365 days, at midnight in a Datetime column, or null after the year 9999; the column is rebuilt with its type, else as dates, else left; no other column changes |
| DateRepair.RepairSatisfiesAll | worker/src/application/use_cases/process_dataset.py:1825-1884 | for any list of rules: if every rule whose start a later rule moves comes again after that, all rules hold at once afterwards |
| DateOrder.OrderExactly | worker/src/application/use_cases/process_dataset.py:970-1000 | for the lists the detector writes, each pair of different columns once: the repair leaves every rule satisfied on every frame of dates if and only if no rule moves the start of an earlier one |
| DateRepair.FixedExactly | worker/src/application/use_cases/process_dataset.py:1843-1884 | for any list of rules, in order or not, the repair changes nothing if and only if all of them hold already |
| DateRepair.RepairIdempotent | worker/src/application/use_cases/process_dataset.py:1843-1884 | a second repair changes nothing |
| DateRepair.OnlyViolatingEndsChange | worker/src/application/use_cases/process_dataset.py:1855-1875 | when no column is both a start and an end, only violating end cells change, and only to a later day or to null |
| DateRepair.ChainBreaksExactly | worker/src/application/use_cases/process_dataset.py:1843-1875 | repairing b <= c before a <= b leaves the first rule broken on a row if and only if b was before a and c, if not before b, less than 6570 days after a |
| IRValidator.AcceptanceExact | api/src/domain/ir/IRValidator.ts:128-326 | acceptance with tree n if and only if the document carries n, n is well typed against the columns, and its height is at most 3 |
| IRValidator.NodeExact | api/src/domain/ir/IRValidator.ts:142-197 | the same at every depth |
| IRValidator.ConditionExact | api/src/domain/ir/IRValidator.ts:330-369 | a condition is accepted if and only if it carries a well-typed condition |
| IRValidator.ValidateIsProjection | api/src/domain/ir/IRValidator.ts:128-140 | an accepted tree, encoded and validated again, gives the identical tree |
| IRValidator.AcceptedIsSmall | api/src/domain/ir/IRValidator.ts:142-150 | an accepted tree has at most 15 nodes |
| IRValidator.MapKeepsLast | api/src/domain/ir/IRValidator.ts:129-129 | of two columns with one name the later type counts |
| IRValidator.MapKnowsColumns | api/src/domain/ir/IRValidator.ts:129-129 | a name is known if and only if some column has it |
| IRExecutor.Executor.RunTransform | worker/src/application/ir/executor.py:232-260 | the appending loop over per-row values, with the first failure, equals its specification |
| IRExecutor.Executor.RunMix | worker/src/application/ir/executor.py:284-305 | the loops that choose a branch per row and replace sentinels equal their specification |
| IRExecutor.Executor.Run | worker/src/application/ir/executor.py:112-145 | the recursive interpreter with those loops equals the specification of execute |
| IRExecutor.Executor.Execute | worker/src/application/ir/executor.py:112-145 | at every depth: never both a scalar and a list, a list has one value per affected row, nothing beside DELETE and KEEP |
| IRRefinement.ExecuteRefines | worker/src/application/ir/executor.py:112-318 | whenever the executor succeeds, the expanded result agrees with a one-row-at-a-time interpreter on every row |
| IRRefinement.WritesRefineRows | worker/src/application/ir/executor.py:284-305 | a row whose own meaning is a fill gets that value; a KEEP or DELETE row stays or becomes null, provided no CONDITIONAL feeds a TRANSFORM |
| IRRefinement.KeepIsOverwritten | worker/src/application/ir/executor.py:248-257 | an instance whose lost value is not null: under upper(if c then KEEP else v) every row told to KEEP is overwritten as soon as one other row is filled |
| IRSentinels.KindIsUniform | worker/src/application/ir/executor.py:284-305 | a result is KEEP, or DELETE, if and only if the tree says so for all affected rows as one |
| IRSentinels.WritesExactly | worker/src/application/ir/executor.py:112-318 | for every tree and row, exactly what is written: the row's own fill; nothing to a KEEP or DELETE row if the tree is uniform; else the null of the lowest mix as the transforms above it make of it |
| TreeSuccess.SucceedsExactly | worker/src/application/ir/executor.py:112-305 | on affected rows the executor comes to a result if and only if the tree is at most three deep, both branches of every conditional come to one, every test can be decided on every row, and every transform works on what its input gives each row |
| Conditions.EvalIsHolds | worker/src/application/ir/executor.py:324-423 | a condition on a row is what its operands and its operator say: order of the numbers they read as, occurrence at the start, at the end or anywhere, equal values, both bounds, null; or the first error |
| Conditions.ConditionMeans | worker/src/application/ir/executor.py:324-378 | the same for a stored condition, told of its operands' values without the document |
| ValueMeaning.LiteralMeans | worker/src/application/ir/executor.py:151-161 | FILL_LITERAL gives the literal as the column has it: cut, as a number, as text, or as it stands |
| ValueMeaning.UnaryMeans | worker/src/application/ir/executor.py:485-494 | floor and ceil bracket the number, abs is its distance from zero, and anything that is no number fails |
| ValueMeaning.ArithmeticMeans | worker/src/application/ir/executor.py:513-541 | add and subtract undo each other, so do multiply and divide; they fail without `by`, on what is no number, and on division by zero, and nowhere else |
| ValueMeaning.TextMeans | worker/src/application/ir/executor.py:497-510 | upper, lower, title and trim act on the text of the value |
| ValueMeaning.ParamsMean | worker/src/application/ir/executor.py:223-223 | the parameters of a stored transform, with none and null as an empty object |
| ValueMeaning.ParamsExactly | worker/src/application/ir/executor.py:223-223 | the same for any document: its object, an empty one for what Python takes for false, or the error that escapes |
| ValueMeaning.RoundMeans | worker/src/application/ir/executor.py:480-482 | round takes the number of decimals, none by default |
| AggregateMeaning.FillAggregateMeans | worker/src/application/ir/executor.py:163-202 | for every function and column, of the column's numbers: the least, the greatest, the middle by rank or half the sum of the two middle ones, the running total, that over their number; cut in an integer column; null without numbers, refused for a column that is not numeric |
| AggregateMeaning.AggregateOperandMeans | worker/src/application/ir/executor.py:399-421 | the same for an aggregate inside a condition, uncut, with the strict cast that fails |
| AggregateMeaning.AggregateIsUnique | worker/src/application/ir/executor.py:187-196 | these descriptions fit one number only |
| AggregateMeaning.MedianHalves | worker/src/application/ir/executor.py:189-190 | at least half of the numbers are not above the median and at least half are not below it |
| AggregateMeaning.CastFailsExactly | worker/src/application/ir/executor.py:406-406 | the strict cast fails if and only if some value counts as no number |
| AggregateMeaning.CastCounts | worker/src/application/ir/executor.py:406-406 | the numbers that are aggregated are what the non-null cells count as, in order, dates in days and date-times in microseconds from 1970 |
| IRSoundness.AcceptedFailsOnDataOnly | worker/src/application/ir/executor.py:125-145 | a tree accepted against the frame's own columns never meets the depth, unknown-name, missing-column or malformed-document errors, on any frame, as submitted and as stored |
| IRSoundness.AcceptedIsCaught | worker/src/application/use_cases/process_dataset.py:1714-1725 | if every aggregate operand's column casts to float, an accepted tree raises only the error the loop catches |
| IRSoundness.ModeTestEscapes | worker/src/application/ir/executor.py:406-420 | an accepted tree that tests the mode of a text column raises an error the loop does not catch |
| IRSoundness.ContainedExactly | worker/src/application/ir/executor.py:406-420 | on affected rows, every accepted tree raises only errors the loop catches if and only if every column with a non-blank name casts to float |
| AggregateFill.FillStaysInRange | worker/src/application/ir/executor.py:163-202 | for mean, median, min and max the value written lies between the column's extremes, also after truncation |
| AggregateFill.MeanIsFixedPoint | worker/src/application/ir/executor.py:185-202 | filling every null of a float column with its mean leaves the mean |
| Store.Anomaly.Resolve | api/src/domain/entities/Anomaly.ts:129-133 | resolving sets status, decision and date and nothing else |
| Store.Anomaly.SetAiSuggestion | api/src/domain/entities/Anomaly.ts:108-111 | a suggestion changes neither status nor decision |
| Store.AnomalyRepository.FindById | api/src/infrastructure/persistence/repositories/PrismaAnomalyRepository.ts:31-40 | a found anomaly is a fresh copy of its row with its stored decision |
| Store.AnomalyRepository.Save | api/src/infrastructure/persistence/repositories/PrismaAnomalyRepository.ts:42-96 | one transaction: upsert of the row's three mutable fields, upsert of the decision |
| Store.SaveEffect | api/src/infrastructure/persistence/repositories/PrismaAnomalyRepository.ts:58-94 | what a save changes: one row, at most one decision, whose id, author and date survive an update |
| Protocol.StepIsSafe | api/src/infrastructure/persistence/repositories/PrismaAnomalyRepository.ts:42-96 | each step of API, webhook and worker keeps the safety invariant; no row and no decision disappears, though what a decision says may change |
| Protocol.RunIsSafe | worker/src/infrastructure/persistence/sqlalchemy_job_repository.py:170-285 | under every interleaving: a RESOLVED row has a stored decision, a RESOLVED copy in flight carries or will find one |
| Protocol.PollCovers | worker/src/infrastructure/persistence/sqlalchemy_job_repository.py:222-255 | once a count of pending anomalies is zero, decisions read at any later moment cover every anomaly the dataset had then |
| Protocol.PendingCopiesAreStale | api/src/application/use-cases/SaveAiSuggestionsUseCase.ts:35-72 | a copy in flight says PENDING if and only if it stems from a read of the pending row and its request has neither read again, resolved nor dropped it since |
| Protocol.ReopenedByStaleCopy | api/src/application/use-cases/SaveAiSuggestionsUseCase.ts:35-72 | a RESOLVED anomaly turns PENDING if and only if a request saves such a copy |
| Protocol.StaleSaveReopens | api/src/application/use-cases/SaveAiSuggestionsUseCase.ts:35-72 | for every anomaly and decision there is such a run: a webhook save reopens it, and the decision stays |
| Protocol.SuggestionChangesExactly | api/src/infrastructure/persistence/repositories/PrismaAnomalyRepository.ts:62-66 | in every run an anomaly's suggestion becomes another if and only if the worker stores one or a request saves a copy that holds another, so a late save takes a suggestion back |
| StaleDecisions.CopiesCarry | api/src/application/use-cases/SaveAiSuggestionsUseCase.ts:35-72 | a copy in flight carries a decision if and only if its request has read or made that decision and has neither read, resolved nor dropped the anomaly since |
| StaleDecisions.ContentChangesExactly | api/src/infrastructure/persistence/repositories/PrismaAnomalyRepository.ts:70-93 | in every run what a stored decision says changes if and only if a request saves such a copy whose decision says something else; it then says what the copy said |
| StaleDecisions.WithdrawnDecisionReturns | api/src/application/use-cases/SaveAiSuggestionsUseCase.ts:35-72 | for every anomaly and any two decisions v and w there is a run: w is stored over v, a webhook save puts v back, nothing is ever pending again, and the worker reads v |
| Waiting.Wait | worker/src/application/use_cases/process_dataset.py:411-423 | the poll loop ends at the first zero count, or times out after exactly ceil(max_wait / interval) polls that all saw something pending |
| Waiting.WaitForDecisions | worker/src/application/use_cases/process_dataset.py:396-427 | a wait that does not time out is followed by decisions for every anomaly the dataset had when it began |
| Requests.SubmissionTurn | api/src/application/use-cases/SubmitDecisionsUseCase.ts:118-169 | an accepted input, uninterrupted, is a sequence of protocol steps with the submission's effect |
| Requests.WebhookTurn | api/src/application/use-cases/SaveAiSuggestionsUseCase.ts:35-72 | so is one stored suggestion |
| SubmitDecisions.SubmitDecisionsUseCase.Execute | api/src/application/use-cases/SubmitDecisionsUseCase.ts:107-203 | the use case: error cases, tables, replies; the job is queued and the dataset marked if and only if every input names a stored anomaly of this dataset and its tree is absent, null or well typed; rows and decisions of other datasets are the same whatever is submitted |
| SubmitDecisions.SubmitDecisionsUseCase.SubmitLoop | api/src/application/use-cases/SubmitDecisionsUseCase.ts:127-176 | the loop over the inputs, with the effects it has had when an input is refused |
| SubmitDecisions.SubmitStoresTheLeading | api/src/application/use-cases/SubmitDecisionsUseCase.ts:127-176 | not one transaction: exactly the inputs before the first bad one are stored, its error is reported, and success holds if and only if all were good against the original tables, good being told of the input and the tables alone |
| SubmitDecisions.CheckExactly | api/src/application/use-cases/SubmitDecisionsUseCase.ts:127-152 | an input passes if and only if it names a stored anomaly of the dataset and its tree is absent, null, or carries a well-typed tree of height at most 3; what is stored is the encoding of that tree |
| SubmitDecisions.OthersUntouched | api/src/application/use-cases/SubmitDecisionsUseCase.ts:134-139 | whatever is submitted and wherever it stops, an anomaly of another dataset, and one that no input names, keeps its row and its decision |
| SubmitDecisions.OnlyTreesAreStored | api/src/application/use-cases/SubmitDecisionsUseCase.ts:143-152 | every stored decision is as it was or holds, for its tree, the encoding of one that a submitted document about it carries |
| SubmitDecisions.SubmitSettles | api/src/application/use-cases/SubmitDecisionsUseCase.ts:154-169 | each named anomaly is RESOLVED with what its last input says, its tree as the encoding of the one it carries, under the identity of the first decision ever stored; the others are untouched |
| SubmitDecisions.SubmitClears | api/src/application/use-cases/SubmitDecisionsUseCase.ts:127-176 | the dataset's pending list loses exactly the named anomalies |
| SaveAiSuggestions.SaveAiSuggestionsUseCase.Execute | api/src/application/use-cases/SaveAiSuggestionsUseCase.ts:28-76 | the webhook's loop with its skips and its count |
| SaveAiSuggestions.SuggestOnly | api/src/application/use-cases/SaveAiSuggestionsUseCase.ts:35-72 | run alone it leaves every status and decision, gives each anomaly its last usable suggestion, as it came if it names a known action and else as the reason of a KEEP, cut to 100 characters; and counts the usable items |
| JobRun.ProcessDatasetRun.Execute | worker/src/application/use_cases/process_dataset.py:173-390 | whatever raises, the status writes are exactly PROCESSING, then AWAITING_REVIEW if a review is reached, then PROCESSING if it ends well, then one terminal status; that is COMPLETED if and only if the output reports success, if and only if nothing the run passes raises; it comes after the upload; failing updates are swallowed |
| JobRun.ProcessDatasetRun.UpdateStatus | worker/src/application/use_cases/process_dataset.py:2042-2060 | a write without repository is nothing, a raising update is skipped in the stored statuses |
| JobRun.ReadBackExactly | worker/src/infrastructure/persistence/sqlalchemy_job_repository.py:45-78 | PENDING reads back as QUEUED, PROCESSING after a review was awaited as AWAITING_REVIEW, and every other status as written |
| LabelEncoding.EncodeCategoricals | worker/src/application/transformations/transformer.py:752-785 | column choice and the encoding loop equal their specification |
| LabelEncoding.MapIsIncreasingBijection | worker/src/application/transformations/transformer.py:770-775 | the reported map numbers exactly the column's values, onto 0 .. k-1, in their order |
| LabelEncoding.ColumnRoundTrip | worker/src/application/transformations/transformer.py:774-785 | decoding an encoded column gives it back, nulls included |
| LabelEncoding.WholeFrameRoundTrip | worker/src/application/transformations/transformer.py:754-804 | encoding the whole frame loses nothing: string columns come back from their maps, the others are untouched |
| LabelEncoding.RoundTripExactly | worker/src/application/transformations/transformer.py:769-785 | with columns named by the caller, decoding recovers a string column if and only if it was named once or holds no value |
| LabelEncoding.OthersStay | worker/src/application/transformations/transformer.py:769-785 | a column that is not named, and the row count, stay |
| Transformer.TransformMany | worker/src/application/transformations/transformer.py:177-208 | the chain's frame is what the handlers before the first failing one make of it, with one result each, heights included |
| Transformer.StopIsUnique | worker/src/application/transformations/transformer.py:194-208 | that description determines the stopping point, the frame and the results |
| Events.EventsController.Emit | api/src/infrastructure/http/controllers/EventsController.ts:27-39 | the loop over a user's connections |
| Events.EventsController.Subscribe | api/src/infrastructure/http/controllers/EventsController.ts:46-65 | without a user nothing is registered; else the connection is appended to the user's list |
| Events.EventsController.Cleanup | api/src/infrastructure/http/controllers/EventsController.ts:68-84 | the first cleanup removes the connection, and the user with its last one; later ones do nothing |
| Events.RegistryIsHistory | api/src/infrastructure/http/controllers/EventsController.ts:18-100 | over every sequence of subscribe, close, timeout, keepalive and emit the map lists exactly the connections that subscribed and have not ended, in subscription order |
| Events.NeverEmpty | api/src/infrastructure/http/controllers/EventsController.ts:74-81 | no user is listed with an empty list |
| Events.CleanupOnce | api/src/infrastructure/http/controllers/EventsController.ts:68-100 | closing and timing out, in either order and any number of times, end a connection once |
| Events.EmitReachesOpen | api/src/infrastructure/http/controllers/EventsController.ts:27-39 | an emit is received once by each open, writable connection of its user and by no other connection |
| Events.EndIsLast | api/src/infrastructure/http/controllers/EventsController.ts:68-100 | over every history a connection hears nothing before it exists, one End, and nothing after it |

## Left out

- Review.ApprovedOutlier: assumes that the suggested text parses back to the exact mean; printing and rounding of floats are not modelled.
- DateRepair.RepairSatisfiesAll: for lists that repeat a rule its condition on the order is sufficient only; lists as the detector writes them have `DateOrder.OrderExactly`, and one frame `DateRepair.FixedExactly`.
- DuplicateReview.ReturnedDuplicates: for columns that are neither emails nor phones it also asks that no stripped value ends like the mark; and the other decisions on the column must write and trim nothing, since a mark keeps what it finds.
- DecisionOrder.ApplyInAnyOrder: a tree and a decision on a column that the tree names keep their order, even where the value it reads happens to stay the same.
- DecisionOutcome.ApplyIsLastWriter: a run with trees is covered column by column (`DecisionOutcome.LoopIsLastWriter`, `MainDecision.OneDecision`), row by row (`DecisionOutcome.LoopKeepsRow`), in its failures (`DecisionOutcome.ApplyRaises`) and by the executor's own theorems.
- Review.ApprovedInconsistent: with a further decision that writes values into the column the counts change, and the finder may find new rare values; `LastWriter.StepsAreLastWriter` gives the cells.
- Floating-point rounding, infinities and NaN, integer widths, and the OverflowError of `int(float("inf"))`.
- Categorical columns and the numeric widths of Polars; there is one integer and one float type.
- The finders and detectors of FORMAT_INVALID, WHITESPACE_ONLY, CROSS_FIELD_SWAP, SUSPICIOUS_PLACEHOLDER, LEADING_TRAILING_WHITESPACE, DATE_LOGICAL, NUMERIC_ROUND_NUMBER, LOW_VARIANCE and OUTLIER_IQR: they are arbitrary functions of the snapshot here, since the two sides use different predicates or regular expressions.
- The column-name gates of the DUPLICATE detector and the fill suggestions of MISSING_VALUE: name keywords and value counts only.
- Unicode normalisation: strip removes the same white space for Python and Polars here, and lower-casing works character by character.
- A poll interval of zero, with which the wait never times out; cancellation of the worker's task, after which no terminal status is written.
- Failing database, queue and storage calls inside the API's use cases; deletion of datasets, which cascades to anomalies and decisions.
- The cast of the label codes to 32 bits, one-hot encoding, and the other transformation handlers.
- A keepalive or timeout write that raises; only the writes of an emit are caught by the code.
- Gemini, n8n, the dashboard push, prompt building, the natural-language rules, HTTP routing, authentication, MinIO, file parsing and serialisation: foreign calls and text.
