# Cantero: verified models of its calculations and screens

A Dafny project that models the parts of Cantero that compute: the stock ledger and its costing, estimate pricing,
task scheduling, the drawing-set review, plural rules, and several small screen algorithms. Check it with
`dafny verify dfyconfig.toml`.

One module per source component:

- `StockLedger`: `recordStock`, an append-only movement log beside one cached level row per (warehouse, material). The
  rows refine a replay of the log; the average stays in range; the rounding drift is bounded over whole runs.
- `InventoryCosting`: the API's own weighted average, compared with the seed's, and first-in-first-out consumption.
- `CriticalPath`: Kahn's order and the backward pass over a task network with four dependency types, against
  feasible plans.
- `ProjectSlack`: what the slack and the critical flag it reports mean for the project's finish, read off the chains
  and paths of dependencies.
- `EstimatePricing`: staged rounding of lines and totals, tax-inclusive deposits and draws.
- `DrawingSetReview`: the review screen as a state machine over responses and edits in any order; the import guard
  and the server's check of what it posts.
- `PluralRules`: the mobile fill-in, against CLDR clauses in the condition language of UTS #35 Part 3, section 5.1.
- `RevisionDiff`, `TagEditor`, `TaskAdvance`, `CrossRates`, `AuditLog`, `GpsRoute`: comparison as a patch, tag round
  trip, optimistic updates, cross rates, cursor paging, route plot and ping throttle.
- `Rounding`, `Text`, `Common`: `Math.round` on exact rationals, `trim`, and small vocabulary.

## How the source is represented

Money is integer cents, unit costs and stock quantities integer ten-thousandths (the scale of their columns), plural
operands integer thousandths, plotted coordinates integer tenths; other amounts are exact reals. `Math.round` and
`toFixed` round to the nearest, halves upwards. `null`, `undefined` and NaN are `None`. Objects that the source
updates are classes whose methods are proved against a step function on values; the run theorems are about that
function. An asynchronous operation is one step up to its await and one step when the answer arrives, and the
environment chooses the order; the responses of upload, open, poll and import all reach `show` and are one kind of
event. Ids of tasks and log entries are database keys, so lemmas take them as distinct. Upper-casing and lower-casing are parameters. In `TaskAdvance`, the serial of a
submission names the closure a rejection rolls back, and the list of taps records the status each request asked for;
the server's view is, for each task, what the last request not rejected asked for, in the order of the taps.

## Where the code and its promises part

Each of these is a lemma with the exact condition or a concrete input.

- An overdrawn stock row lets the average leave the range of the costs received (`BlendInRangeIff`,
  `BlendBetweenIff`, `OverdrawnAverageEscapes`). A receipt that leaves none of it above zero re-prices it, by
  more than rounding allows (`ReceiptWithinIff`, `UncoveredReceiptError`, `OverdrawnDrift`).
- The seeded ledger and the API's engine average the same receipt differently on overdrawn stock, and on stock without
  an average (`SeedBlendsLikeEngineIff`, `OverdrawnBlendsDiffer`).
- First-in-first-out cost is rounded per issue, so issuing in two goes can cost a grid step more or less than
  issuing at once (`TwoIssueCosts`, `SplitIssueCostsMore`, `SplitIssueCostsLess`).
- Slack is documented as not pushing the project's finish. A task with successors is never compared with that finish,
  so start-to-start and start-to-finish links and negative lags can give it slack past the end
  (`LateFinishesAsDocumentedIff`, `StartLinkOutrunsProject`). Task by task, the slack or the flag can mislead even
  where the late finish is within the project (`SlackAsDocumentedIff`, `FlagAsDocumentedIff`, `WithinProjectNotEnough`).
- The review rows are documented as built only when a set first becomes reviewable. A failed import rebuilds them and
  drops the edits (`FailedImportDropsEdits`). A late "imported" response of one set, or the late answer to its
  discarding, clears another (`LateImportClearsOtherSet`, `LateDiscardClearsOtherSet`). `KeepsEditsIff` says which
  runs leave edits alone.
- Overlapping status taps: rolling one back can take standing ones off the screen (`RejectionExactIff`,
  `OverlapLosesAdvance`); of several taps on one task, rejecting one before the last does so unless those from it on
  come in threes (`RepeatedTapsIff`).
- English ordinals are chosen without the rounding to thousandths that the comment on operands describes
  (`OrdinalMatchesCldrIff`, `OrdinalNotRounded`); ordinals of other languages are always `other`, which CLDR's
  Ukrainian ones are not (`OtherOrdinalsMatchCldrIff`, `UkrainianThird`).
- Comparison rows account for the whole difference of two estimates only if as much is dropped (repeated codes,
  unknown items) on both sides (`RowDifferenceIff`, `RepeatedCodeDropsLine`).

## Model

| member | source | states |
|---|---|---|
| StockLedger.Ledger.RecordStock | apps/api/prisma/seed-demo-history.ts:778-825 | the in-place update is one step of the ledger and keeps every level row equal to a replay of its key's movements |
| StockLedger.OnHandBalances | apps/api/prisma/seed-demo-history.ts:787-824 | after any run a key has on hand its receipts less its issues less its write-offs |
| StockLedger.LogRecordsCommands | apps/api/prisma/seed-demo-history.ts:807-818 | the log has one movement per command, in order, with its key, kind and quantity, and a receipt's cost |
| StockLedger.RunAgrees | apps/api/prisma/seed-demo-history.ts:795-824 | after any run every cached row equals the from-scratch replay of its key's movements |
| StockLedger.InterleavingIrrelevant | apps/api/prisma/seed-demo-history.ts:795-824 | two interleavings of the same per-key commands end with the same rows and per-key logs |
| StockLedger.OtherKeysDoNotMatter | apps/api/prisma/seed-demo-history.ts:795-824 | a key's row and log depend only on that key's commands |
| StockLedger.RunWellStamped | apps/api/prisma/seed-demo-history.ts:807-818 | every issue and write-off carries the average its key had just before |
| StockLedger.AverageInRange | apps/api/prisma/seed-demo-history.ts:798-804 | if outgoing quantities never exceed stock, the average is unset or between the least and greatest unit cost received, rounding included |
| StockLedger.AverageSetIff | apps/api/prisma/seed-demo-history.ts:820-824 | the average is set exactly once a costed receipt has arrived, and stays set |
| StockLedger.BlendBetweenIff | apps/api/prisma/seed-demo-history.ts:799-804 | one receipt keeps the average between the old one and its own cost exactly when stock is not below zero or the overdraft rounds away |
| StockLedger.BlendInRangeIff | apps/api/prisma/seed-demo-history.ts:799-804 | one receipt leaves an average within any given range exactly when its exact quotient, allowing for rounding, does |
| StockLedger.OverdrawnAverageEscapes | apps/api/prisma/seed-demo-history.ts:799-804 | an over-issue makes the next average exceed every cost received |
| StockLedger.ReceiptWithinIff | apps/api/prisma/seed-demo-history.ts:799-804 | a costed receipt's error is within half a grid step per unit then on hand exactly when it leaves priced stock above zero, or re-prices nothing, or unpriced stock is worth no more |
| StockLedger.DriftBound | apps/api/prisma/seed-demo-history.ts:793-824 | over any run of such receipts and any issues, overdrawing ones included, on-hand times average differs from the booked value by at most half a grid step per unit on hand after each receipt |
| StockLedger.CoveredDriftBound | apps/api/prisma/seed-demo-history.ts:793-824 | in particular over any run whose issues never exceed stock |
| StockLedger.UncoveredReceiptError | apps/api/prisma/seed-demo-history.ts:799-804 | a receipt on unpriced stock, or one leaving stock at or below zero, errs by exactly the stock times the price change |
| StockLedger.OverdrawnDrift | apps/api/prisma/seed-demo-history.ts:793-824 | a run of three commands drifts by 500 where 4 are allowed |
| InventoryCosting.SeedBlendsLikeEngineIff | apps/api/src/materials/inventory-costing.ts:25-35 | seed and engine average any receipt alike exactly when, on stock, there is an average or its absence rounds away, and on overdrawn stock there is none, the overdraft is not cleared, or its effect rounds away |
| InventoryCosting.OverdrawnBlendsDiffer | apps/api/src/materials/inventory-costing.ts:25-35 | ten at 200 received on an overdraft of five at 100: 300 by the seed, 200 by the engine |
| InventoryCosting.OverdraftRestarts | apps/api/src/materials/inventory-costing.ts:19-35 | at or below zero stock the engine restarts the average at the receipt's cost |
| InventoryCosting.CalculateFifoConsumption | apps/api/src/materials/inventory-costing.ts:45-65 | the loop returns cost, quantities, and exactly the layers that change with what is left in each; a layer is touched only when all older ones are used up |
| InventoryCosting.FifoConserves | apps/api/src/materials/inventory-costing.ts:37-65 | consumed plus shortfall is what was wanted, and what is consumed is what leaves the layers |
| InventoryCosting.ConsumedInFull | apps/api/src/materials/inventory-costing.ts:45-65 | what is returned as consumed is the lesser of what was wanted and held and leaves the layers, the shortfall is the rest, and the cost is the worth that leaves, rounded |
| InventoryCosting.TwoIssuesAsOne | apps/api/src/materials/inventory-costing.ts:45-65 | issuing in two goes draws the same quantities and leaves the same layers as issuing at once |
| InventoryCosting.TwoIssueCosts | apps/api/src/materials/inventory-costing.ts:45-65 | the costs returned for two goes come within one grid step of the cost of one, and to it exactly when the remainders rounded off allow |
| InventoryCosting.SplitIssueCostsMore | apps/api/src/materials/inventory-costing.ts:59-60 | two units at half a grid step cost 1 together and 2 apart |
| InventoryCosting.SplitIssueCostsLess | apps/api/src/materials/inventory-costing.ts:59-60 | two units at two fifths of a grid step cost 1 together and nothing apart |
| InventoryCosting.UsedUpLayersIrrelevant | apps/api/src/materials/stock.service.ts:236-252 | deleting used-up layers, or not reading them, does not change the next consumption |
| CriticalPath.BoundsMirror | apps/api/src/projects/critical-path.ts:38-68 | the forward and backward translation of each dependency type constrain alike |
| CriticalPath.DependencyKeptIff | apps/api/src/projects/critical-path.ts:38-68 | keeping a dependency means that the successor's end its type names comes no earlier than the lag after the predecessor's |
| CriticalPath.DurationNearest | apps/api/src/projects/critical-path.ts:26-36 | a duration is the nearest whole number of days between the task's dates, at least one |
| CriticalPath.TopologicalOrder | apps/api/src/projects/critical-path.ts:103-122 | Kahn's loop lists every task once, predecessors first whenever the dependencies have no cycle |
| CriticalPath.BackwardPass | apps/api/src/projects/critical-path.ts:130-143 | each task gets a number exactly when its successors were visited before and have numbers, and then the least of their bounds |
| CriticalPath.LateDates | apps/api/src/projects/critical-path.ts:92-143 | all late dates are numbers exactly when there is no cycle, and then they solve the backward equations |
| CriticalPath.ComputeCriticalPath | apps/api/src/projects/critical-path.ts:86-157 | one row per task in input order: its id, its dates snapped to whole days from the epoch, the late finish found, the late start a duration before it, the slack between the starts, and the flag that there is none |
| CriticalPath.RowHasDates | apps/api/src/projects/critical-path.ts:145-157 | the fields of one such row, in milliseconds, from the late finish solved for |
| CriticalPath.LatestIsFeasible | apps/api/src/projects/critical-path.ts:79-85 | the late dates respect every dependency |
| CriticalPath.LatestIsGreatest | apps/api/src/projects/critical-path.ts:79-85 | no feasible plan finishes any task later |
| CriticalPath.SlackIsLargestDelay | apps/api/src/projects/critical-path.ts:79-85 | a delay is within the slack exactly when some feasible plan takes it |
| ProjectSlack.CriticalIff | apps/api/src/projects/critical-path.ts:145-155 | a task is critical exactly when no feasible plan finishes it even a day after its scheduled finish |
| ProjectSlack.ChainBounds | apps/api/src/projects/critical-path.ts:130-143 | every dependency chain bounds the late finish |
| ProjectSlack.DrivingChain | apps/api/src/projects/critical-path.ts:130-143 | some chain attains the late finish |
| ProjectSlack.LateWithinIff | apps/api/src/projects/critical-path.ts:79-85 | a late finish is at most so far past the project's finish exactly when some chain's total allowance is no more |
| ProjectSlack.CanFinishIff | apps/api/src/projects/critical-path.ts:79-85 | a task can finish on a day without moving the project's finish exactly when every path of dependencies from it allows that day |
| ProjectSlack.LateFinishesAsDocumentedIff | apps/api/src/projects/critical-path.ts:79-85 | all late finishes are the latest days that keep the project's finish exactly when every task has a chain without positive total allowance |
| ProjectSlack.AsDocumentedForIff | apps/api/src/projects/critical-path.ts:79-85 | one task's late finish is the latest day that keeps the project's finish exactly when no path from it allows less than its chains |
| ProjectSlack.SlackAsDocumentedIff | apps/api/src/projects/critical-path.ts:145-155 | so with the slack reported: it is the largest delay that does not move the project's finish exactly then |
| ProjectSlack.FlagAsDocumentedIff | apps/api/src/projects/critical-path.ts:145-155 | a task flagged critical cannot finish a day later without moving the project's finish; the converse holds exactly when, if some path allows no delay, some chain allows none |
| ProjectSlack.ComputedRow | apps/api/src/projects/critical-path.ts:145-157 | the rows computed for acyclic tasks are those these three speak of |
| ProjectSlack.StartLinkOutrunsProject | apps/api/src/projects/critical-path.ts:61-62 | two tasks joined start to start, the longer first: its late finish is past the project's end, so the late dates are not those documented and it is not critical |
| ProjectSlack.WithinProjectNotEnough | apps/api/src/projects/critical-path.ts:61-62 | three tasks of which the first cannot be delayed, yet its late finish, within the project, shows nine days' slack and no flag |
| EstimatePricing.LineWithinCent | apps/api/prisma/seed-demo-history.ts:27-38 | materials and labour are each within half a cent of what norms with waste, and hours, come to; the line total is their sum |
| EstimatePricing.MaterialsAddUp | apps/api/prisma/seed-demo-history.ts:29-35 | the materials cost is the norms' net costs plus, of each, its waste percentage |
| EstimatePricing.PricedIff | apps/api/prisma/seed-demo-history.ts:24-37 | a line is priced exactly when its rate item is known and its materials have prices |
| EstimatePricing.TileFloorLine | apps/api/prisma/seed-demo-history.ts:27-38 | 100 m2 of floor tile: 3205.00 of materials, 1320.00 of labour |
| EstimatePricing.TotalsOfOne | apps/api/prisma/seed-demo-history.ts:40-53 | of a single line the materials and labour totals are its own |
| EstimatePricing.TotalsOfTwo | apps/api/prisma/seed-demo-history.ts:40-53 | of two lists together they are the sums of each list's |
| EstimatePricing.TotalsConserve | apps/api/prisma/seed-demo-history.ts:40-53 | subtotal is the sum of the line totals, grand total is subtotal plus markup plus tax, to the cent |
| EstimatePricing.TotalsPermuted | apps/api/prisma/seed-demo-history.ts:40-53 | no total depends on the order of the lines |
| EstimatePricing.GrandTotalError | apps/api/prisma/seed-demo-history.ts:27-53 | n lines' grand total is within (1+t/100)(n(1+m/100)+1/2)+1/2 cents of the unrounded formula |
| EstimatePricing.SplitConserves | apps/api/prisma/seed-demo-history.ts:418-430 | subtotal plus tax is the total, tax within 0.6 cent of 20% of the subtotal |
| EstimatePricing.RegrossRecoversIff | apps/api/prisma/seed-demo-history.ts:418-430 | the rounded subtotal plus 20% gives the total back unless the total is 3 modulo 6 |
| EstimatePricing.ShareWithinHalfCent | apps/api/prisma/seed-demo-history.ts:418-441 | a deposit or draw is within half a cent of its percentage of the total |
| EstimatePricing.DepositAndDrawWithinTotal | apps/api/prisma/seed-demo-history.ts:418-453 | the rounded 30% deposit and 40% draw never exceed the grand total |
| DrawingSetReview.ReviewScreen.ShowSet | apps/web/components/drawing-set-import.tsx:92-114 | merging a response is one step of the screen |
| DrawingSetReview.ReviewScreen.Update | apps/web/components/drawing-set-import.tsx:150 | an edit is one step of the screen |
| DrawingSetReview.FirstProposal | apps/web/components/drawing-set-import.tsx:48-110 | a newly reviewable set gets one row per page with what was recognized on it, ticked if numbered, and its first page without a number is previewed |
| DrawingSetReview.EditPatches | apps/web/components/drawing-set-import.tsx:150 | an edit sets the fields given on the rows of its page and nothing else |
| DrawingSetReview.OutcomeAndPreview | apps/web/components/drawing-set-import.tsx:92-134 | after any run the outcome is that of the last import since the last upload, the preview the page last chosen or proposed |
| DrawingSetReview.ReviewScreen.BeginDiscard | apps/web/components/drawing-set-import.tsx:183-186 | pressing discard is one step: a shown set that failed to be read is discarded at once, any other asks first |
| DrawingSetReview.ReviewScreen.ConfirmDiscard | apps/web/components/drawing-set-import.tsx:186-187 | the person's answer is one step, and sends the request only if it is yes |
| DrawingSetReview.ReviewScreen.FinishDiscard | apps/web/components/drawing-set-import.tsx:188-192 | the answer to a request under way is one step and clears whatever is shown by then |
| DrawingSetReview.DiscardAsks | apps/web/components/drawing-set-import.tsx:183-187 | without a set nothing happens, a failed one is discarded at once, and declining leaves the screen as it was |
| DrawingSetReview.DiscardClears | apps/web/components/drawing-set-import.tsx:183-192 | a confirmed and answered discard has cleared the screen and is over |
| DrawingSetReview.RunConsistent | apps/web/components/drawing-set-import.tsx:93-114 | in any order of steps the ref and the shown set agree and a ready set has one row per page in page order |
| DrawingSetReview.EveryRowFindsItsPage | apps/web/components/drawing-set-import.tsx:288-289 | the page lookup of every rendered row succeeds |
| DrawingSetReview.KeepsEditsIff | apps/web/components/drawing-set-import.tsx:93-114 | a run leaves any rows with exactly its own edits applied if and only if none of its events, where it comes, answers a discard, reports an import or makes the set newly reviewable |
| DrawingSetReview.ReadyResponsesNeverDisturbEdits | apps/web/components/drawing-set-import.tsx:105-109 | repeated ready responses among edits leave the table as the edits alone would |
| DrawingSetReview.FailedImportDropsEdits | apps/web/components/drawing-set-import.tsx:105-109 | an import that fails replaces every edit by the first proposal |
| DrawingSetReview.LateImportClearsOtherSet | apps/web/components/drawing-set-import.tsx:96-104 | an imported response of another set clears the screen |
| DrawingSetReview.LateDiscardClearsOtherSet | apps/web/components/drawing-set-import.tsx:183-192 | of two discards of one set the second answer clears a set opened since the first |
| DrawingSetReview.KeyTrim | apps/web/components/drawing-set-import.tsx:45 | the key does not see what trimming removes |
| DrawingSetReview.KeySkips | apps/web/components/drawing-set-import.tsx:45 | white space, dots, underscores and hyphens do not count, wherever they stand |
| DrawingSetReview.KeyIgnoresCase | apps/web/components/drawing-set-import.tsx:45 | nor does case |
| DrawingSetReview.KeyKeeps | apps/web/components/drawing-set-import.tsx:45 | a number in upper case without those is its own key |
| DrawingSetReview.CountKeys | apps/web/components/drawing-set-import.tsx:153-154 | the loop counts the numbered rows under each key |
| DrawingSetReview.ImportBlocked | apps/web/components/drawing-set-import.tsx:152-156 | import is unblocked exactly when some row is ticked, every ticked one has a number, and no two ticked ones share a key |
| DrawingSetReview.ShowProblem | apps/web/components/drawing-set-import.tsx:152-155 | a ticked row needs a number exactly when its is blank, and has a duplicate one exactly when another ticked row shares its key |
| DrawingSetReview.IncludedIff | apps/web/components/drawing-set-import.tsx:152 | the rows to import are the ticked ones, each as often as it stands in the table |
| DrawingSetReview.IncludedInOrder | apps/web/components/drawing-set-import.tsx:152 | in the table's order |
| DrawingSetReview.PostedIff | apps/web/components/drawing-set-import.tsx:158-172 | the posted pages are exactly the ticked rows', each filled field trimmed and blank ones left out |
| DrawingSetReview.PostedKeysDistinct | apps/web/components/drawing-set-import.tsx:158-172 | the trimmed numbers posted are given and pairwise distinct under the key |
| DrawingSetReview.CheckImport | apps/api/src/drawings/drawing-sets.service.ts:149-158 | the server accepts exactly pages within the set, none twice, with distinct keys, and otherwise names the page or the two pages at fault |
| DrawingSetReview.UnblockedImportAccepted | apps/api/src/drawings/drawing-sets.service.ts:149-158 | after any run an import that the ticked rows leave unblocked passes the server's checks |
| PluralRules.VisibleDigitsLeast | apps/mobile/src/intl-plural-rules.ts:12-19 | measuring the printed text finds the least number of decimals that shows the rounded number |
| PluralRules.OperandsNearest | apps/mobile/src/intl-plural-rules.ts:14-19 | the number is rounded to the nearest thousandth, and its integer part taken from that |
| PluralRules.CardinalMatchesCldr | apps/mobile/src/intl-plural-rules.ts:23-55 | for every number, language and category, selection agrees with the CLDR clauses, whatever the sign |
| PluralRules.OrdinalByCases | apps/mobile/src/intl-plural-rules.ts:57-63 | whole numbers get CLDR's English ordinal, all others `other` |
| PluralRules.OrdinalMatchesCldrIff | apps/mobile/src/intl-plural-rules.ts:57-63 | English ordinals agree with CLDR exactly on whole numbers and numbers that do not round to a whole one ending in 1, 2 or 3 but not 11, 12 or 13 |
| PluralRules.OrdinalNotRounded | apps/mobile/src/intl-plural-rules.ts:57-63 | 1.0001 counts as 1 for cardinals but not for ordinals |
| PluralRules.OtherOrdinalsMatchCldrIff | apps/mobile/src/intl-plural-rules.ts:78-82 | the other languages' ordinals agree with CLDR except in Ukrainian on numbers that round to a whole one ending in 3 but not 13 |
| PluralRules.UkrainianThird | apps/mobile/src/intl-plural-rules.ts:78-82 | the Ukrainian ordinal of 3 is few and the code says other |
| PluralRules.NegotiatedIsFirstReported | apps/mobile/src/intl-plural-rules.ts:65-76 | the language used is the one whose code heads the first tag that supportedLocalesOf reports, English if none is |
| PluralRules.SelectsAsCldr | apps/mobile/src/intl-plural-rules.ts:65-82 | from tags to category: rules for the first tag that names a language put a number where CLDR's clauses of that language do |
| PluralRules.ReportedIff | apps/mobile/src/intl-plural-rules.ts:89-91 | reported are the tags that name one of the languages, each as often as asked for |
| PluralRules.CategoriesAreTheRange | apps/mobile/src/intl-plural-rules.ts:78-87 | the categories reported are exactly those some number is given |
| RevisionDiff.BuildComparison | apps/web/components/estimate-revision-history-panel.tsx:56-87 | the loop and map produce the comparison of the two last-wins tables |
| RevisionDiff.RowsShowLines | apps/web/components/estimate-revision-history-panel.tsx:61-87 | each row shows the last line of its code on either side, with the current name and unit or else the recorded ones, and its kind |
| RevisionDiff.EachCodeOnce | apps/web/components/estimate-revision-history-panel.tsx:72-74 | the rows name every code of either side exactly once |
| RevisionDiff.RowsAreAPatch | apps/web/components/estimate-revision-history-panel.tsx:74-86 | applied to the revision's figures the rows give the current ones, and reverted they give the revision's back |
| RevisionDiff.TableIsLastWins | apps/web/components/estimate-revision-history-panel.tsx:61-72 | the Map keeps, of the lines with one code, the last |
| RevisionDiff.RowDifferenceIff | apps/web/components/estimate-revision-history-panel.tsx:56-87 | the rows' difference is the estimates' exactly when equal totals were dropped on both sides |
| RevisionDiff.RepeatedCodeDropsLine | apps/web/components/estimate-revision-history-panel.tsx:56-87 | of two current lines of one code the rows show the second's total alone |
| RevisionDiff.RowDifferenceExact | apps/web/components/estimate-revision-history-panel.tsx:56-87 | with known items and unique codes the rows account for the whole difference |
| TagEditor.RoundTripIff | apps/web/components/documents-panel.tsx:172-183 | saving an untouched draft gives the tags back exactly when all are trimmed, non-empty and free of commas |
| TagEditor.ParsePieces | apps/web/components/documents-panel.tsx:180-183 | each piece between commas gives its trimmed text, or nothing if blank, whatever stands around it |
| TagEditor.PrintJoins | apps/web/components/documents-panel.tsx:172-174 | the draft shows the tags with a comma and a space between any two |
| TagEditor.ParseGivesTags | apps/web/components/documents-panel.tsx:180-183 | every draft parses to trimmed, non-empty, comma-free tags |
| TagEditor.ParseStable | apps/web/components/documents-panel.tsx:172-183 | saving, reopening and saving again changes nothing |
| TaskAdvance.TasksTab.Advance | apps/web/components/field-tasks-tab.tsx:51-59 | a tap is one step: next status shown, cached and sent, the list before kept |
| TaskAdvance.TasksTab.Settle | apps/web/components/field-tasks-tab.tsx:57-66 | an outcome is one step: a rejection puts the kept list back |
| TaskAdvance.NextInOrder | apps/web/components/field-tasks-tab.tsx:14-52 | a tap moves to the next status of the order, after the last to the first |
| TaskAdvance.ErrorShown | apps/web/components/field-tasks-tab.tsx:57-66 | after any run an error is shown exactly if a submission was rejected since the last tap |
| TaskAdvance.ShapeKept | apps/web/components/field-tasks-tab.tsx:51-67 | under any overlap ids, names and order never change, and the cache holds what is shown |
| TaskAdvance.OneAtATimeIsFaithful | apps/web/components/field-tasks-tab.tsx:51-67 | without overlap the list is the server's view, which is the initial one with exactly the standing advances applied |
| TaskAdvance.OrderlyRunsAreFaithful | apps/web/components/field-tasks-tab.tsx:51-67 | so it is, and so is every kept list, under any overlap in which rejections find no later tap standing |
| TaskAdvance.RejectionExactIff | apps/web/components/field-tasks-tab.tsx:60-66 | a rejection shows the server's view exactly when, for every task tapped later and standing, the last such tap sent the status of the kept list |
| TaskAdvance.RepeatedTapsIff | apps/web/components/field-tasks-tab.tsx:51-66 | of k pending taps in a row on one task of any list, rejecting the j-th shows the server's view exactly when j is k or k - j + 1 a multiple of three |
| TaskAdvance.OverlapLosesAdvance | apps/web/components/field-tasks-tab.tsx:60-66 | two overlapping taps, the first rejected, leave the accepted second off the screen though the server has it |
| CrossRates.SeedExchangeRates | apps/api/prisma/seed.ts:91-101 | the nested loops push n(n-1) rows, each ordered pair once |
| CrossRates.TableRate | apps/api/prisma/seed.ts:87-96 | the rate of a pair is the first currency's value over the second's |
| CrossRates.PathsTelescope | apps/api/prisma/seed.ts:87-101 | the product of rates along a path is the direct rate, and one on a closed cycle |
| AuditLog.AuditLogPanel.Arrive | apps/web/components/audit-log-panel.tsx:39-59 | a page's arrival is one step of the panel |
| AuditLog.PageExtends | apps/web/components/audit-log-panel.tsx:47-54 | the page after the last entry extends a prefix without gap or repetition |
| AuditLog.RunSound | apps/web/components/audit-log-panel.tsx:39-59 | under any overlap of loads the log is a prefix of the list, and the whole list when no more is offered |
| AuditLog.FailureUndoes | apps/web/components/audit-log-panel.tsx:39-59 | a load that fails leaves the panel as before the press |
| AuditLog.RoundsLoad | apps/web/components/audit-log-panel.tsx:39-59 | n presses load n + 1 pages, more is offered exactly while they are full, and loading stops with the whole list |
| GpsRoute.RouteInBox | apps/web/components/equipment-gps-panel.tsx:69-87 | plotted points stay in 20 to 280, x monotone in longitude and y antitone in latitude |
| GpsRoute.RouteFillsBox | apps/web/components/equipment-gps-panel.tsx:69-87 | the left and bottom edges are always reached, the right and top ones exactly when there is any span in longitude and latitude |
| GpsRoute.RouteXInProportion | apps/web/components/equipment-gps-panel.tsx:69-87 | x is in proportion to the longitude from the west, to the nearest tenth |
| GpsRoute.RouteYInProportion | apps/web/components/equipment-gps-panel.tsx:69-87 | y is in proportion to the latitude from the north |
| GpsRoute.Tracker.OnPosition | apps/web/components/equipment-gps-panel.tsx:48-56 | what has been posted is the throttled choice of what was reported |
| GpsRoute.ThrottledSpaced | apps/web/components/equipment-gps-panel.tsx:48-51 | posts are at least the interval apart, whatever the clock does |
| GpsRoute.ThrottledMost | apps/web/components/equipment-gps-panel.tsx:48-51 | with a clock that never goes back no spaced choice has more posts |

## Left out

- IEEE rounding error, `Number.EPSILON` in the API's rounding, exponential printing at 1e21 and above, and prototype keys found by `in`.
- Unit costs with more than four decimals, which a receipt leaving stock at or below zero would keep unrounded.
- Prisma, HTTP, storage and rendering; each `recordStock` call is atomic, and its project, line and date fields are passed through unmodelled.
- `DrawingSetReview`: the busy, error and open-sets state, match and confidence badges; a page's number, title and discipline are all its row starts from.
- `TaskAdvance`: the list before it is loaded, when no row can be tapped, and project switching while a submission is pending.
- `CriticalPath`: `minSuccessorStart` and the rescheduling around it.
- `AuditLog`: filter edits between loads and rows added while paging; entries with equal timestamps.
- `InventoryCosting`: cost-layer storage, transfers, lots and serial units.
- The unit deduplication loop of the seed and the two-slot version selection of the documents panel: easy members only.
- Budget, contract, equipment and reporting services, accounting exports, OAuth, SAML, desktop windows and PDF work.
