# Verified model of the Bloom-filter budget policy and its DataFusion companions

This project models, in Dafny 4.11, the parts of the repository that decide something:

- the memory-budget policy for Bloom filters in `ml/`: the exact knapsack (a rolling dynamic
  program over weights rounded to KB), the greedy knapsack, the exported boosted-tree model that
  supplies the values, and the policy totals computed around them;
- SQL macro expansion (`function_factory.rs`);
- the command line's statement splitter, validator, line accumulator, and its row-limited
  collection and table printing (`helper.rs`, `exec.rs`, `print_format.rs`);
- plan serialization that preserves adapters (`adapter_serialization.rs`);
- the object-store request summaries and the time-to-first-item wrapper (`instrumented.rs`).

`dafny verify dfyconfig.toml` checks everything. Code that updates arrays, maps or objects in loops
is modelled by methods and classes proved against specification functions; expression-like code is
modelled by functions. Automatic induction is switched off on every lemma, so each proof is the one
written down.

| file | content |
|---|---|
| `Candidates.dfy`, `ExactKnapsack.dfy`, `ExactBounds.dfy` | the exact knapsack: optimality, tie-breaking, rounding |
| `StableRank.dfy`, `GreedyKnapsack.dfy`, `ExactVersusGreedy.dfy` | the greedy knapsack and the comparison of the two |
| `BoostedTrees.dfy`, `PolicyTotals.dfy` | the exported model and the policy totals |
| `MacroExpansion.dfy` | placeholder substitution |
| `Text.dfy`, `StatementSplitter.dfy`, `LineAccumulator.dfy` | splitting, validating and accumulating SQL text |
| `BoundedPrinting.dfy` | row-limited collection and Table output |
| `AdapterCodec.dfy` | encoding and decoding of plans |
| `RequestSummaries.dfy`, `FirstItemTimer.dfy` | request statistics and the one-shot timer |
| `Wrappers.dfy`, `Sequences.dfy` | `Option` and `Result`, the machine integer bound, flattening of sequences |

## Properties that fail, and exactly when they hold

- The policy is described as choosing filters under a memory budget. Rounding weights down lets the
  selection exceed it, by less than a factor of two. `RespectsLargeBudgetsIff` and
  `RespectsAllBudgetsIff` say for exactly which weights the byte budget is always respected;
  `OvershootIsTight` exceeds it.
- Exact optimisation can be worse than greedy, because it rounds every small filter up to 1 KB.
  `ExactDominatesGreedyIff` gives the exact condition, on pairs of weights; the same condition is
  exactly when exact is optimal in bytes. `SmallPairDefeatsExact` has two filters of 512 bytes.
  All of these conditions are also exact for values strictly between 0 and 1, which is what the
  model predicts.
- Looking a filter up by its key recovers the knapsack's choice exactly when keys are distinct
  (`NamesIdentifySelectionIff`). One row per query and column gives distinct keys exactly when no
  query id is another one followed by `:` and more (`DistinctKeysIff`, with the collision
  `KeyCollision`).
- Validation splits the line without its final `;`, execution splits the whole line. The two agree,
  and splitting the output again is the identity, exactly when the quotes are closed
  (`ValidatedIsExecutedIff`, `ResplitIff`; `OpenQuoteFails` has an input for which neither holds).
- A script is cut after every line that ends in `;`, even inside quotes. The queries run hold the
  commands of the text exactly when every statement closes its quotes before its `;`, except perhaps
  a last one that only blanks follow (`RunsAreCommandsIff`, with a literal over two lines in
  `LiteralCutInTwo`).
- A table over the limit is cut after maxrows lines, not rows. It shows the first maxrows rows in full
  exactly when each of them takes one line (`TruncatedTableCompleteIff`, with `TallRowIsCut`).
- Printing agrees with collecting when both use the same limit. EXPLAIN, DESCRIBE and SHOW lift the
  limit for printing only; their output is complete exactly when every non-empty batch starts less
  than its own size past the limit (`UnlimitedPrintCompleteIff`, with a failing input for every
  limit in `UnlimitedPrintLosesRows`).
- The comments say that collection is limited by maxrows and stops past it. It does neither: batches
  of 1, 2, 4, ... rows are all kept for every limit (`DoublingAllKept`). What holds is a bound of the
  limit plus twice the largest batch (`KeptBounded`).
- A plan survives serialization exactly when every adapter is absent or a metadata adapter whose
  tag is not changed by Debug escaping (`RoundTripIff`, with the tag `a"b` in `QuotedTagChanges`).
- The average column divides by the number of requests. For sizes it is the mean exactly when every
  request of the operation recorded one and their sum fits in 64 bits, or all recorded sizes are zero
  (`AverageIsMeanIff`); for durations exactly when every request recorded one
  (`DurationAverageIsMeanIff`). `SizeAverageBelowMinimum` and `DurationAverageBelowMinimum` show
  averages at half the minimum.

## Model

| member | source | states |
|---|---|---|
| ExactKnapsack.RelaxCandidate | ml/knapsack.py:36-40 | the in-place backward loop turns row i of the two-index recurrence, and the choice table below i, into row i+1 and the table below i+1 |
| ExactKnapsack.FillTable | ml/knapsack.py:31-40 | after the nested loops the table records, for every candidate and capacity, exactly whether taking it strictly improves on skipping it |
| ExactKnapsack.TraceBack | ml/knapsack.py:43-49 | the traceback returns the names of the strictly descending candidate positions the recurrence takes |
| ExactKnapsack.SelectFiltersExact | ml/knapsack.py:16-49 | the whole function, including empty candidates and non-positive budgets, returns the names of strictly descending positions whose set the following rows determine |
| ExactKnapsack.TraceAttains | ml/knapsack.py:31-49 | the traced-back selection fits the capacity and its value is the final table entry |
| ExactKnapsack.BestBounds | ml/knapsack.py:35-40 | no subset that fits a capacity is worth more than the table entry for it |
| ExactKnapsack.ExactIsOptimal | ml/knapsack.py:22-49 | for all candidates and budgets the selection fits in scaled weight and no fitting subset is worth more |
| ExactKnapsack.ExactIsCanonical | ml/knapsack.py:38-48 | because ties do not update, a selection is the returned one if and only if it is optimal and lexicographically before every other optimal one, reading membership from the last candidate to the first |
| ExactBounds.BestMonotone | ml/knapsack.py:35-40 | every table row is non-decreasing in capacity |
| ExactBounds.SelectedArePositive | ml/knapsack.py:38-48 | only candidates of strictly positive value are selected |
| ExactBounds.ExactIsMaximal | ml/knapsack.py:35-48 | a candidate of positive value is left out only when it no longer fits |
| ExactBounds.ValueGrowsWithBudget | ml/knapsack.py:22-49 | the selected value never decreases as the budget grows |
| ExactBounds.AllSelectedIff | ml/knapsack.py:25-49 | with positive values everything is selected if and only if all scaled weights fit together |
| ExactBounds.RoundingOvershoot | ml/knapsack.py:12-13 | a selection of k filters has k at most the scaled budget and at most max(budget,1024)+1023k bytes, which is below twice max(budget,1024) |
| ExactBounds.OvershootIsTight | ml/knapsack.py:12-13 | for every k some input with values between 0 and 1 overshoots by exactly 1023k bytes |
| ExactBounds.RespectsLargeBudgetsIff | ml/knapsack.py:12-49 | budgets of at least 1 KB are respected for all values, or just for all values between 0 and 1, if and only if every weight is at most 1024 or a multiple of 1024 |
| ExactBounds.RespectsAllBudgetsIff | ml/knapsack.py:12-49 | all positive budgets are respected for all values, or just for all values between 0 and 1, if and only if every weight is at most 1, or at least 2048 and a multiple of 1024 |
| StableRank.RankIsRanked | ml/knapsack.py:61-65 | the ranking is sorted by descending key with ties in input order, and lists no position twice |
| StableRank.RankIsUnique | ml/knapsack.py:61-65 | any stable descending sort gives this ranking |
| GreedyKnapsack.SelectFiltersGreedy | ml/knapsack.py:52-72 | the loop returns, one by one, the names of the picks that GreedyPicksIff determines |
| GreedyKnapsack.GreedyPicksIff | ml/knapsack.py:58-72 | a list is the one greedy picks if and only if it descends in value per byte (compared without division, ties in input order, none twice) and holds exactly the candidates that fit in what the picks before them leave of the budget; empty for a non-positive budget |
| GreedyKnapsack.TakenIff | ml/knapsack.py:68-71 | a candidate is taken if and only if it fits in what is left at its turn |
| GreedyKnapsack.LeftIsUnspent | ml/knapsack.py:67-71 | what is left is the budget less the bytes taken, and never negative |
| GreedyKnapsack.GreedyIsFeasible | ml/knapsack.py:58-72 | greedy never exceeds the budget in bytes |
| GreedyKnapsack.GreedyFractionalBound | ml/knapsack.py:61-72 | every byte-feasible subset is worth at most greedy plus the fitting fraction of the first rejected candidate, hence at most greedy plus that candidate |
| GreedyKnapsack.GreedyOptimalWithoutRejection | ml/knapsack.py:61-72 | if nothing is rejected greedy is optimal |
| ExactVersusGreedy.BytesFitImpliesKbFit | ml/knapsack.py:12-13 | when no pair of weights gains by separate rounding, what fits in bytes fits in KB |
| ExactVersusGreedy.ExactDominatesGreedyIff | ml/knapsack.py:12-72 | exact is at least as good as greedy for all budgets and all values, or just all values between 0 and 1, and at least as good as every selection within the byte budget for all values and positive budgets, if and only if for every two weights the KB of the sum are at least the sum of the KB |
| ExactVersusGreedy.SmallPairDefeatsExact | ml/knapsack.py:12-72 | for two filters of 512 bytes greedy beats exact on some values between 0 and 1 and some budget |
| ExactVersusGreedy.LargeFiltersDominate | ml/knapsack.py:12-72 | in particular when every weight is at least 1024 bytes |
| BoostedTrees.TreeToNodes | ml/bf_model.py:78-96 | exports each array position to a leaf or a split node |
| BoostedTrees.ExportTrees | ml/bf_model.py:111 | exports every tree of the forest in order |
| BoostedTrees.WalkTree | ml/bf_model.py:130-133 | the index walk terminates and stops at the leaf of the recursive descent |
| BoostedTrees.PredictFromJson | ml/bf_model.py:118-135 | the prediction is the logistic function of the initial score plus the learning rate times the sum of the trees evaluated by feature name |
| BoostedTrees.WalkMatchesTree | ml/bf_model.py:125-134 | the leaf the index walk over the feature vector reaches carries the value of the decision tree the nodes denote, whose splits go low exactly when the feature of their name is at most the threshold |
| BoostedTrees.ExportKeepsTree | ml/bf_model.py:78-96 | the exported nodes denote the decision tree the arrays denote |
| BoostedTrees.ExportPreservesModel | ml/bf_model.py:78-135 | exporting any well-formed forest gives a usable model whose raw score is the initial score plus the learning rate times the sum of the forest's own decision trees, evaluated by feature name |
| PolicyTotals.MlDetail | ml/evaluation.py:83-116 | one detail per row, with its identity, prediction, truncated weight, benefit and label; for any candidates with these predictions and weights, the selected positions are those sharing a key with the least optimal selection, and with distinct keys they are that selection |
| PolicyTotals.GroupSelected | ml/evaluation.py:121-125 | the accumulation loop holds a query if and only if it has a selected row, with the sum of its selected benefits |
| PolicyTotals.MlGuidedGlobal | ml/evaluation.py:119-125 | the dictionary holds, per query, the benefit sums of the rows sharing a key with the least optimal selection for the predictions and weights of the rows |
| PolicyTotals.Totals | ml/evaluation.py:130-139 | all four totals for every order of the groups: zero; the benefits of the rows whose column comes first in their query; all benefits; the benefits of the rows sharing a key with the least optimal selection for the predictions and weights of the rows, which with distinct keys is that selection |
| PolicyTotals.ChosenIsBest | ml/evaluation.py:94-116 | for any candidates with the predictions as values and the truncated sizes as weights, the credited rows are those sharing a key with the least optimal selection |
| PolicyTotals.GroupTotals | ml/evaluation.py:133-139 | the loop over the groups sums the four policies; regrouping per query loses and doubles nothing |
| PolicyTotals.FirstColumnIsLeast | ml/evaluation.py:73-76 | the row single_hop credits has the least column name of its query, in code point order |
| PolicyTotals.LexLeqIff | ml/evaluation.py:75 | a column comes before another if and only if it is a prefix of it or has the smaller character where they first differ |
| PolicyTotals.SingleHopIsFirstColumn | ml/evaluation.py:73-76 | with one row per query and column, single_hop credits exactly the row whose column sorts first |
| PolicyTotals.Regroup | ml/evaluation.py:134-138 | summing per query group and then over groups conserves the benefit |
| PolicyTotals.NamesIdentifySelectionIff | ml/evaluation.py:94-115 | lookup by name recovers the selection for all weights, budgets and values, or just values between 0 and 1, if and only if names are distinct |
| PolicyTotals.KeysCollideIff | ml/evaluation.py:99 | two different query ids have colliding keys for some columns if and only if one is the other followed by a colon and more |
| PolicyTotals.DistinctKeysIff | ml/evaluation.py:94-99 | for given query ids, one row per query and column gives distinct keys whatever the columns if and only if no id is another one followed by a colon and more |
| PolicyTotals.KeyCollision | ml/evaluation.py:99 | column c of query a:b and column b:c of query a share a key |
| PolicyTotals.ChosenIsExact | ml/evaluation.py:83-116 | with distinct keys the credited rows are exactly the knapsack's choice |
| PolicyTotals.MlGuidedIsAlwaysBuild | ml/evaluation.py:79-139 | when all scaled weights fit together, ml_guided totals the same as always_build |
| MacroExpansion.DollarNames | datafusion/datafusion-examples/examples/builtin_functions/function_factory.rs:182-190 | `$n` in decimal names argument n counting from one, and `$0` and numbers beyond the arguments are errors |
| MacroExpansion.ResolveIff | datafusion/datafusion-examples/examples/builtin_functions/function_factory.rs:158-190 | every placeholder: one error without `$`, another unless the rest is an optional `+`, any zeros and the digits of a 64-bit number, otherwise the argument of that number counting from one, or a third error when there is none |
| MacroExpansion.ExpansionSucceedsIff | datafusion/datafusion-examples/examples/builtin_functions/function_factory.rs:158-180 | expansion succeeds if and only if every placeholder resolves, and otherwise fails with the error of the first that does not |
| MacroExpansion.ExpansionPreservesMeaning | datafusion/datafusion-examples/examples/builtin_functions/function_factory.rs:158-180 | under every interpretation the expansion evaluates like the body with `$i` bound to the value of argument i |
| MacroExpansion.SimplifyPreservesMeaning | datafusion/datafusion-examples/examples/builtin_functions/function_factory.rs:139-149 | replacing a call by its expansion keeps the value of the call |
| MacroExpansion.ExpansionsCompose | datafusion/datafusion-examples/examples/builtin_functions/function_factory.rs:158-180 | two expansions in a row are one expansion with expanded arguments |
| MacroExpansion.SecondExpansionIff | datafusion/datafusion-examples/examples/builtin_functions/function_factory.rs:158-180 | the second of two expansions succeeds if and only if every argument the body uses expands |
| StatementSplitter.SplitFromSemicolon | datafusion/datafusion-cli/src/helper.rs:180-208 | the output is each non-blank segment between semicolons outside quotes, trimmed, with `;` appended |
| StatementSplitter.UnquotedText | datafusion/datafusion-cli/src/helper.rs:186-201 | text without quote characters leaves the quote state alone, and its separators are its semicolons outside quotes and none inside |
| StatementSplitter.Literal | datafusion/datafusion-cli/src/helper.rs:187-192 | for either quote character, a literal stays open without a separator until the same character closes it |
| StatementSplitter.LiteralInOneCommand | datafusion/datafusion-cli/src/helper.rs:186-208 | a literal, semicolons and the other quote character included, and plain text around it are one command |
| StatementSplitter.UnquotedSplits | datafusion/datafusion-cli/src/helper.rs:186-208 | in text without quote characters every semicolon ends a command, and a text without semicolons is one command unless blank |
| Text.WhitespaceIff | datafusion/datafusion-cli/src/helper.rs:193-206 | what is trimmed are exactly the 25 code points with the Unicode property White_Space |
| StatementSplitter.AtSeparator | datafusion/datafusion-cli/src/helper.rs:193-197 | carrying a blank buffer over a semicolon instead of clearing it changes no command |
| StatementSplitter.SegmentsAreSegmentation | datafusion/datafusion-cli/src/helper.rs:186-201 | the segments joined by `;` give the input, contain no separator, and all but the last close their quotes |
| StatementSplitter.SegmentationUnique | datafusion/datafusion-cli/src/helper.rs:186-201 | no other decomposition has these properties |
| StatementSplitter.ValidatedIsExecutedIff | datafusion/datafusion-cli/src/helper.rs:76-88 | the commands with and without the final `;` and trailing white space agree if and only if the quotes are closed before it |
| StatementSplitter.ValidateInput | datafusion/datafusion-cli/src/helper.rs:76-110 | all outcomes: incomplete, backslash command, unknown dialect, valid if and only if every command parses to a statement, else the verdict on the first that does not |
| StatementSplitter.Validate | datafusion/datafusion-cli/src/helper.rs:168-175 | a valid line with closed quotes executes only commands the parser accepted |
| StatementSplitter.StrippedCommands | datafusion/datafusion-cli/src/exec.rs:177-179 | the commands executed for a line with closed quotes are the ones the validator split |
| StatementSplitter.ResplitIff | datafusion/datafusion-cli/src/helper.rs:180-208 | splitting the concatenated output again gives the same list if and only if the input's quotes are closed |
| StatementSplitter.OpenQuoteFails | datafusion/datafusion-cli/src/helper.rs:76-88 | for a single quote character the commands with and without the final `;` differ, and splitting the output again changes it |
| StatementSplitter.ClosedStatementThen | datafusion/datafusion-cli/src/helper.rs:186-201 | text after a statement that closes its quotes before its `;` is split as if it stood alone |
| StatementSplitter.OpenTextMerges | datafusion/datafusion-cli/src/helper.rs:186-201 | text after open quotes, unless blank, becomes part of the open command, so the commands are never those of the first text followed by others |
| LineAccumulator.ExecFromLines | datafusion/datafusion-cli/src/exec.rs:67-108 | every completed statement runs, its failure only being reported, then a leftover that is not only newlines; only a failing leftover fails the call |
| LineAccumulator.FailedIff | datafusion/datafusion-cli/src/exec.rs:86-89 | a run is reported if and only if it fails |
| LineAccumulator.FailedInOrder | datafusion/datafusion-cli/src/exec.rs:86-89 | failures are reported in the order of the runs, once each |
| LineAccumulator.ReadErrorStops | datafusion/datafusion-cli/src/exec.rs:95-97 | nothing after a read error is looked at |
| LineAccumulator.CommentAddsNothing | datafusion/datafusion-cli/src/exec.rs:76-81 | lines that start with `#!` or `--` add nothing |
| LineAccumulator.LineAdds | datafusion/datafusion-cli/src/exec.rs:82-94 | any other line adds its text without trailing white space, and a newline unless that ends in `;` |
| LineAccumulator.CutAtFirstSemicolon | datafusion/datafusion-cli/src/exec.rs:83-94 | the first piece that ends in `;` completes the statement made of everything up to it, and accumulation starts afresh; without one everything is left over |
| LineAccumulator.AccumulationConserves | datafusion/datafusion-cli/src/exec.rs:74-99 | statements and leftover concatenate to the accumulated text |
| LineAccumulator.StatementsEndInSemicolon | datafusion/datafusion-cli/src/exec.rs:85-90 | every query run before the leftover ends in `;` |
| LineAccumulator.RunsLoseOnlyNewlines | datafusion/datafusion-cli/src/exec.rs:101-105 | the queries run concatenate to the accumulated text, less at most a leftover of newlines; the leftover runs if and only if it has another character |
| LineAccumulator.SplitsApartIff | datafusion/datafusion-cli/src/exec.rs:85-99 | for statements that end in `;` and any leftover, splitting them one by one and splitting their concatenation give the same commands if and only if every statement closes its quotes, or is the last and only blanks follow |
| LineAccumulator.RunsAreCommandsIff | datafusion/datafusion-cli/src/exec.rs:67-105 | the queries run for the lines of a script hold exactly the commands of its text if and only if no statement was cut inside quotes with more than blanks to follow |
| LineAccumulator.LiteralCutInTwo | datafusion/datafusion-cli/src/exec.rs:85 | a string literal over two lines that both end in `;` runs as two queries, which are not the commands of the text |
| BoundedPrinting.Collect | datafusion/datafusion-cli/src/exec.rs:293-310 | keeps exactly the batches that start less than their own size past the limit, counts all rows, and fails if the stream does |
| BoundedPrinting.KeptAgrees | datafusion/datafusion-cli/src/exec.rs:299-310 | kept and all batches have the same rows up to the limit and exceed it together |
| BoundedPrinting.KeptNeedNotBePrefix | datafusion/datafusion-cli/src/exec.rs:304-308 | for every limit some batches are kept that are not a prefix |
| BoundedPrinting.KeptBounded | datafusion/datafusion-cli/src/exec.rs:290-308 | with batches of at most B rows, at most limit + 2B rows are collected |
| BoundedPrinting.CollectedBounded | datafusion/datafusion-cli/src/exec.rs:290-310 | for a limit of n rows and batches of at most B, at most n + 2B rows are collected; without a limit all rows are |
| BoundedPrinting.DoublingAllKept | datafusion/datafusion-cli/src/exec.rs:290-308 | for every limit, batches of 1, 2, 4, ... rows are all kept |
| BoundedPrinting.TakeRows | datafusion/datafusion-cli/src/print_format.rs:119-135 | the filtering loop yields all rows, or the first maxrows if and only if there are more |
| BoundedPrinting.FormatBatchesWithMaxRows | datafusion/datafusion-cli/src/print_format.rs:109-154 | formats all rows, or over the limit the first maxrows rows cut to maxrows lines, with the dotted tail; the length assertion never fires |
| BoundedPrinting.KeepOnlyMaxRows | datafusion/datafusion-cli/src/print_format.rs:92-107 | keeps the header and the first maxrows lines, then three dotted lines as wide as the bottom border, then the border |
| BoundedPrinting.Dotted | datafusion/datafusion-cli/src/print_format.rs:99-100 | the dotted line has bars at both ends, a dot third and spaces elsewhere, and the width of the border, at least four |
| BoundedPrinting.TruncatedTableCompleteIff | datafusion/datafusion-cli/src/print_format.rs:92-154 | a table over the limit shows all lines of the first maxrows rows if and only if each of them takes one line |
| BoundedPrinting.TallRowIsCut | datafusion/datafusion-cli/src/print_format.rs:92-107 | with a limit of one, a row of several lines followed by another row is cut |
| BoundedPrinting.PrintBatches | datafusion/datafusion-cli/src/print_format.rs:158-186 | the output depends only on the rows, also with empty batches, no rows, or a limit of zero |
| BoundedPrinting.PrintedLines | datafusion/datafusion-cli/src/print_format.rs:158-186 | no rows print the header table, a limit of zero nothing, more rows than the limit the limit plus seven lines, anything else four lines and those of every row |
| BoundedPrinting.CollectAndPrint | datafusion/datafusion-cli/src/exec.rs:290-317 | collecting with the limit and printing what was kept prints what printing the whole stream would |
| BoundedPrinting.UnlimitedPrintCompleteIff | datafusion/datafusion-cli/src/exec.rs:366-390 | with the limit lifted for printing only, the print is that of the whole result if and only if every non-empty batch starts less than its own size past the limit |
| BoundedPrinting.UnlimitedPrintLosesRows | datafusion/datafusion-cli/src/exec.rs:366-390 | for every limit some result is then printed incompletely |
| AdapterCodec.Find | datafusion/datafusion-examples/examples/custom_data_source/adapter_serialization.rs:462-466 | the first position at which a pattern matches, if any |
| AdapterCodec.ExtractTagIff | datafusion/datafusion-examples/examples/custom_data_source/adapter_serialization.rs:460-472 | a tag is extracted from any Debug output if and only if the output names the factory and the tag stands between its first `tag: "` and the next quote |
| AdapterCodec.PlainIff | datafusion/datafusion-examples/examples/custom_data_source/adapter_serialization.rs:460-472 | text survives Debug formatting if and only if it is printable and has no quote, backslash, newline, carriage return, tab or NUL |
| AdapterCodec.UnquotedTag | datafusion/datafusion-examples/examples/custom_data_source/adapter_serialization.rs:460-472 | a tag without quotes comes out escaped |
| AdapterCodec.QuotedTag | datafusion/datafusion-examples/examples/custom_data_source/adapter_serialization.rs:460-472 | a tag with a quote comes out escaped up to the quote, with a backslash in its place |
| AdapterCodec.TagSurvivesIff | datafusion/datafusion-examples/examples/custom_data_source/adapter_serialization.rs:460-472 | extraction from Debug output always finds a tag, and the right one if and only if no character needs escaping |
| AdapterCodec.EncodesIff | datafusion/datafusion-examples/examples/custom_data_source/adapter_serialization.rs:300-370 | encoding succeeds if and only if the plan has no node the library cannot serialize |
| AdapterCodec.DecodeEncoded | datafusion/datafusion-examples/examples/custom_data_source/adapter_serialization.rs:314-414 | decoding what was encoded gives the same tree with each scan's adapter replaced by what its Debug output yields |
| AdapterCodec.RoundTripIff | datafusion/datafusion-examples/examples/custom_data_source/adapter_serialization.rs:314-494 | a plan round-trips if and only if every scan, at any depth, has no adapter or a metadata adapter with a plain tag, and every node is serializable |
| AdapterCodec.QuotedTagChanges | datafusion/datafusion-examples/examples/custom_data_source/adapter_serialization.rs:460-472 | a scan with the tag `a"b` is encoded, and comes back with the tag cut at the quote |
| AdapterCodec.ForeignAdapter | datafusion/datafusion-examples/examples/custom_data_source/adapter_serialization.rs:314-370 | a foreign adapter comes back as the metadata adapter of the tag in its Debug output, and is dropped if and only if there is none |
| AdapterCodec.RoutesAgree | datafusion/datafusion-examples/examples/custom_data_source/adapter_serialization.rs:272-298 | on messages whose marked extensions have one input, intercepting and decoding through try_decode give the same result |
| AdapterCodec.RoutesAgreeIff | datafusion/datafusion-examples/examples/custom_data_source/adapter_serialization.rs:272-298 | on a marked extension whose inputs decode the two routes agree if and only if it has exactly one input; without inputs the errors differ, with several only try_decode fails |
| RequestSummaries.RequestSummary.Push | datafusion/datafusion-cli/src/object_storage/instrumented.rs:710-733 | counts the request and pushes its duration and size, if any, into statistics that start at the type's extremes; sizes wrap at 64 bits and an overflowing duration sum panics |
| RequestSummaries.Record | datafusion/datafusion-cli/src/object_storage/instrumented.rs:569-578 | one step updates exactly the summary of the request's operation, or panics if its durations overflow |
| RequestSummaries.Group | datafusion/datafusion-cli/src/object_storage/instrumented.rs:567-578 | panics if and only if the durations of some operation do not fit in a Duration; otherwise one entry per occurring operation, with count, minimum, maximum and sum of its requests |
| RequestSummaries.Summarize | datafusion/datafusion-cli/src/object_storage/instrumented.rs:567-583 | same panic condition; otherwise one summary per occurring operation, strictly ordered, each the statistics of its requests, for every order of draining the map |
| RequestSummaries.SummaryOrder | datafusion/datafusion-cli/src/object_storage/instrumented.rs:580-582 | the summaries come in the order copy, delete, get, head, list, put, without the operations that do not occur |
| RequestSummaries.SizesWrap | datafusion/datafusion-cli/src/object_storage/instrumented.rs:710-733 | the sum of sizes is the true sum modulo 2^64 |
| RequestSummaries.SummariesDetermined | datafusion/datafusion-cli/src/object_storage/instrumented.rs:567-583 | permuting the requests changes neither whether it panics nor the result |
| RequestSummaries.CountsAddUp | datafusion/datafusion-cli/src/object_storage/instrumented.rs:710-711 | the counts add up to the number of requests |
| RequestSummaries.AverageIsMeanIff | datafusion/datafusion-cli/src/object_storage/instrumented.rs:633-636 | the average shown for sizes is their mean if and only if every request of the operation recorded a size and their sum fits in 64 bits, or all recorded sizes are zero |
| RequestSummaries.DurationAverageIsMeanIff | datafusion/datafusion-cli/src/object_storage/instrumented.rs:629-632 | the average shown for durations is their mean if and only if no request of the operation has a duration of zero |
| RequestSummaries.SizeAverageBelowMinimum | datafusion/datafusion-cli/src/object_storage/instrumented.rs:623-639 | a plain and a multipart upload for which the average size shown is half of the minimum shown |
| RequestSummaries.DurationAverageBelowMinimum | datafusion/datafusion-cli/src/object_storage/instrumented.rs:623-639 | two listings, one never polled, for which the average duration shown is half of the minimum shown |
| FirstItemTimer.TimeToFirstItemStream.PollNext | datafusion/datafusion-cli/src/object_storage/instrumented.rs:77-92 | passes the answer through, sets the start once, and stores the time since the start only at the first ready answer |
| FirstItemTimer.Drive | datafusion/datafusion-cli/src/object_storage/instrumented.rs:53-93 | over every poll history the answers are the inner stream's; nothing is stored while all are pending, and otherwise the shared duration is written exactly once, with the time from the first poll to the first ready answer: exact when it fits in 64 bits, else modulo 2^64, zero if the clock went back |
| FirstItemTimer.MeasuresUnique | datafusion/datafusion-cli/src/object_storage/instrumented.rs:84-88 | at most one value is the time between two clock readings in this sense |

## Left out

- Floating point: values, ratios, scores and benefits are `real`; rounding and the concrete exponential are not modelled, and the logistic function is a parameter with values in (0, 1).
- Training, CSV aggregation, plotting, metrics, the initial score's logarithm, and write-up patching in `ml/`: library calls and file output.
- The order in which pandas lists groups and rows: groups may come in any order, and aggregated rows are the input. Between rows of a query with equal column names, which aggregation excludes, single_hop takes the earlier.
- The real SQL parser and executor, readline, hints, highlighting, signals, the reservation of memory while collecting: parameters or omitted.
- The table renderer is a parameter. For at least one batch it is assumed to print three header lines, for each row the number of lines its cells need (at least one), and a bottom border, and to print equal rows alike however they are split into batches; nothing is assumed of it for no batches. Tables without columns and formats other than Table are not modelled. Widths count characters, which for the ASCII border is its length in bytes.
- Row counters: collection is stated for streams of at most 2^64 - 1 rows, where the counter does not overflow.
- Position-dependent escaping of combining characters in Rust's Debug output, and the JSON text of the payload: serde_json's round trip is taken as given.
- `$0`: the subtraction wraps as in an optimised build and then fails as a missing argument; a build with overflow checks panics instead.
- Overflow checks on sums of sizes: they wrap as in an optimised build; a build with overflow checks panics instead.
- Concurrent use of the instrumented registry, object-store builders, catalogs, benchmark runners and release scripts.
