# prep-gtests, modelled in Dafny

prep-gtests reads one or more Googletest logs named on its command line,
picks the suite summary lines written with the singular `test from`
(`[----------] 1 test from SuiteAlpha (123 ms total)`) out of each log, and prints a table: one column per run, one row per test
suite (slowest first), and a last column with the suite's speed-up
percentage between its slowest and its fastest run.

The model follows `prep-gtests.cpp` piece by piece:

- `SuiteTime` (`suite_time.dfy`) gives the meaning of the search pattern
  `] [0-9]+ test from ([a-zA-Z]+).*[(]([0-9]+) ms total`. It defines what a
  match is (`MatchAt`) and which match a leftmost, greedy search reports
  (`IsSearchResult`), and computes that match directly (`Search`, `Extract`).
  `SuiteTimeExamples` (`suite_time_examples.dfy`) works the extractor out
  on concrete log lines.
- `LogParse` (`log_parse.dfy`) is `parselogfile`: a loop over the lines of
  one log that inserts each match into the run's results map. The map is a
  `std::map` filled with `insert`, so the first line naming a suite decides
  its duration.
- `CommandLine` (`command_line.dfy`) is the argument loop of `main`, with
  `--as <title>` and its two usage errors.
- `CrossRun` (`cross_run.dfy`) is the fold over runs. It keeps the per-run
  results, the per-suite minimum, maximum and percentage, the per-run total
  and the longest suite name. Each loop is a method. Each method is proved
  against `Summarizes`, which says what the six tables hold after a given
  sequence of runs (a `History`).
- `Report` (`report.dfy`) covers the output. It has the padded, tab-separated
  header and the rows of 14-character cells. It also copies the
  `(suite, maximum)` pairs and sorts them slowest first; the sort works in
  place on an array.
- `PrepGtests` (`prep_gtests.dfy`) puts `main` together: `PrepareReport`.

Reading a file is the parameter `readLines`, which gives the lines of a file
by name. What `main` prints is the list of lines that `PrepareReport`
returns. A usage error is a `Failure` value; it stands for the usage text
and exit status 1.

Where the code and a plain reading of the tool's purpose differ, the model
follows the code:

- Within one log, a suite named twice keeps its first duration, because
  `std::map::insert` never overwrites.
- Across runs, two runs with the same display name both show the first
  run's results (`runresults.insert`). Their totals, however, add up
  (`runtotal[runname] +=`).
- Only summary lines with the singular ` test from ` match the pattern.
  Googletest writes `N tests from …` for a suite of N != 1 tests, and
  those lines are skipped, so such suites never appear in the table.
- `a --as b --as` is not a usage error. The second `--as` has nothing after
  it, so it is taken as a file of its own.

## Model

| member | source | states |
|---|---|---|
| SuiteTime.Span | prep-gtests.cpp:28 | the run of `[0-9]` or `[a-zA-Z]` characters starting at a position is taken whole: all of it is in the class and the next character is not |
| SuiteTime.SpanExact | prep-gtests.cpp:28 | a run of class characters that is not followed by another one is exactly the one `Span` finds |
| SuiteTime.LastTrailer | prep-gtests.cpp:28 | finds the last position below a bound where `(digits ms total` starts, and no later one exists; none means no such position at all |
| SuiteTime.FirstHeader | prep-gtests.cpp:28 | finds the first position where `] digits test from letters` starts with its name ending in time for `.*` to reach a given `(`, and no earlier one exists |
| SuiteTime.MatchReachesLastTrailer | prep-gtests.cpp:28 | in every match the `(` is at or before the last trailer of the line, and the header can reach that trailer too |
| SuiteTime.Search | prep-gtests.cpp:27-29 | no result exactly when the pattern matches nowhere; otherwise the earliest header position that matches and, for it, the furthest `(` (greedy `.*`) |
| SuiteTime.SearchFinds | prep-gtests.cpp:29 | a match with no header before it and no trailer after it is the one the search reports |
| SuiteTime.Extract | prep-gtests.cpp:29 | no result exactly when nothing matches; otherwise the name capture and the duration capture of the reported match |
| SuiteTime.NameCapture | prep-gtests.cpp:28 | the name capture of a header is non-empty, all letters, right after ` test from `, and not followed by a letter |
| SuiteTime.SuiteNameIsMaximalLetterRun | prep-gtests.cpp:28 | the suite name extracted from a line is a non-empty run of letters right after ` test from `, cut short by a digit, `_`, `.` or any other non-letter |
| SuiteTime.DurationIsLastGroup | prep-gtests.cpp:28 | the duration extracted from a line is the value of the last `(digits ms total` group of the line |
| SuiteTime.NoTestFromNoMatch | prep-gtests.cpp:28 | a line without the singular ` test from ` never matches |
| SuiteTime.NoMsTotalNoMatch | prep-gtests.cpp:28 | a line without ` ms total` never matches; no `)` is looked for |
| SuiteTimeExamples.ExtractByChars | prep-gtests.cpp:27-29 | conditions on the characters of a line under which the search reports a given header and trailer, with the captures they hold |
| SuiteTimeExamples.CountNotFollowedByTestFrom | prep-gtests.cpp:28 | without ` test from ` right after the count digits there is no header |
| SuiteTimeExamples.ExtractFixture | prep-gtests.cpp:37-38 | `xx] 3 test from SuiteAlpha (123 ms total)` yields `("SuiteAlpha", 123)` |
| SuiteTimeExamples.ExtractUnclosed | prep-gtests.cpp:28 | the same line without its closing `)` yields the same result |
| SuiteTimeExamples.ExtractDigitInName | prep-gtests.cpp:28 | in `xx] 1 test from Suite2 (5 ms total)` the digit ends the name: `("Suite", 5)` |
| SuiteTimeExamples.ExtractTwoGroups | prep-gtests.cpp:28 | with `(1 ms total) (2 ms total)` the later group gives the duration, 2 |
| SuiteTimeExamples.ExtractPluralLine | prep-gtests.cpp:28 | the plural line `xx] 3 tests from SuiteAlpha (123 ms total)` does not match |
| LogParse.Insert | prep-gtests.cpp:37-38 | `std::map::insert`: the key is present afterwards, an existing value is kept, a new key gets the new value, other keys are unchanged |
| LogParse.CollectFirstWins | prep-gtests.cpp:21-40 | after inserting a sequence of matches, a suite is a key exactly when some match names it, and its value comes from the first such match |
| LogParse.RunSuitesFirstWins | prep-gtests.cpp:21-40 | the results of a log have as keys exactly the suites some line names, each with the duration of the first line naming it |
| LogParse.RunSuitesStep | prep-gtests.cpp:21-40 | one more line changes the results only by a first-wins insert of its match |
| LogParse.RunSuitesInRange | prep-gtests.cpp:38 | if every extracted duration is in 1..INT_MAX, so is every value of the results |
| LogParse.ParseLogFile | prep-gtests.cpp:17-41 | the loop over the lines leaves exactly the first-wins results of the log |
| CommandLine.ArgRuns | prep-gtests.cpp:57-77 | no more runs than arguments; the first run's file is the first argument; the only scan error is a missing title |
| CommandLine.ArgRunsStep | prep-gtests.cpp:64-76 | the scan at a position takes `file --as title` as one run, fails on a `--as` with no title, and otherwise takes the file as a run named after itself |
| CommandLine.ParseArgs | prep-gtests.cpp:57-84 | the argument loop yields the runs the scan describes, or MissingTitle, or NoFiles when no file is given |
| CommandLine.RunFilesAreArgs | prep-gtests.cpp:60-76 | every run's file is one of the arguments |
| CommandLine.ArgRunsOfArgsOf | prep-gtests.cpp:57-77 | writing runs out as arguments and scanning them back gives the same runs, provided no file is called `--as` |
| CommandLine.NoFilesIffEmpty | prep-gtests.cpp:79-84 | the NoFiles error happens exactly for an empty argument list |
| CommandLine.TrailingAsIsMissingTitle | prep-gtests.cpp:64-72 | a `--as` that is the last argument, right after a file, is the MissingTitle error after any runs written out as arguments |
| CommandLine.MissingTitleEndsWithAs | prep-gtests.cpp:64-72 | conversely, MissingTitle only happens when the last argument is `--as` |
| CommandLine.SecondAsBecomesAFile | prep-gtests.cpp:64-76 | `a --as b --as` gives the runs `(a, b)` and `(--as, --as)` |
| CommandLine.MixedTitles | prep-gtests.cpp:57-77 | `base.log new.log --as New` gives `(base.log, base.log)` and `(new.log, New)` |
| CrossRun.MinMaxOfBounds | prep-gtests.cpp:107-117 | folding `std::min` from INT_MAX and `std::max` from 0 over durations that fit an `int` gives a minimum and a maximum that bound every duration and are durations themselves |
| CrossRun.Pct | prep-gtests.cpp:119 | for `0 < min <= max`, the arguments the fold passes, the percentage is never negative, and is 0 when they are equal |
| CrossRun.PctIsRoundedVariation | prep-gtests.cpp:119 | for `0 < min <= max` the percentage is `(max - min) * 100 / min` truncated, which is what line 119 computes there |
| CrossRun.PctOfHundredAndHundredFifty | prep-gtests.cpp:119 | 100 ms and 150 ms give 50 |
| CrossRun.DurationsEmpty | prep-gtests.cpp:108-111 | a suite has been seen exactly when it has some duration |
| CrossRun.DurationFrom | prep-gtests.cpp:105-117 | each duration recorded for a suite is its value in some run that has it |
| CrossRun.DurationIn | prep-gtests.cpp:105-117 | the suite's value in every run that has it is among its recorded durations |
| CrossRun.SuitesMembers | prep-gtests.cpp:99-111 | a suite has been seen exactly when some run has it |
| CrossRun.StartSuiteStats | prep-gtests.cpp:93-99 | a run none of whose suites is folded yet leaves the minimum, maximum and percentage tables right |
| CrossRun.StartTotals | prep-gtests.cpp:93-99 | a run none of whose suites is folded yet leaves the totals right |
| CrossRun.StartLongest | prep-gtests.cpp:93-99 | a run none of whose suites is folded yet leaves the longest name right |
| CrossRun.StepSuiteAtNew | prep-gtests.cpp:107-118 | after folding one more duration of a suite, its new minimum and maximum are those of all its durations so far, with `0 < min <= max` |
| CrossRun.StepSuiteStats | prep-gtests.cpp:107-120 | folding one duration keeps every suite's minimum, maximum and percentage right, and the tables' keys the suites seen |
| CrossRun.StepTotals | prep-gtests.cpp:125 | `runtotal[runname] += execution` keeps every run name's total the sum of its runs' durations |
| CrossRun.StepLongest | prep-gtests.cpp:103-104 | keeping the longer of the two names keeps the longest name a seen suite, at least as long as every other |
| CrossRun.FoldSuite | prep-gtests.cpp:99-126 | the body of the loop over one run's results keeps all per-suite tables, the totals and the longest name right |
| CrossRun.FinishRun | prep-gtests.cpp:96-127 | once every suite of a run is folded, the tables describe the runs so far plus this one |
| CrossRun.FoldRun | prep-gtests.cpp:87-127 | folding one run takes tables that describe the runs so far to tables that describe them plus this run |
| CrossRun.EmptySummarizesNothing | prep-gtests.cpp:47-53 | the empty tables `main` starts from describe no runs |
| CrossRun.Aggregate | prep-gtests.cpp:87-127 | the loop over runs leaves tables that describe all runs, each with the results parsed from its log, provided the results kept for each run are in 1..INT_MAX |
| CrossRun.RunsInRangeHistory | prep-gtests.cpp:87-99 | when each run's kept results are in 1..INT_MAX, so is every value of the history the loop over runs folds |
| CrossRun.SuiteMinMax | prep-gtests.cpp:107-120 | after any prefix of the runs, a suite has a minimum exactly when some run has it; the minimum and maximum bound all its durations, are durations it had, satisfy `min <= max`, and its percentage is `Pct(max, min) >= 0` |
| CrossRun.EqualDurationsNoSpeedup | prep-gtests.cpp:119 | when every run that has a suite took equally long on it, its percentage is 0 |
| CrossRun.SingleRunNoSpeedup | prep-gtests.cpp:119 | after a single run no suite shows a speed-up |
| CrossRun.TwoRunsSpeedup | prep-gtests.cpp:107-120 | a suite at 100 ms and then 150 ms has minimum 100, maximum 150 and percentage 50 |
| CrossRun.RunTableFirstWins | prep-gtests.cpp:96 | a run name has results exactly when some run has that name, and they are those of the first such run |
| CrossRun.RunTotalOutsideKeys | prep-gtests.cpp:125 | a run name without a total entry has nothing to add up |
| CrossRun.DistinctRunTotal | prep-gtests.cpp:125 | with distinct run names, each run's total is the sum of its own durations |
| CrossRun.NoRunTotal | prep-gtests.cpp:125 | a name no run has has a total of 0 |
| Report.Pad | prep-gtests.cpp:131 | `std::setw(w)` makes a field of `w` characters, or the text itself when it is longer |
| Report.PadShape | prep-gtests.cpp:152 | padding never cuts the text: the field is spaces followed by the whole text |
| Report.NatToStringDigits | prep-gtests.cpp:157 | a number is written as digits only, with no leading zero |
| Report.DecimalValueOfNatToString | prep-gtests.cpp:157 | reading the written digits back gives the number |
| Report.NatToStringOfDecimalValue | prep-gtests.cpp:157 | a digit string without a leading zero is how its own value is written |
| Report.NatToStringLength | prep-gtests.cpp:157 | a number below `10^d` takes at most `d` characters |
| Report.FieldsOfJoin | prep-gtests.cpp:131-138 | splitting the header at its tabs gives back its fields when no field holds a tab |
| Report.HeaderFieldsReadBack | prep-gtests.cpp:131-138 | the header splits into the padded `"Test Suite"`, each run name quoted in command-line order, and `"Speedup Percent / Variation"` |
| Report.RenderHeader | prep-gtests.cpp:130-138 | the header written field by field is the header line |
| Report.CellLength | prep-gtests.cpp:157 | a cell of a number with at most 12 digits is 14 characters wide |
| Report.CellShape | prep-gtests.cpp:157 | a cell is spaces followed by the number's digits |
| Report.CellReadsBack | prep-gtests.cpp:157 | a cell read back, spaces dropped, is the number written into it |
| Report.ConcatBlock | prep-gtests.cpp:155-158 | in cells of 14 characters written one after another, cell `k` starts at character `14 * k` |
| Report.RowLayout | prep-gtests.cpp:149-162 | a row is the suite name padded to `w`, then one 14-character cell per run with the suite's duration in that run (0 when missing), then the percentage's cell |
| Report.RenderRow | prep-gtests.cpp:152-161 | the row written cell by cell is that row |
| Report.CopyEntries | prep-gtests.cpp:141-142 | the copied pairs are exactly the entries of the maximum table, each once |
| Report.Swap | prep-gtests.cpp:143-146 | exchanging two pairs keeps the same pairs |
| Report.InsertAt | prep-gtests.cpp:143-146 | inserting one more pair into a slowest-first prefix keeps it slowest first, the prefix holds the same pairs as before, and nothing after it moves |
| Report.SortDescending | prep-gtests.cpp:143-146 | the sorted pairs are a permutation of the input with non-increasing maxima |
| Report.SortedSuites | prep-gtests.cpp:141-146 | the row order holds every suite once with its maximum, slowest first |
| Report.EntriesOfFacts | prep-gtests.cpp:141-146 | each pair is a suite with its maximum, every suite has a pair, no suite has two, and there are as many pairs as suites |
| Report.SlowestFirst | prep-gtests.cpp:143-149 | the first row is a slowest suite of all |
| Report.RenderRows | prep-gtests.cpp:148-162 | the loop over the sorted pairs writes one row per pair, in order |
| Report.Table | prep-gtests.cpp:129-162 | the output is the header followed by one line per suite |
| PrepGtests.PrepareReport | prep-gtests.cpp:43-171 | `main` fails exactly when the arguments are a usage error, with that error; otherwise it writes the header and one row per suite, slowest first, for the tables folded from the runs' logs |
| PrepGtests.LogsGiveRunsInRange | prep-gtests.cpp:37-38 | if every duration a run's log yields, kept or not, is in 1..INT_MAX, the precondition of `PrepareReport` holds for that run |
| PrepGtests.RunTableInRange | prep-gtests.cpp:157 | every value in the per-run results fits an `int` |
| PrepGtests.PctFits | prep-gtests.cpp:119 | a percentage of durations that fit an `int` is non-negative and has at most 12 digits |
| PrepGtests.TableRowFits | prep-gtests.cpp:130-161 | every suite name fits the first column, and every number in its row fits its 12-character field |
| PrepGtests.ColumnShowsFirstRunOfName | prep-gtests.cpp:157 | the column of a run shows the durations of the first run with the same name, 0 for a suite that run lacks |
| PrepGtests.DistinctNamesOwnColumn | prep-gtests.cpp:157 | with distinct run names each column shows its own run's durations |

## Left out

- Reading files. `jaw::reader` (`line-reader.hpp`) is not part of this model. A log is the sequence of lines `readLines` gives for its name. A file that cannot be opened is not modelled.
- The ctre engine. Only the meaning of the pattern is modelled, not how the library matches it.
- Standard error, the usage text and `exit(1)`. A usage error is a `Failure` result. Line ends (`std::endl`) are left off the returned lines.
- The iteration order of `std::map`. The loops over a run's results and over the maximum table take keys in any order. The tables do not depend on that order. The one exception is which of several equally long suite names becomes `longestsuitename`, and only its length is ever used.
- CrossRun.Pct: integer arithmetic instead of `double`, and only for `0 < min <= max`, the only arguments the fold passes. For durations in 1..INT_MAX, `max * 100.0 / min` is at least 100 there, and truncating it minus 100 toward zero equals the integer quotient minus 100. For `max < min` the source would truncate a negative number toward zero, and that case is not modelled.
- PrepGtests.PrepareReport: requires that, when the arguments parse, the results kept for each run (after first-wins) are in 1..INT_MAX. A kept `0 ms total` makes the percentage a division by zero followed by an undefined conversion, and a kept value above INT_MAX cannot come out of `to_number<int>`. Lines whose suite was already recorded, and arguments that are titles or `--as`, are unconstrained.
- CrossRun.Aggregate: has the same requirement on the kept results of each run, for the same reasons.
- `to_number<int>` overflow on a line whose suite was already recorded: the source converts that duration before `insert` discards it. The model never uses that value, so the overflow is not modelled.
- CrossRun.StepTotals: totals are unbounded, so the `int` overflow of `runtotal[runname] += execution` is not modelled. The totals are never printed.
- PrepGtests.PctFits: the `int(...)` conversion of a percentage above INT_MAX is undefined. That takes a suite more than about 21 million times slower in one run than in another. The model keeps the exact value.
- Report.SortDescending: promises only sorted and permuted, which is all `std::sort` promises. It is an insertion sort, and the order of suites with equal maxima is left open, as it is for the unstable `std::sort`.
- Report.RowLayout: requires the suite name to fit the first column and every number to fit 12 digits. PrepGtests.TableRowFits shows that both always hold for the tables `main` builds.
- `runresults[run.second][suite.first]` default-inserts missing entries. This does not change the output, and `Lookup` yields the same 0 without inserting.
