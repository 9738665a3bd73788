# Greedy entropy-based outlier detection, modelled in Dafny

This project models the core of `greedy_outlier_entropy.cpp`. The program
reads a comma-separated file of categorical data points (rows of string
features). It builds an occurrence table holding, for each dimension, the
number of rows that carry each value. It then marks `k` rows as outliers
greedily: in every round it marks the row whose removal lowers the dataset's
entropy the most, and it stops early with an error when no row lowers it.
Finally it writes the rows that are not outliers back out, joined by commas.

The model is split into modules:

- `Rows` defines rows, the "every row has d fields" invariant (`Uniform`)
  and `Active`, the rows not marked as outliers, in their original order.
- `OccurrenceTable` defines the occurrence table:
  - `Tally` is its reference definition: per dimension, the multiset count
    of each value in the column;
  - `CountOccurrences` is the counting loop of `read`;
  - `MarkOutlier` is `mark_outlier`, including the `size_t` wrap-around of
    `--` on a missing key;
  - the class `Dataset` holds `data` and `occurrences`, the table that
    `greedy_outliers` reassigns in place.
- `Entropy` states the factorised entropy estimate (a sum over dimensions
  and values of a per-count term) over an abstract term, and proves that it
  is non-negative.
- `Reader` covers `read`:
  - the line and field splitting, with the semantics of `std::getline`;
  - the dimension check;
  - the construction of the dataset.
- `Selector` is `greedy_outliers`:
  - `ScanRound` is one round's scan;
  - `GreedyOutliers` is the whole loop;
  - `ValidTrace` describes a run as the sequence of round winners.

  The entropy function is a parameter, so every property of the selector
  holds whatever entropy the program computes.
- `Writer` covers `write_data`: the comma join of a row and the filter that
  skips outliers. It also proves that what is written reads back as the
  non-outlier rows, provided no field holds a comma or a newline and no row
  ends in an empty field. The program does not reproduce its input lines
  exactly. A line that ends in a comma loses that comma when it is written
  back (`1,2,a,` is read as three fields and written as `1,2,a`). A line
  `a,,` is read as `["a", ""]` and written as `a,`, which reads back as
  `["a"]`. `Writer.JoinSplit` states exactly which lines survive.

## Model

| member | source | states |
|---|---|---|
| `OccurrenceTable.CountOccurrences` | greedy_outlier_entropy.cpp:77-86 | The table built by the counting loop of `read` equals `Tally`: for each dimension, each value is mapped to the number of rows that carry it. |
| `OccurrenceTable.TallyCounts` | greedy_outlier_entropy.cpp:78-86 | A value is in dimension i's map if and only if some row carries it there. Its count is its multiplicity in that column and is positive. |
| `OccurrenceTable.DimensionSum` | greedy_outlier_entropy.cpp:78-86 | In every dimension the counts add up to the number of rows. |
| `OccurrenceTable.TallyBounded` | greedy_outlier_entropy.cpp:78-86 | Every count in the table lies between 1 and the number of rows. |
| `OccurrenceTable.MarkOutlier` | greedy_outlier_entropy.cpp:20-33 | The returned table is a copy of the dataset's table with the row's values removed, one per dimension (`RemoveRow`). This includes the `size_t` wrap-around when a value is missing. |
| `OccurrenceTable.RemoveRowEffect` | greedy_outlier_entropy.cpp:23-31 | For a row whose values are present: its value loses exactly one count and is erased when the count reaches zero. Every other value, and every other dimension, is unchanged. |
| `OccurrenceTable.RemoveRowPositive` | greedy_outlier_entropy.cpp:26-30 | Removing a present row leaves no zero counts in the table. |
| `OccurrenceTable.UnmarkedHolds` | greedy_outlier_entropy.cpp:25-27 | Every value of a row that is not marked is present in the table of unmarked rows. So the decrement never wraps during the greedy run. |
| `OccurrenceTable.CommitRemoval` | greedy_outlier_entropy.cpp:171-172 | Removing row j from the table of the unmarked rows gives the table of the unmarked rows once j is also marked. |
| `Entropy.EntropyNonNegative` | greedy_outlier_entropy.cpp:107-119 | The summed entropy of a table of frequencies (every count between 1 and n) is not negative when each term is not negative on probabilities. |
| `Entropy.LastRoundScore` | greedy_outlier_entropy.cpp:156-158 | In the last round of a run with k equal to the number of rows, removing the one row left empties every dimension (the table of no rows), and the entropy of that table over 0 rows is exactly 0 for any term. |
| `Entropy.ActiveEntropyNonNegative` | greedy_outlier_entropy.cpp:145-158 | The entropy of the table of the rows left after any marking is not negative. |
| `Reader.Split` | greedy_outlier_entropy.cpp:56-63 | No token produced by the getline split contains the delimiter. |
| `Reader.SplitTrailingDelimiter` | greedy_outlier_entropy.cpp:56-63 | For every text that is not empty and does not end in the delimiter, appending one delimiter leaves its split unchanged: that delimiter ends the last token and opens no empty one. |
| `Reader.SplitEmptyFields` | greedy_outlier_entropy.cpp:60-63 | A delimiter opens an empty field before it, but not after it at the end: `","` gives `[""]` and `"a,,"` gives `["a", ""]`. |
| `Reader.CheckDimensions` | greedy_outlier_entropy.cpp:67-75 | For non-empty data, the check succeeds if and only if every row has as many fields as the first row, and it returns that number. Otherwise it fails with the uneven-dimensions error. Empty data fails with its own error. |
| `Reader.Read` | greedy_outlier_entropy.cpp:49-93 | A file that cannot be opened fails. Otherwise: success holds if and only if the parsed rows are non-empty and uniform; the dataset's data is the parsed rows; its table has one entry per dimension and is their tally; every other case reports its error. |
| `Selector.ScanRound` | greedy_outlier_entropy.cpp:151-170 | The scan finds no winner if and only if no unmarked row's removal scores below the current best. Otherwise the winner is unmarked, scores below the best and is minimal among the unmarked rows, with ties going to the lowest index. The best entropy is updated to the winner's score. |
| `Selector.WinnerUnique` | greedy_outlier_entropy.cpp:152-164 | A round has at most one winner. |
| `Selector.NoWinnerWhenNoneImproves` | greedy_outlier_entropy.cpp:159-170 | A round in which no candidate scores below the best has no winner. |
| `Selector.GreedyOutliers` | greedy_outlier_entropy.cpp:138-175 | If k exceeds the row count it fails before any work and the table is unchanged. Otherwise the run is a valid trace of round winners and the live table is the tally of the unmarked rows. On success there are exactly k outliers (the trace's indices, all row indices) and the entropy is the last round's best. On failure the run stopped at a round where no unmarked row improved. |
| `Selector.CommitRound` | greedy_outlier_entropy.cpp:171-172 | Committing a round's winner extends a valid trace. The table `mark_outlier` returns is the tally of the rows left, and the winner is a new row index. |
| `Selector.TraceRound` | greedy_outlier_entropy.cpp:149-172 | Every round of a valid run was won by an unmarked row index that scores below the previous best, and the winners are distinct. |
| `Selector.BestsDecrease` | greedy_outlier_entropy.cpp:159-161 | The best entropy strictly decreases from round to round. |
| `Selector.TracesAgree` | greedy_outlier_entropy.cpp:149-172 | The run is deterministic: two valid runs over the same data and entropy function pick the same winners and the same best entropies, round by round, for as many rounds as both have. |
| `Selector.TraceOutliers` | greedy_outlier_entropy.cpp:147-171 | A run's outlier set has exactly one index per round, and at most as many as there are rows. Every index is a row index. |
| `Writer.WriteRow` | greedy_outlier_entropy.cpp:187-194 | The line written for a row is its fields joined by commas (no leading comma), followed by a newline. |
| `Writer.WriteData` | greedy_outlier_entropy.cpp:196-203 | The output is the rows that are not outliers, in their original order, each written as one line. |
| `Writer.SplitJoin` | greedy_outlier_entropy.cpp:60-63 | Reading back a joined row of comma-free fields gives the row if and only if the row is empty or its last field is not empty. |
| `Writer.JoinSplit` | greedy_outlier_entropy.cpp:60-63 | Writing back the fields read from a line gives the line if and only if the line is empty or does not end in a comma. |
| `Writer.TrailingEmptyFieldLost` | greedy_outlier_entropy.cpp:187-194 | The line `a,,` reads as `["a", ""]`, is written as `a,`, and that reads back as `["a"]`: a trailing empty field does not survive a second round trip. |
| `Writer.ParseSerialize` | greedy_outlier_entropy.cpp:56-65 | Parsing the text of readable rows (no comma or newline in a field, no empty last field) gives the rows back. |
| `Writer.WrittenRowsReadBack` | greedy_outlier_entropy.cpp:184-204 | The text `write_data` writes for readable data reads back as the non-outlier rows. There are as many as rows minus outliers. |
| `Rows.ActiveCount` | greedy_outlier_entropy.cpp:196-203 | When every outlier is a row index, the number of rows kept is the number of rows minus the number of outliers. |

## Left out

- The numeric entropy of `entropy` (`double`, `log2` and the division by the row count) is not modelled. When no rows are left (the last round of a run with k equal to the number of rows), every map of the table is empty, so the program divides nothing and returns exactly 0; `Entropy.LastRoundScore` states this for the factorised form. Entropy is a parameter of the selector, so every selector property holds for any entropy function. `Entropy` states the factorised form over an abstract per-count term.
- Double comparisons are modelled as comparisons of `real`s. Rounding and the ordering of NaN are not modelled.
- File and stream I/O are not modelled: a file is `Option<string>` and `None` stands for a file that cannot be opened. The writer returns the output text and does not write a file.
- Exceptions are modelled as `Failure` values of `ReadError` or `SelectError`.
- `main.cpp` (argument parsing, sorting and printing the result) is not part of this model.
- Hashing and iteration order of `unordered_map` and `unordered_set` are not modelled: they are maps and sets. Only the entropy sum depends on that order, and the model keeps the sum order-free.
- `OccurrenceTable.CountOccurrences`: the `size_t` overflow of `++` is not modelled, because a count can never exceed the number of rows. The wrap-around of `--` is modelled.
- `OccurrenceTable.MarkOutlier`: its precondition (the row has no more fields than the table has dimensions) is out-of-bounds vector indexing in the program, which is undefined behaviour rather than a case to model.
- `Reader.Read`: on a file with no lines the program calls `front()` on an empty vector, which is undefined behaviour. The model reports the `EmptyData` error instead.
- `Selector.GreedyOutliers`: it is specified from a dataset whose table is the tally of all its rows. After a failed run the program leaves a reduced table in the dataset, and a second call would start from that; the model states that reduced table but does not specify runs that start from one.
- Exact reproduction of input lines by the output is not promised, because the program does not provide it: a line ending in a comma is written back without it (see `Writer.JoinSplit` and `Writer.TrailingEmptyFieldLost`). The model follows the program.
- Outlier indices are `nat`s. `reserve` and other allocation details have no observable effect and are left out.
