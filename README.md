# go-csv-sorter, modelled in Dafny

go-csv-sorter is a one-file command-line tool (`main.go`). It reads comma-separated lines and sorts the rows by one column. It then prints the result and can also write it to a file. This project models the core of that tool: `processContent` and its comparator `compare`, with the `strings.Split` / `strings.Join` calls they rely on. It then proves properties of the model.

- `fields.dfy` (module `Fields`): `strings.Split` and `strings.Join` on one separator character. `Split` and `Join` use the comma. The same definitions, with `'\n'`, cut the output text back into lines.
- `order.dfy` (module `Order`): Go's `<` on strings as an explicit lexicographic order `Less`, since Dafny's `<` on sequences means "proper prefix". It also holds `Compare` (the source's `compare`) and `Precedes`, the order a sorted key column is in.
- `sorter.dfy` (module `CsvSorter`): the imperative core. `ReadTable` is the `for scanner.Scan()` loop. `SortRows` is an in-place insertion sort on an `array` standing in for `sort.Slice`. `WriteTable` is the `strings.Builder` loop. `ProcessContent` composes the three. Each method is proved against a reference definition: `Ingest` for reading, `IsSortingOf` for sorting and `Format` for output. The guard in `main` that prints and writes only non-empty text is `Deliver`.
- `properties.dfy` (module `CsvSorterProperties`): lemmas about those reference definitions. They cover what reading yields and when it stops, what the output text consists of, and when the sorted order is unique. They also work through small inputs: what `main.go` reads from them and the text it writes.

The input is a `seq<string>` of lines, as a `bufio.Scanner` would yield them. The flags become parameters: `key` is `-f`, `isReversed` is `-r`, `hasHeader` is `-h`. The program's fatal exits become `Err` results: `log.Fatalf` on a row of the wrong width becomes `MalformedRow(got, want)`. The index-out-of-range panic on a bad column becomes `InvalidColumn(index, width)`.

The model follows the behaviour of `main.go` as written, including these details:
- The column index is never checked (main.go:77-79). A bad index fails only when the comparator runs, which needs at least two rows. With zero or one row, any index, even a negative one, gives a normal result. The model returns `InvalidColumn` exactly when there are two or more rows and the index is outside `0 <= key < width`.
- With the reverse flag, `compare` is `first >= next` (main.go:107), not a strict order. Equal keys compare "less" in both directions. The sorted result is therefore specified only as a permutation whose key column is non-increasing. No particular order among equal keys is promised.
- Every output row, the last one included, ends with `"\n"` (main.go:87). With the header flag, an empty first line becomes an empty header, and an empty header is not written (main.go:81).
- Re-sorting an already sorted table gives the same bytes when the keys are distinct (`SortingSortedIsIdentity`). Without the reverse flag, `compare(x, x, false)` is false, so rows with equal keys are never swapped into a different order by the comparator. With the reverse flag, `compare` answers true for equal keys in both orders. So rows with equal keys that differ elsewhere, such as `x,1 / x,2`, are swapped by an insertion step, and either order passes as sorted. The two orders print different text (`ReverseFlagEqualKeysUnordered`). Re-sorting with `-r` is therefore not idempotent.

## Model

| member | source | states |
|---|---|---|
| Fields.SplitCount | main.go:58-60 | a line splits into one more field than it has commas, which is the width `n` the first line fixes |
| Fields.SplitPiecesSeparatorFree | main.go:58 | no field produced by the split contains the separator |
| Fields.JoinSplit | main.go:58 | joining the fields of a line with the separator gives back the line exactly |
| Fields.SplitJoin | main.go:86 | splitting a join of one or more separator-free fields gives back those fields |
| Fields.SplitEmptyIff | main.go:66-68 | a line splits into the single empty field exactly when the line is empty |
| Order.LessIsLexLess | main.go:107 | `Less` holds exactly when, at the first position where the strings differ, the first has the smaller character, or when the first is a proper prefix of the second |
| Order.LessIrreflexive | main.go:107 | no string is less than itself |
| Order.LessAsymmetric | main.go:107 | `a < b` excludes `b < a` |
| Order.LessTransitive | main.go:107 | `a < b` and `b < c` give `a < c` |
| Order.LessTotal | main.go:107 | of two different strings, one is less than the other |
| Order.CompareForward | main.go:106-108 | without the reverse flag, `compare` is exactly strict lexicographic less-than |
| Order.CompareReverse | main.go:106-108 | with the reverse flag, `compare(a, b)` holds exactly when `a == b` or `b < a`, that is `a >= b` |
| Order.CompareTruePrecedes | main.go:77-79 | when the comparator puts `a` first, `a` may precede `b` in a column sorted in that direction |
| Order.CompareFalsePrecedes | main.go:77-79 | when the comparator does not put `a` first, `b` may precede `a` in a column sorted in that direction |
| Order.PrecedesTransitive | main.go:77-79 | the sorted-column order is transitive in each direction |
| Order.PrecedesAntisymmetric | main.go:77-79 | two keys that may each precede the other are equal |
| CsvSorter.IngestWidths | main.go:69-72 | every row appended to the table has exactly the width `n` |
| CsvSorter.ReadTable | main.go:53-73 | the reading loop returns exactly `Ingest(lines, hasHeader)`: the table, or the error for the first row of the wrong width |
| CsvSorter.SortRows | main.go:77-79 | the rows are rearranged in place into a permutation of themselves whose key column is non-decreasing, or non-increasing with the reverse flag |
| CsvSorter.WriteTable | main.go:80-89 | the text built is the header line with `\n` if the header is not empty, then each row joined with commas and ended by `\n`, in the array's order |
| CsvSorter.ProcessContent | main.go:52-90 | a reading error is returned as it is; with at least two rows and a column index outside the width the result is `InvalidColumn`; otherwise the text is the header followed by a sorted permutation of the rows read |
| CsvSorter.Deliver | main.go:27-30 | empty text is neither printed nor written; non-empty text is printed after the `sorted result:` caption with a final newline, and it is written to a file exactly when a name was given, with exactly the text under that name |
| CsvSorterProperties.IngestRowsShape | main.go:66-72 | the rows read are, in order, the fields of the leading non-empty lines, each of the width; reading stopped at the end of input or at an empty line |
| CsvSorterProperties.IngestRowsError | main.go:69-71 | a failed read reports both the width and the field count of the first non-empty line, before any empty line, whose count differs from the width |
| CsvSorterProperties.IngestShape | main.go:56-73 | the width is the first line's comma count plus one, even when that line is the header; the header is the first line under the flag and empty otherwise; the rows are the fields of the following non-empty lines, none of them from an empty line |
| CsvSorterProperties.IngestError | main.go:59-71 | a failed read is a malformed row: both counts differ, the expected one is fixed by the first line, and the got one is the field count of the first data line whose width differs, with no empty line before it |
| CsvSorterProperties.IngestRowsStopsAtBlank | main.go:66-68 | nothing after an empty line changes what is read |
| CsvSorterProperties.BlankLineEndsInput | main.go:66-68 | an empty line after the first line ends the input: the run reads exactly what it would read if the input stopped there |
| CsvSorterProperties.EmptyInput | main.go:59-68 | no lines, or an empty first line without the header flag, read as an empty table with an empty header |
| CsvSorterProperties.EmptyInputDeliversNothing | main.go:27-30 | in those two cases the output text is empty, and nothing is printed or written, whatever the sort did |
| CsvSorterProperties.FormatRowsIsLines | main.go:85-88 | the formatted rows are their comma-joined lines, each followed by a newline |
| CsvSorterProperties.FormatIsLines | main.go:80-89 | the output is the optional header line and the row lines, each followed by a newline |
| CsvSorterProperties.OutputRoundTrip | main.go:80-89 | cutting the output at newlines gives back the header (if any), then one line per row, then the empty rest |
| CsvSorterProperties.FormatEmptyIff | main.go:80-89 | the output is empty exactly when the header is empty and there are no rows |
| CsvSorterProperties.HeaderFirst | main.go:81-84 | a non-empty header followed by a newline opens the output |
| CsvSorterProperties.JoinedRowsPermutation | main.go:85-88 | two permutations of the same rows write the same multiset of lines |
| CsvSorterProperties.IngestHeader | main.go:59-64 | the header kept aside is the first line under the flag and empty otherwise |
| CsvSorterProperties.SortedRowsAreInputLines | main.go:56-88 | the sorted rows, joined back, are a permutation of the input's data lines and contain no newline when the input lines contain none |
| CsvSorterProperties.OutputLinesAreInputLines | main.go:52-90 | end to end: the output cut at newlines is the header line (the first input line, unchanged) and then lines that are a permutation of the input's data lines, given newline-free input lines |
| CsvSorterProperties.SortedUnique | main.go:77-79 | two sorted permutations of rows with distinct keys are equal, so the output does not depend on the sorting algorithm |
| CsvSorterProperties.SortingSortedIsIdentity | main.go:77-79 | sorting a table already sorted in the same direction, with distinct keys, leaves the output text unchanged |
| CsvSorterProperties.ReverseFlagReversesOrder | main.go:106-108 | with distinct keys, the reverse flag gives exactly the forward order read backwards |
| CsvSorterProperties.EqualKeysBothOrders | main.go:106-108 | with the reverse flag, two rows with the same key are each put first by the comparator, and both orders are sortings of the pair |
| CsvSorterProperties.ReverseFlagEqualKeysUnordered | main.go:77-88 | `x,1 / x,2` under the reverse flag: the comparator would swap the pair in either order, both orders are sorted, and they print different text |
| CsvSorterProperties.ExampleThreeRowsRead | main.go:56-73 | `b,2 / a,1 / c,3` without a header reads as three rows of width 2 |
| CsvSorterProperties.ExampleThreeRowsSorted | main.go:77-88 | sorted on column 0 these rows print `a,1 / b,2 / c,3`; with the reverse flag they print `c,3 / b,2 / a,1` |
| CsvSorterProperties.ExampleHeaderRead | main.go:59-64 | `name,val / b,2 / a,1` with the header flag keeps `name,val` aside and reads two rows |
| CsvSorterProperties.ExampleHeaderSorted | main.go:80-88 | those rows print as `name,val / a,1 / b,2` |
| CsvSorterProperties.ExampleMismatch | main.go:69-71 | `a,1,2 / b,3` fails on the second line, which has 2 columns where 3 were fixed |

## Left out

- Flag parsing and the banner lines in `main` (main.go:13-26, 31): these are command-line plumbing. The flags are parameters of `ProcessContent`.
- `readFromConsole` and `readFromFile` (main.go:35-50): opening the file and the `bufio.Scanner` are I/O. The input is the sequence of lines the scanner would yield. Scanner behaviour is not modelled: CR stripping, the token-size limit, and the error checked at main.go:74-76.
- `writeToFileIfPresent` (main.go:92-104): creating and writing the file is I/O. `Deliver` records only which text goes to standard output and which to the named file. File errors are not modelled.
- Process termination: `log.Fatal`, `log.Fatalf` and the runtime panic are modelled as an `Err` result that the caller receives.
- Go's `sort.Slice` algorithm (pattern-defeating quicksort): this is library code. `SortRows` is an insertion sort driven by the same comparator. Only the outcome is specified, as a permutation with the key column in order. Go asks of `less` a transitive ordering. The reverse comparator `>=` is transitive, but it is not irreflexive: it calls equal keys less in both orders. The model assumes that `sort.Slice` still returns a permutation with a non-increasing key column. Which order rows with equal keys end up in is not modelled.
- Byte strings: Go strings are bytes, compared byte by byte. The model uses `string` (`seq<char>`). For valid UTF-8 input, code-point order agrees with byte order. Invalid UTF-8 is not modelled.
- `ProcessContent`: the `ghost` result `sorted` names the row order the sort chose. The text result is stated in terms of it, because with equal keys the order is not determined.
