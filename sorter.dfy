// `processContent` in main.go: read the lines, build the table (optionally
// keeping the first line as a header), sort the rows by one column and
// format the result. The fatal exits of the program (log.Fatalf on a row of
// the wrong width, the index-out-of-range panic on a bad column) become the
// error variant of Result.
module CsvSorter {
  import opened Fields
  import opened Order

  /** One parsed line: its comma-separated fields. */
  type Row = seq<string>

  datatype Error =
    | MalformedRow(got: nat, want: nat)   // "row has %d columns, but must have %d"
    | InvalidColumn(index: int, width: nat) // table[i][sortingFieldIndex] out of range

  datatype Result<T> = Ok(value: T) | Err(error: Error)

  /** What the ingestion loop leaves behind: the header ("" when there is
      none), the width `n` fixed by the first line, and the data rows in
      input order. */
  datatype Table = Table(header: string, width: nat, rows: seq<Row>)

  // ---------------------------------------------------------------------
  // Ingestion, as a reference definition
  // ---------------------------------------------------------------------

  /** The data rows read from `lines` once the width is known: reading stops
      at the first empty line or at the end, and a non-empty line whose
      field count differs from `width` is an error. */
  function IngestRows(lines: seq<string>, width: nat): (r: Result<seq<Row>>)
  {
    if |lines| == 0 || lines[0] == "" then Ok([])
    else
      var row := Split(lines[0]);
      if |row| != width then Err(MalformedRow(|row|, width))
      else
        match IngestRows(lines[1..], width)
        case Ok(rest) => Ok([row] + rest)
        case Err(e) => Err(e)
  }

  /** Puts rows read after `table` into a Table, passing errors through. */
  function WithRows(header: string, width: nat, table: seq<Row>, rest: Result<seq<Row>>): (r: Result<Table>)
  {
    match rest
    case Ok(rows) => Ok(Table(header, width, table + rows))
    case Err(e) => Err(e)
  }

  /** The whole ingestion: the first line fixes the width (even when it is
      the header); with the header flag it is kept aside and reading goes on
      with the second line, otherwise it is read as a data line. */
  function Ingest(lines: seq<string>, hasHeader: bool): (r: Result<Table>)
  {
    if |lines| == 0 then Ok(Table("", 0, []))
    else
      var width := |Split(lines[0])|;
      if hasHeader then WithRows(lines[0], width, [], IngestRows(lines[1..], width))
      else WithRows("", width, [], IngestRows(lines, width))
  }

  /** Every row read has the width fixed by the first line. */
  lemma {:induction false} IngestRowsWidths(lines: seq<string>, width: nat)
    requires IngestRows(lines, width).Ok?
    ensures forall k :: 0 <= k < |IngestRows(lines, width).value| ==> |IngestRows(lines, width).value[k]| == width
  {
    if |lines| > 0 && lines[0] != "" {
      IngestRowsWidths(lines[1..], width);
    }
  }

  lemma IngestWidths(lines: seq<string>, hasHeader: bool)
    requires Ingest(lines, hasHeader).Ok?
    ensures forall k :: 0 <= k < |Ingest(lines, hasHeader).value.rows| ==>
      |Ingest(lines, hasHeader).value.rows[k]| == Ingest(lines, hasHeader).value.width
  {
    if |lines| > 0 {
      IngestRowsWidths(if hasHeader then lines[1..] else lines, |Split(lines[0])|);
    }
  }

  // ---------------------------------------------------------------------
  // Sorting, as a specification
  // ---------------------------------------------------------------------

  /** Every row has a field at index `key`. */
  predicate HasColumn(rows: seq<Row>, key: int)
  {
    0 <= key && forall i :: 0 <= i < |rows| ==> key < |rows[i]|
  }

  /** The key column is non-decreasing (forward) or non-increasing
      (reversed). */
  predicate SortedBy(rows: seq<Row>, key: int, reversed: bool)
    requires HasColumn(rows, key)
  {
    forall p, q :: 0 <= p < q < |rows| ==> Precedes(rows[p][key], rows[q][key], reversed)
  }

  /** `sorted` is what `sort.Slice` may leave in place of `rows`: the same
      rows, each as often, with the key column in order. With fewer than two
      rows the comparator never runs and the key is never looked at. */
  predicate IsSortingOf(sorted: seq<Row>, rows: seq<Row>, key: int, reversed: bool)
  {
    multiset(sorted) == multiset(rows)
    && (|rows| >= 2 ==> HasColumn(sorted, key) && SortedBy(sorted, key, reversed))
  }

  // ---------------------------------------------------------------------
  // Output
  // ---------------------------------------------------------------------

  /** The header line and its newline, or nothing for an empty header. */
  function HeaderText(header: string): (text: string)
  {
    if header == "" then "" else header + "\n"
  }

  /** Each row joined with commas and ended by a newline, in table order. */
  function FormatRows(rows: seq<Row>): (text: string)
  {
    if |rows| == 0 then ""
    else FormatRows(rows[..|rows| - 1]) + Join(rows[|rows| - 1]) + "\n"
  }

  /** The text `processContent` returns. */
  function Format(header: string, rows: seq<Row>): (text: string)
  {
    HeaderText(header) + FormatRows(rows)
  }

  // ---------------------------------------------------------------------
  // The imperative core
  // ---------------------------------------------------------------------

  /** Rows `lo` to `hi - 1` of `s` have their key column in order. */
  predicate SortedRange(s: seq<Row>, lo: int, hi: int, key: int, reversed: bool)
    requires HasColumn(s, key) && 0 <= lo <= hi <= |s|
  {
    forall p, q :: lo <= p < q < hi ==> Precedes(s[p][key], s[q][key], reversed)
  }

  /** The state of the inner loop of SortRows while the row that started at
      index `i` is moving down and now sits at `j`: the other rows of
      `s[..i + 1]` are in order, and the moving row may precede every row
      above it. */
  predicate Inserting(s: seq<Row>, j: int, i: int, key: int, reversed: bool)
    requires HasColumn(s, key) && 0 <= j <= i < |s|
  {
    (forall p, q :: 0 <= p < q <= i && p != j && q != j ==> Precedes(s[p][key], s[q][key], reversed))
    && (forall q :: j < q <= i ==> Precedes(s[j][key], s[q][key], reversed))
  }

  /** The inner loop starts from a sorted prefix of length `i`. */
  lemma InsertingStart(s: seq<Row>, i: int, key: int, reversed: bool)
    requires HasColumn(s, key) && 0 <= i < |s| && SortedRange(s, 0, i, key, reversed)
    ensures Inserting(s, i, i, key, reversed)
  {
  }

  /** Swapping the moving row with its lower neighbour, which the comparator
      put after it, keeps the inner loop's state. */
  lemma InsertingSwap(s: seq<Row>, j: int, i: int, key: int, reversed: bool)
    requires HasColumn(s, key) && 0 < j <= i < |s| && Inserting(s, j, i, key, reversed)
    requires Compare(s[j][key], s[j - 1][key], reversed)
    ensures var s' := s[j - 1 := s[j]][j := s[j - 1]];
      HasColumn(s', key) && Inserting(s', j - 1, i, key, reversed)
      && multiset(s') == multiset(s)
  {
    var s' := s[j - 1 := s[j]][j := s[j - 1]];
    CompareTruePrecedes(s[j][key], s[j - 1][key], reversed);
    assert s' == s[..j - 1] + [s[j], s[j - 1]] + s[j + 1..];
    assert s == s[..j - 1] + [s[j - 1], s[j]] + s[j + 1..];
  }

  /** When the moving row stops, the prefix of length `i + 1` is sorted. */
  lemma InsertingDone(s: seq<Row>, j: int, i: int, key: int, reversed: bool)
    requires HasColumn(s, key) && 0 <= j <= i < |s| && Inserting(s, j, i, key, reversed)
    requires j > 0 ==> !Compare(s[j][key], s[j - 1][key], reversed)
    ensures SortedRange(s, 0, i + 1, key, reversed)
  {
    if j > 0 {
      CompareFalsePrecedes(s[j][key], s[j - 1][key], reversed);
      forall p | 0 <= p < j - 1
        ensures Precedes(s[p][key], s[j][key], reversed)
      {
        PrecedesTransitive(s[p][key], s[j - 1][key], s[j][key], reversed);
      }
    }
  }

  /** `sort.Slice(table, less)` with `less` comparing column `key` through
      `compare`. Insertion sort by adjacent swaps stands in for Go's
      pattern-defeating quicksort; only the outcome is specified. */
  method SortRows(a: array<Row>, key: int, reversed: bool)
    requires HasColumn(a[..], key)
    modifies a
    ensures multiset(a[..]) == multiset(old(a[..]))
    ensures HasColumn(a[..], key) && SortedBy(a[..], key, reversed)
  {
    var i := 0;
    while i < a.Length
      invariant 0 <= i <= a.Length
      invariant multiset(a[..]) == multiset(old(a[..]))
      invariant HasColumn(a[..], key)
      invariant SortedRange(a[..], 0, i, key, reversed)
    {
      InsertingStart(a[..], i, key, reversed);
      var j := i;
      while j > 0 && Compare(a[j][key], a[j - 1][key], reversed)
        invariant 0 <= j <= i
        invariant multiset(a[..]) == multiset(old(a[..]))
        invariant HasColumn(a[..], key)
        invariant Inserting(a[..], j, i, key, reversed)
      {
        InsertingSwap(a[..], j, i, key, reversed);
        a[j - 1], a[j] := a[j], a[j - 1];
        j := j - 1;
      }
      InsertingDone(a[..], j, i, key, reversed);
      i := i + 1;
    }
  }

  /** One step of ingestion: a row read in front of the remaining rows may
      as well be appended to the table first. */
  lemma WithRowsStep(header: string, width: nat, table: seq<Row>, row: Row, lines: seq<string>)
    requires |lines| > 0 && lines[0] != "" && Split(lines[0]) == row && |row| == width
    ensures WithRows(header, width, table, IngestRows(lines, width))
         == WithRows(header, width, table + [row], IngestRows(lines[1..], width))
  {
    match IngestRows(lines[1..], width)
    case Ok(rest) =>
      assert table + ([row] + rest) == table + [row] + rest;
    case Err(_) =>
  }

  /** The `for scanner.Scan()` loop of `processContent`: fix the width from
      the first line, keep that line as the header when asked to, stop at an
      empty line and reject a row of the wrong width. */
  method ReadTable(lines: seq<string>, hasHeader: bool) returns (r: Result<Table>)
    ensures r == Ingest(lines, hasHeader)
  {
    var header := "";
    var n := 0;
    var table: seq<Row> := [];
    var i := 0;
    while i < |lines|
      invariant 0 <= i <= |lines|
      invariant i == 0 ==> n == 0 && header == "" && table == []
      invariant i > 0 ==> n == |Split(lines[0])| > 0
      invariant i > 0 ==> Ingest(lines, hasHeader) == WithRows(header, n, table, IngestRows(lines[i..], n))
    {
      var line := lines[i];
      var row := Split(line);
      if n == 0 {
        n := |row|;
        if hasHeader {
          header := line;
          i := i + 1;
          continue;
        }
      }
      assert Ingest(lines, hasHeader) == WithRows(header, n, table, IngestRows(lines[i..], n));
      if line == "" {
        break;
      }
      if n != |row| {
        return Err(MalformedRow(|row|, n));
      }
      WithRowsStep(header, n, table, row, lines[i..]);
      assert lines[i..][1..] == lines[i + 1..];
      table := table + [row];
      i := i + 1;
    }
    assert i == |lines| || lines[i] == "" ==> IngestRows(lines[i..], n) == Ok([]);
    assert table + [] == table;
    r := Ok(Table(header, n, table));
  }

  /** The `strings.Builder` loop of `processContent`: the header line when
      it is not empty, then every row of `a` in its current order. */
  method WriteTable(header: string, a: array<Row>) returns (text: string)
    ensures text == Format(header, a[..])
  {
    text := HeaderText(header);
    var k := 0;
    while k < a.Length
      invariant 0 <= k <= a.Length
      invariant text == HeaderText(header) + FormatRows(a[..k])
    {
      assert a[..k + 1][..k] == a[..k];
      text := text + Join(a[k]) + "\n";
      k := k + 1;
    }
    assert a[..a.Length] == a[..];
  }

  /** `processContent`: ingest `lines`, sort the rows by column `key`
      (reversed when `isReversed`), and format header and rows. The ghost
      result `sorted` is the row order the sort chose. */
  method ProcessContent(lines: seq<string>, key: int, isReversed: bool, hasHeader: bool)
    returns (r: Result<string>, ghost sorted: seq<Row>)
    ensures Ingest(lines, hasHeader).Err? ==> r == Err(Ingest(lines, hasHeader).error)
    ensures Ingest(lines, hasHeader).Ok? ==>
      var t := Ingest(lines, hasHeader).value;
      if |t.rows| >= 2 && !(0 <= key < t.width) then r == Err(InvalidColumn(key, t.width))
      else r.Ok? && IsSortingOf(sorted, t.rows, key, isReversed) && r.value == Format(t.header, sorted)
  {
    var read := ReadTable(lines, hasHeader);
    if read.Err? {
      return Err(read.error), [];
    }
    var t := read.value;
    IngestWidths(lines, hasHeader);
    if |t.rows| >= 2 && !(0 <= key < t.width) {
      return Err(InvalidColumn(key, t.width)), [];
    }
    var a := new Row[|t.rows|](k requires 0 <= k < |t.rows| => t.rows[k]);
    assert a[..] == t.rows;
    if |t.rows| >= 2 {
      SortRows(a, key, isReversed);
    }
    sorted := a[..];
    var text := WriteTable(t.header, a);
    r := Ok(text);
  }

  // ---------------------------------------------------------------------
  // The caller
  // ---------------------------------------------------------------------

  /** A file the run writes: its name and its whole content. */
  datatype FileWrite = NoFile | WriteFile(name: string, content: string)

  /** What `main` does with the text of a successful run: print it after a
      caption and, when an output file name was given, write it to that file;
      an empty text is neither printed nor written. */
  datatype Delivery = Delivery(printed: string, written: FileWrite)

  function Deliver(content: string, outputFile: string): (d: Delivery)
    ensures content == "" <==> d == Delivery("", NoFile)
    ensures content != "" ==> d.printed == "sorted result:\n" + content + "\n"
    ensures content != "" ==> (d.written == NoFile <==> outputFile == "")
    ensures d.written != NoFile ==> d.written.content == content && d.written.name == outputFile != ""
  {
    if content == "" then Delivery("", NoFile)
    else
      Delivery("sorted result:\n" + content + "\n",
               if outputFile != "" then WriteFile(outputFile, content) else NoFile)
  }
}
