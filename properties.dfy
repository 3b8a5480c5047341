// What `processContent` promises about its result, stated over the
// reference definitions of module CsvSorter: how the table is read, what
// stops the reading, what the output text consists of, and how the sorted
// order is determined.
module CsvSorterProperties {
  import opened Fields
  import opened Order
  import opened CsvSorter

  // ---------------------------------------------------------------------
  // Ingestion
  // ---------------------------------------------------------------------

  /** The rows read are the fields of the leading non-empty lines, and what
      stopped the reading is the end of the input or an empty line. */
  lemma {:induction false} IngestRowsShape(lines: seq<string>, width: nat)
    requires IngestRows(lines, width).Ok?
    ensures var rows := IngestRows(lines, width).value;
      |rows| <= |lines|
      && (forall k :: 0 <= k < |rows| ==> lines[k] != "" && rows[k] == Split(lines[k]) && |rows[k]| == width)
      && (|rows| == |lines| || lines[|rows|] == "")
  {
    if |lines| > 0 && lines[0] != "" {
      IngestRowsShape(lines[1..], width);
    }
  }

  /** A failed read names the first non-empty line before any empty line
      whose field count is not the width, with both counts. */
  lemma {:induction false} IngestRowsError(lines: seq<string>, width: nat)
    requires IngestRows(lines, width).Err?
    ensures var e := IngestRows(lines, width).error;
      e.MalformedRow? && e.want == width && e.got != width
      && exists j :: 0 <= j < |lines| && lines[j] != "" && |Split(lines[j])| == e.got
           && forall k :: 0 <= k < j ==> lines[k] != "" && |Split(lines[k])| == width
  {
    var e := IngestRows(lines, width).error;
    if |Split(lines[0])| == width {
      IngestRowsError(lines[1..], width);
      var j :| 0 <= j < |lines| - 1 && lines[1..][j] != "" && |Split(lines[1..][j])| == e.got
             && forall k :: 0 <= k < j ==> lines[1..][k] != "" && |Split(lines[1..][k])| == width;
      assert forall k :: 0 <= k < j + 1 ==> lines[k] != "" && |Split(lines[k])| == width by {
        forall k | 0 <= k < j + 1
          ensures lines[k] != "" && |Split(lines[k])| == width
        {
          if k > 0 {
            assert lines[k] == lines[1..][k - 1];
          }
        }
      }
      assert lines[j + 1] == lines[1..][j];
    } else {
      assert lines[0] != "" && |Split(lines[0])| == e.got;
    }
  }

  /** A successful read: the width is the first line's comma count plus one,
      even when that line is the header; the header is the first line when
      the flag is set and empty otherwise; the rows are, in order, the fields
      of the non-empty lines that follow (from the first line without the
      flag, from the second with it), each of exactly that width and none of
      them coming from an empty line; and reading stopped at the end or at an
      empty line. */
  lemma IngestShape(lines: seq<string>, hasHeader: bool)
    requires Ingest(lines, hasHeader).Ok?
    ensures var t := Ingest(lines, hasHeader).value;
      var start := if hasHeader && |lines| > 0 then 1 else 0;
      start + |t.rows| <= |lines|
      && (|lines| > 0 ==> t.width == multiset(lines[0])[Comma] + 1)
      && t.header == (if hasHeader && |lines| > 0 then lines[0] else "")
      && (forall k :: 0 <= k < |t.rows| ==>
            lines[start + k] != "" && t.rows[k] == Split(lines[start + k])
            && |t.rows[k]| == t.width && t.rows[k] != [""])
      && (start + |t.rows| == |lines| || lines[start + |t.rows|] == "")
  {
    if |lines| > 0 {
      var start := if hasHeader then 1 else 0;
      var width := |Split(lines[0])|;
      SplitCount(lines[0], Comma);
      IngestRowsShape(lines[start..], width);
      var rows := IngestRows(lines[start..], width).value;
      forall k | 0 <= k < |rows|
        ensures rows[k] != [""]
      {
        assert lines[start..][k] == lines[start + k];
        SplitEmptyIff(lines[start + k]);
      }
    }
  }

  /** A failed read reports a row of the wrong width together with the width
      the first line fixed. */
  lemma IngestError(lines: seq<string>, hasHeader: bool)
    requires Ingest(lines, hasHeader).Err?
    ensures var e := Ingest(lines, hasHeader).error;
      |lines| > 0 && e.MalformedRow? && e.got != e.want
      && e.want == multiset(lines[0])[Comma] + 1
      && exists j :: (if hasHeader then 1 else 0) <= j < |lines| && lines[j] != ""
           && |Split(lines[j])| == e.got
           && forall k :: (if hasHeader then 1 else 0) <= k < j ==> lines[k] != "" && |Split(lines[k])| == e.want
  {
    var start := if hasHeader then 1 else 0;
    var width := |Split(lines[0])|;
    SplitCount(lines[0], Comma);
    IngestRowsError(lines[start..], width);
    var e := Ingest(lines, hasHeader).error;
    var j :| 0 <= j < |lines[start..]| && lines[start..][j] != "" && |Split(lines[start..][j])| == e.got
           && forall k :: 0 <= k < j ==> lines[start..][k] != "" && |Split(lines[start..][k])| == width;
    assert lines[start + j] == lines[start..][j];
    forall k | start <= k < start + j
      ensures lines[k] != "" && |Split(lines[k])| == e.want
    {
      assert lines[k] == lines[start..][k - start];
    }
  }

  /** Reading stops at an empty line: nothing after it changes the outcome. */
  lemma {:induction false} IngestRowsStopsAtBlank(lines: seq<string>, width: nat, j: nat)
    requires j < |lines| && lines[j] == ""
    ensures IngestRows(lines, width) == IngestRows(lines[..j], width)
  {
    if j > 0 {
      IngestRowsStopsAtBlank(lines[1..], width, j - 1);
      assert lines[..j][1..] == lines[1..][..j - 1];
    }
  }

  /** An empty line after the first line ends the table: the run reads
      exactly what it would read if the input ended there. */
  lemma BlankLineEndsInput(lines: seq<string>, hasHeader: bool, j: nat)
    requires 1 <= j < |lines| && lines[j] == ""
    ensures Ingest(lines, hasHeader) == Ingest(lines[..j], hasHeader)
  {
    var width := |Split(lines[0])|;
    if hasHeader {
      IngestRowsStopsAtBlank(lines[1..], width, j - 1);
      assert lines[..j][1..] == lines[1..][..j - 1];
    } else {
      IngestRowsStopsAtBlank(lines, width, j);
    }
  }

  /** No lines, or an empty first line without the header flag, read as an
      empty table with no header. */
  lemma EmptyInput(lines: seq<string>, hasHeader: bool)
    requires lines == [] || (!hasHeader && lines[0] == "")
    ensures Ingest(lines, hasHeader).Ok?
    ensures Ingest(lines, hasHeader).value.header == "" && Ingest(lines, hasHeader).value.rows == []
  {
  }

  // ---------------------------------------------------------------------
  // Output
  // ---------------------------------------------------------------------

  /** The rows written back as lines. */
  function JoinedRows(rows: seq<Row>): (lines: seq<string>)
  {
    seq(|rows|, k requires 0 <= k < |rows| => Join(rows[k]))
  }

  /** The lines of the output: the header when it is not empty, then one
      line per row. */
  function OutputLines(header: string, rows: seq<Row>): (lines: seq<string>)
  {
    (if header == "" then [] else [header]) + JoinedRows(rows)
  }

  /** Adding a row in front adds its line in front. */
  lemma {:induction false} FormatRowsCons(row: Row, rows: seq<Row>)
    ensures FormatRows([row] + rows) == Join(row) + "\n" + FormatRows(rows)
  {
    if rows != [] {
      var all := [row] + rows;
      FormatRowsCons(row, rows[..|rows| - 1]);
      assert all[..|all| - 1] == [row] + rows[..|rows| - 1];
      assert all[|all| - 1] == rows[|rows| - 1];
    } else {
      assert ([row] + rows)[..0] == [];
    }
  }

  /** The formatted rows are their lines, each followed by a newline. */
  lemma {:induction false} FormatRowsIsLines(rows: seq<Row>)
    ensures FormatRows(rows) == JoinWith(JoinedRows(rows) + [""], '\n')
  {
    if rows != [] {
      FormatRowsIsLines(rows[1..]);
      FormatRowsCons(rows[0], rows[1..]);
      assert rows == [rows[0]] + rows[1..];
      assert JoinedRows(rows) + [""] == [Join(rows[0])] + (JoinedRows(rows[1..]) + [""]);
    }
  }

  /** The output text is its lines, each followed by a newline. */
  lemma FormatIsLines(header: string, rows: seq<Row>)
    ensures Format(header, rows) == JoinWith(OutputLines(header, rows) + [""], '\n')
  {
    FormatRowsIsLines(rows);
    var tail := JoinedRows(rows) + [""];
    if header != "" {
      var ls := [header] + tail;
      assert OutputLines(header, rows) + [""] == ls;
      assert ls[1..] == tail;
      assert JoinWith(ls, '\n') == header + "\n" + JoinWith(tail, '\n');
    } else {
      assert OutputLines(header, rows) + [""] == tail;
    }
  }

  /** Cutting the output at newlines gives back the header (when present),
      then each row joined with commas, then the empty rest after the last
      newline — provided no line contains a newline, as no line a
      `bufio.Scanner` yields does. */
  lemma OutputRoundTrip(header: string, rows: seq<Row>)
    requires '\n' !in header
    requires forall k :: 0 <= k < |rows| ==> '\n' !in Join(rows[k])
    ensures SplitOn(Format(header, rows), '\n') == OutputLines(header, rows) + [""]
  {
    FormatIsLines(header, rows);
    var ls := OutputLines(header, rows) + [""];
    forall i | 0 <= i < |ls|
      ensures '\n' !in ls[i]
    {
      if header != "" && i > 0 && i < |ls| - 1 {
        assert ls[i] == Join(rows[i - 1]);
      }
    }
    SplitJoin(ls, '\n');
  }

  /** The output is empty exactly when there is neither a header nor a row;
      only then does `main` print and write nothing. */
  lemma FormatEmptyIff(header: string, rows: seq<Row>)
    ensures Format(header, rows) == "" <==> header == "" && rows == []
  {
    if rows != [] {
      assert Format(header, rows)[|Format(header, rows)| - 1] == '\n';
    }
  }

  /** Empty in, empty out: for no lines, or an empty first line without the
      header flag, whatever order the sort leaves, the text is empty and
      nothing is printed or written. */
  lemma EmptyInputDeliversNothing(lines: seq<string>, hasHeader: bool, key: int, reversed: bool,
                                  sorted: seq<Row>, outputFile: string)
    requires lines == [] || (!hasHeader && lines[0] == "")
    requires Ingest(lines, hasHeader).Ok? ==> IsSortingOf(sorted, Ingest(lines, hasHeader).value.rows, key, reversed)
    ensures Ingest(lines, hasHeader).Ok?
    ensures var text := Format(Ingest(lines, hasHeader).value.header, sorted);
      text == "" && Deliver(text, outputFile) == Delivery("", NoFile)
  {
    EmptyInput(lines, hasHeader);
    assert |sorted| == |multiset(sorted)| == 0;
    FormatEmptyIff("", sorted);
  }

  /** A non-empty header opens the output, followed by a newline. */
  lemma HeaderFirst(header: string, rows: seq<Row>)
    requires header != ""
    ensures Format(header, rows)[..|header| + 1] == header + "\n"
  {
  }

  /** Taking one element out of a sequence takes it out of its multiset. */
  lemma RemoveAt<T>(t: seq<T>, i: int)
    requires 0 <= i < |t|
    ensures multiset(t[..i] + t[i + 1..]) == multiset(t) - multiset{t[i]}
  {
    assert t == t[..i] + [t[i]] + t[i + 1..];
  }

  /** Removing a matching element from two arrangements of the same
      multiset leaves two arrangements of the same multiset. */
  lemma RemoveMatching<T>(s: seq<T>, t: seq<T>, i: int)
    requires multiset(s) == multiset(t) && s != [] && 0 <= i < |t| && t[i] == s[0]
    ensures multiset(s[1..]) == multiset(t[..i] + t[i + 1..])
  {
    RemoveAt(s, 0);
    RemoveAt(t, i);
    assert s[..0] + s[1..] == s[1..];
  }

  /** Two multisets that hold `x` and agree once one `x` is taken out are
      equal. */
  lemma MultisetCancel<T>(a: multiset<T>, b: multiset<T>, x: T)
    requires x in a && x in b && a - multiset{x} == b - multiset{x}
    ensures a == b
  {
    forall y
      ensures a[y] == b[y]
    {
      assert (a - multiset{x})[y] == (b - multiset{x})[y];
    }
  }

  /** Removing a row removes its line. */
  lemma JoinedRowsRemoveAt(t: seq<Row>, i: int)
    requires 0 <= i < |t|
    ensures multiset(JoinedRows(t[..i] + t[i + 1..])) == multiset(JoinedRows(t)) - multiset{Join(t[i])}
    ensures Join(t[i]) in multiset(JoinedRows(t))
  {
    var lines := JoinedRows(t);
    assert JoinedRows(t[..i] + t[i + 1..]) == lines[..i] + lines[i + 1..];
    assert lines[i] == Join(t[i]);
    RemoveAt(lines, i);
  }

  /** Equal multisets of rows give equal multisets of lines. */
  lemma {:induction false} JoinedRowsPermutation(s: seq<Row>, t: seq<Row>)
    requires multiset(s) == multiset(t)
    ensures multiset(JoinedRows(s)) == multiset(JoinedRows(t))
  {
    if s == [] {
      assert |t| == |multiset(t)| == 0;
    } else {
      assert s[0] in multiset(t);
      var i :| 0 <= i < |t| && t[i] == s[0];
      var s', t' := s[1..], t[..i] + t[i + 1..];
      var x := Join(s[0]);
      RemoveMatching(s, t, i);
      JoinedRowsPermutation(s', t');
      JoinedRowsRemoveAt(s, 0);
      JoinedRowsRemoveAt(t, i);
      assert s[..0] + s[1..] == s';
      var a, b := multiset(JoinedRows(s)), multiset(JoinedRows(t));
      assert a - multiset{x} == multiset(JoinedRows(s'));
      assert b - multiset{x} == multiset(JoinedRows(t'));
      MultisetCancel(a, b, x);
    }
  }

  /** The data rows written back are the input lines they were read from. */
  lemma RowsAreInputLines(lines: seq<string>, hasHeader: bool)
    requires Ingest(lines, hasHeader).Ok?
    ensures var t := Ingest(lines, hasHeader).value;
      var start := if hasHeader && |lines| > 0 then 1 else 0;
      start + |t.rows| <= |lines| && JoinedRows(t.rows) == lines[start..start + |t.rows|]
  {
    var t := Ingest(lines, hasHeader).value;
    var start := if hasHeader && |lines| > 0 then 1 else 0;
    IngestShape(lines, hasHeader);
    forall k | 0 <= k < |t.rows|
      ensures Join(t.rows[k]) == lines[start + k]
    {
      JoinSplit(lines[start + k], Comma);
    }
  }

  /** A line of a permutation of newline-free lines is newline-free. */
  lemma PermutedLinesNewlineFree(s: seq<string>, t: seq<string>)
    requires multiset(s) == multiset(t)
    requires forall i :: 0 <= i < |t| ==> '\n' !in t[i]
    ensures forall k :: 0 <= k < |s| ==> '\n' !in s[k]
  {
    forall k | 0 <= k < |s|
      ensures '\n' !in s[k]
    {
      assert s[k] in multiset(t);
      var i :| 0 <= i < |t| && t[i] == s[k];
    }
  }

  /** The header read is the first line under the flag and empty otherwise. */
  lemma IngestHeader(lines: seq<string>, hasHeader: bool)
    requires Ingest(lines, hasHeader).Ok?
    ensures Ingest(lines, hasHeader).value.header == (if hasHeader && |lines| > 0 then lines[0] else "")
  {
  }

  /** The sorted rows written back are a permutation of the input's data
      lines, and so free of newlines when the input lines are. */
  lemma SortedRowsAreInputLines(lines: seq<string>, hasHeader: bool, sorted: seq<Row>)
    requires forall i :: 0 <= i < |lines| ==> '\n' !in lines[i]
    requires Ingest(lines, hasHeader).Ok?
    requires multiset(sorted) == multiset(Ingest(lines, hasHeader).value.rows)
    ensures var t := Ingest(lines, hasHeader).value;
      var start := if hasHeader && |lines| > 0 then 1 else 0;
      start + |t.rows| <= |lines|
      && multiset(JoinedRows(sorted)) == multiset(lines[start..start + |t.rows|])
      && forall k :: 0 <= k < |sorted| ==> '\n' !in Join(sorted[k])
  {
    var t := Ingest(lines, hasHeader).value;
    var start := if hasHeader && |lines| > 0 then 1 else 0;
    RowsAreInputLines(lines, hasHeader);
    JoinedRowsPermutation(sorted, t.rows);
    var data := lines[start..start + |t.rows|];
    assert forall i :: 0 <= i < |data| ==> '\n' !in data[i];
    PermutedLinesNewlineFree(JoinedRows(sorted), data);
    forall k | 0 <= k < |sorted| ensures '\n' !in Join(sorted[k]) {
      assert JoinedRows(sorted)[k] == Join(sorted[k]);
    }
  }

  /** End to end: every data line of the output is one of the data lines of
      the input, each as often as it occurs there — sorting neither drops
      nor duplicates a line — and the header line, when there is one, is the
      first input line unchanged. */
  lemma OutputLinesAreInputLines(lines: seq<string>, hasHeader: bool, key: int, reversed: bool, sorted: seq<Row>)
    requires forall i :: 0 <= i < |lines| ==> '\n' !in lines[i]
    requires Ingest(lines, hasHeader).Ok?
    requires IsSortingOf(sorted, Ingest(lines, hasHeader).value.rows, key, reversed)
    ensures var t := Ingest(lines, hasHeader).value;
      var start := if hasHeader && |lines| > 0 then 1 else 0;
      var out := SplitOn(Format(t.header, sorted), '\n');
      start + |t.rows| <= |lines|
      && out == OutputLines(t.header, sorted) + [""]
      && (t.header != "" ==> out[0] == lines[0])
      && multiset(JoinedRows(sorted)) == multiset(lines[start..start + |t.rows|])
  {
    var t := Ingest(lines, hasHeader).value;
    IngestHeader(lines, hasHeader);
    SortedRowsAreInputLines(lines, hasHeader, sorted);
    assert t.header != "" ==> '\n' !in t.header;
    OutputRoundTrip(t.header, sorted);
  }

  // ---------------------------------------------------------------------
  // The sorted order
  // ---------------------------------------------------------------------

  /** No two rows share a key. */
  predicate DistinctKeys(rows: seq<Row>, key: int)
    requires HasColumn(rows, key)
  {
    forall p, q :: 0 <= p < q < |rows| ==> rows[p][key] != rows[q][key]
  }

  /** When the keys are distinct there is only one sorted order, so the
      output does not depend on the sorting algorithm. */
  lemma {:induction false} SortedUnique(s: seq<Row>, t: seq<Row>, key: int, reversed: bool)
    requires HasColumn(s, key) && HasColumn(t, key)
    requires multiset(s) == multiset(t)
    requires SortedBy(s, key, reversed) && SortedBy(t, key, reversed)
    requires DistinctKeys(s, key)
    ensures s == t
  {
    if s == [] {
      assert |t| == |multiset(t)| == 0;
    } else {
      SameFirstRow(s, t, key, reversed);
      RemoveMatching(s, t, 0);
      assert t[..0] + t[1..] == t[1..];
      SortedTail(s, key, reversed);
      SortedTail(t, key, reversed);
      SortedUnique(s[1..], t[1..], key, reversed);
    }
  }

  /** Two sorted arrangements of the same rows with distinct keys start with
      the same row. */
  lemma SameFirstRow(s: seq<Row>, t: seq<Row>, key: int, reversed: bool)
    requires s != [] && HasColumn(s, key) && HasColumn(t, key)
    requires multiset(s) == multiset(t)
    requires SortedBy(s, key, reversed) && SortedBy(t, key, reversed)
    requires DistinctKeys(s, key)
    ensures t != [] && s[0] == t[0]
  {
    assert s[0] in multiset(t);
    assert t != [];
    assert t[0] in multiset(s);
    var i :| 0 <= i < |s| && s[i] == t[0];
    var j :| 0 <= j < |t| && t[j] == s[0];
    if i != 0 {
      assert s[0][key] != s[i][key];
      assert Precedes(s[0][key], s[i][key], reversed);
      assert Precedes(t[0][key], t[j][key], reversed);
      PrecedesAntisymmetric(s[0][key], s[i][key], reversed);
    }
  }

  /** Dropping the first row keeps a table sorted, keyed and distinct. */
  lemma SortedTail(s: seq<Row>, key: int, reversed: bool)
    requires s != [] && HasColumn(s, key) && SortedBy(s, key, reversed)
    ensures HasColumn(s[1..], key) && SortedBy(s[1..], key, reversed)
    ensures DistinctKeys(s, key) ==> DistinctKeys(s[1..], key)
  {
  }

  /** Re-sorting a table that is already sorted by the same key in the same
      direction, with distinct keys, leaves the output text unchanged. */
  lemma SortingSortedIsIdentity(header: string, rows: seq<Row>, key: int, reversed: bool, sorted: seq<Row>)
    requires HasColumn(rows, key) && SortedBy(rows, key, reversed) && DistinctKeys(rows, key)
    requires IsSortingOf(sorted, rows, key, reversed)
    ensures Format(header, sorted) == Format(header, rows)
  {
    if |rows| >= 2 {
      SortedUnique(rows, sorted, key, reversed);
    } else {
      assert |sorted| == |multiset(sorted)| == |rows|;
      if |rows| == 1 {
        assert rows[0] in multiset(sorted);
      }
    }
  }

  /** `s` read backwards. */
  function Reverse(s: seq<Row>): (r: seq<Row>)
    ensures |r| == |s|
  {
    if s == [] then [] else Reverse(s[1..]) + [s[0]]
  }

  lemma {:induction false} ReverseAt(s: seq<Row>, k: int)
    requires 0 <= k < |s|
    ensures Reverse(s)[k] == s[|s| - 1 - k]
  {
    if k < |s| - 1 {
      ReverseAt(s[1..], k);
    }
  }

  lemma {:induction false} ReverseMultiset(s: seq<Row>)
    ensures multiset(Reverse(s)) == multiset(s)
  {
    if s != [] {
      ReverseMultiset(s[1..]);
      assert s == [s[0]] + s[1..];
    }
  }

  /** With distinct keys, the reverse flag gives exactly the forward order
      read backwards. */
  lemma ReverseFlagReversesOrder(rows: seq<Row>, key: int, forward: seq<Row>, backward: seq<Row>)
    requires HasColumn(rows, key) && DistinctKeys(rows, key)
    requires IsSortingOf(forward, rows, key, false) && IsSortingOf(backward, rows, key, true)
    ensures backward == Reverse(forward)
  {
    if |rows| < 2 {
      ShortPermutation(forward, rows);
      ShortPermutation(backward, rows);
      if |rows| == 1 {
        ReverseAt(forward, 0);
      }
      return;
    }
    var r := Reverse(forward);
    ReverseMultiset(forward);
    assert HasColumn(r, key) by {
      forall k | 0 <= k < |r| ensures key < |r[k]| {
        ReverseAt(forward, k);
      }
    }
    forall p, q | 0 <= p < q < |r|
      ensures Precedes(r[p][key], r[q][key], true)
    {
      ReverseAt(forward, p);
      ReverseAt(forward, q);
      PrecedesFlip(forward[|r| - 1 - q][key], forward[|r| - 1 - p][key]);
    }
    DistinctKeysPermutation(rows, r, key);
    SortedUnique(r, backward, key, true);
  }

  /** With the reverse flag the order of rows with equal keys is left open:
      for `x,1 / x,2` the comparator answers "first goes first" for the
      pair in either order, so the insertion step at main.go:77-79 swaps an
      already sorted pair, both orders pass as sorted, and they print
      different text. Re-sorting with `-r` is therefore not idempotent. */
  lemma ReverseFlagEqualKeysUnordered()
    ensures var x, y := ["x", "1"], ["x", "2"];
      Compare(y[0], x[0], true) && Compare(x[0], y[0], true)
      && IsSortingOf([x, y], [x, y], 0, true) && IsSortingOf([y, x], [x, y], 0, true)
      && Format("", [x, y]) != Format("", [y, x])
  {
    var x, y := ["x", "1"], ["x", "2"];
    EqualKeysBothOrders(x, y);
    ExampleFormatEqualKeys();
    assert "x,1\nx,2\n"[2] != "x,2\nx,1\n"[2];
  }

  /** Two rows with the same key: under the reverse flag the comparator puts
      either one first, and both orders are sortings of the pair. */
  lemma EqualKeysBothOrders(x: Row, y: Row)
    requires |x| >= 1 && |y| >= 1 && x[0] == y[0]
    ensures Compare(y[0], x[0], true) && Compare(x[0], y[0], true)
    ensures IsSortingOf([x, y], [x, y], 0, true) && IsSortingOf([y, x], [x, y], 0, true)
  {
    LessIrreflexive(x[0]);
    assert multiset([y, x]) == multiset([x, y]) by {
      assert [y, x] == [[x, y][1], [x, y][0]];
    }
    assert SortedBy([x, y], 0, true) && SortedBy([y, x], 0, true);
  }

  /** The rows `x,1` and `x,2`, written out in both orders. */
  lemma ExampleFormatEqualKeys()
    ensures Format("", [["x", "1"], ["x", "2"]]) == "x,1\nx,2\n"
    ensures Format("", [["x", "2"], ["x", "1"]]) == "x,2\nx,1\n"
  {
    var x, y := ["x", "1"], ["x", "2"];
    assert Join(x) == "x,1" && Join(y) == "x,2";
    FormatRowsSnoc([], x);
    FormatRowsSnoc([x], y);
    FormatRowsSnoc([], y);
    FormatRowsSnoc([y], x);
    assert [] + [x] == [x] && [x] + [y] == [x, y];
    assert [] + [y] == [y] && [y] + [x] == [y, x];
  }

  /** A permutation of fewer than two rows is those rows. */
  lemma ShortPermutation(s: seq<Row>, t: seq<Row>)
    requires |t| < 2 && multiset(s) == multiset(t)
    ensures s == t
  {
    assert |s| == |multiset(s)| == |t|;
    if |t| == 1 {
      assert s[0] in multiset(t);
    }
  }

  /** A row that stands at two positions occurs at least twice. */
  lemma TwoPositions(t: seq<Row>, p: int, q: int)
    requires 0 <= p < q < |t| && t[p] == t[q]
    ensures multiset(t)[t[p]] >= 2
  {
    assert t == t[..p] + [t[p]] + t[p + 1..q] + [t[q]] + t[q + 1..];
  }

  /** Distinct keys carry over to every permutation. */
  lemma DistinctKeysPermutation(s: seq<Row>, t: seq<Row>, key: int)
    requires HasColumn(s, key) && HasColumn(t, key) && DistinctKeys(s, key)
    requires multiset(s) == multiset(t)
    ensures DistinctKeys(t, key)
  {
    forall p, q | 0 <= p < q < |t|
      ensures t[p][key] != t[q][key]
    {
      assert t[p] in multiset(s) && t[q] in multiset(s);
      var p' :| 0 <= p' < |s| && s[p'] == t[p];
      var q' :| 0 <= q' < |s| && s[q'] == t[q];
      if p' == q' {
        RowCountAtMostOne(s, key, p');
        TwoPositions(t, p, q);
      }
    }
  }

  /** Distinct keys make every row occur once. */
  lemma {:induction false} RowCountAtMostOne(rows: seq<Row>, key: int, i: int)
    requires HasColumn(rows, key) && DistinctKeys(rows, key) && 0 <= i < |rows|
    ensures multiset(rows)[rows[i]] == 1
  {
    var rest := rows[..i] + rows[i + 1..];
    assert rows == rows[..i] + [rows[i]] + rows[i + 1..];
    assert multiset(rows) == multiset(rest) + multiset{rows[i]};
    assert rows[i] !in rest by {
      forall k | 0 <= k < |rest| ensures rest[k] != rows[i] {
        if k < i {
          assert rest[k] == rows[k];
        } else {
          assert rest[k] == rows[k + 1];
        }
      }
    }
  }

  // ---------------------------------------------------------------------
  // Worked examples
  // ---------------------------------------------------------------------

  /** A line written out as its fields splits back into them. */
  lemma SplitLiteral(fields: seq<string>, line: string)
    requires |fields| >= 1 && Join(fields) == line
    requires forall i :: 0 <= i < |fields| ==> Comma !in fields[i]
    ensures Split(line) == fields
  {
    SplitJoin(fields, Comma);
  }

  /** Appending a row appends its line. */
  lemma FormatRowsSnoc(rows: seq<Row>, row: Row)
    ensures FormatRows(rows + [row]) == FormatRows(rows) + Join(row) + "\n"
  {
    assert (rows + [row])[..|rows|] == rows;
  }

  /** Reading a non-empty line of the right width in front of more lines. */
  lemma IngestRowsCons(line: string, row: Row, more: seq<string>, width: nat, rest: seq<Row>)
    requires line != "" && Split(line) == row && |row| == width
    requires IngestRows(more, width) == Ok(rest)
    ensures IngestRows([line] + more, width) == Ok([row] + rest)
  {
    assert ([line] + more)[1..] == more;
  }

  /** Reading with the first line in hand: the width is its field count and,
      with the header flag, it is set aside as the header. */
  lemma IngestFirstLine(lines: seq<string>, hasHeader: bool, rows: seq<Row>)
    requires |lines| >= 1
    requires IngestRows(if hasHeader then lines[1..] else lines, |Split(lines[0])|) == Ok(rows)
    ensures Ingest(lines, hasHeader) == Ok(Table(if hasHeader then lines[0] else "", |Split(lines[0])|, rows))
  {
    assert [] + rows == rows;
  }

  /** Three rows whose keys are pairwise different and in order. */
  lemma SortedThree(x: Row, y: Row, z: Row, reversed: bool)
    requires |x| >= 1 && |y| >= 1 && |z| >= 1
    requires x[0] != y[0] && y[0] != z[0] && x[0] != z[0]
    requires Precedes(x[0], y[0], reversed) && Precedes(y[0], z[0], reversed)
    requires Precedes(x[0], z[0], reversed)
    ensures HasColumn([x, y, z], 0) && SortedBy([x, y, z], 0, reversed) && DistinctKeys([x, y, z], 0)
  {
    var r := [x, y, z];
    forall p, q | 0 <= p < q < 3
      ensures Precedes(r[p][0], r[q][0], reversed) && r[p][0] != r[q][0]
    {
    }
  }

  /** Three rows with increasing keys `lo < mid < hi`, given in the order
      `mid, lo, hi`, sort to `lo, mid, hi` and, reversed, to `hi, mid, lo`. */
  lemma ThreeRowsOrder(lo: Row, mid: Row, hi: Row, forward: seq<Row>, backward: seq<Row>)
    requires |lo| >= 1 && |mid| >= 1 && |hi| >= 1
    requires Less(lo[0], mid[0]) && Less(mid[0], hi[0])
    requires IsSortingOf(forward, [mid, lo, hi], 0, false)
    requires IsSortingOf(backward, [mid, lo, hi], 0, true)
    ensures forward == [lo, mid, hi] && backward == [hi, mid, lo]
  {
    LessTransitive(lo[0], mid[0], hi[0]);
    LessIrreflexive(lo[0]);
    LessIrreflexive(mid[0]);
    LessIrreflexive(hi[0]);
    var up, down, given := [lo, mid, hi], [hi, mid, lo], [mid, lo, hi];
    assert multiset(up) == multiset(given) by {
      assert up == [given[1], given[0], given[2]];
    }
    assert multiset(down) == multiset(given) by {
      assert down == [given[2], given[0], given[1]];
    }
    SortedThree(lo, mid, hi, false);
    SortedThree(hi, mid, lo, true);
    SortedUnique(up, forward, 0, false);
    SortedUnique(down, backward, 0, true);
  }

  /** Two rows with keys `lo < hi`, given as `hi, lo`, sort to `lo, hi`. */
  lemma TwoRowsOrder(lo: Row, hi: Row, sorted: seq<Row>)
    requires |lo| >= 1 && |hi| >= 1 && Less(lo[0], hi[0])
    requires IsSortingOf(sorted, [hi, lo], 0, false)
    ensures sorted == [lo, hi]
  {
    var up, given := [lo, hi], [hi, lo];
    assert multiset(up) == multiset(given) by {
      assert up == [given[1], given[0]];
    }
    LessIrreflexive(lo[0]);
    assert SortedBy(up, 0, false) && DistinctKeys(up, 0);
    SortedUnique(up, sorted, 0, false);
  }

  /** `b,2 / a,1 / c,3` without a header reads as three rows of width 2. */
  lemma ExampleThreeRowsRead()
    ensures Ingest(["b,2", "a,1", "c,3"], false) == Ok(Table("", 2, [["b", "2"], ["a", "1"], ["c", "3"]]))
  {
    var a, b, c := ["a", "1"], ["b", "2"], ["c", "3"];
    SplitLiteral(b, "b,2");
    SplitLiteral(a, "a,1");
    SplitLiteral(c, "c,3");
    assert [c] + [] == [c] && [a] + [c] == [a, c] && [b] + [a, c] == [b, a, c];
    assert ["c,3"] + [] == ["c,3"] && ["a,1"] + ["c,3"] == ["a,1", "c,3"];
    assert ["b,2"] + ["a,1", "c,3"] == ["b,2", "a,1", "c,3"];
    IngestRowsCons("c,3", c, [], 2, []);
    IngestRowsCons("a,1", a, ["c,3"], 2, [c]);
    IngestRowsCons("b,2", b, ["a,1", "c,3"], 2, [a, c]);
    IngestFirstLine(["b,2", "a,1", "c,3"], false, [b, a, c]);
  }

  /** The rows `a,1 / b,2 / c,3`, written out. */
  lemma ExampleFormatForward()
    ensures Format("", [["a", "1"], ["b", "2"], ["c", "3"]]) == "a,1\nb,2\nc,3\n"
  {
    var a, b, c := ["a", "1"], ["b", "2"], ["c", "3"];
    assert Join(a) == "a,1" && Join(b) == "b,2" && Join(c) == "c,3";
    FormatRowsSnoc([], a);
    FormatRowsSnoc([a], b);
    FormatRowsSnoc([a, b], c);
    assert [] + [a] == [a] && [a] + [b] == [a, b] && [a, b] + [c] == [a, b, c];
  }

  /** The rows `c,3 / b,2 / a,1`, written out. */
  lemma ExampleFormatBackward()
    ensures Format("", [["c", "3"], ["b", "2"], ["a", "1"]]) == "c,3\nb,2\na,1\n"
  {
    var a, b, c := ["a", "1"], ["b", "2"], ["c", "3"];
    assert Join(a) == "a,1" && Join(b) == "b,2" && Join(c) == "c,3";
    FormatRowsSnoc([], c);
    FormatRowsSnoc([c], b);
    FormatRowsSnoc([c, b], a);
    assert [] + [c] == [c] && [c] + [b] == [c, b] && [c, b] + [a] == [c, b, a];
  }

  /** Sorting `b,2 / a,1 / c,3` on column 0 gives `a,1 / b,2 / c,3`, and
      with the reverse flag `c,3 / b,2 / a,1`. */
  lemma ExampleThreeRowsSorted(forward: seq<Row>, backward: seq<Row>)
    requires IsSortingOf(forward, [["b", "2"], ["a", "1"], ["c", "3"]], 0, false)
    requires IsSortingOf(backward, [["b", "2"], ["a", "1"], ["c", "3"]], 0, true)
    ensures Format("", forward) == "a,1\nb,2\nc,3\n"
    ensures Format("", backward) == "c,3\nb,2\na,1\n"
  {
    assert Less("a", "b") && Less("b", "c");
    ThreeRowsOrder(["a", "1"], ["b", "2"], ["c", "3"], forward, backward);
    ExampleFormatForward();
    ExampleFormatBackward();
  }

  /** The data lines `b,2 / a,1` read as two rows of width 2. */
  lemma TwoDataLinesRead()
    ensures IngestRows(["b,2", "a,1"], 2) == Ok([["b", "2"], ["a", "1"]])
  {
    var a, b := ["a", "1"], ["b", "2"];
    SplitLiteral(b, "b,2");
    SplitLiteral(a, "a,1");
    assert ["a,1"] + [] == ["a,1"] && ["b,2"] + ["a,1"] == ["b,2", "a,1"];
    assert [a] + [] == [a] && [b] + [a] == [b, a];
    IngestRowsCons("a,1", a, [], 2, []);
    IngestRowsCons("b,2", b, ["a,1"], 2, [a]);
  }

  /** `name,val / b,2 / a,1` with the header flag keeps `name,val` aside and
      reads two rows. */
  lemma ExampleHeaderRead()
    ensures Ingest(["name,val", "b,2", "a,1"], true) == Ok(Table("name,val", 2, [["b", "2"], ["a", "1"]]))
  {
    SplitLiteral(["name", "val"], "name,val");
    TwoDataLinesRead();
    var lines := ["name,val", "b,2", "a,1"];
    assert lines[1..] == ["b,2", "a,1"];
    IngestFirstLine(lines, true, [["b", "2"], ["a", "1"]]);
  }

  /** The header `name,val` and the rows `a,1 / b,2`, written out. */
  lemma ExampleFormatHeader()
    ensures Format("name,val", [["a", "1"], ["b", "2"]]) == "name,val\na,1\nb,2\n"
  {
    var a, b := ["a", "1"], ["b", "2"];
    assert Join(a) == "a,1" && Join(b) == "b,2";
    FormatRowsSnoc([], a);
    FormatRowsSnoc([a], b);
    assert [] + [a] == [a] && [a] + [b] == [a, b];
    assert FormatRows([a, b]) == "a,1\nb,2\n";
    assert HeaderText("name,val") == "name,val\n";
  }

  /** ... and, sorted on column 0, writes `name,val / a,1 / b,2`. */
  lemma ExampleHeaderSorted(sorted: seq<Row>)
    requires IsSortingOf(sorted, [["b", "2"], ["a", "1"]], 0, false)
    ensures Format("name,val", sorted) == "name,val\na,1\nb,2\n"
  {
    assert Less("a", "b");
    TwoRowsOrder(["a", "1"], ["b", "2"], sorted);
    ExampleFormatHeader();
  }

  /** `a,1,2 / b,3` stops at the second line, which has 2 columns where the
      first line fixed 3. */
  lemma ExampleMismatch()
    ensures Ingest(["a,1,2", "b,3"], false) == Err(MalformedRow(2, 3))
  {
    SplitLiteral(["a", "1", "2"], "a,1,2");
    SplitLiteral(["b", "3"], "b,3");
    var lines := ["a,1,2", "b,3"];
    assert lines[1..] == ["b,3"];
    assert IngestRows(lines[1..], 3) == Err(MalformedRow(2, 3));
  }
}
