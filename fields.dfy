// Splitting a string at a one-character separator and joining pieces back
// together, as `strings.Split(line, ",")` and `strings.Join(row, ",")` do in
// main.go (no quoting, no escaping, no trimming). The separator is a
// parameter so that the same definitions also cut the output text into
// lines at '\n'.
module Fields {

  /** The field delimiter used for both splitting and joining. */
  const Comma: char := ','

  /** `strings.Split(s, sep)`: the pieces of `s` between separators, in
      order. The empty string splits into one empty piece. */
  function SplitOn(s: string, sep: char): (fields: seq<string>)
    ensures |fields| >= 1
  {
    if s == [] then [""]
    else
      var rest := SplitOn(s[1..], sep);
      if s[0] == sep then [""] + rest
      else [[s[0]] + rest[0]] + rest[1..]
  }

  /** `strings.Join(fields, sep)`: the pieces with one separator between
      neighbours; no pieces give the empty string. */
  function JoinWith(fields: seq<string>, sep: char): (s: string)
  {
    if |fields| == 0 then ""
    else if |fields| == 1 then fields[0]
    else fields[0] + [sep] + JoinWith(fields[1..], sep)
  }

  /** `strings.Split(line, ",")`: the fields of a line. */
  function Split(line: string): (fields: seq<string>)
  {
    SplitOn(line, Comma)
  }

  /** `strings.Join(row, ",")`: a row written back as a line. */
  function Join(row: seq<string>): (line: string)
  {
    JoinWith(row, Comma)
  }

  /** The number of pieces is the number of separators plus one. */
  lemma {:induction false} SplitCount(s: string, sep: char)
    ensures |SplitOn(s, sep)| == multiset(s)[sep] + 1
  {
    if s != [] {
      SplitCount(s[1..], sep);
      assert s == [s[0]] + s[1..];
      assert multiset(s) == multiset([s[0]]) + multiset(s[1..]);
    }
  }

  /** No piece contains the separator. */
  lemma {:induction false} SplitPiecesSeparatorFree(s: string, sep: char)
    ensures forall i :: 0 <= i < |SplitOn(s, sep)| ==> sep !in SplitOn(s, sep)[i]
  {
    if s != [] {
      SplitPiecesSeparatorFree(s[1..], sep);
    }
  }

  /** Joining the pieces gives back the string. */
  lemma {:induction false} JoinSplit(s: string, sep: char)
    ensures JoinWith(SplitOn(s, sep), sep) == s
  {
    if s != [] {
      var rest := SplitOn(s[1..], sep);
      JoinSplit(s[1..], sep);
      if s[0] == sep {
        assert ([""] + rest)[1..] == rest;
        assert s == [s[0]] + s[1..];
      } else if |rest| == 1 {
        assert s == [s[0]] + s[1..];
      } else {
        var fields := [[s[0]] + rest[0]] + rest[1..];
        assert fields[1..] == rest[1..];
        assert JoinWith(rest, sep) == rest[0] + [sep] + JoinWith(rest[1..], sep);
        assert s == [s[0]] + s[1..];
      }
    }
  }

  /** Splitting `f + t` where `f` holds no separator glues `f` to the first
      piece of `t` and keeps the other pieces of `t`. */
  lemma {:induction false} SplitPrefix(f: string, t: string, sep: char)
    requires sep !in f
    ensures SplitOn(f + t, sep) == [f + SplitOn(t, sep)[0]] + SplitOn(t, sep)[1..]
  {
    if f == [] {
      assert f + t == t;
      assert f + SplitOn(t, sep)[0] == SplitOn(t, sep)[0];
      assert SplitOn(t, sep) == [SplitOn(t, sep)[0]] + SplitOn(t, sep)[1..];
    } else {
      SplitPrefix(f[1..], t, sep);
      var rest := SplitOn(f[1..] + t, sep);
      assert (f + t)[0] == f[0] != sep;
      assert (f + t)[1..] == f[1..] + t;
      assert SplitOn(f + t, sep) == [[f[0]] + rest[0]] + rest[1..];
      assert [f[0]] + (f[1..] + SplitOn(t, sep)[0]) == f + SplitOn(t, sep)[0];
    }
  }

  /** Splitting a join of separator-free pieces gives back the pieces. */
  lemma {:induction false} SplitJoin(fields: seq<string>, sep: char)
    requires |fields| >= 1
    requires forall i :: 0 <= i < |fields| ==> sep !in fields[i]
    ensures SplitOn(JoinWith(fields, sep), sep) == fields
  {
    if |fields| == 1 {
      SplitPrefix(fields[0], "", sep);
      assert fields[0] + "" == fields[0];
    } else {
      var tail := JoinWith(fields[1..], sep);
      SplitJoin(fields[1..], sep);
      SplitPrefix(fields[0], [sep] + tail, sep);
      assert ([sep] + tail)[0] == sep;
      assert ([sep] + tail)[1..] == tail;
      assert SplitOn([sep] + tail, sep) == [""] + fields[1..];
      assert fields[0] + [sep] + tail == fields[0] + ([sep] + tail);
      assert fields[0] + "" == fields[0];
      assert fields == [fields[0]] + fields[1..];
    }
  }

  /** Only the empty line splits into a single empty field. */
  lemma SplitEmptyIff(line: string)
    ensures Split(line) == [""] <==> line == ""
  {
    JoinSplit(line, Comma);
  }
}
