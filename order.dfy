// The order in which main.go sorts rows: Go's `<` on strings (byte-wise
// lexicographic order) and the comparator `compare`, which flips it when the
// reverse flag is set.
module Order {

  /** Go's `a < b` on strings: the first position where the two differ holds
      the smaller character in `a`, or `a` is a proper prefix of `b`.
      (Dafny's own `<` on sequences means "proper prefix" only.) */
  predicate Less(a: string, b: string)
  {
    if b == [] then false
    else if a == [] then true
    else if a[0] != b[0] then a[0] < b[0]
    else Less(a[1..], b[1..])
  }

  /** The textbook statement of lexicographic order, used as an independent
      reference for Less. */
  ghost predicate LexLess(a: string, b: string)
  {
    (exists k :: 0 <= k < |a| && k < |b| && a[..k] == b[..k] && a[k] < b[k])
    || (|a| < |b| && a == b[..|a|])
  }

  /** Dropping an equal first character keeps lexicographic order. */
  lemma LexLessTail(a: string, b: string)
    requires a != [] && b != [] && a[0] == b[0]
    ensures LexLess(a[1..], b[1..]) ==> LexLess(a, b)
  {
    var a', b' := a[1..], b[1..];
    if LexLess(a', b') {
      if exists k :: 0 <= k < |a'| && k < |b'| && a'[..k] == b'[..k] && a'[k] < b'[k] {
        var k :| 0 <= k < |a'| && k < |b'| && a'[..k] == b'[..k] && a'[k] < b'[k];
        assert a[..k + 1] == [a[0]] + a'[..k];
        assert b[..k + 1] == [b[0]] + b'[..k];
        assert a[k + 1] == a'[k] && b[k + 1] == b'[k];
      } else {
        assert a == [a[0]] + a' && b[..|a|] == [b[0]] + b'[..|a'|];
      }
    }
  }

  /** Adding an equal first character keeps lexicographic order. */
  lemma LexLessCons(a: string, b: string)
    requires a != [] && b != [] && a[0] == b[0]
    ensures LexLess(a, b) ==> LexLess(a[1..], b[1..])
  {
    var a', b' := a[1..], b[1..];
    if LexLess(a, b) {
      if exists k :: 0 <= k < |a| && k < |b| && a[..k] == b[..k] && a[k] < b[k] {
        var k :| 0 <= k < |a| && k < |b| && a[..k] == b[..k] && a[k] < b[k];
        assert k > 0;
        assert a'[..k - 1] == a[..k][1..];
        assert b'[..k - 1] == b[..k][1..];
        assert a'[k - 1] == a[k] && b'[k - 1] == b[k];
      } else {
        assert a' == b[..|a|][1..] && b[..|a|][1..] == b'[..|a'|];
      }
    }
  }

  /** Less is exactly the lexicographic order. */
  lemma {:induction false} LessIsLexLess(a: string, b: string)
    ensures Less(a, b) <==> LexLess(a, b)
  {
    if b == [] {
    } else if a == [] {
      assert a == b[..0];
    } else if a[0] != b[0] {
      if Less(a, b) {
        assert a[..0] == b[..0];
      }
      if LexLess(a, b) {
        if exists k :: 0 <= k < |a| && k < |b| && a[..k] == b[..k] && a[k] < b[k] {
          var k :| 0 <= k < |a| && k < |b| && a[..k] == b[..k] && a[k] < b[k];
          CommonPrefixHead(a, b, k);
        }
      }
    } else {
      LessIsLexLess(a[1..], b[1..]);
      LexLessTail(a, b);
      LexLessCons(a, b);
    }
  }

  /** Strings with a common non-empty prefix start with the same character. */
  lemma CommonPrefixHead(a: string, b: string, k: int)
    requires 0 <= k <= |a| && k <= |b| && a[..k] == b[..k]
    ensures k > 0 ==> a[0] == b[0]
  {
    if k > 0 {
      assert a[..k][0] == b[..k][0];
    }
  }

  /** No string is less than itself. */
  lemma {:induction false} LessIrreflexive(a: string)
    ensures !Less(a, a)
  {
    if a != [] {
      LessIrreflexive(a[1..]);
    }
  }

  /** Less is asymmetric. */
  lemma {:induction false} LessAsymmetric(a: string, b: string)
    requires Less(a, b)
    ensures !Less(b, a)
  {
    if a != [] && a[0] == b[0] {
      LessAsymmetric(a[1..], b[1..]);
    }
  }

  /** Less is transitive. */
  lemma {:induction false} LessTransitive(a: string, b: string, c: string)
    requires Less(a, b) && Less(b, c)
    ensures Less(a, c)
  {
    if a != [] && a[0] == b[0] && b[0] == c[0] {
      LessTransitive(a[1..], b[1..], c[1..]);
    }
  }

  /** Any two different strings are ordered one way or the other. */
  lemma {:induction false} LessTotal(a: string, b: string)
    requires a != b
    ensures Less(a, b) || Less(b, a)
  {
    if a != [] && b != [] && a[0] == b[0] {
      LessTotal(a[1..], b[1..]);
      assert a == [a[0]] + a[1..] && b == [b[0]] + b[1..];
    }
  }

  /** `compare(first, next, isReversed)` in main.go: `first < next` when the
      flag is off, and that answer negated when it is on. */
  function Compare(first: string, next: string, isReversed: bool): (firstGoesFirst: bool)
  {
    Less(first, next) != isReversed
  }

  /** Without the reverse flag the comparator is the strict lexicographic
      order. */
  lemma CompareForward(a: string, b: string)
    ensures Compare(a, b, false) <==> LexLess(a, b)
  {
    LessIsLexLess(a, b);
  }

  /** With the reverse flag the comparator is `a >= b`: it holds when `b` is
      less than `a` and also when the two are equal, so it is not a strict
      order. */
  lemma CompareReverse(a: string, b: string)
    ensures Compare(a, b, true) <==> (a == b || Less(b, a))
  {
    if a == b {
      LessIrreflexive(a);
    } else if Less(b, a) {
      LessAsymmetric(b, a);
    } else {
      LessTotal(a, b);
    }
  }

  /** `a` may stand before `b` in a key column sorted in the given direction:
      `a <= b` in forward order, `a >= b` in reverse order. */
  predicate Precedes(a: string, b: string, reversed: bool)
  {
    if reversed then a == b || Less(b, a) else a == b || Less(a, b)
  }

  /** When the comparator puts `a` first, `a` may precede `b`. */
  lemma CompareTruePrecedes(a: string, b: string, reversed: bool)
    requires Compare(a, b, reversed)
    ensures Precedes(a, b, reversed)
  {
    if reversed {
      CompareReverse(a, b);
    }
  }

  /** When the comparator does not put `a` first, `b` may precede `a`. */
  lemma CompareFalsePrecedes(a: string, b: string, reversed: bool)
    requires !Compare(a, b, reversed)
    ensures Precedes(b, a, reversed)
  {
    if reversed {
      LessAsymmetric(a, b);
    } else if a != b {
      LessTotal(a, b);
    }
  }

  /** Precedes is transitive in each direction. */
  lemma PrecedesTransitive(a: string, b: string, c: string, reversed: bool)
    requires Precedes(a, b, reversed) && Precedes(b, c, reversed)
    ensures Precedes(a, c, reversed)
  {
    if a != b && b != c {
      if reversed {
        LessTransitive(c, b, a);
      } else {
        LessTransitive(a, b, c);
      }
    }
  }

  /** Two strings that may each precede the other are equal. */
  lemma PrecedesAntisymmetric(a: string, b: string, reversed: bool)
    requires Precedes(a, b, reversed) && Precedes(b, a, reversed)
    ensures a == b
  {
    if a != b {
      LessAsymmetric(a, b);
    }
  }

  /** A column sorted forward, read backwards, is sorted in reverse. */
  lemma PrecedesFlip(a: string, b: string)
    ensures Precedes(a, b, false) <==> Precedes(b, a, true)
  {
  }
}
