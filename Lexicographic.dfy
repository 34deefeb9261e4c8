/**
 * The order on file names.  BTree.py compares keys with Python's `<`, `>` and
 * `==` on `str`, which is lexicographic comparison by code point: the first
 * differing character decides, and a proper prefix is smaller.  Dafny's `<` on
 * strings means "proper prefix", so the order is written out here and shown to
 * be a strict total order.
 */
module Lexicographic {

  /** Python's `a < b` on strings. */
  predicate Less(a: string, b: string)
    decreases |a|
  {
    if |a| == 0 then |b| != 0
    else if |b| == 0 then false
    else if a[0] != b[0] then a[0] < b[0]
    else Less(a[1..], b[1..])
  }

  /** The textbook description of the same order: `a` is a proper prefix of
      `b`, or the first position where they differ holds a smaller character in `a`. */
  ghost predicate PrefixOrFirstDifference(a: string, b: string) {
    (|a| < |b| && a == b[..|a|])
    || exists i :: 0 <= i < |a| && i < |b| && a[..i] == b[..i] && a[i] < b[i]
  }

  lemma {:induction false} LessIsLexicographic(a: string, b: string)
    ensures Less(a, b) <==> PrefixOrFirstDifference(a, b)
    decreases |a|
  {
    if |a| == 0 {
    } else if |b| == 0 {
    } else if a[0] != b[0] {
      if a[0] < b[0] {
        assert a[..0] == b[..0];
      }
    } else {
      LessIsLexicographic(a[1..], b[1..]);
      DropCommonHead(a, b);
    }
  }

  /** Removing a shared first character keeps a proper prefix a proper prefix,
      and a first difference a first difference (one position earlier). */
  lemma DropCommonHead(a: string, b: string)
    requires |a| != 0 && |b| != 0 && a[0] == b[0]
    ensures PrefixOrFirstDifference(a, b) <==> PrefixOrFirstDifference(a[1..], b[1..])
  {
    var a', b' := a[1..], b[1..];
    if |a'| < |b'| && a' == b'[..|a'|] {
      assert a == [a[0]] + a' && b[..|a|] == [b[0]] + b'[..|a'|];
    }
    if |a| < |b| && a == b[..|a|] {
      assert a' == b'[..|a'|];
    }
    if exists i :: 0 <= i < |a'| && i < |b'| && a'[..i] == b'[..i] && a'[i] < b'[i] {
      var i :| 0 <= i < |a'| && i < |b'| && a'[..i] == b'[..i] && a'[i] < b'[i];
      DifferenceAfterHead(a, b, i);
    }
    if exists i :: 0 <= i < |a| && i < |b| && a[..i] == b[..i] && a[i] < b[i] {
      var i :| 0 <= i < |a| && i < |b| && a[..i] == b[..i] && a[i] < b[i];
      DifferenceBelowHead(a, b, i);
    }
  }

  /** A first difference at `i` after the shared head is one at `i + 1` before it. */
  lemma DifferenceAfterHead(a: string, b: string, i: nat)
    requires |a| != 0 && |b| != 0 && a[0] == b[0]
    requires i < |a| - 1 && i < |b| - 1 && a[1..][..i] == b[1..][..i] && a[1..][i] < b[1..][i]
    ensures a[..i + 1] == b[..i + 1] && a[i + 1] < b[i + 1]
  {
    assert a[..i + 1] == [a[0]] + a[1..][..i] && b[..i + 1] == [b[0]] + b[1..][..i];
  }

  /** A first difference at `i` before the head is dropped is one at `i - 1` after. */
  lemma DifferenceBelowHead(a: string, b: string, i: nat)
    requires |a| != 0 && |b| != 0 && a[0] == b[0]
    requires i < |a| && i < |b| && a[..i] == b[..i] && a[i] < b[i]
    ensures i > 0 && a[1..][..i - 1] == b[1..][..i - 1] && a[1..][i - 1] < b[1..][i - 1]
  {
    assert a[1..][..i - 1] == a[..i][1..] && b[1..][..i - 1] == b[..i][1..];
  }

  lemma {:induction false} LessIrreflexive(a: string)
    ensures !Less(a, a)
    decreases |a|
  {
    if |a| != 0 {
      LessIrreflexive(a[1..]);
    }
  }

  lemma {:induction false} LessTransitive(a: string, b: string, c: string)
    requires Less(a, b) && Less(b, c)
    ensures Less(a, c)
    decreases |a|
  {
    if |a| != 0 && a[0] == b[0] && b[0] == c[0] {
      LessTransitive(a[1..], b[1..], c[1..]);
    }
  }

  /** Any two distinct strings are comparable. */
  lemma {:induction false} LessTotal(a: string, b: string)
    ensures a == b || Less(a, b) || Less(b, a)
    decreases |a|
  {
    if |a| != 0 && |b| != 0 && a[0] == b[0] {
      LessTotal(a[1..], b[1..]);
      if a[1..] == b[1..] {
        assert a == [a[0]] + a[1..] && b == [b[0]] + b[1..];
      }
    }
  }

  lemma LessAsymmetric(a: string, b: string)
    requires Less(a, b)
    ensures !Less(b, a)
  {
    if Less(b, a) {
      LessTransitive(a, b, a);
      LessIrreflexive(a);
    }
  }
}
