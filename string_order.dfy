/**
 * The order in which the document store compares two string fields: code point
 * by code point, a proper prefix sorting first. This is the order behind the
 * `$gt`/`$lte` filters on dates and the sort on `expiration_date`.
 */
module StringOrder {

  /** Strict lexicographic order. */
  predicate Less(a: string, b: string)
  {
    if b == [] then false
    else if a == [] then true
    else if a[0] != b[0] then a[0] < b[0]
    else Less(a[1..], b[1..])
  }

  /** The store's `$lte`. */
  predicate LessEq(a: string, b: string)
  {
    Less(a, b) || a == b
  }

  lemma {:induction false} LessIrreflexive(a: string)
    ensures !Less(a, a)
  {
    if a != [] {
      LessIrreflexive(a[1..]);
    }
  }

  lemma {:induction false} LessTransitive(a: string, b: string, c: string)
    requires Less(a, b) && Less(b, c)
    ensures Less(a, c)
  {
    if a != [] && a[0] == b[0] && b[0] == c[0] {
      LessTransitive(a[1..], b[1..], c[1..]);
    }
  }

  /** Any two strings are equal or ordered one way or the other. */
  lemma {:induction false} LessTotal(a: string, b: string)
    ensures a == b || Less(a, b) || Less(b, a)
  {
    if a != [] && b != [] && a[0] == b[0] {
      LessTotal(a[1..], b[1..]);
      if a[1..] == b[1..] {
        assert a == [a[0]] + a[1..] && b == [b[0]] + b[1..];
      }
    }
  }

  lemma LessAsymmetric(a: string, b: string)
    requires Less(a, b)
    ensures !Less(b, a) && a != b
  {
    LessIrreflexive(a);
    if Less(b, a) {
      LessTransitive(a, b, a);
    }
  }

  /** Not `b < a` is the same as `a <= b`: the order is total. */
  lemma NotLessIsLessEq(a: string, b: string)
    ensures !Less(b, a) <==> LessEq(a, b)
  {
    LessTotal(a, b);
    if Less(a, b) {
      LessAsymmetric(a, b);
    }
    LessIrreflexive(a);
  }

  lemma LessEqTransitive(a: string, b: string, c: string)
    requires LessEq(a, b) && LessEq(b, c)
    ensures LessEq(a, c)
  {
    if Less(a, b) && Less(b, c) {
      LessTransitive(a, b, c);
    }
  }

  /** Comparing two concatenations whose first parts have equal length decides on the first parts first. */
  lemma {:induction false} LessAppend(a: string, b: string, c: string, d: string)
    requires |a| == |b|
    ensures Less(a + c, b + d) <==> Less(a, b) || (a == b && Less(c, d))
  {
    if a == [] {
      assert a + c == c && b + d == d;
    } else {
      assert (a + c)[0] == a[0] && (b + d)[0] == b[0];
      assert (a + c)[1..] == a[1..] + c && (b + d)[1..] == b[1..] + d;
      LessAppend(a[1..], b[1..], c, d);
      if a[0] == b[0] && a[1..] == b[1..] {
        assert a == [a[0]] + a[1..] && b == [b[0]] + b[1..];
      }
    }
  }
}
