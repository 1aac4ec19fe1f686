/**
 Python's string comparison: lexicographic by code point, a proper prefix
 sorting before any of its extensions.
 */
module Ordering {

  /** `a <= b` on Python strings. */
  predicate LessEq(a: string, b: string)
    decreases |a|
  {
    if |a| == 0 then true
    else if |b| == 0 then false
    else if a[0] != b[0] then a[0] < b[0]
    else LessEq(a[1..], b[1..])
  }

  /** `a < b` on Python strings. */
  predicate Less(a: string, b: string) { LessEq(a, b) && a != b }

  lemma {:induction false} LessEqReflexive(a: string)
    ensures LessEq(a, a)
    decreases |a|
  {
    if |a| > 0 { LessEqReflexive(a[1..]); }
  }

  lemma {:induction false} LessEqTotal(a: string, b: string)
    ensures LessEq(a, b) || LessEq(b, a)
    decreases |a|
  {
    if |a| > 0 && |b| > 0 && a[0] == b[0] {
      LessEqTotal(a[1..], b[1..]);
    }
  }

  lemma {:induction false} LessEqAntisymmetric(a: string, b: string)
    requires LessEq(a, b) && LessEq(b, a)
    ensures a == b
    decreases |a|
  {
    if |a| > 0 {
      LessEqAntisymmetric(a[1..], b[1..]);
      assert a == [a[0]] + a[1..] && b == [b[0]] + b[1..];
    }
  }

  lemma {:induction false} LessEqTransitive(a: string, b: string, c: string)
    requires LessEq(a, b) && LessEq(b, c)
    ensures LessEq(a, c)
    decreases |a|
  {
    if |a| > 0 && a[0] == b[0] && b[0] == c[0] {
      LessEqTransitive(a[1..], b[1..], c[1..]);
    }
  }

  /** The independent reading of the order: `a` is a prefix of `b`, or the two first
      differ at some index where `a` has the smaller character. */
  predicate PrefixOrSmallerAt(a: string, b: string)
  {
    || (|a| <= |b| && a == b[..|a|])
    || exists i :: 0 <= i < |a| && i < |b| && a[..i] == b[..i] && a[i] < b[i]
  }

  lemma {:induction false} LessEqMeansPrefixOrSmaller(a: string, b: string)
    ensures LessEq(a, b) <==> PrefixOrSmallerAt(a, b)
    decreases |a|
  {
    if |a| == 0 {
      assert a == b[..0];
    } else if |b| == 0 {
    } else if a[0] != b[0] {
      if a[0] < b[0] {
        assert a[..0] == b[..0];
      }
    } else {
      var a', b' := a[1..], b[1..];
      LessEqMeansPrefixOrSmaller(a', b');
      if |a'| <= |b'| && a' == b'[..|a'|] {
        assert a == [a[0]] + a' && b[..|a|] == [b[0]] + b'[..|a'|];
      }
      if |a| <= |b| && a == b[..|a|] {
        assert a' == b'[..|a'|];
      }
      if i :| 0 <= i < |a'| && i < |b'| && a'[..i] == b'[..i] && a'[i] < b'[i] {
        assert a[..i + 1] == [a[0]] + a'[..i] && b[..i + 1] == [b[0]] + b'[..i];
        assert a[i + 1] == a'[i] && b[i + 1] == b'[i];
      }
      if i :| 0 <= i < |a| && i < |b| && a[..i] == b[..i] && a[i] < b[i] {
        assert i > 0;
        assert a'[..i - 1] == a[1..i] && b'[..i - 1] == b[1..i];
        assert a[1..i] == a[..i][1..] && b[1..i] == b[..i][1..];
        assert a'[i - 1] == a[i] && b'[i - 1] == b[i];
      }
    }
  }

  /** A shared prefix of length `i` followed by a smaller character at `i` puts `a` strictly first. */
  lemma LessAt(a: string, b: string, i: nat)
    requires i < |a| && i < |b| && a[..i] == b[..i] && a[i] < b[i]
    ensures Less(a, b) && !LessEq(b, a)
  {
    LessEqMeansPrefixOrSmaller(a, b);
    if LessEq(b, a) {
      LessEqAntisymmetric(a, b);
      assert false;
    }
  }

  /** `<` is transitive. */
  lemma LessTransitive(a: string, b: string, c: string)
    requires Less(a, b) && Less(b, c)
    ensures Less(a, c)
  {
    LessEqTransitive(a, b, c);
    if a == c {
      LessEqAntisymmetric(a, b);
    }
  }

  /** Of two strictly ordered texts, the second is not at or below the first. */
  lemma NotLessEqBack(a: string, b: string)
    requires Less(a, b)
    ensures !LessEq(b, a)
  {
    if LessEq(b, a) {
      LessEqAntisymmetric(a, b);
    }
  }

  /** Two texts that agree up to a point and then differ by their next character are
      ordered by that character. */
  lemma LessAfterCommonPrefix(a: string, b: string, p: string, x: string, y: string)
    requires a == p + x && b == p + y
    requires |x| > 0 && |y| > 0 && x[0] < y[0]
    ensures Less(a, b) && !LessEq(b, a)
  {
    assert a[..|p|] == p == b[..|p|];
    assert a[|p|] == x[0] && b[|p|] == y[0];
    LessAt(a, b, |p|);
  }

  /** A text that goes on from `p + q` with `more` comes before one that goes on from
      `p + q` with a text whose first character is above the first character of `more`. */
  lemma LessAfterExtension(p: string, q: string, more: string, x: string, y: string)
    requires |more| > 0 && |y| > 0 && more[0] < y[0]
    ensures Less(p + ((q + more) + x), p + (q + y))
  {
    var a, b := p + ((q + more) + x), p + (q + y);
    assert a == (p + q) + (more + x);
    assert b == (p + q) + y;
    LessAfterCommonPrefix(a, b, p + q, more + x, y);
  }
}
