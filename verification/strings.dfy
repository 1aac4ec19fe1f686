/**
 Plain string utilities the formatters are built from: Python's
 `str.split(sep)` on a single-character separator, the matching join,
 character replacement, character counting, and `str(n)` for natural
 numbers together with its inverse.
 */
module Strings {

  /** Number of occurrences of `c` in `s`. */
  function CountChar(s: string, c: char): (n: nat)
    ensures n <= |s|
    ensures n == 0 <==> c !in s
  {
    if |s| == 0 then 0
    else (if s[0] == c then 1 else 0) + CountChar(s[1..], c)
  }

  lemma {:induction false} CountCharAppend(a: string, b: string, c: char)
    ensures CountChar(a + b, c) == CountChar(a, c) + CountChar(b, c)
    decreases |a|
  {
    if |a| == 0 {
      assert a + b == b;
    } else {
      assert (a + b)[1..] == a[1..] + b;
      CountCharAppend(a[1..], b, c);
    }
  }

  /** Python's `s.split(sep)`: the maximal runs between separators,
      always at least one (possibly empty) piece. */
  function Split(s: string, sep: char): (parts: seq<string>)
    ensures |parts| == CountChar(s, sep) + 1
    ensures forall i :: 0 <= i < |parts| ==> sep !in parts[i]
  {
    if |s| == 0 then [""]
    else
      var rest := Split(s[1..], sep);
      if s[0] == sep then [""] + rest
      else [[s[0]] + rest[0]] + rest[1..]
  }

  /** `"".join(parts)`. */
  function Concat(parts: seq<string>): string
  {
    if |parts| == 0 then "" else parts[0] + Concat(parts[1..])
  }

  /** Concatenating two lists of pieces is concatenating their texts. */
  lemma {:induction false} ConcatAppend(a: seq<string>, b: seq<string>)
    ensures Concat(a + b) == Concat(a) + Concat(b)
    decreases |a|
  {
    if |a| > 0 {
      ConcatAppend(a[1..], b);
      assert (a + b)[1..] == a[1..] + b;
    } else {
      assert a + b == b;
    }
  }

  /** Appending one piece appends its text. */
  lemma ConcatLast(parts: seq<string>, last: string)
    ensures Concat(parts + [last]) == Concat(parts) + last
  {
    ConcatAppend(parts, [last]);
    assert [last][1..] == [];
  }

  /** A piece in the middle contributes its text between those of its neighbours. */
  lemma ConcatMiddle(head: seq<string>, x: string, tail: seq<string>)
    ensures Concat(head + [x] + tail) == Concat(head) + x + Concat(tail)
  {
    ConcatAppend(head + [x], tail);
    ConcatLast(head, x);
  }

  /** The texts of the pieces before position `k`, then piece `k`, then the rest. */
  lemma ConcatAt(parts: seq<string>, k: nat)
    requires k < |parts|
    ensures Concat(parts) == Concat(parts[..k]) + (parts[k] + Concat(parts[k + 1..]))
  {
    ConcatAppend(parts[..k], parts[k..]);
    assert parts[..k] + parts[k..] == parts;
    assert parts[k..][1..] == parts[k + 1..];
  }

  /** `sep.join(parts)` for a non-empty list. */
  function Join(parts: seq<string>, sep: string): string
    requires |parts| > 0
  {
    if |parts| == 1 then parts[0]
    else parts[0] + sep + Join(parts[1..], sep)
  }

  /** Every occurrence of `c` in `s` replaced by `rep`, everything else kept. */
  function ReplaceChar(s: string, c: char, rep: string): (r: string)
    ensures |r| == |s| + (|rep| - 1) * CountChar(s, c)
  {
    if |s| == 0 then ""
    else (if s[0] == c then rep else [s[0]]) + ReplaceChar(s[1..], c, rep)
  }

  /** When `rep` holds one `d`, replacing every `c` by `rep` adds one `d` per `c`. */
  lemma {:induction false} ReplaceCharCount(s: string, c: char, rep: string, d: char)
    requires d != c && CountChar(rep, d) == 1
    ensures CountChar(ReplaceChar(s, c, rep), d) == CountChar(s, d) + CountChar(s, c)
    decreases |s|
  {
    if |s| > 0 {
      var head := if s[0] == c then rep else [s[0]];
      var tail := ReplaceChar(s[1..], c, rep);
      assert ReplaceChar(s, c, rep) == head + tail;
      ReplaceCharCount(s[1..], c, rep, d);
      CountCharAppend(head, tail, d);
      if s[0] != c {
        assert CountChar(head, d) == (if s[0] == d then 1 else 0) by {
          assert head[1..] == [];
        }
      }
    }
  }

  /** Prepending text to the first piece of a join prepends it to the whole. */
  lemma {:induction false} JoinPrependFirst(x: string, parts: seq<string>, sep: string)
    requires |parts| > 0
    ensures Join([x + parts[0]] + parts[1..], sep) == x + Join(parts, sep)
  {
    var ps := [x + parts[0]] + parts[1..];
    if |parts| == 1 {
    } else {
      assert ps[1..] == parts[1..];
    }
  }

  /** Joining the pieces of a split with the separator itself gives back the input. */
  lemma {:induction false} JoinSplit(s: string, sep: char)
    ensures Join(Split(s, sep), [sep]) == s
  {
    ReplaceSplit(s, sep, [sep]);
    ReplaceIdentity(s, sep);
  }

  lemma {:induction false} ReplaceIdentity(s: string, c: char)
    ensures ReplaceChar(s, c, [c]) == s
    decreases |s|
  {
    if |s| > 0 {
      ReplaceIdentity(s[1..], c);
      assert s == [s[0]] + s[1..];
    }
  }

  /** Splitting on `c` and joining with `rep` is the same as replacing every `c` by `rep`. */
  lemma {:induction false} ReplaceSplit(s: string, c: char, rep: string)
    ensures Join(Split(s, c), rep) == ReplaceChar(s, c, rep)
    decreases |s|
  {
    if |s| == 0 {
    } else {
      var rest := Split(s[1..], c);
      ReplaceSplit(s[1..], c, rep);
      if s[0] == c {
        var ps := [""] + rest;
        assert ps[1..] == rest;
        assert Join(ps, rep) == "" + rep + Join(rest, rep);
      } else {
        JoinPrependFirst([s[0]], rest, rep);
      }
    }
  }

  /** Splitting a string that starts with a non-separator extends the first piece. */
  lemma SplitCons(x: char, t: string, sep: char)
    requires x != sep
    ensures Split([x] + t, sep) == [[x] + Split(t, sep)[0]] + Split(t, sep)[1..]
  {
    assert ([x] + t)[1..] == t;
  }

  /** Splitting a join of separator-free pieces gives back the pieces. */
  lemma {:induction false} SplitJoin(parts: seq<string>, sep: char)
    requires |parts| > 0
    requires forall i :: 0 <= i < |parts| ==> sep !in parts[i]
    ensures Split(Join(parts, [sep]), sep) == parts
    decreases |parts|, |parts[0]|
  {
    var p := parts[0];
    if |p| > 0 {
      var shorter := [p[1..]] + parts[1..];
      assert forall i :: 0 <= i < |shorter| ==> sep !in shorter[i] by {
        assert shorter[0] == p[1..];
        assert forall i :: 1 <= i < |shorter| ==> shorter[i] == parts[i];
      }
      SplitJoin(shorter, sep);
      assert p[0] != sep by { assert p[0] in parts[0]; }
      SplitJoinStep(parts, sep);
    } else if |parts| > 1 {
      SplitJoin(parts[1..], sep);
      SplitJoinEmptyHead(parts, sep);
    }
  }

  /** One character put back in front of the first piece comes back out of the split
      in front of that piece. */
  lemma SplitJoinStep(parts: seq<string>, sep: char)
    requires |parts| > 0 && |parts[0]| > 0 && parts[0][0] != sep
    requires Split(Join([parts[0][1..]] + parts[1..], [sep]), sep) == [parts[0][1..]] + parts[1..]
    ensures Split(Join(parts, [sep]), sep) == parts
  {
    var p := parts[0];
    var shorter := [p[1..]] + parts[1..];
    JoinPrependFirst([p[0]], shorter, [sep]);
    assert [p[0]] + p[1..] == p;
    assert [[p[0]] + shorter[0]] + shorter[1..] == parts;
    SplitCons(p[0], Join(shorter, [sep]), sep);
  }

  /** An empty first piece comes back out of the split as an empty first piece. */
  lemma SplitJoinEmptyHead(parts: seq<string>, sep: char)
    requires |parts| > 1 && parts[0] == ""
    requires Split(Join(parts[1..], [sep]), sep) == parts[1..]
    ensures Split(Join(parts, [sep]), sep) == parts
  {
    var t := Join(parts[1..], [sep]);
    assert Join(parts, [sep]) == [sep] + t;
    assert ([sep] + t)[1..] == t;
    assert [""] + parts[1..] == parts;
  }

  /** A string without the separator splits into itself alone. */
  lemma SplitNoSeparator(s: string, sep: char)
    requires sep !in s
    ensures Split(s, sep) == [s]
  {
    SplitJoin([s], sep);
  }

  /** The pieces followed each by `sep`, as the loop `for a in parts: res += a + sep` builds. */
  function Terminated(parts: seq<string>, sep: string): string
  {
    if |parts| == 0 then "" else parts[0] + sep + Terminated(parts[1..], sep)
  }

  /** Terminating every piece and then appending `x` is joining the pieces and `x`. */
  lemma {:induction false} TerminatedThenJoin(parts: seq<string>, sep: string, x: string)
    ensures Terminated(parts, sep) + x == Join(parts + [x], sep)
    decreases |parts|
  {
    if |parts| == 0 {
      assert parts + [x] == [x];
    } else {
      TerminatedThenJoin(parts[1..], sep, x);
      assert (parts + [x])[1..] == parts[1..] + [x];
    }
  }

  predicate IsDigit(c: char) { '0' <= c <= '9' }

  function DigitChar(d: nat): (c: char)
    requires d < 10
    ensures IsDigit(c)
  {
    ['0', '1', '2', '3', '4', '5', '6', '7', '8', '9'][d]
  }

  function DigitValue(c: char): (d: nat)
    requires IsDigit(c)
    ensures d < 10 && DigitChar(d) == c
  {
    (c as int - '0' as int) as nat
  }

  /** Python's `str(n)` for a natural number: decimal digits, most significant first,
      without leading zeros. */
  function NatToString(n: nat): (s: string)
    ensures |s| > 0
    ensures forall i :: 0 <= i < |s| ==> IsDigit(s[i])
    ensures n > 0 ==> s[0] != '0'
    ensures n < 10 <==> |s| == 1
  {
    if n < 10 then [DigitChar(n)] else NatToString(n / 10) + [DigitChar(n % 10)]
  }

  /** The value of a string of decimal digits. */
  function ParseDecimal(s: string): nat
    requires forall i :: 0 <= i < |s| ==> IsDigit(s[i])
  {
    if |s| == 0 then 0 else 10 * ParseDecimal(s[..|s| - 1]) + DigitValue(s[|s| - 1])
  }

  /** A canonical decimal numeral: non-empty digits, no leading zero unless it is "0". */
  predicate Canonical(s: string)
  {
    && |s| > 0
    && (forall i :: 0 <= i < |s| ==> IsDigit(s[i]))
    && (|s| > 1 ==> s[0] != '0')
  }

  lemma {:induction false} ParseRendered(n: nat)
    ensures ParseDecimal(NatToString(n)) == n
    decreases n
  {
    var s := NatToString(n);
    if n >= 10 {
      ParseRendered(n / 10);
      assert s[..|s| - 1] == NatToString(n / 10);
    }
  }

  lemma {:induction false} RenderParsed(s: string)
    requires Canonical(s)
    ensures NatToString(ParseDecimal(s)) == s
    decreases |s|
  {
    var n := ParseDecimal(s);
    var init := s[..|s| - 1];
    var d := DigitValue(s[|s| - 1]);
    if |s| == 1 {
      assert n == d;
    } else {
      assert init[0] == s[0];
      RenderParsed(init);
      var m := ParseDecimal(init);
      assert m > 0 by {
        if |init| > 1 {
          assert |NatToString(m)| > 1;
        } else {
          assert m == DigitValue(init[0]);
        }
      }
      assert n / 10 == m && n % 10 == d;
      assert s == init + [s[|s| - 1]];
    }
  }

  /** `str` on positive numbers is injective: distinct numbers render differently. */
  lemma NatToStringInjective(m: nat, n: nat)
    requires NatToString(m) == NatToString(n)
    ensures m == n
  {
    ParseRendered(m);
    ParseRendered(n);
  }

  predicate EndsWith(s: string, suffix: string)
  {
    |suffix| <= |s| && s[|s| - |suffix|..] == suffix
  }
}
