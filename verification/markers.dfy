/**
 The italic marker convention: a formatted citation carries the literal token
 `ITALIC` around the span the document writer sets in italics. This module
 counts occurrences of the token and states when concatenation neither
 creates nor destroys one.
 */
module Markers {
  import opened Strings

  const Marker: string := "ITALIC"

  /** `s` begins with `Marker`, compared character by character. */
  predicate StartsWithMarker(s: string)
  {
    |s| >= 6 && s[0] == 'I' && s[1] == 'T' && s[2] == 'A' && s[3] == 'L' && s[4] == 'I' && s[5] == 'C'
  }

  lemma StartsWithMarkerMeansPrefix(s: string)
    ensures StartsWithMarker(s) <==> |s| >= |Marker| && s[..|Marker|] == Marker
  {
    if |s| >= |Marker| && s[..|Marker|] == Marker {
      assert s[0] == Marker[0] && s[1] == Marker[1] && s[2] == Marker[2];
      assert s[3] == Marker[3] && s[4] == Marker[4] && s[5] == Marker[5];
    }
  }

  /** Number of (possibly overlapping) positions at which `Marker` starts in `s`. */
  function Occurrences(s: string): nat
  {
    if |s| < |Marker| then 0
    else (if StartsWithMarker(s) then 1 else 0) + Occurrences(s[1..])
  }

  predicate MarkerFree(s: string) { Occurrences(s) == 0 }

  /** `c` occurs in the marker before its last character (`ITAL`). */
  predicate InMarkerHead(c: char) { c == 'I' || c == 'T' || c == 'A' || c == 'L' }

  /** `c` occurs in the marker after its first character (`TALIC`). */
  predicate InMarkerTail(c: char) { c == 'T' || c == 'A' || c == 'L' || c == 'I' || c == 'C' }

  /** `s` may be followed by anything without completing a marker across the joint:
      its last character cannot sit inside a marker before that marker's end. */
  predicate SafeEnd(s: string) { |s| == 0 || !InMarkerHead(s[|s| - 1]) }

  /** `s` may be preceded by anything without completing a marker across the joint:
      its first character cannot sit inside a marker after that marker's start. */
  predicate SafeStart(s: string) { |s| > 0 && !InMarkerTail(s[0]) }

  /** A literal that can sit between any two field values. */
  predicate Guarded(s: string) { SafeStart(s) && SafeEnd(s) }

  /** A string in which the letter I never appears cannot hold a marker. */
  lemma {:induction false} NoInitialNoMarker(s: string)
    requires 'I' !in s
    ensures MarkerFree(s)
    decreases |s|
  {
    if |s| >= |Marker| {
      NoInitialNoMarker(s[1..]);
    }
  }

  /** A literal without the letter `I` and without marker letters at its edges: it
      holds no marker and cannot help form one with its neighbours. */
  predicate Neutral(s: string) { 'I' !in s && Guarded(s) }

  lemma NeutralText(s: string)
    requires Neutral(s)
    ensures Occurrences(s) == 0 && Guarded(s)
  {
    NoInitialNoMarker(s);
  }

  /** `p + Marker + q` is a literal holding the marker once, guarded at both edges. */
  predicate MarkerBetween(p: string, q: string)
  {
    'I' !in p && 'I' !in q && Guarded(p) && SafeEnd(q)
  }

  lemma MarkedText(p: string, q: string)
    requires MarkerBetween(p, q)
    ensures Occurrences(p + Marker + q) == 1 && Guarded(p + Marker + q)
  {
    OneMarker(p, q);
    var s := p + Marker + q;
    assert s[0] == p[0];
    if |q| > 0 {
      assert s[|s| - 1] == q[|q| - 1];
    } else {
      assert s[|s| - 1] == 'C';
    }
  }

  /** A literal holding the marker once, with no other `I` around it. */
  lemma OneMarker(p: string, q: string)
    requires 'I' !in p && 'I' !in q && SafeEnd(p)
    ensures Occurrences(p + Marker + q) == 1
  {
    NoInitialNoMarker(p);
    NoInitialNoMarker(q);
    assert Occurrences(Marker) == 1 by {
      assert |Marker[1..]| < |Marker|;
    }
    OccurrencesAppend(p, Marker);
    assert SafeEnd(p + Marker) by { assert (p + Marker)[|p + Marker| - 1] == 'C'; }
    OccurrencesAppend(p + Marker, q);
  }

  /** Concatenation never loses a marker. */
  lemma {:induction false} OccurrencesAppendAtLeast(a: string, b: string)
    ensures Occurrences(a + b) >= Occurrences(a) + Occurrences(b)
    decreases |a|
  {
    if |a| == 0 {
      assert a + b == b;
    } else {
      assert (a + b)[1..] == a[1..] + b;
      OccurrencesAppendAtLeast(a[1..], b);
    }
  }

  /** Concatenation creates no marker across a safe joint. */
  lemma {:induction false} OccurrencesAppend(a: string, b: string)
    requires SafeEnd(a) || SafeStart(b)
    ensures Occurrences(a + b) == Occurrences(a) + Occurrences(b)
    decreases |a|
  {
    if |a| == 0 {
      assert a + b == b;
    } else {
      var ab := a + b;
      assert ab[1..] == a[1..] + b;
      assert SafeEnd(a[1..]) || SafeStart(b) by {
        if |a| > 1 { assert a[1..][|a| - 2] == a[|a| - 1]; }
      }
      OccurrencesAppend(a[1..], b);
      if |a| < |Marker| && |ab| >= |Marker| {
        // A marker at the front would have to straddle the joint.
        if SafeEnd(a) {
          var j := |a| - 1;
          assert ab[j] == a[j] && !InMarkerHead(a[j]);
          assert j == 0 || j == 1 || j == 2 || j == 3 || j == 4;
        } else {
          var j := |a|;
          assert ab[j] == b[0] && !InMarkerTail(b[0]);
          assert j == 1 || j == 2 || j == 3 || j == 4 || j == 5;
        }
      }
    }
  }

  /** A piece of a join never holds more markers than the whole. */
  lemma {:induction false} JoinedPieceBounded(parts: seq<string>, sep: string, i: nat)
    requires i < |parts|
    ensures Occurrences(parts[i]) <= Occurrences(Join(parts, sep))
    decreases |parts|
  {
    if |parts| > 1 {
      var rest := Join(parts[1..], sep);
      OccurrencesAppendAtLeast(parts[0] + sep, rest);
      OccurrencesAppendAtLeast(parts[0], sep);
      if i > 0 {
        JoinedPieceBounded(parts[1..], sep, i - 1);
      }
    }
  }

  /** Joining marker-free pieces with a guarded, marker-free separator yields no marker. */
  lemma {:induction false} JoinMarkerFree(parts: seq<string>, sep: string)
    requires |parts| > 0
    requires forall i :: 0 <= i < |parts| ==> MarkerFree(parts[i])
    requires Guarded(sep) && MarkerFree(sep)
    ensures MarkerFree(Join(parts, sep))
    decreases |parts|
  {
    if |parts| > 1 {
      var rest := Join(parts[1..], sep);
      JoinMarkerFree(parts[1..], sep);
      OccurrencesAppend(sep, rest);
      assert (sep + rest)[0] == sep[0];
      OccurrencesAppend(parts[0], sep + rest);
      assert parts[0] + sep + rest == parts[0] + (sep + rest);
    }
  }

  /** The pieces of a marker-free string split on any character are marker-free. */
  lemma SplitMarkerFree(s: string, sep: char)
    requires MarkerFree(s)
    ensures forall i :: 0 <= i < |Split(s, sep)| ==> MarkerFree(Split(s, sep)[i])
  {
    var parts := Split(s, sep);
    JoinSplit(s, sep);
    forall i | 0 <= i < |parts|
      ensures MarkerFree(parts[i])
    {
      JoinedPieceBounded(parts, [sep], i);
    }
  }

  /** The markers held by the pieces from position `i` on, added up. */
  function MarkerSum(parts: seq<string>, i: nat := 0): nat
    decreases |parts| - i
  {
    if i >= |parts| then 0 else Occurrences(parts[i]) + MarkerSum(parts, i + 1)
  }

  /** At every joint between neighbouring pieces, the left one ends safely or the right
      one starts safely. */
  predicate SafeJoints(parts: seq<string>)
  {
    forall i :: 0 <= i < |parts| - 1 ==> SafeEnd(parts[i]) || SafeStart(parts[i + 1])
  }

  /** Concatenating pieces with safe joints neither creates nor destroys a marker. */
  lemma ConcatMarkers(parts: seq<string>)
    requires SafeJoints(parts)
    ensures Occurrences(Concat(parts)) == MarkerSum(parts)
  {
    ConcatMarkersFrom(parts, 0);
    assert parts[0..] == parts;
  }

  lemma {:induction false} ConcatMarkersFrom(parts: seq<string>, i: nat)
    requires i <= |parts| && SafeJoints(parts)
    ensures Occurrences(Concat(parts[i..])) == MarkerSum(parts, i)
    decreases |parts| - i
  {
    if i < |parts| {
      var rest := parts[i + 1..];
      assert parts[i..][1..] == rest;
      ConcatMarkersFrom(parts, i + 1);
      if |rest| == 0 {
        assert Concat(parts[i..]) == parts[i] + "" == parts[i];
      } else {
        if !SafeEnd(parts[i]) {
          assert SafeStart(parts[i + 1]);
          assert rest[0] == parts[i + 1];
          assert Concat(rest) == rest[0] + Concat(rest[1..]);
          assert Concat(rest)[0] == rest[0][0];
        }
        OccurrencesAppend(parts[i], Concat(rest));
      }
    }
  }

  /** Eight marker-free fields, each followed by a neutral literal text, hold no
      marker and join safely: the shape of both dissertation templates. */
  lemma AlternatingSixteenMarkers(parts: seq<string>)
    requires |parts| == 16
    requires MarkerFree(parts[0]) && MarkerFree(parts[2]) && MarkerFree(parts[4]) && MarkerFree(parts[6]) && MarkerFree(parts[8]) && MarkerFree(parts[10]) && MarkerFree(parts[12]) && MarkerFree(parts[14])
    requires Neutral(parts[1])
    requires Neutral(parts[3])
    requires Neutral(parts[5])
    requires Neutral(parts[7])
    requires Neutral(parts[9])
    requires Neutral(parts[11])
    requires Neutral(parts[13])
    requires Neutral(parts[15])
    ensures SafeJoints(parts) && MarkerSum(parts) == 0
  {
    NeutralText(parts[1]);
    NeutralText(parts[3]);
    NeutralText(parts[5]);
    NeutralText(parts[7]);
    NeutralText(parts[9]);
    NeutralText(parts[11]);
    NeutralText(parts[13]);
    NeutralText(parts[15]);
    // One piece per step, from the end, so that each step is a small query for the solver.
    assert MarkerSum(parts, 15) == 0;
    assert MarkerSum(parts, 14) == 0;
    assert MarkerSum(parts, 13) == 0;
    assert MarkerSum(parts, 12) == 0;
    assert MarkerSum(parts, 11) == 0;
    assert MarkerSum(parts, 10) == 0;
    assert MarkerSum(parts, 9) == 0;
    assert MarkerSum(parts, 8) == 0;
    assert MarkerSum(parts, 7) == 0;
    assert MarkerSum(parts, 6) == 0;
    assert MarkerSum(parts, 5) == 0;
    assert MarkerSum(parts, 4) == 0;
    assert MarkerSum(parts, 3) == 0;
    assert MarkerSum(parts, 2) == 0;
    assert MarkerSum(parts, 1) == 0;
  }
}
