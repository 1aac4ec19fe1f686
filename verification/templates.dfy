/**
 Python's `string.Template(...).substitute(**values)` for templates whose
 placeholders are plain `$name`s. A template is kept in its parsed form, a
 sequence of literal texts and named slots; substitution replaces every slot
 by its value in one left-to-right pass (values are never rescanned) and
 fails on the first slot that has no value, as `substitute` raises KeyError.
 */
module Templates {
  import opened Strings
  import opened Options
  import opened Records
  import opened Markers

  /** Every placeholder name used by the ten citation templates. */
  datatype Key =
    | Authors | Title | Edition | City | PublishingHouse | Year | Pages | Doi
    | ArticleTitle | JournalTitle | JournalNumber
    | Article | Website | Link | AccessDate
    | CollectionTitle
    | DissertationTitle | Degree | ScienceBranch | SpecialtyCode

  datatype Piece = Text(text: string) | Slot(key: Key)

  type Template = seq<Piece>

  /** The keyword arguments passed to `substitute`. */
  type Values = map<Key, string>

  datatype Substitution = Done(text: string) | MissingKey(key: Key)

  /** Every slot at a position in `[i, j)` has a value. */
  predicate CoveredBetween(t: Template, env: Values, i: nat, j: nat)
  {
    forall m :: i <= m < j && m < |t| && t[m].Slot? ==> t[m].key in env
  }

  /** Every slot of the template from position `i` on has a value. */
  predicate Covered(t: Template, env: Values, i: nat := 0)
  {
    CoveredBetween(t, env, i, |t|)
  }

  /** The text one piece contributes. */
  function PieceText(p: Piece, env: Values): string
    requires p.Slot? ==> p.key in env
  {
    match p
    case Text(s) => s
    case Slot(k) => env[k]
  }

  /** The pieces from position `i` on, each replaced by its text, concatenated left
      to right; values are inserted as they are and never rescanned. */
  function Fill(t: Template, env: Values, i: nat): string
    requires i <= |t| && Covered(t, env, i)
    decreases |t| - i
  {
    if i == |t| then "" else PieceText(t[i], env) + Fill(t, env, i + 1)
  }

  /** The position of the first slot at or after `i` without a value. */
  function FirstMissing(t: Template, env: Values, i: nat): (j: nat)
    requires i <= |t| && !Covered(t, env, i)
    ensures i <= j < |t| && t[j].Slot? && t[j].key !in env
    ensures CoveredBetween(t, env, i, j)
    decreases |t| - i
  {
    if t[i].Slot? && t[i].key !in env then i
    else
      assert i + 1 <= |t|;
      FirstMissing(t, env, i + 1)
  }

  /** The text of every piece, in template order. */
  function Texts(t: Template, env: Values): (r: seq<string>)
    requires Covered(t, env)
  {
    seq(|t|, i requires 0 <= i < |t| => PieceText(t[i], env))
  }

  lemma {:induction false} FillTexts(t: Template, env: Values, i: nat)
    requires i <= |t| && Covered(t, env)
    ensures Fill(t, env, i) == Concat(Texts(t, env)[i..])
    decreases |t| - i
  {
    if i < |t| {
      FillTexts(t, env, i + 1);
      assert Texts(t, env)[i..][1..] == Texts(t, env)[i + 1..];
    }
  }

  /** `Template(...).substitute(**env)`: the filled text when every slot has a value,
      otherwise the KeyError for the leftmost slot without one. */
  function Substitute(t: Template, env: Values): (r: Substitution)
    ensures r.Done? <==> Covered(t, env)
    ensures r.Done? ==> r.text == Concat(Texts(t, env))
    ensures r.MissingKey? ==> && r.key !in env
                              && exists j :: 0 <= j < |t| && t[j] == Slot(r.key) && CoveredBetween(t, env, 0, j)
  {
    if Covered(t, env) then
      FillTexts(t, env, 0);
      assert Texts(t, env)[0..] == Texts(t, env);
      Done(Fill(t, env, 0))
    else
      var j := FirstMissing(t, env, 0);
      assert t[j] == Slot(t[j].key);
      MissingKey(t[j].key)
  }

  /** Values of keys the template does not mention do not affect the result. */
  lemma {:induction false} FillIgnoresOtherKeys(t: Template, env1: Values, env2: Values, i: nat)
    requires i <= |t| && Covered(t, env1, i)
    requires forall j :: 0 <= j < |t| && t[j].Slot? ==> (t[j].key in env1 <==> t[j].key in env2)
    requires forall j :: 0 <= j < |t| && t[j].Slot? && t[j].key in env1 ==> env1[t[j].key] == env2[t[j].key]
    ensures Covered(t, env2, i)
    ensures Fill(t, env1, i) == Fill(t, env2, i)
    decreases |t| - i
  {
    forall m | i <= m < |t| && t[m].Slot?
      ensures t[m].key in env2
    {
      assert t[m].key in env1;
    }
    if i < |t| {
      assert Covered(t, env1, i + 1);
      FillIgnoresOtherKeys(t, env1, env2, i + 1);
      assert PieceText(t[i], env1) == PieceText(t[i], env2);
    }
  }

  lemma SubstituteIgnoresOtherKeys(t: Template, env1: Values, env2: Values)
    requires forall j :: 0 <= j < |t| && t[j].Slot? ==> (t[j].key in env1 <==> t[j].key in env2)
    requires forall j :: 0 <= j < |t| && t[j].Slot? && t[j].key in env1 ==> env1[t[j].key] == env2[t[j].key]
    ensures Substitute(t, env1) == Substitute(t, env2)
  {
    if Covered(t, env1) {
      FillIgnoresOtherKeys(t, env1, env2, 0);
    } else {
      assert !Covered(t, env2);
      var j1, j2 := FirstMissing(t, env1, 0), FirstMissing(t, env2, 0);
      assert j1 == j2;
    }
  }

  /** `str(value)` of an optional text field as `substitute` writes it: the text, or
      `None` when the field is absent. */
  function OptionalText(o: Option<string>): string
  {
    match o
    case Some(s) => s
    case None => "None"
  }

  /** `str(value)` of an optional number: its decimal digits, or `None`. */
  function OptionalNumber(o: Option<Positive>): string
  {
    match o
    case Some(n) => NatToString(n)
    case None => "None"
  }

  /** The text `str(n)` writes for a number holds no marker. */
  lemma NumberMarkerFree(n: nat)
    ensures MarkerFree(NatToString(n))
  {
    var s := NatToString(n);
    assert 'I' !in s by {
      forall i | 0 <= i < |s|
        ensures s[i] != 'I'
      {
        assert IsDigit(s[i]);
      }
    }
    NoInitialNoMarker(s);
  }

  /** An optional text field holds no marker unless its value does. */
  lemma OptionalTextMarkerFree(o: Option<string>)
    requires o.Some? ==> MarkerFree(o.value)
    ensures MarkerFree(OptionalText(o))
  {
    if o.None? { NoInitialNoMarker("None"); }
  }

  /** An optional number field never holds a marker. */
  lemma OptionalNumberMarkerFree(o: Option<Positive>)
    ensures MarkerFree(OptionalNumber(o))
  {
    if o.Some? { NumberMarkerFree(o.value); } else { NoInitialNoMarker("None"); }
  }
}
