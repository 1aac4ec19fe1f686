/**
 Python's `sorted(items, key=...)` for string keys: a stable sort. Modelled as
 an insertion sort that places each element before every element whose key
 is not smaller, so equal keys keep their input order.
 */
module StableSort {
  import opened Ordering

  /** Keys never decrease along `s`. */
  predicate SortedBy<T>(s: seq<T>, key: T -> string)
  {
    forall i, j :: 0 <= i < j < |s| ==> LessEq(key(s[i]), key(s[j]))
  }

  /** The elements of `s` whose key is `k`, in their order in `s`. */
  function WithKey<T>(s: seq<T>, key: T -> string, k: string): (r: seq<T>)
    ensures |r| <= |s|
  {
    if |s| == 0 then []
    else (if key(s[0]) == k then [s[0]] else []) + WithKey(s[1..], key, k)
  }

  /** Equal keys appear in `r` in the same relative order as in `s`. */
  ghost predicate StableOn<T>(r: seq<T>, s: seq<T>, key: T -> string)
  {
    forall k :: WithKey(r, key, k) == WithKey(s, key, k)
  }

  /** `x` placed into `s` just before the first element whose key is not smaller. */
  function Insert<T>(x: T, s: seq<T>, key: T -> string): (r: seq<T>)
    ensures |r| == |s| + 1
  {
    if |s| == 0 || LessEq(key(x), key(s[0])) then [x] + s
    else [s[0]] + Insert(x, s[1..], key)
  }

  /** Insertion adds `x` and loses nothing. */
  lemma {:induction false} InsertPermutes<T>(x: T, s: seq<T>, key: T -> string)
    ensures multiset(Insert(x, s, key)) == multiset(s) + multiset{x}
    decreases |s|
  {
    if |s| > 0 && !LessEq(key(x), key(s[0])) {
      InsertPermutes(x, s[1..], key);
      assert s == [s[0]] + s[1..];
    }
  }

  lemma {:induction false} InsertSorted<T>(x: T, s: seq<T>, key: T -> string)
    requires SortedBy(s, key)
    ensures SortedBy(Insert(x, s, key), key)
    decreases |s|
  {
    var r := Insert(x, s, key);
    if |s| == 0 {
    } else if LessEq(key(x), key(s[0])) {
      forall i, j | 0 <= i < j < |r|
        ensures LessEq(key(r[i]), key(r[j]))
      {
        if i == 0 && j > 1 {
          LessEqTransitive(key(x), key(s[0]), key(s[j - 1]));
        }
      }
    } else {
      var tail := Insert(x, s[1..], key);
      InsertSorted(x, s[1..], key);
      InsertPermutes(x, s[1..], key);
      LessEqTotal(key(x), key(s[0]));
      assert multiset(tail) == multiset(s[1..]) + multiset{x};
      forall i, j | 0 <= i < j < |r|
        ensures LessEq(key(r[i]), key(r[j]))
      {
        if i == 0 {
          // r[j] is x or an element of s[1..]; both have keys not below key(s[0]).
          assert r[j] == tail[j - 1];
          assert r[j] in multiset(tail);
          if r[j] != x {
            assert r[j] in multiset(s[1..]);
            var m :| 0 <= m < |s[1..]| && s[1..][m] == r[j];
            assert s[m + 1] == r[j];
          }
        }
      }
    }
  }

  /** Inserting before every equal key keeps the per-key order of `[x] + s`. */
  lemma {:induction false} InsertStable<T>(x: T, s: seq<T>, key: T -> string, k: string)
    ensures WithKey(Insert(x, s, key), key, k) == WithKey([x] + s, key, k)
    decreases |s|
  {
    if |s| > 0 && !LessEq(key(x), key(s[0])) {
      var tail := Insert(x, s[1..], key);
      InsertStable(x, s[1..], key, k);
      assert ([s[0]] + tail)[1..] == tail;
      assert ([x] + s[1..])[1..] == s[1..];
      assert ([x] + s)[1..] == s;
      assert s == [s[0]] + s[1..];
      LessEqReflexive(key(x));
      assert key(x) != key(s[0]);
    } else {
      assert ([x] + s)[1..] == s;
    }
  }

  /** `x` goes in front of a sequence whose first key is not smaller. */
  lemma InsertFront<T>(x: T, s: seq<T>, key: T -> string)
    requires |s| == 0 || LessEq(key(x), key(s[0]))
    ensures Insert(x, s, key) == [x] + s
  {
  }

  /** `x` passes an element whose key is smaller. */
  lemma InsertPast<T>(x: T, y: T, s: seq<T>, key: T -> string)
    requires !LessEq(key(x), key(y))
    ensures Insert(x, [y] + s, key) == [y] + Insert(x, s, key)
  {
    assert ([y] + s)[1..] == s;
  }

  /** The stable sort of `s` by `key`. */
  function SortBy<T>(s: seq<T>, key: T -> string): (r: seq<T>)
    ensures |r| == |s|
    ensures SortedBy(r, key)
  {
    if |s| == 0 then []
    else
      var rest := SortBy(s[1..], key);
      InsertSorted(s[0], rest, key);
      Insert(s[0], rest, key)
  }

  /** Sorting rearranges the elements and loses none. */
  lemma {:induction false} SortByPermutes<T>(s: seq<T>, key: T -> string)
    ensures multiset(SortBy(s, key)) == multiset(s)
    decreases |s|
  {
    if |s| > 0 {
      SortByPermutes(s[1..], key);
      InsertPermutes(s[0], SortBy(s[1..], key), key);
      assert s == [s[0]] + s[1..];
    }
  }

  /** The first element is inserted into the sorted rest. */
  lemma SortByCons<T>(x: T, s: seq<T>, key: T -> string)
    ensures SortBy([x] + s, key) == Insert(x, SortBy(s, key), key)
  {
    assert ([x] + s)[1..] == s;
  }

  /** Sorting keeps the relative order of elements with equal keys. */
  lemma {:induction false} SortByStable<T>(s: seq<T>, key: T -> string)
    ensures StableOn(SortBy(s, key), s, key)
    decreases |s|
  {
    if |s| > 0 {
      var rest := SortBy(s[1..], key);
      SortByStable(s[1..], key);
      forall k
        ensures WithKey(SortBy(s, key), key, k) == WithKey(s, key, k)
      {
        InsertStable(s[0], rest, key, k);
        assert ([s[0]] + rest)[1..] == rest;
        assert s == [s[0]] + s[1..];
      }
    }
  }

  /** An already sorted sequence is left as it is. */
  lemma {:induction false} SortBySortedIsIdentity<T>(s: seq<T>, key: T -> string)
    requires SortedBy(s, key)
    ensures SortBy(s, key) == s
    decreases |s|
  {
    if |s| > 0 {
      SortBySortedIsIdentity(s[1..], key);
      if |s| > 1 {
        assert s[1..][0] == s[1];
      }
      assert [s[0]] + s[1..] == s;
    }
  }

  /** Keys strictly increase along `s`. */
  predicate StrictlySortedBy<T>(s: seq<T>, key: T -> string)
  {
    forall i, j :: 0 <= i < j < |s| ==> Less(key(s[i]), key(s[j]))
  }

  /** Strictly increasing neighbours make the whole sequence strictly increasing. */
  lemma {:induction false} StrictChain<T>(s: seq<T>, key: T -> string)
    requires forall i :: 0 <= i < |s| - 1 ==> Less(key(s[i]), key(s[i + 1]))
    ensures StrictlySortedBy(s, key)
    decreases |s|
  {
    if |s| > 1 {
      var tail := s[1..];
      forall i | 0 <= i < |tail| - 1
        ensures Less(key(tail[i]), key(tail[i + 1]))
      {
        assert tail[i] == s[i + 1] && tail[i + 1] == s[i + 2];
      }
      StrictChain(tail, key);
      forall j | 1 < j < |s|
        ensures Less(key(s[0]), key(s[j]))
      {
        assert tail[0] == s[1] && tail[j - 1] == s[j];
        LessTransitive(key(s[0]), key(s[1]), key(s[j]));
      }
    }
  }

  lemma SortedTail<T>(s: seq<T>, key: T -> string)
    requires |s| > 0 && SortedBy(s, key)
    ensures SortedBy(s[1..], key)
  {
    var tail := s[1..];
    forall a, b | 0 <= a < b < |tail|
      ensures LessEq(key(tail[a]), key(tail[b]))
    {
      assert tail[a] == s[a + 1] && tail[b] == s[b + 1];
    }
  }

  lemma StrictlySortedTail<T>(s: seq<T>, key: T -> string)
    requires |s| > 0 && StrictlySortedBy(s, key)
    ensures StrictlySortedBy(s[1..], key)
  {
    var tail := s[1..];
    forall a, b | 0 <= a < b < |tail|
      ensures Less(key(tail[a]), key(tail[b]))
    {
      assert tail[a] == s[a + 1] && tail[b] == s[b + 1];
    }
  }

  /** Two arrangements of the same elements, one sorted and one strictly sorted, start
      with the same element. */
  lemma SameHead<T>(r: seq<T>, t: seq<T>, key: T -> string)
    requires |r| > 0 && |t| > 0 && multiset(r) == multiset(t)
    requires SortedBy(r, key) && StrictlySortedBy(t, key)
    ensures r[0] == t[0]
  {
    assert r[0] in multiset(t) && t[0] in multiset(r);
    var j :| 0 <= j < |t| && t[j] == r[0];
    var i :| 0 <= i < |r| && r[i] == t[0];
    if j > 0 {
      assert Less(key(r[i]), key(r[0]));
      assert i > 0 && LessEq(key(r[0]), key(r[i]));
      LessEqAntisymmetric(key(r[0]), key(r[i]));
      assert false;
    }
  }

  /** The elements after the head are the elements less the head. */
  lemma TailMultiset<T>(s: seq<T>)
    requires |s| > 0
    ensures multiset(s[1..]) == multiset(s) - multiset{s[0]}
  {
    assert s == [s[0]] + s[1..];
  }

  /** A sorted rearrangement of a sequence whose keys strictly increase is that
      sequence itself. */
  lemma {:induction false} SortedPermutationUnique<T>(r: seq<T>, t: seq<T>, key: T -> string)
    requires multiset(r) == multiset(t)
    requires SortedBy(r, key) && StrictlySortedBy(t, key)
    ensures r == t
    decreases |r|
  {
    assert |r| == |multiset(r)| == |multiset(t)| == |t|;
    if |r| > 0 {
      SameHead(r, t, key);
      TailMultiset(r);
      TailMultiset(t);
      SortedTail(r, key);
      StrictlySortedTail(t, key);
      SortedPermutationUnique(r[1..], t[1..], key);
      assert r == [r[0]] + r[1..] && t == [t[0]] + t[1..];
    }
  }

  /** Sorting a rearrangement of a sequence whose keys strictly increase gives back
      that sequence. */
  lemma SortByStrict<T>(s: seq<T>, t: seq<T>, key: T -> string)
    requires multiset(s) == multiset(t) && StrictlySortedBy(t, key)
    ensures SortBy(s, key) == t
  {
    SortByPermutes(s, key);
    SortedPermutationUnique(SortBy(s, key), t, key);
  }
}
