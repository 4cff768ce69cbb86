/**
 * `Object.keys(o).sort()`: the default `Array.prototype.sort` orders strings
 * lexicographically by character code. The model sorts by insertion; since a
 * sorted permutation under a total order is unique, any correct sort gives
 * the same list, so the comparison of two sorted key lists does not depend on
 * the sorting algorithm.
 */
module KeySort {

  /** Lexicographic order on strings by character code. */
  predicate StrLe(a: string, b: string)
    decreases |a|
  {
    if |a| == 0 then true
    else if |b| == 0 then false
    else if a[0] != b[0] then a[0] < b[0]
    else StrLe(a[1..], b[1..])
  }

  lemma {:induction false} StrLeTotal(a: string, b: string)
    ensures StrLe(a, b) || StrLe(b, a)
    decreases |a|
  {
    if |a| > 0 && |b| > 0 && a[0] == b[0] {
      StrLeTotal(a[1..], b[1..]);
    }
  }

  lemma {:induction false} StrLeReflexive(a: string)
    ensures StrLe(a, a)
    decreases |a|
  {
    if |a| > 0 {
      StrLeReflexive(a[1..]);
    }
  }

  lemma {:induction false} StrLeAntisymmetric(a: string, b: string)
    requires StrLe(a, b) && StrLe(b, a)
    ensures a == b
    decreases |a|
  {
    if |a| > 0 {
      StrLeAntisymmetric(a[1..], b[1..]);
      assert a == [a[0]] + a[1..] && b == [b[0]] + b[1..];
    }
  }

  lemma {:induction false} StrLeTransitive(a: string, b: string, c: string)
    requires StrLe(a, b) && StrLe(b, c)
    ensures StrLe(a, c)
    decreases |a|
  {
    if |a| > 0 && a[0] == b[0] && b[0] == c[0] {
      StrLeTransitive(a[1..], b[1..], c[1..]);
    }
  }

  predicate Sorted(s: seq<string>) {
    forall i, j :: 0 <= i < j < |s| ==> StrLe(s[i], s[j])
  }

  /** Inserts `x` before the first element it does not exceed. */
  function Insert(x: string, s: seq<string>): (r: seq<string>)
    ensures multiset(r) == multiset(s) + multiset{x}
    decreases |s|
  {
    if |s| == 0 then [x]
    else if StrLe(x, s[0]) then [x] + s
    else
      assert s == [s[0]] + s[1..];
      [s[0]] + Insert(x, s[1..])
  }

  /** The sorted permutation of a list of keys. */
  function SortStrings(s: seq<string>): (r: seq<string>)
    ensures multiset(r) == multiset(s)
    decreases |s|
  {
    if |s| == 0 then []
    else
      assert s == [s[0]] + s[1..];
      Insert(s[0], SortStrings(s[1..]))
  }

  /** A lower bound of `x` and of every element of `s` bounds every element after the insertion. */
  lemma InsertBelow(y: string, x: string, s: seq<string>)
    requires StrLe(y, x)
    requires forall k :: 0 <= k < |s| ==> StrLe(y, s[k])
    ensures forall j :: 0 <= j < |Insert(x, s)| ==> StrLe(y, Insert(x, s)[j])
  {
    var t := Insert(x, s);
    forall j | 0 <= j < |t| ensures StrLe(y, t[j]) {
      assert t[j] in multiset(t);
      if t[j] != x {
        assert t[j] in multiset(s);
        var k :| 0 <= k < |s| && s[k] == t[j];
      }
    }
  }

  /** A list stays sorted when an element bounded by all of it is put in front. */
  lemma SortedCons(y: string, t: seq<string>)
    requires Sorted(t)
    requires forall j :: 0 <= j < |t| ==> StrLe(y, t[j])
    ensures Sorted([y] + t)
  {
    var r := [y] + t;
    forall i, j | 0 <= i < j < |r| ensures StrLe(r[i], r[j]) {
      assert r[j] == t[j - 1];
      if i > 0 { assert r[i] == t[i - 1]; }
    }
  }

  lemma {:induction false} InsertSorted(x: string, s: seq<string>)
    requires Sorted(s)
    ensures Sorted(Insert(x, s))
    decreases |s|
  {
    if |s| == 0 {
    } else if StrLe(x, s[0]) {
      forall j | 0 <= j < |s| ensures StrLe(x, s[j]) {
        if j > 0 {
          StrLeTransitive(x, s[0], s[j]);
        }
      }
      SortedCons(x, s);
    } else {
      StrLeTotal(x, s[0]);
      InsertSorted(x, s[1..]);
      InsertBelow(s[0], x, s[1..]);
      SortedCons(s[0], Insert(x, s[1..]));
    }
  }

  lemma {:induction false} SortStringsSorted(s: seq<string>)
    ensures Sorted(SortStrings(s))
    decreases |s|
  {
    if |s| > 0 {
      SortStringsSorted(s[1..]);
      InsertSorted(s[0], SortStrings(s[1..]));
    }
  }

  /** The first element of a sorted list is below every element of the list. */
  lemma SortedHeadIsLeast(s: seq<string>, x: string)
    requires Sorted(s) && |s| > 0 && x in multiset(s)
    ensures StrLe(s[0], x)
  {
    var k :| 0 <= k < |s| && s[k] == x;
    StrLeReflexive(s[0]);
  }

  /** Two non-empty sorted lists with the same elements start alike and continue with the same elements. */
  lemma SortedHeadsEqual(s: seq<string>, t: seq<string>)
    requires Sorted(s) && Sorted(t) && |s| > 0
    requires multiset(s) == multiset(t)
    ensures |t| > 0 && s[0] == t[0]
    ensures Sorted(s[1..]) && Sorted(t[1..]) && multiset(s[1..]) == multiset(t[1..])
  {
    assert |t| > 0 by { assert s[0] in multiset(t); }
    assert StrLe(s[0], t[0]) by { assert t[0] in multiset(s); SortedHeadIsLeast(s, t[0]); }
    assert StrLe(t[0], s[0]) by { assert s[0] in multiset(t); SortedHeadIsLeast(t, s[0]); }
    StrLeAntisymmetric(s[0], t[0]);
    TailMultiset(s);
    TailMultiset(t);
  }

  /** Two sorted lists holding the same keys with the same multiplicities are equal. */
  lemma {:induction false} SortedUnique(s: seq<string>, t: seq<string>)
    requires Sorted(s) && Sorted(t)
    requires multiset(s) == multiset(t)
    ensures s == t
    decreases |s|
  {
    if |s| == 0 {
      assert |multiset(t)| == 0;
    } else {
      SortedHeadsEqual(s, t);
      SortedUnique(s[1..], t[1..]);
      assert s == [s[0]] + s[1..] && t == [t[0]] + t[1..];
    }
  }

  lemma TailMultiset(s: seq<string>)
    requires |s| > 0
    ensures multiset(s[1..]) == multiset(s) - multiset{s[0]}
  {
    assert s == [s[0]] + s[1..];
  }

  /** Sorting two key lists gives the same list exactly when they hold the same keys, counted with multiplicity. */
  lemma SameSortedIffSameMultiset(a: seq<string>, b: seq<string>)
    ensures SortStrings(a) == SortStrings(b) <==> multiset(a) == multiset(b)
  {
    if multiset(a) == multiset(b) {
      SortStringsSorted(a);
      SortStringsSorted(b);
      SortedUnique(SortStrings(a), SortStrings(b));
    }
  }

  predicate Distinct(s: seq<string>) {
    forall i, j :: 0 <= i < j < |s| ==> s[i] != s[j]
  }

  lemma {:induction false} DistinctMultiplicity(s: seq<string>, x: string)
    requires Distinct(s)
    ensures multiset(s)[x] == if x in s then 1 else 0
    decreases |s|
  {
    if |s| > 0 {
      assert s == [s[0]] + s[1..];
      DistinctMultiplicity(s[1..], x);
    }
  }

  /** For lists without repeated keys, same keys counted with multiplicity means the same key set. */
  lemma DistinctSameMultisetIffSameSet(a: seq<string>, b: seq<string>)
    requires Distinct(a) && Distinct(b)
    ensures multiset(a) == multiset(b) <==> (set x | x in a) == (set x | x in b)
  {
    var sa, sb := set x | x in a, set x | x in b;
    if sa == sb {
      forall x ensures multiset(a)[x] == multiset(b)[x] {
        DistinctMultiplicity(a, x);
        DistinctMultiplicity(b, x);
        assert (x in a) == (x in sa) == (x in sb) == (x in b);
      }
      assert multiset(a) == multiset(b);
    }
    if multiset(a) == multiset(b) {
      forall x ensures x in a <==> x in b {
        assert x in a <==> x in multiset(a);
        assert x in b <==> x in multiset(b);
      }
    }
  }
}
