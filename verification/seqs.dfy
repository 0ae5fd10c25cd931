/** Filtering, ordering, stable sorting and first-appearance
    de-duplication of sequences: the list primitives behind boolean-mask
    selection, pandas `sort_values`, `groupby` key order, `mode()`,
    `median()`, and JavaScript's `Array.prototype.filter`,
    `Array.prototype.sort` and `new Set(...)`. */
module Seqs {

  ghost predicate TotalPreorder<T(!new)>(le: (T, T) -> bool) {
    && (forall x, y :: le(x, y) || le(y, x))
    && (forall x, y, z :: le(x, y) && le(y, z) ==> le(x, z))
  }

  ghost predicate Antisymmetric<T(!new)>(le: (T, T) -> bool) {
    forall x, y :: le(x, y) && le(y, x) ==> x == y
  }

  ghost predicate SortedBy<T>(le: (T, T) -> bool, s: seq<T>) {
    forall i, j :: 0 <= i < j < |s| ==> le(s[i], s[j])
  }

  predicate Distinct<T(==)>(s: seq<T>) {
    forall i, j :: 0 <= i < j < |s| ==> s[i] != s[j]
  }

  /** Places x before the first element it is not after. */
  function Insert<T>(x: T, s: seq<T>, le: (T, T) -> bool): (r: seq<T>)
    ensures multiset(r) == multiset(s) + multiset{x}
    ensures |r| == |s| + 1
  {
    if s == [] then [x]
    else if le(x, s[0]) then [x] + s
    else
      assert s == [s[0]] + s[1..];
      [s[0]] + Insert(x, s[1..], le)
  }

  /** Stable insertion sort: an element earlier in the input is inserted
      later, in front of any equal element already placed. */
  function Sort<T>(s: seq<T>, le: (T, T) -> bool): (r: seq<T>)
    ensures multiset(r) == multiset(s)
    ensures |r| == |s|
  {
    if s == [] then []
    else
      assert s == [s[0]] + s[1..];
      Insert(s[0], Sort(s[1..], le), le)
  }

  lemma {:induction false} InsertSorted<T(!new)>(x: T, s: seq<T>, le: (T, T) -> bool)
    requires TotalPreorder(le)
    requires SortedBy(le, s)
    ensures SortedBy(le, Insert(x, s, le))
    decreases |s|
  {
    if s != [] && !le(x, s[0]) {
      InsertSorted(x, s[1..], le);
      var r := Insert(x, s, le);
      var t := Insert(x, s[1..], le);
      assert r == [s[0]] + t;
      forall k | 0 <= k < |t| ensures le(s[0], t[k]) {
        assert t[k] in multiset(t);
        assert t[k] in multiset(s[1..]) + multiset{x};
        if t[k] != x {
          assert t[k] in s[1..];
          var m :| 0 <= m < |s[1..]| && s[1..][m] == t[k];
          assert s[m + 1] == t[k];
        }
      }
    }
  }

  lemma {:induction false} SortSorted<T(!new)>(s: seq<T>, le: (T, T) -> bool)
    requires TotalPreorder(le)
    ensures SortedBy(le, Sort(s, le))
    decreases |s|
  {
    if s != [] {
      SortSorted(s[1..], le);
      InsertSorted(s[0], Sort(s[1..], le), le);
    }
  }

  lemma HeadIsLeast<T>(a: seq<T>, x: T, le: (T, T) -> bool)
    requires SortedBy(le, a) && x in a
    requires forall y :: le(y, y)
    ensures le(a[0], x)
  {
    var j :| 0 <= j < |a| && a[j] == x;
    if j > 0 {
      assert le(a[0], a[j]);
    }
  }

  lemma SortedTail<T>(a: seq<T>, le: (T, T) -> bool)
    requires SortedBy(le, a) && a != []
    ensures SortedBy(le, a[1..])
  {
    forall i, j | 0 <= i < j < |a[1..]| ensures le(a[1..][i], a[1..][j]) {
      assert a[1..][i] == a[i + 1] && a[1..][j] == a[j + 1];
    }
  }

  lemma TailMultiset<T>(a: seq<T>)
    requires a != []
    ensures multiset(a[1..]) == multiset(a) - multiset{a[0]}
  {
    assert a == [a[0]] + a[1..];
  }

  /** Two sorted arrangements of the same elements coincide when the order
      is antisymmetric: sorting does not depend on the input order. */
  lemma {:induction false} SortedUnique<T(!new)>(a: seq<T>, b: seq<T>, le: (T, T) -> bool)
    requires TotalPreorder(le) && Antisymmetric(le)
    requires SortedBy(le, a) && SortedBy(le, b)
    requires multiset(a) == multiset(b)
    ensures a == b
    decreases |a|
  {
    assert |a| == |multiset(a)| == |multiset(b)| == |b|;
    if a != [] {
      assert forall y :: le(y, y);
      assert a[0] in multiset(b) && b[0] in multiset(a);
      HeadIsLeast(b, a[0], le);
      HeadIsLeast(a, b[0], le);
      assert le(a[0], b[0]) && le(b[0], a[0]);
      assert a[0] == b[0];
      TailMultiset(a);
      TailMultiset(b);
      SortedTail(a, le);
      SortedTail(b, le);
      SortedUnique(a[1..], b[1..], le);
      assert a == [a[0]] + a[1..] && b == [b[0]] + b[1..];
    }
  }

  lemma SortOrderIndependent<T(!new)>(s: seq<T>, t: seq<T>, le: (T, T) -> bool)
    requires TotalPreorder(le) && Antisymmetric(le)
    requires multiset(s) == multiset(t)
    ensures Sort(s, le) == Sort(t, le)
  {
    SortSorted(s, le);
    SortSorted(t, le);
    SortedUnique(Sort(s, le), Sort(t, le), le);
  }

  /** Index of the first occurrence of x in s. */
  function FirstIndex<T(==)>(s: seq<T>, x: T): (i: nat)
    requires x in s
    ensures i < |s| && s[i] == x && x !in s[..i]
  {
    if s[0] == x then 0
    else
      var i := FirstIndex(s[1..], x);
      assert s[..i + 1] == [s[0]] + s[1..][..i];
      i + 1
  }

  lemma FirstIndexUnique<T>(s: seq<T>, x: T, i: nat)
    requires i < |s| && s[i] == x && x !in s[..i]
    ensures FirstIndex(s, x) == i
  {
  }

  /** The distinct values of s in order of first appearance (`new Set(s)`). */
  function Dedup<T(==,!new)>(s: seq<T>): (r: seq<T>)
    ensures forall x :: x in r <==> x in s
    ensures Distinct(r)
    ensures |r| <= |s|
    decreases |s|
  {
    if s == [] then []
    else
      var d := Dedup(s[..|s| - 1]);
      assert forall x :: x in s <==> x in s[..|s| - 1] || x == s[|s| - 1] by {
        assert s == s[..|s| - 1] + [s[|s| - 1]];
      }
      if s[|s| - 1] in d then d else d + [s[|s| - 1]]
  }

  lemma {:induction false} DedupFirstAppearance<T(!new)>(s: seq<T>)
    ensures forall i, j :: 0 <= i < j < |Dedup(s)| ==>
      FirstIndex(s, Dedup(s)[i]) < FirstIndex(s, Dedup(s)[j])
    decreases |s|
  {
    if s != [] {
      var p := s[..|s| - 1];
      var last := s[|s| - 1];
      var d := Dedup(p);
      DedupFirstAppearance(p);
      if last in d {
        assert Dedup(s) == d;
        forall i, j | 0 <= i < j < |d| ensures FirstIndex(s, d[i]) < FirstIndex(s, d[j]) {
          FirstIndexPrefix(s, d[i]);
          FirstIndexPrefix(s, d[j]);
        }
      } else {
        assert Dedup(s) == d + [last];
        assert last !in p;
        FirstIndexUnique(s, last, |s| - 1);
        var r := d + [last];
        forall i, j | 0 <= i < j < |r| ensures FirstIndex(s, r[i]) < FirstIndex(s, r[j]) {
          assert r[i] == d[i];
          FirstIndexPrefix(s, d[i]);
          if j < |d| {
            assert r[j] == d[j];
            FirstIndexPrefix(s, d[j]);
          }
        }
      }
    }
  }

  /** A value already in s's prefix p first appears where it does in p. */
  lemma FirstIndexPrefix<T>(s: seq<T>, x: T)
    requires s != [] && x in s[..|s| - 1]
    ensures FirstIndex(s, x) == FirstIndex(s[..|s| - 1], x)
  {
    var p := s[..|s| - 1];
    var k := FirstIndex(p, x);
    assert s[..k] == p[..k];
    FirstIndexUnique(s, x, k);
  }

  /** The distinct values of s, in ascending order: the key order of a
      pandas `groupby`. */
  function SortedKeys<T(==,!new)>(s: seq<T>, le: (T, T) -> bool): (r: seq<T>)
    ensures forall x :: x in r <==> x in s
    ensures Distinct(r)
  {
    var d := Dedup(s);
    var r := Sort(d, le);
    assert forall x :: x in r <==> x in d by {
      forall x ensures x in r <==> x in d {
        assert x in r <==> x in multiset(r);
        assert x in d <==> x in multiset(d);
      }
    }
    PermutationDistinct(d, r);
    r
  }

  /** A permutation of a sequence without duplicates has none. */
  lemma PermutationDistinct<T>(d: seq<T>, r: seq<T>)
    requires Distinct(d) && multiset(d) == multiset(r)
    ensures Distinct(r)
  {
    forall i, j | 0 <= i < j < |r| ensures r[i] != r[j] {
      if r[i] == r[j] {
        MultisetSplit(r, j);
        assert r[i] in r[..j] && r[j] in r[j..];
        assert multiset(r)[r[i]] >= 2;
        DistinctOnce(d, r[i]);
      }
    }
  }

  lemma {:induction false} DistinctOnce<T>(s: seq<T>, x: T)
    requires Distinct(s)
    ensures multiset(s)[x] <= 1
    decreases |s|
  {
    if s != [] {
      assert s == [s[0]] + s[1..];
      DistinctOnce(s[1..], x);
      if s[0] == x {
        assert x !in s[1..];
      }
    }
  }

  lemma SortedKeysSorted<T(!new)>(s: seq<T>, le: (T, T) -> bool)
    requires TotalPreorder(le)
    ensures SortedBy(le, SortedKeys(s, le))
  {
    SortSorted(Dedup(s), le);
  }

  /** The elements of s satisfying p, in their original order. */
  function Filter<T(!new)>(s: seq<T>, p: T -> bool): (r: seq<T>)
    ensures |r| <= |s|
    ensures forall x :: x in r <==> x in s && p(x)
    ensures forall x :: multiset(r)[x] == if p(x) then multiset(s)[x] else 0
    ensures (forall i :: 0 <= i < |s| ==> p(s[i])) ==> r == s
    decreases |s|
  {
    if s == [] then []
    else
      var init := s[..|s| - 1];
      var last := s[|s| - 1];
      assert s == init + [last];
      var f := Filter(init, p);
      if p(last) then f + [last] else f
  }

  lemma {:induction false} FilterConcat<T(!new)>(a: seq<T>, b: seq<T>, p: T -> bool)
    ensures Filter(a + b, p) == Filter(a, p) + Filter(b, p)
    decreases |b|
  {
    if b != [] {
      var init := b[..|b| - 1];
      assert (a + b)[..|a + b| - 1] == a + init;
      FilterConcat(a, init, p);
    } else {
      assert a + b == a;
    }
  }

  lemma FilterNone<T(!new)>(s: seq<T>, p: T -> bool)
    requires forall i :: 0 <= i < |s| ==> !p(s[i])
    ensures Filter(s, p) == []
  {
  }

  /** In a sorted list, everything before position j is ordered before
      everything from j on. */
  lemma SortedSplit<T>(s: seq<T>, le: (T, T) -> bool, j: nat)
    requires SortedBy(le, s) && j <= |s|
    ensures forall x, y :: x in s[..j] && y in s[j..] ==> le(x, y)
  {
    forall x, y | x in s[..j] && y in s[j..] ensures le(x, y) {
      var a :| 0 <= a < j && s[a] == x;
      var b :| j <= b < |s| && s[b] == y;
    }
  }

  /** The first j elements of a sorted permutation of g are ordered before
      every element of g left out. */
  lemma SortedPrefixFirst<T>(g: seq<T>, s: seq<T>, le: (T, T) -> bool, j: nat)
    requires multiset(s) == multiset(g) && SortedBy(le, s) && j <= |s|
    ensures multiset(s[..j]) <= multiset(g)
    ensures forall x, y :: x in multiset(g) - multiset(s[..j]) && y in s[..j] ==> le(y, x)
  {
    SortedSplit(s, le, j);
    MultisetSplit(s, j);
    assert multiset(g) - multiset(s[..j]) == multiset(s[j..]);
  }

  /** The elements of a sorted permutation of g from position j on are
      ordered after every element of g left out. */
  lemma SortedSuffixLast<T>(g: seq<T>, s: seq<T>, le: (T, T) -> bool, j: nat)
    requires multiset(s) == multiset(g) && SortedBy(le, s) && j <= |s|
    ensures multiset(s[j..]) <= multiset(g)
    ensures forall x, y :: x in multiset(g) - multiset(s[j..]) && y in s[j..] ==> le(x, y)
  {
    SortedSplit(s, le, j);
    MultisetSplit(s, j);
    assert multiset(g) - multiset(s[j..]) == multiset(s[..j]);
  }

  lemma MultisetSplit<T>(s: seq<T>, j: nat)
    requires j <= |s|
    ensures multiset(s) == multiset(s[..j]) + multiset(s[j..])
  {
    assert s == s[..j] + s[j..];
  }

  /** Two duplicate-free lists with the same elements hold the same
      multiset. */
  lemma DistinctSameElements<T(!new)>(a: seq<T>, b: seq<T>)
    requires Distinct(a) && Distinct(b)
    requires forall x :: x in a <==> x in b
    ensures multiset(a) == multiset(b)
  {
    forall x ensures multiset(a)[x] == multiset(b)[x] {
      DistinctOnce(a, x);
      DistinctOnce(b, x);
      assert x in a <==> x in multiset(a);
      assert x in b <==> x in multiset(b);
    }
  }

  /** A sorted duplicate-free list is determined by its elements. */
  lemma SortedDistinctUnique<T(!new)>(a: seq<T>, b: seq<T>, le: (T, T) -> bool)
    requires TotalPreorder(le) && Antisymmetric(le)
    requires SortedBy(le, a) && SortedBy(le, b) && Distinct(a) && Distinct(b)
    requires forall x :: x in a <==> x in b
    ensures a == b
  {
    DistinctSameElements(a, b);
    SortedUnique(a, b, le);
  }
}
