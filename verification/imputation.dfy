/** The defaults pandas computes to fill missing cells: the present values
    of a column, its `mode()[0]` and its `median()`. */
module Imputation {
  import opened Wrappers
  import Numbers
  import Lex
  import Seqs

  /** The non-missing cells of a column, in row order (pandas skips NaN). */
  function Present<T(!new)>(xs: seq<Option<T>>): (r: seq<T>)
    ensures forall x :: x in r <==> Some(x) in xs
    ensures |r| == 0 <==> forall i :: 0 <= i < |xs| ==> xs[i].None?
    decreases |xs|
  {
    if xs == [] then []
    else
      var init := xs[..|xs| - 1];
      assert xs == init + [xs[|xs| - 1]];
      match xs[|xs| - 1]
      case Some(v) => Present(init) + [v]
      case None => Present(init)
  }

  /** m is the first entry of `Series.mode()`: a most frequent value, and
      among equally frequent values the smallest in string order. */
  ghost predicate IsMode(xs: seq<string>, m: string) {
    && m in xs
    && (forall v :: v in xs ==> multiset(xs)[v] <= multiset(xs)[m])
    && (forall v :: v in xs && multiset(xs)[v] == multiset(xs)[m] ==> Lex.LessEq(m, v))
  }

  /** The candidate that occurs most often in xs, ties to the smallest. */
  function BestOf(xs: seq<string>, cands: seq<string>): (m: string)
    requires |cands| > 0
    ensures m in cands
    ensures forall v :: v in cands ==>
      multiset(xs)[v] < multiset(xs)[m]
      || (multiset(xs)[v] == multiset(xs)[m] && Lex.LessEq(m, v))
    decreases |cands|
  {
    if |cands| == 1 then cands[0]
    else
      var b := BestOf(xs, cands[1..]);
      var c := cands[0];
      Lex.LessEqTotalOrder();
      assert forall v :: v in cands ==> v == c || v in cands[1..];
      if multiset(xs)[c] > multiset(xs)[b] || (multiset(xs)[c] == multiset(xs)[b] && Lex.Less(c, b))
      then c
      else b
  }

  function Mode(xs: seq<string>): (m: string)
    requires |xs| > 0
    ensures IsMode(xs, m)
  {
    BestOf(xs, xs)
  }

  /** There is only one value the mode can be. */
  lemma ModeUnique(xs: seq<string>, a: string, b: string)
    requires IsMode(xs, a) && IsMode(xs, b)
    ensures a == b
  {
    Lex.LessEqTotalOrder();
  }

  /** The filled position does not depend on the order of the rows. */
  lemma ModeOrderIndependent(xs: seq<string>, ys: seq<string>)
    requires |xs| > 0
    requires multiset(xs) == multiset(ys)
    ensures |ys| > 0 && Mode(xs) == Mode(ys)
  {
    assert |ys| == |multiset(ys)| == |multiset(xs)| == |xs|;
    var m := Mode(xs);
    assert forall v :: v in xs <==> v in ys by {
      forall v ensures v in xs <==> v in ys {
        assert v in xs <==> v in multiset(xs);
        assert v in ys <==> v in multiset(ys);
      }
    }
    assert IsMode(ys, m);
    ModeUnique(ys, m, Mode(ys));
  }

  predicate RealLe(a: real, b: real) {
    a <= b
  }

  function AtMost(m: real): real -> bool {
    x => x <= m
  }

  function Below(m: real): real -> bool {
    x => x < m
  }

  /** a is the k-th smallest of xs (counting from 0): fewer than k + 1
      values lie below it and more than k lie at or below it. */
  ghost predicate RankOf(xs: seq<real>, k: nat, a: real) {
    a in xs && |Seqs.Filter(xs, Below(a))| <= k < |Seqs.Filter(xs, AtMost(a))|
  }

  /** The middle value of a sorted list, or the mean of the two middle
      values when their number is even. */
  function Middle(s: seq<real>): real
    requires |s| > 0
  {
    var n := |s|;
    if n % 2 == 1 then s[n / 2] else (s[n / 2 - 1] + s[n / 2]) / 2.0
  }

  /** `Series.median()`: the middle of the sorted values. */
  function Median(xs: seq<real>): real
    requires |xs| > 0
  {
    Middle(Seqs.Sort(xs, RealLe))
  }

  /** At least hi - lo elements pass p when a run of them does. */
  lemma {:induction false} FilterRun<T(!new)>(s: seq<T>, p: T -> bool, lo: nat, hi: nat)
    requires lo <= hi <= |s|
    requires forall i :: lo <= i < hi ==> p(s[i])
    ensures |Seqs.Filter(s, p)| >= hi - lo
    decreases |s|
  {
    if lo < hi {
      var init := s[..|s| - 1];
      if hi < |s| {
        FilterRun(init, p, lo, hi);
      } else {
        FilterRun(init, p, lo, hi - 1);
      }
    }
  }

  /** Filtering two arrangements of the same values keeps as many. */
  lemma FilterSameCount<T(!new)>(s: seq<T>, t: seq<T>, p: T -> bool)
    requires multiset(s) == multiset(t)
    ensures |Seqs.Filter(s, p)| == |Seqs.Filter(t, p)|
  {
    var fs := Seqs.Filter(s, p);
    var ft := Seqs.Filter(t, p);
    assert multiset(fs) == multiset(ft);
    assert |fs| == |multiset(fs)| == |multiset(ft)| == |ft|;
  }

  /** At most lo elements pass p when none from lo on does. */
  lemma FilterPrefixOnly<T(!new)>(s: seq<T>, p: T -> bool, lo: nat)
    requires lo <= |s|
    requires forall i :: lo <= i < |s| ==> !p(s[i])
    ensures |Seqs.Filter(s, p)| <= lo
  {
    assert s == s[..lo] + s[lo..];
    Seqs.FilterConcat(s[..lo], s[lo..], p);
    Seqs.FilterNone(s[lo..], p);
  }

  /** A weaker test passes at least as many elements. */
  lemma {:induction false} FilterMono<T(!new)>(s: seq<T>, p: T -> bool, q: T -> bool)
    requires forall x :: p(x) ==> q(x)
    ensures |Seqs.Filter(s, p)| <= |Seqs.Filter(s, q)|
    decreases |s|
  {
    if s != [] {
      FilterMono(s[..|s| - 1], p, q);
    }
  }

  /** In a sorted list the element at position k has rank k. */
  lemma SortedRank(s: seq<real>, k: nat)
    requires Seqs.SortedBy(RealLe, s) && k < |s|
    ensures RankOf(s, k, s[k])
  {
    SortedBelow(s, k);
    SortedAtMost(s, k);
  }

  lemma SortedBelow(s: seq<real>, k: nat)
    requires Seqs.SortedBy(RealLe, s) && k < |s|
    ensures |Seqs.Filter(s, Below(s[k]))| <= k
  {
    var p := Below(s[k]);
    forall i | k <= i < |s| ensures !p(s[i]) {
      assert RealLe(s[k], s[i]);
    }
    FilterPrefixOnly(s, p, k);
  }

  lemma SortedAtMost(s: seq<real>, k: nat)
    requires Seqs.SortedBy(RealLe, s) && k < |s|
    ensures |Seqs.Filter(s, AtMost(s[k]))| >= k + 1
  {
    var p := AtMost(s[k]);
    forall i | 0 <= i < k + 1 ensures p(s[i]) {
      assert RealLe(s[i], s[k]);
    }
    FilterRun(s, p, 0, k + 1);
  }

  /** Ranks do not depend on the order of the values. */
  lemma RankPermutation(xs: seq<real>, ys: seq<real>, k: nat, a: real)
    requires multiset(xs) == multiset(ys) && RankOf(xs, k, a)
    ensures RankOf(ys, k, a)
  {
    assert a in multiset(xs);
    FilterSameCount(xs, ys, Below(a));
    FilterSameCount(xs, ys, AtMost(a));
  }

  /** Each rank is held by one value only. */
  lemma RankUnique(xs: seq<real>, k: nat, a: real, b: real)
    requires RankOf(xs, k, a) && RankOf(xs, k, b)
    ensures a == b
  {
    if a < b {
      FilterMono(xs, AtMost(a), Below(b));
    } else if b < a {
      FilterMono(xs, AtMost(b), Below(a));
    }
  }

  /** The value of rank k: the k-th smallest, counting from 0. */
  function KthSmallest(xs: seq<real>, k: nat): (a: real)
    requires k < |xs|
    ensures RankOf(xs, k, a)
  {
    var s := Seqs.Sort(xs, RealLe);
    Seqs.SortSorted(xs, RealLe);
    SortedRank(s, k);
    RankPermutation(s, xs, k, s[k]);
    s[k]
  }

  /** `Series.median()` is the value of rank n / 2 when the count n is odd,
      and the mean of the values of ranks n / 2 - 1 and n / 2 when it is
      even; by RankUnique those values are determined by the ranks alone. */
  lemma MedianRanks(xs: seq<real>)
    requires |xs| > 0
    ensures |xs| % 2 == 1 ==> Median(xs) == KthSmallest(xs, |xs| / 2)
    ensures |xs| % 2 == 0 ==>
      Median(xs) == (KthSmallest(xs, |xs| / 2 - 1) + KthSmallest(xs, |xs| / 2)) / 2.0
  {
    var s := Seqs.Sort(xs, RealLe);
    var n := |xs|;
    assert |s| == n && Median(xs) == Middle(s);
    assert KthSmallest(xs, n / 2) == s[n / 2];
    if n % 2 == 0 {
      assert KthSmallest(xs, n / 2 - 1) == s[n / 2 - 1];
    }
  }

  /** The filled age does not depend on the order of the rows. */
  lemma MedianOrderIndependent(xs: seq<real>, ys: seq<real>)
    requires |xs| > 0
    requires multiset(xs) == multiset(ys)
    ensures |ys| > 0 && Median(xs) == Median(ys)
  {
    assert |ys| == |multiset(ys)| == |multiset(xs)| == |xs|;
    Seqs.SortOrderIndependent(xs, ys, RealLe);
  }

  /** `mean()` of a column: the mean of its present cells, NaN when none is
      present. */
  function MeanPresent(xs: seq<Option<real>>): (m: Option<real>)
    ensures m.None? <==> forall i :: 0 <= i < |xs| ==> xs[i].None?
  {
    var p := Present(xs);
    if p == [] then None else Some(Numbers.Mean(p))
  }

  /** A mean of present cells lies within any bounds all cells respect. */
  lemma MeanPresentBounds(xs: seq<Option<real>>, lo: real, hi: real)
    requires |xs| > 0
    requires forall i :: 0 <= i < |xs| ==> xs[i].Some? && lo <= xs[i].value <= hi
    ensures MeanPresent(xs).Some? && lo <= MeanPresent(xs).value <= hi
  {
    var p := Present(xs);
    assert xs[0].Some?;
    forall k | 0 <= k < |p| ensures lo <= p[k] <= hi {
      assert p[k] in p;
      var i :| 0 <= i < |xs| && xs[i] == Some(p[k]);
    }
    Numbers.MeanBounds(p, lo, hi);
  }

  /** Cells that all hold one value average to that value. */
  lemma MeanPresentConst(xs: seq<Option<real>>, c: real)
    requires |xs| > 0
    requires forall i :: 0 <= i < |xs| ==> xs[i] == Some(c)
    ensures MeanPresent(xs) == Some(c)
  {
    MeanPresentBounds(xs, c, c);
  }

  /** Present cells of a concatenation are those of each part in turn. */
  lemma {:induction false} PresentConcat<T(!new)>(a: seq<Option<T>>, b: seq<Option<T>>)
    ensures Present(a + b) == Present(a) + Present(b)
    decreases |b|
  {
    if b == [] {
      assert a + b == a;
    } else {
      var init := b[..|b| - 1];
      assert (a + b)[..|a + b| - 1] == a + init;
      PresentConcat(a, init);
    }
  }

  /** A missing cell does not change the present cells around it. */
  lemma PresentSkipsNone<T(!new)>(xs: seq<Option<T>>, c: nat)
    requires c < |xs| && xs[c].None?
    ensures Present(xs) == Present(xs[..c] + xs[c + 1..])
  {
    var a, m, b := xs[..c], [xs[c]], xs[c + 1..];
    assert xs == (a + m) + b;
    PresentConcat(a + m, b);
    PresentConcat(a, m);
    PresentConcat(a, b);
    PresentMissing(m);
  }

  lemma PresentMissing<T(!new)>(m: seq<Option<T>>)
    requires |m| == 1 && m[0].None?
    ensures Present(m) == []
  {
    assert m[..0] == [];
  }
}
