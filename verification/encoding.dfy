/** `pd.get_dummies(X, columns=cats, drop_first=True).astype(int)`: numeric
    columns stay in place and are truncated to integers; each categorical
    column is replaced by one 0/1 indicator per distinct present value, in
    ascending string order, except the smallest value, which is dropped. */
module Encoding {
  import opened Wrappers
  import opened Numbers
  import opened Seqs
  import Imputation
  import Lex

  /** A row before encoding: numeric cells (None: NaN) and categorical
      cells (None: NaN). */
  datatype FeatureRow = FeatureRow(numeric: seq<Option<real>>, categorical: seq<Option<string>>)

  /** An output column: numeric column k kept, or the indicator of value
      `value` of categorical column j. */
  datatype Column =
    | NumericColumn(k: nat, name: string)
    | Indicator(j: nat, source: string, value: string)

  datatype Matrix = Matrix(columns: seq<Column>, cells: seq<seq<int>>)

  datatype EncodeError = NonFiniteValue   // `astype(int)` on a NaN cell

  ghost predicate Shaped(rows: seq<FeatureRow>, nNum: nat, nCat: nat) {
    forall r :: r in rows ==> |r.numeric| == nNum && |r.categorical| == nCat
  }

  /** The present values of categorical column j, in row order. */
  function CategoryValues(rows: seq<FeatureRow>, j: nat): (vs: seq<string>)
    requires forall r :: r in rows ==> j < |r.categorical|
    ensures forall v :: v in vs <==> exists i :: 0 <= i < |rows| && rows[i].categorical[j] == Some(v)
  {
    var cells := seq(|rows|, i requires 0 <= i < |rows| => rows[i].categorical[j]);
    assert forall i :: 0 <= i < |rows| ==> cells[i] == rows[i].categorical[j];
    Imputation.Present(cells)
  }

  /** v is a present value of column j and not the smallest one. */
  ghost predicate KeptValue(rows: seq<FeatureRow>, j: nat, v: string)
    requires forall r :: r in rows ==> j < |r.categorical|
  {
    v in CategoryValues(rows, j)
    && exists w :: w in CategoryValues(rows, j) && Lex.Less(w, v)
  }

  /** The indicator values of column j: distinct present values, ascending,
      the first dropped. */
  function Kept(rows: seq<FeatureRow>, j: nat): (ks: seq<string>)
    requires forall r :: r in rows ==> j < |r.categorical|
    ensures Distinct(ks) && SortedBy(Lex.LessEq, ks)
    ensures forall v :: v in ks <==> KeptValue(rows, j, v)
  {
    var vals := CategoryValues(rows, j);
    var vocab := SortedKeys(vals, Lex.LessEq);
    DropSmallest(vals, vocab);
    if |vocab| == 0 then [] else vocab[1..]
  }

  /** Dropping the first of the sorted distinct values leaves exactly the
      values that are not the smallest. */
  lemma DropSmallest(vals: seq<string>, vocab: seq<string>)
    requires vocab == SortedKeys(vals, Lex.LessEq)
    ensures var ks := if |vocab| == 0 then [] else vocab[1..];
      && Distinct(ks) && SortedBy(Lex.LessEq, ks)
      && forall v :: v in ks <==> v in vals && exists w :: w in vals && Lex.Less(w, v)
  {
    Lex.LessEqTotalOrder();
    SortedKeysSorted(vals, Lex.LessEq);
    if |vocab| > 0 {
      SortedTail(vocab, Lex.LessEq);
      forall v ensures v in vocab[1..] <==> v in vals && exists w :: w in vals && Lex.Less(w, v) {
        TailMembers(vocab, v);
        if v in vocab && v != vocab[0] {
          var t :| 0 <= t < |vocab| && vocab[t] == v;
          assert Lex.LessEq(vocab[0], vocab[t]);
          assert vocab[0] in vals;
        }
        if v in vals && exists w :: w in vals && Lex.Less(w, v) {
          var w :| w in vals && Lex.Less(w, v);
          if v == vocab[0] {
            var t :| 0 <= t < |vocab| && vocab[t] == w;
            assert Lex.LessEq(vocab[0], vocab[t]);
            Lex.Asymmetric(w, v);
          }
        }
      }
    }
  }

  lemma TailMembers(s: seq<string>, v: string)
    requires s != [] && Distinct(s)
    ensures v in s[1..] <==> v in s && v != s[0]
  {
    if v in s[1..] {
      var t :| 0 <= t < |s[1..]| && s[1..][t] == v;
      assert s[t + 1] == v;
    }
    if v in s && v != s[0] {
      var t :| 0 <= t < |s| && s[t] == v;
      assert s[1..][t - 1] == v;
    }
  }

  /** The kept values of every categorical column. */
  function Layout(rows: seq<FeatureRow>, nCat: nat): (layout: seq<seq<string>>)
    requires forall r :: r in rows ==> nCat <= |r.categorical|
    ensures |layout| == nCat
    ensures forall j :: 0 <= j < nCat ==> layout[j] == Kept(rows, j)
  {
    seq(nCat, j requires 0 <= j < nCat => Kept(rows, j))
  }

  function NumericHeader(names: seq<string>): (cols: seq<Column>)
    ensures |cols| == |names|
    ensures forall k :: 0 <= k < |names| ==> cols[k] == NumericColumn(k, names[k])
  {
    seq(|names|, k requires 0 <= k < |names| => NumericColumn(k, names[k]))
  }

  function IndicatorHeader(names: seq<string>, layout: seq<seq<string>>, j: nat): (cols: seq<Column>)
    requires |layout| == |names|
    ensures forall c :: c in cols ==> c.Indicator? && j <= c.j < |names| && c.source == names[c.j]
    ensures forall j': nat, v :: j' < |names| ==> (Indicator(j', names[j'], v) in cols <==> j <= j' && v in layout[j'])
    decreases |names| - j
  {
    if j >= |names| then []
    else
      var here := seq(|layout[j]|, t requires 0 <= t < |layout[j]| => Indicator(j, names[j], layout[j][t]));
      assert forall v :: Indicator(j, names[j], v) in here <==> v in layout[j] by {
        forall v ensures Indicator(j, names[j], v) in here <==> v in layout[j] {
          if v in layout[j] {
            var t :| 0 <= t < |layout[j]| && layout[j][t] == v;
            assert here[t] == Indicator(j, names[j], v);
          }
        }
      }
      here + IndicatorHeader(names, layout, j + 1)
  }

  /** The column list of the encoded matrix. */
  function Header(numNames: seq<string>, catNames: seq<string>, layout: seq<seq<string>>): seq<Column>
    requires |layout| == |catNames|
  {
    NumericHeader(numNames) + IndicatorHeader(catNames, layout, 0)
  }

  /** Column c points at a present numeric cell or an existing
      categorical cell of r. */
  predicate CellDefined(r: FeatureRow, c: Column) {
    && (c.NumericColumn? ==> c.k < |r.numeric| && r.numeric[c.k].Some?)
    && (c.Indicator? ==> c.j < |r.categorical|)
  }

  /** cells is rows encoded under cols: one row of cells per row, one cell
      per column, each the integer that row puts under that column. */
  ghost predicate Encodes(rows: seq<FeatureRow>, cols: seq<Column>, cells: seq<seq<int>>) {
    && |cells| == |rows|
    && forall i :: 0 <= i < |rows| ==>
         && |cells[i]| == |cols|
         && forall t :: 0 <= t < |cols| ==> CellDefined(rows[i], cols[t]) && cells[i][t] == Cell(rows[i], cols[t])
  }

  /** The integer a row puts under one column. */
  function Cell(r: FeatureRow, c: Column): int
    requires CellDefined(r, c)
  {
    match c
    case NumericColumn(k, _) => Trunc(r.numeric[k].value)
    case Indicator(j, _, v) => if r.categorical[j] == Some(v) then 1 else 0
  }

  predicate Finite(rows: seq<FeatureRow>) {
    forall i, k :: 0 <= i < |rows| && 0 <= k < |rows[i].numeric| ==> rows[i].numeric[k].Some?
  }

  function EncodeRow(r: FeatureRow, cols: seq<Column>, nNum: nat, nCat: nat): (cells: seq<int>)
    requires |r.numeric| == nNum && |r.categorical| == nCat
    requires forall k :: 0 <= k < nNum ==> r.numeric[k].Some?
    requires forall c :: c in cols ==> (c.NumericColumn? ==> c.k < nNum) && (c.Indicator? ==> c.j < nCat)
    ensures |cells| == |cols|
    ensures forall t :: 0 <= t < |cols| ==> CellDefined(r, cols[t]) && cells[t] == Cell(r, cols[t])
  {
    seq(|cols|, t requires 0 <= t < |cols| => assert cols[t] in cols; Cell(r, cols[t]))
  }

  /** `get_dummies(drop_first=True).astype(int)` over rows whose first
      |numNames| cells are numeric and remaining |catNames| cells are
      categorical. */
  function Encode(rows: seq<FeatureRow>, numNames: seq<string>, catNames: seq<string>): (m: Result<Matrix, EncodeError>)
    requires Shaped(rows, |numNames|, |catNames|)
    ensures m.Err? <==> !Finite(rows)
    ensures m.Ok? ==> m.value.columns == Header(numNames, catNames, Layout(rows, |catNames|))
    ensures m.Ok? ==> Encodes(rows, m.value.columns, m.value.cells)
  {
    if !Finite(rows) then Err(NonFiniteValue)
    else
      var cols := Header(numNames, catNames, Layout(rows, |catNames|));
      HeaderColumns(numNames, catNames, Layout(rows, |catNames|));
      Ok(Matrix(cols, EncodeRows(rows, cols, |numNames|, |catNames|)))
  }

  /** Every header column points at a numeric cell or a categorical column
      that the rows have. */
  lemma HeaderColumns(numNames: seq<string>, catNames: seq<string>, layout: seq<seq<string>>)
    requires |layout| == |catNames|
    ensures forall c :: c in Header(numNames, catNames, layout) ==>
      (c.NumericColumn? ==> c.k < |numNames|) && (c.Indicator? ==> c.j < |catNames|)
  {
    var num := NumericHeader(numNames);
    var ind := IndicatorHeader(catNames, layout, 0);
    forall c: Column | c in num + ind
      ensures (c.NumericColumn? ==> c.k < |numNames|) && (c.Indicator? ==> c.j < |catNames|)
    {
      if c in num {
        var k :| 0 <= k < |num| && num[k] == c;
      }
    }
  }

  function EncodeRows(rows: seq<FeatureRow>, cols: seq<Column>, nNum: nat, nCat: nat): (cells: seq<seq<int>>)
    requires Shaped(rows, nNum, nCat) && Finite(rows)
    requires forall c :: c in cols ==> (c.NumericColumn? ==> c.k < nNum) && (c.Indicator? ==> c.j < nCat)
    ensures Encodes(rows, cols, cells)
  {
    seq(|rows|, i requires 0 <= i < |rows| =>
      assert rows[i] in rows;
      EncodeRow(rows[i], cols, nNum, nCat))
  }

  /** The column list depends only on which values (other than the
      smallest) each categorical column holds: two batches agreeing on that
      are encoded against the same columns, in the same order. */
  lemma LayoutDeterminedByKeptValues(a: seq<FeatureRow>, b: seq<FeatureRow>, nCat: nat)
    requires forall r :: r in a ==> nCat <= |r.categorical|
    requires forall r :: r in b ==> nCat <= |r.categorical|
    requires forall j, v :: 0 <= j < nCat ==> (KeptValue(a, j, v) <==> KeptValue(b, j, v))
    ensures Layout(a, nCat) == Layout(b, nCat)
  {
    Lex.LessEqTotalOrder();
    forall j | 0 <= j < nCat ensures Kept(a, j) == Kept(b, j) {
      SortedDistinctUnique(Kept(a, j), Kept(b, j), Lex.LessEq);
    }
  }

  /** Two batches with the same set of values in every categorical column
      yield the same column list. */
  lemma SameValuesSameHeader(a: seq<FeatureRow>, b: seq<FeatureRow>, numNames: seq<string>, catNames: seq<string>)
    requires forall r :: r in a ==> |catNames| <= |r.categorical|
    requires forall r :: r in b ==> |catNames| <= |r.categorical|
    requires forall j, v :: 0 <= j < |catNames| ==>
      (v in CategoryValues(a, j) <==> v in CategoryValues(b, j))
    ensures Header(numNames, catNames, Layout(a, |catNames|)) == Header(numNames, catNames, Layout(b, |catNames|))
  {
    LayoutDeterminedByKeptValues(a, b, |catNames|);
  }

  /** A value v met at inference in column j that training never saw, and
      that is not the smallest value of the inference batch, produces an
      indicator column the trained layout does not have. */
  lemma UnseenValueChangesHeader(train: seq<FeatureRow>, infer: seq<FeatureRow>,
                                 numNames: seq<string>, catNames: seq<string>, j: nat, v: string)
    requires forall r :: r in train ==> |catNames| <= |r.categorical|
    requires forall r :: r in infer ==> |catNames| <= |r.categorical|
    requires j < |catNames|
    requires KeptValue(infer, j, v) && v !in CategoryValues(train, j)
    ensures Indicator(j, catNames[j], v) in Header(numNames, catNames, Layout(infer, |catNames|))
    ensures Indicator(j, catNames[j], v) !in Header(numNames, catNames, Layout(train, |catNames|))
    ensures Header(numNames, catNames, Layout(train, |catNames|)) != Header(numNames, catNames, Layout(infer, |catNames|))
  {
    var lt := Layout(train, |catNames|);
    var li := Layout(infer, |catNames|);
    assert Indicator(j, catNames[j], v) in IndicatorHeader(catNames, li, 0);
    assert Indicator(j, catNames[j], v) !in IndicatorHeader(catNames, lt, 0);
    assert Indicator(j, catNames[j], v) !in NumericHeader(numNames);
  }

  /** A row whose value in column j is missing or the dropped smallest
      value has 0 under every indicator of column j: a value unseen at
      training time that sorts before every other value is silently encoded
      like the reference category. */
  lemma DroppedValueEncodesAsZeros(rows: seq<FeatureRow>, numNames: seq<string>, catNames: seq<string>, i: nat, j: nat)
    requires Shaped(rows, |numNames|, |catNames|)
    requires Encode(rows, numNames, catNames).Ok?
    requires i < |rows| && j < |catNames|
    requires rows[i].categorical[j].None? || !KeptValue(rows, j, rows[i].categorical[j].value)
    ensures forall t :: 0 <= t < |Encode(rows, numNames, catNames).value.columns| ==>
      var c := Encode(rows, numNames, catNames).value.columns[t];
      c.Indicator? && c.j == j ==> Encode(rows, numNames, catNames).value.cells[i][t] == 0
  {
    var m := Encode(rows, numNames, catNames).value;
    var layout := Layout(rows, |catNames|);
    assert Encodes(rows, m.columns, m.cells);
    forall t | 0 <= t < |m.columns| && m.columns[t].Indicator? && m.columns[t].j == j
      ensures m.cells[i][t] == 0
    {
      var c := m.columns[t];
      IndicatorInLayout(numNames, catNames, layout, c);
      assert KeptValue(rows, j, c.value);
      assert m.cells[i][t] == Cell(rows[i], c);
    }
  }

  /** An indicator column of the header names a kept value of its
      categorical column. */
  lemma IndicatorInLayout(numNames: seq<string>, catNames: seq<string>, layout: seq<seq<string>>, c: Column)
    requires |layout| == |catNames|
    requires c in Header(numNames, catNames, layout) && c.Indicator?
    ensures c.j < |catNames| && c.value in layout[c.j]
  {
    var num := NumericHeader(numNames);
    forall x | x in num ensures x.NumericColumn? {
      var k :| 0 <= k < |num| && num[k] == x;
    }
    assert c in IndicatorHeader(catNames, layout, 0);
    assert c == Indicator(c.j, catNames[c.j], c.value);
  }
}
