/** The model-building stage: the training window is ordered by (Player,
    Season), the nine feature columns and five target columns are selected,
    the features are one-hot encoded exactly as at prediction time, and
    `evaluate_model` turns held-out predictions into a percentage error.
    The estimators themselves are not modelled. */
module PredictionModel {
  import opened Wrappers
  import opened Records
  import opened Numbers
  import opened Seqs
  import opened Encoding
  import Imputation
  import TrainingWindow
  import Predictions
  import Lex

  type TrainingRow = TrainingWindow.TrainingRow

  /** The order of `sort_values(by=['Player', 'Season'])`. */
  predicate PlayerSeasonLe(a: TrainingRow, b: TrainingRow) {
    Lex.Less(a.rec.player, b.rec.player) || (a.rec.player == b.rec.player && a.rec.season <= b.rec.season)
  }

  lemma PlayerSeasonPreorder()
    ensures TotalPreorder(PlayerSeasonLe)
  {
    forall a: TrainingRow, b: TrainingRow ensures PlayerSeasonLe(a, b) || PlayerSeasonLe(b, a) {
      Lex.Trichotomy(a.rec.player, b.rec.player);
    }
    forall a: TrainingRow, b: TrainingRow, c: TrainingRow | PlayerSeasonLe(a, b) && PlayerSeasonLe(b, c)
      ensures PlayerSeasonLe(a, c)
    {
      if Lex.Less(a.rec.player, b.rec.player) && Lex.Less(b.rec.player, c.rec.player) {
        Lex.Transitive(a.rec.player, b.rec.player, c.rec.player);
      }
    }
  }

  /** The data the estimators are fitted on: the ordered rows, their
      feature rows, the encoded feature matrix X and the target matrix y. */
  datatype TrainingSet = TrainingSet(
    rows: seq<TrainingRow>,
    features: seq<FeatureRow>,
    matrix: Matrix,
    targets: seq<seq<real>>)

  function CategoryLabel(c: Option<Category>): Option<string> {
    if c.Some? then Some(CategoryName(c.value)) else None
  }

  /** `player_stats[feature_cols]` for one row: Season, Age and the five
      target averages, then Age_Category and Pos. */
  function TrainingFeatures(o: TrainingRow): (f: FeatureRow)
    requires |o.avgs| == NumAverages
    ensures |f.numeric| == |NumericFeatureColumns| && |f.categorical| == |CategoricalFeatureColumns|
    ensures forall k :: 0 <= k < |f.numeric| ==> f.numeric[k].Some?
  {
    FeatureRow(
      [Some(o.rec.season as real), Some(o.rec.age as real)]
        + seq(|Targets|, t requires 0 <= t < |Targets| => Some(o.avgs[AverageIndex(Targets[t])])),
      [CategoryLabel(o.rec.cat), Some(o.rec.pos)])
  }

  /** `player_stats[target_cols]` for one row. */
  function TrainingTargets(o: TrainingRow): (y: seq<real>)
    requires WellFormed(o.rec)
    ensures |y| == |Targets|
  {
    seq(|Targets|, t requires 0 <= t < |Targets| => o.rec.stats[StatIndex(Targets[t])])
  }

  /** Sorting keeps every row's shape. */
  lemma SortAnnotated(s: seq<TrainingRow>)
    requires TrainingWindow.Annotated(s)
    ensures TrainingWindow.Annotated(Sort(s, PlayerSeasonLe))
  {
    var sorted := Sort(s, PlayerSeasonLe);
    forall i | 0 <= i < |sorted| ensures WellFormed(sorted[i].rec) && |sorted[i].avgs| == NumAverages {
      assert sorted[i] in multiset(s);
    }
  }

  /** `X`, `y` and the `get_dummies(X, drop_first=True)` encoding for rows
      already in training order. */
  function Assemble(sorted: seq<TrainingRow>): (ts: TrainingSet)
    requires TrainingWindow.Annotated(sorted)
    ensures ts.rows == sorted
    ensures |ts.features| == |ts.targets| == |ts.matrix.cells| == |sorted|
  {
    var fs := seq(|sorted|, i requires 0 <= i < |sorted| => TrainingFeatures(sorted[i]));
    var ys := seq(|sorted|, i requires 0 <= i < |sorted| => TrainingTargets(sorted[i]));
    var enc := Encode(fs, NumericFeatureColumns, CategoricalFeatureColumns);
    assert enc.Ok?;
    TrainingSet(sorted, fs, enc.value, ys)
  }

  /** The training set of the model-building script: `get_recent_seasons`,
      `sort_values(['Player', 'Season'])`, then X, y and the encoding. */
  function BuildTrainingSet(rows: seq<Record>): (r: Result<TrainingSet, TrainingWindow.WindowError>)
    requires AllWellFormed(rows)
  {
    var window := TrainingWindow.GetRecentSeasons(rows, WindowSize);
    if window.Err? then Err(window.error)
    else
      SortAnnotated(window.value);
      Ok(Assemble(Sort(window.value, PlayerSeasonLe)))
  }

  /** Training fails only on an empty table (`pd.concat([])`); encoding
      never fails, since every numeric training feature is present. */
  lemma BuildTrainingSetOutcome(rows: seq<Record>)
    requires AllWellFormed(rows)
    ensures BuildTrainingSet(rows).Err? <==> rows == []
    ensures rows == [] ==> BuildTrainingSet(rows) == Err(TrainingWindow.NothingToConcatenate)
    ensures BuildTrainingSet(rows).Ok? ==>
      var ts := BuildTrainingSet(rows).value;
      && |ts.features| == |ts.rows| && |ts.targets| == |ts.rows| && |ts.matrix.cells| == |ts.rows|
  {
    var window := TrainingWindow.GetRecentSeasons(rows, WindowSize);
    assert window.Err? <==> rows == [];
    if window.Ok? {
      SortAnnotated(window.value);
      assert BuildTrainingSet(rows) == Ok(Assemble(Sort(window.value, PlayerSeasonLe)));
    }
  }

  /** The fitted rows are the training window's rows, rearranged in
      ascending (Player, Season) order. */
  lemma TrainingRowsOrdered(rows: seq<Record>)
    requires AllWellFormed(rows)
    requires BuildTrainingSet(rows).Ok?
    ensures TrainingWindow.GetRecentSeasons(rows, WindowSize).Ok?
    ensures multiset(BuildTrainingSet(rows).value.rows) ==
            multiset(TrainingWindow.GetRecentSeasons(rows, WindowSize).value)
    ensures SortedBy(PlayerSeasonLe, BuildTrainingSet(rows).value.rows)
  {
    PlayerSeasonPreorder();
    SortSorted(TrainingWindow.GetRecentSeasons(rows, WindowSize).value, PlayerSeasonLe);
  }

  /** Row i of X and y: its Season, its Age, its window averages of the
      five targets, its own Age_Category and Pos, and its five target
      statistics. */
  lemma TrainingRowColumns(sorted: seq<TrainingRow>, i: nat)
    requires TrainingWindow.Annotated(sorted)
    requires i < |sorted|
    ensures var ts := Assemble(sorted);
      var o := sorted[i];
      && i < |ts.features| && i < |ts.targets|
      && ts.features[i].numeric[0] == Some(o.rec.season as real)
      && ts.features[i].numeric[1] == Some(o.rec.age as real)
      && (forall t :: 0 <= t < |Targets| ==>
            ts.features[i].numeric[t + 2] == Some(o.avgs[AverageIndex(Targets[t])])
            && ts.targets[i][t] == o.rec.stats[StatIndex(Targets[t])])
      && ts.features[i].categorical == [CategoryLabel(o.rec.cat), Some(o.rec.pos)]
  {
  }

  /** Every fitted row is a kept row of its player's window and carries
      that window's averages, so its `pl_avg_X` features are the means of X
      over the window, the row itself included. */
  lemma TrainingRowFromWindow(rows: seq<Record>, window: seq<TrainingRow>, i: nat)
    requires AllWellFormed(rows)
    requires TrainingWindow.GetRecentSeasons(rows, WindowSize) == Ok(window)
    requires i < |window|
    ensures |Sort(window, PlayerSeasonLe)| == |window|
    ensures TrainingWindow.FromWindow(rows, WindowSize, Sort(window, PlayerSeasonLe)[i])
  {
    var sorted := Sort(window, PlayerSeasonLe);
    TrainingWindow.GetRecentSeasonsFromWindow(rows, WindowSize);
    assert sorted[i] in multiset(window);
  }

  /** The encoded matrix: the seven numeric feature columns, then one
      indicator per kept category value, every cell that column's value of
      the row truncated to an integer. */
  lemma TrainingEncoded(sorted: seq<TrainingRow>)
    requires TrainingWindow.Annotated(sorted)
    ensures var ts := Assemble(sorted);
      && Shaped(ts.features, |NumericFeatureColumns|, |CategoricalFeatureColumns|)
      && Encode(ts.features, NumericFeatureColumns, CategoricalFeatureColumns) == Ok(ts.matrix)
  {
  }

  /** A successful build assembles the training window in (Player, Season)
      order. */
  lemma BuildTrainingSetAssembles(rows: seq<Record>)
    requires AllWellFormed(rows)
    requires BuildTrainingSet(rows).Ok?
    ensures TrainingWindow.GetRecentSeasons(rows, WindowSize).Ok?
    ensures TrainingWindow.Annotated(Sort(TrainingWindow.GetRecentSeasons(rows, WindowSize).value, PlayerSeasonLe))
    ensures BuildTrainingSet(rows).value ==
      Assemble(Sort(TrainingWindow.GetRecentSeasons(rows, WindowSize).value, PlayerSeasonLe))
  {
    SortAnnotated(TrainingWindow.GetRecentSeasons(rows, WindowSize).value);
  }

  /** Whatever categories a batch holds, its encoding starts with the
      seven numeric feature columns in their listed order. */
  lemma NumericColumnsFirst(layout: seq<seq<string>>)
    requires |layout| == |CategoricalFeatureColumns|
    ensures var cols := Header(NumericFeatureColumns, CategoricalFeatureColumns, layout);
      && |NumericFeatureColumns| <= |cols|
      && forall k :: 0 <= k < |NumericFeatureColumns| ==> cols[k] == NumericColumn(k, NumericFeatureColumns[k])
  {
  }

  /** Training and prediction encode against the same columns whenever
      the batches hold the same Age_Category and Pos values. */
  lemma TrainingMatchesPrediction(rows: seq<Record>, current: seq<Record>, req: int)
    requires AllWellFormed(rows) && AllWellFormed(current)
    requires BuildTrainingSet(rows).Ok? && Predictions.PrepareBatch(current, req).Ok?
    requires var a := BuildTrainingSet(rows).value.features;
      var b := Predictions.PrepareBatch(current, req).value.features;
      Shaped(a, 7, 2) && Shaped(b, 7, 2) &&
      forall j, v :: 0 <= j < 2 ==> (v in CategoryValues(a, j) <==> v in CategoryValues(b, j))
    ensures BuildTrainingSet(rows).value.matrix.columns == Predictions.PrepareBatch(current, req).value.matrix.columns
  {
    BuildTrainingSetAssembles(rows);
    TrainingEncoded(BuildTrainingSet(rows).value.rows);
    Predictions.BatchEncoded(current, req);
    SameValuesSameHeader(BuildTrainingSet(rows).value.features,
                         Predictions.PrepareBatch(current, req).value.features,
                         NumericFeatureColumns, CategoricalFeatureColumns);
  }

  /** A category value the training rows never held, other than the
      smallest at prediction time, gives the prediction matrix a column the
      models were not trained on. */
  lemma PredictionColumnUnseen(rows: seq<Record>, current: seq<Record>, req: int, j: nat, v: string)
    requires AllWellFormed(rows) && AllWellFormed(current)
    requires BuildTrainingSet(rows).Ok? && Predictions.PrepareBatch(current, req).Ok?
    requires j < 2
    requires var a := BuildTrainingSet(rows).value.features;
      var b := Predictions.PrepareBatch(current, req).value.features;
      Shaped(a, 7, 2) && Shaped(b, 7, 2) && KeptValue(b, j, v) && v !in CategoryValues(a, j)
    ensures BuildTrainingSet(rows).value.matrix.columns != Predictions.PrepareBatch(current, req).value.matrix.columns
  {
    BuildTrainingSetAssembles(rows);
    TrainingEncoded(BuildTrainingSet(rows).value.rows);
    Predictions.BatchEncoded(current, req);
    UnseenValueChangesHeader(BuildTrainingSet(rows).value.features,
                             Predictions.PrepareBatch(current, req).value.features,
                             NumericFeatureColumns, CategoricalFeatureColumns, j, v);
  }

  // ---------------------------------------------------------------------
  // evaluate_model: the percentage error

  function Zip(a: seq<real>, b: seq<real>): (z: seq<(real, real)>)
    requires |a| == |b|
    ensures |z| == |a| && forall i :: 0 <= i < |a| ==> z[i] == (a[i], b[i])
  {
    seq(|a|, i requires 0 <= i < |a| => (a[i], b[i]))
  }

  function TruthNonZero(x: (real, real)): bool {
    x.0 != 0.0
  }

  predicate NonZeroReal(x: real) {
    x != 0.0
  }

  /** `(y_true[mask, i], y_pred[mask, i])` for the non-zero truths: every
      row whose truth is not 0 is kept, no other, in row order. */
  function NonZeroRows(truth: seq<real>, pred: seq<real>): (ps: seq<(real, real)>)
    requires |truth| == |pred|
    ensures ps == [] <==> forall i :: 0 <= i < |truth| ==> truth[i] == 0.0
    ensures forall x :: x in ps ==> x.0 != 0.0 && x in Zip(truth, pred)
    ensures forall i :: 0 <= i < |truth| && truth[i] != 0.0 ==> (truth[i], pred[i]) in ps
    ensures Truths(ps) == Filter(truth, NonZeroReal)
  {
    var z := Zip(truth, pred);
    var ps := Filter(z, TruthNonZero);
    assert forall i :: 0 <= i < |truth| && truth[i] != 0.0 ==> z[i] in ps;
    MaskedTruths(truth, pred);
    ps
  }

  /** The truths of the masked pairs are the non-zero truths, in order. */
  lemma {:induction false} MaskedTruths(truth: seq<real>, pred: seq<real>)
    requires |truth| == |pred|
    ensures Truths(Filter(Zip(truth, pred), TruthNonZero)) == Filter(truth, NonZeroReal)
    decreases |truth|
  {
    if truth != [] {
      var n := |truth|;
      var t, q := truth[..n - 1], pred[..n - 1];
      var z := Zip(truth, pred);
      assert z[..n - 1] == Zip(t, q);
      assert truth == t + [truth[n - 1]];
      assert z == Zip(t, q) + [(truth[n - 1], pred[n - 1])];
      MaskedTruths(t, q);
      var f := Filter(Zip(t, q), TruthNonZero);
      TruthsSnoc(f, (truth[n - 1], pred[n - 1]));
    }
  }

  lemma TruthsSnoc(f: seq<(real, real)>, x: (real, real))
    ensures Truths(f + [x]) == Truths(f) + [x.0]
  {
    assert |Truths(f + [x])| == |Truths(f) + [x.0]|;
    forall k | 0 <= k < |f| + 1 ensures Truths(f + [x])[k] == (Truths(f) + [x.0])[k] {
      if k < |f| {
        assert (f + [x])[k] == f[k];
      }
    }
  }

  function Truths(ps: seq<(real, real)>): (ts: seq<real>)
    ensures |ts| == |ps| && forall k :: 0 <= k < |ps| ==> ts[k] == ps[k].0
  {
    seq(|ps|, k requires 0 <= k < |ps| => ps[k].0)
  }

  function SquaredErrors(ps: seq<(real, real)>): (es: seq<real>)
    ensures |es| == |ps|
    ensures forall k :: 0 <= k < |ps| ==> es[k] == (ps[k].0 - ps[k].1) * (ps[k].0 - ps[k].1)
  {
    seq(|ps|, k requires 0 <= k < |ps| => (ps[k].0 - ps[k].1) * (ps[k].0 - ps[k].1))
  }

  /** The percentage over the selected (truth, prediction) pairs: their
      mean squared error divided by the mean of their truths, times 100;
      NaN when there are none or the truths average to 0. */
  function Percent(ps: seq<(real, real)>): (r: Option<real>)
    ensures r.None? <==> ps == [] || Mean(Truths(ps)) == 0.0
    ensures r.Some? ==> r.value * Mean(Truths(ps)) == 100.0 * Mean(SquaredErrors(ps))
  {
    if ps == [] then None
    else
      var m := Mean(Truths(ps));
      if m == 0.0 then None else Some(Mean(SquaredErrors(ps)) / m * 100.0)
  }

  /** One target column's percentage, over the rows whose truth is not 0. */
  function ColumnPercent(truth: seq<real>, pred: seq<real>): (r: Option<real>)
    requires |truth| == |pred|
    ensures (forall i :: 0 <= i < |truth| ==> truth[i] == 0.0) ==> r.None?
  {
    Percent(NonZeroRows(truth, pred))
  }

  ghost predicate Rectangular(y: seq<seq<real>>, width: nat) {
    forall i :: 0 <= i < |y| ==> |y[i]| == width
  }

  /** The per-column percentages, in target order. */
  function ColumnPercents(yTrue: seq<seq<real>>, yPred: seq<seq<real>>, width: nat): (ps: seq<Option<real>>)
    requires |yTrue| == |yPred| && Rectangular(yTrue, width) && Rectangular(yPred, width)
    ensures |ps| == width
  {
    seq(width, c requires 0 <= c < width => ColumnPercent(Numbers.Column(yTrue, c), Numbers.Column(yPred, c)))
  }

  /** The third result of `evaluate_model`: `np.nanmean` of the column
      percentages, NaN when every column is NaN. */
  function MsePercent(yTrue: seq<seq<real>>, yPred: seq<seq<real>>, width: nat): (r: Option<real>)
    requires |yTrue| == |yPred| && Rectangular(yTrue, width) && Rectangular(yPred, width)
    ensures r.None? <==> forall c :: 0 <= c < width ==> ColumnPercents(yTrue, yPred, width)[c].None?
  {
    Imputation.MeanPresent(ColumnPercents(yTrue, yPred, width))
  }

  lemma PercentNonNegative(ps: seq<(real, real)>)
    requires ps != []
    requires forall k :: 0 <= k < |ps| ==> ps[k].0 > 0.0
    ensures Percent(ps).Some? && Percent(ps).value >= 0.0
  {
    var ts := Truths(ps);
    var es := SquaredErrors(ps);
    SumPositive(ts);
    SumNonNegative(es);
    var m := Mean(ts);
    var e := Mean(es);
    assert m > 0.0 && e >= 0.0;
    assert e / m >= 0.0;
  }

  /** With non-negative truths, a column with a positive truth always gets
      a percentage, and it is never negative. */
  lemma ColumnPercentNonNegative(truth: seq<real>, pred: seq<real>)
    requires |truth| == |pred|
    requires forall i :: 0 <= i < |truth| ==> truth[i] >= 0.0
    requires exists i :: 0 <= i < |truth| && truth[i] > 0.0
    ensures ColumnPercent(truth, pred).Some? && ColumnPercent(truth, pred).value >= 0.0
  {
    var ps := NonZeroRows(truth, pred);
    var z := Zip(truth, pred);
    forall k | 0 <= k < |ps| ensures ps[k].0 > 0.0 {
      assert ps[k] in ps;
      assert ps[k] in z;
      var i :| 0 <= i < |z| && z[i] == ps[k];
    }
    PercentNonNegative(ps);
  }

  lemma PercentPerfect(ps: seq<(real, real)>)
    requires forall k :: 0 <= k < |ps| ==> ps[k].0 == ps[k].1
    ensures Percent(ps).None? || Percent(ps) == Some(0.0)
  {
    if ps != [] {
      MeanConst(SquaredErrors(ps), 0.0);
    }
  }

  /** A perfect column has percentage 0, or none when it is skipped. */
  lemma ColumnPercentPerfect(truth: seq<real>)
    ensures ColumnPercent(truth, truth).None? || ColumnPercent(truth, truth) == Some(0.0)
  {
    var ps := NonZeroRows(truth, truth);
    var z := Zip(truth, truth);
    forall k | 0 <= k < |ps| ensures ps[k].0 == ps[k].1 {
      assert ps[k] in ps;
      assert ps[k] in z;
      var i :| 0 <= i < |z| && z[i] == ps[k];
    }
    PercentPerfect(ps);
  }

  /** Perfect predictions score 0 (or NaN when every column is skipped). */
  lemma MsePercentPerfect(y: seq<seq<real>>, width: nat)
    requires Rectangular(y, width)
    ensures MsePercent(y, y, width).None? || MsePercent(y, y, width) == Some(0.0)
  {
    var cs := ColumnPercents(y, y, width);
    forall c | 0 <= c < width ensures cs[c].None? || cs[c] == Some(0.0) {
      ColumnPercentPerfect(Numbers.Column(y, c));
    }
    var p := Imputation.Present(cs);
    if p != [] {
      forall k | 0 <= k < |p| ensures p[k] == 0.0 {
        assert p[k] in p;
        var c :| 0 <= c < width && cs[c] == Some(p[k]);
      }
      MeanConst(p, 0.0);
    }
  }

  /** A target column whose true values are all 0 contributes nothing: the
      result is the mean over the other columns alone. */
  lemma ZeroColumnSkipped(yTrue: seq<seq<real>>, yPred: seq<seq<real>>, width: nat, c: nat)
    requires |yTrue| == |yPred| && Rectangular(yTrue, width) && Rectangular(yPred, width)
    requires c < width
    requires forall i :: 0 <= i < |yTrue| ==> yTrue[i][c] == 0.0
    ensures var cs := ColumnPercents(yTrue, yPred, width);
      cs[c].None? && MsePercent(yTrue, yPred, width) == Imputation.MeanPresent(cs[..c] + cs[c + 1..])
  {
    var cs := ColumnPercents(yTrue, yPred, width);
    var col := Numbers.Column(yTrue, c);
    assert forall i :: 0 <= i < |col| ==> col[i] == 0.0;
    assert cs[c] == ColumnPercent(col, Numbers.Column(yPred, c));
    Imputation.PresentSkipsNone(cs, c);
  }
}
