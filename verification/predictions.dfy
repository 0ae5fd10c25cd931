/** `load_predictions(req_season)` of the prediction stage: the query frame
    built from season req - 1, its cleaning, the left merge with the
    inference window, the per-player aggregation, the one-hot encoding and
    the five per-target predictions. The trained models are a parameter. */
module Predictions {
  import opened Wrappers
  import opened Records
  import opened Numbers
  import opened Seqs
  import opened Imputation
  import opened Encoding
  import opened InferenceWindow
  import TrainingWindow
  import DataProcessing
  import Lex

  /** A row of the query frame: Player, the requested Season, Age and Pos
      (either of the last two may be NaN in general). */
  datatype QueryRow = QueryRow(player: string, season: int, age: Option<real>, pos: Option<string>)

  datatype PredictionError =
    | CleaningFailed(clean: DataProcessing.CleanError)
    | WindowFailed(window: TrainingWindow.WindowError)
    | EncodingFailed(encode: EncodeError)
    | MissingModel(target: Target)   // `exit(1)` when a model file is absent

  function QueryPositions(qs: seq<QueryRow>): (ps: seq<Option<string>>)
    ensures |ps| == |qs| && forall i :: 0 <= i < |qs| ==> ps[i] == qs[i].pos
  {
    seq(|qs|, i requires 0 <= i < |qs| => qs[i].pos)
  }

  function QueryAges(qs: seq<QueryRow>): (xs: seq<Option<real>>)
    ensures |xs| == |qs| && forall i :: 0 <= i < |qs| ==> xs[i] == qs[i].age
  {
    seq(|qs|, i requires 0 <= i < |qs| => qs[i].age)
  }

  /** out is q cleaned: identity kept, a present Pos or Age kept, a missing
      Pos replaced by the batch mode, a missing Age replaced by the batch
      median, or left missing when the batch has no age at all. */
  ghost predicate FilledFrom(q: QueryRow, out: QueryRow, positions: seq<string>, ages: seq<real>) {
    && out.player == q.player && out.season == q.season
    && (q.pos.Some? ==> out.pos == q.pos)
    && (q.pos.None? ==> out.pos.Some? && IsMode(positions, out.pos.value))
    && (q.age.Some? ==> out.age == q.age)
    && (q.age.None? && |ages| > 0 ==> out.age == Some(Median(ages)))
    && (q.age.None? && |ages| == 0 ==> out.age.None?)
  }

  /** `clean_data` of the prediction stage. `mode()[0]` fails on a batch
      with no Pos at all; the median of a batch with no Age is NaN, so
      missing ages then stay missing. Age is not cast here. */
  function CleanQuery(qs: seq<QueryRow>): (r: Result<seq<QueryRow>, DataProcessing.CleanError>)
    ensures r.Err? <==> forall i :: 0 <= i < |qs| ==> qs[i].pos.None?
    ensures r.Err? ==> r.error == DataProcessing.NoPositionMode
    ensures r.Ok? ==> |r.value| == |qs|
    ensures r.Ok? ==> forall i :: 0 <= i < |qs| ==>
      FilledFrom(qs[i], r.value[i], Present(QueryPositions(qs)), Present(QueryAges(qs)))
  {
    var positions := Present(QueryPositions(qs));
    var ages := Present(QueryAges(qs));
    if positions == [] then Err(DataProcessing.NoPositionMode)
    else
      var mode := Mode(positions);
      var median := if ages == [] then None else Some(Median(ages));
      var out := FillQuery(qs, mode, median);
      assert forall i :: 0 <= i < |qs| ==> FilledFrom(qs[i], out[i], positions, ages) by {
        forall i | 0 <= i < |qs| ensures FilledFrom(qs[i], out[i], positions, ages) {
          assert out[i] == FillRow(qs[i], mode, median);
        }
      }
      Ok(out)
  }

  /** One query row with a missing Age replaced by `median` and a missing
      Pos by `mode`. */
  function FillRow(q: QueryRow, mode: string, median: Option<real>): QueryRow {
    QueryRow(q.player, q.season,
             if q.age.Some? then q.age else median,
             if q.pos.Some? then q.pos else Some(mode))
  }

  function FillQuery(qs: seq<QueryRow>, mode: string, median: Option<real>): (out: seq<QueryRow>)
    ensures |out| == |qs| && forall i :: 0 <= i < |qs| ==> out[i] == FillRow(qs[i], mode, median)
  {
    seq(|qs|, i requires 0 <= i < |qs| => FillRow(qs[i], mode, median))
  }

  /** A batch with no missing cell comes out of cleaning unchanged. */
  lemma CleanQueryKeepsComplete(qs: seq<QueryRow>)
    requires |qs| > 0
    requires forall i :: 0 <= i < |qs| ==> qs[i].pos.Some? && qs[i].age.Some?
    ensures CleanQuery(qs) == Ok(qs)
  {
    var positions := Present(QueryPositions(qs));
    var ages := Present(QueryAges(qs));
    assert QueryPositions(qs)[0] == qs[0].pos;
    assert positions != [];
    var mode := Mode(positions);
    var median := if ages == [] then None else Some(Median(ages));
    var out := FillQuery(qs, mode, median);
    assert CleanQuery(qs) == Ok(out);
    forall i | 0 <= i < |qs| ensures out[i] == qs[i] {
      assert out[i] == FillRow(qs[i], mode, median);
    }
    assert out == qs;
  }

  function InSeason(season: int): Record -> bool {
    (r: Record) => r.season == season
  }

  /** `df[df['Season'] == req_season - 1]`. */
  function PreviousSeason(rows: seq<Record>, req: int): (prev: seq<Record>)
    ensures forall r :: r in prev <==> r in rows && r.season == req - 1
  {
    Filter(rows, InSeason(req - 1))
  }

  /** The query row built from a previous-season row: Season set to the
      requested one, Age one year older, Pos kept. */
  function ToQuery(r: Record, req: int): QueryRow {
    QueryRow(r.player, req, Some(r.age as real + 1.0), Some(r.pos))
  }

  /** The query frame of `load_predictions`. */
  function QueryRows(rows: seq<Record>, req: int): (qs: seq<QueryRow>)
    ensures qs == [] <==> forall r :: r in rows ==> r.season != req - 1
    ensures forall q :: q in qs <==> exists r :: r in rows && r.season == req - 1 && q == ToQuery(r, req)
    ensures |qs| == |PreviousSeason(rows, req)|
    ensures forall i :: 0 <= i < |qs| ==> qs[i] == ToQuery(PreviousSeason(rows, req)[i], req)
  {
    var prev := PreviousSeason(rows, req);
    var qs := ToQueries(prev, req);
    ToQueriesMembers(prev, req);
    assert prev != [] ==> prev[0] in rows;
    qs
  }

  function ToQueries(prev: seq<Record>, req: int): (qs: seq<QueryRow>)
    ensures |qs| == |prev| && forall i :: 0 <= i < |prev| ==> qs[i] == ToQuery(prev[i], req)
  {
    seq(|prev|, i requires 0 <= i < |prev| => ToQuery(prev[i], req))
  }

  lemma ToQueriesMembers(prev: seq<Record>, req: int)
    ensures forall q :: q in ToQueries(prev, req) <==> exists r :: r in prev && q == ToQuery(r, req)
  {
    var qs := ToQueries(prev, req);
    forall q ensures q in qs <==> exists r :: r in prev && q == ToQuery(r, req) {
      if exists r :: r in prev && q == ToQuery(r, req) {
        var r :| r in prev && q == ToQuery(r, req);
        var i :| 0 <= i < |prev| && prev[i] == r;
        assert qs[i] == q;
      }
    }
  }

  /** A query row with the window summary its player matched, if any. */
  datatype Merged = Merged(query: QueryRow, summary: Option<Summary>)

  /** The summary row of player p in a left merge on Player. */
  function Lookup(sums: seq<Summary>, p: string): (r: Option<Summary>)
    ensures r.Some? ==> r.value in sums && r.value.player == p
    ensures r.None? <==> forall s :: s in sums ==> s.player != p
  {
    if sums == [] then None
    else if sums[0].player == p then Some(sums[0])
    else Lookup(sums[1..], p)
  }

  /** `merge(recent_averages_df, on='Player', how='left')` against a
      summary table holding one row per player. */
  function LeftMerge(qs: seq<QueryRow>, sums: seq<Summary>): (ms: seq<Merged>)
    ensures |ms| == |qs|
    ensures forall i :: 0 <= i < |qs| ==> ms[i] == Merged(qs[i], Lookup(sums, qs[i].player))
  {
    seq(|qs|, i requires 0 <= i < |qs| => Merged(qs[i], Lookup(sums, qs[i].player)))
  }

  /** The merged frame: query rows cleaned, then joined with the window
      summaries of every player with a season before `req`. */
  function Merge(rows: seq<Record>, req: int): (r: Result<seq<Merged>, PredictionError>)
    requires AllWellFormed(rows)
  {
    var cleaned := CleanQuery(QueryRows(rows, req));
    if cleaned.Err? then Err(CleaningFailed(cleaned.error))
    else
      var window := GetRecentSeasons(rows, req, WindowSize);
      if window.Err? then Err(WindowFailed(window.error))
      else Ok(LeftMerge(cleaned.value, window.value))
  }

  /** m comes from a season req - 1 row and matched its player's row of
      the window summaries. */
  ghost predicate MatchedRow(rows: seq<Record>, req: int, window: seq<Summary>, m: Merged) {
    && (exists r :: r in rows && r.season == req - 1 && m.query == ToQuery(r, req))
    && m.summary == Lookup(window, m.query.player) && m.summary.Some?
  }

  lemma QueryRowsComplete(rows: seq<Record>, req: int)
    ensures forall i :: 0 <= i < |QueryRows(rows, req)| ==>
      QueryRows(rows, req)[i].pos.Some? && QueryRows(rows, req)[i].age.Some?
  {
    var qs := QueryRows(rows, req);
    forall i | 0 <= i < |qs| ensures qs[i].pos.Some? && qs[i].age.Some? {
      assert qs[i] in qs;
    }
  }

  /** With a season req - 1 row, cleaning leaves the query frame as it is
      and the window yields summaries. */
  lemma MergeOk(rows: seq<Record>, req: int)
    requires AllWellFormed(rows)
    requires exists r :: r in rows && r.season == req - 1
    ensures GetRecentSeasons(rows, req, WindowSize).Ok?
    ensures Merge(rows, req) == Ok(LeftMerge(QueryRows(rows, req), GetRecentSeasons(rows, req, WindowSize).value))
  {
    var qs := QueryRows(rows, req);
    QueryRowsComplete(rows, req);
    CleanQueryKeepsComplete(qs);
    var r0 :| r0 in rows && r0.season == req - 1;
    var i0 :| 0 <= i0 < |rows| && rows[i0] == r0;
    assert rows[i0].season < req;
    var w := GetRecentSeasons(rows, req, WindowSize);
    assert w != Err(TrainingWindow.NothingToConcatenate);
    assert w != Err(TrainingWindow.EmptyWindow);
  }

  /** A query row's player has a row before `req`, so the left merge
      finds that player's window summary. */
  lemma QueryMatched(rows: seq<Record>, req: int, window: seq<Summary>, r: Record)
    requires AllWellFormed(rows)
    requires GetRecentSeasons(rows, req, WindowSize) == Ok(window)
    requires r in rows && r.season == req - 1
    ensures MatchedRow(rows, req, window, Merged(ToQuery(r, req), Lookup(window, r.player)))
  {
    var q := ToQuery(r, req);
    var j :| 0 <= j < |rows| && rows[j] == r;
    assert rows[j].player == q.player && rows[j].season < req;
    assert SummaryPlayers(window) == TrainingWindow.Players(Eligible(rows, req));
    SummaryPlayersExact(rows, req, q.player);
    var k :| 0 <= k < |window| && SummaryPlayers(window)[k] == q.player;
    assert window[k] in window;
  }

  /** Every merged row found the summary of its player's window. */
  lemma MergedRowsMatched(rows: seq<Record>, req: int, window: seq<Summary>)
    requires AllWellFormed(rows)
    requires GetRecentSeasons(rows, req, WindowSize) == Ok(window)
    ensures forall m :: m in LeftMerge(QueryRows(rows, req), window) ==> MatchedRow(rows, req, window, m)
  {
    var qs := QueryRows(rows, req);
    var ms := LeftMerge(qs, window);
    forall m | m in ms ensures MatchedRow(rows, req, window, m) {
      var i :| 0 <= i < |ms| && ms[i] == m;
      var prev := PreviousSeason(rows, req);
      assert prev[i] in prev;
      assert qs[i] == ToQuery(prev[i], req);
      assert m == Merged(ToQuery(prev[i], req), Lookup(window, prev[i].player));
      QueryMatched(rows, req, window, prev[i]);
    }
  }

  /** Merging succeeds exactly when season req - 1 has a row, and then
      every query row finds its player's window summary. */
  lemma MergeSpec(rows: seq<Record>, req: int)
    requires AllWellFormed(rows)
    ensures Merge(rows, req).Ok? <==> exists r :: r in rows && r.season == req - 1
    ensures Merge(rows, req) == Err(CleaningFailed(DataProcessing.NoPositionMode)) <==>
      forall r :: r in rows ==> r.season != req - 1
    ensures Merge(rows, req).Ok? ==>
      && GetRecentSeasons(rows, req, WindowSize).Ok?
      && forall m :: m in Merge(rows, req).value ==>
           MatchedRow(rows, req, GetRecentSeasons(rows, req, WindowSize).value, m)
  {
    if exists r :: r in rows && r.season == req - 1 {
      MergeOk(rows, req);
      MergedRowsMatched(rows, req, GetRecentSeasons(rows, req, WindowSize).value);
    }
  }

  /** A summary the window produced: what SummarizesWindow states, and its
      averaged block has the full width. */
  lemma WindowSummary(rows: seq<Record>, req: int, window: seq<Summary>, s: Summary)
    requires AllWellFormed(rows)
    requires GetRecentSeasons(rows, req, WindowSize) == Ok(window)
    requires s in window
    ensures SummarizesWindow(rows, req, WindowSize, s)
    ensures |s.avgs| == NumAverages
  {
    GetRecentSeasonsSpec(rows, req, WindowSize);
    var k :| 0 <= k < |window| && window[k] == s;
    assert SummarizesWindow(rows, req, WindowSize, window[k]);
  }

  lemma WindowSummaryWidth(rows: seq<Record>, req: int, window: seq<Summary>, s: Summary)
    requires AllWellFormed(rows)
    requires GetRecentSeasons(rows, req, WindowSize) == Ok(window)
    requires s in window
    ensures |s.avgs| == NumAverages
  {
    WindowSummary(rows, req, window, s);
  }

  function OfQueryPlayer(p: string): Merged -> bool {
    (m: Merged) => m.query.player == p
  }

  /** The merged rows of player p, in row order. */
  function MergedGroup(ms: seq<Merged>, p: string): (g: seq<Merged>)
    ensures forall m :: m in g <==> m in ms && m.query.player == p
  {
    Filter(ms, OfQueryPlayer(p))
  }

  function MergedNames(ms: seq<Merged>): (ns: seq<string>)
    ensures |ns| == |ms| && forall i :: 0 <= i < |ms| ==> ns[i] == ms[i].query.player
  {
    seq(|ms|, i requires 0 <= i < |ms| => ms[i].query.player)
  }

  /** The keys of `groupby('Player')` on the merged frame. */
  function MergedPlayers(ms: seq<Merged>): (ps: seq<string>)
    ensures Distinct(ps)
    ensures forall p :: p in ps <==> exists m :: m in ms && m.query.player == p
  {
    var ns := MergedNames(ms);
    assert forall p :: p in ns <==> exists m :: m in ms && m.query.player == p by {
      forall p ensures p in ns <==> exists m :: m in ms && m.query.player == p {
        if p in ns {
          var i :| 0 <= i < |ns| && ns[i] == p;
          assert ms[i] in ms;
        }
        if exists m :: m in ms && m.query.player == p {
          var m :| m in ms && m.query.player == p;
          var i :| 0 <= i < |ms| && ms[i] == m;
          assert ns[i] == p;
        }
      }
    }
    SortedKeys(ns, Lex.LessEq)
  }

  lemma MergedPlayersSorted(ms: seq<Merged>)
    ensures SortedBy(Lex.LessEq, MergedPlayers(ms))
  {
    Lex.LessEqTotalOrder();
    SortedKeysSorted(MergedNames(ms), Lex.LessEq);
  }

  /** `first()` of a column: its first present cell, NaN when none is. */
  function FirstPresent<T>(xs: seq<Option<T>>): (f: Option<T>)
    ensures f.None? <==> forall i :: 0 <= i < |xs| ==> xs[i].None?
    ensures f.Some? ==> exists i :: 0 <= i < |xs| && xs[i] == f && forall j :: 0 <= j < i ==> xs[j].None?
  {
    if xs == [] then None
    else if xs[0].Some? then xs[0]
    else
      var f := FirstPresent(xs[1..]);
      assert f.Some? ==> exists i :: 1 <= i < |xs| && xs[i] == f && forall j :: 0 <= j < i ==> xs[j].None? by {
        if f.Some? {
          var i :| 0 <= i < |xs[1..]| && xs[1..][i] == f && forall j :: 0 <= j < i ==> xs[1..][j].None?;
          assert xs[i + 1] == f;
          assert forall j :: 0 <= j < i + 1 ==> xs[j].None? by {
            forall j | 0 <= j < i + 1 ensures xs[j].None? {
              if j > 0 {
                assert xs[j] == xs[1..][j - 1];
              }
            }
          }
        }
      }
      assert f.None? ==> forall i :: 0 <= i < |xs| ==> xs[i].None? by {
        if f.None? {
          forall i | 0 <= i < |xs| ensures xs[i].None? {
            if i > 0 {
              assert xs[i] == xs[1..][i - 1];
            }
          }
        }
      }
      f
  }

  function SeasonCell(m: Merged): Option<real> {
    Some(m.query.season as real)
  }

  function AgeCell(m: Merged): Option<real> {
    m.query.age
  }

  /** The `pl_avg_<t>` cell a merged row carries: NaN without a summary. */
  function AverageCell(t: Target): Merged -> Option<real> {
    (m: Merged) =>
      if m.summary.Some? && AverageIndex(t) < |m.summary.value.avgs|
      then Some(m.summary.value.avgs[AverageIndex(t)]) else None
  }

  function CategoryCell(m: Merged): Option<string> {
    if m.summary.Some? && m.summary.value.cat.Some?
    then Some(CategoryName(m.summary.value.cat.value)) else None
  }

  function PositionCell(m: Merged): Option<string> {
    m.query.pos
  }

  function Cells<C>(g: seq<Merged>, cell: Merged -> Option<C>): (cs: seq<Option<C>>)
    ensures |cs| == |g| && forall i :: 0 <= i < |g| ==> cs[i] == cell(g[i])
  {
    seq(|g|, i requires 0 <= i < |g| => cell(g[i]))
  }

  /** The five `pl_avg` features of a group, in target order. */
  function AverageFeatures(g: seq<Merged>): (fs: seq<Option<real>>)
    ensures |fs| == |Targets|
    ensures forall t :: 0 <= t < |Targets| ==> fs[t] == MeanPresent(Cells(g, AverageCell(Targets[t])))
  {
    seq(|Targets|, t requires 0 <= t < |Targets| => MeanPresent(Cells(g, AverageCell(Targets[t]))))
  }

  /** The `agg` of one player's merged rows: Season, Age and the five
      `pl_avg` columns by mean (the comprehension's 'mean' entries replace
      the 'first' ones given for Season and Age), Age_Category and Pos by
      first. */
  function Aggregate(g: seq<Merged>): (f: FeatureRow)
    ensures |f.numeric| == |NumericFeatureColumns| && |f.categorical| == |CategoricalFeatureColumns|
  {
    FeatureRow(
      [MeanPresent(Cells(g, SeasonCell)), MeanPresent(Cells(g, AgeCell))] + AverageFeatures(g),
      [FirstPresent(Cells(g, CategoryCell)), FirstPresent(Cells(g, PositionCell))])
  }

  /** The feature rows, one per player key. */
  function Features(ms: seq<Merged>, ps: seq<string>): (fs: seq<FeatureRow>)
    ensures |fs| == |ps|
    ensures forall k :: 0 <= k < |ps| ==> fs[k] == Aggregate(MergedGroup(ms, ps[k]))
    ensures Shaped(fs, |NumericFeatureColumns|, |CategoricalFeatureColumns|)
  {
    seq(|ps|, k requires 0 <= k < |ps| => Aggregate(MergedGroup(ms, ps[k])))
  }

  /** The encoded batch: player keys, their feature rows and the 0/1 and
      integer matrix the models are applied to. */
  datatype Batch = Batch(players: seq<string>, features: seq<FeatureRow>, matrix: Matrix)

  /** One feature row and one encoded row per player, every row of the
      feature layout, Season and Age present. */
  predicate Ready(b: Batch) {
    && |b.features| == |b.players| == |b.matrix.cells|
    && forall k :: 0 <= k < |b.features| ==>
         && |b.features[k].numeric| == |NumericFeatureColumns|
         && |b.features[k].categorical| == |CategoricalFeatureColumns|
         && b.features[k].numeric[0].Some? && b.features[k].numeric[1].Some?
  }

  lemma ReadyBatch(ps: seq<string>, fs: seq<FeatureRow>, m: Matrix)
    requires |fs| == |ps| == |m.cells|
    requires Shaped(fs, |NumericFeatureColumns|, |CategoricalFeatureColumns|) && Finite(fs)
    ensures Ready(Batch(ps, fs, m))
  {
    forall k | 0 <= k < |fs|
      ensures |fs[k].numeric| == |NumericFeatureColumns| && |fs[k].categorical| == |CategoricalFeatureColumns|
    {
      assert fs[k] in fs;
    }
  }

  function PrepareBatch(rows: seq<Record>, req: int): (r: Result<Batch, PredictionError>)
    requires AllWellFormed(rows)
    ensures r.Ok? ==> Ready(r.value)
  {
    var merged := Merge(rows, req);
    if merged.Err? then Err(merged.error)
    else
      var ps := MergedPlayers(merged.value);
      var fs := Features(merged.value, ps);
      var enc := Encode(fs, NumericFeatureColumns, CategoricalFeatureColumns);
      if enc.Err? then Err(EncodingFailed(enc.error))
      else
        ReadyBatch(ps, fs, enc.value);
        Ok(Batch(ps, fs, enc.value))
  }

  /** The first target in `ts` whose model is not available. */
  function FirstMissing(ts: seq<Target>, available: Target -> bool): (t: Option<Target>)
    ensures t.None? <==> forall k :: 0 <= k < |ts| ==> available(ts[k])
    ensures t.Some? ==> exists k :: 0 <= k < |ts| && ts[k] == t.value && !available(ts[k])
                                    && forall j :: 0 <= j < k ==> available(ts[j])
  {
    if ts == [] then None
    else if !available(ts[0]) then Some(ts[0])
    else
      var t := FirstMissing(ts[1..], available);
      assert t.Some? ==> exists k :: 1 <= k < |ts| && ts[k] == t.value && !available(ts[k])
                                     && forall j :: 0 <= j < k ==> available(ts[j]) by {
        if t.Some? {
          var k :| 0 <= k < |ts[1..]| && ts[1..][k] == t.value && !available(ts[1..][k])
                   && forall j :: 0 <= j < k ==> available(ts[1..][j]);
          assert ts[k + 1] == t.value;
          forall j | 0 <= j < k + 1 ensures available(ts[j]) {
            if j > 0 {
              assert ts[j] == ts[1..][j - 1];
            }
          }
        }
      }
      assert t.None? ==> forall k :: 0 <= k < |ts| ==> available(ts[k]) by {
        if t.None? {
          forall k | 0 <= k < |ts| ensures available(ts[k]) {
            if k > 0 {
              assert ts[k] == ts[1..][k - 1];
            }
          }
        }
      }
      t
  }

  /** The output row of one player: `player_info` (Age and Season cast to
      int, Pos as a string, so NaN becomes "nan") next to the five model
      outputs on the player's encoded row. */
  function Compose(p: string, f: FeatureRow, x: seq<int>, predict: (Target, seq<int>) -> real): Prediction
    requires |f.numeric| >= 2 && f.numeric[0].Some? && f.numeric[1].Some? && |f.categorical| >= 2
  {
    Prediction(p, Trunc(f.numeric[0].value), Trunc(f.numeric[1].value), f.categorical[1].GetOr("nan"),
               seq(|Targets|, t requires 0 <= t < |Targets| => predict(Targets[t], x)))
  }

  /** `pd.concat([player_info, predictions_df], axis=1)`, row by row. */
  function ComposeAll(b: Batch, predict: (Target, seq<int>) -> real): (out: seq<Prediction>)
    requires Ready(b)
    ensures |out| == |b.players|
    ensures forall k :: 0 <= k < |out| ==> out[k] == Compose(b.players[k], b.features[k], b.matrix.cells[k], predict)
  {
    seq(|b.players|, k requires 0 <= k < |b.players| =>
      Compose(b.players[k], b.features[k], b.matrix.cells[k], predict))
  }

  /** `load_predictions(req_season)`: `available(t)` says whether the model
      file of target t exists and `predict(t, x)` is that model's output on
      the encoded row x. */
  function LoadPredictions(rows: seq<Record>, req: int, available: Target -> bool,
                           predict: (Target, seq<int>) -> real): (r: Result<seq<Prediction>, PredictionError>)
    requires AllWellFormed(rows)
  {
    var batch := PrepareBatch(rows, req);
    if batch.Err? then Err(batch.error)
    else
      var b := batch.value;
      var missing := FirstMissing(Targets, available);
      if missing.Some? then Err(MissingModel(missing.value))
      else Ok(ComposeAll(b, predict))
  }

  /** Cells that all hold one value have it as their first present value. */
  lemma FirstPresentConst<T>(xs: seq<Option<T>>, c: Option<T>)
    requires |xs| > 0
    requires forall i :: 0 <= i < |xs| ==> xs[i] == c
    ensures FirstPresent(xs) == c
  {
    assert xs[0] == c;
  }

  /** The aggregate of a group whose rows all ask for season `req`, carry
      an age, and matched the same summary s. */
  lemma AggregateMatched(g: seq<Merged>, req: int, s: Summary)
    requires |g| > 0
    requires forall m :: m in g ==> m.query.season == req && m.query.age.Some? && m.summary == Some(s)
    requires |s.avgs| == NumAverages
    ensures MeanPresent(Cells(g, SeasonCell)) == Some(req as real)
    ensures MeanPresent(Cells(g, AgeCell)).Some?
    ensures forall t :: 0 <= t < |Targets| ==> AverageFeatures(g)[t] == Some(s.avgs[AverageIndex(Targets[t])])
    ensures FirstPresent(Cells(g, CategoryCell)) == if s.cat.Some? then Some(CategoryName(s.cat.value)) else None
  {
    AggregateSeasonAge(g, req);
    forall t | 0 <= t < |Targets|
      ensures AverageFeatures(g)[t] == Some(s.avgs[AverageIndex(Targets[t])])
    {
      AggregateAverage(g, s, Targets[t]);
    }
    AggregateCategory(g, s);
  }

  lemma AggregateSeasonAge(g: seq<Merged>, req: int)
    requires |g| > 0
    requires forall m :: m in g ==> m.query.season == req && m.query.age.Some?
    ensures MeanPresent(Cells(g, SeasonCell)) == Some(req as real)
    ensures MeanPresent(Cells(g, AgeCell)).Some?
  {
    forall i | 0 <= i < |g| ensures g[i].query.season == req {
      assert g[i] in g;
    }
    MeanPresentConst(Cells(g, SeasonCell), req as real);
    var ages := Cells(g, AgeCell);
    assert g[0] in g;
    assert ages[0] == g[0].query.age;
  }

  lemma AggregateAverage(g: seq<Merged>, s: Summary, t: Target)
    requires |g| > 0
    requires forall m :: m in g ==> m.summary == Some(s)
    requires |s.avgs| == NumAverages
    ensures MeanPresent(Cells(g, AverageCell(t))) == Some(s.avgs[AverageIndex(t)])
  {
    var cs := Cells(g, AverageCell(t));
    forall i | 0 <= i < |g| ensures cs[i] == Some(s.avgs[AverageIndex(t)]) {
      assert g[i] in g;
    }
    MeanPresentConst(cs, s.avgs[AverageIndex(t)]);
  }

  lemma AggregateCategory(g: seq<Merged>, s: Summary)
    requires |g| > 0
    requires forall m :: m in g ==> m.summary == Some(s)
    ensures FirstPresent(Cells(g, CategoryCell)) == if s.cat.Some? then Some(CategoryName(s.cat.value)) else None
  {
    var cs := Cells(g, CategoryCell);
    forall i | 0 <= i < |g| ensures cs[i] == if s.cat.Some? then Some(CategoryName(s.cat.value)) else None {
      assert g[i] in g;
    }
    FirstPresentConst(cs, if s.cat.Some? then Some(CategoryName(s.cat.value)) else None);
  }

  /** The aggregated Age lies within any bounds every row's Age respects. */
  lemma AggregateAgeBounds(g: seq<Merged>, lo: real, hi: real)
    requires |g| > 0
    requires forall m :: m in g ==> m.query.age.Some? && lo <= m.query.age.value <= hi
    ensures Aggregate(g).numeric[1].Some? && lo <= Aggregate(g).numeric[1].value <= hi
  {
    forall i | 0 <= i < |g| ensures g[i].query.age.Some? && lo <= g[i].query.age.value <= hi {
      assert g[i] in g;
    }
    MeanPresentBounds(Cells(g, AgeCell), lo, hi);
  }

  /** The aggregated Pos is the Pos of a row of the group. */
  lemma AggregatePosition(g: seq<Merged>)
    requires |g| > 0
    requires forall m :: m in g ==> m.query.pos.Some?
    ensures exists m :: m in g && m.query.pos == Aggregate(g).categorical[1]
    ensures Aggregate(g).categorical[1].Some?
  {
    var cs := Cells(g, PositionCell);
    assert g[0] in g;
    assert cs[0].Some?;
    var i :| 0 <= i < |cs| && cs[i] == FirstPresent(cs) && forall j :: 0 <= j < i ==> cs[j].None?;
    assert g[i] in g;
  }

  /** Every player key of a successful merge has a non-empty group whose
      rows all ask for season `req` and matched that player's summary. */
  lemma GroupMatched(rows: seq<Record>, req: int, p: string)
    requires AllWellFormed(rows)
    requires Merge(rows, req).Ok? && p in MergedPlayers(Merge(rows, req).value)
    ensures GetRecentSeasons(rows, req, WindowSize).Ok?
    ensures var window := GetRecentSeasons(rows, req, WindowSize).value;
      && Lookup(window, p).Some?
      && |MergedGroup(Merge(rows, req).value, p)| > 0
      && forall m :: m in MergedGroup(Merge(rows, req).value, p) ==>
           m.query.player == p && MatchedRow(rows, req, window, m)
  {
    MergeSpec(rows, req);
    var ms := Merge(rows, req).value;
    var window := GetRecentSeasons(rows, req, WindowSize).value;
    var m :| m in ms && m.query.player == p;
    assert m in MergedGroup(ms, p);
    assert MatchedRow(rows, req, window, m);
  }

  /** The merged rows of a matched group, restated per field. */
  lemma MatchedFields(rows: seq<Record>, req: int, window: seq<Summary>, p: string, m: Merged)
    requires m.query.player == p && MatchedRow(rows, req, window, m)
    ensures m.query.season == req && m.query.age.Some? && m.query.pos.Some? && m.summary == Lookup(window, p)
    ensures exists r :: (r in rows && r.season == req - 1 && r.player == p
                         && m.query.age == Some(r.age as real + 1.0) && m.query.pos == Some(r.pos))
  {
    var r :| r in rows && r.season == req - 1 && m.query == ToQuery(r, req);
  }

  lemma AggregateFinite(g: seq<Merged>)
    requires MeanPresent(Cells(g, SeasonCell)).Some? && MeanPresent(Cells(g, AgeCell)).Some?
    requires forall t :: 0 <= t < |Targets| ==> AverageFeatures(g)[t].Some?
    ensures forall c :: 0 <= c < |Aggregate(g).numeric| ==> Aggregate(g).numeric[c].Some?
  {
    NumericCellsPresent(MeanPresent(Cells(g, SeasonCell)), MeanPresent(Cells(g, AgeCell)), AverageFeatures(g));
  }

  lemma NumericCellsPresent(season: Option<real>, age: Option<real>, avgs: seq<Option<real>>)
    requires season.Some? && age.Some?
    requires forall t :: 0 <= t < |avgs| ==> avgs[t].Some?
    ensures forall c :: 0 <= c < |[season, age] + avgs| ==> ([season, age] + avgs)[c].Some?
  {
  }

  /** The feature row of every player key has every numeric cell present. */
  lemma PlayerFeaturesFinite(rows: seq<Record>, req: int, p: string)
    requires AllWellFormed(rows)
    requires Merge(rows, req).Ok? && p in MergedPlayers(Merge(rows, req).value)
    ensures var f := Aggregate(MergedGroup(Merge(rows, req).value, p));
      forall c :: 0 <= c < |f.numeric| ==> f.numeric[c].Some?
  {
    GroupMatched(rows, req, p);
    var window := GetRecentSeasons(rows, req, WindowSize).value;
    var s := Lookup(window, p).value;
    var g := MergedGroup(Merge(rows, req).value, p);
    forall m | m in g ensures m.query.season == req && m.query.age.Some? && m.summary == Some(s) {
      MatchedFields(rows, req, window, p, m);
    }
    WindowSummaryWidth(rows, req, window, s);
    AggregateMatched(g, req, s);
    AggregateFinite(g);
  }

  /** Every cell of every feature row is present, so encoding succeeds. */
  lemma FeaturesFinite(rows: seq<Record>, req: int)
    requires AllWellFormed(rows)
    requires Merge(rows, req).Ok?
    ensures Finite(Features(Merge(rows, req).value, MergedPlayers(Merge(rows, req).value)))
  {
    var ms := Merge(rows, req).value;
    var ps := MergedPlayers(ms);
    var fs := Features(ms, ps);
    forall k, c | 0 <= k < |fs| && 0 <= c < |fs[k].numeric| ensures fs[k].numeric[c].Some? {
      assert ps[k] in ps;
      PlayerFeaturesFinite(rows, req, ps[k]);
    }
  }

  /** The batch is built exactly when season req - 1 has a row. */
  lemma PrepareBatchSpec(rows: seq<Record>, req: int)
    requires AllWellFormed(rows)
    ensures PrepareBatch(rows, req).Ok? <==> exists x :: x in rows && x.season == req - 1
    ensures (forall x :: x in rows ==> x.season != req - 1) ==>
      PrepareBatch(rows, req) == Err(CleaningFailed(DataProcessing.NoPositionMode))
  {
    MergeSpec(rows, req);
    if Merge(rows, req).Ok? {
      FeaturesFinite(rows, req);
    }
  }

  /** A built batch comes from a successful merge. */
  lemma BatchOfMerge(rows: seq<Record>, req: int)
    requires AllWellFormed(rows)
    requires PrepareBatch(rows, req).Ok?
    ensures Merge(rows, req).Ok?
    ensures PrepareBatch(rows, req).value.players == MergedPlayers(Merge(rows, req).value)
    ensures PrepareBatch(rows, req).value.features ==
      Features(Merge(rows, req).value, MergedPlayers(Merge(rows, req).value))
  {
  }

  /** The batch matrix is the `get_dummies(drop_first=True)` encoding of
      the aggregated feature rows, so `Encode`'s contract (seven numeric
      columns, then one indicator per kept category value, every cell that
      column's value for the player's row) describes it. */
  lemma BatchEncoded(rows: seq<Record>, req: int)
    requires AllWellFormed(rows)
    requires PrepareBatch(rows, req).Ok?
    ensures var b := PrepareBatch(rows, req).value;
      && Shaped(b.features, |NumericFeatureColumns|, |CategoricalFeatureColumns|)
      && Encode(b.features, NumericFeatureColumns, CategoricalFeatureColumns) == Ok(b.matrix)
  {
    BatchOfMerge(rows, req);
    var ms := Merge(rows, req).value;
    var ps := MergedPlayers(ms);
    var fs := Features(ms, ps);
    var enc := Encode(fs, NumericFeatureColumns, CategoricalFeatureColumns);
    assert enc.Ok?;
    assert PrepareBatch(rows, req) == Ok(Batch(ps, fs, enc.value));
  }

  lemma TargetListed(t: Target)
    ensures t in Targets
  {
  }

  /** `load_predictions` succeeds exactly when season req - 1 has a row and
      every model file exists; with no such row it fails in `clean_data`
      (the mode of an empty Pos column). */
  lemma LoadPredictionsOutcome(rows: seq<Record>, req: int, available: Target -> bool,
                               predict: (Target, seq<int>) -> real)
    requires AllWellFormed(rows)
    ensures LoadPredictions(rows, req, available, predict).Ok? <==>
      (exists x :: x in rows && x.season == req - 1) && forall t: Target :: available(t)
    ensures (forall x :: x in rows ==> x.season != req - 1) ==>
      LoadPredictions(rows, req, available, predict) == Err(CleaningFailed(DataProcessing.NoPositionMode))
  {
    PrepareBatchSpec(rows, req);
    NoneMissing(available);
  }

  /** No target is reported missing exactly when every model exists. */
  lemma NoneMissing(available: Target -> bool)
    ensures FirstMissing(Targets, available).None? <==> forall t: Target :: available(t)
  {
    var missing := FirstMissing(Targets, available);
    if forall t: Target :: available(t) {
      assert missing.None?;
    } else {
      var t: Target :| !available(t);
      TargetListed(t);
      var k :| 0 <= k < |Targets| && Targets[k] == t;
      assert missing.Some?;
    }
  }

  /** With season req - 1 present, the first target in PTS, AST, TRB,
      STL, BLK order whose model is missing is the one reported. */
  lemma FirstMissingModelReported(rows: seq<Record>, req: int, available: Target -> bool,
                                  predict: (Target, seq<int>) -> real, k: nat)
    requires AllWellFormed(rows)
    requires exists x :: x in rows && x.season == req - 1
    requires k < |Targets| && !available(Targets[k])
    requires forall j :: 0 <= j < k ==> available(Targets[j])
    ensures LoadPredictions(rows, req, available, predict) == Err(MissingModel(Targets[k]))
  {
    PrepareBatchSpec(rows, req);
    FirstMissingIs(available, k);
  }

  lemma FirstMissingIs(available: Target -> bool, k: nat)
    requires k < |Targets| && !available(Targets[k])
    requires forall j :: 0 <= j < k ==> available(Targets[j])
    ensures FirstMissing(Targets, available) == Some(Targets[k])
  {
    var missing := FirstMissing(Targets, available);
    assert missing.Some?;
    var k' :| 0 <= k' < |Targets| && Targets[k'] == missing.value && !available(Targets[k'])
              && forall j :: 0 <= j < k' ==> available(Targets[j]);
    assert k' == k;
  }

  lemma PreviousSeasonMerged(rows: seq<Record>, req: int, window: seq<Summary>, x: Record)
    requires x in rows && x.season == req - 1
    ensures exists m :: m in LeftMerge(QueryRows(rows, req), window) && m.query.player == x.player
  {
    var prev := PreviousSeason(rows, req);
    var qs := QueryRows(rows, req);
    var ms := LeftMerge(qs, window);
    var i :| 0 <= i < |prev| && prev[i] == x;
    assert qs[i] == ToQuery(x, req);
    assert ms[i].query == qs[i];
    assert ms[i] in ms;
  }

  /** A player key of the batch has a prev-season row, and every prev-season
      player is a key. */
  lemma BatchPlayersExact(rows: seq<Record>, req: int, p: string)
    requires AllWellFormed(rows)
    requires Merge(rows, req).Ok?
    ensures p in MergedPlayers(Merge(rows, req).value) <==>
      exists x :: x in rows && x.season == req - 1 && x.player == p
  {
    MergeSpec(rows, req);
    var ms := Merge(rows, req).value;
    var window := GetRecentSeasons(rows, req, WindowSize).value;
    if p in MergedPlayers(ms) {
      var m :| m in ms && m.query.player == p;
      MatchedFields(rows, req, window, p, m);
    }
    if exists x :: x in rows && x.season == req - 1 && x.player == p {
      var x :| x in rows && x.season == req - 1 && x.player == p;
      MergeOk(rows, req);
      PreviousSeasonMerged(rows, req, window, x);
    }
  }

  /** The k-th feature row of the batch aggregates the merged group of the
      k-th player, whose rows all ask for season `req`, carry an Age and a
      Pos, and matched the player's window summary. */
  lemma BatchGroup(rows: seq<Record>, req: int, k: nat)
    requires AllWellFormed(rows)
    requires PrepareBatch(rows, req).Ok? && k < |PrepareBatch(rows, req).value.players|
    ensures GetRecentSeasons(rows, req, WindowSize).Ok?
    ensures var b := PrepareBatch(rows, req).value;
      var window := GetRecentSeasons(rows, req, WindowSize).value;
      var g := MergedGroup(Merge(rows, req).value, b.players[k]);
      && Lookup(window, b.players[k]).Some?
      && b.features[k] == Aggregate(g) && |g| > 0
      && forall m :: m in g ==> MatchedRow(rows, req, window, m) && m.query.player == b.players[k]
  {
    BatchOfMerge(rows, req);
    var b := PrepareBatch(rows, req).value;
    var p := b.players[k];
    assert p in MergedPlayers(Merge(rows, req).value);
    GroupMatched(rows, req, p);
  }

  /** Every player of the batch is asked about season `req`. */
  lemma BatchRowSeason(rows: seq<Record>, req: int, k: nat)
    requires AllWellFormed(rows)
    requires PrepareBatch(rows, req).Ok? && k < |PrepareBatch(rows, req).value.players|
    ensures PrepareBatch(rows, req).value.features[k].numeric[0] == Some(req as real)
  {
    BatchGroup(rows, req, k);
    var b := PrepareBatch(rows, req).value;
    var window := GetRecentSeasons(rows, req, WindowSize).value;
    var g := MergedGroup(Merge(rows, req).value, b.players[k]);
    forall m | m in g ensures m.query.season == req && m.query.age.Some? {
      MatchedFields(rows, req, window, b.players[k], m);
    }
    AggregateSeasonAge(g, req);
  }

  /** The five `pl_avg` features and the Age_Category of the k-th player
      are those of the player's row among the inference window summaries
      (which GetRecentSeasonsSpec describes). */
  lemma BatchRowWindow(rows: seq<Record>, req: int, k: nat)
    requires AllWellFormed(rows)
    requires PrepareBatch(rows, req).Ok? && k < |PrepareBatch(rows, req).value.players|
    ensures GetRecentSeasons(rows, req, WindowSize).Ok?
    ensures var b := PrepareBatch(rows, req).value;
      exists s: Summary :: s.player == b.players[k] && s in GetRecentSeasons(rows, req, WindowSize).value
        && FromSummary(b.features[k], s)
  {
    BatchGroup(rows, req, k);
    var b := PrepareBatch(rows, req).value;
    var p := b.players[k];
    var window := GetRecentSeasons(rows, req, WindowSize).value;
    var s := Lookup(window, p).value;
    var g := MergedGroup(Merge(rows, req).value, p);
    forall m | m in g ensures m.summary == Some(s) {
      MatchedFields(rows, req, window, p, m);
    }
    WindowSummaryWidth(rows, req, window, s);
    GroupFeatures(g, s, b.features[k]);
  }

  /** f carries the window summary s: its five `pl_avg` features are the
      averages s holds for the targets and its Age_Category is s's. */
  ghost predicate FromSummary(f: FeatureRow, s: Summary) {
    && |f.numeric| == |NumericFeatureColumns| && |f.categorical| == |CategoricalFeatureColumns|
    && |s.avgs| == NumAverages
    && (forall t :: 0 <= t < |Targets| ==> f.numeric[t + 2] == Some(s.avgs[AverageIndex(Targets[t])]))
    && f.categorical[0] == if s.cat.Some? then Some(CategoryName(s.cat.value)) else None
  }

  lemma GroupFeatures(g: seq<Merged>, s: Summary, f: FeatureRow)
    requires |g| > 0 && f == Aggregate(g)
    requires forall m :: m in g ==> m.summary == Some(s)
    requires |s.avgs| == NumAverages
    ensures FromSummary(f, s)
  {
    forall t | 0 <= t < |Targets| ensures f.numeric[t + 2] == Some(s.avgs[AverageIndex(Targets[t])]) {
      assert f.numeric[t + 2] == AverageFeatures(g)[t];
      AggregateAverage(g, s, Targets[t]);
    }
    AggregateCategory(g, s);
  }

  /** The Pos of the k-th player is the Pos of one of their season req - 1
      rows. */
  lemma BatchRowPosition(rows: seq<Record>, req: int, k: nat)
    requires AllWellFormed(rows)
    requires PrepareBatch(rows, req).Ok? && k < |PrepareBatch(rows, req).value.players|
    ensures var b := PrepareBatch(rows, req).value;
      exists x: Record :: x in rows && x.season == req - 1 && x.player == b.players[k]
        && b.features[k].categorical[1] == Some(x.pos)
  {
    BatchGroup(rows, req, k);
    var b := PrepareBatch(rows, req).value;
    var p := b.players[k];
    var window := GetRecentSeasons(rows, req, WindowSize).value;
    var g := MergedGroup(Merge(rows, req).value, p);
    forall m | m in g ensures m.query.pos.Some? {
      MatchedFields(rows, req, window, p, m);
    }
    AggregatePosition(g);
    var m :| m in g && m.query.pos == b.features[k].categorical[1];
    MatchedFields(rows, req, window, p, m);
  }

  /** The Age feature of the k-th player lies within the bounds of their
      season req - 1 ages, one year on. */
  lemma BatchRowAge(rows: seq<Record>, req: int, k: nat, lo: int, hi: int)
    requires AllWellFormed(rows)
    requires PrepareBatch(rows, req).Ok? && k < |PrepareBatch(rows, req).value.players|
    requires forall x :: x in rows && x.season == req - 1 && x.player == PrepareBatch(rows, req).value.players[k] ==>
      lo <= x.age <= hi
    ensures var f := PrepareBatch(rows, req).value.features[k];
      f.numeric[1].Some? && (lo + 1) as real <= f.numeric[1].value <= (hi + 1) as real
  {
    BatchGroup(rows, req, k);
    var b := PrepareBatch(rows, req).value;
    var p := b.players[k];
    var window := GetRecentSeasons(rows, req, WindowSize).value;
    var g := MergedGroup(Merge(rows, req).value, p);
    forall m | m in g ensures m.query.age.Some? && (lo + 1) as real <= m.query.age.value <= (hi + 1) as real {
      MatchedFields(rows, req, window, p, m);
    }
    AggregateAgeBounds(g, (lo + 1) as real, (hi + 1) as real);
  }

  /** A successful `load_predictions` composes row k from the k-th player
      of the batch. */
  lemma OutputRow(rows: seq<Record>, req: int, available: Target -> bool,
                  predict: (Target, seq<int>) -> real, k: nat)
    requires AllWellFormed(rows)
    requires LoadPredictions(rows, req, available, predict).Ok?
    requires k < |LoadPredictions(rows, req, available, predict).value|
    ensures PrepareBatch(rows, req).Ok?
    ensures var b := PrepareBatch(rows, req).value;
      && |LoadPredictions(rows, req, available, predict).value| == |b.players|
      && LoadPredictions(rows, req, available, predict).value[k] ==
           Compose(b.players[k], b.features[k], b.matrix.cells[k], predict)
  {
    var b := PrepareBatch(rows, req).value;
    assert LoadPredictions(rows, req, available, predict) == Ok(ComposeAll(b, predict));
  }

  lemma TruncWithin(x: real, lo: int, hi: int)
    requires lo as real <= x <= hi as real
    ensures lo <= Trunc(x) <= hi
  {
  }

  function PredictionPlayers(out: seq<Prediction>): (ps: seq<string>)
    ensures |ps| == |out| && forall k :: 0 <= k < |out| ==> ps[k] == out[k].player
  {
    seq(|out|, k requires 0 <= k < |out| => out[k].player)
  }

  lemma PredictionPlayersOfBatch(rows: seq<Record>, req: int, available: Target -> bool,
                                 predict: (Target, seq<int>) -> real)
    requires AllWellFormed(rows)
    requires LoadPredictions(rows, req, available, predict).Ok?
    ensures PrepareBatch(rows, req).Ok? && Merge(rows, req).Ok?
    ensures PredictionPlayers(LoadPredictions(rows, req, available, predict).value) ==
      MergedPlayers(Merge(rows, req).value)
  {
    BatchOfMerge(rows, req);
    LoadPredictionsComposed(rows, req, available, predict);
    ComposeAllPlayers(PrepareBatch(rows, req).value, predict);
  }

  lemma LoadPredictionsComposed(rows: seq<Record>, req: int, available: Target -> bool,
                                predict: (Target, seq<int>) -> real)
    requires AllWellFormed(rows)
    requires LoadPredictions(rows, req, available, predict).Ok?
    ensures PrepareBatch(rows, req).Ok?
    ensures LoadPredictions(rows, req, available, predict) ==
      Ok(ComposeAll(PrepareBatch(rows, req).value, predict))
  {
  }

  lemma ComposeAllPlayers(b: Batch, predict: (Target, seq<int>) -> real)
    requires Ready(b)
    ensures PredictionPlayers(ComposeAll(b, predict)) == b.players
  {
  }

  /** A successful `load_predictions` has one row per player with a season
      req - 1 row, in strictly ascending player order. */
  lemma PredictionPlayersExact(rows: seq<Record>, req: int, available: Target -> bool,
                               predict: (Target, seq<int>) -> real)
    requires AllWellFormed(rows)
    requires LoadPredictions(rows, req, available, predict).Ok?
    ensures var ps := PredictionPlayers(LoadPredictions(rows, req, available, predict).value);
      && (forall p :: p in ps <==> exists x :: x in rows && x.season == req - 1 && x.player == p)
      && (forall i, j :: 0 <= i < j < |ps| ==> Lex.Less(ps[i], ps[j]))
  {
    PredictionPlayersOfBatch(rows, req, available, predict);
    var ms := Merge(rows, req).value;
    var ps := MergedPlayers(ms);
    forall p ensures p in ps <==> exists x :: x in rows && x.season == req - 1 && x.player == p {
      BatchPlayersExact(rows, req, p);
    }
    MergedPlayersSorted(ms);
    forall i, j | 0 <= i < j < |ps| ensures Lex.Less(ps[i], ps[j]) {
      assert Lex.LessEq(ps[i], ps[j]);
      assert ps[i] != ps[j];
    }
  }

  /** Row k of a successful `load_predictions` is for the requested season
      and holds the five values the models give on the player's encoded
      row, in target order. */
  lemma PredictionRow(rows: seq<Record>, req: int, available: Target -> bool,
                      predict: (Target, seq<int>) -> real, k: nat)
    requires AllWellFormed(rows)
    requires LoadPredictions(rows, req, available, predict).Ok?
    requires k < |LoadPredictions(rows, req, available, predict).value|
    ensures PrepareBatch(rows, req).Ok?
    ensures var out := LoadPredictions(rows, req, available, predict).value;
      && out[k].season == req
      && |out[k].values| == |Targets|
      && forall t :: 0 <= t < |Targets| ==>
           out[k].values[t] == predict(Targets[t], PrepareBatch(rows, req).value.matrix.cells[k])
  {
    OutputRow(rows, req, available, predict, k);
    BatchRowSeason(rows, req, k);
    TruncWithin(req as real, req, req);
  }

  /** A predicted Age is the player's season req - 1 Age plus one, or lies
      between the least and the greatest of them plus one when the player
      has several such rows. */
  lemma PredictedAge(rows: seq<Record>, req: int, available: Target -> bool,
                     predict: (Target, seq<int>) -> real, k: nat, lo: int, hi: int)
    requires AllWellFormed(rows)
    requires LoadPredictions(rows, req, available, predict).Ok?
    requires k < |LoadPredictions(rows, req, available, predict).value|
    requires forall x :: (x in rows && x.season == req - 1
                          && x.player == LoadPredictions(rows, req, available, predict).value[k].player) ==> lo <= x.age <= hi
    ensures lo + 1 <= LoadPredictions(rows, req, available, predict).value[k].age <= hi + 1
  {
    OutputRow(rows, req, available, predict, k);
    BatchRowAge(rows, req, k, lo, hi);
    var f := PrepareBatch(rows, req).value.features[k];
    TruncWithin(f.numeric[1].value, lo + 1, hi + 1);
  }

  /** A predicted Pos is the Pos of one of the player's season req - 1
      rows. */
  lemma PredictedPosition(rows: seq<Record>, req: int, available: Target -> bool,
                          predict: (Target, seq<int>) -> real, k: nat)
    requires AllWellFormed(rows)
    requires LoadPredictions(rows, req, available, predict).Ok?
    requires k < |LoadPredictions(rows, req, available, predict).value|
    ensures var out := LoadPredictions(rows, req, available, predict).value;
      exists x: Record :: x in rows && x.season == req - 1 && x.player == out[k].player && out[k].pos == x.pos
  {
    OutputRow(rows, req, available, predict, k);
    BatchRowPosition(rows, req, k);
  }
}
