/** The rows that flow through the pipeline, from the scraped per-game
    table to the stored player-season record, and the fixed column lists. */
module Records {
  import opened Wrappers
  import opened Numbers

  /** The per-game stat columns, in the order every stage lists them after G:
      MP, PTS, AST, TRB, STL, BLK, TOV, 3P, 3PA, 2P, 2PA, FT, FTA. */
  const StatColumns: seq<string> :=
    ["MP", "PTS", "AST", "TRB", "STL", "BLK", "TOV", "3P", "3PA", "2P", "2PA", "FT", "FTA"]
  const NumStats: nat := 13

  /** Width of the averaged numeric block: G followed by the 13 stats. */
  const NumAverages: nat := 14

  /** The five predicted statistics, in the order models are trained,
      loaded and reported. */
  datatype Target = TargetPTS | TargetAST | TargetTRB | TargetSTL | TargetBLK

  const Targets: seq<Target> := [TargetPTS, TargetAST, TargetTRB, TargetSTL, TargetBLK]

  function TargetName(t: Target): string {
    match t
    case TargetPTS => "PTS"
    case TargetAST => "AST"
    case TargetTRB => "TRB"
    case TargetSTL => "STL"
    case TargetBLK => "BLK"
  }

  /** Position of a target's column among StatColumns. */
  function StatIndex(t: Target): (k: nat)
    ensures k < NumStats && StatColumns[k] == TargetName(t)
  {
    match t
    case TargetPTS => 1
    case TargetAST => 2
    case TargetTRB => 3
    case TargetSTL => 4
    case TargetBLK => 5
  }

  /** The feature columns both the training and the prediction stage
      select, numeric ones first, then the two categorical ones. */
  const NumericFeatureColumns: seq<string> :=
    ["Season", "Age", "pl_avg_PTS", "pl_avg_AST", "pl_avg_TRB", "pl_avg_STL", "pl_avg_BLK"]
  const CategoricalFeatureColumns: seq<string> := ["Age_Category", "Pos"]

  /** The window size both stages use. */
  const WindowSize: nat := 3

  datatype Category = Premature | Young | Prime | Veteran | Old

  function CategoryName(c: Category): string {
    match c
    case Premature => "Premature"
    case Young => "Young"
    case Prime => "Prime"
    case Veteran => "Veteran"
    case Old => "Old"
  }

  /** A consolidated player-season row before cleaning: Pos, Age, G and any
      stat may be missing (NaN). */
  datatype RawRecord = RawRecord(
    player: string,
    season: int,
    age: Option<real>,
    pos: Option<string>,
    g: Option<int>,
    stats: seq<Option<real>>)

  /** A row after cleaning: every field present, Age and G integers. */
  datatype CleanRecord = CleanRecord(
    player: string,
    season: int,
    age: int,
    pos: string,
    g: int,
    stats: seq<real>)

  /** A stored row: a clean row with its Age_Category, None when the age
      falls in no bin. */
  datatype Record = Record(
    player: string,
    season: int,
    age: int,
    pos: string,
    g: int,
    stats: seq<real>,
    cat: Option<Category>)

  predicate WellFormed(r: Record) {
    |r.stats| == NumStats
  }

  predicate AllWellFormed(rows: seq<Record>) {
    forall r :: r in rows ==> WellFormed(r)
  }

  /** The numeric columns averaged besides Season and Age: G, then the stats. */
  function Numeric(r: Record): (v: seq<real>)
    requires WellFormed(r)
    ensures |v| == NumAverages
  {
    [r.g as real] + r.stats
  }

  function Numerics(rows: seq<Record>): (m: seq<seq<real>>)
    requires AllWellFormed(rows)
    ensures |m| == |rows|
    ensures forall i :: 0 <= i < |rows| ==> m[i] == Numeric(rows[i]) && |m[i]| == NumAverages
  {
    seq(|rows|, i requires 0 <= i < |rows| => Numeric(rows[i]))
  }

  /** Column-wise means of G and the stats over a non-empty set of rows,
      as `mean(numeric_only=True)` gives them once Season and Age are set
      aside. */
  function Averages(rows: seq<Record>): (avgs: seq<real>)
    requires |rows| > 0 && AllWellFormed(rows)
    ensures |avgs| == NumAverages
    ensures forall k :: 0 <= k < NumAverages ==> avgs[k] == Mean(Column(Numerics(rows), k))
  {
    ColumnMeans(Numerics(rows), NumAverages)
  }

  /** Position of a target's column in the averaged numeric block. */
  function AverageIndex(t: Target): (k: nat)
    ensures k < NumAverages
  {
    StatIndex(t) + 1
  }

  /** Predicted values for one player, as composed for the serving layer
      and shown by the predictions page. */
  datatype Prediction = Prediction(
    player: string,
    season: int,
    age: int,
    pos: string,
    values: seq<real>)
}
