/** Record cleaning, age bucketing and new-player rows of the model-building
    stage: missing Pos filled with the batch mode, missing stats with 0,
    missing Age with the batch median, then Age truncated to an integer. */
module DataProcessing {
  import opened Wrappers
  import opened Records
  import opened Numbers
  import opened Imputation

  datatype CleanError =
    | NoPositionMode   // `mode()[0]` on a column with no present value
    | MissingGames     // `astype('int64')` on a missing G
    | NoAgeMedian      // `astype('int64')` on an Age the median could not fill

  function Positions(rows: seq<RawRecord>): (ps: seq<Option<string>>)
    ensures |ps| == |rows| && forall i :: 0 <= i < |rows| ==> ps[i] == rows[i].pos
  {
    seq(|rows|, i requires 0 <= i < |rows| => rows[i].pos)
  }

  function Ages(rows: seq<RawRecord>): (xs: seq<Option<real>>)
    ensures |xs| == |rows| && forall i :: 0 <= i < |rows| ==> xs[i] == rows[i].age
  {
    seq(|rows|, i requires 0 <= i < |rows| => rows[i].age)
  }

  /** out is raw cleaned: identity and G kept, a present Pos kept and a
      missing one replaced by the batch mode, a present Age truncated,
      present stats kept and missing stats zero. */
  ghost predicate CleanedFrom(raw: RawRecord, out: CleanRecord, positions: seq<string>) {
    && out.player == raw.player && out.season == raw.season
    && raw.g == Some(out.g)
    && (raw.pos.Some? ==> out.pos == raw.pos.value)
    && (raw.pos.None? ==> IsMode(positions, out.pos))
    && (raw.age.Some? ==> out.age == Trunc(raw.age.value))
    && |out.stats| == |raw.stats|
    && (forall k :: 0 <= k < |raw.stats| && raw.stats[k].Some? ==> out.stats[k] == raw.stats[k].value)
    && (forall k :: 0 <= k < |raw.stats| && raw.stats[k].None? ==> out.stats[k] == 0.0)
  }

  function FillRecord(r: RawRecord, positions: seq<string>, median: real): (out: CleanRecord)
    requires r.g.Some? && |positions| > 0
    ensures CleanedFrom(r, out, positions)
    ensures r.age.None? ==> out.age == Trunc(median)
  {
    CleanRecord(
      r.player, r.season,
      Trunc(r.age.GetOr(median)),
      r.pos.GetOr(Mode(positions)),
      r.g.value,
      seq(|r.stats|, k requires 0 <= k < |r.stats| => r.stats[k].GetOr(0.0)))
  }

  /** No row has a position, so the column has no mode. */
  predicate NoPositions(rows: seq<RawRecord>) {
    forall i :: 0 <= i < |rows| ==> rows[i].pos.None?
  }

  /** Some row has no games count. */
  predicate SomeGamesMissing(rows: seq<RawRecord>) {
    exists i :: 0 <= i < |rows| && rows[i].g.None?
  }

  /** No row has an age, so the column has no median. */
  predicate NoAges(rows: seq<RawRecord>) {
    forall i :: 0 <= i < |rows| ==> rows[i].age.None?
  }

  /** `clean_data` of the model-building stage. */
  function CleanData(rows: seq<RawRecord>): (r: Result<seq<CleanRecord>, CleanError>)
    ensures r == Err(NoPositionMode) <==> NoPositions(rows)
    ensures r == Err(MissingGames) <==> !NoPositions(rows) && SomeGamesMissing(rows)
    ensures r == Err(NoAgeMedian) <==> !NoPositions(rows) && !SomeGamesMissing(rows) && NoAges(rows)
    ensures r.Ok? ==> |r.value| == |rows|
    ensures r.Ok? ==> forall i :: 0 <= i < |rows| ==>
      CleanedFrom(rows[i], r.value[i], Present(Positions(rows)))
  {
    if NoPositions(rows) then Err(NoPositionMode)
    else if SomeGamesMissing(rows) then Err(MissingGames)
    else if NoAges(rows) then Err(NoAgeMedian)
    else
      var positions := Present(Positions(rows));
      var ages := Present(Ages(rows));
      assert |positions| > 0 && |ages| > 0;
      Ok(FillAll(rows, positions, Median(ages)))
  }

  function FillAll(rows: seq<RawRecord>, positions: seq<string>, median: real): (out: seq<CleanRecord>)
    requires forall i :: 0 <= i < |rows| ==> rows[i].g.Some?
    requires |positions| > 0
    ensures |out| == |rows|
    ensures forall i :: 0 <= i < |rows| ==> CleanedFrom(rows[i], out[i], positions)
    ensures forall i :: 0 <= i < |rows| && rows[i].age.None? ==> out[i].age == Trunc(median)
  {
    seq(|rows|, i requires 0 <= i < |rows| => FillRecord(rows[i], positions, median))
  }

  /** A missing Age is filled with the median of the batch's present ages
      before truncation. */
  lemma CleanDataFillsAgeWithMedian(rows: seq<RawRecord>, i: nat)
    requires CleanData(rows).Ok?
    requires i < |rows| && rows[i].age.None?
    ensures |Present(Ages(rows))| > 0
    ensures CleanData(rows).value[i].age == Trunc(Median(Present(Ages(rows))))
  {
  }

  /** Bin edges and labels of `get_age_cat`; bins are half-open [lo, hi). */
  const AgeBins: seq<int> := [0, 20, 25, 31, 35, 40]
  const AgeLabels: seq<Category> := [Premature, Young, Prime, Veteran, Old]

  /** `pd.cut(x, bins, labels, right=False)`: the label of the half-open bin
      holding x, or None (NaN) outside every bin. */
  function Cut<L>(x: int, bins: seq<int>, labels: seq<L>): (r: Option<L>)
    requires |bins| == |labels| + 1
    requires forall i, j :: 0 <= i < j < |bins| ==> bins[i] < bins[j]
    ensures r.Some? <==> |labels| > 0 && bins[0] <= x < bins[|bins| - 1]
    ensures forall i :: 0 <= i < |labels| && bins[i] <= x < bins[i + 1] ==> r == Some(labels[i])
    decreases |labels|
  {
    if |labels| == 0 then None
    else if bins[0] <= x < bins[1] then Some(labels[0])
    else Cut(x, bins[1..], labels[1..])
  }

  function AgeCategory(age: int): (c: Option<Category>)
    ensures c == Some(Premature) <==> 0 <= age < 20
    ensures c == Some(Young) <==> 20 <= age < 25
    ensures c == Some(Prime) <==> 25 <= age < 31
    ensures c == Some(Veteran) <==> 31 <= age < 35
    ensures c == Some(Old) <==> 35 <= age < 40
    ensures c == None <==> age < 0 || 40 <= age
  {
    Cut(age, AgeBins, AgeLabels)
  }

  lemma AgeCategoryBoundaries()
    ensures AgeCategory(19) == Some(Premature)
    ensures AgeCategory(20) == Some(Young)
    ensures AgeCategory(25) == Some(Prime)
    ensures AgeCategory(31) == Some(Veteran)
    ensures AgeCategory(35) == Some(Old)
    ensures AgeCategory(39) == Some(Old)
    ensures AgeCategory(40) == None && AgeCategory(-1) == None
  {
  }

  /** `get_age_cat`: adds Age_Category to every cleaned row. */
  function GetAgeCat(rows: seq<CleanRecord>): (out: seq<Record>)
    ensures |out| == |rows|
    ensures forall i :: 0 <= i < |rows| ==>
      && out[i].player == rows[i].player && out[i].season == rows[i].season
      && out[i].age == rows[i].age && out[i].pos == rows[i].pos
      && out[i].g == rows[i].g && out[i].stats == rows[i].stats
      && out[i].cat == AgeCategory(rows[i].age)
  {
    seq(|rows|, i requires 0 <= i < |rows| =>
      var r := rows[i];
      Record(r.player, r.season, r.age, r.pos, r.g, r.stats, AgeCategory(r.age)))
  }

  /** `get_new_player_init`: a single row with the given identity and every
      stat zero; the frame has no G column. */
  function NewPlayerInit(name: string, age: int, pos: string, season: int): (rows: seq<RawRecord>)
    ensures |rows| == 1
    ensures rows[0].player == name && rows[0].season == season
    ensures rows[0].age == Some(age as real) && rows[0].pos == Some(pos)
    ensures rows[0].g.None?
    ensures |rows[0].stats| == NumStats
    ensures forall k :: 0 <= k < NumStats ==> rows[0].stats[k] == Some(0.0)
  {
    [RawRecord(name, season, Some(age as real), Some(pos), None, seq(NumStats, k => Some(0.0)))]
  }

  /** Because the new-player frame lacks G, cleaning any batch it is
      appended to fails on the G cast. */
  lemma NewPlayerRowFailsCleaning(rows: seq<RawRecord>, name: string, age: int, pos: string, season: int)
    ensures CleanData(rows + NewPlayerInit(name, age, pos, season)) == Err(MissingGames)
  {
    var all := rows + NewPlayerInit(name, age, pos, season);
    assert all[|rows|].pos.Some? && all[|rows|].g.None?;
  }
}
