/** Consolidation of the scraped per-game tables: one row per (Player,
    Season) with G summed, Age and every stat averaged, and Pos taken from
    the row with the most games; "League Average" rows are dropped before
    the table is saved. Fetching and parsing the pages are not modelled: a
    page is given as its parsed table, or as missing when the request
    failed. */
module DataScraping {
  import opened Wrappers
  import opened Records
  import opened Seqs
  import Imputation
  import Lex

  /** One row of a season's per-game table, reduced to the kept columns
      (Team is kept but not aggregated). */
  datatype TableRow = TableRow(
    player: string,
    age: Option<real>,
    team: string,
    pos: Option<string>,
    g: Option<int>,
    stats: seq<Option<real>>)

  /** A season's page: its table, or None when the request did not return
      status 200. */
  datatype SeasonPage = SeasonPage(season: int, table: Option<seq<TableRow>>)

  /** A table row tagged with its season. */
  datatype ScrapedRow = ScrapedRow(season: int, row: TableRow)

  datatype ScrapeError = NoTables   // `pd.concat([])`: every request failed

  const LeagueAverage: string := "League Average"

  // ---------------------------------------------------------------------
  // get_position

  /** `season_data['G'].max()`, skipping missing cells. */
  function MaxGames(rows: seq<ScrapedRow>): (m: Option<int>)
    ensures m.None? <==> forall i :: 0 <= i < |rows| ==> rows[i].row.g.None?
    ensures m.Some? ==> exists i :: 0 <= i < |rows| && rows[i].row.g == m
    ensures m.Some? ==> forall i :: 0 <= i < |rows| && rows[i].row.g.Some? ==> rows[i].row.g.value <= m.value
  {
    if rows == [] then None
    else
      var rest := MaxGames(rows[1..]);
      assert forall i :: 1 <= i < |rows| ==> rows[i] == rows[1..][i - 1];
      if rows[0].row.g.None? then rest
      else if rest.None? || rest.value <= rows[0].row.g.value then rows[0].row.g
      else rest
  }

  /** The Pos of the first row with `g` games. */
  function FirstPosWithGames(rows: seq<ScrapedRow>, g: int): (p: Option<string>)
  {
    if rows == [] then None
    else if rows[0].row.g == Some(g) then rows[0].row.pos
    else FirstPosWithGames(rows[1..], g)
  }

  /** Row i is the first row (in row order) whose G is the group's maximum. */
  ghost predicate FirstMostGames(rows: seq<ScrapedRow>, i: nat) {
    && i < |rows|
    && rows[i].row.g.Some?
    && (forall j :: 0 <= j < |rows| && rows[j].row.g.Some? ==> rows[j].row.g.value <= rows[i].row.g.value)
    && (forall j :: 0 <= j < i ==> rows[j].row.g != rows[i].row.g)
  }

  /** `get_position(season_data)`. */
  function GetPosition(rows: seq<ScrapedRow>): (p: Option<string>)
  {
    var m := MaxGames(rows);
    if m.None? then None else FirstPosWithGames(rows, m.value)
  }

  lemma {:induction false} FirstPosWithGamesAt(rows: seq<ScrapedRow>, g: int, i: nat)
    requires i < |rows| && rows[i].row.g == Some(g)
    requires forall j :: 0 <= j < i ==> rows[j].row.g != Some(g)
    ensures FirstPosWithGames(rows, g) == rows[i].row.pos
    decreases i
  {
    if i > 0 {
      FirstPosWithGamesAt(rows[1..], g, i - 1);
    }
  }

  /** `get_position` returns the Pos of the first row with the most games,
      and None (NaN) when no row has a G value, an empty group included. */
  lemma GetPositionSpec(rows: seq<ScrapedRow>)
    ensures (forall i :: 0 <= i < |rows| ==> rows[i].row.g.None?) ==> GetPosition(rows).None?
    ensures forall i: nat :: FirstMostGames(rows, i) ==> GetPosition(rows) == rows[i].row.pos
    ensures (exists i :: 0 <= i < |rows| && rows[i].row.g.Some?) ==> exists i :: FirstMostGames(rows, i)
  {
    forall i: nat | FirstMostGames(rows, i) ensures GetPosition(rows) == rows[i].row.pos {
      var m := MaxGames(rows).value;
      var k :| 0 <= k < |rows| && rows[k].row.g == Some(m);
      assert rows[i].row.g.value == m;
      FirstPosWithGamesAt(rows, m, i);
    }
    if exists i :: 0 <= i < |rows| && rows[i].row.g.Some? {
      var m := MaxGames(rows).value;
      var i := FirstWith(rows, m);
      assert FirstMostGames(rows, i);
    }
  }

  /** The first index whose G is `g`, given that one exists. */
  function FirstWith(rows: seq<ScrapedRow>, g: int): (i: nat)
    requires exists k :: 0 <= k < |rows| && rows[k].row.g == Some(g)
    ensures i < |rows| && rows[i].row.g == Some(g)
    ensures forall j :: 0 <= j < i ==> rows[j].row.g != Some(g)
  {
    if rows[0].row.g == Some(g) then 0
    else
      assert exists k :: 0 <= k < |rows[1..]| && rows[1..][k].row.g == Some(g) by {
        var k :| 0 <= k < |rows| && rows[k].row.g == Some(g);
        assert rows[1..][k - 1] == rows[k];
      }
      1 + FirstWith(rows[1..], g)
  }

  // ---------------------------------------------------------------------
  // groupby(['Player', 'Season']).agg(...)

  datatype Key = Key(player: string, season: int)

  /** Group key order: by Player, then by Season. */
  predicate KeyLe(a: Key, b: Key) {
    Lex.Less(a.player, b.player) || (a.player == b.player && a.season <= b.season)
  }

  lemma KeyOrder()
    ensures TotalPreorder(KeyLe) && Antisymmetric(KeyLe)
  {
    forall a: Key, b: Key ensures KeyLe(a, b) || KeyLe(b, a) {
      Lex.Trichotomy(a.player, b.player);
    }
    forall a: Key, b: Key, c: Key | KeyLe(a, b) && KeyLe(b, c) ensures KeyLe(a, c) {
      if Lex.Less(a.player, b.player) && Lex.Less(b.player, c.player) {
        Lex.Transitive(a.player, b.player, c.player);
      }
    }
    forall a: Key, b: Key | KeyLe(a, b) && KeyLe(b, a) ensures a == b {
      if Lex.Less(a.player, b.player) {
        Lex.Asymmetric(a.player, b.player);
      } else if Lex.Less(b.player, a.player) {
        Lex.Asymmetric(b.player, a.player);
      }
    }
  }

  function KeyOf(r: ScrapedRow): Key {
    Key(r.row.player, r.season)
  }

  function RowKeys(rows: seq<ScrapedRow>): (ks: seq<Key>)
    ensures |ks| == |rows| && forall i :: 0 <= i < |rows| ==> ks[i] == KeyOf(rows[i])
  {
    seq(|rows|, i requires 0 <= i < |rows| => KeyOf(rows[i]))
  }

  /** The group keys: distinct (Player, Season) pairs, ascending. */
  function Keys(rows: seq<ScrapedRow>): (ks: seq<Key>)
    ensures Distinct(ks)
    ensures forall k :: k in ks <==> exists i :: 0 <= i < |rows| && KeyOf(rows[i]) == k
  {
    SortedKeys(RowKeys(rows), KeyLe)
  }

  function HasKey(k: Key): ScrapedRow -> bool {
    (r: ScrapedRow) => KeyOf(r) == k
  }

  /** The rows of one player-season, in row order. */
  function Group(rows: seq<ScrapedRow>, k: Key): (g: seq<ScrapedRow>)
    ensures forall r :: r in g <==> r in rows && KeyOf(r) == k
  {
    Filter(rows, HasKey(k))
  }

  function Games(g: seq<ScrapedRow>): (gs: seq<Option<int>>)
    ensures |gs| == |g| && forall i :: 0 <= i < |g| ==> gs[i] == g[i].row.g
  {
    seq(|g|, i requires 0 <= i < |g| => g[i].row.g)
  }

  function AgeCells(g: seq<ScrapedRow>): (xs: seq<Option<real>>)
    ensures |xs| == |g| && forall i :: 0 <= i < |g| ==> xs[i] == g[i].row.age
  {
    seq(|g|, i requires 0 <= i < |g| => g[i].row.age)
  }

  /** Column s of the stats, NaN where a row has no such cell. */
  function StatCells(g: seq<ScrapedRow>, s: nat): (xs: seq<Option<real>>)
    ensures |xs| == |g|
    ensures forall i :: 0 <= i < |g| ==> xs[i] == if s < |g[i].row.stats| then g[i].row.stats[s] else None
  {
    seq(|g|, i requires 0 <= i < |g| => if s < |g[i].row.stats| then g[i].row.stats[s] else None)
  }

  function IntSum(xs: seq<int>): int
    decreases |xs|
  {
    if xs == [] then 0 else IntSum(xs[..|xs| - 1]) + xs[|xs| - 1]
  }

  /** `'G': 'sum'`, skipping missing cells (an all-missing column sums
      to 0). */
  function TotalGames(gs: seq<Option<int>>): int {
    IntSum(Imputation.Present(gs))
  }

  /** One output row: the group's key, summed G, averaged Age and stats,
      and the Pos chosen by `get_position`. */
  function Consolidated(k: Key, g: seq<ScrapedRow>): (r: RawRecord)
    ensures r.player == k.player && r.season == k.season && |r.stats| == NumStats
  {
    RawRecord(
      k.player,
      k.season,
      Imputation.MeanPresent(AgeCells(g)),
      GetPosition(g),
      Some(TotalGames(Games(g))),
      seq(NumStats, s requires 0 <= s < NumStats => Imputation.MeanPresent(StatCells(g, s))))
  }

  function KeyOfRecord(r: RawRecord): Key {
    Key(r.player, r.season)
  }

  /** `groupby(['Player', 'Season']).agg(...)` with the `get_position`
      column: one row per group key, in key order. */
  function Consolidate(rows: seq<ScrapedRow>): (out: seq<RawRecord>)
    ensures |out| == |Keys(rows)|
    ensures forall k :: 0 <= k < |out| ==> out[k] == Consolidated(Keys(rows)[k], Group(rows, Keys(rows)[k]))
  {
    var ks := Keys(rows);
    seq(|ks|, k requires 0 <= k < |ks| => Consolidated(ks[k], Group(rows, ks[k])))
  }

  function NotLeagueAverage(r: RawRecord): bool {
    r.player != LeagueAverage
  }

  /** The `player_stats['Player'] != 'League Average'` filter: the
      summary rows are removed. */
  function DropLeagueAverage(rows: seq<RawRecord>): (out: seq<RawRecord>)
    ensures forall r :: r in out <==> r in rows && r.player != LeagueAverage
  {
    Filter(rows, NotLeagueAverage)
  }

  /** The rows of every fetched page, each tagged with its page's season. */
  function Stack(pages: seq<SeasonPage>): (rows: seq<ScrapedRow>)
    ensures forall r :: r in rows <==>
      exists p :: p in pages && p.table.Some? && r.season == p.season && r.row in p.table.value
    decreases |pages|
  {
    if pages == [] then []
    else
      var p := pages[0];
      var here := if p.table.Some? then Tag(p.season, p.table.value) else [];
      assert forall q :: q in pages <==> q == p || q in pages[1..] by {
        assert pages == [p] + pages[1..];
      }
      here + Stack(pages[1..])
  }

  function Tag(season: int, table: seq<TableRow>): (rows: seq<ScrapedRow>)
    ensures forall r :: r in rows <==> r.season == season && r.row in table
  {
    var rows := seq(|table|, i requires 0 <= i < |table| => ScrapedRow(season, table[i]));
    assert forall r :: r in rows <==> r.season == season && r.row in table by {
      forall r ensures r in rows <==> r.season == season && r.row in table {
        if r.season == season && r.row in table {
          var i :| 0 <= i < |table| && table[i] == r.row;
          assert rows[i] == r;
        }
      }
    }
    rows
  }

  /** `scrape_player_stats(seasons)` followed by the `'League Average'` filter. */
  function PlayerStats(pages: seq<SeasonPage>): (r: Result<seq<RawRecord>, ScrapeError>)
  {
    if forall i :: 0 <= i < |pages| ==> pages[i].table.None? then Err(NoTables)
    else Ok(DropLeagueAverage(Consolidate(Stack(pages))))
  }

  // ---------------------------------------------------------------------
  // Properties

  function RecordKeys(out: seq<RawRecord>): (ks: seq<Key>)
    ensures |ks| == |out| && forall i :: 0 <= i < |out| ==> ks[i] == KeyOfRecord(out[i])
  {
    seq(|out|, i requires 0 <= i < |out| => KeyOfRecord(out[i]))
  }

  /** Consolidated rows have distinct (Player, Season) pairs, exactly the
      pairs met in the scraped rows, in ascending order. */
  lemma ConsolidateKeys(rows: seq<ScrapedRow>)
    ensures var ks := RecordKeys(Consolidate(rows));
      && Distinct(ks)
      && (forall k :: k in ks <==> k in RowKeys(rows))
      && SortedBy(KeyLe, ks)
  {
    var ks := RecordKeys(Consolidate(rows));
    assert ks == Keys(rows);
    KeyOrder();
    SortedKeysSorted(RowKeys(rows), KeyLe);
  }

  /** Row k of the consolidated table is built from exactly the scraped
      rows of its own player-season, of which there is at least one. */
  lemma ConsolidateRow(rows: seq<ScrapedRow>, k: nat)
    requires k < |Consolidate(rows)|
    ensures var o := Consolidate(rows)[k];
      var g := Group(rows, KeyOfRecord(o));
      && g != []
      && o == Consolidated(KeyOfRecord(o), g)
  {
    var ks := Keys(rows);
    var key := ks[k];
    assert KeyOfRecord(Consolidate(rows)[k]) == key;
    assert key in ks;
    var i :| 0 <= i < |rows| && KeyOf(rows[i]) == key;
    assert rows[i] in Group(rows, key);
  }

  lemma SingleGames(r: ScrapedRow)
    ensures TotalGames(Games([r])) == if r.row.g.Some? then r.row.g.value else 0
  {
    assert Games([r]) == [r.row.g];
    assert [r.row.g][..0] == [];
    var present := Imputation.Present([r.row.g]);
    assert present == if r.row.g.Some? then [r.row.g.value] else [];
    if r.row.g.Some? {
      assert present[..|present| - 1] == [];
      assert IntSum(present) == IntSum([]) + r.row.g.value;
    }
  }

  lemma SingleMean(xs: seq<Option<real>>)
    requires |xs| == 1
    ensures Imputation.MeanPresent(xs) == xs[0]
  {
    if xs[0].Some? {
      Imputation.MeanPresentConst(xs, xs[0].value);
    }
  }

  lemma SinglePosition(r: ScrapedRow)
    ensures GetPosition([r]) == if r.row.g.Some? then r.row.pos else None
  {
    if r.row.g.Some? {
      assert FirstMostGames([r], 0);
    }
    GetPositionSpec([r]);
  }

  /** A player-season scraped once is copied through: its G (0 when
      missing), Age, stats and, when G is known, Pos are those of its
      single row. */
  lemma ConsolidateSingleRow(r: ScrapedRow)
    requires |r.row.stats| == NumStats
    ensures var o := Consolidated(KeyOf(r), [r]);
      && o.g == Some(if r.row.g.Some? then r.row.g.value else 0)
      && o.age == r.row.age
      && o.stats == r.row.stats
      && o.pos == (if r.row.g.Some? then r.row.pos else None)
  {
    var o := Consolidated(KeyOf(r), [r]);
    SingleGames(r);
    SingleMean(AgeCells([r]));
    forall s | 0 <= s < NumStats ensures o.stats[s] == r.row.stats[s] {
      SingleMean(StatCells([r], s));
    }
    SinglePosition(r);
  }

  /** The saved table has no "League Average" row and keeps every other
      consolidated row, in order. */
  lemma PlayerStatsSpec(pages: seq<SeasonPage>)
    ensures PlayerStats(pages).Err? <==> forall i :: 0 <= i < |pages| ==> pages[i].table.None?
    ensures PlayerStats(pages).Ok? ==>
      var out := PlayerStats(pages).value;
      && (forall r :: r in out ==> r.player != LeagueAverage)
      && (forall r :: r in Consolidate(Stack(pages)) && r.player != LeagueAverage ==> r in out)
  {
  }
}
