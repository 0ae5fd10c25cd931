/** `get_recent_seasons(df, target_season, n)` of the prediction stage:
    only rows with Season < target_season are eligible; each player's
    eligible rows are sorted by descending Season and `head(n)` keeps the
    min(n, k) MOST RECENT ones; the summary averages Season, Age, G and the
    stats over them and copies Age_Category from the most recent one. */
module InferenceWindow {
  import opened Wrappers
  import opened Records
  import opened Numbers
  import opened Seqs
  import opened TrainingWindow
  import Lex

  /** One player's window summary: `pl_avg_Season`, `pl_avg_Age`,
      `pl_avg_G` ... `pl_avg_FTA` and `Age_Category`; Pos is dropped. */
  datatype Summary = Summary(
    player: string,
    avgSeason: real,
    avgAge: real,
    avgs: seq<real>,
    cat: Option<Category>)

  function Before(target: int): Record -> bool {
    (r: Record) => r.season < target
  }

  /** `df[df['Season'] < target_season]`. */
  function Eligible(rows: seq<Record>, target: int): (el: seq<Record>)
    ensures forall r :: r in el <==> r in rows && r.season < target
  {
    Filter(rows, Before(target))
  }

  /** `sort_values('Season', ascending=False).head(n)`: the min(n, k) rows
      with the largest seasons; the first of them is a most recent row. */
  function RecentSeasons(group: seq<Record>, n: nat): (w: seq<Record>)
    ensures |w| == Min(n, |group|)
    ensures multiset(w) <= multiset(group)
    ensures forall x, y :: x in multiset(group) - multiset(w) && y in w ==> x.season <= y.season
  {
    var s := Sort(group, SeasonDesc);
    var j := Min(n, |s|);
    SeasonDescPreorder();
    SortSorted(group, SeasonDesc);
    SortedPrefixFirst(group, s, SeasonDesc, j);
    s[..j]
  }

  /** The first row of the window is a most recent row of the group. */
  lemma RecentSeasonsLatestFirst(group: seq<Record>, n: nat)
    requires |RecentSeasons(group, n)| > 0
    ensures forall x :: x in group ==> x.season <= RecentSeasons(group, n)[0].season
  {
    var s := Sort(group, SeasonDesc);
    SeasonDescPreorder();
    SortSorted(group, SeasonDesc);
    assert RecentSeasons(group, n)[0] == s[0];
    forall x | x in group ensures x.season <= s[0].season {
      assert x in multiset(group);
      assert x in s;
      HeadIsLeast(s, x, SeasonDesc);
    }
  }

  function SeasonsOf(w: seq<Record>): (xs: seq<real>)
    ensures |xs| == |w| && forall i :: 0 <= i < |w| ==> xs[i] == w[i].season as real
  {
    seq(|w|, i requires 0 <= i < |w| => w[i].season as real)
  }

  function AgesOf(w: seq<Record>): (xs: seq<real>)
    ensures |xs| == |w| && forall i :: 0 <= i < |w| ==> xs[i] == w[i].age as real
  {
    seq(|w|, i requires 0 <= i < |w| => w[i].age as real)
  }

  /** The window of player p for target season `target`. */
  function PlayerWindow(rows: seq<Record>, target: int, n: nat, p: string): (w: seq<Record>)
    requires AllWellFormed(rows)
    ensures AllWellFormed(w)
    ensures forall r :: r in w ==> r in rows && r.player == p && r.season < target
  {
    var w := RecentSeasons(PlayerRows(Eligible(rows, target), p), n);
    assert forall r :: r in w ==> r in multiset(PlayerRows(Eligible(rows, target), p));
    w
  }

  function Summarize(w: seq<Record>): (s: Summary)
    requires |w| > 0 && AllWellFormed(w)
  {
    Summary(w[0].player, Mean(SeasonsOf(w)), Mean(AgesOf(w)), Averages(w), w[0].cat)
  }

  lemma WindowNonEmpty(rows: seq<Record>, target: int, n: nat, p: string)
    requires AllWellFormed(rows) && n > 0
    requires p in Players(Eligible(rows, target))
    ensures |PlayerWindow(rows, target, n, p)| > 0
  {
    var el := Eligible(rows, target);
    var i :| 0 <= i < |el| && el[i].player == p;
    assert el[i] in PlayerRows(el, p);
  }

  function SummaryOf(rows: seq<Record>, target: int, n: nat, p: string): (s: Summary)
    requires AllWellFormed(rows) && n > 0
    requires p in Players(Eligible(rows, target))
    ensures s.player == p
  {
    WindowNonEmpty(rows, target, n, p);
    var w := PlayerWindow(rows, target, n, p);
    assert w[0] in w;
    Summarize(w)
  }

  function SummaryPlayers(out: seq<Summary>): (ps: seq<string>)
    ensures |ps| == |out| && forall k :: 0 <= k < |out| ==> ps[k] == out[k].player
  {
    seq(|out|, k requires 0 <= k < |out| => out[k].player)
  }

  /** `get_recent_seasons(df, target_season, n)`. */
  function GetRecentSeasons(rows: seq<Record>, target: int, n: nat): (r: Result<seq<Summary>, WindowError>)
    requires AllWellFormed(rows)
    ensures r == Err(NothingToConcatenate) <==> forall i :: 0 <= i < |rows| ==> rows[i].season >= target
    ensures r == Err(EmptyWindow) <==> n == 0 && exists i :: 0 <= i < |rows| && rows[i].season < target
    ensures r.Ok? ==> SummaryPlayers(r.value) == Players(Eligible(rows, target))
  {
    var el := Eligible(rows, target);
    if el == [] then
      assert forall i :: 0 <= i < |rows| ==> rows[i] in rows;
      Err(NothingToConcatenate)
    else if n == 0 then
      assert el[0] in rows;
      Err(EmptyWindow)
    else
      Ok(Summaries(rows, target, n, Players(el)))
  }

  function Summaries(rows: seq<Record>, target: int, n: nat, ps: seq<string>): (out: seq<Summary>)
    requires AllWellFormed(rows) && n > 0
    requires forall p :: p in ps ==> p in Players(Eligible(rows, target))
    ensures |out| == |ps|
    ensures forall k :: 0 <= k < |ps| ==> out[k] == SummaryOf(rows, target, n, ps[k])
    ensures SummaryPlayers(out) == ps
  {
    var out := seq(|ps|, k requires 0 <= k < |ps| => SummaryOf(rows, target, n, ps[k]));
    assert SummaryPlayers(out) == ps;
    out
  }

  /** What a summary states about its player: it averages exactly the
      min(n, k') most recent of the player's k' rows before the target
      season, and takes Age_Category from a most recent one. */
  ghost predicate SummarizesWindow(rows: seq<Record>, target: int, n: nat, s: Summary)
    requires AllWellFormed(rows)
  {
    var eligible := PlayerRows(Eligible(rows, target), s.player);
    var w := PlayerWindow(rows, target, n, s.player);
    && |w| == Min(n, |eligible|) && |w| > 0
    && multiset(w) <= multiset(eligible)
    && (forall x, y :: x in multiset(eligible) - multiset(w) && y in w ==> x.season <= y.season)
    && s.avgSeason == Mean(SeasonsOf(w))
    && s.avgAge == Mean(AgesOf(w))
    && s.avgs == Averages(w)
    && (exists r :: r in w && s.cat == r.cat
         && forall x :: x in rows && x.player == s.player && x.season < target ==> x.season <= r.season)
  }

  lemma SummaryPlayersExact(rows: seq<Record>, target: int, p: string)
    requires AllWellFormed(rows)
    ensures p in Players(Eligible(rows, target)) <==>
      exists i :: 0 <= i < |rows| && rows[i].player == p && rows[i].season < target
  {
    var el := Eligible(rows, target);
    if p in Players(el) {
      var i :| 0 <= i < |el| && el[i].player == p;
      assert el[i] in rows;
    }
    if exists i :: 0 <= i < |rows| && rows[i].player == p && rows[i].season < target {
      var i :| 0 <= i < |rows| && rows[i].player == p && rows[i].season < target;
      assert rows[i] in el;
    }
  }

  lemma SummaryOfSummarizes(rows: seq<Record>, target: int, n: nat, p: string)
    requires AllWellFormed(rows) && n > 0
    requires p in Players(Eligible(rows, target))
    ensures SummarizesWindow(rows, target, n, SummaryOf(rows, target, n, p))
  {
    var el := Eligible(rows, target);
    var group := PlayerRows(el, p);
    WindowNonEmpty(rows, target, n, p);
    var w := PlayerWindow(rows, target, n, p);
    var s := SummaryOf(rows, target, n, p);
    assert w == RecentSeasons(group, n);
    assert s == Summarize(w);
    RecentSeasonsLatestFirst(group, n);
    assert w[0] in w;
    forall x | x in rows && x.player == p && x.season < target ensures x.season <= w[0].season {
      assert x in group;
    }
    assert s.cat == w[0].cat;
  }

  /** The inference window's promises: one summary per player with a row
      before the target season, players strictly ascending, each summary
      built from that player's most recent eligible rows. */
  lemma GetRecentSeasonsSpec(rows: seq<Record>, target: int, n: nat)
    requires AllWellFormed(rows)
    ensures GetRecentSeasons(rows, target, n).Ok? ==>
      var out := GetRecentSeasons(rows, target, n).value;
      && (forall p :: p in SummaryPlayers(out) <==> exists i :: 0 <= i < |rows| && rows[i].player == p && rows[i].season < target)
      && (forall i, j :: 0 <= i < j < |out| ==> Lex.Less(out[i].player, out[j].player))
      && (forall k :: 0 <= k < |out| ==> SummarizesWindow(rows, target, n, out[k]))
  {
    var el := Eligible(rows, target);
    if GetRecentSeasons(rows, target, n).Ok? {
      var out := GetRecentSeasons(rows, target, n).value;
      var ps := Players(el);
      assert el != [] && n > 0;
      assert out == Summaries(rows, target, n, ps);
      forall p ensures p in ps <==> exists i :: 0 <= i < |rows| && rows[i].player == p && rows[i].season < target {
        SummaryPlayersExact(rows, target, p);
      }
      PlayersSorted(el);
      forall i, j | 0 <= i < j < |out| ensures Lex.Less(out[i].player, out[j].player) {
        assert out[i].player == ps[i] && out[j].player == ps[j];
        assert Lex.LessEq(ps[i], ps[j]);
      }
      forall k | 0 <= k < |out| ensures SummarizesWindow(rows, target, n, out[k]) {
        assert out[k] == SummaryOf(rows, target, n, ps[k]);
        SummaryOfSummarizes(rows, target, n, ps[k]);
      }
    }
  }
}
