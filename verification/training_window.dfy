/** `get_recent_seasons(df, n)` of the model-building stage. Each player's
    rows are sorted by descending Season and `tail(n)` is taken, so a player
    keeps the min(n, k) OLDEST of their k seasons; every kept row is then
    joined with the mean of G and the stats over those same kept rows, the
    row itself included. */
module TrainingWindow {
  import opened Wrappers
  import opened Records
  import opened Seqs
  import Lex

  /** A kept row with its `pl_avg_G`, `pl_avg_MP`, ..., `pl_avg_FTA`. */
  datatype TrainingRow = TrainingRow(rec: Record, avgs: seq<real>)

  datatype WindowError =
    | NothingToConcatenate   // `pd.concat([])`: no group produced a frame
    | EmptyWindow            // `.iloc[0]` on an empty `head(0)`

  predicate SeasonDesc(a: Record, b: Record) {
    a.season >= b.season
  }

  lemma SeasonDescPreorder()
    ensures TotalPreorder(SeasonDesc)
  {
  }

  function IsPlayer(p: string): Record -> bool {
    (r: Record) => r.player == p
  }

  /** The group of one player, in row order. */
  function PlayerRows(rows: seq<Record>, p: string): (g: seq<Record>)
    ensures forall r :: r in g <==> r in rows && r.player == p
  {
    Filter(rows, IsPlayer(p))
  }

  function PlayerNames(rows: seq<Record>): (ps: seq<string>)
    ensures |ps| == |rows| && forall i :: 0 <= i < |rows| ==> ps[i] == rows[i].player
  {
    seq(|rows|, i requires 0 <= i < |rows| => rows[i].player)
  }

  /** The group keys of `groupby('Player')`: distinct names, ascending. */
  function Players(rows: seq<Record>): (ps: seq<string>)
    ensures Distinct(ps)
    ensures forall p :: p in ps <==> exists i :: 0 <= i < |rows| && rows[i].player == p
  {
    SortedKeys(PlayerNames(rows), Lex.LessEq)
  }

  lemma PlayersSorted(rows: seq<Record>)
    ensures SortedBy(Lex.LessEq, Players(rows))
  {
    Lex.LessEqTotalOrder();
    SortedKeysSorted(PlayerNames(rows), Lex.LessEq);
  }

  function Min(a: nat, b: nat): nat {
    if a <= b then a else b
  }

  /** `sort_values('Season', ascending=False).tail(n)`: the min(n, k) rows
      with the smallest seasons; every row left out is at least as recent
      as every row kept. */
  function OldestSeasons(group: seq<Record>, n: nat): (w: seq<Record>)
    ensures |w| == Min(n, |group|)
    ensures multiset(w) <= multiset(group)
    ensures forall x, y :: x in multiset(group) - multiset(w) && y in w ==> y.season <= x.season
  {
    var s := Sort(group, SeasonDesc);
    var j := |s| - Min(n, |s|);
    SeasonDescPreorder();
    SortSorted(group, SeasonDesc);
    SortedSuffixLast(group, s, SeasonDesc, j);
    s[j..]
  }

  /** Joins every kept row with the averages over all kept rows. */
  function Annotate(w: seq<Record>): (out: seq<TrainingRow>)
    requires AllWellFormed(w)
    ensures |out| == |w|
    ensures forall i :: 0 <= i < |w| ==> out[i].rec == w[i] && out[i].avgs == Averages(w)
  {
    seq(|w|, i requires 0 <= i < |w| => TrainingRow(w[i], Averages(w)))
  }

  function Window(rows: seq<Record>, p: string, n: nat): (w: seq<Record>)
    requires AllWellFormed(rows)
    ensures AllWellFormed(w)
    ensures forall r :: r in w ==> r in rows && r.player == p
  {
    var w := OldestSeasons(PlayerRows(rows, p), n);
    assert forall r :: r in w ==> r in multiset(PlayerRows(rows, p));
    w
  }

  /** Every kept row is well formed and carries the 14 averages. */
  ghost predicate Annotated(out: seq<TrainingRow>) {
    forall i :: 0 <= i < |out| ==> WellFormed(out[i].rec) && |out[i].avgs| == NumAverages
  }

  function Blocks(rows: seq<Record>, ps: seq<string>, n: nat): (out: seq<TrainingRow>)
    requires AllWellFormed(rows)
    ensures Annotated(out)
  {
    if ps == [] then []
    else
      var head := Annotate(Window(rows, ps[0], n));
      var tail := Blocks(rows, ps[1..], n);
      AnnotateAnnotated(Window(rows, ps[0], n));
      AnnotatedConcat(head, tail);
      head + tail
  }

  lemma AnnotateAnnotated(w: seq<Record>)
    requires AllWellFormed(w)
    ensures Annotated(Annotate(w))
  {
    var out := Annotate(w);
    forall i | 0 <= i < |out| ensures WellFormed(out[i].rec) && |out[i].avgs| == NumAverages {
      assert out[i].rec == w[i] && w[i] in w;
    }
  }

  lemma AnnotatedConcat(a: seq<TrainingRow>, b: seq<TrainingRow>)
    requires Annotated(a) && Annotated(b)
    ensures Annotated(a + b)
  {
    forall i | 0 <= i < |a + b| ensures WellFormed((a + b)[i].rec) && |(a + b)[i].avgs| == NumAverages {
      if i >= |a| {
        assert (a + b)[i] == b[i - |a|];
      }
    }
  }

  /** `get_recent_seasons(df, n)`. */
  function GetRecentSeasons(rows: seq<Record>, n: nat): (r: Result<seq<TrainingRow>, WindowError>)
    requires AllWellFormed(rows)
    ensures r.Ok? ==> Annotated(r.value)
  {
    if rows == [] then Err(NothingToConcatenate) else Ok(Blocks(rows, Players(rows), n))
  }

  function OfPlayer(p: string): TrainingRow -> bool {
    (t: TrainingRow) => t.rec.player == p
  }

  /** Number of output rows belonging to player p. */
  function CountPlayer(out: seq<TrainingRow>, p: string): nat {
    |Filter(out, OfPlayer(p))|
  }

  lemma AnnotatePlayers(rows: seq<Record>, q: string, n: nat)
    requires AllWellFormed(rows)
    ensures forall o :: o in Annotate(Window(rows, q, n)) ==> o.rec.player == q
  {
    var w := Window(rows, q, n);
    var a := Annotate(w);
    forall o | o in a ensures o.rec.player == q {
      var i :| 0 <= i < |a| && a[i] == o;
      assert o.rec == w[i];
    }
  }

  lemma AnnotateCount(rows: seq<Record>, q: string, p: string, n: nat)
    requires AllWellFormed(rows)
    ensures CountPlayer(Annotate(Window(rows, q, n)), p) == if p == q then |Window(rows, q, n)| else 0
  {
    var a := Annotate(Window(rows, q, n));
    AnnotatePlayers(rows, q, n);
    if p != q {
      FilterNone(a, OfPlayer(p));
    } else {
      assert forall i :: 0 <= i < |a| ==> OfPlayer(p)(a[i]) by {
        forall i | 0 <= i < |a| ensures OfPlayer(p)(a[i]) {
          assert a[i] in a;
        }
      }
    }
  }

  lemma {:induction false} BlocksCount(rows: seq<Record>, ps: seq<string>, n: nat, p: string)
    requires AllWellFormed(rows) && Distinct(ps)
    ensures CountPlayer(Blocks(rows, ps, n), p) ==
      if p in ps then Min(n, |PlayerRows(rows, p)|) else 0
    decreases |ps|
  {
    if ps != [] {
      var head := Annotate(Window(rows, ps[0], n));
      BlocksCount(rows, ps[1..], n, p);
      FilterConcat(head, Blocks(rows, ps[1..], n), OfPlayer(p));
      AnnotateCount(rows, ps[0], p, n);
      assert p in ps <==> p == ps[0] || p in ps[1..];
      assert ps[0] !in ps[1..];
    }
  }

  /** Selecting one player's rows of the blocks gives back exactly that
      player's annotated window when it is listed, and nothing otherwise. */
  lemma {:induction false} BlocksOfPlayer(rows: seq<Record>, ps: seq<string>, n: nat, p: string)
    requires AllWellFormed(rows) && Distinct(ps)
    ensures Filter(Blocks(rows, ps, n), OfPlayer(p)) ==
      if p in ps then Annotate(Window(rows, p, n)) else []
    decreases |ps|
  {
    if ps != [] {
      var head := Annotate(Window(rows, ps[0], n));
      var tail := Blocks(rows, ps[1..], n);
      assert Blocks(rows, ps, n) == head + tail;
      AnnotatePlayers(rows, ps[0], n);
      BlocksOfPlayer(rows, ps[1..], n, p);
      assert ps[0] !in ps[1..];
      SelectStep(head, tail, ps[0], p);
    }
  }

  /** Selecting p from a block of player q followed by other rows. */
  lemma SelectStep(head: seq<TrainingRow>, tail: seq<TrainingRow>, q: string, p: string)
    requires forall o :: o in head ==> o.rec.player == q
    requires p == q ==> Filter(tail, OfPlayer(p)) == []
    ensures Filter(head + tail, OfPlayer(p)) ==
      if p == q then head else Filter(tail, OfPlayer(p))
  {
    FilterConcat(head, tail, OfPlayer(p));
    if p == q {
      assert forall i :: 0 <= i < |head| ==> OfPlayer(p)(head[i]) by {
        forall i | 0 <= i < |head| ensures OfPlayer(p)(head[i]) {
          assert head[i] in head;
        }
      }
    } else {
      FilterNone(head, OfPlayer(p));
    }
  }

  /** A player without rows has an empty window. */
  lemma AbsentPlayerWindow(rows: seq<Record>, p: string, n: nat)
    requires AllWellFormed(rows)
    requires forall i :: 0 <= i < |rows| ==> rows[i].player != p
    ensures Window(rows, p, n) == []
  {
    FilterNone(rows, IsPlayer(p));
  }

  /** Output row o comes from its player's window and carries that
      window's averages. */
  ghost predicate FromWindow(rows: seq<Record>, n: nat, o: TrainingRow)
    requires AllWellFormed(rows)
  {
    var w := Window(rows, o.rec.player, n);
    o.rec in w && o.avgs == Averages(w)
  }

  lemma {:induction false} BlocksFromWindows(rows: seq<Record>, ps: seq<string>, n: nat)
    requires AllWellFormed(rows)
    ensures forall o :: o in Blocks(rows, ps, n) ==> FromWindow(rows, n, o) && o.rec.player in ps
    decreases |ps|
  {
    if ps != [] {
      BlocksFromWindows(rows, ps[1..], n);
      var head := Annotate(Window(rows, ps[0], n));
      forall o | o in head ensures FromWindow(rows, n, o) && o.rec.player in ps {
        var i :| 0 <= i < |head| && head[i] == o;
        assert o.rec in Window(rows, ps[0], n);
      }
    }
  }

  lemma GetRecentSeasonsFromWindow(rows: seq<Record>, n: nat)
    requires AllWellFormed(rows)
    requires GetRecentSeasons(rows, n).Ok?
    ensures forall o :: o in GetRecentSeasons(rows, n).value ==> FromWindow(rows, n, o)
  {
    BlocksFromWindows(rows, Players(rows), n);
  }

  lemma {:induction false} BlocksPlayers(rows: seq<Record>, ps: seq<string>, n: nat)
    requires AllWellFormed(rows)
    ensures forall o :: o in Blocks(rows, ps, n) ==> o.rec.player in ps
    decreases |ps|
  {
    if ps != [] {
      BlocksPlayers(rows, ps[1..], n);
      AnnotatePlayers(rows, ps[0], n);
    }
  }

  ghost predicate PlayersAscending(out: seq<TrainingRow>) {
    forall i, j :: 0 <= i < j < |out| ==> Lex.LessEq(out[i].rec.player, out[j].rec.player)
  }

  lemma ConcatAscending(a: seq<TrainingRow>, b: seq<TrainingRow>, q: string)
    requires forall o :: o in a ==> o.rec.player == q
    requires forall o :: o in b ==> Lex.LessEq(q, o.rec.player)
    requires PlayersAscending(b)
    ensures PlayersAscending(a + b)
  {
    var out := a + b;
    forall i, j | 0 <= i < j < |out| ensures Lex.LessEq(out[i].rec.player, out[j].rec.player) {
      if j < |a| {
        assert out[i] in a && out[j] in a;
      } else if i < |a| {
        assert out[i] in a && out[j] in b;
      } else {
        assert out[i] == b[i - |a|] && out[j] == b[j - |a|];
      }
    }
  }

  lemma {:induction false} BlocksGrouped(rows: seq<Record>, ps: seq<string>, n: nat)
    requires AllWellFormed(rows)
    requires SortedBy(Lex.LessEq, ps)
    ensures PlayersAscending(Blocks(rows, ps, n))
    decreases |ps|
  {
    if ps != [] {
      var tail := Blocks(rows, ps[1..], n);
      assert Blocks(rows, ps, n) == Annotate(Window(rows, ps[0], n)) + tail;
      SortedTail(ps, Lex.LessEq);
      BlocksGrouped(rows, ps[1..], n);
      BlocksPlayers(rows, ps[1..], n);
      AnnotatePlayers(rows, ps[0], n);
      GroupedStep(Annotate(Window(rows, ps[0], n)), tail, ps);
    }
  }

  /** The block of the least player followed by the ascending blocks of
      the others is ascending. */
  lemma GroupedStep(a: seq<TrainingRow>, tail: seq<TrainingRow>, ps: seq<string>)
    requires ps != [] && SortedBy(Lex.LessEq, ps)
    requires forall o :: o in a ==> o.rec.player == ps[0]
    requires forall o :: o in tail ==> o.rec.player in ps[1..]
    requires PlayersAscending(tail)
    ensures PlayersAscending(a + tail)
  {
    forall o | o in tail ensures Lex.LessEq(ps[0], o.rec.player) {
      var k :| 0 <= k < |ps[1..]| && ps[1..][k] == o.rec.player;
      assert ps[k + 1] == o.rec.player;
    }
    ConcatAscending(a, tail, ps[0]);
  }

  /** The training window's promises: it fails only on an empty frame;
      player p contributes exactly min(n, k) rows, namely its window of
      oldest seasons in window order, each carrying the mean over p's kept
      rows; the output is grouped by player in ascending name order. */
  lemma GetRecentSeasonsSpec(rows: seq<Record>, n: nat)
    requires AllWellFormed(rows)
    ensures GetRecentSeasons(rows, n).Err? <==> rows == []
    ensures GetRecentSeasons(rows, n).Ok? ==>
      var out := GetRecentSeasons(rows, n).value;
      && (forall p :: CountPlayer(out, p) == Min(n, |PlayerRows(rows, p)|))
      && (forall p :: Filter(out, OfPlayer(p)) == Annotate(Window(rows, p, n)))
      && (forall o :: o in out ==> FromWindow(rows, n, o))
      && PlayersAscending(out)
  {
    if rows != [] {
      var ps := Players(rows);
      forall p ensures Filter(Blocks(rows, ps, n), OfPlayer(p)) == Annotate(Window(rows, p, n)) {
        BlocksOfPlayer(rows, ps, n, p);
        if p !in ps {
          AbsentPlayerWindow(rows, p, n);
        }
      }
      forall p ensures CountPlayer(Blocks(rows, ps, n), p) == Min(n, |PlayerRows(rows, p)|) {
        BlocksCount(rows, ps, n, p);
        if p !in ps {
          FilterNone(rows, IsPlayer(p));
        }
      }
      BlocksFromWindows(rows, ps, n);
      PlayersSorted(rows);
      BlocksGrouped(rows, ps, n);
    }
  }
}
