/** `calculate_league_averages`: one row per distinct (Pos, Age) pair, in
    ascending (Pos, Age) order, holding the mean of G and of every stat over
    the rows of that pair; Season is averaged by pandas and then dropped. */
module LeagueAverages {
  import opened Records
  import opened Numbers
  import opened Seqs
  import Lex

  /** `lg_G_avg`, `lg_MP_avg`, ..., `lg_FTA_avg` of one (Pos, Age) group. */
  datatype LeagueRow = LeagueRow(pos: string, age: int, avgs: seq<real>)

  predicate KeyLe(a: (string, int), b: (string, int)) {
    Lex.Less(a.0, b.0) || (a.0 == b.0 && a.1 <= b.1)
  }

  lemma KeyLeTotalOrder()
    ensures TotalPreorder(KeyLe) && Antisymmetric(KeyLe)
  {
    forall a: (string, int), b: (string, int) ensures KeyLe(a, b) || KeyLe(b, a) {
      Lex.Trichotomy(a.0, b.0);
    }
    forall a: (string, int), b: (string, int) | KeyLe(a, b) && KeyLe(b, a) ensures a == b {
      Lex.Irreflexive(a.0);
      if a.0 != b.0 {
        Lex.Asymmetric(a.0, b.0);
      }
    }
    forall a: (string, int), b: (string, int), c: (string, int) | KeyLe(a, b) && KeyLe(b, c)
      ensures KeyLe(a, c)
    {
      if a.0 != b.0 && b.0 != c.0 {
        Lex.Transitive(a.0, b.0, c.0);
      }
    }
  }

  function Key(r: Record): (string, int) {
    (r.pos, r.age)
  }

  function RowKey(l: LeagueRow): (string, int) {
    (l.pos, l.age)
  }

  function HasKey(k: (string, int)): Record -> bool {
    (r: Record) => Key(r) == k
  }

  function KeysOf(rows: seq<Record>): (ks: seq<(string, int)>)
    ensures |ks| == |rows| && forall i :: 0 <= i < |rows| ==> ks[i] == Key(rows[i])
  {
    seq(|rows|, i requires 0 <= i < |rows| => Key(rows[i]))
  }

  /** The rows of one (Pos, Age) group. */
  function Group(rows: seq<Record>, k: (string, int)): (g: seq<Record>)
    ensures forall r :: r in g <==> r in rows && Key(r) == k
  {
    Filter(rows, HasKey(k))
  }

  function GroupAverages(rows: seq<Record>, k: (string, int)): (l: LeagueRow)
    requires AllWellFormed(rows) && k in KeysOf(rows)
    ensures RowKey(l) == k
    ensures |Group(rows, k)| > 0 && l.avgs == Averages(Group(rows, k))
  {
    var i :| 0 <= i < |rows| && KeysOf(rows)[i] == k;
    assert rows[i] in Group(rows, k);
    LeagueRow(k.0, k.1, Averages(Group(rows, k)))
  }

  function LeagueKeys(rows: seq<Record>): seq<(string, int)> {
    SortedKeys(KeysOf(rows), KeyLe)
  }

  function OutKeys(out: seq<LeagueRow>): (ks: seq<(string, int)>)
    ensures |ks| == |out| && forall j :: 0 <= j < |out| ==> ks[j] == RowKey(out[j])
  {
    seq(|out|, j requires 0 <= j < |out| => RowKey(out[j]))
  }

  function CalculateLeagueAverages(rows: seq<Record>): (out: seq<LeagueRow>)
    requires AllWellFormed(rows)
    ensures forall k :: k in OutKeys(out) <==> k in KeysOf(rows)
    ensures Distinct(OutKeys(out))
    ensures forall j :: 0 <= j < |out| ==>
      |Group(rows, RowKey(out[j]))| > 0
      && out[j].avgs == Averages(Group(rows, RowKey(out[j])))
  {
    var ks := LeagueKeys(rows);
    var out := seq(|ks|, j requires 0 <= j < |ks| => GroupAverages(rows, ks[j]));
    assert OutKeys(out) == ks;
    out
  }

  /** The groups come out in ascending (Pos, Age) order. */
  lemma LeagueAveragesSorted(rows: seq<Record>)
    requires AllWellFormed(rows)
    ensures forall i, j :: 0 <= i < j < |CalculateLeagueAverages(rows)| ==>
      KeyLe(RowKey(CalculateLeagueAverages(rows)[i]), RowKey(CalculateLeagueAverages(rows)[j]))
  {
    KeyLeTotalOrder();
    SortedKeysSorted(KeysOf(rows), KeyLe);
    assert OutKeys(CalculateLeagueAverages(rows)) == LeagueKeys(rows);
  }
}
