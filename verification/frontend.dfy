/** The client-side logic of the predictions page: the filter chain of
    `applyFiltersAndSort`, the non-mutating `sortPredictions`, the
    two-state `handleSort` toggle, the option lists of the position and age
    selectors, and the list of selectable seasons. React state, effects and
    the fetch are not modelled: the fetched rows and the selected filter
    values are parameters. */
module PredictionsPage {
  import opened Wrappers
  import opened Records
  import opened Seqs

  /** A row as the serving layer sends it: every one of the five
      predicted values is present. */
  type Row = p: Prediction | |p.values| == |Targets|
    witness Prediction("", 0, 0, "", [0.0, 0.0, 0.0, 0.0, 0.0])

  // ---------------------------------------------------------------------
  // Seasons

  /** `Array.from({ length: 2026 - 2015 + 1 }, (_, i) => 2014 + i)`. */
  function Seasons(): (ys: seq<int>)
    ensures |ys| == 12
  {
    seq(2026 - 2015 + 1, i => 2014 + i)
  }

  /** The selector lists exactly the twelve years 2014 to 2025, ascending;
      2026 is not among them. */
  lemma SeasonsSpec()
    ensures forall y :: y in Seasons() <==> 2014 <= y <= 2025
    ensures forall i, j :: 0 <= i < j < |Seasons()| ==> Seasons()[i] < Seasons()[j]
    ensures Seasons()[0] == 2014 && Seasons()[11] == 2025
  {
    var ys := Seasons();
    forall y | 2014 <= y <= 2025 ensures y in ys {
      assert ys[y - 2014] == y;
    }
  }

  // ---------------------------------------------------------------------
  // Filters

  /** The filter controls: the selected position ("" for all), the
      selected age (None for all) and the search text. */
  datatype Filters = Filters(position: string, age: Option<int>, name: string)

  const NoFilters := Filters("", None, "")

  /** `if (age)`: the age filter is skipped when nothing is selected and
      also when the selected age is 0, which JavaScript treats as false. */
  predicate AgeActive(f: Filters) {
    f.age.Some? && f.age.value != 0
  }

  /** `toLowerCase` on ASCII letters. */
  function Lower(c: char): char {
    if 'A' <= c <= 'Z' then (c as int + 32) as char else c
  }

  function LowerStr(s: string): (t: string)
    ensures |t| == |s| && forall i :: 0 <= i < |s| ==> t[i] == Lower(s[i])
  {
    seq(|s|, i requires 0 <= i < |s| => Lower(s[i]))
  }

  ghost predicate OccursAt(s: string, t: string, i: nat) {
    i + |t| <= |s| && s[i..i + |t|] == t
  }

  /** `s.includes(t)`. */
  function Includes(s: string, t: string): (b: bool)
    ensures b <==> exists i: nat :: OccursAt(s, t, i)
    decreases |s|
  {
    if t <= s then
      assert OccursAt(s, t, 0);
      true
    else if s == [] then
      assert |t| > 0;
      false
    else
      var r := Includes(s[1..], t);
      assert r ==> exists i: nat :: OccursAt(s, t, i) by {
        if r {
          var i: nat :| OccursAt(s[1..], t, i);
          assert s[1..][i..i + |t|] == s[i + 1..i + 1 + |t|];
          assert OccursAt(s, t, i + 1);
        }
      }
      assert (exists i: nat :: OccursAt(s, t, i)) ==> r by {
        if exists i: nat :: OccursAt(s, t, i) {
          var i: nat :| OccursAt(s, t, i);
          if i == 0 {
            assert s[..|t|] == t;
          } else {
            assert s[1..][i - 1..i - 1 + |t|] == s[i..i + |t|];
            assert OccursAt(s[1..], t, i - 1);
          }
        }
      }
      r
  }

  function PositionIs(pos: string): Row -> bool {
    (p: Row) => p.pos == pos
  }

  function AgeIs(age: int): Row -> bool {
    (p: Row) => p.age == age
  }

  function NameHas(name: string): Row -> bool {
    (p: Row) => Includes(LowerStr(p.player), LowerStr(name))
  }

  /** A row passes every active filter. */
  predicate Matches(f: Filters, p: Row) {
    && (f.position != "" ==> p.pos == f.position)
    && (AgeActive(f) ==> p.age == f.age.value)
    && (f.name != "" ==> Includes(LowerStr(p.player), LowerStr(f.name)))
  }

  function MatchesAll(f: Filters): Row -> bool {
    (p: Row) => Matches(f, p)
  }

  /** The three filters of `applyFiltersAndSort`, applied one after
      another, each only when its control is set. */
  function ApplyFilters(ps: seq<Row>, f: Filters): seq<Row> {
    var byPosition := if f.position != "" then Filter(ps, PositionIs(f.position)) else ps;
    var byAge := if AgeActive(f) then Filter(byPosition, AgeIs(f.age.value)) else byPosition;
    if f.name != "" then Filter(byAge, NameHas(f.name)) else byAge
  }

  function Both(p: Row -> bool, q: Row -> bool): Row -> bool {
    (x: Row) => p(x) && q(x)
  }

  lemma {:induction false} FilterTwice(s: seq<Row>, p: Row -> bool, q: Row -> bool)
    ensures Filter(Filter(s, p), q) == Filter(s, Both(p, q))
    decreases |s|
  {
    if s != [] {
      var init := s[..|s| - 1];
      var last := s[|s| - 1];
      FilterTwice(init, p, q);
      if p(last) {
        FilterConcat(Filter(init, p), [last], q);
        assert Filter([last], q) == if q(last) then [last] else [] by {
          assert [last][..0] == [];
        }
      }
    }
  }

  function Always(): Row -> bool {
    (x: Row) => true
  }

  lemma FilterSame(s: seq<Row>, p: Row -> bool, q: Row -> bool)
    requires forall x :: p(x) == q(x)
    ensures Filter(s, p) == Filter(s, q)
    decreases |s|
  {
    if s != [] {
      FilterSame(s[..|s| - 1], p, q);
    }
  }

  /** The chain of filters keeps exactly the rows passing every active
      filter, in their fetched order; with no filter set it keeps every
      row. */
  lemma ApplyFiltersSpec(ps: seq<Row>, f: Filters)
    ensures ApplyFilters(ps, f) == Filter(ps, MatchesAll(f))
    ensures f == NoFilters ==> ApplyFilters(ps, f) == ps
  {
    var pos := if f.position != "" then PositionIs(f.position) else Always();
    var age := if AgeActive(f) then AgeIs(f.age.value) else Always();
    var name := if f.name != "" then NameHas(f.name) else Always();
    var a := Filter(ps, pos);
    var b := Filter(a, age);
    var c := Filter(b, name);
    assert a == (if f.position != "" then Filter(ps, PositionIs(f.position)) else ps);
    assert b == (if AgeActive(f) then Filter(a, AgeIs(f.age.value)) else a);
    assert c == (if f.name != "" then Filter(b, NameHas(f.name)) else b);
    FilterTwice(ps, pos, age);
    FilterTwice(ps, Both(pos, age), name);
    FilterSame(ps, Both(Both(pos, age), name), MatchesAll(f));
  }

  // ---------------------------------------------------------------------
  // Sorting

  datatype Direction = Asc | Desc

  /** The sortable table columns, in header order: Player, Season, Age,
      Pos, then the five statistics. */
  datatype SortColumn = PlayerCol | SeasonCol | AgeCol | PosCol | StatCol(t: Target)

  const HeaderColumns: seq<SortColumn> :=
    [PlayerCol, SeasonCol, AgeCol, PosCol, StatCol(TargetSTL), StatCol(TargetBLK),
     StatCol(TargetTRB), StatCol(TargetAST), StatCol(TargetPTS)]

  /** Position of a target among the predicted values. */
  function TargetSlot(t: Target): (k: nat)
    ensures k < |Targets| && Targets[k] == t
  {
    match t
    case TargetPTS => 0
    case TargetAST => 1
    case TargetTRB => 2
    case TargetSTL => 3
    case TargetBLK => 4
  }

  /** Player and Pos hold strings; the other columns hold numbers. */
  predicate IsText(c: SortColumn) {
    c.PlayerCol? || c.PosCol?
  }

  function TextKey(p: Row, c: SortColumn): string {
    if c.PlayerCol? then p.player else p.pos
  }

  function NumberKey(p: Row, c: SortColumn): real {
    match c
    case SeasonCol => p.season as real
    case AgeCol => p.age as real
    case StatCol(t) => p.values[TargetSlot(t)]
    case _ => 0.0
  }

  /** The comparator of `sortPredictions`: `localeCompare` on strings,
      subtraction on numbers, its operands swapped for a descending sort.
      `localeCompare` itself is a parameter. */
  function Compare(order: Direction, c: SortColumn, localeCompare: (string, string) -> int, a: Row, b: Row): real {
    if IsText(c) then
      (if order == Asc then localeCompare(TextKey(a, c), TextKey(b, c))
       else localeCompare(TextKey(b, c), TextKey(a, c))) as real
    else if order == Asc then NumberKey(a, c) - NumberKey(b, c)
    else NumberKey(b, c) - NumberKey(a, c)
  }

  /** a may stay in front of b: the comparator does not put b first. */
  function Precedes(order: Direction, c: SortColumn, localeCompare: (string, string) -> int): (Row, Row) -> bool {
    (a: Row, b: Row) => Compare(order, c, localeCompare, a, b) <= 0.0
  }

  /** `localeCompare` orders strings consistently: a total preorder. */
  ghost predicate Consistent(localeCompare: (string, string) -> int) {
    TotalPreorder((x: string, y: string) => localeCompare(x, y) <= 0)
  }

  /** `[...data].sort(comparator)`: a stable sort of a copy. */
  function SortPredictions(data: seq<Row>, order: Direction, c: SortColumn,
                           localeCompare: (string, string) -> int): (out: seq<Row>)
    ensures multiset(out) == multiset(data)
  {
    Sort(data, Precedes(order, c, localeCompare))
  }

  lemma PrecedesPreorder(order: Direction, c: SortColumn, localeCompare: (string, string) -> int)
    requires Consistent(localeCompare)
    ensures TotalPreorder(Precedes(order, c, localeCompare))
  {
    var le := Precedes(order, c, localeCompare);
    var sle := (x: string, y: string) => localeCompare(x, y) <= 0;
    forall a: Row, b: Row ensures le(a, b) || le(b, a) {
      if IsText(c) {
        assert sle(TextKey(a, c), TextKey(b, c)) || sle(TextKey(b, c), TextKey(a, c));
      }
    }
    forall a: Row, b: Row, d: Row | le(a, b) && le(b, d) ensures le(a, d) {
      if IsText(c) {
        if order == Asc {
          assert sle(TextKey(a, c), TextKey(b, c)) && sle(TextKey(b, c), TextKey(d, c));
        } else {
          assert sle(TextKey(d, c), TextKey(b, c)) && sle(TextKey(b, c), TextKey(a, c));
        }
      }
    }
  }

  /** The sorted copy holds the same rows, and numeric columns end up
      ascending or descending as `order` says; text columns are in
      `localeCompare` order, reversed for a descending sort. */
  lemma SortPredictionsOrdered(data: seq<Row>, order: Direction, c: SortColumn,
                               localeCompare: (string, string) -> int)
    requires Consistent(localeCompare)
    ensures var out := SortPredictions(data, order, c, localeCompare);
      && multiset(out) == multiset(data)
      && (forall i, j :: 0 <= i < j < |out| ==> Compare(order, c, localeCompare, out[i], out[j]) <= 0.0)
      && (!IsText(c) && order == Asc ==>
            forall i, j :: 0 <= i < j < |out| ==> NumberKey(out[i], c) <= NumberKey(out[j], c))
      && (!IsText(c) && order == Desc ==>
            forall i, j :: 0 <= i < j < |out| ==> NumberKey(out[i], c) >= NumberKey(out[j], c))
  {
    PrecedesPreorder(order, c, localeCompare);
    SortSorted(data, Precedes(order, c, localeCompare));
  }

  /** `applyFiltersAndSort`. */
  function ApplyFiltersAndSort(ps: seq<Row>, f: Filters, order: Direction, c: SortColumn,
                               localeCompare: (string, string) -> int): seq<Row> {
    SortPredictions(ApplyFilters(ps, f), order, c, localeCompare)
  }

  /** The shown list holds exactly the fetched rows that pass every active
      filter, each as often as it was fetched; with no filter set it is
      the whole list, re-sorted. */
  lemma ShownRows(ps: seq<Row>, f: Filters, order: Direction, c: SortColumn,
                  localeCompare: (string, string) -> int)
    ensures var shown := ApplyFiltersAndSort(ps, f, order, c, localeCompare);
      && multiset(shown) == multiset(Filter(ps, MatchesAll(f)))
      && (forall p :: p in shown <==> p in ps && Matches(f, p))
      && (f == NoFilters ==> multiset(shown) == multiset(ps))
  {
    ApplyFiltersSpec(ps, f);
    var shown := ApplyFiltersAndSort(ps, f, order, c, localeCompare);
    forall p ensures p in shown <==> p in ps && Matches(f, p) {
      assert p in shown <==> p in multiset(shown);
      assert p in Filter(ps, MatchesAll(f)) <==> p in multiset(Filter(ps, MatchesAll(f)));
    }
  }

  // ---------------------------------------------------------------------
  // handleSort

  datatype SortState = SortState(order: Direction, orderBy: SortColumn)

  /** `useState('desc')` and `useState('PTS')`. */
  const InitialSort := SortState(Desc, StatCol(TargetPTS))

  function HandleSort(s: SortState, column: SortColumn): (t: SortState)
    ensures t.orderBy == column
  {
    var isAsc := s.orderBy == column && s.order == Asc;
    SortState(if isAsc then Desc else Asc, column)
  }

  function Flip(d: Direction): Direction {
    if d == Asc then Desc else Asc
  }

  /** Clicking the active column while ascending makes it descending; any
      other click sorts ascending by the clicked column. */
  lemma HandleSortSpec(s: SortState, column: SortColumn)
    ensures s.orderBy == column && s.order == Asc ==> HandleSort(s, column) == SortState(Desc, column)
    ensures s.orderBy != column || s.order == Desc ==> HandleSort(s, column) == SortState(Asc, column)
  {
  }

  /** On the active column the direction is a two-state toggle: one click
      flips it, two clicks restore the state. */
  lemma HandleSortToggles(s: SortState)
    ensures HandleSort(s, s.orderBy).order == Flip(s.order)
    ensures HandleSort(HandleSort(s, s.orderBy), s.orderBy) == s
  {
  }

  // ---------------------------------------------------------------------
  // Selector options

  function PositionsOf(ps: seq<Row>): (xs: seq<string>)
    ensures |xs| == |ps| && forall i :: 0 <= i < |ps| ==> xs[i] == ps[i].pos
  {
    seq(|ps|, i requires 0 <= i < |ps| => ps[i].pos)
  }

  function AgesOf(ps: seq<Row>): (xs: seq<int>)
    ensures |xs| == |ps| && forall i :: 0 <= i < |ps| ==> xs[i] == ps[i].age
  {
    seq(|ps|, i requires 0 <= i < |ps| => ps[i].age)
  }

  /** `[...new Set(predictions.map(pred => pred.Pos))]`. */
  function UniquePositions(ps: seq<Row>): seq<string> {
    Dedup(PositionsOf(ps))
  }

  /** The position options are the fetched positions, each once, in order
      of first appearance. */
  lemma UniquePositionsSpec(ps: seq<Row>)
    ensures var us := UniquePositions(ps);
      && Distinct(us)
      && (forall x :: x in us <==> exists i :: 0 <= i < |ps| && ps[i].pos == x)
      && (forall i, j :: 0 <= i < j < |us| ==>
            FirstIndex(PositionsOf(ps), us[i]) < FirstIndex(PositionsOf(ps), us[j]))
  {
    DedupFirstAppearance(PositionsOf(ps));
    var xs := PositionsOf(ps);
    forall x | exists i :: 0 <= i < |ps| && ps[i].pos == x ensures x in xs {
      var i :| 0 <= i < |ps| && ps[i].pos == x;
      assert xs[i] == x;
    }
  }

  predicate IntLe(a: int, b: int) {
    a <= b
  }

  /** `[...new Set(predictions.map(pred => pred.Age))].sort((a, b) => a - b)`. */
  function UniqueAges(ps: seq<Row>): seq<int> {
    Sort(Dedup(AgesOf(ps)), IntLe)
  }

  /** The age options are the fetched ages, each once, strictly
      ascending. */
  lemma UniqueAgesSpec(ps: seq<Row>)
    ensures var us := UniqueAges(ps);
      && (forall x :: x in us <==> exists i :: 0 <= i < |ps| && ps[i].age == x)
      && (forall i, j :: 0 <= i < j < |us| ==> us[i] < us[j])
  {
    var xs := AgesOf(ps);
    var us := UniqueAges(ps);
    assert TotalPreorder(IntLe);
    SortedKeysSorted(xs, IntLe);
    assert us == SortedKeys(xs, IntLe);
    forall x | exists i :: 0 <= i < |ps| && ps[i].age == x ensures x in xs {
      var i :| 0 <= i < |ps| && ps[i].age == x;
      assert xs[i] == x;
    }
    forall i, j | 0 <= i < j < |us| ensures us[i] < us[j] {
      assert IntLe(us[i], us[j]);
    }
  }
}
