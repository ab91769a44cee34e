/** The discernibility matrix of a decision table and its simplification
    into a conjunction of attribute clauses. Cell (i, j) lists, as lower-case
    initials joined by commas, the criteria on which two objects with
    different decisions differ; "Ø" marks a pair that needs no distinction. */
module Discernibility {
  import opened Results
  import opened Tables
  import opened Text

  const Empty := "Ø"

  /** The positions, from `from` on and in increasing order, of the
      criteria on which rows i and j differ. */
  function DifferingIdx(t: Table, criteria: seq<string>, i: nat, j: nat, from: nat): (r: seq<nat>)
    requires i < |t.rows| && j < |t.rows| && HasColumns(t, criteria) && from <= |criteria|
    ensures forall p :: 0 <= p < |r| ==> from <= r[p] < |criteria|
    ensures forall p, q :: 0 <= p < q < |r| ==> r[p] < r[q]
    decreases |criteria| - from
  {
    if from == |criteria| then []
    else
      var rest := DifferingIdx(t, criteria, i, j, from + 1);
      if t.rows[i][criteria[from]] != t.rows[j][criteria[from]] then [from] + rest else rest
  }

  /** A position is listed exactly when the rows differ on its criterion. */
  lemma {:induction false} DifferingIdxMembers(t: Table, criteria: seq<string>, i: nat, j: nat, from: nat, k: nat)
    requires i < |t.rows| && j < |t.rows| && HasColumns(t, criteria) && from <= k < |criteria|
    ensures k in DifferingIdx(t, criteria, i, j, from) <==> t.rows[i][criteria[k]] != t.rows[j][criteria[k]]
    decreases |criteria| - from
  {
    if from < k {
      DifferingIdxMembers(t, criteria, i, j, from + 1, k);
    }
  }

  /** Dropping the first criterion shifts every differing position down by
      one. */
  lemma {:induction false} DifferingIdxShift(t: Table, criteria: seq<string>, i: nat, j: nat, from: nat)
    requires i < |t.rows| && j < |t.rows| && HasColumns(t, criteria) && from < |criteria|
    ensures HasColumns(t, criteria[1..])
    ensures var a := DifferingIdx(t, criteria, i, j, from + 1);
            var b := DifferingIdx(t, criteria[1..], i, j, from);
            |a| == |b| && forall p :: 0 <= p < |a| ==> a[p] == b[p] + 1
    decreases |criteria| - from
  {
    assert forall c :: c in criteria[1..] ==> c in criteria;
    if from + 1 < |criteria| {
      DifferingIdxShift(t, criteria, i, j, from + 1);
      var a := DifferingIdx(t, criteria, i, j, from + 2);
      var b := DifferingIdx(t, criteria[1..], i, j, from + 1);
      var x := criteria[from + 1];
      assert criteria[1..][from] == x;
      if t.rows[i][x] != t.rows[j][x] {
        var a' := DifferingIdx(t, criteria, i, j, from + 1);
        var b' := DifferingIdx(t, criteria[1..], i, j, from);
        assert a' == [from + 1] + a;
        assert b' == [from] + b;
        forall p | 0 <= p < |a'| ensures a'[p] == b'[p] + 1 {
          if p > 0 {
            assert a'[p] == a[p - 1] && b'[p] == b[p - 1];
          }
        }
      } else {
        assert DifferingIdx(t, criteria, i, j, from + 1) == a;
        assert DifferingIdx(t, criteria[1..], i, j, from) == b;
      }
    }
  }

  /** The initials of the differing criteria, listed at their positions. */
  ghost predicate InitialsAt(t: Table, criteria: seq<string>, i: nat, j: nat, ds: seq<string>)
    requires i < |t.rows| && j < |t.rows| && HasColumns(t, criteria)
  {
    var D := DifferingIdx(t, criteria, i, j, 0);
    && |ds| == |D|
    && forall p :: 0 <= p < |D| ==> criteria[D[p]] != "" && ds[p] == [ToLower(criteria[D[p]][0])]
  }

  /** One step of `Differences`: the first criterion's initial, when it
      differs, goes in front of the initials of the rest. */
  lemma InitialsCons(t: Table, criteria: seq<string>, i: nat, j: nat, rest: seq<string>)
    requires i < |t.rows| && j < |t.rows| && HasColumns(t, criteria) && criteria != []
    requires t.rows[i][criteria[0]] != t.rows[j][criteria[0]] ==> criteria[0] != ""
    requires HasColumns(t, criteria[1..]) && InitialsAt(t, criteria[1..], i, j, rest)
    ensures var c := criteria[0];
            InitialsAt(t, criteria, i, j,
              if t.rows[i][c] != t.rows[j][c] then [[ToLower(c[0])]] + rest else rest)
  {
    DifferingIdxShift(t, criteria, i, j, 0);
    var c := criteria[0];
    var a := DifferingIdx(t, criteria, i, j, 1);
    var b := DifferingIdx(t, criteria[1..], i, j, 0);
    assert forall p :: 0 <= p < |a| ==> criteria[a[p]] == criteria[1..][b[p]];
    InitialsRest(t, criteria, i, j, rest);
    if t.rows[i][c] != t.rows[j][c] {
      InitialsFront(t, criteria, i, j, rest);
    }
  }

  /** The initials of the rest, listed at the positions from the second
      criterion on. */
  ghost predicate InitialsFrom(t: Table, criteria: seq<string>, i: nat, j: nat, ds: seq<string>)
    requires i < |t.rows| && j < |t.rows| && HasColumns(t, criteria) && criteria != []
  {
    var a := DifferingIdx(t, criteria, i, j, 1);
    && |ds| == |a|
    && forall p :: 0 <= p < |a| ==> criteria[a[p]] != "" && ds[p] == [ToLower(criteria[a[p]][0])]
  }

  lemma InitialsRest(t: Table, criteria: seq<string>, i: nat, j: nat, rest: seq<string>)
    requires i < |t.rows| && j < |t.rows| && HasColumns(t, criteria) && criteria != []
    requires HasColumns(t, criteria[1..]) && InitialsAt(t, criteria[1..], i, j, rest)
    requires var a := DifferingIdx(t, criteria, i, j, 1);
             var b := DifferingIdx(t, criteria[1..], i, j, 0);
             |a| == |b| && forall p :: 0 <= p < |a| ==> criteria[a[p]] == criteria[1..][b[p]]
    ensures InitialsFrom(t, criteria, i, j, rest)
    ensures t.rows[i][criteria[0]] == t.rows[j][criteria[0]] ==> InitialsAt(t, criteria, i, j, rest)
  {
  }

  lemma InitialsFront(t: Table, criteria: seq<string>, i: nat, j: nat, rest: seq<string>)
    requires i < |t.rows| && j < |t.rows| && HasColumns(t, criteria) && criteria != [] && criteria[0] != ""
    requires t.rows[i][criteria[0]] != t.rows[j][criteria[0]]
    requires InitialsFrom(t, criteria, i, j, rest)
    ensures InitialsAt(t, criteria, i, j, [[ToLower(criteria[0][0])]] + rest)
  {
    var a := DifferingIdx(t, criteria, i, j, 1);
    var D := DifferingIdx(t, criteria, i, j, 0);
    var out := [[ToLower(criteria[0][0])]] + rest;
    assert D == [0] + a;
    forall p | 0 <= p < |D| ensures criteria[D[p]] != "" && out[p] == [ToLower(criteria[D[p]][0])] {
      if p > 0 {
        assert D[p] == a[p - 1] && out[p] == rest[p - 1];
      }
    }
  }

  /** The initials of the criteria on which rows i and j differ, in
      criterion order. Every criterion is looked up, so a missing one is a
      KeyError; the initial of an empty criterion name is an IndexError. */
  function Differences(t: Table, criteria: seq<string>, i: nat, j: nat): (r: Result<seq<string>>)
    requires i < |t.rows| && j < |t.rows|
    ensures r.Ok? <==> forall k :: 0 <= k < |criteria| ==>
      criteria[k] in t.columns && (t.rows[i][criteria[k]] != t.rows[j][criteria[k]] ==> criteria[k] != "")
    ensures r.Ok? ==> (r.value == [] <==> forall c :: c in criteria ==> t.rows[i][c] == t.rows[j][c])
    ensures r.Ok? ==> forall k :: 0 <= k < |r.value| ==>
      exists c :: c in criteria && c != "" && t.rows[i][c] != t.rows[j][c] && r.value[k] == [ToLower(c[0])]
    decreases |criteria|
  {
    if criteria == [] then Ok([])
    else
      var c := criteria[0];
      if c !in t.columns then Err(MissingColumn(c))
      else if t.rows[i][c] != t.rows[j][c] && c == "" then Err(IndexOutOfRange)
      else match Differences(t, criteria[1..], i, j)
        case Err(e) => Err(e)
        case Ok(rest) =>
          assert forall k :: 1 <= k < |criteria| ==> criteria[k] == criteria[1..][k - 1];
          if t.rows[i][c] != t.rows[j][c] then Ok([[ToLower(c[0])]] + rest) else Ok(rest)
  }

  /** Completeness and order: the initials are those of exactly the
      criteria on which the rows differ, one per such criterion, in
      criterion order. */
  lemma {:induction false} DifferencesInOrder(t: Table, criteria: seq<string>, i: nat, j: nat)
    requires i < |t.rows| && j < |t.rows|
    requires Differences(t, criteria, i, j).Ok?
    ensures HasColumns(t, criteria)
    ensures InitialsAt(t, criteria, i, j, Differences(t, criteria, i, j).value)
    decreases |criteria|
  {
    if criteria != [] {
      DifferencesInOrder(t, criteria[1..], i, j);
      assert forall c :: c in criteria ==> c == criteria[0] || c in criteria[1..];
      InitialsCons(t, criteria, i, j, Differences(t, criteria[1..], i, j).value);
    }
  }

  /** The pair (i, j) differs on the same criteria as (j, i). */
  lemma {:induction false} DifferencesSymmetric(t: Table, criteria: seq<string>, i: nat, j: nat)
    requires i < |t.rows| && j < |t.rows|
    ensures Differences(t, criteria, i, j) == Differences(t, criteria, j, i)
    decreases |criteria|
  {
    if criteria != [] {
      DifferencesSymmetric(t, criteria[1..], i, j);
    }
  }

  /** The cell for the pair i < j. */
  function PairCell(t: Table, target: string, criteria: seq<string>, i: nat, j: nat): (r: Result<string>)
    requires i < |t.rows| && j < |t.rows|
    ensures target !in t.columns ==> r == Err(MissingColumn(target))
    ensures target in t.columns && t.rows[i][target] == t.rows[j][target] ==> r == Ok(Empty)
    ensures r.Ok? ==> (r.value == Empty <==>
      t.rows[i][target] == t.rows[j][target] ||
      forall c :: c in criteria && c in t.columns ==> t.rows[i][c] == t.rows[j][c])
  {
    if target !in t.columns then Err(MissingColumn(target))
    else if t.rows[i][target] == t.rows[j][target] then Ok(Empty)
    else match Differences(t, criteria, i, j)
      case Err(e) => Err(e)
      case Ok(ds) =>
        if ds == [] then Ok(Empty)
        else
          JoinInitialsNotEmpty(t, criteria, i, j, ds);
          Ok(Join(ds, ","))
  }

  lemma JoinInitialsNotEmpty(t: Table, criteria: seq<string>, i: nat, j: nat, ds: seq<string>)
    requires i < |t.rows| && j < |t.rows|
    requires Differences(t, criteria, i, j) == Ok(ds) && ds != []
    ensures Join(ds, ",") != Empty
  {
    if |ds| == 1 {
      InitialNotMark(criteria, ds[0]);
    } else {
      assert Join(ds, ",")[|ds[0]|] == ',';
    }
  }

  /** An initial is never the "Ø" mark: lower-casing maps 'Ø' to 'ø'. */
  lemma InitialNotMark(criteria: seq<string>, d: string)
    requires exists c :: c in criteria && c != "" && d == [ToLower(c[0])]
    ensures d != Empty
  {
    var c :| c in criteria && c != "" && d == [ToLower(c[0])];
    assert ToLower(c[0]) != 'Ø';
    assert d[0] != Empty[0];
  }

  /** A criterion name starting with a comma would put a comma inside an
      initial. */
  predicate CommaFree(criteria: seq<string>) {
    forall c :: c in criteria && c != "" ==> c[0] != ','
  }

  /** Reading a cell back: splitting a non-empty cell on commas gives the
      initials of the criteria that tell the pair apart. */
  lemma CellSplits(t: Table, target: string, criteria: seq<string>, i: nat, j: nat)
    requires i < |t.rows| && j < |t.rows| && CommaFree(criteria)
    requires PairCell(t, target, criteria, i, j).Ok? && PairCell(t, target, criteria, i, j).value != Empty
    ensures Differences(t, criteria, i, j).Ok?
    ensures Split(PairCell(t, target, criteria, i, j).value, ',') == Differences(t, criteria, i, j).value
  {
    var ds := Differences(t, criteria, i, j).value;
    forall k | 0 <= k < |ds| ensures ',' !in ds[k] {
      var c :| c in criteria && c != "" && t.rows[i][c] != t.rows[j][c] && ds[k] == [ToLower(c[0])];
    }
    SplitJoin(ds, ',');
  }

  /** Every pair below the diagonal has a cell. */
  ghost predicate AllPairsOk(t: Table, target: string, criteria: seq<string>) {
    forall a: nat, b: nat :: a < b < |t.rows| ==> PairCell(t, target, criteria, a, b).Ok?
  }

  /** Cell (a, b) of the matrix: "Ø" on the diagonal, the pair's cell
      elsewhere, the same on both sides of the diagonal. */
  function CellAt(t: Table, target: string, criteria: seq<string>, a: nat, b: nat): string
    requires a < |t.rows| && b < |t.rows| && AllPairsOk(t, target, criteria)
  {
    if a == b then Empty
    else if a < b then PairCell(t, target, criteria, a, b).value
    else PairCell(t, target, criteria, b, a).value
  }

  /** `generate_discernibility_matrix`: visits each pair i < j once and
      writes its cell on both sides of the diagonal. */
  method GenerateMatrix(t: Table, target: string, criteria: seq<string>) returns (r: Result<seq<seq<string>>>)
    ensures r.Err? <==> exists a: nat, b: nat :: a < b < |t.rows| && PairCell(t, target, criteria, a, b).Err?
    ensures r.Ok? ==> |r.value| == |t.rows| && forall a :: 0 <= a < |r.value| ==> |r.value[a]| == |t.rows|
    ensures r.Ok? ==> (AllPairsOk(t, target, criteria) &&
      forall a: nat, b: nat :: a < |t.rows| && b < |t.rows| ==> r.value[a][b] == CellAt(t, target, criteria, a, b))
    ensures r.Ok? ==> forall a: nat, b: nat :: a < |t.rows| && b < |t.rows| ==>
      r.value[a][b] == r.value[b][a] && (a == b ==> r.value[a][b] == Empty)
  {
    var n := |t.rows|;
    var cells: map<(nat, nat), string> := map[];
    var i := 0;
    while i < n
      invariant i <= n
      invariant forall a: nat, b: nat :: a < b < n && a < i ==>
        PairCell(t, target, criteria, a, b).Ok? && (a, b) in cells && cells[(a, b)] == PairCell(t, target, criteria, a, b).value
    {
      var j := i + 1;
      while j < n
        invariant i + 1 <= j <= n
        invariant forall a: nat, b: nat :: a < b < n && a < i ==>
          PairCell(t, target, criteria, a, b).Ok? && (a, b) in cells && cells[(a, b)] == PairCell(t, target, criteria, a, b).value
        invariant forall b: nat :: i < b < j ==>
          PairCell(t, target, criteria, i, b).Ok? && (i, b) in cells && cells[(i, b)] == PairCell(t, target, criteria, i, b).value
      {
        var c := PairCell(t, target, criteria, i, j);
        if c.Err? {
          return Err(c.error);
        }
        cells := cells[(i, j) := c.value];
        j := j + 1;
      }
      i := i + 1;
    }
    var m := seq(n, a requires 0 <= a < n =>
      seq(n, b requires 0 <= b < n =>
        if a == b then Empty else if a < b then cells[(a, b)] else cells[(b, a)]));
    r := Ok(m);
  }

  /** The cells of a matrix in row-major order. */
  function Cells(m: seq<seq<string>>): seq<string> {
    if m == [] then [] else Cells(m[..|m| - 1]) + m[|m| - 1]
  }

  /** Every cell of the matrix is visited, and nothing else. */
  lemma {:induction false} CellsAre(m: seq<seq<string>>, x: string)
    ensures x in Cells(m) <==> exists a, b :: 0 <= a < |m| && 0 <= b < |m[a]| && m[a][b] == x
  {
    if m != [] {
      var init := m[..|m| - 1];
      CellsAre(init, x);
      assert forall a :: 0 <= a < |m| - 1 ==> init[a] == m[a];
      if x in Cells(m) && x !in Cells(init) {
        var b :| 0 <= b < |m[|m| - 1]| && m[|m| - 1][b] == x;
      }
      if exists a, b :: 0 <= a < |m| && 0 <= b < |m[a]| && m[a][b] == x {
        var a, b :| 0 <= a < |m| && 0 <= b < |m[a]| && m[a][b] == x;
        if a < |m| - 1 {
          assert init[a][b] == x;
        }
      }
    }
  }

  /** A cell holding exactly one element (`len(cell.split(',')) == 1`). */
  predicate IsSingle(cur: string) {
    cur != Empty && |Split(cur, ',')| == 1
  }

  /** Some element of the cell is already a single term. */
  predicate Absorbed(cur: string, used: set<string>) {
    exists p :: p in Split(cur, ',') && p in used
  }

  /** The clause for a cell: its distinct elements, sorted, joined by ∨ and
      parenthesised. */
  function OrTerm(cur: string): string {
    "(" + Join(SortSet(set p | p in Split(cur, ',')), " ∨ ") + ")"
  }

  /** The stripped single-element cells of the matrix. */
  function Singles(m: seq<seq<string>>): set<string> {
    SinglesOf(Cells(m))
  }

  /** The clauses of the non-"Ø" cells none of whose elements is a single. */
  function OrTerms(m: seq<seq<string>>): set<string> {
    OrTermsOf(Cells(m), Singles(m))
  }

  /** The stripped single-element cells of a sequence of cells. */
  function SinglesOf(cs: seq<string>): set<string> {
    if cs == [] then {}
    else
      var x := Strip(cs[|cs| - 1]);
      SinglesOf(cs[..|cs| - 1]) + (if IsSingle(x) then {x} else {})
  }

  lemma SinglesStep(cs: seq<string>, k: nat)
    requires k < |cs|
    ensures SinglesOf(cs[..k + 1]) == SinglesOf(cs[..k]) + (if IsSingle(Strip(cs[k])) then {Strip(cs[k])} else {})
  {
    assert cs[..k + 1][..k] == cs[..k];
  }

  /** The clauses of the cells of a sequence none of whose elements is in
      `used`. */
  function OrTermsOf(cs: seq<string>, used: set<string>): set<string> {
    if cs == [] then {}
    else
      var x := Strip(cs[|cs| - 1]);
      OrTermsOf(cs[..|cs| - 1], used) + (if x != Empty && !Absorbed(x, used) then {OrTerm(x)} else {})
  }

  lemma {:induction false} SinglesOfAre(cs: seq<string>, x: string)
    ensures x in SinglesOf(cs) <==> exists c :: c in cs && IsSingle(Strip(c)) && Strip(c) == x
  {
    if cs != [] {
      var init := cs[..|cs| - 1];
      SinglesOfAre(init, x);
      assert cs == init + [cs[|cs| - 1]];
    }
  }

  lemma {:induction false} OrTermsOfAre(cs: seq<string>, used: set<string>, x: string)
    ensures x in OrTermsOf(cs, used) <==>
      exists c :: c in cs && Strip(c) != Empty && !Absorbed(Strip(c), used) && OrTerm(Strip(c)) == x
  {
    if cs != [] {
      var init := cs[..|cs| - 1];
      OrTermsOfAre(init, used, x);
      assert cs == init + [cs[|cs| - 1]];
    }
  }

  /** Every clause of the matrix survives simplification up to absorption:
      a non-"Ø" cell is a single term, or one of its elements is a single
      term (which implies the clause), or its clause is a conjunct. */
  lemma EveryCellCovered(m: seq<seq<string>>, a: nat, b: nat)
    requires a < |m| && b < |m[a]| && Strip(m[a][b]) != Empty
    ensures var x := Strip(m[a][b]);
      x in Singles(m) || Absorbed(x, Singles(m)) || OrTerm(x) in OrTerms(m)
  {
    var x := Strip(m[a][b]);
    CellsAre(m, m[a][b]);
    if IsSingle(x) {
      SinglesOfAre(Cells(m), x);
    } else if !Absorbed(x, Singles(m)) {
      OrTermsOfAre(Cells(m), Singles(m), OrTerm(x));
    }
  }

  /** Every conjunct comes from a cell of the matrix. */
  lemma ConjunctsFromCells(m: seq<seq<string>>, x: string)
    requires x in Singles(m) + OrTerms(m)
    ensures exists a, b ::
              0 <= a < |m| && 0 <= b < |m[a]| && Strip(m[a][b]) != Empty &&
              (x == Strip(m[a][b]) || x == OrTerm(Strip(m[a][b])))
  {
    SinglesOfAre(Cells(m), x);
    OrTermsOfAre(Cells(m), Singles(m), x);
    var c :| c in Cells(m) && Strip(c) != Empty && (x == Strip(c) || x == OrTerm(Strip(c)));
    CellsAre(m, c);
  }

  /** The first pass: each distinct single-element cell, once, in order
      of first appearance. */
  method CollectSingles(cs: seq<string>) returns (terms: seq<string>, used: set<string>)
    ensures used == SinglesOf(cs)
    ensures forall x :: x in terms <==> x in used
  {
    terms := [];
    used := {};
    var k := 0;
    while k < |cs|
      invariant k <= |cs|
      invariant used == SinglesOf(cs[..k])
      invariant forall x :: x in terms <==> x in used
    {
      var cur := Strip(cs[k]);
      SinglesStep(cs, k);
      if cur != Empty && |Split(cur, ',')| == 1 {
        StripIdempotent(cs[k]);
        var element := Strip(cur);
        if element !in used {
          terms := terms + [element];
          used := used + {element};
        }
      }
      k := k + 1;
    }
    assert cs[..k] == cs;
  }

  /** The second pass: the clause of every non-"Ø" cell none of whose
      elements was collected by the first. */
  method CollectClauses(cs: seq<string>, used: set<string>, terms0: seq<string>) returns (terms: seq<string>)
    ensures forall x :: x in terms <==> x in terms0 || x in OrTermsOf(cs, used)
  {
    terms := terms0;
    var k := 0;
    while k < |cs|
      invariant k <= |cs|
      invariant forall x :: x in terms <==> x in terms0 || x in OrTermsOf(cs[..k], used)
    {
      var cur := Strip(cs[k]);
      var pieces := Split(cur, ',');
      if cur != Empty && !(exists p :: p in pieces && p in used) {
        // no piece is in `used`, so the remaining pieces are all of them
        terms := terms + ["(" + Join(SortSet(set p | p in pieces), " ∨ ") + ")"];
      }
      assert cs[..k + 1][..k] == cs[..k];
      k := k + 1;
    }
    assert cs[..k] == cs;
  }

  /** `optimize_discernibility_matrix`: the single-element cells and the
      unabsorbed clauses, sorted, without repeats, joined by ∧. */
  method Optimize(m: seq<seq<string>>) returns (r: string)
    ensures r == Join(SortSet(Singles(m) + OrTerms(m)), " ∧ ")
  {
    var cs := Cells(m);
    var terms, used := CollectSingles(cs);
    terms := CollectClauses(cs, used, terms);
    var distinct := set x | x in terms;
    assert distinct == Singles(m) + OrTerms(m);
    r := Join(SortSet(distinct), " ∧ ");
  }
}
