/** The class-based rough-set model: it holds one decision table, refuses a
    table without an "ID" column, and computes the same regions as the free
    functions, except that its boundary and outside regions are computed
    on identifier sets. */
module RoughSetModel {
  import opened Results
  import opened Tables
  import opened RoughSets

  datatype Model = Model(df: Table)

  predicate Valid(m: Model) {
    Id in m.df.columns
  }

  /** The constructor: a table without an "ID" column is refused. */
  function New(df: Table): (r: Result<Model>)
    ensures r.Ok? <==> Id in df.columns
    ensures r.Err? ==> r.error == MissingColumn(Id)
    ensures r.Ok? ==> r.value.df == df && Valid(r.value)
  {
    if Id !in df.columns then Err(MissingColumn(Id)) else Ok(Model(df))
  }

  /** The identifier sets of the indiscernibility classes. */
  function EquivalenceClasses(m: Model, attrs: seq<string>): (r: Result<set<set<Value>>>)
    requires Valid(m)
    ensures !HasColumns(m.df, attrs) ==> r == Err(UnknownAttribute)
    ensures r.Ok? <==> HasColumns(m.df, attrs) && attrs != []
    ensures r.Ok? ==> (HasColumns(m.df, attrs) &&
      forall i: nat, j: nat :: i < |m.df.rows| && j < |m.df.rows| && Key(m.df, attrs, i) == Key(m.df, attrs, j) ==>
        exists S :: S in r.value && m.df.rows[i][Id] in S && m.df.rows[j][Id] in S)
    ensures r.Ok? ==> forall S :: S in r.value ==> S != {} && S <= AllIds(m.df)
    ensures r.Ok? ==> (HasColumns(m.df, attrs) &&
      forall S :: S in r.value <==> exists i: nat :: i < |m.df.rows| && S == IdsOf(m.df, ClassOf(m.df, attrs, i)))
  {
    RoughSets.EquivalenceClasses(m.df, attrs)
  }

  /** The rows whose whole class lies in X. */
  function BLowerApproximation(m: Model, X: seq<Value>, attrs: seq<string>): (r: Result<set<nat>>)
    requires Valid(m)
    ensures r.Ok? <==> HasColumns(m.df, attrs) && attrs != []
    ensures r.Ok? ==> (HasColumns(m.df, attrs) &&
      forall i: nat :: i in r.value <==> i < |m.df.rows| && CertainlyIn(m.df, attrs, Elements(X), i))
  {
    LowerApproximation(m.df, X, attrs)
  }

  /** The rows whose class meets X. */
  function BUpperApproximation(m: Model, X: seq<Value>, attrs: seq<string>): (r: Result<set<nat>>)
    requires Valid(m)
    ensures r.Ok? <==> HasColumns(m.df, attrs) && attrs != []
    ensures r.Ok? ==> (HasColumns(m.df, attrs) &&
      forall i: nat :: i in r.value <==> i < |m.df.rows| && PossiblyIn(m.df, attrs, Elements(X), i))
  {
    UpperApproximation(m.df, X, attrs)
  }

  /** The rows whose class determines the decision. */
  function PositiveRegion(m: Model, d: string, attrs: seq<string>): (r: Result<set<nat>>)
    ensures d !in m.df.columns ==> r == Err(MissingColumn(d))
    ensures r.Ok? <==> d in m.df.columns && HasColumns(m.df, attrs) && attrs != []
    ensures r.Ok? ==> (HasColumns(m.df, attrs) && d in m.df.columns &&
      forall i: nat :: i in r.value <==> i < |m.df.rows| && Consistent(m.df, attrs, d, i))
  {
    RoughSets.PositiveRegion(m.df, d, attrs)
  }

  /** The share of rows in the positive region. */
  function DependencyDegree(m: Model, d: string, attrs: seq<string>): (r: Result<real>)
    ensures |m.df.rows| == 0 ==> r == Err(EmptyTable)
    ensures r.Ok? <==> |m.df.rows| > 0 && d in m.df.columns && HasColumns(m.df, attrs) && attrs != []
    ensures r.Ok? ==> 0.0 <= r.value <= 1.0
    ensures r.Ok? ==> (HasColumns(m.df, attrs) && d in m.df.columns &&
      (r.value == 1.0 <==> forall i: nat :: i < |m.df.rows| ==> Consistent(m.df, attrs, d, i)))
  {
    RoughSets.DependencyDegree(m.df, d, attrs)
  }

  function BoundaryRegion(lower: set<Value>, upper: set<Value>): (r: set<Value>)
    ensures r !! lower && r <= upper && r + (upper * lower) == upper
  {
    upper - lower
  }

  function OutsideRegion(m: Model, upper: set<Value>): (r: set<Value>)
    requires Valid(m)
    ensures r !! upper && r <= AllIds(m.df) && r + (AllIds(m.df) * upper) == AllIds(m.df)
  {
    AllIds(m.df) - upper
  }

  /** The identifiers of the rows satisfying a row property. */
  ghost predicate IdOfCertain(t: Table, attrs: seq<string>, X: set<Value>, x: Value)
    requires HasColumns(t, attrs) && Id in t.columns
  {
    exists i: nat :: i < |t.rows| && t.rows[i][Id] == x && CertainlyIn(t, attrs, X, i)
  }

  ghost predicate IdOfPossible(t: Table, attrs: seq<string>, X: set<Value>, x: Value)
    requires HasColumns(t, attrs) && Id in t.columns
  {
    exists i: nat :: i < |t.rows| && t.rows[i][Id] == x && PossiblyIn(t, attrs, X, i)
  }

  /** The laws of a rough set: the lower approximation lies inside X, which
      lies inside the upper approximation, and lower, boundary and outside
      split the objects into three disjoint regions. */
  ghost predicate RoughLaws(t: Table, X: set<Value>, p: Properties)
    requires Id in t.columns
  {
    && p.lower <= X * AllIds(t)
    && X * AllIds(t) <= p.upper <= AllIds(t)
    && p.boundary == p.upper - p.lower
    && p.outside == AllIds(t) - p.upper
    && p.lower + p.boundary + p.outside == AllIds(t)
    && p.lower !! p.boundary && p.lower !! p.outside && p.boundary !! p.outside
    && 0.0 <= p.gamma <= 1.0
  }

  lemma IdsOfLower(t: Table, attrs: seq<string>, X: set<Value>, lower: set<nat>)
    requires HasColumns(t, attrs) && Id in t.columns
    requires forall i: nat :: i in lower <==> i < |t.rows| && CertainlyIn(t, attrs, X, i)
    ensures IdsOf(t, lower) <= X * AllIds(t)
    ensures forall x :: x in IdsOf(t, lower) <==> IdOfCertain(t, attrs, X, x)
  {
    forall x | x in IdsOf(t, lower) ensures x in X * AllIds(t) && IdOfCertain(t, attrs, X, x) {
      var i: nat :| i in lower && i < |t.rows| && t.rows[i][Id] == x;
      assert Key(t, attrs, i) == Key(t, attrs, i);
    }
    forall x | IdOfCertain(t, attrs, X, x) ensures x in IdsOf(t, lower) {
      var i: nat :| i < |t.rows| && t.rows[i][Id] == x && CertainlyIn(t, attrs, X, i);
      assert i in lower;
    }
  }

  lemma IdsOfUpperContains(t: Table, attrs: seq<string>, X: set<Value>, upper: set<nat>)
    requires HasColumns(t, attrs) && Id in t.columns
    requires forall i: nat :: i in upper <==> i < |t.rows| && PossiblyIn(t, attrs, X, i)
    ensures X * AllIds(t) <= IdsOf(t, upper)
  {
    forall x | x in X * AllIds(t) ensures x in IdsOf(t, upper) {
      UpperHoldsId(t, attrs, X, upper, x);
    }
  }

  lemma UpperHoldsId(t: Table, attrs: seq<string>, X: set<Value>, upper: set<nat>, x: Value)
    requires HasColumns(t, attrs) && Id in t.columns
    requires forall i: nat :: i in upper <==> i < |t.rows| && PossiblyIn(t, attrs, X, i)
    requires x in X && x in AllIds(t)
    ensures x in IdsOf(t, upper)
  {
    var i: nat :| i in Range(|t.rows|) && t.rows[i][Id] == x;
    assert PossiblyIn(t, attrs, X, i);
    assert i in upper;
  }

  lemma IdsOfUpperWithin(t: Table, attrs: seq<string>, X: set<Value>, upper: set<nat>)
    requires HasColumns(t, attrs) && Id in t.columns
    requires forall i: nat :: i in upper ==> i < |t.rows|
    ensures IdsOf(t, upper) <= AllIds(t)
  {
    forall x | x in IdsOf(t, upper) ensures x in AllIds(t) {
      var i: nat :| i in upper && i < |t.rows| && t.rows[i][Id] == x;
      assert i in Range(|t.rows|);
    }
  }

  lemma IdsOfUpper(t: Table, attrs: seq<string>, X: set<Value>, upper: set<nat>)
    requires HasColumns(t, attrs) && Id in t.columns
    requires forall i: nat :: i in upper <==> i < |t.rows| && PossiblyIn(t, attrs, X, i)
    ensures forall x :: x in IdsOf(t, upper) <==> IdOfPossible(t, attrs, X, x)
  {
    forall x | x in IdsOf(t, upper) ensures IdOfPossible(t, attrs, X, x) {
      UpperIdPossible(t, attrs, X, upper, x);
    }
    forall x | IdOfPossible(t, attrs, X, x) ensures x in IdsOf(t, upper) {
      PossibleIdUpper(t, attrs, X, upper, x);
    }
  }

  lemma UpperIdPossible(t: Table, attrs: seq<string>, X: set<Value>, upper: set<nat>, x: Value)
    requires HasColumns(t, attrs) && Id in t.columns
    requires forall i: nat :: i in upper ==> i < |t.rows| && PossiblyIn(t, attrs, X, i)
    requires x in IdsOf(t, upper)
    ensures IdOfPossible(t, attrs, X, x)
  {
    var i: nat :| i in upper && i < |t.rows| && t.rows[i][Id] == x;
    assert PossiblyIn(t, attrs, X, i);
  }

  lemma PossibleIdUpper(t: Table, attrs: seq<string>, X: set<Value>, upper: set<nat>, x: Value)
    requires HasColumns(t, attrs) && Id in t.columns
    requires forall i: nat :: i < |t.rows| && PossiblyIn(t, attrs, X, i) ==> i in upper
    requires IdOfPossible(t, attrs, X, x)
    ensures x in IdsOf(t, upper)
  {
    var i: nat :| i < |t.rows| && t.rows[i][Id] == x && PossiblyIn(t, attrs, X, i);
    assert i in upper;
  }

  /** Set algebra: with lower inside X inside upper, the three regions
      built from them obey the rough-set laws. */
  lemma LawsFromApproximations(t: Table, X: set<Value>, lower: set<Value>, upper: set<Value>, gamma: real)
    requires Id in t.columns
    requires lower <= X * AllIds(t) && X * AllIds(t) <= upper <= AllIds(t)
    requires 0.0 <= gamma <= 1.0
    ensures RoughLaws(t, X, Properties(lower, upper, upper - lower, AllIds(t) - upper, gamma))
  {
  }

  /** `calculate_rough_set_properties`: the checks in order, then the five
      results, with boundary and outside taken on identifier sets. */
  function CalculateProperties(m: Model, X: Objects, attrs: seq<string>, d: string): (r: Result<Properties>)
    requires Valid(m)
    ensures !X.List? ==> r == Err(NotAList)
    ensures X.List? && !HasColumns(m.df, attrs) ==> r == Err(UnknownAttribute)
    ensures X.List? && HasColumns(m.df, attrs) && d !in m.df.columns ==> r == Err(MissingColumn(d))
    ensures r.Ok? <==> X.List? && HasColumns(m.df, attrs) && d in m.df.columns && attrs != []
                       && |m.df.rows| > 0
    ensures r.Ok? ==> RoughLaws(m.df, Elements(X.items), r.value)
    ensures r.Ok? ==> (HasColumns(m.df, attrs) &&
      (forall x :: x in r.value.lower <==> IdOfCertain(m.df, attrs, Elements(X.items), x)) &&
      (forall x :: x in r.value.upper <==> IdOfPossible(m.df, attrs, Elements(X.items), x)))
    ensures r.Ok? ==> DependencyDegree(m, d, attrs) == Ok(r.value.gamma)
  {
    if !X.List? then Err(NotAList)
    else if !HasColumns(m.df, attrs) then Err(UnknownAttribute)
    else if d !in m.df.columns then Err(MissingColumn(d))
    else match BLowerApproximation(m, X.items, attrs)
      case Err(e) => Err(e)
      case Ok(lowerRows) =>
        match BUpperApproximation(m, X.items, attrs)
        case Err(e) => Err(e)
        case Ok(upperRows) =>
          match DependencyDegree(m, d, attrs)
          case Err(e) => Err(e)
          case Ok(gamma) =>
            var lower := IdsOf(m.df, lowerRows);
            var upper := IdsOf(m.df, upperRows);
            IdsOfLower(m.df, attrs, Elements(X.items), lowerRows);
            IdsOfUpperContains(m.df, attrs, Elements(X.items), upperRows);
            IdsOfUpperWithin(m.df, attrs, Elements(X.items), upperRows);
            IdsOfUpper(m.df, attrs, Elements(X.items), upperRows);
            LawsFromApproximations(m.df, Elements(X.items), lower, upper, gamma);
            Ok(Properties(lower, upper, BoundaryRegion(lower, upper), OutsideRegion(m, upper), gamma))
  }

  /** The free function and the model refuse the same inputs with the same
      error, and agree on the approximations and the degree; they differ
      only in the boundary and outside regions. */
  lemma FreeAgreesWithModel(m: Model, X: Objects, attrs: seq<string>, d: string)
    requires Valid(m)
    ensures var free := RoughSets.CalculateRoughSetProperties(m.df, X, attrs, d);
            var model := CalculateProperties(m, X, attrs, d);
            && (free.Err? ==> free == model)
            && (free.Ok? <==> model.Ok?)
            && (free.Ok? ==> && free.value.lower == model.value.lower
                             && free.value.upper == model.value.upper
                             && free.value.gamma == model.value.gamma)
  {
  }

  /** A two-object table whose objects share their condition value but not
      their decision; X holds only the first object. */
  function StraddleTable(): (t: Table)
    ensures Id in t.columns && |t.rows| == 2
  {
    RawTable([Id, "a", "d"], [map[Id := "1", "a" := "x", "d" := "y"], map[Id := "2", "a" := "x", "d" := "n"]])
  }

  lemma StraddleRows()
    ensures var t := StraddleTable();
      && Key(t, ["a"], 0) == Key(t, ["a"], 1)
      && !CertainlyIn(t, ["a"], Elements(["1"]), 0)
      && !CertainlyIn(t, ["a"], Elements(["1"]), 1)
      && PossiblyIn(t, ["a"], Elements(["1"]), 0)
  {
    var t := StraddleTable();
    assert Key(t, ["a"], 0) == Key(t, ["a"], 1);
    assert "2" !in Elements(["1"]);
  }

  /** The free function's boundary is empty whenever it succeeds, in
      particular on the straddling table. */
  lemma AsWrittenBoundaryOnStraddle()
    ensures var r := RoughSets.CalculateRoughSetProperties(StraddleTable(), List(["1"]), ["a"], "d");
            r.Ok? && r.value.boundary == {}
  {
  }

  /** On the straddling table the corrected model puts object "1" in the
      boundary: its class meets X but is not contained in it. */
  lemma CorrectedBoundaryOnStraddle()
    ensures var r := CalculateProperties(Model(StraddleTable()), List(["1"]), ["a"], "d");
            r.Ok? && "1" in r.value.boundary
  {
    StraddleIds();
  }

  lemma StraddleIds()
    ensures HasColumns(StraddleTable(), ["a"])
    ensures IdOfPossible(StraddleTable(), ["a"], Elements(["1"]), "1")
    ensures !IdOfCertain(StraddleTable(), ["a"], Elements(["1"]), "1")
  {
    var t := StraddleTable();
    var X := Elements(["1"]);
    StraddleRows();
    assert t.rows[0][Id] == "1";
  }
}
