/** Rough-set analysis over a decision table: indiscernibility classes, the
    lower and upper approximations of a target set of objects, the positive
    region and the dependency degree (the free functions of the toolkit's
    algorithm package). Objects are identified by the values of the "ID"
    column; approximations are returned as sets of row positions. */
module RoughSets {
  import opened Results
  import opened Tables

  const Id := "ID"

  /** The attribute values that make row `i` indiscernible from others. */
  function Key(t: Table, attrs: seq<string>, i: nat): (r: seq<Value>)
    requires HasColumns(t, attrs) && i < |t.rows|
    ensures |r| == |attrs|
    decreases |attrs|
  {
    if attrs == [] then [] else [t.rows[i][attrs[0]]] + Key(t, attrs[1..], i)
  }

  /** The indiscernibility class of row `i`: every row with the same key. */
  function ClassOf(t: Table, attrs: seq<string>, i: nat): (r: set<nat>)
    requires HasColumns(t, attrs) && i < |t.rows|
    ensures i in r
    ensures forall j :: j in r ==> j < |t.rows|
  {
    set j: nat | j < |t.rows| && Key(t, attrs, j) == Key(t, attrs, i)
  }

  function Groups(t: Table, attrs: seq<string>): set<set<nat>>
    requires HasColumns(t, attrs)
  {
    set i: nat | i < |t.rows| :: ClassOf(t, attrs, i)
  }

  /** Row `i` lies in some block of `P`. */
  ghost predicate InSomeBlock(P: set<set<nat>>, i: nat) {
    exists C :: C in P && i in C
  }

  /** `P` splits the rows into non-empty blocks, each holding exactly the
      rows that share the key of any of its members. */
  ghost predicate IsPartition(t: Table, attrs: seq<string>, P: set<set<nat>>)
    requires HasColumns(t, attrs)
  {
    && (forall C :: C in P ==> C != {} && forall i :: i in C ==> i < |t.rows|)
    && (forall i: nat :: i < |t.rows| ==> InSomeBlock(P, i))
    && (forall C, i: nat, j: nat :: C in P && i in C && j < |t.rows| ==>
          (j in C <==> Key(t, attrs, j) == Key(t, attrs, i)))
  }

  /** A block of a partition is the class of any of its rows. */
  lemma BlockIsClass(t: Table, attrs: seq<string>, P: set<set<nat>>, C: set<nat>, i: nat)
    requires HasColumns(t, attrs) && IsPartition(t, attrs, P)
    requires C in P && i in C
    ensures i < |t.rows| && C == ClassOf(t, attrs, i)
  {
  }

  /** There is only one such partition: the set of classes. */
  lemma PartitionUnique(t: Table, attrs: seq<string>, P: set<set<nat>>)
    requires HasColumns(t, attrs) && IsPartition(t, attrs, P)
    ensures P == Groups(t, attrs)
  {
    forall C | C in P ensures C in Groups(t, attrs) {
      var i :| i in C;
      BlockIsClass(t, attrs, P, C, i);
    }
    forall C | C in Groups(t, attrs) ensures C in P {
      var i: nat :| i < |t.rows| && C == ClassOf(t, attrs, i);
      assert InSomeBlock(P, i);
      var D :| D in P && i in D;
      BlockIsClass(t, attrs, P, D, i);
    }
  }

  lemma GroupsNonEmpty(t: Table, attrs: seq<string>)
    requires HasColumns(t, attrs)
    ensures forall C :: C in Groups(t, attrs) ==> C != {} && forall i :: i in C ==> i < |t.rows|
  {
    forall C | C in Groups(t, attrs) ensures C != {} && forall i :: i in C ==> i < |t.rows| {
      var k: nat :| k < |t.rows| && C == ClassOf(t, attrs, k);
    }
  }

  lemma GroupsCover(t: Table, attrs: seq<string>)
    requires HasColumns(t, attrs)
    ensures forall i: nat :: i < |t.rows| ==> InSomeBlock(Groups(t, attrs), i)
  {
    forall i: nat | i < |t.rows| ensures InSomeBlock(Groups(t, attrs), i) {
      assert ClassOf(t, attrs, i) in Groups(t, attrs);
    }
  }

  lemma GroupsBlocks(t: Table, attrs: seq<string>)
    requires HasColumns(t, attrs)
    ensures forall C, i: nat, j: nat :: C in Groups(t, attrs) && i in C && j < |t.rows| ==>
      i < |t.rows| && (j in C <==> Key(t, attrs, j) == Key(t, attrs, i))
  {
    forall C, i: nat, j: nat | C in Groups(t, attrs) && i in C && j < |t.rows|
      ensures i < |t.rows| && (j in C <==> Key(t, attrs, j) == Key(t, attrs, i))
    {
      var k: nat :| k < |t.rows| && C == ClassOf(t, attrs, k);
    }
  }

  lemma GroupsPartition(t: Table, attrs: seq<string>)
    requires HasColumns(t, attrs)
    ensures IsPartition(t, attrs, Groups(t, attrs))
  {
    GroupsNonEmpty(t, attrs);
    GroupsCover(t, attrs);
    GroupsBlocks(t, attrs);
  }

  /** `df.groupby(attrs)`: an unknown attribute is a KeyError and an empty
      attribute list has no group keys. */
  function GroupBy(t: Table, attrs: seq<string>): (r: Result<set<set<nat>>>)
    ensures !HasColumns(t, attrs) ==> r == Err(UnknownAttribute)
    ensures HasColumns(t, attrs) && attrs == [] ==> r == Err(NoGroupKeys)
    ensures r.Ok? <==> HasColumns(t, attrs) && attrs != []
    ensures r.Ok? ==> HasColumns(t, attrs) && IsPartition(t, attrs, r.value)
  {
    if !HasColumns(t, attrs) then Err(UnknownAttribute)
    else if attrs == [] then Err(NoGroupKeys)
    else
      GroupsPartition(t, attrs);
      Ok(Groups(t, attrs))
  }

  /** The identifiers of a set of rows (`set(df.loc[rows, 'ID'])`). */
  function IdsOf(t: Table, rows: set<nat>): (r: set<Value>)
    requires Id in t.columns
    ensures forall j: nat :: j in rows && j < |t.rows| ==> t.rows[j][Id] in r
  {
    set j: nat | j in rows && j < |t.rows| :: t.rows[j][Id]
  }

  /** Every identifier in the table. */
  function AllIds(t: Table): set<Value>
    requires Id in t.columns
  {
    IdsOf(t, Range(|t.rows|))
  }

  function Elements(xs: seq<Value>): set<Value> {
    set x | x in xs
  }

  /** The rows of every block whose identifiers all lie in X. */
  function LowerRows(t: Table, P: set<set<nat>>, X: set<Value>): set<nat>
    requires Id in t.columns
  {
    set C, i | C in P && i in C && IdsOf(t, C) <= X :: i
  }

  /** The rows of every block with an identifier in X. */
  function UpperRows(t: Table, P: set<set<nat>>, X: set<Value>): set<nat>
    requires Id in t.columns
  {
    set C, i | C in P && i in C && IdsOf(t, C) * X != {} :: i
  }

  /** The distinct decision values of a set of rows. */
  function DecisionValues(t: Table, d: string, rows: set<nat>): set<Value>
    requires d in t.columns
  {
    set j: nat | j in rows && j < |t.rows| :: t.rows[j][d]
  }

  /** The rows of every block whose decision value is unique. */
  function PositiveRows(t: Table, P: set<set<nat>>, d: string): set<nat>
    requires d in t.columns
  {
    set C, i | C in P && i in C && |DecisionValues(t, d, C)| == 1 :: i
  }

  /** Row `i` lies certainly inside X: its whole class is in X. */
  ghost predicate CertainlyIn(t: Table, attrs: seq<string>, X: set<Value>, i: nat)
    requires HasColumns(t, attrs) && Id in t.columns && i < |t.rows|
  {
    forall j: nat :: j < |t.rows| && Key(t, attrs, j) == Key(t, attrs, i) ==> t.rows[j][Id] in X
  }

  /** Row `i` lies possibly inside X: some row of its class is in X. */
  ghost predicate PossiblyIn(t: Table, attrs: seq<string>, X: set<Value>, i: nat)
    requires HasColumns(t, attrs) && Id in t.columns && i < |t.rows|
  {
    exists j: nat :: j < |t.rows| && Key(t, attrs, j) == Key(t, attrs, i) && t.rows[j][Id] in X
  }

  /** The condition attributes determine the decision at row `i`. */
  ghost predicate Consistent(t: Table, attrs: seq<string>, d: string, i: nat)
    requires HasColumns(t, attrs) && d in t.columns && i < |t.rows|
  {
    forall j: nat :: j < |t.rows| && Key(t, attrs, j) == Key(t, attrs, i) ==> t.rows[j][d] == t.rows[i][d]
  }

  lemma LowerRowsAre(t: Table, attrs: seq<string>, P: set<set<nat>>, X: set<Value>, i: nat)
    requires HasColumns(t, attrs) && Id in t.columns && IsPartition(t, attrs, P)
    ensures i in LowerRows(t, P, X) <==> i < |t.rows| && CertainlyIn(t, attrs, X, i)
  {
    if i in LowerRows(t, P, X) {
      var C :| C in P && i in C && IdsOf(t, C) <= X;
      BlockIsClass(t, attrs, P, C, i);
    }
    if i < |t.rows| && CertainlyIn(t, attrs, X, i) {
      assert InSomeBlock(P, i);
      var C :| C in P && i in C;
      BlockIsClass(t, attrs, P, C, i);
      assert IdsOf(t, C) <= X;
    }
  }

  lemma UpperRowsSound(t: Table, attrs: seq<string>, P: set<set<nat>>, X: set<Value>, i: nat)
    requires HasColumns(t, attrs) && Id in t.columns && IsPartition(t, attrs, P)
    requires i in UpperRows(t, P, X)
    ensures i < |t.rows| && PossiblyIn(t, attrs, X, i)
  {
    var C :| C in P && i in C && IdsOf(t, C) * X != {};
    BlockIsClass(t, attrs, P, C, i);
    var x :| x in IdsOf(t, C) * X;
    var j: nat :| j in C && j < |t.rows| && t.rows[j][Id] == x;
    assert Key(t, attrs, j) == Key(t, attrs, i);
  }

  lemma UpperRowsComplete(t: Table, attrs: seq<string>, P: set<set<nat>>, X: set<Value>, i: nat)
    requires HasColumns(t, attrs) && Id in t.columns && IsPartition(t, attrs, P)
    requires i < |t.rows| && PossiblyIn(t, attrs, X, i)
    ensures i in UpperRows(t, P, X)
  {
    assert InSomeBlock(P, i);
    var C :| C in P && i in C;
    BlockIsClass(t, attrs, P, C, i);
    var j: nat :| j < |t.rows| && Key(t, attrs, j) == Key(t, attrs, i) && t.rows[j][Id] in X;
    assert t.rows[j][Id] in IdsOf(t, C) * X;
  }

  lemma UpperRowsAre(t: Table, attrs: seq<string>, P: set<set<nat>>, X: set<Value>, i: nat)
    requires HasColumns(t, attrs) && Id in t.columns && IsPartition(t, attrs, P)
    ensures i in UpperRows(t, P, X) <==> i < |t.rows| && PossiblyIn(t, attrs, X, i)
  {
    if i in UpperRows(t, P, X) {
      UpperRowsSound(t, attrs, P, X, i);
    }
    if i < |t.rows| && PossiblyIn(t, attrs, X, i) {
      UpperRowsComplete(t, attrs, P, X, i);
    }
  }

  /** A set with one known element has size one exactly when that element
      is its only member. */
  lemma SingletonSize<T>(S: set<T>, v: T)
    requires v in S
    ensures |S| == 1 <==> forall w :: w in S ==> w == v
  {
    if forall w :: w in S ==> w == v {
      assert S == {v};
    } else {
      var w :| w in S && w != v;
      assert w in S - {v};
      assert |S - {v}| == |S| - 1;
    }
  }

  /** A block's decision values are a single value exactly when the
      condition attributes determine the decision at any of its rows. */
  lemma BlockConsistent(t: Table, attrs: seq<string>, d: string, C: set<nat>, i: nat)
    requires HasColumns(t, attrs) && d in t.columns
    requires i < |t.rows| && C == ClassOf(t, attrs, i)
    ensures |DecisionValues(t, d, C)| == 1 <==> Consistent(t, attrs, d, i)
  {
    var vs := DecisionValues(t, d, C);
    assert t.rows[i][d] in vs;
    SingletonSize(vs, t.rows[i][d]);
    if Consistent(t, attrs, d, i) {
      forall w | w in vs ensures w == t.rows[i][d] {
        var j: nat :| j in C && j < |t.rows| && t.rows[j][d] == w;
      }
    }
    if |vs| == 1 {
      forall j: nat | j < |t.rows| && Key(t, attrs, j) == Key(t, attrs, i)
        ensures t.rows[j][d] == t.rows[i][d]
      {
        assert j in C;
        assert t.rows[j][d] in vs;
      }
    }
  }

  lemma PositiveRowsAre(t: Table, attrs: seq<string>, P: set<set<nat>>, d: string, i: nat)
    requires HasColumns(t, attrs) && d in t.columns && IsPartition(t, attrs, P)
    ensures i in PositiveRows(t, P, d) <==> i < |t.rows| && Consistent(t, attrs, d, i)
  {
    if i in PositiveRows(t, P, d) {
      var C :| C in P && i in C && |DecisionValues(t, d, C)| == 1;
      BlockIsClass(t, attrs, P, C, i);
      BlockConsistent(t, attrs, d, C, i);
    }
    if i < |t.rows| && Consistent(t, attrs, d, i) {
      assert InSomeBlock(P, i);
      var C :| C in P && i in C;
      BlockIsClass(t, attrs, P, C, i);
      BlockConsistent(t, attrs, d, C, i);
    }
  }

  /** `equivalence_classes`: the identifier sets of the classes. */
  function EquivalenceClasses(t: Table, attrs: seq<string>): (r: Result<set<set<Value>>>)
    ensures !HasColumns(t, attrs) ==> r == Err(UnknownAttribute)
    ensures r.Ok? <==> HasColumns(t, attrs) && attrs != [] && (Id in t.columns || |t.rows| == 0)
    ensures r.Ok? && |t.rows| > 0 ==>
      forall i: nat, j: nat :: i < |t.rows| && j < |t.rows| && Key(t, attrs, i) == Key(t, attrs, j) ==>
        exists S :: S in r.value && t.rows[i][Id] in S && t.rows[j][Id] in S
    ensures r.Ok? && |t.rows| > 0 ==> forall S :: S in r.value ==> S != {} && S <= AllIds(t)
    ensures r.Ok? && |t.rows| > 0 ==> (HasColumns(t, attrs) && Id in t.columns &&
      forall S :: S in r.value <==> exists i: nat :: i < |t.rows| && S == IdsOf(t, ClassOf(t, attrs, i)))
    ensures r.Ok? && |t.rows| == 0 ==> r.value == {}
  {
    if !HasColumns(t, attrs) then Err(UnknownAttribute)
    else if attrs == [] then Err(NoGroupKeys)
    else if |t.rows| == 0 then Ok({})
    else if Id !in t.columns then Err(MissingColumn(Id))
    else
      ClassIdSetsCover(t, attrs);
      ClassIdSetsNonEmpty(t, attrs);
      ClassIdSetsAre(t, attrs);
      Ok(ClassIdSets(t, attrs))
  }

  function ClassIdSets(t: Table, attrs: seq<string>): set<set<Value>>
    requires HasColumns(t, attrs) && Id in t.columns
  {
    set C | C in Groups(t, attrs) :: IdsOf(t, C)
  }

  lemma ClassIdSetsCover(t: Table, attrs: seq<string>)
    requires HasColumns(t, attrs) && Id in t.columns
    ensures forall i: nat, j: nat :: i < |t.rows| && j < |t.rows| && Key(t, attrs, i) == Key(t, attrs, j) ==>
      exists S :: S in ClassIdSets(t, attrs) && t.rows[i][Id] in S && t.rows[j][Id] in S
  {
    forall i: nat, j: nat | i < |t.rows| && j < |t.rows| && Key(t, attrs, i) == Key(t, attrs, j)
      ensures exists S :: S in ClassIdSets(t, attrs) && t.rows[i][Id] in S && t.rows[j][Id] in S
    {
      var C := ClassOf(t, attrs, i);
      assert C in Groups(t, attrs);
      assert j in C;
      assert IdsOf(t, C) in ClassIdSets(t, attrs);
    }
  }

  /** One identifier set per indiscernibility class, and nothing else. */
  lemma ClassIdSetsAre(t: Table, attrs: seq<string>)
    requires HasColumns(t, attrs) && Id in t.columns
    ensures forall S :: S in ClassIdSets(t, attrs) <==>
              exists i: nat :: i < |t.rows| && S == IdsOf(t, ClassOf(t, attrs, i))
  {
    forall S | S in ClassIdSets(t, attrs)
      ensures exists i: nat :: i < |t.rows| && S == IdsOf(t, ClassOf(t, attrs, i))
    {
      var C :| C in Groups(t, attrs) && S == IdsOf(t, C);
      var k: nat :| k < |t.rows| && C == ClassOf(t, attrs, k);
    }
    forall S | exists i: nat :: i < |t.rows| && S == IdsOf(t, ClassOf(t, attrs, i))
      ensures S in ClassIdSets(t, attrs)
    {
      var k: nat :| k < |t.rows| && S == IdsOf(t, ClassOf(t, attrs, k));
      assert ClassOf(t, attrs, k) in Groups(t, attrs);
    }
  }

  lemma ClassIdSetsNonEmpty(t: Table, attrs: seq<string>)
    requires HasColumns(t, attrs) && Id in t.columns
    ensures forall S :: S in ClassIdSets(t, attrs) ==> S != {} && S <= AllIds(t)
  {
    forall S | S in ClassIdSets(t, attrs) ensures S != {} && S <= AllIds(t) {
      var C :| C in Groups(t, attrs) && S == IdsOf(t, C);
      var k: nat :| k < |t.rows| && C == ClassOf(t, attrs, k);
      assert t.rows[k][Id] in S;
      assert forall x :: x in S ==> x in AllIds(t);
    }
  }

  /** `b_lower_approximation_for_X`: the rows certainly in X. */
  function LowerApproximation(t: Table, X: seq<Value>, attrs: seq<string>): (r: Result<set<nat>>)
    ensures Id !in t.columns ==> r == Err(MissingColumn(Id))
    ensures r.Ok? <==> Id in t.columns && HasColumns(t, attrs) && attrs != []
    ensures r.Ok? ==> (HasColumns(t, attrs) && Id in t.columns &&
      forall i: nat :: i in r.value <==> i < |t.rows| && CertainlyIn(t, attrs, Elements(X), i))
  {
    if Id !in t.columns then Err(MissingColumn(Id))
    else match GroupBy(t, attrs)
      case Err(e) => Err(e)
      case Ok(P) =>
        var r := LowerRows(t, P, Elements(X));
        assert forall i: nat :: i in r <==> i < |t.rows| && CertainlyIn(t, attrs, Elements(X), i) by {
          forall i: nat ensures i in r <==> i < |t.rows| && CertainlyIn(t, attrs, Elements(X), i) {
            LowerRowsAre(t, attrs, P, Elements(X), i);
          }
        }
        Ok(r)
  }

  /** `b_upper_approximation_for_X`: the rows possibly in X. */
  function UpperApproximation(t: Table, X: seq<Value>, attrs: seq<string>): (r: Result<set<nat>>)
    ensures Id !in t.columns ==> r == Err(MissingColumn(Id))
    ensures r.Ok? <==> Id in t.columns && HasColumns(t, attrs) && attrs != []
    ensures r.Ok? ==> (HasColumns(t, attrs) && Id in t.columns &&
      forall i: nat :: i in r.value <==> i < |t.rows| && PossiblyIn(t, attrs, Elements(X), i))
  {
    if Id !in t.columns then Err(MissingColumn(Id))
    else match GroupBy(t, attrs)
      case Err(e) => Err(e)
      case Ok(P) =>
        var r := UpperRows(t, P, Elements(X));
        assert forall i: nat :: i in r <==> i < |t.rows| && PossiblyIn(t, attrs, Elements(X), i) by {
          forall i: nat ensures i in r <==> i < |t.rows| && PossiblyIn(t, attrs, Elements(X), i) {
            UpperRowsAre(t, attrs, P, Elements(X), i);
          }
        }
        Ok(r)
  }

  /** `positive_region`: the rows whose class determines the decision. */
  function PositiveRegion(t: Table, d: string, attrs: seq<string>): (r: Result<set<nat>>)
    ensures d !in t.columns ==> r == Err(MissingColumn(d))
    ensures r.Ok? <==> d in t.columns && HasColumns(t, attrs) && attrs != []
    ensures r.Ok? ==> (HasColumns(t, attrs) && d in t.columns &&
      forall i: nat :: i in r.value <==> i < |t.rows| && Consistent(t, attrs, d, i))
  {
    if d !in t.columns then Err(MissingColumn(d))
    else match GroupBy(t, attrs)
      case Err(e) => Err(e)
      case Ok(P) =>
        var r := PositiveRows(t, P, d);
        assert forall i: nat :: i in r <==> i < |t.rows| && Consistent(t, attrs, d, i) by {
          forall i: nat ensures i in r <==> i < |t.rows| && Consistent(t, attrs, d, i) {
            PositiveRowsAre(t, attrs, P, d, i);
          }
        }
        Ok(r)
  }

  /** `dependency_degree`: the share of rows in the positive region. */
  function DependencyDegree(t: Table, d: string, attrs: seq<string>): (r: Result<real>)
    ensures |t.rows| == 0 ==> r == Err(EmptyTable)
    ensures r.Ok? <==> |t.rows| > 0 && d in t.columns && HasColumns(t, attrs) && attrs != []
    ensures r.Ok? ==> 0.0 <= r.value <= 1.0
    ensures r.Ok? ==> (HasColumns(t, attrs) && d in t.columns &&
      (r.value == 1.0 <==> forall i: nat :: i < |t.rows| ==> Consistent(t, attrs, d, i)))
  {
    if |t.rows| == 0 then Err(EmptyTable)
    else match PositiveRegion(t, d, attrs)
      case Err(e) => Err(e)
      case Ok(pos) =>
        SubsetOfRange(pos, |t.rows|);
        assert (forall i: nat :: i < |t.rows| ==> Consistent(t, attrs, d, i)) <==> pos == Range(|t.rows|);
        Share(|pos|, |t.rows|);
        Ok(|pos| as real / |t.rows| as real)
  }

  /** A count out of a positive total is a share in [0, 1], and the whole
      only when the count is the total. */
  lemma Share(a: nat, n: nat)
    requires 0 < n && a <= n
    ensures 0.0 <= a as real / n as real <= 1.0
    ensures a as real / n as real == 1.0 <==> a == n
  {
  }

  /** What a region function may be handed: a set of identifiers, or a
      DataFrame, whose `set(...)` is the set of its column labels. */
  datatype Collection = Ids(ids: set<Value>) | Frame(frame: Table, rows: set<nat>)

  function SetOf(c: Collection): (r: set<Value>)
    ensures c.Frame? ==> forall x :: x in r <==> x in c.frame.columns
  {
    match c
    case Ids(ids) => ids
    case Frame(f, _) => set x | x in f.columns
  }

  /** `boundary_region`: what is in the upper collection but not the lower. */
  function BoundaryRegion(lower: Collection, upper: Collection): (r: set<Value>)
    ensures forall x :: x in r <==> x in SetOf(upper) && x !in SetOf(lower)
  {
    SetOf(upper) - SetOf(lower)
  }

  /** `outside_region`: the identifiers not in the upper collection. */
  function OutsideRegion(t: Table, upper: Collection): (r: Result<set<Value>>)
    ensures r.Ok? <==> Id in t.columns
    ensures r.Ok? ==> forall x :: x in r.value <==> x in AllIds(t) && x !in SetOf(upper)
  {
    if Id !in t.columns then Err(MissingColumn(Id))
    else Ok(AllIds(t) - SetOf(upper))
  }

  /** The target set X as the caller passes it: only a list is accepted. */
  datatype Objects = List(items: seq<Value>) | Other(items: seq<Value>)

  /** The five rough-set results. */
  datatype Properties = Properties(lower: set<Value>, upper: set<Value>, boundary: set<Value>,
                                   outside: set<Value>, gamma: real)

  /** `calculate_rough_set_properties` as the algorithm package writes it:
      the boundary and outside regions are handed the approximation
      DataFrames themselves, so they work on column labels. */
  function CalculateRoughSetProperties(t: Table, X: Objects, attrs: seq<string>, d: string): (r: Result<Properties>)
    ensures !X.List? ==> r == Err(NotAList)
    ensures X.List? && !HasColumns(t, attrs) ==> r == Err(UnknownAttribute)
    ensures X.List? && HasColumns(t, attrs) && d !in t.columns ==> r == Err(MissingColumn(d))
    ensures X.List? && HasColumns(t, attrs) && d in t.columns && LowerApproximation(t, X.items, attrs).Err? ==>
              r == Err(LowerApproximation(t, X.items, attrs).error)
    ensures r.Ok? <==> X.List? && HasColumns(t, attrs) && d in t.columns && Id in t.columns
                       && attrs != [] && |t.rows| > 0
    ensures r.Ok? ==> r.value.boundary == {}
    ensures r.Ok? ==> (Id in t.columns &&
      forall x :: x in r.value.outside <==> x in AllIds(t) && x !in t.columns)
    ensures r.Ok? ==> && r.value.lower == IdsOf(t, LowerApproximation(t, X.items, attrs).value)
                      && r.value.upper == IdsOf(t, UpperApproximation(t, X.items, attrs).value)
                      && DependencyDegree(t, d, attrs) == Ok(r.value.gamma)
  {
    if !X.List? then Err(NotAList)
    else if !HasColumns(t, attrs) then Err(UnknownAttribute)
    else if d !in t.columns then Err(MissingColumn(d))
    else match LowerApproximation(t, X.items, attrs)
      case Err(e) => Err(e)
      case Ok(lower) =>
        match UpperApproximation(t, X.items, attrs)
        case Err(e) => Err(e)
        case Ok(upper) =>
          match DependencyDegree(t, d, attrs)
          case Err(e) => Err(e)
          case Ok(gamma) =>
            var boundary := BoundaryRegion(Frame(t, lower), Frame(t, upper));
            match OutsideRegion(t, Frame(t, upper))
            case Err(e) => Err(e)
            case Ok(outside) =>
              assert boundary == {};
              Ok(Properties(IdsOf(t, lower), IdsOf(t, upper), boundary, outside, gamma))
  }
}
