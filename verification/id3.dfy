/** ID3 decision-tree induction: the impurity of a target column (entropy or
    the Gini index over its relative value frequencies), the information gain
    of splitting on a feature, the choice of the best feature, and the
    recursive construction of the tree. */
module Id3 {
  import opened Results
  import opened Counting
  import opened Text
  import opened Tables
  import opened Frequencies

  /** A learned tree: a class value, or a test on one attribute with one
      subtree per value the attribute took in the training rows. */
  datatype Tree = Leaf(outcome: Value) | Node(attr: string, children: map<Value, Tree>)

  /** The impurity measure. Information gain works over entropy, whose
      base-2 logarithm is supplied with it; the other measure is the Gini
      index. */
  datatype Method = Gain(log2: real -> real) | Gini

  // ---------------------------------------------------------------------
  // Relative frequencies and impurity
  // ---------------------------------------------------------------------

  /** The base-2 logarithm of each probability. */
  function Logs(ps: seq<real>, log2: real -> real): (r: seq<real>)
    ensures |r| == |ps|
    ensures forall k :: 0 <= k < |ps| ==> r[k] == log2(ps[k])
  {
    seq(|ps|, k requires 0 <= k < |ps| => log2(ps[k]))
  }

  /** The squared relative frequencies of the values `vs` in `col`, summed:
      each term is p * p for p = count / rows, written as count * count over
      rows * rows. */
  function SquaredShares(vs: seq<Value>, col: seq<Value>): real
    requires forall v :: v in vs ==> v in col
  {
    if vs == [] then 0.0
    else
      var c := Count(col, vs[|vs| - 1]);
      SquaredShares(vs[..|vs| - 1], col) + (c * c) as real / (|col| * |col|) as real
  }

  /** The squared occurrence counts of the values `vs` in `col`, summed. */
  function SquaredCounts(vs: seq<Value>, col: seq<Value>): int {
    if vs == [] then 0
    else
      var c := Count(col, vs[|vs| - 1]);
      SquaredCounts(vs[..|vs| - 1], col) + c * c
  }

  /** `gini_index`: one minus the sum of the squared probabilities. */
  function GiniIndex(col: seq<Value>): real {
    1.0 - SquaredShares(Unique(col), col)
  }

  /** `entropy`: minus the sum of p * log2(p) over the probabilities. */
  function Entropy(col: seq<Value>, log2: real -> real): real {
    var ps := Probabilities(col);
    -Dot(ps, Logs(ps, log2))
  }

  function Metric(m: Method, col: seq<Value>): real {
    match m
    case Gain(log2) => Entropy(col, log2)
    case Gini => GiniIndex(col)
  }

  lemma {:induction false} SquaredSharesSum(vs: seq<Value>, col: seq<Value>)
    requires forall v :: v in vs ==> v in col
    ensures col != [] ==> SquaredShares(vs, col) == SquaredCounts(vs, col) as real / (|col| * |col|) as real
  {
    if vs != [] {
      var c := Count(col, vs[|vs| - 1]);
      SquaredSharesSum(vs[..|vs| - 1], col);
      DivAdd(SquaredCounts(vs[..|vs| - 1], col) as real, (c * c) as real, (|col| * |col|) as real);
    }
  }

  /** Squared counts of values that all occur add up to at most the square of
      their total, and to exactly that only for a single value. */
  lemma {:induction false} SquaredCountsBelow(vs: seq<Value>, col: seq<Value>)
    requires forall v :: v in vs ==> v in col
    ensures CountSum(vs, col) >= |vs|
    ensures 0 <= SquaredCounts(vs, col) <= CountSum(vs, col) * CountSum(vs, col)
    ensures vs != [] ==> SquaredCounts(vs, col) > 0
    ensures SquaredCounts(vs, col) == CountSum(vs, col) * CountSum(vs, col) ==> |vs| <= 1
  {
    if vs != [] {
      var init := vs[..|vs| - 1];
      SquaredCountsBelow(init, col);
      SquareOfSum(CountSum(init, col), Count(col, vs[|vs| - 1]), SquaredCounts(init, col));
    }
  }

  lemma SquareOfSum(m: int, c: int, s: int)
    requires m >= 0 && c >= 1 && 0 <= s <= m * m
    ensures 0 < s + c * c <= (m + c) * (m + c)
    ensures s + c * c == (m + c) * (m + c) ==> m == 0
  {
    assert (m + c) * (m + c) == m * m + 2 * m * c + c * c;
    assert c * c > 0;
    if m > 0 {
      assert m * c > 0;
    }
  }

  /** The Gini index of an empty column is one; of a non-empty one it lies
      in [0, 1), and it is zero exactly when every value is the same. */
  lemma GiniRange(col: seq<Value>)
    ensures col == [] ==> GiniIndex(col) == 1.0
    ensures col != [] ==> 0.0 <= GiniIndex(col) < 1.0
    ensures col != [] ==> (GiniIndex(col) == 0.0 <==> forall i :: 0 <= i < |col| ==> col[i] == col[0])
  {
    var u := Unique(col);
    if col != [] {
      var n := |col|;
      SquaredSharesSum(u, col);
      SquaredCountsBelow(u, col);
      UniqueCountSum(col);
      assert col[0] in u;
      var a := SquaredCounts(u, col);
      DivBounds(a as real, (n * n) as real);
      DivOneIff(a as real, (n * n) as real);
      UniqueSingleton(col);
    }
  }

  /** Positive weights of non-positive values sum to at most zero, and to
      zero only when every value is zero. */
  lemma {:induction false} DotNonPositive(xs: seq<real>, ys: seq<real>)
    requires |xs| == |ys|
    requires forall k :: 0 <= k < |xs| ==> xs[k] > 0.0 && ys[k] <= 0.0
    ensures Dot(xs, ys) <= 0.0
    ensures Dot(xs, ys) == 0.0 ==> forall k :: 0 <= k < |ys| ==> ys[k] == 0.0
  {
    if xs != [] {
      var n := |xs| - 1;
      DotNonPositive(xs[..n], ys[..n]);
      MulNonPositive(xs[n], ys[n]);
      if ys[n] < 0.0 {
        MulNegative(xs[n], ys[n]);
      }
      if Dot(xs, ys) == 0.0 {
        forall k | 0 <= k < |ys|
          ensures ys[k] == 0.0
        {
          if k < n {
            assert ys[k] == ys[..n][k];
          }
        }
      }
    }
  }

  /** With a logarithm that is non-positive on (0, 1] the entropy is
      never negative. */
  lemma EntropyNonNegative(col: seq<Value>, log2: real -> real)
    requires forall p :: 0.0 < p <= 1.0 ==> log2(p) <= 0.0
    ensures Entropy(col, log2) >= 0.0
  {
    var ps := Probabilities(col);
    DotNonPositive(ps, Logs(ps, log2));
  }

  /** With a logarithm that is zero at 1 and negative below, the entropy of
      a non-empty column is zero exactly when it holds a single value. */
  lemma EntropyZero(col: seq<Value>, log2: real -> real)
    requires log2(1.0) == 0.0 && forall p :: 0.0 < p < 1.0 ==> log2(p) < 0.0
    requires col != []
    ensures Entropy(col, log2) == 0.0 <==> forall i :: 0 <= i < |col| ==> col[i] == col[0]
  {
    if Entropy(col, log2) == 0.0 {
      EntropyZeroPure(col, log2);
    }
    if forall i :: 0 <= i < |col| ==> col[i] == col[0] {
      PureEntropy(col, log2);
    }
  }

  lemma EntropyZeroPure(col: seq<Value>, log2: real -> real)
    requires log2(1.0) == 0.0 && forall p :: 0.0 < p < 1.0 ==> log2(p) < 0.0
    requires col != [] && Entropy(col, log2) == 0.0
    ensures forall i :: 0 <= i < |col| ==> col[i] == col[0]
  {
    var ps := Probabilities(col);
    ZeroPLogPOnes(ps, log2);
    SumOnes(ps);
    assert |Unique(col)| == 1;
    UniqueSingleton(col);
  }

  /** Probabilities whose p * log2(p) terms sum to zero are all one. */
  lemma ZeroPLogPOnes(ps: seq<real>, log2: real -> real)
    requires log2(1.0) == 0.0 && forall p :: 0.0 < p < 1.0 ==> log2(p) < 0.0
    requires forall k :: 0 <= k < |ps| ==> 0.0 < ps[k] <= 1.0
    requires Dot(ps, Logs(ps, log2)) == 0.0
    ensures forall k :: 0 <= k < |ps| ==> ps[k] == 1.0
  {
    var ls := Logs(ps, log2);
    forall k | 0 <= k < |ps|
      ensures ls[k] <= 0.0
    {
      if ps[k] == 1.0 {
        assert ls[k] == log2(1.0);
      }
    }
    DotNonPositive(ps, ls);
    forall k | 0 <= k < |ps|
      ensures ps[k] == 1.0
    {
      assert log2(ps[k]) == 0.0;
    }
  }

  lemma PureEntropy(col: seq<Value>, log2: real -> real)
    requires log2(1.0) == 0.0
    requires col != [] && forall i :: 0 <= i < |col| ==> col[i] == col[0]
    ensures Entropy(col, log2) == 0.0
  {
    SingleProbability(col);
    CertainPLogP(log2);
  }

  lemma CertainPLogP(log2: real -> real)
    requires log2(1.0) == 0.0
    ensures Dot([1.0], Logs([1.0], log2)) == 0.0
  {
    var ls := Logs([1.0], log2);
    assert ls == [0.0];
    assert [1.0][..0] == [] && ls[..0] == [];
  }

  /** A column holding one value has the single probability one. */
  lemma SingleProbability(col: seq<Value>)
    requires col != [] && forall i :: 0 <= i < |col| ==> col[i] == col[0]
    ensures Probabilities(col) == [1.0]
  {
    UniqueSingleton(col);
    var ps := Probabilities(col);
    assert |ps| == 1;
    DivSelf(|col| as real);
    assert Count(col, col[0]) == |col| by {
      CountAll(col);
    }
  }

  lemma {:induction false} CountAll(col: seq<Value>)
    requires col != [] && forall i :: 0 <= i < |col| ==> col[i] == col[0]
    ensures Count(col, col[0]) == |col|
  {
    if |col| > 1 {
      CountAll(col[..|col| - 1]);
    }
  }

  /** The impurity of a non-empty column is never negative. */
  lemma MetricNonNegative(m: Method, col: seq<Value>)
    requires col != []
    requires m.Gain? ==> forall p :: 0.0 < p <= 1.0 ==> m.log2(p) <= 0.0
    ensures Metric(m, col) >= 0.0
  {
    match m
    case Gain(log2) => EntropyNonNegative(col, log2);
    case Gini => GiniRange(col);
  }

  // ---------------------------------------------------------------------
  // Information gain
  // ---------------------------------------------------------------------

  /** `len(subset) / total_rows` for the rows whose `feature` is `v`. */
  function Share(t: Table, feature: string, v: Value): real
    requires feature in t.columns && v in Column(t, feature)
  {
    |Where(t, feature, v).rows| as real / |t.rows| as real
  }

  /** The share of a value is its relative frequency in the feature. */
  lemma ShareIs(t: Table, feature: string, v: Value)
    requires feature in t.columns && v in Column(t, feature)
    ensures Share(t, feature, v) == Count(Column(t, feature), v) as real / |t.rows| as real
    ensures 0.0 < Share(t, feature, v) <= 1.0
  {
    WhereCount(t, feature, v);
    DivBounds(Count(Column(t, feature), v) as real, |t.rows| as real);
  }

  function Shares(t: Table, feature: string, vs: seq<Value>): (r: seq<real>)
    requires feature in t.columns && forall v :: v in vs ==> v in Column(t, feature)
    ensures |r| == |vs|
    ensures forall k :: 0 <= k < |vs| ==> r[k] == Share(t, feature, vs[k])
  {
    seq(|vs|, k requires 0 <= k < |vs| => Share(t, feature, vs[k]))
  }

  /** The impurity of the target within the subset of each value. */
  function Impurities(t: Table, target: string, feature: string, m: Method, vs: seq<Value>): (r: seq<real>)
    requires feature in t.columns && target in t.columns
    ensures |r| == |vs|
    ensures forall k :: 0 <= k < |vs| ==> r[k] == Metric(m, Column(Where(t, feature, vs[k]), target))
  {
    seq(|vs|, k requires 0 <= k < |vs| => Metric(m, Column(Where(t, feature, vs[k]), target)))
  }

  /** The subset impurities weighted by the subset shares, summed. */
  function Weighted(t: Table, target: string, feature: string, m: Method, vs: seq<Value>): real
    requires feature in t.columns && target in t.columns
    requires forall v :: v in vs ==> v in Column(t, feature)
  {
    Dot(Shares(t, feature, vs), Impurities(t, target, feature, m, vs))
  }

  /** `information_gain`: the parent impurity minus the weighted impurity of
      the subsets a feature splits the rows into, one subset per distinct
      value of the feature. */
  function InformationGain(t: Table, target: string, feature: string, m: Method): (r: Result<real>)
    ensures feature !in t.columns ==> r == Err(MissingColumn(feature))
    ensures feature in t.columns && target !in t.columns ==> r == Err(MissingColumn(target))
    ensures r.Ok? <==> feature in t.columns && target in t.columns
  {
    if feature !in t.columns then Err(MissingColumn(feature))
    else if target !in t.columns then Err(MissingColumn(target))
    else Ok(Metric(m, Column(t, target)) - Weighted(t, target, feature, m, Unique(Column(t, feature))))
  }

  /** The subsets of a split share out all the rows: their shares add up to
      one. */
  lemma SharesSumToOne(t: Table, feature: string)
    requires feature in t.columns && t.rows != []
    ensures Sum(Shares(t, feature, Unique(Column(t, feature)))) == 1.0
  {
    SharesAreProbabilities(t, feature);
  }

  /** The shares of a split are the relative frequencies of the feature. */
  lemma SharesAreProbabilities(t: Table, feature: string)
    requires feature in t.columns
    ensures Shares(t, feature, Unique(Column(t, feature))) == Probabilities(Column(t, feature))
  {
    var col := Column(t, feature);
    var u := Unique(col);
    forall k | 0 <= k < |u|
      ensures Shares(t, feature, u)[k] == Probabilities(col)[k]
    {
      ShareIs(t, feature, u[k]);
    }
  }

  /** The weighted impurity is never negative. */
  lemma WeightedNonNegative(t: Table, target: string, feature: string, m: Method, vs: seq<Value>)
    requires feature in t.columns && target in t.columns
    requires forall v :: v in vs ==> v in Column(t, feature)
    requires m.Gain? ==> forall p :: 0.0 < p <= 1.0 ==> m.log2(p) <= 0.0
    ensures Weighted(t, target, feature, m, vs) >= 0.0
  {
    var xs := Shares(t, feature, vs);
    var ys := Impurities(t, target, feature, m, vs);
    forall k | 0 <= k < |vs|
      ensures xs[k] >= 0.0 && ys[k] >= 0.0
    {
      WhereNonEmpty(t, feature, vs[k]);
      ShareIs(t, feature, vs[k]);
      MetricNonNegative(m, Column(Where(t, feature, vs[k]), target));
    }
    DotNonNegative(xs, ys);
  }

  /** Splitting never raises the impurity: the gain is at most the parent's. */
  lemma GainAtMostParent(t: Table, target: string, feature: string, m: Method)
    requires feature in t.columns && target in t.columns
    requires m.Gain? ==> forall p :: 0.0 < p <= 1.0 ==> m.log2(p) <= 0.0
    ensures InformationGain(t, target, feature, m).value <= Metric(m, Column(t, target))
  {
    WeightedNonNegative(t, target, feature, m, Unique(Column(t, feature)));
  }

  /** A feature with one value over all rows gains nothing. */
  lemma ConstantFeatureGain(t: Table, target: string, feature: string, m: Method)
    requires feature in t.columns && target in t.columns && t.rows != []
    requires forall i :: 0 <= i < |t.rows| ==> t.rows[i][feature] == t.rows[0][feature]
    ensures InformationGain(t, target, feature, m) == Ok(0.0)
  {
    var parent := Metric(m, Column(t, target));
    ConstantWeighted(t, target, feature, m);
    assert InformationGain(t, target, feature, m) == Ok(parent - parent);
  }

  lemma ConstantWeighted(t: Table, target: string, feature: string, m: Method)
    requires feature in t.columns && target in t.columns && t.rows != []
    requires forall i :: 0 <= i < |t.rows| ==> t.rows[i][feature] == t.rows[0][feature]
    ensures Weighted(t, target, feature, m, Unique(Column(t, feature))) == Metric(m, Column(t, target))
  {
    ConstantShares(t, feature);
    ImpuritiesOfWhole(t, target, feature, m, t.rows[0][feature]);
    DotOne(Metric(m, Column(t, target)));
  }

  lemma ImpuritiesOfWhole(t: Table, target: string, feature: string, m: Method, v: Value)
    requires feature in t.columns && target in t.columns
    requires Where(t, feature, v) == t
    ensures Impurities(t, target, feature, m, [v]) == [Metric(m, Column(t, target))]
  {
  }

  /** A constant feature has one value, selecting every row. */
  lemma ConstantShares(t: Table, feature: string)
    requires feature in t.columns && t.rows != []
    requires forall i :: 0 <= i < |t.rows| ==> t.rows[i][feature] == t.rows[0][feature]
    ensures Unique(Column(t, feature)) == [t.rows[0][feature]]
    ensures Where(t, feature, t.rows[0][feature]) == t
    ensures Shares(t, feature, [t.rows[0][feature]]) == [1.0]
  {
    ConstantUnique(t, feature);
    ConstantWhere(t, feature);
    ConstantShare(t, feature);
  }

  lemma ConstantUnique(t: Table, feature: string)
    requires feature in t.columns && t.rows != []
    requires forall i :: 0 <= i < |t.rows| ==> t.rows[i][feature] == t.rows[0][feature]
    ensures Unique(Column(t, feature)) == [t.rows[0][feature]]
  {
    var col := Column(t, feature);
    assert forall i :: 0 <= i < |col| ==> col[i] == col[0];
    UniqueSingleton(col);
  }

  lemma ConstantWhere(t: Table, feature: string)
    requires feature in t.columns && t.rows != []
    requires forall i :: 0 <= i < |t.rows| ==> t.rows[i][feature] == t.rows[0][feature]
    ensures Where(t, feature, t.rows[0][feature]) == t
  {
    FilterAll(t.rows, feature, t.rows[0][feature]);
  }

  lemma ConstantShare(t: Table, feature: string)
    requires feature in t.columns && t.rows != []
    requires Where(t, feature, t.rows[0][feature]) == t
    ensures t.rows[0][feature] in Column(t, feature)
    ensures Shares(t, feature, [t.rows[0][feature]]) == [1.0]
  {
    var v := t.rows[0][feature];
    assert Column(t, feature)[0] == v;
    DivSelf(|t.rows| as real);
    assert Share(t, feature, v) == 1.0;
  }

  /** Every value of the feature determines the target. */
  ghost predicate Determines(t: Table, feature: string, target: string)
    requires feature in t.columns && target in t.columns
  {
    forall i, j :: 0 <= i < |t.rows| && 0 <= j < |t.rows| && t.rows[i][feature] == t.rows[j][feature] ==>
      t.rows[i][target] == t.rows[j][target]
  }

  /** A subset of rows sharing a value of a determining feature is pure. */
  lemma PureSubset(t: Table, target: string, feature: string, m: Method, v: Value)
    requires feature in t.columns && target in t.columns
    requires Determines(t, feature, target) && v in Column(t, feature)
    requires m.Gain? ==> m.log2(1.0) == 0.0
    ensures Metric(m, Column(Where(t, feature, v), target)) == 0.0
  {
    var w := Where(t, feature, v);
    var col := Column(w, target);
    WhereNonEmpty(t, feature, v);
    assert w.rows[0] in t.rows;
    var j0 :| 0 <= j0 < |t.rows| && t.rows[j0] == w.rows[0];
    forall k | 0 <= k < |col|
      ensures col[k] == col[0]
    {
      assert w.rows[k] in t.rows;
      var j :| 0 <= j < |t.rows| && t.rows[j] == w.rows[k];
      assert t.rows[j][feature] == t.rows[j0][feature];
    }
    PureImpurity(m, col);
  }

  /** A column holding one value has no impurity. */
  lemma PureImpurity(m: Method, col: seq<Value>)
    requires col != [] && forall k :: 0 <= k < |col| ==> col[k] == col[0]
    requires m.Gain? ==> m.log2(1.0) == 0.0
    ensures Metric(m, col) == 0.0
  {
    match m
    case Gain(log2) => PureEntropy(col, log2);
    case Gini => GiniRange(col);
  }

  /** A split that separates the classes completely gains the whole parent
      impurity. */
  lemma PureSplitGain(t: Table, target: string, feature: string, m: Method)
    requires feature in t.columns && target in t.columns
    requires Determines(t, feature, target)
    requires m.Gain? ==> m.log2(1.0) == 0.0
    ensures InformationGain(t, target, feature, m) == Ok(Metric(m, Column(t, target)))
  {
    var vs := Unique(Column(t, feature));
    forall k | 0 <= k < |vs|
      ensures Impurities(t, target, feature, m, vs)[k] == 0.0
    {
      PureSubset(t, target, feature, m, vs[k]);
    }
    WeightedZero(t, target, feature, m, vs);
  }

  lemma WeightedZero(t: Table, target: string, feature: string, m: Method, vs: seq<Value>)
    requires feature in t.columns && target in t.columns
    requires forall v :: v in vs ==> v in Column(t, feature)
    requires forall k :: 0 <= k < |vs| ==> Impurities(t, target, feature, m, vs)[k] == 0.0
    ensures Weighted(t, target, feature, m, vs) == 0.0
  {
    var xs := Shares(t, feature, vs);
    var ys := Impurities(t, target, feature, m, vs);
    DotZero(xs, ys);
  }

  // ---------------------------------------------------------------------
  // Best split
  // ---------------------------------------------------------------------

  function GainOf(t: Table, target: string, feature: string, m: Method): real
    requires feature in t.columns && target in t.columns
  {
    InformationGain(t, target, feature, m).value
  }

  function Gains(t: Table, target: string, m: Method, fs: seq<string>): (r: seq<real>)
    requires target in t.columns && forall f :: f in fs ==> f in t.columns
    ensures |r| == |fs|
    ensures forall k :: 0 <= k < |fs| ==> r[k] == GainOf(t, target, fs[k], m)
  {
    seq(|fs|, k requires 0 <= k < |fs| => GainOf(t, target, fs[k], m))
  }

  /** `best_split`: among the non-target columns, in column order, the first
      whose gain is largest. With no such column `max` has nothing to pick;
      a missing target fails in the gain computation. */
  function BestSplit(t: Table, target: string, m: Method): (r: Result<string>)
    ensures Remove(t.columns, target) == [] ==> r == Err(EmptyMax)
    ensures Remove(t.columns, target) != [] && target !in t.columns ==> r == Err(MissingColumn(target))
    ensures r.Ok? <==> target in t.columns && |t.columns| > 1
    ensures r.Ok? ==> r.value in t.columns && r.value != target
    ensures r.Ok? ==> forall f :: f in t.columns && f != target ==>
                        GainOf(t, target, f, m) <= GainOf(t, target, r.value, m)
    ensures r.Ok? ==> var fs := Remove(t.columns, target);
                      forall j :: 0 <= j < |fs| && fs[j] == r.value ==>
                        forall i :: 0 <= i < j ==> GainOf(t, target, fs[i], m) < GainOf(t, target, r.value, m)
  {
    var fs := Remove(t.columns, target);
    if fs == [] then Err(EmptyMax)
    else if target !in t.columns then Err(MissingColumn(target))
    else
      var k := FirstMax(Gains(t, target, m, fs));
      FirstBest(t, target, m, fs, k);
      Ok(fs[k])
  }

  /** The first maximum of the gains names a feature of greatest gain, and
      every feature before it gains strictly less. */
  lemma FirstBest(t: Table, target: string, m: Method, fs: seq<string>, k: nat)
    requires target in t.columns && fs == Remove(t.columns, target) && fs != []
    requires k == FirstMax(Gains(t, target, m, fs))
    ensures fs[k] in t.columns && fs[k] != target
    ensures forall f :: f in t.columns && f != target ==> GainOf(t, target, f, m) <= GainOf(t, target, fs[k], m)
    ensures forall j :: 0 <= j < |fs| && fs[j] == fs[k] ==>
              forall i :: 0 <= i < j ==> GainOf(t, target, fs[i], m) < GainOf(t, target, fs[k], m)
  {
    BestGain(t, target, m, fs, k);
    BestFirst(t, target, m, fs, k);
  }

  lemma BestGain(t: Table, target: string, m: Method, fs: seq<string>, k: nat)
    requires target in t.columns && fs == Remove(t.columns, target) && fs != []
    requires k == FirstMax(Gains(t, target, m, fs))
    ensures fs[k] in t.columns && fs[k] != target
    ensures forall f :: f in t.columns && f != target ==> GainOf(t, target, f, m) <= GainOf(t, target, fs[k], m)
  {
    var gains := Gains(t, target, m, fs);
    assert fs[k] in fs;
    forall f | f in t.columns && f != target
      ensures GainOf(t, target, f, m) <= GainOf(t, target, fs[k], m)
    {
      var j :| 0 <= j < |fs| && fs[j] == f;
      assert gains[j] <= gains[k];
    }
  }

  lemma BestFirst(t: Table, target: string, m: Method, fs: seq<string>, k: nat)
    requires target in t.columns && fs == Remove(t.columns, target) && fs != []
    requires k == FirstMax(Gains(t, target, m, fs))
    ensures forall j :: 0 <= j < |fs| && fs[j] == fs[k] ==>
              forall i :: 0 <= i < j ==> GainOf(t, target, fs[i], m) < GainOf(t, target, fs[k], m)
  {
    var gains := Gains(t, target, m, fs);
    forall j | 0 <= j < |fs| && fs[j] == fs[k]
      ensures j == k
    {
      NoDupIndex(fs, j, k);
    }
    forall i | 0 <= i < k
      ensures GainOf(t, target, fs[i], m) < GainOf(t, target, fs[k], m)
    {
      assert gains[i] < gains[k];
    }
  }

  // ---------------------------------------------------------------------
  // Mode
  // ---------------------------------------------------------------------

  /** `m` is what `col.mode()[0]` gives: a most frequent value, the least
      in string order among equally frequent ones. */
  ghost predicate IsMode(m: Value, col: seq<Value>) {
    && m in col
    && (forall x :: x in col ==> Count(col, x) <= Count(col, m))
    && (forall x :: x in col && Count(col, x) == Count(col, m) ==> x == m || LexLess(m, x))
  }

  function Mode(col: seq<Value>): (m: Value)
    requires col != []
    ensures IsMode(m, col)
  {
    var values := set v | v in col;
    var vs := SortSet(values);
    assert forall x :: x in col <==> x in values;
    var counts := seq(|vs|, k requires 0 <= k < |vs| => Count(col, vs[k]) as real);
    assert col[0] in vs;
    var k := FirstMax(counts);
    SortedMode(col, vs, counts, k);
    vs[k]
  }

  /** The first most frequent of the sorted distinct values is the mode. */
  lemma SortedMode(col: seq<Value>, vs: seq<Value>, counts: seq<real>, k: nat)
    requires forall x :: x in col <==> x in vs
    requires StrictlySorted(vs)
    requires |counts| == |vs| && k < |vs|
    requires forall j :: 0 <= j < |vs| ==> counts[j] == Count(col, vs[j]) as real
    requires forall j :: 0 <= j < |vs| ==> counts[j] <= counts[k]
    requires forall j :: 0 <= j < k ==> counts[j] < counts[k]
    ensures IsMode(vs[k], col)
  {
    forall x | x in col
      ensures Count(col, x) <= Count(col, vs[k])
      ensures Count(col, x) == Count(col, vs[k]) ==> x == vs[k] || LexLess(vs[k], x)
    {
      var j :| 0 <= j < |vs| && vs[j] == x;
      assert counts[j] <= counts[k];
      if j < k {
        assert counts[j] < counts[k];
      }
    }
  }

  /** There is only one such value. */
  lemma ModeUnique(a: Value, b: Value, col: seq<Value>)
    requires IsMode(a, col) && IsMode(b, col)
    ensures a == b
  {
    if a != b {
      LexAsymmetric(a, b);
    }
  }

  // ---------------------------------------------------------------------
  // Tree construction
  // ---------------------------------------------------------------------

  /** The non-target column names. */
  function Features(t: Table, target: string): set<string> {
    set c | c in t.columns && c != target
  }

  /** The rows whose `feature` is `v`, without that column. */
  function Child(t: Table, feature: string, v: Value): (r: Table)
    requires feature in t.columns
    ensures |r.columns| == |t.columns| - 1
  {
    Drop(Where(t, feature, v), feature)
  }

  /** Every test in the tree is on an attribute of `attrs`, and no path tests
      the same attribute twice. */
  predicate UsesOnly(tree: Tree, attrs: set<string>) {
    match tree
    case Leaf(_) => true
    case Node(a, ch) => a in attrs && forall v :: v in ch ==> UsesOnly(ch[v], attrs - {a})
  }

  /** `build_tree`. A column with one distinct value gives a leaf with that
      value; a table with only the target column gives a leaf with its mode;
      otherwise a node on the best feature, one child per distinct value of
      it, each grown from the matching rows without that feature. */
  function BuildTree(t: Table, target: string, m: Method): (r: Result<Tree>)
    ensures r.Err? <==> target !in t.columns || (t.columns == [target] && t.rows == [])
    ensures target !in t.columns ==> r == Err(MissingColumn(target))
    ensures r.Ok? ==> UsesOnly(r.value, Features(t, target))
    ensures r.Ok? && r.value.Node? ==>
              && BestSplit(t, target, m) == Ok(r.value.attr)
              && (forall v :: v in r.value.children <==> v in Column(t, r.value.attr))
              && forall v :: v in r.value.children ==>
                   BuildTree(Child(t, r.value.attr, v), target, m) == Ok(r.value.children[v])
    decreases |t.columns|, 1
  {
    if target !in t.columns then Err(MissingColumn(target))
    else
      var col := Column(t, target);
      UniqueSingletonOn(col);
      if |Unique(col)| == 1 then Ok(Leaf(col[0]))
      else if |t.columns| == 1 then
        OnlyColumn(t.columns, target);
        if col == [] then Err(EmptyData) else Ok(Leaf(Mode(col)))
      else
        var best := BestSplit(t, target, m).value;
        var ch := BuildChildren(t, target, m, best, Unique(Column(t, best)));
        if ch.Err? then Err(ch.error)
        else
          ChildFeatures(t, target, best);
          Ok(Node(best, ch.value))
  }

  /** Rows that all share one target value give a leaf with that value. */
  lemma PureLeaf(t: Table, target: string, m: Method)
    requires target in t.columns && t.rows != []
    requires forall i :: 0 <= i < |t.rows| ==> t.rows[i][target] == t.rows[0][target]
    ensures BuildTree(t, target, m) == Ok(Leaf(t.rows[0][target]))
  {
    UniqueSingletonOn(Column(t, target));
  }

  /** With only the target column left, the leaf holds the mode of the
      target, unless the target column is pure. */
  lemma ModeLeaf(t: Table, target: string, m: Method)
    requires t.columns == [target] && t.rows != []
    ensures BuildTree(t, target, m).Ok? && BuildTree(t, target, m).value.Leaf?
    ensures var col := Column(t, target);
            BuildTree(t, target, m).value.outcome == if |Unique(col)| == 1 then col[0] else Mode(col)
    ensures IsMode(BuildTree(t, target, m).value.outcome, Column(t, target))
  {
    var col := Column(t, target);
    UniqueSingletonOn(col);
    if |Unique(col)| == 1 {
      PureMode(col);
    }
  }

  /** The value of a pure column is its mode. */
  lemma PureMode(col: seq<Value>)
    requires col != [] && forall i :: 0 <= i < |col| ==> col[i] == col[0]
    ensures IsMode(col[0], col)
  {
    forall x | x in col
      ensures x == col[0]
    {
    }
  }

  /** The subtrees for the values `vs`, in order; the first failure wins. */
  function BuildChildren(t: Table, target: string, m: Method, best: string, vs: seq<Value>)
    : (r: Result<map<Value, Tree>>)
    requires best in t.columns && best != target
    ensures (target in t.columns && forall v :: v in vs ==> v in Column(t, best)) ==> r.Ok?
    ensures r.Ok? ==> forall v :: v in r.value <==> v in vs
    ensures r.Ok? ==> forall v :: v in vs ==> BuildTree(Child(t, best, v), target, m) == Ok(r.value[v])
    decreases |t.columns|, 0, |vs|
  {
    if vs == [] then Ok(map[])
    else
      ChildNonEmpty(t, target, best, vs[0]);
      var sub := BuildTree(Child(t, best, vs[0]), target, m);
      if sub.Err? then Err(sub.error)
      else
        var rest := BuildChildren(t, target, m, best, vs[1..]);
        if rest.Err? then Err(rest.error)
        else
          assert forall v :: v in vs <==> v == vs[0] || v in vs[1..];
          Ok(rest.value[vs[0] := sub.value])
  }

  lemma UniqueSingletonOn(col: seq<Value>)
    ensures |Unique(col)| == 1 ==> col != [] && forall i :: 0 <= i < |col| ==> col[i] == col[0]
    ensures col != [] && (forall i :: 0 <= i < |col| ==> col[i] == col[0]) ==> |Unique(col)| == 1
  {
    if col != [] {
      UniqueSingleton(col);
    }
  }

  lemma OnlyColumn(cs: seq<string>, c: string)
    requires |cs| == 1 && c in cs
    ensures cs == [c]
  {
  }

  /** A value that occurs in the feature leaves a non-empty child that still
      has the target column. */
  lemma ChildNonEmpty(t: Table, target: string, best: string, v: Value)
    requires best in t.columns && best != target
    ensures v in Column(t, best) ==> Child(t, best, v).rows != []
    ensures target in t.columns ==> target in Child(t, best, v).columns
  {
    if v in Column(t, best) {
      var i :| 0 <= i < |t.rows| && t.rows[i][best] == v;
      assert t.rows[i] in Where(t, best, v).rows;
    }
  }

  lemma ChildFeatures(t: Table, target: string, best: string)
    requires best in t.columns && best != target
    ensures forall v :: Features(Child(t, best, v), target) == Features(t, target) - {best}
  {
  }

  /** `build_tree_and_store` keeps the tree it builds. */
  datatype Id3Model = Id3Model(tree: Option<Tree>)

  function BuildTreeAndStore(model: Id3Model, t: Table, target: string, m: Method)
    : (r: Result<(Id3Model, Tree)>)
    ensures r.Ok? <==> BuildTree(t, target, m).Ok?
    ensures r.Err? ==> r.error == BuildTree(t, target, m).error
    ensures r.Ok? ==> r.value.0.tree == Some(r.value.1) && BuildTree(t, target, m) == Ok(r.value.1)
  {
    var tree := BuildTree(t, target, m);
    if tree.Err? then Err(tree.error) else Ok((model.(tree := Some(tree.value)), tree.value))
  }

  // ---------------------------------------------------------------------
  // Properties of the grown tree
  // ---------------------------------------------------------------------

  /** At most `k` tests on every path. */
  predicate DepthAtMost(tree: Tree, k: nat) {
    match tree
    case Leaf(_) => true
    case Node(_, ch) => k > 0 && forall v :: v in ch ==> DepthAtMost(ch[v], k - 1)
  }

  /** A tree testing only the attributes of `attrs`, none twice, is no
      deeper than there are attributes. */
  lemma {:induction false} UsesOnlyDepth(tree: Tree, attrs: set<string>)
    requires UsesOnly(tree, attrs)
    ensures DepthAtMost(tree, |attrs|)
  {
    match tree
    case Leaf(_) =>
    case Node(a, ch) =>
      forall v | v in ch
        ensures DepthAtMost(ch[v], |attrs| - 1)
      {
        UsesOnlyDepth(ch[v], attrs - {a});
      }
  }

  /** The grown tree is at most as deep as there are non-target columns. */
  lemma BuildTreeDepth(t: Table, target: string, m: Method)
    requires BuildTree(t, target, m).Ok?
    ensures DepthAtMost(BuildTree(t, target, m).value, |t.columns| - 1)
  {
    var tree := BuildTree(t, target, m).value;
    UsesOnlyDepth(tree, Features(t, target));
    FeaturesSize(t, target);
  }

  lemma FeaturesSize(t: Table, target: string)
    requires target in t.columns
    ensures |Features(t, target)| == |t.columns| - 1
  {
    var fs := Remove(t.columns, target);
    assert Features(t, target) == set c | c in fs;
    NoDupSetSize(fs);
  }

  /** Follow the tests from the root; a value the tree never saw has no
      answer. */
  function Classify(tree: Tree, row: Row): Option<Value> {
    match tree
    case Leaf(l) => Some(l)
    case Node(a, ch) => if a in row && row[a] in ch then Classify(ch[row[a]], row) else None
  }

  /** Rows that agree on every attribute a tree may test are classified
      alike. */
  lemma {:induction false} ClassifyIgnores(tree: Tree, attrs: set<string>, r1: Row, r2: Row)
    requires UsesOnly(tree, attrs)
    requires forall a :: a in attrs ==> (a in r1 <==> a in r2) && (a in r1 ==> r1[a] == r2[a])
    ensures Classify(tree, r1) == Classify(tree, r2)
  {
    match tree
    case Leaf(_) =>
    case Node(a, ch) =>
      if a in r1 && r1[a] in ch {
        ClassifyIgnores(ch[r1[a]], attrs - {a}, r1, r2);
      }
  }

  /** Rows agreeing on every non-target column agree on the target. */
  ghost predicate Consistent(t: Table, target: string)
    requires target in t.columns
  {
    forall i, j :: 0 <= i < |t.rows| && 0 <= j < |t.rows| && AgreeOn(t.rows[i], t.rows[j], Features(t, target)) ==>
      t.rows[i][target] == t.rows[j][target]
  }

  ghost predicate AgreeOn(r1: Row, r2: Row, attrs: set<string>) {
    forall a :: a in attrs ==> a in r1 && a in r2 && r1[a] == r2[a]
  }

  /** The rows of a child are the parent's rows with that value, minus the
      feature. */
  lemma ChildRow(t: Table, best: string, v: Value, k: nat)
    requires best in t.columns
    requires k < |Child(t, best, v).rows|
    ensures exists i :: 0 <= i < |t.rows| && t.rows[i][best] == v && Child(t, best, v).rows[k] == t.rows[i] - {best}
  {
    var w := Where(t, best, v);
    assert w.rows[k] in w.rows;
    var i :| 0 <= i < |t.rows| && t.rows[i] == w.rows[k];
  }

  lemma ChildRowOf(t: Table, best: string, i: nat)
    requires best in t.columns && i < |t.rows|
    ensures exists k :: 0 <= k < |Child(t, best, t.rows[i][best]).rows| &&
                        Child(t, best, t.rows[i][best]).rows[k] == t.rows[i] - {best}
  {
    var w := Where(t, best, t.rows[i][best]);
    var c := Child(t, best, t.rows[i][best]);
    assert t.rows[i] in w.rows;
    var k :| 0 <= k < |w.rows| && w.rows[k] == t.rows[i];
    assert c.rows[k] == w.rows[k] - {best};
  }

  /** Consistency carries over to every child. */
  lemma ChildConsistent(t: Table, target: string, best: string, v: Value)
    requires target in t.columns && best in t.columns && best != target
    requires Consistent(t, target)
    ensures target in Child(t, best, v).columns
    ensures Consistent(Child(t, best, v), target)
  {
    var c := Child(t, best, v);
    ChildFeatures(t, target, best);
    forall k, l | 0 <= k < |c.rows| && 0 <= l < |c.rows| && AgreeOn(c.rows[k], c.rows[l], Features(c, target))
      ensures c.rows[k][target] == c.rows[l][target]
    {
      ChildRowsConsistent(t, target, best, v, k, l);
    }
  }

  lemma ChildRowsConsistent(t: Table, target: string, best: string, v: Value, k: nat, l: nat)
    requires target in t.columns && best in t.columns && best != target
    requires Consistent(t, target)
    requires k < |Child(t, best, v).rows| && l < |Child(t, best, v).rows|
    requires AgreeOn(Child(t, best, v).rows[k], Child(t, best, v).rows[l], Features(t, target) - {best})
    ensures Child(t, best, v).rows[k][target] == Child(t, best, v).rows[l][target]
  {
    var c := Child(t, best, v);
    ChildRow(t, best, v, k);
    ChildRow(t, best, v, l);
    var i :| 0 <= i < |t.rows| && t.rows[i][best] == v && c.rows[k] == t.rows[i] - {best};
    var j :| 0 <= j < |t.rows| && t.rows[j][best] == v && c.rows[l] == t.rows[j] - {best};
    assert forall a :: a in Features(t, target) ==> a in t.rows[i] && a in t.rows[j];
    AgreeWithDropped(t.rows[i], t.rows[j], best, Features(t, target));
  }

  /** Rows that agree on `best` and, without it, on the rest of `attrs`
      agree on all of `attrs`. */
  lemma AgreeWithDropped(r1: Row, r2: Row, best: string, attrs: set<string>)
    requires forall a :: a in attrs ==> a in r1 && a in r2
    requires best in r1 && best in r2 && r1[best] == r2[best]
    requires AgreeOn(r1 - {best}, r2 - {best}, attrs - {best})
    ensures AgreeOn(r1, r2, attrs)
  {
    forall a | a in attrs
      ensures r1[a] == r2[a]
    {
      if a != best {
        assert (r1 - {best})[a] == (r2 - {best})[a];
      }
    }
  }

  /** On data where the non-target columns determine the target, the grown
      tree classifies every training row as its own target value. */
  lemma {:induction false} FitsConsistentData(t: Table, target: string, m: Method, i: nat)
    requires target in t.columns && Consistent(t, target)
    requires i < |t.rows|
    ensures BuildTree(t, target, m).Ok?
    ensures Classify(BuildTree(t, target, m).value, t.rows[i]) == Some(t.rows[i][target])
    decreases |t.columns|
  {
    var tree := BuildTree(t, target, m).value;
    var col := Column(t, target);
    UniqueSingletonOn(col);
    if |Unique(col)| == 1 {
    } else if |t.columns| == 1 {
      ConsistentTargetOnly(t, target);
      assert false;
    } else {
      var c, k := DescendOnce(t, target, m, i);
      FitsConsistentData(c, target, m, k);
      ClassifyAfterDescent(t, target, m, i, c, k);
    }
  }

  /** Where a training row goes at a grown node: the consistent child of its
      value, at the position holding the row without the tested column. */
  lemma DescendOnce(t: Table, target: string, m: Method, i: nat) returns (c: Table, k: nat)
    requires target in t.columns && Consistent(t, target) && i < |t.rows|
    requires |t.columns| > 1 && |Unique(Column(t, target))| != 1
    ensures BuildTree(t, target, m).Ok? && BuildTree(t, target, m).value.Node?
    ensures var best := BuildTree(t, target, m).value.attr;
            && best in t.columns && best != target && c == Child(t, best, t.rows[i][best])
            && target in c.columns && Consistent(c, target)
            && k < |c.rows| && c.rows[k] == t.rows[i] - {best}
    ensures |c.columns| < |t.columns|
  {
    GrownNode(t, target, m);
    var best := BuildTree(t, target, m).value.attr;
    var v := t.rows[i][best];
    c := Child(t, best, v);
    ChildConsistent(t, target, best, v);
    ChildRowOf(t, best, i);
    k :| 0 <= k < |c.rows| && c.rows[k] == t.rows[i] - {best};
  }

  /** The node passes the row on to the child's tree, which answers as it
      does for the row without the tested column. */
  lemma ClassifyAfterDescent(t: Table, target: string, m: Method, i: nat, c: Table, k: nat)
    requires target in t.columns && i < |t.rows|
    requires |t.columns| > 1 && |Unique(Column(t, target))| != 1
    requires BuildTree(t, target, m).Ok? && BuildTree(t, target, m).value.Node?
    requires var best := BuildTree(t, target, m).value.attr;
             && best in t.columns && best != target && c == Child(t, best, t.rows[i][best])
             && target in c.columns && k < |c.rows| && c.rows[k] == t.rows[i] - {best}
    requires BuildTree(c, target, m).Ok?
    requires Classify(BuildTree(c, target, m).value, c.rows[k]) == Some(c.rows[k][target])
    ensures Classify(BuildTree(t, target, m).value, t.rows[i]) == Some(t.rows[i][target])
  {
    GrownNode(t, target, m);
    var tree := BuildTree(t, target, m).value;
    var best := tree.attr;
    var v := t.rows[i][best];
    assert v in Column(t, best);
    ChildFeatures(t, target, best);
    ClassifyThroughNode(tree, t.rows[i], BuildTree(c, target, m).value, Features(c, target));
  }

  /** Past the two leaf cases, `build_tree` grows a node on a non-target
      column with a subtree for every value of that column. */
  lemma GrownNode(t: Table, target: string, m: Method)
    requires target in t.columns && |t.columns| > 1 && |Unique(Column(t, target))| != 1
    ensures BuildTree(t, target, m).Ok? && BuildTree(t, target, m).value.Node?
    ensures var tree := BuildTree(t, target, m).value;
            && tree.attr in t.columns && tree.attr != target
            && forall v :: v in Column(t, tree.attr) ==>
                 v in tree.children && BuildTree(Child(t, tree.attr, v), target, m) == Ok(tree.children[v])
  {
    GrownNodeShape(t, target, m);
    var tree := BuildTree(t, target, m).value;
    assert BestSplit(t, target, m) == Ok(tree.attr);
  }

  lemma GrownNodeShape(t: Table, target: string, m: Method)
    requires target in t.columns && |t.columns| > 1 && |Unique(Column(t, target))| != 1
    ensures BuildTree(t, target, m).Ok? && BuildTree(t, target, m).value.Node?
  {
    var best := BestSplit(t, target, m).value;
    var ch := BuildChildren(t, target, m, best, Unique(Column(t, best)));
    assert ch.Ok?;
    ChildFeatures(t, target, best);
    assert BuildTree(t, target, m) == Ok(Node(best, ch.value));
  }

  /** A row reaching a node continues into the subtree for its value, where
      it is classified like any row agreeing with it off the tested column. */
  lemma ClassifyThroughNode(tree: Tree, row: Row, sub: Tree, attrs: set<string>)
    requires tree.Node? && tree.attr in row && row[tree.attr] in tree.children
    requires tree.children[row[tree.attr]] == sub
    requires UsesOnly(sub, attrs) && tree.attr !in attrs
    ensures Classify(tree, row) == Classify(sub, row - {tree.attr})
  {
    ClassifyIgnores(sub, attrs, row, row - {tree.attr});
  }

  /** With no column besides the target, consistency makes the target pure. */
  lemma ConsistentTargetOnly(t: Table, target: string)
    requires target in t.columns && |t.columns| == 1 && Consistent(t, target)
    ensures |Unique(Column(t, target))| <= 1
  {
    var col := Column(t, target);
    OnlyColumn(t.columns, target);
    assert Features(t, target) == {};
    if col != [] {
      forall j | 0 <= j < |col|
        ensures col[j] == col[0]
      {
        assert AgreeOn(t.rows[j], t.rows[0], Features(t, target));
      }
      UniqueSingleton(col);
    }
  }

  /** Any row agreeing with a training row on every non-target column gets
      that row's target value. */
  lemma AgreeingRowClassified(t: Table, target: string, m: Method, i: nat, row: Row)
    requires target in t.columns && Consistent(t, target)
    requires i < |t.rows|
    requires AgreeOn(row, t.rows[i], Features(t, target))
    ensures Classify(BuildTree(t, target, m).value, row) == Some(t.rows[i][target])
  {
    FitsConsistentData(t, target, m, i);
    ClassifyIgnores(BuildTree(t, target, m).value, Features(t, target), row, t.rows[i]);
  }

}
