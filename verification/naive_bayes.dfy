/** Categorical Naive Bayes: prior and conditional frequency tables built by
    counting, and prediction by the largest score. This is the classifier of
    the algorithms package (`NaiveBayesClassifierModified`), which does not
    check its inputs and has no trained flag; the application's model class wraps the
    same tables.

    Scores are compared as products `P(C) * P(x1|C) * ...`: the source adds
    natural logarithms, and the logarithm is strictly increasing, with
    `log 0 = -inf` matching a product of zero, so both pick the same class. */
module NaiveBayes {
  import opened Results
  import opened Counting
  import opened Tables
  import Frequencies

  /** One attribute-value pair of a sample, in the sample's order. */
  type Feature = (string, Value)

  /** `class_probs` is an insertion-ordered dictionary: `classes` holds its
      keys in order, `priors` the values. `cond[f][c]` is the table P(f = v | c)
      and `vocab[f]` the feature values seen for `f` (a missing key reads as
      the empty set, as with `defaultdict(set)`). */
  datatype RawClassifier = RawClassifier(
    smoothing: bool,
    classes: seq<Value>,
    priors: map<Value, real>,
    cond: map<string, map<Value, map<Value, real>>>,
    vocab: map<string, set<Value>>)

  predicate IsProbability(p: real) {
    0.0 <= p <= 1.0
  }

  /** The representation invariant: the class order lists the prior keys once
      each, priors are positive probabilities, table entries are
      probabilities, and positive under smoothing. */
  predicate Valid(m: RawClassifier) {
    && NoDup(m.classes)
    && m.priors.Keys == (set c | c in m.classes)
    && (forall c :: c in m.priors ==> 0.0 < m.priors[c] <= 1.0)
    && forall f :: f in m.cond ==> TablesOk(m.cond[f], m.smoothing)
  }

  /** Every entry is a probability, and positive under smoothing. */
  predicate TableOk(t: map<Value, real>, smoothing: bool) {
    forall v :: v in t ==> IsProbability(t[v]) && (smoothing ==> t[v] > 0.0)
  }

  predicate TablesOk(ts: map<Value, map<Value, real>>, smoothing: bool) {
    forall c :: c in ts ==> TableOk(ts[c], smoothing)
  }

  type Classifier = m: RawClassifier | Valid(m) witness RawClassifier(false, [], map[], map[], map[])

  /** `__init__`: empty tables. */
  function NewClassifier(smoothing: bool): (r: Classifier)
    ensures r.classes == [] && r.priors == map[] && r.cond == map[] && r.vocab == map[]
  {
    RawClassifier(smoothing, [], map[], map[], map[])
  }

  function Vocab(m: Classifier, f: string): set<Value> {
    if f in m.vocab then m.vocab[f] else {}
  }

  // ---------------------------------------------------------------------
  // Frequency tables
  // ---------------------------------------------------------------------

  /** The feature values of the samples labelled `c` (`X[y == c][column]`). */
  function Subset(xs: seq<Value>, y: seq<Value>, c: Value): (r: seq<Value>)
    requires |xs| == |y|
    ensures |r| == Count(y, c)
    ensures forall v :: v in r <==> exists i :: 0 <= i < |xs| && y[i] == c && xs[i] == v
  {
    if xs == [] then []
    else
      var init := Subset(xs[..|xs| - 1], y[..|y| - 1], c);
      var k := |xs| - 1;
      assert forall i :: 0 <= i < k ==> xs[..k][i] == xs[i] && y[..k][i] == y[i];
      if y[k] == c then init + [xs[k]] else init
  }

  /** Relative frequencies over `keys` (`count / total`), which is how both
      the priors and the unsmoothed tables are formed. */
  function Relative(s: seq<Value>, keys: set<Value>): (r: map<Value, real>)
    requires s != []
    ensures r.Keys == keys
    ensures forall v :: v in r ==> r[v] == Count(s, v) as real / |s| as real
  {
    map v | v in keys :: Count(s, v) as real / |s| as real
  }

  /** Laplace smoothing: `(count + 1) / (total + |keys|)`. */
  function Smoothed(s: seq<Value>, keys: set<Value>): (r: map<Value, real>)
    ensures r.Keys == keys
    ensures forall v :: v in r ==> r[v] == (Count(s, v) + 1) as real / (|s| + |keys|) as real
  {
    map v | v in keys :: (Count(s, v) + 1) as real / (|s| + |keys|) as real
  }

  /** The conditional table of one class: every value of `keys` maps to its
      relative frequency in `s`, smoothed or not. */
  function CondTable(s: seq<Value>, keys: set<Value>, smoothing: bool): (r: map<Value, real>)
    requires s != []
    ensures r.Keys == keys
    ensures TableOk(r, smoothing)
  {
    if smoothing then
      var t := Smoothed(s, keys);
      forall v | v in t
        ensures IsProbability(t[v]) && t[v] > 0.0
      {
        SetSizePositive(keys, v);
        Frequencies.DivBounds((Count(s, v) + 1) as real, (|s| + |keys|) as real);
      }
      t
    else
      var t := Relative(s, keys);
      forall v | v in t
        ensures IsProbability(t[v])
      {
        Frequencies.DivRange(Count(s, v) as real, |s| as real);
      }
      t
  }

  lemma SetSizePositive(keys: set<Value>, v: Value)
    requires v in keys
    ensures |keys| >= 1
  {
    assert v in keys;
  }

  /** The tables of the classes `cs` for one column, processed in order: the
      vocabulary grows class by class, so a class's table covers the values
      seen up to and including its own samples. Returns the tables and the
      final vocabulary. */
  function ClassTables(xs: seq<Value>, y: seq<Value>, cs: seq<Value>, vocab: set<Value>, smoothing: bool)
    : (r: (map<Value, map<Value, real>>, set<Value>))
    requires |xs| == |y|
    requires forall c :: c in cs ==> c in y
    ensures forall c :: c in r.0 <==> c in cs
    ensures vocab <= r.1
    ensures forall c :: c in r.0 ==> vocab <= r.0[c].Keys <= r.1
    ensures forall c, v :: c in r.0 && v in Subset(xs, y, c) ==> v in r.0[c]
    ensures TablesOk(r.0, smoothing)
  {
    if cs == [] then (map[], vocab)
    else
      var (tables, seen) := ClassTables(xs, y, cs[..|cs| - 1], vocab, smoothing);
      var c := cs[|cs| - 1];
      var s := Subset(xs, y, c);
      var keys := seen + set v | v in s;
      assert c in y;
      var t := CondTable(s, keys, smoothing);
      assert forall d :: d in cs <==> d in cs[..|cs| - 1] || d == c;
      (tables[c := t], keys)
  }

  /** The table of each class is the conditional table of its samples over
      the vocabulary as it stood once they were added. */
  lemma {:induction false} ClassTableIs(xs: seq<Value>, y: seq<Value>, cs: seq<Value>, vocab: set<Value>, smoothing: bool, c: Value)
    requires |xs| == |y|
    requires forall d :: d in cs ==> d in y
    requires c in cs
    ensures var t := ClassTables(xs, y, cs, vocab, smoothing).0[c];
            Subset(xs, y, c) != [] && t == CondTable(Subset(xs, y, c), t.Keys, smoothing)
  {
    var init := cs[..|cs| - 1];
    if c != cs[|cs| - 1] {
      assert c in init;
      ClassTableIs(xs, y, init, vocab, smoothing, c);
    }
  }

  /** The final vocabulary of a column: the values seen before, plus those of
      the rows labelled with one of the classes. */
  lemma {:induction false} ClassTablesVocab(xs: seq<Value>, y: seq<Value>, cs: seq<Value>, vocab: set<Value>, smoothing: bool, v: Value)
    requires |xs| == |y|
    requires forall c :: c in cs ==> c in y
    ensures v in ClassTables(xs, y, cs, vocab, smoothing).1 <==>
              v in vocab || exists i :: 0 <= i < |xs| && y[i] in cs && xs[i] == v
  {
    if cs != [] {
      var init := cs[..|cs| - 1];
      var c := cs[|cs| - 1];
      ClassTablesVocab(xs, y, init, vocab, smoothing, v);
      assert forall d :: d in cs <==> d in init || d == c;
    }
  }

  /** Priors of one fit: the relative frequency of each class in `y`. */
  function PriorsOf(y: seq<Value>): (r: map<Value, real>)
    requires y != []
    ensures forall c :: c in r <==> c in y
    ensures forall c :: c in r ==> 0.0 < r[c] <= 1.0
  {
    var r := Relative(y, set c | c in y);
    forall c | c in r
      ensures 0.0 < r[c] <= 1.0
    {
      Frequencies.DivBounds(Count(y, c) as real, |y| as real);
    }
    r
  }

  /** New keys go to the end of an insertion-ordered dictionary; existing
      keys keep their place. */
  function AppendNew(order: seq<Value>, cs: seq<Value>): (r: seq<Value>)
    requires NoDup(order)
    ensures NoDup(r)
    ensures forall c :: c in r <==> c in order || c in cs
    ensures |order| <= |r| && r[..|order|] == order
  {
    if cs == [] then order
    else
      var o := AppendNew(order, cs[..|cs| - 1]);
      var c := cs[|cs| - 1];
      assert forall d :: d in cs <==> d in cs[..|cs| - 1] || d == c;
      if c in o then o else (assert (o + [c])[..|order|] == o[..|order|]; o + [c])
  }

  // ---------------------------------------------------------------------
  // Fitting
  // ---------------------------------------------------------------------

  /** `fit` of the algorithms package, for labels that pair with the rows by
      position: the priors of the classes of `y` are overwritten and other
      classes keep theirs; each column of `X` gets new tables for the
      classes of `y` only, and its vocabulary grows. */
  function Fit(m: Classifier, X: Table, y: seq<Value>): (r: Classifier)
    requires |X.rows| == |y|
    ensures r.smoothing == m.smoothing
    ensures forall c :: c in y ==> c in r.priors && r.priors[c] == Count(y, c) as real / |y| as real
    ensures forall f :: f in X.columns ==> f in r.cond && forall c :: c in r.cond[f] <==> c in y
    ensures r == Fitted(m, X, y)
  {
    FittedValid(m, X, y);
    var r := Fitted(m, X, y);
    forall f | f in X.columns ensures f in r.cond && forall c :: c in r.cond[f] <==> c in y {
      FittedColumnPass(m, X, y, f);
    }
    r
  }

  function Fitted(m: Classifier, X: Table, y: seq<Value>): (r: RawClassifier)
    requires |X.rows| == |y|
  {
    var cs := Unique(y);
    var priors := if y == [] then m.priors else m.priors + PriorsOf(y);
    var cond := m.cond + map f | f in X.columns :: ColumnPass(m, X, y, f).0;
    var vocab := m.vocab + map f | f in X.columns :: ColumnPass(m, X, y, f).1;
    RawClassifier(m.smoothing, AppendNew(m.classes, cs), priors, cond, vocab)
  }

  /** One column's pass over the classes of `y`. */
  function ColumnPass(m: Classifier, X: Table, y: seq<Value>, f: string): (map<Value, map<Value, real>>, set<Value>)
    requires |X.rows| == |y| && f in X.columns
  {
    ClassTables(Column(X, f), y, Unique(y), Vocab(m, f), m.smoothing)
  }

  lemma FittedValid(m: Classifier, X: Table, y: seq<Value>)
    requires |X.rows| == |y|
    ensures Valid(Fitted(m, X, y))
  {
    FittedPriorsValid(m, X, y);
    FittedTablesValid(m, X, y);
  }

  lemma FittedPriorsValid(m: Classifier, X: Table, y: seq<Value>)
    requires |X.rows| == |y|
    ensures var r := Fitted(m, X, y);
            && NoDup(r.classes)
            && r.priors.Keys == (set c | c in r.classes)
            && forall c :: c in r.priors ==> 0.0 < r.priors[c] <= 1.0
  {
    var r := Fitted(m, X, y);
    assert forall c :: c in r.classes <==> c in m.classes || c in y;
    if y == [] {
      assert r.priors == m.priors;
    } else {
      var p := PriorsOf(y);
      assert r.priors == m.priors + p;
      forall c | c in r.priors
        ensures 0.0 < r.priors[c] <= 1.0
      {
        if c in p {
          assert r.priors[c] == p[c];
        } else {
          assert r.priors[c] == m.priors[c];
        }
      }
    }
  }

  lemma FittedTablesValid(m: Classifier, X: Table, y: seq<Value>)
    requires |X.rows| == |y|
    ensures var r := Fitted(m, X, y);
            forall f :: f in r.cond ==> TablesOk(r.cond[f], r.smoothing)
  {
    var r := Fitted(m, X, y);
    forall f | f in r.cond
      ensures TablesOk(r.cond[f], r.smoothing)
    {
      if f in X.columns {
        FittedColumnPass(m, X, y, f);
      } else {
        assert r.cond[f] == m.cond[f];
      }
    }
  }

  /** A fitted column's tables and vocabulary are those of its class pass. */
  lemma FittedColumnPass(m: Classifier, X: Table, y: seq<Value>, f: string)
    requires |X.rows| == |y| && f in X.columns
    ensures var r := Fitted(m, X, y);
            && f in r.cond && r.cond[f] == ColumnPass(m, X, y, f).0
            && f in r.vocab && r.vocab[f] == ColumnPass(m, X, y, f).1
  {
  }

  // ---------------------------------------------------------------------
  // Prediction
  // ---------------------------------------------------------------------

  /** Whether every table `predict` looks up for class `c` exists. */
  predicate Known(m: Classifier, c: Value, sample: seq<Feature>) {
    forall k :: 0 <= k < |sample| ==> sample[k].0 in m.cond && c in m.cond[sample[k].0]
  }

  /** The probability used for an unseen value: 1e-6, or 1/(|values| + 1)
      under smoothing. */
  function Fallback(m: Classifier, f: string): (r: real)
    ensures 0.0 < r <= 1.0
  {
    if m.smoothing then 1.0 / (|Vocab(m, f)| + 1) as real else 0.000001
  }

  /** P(f = v | c), or the fallback when `v` is not in the table. */
  function Likelihood(m: Classifier, f: string, c: Value, v: Value): (r: real)
    requires f in m.cond && c in m.cond[f]
    ensures IsProbability(r)
    ensures m.smoothing ==> r > 0.0
  {
    var t := m.cond[f][c];
    assert TablesOk(m.cond[f], m.smoothing);
    assert TableOk(t, m.smoothing);
    if v in t then t[v] else Fallback(m, f)
  }

  /** The score of class `c`: its prior times the likelihood of each
      feature of the sample. */
  function Score(m: Classifier, c: Value, sample: seq<Feature>): (r: real)
    requires c in m.priors && Known(m, c, sample)
    ensures IsProbability(r)
    ensures m.smoothing ==> r > 0.0
  {
    if sample == [] then m.priors[c]
    else
      var init := sample[..|sample| - 1];
      var (f, v) := sample[|sample| - 1];
      assert Known(m, c, init);
      var s := Score(m, c, init);
      var p := Likelihood(m, f, c, v);
      ProductBounds(s, p);
      s * p
  }

  lemma ProductBounds(a: real, b: real)
    requires IsProbability(a) && IsProbability(b)
    ensures IsProbability(a * b)
    ensures a > 0.0 && b > 0.0 ==> a * b > 0.0
  {
    Frequencies.MulNonNegative(a, b);
    assert a * b <= a * 1.0;
  }

  predicate AllKnown(m: Classifier, sample: seq<Feature>) {
    forall c :: c in m.classes ==> Known(m, c, sample)
  }

  /** The scores of the classes, in dictionary order. */
  function Scores(m: Classifier, sample: seq<Feature>): (r: seq<real>)
    requires AllKnown(m, sample)
    ensures |r| == |m.classes|
    ensures forall k :: 0 <= k < |r| ==> r[k] == Score(m, m.classes[k], sample)
  {
    seq(|m.classes|, k requires 0 <= k < |m.classes| => Score(m, m.classes[k], sample))
  }

  /** `predict`: a missing table is a lookup error; no class at all leaves
      `max` with nothing to choose from; otherwise the first class, in
      dictionary order, with the largest score. */
  function Predict(m: Classifier, sample: seq<Feature>): (r: Result<Value>)
    ensures !AllKnown(m, sample) ==> r == Err(MissingKey)
    ensures AllKnown(m, sample) && m.classes == [] ==> r == Err(EmptyMax)
    ensures r.Ok? <==> AllKnown(m, sample) && m.classes != []
    ensures r.Ok? ==> && r.value in m.priors
                      && forall c :: c in m.priors ==> Score(m, c, sample) <= Score(m, r.value, sample)
    ensures r.Ok? ==> forall k :: 0 <= k < |m.classes| && m.classes[k] == r.value ==>
                        forall j :: 0 <= j < k ==> Score(m, m.classes[j], sample) < Score(m, r.value, sample)
  {
    if !AllKnown(m, sample) then Err(MissingKey)
    else if m.classes == [] then Err(EmptyMax)
    else
      var scores := Scores(m, sample);
      var k := FirstMax(scores);
      forall c | c in m.priors
        ensures Score(m, c, sample) <= Score(m, m.classes[k], sample)
      {
        var j :| 0 <= j < |m.classes| && m.classes[j] == c;
        assert scores[j] <= scores[k];
      }
      Ok(m.classes[k])
  }

  // ---------------------------------------------------------------------
  // Properties
  // ---------------------------------------------------------------------

  /** Each class of `y` gets its relative frequency as prior; the classes of
      earlier fits that `y` does not mention keep their priors. */
  lemma FitPriors(m: Classifier, X: Table, y: seq<Value>)
    requires |X.rows| == |y|
    ensures var r := Fit(m, X, y);
            && (forall c :: c in y ==> r.priors[c] == Count(y, c) as real / |y| as real)
            && (forall c :: c in m.priors && c !in y ==> c in r.priors && r.priors[c] == m.priors[c])
            && r.classes[..|m.classes|] == m.classes
  {
  }

  /** The priors of one fit add up to one. */
  lemma PriorsSumToOne(y: seq<Value>)
    requires y != []
    ensures Total(PriorsOf(y)) == 1.0
  {
    RelativeTotal(y, set c | c in y);
  }

  /** The values recorded for a column are those seen before plus every
      value of the column. */
  lemma FitVocabulary(m: Classifier, X: Table, y: seq<Value>, f: string)
    requires |X.rows| == |y| && f in X.columns
    ensures Vocab(Fit(m, X, y), f) == Vocab(m, f) + set v | v in Column(X, f)
  {
    var xs := Column(X, f);
    var cs := Unique(y);
    forall v
      ensures v in ClassTables(xs, y, cs, Vocab(m, f), m.smoothing).1 <==> v in Vocab(m, f) || v in xs
    {
      ClassTablesVocab(xs, y, cs, Vocab(m, f), m.smoothing, v);
      if v in xs {
        var i :| 0 <= i < |xs| && xs[i] == v;
        assert y[i] in y;
      }
    }
  }

  /** Each conditional table of a fit covers every value seen before, and
      the class's own values, and no value the column has not seen. */
  lemma FitTableKeys(m: Classifier, X: Table, y: seq<Value>, f: string, c: Value)
    requires |X.rows| == |y| && f in X.columns && c in y
    ensures var r := Fit(m, X, y);
            && f in r.cond && c in r.cond[f]
            && Vocab(m, f) <= r.cond[f][c].Keys <= Vocab(r, f)
            && forall v :: v in Subset(Column(X, f), y, c) ==> v in r.cond[f][c]
  {
    FittedColumnPass(m, X, y, f);
    assert c in Unique(y);
  }

  /** Each fitted table is the conditional table of the class's samples in
      that column, over the vocabulary seen up to that class. */
  lemma FitTableIs(m: Classifier, X: Table, y: seq<Value>, f: string, c: Value)
    requires |X.rows| == |y| && f in X.columns && c in y
    ensures var r := Fit(m, X, y);
            f in r.cond && c in r.cond[f] &&
            var s := Subset(Column(X, f), y, c);
            s != [] && r.cond[f][c] == CondTable(s, r.cond[f][c].Keys, m.smoothing)
  {
    var xs := Column(X, f);
    FittedColumnPass(m, X, y, f);
    assert c in Unique(y);
    ClassTableIs(xs, y, Unique(y), Vocab(m, f), m.smoothing, c);
  }

  /** Each entry of a conditional table is the value's count among the
      class's samples over their number, or the smoothed ratio over the
      table's keys. */
  lemma CondTableEntry(s: seq<Value>, keys: set<Value>, smoothing: bool, v: Value)
    requires s != [] && v in keys
    ensures CondTable(s, keys, smoothing)[v]
            == if smoothing then (Count(s, v) + 1) as real / (|s| + |keys|) as real
               else Count(s, v) as real / |s| as real
  {
    if smoothing {
      assert CondTable(s, keys, smoothing) == Smoothed(s, keys);
    } else {
      assert CondTable(s, keys, smoothing) == Relative(s, keys);
    }
  }

  /** Every conditional table a fit builds adds up to one, with or without
      smoothing. */
  lemma TablesSumToOne(m: Classifier, X: Table, y: seq<Value>, f: string, c: Value)
    requires |X.rows| == |y| && f in X.columns && c in y
    ensures var r := Fit(m, X, y);
            f in r.cond && c in r.cond[f] && Total(r.cond[f][c]) == 1.0
  {
    var xs := Column(X, f);
    FittedColumnPass(m, X, y, f);
    assert c in Unique(y);
    ClassTableIs(xs, y, Unique(y), Vocab(m, f), m.smoothing, c);
    var t := ClassTables(xs, y, Unique(y), Vocab(m, f), m.smoothing).0[c];
    CondTableTotal(Subset(xs, y, c), t.Keys, m.smoothing);
  }

  /** The sum of a table's entries. */
  ghost function Total(t: map<Value, real>): real {
    SumSet(t.Keys, Lookup(t))
  }

  function Lookup(t: map<Value, real>): Value -> real {
    v => if v in t then t[v] else 0.0
  }

  lemma CondTableTotal(s: seq<Value>, keys: set<Value>, smoothing: bool)
    requires s != [] && forall v :: v in s ==> v in keys
    ensures Total(CondTable(s, keys, smoothing)) == 1.0
  {
    if smoothing {
      SmoothedTotal(s, keys);
    } else {
      RelativeTotal(s, keys);
    }
  }

  /** Relative frequencies over a superset of the values add up to one. */
  lemma RelativeTotal(s: seq<Value>, keys: set<Value>)
    requires s != [] && forall v :: v in s ==> v in keys
    ensures Total(Relative(s, keys)) == 1.0
  {
    var t := Relative(s, keys);
    var n := |s| as real;
    forall v | v in t
      ensures t[v] == CountOf(s)(v) / n
    {
    }
    TotalDiv(t, CountOf(s), n);
    SumSetCountCover(keys, s);
    assert t.Keys == keys;
    Frequencies.DivSelf(n);
  }

  /** Laplace-smoothed frequencies over a superset of the values add up to
      one: each key contributes one extra count to the numerator and one to
      the denominator. */
  lemma SmoothedTotal(s: seq<Value>, keys: set<Value>)
    requires s != [] && forall v :: v in s ==> v in keys
    ensures Total(Smoothed(s, keys)) == 1.0
  {
    var t := Smoothed(s, keys);
    var d := (|s| + |keys|) as real;
    forall v | v in t
      ensures t[v] == PlusOne(s)(v) / d
    {
    }
    TotalDiv(t, PlusOne(s), d);
    SumSetCountCover(keys, s);
    SumSetShift(keys, CountOf(s), PlusOne(s), 1.0);
    assert t.Keys == keys;
    Frequencies.DivSelf(d);
  }

  /** Occurrence counts plus one: the smoothed numerators. */
  function PlusOne(s: seq<Value>): Value -> real {
    v => (Count(s, v) + 1) as real
  }

  /** A table whose entries are `f` over `d` sums to the sum of `f` over its
      keys, divided by `d`. */
  lemma TotalDiv(t: map<Value, real>, f: Value -> real, d: real)
    requires d > 0.0
    requires forall v :: v in t ==> t[v] == f(v) / d
    ensures Total(t) == SumSet(t.Keys, f) / d
  {
    forall v | v in t.Keys
      ensures Lookup(t)(v) == (1.0 / d) * f(v)
    {
      DivAsScale(f(v), d);
    }
    SumSetScale(t.Keys, f, Lookup(t), 1.0 / d);
    DivAsScale(SumSet(t.Keys, f), d);
  }

  lemma DivAsScale(k: real, n: real)
    requires n > 0.0
    ensures k / n == (1.0 / n) * k
  {
  }

  /** Under smoothing every class that can be scored has a positive score. */
  lemma SmoothedScoresPositive(m: Classifier, c: Value, sample: seq<Feature>)
    requires m.smoothing && c in m.priors && Known(m, c, sample)
    ensures Score(m, c, sample) > 0.0
  {
  }

  /** With a single class there is nothing to compare: prediction returns it
      whatever the sample, once its tables exist. */
  lemma SingleClassPredicts(m: Classifier, c: Value, sample: seq<Feature>)
    requires m.classes == [c] && Known(m, c, sample)
    ensures Predict(m, sample) == Ok(c)
  {
  }

  /** A fresh classifier fitted on labels of one class predicts that class
      for every sample over the fitted columns. */
  lemma FreshSingleClass(smoothing: bool, X: Table, y: seq<Value>, sample: seq<Feature>)
    requires |X.rows| == |y| && y != [] && forall i :: 0 <= i < |y| ==> y[i] == y[0]
    requires forall k :: 0 <= k < |sample| ==> sample[k].0 in X.columns
    ensures Predict(Fit(NewClassifier(smoothing), X, y), sample) == Ok(y[0])
  {
    var m := Fit(NewClassifier(smoothing), X, y);
    FreshSingleClasses(smoothing, X, y);
    forall k | 0 <= k < |sample|
      ensures sample[k].0 in m.cond && y[0] in m.cond[sample[k].0]
    {
      FitTableKeys(NewClassifier(smoothing), X, y, sample[k].0, y[0]);
    }
    SingleClassPredicts(m, y[0], sample);
  }

  lemma FreshSingleClasses(smoothing: bool, X: Table, y: seq<Value>)
    requires |X.rows| == |y| && y != [] && forall i :: 0 <= i < |y| ==> y[i] == y[0]
    ensures Fit(NewClassifier(smoothing), X, y).classes == [y[0]]
  {
    UniqueSingleton(y);
    assert AppendNew([], [y[0]]) == [y[0]];
  }

  /** A refit on labels that leave out an earlier class keeps that class's
      prior but replaces the tables of the refitted columns without it, so a
      sample mentioning such a column can no longer be scored. */
  lemma StaleClassBreaksPredict(m: Classifier, X: Table, y: seq<Value>, earlier: Value, sample: seq<Feature>)
    requires |X.rows| == |y| && earlier in m.priors && earlier !in y
    requires exists k :: 0 <= k < |sample| && sample[k].0 in X.columns
    ensures Predict(Fit(m, X, y), sample) == Err(MissingKey)
  {
    var r := Fit(m, X, y);
    var k :| 0 <= k < |sample| && sample[k].0 in X.columns;
    assert earlier in r.classes;
    assert earlier !in r.cond[sample[k].0];
  }
}
