/** The application's Naive Bayes model (`NaiveBayesModel`): the same
    counting classifier, guarded by emptiness and alignment checks, with a
    trained flag that `predict` consults and a `reset` that clears the
    tables. */
module NaiveBayesModel {
  import opened Results
  import opened Counting
  import opened Tables
  import NaiveBayes

  /** The tables, and `is_trained`. */
  datatype Model = Model(nb: NaiveBayes.Classifier, trained: bool)

  /** `__init__`: empty tables, not trained. */
  function NewModel(smoothing: bool): (r: Model)
    ensures !r.trained && r.nb == NaiveBayes.NewClassifier(smoothing)
  {
    Model(NaiveBayes.NewClassifier(smoothing), false)
  }

  /** `DataFrame.empty`: no rows or no columns. */
  predicate NoData(X: Table) {
    |X.rows| == 0 || |X.columns| == 0
  }

  /** `fit`: refuses empty data, then mismatched lengths; otherwise it builds
      the tables exactly as the algorithm's classifier does and marks the
      model trained. */
  function Fit(m: Model, X: Table, y: seq<Value>): (r: Result<Model>)
    ensures r.Err? <==> NoData(X) || y == [] || |X.rows| != |y|
    ensures r.Err? ==> r.error == if NoData(X) || y == [] then EmptyData else SizeMismatch
    ensures r.Ok? ==> |X.rows| == |y| && r.value.trained && r.value.nb == NaiveBayes.Fit(m.nb, X, y)
  {
    if NoData(X) || y == [] then Err(EmptyData)
    else if |X.rows| != |y| then Err(SizeMismatch)
    else Ok(Model(NaiveBayes.Fit(m.nb, X, y), true))
  }

  /** `predict`: refuses before the first fit; afterwards it is the
      algorithm's prediction over whatever tables the model holds. */
  function Predict(m: Model, sample: seq<NaiveBayes.Feature>): (r: Result<Value>)
    ensures !m.trained ==> r == Err(NotTrained)
    ensures m.trained ==> r == NaiveBayes.Predict(m.nb, sample)
  {
    if !m.trained then Err(NotTrained) else NaiveBayes.Predict(m.nb, sample)
  }

  /** `reset`: clears priors, tables and vocabularies, but neither the
      smoothing option nor the trained flag. */
  function Reset(m: Model): (r: Model)
    ensures r.trained == m.trained
    ensures r.nb == NaiveBayes.NewClassifier(m.nb.smoothing)
  {
    Model(NaiveBayes.NewClassifier(m.nb.smoothing), m.trained)
  }

  // ---------------------------------------------------------------------
  // Properties
  // ---------------------------------------------------------------------

  /** A new model refuses to predict. */
  lemma PredictNeedsFit(smoothing: bool, sample: seq<NaiveBayes.Feature>)
    ensures Predict(NewModel(smoothing), sample) == Err(NotTrained)
  {
  }

  /** A reset model still counts as trained but has no classes, so the final
      `max` runs over an empty dictionary. */
  lemma ResetThenPredict(m: Model, sample: seq<NaiveBayes.Feature>)
    requires m.trained
    ensures Predict(Reset(m), sample) == Err(EmptyMax)
  {
  }

  /** Resetting twice is resetting once. */
  lemma ResetIdempotent(m: Model)
    ensures Reset(Reset(m)) == Reset(m)
  {
  }

  /** Fitting a fresh model on non-empty aligned data makes every sample over
      its columns predictable: every class of `y` has a table in every
      column the sample names. */
  lemma FreshFitPredicts(smoothing: bool, X: Table, y: seq<Value>, sample: seq<NaiveBayes.Feature>)
    requires !NoData(X) && y != [] && |X.rows| == |y|
    requires forall k :: 0 <= k < |sample| ==> sample[k].0 in X.columns
    ensures Fit(NewModel(smoothing), X, y).Ok?
    ensures Predict(Fit(NewModel(smoothing), X, y).value, sample).Ok?
  {
    var m := NewModel(smoothing);
    var r := NaiveBayes.Fit(m.nb, X, y);
    NaiveBayes.FitPriors(m.nb, X, y);
    forall c | c in r.classes
      ensures NaiveBayes.Known(r, c, sample)
    {
      assert c in r.priors;
      assert c in y;
      forall k | 0 <= k < |sample|
        ensures sample[k].0 in r.cond && c in r.cond[sample[k].0]
      {
        NaiveBayes.FitTableKeys(m.nb, X, y, sample[k].0, c);
      }
    }
    assert y[0] in r.priors;
    assert NaiveBayes.AllKnown(r, sample) && r.classes != [];
  }

  /** After a reset, fitting again behaves as on a brand-new model. */
  lemma ResetThenFit(m: Model, X: Table, y: seq<Value>)
    ensures Fit(Reset(m), X, y) == Fit(NewModel(m.nb.smoothing), X, y)
  {
  }
}
