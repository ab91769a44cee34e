/** The application's K-Means model (`KMeansModel`): the loaded data, the
    result of the last run, and the two views of it, the text report and the
    inputs of the scatter plot. Parsing the data file and drawing are not
    modelled: `LoadData` takes the parsed points. */
module KMeansModel {
  import opened Results
  import opened KMeans

  /** The four attributes, each `None` until first assigned. */
  datatype State = State(
    data: Option<Data>,
    centroids: Option<seq<Point>>,
    labels: Option<seq<nat>>,
    clusters: Option<seq<seq<nat>>>)

  function NewState(): (r: State)
    ensures r.data.None? && r.centroids.None? && r.labels.None? && r.clusters.None?
  {
    State(None, None, None, None)
  }

  /** `load_data`: replaces the data, and nothing else. */
  function LoadData(s: State, points: Data): (r: State)
    ensures r.data == Some(points)
    ensures r.centroids == s.centroids && r.labels == s.labels && r.clusters == s.clusters
  {
    s.(data := Some(points))
  }

  /** The state after a call, and what the call returned or raised. */
  datatype Run = Run(state: State, result: Result<Clustering>)

  /** `run_kmeans(k, max_iters, tolerance)` with the random draw `init`. It
      refuses before any data is loaded, then checks `k`. The rounded
      centroids are stored before the clusters, so with a budget below one
      the call stores the initial centroids and then fails on the unbound
      clusters, leaving labels and clusters as they were. */
  function RunKMeans(s: State, k: int, maxIters: int, tol: real, init: seq<nat>): (r: Run)
    requires s.data.Some? && 0 < k <= |s.data.value| ==> IsDraw(init, k, |s.data.value|)
    ensures s.data.None? ==> r == Run(s, Err(DataNotLoaded))
    ensures s.data.Some? ==> r.result == KMeans.KMeans(s.data.value, k, maxIters, tol, init)
    ensures r.result.Ok? ==>
              r.state == State(s.data, Some(r.result.value.centroids), Some(r.result.value.labels),
                               Some(r.result.value.clusters))
    ensures r.result.Err? && r.result.error != NoIterations ==> r.state == s
    ensures r.result == Err(NoIterations) ==>
              && r.state.data == s.data && r.state.labels == s.labels && r.state.clusters == s.clusters
              && r.state.centroids == Some(Initial(s.data.value, init))
  {
    if s.data.None? then Run(s, Err(DataNotLoaded))
    else
      var data := s.data.value;
      if k <= 0 || k > |data| then Run(s, Err(InvalidK))
      else if maxIters <= 0 then Run(s.(centroids := Some(Initial(data, init))), Err(NoIterations))
      else
        var c := KMeans.KMeans(data, k, maxIters, tol, init).value;
        Run(State(s.data, Some(c.centroids), Some(c.labels), Some(c.clusters)), Ok(c))
  }

  // ---------------------------------------------------------------------
  // The report and the plot
  // ---------------------------------------------------------------------

  /** `format_point` shows the first two coordinates; a point with fewer
      has no `point[1]`. */
  function Coords(p: Point): (r: Result<(real, real)>)
    ensures r.Ok? <==> |p| >= 2
    ensures r.Ok? ==> r.value == (p[0], p[1])
    ensures r.Err? ==> r.error == IndexOutOfRange
  {
    if |p| < 2 then Err(IndexOutOfRange) else Ok((p[0], p[1]))
  }

  /** Whether position `p` of `data` exists and can be shown. */
  predicate Showable(data: Data, p: nat) {
    p < |data| && |data[p]| >= 2
  }

  /** The shown coordinates of the points at the positions `idx`. */
  function Points(data: Data, idx: seq<nat>): (r: Result<seq<(real, real)>>)
    ensures r.Ok? <==> forall t :: 0 <= t < |idx| ==> Showable(data, idx[t])
    ensures r.Ok? ==> |r.value| == |idx|
    ensures r.Ok? ==> forall t :: 0 <= t < |idx| ==> r.value[t] == (data[idx[t]][0], data[idx[t]][1])
    ensures r.Err? ==> r.error == IndexOutOfRange
  {
    if idx == [] then Ok([])
    else
      var p := idx[|idx| - 1];
      match Points(data, idx[..|idx| - 1])
      case Err(e) => Err(e)
      case Ok(ps) =>
        if p >= |data| then Err(IndexOutOfRange)
        else match Coords(data[p])
          case Err(e) => Err(e)
          case Ok(xy) => Ok(ps + [xy])
  }

  /** One paragraph of the report: "Cluster i+1 - centroid", then its
      points. */
  datatype Block = Block(number: nat, centroid: (real, real), points: seq<(real, real)>)

  /** Whether cluster `i` can be reported: it has a centroid with two
      coordinates, and its points exist and have two coordinates. */
  predicate Reportable(data: Data, centroids: seq<Point>, clusters: seq<seq<nat>>, i: nat)
    requires i < |clusters|
  {
    i < |centroids| && |centroids[i]| >= 2 && forall t :: 0 <= t < |clusters[i]| ==> Showable(data, clusters[i][t])
  }

  /** The block of cluster `i`. */
  predicate IsBlock(b: Block, data: Data, centroids: seq<Point>, clusters: seq<seq<nat>>, i: nat)
    requires i < |clusters| && Reportable(data, centroids, clusters, i)
  {
    && b.number == i + 1
    && b.centroid == (centroids[i][0], centroids[i][1])
    && Points(data, clusters[i]) == Ok(b.points)
  }

  /** The blocks of the clusters, in cluster order. */
  function Blocks(data: Data, centroids: seq<Point>, clusters: seq<seq<nat>>): (r: Result<seq<Block>>)
    ensures r.Ok? ==> |r.value| == |clusters|
    ensures r.Err? ==> r.error == IndexOutOfRange
  {
    if clusters == [] then Ok([])
    else
      var i := |clusters| - 1;
      match Blocks(data, centroids, clusters[..i])
      case Err(e) => Err(e)
      case Ok(bs) =>
        if i >= |centroids| then Err(IndexOutOfRange)
        else match Coords(centroids[i])
          case Err(e) => Err(e)
          case Ok(c) =>
            match Points(data, clusters[i])
            case Err(e) => Err(e)
            case Ok(ps) => Ok(bs + [Block(i + 1, c, ps)])
  }

  /** The report succeeds exactly when every cluster can be reported, and
      then block `i` is the block of cluster `i`. */
  lemma {:induction false} BlocksReport(data: Data, centroids: seq<Point>, clusters: seq<seq<nat>>)
    ensures var r := Blocks(data, centroids, clusters);
            && (r.Ok? <==> forall i :: 0 <= i < |clusters| ==> Reportable(data, centroids, clusters, i))
            && (r.Ok? ==> forall i :: 0 <= i < |clusters| ==> IsBlock(r.value[i], data, centroids, clusters, i))
  {
    if clusters != [] {
      var i := |clusters| - 1;
      var init := clusters[..i];
      BlocksReport(data, centroids, init);
      assert forall j :: 0 <= j < i ==> init[j] == clusters[j];
      assert forall j :: 0 <= j < i ==>
        (Reportable(data, centroids, init, j) <==> Reportable(data, centroids, clusters, j));
      var r := Blocks(data, centroids, clusters);
      assert Reportable(data, centroids, clusters, i) <==>
        i < |centroids| && Coords(centroids[i]).Ok? && Points(data, clusters[i]).Ok?;
      if forall j :: 0 <= j < |clusters| ==> Reportable(data, centroids, clusters, j) {
        assert forall j :: 0 <= j < i ==> Reportable(data, centroids, init, j);
        assert Reportable(data, centroids, clusters, i);
      } else {
        var j :| 0 <= j < |clusters| && !Reportable(data, centroids, clusters, j);
        if j < i {
          assert !Reportable(data, centroids, init, j);
        }
      }
      if r.Ok? {
        var bs := Blocks(data, centroids, init).value;
        assert r.value[..i] == bs;
        forall j | 0 <= j < i
          ensures IsBlock(r.value[j], data, centroids, clusters, j)
        {
          assert r.value[j] == bs[j];
          assert IsBlock(bs[j], data, centroids, init, j);
        }
      }
    }
  }

  /** `display_results`: refuses before a run, then reports every cluster. */
  function Display(s: State): (r: Result<seq<Block>>)
    ensures s.data.None? || s.centroids.None? || s.clusters.None? ==> r == Err(NotRun)
    ensures r.Ok? ==> |r.value| == |s.clusters.value|
  {
    if s.data.None? || s.centroids.None? || s.clusters.None? then Err(NotRun)
    else Blocks(s.data.value, s.centroids.value, s.clusters.value)
  }

  /** What `generate_kmeans_plot` draws from, after its guard: the points
      coloured by label, and the centroids. */
  function PlotInputs(s: State): (r: Result<(Data, seq<nat>, seq<Point>)>)
    ensures r.Err? <==> s.data.None? || s.centroids.None? || s.labels.None?
    ensures r.Err? ==> r.error == NotRun
    ensures r.Ok? ==> r.value == (s.data.value, s.labels.value, s.centroids.value)
  {
    if s.data.None? || s.centroids.None? || s.labels.None? then Err(NotRun)
    else Ok((s.data.value, s.labels.value, s.centroids.value))
  }

  // ---------------------------------------------------------------------
  // Properties
  // ---------------------------------------------------------------------

  /** Nothing can be shown before the first successful run. */
  lemma NothingBeforeRun(points: Data)
    ensures Display(NewState()) == Err(NotRun) && PlotInputs(NewState()) == Err(NotRun)
    ensures Display(LoadData(NewState(), points)) == Err(NotRun)
    ensures PlotInputs(LoadData(NewState(), points)) == Err(NotRun)
  {
  }

  /** Running before loading refuses and changes nothing. */
  lemma RunNeedsData(k: int, maxIters: int, tol: real, init: seq<nat>)
    ensures RunKMeans(NewState(), k, maxIters, tol, init) == Run(NewState(), Err(DataNotLoaded))
  {
  }

  /** After a successful run on points of at least two coordinates the
      report has one block per cluster, numbered from one, showing the
      cluster's centroid and its points in order. */
  lemma RunThenDisplay(s: State, k: int, maxIters: int, tol: real, init: seq<nat>)
    requires s.data.Some? && 0 < k <= |s.data.value| && maxIters >= 1 && IsDraw(init, k, |s.data.value|)
    requires Dim(s.data.value) >= 2
    ensures var r := RunKMeans(s, k, maxIters, tol, init);
            var c := r.result.value;
            && r.result.Ok?
            && Display(r.state).Ok?
            && |Display(r.state).value| == k
            && forall i :: 0 <= i < k ==> IsBlock(Display(r.state).value[i], s.data.value, c.centroids, c.clusters, i)
  {
    var data := s.data.value;
    var r := RunKMeans(s, k, maxIters, tol, init);
    var c := r.result.value;
    assert WellClustered(c, data, k);
    forall i | 0 <= i < k
      ensures Reportable(data, c.centroids, c.clusters, i)
    {
      assert Below(c.clusters[i], |data|);
      forall t | 0 <= t < |c.clusters[i]|
        ensures Showable(data, c.clusters[i][t])
      {
        assert |data[c.clusters[i][t]]| == |data[0]|;
      }
    }
    BlocksReport(data, c.centroids, c.clusters);
  }

  /** Points with fewer than two coordinates cluster, but cannot be
      reported: the first centroid has no second coordinate. */
  lemma NarrowDataCannotDisplay(s: State, k: int, maxIters: int, tol: real, init: seq<nat>)
    requires s.data.Some? && 0 < k <= |s.data.value| && maxIters >= 1 && IsDraw(init, k, |s.data.value|)
    requires Dim(s.data.value) < 2
    ensures var r := RunKMeans(s, k, maxIters, tol, init);
            r.result.Ok? && Display(r.state) == Err(IndexOutOfRange)
  {
    var data := s.data.value;
    var r := RunKMeans(s, k, maxIters, tol, init);
    var c := r.result.value;
    assert WellClustered(c, data, k);
    assert !Reportable(data, c.centroids, c.clusters, 0);
    BlocksReport(data, c.centroids, c.clusters);
  }

  /** After a successful run the plot is drawn from the data, the labels and
      the centroids the run returned. */
  lemma RunThenPlot(s: State, k: int, maxIters: int, tol: real, init: seq<nat>)
    requires s.data.Some? && 0 < k <= |s.data.value| && maxIters >= 1 && IsDraw(init, k, |s.data.value|)
    ensures var r := RunKMeans(s, k, maxIters, tol, init);
            PlotInputs(r.state) == Ok((s.data.value, r.result.value.labels, r.result.value.centroids))
  {
  }

  /** Loading fewer points after a run keeps the old clusters, whose last
      position no longer exists, so the report fails. */
  lemma ReloadSmallerBreaksDisplay(s: State, k: int, maxIters: int, tol: real, init: seq<nat>, points: Data)
    requires s.data.Some? && 0 < k <= |s.data.value| && maxIters >= 1 && IsDraw(init, k, |s.data.value|)
    requires |points| < |s.data.value|
    ensures var r := RunKMeans(s, k, maxIters, tol, init);
            Display(LoadData(r.state, points)) == Err(IndexOutOfRange)
  {
    var data := s.data.value;
    var r := RunKMeans(s, k, maxIters, tol, init);
    var c := r.result.value;
    assert WellClustered(c, data, k);
    var last := |data| - 1;
    assert Listed(c.clusters, last);
    var i :| 0 <= i < |c.clusters| && last in c.clusters[i];
    var t :| 0 <= t < |c.clusters[i]| && c.clusters[i][t] == last;
    assert !Showable(points, c.clusters[i][t]);
    assert !Reportable(points, c.centroids, c.clusters, i);
    BlocksReport(points, c.centroids, c.clusters);
  }

  /** A run with no iterations after a successful one replaces the
      centroids but keeps the earlier clusters and labels. */
  lemma ZeroBudgetMixesRuns(s: State, k: int, maxIters: int, tol: real, init: seq<nat>, k2: int, init2: seq<nat>)
    requires s.data.Some? && 0 < k <= |s.data.value| && maxIters >= 1 && IsDraw(init, k, |s.data.value|)
    requires 0 < k2 <= |s.data.value| && IsDraw(init2, k2, |s.data.value|)
    ensures var first := RunKMeans(s, k, maxIters, tol, init);
            var second := RunKMeans(first.state, k2, 0, tol, init2);
            && second.result == Err(NoIterations)
            && second.state.clusters == Some(first.result.value.clusters)
            && second.state.labels == Some(first.result.value.labels)
            && second.state.centroids == Some(Initial(s.data.value, init2))
  {
  }
}
