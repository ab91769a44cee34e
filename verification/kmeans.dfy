/** Lloyd's K-Means over points with real coordinates: pick `k` data points
    as centroids, then repeatedly assign every point to its nearest centroid
    and move each centroid to the mean of its cluster, until the centroids
    stop moving or the iteration budget runs out.

    Distances are squared: the source takes Euclidean norms, and the square
    root is strictly increasing, so the nearest centroid, its ties and the
    stop test `norm <= tolerance` are decided the same way. The seeded
    random draw of the initial centroids is a parameter. */
module KMeans {
  import opened Results
  import opened Counting

  type Point = seq<real>

  /** A two-dimensional array: every row has the same number of columns. */
  predicate Rectangular(ps: seq<Point>) {
    forall i, j :: 0 <= i < |ps| && 0 <= j < |ps| ==> |ps[i]| == |ps[j]|
  }

  type Data = ps: seq<Point> | Rectangular(ps) witness []

  /** The number of features (`data.shape[1]`). */
  function Dim(data: Data): nat {
    if data == [] then 0 else |data[0]|
  }

  /** Every point of `cs` has `d` coordinates. */
  predicate Shaped(cs: seq<Point>, d: nat) {
    forall i :: 0 <= i < |cs| ==> |cs[i]| == d
  }

  /** Every position in `idx` is below `n`. */
  predicate Below(idx: seq<nat>, n: nat) {
    forall t :: 0 <= t < |idx| ==> idx[t] < n
  }

  /** Cluster lists hold positions of `data`. */
  predicate InRange(clusters: seq<seq<nat>>, n: nat) {
    forall c :: 0 <= c < |clusters| ==> Below(clusters[c], n)
  }

  /** The clusters partition the positions `0 .. n - 1`: each lies in
      exactly one list. */
  predicate Partition(clusters: seq<seq<nat>>, n: nat) {
    && InRange(clusters, n)
    && (forall p :: 0 <= p < n ==> Listed(clusters, p))
    && (forall c, d, p :: 0 <= c < |clusters| && 0 <= d < |clusters| && p in clusters[c] && p in clusters[d] ==> c == d)
  }

  /** Some cluster lists position `q`. */
  predicate Listed(clusters: seq<seq<nat>>, q: nat) {
    exists c :: 0 <= c < |clusters| && q in clusters[c]
  }

  predicate Increasing(s: seq<nat>) {
    forall a, b :: 0 <= a < b < |s| ==> s[a] < s[b]
  }

  // ---------------------------------------------------------------------
  // Distances and the nearest centroid
  // ---------------------------------------------------------------------

  /** The squared Euclidean distance. */
  function SqDist(p: Point, q: Point): (r: real)
    requires |p| == |q|
    ensures r >= 0.0
  {
    if p == [] then 0.0
    else
      var d := p[|p| - 1] - q[|q| - 1];
      SqDist(p[..|p| - 1], q[..|q| - 1]) + d * d
  }

  /** A point is at distance zero from itself. */
  lemma {:induction false} SqDistSelf(p: Point)
    ensures SqDist(p, p) == 0.0
  {
    if p != [] {
      SqDistSelf(p[..|p| - 1]);
    }
  }

  /** `np.argmin`: the first position holding a smallest value. */
  function FirstMin(xs: seq<real>): (k: nat)
    requires |xs| > 0
    ensures k < |xs|
    ensures forall j :: 0 <= j < |xs| ==> xs[k] <= xs[j]
    ensures forall j :: 0 <= j < k ==> xs[j] > xs[k]
  {
    if |xs| == 1 then 0
    else
      var k := FirstMin(xs[..|xs| - 1]);
      if xs[|xs| - 1] < xs[k] then |xs| - 1 else k
  }

  /** The index of the centroid nearest to `p`, ties going to the lowest
      index. */
  function Nearest(p: Point, cs: seq<Point>): (i: nat)
    requires |cs| > 0 && Shaped(cs, |p|)
    ensures i < |cs|
    ensures forall j :: 0 <= j < |cs| ==> SqDist(p, cs[i]) <= SqDist(p, cs[j])
    ensures forall j :: 0 <= j < i ==> SqDist(p, cs[j]) > SqDist(p, cs[i])
  {
    var ds := seq(|cs|, j requires 0 <= j < |cs| => SqDist(p, cs[j]));
    assert forall j :: 0 <= j < |cs| ==> ds[j] == SqDist(p, cs[j]);
    FirstMin(ds)
  }

  // ---------------------------------------------------------------------
  // One round: assignment and update
  // ---------------------------------------------------------------------

  /** The clusters after visiting the first `n` points in order, each
      appended to the list of its nearest centroid. */
  function AssignUpTo(data: Data, cs: seq<Point>, n: nat): (r: seq<seq<nat>>)
    requires n <= |data| && |cs| > 0 && Shaped(cs, Dim(data))
    ensures |r| == |cs| && InRange(r, n)
  {
    if n == 0 then seq(|cs|, _ => [])
    else
      var r := AssignUpTo(data, cs, n - 1);
      var i := Nearest(data[n - 1], cs);
      r[i := r[i] + [n - 1]]
  }

  lemma {:induction false} AssignUpToMember(data: Data, cs: seq<Point>, n: nat, i: nat, p: nat)
    requires n <= |data| && |cs| > 0 && Shaped(cs, Dim(data)) && i < |cs|
    ensures p in AssignUpTo(data, cs, n)[i] <==> p < n && Nearest(data[p], cs) == i
  {
    if n > 0 {
      AssignUpToMember(data, cs, n - 1, i, p);
      var r := AssignUpTo(data, cs, n - 1);
      if i == Nearest(data[n - 1], cs) {
        assert AssignUpTo(data, cs, n)[i] == r[i] + [n - 1];
        assert p !in r[i] || p < n - 1 by {
          if p in r[i] {
            var t :| 0 <= t < |r[i]| && r[i][t] == p;
          }
        }
      } else {
        assert AssignUpTo(data, cs, n)[i] == r[i];
      }
    }
  }

  lemma {:induction false} AssignUpToIncreasing(data: Data, cs: seq<Point>, n: nat, i: nat)
    requires n <= |data| && |cs| > 0 && Shaped(cs, Dim(data)) && i < |cs|
    ensures Increasing(AssignUpTo(data, cs, n)[i])
  {
    if n > 0 {
      AssignUpToIncreasing(data, cs, n - 1, i);
      var r := AssignUpTo(data, cs, n - 1);
      if i == Nearest(data[n - 1], cs) {
        assert Below(r[i], n - 1);
        assert AssignUpTo(data, cs, n)[i] == r[i] + [n - 1];
      }
    }
  }

  /** The assignment step of one round, over all points. */
  function Assign(data: Data, cs: seq<Point>): (r: seq<seq<nat>>)
    requires |cs| > 0 && Shaped(cs, Dim(data))
    ensures |r| == |cs| && InRange(r, |data|)
  {
    AssignUpTo(data, cs, |data|)
  }

  /** Every point lands in exactly one cluster, the one of its nearest
      centroid, and each cluster lists its points in ascending order. */
  lemma AssignPartitions(data: Data, cs: seq<Point>)
    requires |cs| > 0 && Shaped(cs, Dim(data))
    ensures var r := Assign(data, cs);
            && Partition(r, |data|)
            && (forall c, p :: 0 <= c < |r| && 0 <= p < |data| ==> (p in r[c] <==> Nearest(data[p], cs) == c))
            && forall c :: 0 <= c < |r| ==> Increasing(r[c])
  {
    var r := Assign(data, cs);
    var n := |data|;
    forall c, p | 0 <= c < |r| && 0 <= p < n
      ensures p in r[c] <==> Nearest(data[p], cs) == c
    {
      AssignUpToMember(data, cs, n, c, p);
    }
    forall p | 0 <= p < n
      ensures Listed(r, p)
    {
      AssignUpToMember(data, cs, n, Nearest(data[p], cs), p);
    }
    forall c | 0 <= c < |r|
      ensures Increasing(r[c])
    {
      AssignUpToIncreasing(data, cs, n, c);
    }
    forall c, d, p | 0 <= c < |r| && 0 <= d < |r| && p in r[c] && p in r[d]
      ensures c == d
    {
      AssignUpToMember(data, cs, n, c, p);
      AssignUpToMember(data, cs, n, d, p);
    }
  }

  /** Sum of coordinate `j` over the points at the positions `idx`. */
  function ColumnSum(data: Data, idx: seq<nat>, j: nat): real
    requires Below(idx, |data|)
    requires j < Dim(data)
  {
    if idx == [] then 0.0
    else ColumnSum(data, idx[..|idx| - 1], j) + data[idx[|idx| - 1]][j]
  }

  /** `np.mean(data[idx], axis=0)`. */
  function Mean(data: Data, idx: seq<nat>): (r: Point)
    requires idx != [] && Below(idx, |data|)
    ensures |r| == Dim(data)
  {
    seq(Dim(data), j requires 0 <= j < Dim(data) => ColumnSum(data, idx, j) / |idx| as real)
  }

  /** Sum over the points at `idx` of their deviation from `m` in
      coordinate `j`. */
  function Deviation(data: Data, idx: seq<nat>, j: nat, m: real): real
    requires Below(idx, |data|)
    requires j < Dim(data)
  {
    if idx == [] then 0.0
    else Deviation(data, idx[..|idx| - 1], j, m) + (data[idx[|idx| - 1]][j] - m)
  }

  lemma {:induction false} DeviationShift(data: Data, idx: seq<nat>, j: nat, m: real)
    requires Below(idx, |data|)
    requires j < Dim(data)
    ensures Deviation(data, idx, j, m) == ColumnSum(data, idx, j) - |idx| as real * m
  {
    if idx != [] {
      DeviationShift(data, idx[..|idx| - 1], j, m);
    }
  }

  /** The mean is the balance point of its cluster: in every coordinate the
      deviations from it cancel out. */
  lemma MeanBalances(data: Data, idx: seq<nat>, j: nat)
    requires idx != [] && Below(idx, |data|)
    requires j < Dim(data)
    ensures Deviation(data, idx, j, Mean(data, idx)[j]) == 0.0
  {
    var n := |idx| as real;
    var s := ColumnSum(data, idx, j);
    DeviationShift(data, idx, j, s / n);
    assert n * (s / n) == s;
  }

  lemma {:induction false} ColumnSumConstant(data: Data, idx: seq<nat>, j: nat, x: real)
    requires j < Dim(data)
    requires Below(idx, |data|) && forall t :: 0 <= t < |idx| ==> data[idx[t]][j] == x
    ensures ColumnSum(data, idx, j) == |idx| as real * x
  {
    if idx != [] {
      ColumnSumConstant(data, idx[..|idx| - 1], j, x);
    }
  }

  /** A cluster of copies of one point has that point as its mean. */
  lemma MeanOfCopies(data: Data, idx: seq<nat>, p: Point)
    requires idx != [] && Below(idx, |data|) && forall t :: 0 <= t < |idx| ==> data[idx[t]] == p
    ensures Mean(data, idx) == p
  {
    var m := Mean(data, idx);
    assert |p| == Dim(data) by {
      assert data[idx[0]] == p;
    }
    forall j | 0 <= j < |p|
      ensures m[j] == p[j]
    {
      ColumnSumConstant(data, idx, j, p[j]);
      assert m[j] == (|idx| as real * p[j]) / |idx| as real;
    }
  }

  /** The update step: a non-empty cluster's centroid moves to the mean of
      its points, an empty cluster keeps its centroid. */
  function Update(data: Data, clusters: seq<seq<nat>>, cs: seq<Point>): (r: seq<Point>)
    requires |clusters| == |cs| && InRange(clusters, |data|)
    ensures |r| == |cs|
    ensures Shaped(cs, Dim(data)) ==> Shaped(r, Dim(data))
    ensures forall i :: 0 <= i < |r| && clusters[i] == [] ==> r[i] == cs[i]
    ensures forall i :: 0 <= i < |r| && clusters[i] != [] ==>
              r[i] == Mean(data, clusters[i]) &&
              forall j :: 0 <= j < Dim(data) ==> Deviation(data, clusters[i], j, r[i][j]) == 0.0
  {
    forall i, j | 0 <= i < |cs| && clusters[i] != [] && 0 <= j < Dim(data)
      ensures Deviation(data, clusters[i], j, Mean(data, clusters[i])[j]) == 0.0
    {
      MeanBalances(data, clusters[i], j);
    }
    seq(|cs|, i requires 0 <= i < |cs| => if clusters[i] == [] then cs[i] else Mean(data, clusters[i]))
  }

  // ---------------------------------------------------------------------
  // The loop and its stop rule
  // ---------------------------------------------------------------------

  /** Squared Frobenius norm of the difference of two centroid lists. */
  function Shift(a: seq<Point>, b: seq<Point>): (r: real)
    requires |a| == |b| && forall i :: 0 <= i < |a| ==> |a[i]| == |b[i]|
    ensures r >= 0.0
  {
    if a == [] then 0.0
    else Shift(a[..|a| - 1], b[..|b| - 1]) + SqDist(a[|a| - 1], b[|b| - 1])
  }

  /** Centroids that did not move have shifted by zero. */
  lemma {:induction false} ShiftSelf(a: seq<Point>)
    ensures Shift(a, a) == 0.0
  {
    if a != [] {
      ShiftSelf(a[..|a| - 1]);
      SqDistSelf(a[|a| - 1]);
    }
  }

  /** `norm(new - old) <= tolerance`, written without the square root: a
      norm is never negative, so this holds exactly when the tolerance is
      non-negative and the squared norm is at most its square. */
  predicate Converged(next: seq<Point>, prev: seq<Point>, tol: real)
    requires |next| == |prev| && forall i :: 0 <= i < |next| ==> |next[i]| == |prev[i]|
  {
    tol >= 0.0 && Shift(next, prev) <= tol * tol
  }

  /** One round: assign every point to its nearest centroid, then move each
      centroid to the mean of its cluster. */
  function Step(data: Data, cs: seq<Point>): (r: seq<Point>)
    requires |cs| > 0 && Shaped(cs, Dim(data))
    ensures |r| == |cs| && Shaped(r, Dim(data))
  {
    Update(data, Assign(data, cs), cs)
  }

  /** The centroids after `n` rounds from `cs`. */
  function Iterate(data: Data, cs: seq<Point>, n: nat): (r: seq<Point>)
    requires |cs| > 0 && Shaped(cs, Dim(data))
    ensures |r| == |cs| && Shaped(r, Dim(data))
    decreases n
  {
    if n == 0 then cs else Iterate(data, Step(data, cs), n - 1)
  }

  /** Round `n` (counting from one) is where the loop stops: no earlier
      round moved the centroids by at most the tolerance, and, unless the
      budget ran out there, round `n` did. */
  ghost predicate StopsAt(data: Data, cs: seq<Point>, iters: nat, tol: real, n: nat)
    requires |cs| > 0 && Shaped(cs, Dim(data))
  {
    && 1 <= n <= iters
    && (n < iters ==> Converged(Iterate(data, cs, n), Iterate(data, cs, n - 1), tol))
    && forall m :: 1 <= m < n ==> !Converged(Iterate(data, cs, m), Iterate(data, cs, m - 1), tol)
  }

  /** At most one round is where the loop stops. */
  lemma StopsAtUnique(data: Data, cs: seq<Point>, iters: nat, tol: real, n1: nat, n2: nat)
    requires |cs| > 0 && Shaped(cs, Dim(data))
    requires StopsAt(data, cs, iters, tol, n1) && StopsAt(data, cs, iters, tol, n2)
    ensures n1 == n2
  {
  }

  /** The last round the loop ran: the centroids it started from, the
      clusters it built, the centroids it produced, and how many rounds ran
      in all. */
  datatype Round = Round(start: seq<Point>, clusters: seq<seq<nat>>, centroids: seq<Point>, count: nat)

  /** The loop, with `iters` rounds left of the budget: it runs rounds from
      `cs` until one moves the centroids by at most the tolerance or the
      budget is spent. */
  function Lloyd(data: Data, cs: seq<Point>, iters: nat, tol: real): (r: Round)
    requires iters >= 1 && |cs| > 0 && Shaped(cs, Dim(data))
    ensures |r.start| == |cs| && Shaped(r.start, Dim(data))
    ensures r.clusters == Assign(data, r.start)
    ensures r.centroids == Update(data, r.clusters, r.start)
    ensures StopsAt(data, cs, iters, tol, r.count)
    ensures r.start == Iterate(data, cs, r.count - 1) && r.centroids == Iterate(data, cs, r.count)
    decreases iters
  {
    var clusters := Assign(data, cs);
    var next := Update(data, clusters, cs);
    if iters == 1 || Converged(next, cs, tol) then
      LloydFirst(data, cs, iters, tol);
      Round(cs, clusters, next, 1)
    else
      var r := Lloyd(data, next, iters - 1, tol);
      LloydShift(data, cs, iters, tol, r.count);
      r.(count := r.count + 1)
  }

  /** Stopping after the first round. */
  lemma LloydFirst(data: Data, cs: seq<Point>, iters: nat, tol: real)
    requires iters >= 1 && |cs| > 0 && Shaped(cs, Dim(data))
    requires iters == 1 || Converged(Step(data, cs), cs, tol)
    ensures Iterate(data, cs, 0) == cs && Iterate(data, cs, 1) == Step(data, cs)
    ensures StopsAt(data, cs, iters, tol, 1)
  {
    assert Iterate(data, cs, 1) == Iterate(data, Step(data, cs), 0);
  }

  /** Starting one round later shifts every round number by one. */
  lemma LloydShift(data: Data, cs: seq<Point>, iters: nat, tol: real, n: nat)
    requires iters >= 2 && |cs| > 0 && Shaped(cs, Dim(data))
    requires !Converged(Step(data, cs), cs, tol)
    requires StopsAt(data, Step(data, cs), iters - 1, tol, n)
    ensures StopsAt(data, cs, iters, tol, n + 1)
    ensures Iterate(data, cs, n + 1) == Iterate(data, Step(data, cs), n)
    ensures Iterate(data, cs, n) == Iterate(data, Step(data, cs), n - 1)
  {
    var next := Step(data, cs);
    forall m | 1 <= m < n + 1
      ensures !Converged(Iterate(data, cs, m), Iterate(data, cs, m - 1), tol)
    {
      if m > 1 {
        assert Iterate(data, cs, m) == Iterate(data, next, m - 1);
        assert Iterate(data, cs, m - 1) == Iterate(data, next, m - 2);
      }
    }
    assert Iterate(data, cs, n + 1) == Iterate(data, next, n);
    assert Iterate(data, cs, n) == Iterate(data, next, n - 1);
  }

  /** Centroids that the update leaves in place stop the loop after its
      first round, whatever the budget. */
  lemma FixedPointStops(data: Data, cs: seq<Point>, iters: nat, tol: real)
    requires iters >= 1 && |cs| > 0 && Shaped(cs, Dim(data)) && tol >= 0.0
    requires Update(data, Assign(data, cs), cs) == cs
    ensures Lloyd(data, cs, iters, tol) == Round(cs, Assign(data, cs), cs, 1)
  {
    ShiftSelf(cs);
    assert tol * tol >= 0.0;
  }

  /** A negative tolerance never stops the loop early: it runs the whole
      budget. */
  lemma NegativeToleranceRunsOut(data: Data, cs: seq<Point>, iters: nat, tol: real)
    requires iters >= 1 && |cs| > 0 && Shaped(cs, Dim(data)) && tol < 0.0
    ensures Lloyd(data, cs, iters, tol).count == iters
  {
  }

  // ---------------------------------------------------------------------
  // Labels
  // ---------------------------------------------------------------------

  /** `labels[p] = c` for every `p` of `ps`. */
  function Place(labels: seq<nat>, ps: seq<nat>, c: nat): (r: seq<nat>)
    requires Below(ps, |labels|)
    ensures |r| == |labels|
    ensures forall q :: 0 <= q < |r| ==> r[q] == if q in ps then c else labels[q]
  {
    if ps == [] then labels
    else Place(labels, ps[..|ps| - 1], c)[ps[|ps| - 1] := c]
  }

  /** The label array built from zeros by visiting the clusters in order. */
  function Labels(clusters: seq<seq<nat>>, n: nat): (r: seq<nat>)
    requires InRange(clusters, n)
    ensures |r| == n
  {
    if clusters == [] then seq(n, _ => 0)
    else
      var c := |clusters| - 1;
      Place(Labels(clusters[..c], n), clusters[c], c)
  }

  /** A listed position gets the last cluster that lists it; an unlisted one
      keeps the initial zero. */
  lemma {:induction false} LabelsLast(clusters: seq<seq<nat>>, n: nat, q: nat)
    requires InRange(clusters, n) && q < n
    ensures var l := Labels(clusters, n)[q];
            && (Listed(clusters, q) ==>
                  l < |clusters| && q in clusters[l] && forall c :: l < c < |clusters| ==> q !in clusters[c])
            && (!Listed(clusters, q) ==> l == 0)
  {
    if clusters != [] {
      var c := |clusters| - 1;
      var init := clusters[..c];
      LabelsLast(init, n, q);
      assert forall d :: 0 <= d < c ==> init[d] == clusters[d];
      if q !in clusters[c] {
        if Listed(clusters, q) {
          var d :| 0 <= d < |clusters| && q in clusters[d];
          assert Listed(init, q);
        }
        if Listed(init, q) {
          var d :| 0 <= d < |init| && q in init[d];
          assert Listed(clusters, q);
        }
      }
    }
  }

  /** One label per position, naming exactly the clusters that hold it. */
  predicate LabelsMatch(labels: seq<nat>, clusters: seq<seq<nat>>, n: nat) {
    && |labels| == n
    && forall q, c :: 0 <= q < n && 0 <= c < |clusters| ==> (labels[q] == c <==> q in clusters[c])
  }

  /** Over a partition the labels and the clusters say the same thing. */
  lemma LabelsAgree(clusters: seq<seq<nat>>, n: nat)
    requires Partition(clusters, n)
    ensures LabelsMatch(Labels(clusters, n), clusters, n)
  {
    var labels := Labels(clusters, n);
    forall q, c | 0 <= q < n && 0 <= c < |clusters|
      ensures labels[q] == c <==> q in clusters[c]
    {
      LabelsLast(clusters, n, q);
      assert Listed(clusters, q);
    }
  }

  // ---------------------------------------------------------------------
  // kmeans
  // ---------------------------------------------------------------------

  /** What `np.random.choice(n, k, replace=False)` returns: `k` distinct
      positions below `n`. */
  predicate IsDraw(init: seq<nat>, k: nat, n: nat) {
    |init| == k && NoDup(init) && Below(init, n)
  }

  /** The initial centroids: the data points at the drawn positions. */
  function Initial(data: Data, init: seq<nat>): (r: seq<Point>)
    requires Below(init, |data|)
    ensures |r| == |init| && Shaped(r, Dim(data))
    ensures forall t :: 0 <= t < |r| ==> r[t] == data[init[t]]
  {
    seq(|init|, t requires 0 <= t < |init| => data[init[t]])
  }

  datatype Clustering = Clustering(centroids: seq<Point>, labels: seq<nat>, clusters: seq<seq<nat>>)

  /** `kmeans(data, k, max_iters, tolerance)` with the random draw `init`. The
      source checks `k` only; a budget below one leaves the loop unentered
      and the clusters unbound, which fails when the labels are built. */
  function KMeans(data: Data, k: int, maxIters: int, tol: real, init: seq<nat>): (r: Result<Clustering>)
    requires 0 < k <= |data| ==> IsDraw(init, k, |data|)
    ensures r.Err? <==> k <= 0 || k > |data| || maxIters <= 0
    ensures r.Err? ==> r.error == if k <= 0 || k > |data| then InvalidK else NoIterations
    ensures r.Ok? ==> WellClustered(r.value, data, k)
    ensures r.Ok? ==> IsLloydRun(data, Initial(data, init), maxIters as nat, tol, r.value)
  {
    if k <= 0 || k > |data| then Err(InvalidK)
    else if maxIters <= 0 then Err(NoIterations)
    else
      var cs := Initial(data, init);
      var run := Lloyd(data, cs, maxIters, tol);
      LloydRuns(data, cs, maxIters, tol);
      RunFromOutcome(data, cs, maxIters, tol, run.count, Finish(data, run));
      Ok(Finish(data, run))
  }

  /** The loop's outcome, finished, is a run from `cs`. */
  lemma LloydRuns(data: Data, cs: seq<Point>, iters: nat, tol: real)
    requires iters >= 1 && |cs| > 0 && Shaped(cs, Dim(data))
    ensures var run := Lloyd(data, cs, iters, tol);
            WellClustered(Finish(data, run), data, |cs|)
            && RoundOutcome(data, cs, iters, tol, run.count, Finish(data, run))
  {
  }

  lemma RunFromOutcome(data: Data, cs: seq<Point>, iters: nat, tol: real, n: nat, c: Clustering)
    requires |cs| > 0 && Shaped(cs, Dim(data))
    requires WellClustered(c, data, |cs|) && RoundOutcome(data, cs, iters, tol, n, c)
    ensures IsLloydRun(data, cs, iters, tol, c)
  {
  }

  /** `k` centroids of the data's width, `k` clusters partitioning the
      positions, and one label per position naming the cluster that holds
      it. */
  predicate WellClustered(c: Clustering, data: Data, k: nat) {
    && |c.centroids| == |c.clusters| == k && Shaped(c.centroids, Dim(data))
    && Partition(c.clusters, |data|)
    && LabelsMatch(c.labels, c.clusters, |data|)
  }

  /** The returned triple: the last round's centroids and clusters, and the
      labels built from those clusters. */
  function Finish(data: Data, round: Round): (r: Clustering)
    requires |round.start| > 0 && Shaped(round.start, Dim(data))
    requires round.clusters == Assign(data, round.start)
    requires |round.centroids| == |round.start| && Shaped(round.centroids, Dim(data))
    ensures WellClustered(r, data, |round.start|)
    ensures r.centroids == round.centroids && r.clusters == round.clusters
  {
    AssignPartitions(data, round.start);
    assert Partition(round.clusters, |data|);
    var labels := Labels(round.clusters, |data|);
    LabelsAgree(round.clusters, |data|);
    Clustering(round.centroids, labels, round.clusters)
  }

  /** What a run from `cs` returns: for the round `n` where the loop stops,
      the centroids after `n` rounds, the clusters of the points around the
      centroids of round `n - 1`, and labels naming each point's cluster. */
  ghost predicate IsLloydRun(data: Data, cs: seq<Point>, iters: nat, tol: real, c: Clustering)
    requires |cs| > 0 && Shaped(cs, Dim(data))
  {
    && WellClustered(c, data, |cs|)
    && exists n: nat :: RoundOutcome(data, cs, iters, tol, n, c)
  }

  /** `c` holds the centroids and clusters of round `n`, and the loop stops
      there. */
  ghost predicate RoundOutcome(data: Data, cs: seq<Point>, iters: nat, tol: real, n: nat, c: Clustering)
    requires |cs| > 0 && Shaped(cs, Dim(data))
  {
    && StopsAt(data, cs, iters, tol, n)
    && c.centroids == Iterate(data, cs, n)
    && c.clusters == Assign(data, Iterate(data, cs, n - 1))
  }

  /** The run is determined: any clustering that is the loop's outcome from
      the drawn points is the one `kmeans` returns. */
  lemma KMeansIsLloyd(data: Data, k: int, maxIters: int, tol: real, init: seq<nat>, c: Clustering)
    requires 0 < k <= |data| && maxIters >= 1 && IsDraw(init, k, |data|)
    requires IsLloydRun(data, Initial(data, init), maxIters as nat, tol, c)
    ensures KMeans(data, k, maxIters, tol, init) == Ok(c)
  {
    var r := KMeans(data, k, maxIters, tol, init).value;
    RunsAgree(data, Initial(data, init), maxIters as nat, tol, r, c);
  }

  /** Two outcomes of the same loop are the same clustering. */
  lemma RunsAgree(data: Data, cs: seq<Point>, iters: nat, tol: real, a: Clustering, b: Clustering)
    requires |cs| > 0 && Shaped(cs, Dim(data))
    requires IsLloydRun(data, cs, iters, tol, a) && IsLloydRun(data, cs, iters, tol, b)
    ensures a == b
  {
    var n1: nat :| RoundOutcome(data, cs, iters, tol, n1, a);
    var n2: nat :| RoundOutcome(data, cs, iters, tol, n2, b);
    SameRound(data, cs, iters, tol, n1, n2, a, b);
    LabelsDetermined(a.labels, b.labels, a.clusters, |data|);
  }

  /** Two runs from the same centroids stop at the same round. */
  lemma SameRound(data: Data, cs: seq<Point>, iters: nat, tol: real, n1: nat, n2: nat, a: Clustering, b: Clustering)
    requires |cs| > 0 && Shaped(cs, Dim(data))
    requires RoundOutcome(data, cs, iters, tol, n1, a) && RoundOutcome(data, cs, iters, tol, n2, b)
    ensures a.centroids == b.centroids && a.clusters == b.clusters
  {
    StopsAtUnique(data, cs, iters, tol, n1, n2);
  }

  /** Over a partition the labels are fixed by the clusters. */
  lemma LabelsDetermined(a: seq<nat>, b: seq<nat>, clusters: seq<seq<nat>>, n: nat)
    requires Partition(clusters, n)
    requires LabelsMatch(a, clusters, n) && LabelsMatch(b, clusters, n)
    ensures a == b
  {
    forall q | 0 <= q < n ensures a[q] == b[q] {
      assert Listed(clusters, q);
      var c :| 0 <= c < |clusters| && q in clusters[c];
    }
  }

  /** Every label names one of the `k` clusters. */
  lemma LabelsInRange(data: Data, k: int, maxIters: int, tol: real, init: seq<nat>, q: nat)
    requires 0 < k <= |data| && maxIters >= 1 && IsDraw(init, k, |data|) && q < |data|
    ensures KMeans(data, k, maxIters, tol, init).value.labels[q] < k
  {
    var c := KMeans(data, k, maxIters, tol, init).value;
    assert WellClustered(c, data, k);
    assert Listed(c.clusters, q);
    var i :| 0 <= i < |c.clusters| && q in c.clusters[i];
  }
}
