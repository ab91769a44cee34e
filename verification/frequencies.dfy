/** Relative frequencies (`value_counts(normalize=True)`), sums and weighted
    sums of reals, and the small facts of real arithmetic the impurity and
    probability proofs rest on. */
module Frequencies {
  import opened Counting

  function Sum(ps: seq<real>): real {
    if ps == [] then 0.0 else Sum(ps[..|ps| - 1]) + ps[|ps| - 1]
  }

  /** The sum of the pairwise products: a weighted sum of `ys` with the
      weights `xs`. */
  function Dot(xs: seq<real>, ys: seq<real>): real
    requires |xs| == |ys|
  {
    if xs == [] then 0.0 else Dot(xs[..|xs| - 1], ys[..|ys| - 1]) + xs[|xs| - 1] * ys[|ys| - 1]
  }

  /** The relative frequency in `col` of each value of `vs`. */
  function Ratios<T(==,!new)>(vs: seq<T>, col: seq<T>): (r: seq<real>)
    requires forall v :: v in vs ==> v in col
    ensures |r| == |vs|
    ensures forall k :: 0 <= k < |r| ==> r[k] == Count(col, vs[k]) as real / |col| as real
    ensures forall k :: 0 <= k < |r| ==> 0.0 < r[k] <= 1.0
  {
    if vs == [] then []
    else
      var v := vs[|vs| - 1];
      DivBounds(Count(col, v) as real, |col| as real);
      Ratios(vs[..|vs| - 1], col) + [Count(col, v) as real / |col| as real]
  }

  /** `value_counts(normalize=True)`: one probability per distinct value, in
      order of first appearance; they add up to one on a non-empty column. */
  function Probabilities<T(==,!new)>(col: seq<T>): (r: seq<real>)
    ensures |r| == |Unique(col)|
    ensures forall k :: 0 <= k < |r| ==> 0.0 < r[k] <= 1.0
    ensures col != [] ==> Sum(r) == 1.0
  {
    var u := Unique(col);
    SumRatios(u, col);
    UniqueCountSum(col);
    DivSelf(|col| as real);
    Ratios(u, col)
  }

  /** The ratios of several values add up to their total count over the
      column length. */
  lemma {:induction false} SumRatios<T(!new)>(vs: seq<T>, col: seq<T>)
    requires forall v :: v in vs ==> v in col
    ensures col != [] ==> Sum(Ratios(vs, col)) == CountSum(vs, col) as real / |col| as real
  {
    if vs != [] {
      var init := vs[..|vs| - 1];
      var v := vs[|vs| - 1];
      SumRatios(init, col);
      assert Ratios(vs, col)[..|vs| - 1] == Ratios(init, col);
      DivAdd(CountSum(init, col) as real, Count(col, v) as real, |col| as real);
    }
  }

  lemma {:induction false} SumOnes(ps: seq<real>)
    requires forall k :: 0 <= k < |ps| ==> ps[k] == 1.0
    ensures Sum(ps) == |ps| as real
  {
    if ps != [] {
      SumOnes(ps[..|ps| - 1]);
    }
  }

  /** Non-negative weights of non-negative values give a non-negative sum. */
  lemma {:induction false} DotNonNegative(xs: seq<real>, ys: seq<real>)
    requires |xs| == |ys|
    requires forall k :: 0 <= k < |xs| ==> xs[k] >= 0.0 && ys[k] >= 0.0
    ensures Dot(xs, ys) >= 0.0
  {
    if xs != [] {
      DotNonNegative(xs[..|xs| - 1], ys[..|ys| - 1]);
      MulNonNegative(xs[|xs| - 1], ys[|ys| - 1]);
    }
  }

  /** Zero values weigh nothing, whatever the weights. */
  lemma {:induction false} DotZero(xs: seq<real>, ys: seq<real>)
    requires |xs| == |ys|
    requires forall k :: 0 <= k < |ys| ==> ys[k] == 0.0
    ensures Dot(xs, ys) == 0.0
  {
    if xs != [] {
      DotZero(xs[..|xs| - 1], ys[..|ys| - 1]);
    }
  }

  lemma DotOne(y: real)
    ensures Dot([1.0], [y]) == y
  {
    assert [1.0][..0] == [] && [y][..0] == [];
  }

  // ---------------------------------------------------------------------
  // Arithmetic on the reals
  // ---------------------------------------------------------------------

  lemma DivBounds(c: real, n: real)
    requires 0.0 < c <= n
    ensures 0.0 < c / n <= 1.0
  {
  }

  lemma DivRange(a: real, n: real)
    requires 0.0 <= a <= n && n > 0.0
    ensures 0.0 <= a / n <= 1.0
  {
  }

  lemma DivMonotone(a: real, b: real, n: real)
    requires a <= b && n > 0.0
    ensures a / n <= b / n
  {
  }

  lemma DivSelf(n: real)
    ensures n > 0.0 ==> n / n == 1.0
  {
  }

  lemma DivOneIff(a: real, n: real)
    requires n > 0.0
    ensures a / n == 1.0 <==> a == n
  {
  }

  lemma DivAdd(a: real, b: real, n: real)
    requires n > 0.0
    ensures a / n + b / n == (a + b) / n
  {
  }

  lemma MulNonPositive(p: real, l: real)
    requires p > 0.0 && l <= 0.0
    ensures p * l <= 0.0
  {
  }

  lemma MulNegative(p: real, l: real)
    requires p > 0.0 && l < 0.0
    ensures p * l < 0.0
  {
  }

  lemma MulNonNegative(a: real, b: real)
    requires a >= 0.0 && b >= 0.0
    ensures a * b >= 0.0
  {
  }
}
