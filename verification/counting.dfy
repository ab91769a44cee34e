/** Occurrence counts, first-appearance distinct values (the `unique()` of a
    column) and the sums over them that the probability tables rest on. */
module Counting {

  predicate NoDup<T(==,!new)>(s: seq<T>) {
    forall i, j :: 0 <= i < j < |s| ==> s[i] != s[j]
  }

  /** In a sequence without duplicates a value sits at one position only. */
  lemma NoDupIndex<T(!new)>(s: seq<T>, i: nat, j: nat)
    requires NoDup(s) && i < |s| && j < |s| && s[i] == s[j]
    ensures i == j
  {
  }

  /** Number of occurrences of `x` in `s`. */
  function Count<T(==,!new)>(s: seq<T>, x: T): (r: nat)
    ensures r <= |s|
    ensures r > 0 <==> x in s
  {
    if s == [] then 0
    else Count(s[..|s| - 1], x) + (if s[|s| - 1] == x then 1 else 0)
  }

  /** The distinct values of `s` in order of first appearance. */
  function Unique<T(==,!new)>(s: seq<T>): (r: seq<T>)
    ensures NoDup(r)
    ensures forall x :: x in r <==> x in s
    ensures |r| <= |s|
  {
    if s == [] then []
    else
      var u := Unique(s[..|s| - 1]);
      if s[|s| - 1] in u then u else u + [s[|s| - 1]]
  }

  /** The sum, over the values `vs`, of their occurrence counts in `s`. */
  function CountSum<T(==,!new)>(vs: seq<T>, s: seq<T>): nat {
    if vs == [] then 0 else CountSum(vs[..|vs| - 1], s) + Count(s, vs[|vs| - 1])
  }

  lemma CountAppend<T(!new)>(s: seq<T>, x: T, y: T)
    ensures Count(s + [x], y) == Count(s, y) + (if x == y then 1 else 0)
  {
    assert (s + [x])[..|s + [x]| - 1] == s;
  }

  lemma {:induction false} CountNoDup<T(!new)>(vs: seq<T>, x: T)
    requires NoDup(vs)
    ensures Count(vs, x) == (if x in vs then 1 else 0)
  {
    if vs != [] {
      var init := vs[..|vs| - 1];
      assert NoDup(init);
      CountNoDup(init, x);
      if vs[|vs| - 1] == x {
        assert x !in init;
      }
      assert x in vs <==> x in init || vs[|vs| - 1] == x;
    }
  }

  lemma {:induction false} CountSumSnoc<T(!new)>(vs: seq<T>, s: seq<T>, x: T)
    ensures CountSum(vs, s + [x]) == CountSum(vs, s) + Count(vs, x)
  {
    if vs != [] {
      var init := vs[..|vs| - 1];
      CountSumSnoc(init, s, x);
      CountAppend(s, x, vs[|vs| - 1]);
    }
  }

  /** Counting every value of `s` over a duplicate-free cover of its values
      accounts for each element exactly once. */
  lemma {:induction false} CountSumCover<T(!new)>(vs: seq<T>, s: seq<T>)
    requires NoDup(vs)
    requires forall x :: x in s ==> x in vs
    ensures CountSum(vs, s) == |s|
  {
    if s == [] {
      CountSumZero(vs, s);
    } else {
      var init := s[..|s| - 1];
      var last := s[|s| - 1];
      assert s == init + [last];
      CountSumCover(vs, init);
      CountSumSnoc(vs, init, last);
      CountNoDup(vs, last);
    }
  }

  lemma {:induction false} CountSumZero<T(!new)>(vs: seq<T>, s: seq<T>)
    requires s == []
    ensures CountSum(vs, s) == 0
  {
    if vs != [] {
      CountSumZero(vs[..|vs| - 1], s);
    }
  }

  /** The distinct values of a column, counted, add up to the column length. */
  lemma UniqueCountSum<T(!new)>(s: seq<T>)
    ensures CountSum(Unique(s), s) == |s|
  {
    CountSumCover(Unique(s), s);
  }

  /** A non-empty sequence has a single distinct value exactly when all its
      elements equal the first one. */
  lemma {:induction false} UniqueSingleton<T(!new)>(s: seq<T>)
    requires |s| > 0
    ensures |Unique(s)| == 1 <==> forall i :: 0 <= i < |s| ==> s[i] == s[0]
    ensures |Unique(s)| == 1 ==> Unique(s) == [s[0]]
  {
    var u := Unique(s);
    assert s[0] in u;
    if forall i :: 0 <= i < |s| ==> s[i] == s[0] {
      forall x | x in u ensures x == s[0] {
        assert x in s;
      }
      NoDupAllEqual(u, s[0]);
      assert u[0] in u;
      assert u == [s[0]];
    } else {
      var i :| 0 <= i < |s| && s[i] != s[0];
      assert s[i] in u;
      TwoMembers(u, s[0], s[i]);
    }
  }

  lemma TwoMembers<T(!new)>(u: seq<T>, a: T, b: T)
    requires a in u && b in u && a != b
    ensures |u| >= 2
  {
    var i :| 0 <= i < |u| && u[i] == a;
    var j :| 0 <= j < |u| && u[j] == b;
    assert i != j;
  }

  lemma NoDupAllEqual<T(!new)>(u: seq<T>, x: T)
    requires NoDup(u)
    requires forall y :: y in u ==> y == x
    ensures |u| <= 1
  {
    if |u| > 1 {
      FirstTwoEqual(u, x);
      assert false;
    }
  }

  lemma FirstTwoEqual<T(!new)>(u: seq<T>, x: T)
    requires |u| > 1
    requires forall y :: y in u ==> y == x
    ensures u[0] == u[1]
  {
    assert u[0] in u && u[1] in u;
  }

  /** A duplicate-free sequence has as many elements as its set. */
  lemma {:induction false} NoDupSetSize<T(!new)>(s: seq<T>)
    requires NoDup(s)
    ensures |set c | c in s| == |s|
  {
    if s != [] {
      var init := s[..|s| - 1];
      NoDupSetSize(init);
      assert (set c | c in s) == (set c | c in init) + {s[|s| - 1]};
      assert s[|s| - 1] !in init;
    }
  }

  /** Sequences with the same members have the same set of members. */
  lemma SameMembers<T(!new)>(a: seq<T>, b: seq<T>)
    requires forall v :: v in a <==> v in b
    ensures (set v | v in a) == (set v | v in b)
  {
  }

  /** Positions of `s` holding `x`, ascending. */
  function IndicesOf<T(==,!new)>(s: seq<T>, x: T): (r: seq<nat>)
    ensures |r| == Count(s, x)
    ensures forall k :: 0 <= k < |r| ==> r[k] < |s| && s[r[k]] == x
    ensures forall i :: 0 <= i < |s| && s[i] == x ==> i in r
  {
    if s == [] then []
    else
      var init := IndicesOf(s[..|s| - 1], x);
      if s[|s| - 1] == x then init + [|s| - 1] else init
  }

  /** Finite set sums, by repeatedly taking out an arbitrary element. */
  ghost function SumSet<T>(S: set<T>, f: T -> real): real
    decreases S
  {
    if S == {} then 0.0
    else
      var x :| x in S;
      f(x) + SumSet(S - {x}, f)
  }

  /** Whichever element is taken out first, the sum is the same. */
  lemma {:induction false} SumSetRemove<T(!new)>(S: set<T>, f: T -> real, y: T)
    requires y in S
    ensures SumSet(S, f) == f(y) + SumSet(S - {y}, f)
    decreases S
  {
    var x :| x in S && SumSet(S, f) == f(x) + SumSet(S - {x}, f);
    if x != y {
      SumSetRemove(S - {x}, f, y);
      SumSetRemove(S - {y}, f, x);
      assert S - {x} - {y} == S - {y} - {x};
    }
  }

  /** Adding a constant to every term adds it once per element. */
  lemma {:induction false} SumSetShift<T(!new)>(S: set<T>, f: T -> real, h: T -> real, b: real)
    requires forall v :: v in S ==> h(v) == f(v) + b
    ensures SumSet(S, h) == SumSet(S, f) + b * (|S| as real)
    decreases S
  {
    if S != {} {
      var x :| x in S;
      SumSetShift(S - {x}, f, h, b);
      SumSetRemove(S, f, x);
      SumSetRemove(S, h, x);
    }
  }

  /** Scaling every term scales the sum. */
  lemma {:induction false} SumSetScale<T(!new)>(S: set<T>, f: T -> real, h: T -> real, a: real)
    requires forall v :: v in S ==> h(v) == a * f(v)
    ensures SumSet(S, h) == a * SumSet(S, f)
    decreases S
  {
    if S != {} {
      var x :| x in S;
      SumSetScale(S - {x}, f, h, a);
      SumSetRemove(S, f, x);
      SumSetRemove(S, h, x);
    }
  }

  /** Pointwise sum of two functions. */
  lemma {:induction false} SumSetAdd<T(!new)>(S: set<T>, f: T -> real, g: T -> real, h: T -> real)
    requires forall v :: v in S ==> h(v) == f(v) + g(v)
    ensures SumSet(S, h) == SumSet(S, f) + SumSet(S, g)
    decreases S
  {
    if S != {} {
      var x :| x in S;
      SumSetAdd(S - {x}, f, g, h);
      SumSetRemove(S, f, x);
      SumSetRemove(S, g, x);
      SumSetRemove(S, h, x);
    }
  }

  /** Occurrence counts of `s`, as a function into the reals. */
  function CountOf<T(==,!new)>(s: seq<T>): T -> real {
    v => Count(s, v) as real
  }

  function Indicator<T(==,!new)>(x: T): T -> real {
    v => if v == x then 1.0 else 0.0
  }

  lemma IndicatorSum<T(!new)>(S: set<T>, x: T)
    requires x in S
    ensures SumSet(S, Indicator(x)) == 1.0
  {
    SumSetRemove(S, Indicator(x), x);
    SumSetScale(S - {x}, Indicator(x), Indicator(x), 0.0);
  }

  /** Summing the occurrence counts of `s` over any finite set containing
      every element of `s` gives its length. */
  lemma {:induction false} SumSetCountCover<T(!new)>(S: set<T>, s: seq<T>)
    requires forall x :: x in s ==> x in S
    ensures SumSet(S, CountOf(s)) == |s| as real
    decreases |s|
  {
    if s == [] {
      SumSetScale(S, CountOf(s), CountOf(s), 0.0);
    } else {
      var init := s[..|s| - 1];
      var last := s[|s| - 1];
      assert s == init + [last];
      SumSetCountCover(S, init);
      forall v | v in S
        ensures CountOf(s)(v) == CountOf(init)(v) + Indicator(last)(v)
      {
        CountAppend(init, last, v);
      }
      SumSetAdd(S, CountOf(init), Indicator(last), CountOf(s));
      IndicatorSum(S, last);
    }
  }

  /** Python's `max(keys, key=f)`: the first position holding a largest value. */
  function FirstMax(xs: seq<real>): (k: nat)
    requires |xs| > 0
    ensures k < |xs|
    ensures forall j :: 0 <= j < |xs| ==> xs[j] <= xs[k]
    ensures forall j :: 0 <= j < k ==> xs[j] < xs[k]
  {
    if |xs| == 1 then 0
    else
      var k := FirstMax(xs[..|xs| - 1]);
      if xs[|xs| - 1] > xs[k] then |xs| - 1 else k
  }
}
