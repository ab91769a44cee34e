/** A rectangular table of categorical values: the DataFrame every engine
    reads. Columns have distinct names in a fixed order, and every row has a
    value in every column. */
module Tables {
  import opened Counting

  type Value = string

  type Row = map<string, Value>

  datatype RawTable = RawTable(columns: seq<string>, rows: seq<Row>)

  predicate WellFormed(t: RawTable) {
    && NoDup(t.columns)
    && forall i :: 0 <= i < |t.rows| ==> forall c :: c in t.columns ==> c in t.rows[i]
  }

  type Table = t: RawTable | WellFormed(t) witness RawTable([], [])

  predicate HasColumns(t: Table, cs: seq<string>) {
    forall c :: c in cs ==> c in t.columns
  }

  /** The values in column `c` of rows that all have it. */
  function Project(rows: seq<Row>, c: string): (r: seq<Value>)
    requires forall i :: 0 <= i < |rows| ==> c in rows[i]
    ensures |r| == |rows|
    ensures forall i :: 0 <= i < |r| ==> r[i] == rows[i][c]
  {
    if rows == [] then [] else Project(rows[..|rows| - 1], c) + [rows[|rows| - 1][c]]
  }

  /** The values of one column, top to bottom (`df[c]`). */
  function Column(t: Table, c: string): (r: seq<Value>)
    requires c in t.columns
    ensures |r| == |t.rows|
    ensures forall i :: 0 <= i < |r| ==> r[i] == t.rows[i][c]
  {
    Project(t.rows, c)
  }

  /** The rows whose value in `c` is `v`, in order. */
  function FilterRows(rows: seq<Row>, c: string, v: Value): (r: seq<Row>)
    ensures forall x :: x in r <==> x in rows && c in x && x[c] == v
    ensures |r| <= |rows|
  {
    if rows == [] then []
    else
      var init := FilterRows(rows[..|rows| - 1], c, v);
      var last := rows[|rows| - 1];
      assert forall x :: x in rows <==> x in rows[..|rows| - 1] || x == last;
      if c in last && last[c] == v then init + [last] else init
  }

  /** `df[df[c] == v]`: the rows whose value in column `c` is `v`. */
  function Where(t: Table, c: string, v: Value): (r: Table)
    requires c in t.columns
    ensures r.columns == t.columns
    ensures forall x :: x in r.rows <==> x in t.rows && x[c] == v
  {
    var rows := FilterRows(t.rows, c, v);
    assert forall i :: 0 <= i < |rows| ==> rows[i] in t.rows;
    RawTable(t.columns, rows)
  }

  /** The rows kept by a filter are as many as the occurrences of the value
      in the column. */
  lemma {:induction false} FilterCount(rows: seq<Row>, c: string, v: Value)
    requires forall i :: 0 <= i < |rows| ==> c in rows[i]
    ensures |FilterRows(rows, c, v)| == Count(Project(rows, c), v)
  {
    if rows != [] {
      var init := rows[..|rows| - 1];
      FilterCount(init, c, v);
      assert Project(rows, c)[..|rows| - 1] == Project(init, c);
    }
  }

  lemma WhereCount(t: Table, c: string, v: Value)
    requires c in t.columns
    ensures |Where(t, c, v).rows| == Count(Column(t, c), v)
  {
    FilterCount(t.rows, c, v);
  }

  /** A value that occurs in a column selects at least one row. */
  lemma WhereNonEmpty(t: Table, c: string, v: Value)
    requires c in t.columns && v in Column(t, c)
    ensures Where(t, c, v).rows != []
  {
    var col := Column(t, c);
    var i :| 0 <= i < |col| && col[i] == v;
    assert t.rows[i] in Where(t, c, v).rows;
  }

  /** A filter that every row passes keeps every row. */
  lemma {:induction false} FilterAll(rows: seq<Row>, c: string, v: Value)
    requires forall i :: 0 <= i < |rows| ==> c in rows[i] && rows[i][c] == v
    ensures FilterRows(rows, c, v) == rows
  {
    if rows != [] {
      FilterAll(rows[..|rows| - 1], c, v);
    }
  }

  /** A value is in column `d` of the rows whose `c` is `v` exactly when some
      row has both. */
  lemma WhereMembers(t: Table, c: string, v: Value, d: string, x: Value)
    requires c in t.columns && d in t.columns
    ensures x in Column(Where(t, c, v), d) <==>
              exists k :: 0 <= k < |t.rows| && t.rows[k][c] == v && t.rows[k][d] == x
  {
    var w := Where(t, c, v);
    if x in Column(w, d) {
      var j :| 0 <= j < |w.rows| && w.rows[j][d] == x;
      assert w.rows[j] in w.rows;
    }
    if exists k :: 0 <= k < |t.rows| && t.rows[k][c] == v && t.rows[k][d] == x {
      var k :| 0 <= k < |t.rows| && t.rows[k][c] == v && t.rows[k][d] == x;
      assert t.rows[k] in w.rows;
      var j :| 0 <= j < |w.rows| && w.rows[j] == t.rows[k];
      assert Column(w, d)[j] == x;
    }
  }

  /** The column names without `c`. */
  function Remove(cs: seq<string>, c: string): (r: seq<string>)
    ensures forall x :: x in r <==> x in cs && x != c
    ensures NoDup(cs) ==> NoDup(r)
    ensures NoDup(cs) && c in cs ==> |r| == |cs| - 1
    ensures c !in cs ==> r == cs
  {
    if cs == [] then []
    else
      var rest := Remove(cs[1..], c);
      assert forall x :: x in cs <==> x == cs[0] || x in cs[1..];
      assert NoDup(cs) ==> NoDup(cs[1..]) && cs[0] !in cs[1..];
      if cs[0] == c then rest else [cs[0]] + rest
  }

  /** `df.drop(columns=[c])`. */
  function Drop(t: Table, c: string): (r: Table)
    ensures forall x :: x in r.columns <==> x in t.columns && x != c
    ensures c in t.columns ==> |r.columns| == |t.columns| - 1
    ensures |r.rows| == |t.rows|
    ensures forall i :: 0 <= i < |r.rows| ==> r.rows[i] == t.rows[i] - {c}
  {
    RawTable(Remove(t.columns, c), seq(|t.rows|, i requires 0 <= i < |t.rows| => t.rows[i] - {c}))
  }

  /** Row positions `0 .. n-1`. */
  function Range(n: nat): (r: set<nat>)
    ensures forall i: nat :: i in r <==> i < n
    ensures |r| == n
  {
    if n == 0 then {}
    else
      var r := Range(n - 1) + {n - 1};
      assert forall i: nat :: i in r <==> i < n by {
        forall i: nat ensures i in r <==> i < n {
          if i == n - 1 { } else { }
        }
      }
      r
  }

  /** A subset of `0 .. n-1` has at most n elements, and exactly n only
      when it is all of them. */
  lemma SubsetOfRange(s: set<nat>, n: nat)
    requires forall i :: i in s ==> i < n
    ensures |s| <= n
    ensures |s| == n ==> s == Range(n)
  {
    assert s <= Range(n);
    assert |Range(n) - s| == |Range(n)| - |s|;
  }
}
