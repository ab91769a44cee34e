/** The Apriori engine: thresholds, the grouping of purchase rows into
    transactions, the one-hot matrix with its "ID" column, frequent-itemset
    mining, the maximal-itemset filter and association rules.

    Mining and rule generation are library calls in the program; they are
    modelled by the definitions those calls implement (every non-empty
    itemset whose support reaches the threshold; every split of a frequent
    itemset into antecedent and consequent whose confidence reaches the
    threshold), without the library's row order. */
module Apriori {
  import opened Results
  import opened Counting
  import opened Text
  import opened Tables
  import opened Frequencies

  /** A threshold or a support: a real in (0, 1]. */
  type Fraction = x: real | 0.0 < x <= 1.0 witness 1.0

  type Itemset = set<Value>

  /** The `itemsets` and `support` columns of a frequent-itemset table; the
      `length` column is the size of the key. */
  type SupportTable = map<Itemset, Fraction>

  datatype Rule = Rule(
    antecedents: Itemset,
    consequents: Itemset,
    antecedentSupport: Fraction,
    consequentSupport: Fraction,
    support: Fraction,
    confidence: real)

  /** The one-hot matrix: an optional "ID" column, then one boolean column
      per item. A column called "ID", whatever it holds, is the `ids` column,
      so no item column has that name. */
  datatype RawMatrix = RawMatrix(ids: Option<seq<string>>, items: seq<Value>, cells: seq<seq<bool>>)

  predicate Rectangular(items: seq<Value>, cells: seq<seq<bool>>) {
    forall i :: 0 <= i < |cells| ==> |cells[i]| == |items|
  }

  type BinaryMatrix = b: RawMatrix
    | Rectangular(b.items, b.cells) && (b.ids.Some? ==> |b.ids.value| == |b.cells|) && "ID" !in b.items
    witness RawMatrix(None, [], [])

  /** The column names of a matrix, "ID" first when present. */
  function MatrixColumns(b: BinaryMatrix): seq<string> {
    (if b.ids.Some? then ["ID"] else []) + b.items
  }

  /** The engine's state. Thresholds are only ever stored after validation. */
  datatype Model = Model(
    minSup: Option<Fraction>,
    minConf: Option<Fraction>,
    transactions: seq<seq<Value>>,
    frequent: Option<SupportTable>,
    rules: Option<set<Rule>>,
    numItemsets: Option<nat>)

  /** `__init__`: no thresholds, no transactions, no results. `num_itemsets`
      is not assigned until the first mining step. */
  function NewModel(): Model {
    Model(None, None, [], None, None, None)
  }

  // ---------------------------------------------------------------------
  // Thresholds
  // ---------------------------------------------------------------------

  predicate InUnitInterval(x: real) {
    0.0 < x <= 1.0
  }

  /** `set_params`: the support threshold must be given and in (0, 1]; the
      confidence threshold may be absent, and otherwise must be in (0, 1].
      A rejection changes nothing. */
  function SetParams(m: Model, minSup: Option<real>, minConf: Option<real>): (r: Result<Model>)
    ensures r.Ok? <==> minSup.Some? && InUnitInterval(minSup.value) &&
                       (minConf.Some? ==> InUnitInterval(minConf.value))
    ensures r.Err? ==> r.error == InvalidThreshold
    ensures r.Ok? ==> r.value.minSup == minSup && r.value.minConf == minConf
    ensures r.Ok? ==> r.value == m.(minSup := r.value.minSup, minConf := r.value.minConf)
  {
    if minSup.None? || minSup.value <= 0.0 || minSup.value > 1.0 then Err(InvalidThreshold)
    else if minConf.Some? && (minConf.value <= 0.0 || minConf.value > 1.0) then Err(InvalidThreshold)
    else
      var s: Fraction := minSup.value;
      var c: Option<Fraction> := if minConf.Some? then var x: Fraction := minConf.value; Some(x) else None;
      Ok(m.(minSup := Some(s), minConf := c))
  }

  /** Re-setting the thresholds a model already holds succeeds and changes
      nothing. */
  lemma SetParamsIdempotent(m: Model)
    requires m.minSup.Some?
    ensures SetParams(m, OptionReal(m.minSup), OptionReal(m.minConf)) == Ok(m)
  {
  }

  function OptionReal(x: Option<Fraction>): (r: Option<real>)
    ensures r.Some? <==> x.Some?
    ensures r.Some? ==> r.value == x.value
  {
    if x.Some? then Some(x.value) else None
  }

  // ---------------------------------------------------------------------
  // Transactions
  // ---------------------------------------------------------------------

  /** The distinct IDs in ascending order: the keys of `groupby('ID')`. */
  function IdKeys(t: Table): (r: seq<Value>)
    requires "ID" in t.columns
    ensures StrictlySorted(r)
    ensures forall v :: v in r <==> v in Column(t, "ID")
  {
    var ids := set v | v in Column(t, "ID");
    assert forall v :: v in ids <==> v in Column(t, "ID");
    SortSet(ids)
  }

  /** The `items` of the rows whose ID is `k`, in row order. */
  function IdItems(t: Table, k: Value): seq<Value>
    requires "ID" in t.columns && "items" in t.columns
  {
    Column(Where(t, "ID", k), "items")
  }

  /** The `items` of the rows with each key, in row order. */
  function Groups(t: Table, keys: seq<Value>): (r: seq<seq<Value>>)
    requires "ID" in t.columns && "items" in t.columns
    ensures |r| == |keys|
    ensures forall i :: 0 <= i < |r| ==> r[i] == IdItems(t, keys[i])
  {
    seq(|keys|, i requires 0 <= i < |keys| => IdItems(t, keys[i]))
  }

  /** `groupby('ID')['items'].apply(list).tolist()`. */
  function GroupItems(t: Table): seq<seq<Value>>
    requires "ID" in t.columns && "items" in t.columns
  {
    Groups(t, IdKeys(t))
  }

  /** `prepare_transactions`: both columns are required; one item list per
      distinct ID. */
  function PrepareTransactions(m: Model, data: Table): (r: Result<Model>)
    ensures "ID" !in data.columns ==> r == Err(MissingColumn("ID"))
    ensures "ID" in data.columns && "items" !in data.columns ==> r == Err(MissingColumn("items"))
    ensures r.Ok? <==> "ID" in data.columns && "items" in data.columns
    ensures r.Ok? ==> r.value == m.(transactions := GroupItems(data))
  {
    if "ID" !in data.columns then Err(MissingColumn("ID"))
    else if "items" !in data.columns then Err(MissingColumn("items"))
    else Ok(m.(transactions := GroupItems(data)))
  }

  /** The total number of items over all transactions. */
  function TotalLength(ts: seq<seq<Value>>): nat {
    if ts == [] then 0 else TotalLength(ts[..|ts| - 1]) + |ts[|ts| - 1]|
  }

  lemma {:induction false} GroupsLength(t: Table, keys: seq<Value>)
    requires "ID" in t.columns && "items" in t.columns
    ensures TotalLength(Groups(t, keys)) == CountSum(keys, Column(t, "ID"))
  {
    if keys != [] {
      var init := keys[..|keys| - 1];
      GroupsLength(t, init);
      assert Groups(t, keys)[..|keys| - 1] == Groups(t, init);
      WhereCount(t, "ID", keys[|keys| - 1]);
    }
  }

  lemma SortedNoDup(xs: seq<string>)
    requires StrictlySorted(xs)
    ensures NoDup(xs)
  {
    forall i, j | 0 <= i < j < |xs|
      ensures xs[i] != xs[j]
    {
      if xs[i] == xs[j] {
        LexIrreflexive(xs[i]);
      }
    }
  }

  /** Grouping loses no row and invents none: there is one transaction per
      distinct ID and the transactions hold as many items as there are
      rows. */
  lemma GroupingKeepsEveryRow(t: Table)
    requires "ID" in t.columns && "items" in t.columns
    ensures |GroupItems(t)| == |set v | v in Column(t, "ID")|
    ensures TotalLength(GroupItems(t)) == |t.rows|
  {
    var keys := IdKeys(t);
    SortedNoDup(keys);
    GroupsTotal(t, keys);
    KeysCount(t);
  }

  /** There is one key per distinct ID. */
  lemma KeysCount(t: Table)
    requires "ID" in t.columns
    ensures |IdKeys(t)| == |set v | v in Column(t, "ID")|
  {
    var keys := IdKeys(t);
    SortedNoDup(keys);
    NoDupSetSize(keys);
    SameMembers(keys, Column(t, "ID"));
  }

  lemma GroupsTotal(t: Table, keys: seq<Value>)
    requires "ID" in t.columns && "items" in t.columns
    requires NoDup(keys) && forall v :: v in Column(t, "ID") ==> v in keys
    ensures TotalLength(Groups(t, keys)) == |t.rows|
  {
    GroupsLength(t, keys);
    CountSumCover(keys, Column(t, "ID"));
  }

  /** An item is in the transaction of an ID exactly when some row with that
      ID lists it. */
  lemma GroupMembers(t: Table, i: nat, x: Value)
    requires "ID" in t.columns && "items" in t.columns
    requires i < |GroupItems(t)|
    ensures x in GroupItems(t)[i] <==>
              exists k :: 0 <= k < |t.rows| && t.rows[k]["ID"] == IdKeys(t)[i] && t.rows[k]["items"] == x
  {
    WhereMembers(t, "ID", IdKeys(t)[i], "items", x);
  }

  // ---------------------------------------------------------------------
  // The one-hot matrix
  // ---------------------------------------------------------------------

  function ItemsOf(tr: seq<Value>): Itemset {
    set x | x in tr
  }

  /** Every item bought in some transaction. */
  function AllItems(ts: seq<seq<Value>>): (r: Itemset)
    ensures forall x :: x in r <==> exists i :: 0 <= i < |ts| && x in ts[i]
  {
    set i, x | 0 <= i < |ts| && x in ts[i] :: x
  }

  /** The label of the transaction at position `i`: "o1", "o2", ... */
  function IdLabel(i: nat): string {
    "o" + NatToString(i + 1)
  }

  function IdLabels(n: nat): (r: seq<string>)
    ensures |r| == n && forall i :: 0 <= i < n ==> r[i] == IdLabel(i)
  {
    seq(n, i requires 0 <= i < n => IdLabel(i))
  }

  /** The one-hot rows: cell (i, j) holds whether transaction i bought item
      j. */
  function Encode(ts: seq<seq<Value>>, items: seq<Value>): (r: seq<seq<bool>>)
    ensures |r| == |ts| && Rectangular(items, r)
    ensures forall i, j :: 0 <= i < |ts| && 0 <= j < |items| ==> (r[i][j] <==> items[j] in ts[i])
  {
    seq(|ts|, i requires 0 <= i < |ts| => seq(|items|, j requires 0 <= j < |items| => items[j] in ts[i]))
  }

  /** `generate_binary_matrix`: needs transactions; one row per transaction,
      the items in ascending order as columns, and an "ID" column in front,
      which cannot be added when an item is itself called "ID". */
  function GenerateBinaryMatrix(m: Model): (r: Result<BinaryMatrix>)
    ensures m.transactions == [] ==> r == Err(EmptyTransactions)
    ensures m.transactions != [] && "ID" in AllItems(m.transactions) ==> r == Err(DuplicateColumn("ID"))
    ensures r.Ok? <==> m.transactions != [] && "ID" !in AllItems(m.transactions)
    ensures r.Ok? ==> && r.value.ids == Some(IdLabels(|m.transactions|))
                      && |r.value.cells| == |m.transactions|
                      && StrictlySorted(r.value.items)
                      && (forall x :: x in r.value.items <==> x in AllItems(m.transactions))
                      && r.value.cells == Encode(m.transactions, r.value.items)
  {
    var ts := m.transactions;
    if ts == [] then Err(EmptyTransactions)
    else
      var items := SortSet(AllItems(ts));
      if "ID" in items then Err(DuplicateColumn("ID"))
      else Ok(RawMatrix(Some(IdLabels(|ts|)), items, Encode(ts, items)))
  }

  /** The ID labels are distinct. */
  lemma IdLabelsDistinct(n: nat)
    ensures NoDup(IdLabels(n))
  {
    forall i, j | 0 <= i < j < n
      ensures IdLabel(i) != IdLabel(j)
    {
      IdLabelInjective(i, j);
    }
  }

  lemma IdLabelInjective(i: nat, j: nat)
    ensures IdLabel(i) == IdLabel(j) ==> i == j
  {
    assert IdLabel(i)[1..] == NatToString(i + 1);
    assert IdLabel(j)[1..] == NatToString(j + 1);
    if IdLabel(i) == IdLabel(j) {
      NatToStringInjective(i + 1, j + 1);
    }
  }

  /** The matrix has distinct column names, "ID" first. */
  lemma MatrixColumnsDistinct(m: Model)
    requires GenerateBinaryMatrix(m).Ok?
    ensures var b := GenerateBinaryMatrix(m).value;
            MatrixColumns(b)[0] == "ID" && NoDup(MatrixColumns(b))
  {
    var b := GenerateBinaryMatrix(m).value;
    SortedNoDup(b.items);
    assert MatrixColumns(b) == ["ID"] + b.items;
  }

  /** The items a row marks. */
  function DecodeRow(items: seq<Value>, row: seq<bool>): Itemset
    requires |row| == |items|
  {
    set j | 0 <= j < |items| && row[j] :: items[j]
  }

  /** Each transaction's item set can be read back from its row. */
  lemma EncodeDecode(m: Model, i: nat)
    requires GenerateBinaryMatrix(m).Ok? && i < |m.transactions|
    ensures var b := GenerateBinaryMatrix(m).value;
            DecodeRow(b.items, b.cells[i]) == ItemsOf(m.transactions[i])
  {
    var b := GenerateBinaryMatrix(m).value;
    var tr := m.transactions[i];
    forall x | x in ItemsOf(tr)
      ensures x in DecodeRow(b.items, b.cells[i])
    {
      assert x in AllItems(m.transactions);
      var j :| 0 <= j < |b.items| && b.items[j] == x;
    }
  }

  // ---------------------------------------------------------------------
  // Frequent itemsets
  // ---------------------------------------------------------------------

  /** The row marks every item of `s` that is a column. */
  predicate RowHas(items: seq<Value>, row: seq<bool>, s: Itemset)
    requires |row| == |items|
  {
    forall j :: 0 <= j < |items| && items[j] in s ==> row[j]
  }

  /** The number of rows marking every item of `s`. */
  function Covering(items: seq<Value>, cells: seq<seq<bool>>, s: Itemset): (r: nat)
    requires Rectangular(items, cells)
    ensures r <= |cells|
  {
    if cells == [] then 0
    else Covering(items, cells[..|cells| - 1], s) + (if RowHas(items, cells[|cells| - 1], s) then 1 else 0)
  }

  /** The fraction of rows containing `s`. */
  function Support(items: seq<Value>, cells: seq<seq<bool>>, s: Itemset): (r: real)
    requires Rectangular(items, cells) && cells != []
    ensures 0.0 <= r <= 1.0
  {
    DivRange(Covering(items, cells, s) as real, |cells| as real);
    Covering(items, cells, s) as real / |cells| as real
  }

  function ItemSet(items: seq<Value>): Itemset {
    set x | x in items
  }

  /** Every non-empty itemset over the item columns whose support reaches
      `minSup`, with its support. A matrix without rows has no frequent
      itemset (every support is undefined there). */
  function Mine(items: seq<Value>, cells: seq<seq<bool>>, minSup: Fraction): (r: SupportTable)
    requires Rectangular(items, cells)
    ensures forall s :: s in r ==> cells != [] && s != {} && s <= ItemSet(items) &&
                                   r[s] == Support(items, cells, s) >= minSup
    ensures cells != [] ==> forall s :: s <= ItemSet(items) && s != {} && Support(items, cells, s) >= minSup ==> s in r
  {
    if cells == [] then map[]
    else
      map s: Itemset | s <= ItemSet(items) && s != {} && Support(items, cells, s) >= minSup
        :: (Support(items, cells, s) as Fraction)
  }

  /** A row holding a set holds each of its subsets. */
  lemma {:induction false} CoveringMonotone(items: seq<Value>, cells: seq<seq<bool>>, s: Itemset, t: Itemset)
    requires Rectangular(items, cells) && s <= t
    ensures Covering(items, cells, t) <= Covering(items, cells, s)
  {
    if cells != [] {
      CoveringMonotone(items, cells[..|cells| - 1], s, t);
    }
  }

  /** The Apriori property: every non-empty subset of a frequent itemset is
      frequent, with at least its support. */
  lemma DownwardClosed(items: seq<Value>, cells: seq<seq<bool>>, minSup: Fraction, s: Itemset, t: Itemset)
    requires Rectangular(items, cells)
    requires s in Mine(items, cells, minSup) && t <= s && t != {}
    ensures t in Mine(items, cells, minSup)
    ensures Mine(items, cells, minSup)[t] >= Mine(items, cells, minSup)[s]
  {
    CoveringMonotone(items, cells, t, s);
    DivMonotone(Covering(items, cells, s) as real, Covering(items, cells, t) as real, |cells| as real);
  }

  /** The support the matrix gives an itemset is the fraction of
      transactions containing it: `Containing` counts those. */
  function Containing(ts: seq<seq<Value>>, s: Itemset): nat {
    if ts == [] then 0
    else Containing(ts[..|ts| - 1], s) + (if s <= ItemsOf(ts[|ts| - 1]) then 1 else 0)
  }

  lemma {:induction false} EncodedCovering(ts: seq<seq<Value>>, items: seq<Value>, s: Itemset)
    requires s <= ItemSet(items)
    ensures Covering(items, Encode(ts, items), s) == Containing(ts, s)
  {
    if ts != [] {
      var init := ts[..|ts| - 1];
      EncodedCovering(init, items, s);
      assert Encode(ts, items)[..|ts| - 1] == Encode(init, items);
      var row := Encode(ts, items)[|ts| - 1];
      if RowHas(items, row, s) {
        forall x | x in s
          ensures x in ItemsOf(ts[|ts| - 1])
        {
          var j :| 0 <= j < |items| && items[j] == x;
        }
      }
    }
  }

  /** On the matrix of a model's transactions, the support of an itemset of
      bought items is the share of transactions that contain it. */
  lemma MatrixSupport(m: Model, s: Itemset)
    requires GenerateBinaryMatrix(m).Ok? && s <= AllItems(m.transactions)
    ensures var b := GenerateBinaryMatrix(m).value;
            Support(b.items, b.cells, s) == Containing(m.transactions, s) as real / |m.transactions| as real
  {
    var b := GenerateBinaryMatrix(m).value;
    assert s <= ItemSet(b.items);
    EncodedCovering(m.transactions, b.items, s);
  }

  /** `find_frequent_itemsets`: needs the support threshold; the "ID" column
      is ignored; the table and its size are stored. */
  function FindFrequentItemsets(m: Model, b: BinaryMatrix): (r: Result<(Model, SupportTable)>)
    ensures r.Err? <==> m.minSup.None?
    ensures r.Err? ==> r.error == ThresholdUnset
    ensures r.Ok? ==> var (m2, table) := r.value;
                      && table == Mine(b.items, b.cells, m.minSup.value)
                      && m2 == m.(frequent := Some(table), numItemsets := Some(|table|))
  {
    if m.minSup.None? then Err(ThresholdUnset)
    else
      var table := Mine(b.items, b.cells, m.minSup.value);
      Ok((m.(frequent := Some(table), numItemsets := Some(|table|)), table))
  }

  /** The `ID` column plays no part in mining: dropping it changes nothing,
      and no mined itemset holds an item called "ID". */
  lemma MiningIgnoresIds(m: Model, b: BinaryMatrix)
    ensures FindFrequentItemsets(m, b) == FindFrequentItemsets(m, b.(ids := None))
    ensures FindFrequentItemsets(m, b).Ok? ==> forall s :: s in FindFrequentItemsets(m, b).value.1 ==> "ID" !in s
  {
  }

  // ---------------------------------------------------------------------
  // Maximal itemsets
  // ---------------------------------------------------------------------

  predicate HasStrictSuperset(F: SupportTable, s: Itemset) {
    exists o :: o in F && s < o
  }

  /** The itemsets of `F` that no other itemset of `F` strictly contains. */
  function Maximal(F: SupportTable): (r: SupportTable)
    ensures forall s :: s in r <==> s in F && !HasStrictSuperset(F, s)
    ensures forall s :: s in r ==> r[s] == F[s]
  {
    map s | s in F && !HasStrictSuperset(F, s) :: F[s]
  }

  /** `find_maximal_frequent_itemsets`: needs a non-empty frequent table. */
  function FindMaximalFrequentItemsets(m: Model): (r: Result<SupportTable>)
    ensures r.Err? <==> m.frequent.None? || m.frequent.value == map[]
    ensures r.Err? ==> r.error == NoFrequentItemsets
    ensures r.Ok? ==> r.value == Maximal(m.frequent.value)
  {
    if m.frequent.None? || m.frequent.value == map[] then Err(NoFrequentItemsets)
    else Ok(Maximal(m.frequent.value))
  }

  function StrictSupersets(F: SupportTable, s: Itemset): set<Itemset> {
    set o | o in F && s < o
  }

  /** Every itemset of a table lies within one of its maximal itemsets. */
  lemma {:induction false} MaximalCover(F: SupportTable, s: Itemset)
    requires s in F
    ensures exists g :: g in Maximal(F) && s <= g
    decreases |StrictSupersets(F, s)|
  {
    if !HasStrictSuperset(F, s) {
      assert s in Maximal(F);
    } else {
      var g :| g in F && s < g;
      assert StrictSupersets(F, g) < StrictSupersets(F, s) by {
        assert g in StrictSupersets(F, s) && g !in StrictSupersets(F, g);
      }
      StrictSubsetSmaller(StrictSupersets(F, g), StrictSupersets(F, s));
      MaximalCover(F, g);
      var h :| h in Maximal(F) && g <= h;
    }
  }

  lemma StrictSubsetSmaller(a: set<Itemset>, b: set<Itemset>)
    requires a < b
    ensures |a| < |b|
  {
    var e :| e in b && e !in a;
    assert a <= b - {e};
    assert |a| <= |b - {e}| by {
      assert |b - {e}| == |a| + |(b - {e}) - a|;
    }
  }

  /** A non-empty table has a maximal itemset. */
  lemma MaximalNonEmpty(F: SupportTable)
    requires F != map[]
    ensures Maximal(F) != map[]
  {
    var s :| s in F;
    MaximalCover(F, s);
  }

  /** The maximal itemsets describe a mined table completely: the frequent
      itemsets are exactly the non-empty subsets of the maximal ones. */
  lemma MaximalGenerates(items: seq<Value>, cells: seq<seq<bool>>, minSup: Fraction, s: Itemset)
    requires Rectangular(items, cells)
    ensures var F := Mine(items, cells, minSup);
            s in F <==> s != {} && exists g :: g in Maximal(F) && s <= g
  {
    var F := Mine(items, cells, minSup);
    if s in F {
      MaximalCover(F, s);
    }
    if s != {} && exists g :: g in Maximal(F) && s <= g {
      var g :| g in Maximal(F) && s <= g;
      DownwardClosed(items, cells, minSup, g, s);
    }
  }

  // ---------------------------------------------------------------------
  // Association rules
  // ---------------------------------------------------------------------

  /** How often the consequent comes with the antecedent: the support of the
      whole itemset over the support of the antecedent. */
  function Confidence(support: Fraction, antecedentSupport: Fraction): real {
    support as real / antecedentSupport as real
  }

  /** The support of some non-empty proper subset of a table itemset, or of
      its complement, is not in the table. */
  predicate MissingSubset(F: SupportTable) {
    exists x, a :: x in F && a <= x && a != x && a != {} && (a !in F || x - a !in F)
  }

  /** The rules of `F` whose confidence reaches `minConf`: each splits a
      table itemset `x` into a non-empty antecedent `a` and the non-empty
      rest, with confidence support(x) / support(a). A missing subset
      support fails. */
  function AssociationRules(F: SupportTable, minConf: real): (r: Result<set<Rule>>)
    ensures r.Err? <==> MissingSubset(F)
    ensures r.Err? ==> r.error == MissingSubsetSupport
    ensures r.Ok? ==> forall rule :: rule in r.value ==>
              && rule.antecedents != {} && rule.consequents != {}
              && rule.antecedents !! rule.consequents
              && rule.antecedents + rule.consequents in F
              && rule.antecedents in F && rule.consequents in F
              && rule.antecedentSupport == F[rule.antecedents]
              && rule.consequentSupport == F[rule.consequents]
              && rule.support == F[rule.antecedents + rule.consequents]
              && rule.confidence == Confidence(rule.support, rule.antecedentSupport)
              && rule.confidence >= minConf
    ensures r.Ok? ==> forall x, a :: x in F && a < x && a != {} && Confidence(F[x], F[a]) >= minConf ==>
              Rule(a, x - a, F[a], F[x - a], F[x], Confidence(F[x], F[a])) in r.value
  {
    if MissingSubset(F) then Err(MissingSubsetSupport)
    else
      var rules := set x, a | x in F && a < x && a != {} && a in F && x - a in F && Confidence(F[x], F[a]) >= minConf
                     :: Rule(a, x - a, F[a], F[x - a], F[x], Confidence(F[x], F[a]));
      assert forall x: Itemset, a: Itemset :: a <= x ==> a + (x - a) == x;
      Ok(rules)
  }

  /** Whether the library ever compares a confidence with the threshold:
      only an itemset of two or more items yields candidate rules. */
  predicate HasPairs(F: SupportTable) {
    exists x :: x in F && |x| >= 2
  }

  /** `generate_rules`: needs a non-empty table, then reads `num_itemsets`,
      which only a mining step assigns. An unset confidence threshold fails
      only once the library compares a rule with it, so a table of single
      items yields no rules; the rules are stored. */
  function GenerateRules(m: Model, F: SupportTable): (r: Result<(Model, set<Rule>)>)
    ensures F == map[] ==> r == Err(EmptyItemsets)
    ensures F != map[] && m.numItemsets.None? ==> r == Err(UnsetAttribute)
    ensures F != map[] && m.numItemsets.Some? && m.minConf.None? ==>
              (r.Err? <==> HasPairs(F)) && (r.Err? ==> r.error == ThresholdUnset)
    ensures F != map[] && m.numItemsets.Some? && m.minConf.Some? ==> (r.Err? <==> MissingSubset(F))
    ensures r.Ok? && m.minConf.None? ==> r.value.1 == {} && forall x :: x in F ==> |x| <= 1
    ensures r.Ok? && m.minConf.Some? ==> AssociationRules(F, m.minConf.value) == Ok(r.value.1)
    ensures r.Ok? ==> r.value.0 == m.(rules := Some(r.value.1))
  {
    if F == map[] then Err(EmptyItemsets)
    else if m.numItemsets.None? then Err(UnsetAttribute)
    else if m.minConf.None? then
      if HasPairs(F) then Err(ThresholdUnset) else Ok((m.(rules := Some({})), {}))
    else match AssociationRules(F, m.minConf.value)
      case Err(e) => Err(e)
      case Ok(rules) => Ok((m.(rules := Some(rules)), rules))
  }

  /** An engine that never mined cannot generate rules, whatever table it is
      handed: `num_itemsets` is read before it is ever assigned. */
  lemma UnminedRulesFail()
    ensures var m := SetParams(NewModel(), Some(0.5), Some(0.5));
            && m.Ok?
            && GenerateRules(m.value, map[{"a"} := 0.5]) == Err(UnsetAttribute)
  {
    var F: SupportTable := map[{"a"} := 0.5];
    assert {"a"} in F;
  }

  /** Without a confidence threshold, a mined table of single items gives
      no rules rather than an error. */
  lemma SinglesNeedNoThreshold(m: Model, F: SupportTable)
    requires m.numItemsets.Some? && m.minConf.None? && F != map[]
    requires forall x :: x in F ==> |x| == 1
    ensures GenerateRules(m, F) == Ok((m.(rules := Some({})), {}))
  {
  }

  /** A mined table holds the support of every subset its rules need. */
  lemma MinedTableComplete(items: seq<Value>, cells: seq<seq<bool>>, minSup: Fraction)
    requires Rectangular(items, cells)
    ensures !MissingSubset(Mine(items, cells, minSup))
  {
    var F := Mine(items, cells, minSup);
    forall x, a | x in F && a < x && a != {}
      ensures a in F && x - a in F
    {
      DownwardClosed(items, cells, minSup, x, a);
      ProperRest(x, a);
      DownwardClosed(items, cells, minSup, x, x - a);
    }
  }

  lemma ProperRest(x: Itemset, a: Itemset)
    requires a < x
    ensures x - a != {}
  {
    var e :| e in x && e !in a;
    assert e in x - a;
  }

  /** Over a mined table every rule's confidence is at most one. */
  lemma MinedConfidence(items: seq<Value>, cells: seq<seq<bool>>, minSup: Fraction, minConf: real, rule: Rule)
    requires Rectangular(items, cells)
    requires AssociationRules(Mine(items, cells, minSup), minConf).Ok?
    requires rule in AssociationRules(Mine(items, cells, minSup), minConf).value
    ensures rule.confidence <= 1.0
  {
    var F := Mine(items, cells, minSup);
    DownwardClosed(items, cells, minSup, rule.antecedents + rule.consequents, rule.antecedents);
    DivRange(rule.support as real, rule.antecedentSupport as real);
  }
}
