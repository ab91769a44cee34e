/** The Apriori screen's controller: it parses the threshold fields, runs the
    engine's steps in order and keeps their results. Each step answers with
    an outcome in place of the dialog the screen shows; the widgets
    themselves are not modelled. */
module AprioriController {
  import opened Results
  import opened Text
  import opened Tables
  import opened Apriori

  // ---------------------------------------------------------------------
  // Threshold fields
  // ---------------------------------------------------------------------

  /** `s.replace('.', '', 1).isdigit()`: digits with at most one '.', and at
      least one digit. */
  predicate LooksNumeric(s: string) {
    var stripped := RemoveFirst(s, '.');
    stripped != [] && AllDigits(stripped)
  }

  function Pow10(n: nat): (r: nat)
    ensures r >= 1
  {
    if n == 0 then 1 else 10 * Pow10(n - 1)
  }

  /** The value `float(s)` gives a string of digits with at most one '.'. */
  function DecimalValue(s: string): (r: real)
    requires LooksNumeric(s)
    ensures r >= 0.0
  {
    if '.' in s then
      var k := FirstIndex(s, '.');
      var fraction := s[k + 1..];
      AllDigitsConcat(s[..k], fraction);
      DigitsValue(s[..k]) as real + DigitsValue(fraction) as real / Pow10(|fraction|) as real
    else
      DigitsValue(s) as real
  }

  /** The threshold check the screen applies to both fields: a non-empty
      numeral, as above, whose value lies in (0, 1]. */
  function ParseThreshold(s: string): (r: Result<Fraction>)
    ensures r.Ok? <==> LooksNumeric(s) && InUnitInterval(DecimalValue(s))
    ensures r.Ok? ==> r.value as real == DecimalValue(s)
    ensures r.Err? ==> r.error == InvalidThreshold
  {
    if !LooksNumeric(s) then Err(InvalidThreshold)
    else
      var v := DecimalValue(s);
      if v <= 0.0 || v > 1.0 then Err(InvalidThreshold) else Ok(v)
  }

  /** A numeral with a point, built from its whole and fractional digits,
      parses to their value when that lies in (0, 1]. */
  lemma ParseDecimal(whole: string, fraction: string)
    requires AllDigits(whole) && AllDigits(fraction) && whole + fraction != []
    ensures var v := DigitsValue(whole) as real + DigitsValue(fraction) as real / Pow10(|fraction|) as real;
            ParseThreshold(whole + "." + fraction) == if InUnitInterval(v) then Ok(v) else Err(InvalidThreshold)
  {
    var s := whole + "." + fraction;
    PointSplit(whole, fraction);
    assert DecimalValue(s) == DigitsValue(whole) as real + DigitsValue(fraction) as real / Pow10(|fraction|) as real;
  }

  /** Where the point of such a numeral sits, and what lies on each side. */
  lemma PointSplit(whole: string, fraction: string)
    requires AllDigits(whole) && AllDigits(fraction) && whole + fraction != []
    ensures var s := whole + "." + fraction;
            && LooksNumeric(s) && '.' in s && FirstIndex(s, '.') == |whole|
            && s[..|whole|] == whole && s[|whole| + 1..] == fraction
  {
    var s := whole + "." + fraction;
    assert s[|whole|] == '.';
    assert '.' !in whole by {
      forall i | 0 <= i < |whole| ensures whole[i] != '.' {
        assert IsDigit(whole[i]);
      }
    }
    assert s[..|whole|] == whole;
    RemoveFirstAt(s, '.', |whole|);
    FirstIndexIs(s, '.', |whole|);
    assert s[|whole| + 1..] == fraction;
    AllDigitsConcat(whole, fraction);
  }

  /** A second '.' makes the field invalid. */
  lemma TwoPointsRejected(s: string, i: nat, j: nat)
    requires i < j < |s| && s[i] == '.' && s[j] == '.'
    ensures ParseThreshold(s).Err?
  {
    var k := FirstIndex(s, '.');
    assert k <= i;
    var stripped := RemoveFirst(s, '.');
    assert stripped[j - 1] == '.';
  }

  /** Any character other than a digit or a '.' makes the field invalid, so
      signs, exponents and blanks are refused. */
  lemma ForeignCharacterRejected(s: string, i: nat)
    requires i < |s| && s[i] != '.' && !IsDigit(s[i])
    ensures ParseThreshold(s).Err?
  {
    var stripped := RemoveFirst(s, '.');
    if '.' in s {
      var k := FirstIndex(s, '.');
      if i < k {
        assert stripped[i] == s[i];
      } else {
        assert stripped[i - 1] == s[i];
      }
    } else {
      assert stripped[i] == s[i];
    }
  }

  /** A leading or trailing point is accepted, as `float` reads it. */
  lemma HalfWithoutWholePart()
    ensures ParseThreshold(".5") == Ok(0.5)
  {
    ParseDecimal("", "5");
    assert "" + "." + "5" == ".5";
  }

  lemma OneWithTrailingPoint()
    ensures ParseThreshold("1.") == Ok(1.0)
  {
    ParseDecimal("1", "");
    assert "1" + "." + "" == "1.";
  }

  /** A bare point and an empty field are not numbers. */
  lemma RejectedNonNumbers()
    ensures ParseThreshold(".").Err? && ParseThreshold("").Err?
  {
    assert RemoveFirst(".", '.') == "";
  }

  /** Values outside (0, 1] are refused. */
  lemma RejectedOutOfRange()
    ensures ParseThreshold("0").Err? && ParseThreshold("1.5").Err?
  {
    ParseDecimal("1", "5");
    assert "1" + "." + "5" == "1.5";
  }

  // ---------------------------------------------------------------------
  // The controller
  // ---------------------------------------------------------------------

  datatype Controller = Controller(
    model: Model,
    data: Option<Table>,
    binaryMatrix: Option<BinaryMatrix>,
    frequent: Option<SupportTable>,
    maximal: Option<SupportTable>,
    rules: Option<set<Rule>>)

  /** What a step reports: success, a warning that an earlier step is
      missing, a rejected threshold field, an empty result, or an error. */
  datatype Outcome = Done | NotReady | InvalidInput | NothingFound | Failed(error: Error)

  datatype Step = Step(state: Controller, outcome: Outcome)

  function NewController(): Controller {
    Controller(NewModel(), None, None, None, None, None)
  }

  /** `load_file` once the spreadsheet is read: the data is kept even when
      preparing the transactions or the matrix then fails. */
  function LoadData(c: Controller, data: Table): (r: Step)
    ensures r.state.data == Some(data)
    ensures r.outcome == Done <==> PrepareTransactions(c.model, data).Ok? &&
                                   GenerateBinaryMatrix(PrepareTransactions(c.model, data).value).Ok?
    ensures r.outcome == Done ==> && r.state.model.transactions == GroupItems(data)
                                  && r.state.binaryMatrix.Some?
                                  && GenerateBinaryMatrix(r.state.model) == Ok(r.state.binaryMatrix.value)
    ensures r.outcome != Done ==> r.state.binaryMatrix == c.binaryMatrix && r.outcome.Failed?
    ensures r.state.frequent == c.frequent && r.state.maximal == c.maximal && r.state.rules == c.rules
  {
    var c1 := c.(data := Some(data));
    match PrepareTransactions(c.model, data)
    case Err(e) => Step(c1, Failed(e))
    case Ok(m1) =>
      match GenerateBinaryMatrix(m1)
      case Err(e) => Step(c1.(model := m1), Failed(e))
      case Ok(b) => Step(c1.(model := m1, binaryMatrix := Some(b)), Done)
  }

  /** `find_frequent_itemsets`: needs loaded data and a valid support field;
      keeps the confidence threshold; stores a non-empty result and keeps
      the previous table otherwise. */
  function FindFrequentItemsets(c: Controller, minSupText: string): (r: Step)
    ensures c.data.None? || c.binaryMatrix.None? ==> r == Step(c, NotReady)
    ensures c.data.Some? && c.binaryMatrix.Some? && ParseThreshold(minSupText).Err? ==> r == Step(c, InvalidInput)
    ensures r.outcome == Done || r.outcome == NothingFound <==>
              c.data.Some? && c.binaryMatrix.Some? && ParseThreshold(minSupText).Ok?
    ensures r.outcome == Done || r.outcome == NothingFound ==>
              && r.state.model.minSup == Some(ParseThreshold(minSupText).value)
              && r.state.model.minConf == c.model.minConf
              && var table := Mine(c.binaryMatrix.value.items, c.binaryMatrix.value.cells, ParseThreshold(minSupText).value);
                 && r.state.model.frequent == Some(table)
                 && (r.outcome == Done <==> table != map[])
    ensures r.outcome == Done ==> r.state.frequent == r.state.model.frequent
    ensures r.outcome != Done ==> r.state.frequent == c.frequent
    ensures r.state.data == c.data && r.state.binaryMatrix == c.binaryMatrix
    ensures r.state.maximal == c.maximal && r.state.rules == c.rules
  {
    if c.data.None? || c.binaryMatrix.None? then Step(c, NotReady)
    else match ParseThreshold(minSupText)
      case Err(_) => Step(c, InvalidInput)
      case Ok(v) =>
        match SetParams(c.model, Some(v as real), OptionReal(c.model.minConf))
        case Err(e) => Step(c, Failed(e))
        case Ok(m1) =>
          var b := c.binaryMatrix.value.(ids := None);
          match Apriori.FindFrequentItemsets(m1, b)
          case Err(e) => Step(c.(model := m1), Failed(e))
          case Ok((m2, table)) =>
            if table == map[] then Step(c.(model := m2), NothingFound)
            else Step(c.(model := m2, frequent := Some(table)), Done)
  }

  /** Whether the controller holds a non-empty frequent table. */
  predicate HasFrequent(c: Controller) {
    c.frequent.Some? && c.frequent.value != map[]
  }

  /** `find_maximal_itemsets`: needs a frequent table; filters the engine's
      own table, and then looks the supports up in the controller's. */
  function FindMaximalItemsets(c: Controller): (r: Step)
    ensures !HasFrequent(c) ==> r == Step(c, NotReady)
    ensures HasFrequent(c) && FindMaximalFrequentItemsets(c.model).Err? ==>
              r == Step(c, Failed(FindMaximalFrequentItemsets(c.model).error))
    ensures r.outcome == Done ==> r.state.maximal == Some(Maximal(c.model.frequent.value))
    ensures r.outcome == Done ==> forall s :: s in r.state.maximal.value ==> s in c.frequent.value
    ensures r.state == c || r.state == c.(maximal := r.state.maximal)
  {
    if !HasFrequent(c) then Step(c, NotReady)
    else match FindMaximalFrequentItemsets(c.model)
      case Err(e) => Step(c, Failed(e))
      case Ok(table) =>
        var c1 := c.(maximal := Some(table));
        if table == map[] then Step(c1, NothingFound)
        else if exists s :: s in table && s !in c.frequent.value then Step(c1, Failed(MissingKey))
        else Step(c1, Done)
  }

  /** `generate_rules`: needs a frequent table and a valid confidence field;
      keeps the support threshold; the rules stay with the engine, the
      controller's own `rules` field is not assigned. */
  function GenerateRules(c: Controller, minConfText: string): (r: Step)
    ensures !HasFrequent(c) ==> r == Step(c, NotReady)
    ensures HasFrequent(c) && ParseThreshold(minConfText).Err? ==> r == Step(c, InvalidInput)
    ensures r.state.model.minSup == c.model.minSup
    ensures r.outcome == Done ==> && r.state.model.minConf == Some(ParseThreshold(minConfText).value)
                                  && var rules := AssociationRules(c.frequent.value, ParseThreshold(minConfText).value);
                                     rules.Ok? && r.state.model.rules == Some(rules.value)
    ensures r.state == c.(model := r.state.model)
    ensures r.state.rules == c.rules
  {
    if !HasFrequent(c) then Step(c, NotReady)
    else match ParseThreshold(minConfText)
      case Err(_) => Step(c, InvalidInput)
      case Ok(v) =>
        match SetParams(c.model, OptionReal(c.model.minSup), Some(v as real))
        case Err(e) => Step(c, Failed(e))
        case Ok(m1) =>
          match Apriori.GenerateRules(m1, c.frequent.value)
          case Err(e) => Step(c.(model := m1), Failed(e))
          case Ok((m2, _)) => Step(c.(model := m2), Done)
  }

  /** `reset`: forgets the data and every result; the engine keeps its
      thresholds and tables. */
  function Reset(c: Controller): (r: Controller)
    ensures r.data.None? && r.binaryMatrix.None? && r.frequent.None? && r.maximal.None? && r.rules.None?
    ensures r.model == c.model
  {
    c.(data := None, binaryMatrix := None, frequent := None, maximal := None, rules := None)
  }

  // ---------------------------------------------------------------------
  // Step sequences
  // ---------------------------------------------------------------------

  /** After a reset every step asks for the one before it. */
  lemma ResetRefusesSteps(c: Controller, supText: string, confText: string)
    ensures FindFrequentItemsets(Reset(c), supText) == Step(Reset(c), NotReady)
    ensures FindMaximalItemsets(Reset(c)) == Step(Reset(c), NotReady)
    ensures GenerateRules(Reset(c), confText) == Step(Reset(c), NotReady)
  {
  }

  /** A successful mining step leaves the controller and the engine holding
      the same non-empty table. */
  lemma MiningSynchronises(c: Controller, supText: string)
    requires FindFrequentItemsets(c, supText).outcome == Done
    ensures var next := FindFrequentItemsets(c, supText).state;
            HasFrequent(next) && next.model.frequent == next.frequent
  {
  }

  /** A successful mining step is followed by a successful maximal step,
      whose itemsets cover the whole table. */
  lemma MiningThenMaximal(c: Controller, supText: string)
    requires FindFrequentItemsets(c, supText).outcome == Done
    ensures var next := FindFrequentItemsets(c, supText).state;
            && FindMaximalItemsets(next).outcome == Done
            && forall s :: s in next.frequent.value ==>
                 exists g :: g in FindMaximalItemsets(next).state.maximal.value && s <= g
  {
    var next := FindFrequentItemsets(c, supText).state;
    MiningSynchronises(c, supText);
    var F := next.frequent.value;
    MaximalThenCovers(next);
    forall s | s in F
      ensures exists g :: g in Maximal(F) && s <= g
    {
      MaximalCover(F, s);
    }
  }

  /** When the controller and the engine agree on a non-empty table, the
      maximal step succeeds. */
  lemma MaximalThenCovers(c: Controller)
    requires HasFrequent(c) && c.model.frequent == c.frequent
    ensures FindMaximalItemsets(c) == Step(c.(maximal := Some(Maximal(c.frequent.value))), Done)
  {
    MaximalNonEmpty(c.frequent.value);
  }

  /** After a mining step that finds nothing, the controller still shows its
      earlier table, but the maximal step fails: it filters the engine's
      table, which is now empty. */
  lemma EmptyMiningStrandsMaximal(c: Controller, supText: string)
    requires HasFrequent(c)
    requires FindFrequentItemsets(c, supText).outcome == NothingFound
    ensures var next := FindFrequentItemsets(c, supText).state;
            && next.frequent == c.frequent
            && FindMaximalItemsets(next).outcome == Failed(NoFrequentItemsets)
  {
  }

  /** Rules generated right after a mining step never lack a subset support,
      and each meets the confidence threshold with a confidence of at most
      one. */
  lemma MiningThenRules(c: Controller, supText: string, confText: string)
    requires FindFrequentItemsets(c, supText).outcome == Done
    requires ParseThreshold(confText).Ok?
    ensures var next := FindFrequentItemsets(c, supText).state;
            var after := GenerateRules(next, confText);
            && after.outcome == Done
            && forall rule :: rule in after.state.model.rules.value ==>
                 ParseThreshold(confText).value as real <= rule.confidence <= 1.0
  {
    var next := FindFrequentItemsets(c, supText).state;
    var b := c.binaryMatrix.value;
    var minSup := ParseThreshold(supText).value;
    var minConf := ParseThreshold(confText).value;
    MinedTableComplete(b.items, b.cells, minSup);
    var after := GenerateRules(next, confText);
    forall rule | rule in after.state.model.rules.value
      ensures rule.confidence <= 1.0
    {
      MinedConfidence(b.items, b.cells, minSup, minConf as real, rule);
    }
  }
}
