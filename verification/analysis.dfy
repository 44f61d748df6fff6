/** The analysis run: the choice of cost measure, the payroll threshold, the
    firm-year uniqueness check, the four model specifications (which columns
    must be positive, which log ratios and masked growth variables feed each
    regression) and the final reordering of the results table. */
module Analysis {
  import opened Common
  import opened Seqs
  import opened Series
  import opened Panel
  import opened Selection
  import opened Reporting

  // ---------------------------------------------------------------------
  // The cost measure

  /** The response's cost column and its lag. */
  datatype Cost = Cost(level: Column, prev: Column)

  /** A cost measure other than the two the analysis knows. */
  datatype ConfigError = UnknownCost(given: string)

  /** `costs_for_response`: only `Driftskostnader` and `Varekostnader` are
      accepted; anything else stops the run before any data is read. */
  function CostColumns(cost: string): (r: Result<Cost, ConfigError>)
    ensures r.Ok? <==> cost == "Driftskostnader" || cost == "Varekostnader"
    ensures r.Ok? ==> Name(r.value.level) == cost && Name(r.value.prev) == cost + "_prev"
    ensures r.Err? ==> r.error == UnknownCost(cost)
  {
    if cost == Name(Driftskostnader) then
      assert Name(DriftskostnaderPrev) == cost + "_prev";
      Ok(Cost(Driftskostnader, DriftskostnaderPrev))
    else if cost == Name(Varekostnader) then
      assert Name(VarekostnaderPrev) == cost + "_prev";
      Ok(Cost(Varekostnader, VarekostnaderPrev))
    else
      Err(UnknownCost(cost))
  }

  /** Naming a cost column selects that column and its own lag. */
  lemma CostColumnsRoundTrip(c: Column)
    requires c == Driftskostnader || c == Varekostnader
    ensures CostColumns(Name(c)).Ok? && CostColumns(Name(c)).value.level == c
    ensures CostColumns(Name(c)).value.prev == if c == Driftskostnader then DriftskostnaderPrev else VarekostnaderPrev
  {
    assert Name(Driftskostnader) != Name(Varekostnader) by {
      assert Name(Driftskostnader)[0] != Name(Varekostnader)[0];
    }
  }

  // ---------------------------------------------------------------------
  // The payroll threshold

  /** Firms with a nominal payroll of at most this many kroner are left out. */
  const PAYROLL_THRESHOLD: real := 5000000.0

  /** The nominal payroll is known and above the threshold (a missing value
      compares false, so its row is dropped). */
  predicate LargePayroll(r: Row)
  {
    Get(r, LonnskostnaderNominal).Some? && Get(r, LonnskostnaderNominal).value > PAYROLL_THRESHOLD
  }

  /** The rows of firms above the payroll threshold, in their order. */
  function PayrollFilter(rows: seq<Row>): (kept: seq<Row>)
    ensures forall r :: r in kept <==> r in rows && LargePayroll(r)
    ensures IsSubsequence(kept, rows)
    ensures |kept| == CountWhere(rows, LargePayroll)
  {
    FilterIsSubsequence(rows, LargePayroll);
    FilterCount(rows, LargePayroll);
    Filter(rows, LargePayroll)
  }

  /** Filtering twice by the threshold is filtering once. */
  lemma PayrollFilterIdempotent(rows: seq<Row>)
    ensures PayrollFilter(PayrollFilter(rows)) == PayrollFilter(rows)
  {
    var kept := PayrollFilter(rows);
    assert forall i :: 0 <= i < |kept| ==> kept[i] in kept;
    FilterKeepsAll(kept, LargePayroll);
  }

  // ---------------------------------------------------------------------
  // The firm-year uniqueness check

  /** The rows with the same firm and year as `r`. */
  function SameFirmYear(r: Row): Row -> bool
  {
    (s: Row) => s.orgnr == r.orgnr && s.regnaar == r.regnaar
  }

  /** The size of `r`'s `(orgnr, regnaar)` group. */
  function GroupSize(rows: seq<Row>, r: Row): nat
  {
    CountWhere(rows, SameFirmYear(r))
  }

  /** The distinct group sizes (`groupby([...]).size().unique()`). */
  function GroupSizes(rows: seq<Row>): set<nat>
  {
    set i | 0 <= i < |rows| :: GroupSize(rows, rows[i])
  }

  /** No firm has two rows for one year. */
  predicate UniqueFirmYears(rows: seq<Row>)
  {
    forall i, j :: 0 <= i < j < |rows| ==> rows[i].orgnr != rows[j].orgnr || rows[i].regnaar != rows[j].regnaar
  }

  datatype PanelError = FirmYearsNotUnique

  /** The check before the models run: it raises unless there is exactly one
      group size, so an empty panel raises and a panel in which every firm-year
      occurs equally often passes, whether that is once or more. */
  function CheckFirmYears(rows: seq<Row>): (r: Result<seq<Row>, PanelError>)
    ensures r.Ok? <==> |GroupSizes(rows)| == 1
    ensures r.Ok? ==> r.value == rows
    ensures rows == [] ==> r.Err?
  {
    OneGroupSize(rows);
    if rows != [] && forall i :: 0 <= i < |rows| ==> GroupSize(rows, rows[i]) == GroupSize(rows, rows[0]) then
      Ok(rows)
    else
      Err(FirmYearsNotUnique)
  }

  /** There is one group size exactly when there are rows and all their groups
      are as large as the first row's. */
  lemma OneGroupSize(rows: seq<Row>)
    ensures |GroupSizes(rows)| == 1 <==>
      rows != [] && forall i :: 0 <= i < |rows| ==> GroupSize(rows, rows[i]) == GroupSize(rows, rows[0])
  {
    if rows != [] {
      if forall i :: 0 <= i < |rows| ==> GroupSize(rows, rows[i]) == GroupSize(rows, rows[0]) {
        assert GroupSizes(rows) == {GroupSize(rows, rows[0])};
      } else {
        var i :| 0 <= i < |rows| && GroupSize(rows, rows[i]) != GroupSize(rows, rows[0]);
        var two := {GroupSize(rows, rows[0]), GroupSize(rows, rows[i])};
        assert two <= GroupSizes(rows);
        assert GroupSizes(rows) == two + (GroupSizes(rows) - two);
      }
    }
  }

  /** Exactly one element satisfying `p` means a count of one. */
  lemma {:induction false} CountWhereSingle<T(!new)>(s: seq<T>, p: T -> bool, k: nat)
    requires k < |s| && p(s[k])
    requires forall i :: 0 <= i < |s| && i != k ==> !p(s[i])
    ensures CountWhere(s, p) == 1
  {
    if k == 0 {
      var rest := s[1..];
      assert forall i :: 0 <= i < |rest| ==> !p(rest[i]) by {
        forall i | 0 <= i < |rest| ensures !p(rest[i])
        {
          assert rest[i] == s[i + 1];
        }
      }
      CountWhereNone(rest, p);
    } else {
      assert !p(s[0]);
      var rest := s[1..];
      forall i | 0 <= i < |rest| && i != k - 1 ensures !p(rest[i])
      {
        assert rest[i] == s[i + 1];
      }
      CountWhereSingle(rest, p, k - 1);
    }
  }

  /** No element satisfying `p` means a count of zero. */
  lemma {:induction false} CountWhereNone<T(!new)>(s: seq<T>, p: T -> bool)
    requires forall i :: 0 <= i < |s| ==> !p(s[i])
    ensures CountWhere(s, p) == 0
  {
    if s != [] {
      assert forall i :: 0 <= i < |s[1..]| ==> s[1..][i] == s[i + 1];
      CountWhereNone(s[1..], p);
    }
  }

  /** Counts add up over concatenation. */
  lemma CountWhereAppend<T(!new)>(a: seq<T>, b: seq<T>, p: T -> bool)
    ensures CountWhere(a + b, p) == CountWhere(a, p) + CountWhere(b, p)
  {
    FilterAppend(a, b, p);
    FilterCount(a + b, p);
    FilterCount(a, p);
    FilterCount(b, p);
  }

  /** With unique firm-years every group has one row. */
  lemma UniqueGroupsOfOne(rows: seq<Row>, k: nat)
    requires UniqueFirmYears(rows) && k < |rows|
    ensures GroupSize(rows, rows[k]) == 1
  {
    CountWhereSingle(rows, SameFirmYear(rows[k]), k);
  }

  /** A panel of unique firm-years passes the check. */
  lemma UniqueFirmYearsPass(rows: seq<Row>)
    requires rows != [] && UniqueFirmYears(rows)
    ensures CheckFirmYears(rows) == Ok(rows)
    ensures GroupSizes(rows) == {1}
  {
    forall i | 0 <= i < |rows| ensures GroupSize(rows, rows[i]) == 1
    {
      UniqueGroupsOfOne(rows, i);
    }
  }

  /** A panel in which every firm-year occurs twice passes the check as well:
      the check compares group sizes with each other, not with one. */
  lemma DoubledPanelPasses(rows: seq<Row>)
    requires rows != [] && UniqueFirmYears(rows)
    ensures !UniqueFirmYears(rows + rows)
    ensures CheckFirmYears(rows + rows) == Ok(rows + rows)
    ensures GroupSizes(rows + rows) == {2}
  {
    var d := rows + rows;
    assert d[0] == d[|rows|];
    forall i | 0 <= i < |d| ensures GroupSize(d, d[i]) == 2
    {
      var k := if i < |rows| then i else i - |rows|;
      assert d[i] == rows[k];
      CountWhereAppend(rows, rows, SameFirmYear(rows[k]));
      UniqueGroupsOfOne(rows, k);
    }
  }

  /** One firm-year listed twice among other, unique, firm-years fails the check. */
  lemma OneDuplicateFails(rows: seq<Row>, r: Row)
    requires |rows| >= 2 && UniqueFirmYears(rows) && r in rows
    ensures CheckFirmYears(rows + [r]).Err?
  {
    var d := rows + [r];
    var k :| 0 <= k < |rows| && rows[k] == r;
    CountWhereAppend(rows, [r], SameFirmYear(r));
    UniqueGroupsOfOne(rows, k);
    assert GroupSize(d, d[|rows|]) == 2;
    var o := if k == 0 then 1 else 0;
    CountWhereAppend(rows, [r], SameFirmYear(rows[o]));
    UniqueGroupsOfOne(rows, o);
    assert GroupSize(d, d[o]) == 1;
    assert {1, 2} <= GroupSizes(d);
  }

  // ---------------------------------------------------------------------
  // The four models

  /** One model: how many earlier years it needs, the columns that must be
      present and positive (`var_log`), the ratios whose logarithms it takes
      (numerator, denominator), and the regression's variables, response first. */
  datatype Model = Model(name: string, numPrev: nat, varLog: seq<Column>,
                         ratios: seq<(Column, Column)>, vars: seq<string>)

  const MODELS: nat := 4

  /** Model `k` (1 to 4) for the cost measure `cost`. Model 2 also uses GDP
      growth `bnp / bnp_prev - 1`, which is not a logarithm. */
  function ModelSpec(k: nat, cost: Cost): (m: Model)
    requires 1 <= k <= MODELS
    ensures m.numPrev == if k <= 2 then 1 else 2
    ensures m.numPrev == 2 ==> SalgPrevPrev in m.varLog
    ensures |m.varLog| >= 4 && m.varLog[..4] == [cost.level, cost.prev, Salg, SalgPrev]
    ensures forall j :: 0 <= j < |m.ratios| ==> m.ratios[j].0 in m.varLog && m.ratios[j].1 in m.varLog
    ensures |m.ratios| >= 2 && m.ratios[0] == (cost.level, cost.prev) && m.ratios[1] == (Salg, SalgPrev)
    ensures |m.vars| >= 3 && m.vars[0] == "lnCost_" + Name(cost.level)
  {
    var c, cp := cost.level, cost.prev;
    var response := "lnCost_" + Name(c);
    if k == 1 then
      Model("1", 1, [c, cp, Salg, SalgPrev], [(c, cp), (Salg, SalgPrev)],
            [response, "lnSalg", "DlnSalg"])
    else if k == 2 then
      Model("2", 1, [c, cp, Salg, SalgPrev, Eiendeler, Lonnskostnader],
            [(c, cp), (Salg, SalgPrev), (Eiendeler, Salg), (Lonnskostnader, Eiendeler)],
            [response, "lnSalg", "DlnSalg", "lnSalgEINT", "lnSalgAINT", "lnSalgBNP",
             "DlnSalgEINT", "DlnSalgAINT", "DlnSalgBNP"])
    else if k == 3 then
      Model("3", 2, [c, cp, Salg, SalgPrev, SalgPrevPrev],
            [(c, cp), (Salg, SalgPrev), (SalgPrev, SalgPrevPrev)],
            [response, "lnSalg", "DlnSalg", "lnSalgPrev", "DlnSalgPrev"])
    else
      Model("4", 2, [c, cp, Salg, SalgPrev, SalgPrevPrev],
            [(c, cp), (Salg, SalgPrev), (SalgPrev, SalgPrevPrev)],
            [response, "I_prev_lnSalg", "I_prev_DlnSalg", "D_prev_lnSalg", "D_prev_DlnSalg"])
  }

  /** Every column a model takes a logarithm of is one its selection requires positive. */
  lemma RatiosInVarLog(k: nat, cost: Cost, j: nat)
    requires 1 <= k <= MODELS && j < |ModelSpec(k, cost).ratios|
    ensures ModelSpec(k, cost).ratios[j].0 in ModelSpec(k, cost).varLog
    ensures ModelSpec(k, cost).ratios[j].1 in ModelSpec(k, cost).varLog
  {
  }

  /** The statements a model is estimated on. */
  function ModelSample(rows: seq<Row>, k: nat, cost: Cost): (out: Step)
    requires 1 <= k <= MODELS
    ensures IsSubsequence(out.rows, rows)
    ensures forall r, c :: r in out.rows && c in ModelSpec(k, cost).varLog ==> PositiveIn(r, c)
    ensures Count(out.ledger, Initial) == |rows| && Count(out.ledger, Final) == |out.rows|
  {
    var m := ModelSpec(k, cost);
    var out := SampleSelection(rows, m.numPrev, m.varLog, Name(cost.level));
    forall r, c | r in out.rows && c in m.varLog ensures PositiveIn(r, c)
    {
      SelectedPositive(rows, m.numPrev, m.varLog, Name(cost.level), r, c);
    }
    out
  }

  /** After selection every ratio a model takes the logarithm of is a ratio of
      two present, positive values, so it is itself positive. */
  lemma LogArgumentsPositive(rows: seq<Row>, k: nat, cost: Cost, r: Row, j: nat)
    requires 1 <= k <= MODELS && r in ModelSample(rows, k, cost).rows
    requires j < |ModelSpec(k, cost).ratios|
    ensures var (num, den) := ModelSpec(k, cost).ratios[j];
      PositiveIn(r, num) && PositiveIn(r, den) && Get(r, num).value / Get(r, den).value > 0.0
  {
    var m := ModelSpec(k, cost);
    RatiosInVarLog(k, cost, j);
    SelectedPositive(rows, m.numPrev, m.varLog, Name(cost.level), r, m.ratios[j].0);
    SelectedPositive(rows, m.numPrev, m.varLog, Name(cost.level), r, m.ratios[j].1);
    QuotientPositive(Get(r, m.ratios[j].0).value, Get(r, m.ratios[j].1).value);
  }

  lemma QuotientPositive(a: real, b: real)
    requires a > 0.0 && b > 0.0
    ensures a / b > 0.0
  {
    assert (a / b) * b == a;
  }

  /** A surviving statement is positive in every column the selection checked. */
  lemma SelectedPositive(rows: seq<Row>, numPrev: int, varLog: seq<Column>, cost: string, r: Row, c: Column)
    requires r in SampleSelection(rows, numPrev, varLog, cost).rows && c in varLog
    ensures PositiveIn(r, c)
  {
    assert SelectedMask(numPrev, varLog)(r);
    var a :| 0 <= a < |varLog| && varLog[a] == c;
  }

  /** The regressors of every model are distinct and clash with none of the
      rows `regression_rrw` adds, so each model's column lists `Konstant`, the
      regressors in order, then the trailer rows. */
  lemma ModelColumnShape(k: nat, cost: Cost, fit: Fit, nobs: nat)
    requires 1 <= k <= MODELS && Rounded(fit)
    requires Estimated(fit, Reported(ModelSpec(k, cost).vars))
    ensures var vars := ModelSpec(k, cost).vars;
      ResultsColumn(vars, fit, nobs).labels == ["Konstant"] + vars[1..] + TrailerLabels
  {
    var vars := ModelSpec(k, cost).vars;
    RegressorsClear(k, cost);
    ModelColumnLabels(vars, fit, nobs);
  }

  /** No regressor name repeats or is a name the column uses for something else. */
  lemma RegressorsClear(k: nat, cost: Cost)
    requires 1 <= k <= MODELS
    ensures AllDifferent(ModelSpec(k, cost).vars[1..])
    ensures forall v :: v in ModelSpec(k, cost).vars[1..] ==> Clear(v)
  {
    var regs := ModelSpec(k, cost).vars[1..];
    if k == 1 {
      assert regs == ["lnSalg", "DlnSalg"];
      NamesClear(regs);
    } else if k == 2 {
      assert regs == ["lnSalg", "DlnSalg", "lnSalgEINT", "lnSalgAINT", "lnSalgBNP",
                      "DlnSalgEINT", "DlnSalgAINT", "DlnSalgBNP"];
      Model2Clear();
    } else if k == 3 {
      assert regs == ["lnSalg", "DlnSalg", "lnSalgPrev", "DlnSalgPrev"];
      NamesClear(regs);
    } else {
      assert regs == ["I_prev_lnSalg", "I_prev_DlnSalg", "D_prev_lnSalg", "D_prev_DlnSalg"];
      NamesClear(regs);
    }
  }

  /** The regressor lists of models 1, 3 and 4. */
  lemma NamesClear(regs: seq<string>)
    requires regs == ["lnSalg", "DlnSalg"]
          || regs == ["lnSalg", "DlnSalg", "lnSalgPrev", "DlnSalgPrev"]
          || regs == ["I_prev_lnSalg", "I_prev_DlnSalg", "D_prev_lnSalg", "D_prev_DlnSalg"]
    ensures AllDifferent(regs) && forall v :: v in regs ==> Clear(v)
  {
  }

  /** A regressor name that is neither a trailer row, the intercept nor `Konstant`. */
  predicate Clear(v: string)
  {
    v !in TrailerLabels && v != "Intercept" && v != "Konstant"
  }

  lemma Model2Clear()
    ensures var regs := ["lnSalg", "DlnSalg", "lnSalgEINT", "lnSalgAINT", "lnSalgBNP",
                         "DlnSalgEINT", "DlnSalgAINT", "DlnSalgBNP"];
      AllDifferent(regs) && forall v :: v in regs ==> Clear(v)
  {
  }

  /** Every trailer row is in a column, so a table index that holds the
      column's rows can be reordered exactly when it repeats no label, and
      then ends with the trailer. */
  lemma TrailerReorderSucceeds(vars: seq<string>, fit: Fit, nobs: nat, index: seq<string>)
    requires Rounded(fit) && vars != [] && Estimated(fit, Reported(vars))
    requires forall l :: l in ResultsColumn(vars, fit, nobs).cells ==> l in index
    ensures ReorderTrailer(index).Some? <==> AllDifferent(index)
    ensures ReorderTrailer(index).Some? ==>
      multiset(ReorderTrailer(index).value) == multiset(index)
      && EndsWith(ReorderTrailer(index).value, Trailer)
  {
    var coefs := CoefficientCells(Reported(vars), fit);
    var s := PutAll(Empty(), coefs);
    assert coefs[0].0 == "Konstant";
    TrailerWritten(s, nobs, fit);
    ReorderTrailerEnds(index);
  }

  // ---------------------------------------------------------------------
  // The derived growth variables

  /** A truth value used as a number (`True` is 1, `False` is 0). */
  function Indicator(b: bool): real
  {
    if b then 1.0 else 0.0
  }

  /** `(x < 0) * x`: the growth `x` where it is negative, 0 otherwise (`DlnSalg`). */
  function Downturn(x: real): (d: real)
    ensures d <= 0.0 && d <= x
    ensures d == x || d == 0.0
    ensures d < 0.0 <==> x < 0.0
  {
    Indicator(x < 0.0) * x
  }

  /** The downturn is the smaller of the growth and zero: never positive,
      never above the growth, and a downturn of a downturn changes nothing. */
  lemma DownturnIsNegativePart(x: real)
    ensures Downturn(x) == if x < 0.0 then x else 0.0
    ensures Downturn(x) <= 0.0 && Downturn(x) <= x
    ensures Downturn(Downturn(x)) == Downturn(x)
  {
  }

  /** `I_prev`: last year's growth was positive. */
  predicate IPrev(gp: real) { gp > 0.0 }

  /** `D_prev`: last year's growth was negative. */
  predicate DPrev(gp: real) { gp < 0.0 }

  /** `indicator * x`: an interaction of a growth variable with an indicator. */
  function Interaction(b: bool, x: real): (r: real)
    ensures b ==> r == x
    ensures !b ==> r == 0.0
  {
    Indicator(b) * x
  }

  /** `I_prev` and `D_prev` never hold together; both fail exactly when last
      year's growth is zero. */
  lemma IndicatorsExclusive(gp: real)
    ensures !(IPrev(gp) && DPrev(gp))
    ensures !IPrev(gp) && !DPrev(gp) <==> gp == 0.0
  {
  }

  /** An interaction vanishes when its indicator does, and the two
      interactions of one variable add back up to it unless last year's
      growth was zero. */
  lemma InteractionsSplit(gp: real, x: real)
    ensures Interaction(false, x) == 0.0 && Interaction(true, x) == x
    ensures Interaction(IPrev(gp), x) + Interaction(DPrev(gp), x) == if gp == 0.0 then 0.0 else x
  {
  }

  /** `DlnSalgPrev = (lnSalgPrev < 0) * lnSalg`: model 3's variable masks
      this year's growth `g` by the sign of last year's growth `gp`. */
  function DlnSalgPrev(g: real, gp: real): (r: real)
    ensures gp < 0.0 ==> r == g
    ensures gp >= 0.0 ==> r == 0.0
  {
    Indicator(gp < 0.0) * g
  }

  /** Model 3's `DlnSalgPrev` is model 4's `D_prev_lnSalg`: this year's growth
      after a falling year, and not the downturn of last year's growth. */
  lemma DlnSalgPrevIsDPrevInteraction(g: real, gp: real)
    ensures DlnSalgPrev(g, gp) == Interaction(DPrev(gp), g)
    ensures gp < 0.0 ==> DlnSalgPrev(g, gp) == g
    ensures gp >= 0.0 ==> DlnSalgPrev(g, gp) == 0.0
  {
  }

  /** After a year of falling sales (`gp = -0.2`) a year of rising sales
      (`g = 0.5`) gives `DlnSalgPrev = 0.5`, a positive value where the
      downturn of last year's growth would be `-0.2`. */
  lemma DlnSalgPrevExample()
    ensures DlnSalgPrev(0.5, -0.2) == 0.5
    ensures Downturn(-0.2) == -0.2
  {
  }

  /** The growth variables of one statement: the log growth of cost, of sales
      and of last year's sales, the log asset and labour intensities, and GDP growth. */
  datatype Growth = Growth(lnCost: real, lnSalg: real, lnSalgPrev: real, eint: real, aint: real, bnp: real)

  /** The regressors of model `k` for one statement, in the order of its `vars[1..]`. */
  function Regressors(k: nat, g: Growth): (x: seq<real>)
    requires 1 <= k <= MODELS
    ensures forall cost :: |x| == |ModelSpec(k, cost).vars| - 1
    ensures k <= 3 ==> x[0] == g.lnSalg && x[1] == Downturn(g.lnSalg)
    ensures k == 3 ==> x[2] == g.lnSalgPrev
    ensures g.lnSalg >= 0.0 && k == 2 ==> x[1] == 0.0 && x[5] == 0.0 && x[6] == 0.0 && x[7] == 0.0
    ensures g.lnSalg >= 0.0 && k == 4 ==> x[1] == 0.0 && x[3] == 0.0
    ensures g.lnSalg == 0.0 && k != 3 ==> forall j :: 0 <= j < |x| ==> x[j] == 0.0
  {
    var d := Downturn(g.lnSalg);
    if k == 1 then [g.lnSalg, d]
    else if k == 2 then
      [g.lnSalg, d, g.lnSalg * g.eint, g.lnSalg * g.aint, g.lnSalg * g.bnp,
       d * g.eint, d * g.aint, d * g.bnp]
    else if k == 3 then [g.lnSalg, d, g.lnSalgPrev, DlnSalgPrev(g.lnSalg, g.lnSalgPrev)]
    else
      [Interaction(IPrev(g.lnSalgPrev), g.lnSalg), Interaction(IPrev(g.lnSalgPrev), d),
       Interaction(DPrev(g.lnSalgPrev), g.lnSalg), Interaction(DPrev(g.lnSalgPrev), d)]
  }

  /** In model 4 the interactions with `I_prev` and with `D_prev` together
      give back this year's growth and its downturn, unless last year's
      growth was zero, when all four are zero. */
  lemma Model4Recombines(g: Growth)
    ensures var x := Regressors(4, g);
      (g.lnSalgPrev != 0.0 ==> x[0] + x[2] == g.lnSalg && x[1] + x[3] == Downturn(g.lnSalg))
      && (g.lnSalgPrev == 0.0 ==> x == [0.0, 0.0, 0.0, 0.0])
  {
    InteractionsSplit(g.lnSalgPrev, g.lnSalg);
    InteractionsSplit(g.lnSalgPrev, Downturn(g.lnSalg));
  }

  /** Strictly increasing and zero at one, as the natural logarithm is on the positive reals. */
  ghost predicate LogLike(ln: real -> real)
  {
    (forall a: real, b: real :: 0.0 < a < b ==> ln(a) < ln(b)) && ln(1.0) == 0.0
  }

  /** With a logarithm, `DlnSalg` is nonzero exactly when sales fell from last year. */
  lemma DownturnWhenSalesFall(ln: real -> real, salg: real, prev: real)
    requires LogLike(ln) && salg > 0.0 && prev > 0.0
    ensures Downturn(ln(salg / prev)) != 0.0 <==> salg < prev
  {
    var q := salg / prev;
    DivBelowOne(salg, prev);
    if salg < prev {
      assert ln(q) < ln(1.0);
    } else if q > 1.0 {
      assert ln(1.0) < ln(q);
    }
  }

  /** A quotient of a positive divisor is below 1 exactly when the dividend
      is below the divisor. */
  lemma DivBelowOne(a: real, b: real)
    requires 0.0 < b
    ensures a / b < 1.0 <==> a < b
  {
    var q := a / b;
    assert q * b == a;
    if q < 1.0 {
      assert b - a == (1.0 - q) * b;
    } else {
      assert a - b == (q - 1.0) * b;
    }
  }
}
