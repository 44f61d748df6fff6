/** Deflation by the consumer price index: eight monetary columns are divided
    by the CPI of the month the statement closes in; nominal copies of sales,
    payroll and assets are kept for thresholds stated in kroner. */
module Deflation {
  import opened Common
  import opened Panel
  import opened Periods

  /** An index value of the CPI series (2015 = 100); the series is positive. */
  type Cpi = x: real | x > 0.0 witness 1.0

  const DeflatedColumns: set<Column> := {
    Salg, Driftskostnader, Varekostnader, Eiendeler, Lonnskostnader,
    Leverandorgjeld, Varelager, Kundefordringer }

  const NominalCopies: set<Column> := { SalgNominal, LonnskostnaderNominal, EiendelerNominal }

  /** The column a nominal copy is taken from. */
  function NominalSource(c: Column): Column
  {
    match c
    case SalgNominal => Salg
    case LonnskostnaderNominal => Lonnskostnader
    case EiendelerNominal => Eiendeler
    case _ => c
  }

  /** One cell divided by the index; a missing cell stays missing. */
  function Scale(v: Option<real>, cpi: Cpi): Option<real>
  {
    match v
    case Some(x) => Some(x / cpi)
    case None => None
  }

  /** The deflation step on one row. The copies are taken before the division,
      so they hold the nominal values. */
  function DeflateRow(r: Row, cpi: Cpi): (d: Row)
    ensures SameKeys(d, r)
    ensures forall c :: c in DeflatedColumns ==> Get(d, c) == Scale(Get(r, c), cpi)
    ensures forall c :: c in NominalCopies ==> Get(d, c) == Get(r, NominalSource(c))
    ensures forall c :: c !in DeflatedColumns && c !in NominalCopies ==> Get(d, c) == Get(r, c)
  {
    var fields := r.fields
      [SalgNominal := Get(r, Salg)]
      [LonnskostnaderNominal := Get(r, Lonnskostnader)]
      [EiendelerNominal := Get(r, Eiendeler)]
      [Salg := Scale(Get(r, Salg), cpi)]
      [Driftskostnader := Scale(Get(r, Driftskostnader), cpi)]
      [Varekostnader := Scale(Get(r, Varekostnader), cpi)]
      [Eiendeler := Scale(Get(r, Eiendeler), cpi)]
      [Lonnskostnader := Scale(Get(r, Lonnskostnader), cpi)]
      [Leverandorgjeld := Scale(Get(r, Leverandorgjeld), cpi)]
      [Varelager := Scale(Get(r, Varelager), cpi)]
      [Kundefordringer := Scale(Get(r, Kundefordringer), cpi)];
    Row(r.orgnr, r.regnaar, r.bransje, fields)
  }

  /** With an index of 1 the deflated columns equal their inputs; only the
      nominal copies are new. */
  lemma UnitIndexChangesNothing(r: Row, c: Column)
    requires c !in NominalCopies
    ensures Get(DeflateRow(r, 1.0), c) == Get(r, c)
  {
    if c in DeflatedColumns {
      assert Get(DeflateRow(r, 1.0), c) == Scale(Get(r, c), 1.0);
    }
  }

  /** Multiplying a deflated value by its index gives the nominal value back,
      which is also what the nominal copy holds. */
  lemma ReflateRoundTrip(r: Row, cpi: Cpi)
    requires Get(r, Salg).Some?
    ensures Get(DeflateRow(r, cpi), Salg).Some?
    ensures Get(DeflateRow(r, cpi), Salg).value * cpi == Get(DeflateRow(r, cpi), SalgNominal).value
  {
    var d := DeflateRow(r, cpi);
    assert Get(d, Salg) == Scale(Get(r, Salg), cpi);
    assert Get(d, SalgNominal) == Get(r, Salg);
    var x := Get(r, Salg).value;
    assert x / cpi * cpi == x;
  }

  /** Why a panel cannot be deflated. */
  datatype DeflationError =
    | UnparsableClosingDate(date: string)   // `astype(int)` raises
    | MissingCpi(key: nat)                  // `CPI_data.loc[...]` raises

  /** The period key of a statement, when its closing date has one. */
  predicate HasKey(s: Statement)
  {
    ClosingKey(s.closing).Some?
  }

  /** The key of the statement resolves to an entry of the CPI series. */
  predicate Resolves(s: Statement, cpis: map<nat, Cpi>)
  {
    HasKey(s) && ClosingKey(s.closing).value in cpis
  }

  /** The first closing date in row order that is not a key. */
  function FirstUnparsable(stmts: seq<Statement>): (e: Option<string>)
    ensures e.None? <==> forall i :: 0 <= i < |stmts| ==> HasKey(stmts[i])
    ensures e.Some? ==> exists i :: 0 <= i < |stmts| && !HasKey(stmts[i]) && stmts[i].closing == e.value
  {
    if stmts == [] then None
    else if !HasKey(stmts[0]) then Some(stmts[0].closing)
    else
      var e := FirstUnparsable(stmts[1..]);
      assert forall i :: 1 <= i < |stmts| ==> stmts[i] == stmts[1..][i - 1];
      e
  }

  /** The first key in row order with no CPI entry. */
  function FirstMissing(stmts: seq<Statement>, cpis: map<nat, Cpi>): (e: Option<nat>)
    requires forall i :: 0 <= i < |stmts| ==> HasKey(stmts[i])
    ensures e.None? <==> forall i :: 0 <= i < |stmts| ==> Resolves(stmts[i], cpis)
    ensures e.Some? ==> e.value !in cpis
  {
    if stmts == [] then None
    else
      assert HasKey(stmts[0]);
      var key := ClosingKey(stmts[0].closing).value;
      if key !in cpis then Some(key)
      else
        var e := FirstMissing(stmts[1..], cpis);
        assert forall i :: 1 <= i < |stmts| ==> stmts[i] == stmts[1..][i - 1];
        e
  }

  /** The index of the month a statement closes in. */
  function IndexOf(s: Statement, cpis: map<nat, Cpi>): Cpi
    requires Resolves(s, cpis)
  {
    cpis[ClosingKey(s.closing).value]
  }

  /** The deflation step on the whole panel: every closing date must parse and
      every key must have a CPI entry, otherwise the step raises and nothing is
      deflated. */
  function DeflatePanel(stmts: seq<Statement>, cpis: map<nat, Cpi>): (res: Result<seq<Row>, DeflationError>)
    ensures res.Ok? <==> forall i :: 0 <= i < |stmts| ==> Resolves(stmts[i], cpis)
    ensures res.Err? && res.error.UnparsableClosingDate? ==>
      exists i :: 0 <= i < |stmts| && !HasKey(stmts[i])
    ensures res.Err? && res.error.MissingCpi? ==>
      (forall i :: 0 <= i < |stmts| ==> HasKey(stmts[i])) && res.error.key !in cpis
    ensures res.Ok? ==> |res.value| == |stmts|
    ensures res.Ok? ==>
      forall i :: 0 <= i < |stmts| ==> res.value[i] == DeflateRow(stmts[i].row, IndexOf(stmts[i], cpis))
  {
    match FirstUnparsable(stmts)
    case Some(date) => Err(UnparsableClosingDate(date))
    case None =>
      match FirstMissing(stmts, cpis)
      case Some(key) => Err(MissingCpi(key))
      case None => Ok(seq(|stmts|, i requires 0 <= i < |stmts| => DeflateRow(stmts[i].row, IndexOf(stmts[i], cpis))))
  }

  /** Deflating by a CPI series that is 1 in every month leaves every column of
      every row as it was, apart from the added nominal copies. */
  lemma UnitSeriesChangesNothing(stmts: seq<Statement>, cpis: map<nat, Cpi>)
    requires forall k :: k in cpis ==> cpis[k] == 1.0
    requires forall i :: 0 <= i < |stmts| ==> Resolves(stmts[i], cpis)
    ensures DeflatePanel(stmts, cpis).Ok?
    ensures forall i, c :: 0 <= i < |stmts| && c !in NominalCopies ==>
      Get(DeflatePanel(stmts, cpis).value[i], c) == Get(stmts[i].row, c)
  {
    var out := DeflatePanel(stmts, cpis).value;
    forall i, c | 0 <= i < |stmts| && c !in NominalCopies
      ensures Get(out[i], c) == Get(stmts[i].row, c)
    {
      assert out[i] == DeflateRow(stmts[i].row, 1.0);
      UnitIndexChangesNothing(stmts[i].row, c);
    }
  }
}
