/** The preparation pipeline end to end: statements up to 2021 are loaded,
    their variables derived and deflated, lags and GDP attached, and the rows
    from 2008 on kept with the columns the analyses use. */
module Build {
  import opened Common
  import opened Seqs
  import opened Panel
  import opened Derivation
  import opened Deflation
  import opened Lags

  /** Last accounting year loaded. */
  const LAST_YEAR := 2021

  predicate Loaded(s: Statement) { s.row.regnaar <= LAST_YEAR }

  /** A statement that ends up in the prepared panel. */
  predicate Analysed(s: Statement) { FIRST_YEAR <= s.row.regnaar <= LAST_YEAR }

  /** A statement whose row is analysed (`ind` over statements). */
  predicate WindowStatement(s: Statement) { InWindow(s.row) }

  function RowOf(s: Statement): Row { s.row }

  /** The derivation step on a statement; the closing date is untouched. */
  function Derive(s: Statement): Statement { Statement(s.closing, DeriveRow(s.row)) }

  /** Two panels with the same firm, year and industry in every position. */
  predicate Aligned(a: seq<Row>, b: seq<Row>)
  {
    |a| == |b| && forall i :: 0 <= i < |a| ==> SameKeys(a[i], b[i])
  }

  /** The numeric columns of `columns_to_keep`. */
  const KeptColumns: set<Column> := {
    Salg, SalgPrev, SalgPrevPrev, Driftskostnader, DriftskostnaderPrev,
    Varekostnader, VarekostnaderPrev, Eiendeler, Lonnskostnader, Bnp, BnpPrev,
    Leverandorgjeld, Varelager, VarelagerPrev, Kundefordringer,
    SalgNominal, LonnskostnaderNominal, EiendelerNominal, SumEiendelerEur, SumOmsetningEur }

  /** A row restricted to the kept columns. */
  function Project(r: Row): (d: Row)
    ensures SameKeys(d, r)
    ensures forall c :: c in KeptColumns ==> Get(d, c) == Get(r, c)
    ensures forall c :: c !in KeptColumns ==> Get(d, c).None?
  {
    Row(r.orgnr, r.regnaar, r.bransje, map c | c in r.fields && c in KeptColumns :: r.fields[c])
  }

  datatype BuildError = DeflationFailed(deflation: DeflationError) | JoinFailed(join: JoinError)

  /** Every loaded statement has a closing month with a CPI entry. */
  predicate Deflatable(raw: seq<Statement>, cpis: map<nat, Cpi>)
  {
    forall i :: 0 <= i < |raw| && Loaded(raw[i]) ==> Resolves(raw[i], cpis)
  }

  /** A loaded statement derived and deflated by its month's index: the row
      the join reads lags from. */
  function Prepare(s: Statement, cpis: map<nat, Cpi>): Row
    requires Resolves(s, cpis)
  {
    DeflateRow(DeriveRow(s.row), IndexOf(s, cpis))
  }

  /** The loaded statements, each derived and deflated, in load order. */
  function PreparedPanel(raw: seq<Statement>, cpis: map<nat, Cpi>): (rows: seq<Row>)
    requires Deflatable(raw, cpis)
    ensures |rows| == |Filter(raw, Loaded)|
    ensures forall i :: 0 <= i < |rows| ==>
      Resolves(Filter(raw, Loaded)[i], cpis) && rows[i] == Prepare(Filter(raw, Loaded)[i], cpis)
  {
    LoadedResolve(raw, cpis);
    assert forall i :: 0 <= i < |Filter(raw, Loaded)| ==> Resolves(Filter(raw, Loaded)[i], cpis);
    PrepareAll(Filter(raw, Loaded), cpis)
  }

  function PrepareAll(stmts: seq<Statement>, cpis: map<nat, Cpi>): (rows: seq<Row>)
    requires forall i :: 0 <= i < |stmts| ==> Resolves(stmts[i], cpis)
    ensures |rows| == |stmts| && forall i :: 0 <= i < |stmts| ==> rows[i] == Prepare(stmts[i], cpis)
  {
    seq(|stmts|, i requires 0 <= i < |stmts| => Prepare(stmts[i], cpis))
  }

  /** Row `d` is the prepared row `p` after the join and the column
      selection: same firm, year and industry; every kept column that is not
      joined holds `p`'s value; the lag columns hold what the left join
      against the prepared panel finds for `p`; the GDP columns hold the
      year's and the previous year's GDP; every other column is dropped. */
  ghost predicate JoinedFrom(d: Row, p: Row, prepared: seq<Row>, gdp: map<int, real>)
  {
    SameKeys(d, p) && GdpCovers(gdp, p.regnaar)
    && (forall c :: c in KeptColumns && c !in JoinedColumns ==> Get(d, c) == Get(p, c))
    && (forall c :: c in LagColumns ==> Get(d, c) == LagValue(prepared, p, c))
    && Get(d, Bnp) == Some(gdp[p.regnaar]) && Get(d, BnpPrev) == Some(gdp[p.regnaar - 1])
    && (forall c :: c !in KeptColumns ==> Get(d, c).None?)
  }

  /** Row `d` of the prepared panel is statement `s` as the script builds
      it: `s` derived and deflated, then joined and projected. */
  ghost predicate BuiltRow(d: Row, s: Statement, prepared: seq<Row>, cpis: map<nat, Cpi>, gdp: map<int, real>)
  {
    Resolves(s, cpis) && SameKeys(d, s.row) && JoinedFrom(d, Prepare(s, cpis), prepared, gdp)
  }

  /** The prepared panel. It fails in deflation exactly when a loaded
      statement's month has no CPI entry, and in the join exactly when the
      loaded firm-years (which the earlier steps do not change) are not
      joinable; on success its rows are the statements of 2008-2021 in load
      order, each built from its statement as `BuiltRow` says. */
  function BuildPanel(raw: seq<Statement>, cpis: map<nat, Cpi>, gdp: map<int, real>): (res: Result<seq<Row>, BuildError>)
    ensures res.Err? && res.error.DeflationFailed? <==> !Deflatable(raw, cpis)
    ensures res.Ok? <==> Deflatable(raw, cpis) && Joinable(Map(Filter(raw, Loaded), RowOf), gdp)
    ensures res.Ok? ==> Aligned(res.value, Map(Filter(raw, Analysed), RowOf))
    ensures res.Ok? ==> forall j, c :: 0 <= j < |res.value| && c !in KeptColumns ==> Get(res.value[j], c).None?
    ensures res.Ok? ==> |res.value| == |Filter(raw, Analysed)|
    ensures res.Ok? ==> forall j :: 0 <= j < |res.value| ==>
      BuiltRow(res.value[j], Filter(raw, Analysed)[j], PreparedPanel(raw, cpis), cpis, gdp)
  {
    var loaded := Filter(raw, Loaded);
    DerivedResolve(raw, cpis);
    match DeflatePanel(Map(loaded, Derive), cpis)
    case Err(e) => Err(DeflationFailed(e))
    case Ok(deflated) =>
      DeflatedJoinable(raw, cpis, gdp);
      match AttachLags(deflated, gdp)
      case Err(e) => Err(JoinFailed(e))
      case Ok(joined) =>
        BuiltRows(raw, cpis, gdp);
        Ok(Map(Filter(joined, InWindow), Project))
  }

  /** After deflation the join sees the prepared panel, which it can join
      exactly when it can join the loaded firm-years. */
  lemma DeflatedJoinable(raw: seq<Statement>, cpis: map<nat, Cpi>, gdp: map<int, real>)
    requires Deflatable(raw, cpis)
    ensures DeflatePanel(Map(Filter(raw, Loaded), Derive), cpis) == Ok(PreparedPanel(raw, cpis))
    ensures Joinable(PreparedPanel(raw, cpis), gdp) <==> Joinable(Map(Filter(raw, Loaded), RowOf), gdp)
  {
    PreparedIsDeflated(raw, cpis);
    PreparedJoinable(raw, cpis, gdp);
  }

  /** The prepared panel can be joined exactly when the loaded firm-years can. */
  lemma PreparedJoinable(raw: seq<Statement>, cpis: map<nat, Cpi>, gdp: map<int, real>)
    requires Deflatable(raw, cpis)
    ensures Joinable(PreparedPanel(raw, cpis), gdp) <==> Joinable(Map(Filter(raw, Loaded), RowOf), gdp)
  {
    PreparedAligned(raw, cpis);
    JoinableAligned(PreparedPanel(raw, cpis), Map(Filter(raw, Loaded), RowOf), gdp);
  }

  /** The derivation and deflation steps compute the prepared panel. */
  lemma PreparedIsDeflated(raw: seq<Statement>, cpis: map<nat, Cpi>)
    requires Deflatable(raw, cpis)
    ensures DeflatePanel(Map(Filter(raw, Loaded), Derive), cpis) == Ok(PreparedPanel(raw, cpis))
  {
    LoadedResolve(raw, cpis);
    assert forall i :: 0 <= i < |Filter(raw, Loaded)| ==> Resolves(Filter(raw, Loaded)[i], cpis);
    assert PreparedPanel(raw, cpis) == PrepareAll(Filter(raw, Loaded), cpis);
    DeflateDerived(Filter(raw, Loaded), cpis);
  }

  /** Deriving then deflating statements that all resolve prepares each. */
  lemma DeflateDerived(loaded: seq<Statement>, cpis: map<nat, Cpi>)
    requires forall i :: 0 <= i < |loaded| ==> Resolves(loaded[i], cpis)
    ensures DeflatePanel(Map(loaded, Derive), cpis) == Ok(PrepareAll(loaded, cpis))
  {
    var derived := Map(loaded, Derive);
    forall i | 0 <= i < |loaded| ensures Resolves(derived[i], cpis)
    {
      SameClosing(loaded[i], derived[i], cpis);
    }
    var out := DeflatePanel(derived, cpis).value;
    var prepared := PrepareAll(loaded, cpis);
    forall i | 0 <= i < |loaded| ensures out[i] == prepared[i]
    {
      SameClosing(derived[i], loaded[i], cpis);
      assert derived[i].row == DeriveRow(loaded[i].row);
    }
    assert out == prepared;
  }

  /** Statements with the same closing date deflate by the same index. */
  lemma SameClosing(a: Statement, b: Statement, cpis: map<nat, Cpi>)
    requires a.closing == b.closing && Resolves(a, cpis)
    ensures Resolves(b, cpis) && IndexOf(a, cpis) == IndexOf(b, cpis)
  {
  }

  /** The prepared panel keeps every statement's firm, year and industry. */
  lemma PreparedAligned(raw: seq<Statement>, cpis: map<nat, Cpi>)
    requires Deflatable(raw, cpis)
    ensures Aligned(PreparedPanel(raw, cpis), Map(Filter(raw, Loaded), RowOf))
  {
  }

  /** An analysed row after the join and the column selection is built from
      its statement. */
  lemma JoinedRowBuilt(prepared: seq<Row>, joined: Row, d: Row, s: Statement, i: nat, cpis: map<nat, Cpi>, gdp: map<int, real>)
    requires i < |prepared| && Resolves(s, cpis) && prepared[i] == Prepare(s, cpis)
    requires GdpCovers(gdp, prepared[i].regnaar) && joined == JoinRow(prepared, prepared[i], gdp)
    requires SameKeys(d, joined) && forall c :: Get(d, c) == if c in KeptColumns then Get(joined, c) else None
    ensures BuiltRow(d, s, prepared, cpis, gdp)
  {
    ProjectedJoin(prepared, prepared[i], joined, d, gdp);
    assert SameKeys(prepared[i], s.row);
  }

  /** A joined row restricted to the kept columns. */
  lemma ProjectedJoin(prepared: seq<Row>, p: Row, joined: Row, d: Row, gdp: map<int, real>)
    requires GdpCovers(gdp, p.regnaar) && joined == JoinRow(prepared, p, gdp)
    requires SameKeys(d, joined) && forall c :: Get(d, c) == if c in KeptColumns then Get(joined, c) else None
    ensures JoinedFrom(d, p, prepared, gdp)
  {
    forall c | c in KeptColumns && c !in JoinedColumns ensures Get(d, c) == Get(p, c)
    {
      assert Get(joined, c) == Get(p, c);
    }
    forall c | c in LagColumns ensures Get(d, c) == LagValue(prepared, p, c)
    {
      assert c in KeptColumns;
    }
    assert Bnp in KeptColumns && BnpPrev in KeptColumns;
  }

  /** The rows the pipeline keeps are the analysed statements, in load order,
      each built from its statement. */
  lemma BuiltRows(raw: seq<Statement>, cpis: map<nat, Cpi>, gdp: map<int, real>)
    requires Deflatable(raw, cpis) && AttachLags(PreparedPanel(raw, cpis), gdp).Ok?
    ensures var out := Map(Filter(AttachLags(PreparedPanel(raw, cpis), gdp).value, InWindow), Project);
      |out| == |Filter(raw, Analysed)|
      && (forall j :: 0 <= j < |out| ==> BuiltRow(out[j], Filter(raw, Analysed)[j], PreparedPanel(raw, cpis), cpis, gdp))
      && Aligned(out, Map(Filter(raw, Analysed), RowOf))
      && (forall j, c :: 0 <= j < |out| && c !in KeptColumns ==> Get(out[j], c).None?)
  {
    var loaded := Filter(raw, Loaded);
    var prepared := PreparedPanel(raw, cpis);
    var joined := AttachLags(prepared, gdp).value;
    PreparedAligned(raw, cpis);
    JoinedAligned(prepared, Map(loaded, RowOf), gdp);
    forall i | 0 <= i < |loaded|
      ensures InWindow(joined[i]) <==> WindowStatement(loaded[i])
      ensures InWindow(joined[i]) ==>
        BuiltRow(Project(joined[i]), loaded[i], prepared, cpis, gdp) && SameKeys(joined[i], loaded[i].row)
    {
      assert SameKeys(joined[i], Map(loaded, RowOf)[i]);
      if InWindow(joined[i]) {
        WindowRowAt(prepared, joined[i], Project(joined[i]), loaded[i], i, cpis, gdp);
      }
    }
    WindowRowsBuilt(prepared, joined, loaded, cpis, gdp);
    WindowOfLoaded(raw);
  }

  /** Selecting the analysed rows of a joined panel and projecting them gives
      the analysed statements, each built from its statement. */
  lemma WindowRowsBuilt(prepared: seq<Row>, joined: seq<Row>, loaded: seq<Statement>, cpis: map<nat, Cpi>, gdp: map<int, real>)
    requires |joined| == |loaded|
    requires forall i :: 0 <= i < |loaded| ==> (InWindow(joined[i]) <==> WindowStatement(loaded[i]))
    requires forall i :: 0 <= i < |loaded| && InWindow(joined[i]) ==>
      BuiltRow(Project(joined[i]), loaded[i], prepared, cpis, gdp) && SameKeys(joined[i], loaded[i].row)
    ensures var out := Map(Filter(joined, InWindow), Project);
      |out| == |Filter(loaded, WindowStatement)|
      && (forall j :: 0 <= j < |out| ==> BuiltRow(out[j], Filter(loaded, WindowStatement)[j], prepared, cpis, gdp))
      && Aligned(out, Map(Filter(loaded, WindowStatement), RowOf))
      && (forall j, c :: 0 <= j < |out| && c !in KeptColumns ==> Get(out[j], c).None?)
  {
    var out := Map(Filter(joined, InWindow), Project);
    var analysed := Filter(loaded, WindowStatement);
    SelectedAgree(joined, loaded, InWindow, WindowStatement, 0);
    SelectedFromStart(joined, InWindow);
    SelectedFromStart(loaded, WindowStatement);
    var ps := Selected(joined, InWindow, 0);
    forall j | 0 <= j < |out|
      ensures BuiltRow(out[j], analysed[j], prepared, cpis, gdp)
      ensures SameKeys(out[j], analysed[j].row)
    {
      var i := ps[j];
      assert out[j] == Project(joined[i]) && analysed[j] == loaded[i];
      assert SameKeys(Project(joined[i]), joined[i]);
    }
  }

  /** One analysed row, joined and projected, is built from its statement. */
  lemma WindowRowAt(prepared: seq<Row>, joined: Row, d: Row, s: Statement, i: nat, cpis: map<nat, Cpi>, gdp: map<int, real>)
    requires i < |prepared| && Resolves(s, cpis) && prepared[i] == Prepare(s, cpis)
    requires InWindow(prepared[i]) ==> GdpCovers(gdp, prepared[i].regnaar) && joined == JoinRow(prepared, prepared[i], gdp)
    requires SameKeys(joined, s.row) && InWindow(joined) && d == Project(joined)
    ensures BuiltRow(d, s, prepared, cpis, gdp) && SameKeys(d, s.row)
  {
    assert SameKeys(prepared[i], s.row);
    JoinedRowBuilt(prepared, joined, d, s, i, cpis, gdp);
  }

  /** A built row's lag-1 columns hold the prepared values of the same
      firm's statement one year earlier, when it has one. */
  lemma BuiltLagFromPriorYear(raw: seq<Statement>, cpis: map<nat, Cpi>, gdp: map<int, real>, j: nat, k: nat)
    requires BuildPanel(raw, cpis, gdp).Ok?
    requires j < |Filter(raw, Analysed)| && k < |Filter(raw, Loaded)|
    requires Filter(raw, Loaded)[k].row.orgnr == Filter(raw, Analysed)[j].row.orgnr
    requires Filter(raw, Loaded)[k].row.regnaar == Filter(raw, Analysed)[j].row.regnaar - 1
    ensures Deflatable(raw, cpis)
    ensures var d, p := BuildPanel(raw, cpis, gdp).value[j], PreparedPanel(raw, cpis)[k];
      Get(d, SalgPrev) == Get(p, Salg) && Get(d, DriftskostnaderPrev) == Get(p, Driftskostnader)
      && Get(d, VarekostnaderPrev) == Get(p, Varekostnader) && Get(d, VarelagerPrev) == Get(p, Varelager)
  {
    var prepared := PreparedPanel(raw, cpis);
    var i := BuiltSource(raw, cpis, gdp, j);
    assert SameKeys(prepared[k], Filter(raw, Loaded)[k].row);
    LagFromPriorYear(prepared, prepared[i], prepared[k]);
  }

  /** A built row's lag-2 sales hold the prepared sales of the same firm's
      statement two years earlier, when it has one. */
  lemma BuiltLagFromTwoYearsBack(raw: seq<Statement>, cpis: map<nat, Cpi>, gdp: map<int, real>, j: nat, k: nat)
    requires BuildPanel(raw, cpis, gdp).Ok?
    requires j < |Filter(raw, Analysed)| && k < |Filter(raw, Loaded)|
    requires Filter(raw, Loaded)[k].row.orgnr == Filter(raw, Analysed)[j].row.orgnr
    requires Filter(raw, Loaded)[k].row.regnaar == Filter(raw, Analysed)[j].row.regnaar - 2
    ensures Deflatable(raw, cpis)
    ensures Get(BuildPanel(raw, cpis, gdp).value[j], SalgPrevPrev) == Get(PreparedPanel(raw, cpis)[k], Salg)
  {
    var prepared := PreparedPanel(raw, cpis);
    var i := BuiltSource(raw, cpis, gdp, j);
    assert SameKeys(prepared[k], Filter(raw, Loaded)[k].row);
    LagFromTwoYearsBack(prepared, prepared[i], prepared[k]);
  }

  /** Where built row `j` comes from in the prepared panel, and that the join
      found at most one partner for it. */
  lemma BuiltSource(raw: seq<Statement>, cpis: map<nat, Cpi>, gdp: map<int, real>, j: nat) returns (i: nat)
    requires Deflatable(raw, cpis) && Joinable(Map(Filter(raw, Loaded), RowOf), gdp)
    requires j < |Filter(raw, Analysed)|
    ensures i < |Filter(raw, Loaded)| && Filter(raw, Loaded)[i] == Filter(raw, Analysed)[j]
    ensures OneToOne(PreparedPanel(raw, cpis), PreparedPanel(raw, cpis)[i])
  {
    i := AnalysedIsLoaded(raw, j);
    var prepared := PreparedPanel(raw, cpis);
    PreparedJoinable(raw, cpis, gdp);
    assert SameKeys(prepared[i], Filter(raw, Loaded)[i].row);
  }

  /** Every analysed statement is a loaded one, in the analysed window. */
  lemma AnalysedIsLoaded(raw: seq<Statement>, j: nat) returns (i: nat)
    requires j < |Filter(raw, Analysed)|
    ensures i < |Filter(raw, Loaded)| && Filter(raw, Loaded)[i] == Filter(raw, Analysed)[j]
    ensures WindowStatement(Filter(raw, Loaded)[i])
  {
    var loaded := Filter(raw, Loaded);
    var s := Filter(raw, Analysed)[j];
    WindowOfLoaded(raw);
    assert s in Filter(loaded, WindowStatement);
    i :| 0 <= i < |loaded| && loaded[i] == s;
  }

  /** Deriving and deflating keep every row's firm, year and industry. */
  lemma DeflatedAligned(loaded: seq<Statement>, cpis: map<nat, Cpi>)
    requires DeflatePanel(Map(loaded, Derive), cpis).Ok?
    ensures Aligned(DeflatePanel(Map(loaded, Derive), cpis).value, Map(loaded, RowOf))
  {
    var derived := Map(loaded, Derive);
    var out := DeflatePanel(derived, cpis).value;
    forall i | 0 <= i < |loaded| ensures SameKeys(out[i], loaded[i].row)
    {
      assert out[i] == DeflateRow(derived[i].row, IndexOf(derived[i], cpis));
    }
  }

  /** The join keeps every row's firm, year and industry. */
  lemma JoinedAligned(rows: seq<Row>, b: seq<Row>, gdp: map<int, real>)
    requires Aligned(rows, b) && AttachLags(rows, gdp).Ok?
    ensures Aligned(AttachLags(rows, gdp).value, b)
  {
    var out := AttachLags(rows, gdp).value;
    forall i | 0 <= i < |rows| ensures SameKeys(out[i], b[i])
    {
      if InWindow(rows[i]) {
        assert out[i] == JoinRow(rows, rows[i], gdp);
      } else {
        assert out[i] == Unjoined(rows[i]);
      }
    }
  }

  /** Deriving keeps the closing dates, so the derived panel deflates exactly
      when the loaded statements resolve. */
  lemma DerivedResolve(raw: seq<Statement>, cpis: map<nat, Cpi>)
    ensures Deflatable(raw, cpis) <==>
      forall i :: 0 <= i < |Filter(raw, Loaded)| ==> Resolves(Map(Filter(raw, Loaded), Derive)[i], cpis)
  {
    var loaded := Filter(raw, Loaded);
    var derived := Map(loaded, Derive);
    forall i | 0 <= i < |loaded|
      ensures Resolves(derived[i], cpis) == Resolves(loaded[i], cpis)
    {
      assert derived[i].closing == loaded[i].closing;
    }
    LoadedResolve(raw, cpis);
  }

  /** `Deflatable` read over the loaded statements only. */
  lemma LoadedResolve(raw: seq<Statement>, cpis: map<nat, Cpi>)
    ensures Deflatable(raw, cpis) <==>
      forall i :: 0 <= i < |Filter(raw, Loaded)| ==> Resolves(Filter(raw, Loaded)[i], cpis)
  {
    FilterAll(raw, Loaded, s => Resolves(s, cpis));
  }

  /** The number of left-join partners depends only on firms and years. */
  lemma {:induction false} MatchesAligned(a: seq<Row>, b: seq<Row>, o: int, y: int)
    requires Aligned(a, b)
    ensures |Matches(a, o, y)| == |Matches(b, o, y)|
  {
    if a != [] {
      assert Aligned(a[1..], b[1..]) by {
        assert forall i :: 0 <= i < |a| - 1 ==> a[1..][i] == a[i + 1] && b[1..][i] == b[i + 1];
      }
      MatchesAligned(a[1..], b[1..], o, y);
      assert SameKeys(a[0], b[0]);
    }
  }

  /** Whether the join succeeds depends only on firms and years. */
  lemma JoinableAligned(a: seq<Row>, b: seq<Row>, gdp: map<int, real>)
    requires Aligned(a, b)
    ensures Joinable(a, gdp) <==> Joinable(b, gdp)
  {
    forall i | 0 <= i < |a|
      ensures OneToOne(a, a[i]) <==> OneToOne(b, b[i])
    {
      assert SameKeys(a[i], b[i]);
      MatchesAligned(a, b, a[i].orgnr, a[i].regnaar - 1);
      MatchesAligned(a, b, a[i].orgnr, a[i].regnaar - 2);
    }
  }

  /** Loading up to 2021 and then keeping 2008 on selects the analysed years. */
  lemma {:induction false} WindowOfLoaded(raw: seq<Statement>)
    ensures Filter(Filter(raw, Loaded), WindowStatement) == Filter(raw, Analysed)
  {
    if raw != [] {
      WindowOfLoaded(raw[1..]);
      var head := if Loaded(raw[0]) then [raw[0]] else [];
      FilterAppend(head, Filter(raw[1..], Loaded), WindowStatement);
    }
  }
}
