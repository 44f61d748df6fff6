/** The lag self-join: every firm-year from 2008 on receives its own firm's
    deflated figures from one and two years earlier (missing when the firm
    has no statement that year) and the GDP of its year and the year before. */
module Lags {
  import opened Common
  import opened Seqs
  import opened Panel

  /** First analysed year; earlier statements only feed lag values. */
  const FIRST_YEAR := 2008

  /** Analysed rows. */
  predicate InWindow(r: Row) { r.regnaar >= FIRST_YEAR }

  /** The statements of firm `o` for year `y`, in panel order. */
  function Matches(rows: seq<Row>, o: int, y: int): seq<Row>
  {
    Filter(rows, (p: Row) => p.orgnr == o && p.regnaar == y)
  }

  /** Column `c` of firm `o`'s statement for year `y` after a left join:
      missing when the firm has no statement that year. */
  function PriorValue(rows: seq<Row>, o: int, y: int, c: Column): Option<real>
  {
    var m := Matches(rows, o, y);
    if |m| == 0 then None else Get(m[0], c)
  }

  /** The left joins against years y-1 and y-2 give row `r` at most one partner each. */
  predicate OneToOne(rows: seq<Row>, r: Row)
  {
    |Matches(rows, r.orgnr, r.regnaar - 1)| <= 1 && |Matches(rows, r.orgnr, r.regnaar - 2)| <= 1
  }

  /** The GDP series has the row's year and the year before. */
  predicate GdpCovers(gdp: map<int, real>, y: int)
  {
    y in gdp && y - 1 in gdp
  }

  const LagColumns: set<Column> := { SalgPrev, SalgPrevPrev, DriftskostnaderPrev, VarekostnaderPrev, VarelagerPrev }

  /** The columns the step writes. */
  const JoinedColumns: set<Column> := LagColumns + { Bnp, BnpPrev }

  /** The value the join writes into lag column `c` of row `r`. */
  function LagValue(rows: seq<Row>, r: Row, c: Column): Option<real>
  {
    match c
    case SalgPrev => PriorValue(rows, r.orgnr, r.regnaar - 1, Salg)
    case DriftskostnaderPrev => PriorValue(rows, r.orgnr, r.regnaar - 1, Driftskostnader)
    case VarekostnaderPrev => PriorValue(rows, r.orgnr, r.regnaar - 1, Varekostnader)
    case VarelagerPrev => PriorValue(rows, r.orgnr, r.regnaar - 1, Varelager)
    case SalgPrevPrev => PriorValue(rows, r.orgnr, r.regnaar - 2, Salg)
    case _ => None
  }

  /** An analysed row with its lag and GDP columns filled. */
  function JoinRow(rows: seq<Row>, r: Row, gdp: map<int, real>): (d: Row)
    requires GdpCovers(gdp, r.regnaar)
    ensures SameKeys(d, r)
    ensures forall c :: c in LagColumns ==> Get(d, c) == LagValue(rows, r, c)
    ensures Get(d, Bnp) == Some(gdp[r.regnaar]) && Get(d, BnpPrev) == Some(gdp[r.regnaar - 1])
    ensures forall c :: c !in JoinedColumns ==> Get(d, c) == Get(r, c)
  {
    var fields := r.fields
      [SalgPrev := LagValue(rows, r, SalgPrev)]
      [SalgPrevPrev := LagValue(rows, r, SalgPrevPrev)]
      [DriftskostnaderPrev := LagValue(rows, r, DriftskostnaderPrev)]
      [VarekostnaderPrev := LagValue(rows, r, VarekostnaderPrev)]
      [VarelagerPrev := LagValue(rows, r, VarelagerPrev)]
      [Bnp := Some(gdp[r.regnaar])]
      [BnpPrev := Some(gdp[r.regnaar - 1])];
    Row(r.orgnr, r.regnaar, r.bransje, fields)
  }

  /** A row before the window: its lag and GDP columns stay missing. */
  function Unjoined(r: Row): (d: Row)
    ensures SameKeys(d, r)
    ensures forall c :: c in JoinedColumns ==> Get(d, c).None?
    ensures forall c :: c !in JoinedColumns ==> Get(d, c) == Get(r, c)
  {
    var fields := r.fields
      [SalgPrev := None][SalgPrevPrev := None][DriftskostnaderPrev := None]
      [VarekostnaderPrev := None][VarelagerPrev := None][Bnp := None][BnpPrev := None];
    Row(r.orgnr, r.regnaar, r.bransje, fields)
  }

  /** Why the join step raises. */
  datatype JoinError =
    | DuplicatePriorOrgnr(year: int)   // the merge grows and re-indexing fails
    | MissingGdp(year: int)            // `bnp_data.loc[...]` raises

  /** The analysed years in order of first appearance (the loop's `unique()`). */
  function YearsInOrder(rows: seq<Row>): (ys: seq<int>)
    ensures forall y :: y in ys <==> exists i :: 0 <= i < |rows| && InWindow(rows[i]) && rows[i].regnaar == y
  {
    var w := Filter(rows, InWindow);
    var m := Map(w, (r: Row) => r.regnaar);
    var ys := Distinct(m);
    forall y | y in ys ensures exists i :: 0 <= i < |rows| && InWindow(rows[i]) && rows[i].regnaar == y
    {
      var j :| 0 <= j < |m| && m[j] == y;
      assert w[j] in w;
    }
    forall i | 0 <= i < |rows| && InWindow(rows[i]) ensures rows[i].regnaar in ys
    {
      assert rows[i] in w;
      var j :| 0 <= j < |w| && w[j] == rows[i];
      assert m[j] == rows[i].regnaar;
    }
    ys
  }

  /** The failure, if any, of the loop iteration for year `y`. */
  function YearError(rows: seq<Row>, y: int, gdp: map<int, real>): (e: Option<JoinError>)
    ensures e.None? <==> forall i :: 0 <= i < |rows| && InWindow(rows[i]) && rows[i].regnaar == y ==>
                                       OneToOne(rows, rows[i]) && GdpCovers(gdp, y)
  {
    if exists i :: 0 <= i < |rows| && InWindow(rows[i]) && rows[i].regnaar == y && !OneToOne(rows, rows[i])
    then Some(DuplicatePriorOrgnr(y))
    else if !GdpCovers(gdp, y) && exists i :: 0 <= i < |rows| && InWindow(rows[i]) && rows[i].regnaar == y
    then Some(MissingGdp(y))
    else None
  }

  /** The failure of the first failing iteration. */
  function FirstError(rows: seq<Row>, years: seq<int>, gdp: map<int, real>): (e: Option<JoinError>)
    ensures e.None? <==> forall k :: 0 <= k < |years| ==> YearError(rows, years[k], gdp).None?
  {
    if years == [] then None
    else
      match YearError(rows, years[0], gdp)
      case Some(err) => Some(err)
      case None =>
        var e := FirstError(rows, years[1..], gdp);
        assert forall k :: 1 <= k < |years| ==> years[k] == years[1..][k - 1];
        e
  }

  /** Every analysed row can be joined. */
  predicate Joinable(rows: seq<Row>, gdp: map<int, real>)
  {
    forall i :: 0 <= i < |rows| && InWindow(rows[i]) ==> OneToOne(rows, rows[i]) && GdpCovers(gdp, rows[i].regnaar)
  }

  /** The join step: analysed rows get their lags and GDP, earlier rows keep
      missing ones; every row stays in place. The step raises exactly when some
      analysed row's firm has two statements in year y-1 or y-2, or the GDP
      series lacks y or y-1. */
  function AttachLags(rows: seq<Row>, gdp: map<int, real>): (res: Result<seq<Row>, JoinError>)
    ensures res.Ok? <==> Joinable(rows, gdp)
    ensures res.Ok? ==> |res.value| == |rows|
    ensures res.Ok? ==> forall i :: 0 <= i < |rows| && InWindow(rows[i]) ==>
      GdpCovers(gdp, rows[i].regnaar) && res.value[i] == JoinRow(rows, rows[i], gdp)
    ensures res.Ok? ==> forall i :: 0 <= i < |rows| && !InWindow(rows[i]) ==> res.value[i] == Unjoined(rows[i])
  {
    var years := YearsInOrder(rows);
    match FirstError(rows, years, gdp)
    case Some(err) =>
      assert !Joinable(rows, gdp) by {
        var k :| 0 <= k < |years| && YearError(rows, years[k], gdp).Some?;
      }
      Err(err)
    case None =>
      assert Joinable(rows, gdp) by {
        forall i | 0 <= i < |rows| && InWindow(rows[i])
          ensures OneToOne(rows, rows[i]) && GdpCovers(gdp, rows[i].regnaar)
        {
          assert rows[i].regnaar in years;
          var k :| 0 <= k < |years| && years[k] == rows[i].regnaar;
          assert YearError(rows, years[k], gdp).None?;
        }
      }
      Ok(seq(|rows|, i requires 0 <= i < |rows| =>
        if InWindow(rows[i]) then JoinRow(rows, rows[i], gdp) else Unjoined(rows[i])))
  }

  /** Lag lookup: when firm `o` has a statement `p` for year y-1, the lag-1
      columns of its year-y row are `p`'s values exactly. */
  lemma LagFromPriorYear(rows: seq<Row>, r: Row, p: Row)
    requires OneToOne(rows, r)
    requires p in rows && p.orgnr == r.orgnr && p.regnaar == r.regnaar - 1
    ensures LagValue(rows, r, SalgPrev) == Get(p, Salg)
    ensures LagValue(rows, r, DriftskostnaderPrev) == Get(p, Driftskostnader)
    ensures LagValue(rows, r, VarekostnaderPrev) == Get(p, Varekostnader)
    ensures LagValue(rows, r, VarelagerPrev) == Get(p, Varelager)
  {
    OnlyMatch(rows, r.orgnr, r.regnaar - 1, p);
    SalesCostLags(rows, r, p);
    GoodsLags(rows, r, p);
  }

  /** The sales and operating-cost lags, given the partner's values. */
  lemma SalesCostLags(rows: seq<Row>, r: Row, p: Row)
    requires forall c :: PriorValue(rows, r.orgnr, r.regnaar - 1, c) == Get(p, c)
    ensures LagValue(rows, r, SalgPrev) == Get(p, Salg)
    ensures LagValue(rows, r, DriftskostnaderPrev) == Get(p, Driftskostnader)
  {
  }

  /** The cost-of-goods and inventory lags, given the partner's values. */
  lemma GoodsLags(rows: seq<Row>, r: Row, p: Row)
    requires forall c :: PriorValue(rows, r.orgnr, r.regnaar - 1, c) == Get(p, c)
    ensures LagValue(rows, r, VarekostnaderPrev) == Get(p, Varekostnader)
    ensures LagValue(rows, r, VarelagerPrev) == Get(p, Varelager)
  {
  }

  /** Lag lookup two years back, for `Salg_prev_prev`. */
  lemma LagFromTwoYearsBack(rows: seq<Row>, r: Row, p: Row)
    requires OneToOne(rows, r)
    requires p in rows && p.orgnr == r.orgnr && p.regnaar == r.regnaar - 2
    ensures LagValue(rows, r, SalgPrevPrev) == Get(p, Salg)
  {
    OnlyMatch(rows, r.orgnr, r.regnaar - 2, p);
  }

  /** A firm with no statement the year before gets missing lag-1 values
      (not an error). */
  lemma LagMissingWithoutPriorYear(rows: seq<Row>, r: Row)
    requires forall j :: 0 <= j < |rows| ==> !(rows[j].orgnr == r.orgnr && rows[j].regnaar == r.regnaar - 1)
    ensures LagValue(rows, r, SalgPrev).None? && LagValue(rows, r, DriftskostnaderPrev).None?
    ensures LagValue(rows, r, VarekostnaderPrev).None? && LagValue(rows, r, VarelagerPrev).None?
  {
    NoMatch(rows, r.orgnr, r.regnaar - 1);
  }

  /** A firm with two statements in the year before an analysed row makes the step raise. */
  lemma DuplicatePriorFails(rows: seq<Row>, gdp: map<int, real>, i: int, j: int, k: int)
    requires 0 <= i < |rows| && InWindow(rows[i])
    requires 0 <= j < k < |rows|
    requires rows[j].orgnr == rows[i].orgnr && rows[j].regnaar == rows[i].regnaar - 1
    requires rows[k].orgnr == rows[i].orgnr && rows[k].regnaar == rows[i].regnaar - 1
    ensures !Joinable(rows, gdp)
  {
    TwoMatches(rows, rows[i].orgnr, rows[i].regnaar - 1, j, k);
  }

  /** With at most one match, a statement of that firm and year is the match. */
  lemma OnlyMatch(rows: seq<Row>, o: int, y: int, p: Row)
    requires p in rows && p.orgnr == o && p.regnaar == y
    requires |Matches(rows, o, y)| <= 1
    ensures forall c :: PriorValue(rows, o, y, c) == Get(p, c)
  {
    var m := Matches(rows, o, y);
    assert p in m;
  }

  /** Without a statement of that firm and year, the left join finds nothing. */
  lemma NoMatch(rows: seq<Row>, o: int, y: int)
    requires forall j :: 0 <= j < |rows| ==> !(rows[j].orgnr == o && rows[j].regnaar == y)
    ensures forall c :: PriorValue(rows, o, y, c).None?
  {
    FilterDropsAll(rows, (p: Row) => p.orgnr == o && p.regnaar == y);
  }

  /** Two statements of the same firm and year are two matches. */
  lemma {:induction false} TwoMatches(rows: seq<Row>, o: int, y: int, j: int, k: int)
    requires 0 <= j < k < |rows|
    requires rows[j].orgnr == o && rows[j].regnaar == y
    requires rows[k].orgnr == o && rows[k].regnaar == y
    ensures |Matches(rows, o, y)| >= 2
  {
    var p := (r: Row) => r.orgnr == o && r.regnaar == y;
    if j == 0 {
      assert rows[1..][k - 1] == rows[k];
      assert |Filter(rows[1..], p)| >= 1 by {
        assert rows[k] in Filter(rows[1..], p);
      }
    } else {
      assert rows[1..][j - 1] == rows[j] && rows[1..][k - 1] == rows[k];
      TwoMatches(rows[1..], o, y, j - 1, k - 1);
    }
  }
}
