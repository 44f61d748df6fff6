/** Sample selection for one model: four filters in a fixed order, each
    recording in a ledger how many statements it removed. */
module Selection {
  import opened Common
  import opened Seqs
  import opened Panel
  import opened Series

  /** The rows of the selection ledger; `Text` gives each one's label. */
  datatype Entry = Initial | Industries | NoPrev | NoPrevPrev | Blank | CostHeader(cost: string) | NonPositive | Final

  function Text(e: Entry): string
  {
    match e
    case Initial => "Alle årsregnskaper 2008-2021"
    case Industries => "Ekskludert de nevnte bransjene"
    case NoPrev => "Ingen årsregnskap det foregående året"
    case NoPrevPrev => "Ingen årsregnskap de to foregående årene"
    case Blank => ""
    case CostHeader(cost) => cost + ":"
    case NonPositive => "Ikke-positiv verdi for regnskapsposter"
    case Final => "Endelig utvalg for analyser"
  }

  /** Different ledger rows have different labels, so keying the ledger by
      `Entry` is keying it by label. */
  lemma TextInjective(a: Entry, b: Entry)
    requires Text(a) == Text(b)
    ensures a == b
  {
    if a.CostHeader? {
      assert Text(a)[|Text(a)| - 1] == ':';
      assert a.cost == Text(a)[..|Text(a)| - 1];
    }
    if b.CostHeader? {
      assert Text(b)[|Text(b)| - 1] == ':';
      assert b.cost == Text(b)[..|Text(b)| - 1];
    }
  }

  /** A ledger cell: a number of statements, or an empty cell (`None`). The
      table shows each count through `Formatting.ThousandSeparator`. */
  type Ledger = Series<Entry, Option<nat>>

  /** A filter's survivors with the ledger it has written to. */
  datatype Step = Step(rows: seq<Row>, ledger: Ledger)

  /** Real estate, finance, public administration, power supply, water and
      waste, holding companies, and a missing industry code. */
  const ExcludedIndustries: set<string> := { "L", "K", "O", "D", "E", "0", "MISSING" }

  predicate Eligible(r: Row) { r.bransje !in ExcludedIndustries }
  predicate Ineligible(r: Row) { r.bransje in ExcludedIndustries }

  /** One filter step: keep the rows satisfying `keep`, and record under `k`
      how many rows satisfy its complement `drop` (`np.sum(ind == False)`). */
  function DropWhere(rows: seq<Row>, ledger: Ledger, k: Entry, keep: Row -> bool, drop: Row -> bool): (out: Step)
    requires forall i :: 0 <= i < |rows| ==> drop(rows[i]) == !keep(rows[i])
    ensures out.rows == Filter(rows, keep)
    ensures out.ledger == Put(ledger, k, Some(|rows| - |out.rows|))
  {
    FilterSplit(rows, keep, drop);
    Step(Filter(rows, keep), Put(ledger, k, Some(CountWhere(rows, drop))))
  }

  /** `exclude_industries`: the survivors are the rows outside the excluded
      industries, in their order; the cell records how many went. */
  function ExcludeIndustries(rows: seq<Row>, ledger: Ledger): (out: Step)
    ensures out.rows == Filter(rows, Eligible)
    ensures forall r :: r in out.rows <==> r in rows && r.bransje !in ExcludedIndustries
    ensures IsSubsequence(out.rows, rows)
    ensures out.ledger == Put(ledger, Industries, Some(|rows| - |out.rows|))
  {
    FilterIsSubsequence(rows, Eligible);
    DropWhere(rows, ledger, Industries, Eligible, Ineligible)
  }

  predicate HasPrev(r: Row) { Get(r, SalgPrev).Some? }
  predicate MissingPrev(r: Row) { Get(r, SalgPrev).None? }
  predicate HasPrevPrev(r: Row) { Get(r, SalgPrevPrev).Some? }
  predicate MissingPrevPrev(r: Row) { Get(r, SalgPrevPrev).None? }

  /** The lag columns a model with `numPrev` earlier years needs. */
  predicate LagsPresent(numPrev: int, r: Row)
  {
    ((numPrev == 1 || numPrev == 2) ==> HasPrev(r)) && (numPrev == 2 ==> HasPrevPrev(r))
  }

  function LagsMask(numPrev: int): Row -> bool
  {
    r => LagsPresent(numPrev, r)
  }

  /** `exclude_missing_prev_year`. For 1 or 2 earlier years, statements
      without last year's sales go and their number is recorded; for 2, those
      without the sales of two years back go next and are counted among the
      survivors; otherwise the lag-2 cell is empty. Any other `numPrev`
      removes nothing and writes no lag-1 cell: the source only prints an
      error. */
  function ExcludeMissingPrev(numPrev: int, rows: seq<Row>, ledger: Ledger): (out: Step)
    ensures numPrev != 1 && numPrev != 2 ==> out.rows == rows && out.ledger == Put(ledger, NoPrevPrev, None)
    ensures numPrev == 1 ==> out.rows == Filter(rows, HasPrev)
    ensures numPrev == 1 ==>
      out.ledger == Put(Put(ledger, NoPrev, Some(|rows| - |out.rows|)), NoPrevPrev, None)
    ensures numPrev == 2 ==> out.rows == Filter(Filter(rows, HasPrev), HasPrevPrev)
    ensures numPrev == 2 ==>
      var mid := Filter(rows, HasPrev);
      out.ledger == Put(Put(ledger, NoPrev, Some(|rows| - |mid|)), NoPrevPrev, Some(|mid| - |out.rows|))
  {
    if numPrev == 1 || numPrev == 2 then
      var first := DropWhere(rows, ledger, NoPrev, HasPrev, MissingPrev);
      if numPrev == 2 then DropWhere(first.rows, first.ledger, NoPrevPrev, HasPrevPrev, MissingPrevPrev)
      else Step(first.rows, Put(first.ledger, NoPrevPrev, None))
    else Step(rows, Put(ledger, NoPrevPrev, None))
  }

  /** The survivors of `ExcludeMissingPrev` are exactly the rows with the
      lags the model needs, in their order. */
  lemma ExcludeMissingPrevKeeps(numPrev: int, rows: seq<Row>, ledger: Ledger)
    ensures ExcludeMissingPrev(numPrev, rows, ledger).rows == Filter(rows, LagsMask(numPrev))
  {
    LagsOneShot(numPrev, rows);
  }

  /** The two lag filters in sequence are one filter by `LagsPresent`. */
  lemma LagsOneShot(numPrev: int, rows: seq<Row>)
    ensures numPrev == 1 ==> Filter(rows, HasPrev) == Filter(rows, LagsMask(numPrev))
    ensures numPrev == 2 ==> Filter(Filter(rows, HasPrev), HasPrevPrev) == Filter(rows, LagsMask(numPrev))
    ensures numPrev != 1 && numPrev != 2 ==> rows == Filter(rows, LagsMask(numPrev))
  {
    if numPrev == 1 {
      FilterExtensional(rows, HasPrev, LagsMask(numPrev));
    } else if numPrev == 2 {
      FilterFilter(rows, HasPrev, HasPrevPrev, LagsMask(numPrev));
    } else {
      FilterKeepsAll(rows, LagsMask(numPrev));
    }
  }

  /** Every listed column is present and strictly positive. */
  predicate AllPositive(varLog: seq<Column>, r: Row)
  {
    forall i :: 0 <= i < |varLog| ==> PositiveIn(r, varLog[i])
  }

  function PositiveMask(varLog: seq<Column>): Row -> bool
  {
    r => AllPositive(varLog, r)
  }

  function ColumnMask(c: Column): Row -> bool
  {
    r => PositiveIn(r, c)
  }

  /** The loop of `removing_zero_and_negative_ratios`: one column at a time,
      drop the statements where it is missing or not positive. */
  function DropNonPositive(varLog: seq<Column>, rows: seq<Row>): (kept: seq<Row>)
    ensures kept == Filter(rows, PositiveMask(varLog))
    decreases |varLog|
  {
    if varLog == [] then
      FilterKeepsAll(rows, PositiveMask(varLog));
      rows
    else
      var kept := DropNonPositive(varLog[1..], Filter(rows, ColumnMask(varLog[0])));
      PositiveSplit(varLog, rows);
      kept
  }

  /** Filtering on the first column and then on the rest is filtering on all. */
  lemma PositiveSplit(varLog: seq<Column>, rows: seq<Row>)
    requires varLog != []
    ensures Filter(Filter(rows, ColumnMask(varLog[0])), PositiveMask(varLog[1..])) == Filter(rows, PositiveMask(varLog))
  {
    var p, q := ColumnMask(varLog[0]), PositiveMask(varLog[1..]);
    forall i | 0 <= i < |rows|
      ensures (p(rows[i]) && q(rows[i])) == PositiveMask(varLog)(rows[i])
    {
      var r := rows[i];
      if p(r) && q(r) {
        forall j | 0 <= j < |varLog| ensures PositiveIn(r, varLog[j])
        {
          if j > 0 {
            assert varLog[j] == varLog[1..][j - 1];
          }
        }
      }
      if AllPositive(varLog, r) {
        assert PositiveIn(r, varLog[0]);
        forall j | 0 <= j < |varLog| - 1 ensures PositiveIn(r, varLog[1..][j])
        {
          assert varLog[1..][j] == varLog[j + 1];
        }
      }
    }
    FilterFilter(rows, p, q, PositiveMask(varLog));
  }

  /** `removing_zero_and_negative_ratios`: the cell records the size before
      minus the size after. */
  function RemoveNonPositive(varLog: seq<Column>, rows: seq<Row>, ledger: Ledger): (out: Step)
    ensures forall r :: r in out.rows ==> r in rows && forall c :: c in varLog ==> PositiveIn(r, c)
    ensures out.rows == Filter(rows, PositiveMask(varLog))
    ensures out.ledger == Put(ledger, NonPositive, Some(|rows| - |out.rows|))
  {
    var kept := DropNonPositive(varLog, rows);
    Step(kept, Put(ledger, NonPositive, Some(|rows| - |kept|)))
  }

  /** A statement survives the whole selection. */
  predicate Selected(numPrev: int, varLog: seq<Column>, r: Row)
  {
    Eligible(r) && LagsPresent(numPrev, r) && AllPositive(varLog, r)
  }

  function SelectedMask(numPrev: int, varLog: seq<Column>): Row -> bool
  {
    r => Selected(numPrev, varLog, r)
  }

  /** The count in a ledger cell; an empty or absent cell counts nothing. */
  function Count(ledger: Ledger, k: Entry): nat
  {
    if k in ledger.cells && ledger.cells[k].Some? then ledger.cells[k].value else 0
  }

  /** The ledger's labels top to bottom. */
  function LedgerLabels(numPrev: int, cost: string): seq<Entry>
  {
    [Initial, Industries] + (if numPrev == 1 || numPrev == 2 then [NoPrev] else [])
    + [NoPrevPrev, Blank, CostHeader(cost), NonPositive, Final]
  }

  /** `sample_selection`: the statements that survive every filter, in their
      original order, with a ledger whose removal counts and final size add
      up to the initial size. */
  function SampleSelection(rows: seq<Row>, numPrev: int, varLog: seq<Column>, cost: string): (out: Step)
    ensures out.rows == Filter(rows, SelectedMask(numPrev, varLog))
    ensures IsSubsequence(out.rows, rows)
    ensures out.ledger.labels == LedgerLabels(numPrev, cost)
    ensures Count(out.ledger, Initial) == |rows| && Count(out.ledger, Final) == |out.rows|
    ensures Count(out.ledger, Initial) ==
      Count(out.ledger, Industries) + Count(out.ledger, NoPrev) + Count(out.ledger, NoPrevPrev)
      + Count(out.ledger, NonPositive) + Count(out.ledger, Final)
    ensures Count(out.ledger, Industries) == |rows| - |Filter(rows, Eligible)|
    ensures var eligible := Filter(rows, Eligible);
      Count(out.ledger, NoPrev) ==
        (if numPrev == 1 || numPrev == 2 then |eligible| - |Filter(eligible, HasPrev)| else 0)
    ensures var withPrev := Filter(Filter(rows, Eligible), HasPrev);
      Count(out.ledger, NoPrevPrev) ==
        (if numPrev == 2 then |withPrev| - |Filter(withPrev, HasPrevPrev)| else 0)
    ensures Count(out.ledger, NonPositive) ==
      |Filter(Filter(rows, Eligible), LagsMask(numPrev))| - |out.rows|
    ensures NoPrevPrev in out.ledger.cells && (out.ledger.cells[NoPrevPrev].None? <==> numPrev != 2)
    ensures Blank in out.ledger.cells && out.ledger.cells[Blank].None?
    ensures CostHeader(cost) in out.ledger.cells && out.ledger.cells[CostHeader(cost)].None?
  {
    var s1 := ExcludeIndustries(rows, Put(Empty(), Initial, Some(|rows|)));
    var s2 := ExcludeMissingPrev(numPrev, s1.rows, s1.ledger);
    var l3 := Put(Put(s2.ledger, Blank, None), CostHeader(cost), None);
    var s4 := RemoveNonPositive(varLog, s2.rows, l3);
    var out := Step(s4.rows, Put(s4.ledger, Final, Some(|s4.rows|)));
    SelectionRows(rows, numPrev, varLog, s1, s2, s4.rows);
    var mid := if numPrev == 2 then Filter(s1.rows, HasPrev) else s2.rows;
    LagStage(rows, numPrev, s1, s2, mid);
    SelectionLedger(rows, numPrev, cost, s1, s2, mid, l3, s4, out.ledger);
    StageDrops(rows, numPrev, s1, s2, mid, s4.rows, out.ledger);
    out
  }

  /** The survivors of the three filters, in order. */
  lemma SelectionRows(rows: seq<Row>, numPrev: int, varLog: seq<Column>, s1: Step, s2: Step, kept: seq<Row>)
    requires s1.rows == Filter(rows, Eligible)
    requires s2 == ExcludeMissingPrev(numPrev, s1.rows, s1.ledger)
    requires kept == Filter(s2.rows, PositiveMask(varLog))
    ensures kept == Filter(rows, SelectedMask(numPrev, varLog))
    ensures IsSubsequence(kept, rows)
  {
    ExcludeMissingPrevKeeps(numPrev, s1.rows, s1.ledger);
    SelectionOneShot(rows, numPrev, varLog);
    FilterIsSubsequence(rows, SelectedMask(numPrev, varLog));
  }

  /** The ledger's removal counts, restated as the sizes of the filters
      that produce them. */
  lemma StageDrops(rows: seq<Row>, numPrev: int, s1: Step, s2: Step, mid: seq<Row>, kept: seq<Row>, l5: Ledger)
    requires s1.rows == Filter(rows, Eligible)
    requires s2 == ExcludeMissingPrev(numPrev, s1.rows, s1.ledger)
    requires mid == if numPrev == 2 then Filter(s1.rows, HasPrev) else s2.rows
    requires Count(l5, Industries) == |rows| - |s1.rows|
    requires Count(l5, NoPrev) == (if numPrev == 1 || numPrev == 2 then |s1.rows| - |mid| else 0)
    requires Count(l5, NoPrevPrev) == (if numPrev == 2 then |mid| - |s2.rows| else 0)
    requires Count(l5, NonPositive) == |s2.rows| - |kept|
    ensures Count(l5, Industries) == |rows| - |Filter(rows, Eligible)|
    ensures var eligible := Filter(rows, Eligible);
      Count(l5, NoPrev) ==
        (if numPrev == 1 || numPrev == 2 then |eligible| - |Filter(eligible, HasPrev)| else 0)
    ensures var withPrev := Filter(Filter(rows, Eligible), HasPrev);
      Count(l5, NoPrevPrev) ==
        (if numPrev == 2 then |withPrev| - |Filter(withPrev, HasPrevPrev)| else 0)
    ensures Count(l5, NonPositive) == |Filter(Filter(rows, Eligible), LagsMask(numPrev))| - |kept|
  {
    ExcludeMissingPrevKeeps(numPrev, s1.rows, s1.ledger);
  }

  /** The three filters in sequence are one filter by `Selected`. */
  lemma SelectionOneShot(rows: seq<Row>, numPrev: int, varLog: seq<Column>)
    ensures Filter(Filter(Filter(rows, Eligible), LagsMask(numPrev)), PositiveMask(varLog))
         == Filter(rows, SelectedMask(numPrev, varLog))
  {
    var l := LagsMask(numPrev);
    var el := (x: Row) => Eligible(x) && l(x);
    FilterFilter(rows, Eligible, l, el);
    FilterFilter(rows, el, PositiveMask(varLog), SelectedMask(numPrev, varLog));
  }

  /** The ledger `SampleSelection` writes: its labels in order, the counts
      in its cells, and their sum. */
  lemma SelectionLedger(rows: seq<Row>, numPrev: int, cost: string,
                        s1: Step, s2: Step, mid: seq<Row>, l3: Ledger, s4: Step, l5: Ledger)
    requires |s2.rows| <= |mid| <= |s1.rows| <= |rows|
    requires numPrev != 2 ==> |mid| == |s2.rows|
    requires numPrev != 1 && numPrev != 2 ==> |s1.rows| == |mid|
    requires s2.ledger == AfterLags(numPrev, |rows|, |rows| - |s1.rows|, |s1.rows| - |mid|,
      if numPrev == 2 then Some(|mid| - |s2.rows|) else None)
    requires l3 == Put(Put(s2.ledger, Blank, None), CostHeader(cost), None)
    requires |s4.rows| <= |s2.rows|
    requires s4.ledger == Put(l3, NonPositive, Some(|s2.rows| - |s4.rows|))
    requires l5 == Put(s4.ledger, Final, Some(|s4.rows|))
    ensures l5.labels == LedgerLabels(numPrev, cost)
    ensures Count(l5, Initial) == |rows| && Count(l5, Final) == |s4.rows|
    ensures Count(l5, Initial) ==
      Count(l5, Industries) + Count(l5, NoPrev) + Count(l5, NoPrevPrev)
      + Count(l5, NonPositive) + Count(l5, Final)
    ensures Count(l5, Industries) == |rows| - |s1.rows|
    ensures Count(l5, NoPrev) == (if numPrev == 1 || numPrev == 2 then |s1.rows| - |mid| else 0)
    ensures Count(l5, NoPrevPrev) == (if numPrev == 2 then |mid| - |s2.rows| else 0)
    ensures Count(l5, NonPositive) == |s2.rows| - |s4.rows|
    ensures NoPrevPrev in l5.cells && (l5.cells[NoPrevPrev].None? <==> numPrev != 2)
    ensures Blank in l5.cells && l5.cells[Blank].None?
    ensures CostHeader(cost) in l5.cells && l5.cells[CostHeader(cost)].None?
  {
    SelectionCounts(numPrev, cost, |rows|, |s1.rows|, |mid|, |s2.rows|, |s4.rows|, s2.ledger, l3, s4.ledger, l5);
  }

  /** The ledger after the lag filters, and the sizes along the way. */
  lemma LagStage(rows: seq<Row>, numPrev: int, s1: Step, s2: Step, mid: seq<Row>)
    requires s1 == ExcludeIndustries(rows, Put(Empty(), Initial, Some(|rows|)))
    requires s2 == ExcludeMissingPrev(numPrev, s1.rows, s1.ledger)
    requires mid == if numPrev == 2 then Filter(s1.rows, HasPrev) else s2.rows
    ensures |s2.rows| <= |mid| <= |s1.rows| <= |rows|
    ensures numPrev != 2 ==> |mid| == |s2.rows|
    ensures numPrev != 1 && numPrev != 2 ==> |s1.rows| == |mid|
    ensures s2.ledger == AfterLags(numPrev, |rows|, |rows| - |s1.rows|, |s1.rows| - |mid|,
      if numPrev == 2 then Some(|mid| - |s2.rows|) else None)
  {
    IndustryCells(rows, s1);
    var lagTwo: Option<nat> := if numPrev == 2 then Some(|mid| - |s2.rows|) else None;
    LagCells(numPrev, |rows|, s1, s2, mid, lagTwo);
  }

  lemma SelectionCounts(numPrev: int, cost: string, n: nat, r1: nat, m: nat, r2: nat, r4: nat,
                        l2: Ledger, l3: Ledger, l4: Ledger, l5: Ledger)
    requires r4 <= r2 <= m <= r1 <= n
    requires numPrev != 2 ==> m == r2
    requires numPrev != 1 && numPrev != 2 ==> r1 == m
    requires l2 == AfterLags(numPrev, n, n - r1, r1 - m, if numPrev == 2 then Some(m - r2) else None)
    requires l3 == Put(Put(l2, Blank, None), CostHeader(cost), None)
    requires l4 == Put(l3, NonPositive, Some(r2 - r4))
    requires l5 == Put(l4, Final, Some(r4))
    ensures l5.labels == LedgerLabels(numPrev, cost)
    ensures Count(l5, Initial) == n && Count(l5, Final) == r4
    ensures Count(l5, Initial) ==
        Count(l5, Industries) + Count(l5, NoPrev) + Count(l5, NoPrevPrev)
        + Count(l5, NonPositive) + Count(l5, Final)
    ensures Count(l5, Industries) == n - r1 && Count(l5, NonPositive) == r2 - r4
    ensures Count(l5, NoPrev) == (if numPrev == 1 || numPrev == 2 then r1 - m else 0)
    ensures Count(l5, NoPrevPrev) == (if numPrev == 2 then m - r2 else 0)
    ensures NoPrevPrev in l5.cells && (l5.cells[NoPrevPrev].None? <==> numPrev != 2)
    ensures Blank in l5.cells && l5.cells[Blank].None?
    ensures CostHeader(cost) in l5.cells && l5.cells[CostHeader(cost)].None?
  {
    var lagTwo: Option<nat> := if numPrev == 2 then Some(m - r2) else None;
    LaterLabels(numPrev, cost, n, n - r1, r1 - m, lagTwo, r2 - r4, r4, l2, l3, l4, l5);
    LaterCells(numPrev, cost, n, n - r1, r1 - m, lagTwo, r2 - r4, r4, l2, l3, l4, l5);
  }

  /** The ledger after the industry filter. */
  function Opening(initial: nat, industries: nat): Ledger
  {
    Series([Initial, Industries], map[Initial := Some(initial), Industries := Some(industries)])
  }

  /** The ledger after the lag filters. */
  function AfterLags(numPrev: int, initial: nat, industries: nat, noPrev: nat, noPrevPrev: Option<nat>): Ledger
  {
    var o := Opening(initial, industries);
    if numPrev == 1 || numPrev == 2 then
      Series(o.labels + [NoPrev, NoPrevPrev], o.cells[NoPrev := Some(noPrev)][NoPrevPrev := noPrevPrev])
    else
      Series(o.labels + [NoPrevPrev], o.cells[NoPrevPrev := noPrevPrev])
  }

  /** The first two cells, each under a new label. */
  lemma IndustryCells(rows: seq<Row>, s1: Step)
    requires s1 == ExcludeIndustries(rows, Put(Empty(), Initial, Some(|rows|)))
    ensures |s1.rows| <= |rows|
    ensures s1.ledger == Opening(|rows|, |rows| - |s1.rows|)
  {
  }

  /** The lag cells land below them. */
  lemma LagCells(numPrev: int, n: nat, s1: Step, s2: Step, mid: seq<Row>, lagTwo: Option<nat>)
    requires |s1.rows| <= n
    requires s1.ledger == Opening(n, n - |s1.rows|)
    requires s2 == ExcludeMissingPrev(numPrev, s1.rows, s1.ledger)
    requires mid == if numPrev == 2 then Filter(s1.rows, HasPrev) else s2.rows
    requires lagTwo == if numPrev == 2 then Some(|mid| - |s2.rows|) else None
    ensures |s2.rows| <= |mid| <= |s1.rows|
    ensures s2.ledger == AfterLags(numPrev, n, n - |s1.rows|, |s1.rows| - |mid|, lagTwo)
  {
  }

  /** The remaining labels land below the lag labels. */
  lemma LaterLabels(numPrev: int, cost: string, initial: nat, industries: nat, noPrev: nat,
                    noPrevPrev: Option<nat>, nonPositive: nat, final: nat,
                    l2: Ledger, l3: Ledger, l4: Ledger, l5: Ledger)
    requires l2 == AfterLags(numPrev, initial, industries, noPrev, noPrevPrev)
    requires l3 == Put(Put(l2, Blank, None), CostHeader(cost), None)
    requires l4 == Put(l3, NonPositive, Some(nonPositive))
    requires l5 == Put(l4, Final, Some(final))
    ensures l5.labels == LedgerLabels(numPrev, cost)
  {
    var l3a := Put(l2, Blank, None);
    assert Blank !in l2.cells;
    assert CostHeader(cost) !in l3a.cells;
    assert NonPositive !in l3.cells;
    assert Final !in l4.cells;
  }

  /** Every cell reads back what was written to it. */
  lemma LaterCells(numPrev: int, cost: string, initial: nat, industries: nat, noPrev: nat,
                   noPrevPrev: Option<nat>, nonPositive: nat, final: nat,
                   l2: Ledger, l3: Ledger, l4: Ledger, l5: Ledger)
    requires l2 == AfterLags(numPrev, initial, industries, noPrev, noPrevPrev)
    requires l3 == Put(Put(l2, Blank, None), CostHeader(cost), None)
    requires l4 == Put(l3, NonPositive, Some(nonPositive))
    requires l5 == Put(l4, Final, Some(final))
    ensures Count(l5, Initial) == initial && Count(l5, Industries) == industries
    ensures Count(l5, NoPrev) == (if numPrev == 1 || numPrev == 2 then noPrev else 0)
    ensures Count(l5, NoPrevPrev) == (if noPrevPrev.Some? then noPrevPrev.value else 0)
    ensures Count(l5, NonPositive) == nonPositive && Count(l5, Final) == final
    ensures NoPrevPrev in l5.cells && l5.cells[NoPrevPrev] == noPrevPrev
    ensures Blank in l5.cells && l5.cells[Blank].None?
    ensures CostHeader(cost) in l5.cells && l5.cells[CostHeader(cost)].None?
  {
  }
}
