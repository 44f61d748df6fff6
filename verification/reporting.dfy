/** The results table: one column per model, holding the formatted
    coefficients and the trailer rows (observations, R², fixed-effect flags),
    and the reordering that moves the trailer rows to the bottom. */
module Reporting {
  import opened Common
  import opened Seqs
  import opened Series
  import opened Strings
  import opened Formatting

  /** `list.index(x)`: where `x` first occurs. */
  function FirstIndex<T(==)>(s: seq<T>, x: T): (i: nat)
    requires x in s
    ensures i < |s| && s[i] == x && x !in s[..i]
  {
    if s[0] == x then 0
    else
      var i := FirstIndex(s[1..], x) + 1;
      assert s[..i] == [s[0]] + s[1..][..i - 1];
      i
  }

  /** The first occurrence is the only occurrence with none before it. */
  lemma FirstIndexUnique<T>(s: seq<T>, x: T, i: nat)
    requires i < |s| && s[i] == x && x !in s[..i]
    ensures FirstIndex(s, x) == i
  {
  }

  /** `list.remove(x)`: the first occurrence of `x` deleted (nothing when absent). */
  function RemoveFirst<T(==)>(s: seq<T>, x: T): (r: seq<T>)
    ensures x !in s ==> r == s
    ensures x in s ==> |r| == |s| - 1 && multiset(r) == multiset(s) - multiset{x}
    ensures x in s ==> forall k :: 0 <= k < FirstIndex(s, x) ==> r[k] == s[k]
    ensures x in s ==> forall k :: FirstIndex(s, x) <= k < |r| ==> r[k] == s[k + 1]
  {
    if x !in s then s
    else
      var i := FirstIndex(s, x);
      DeleteAt(s, i, s[..i] + s[i + 1..]);
      s[..i] + s[i + 1..]
  }

  /** Deleting position `i`: one occurrence fewer, the rest in place. */
  lemma DeleteAt<T>(s: seq<T>, i: nat, r: seq<T>)
    requires i < |s| && r == s[..i] + s[i + 1..]
    ensures |r| == |s| - 1
    ensures multiset(r) == multiset(s) - multiset{s[i]}
    ensures forall k :: 0 <= k < i ==> r[k] == s[k]
    ensures forall k :: i <= k < |r| ==> r[k] == s[k + 1]
  {
    assert s == s[..i] + [s[i]] + s[i + 1..];
  }

  /** Removing from a prefix leaves what follows it in place. */
  lemma RemoveFirstAppend<T>(p: seq<T>, q: seq<T>, x: T)
    requires x in p
    ensures RemoveFirst(p + q, x) == RemoveFirst(p, x) + q
  {
    var i := FirstIndex(p, x);
    assert (p + q)[..i] == p[..i];
    FirstIndexUnique(p + q, x, i);
    assert (p + q)[i + 1..] == p[i + 1..] + q;
  }

  /** Shifting `row` would leave the index as it is: from its first
      occurrence down, every row is `row`. */
  predicate Settled<T(==)>(row: T, index: seq<T>)
  {
    row in index && forall k :: FirstIndex(index, row) <= k < |index| ==> index[k] == row
  }

  /** `shift_row_to_bottom`: the row labelled `row` moved to the bottom of
      the index, the other rows keeping their order. `list.remove` raises on a
      missing row, and `reindex` raises on an index with a repeated label
      unless the new order is the old one. */
  function ShiftRowToBottom<T(==)>(row: T, index: seq<T>): (r: Option<seq<T>>)
    ensures r.None? <==> row !in index || (!AllDifferent(index) && !Settled(row, index))
    ensures r.Some? ==> r.value == index[..FirstIndex(index, row)] + index[FirstIndex(index, row) + 1..] + [row]
    ensures r.Some? ==> |r.value| == |index| && r.value[|index| - 1] == row
    ensures r.Some? && !AllDifferent(index) ==> r.value == index
  {
    if row !in index then None
    else
      var moved := RemoveFirst(index, row) + [row];
      SettledIff(row, index);
      if !AllDifferent(index) && moved != index then None else Some(moved)
  }

  /** The shift leaves the index as it is exactly when the row is settled. */
  lemma SettledIff<T>(row: T, index: seq<T>)
    requires row in index
    ensures RemoveFirst(index, row) + [row] == index <==> Settled(row, index)
  {
    var i := FirstIndex(index, row);
    var moved := RemoveFirst(index, row) + [row];
    if moved == index {
      forall k | i <= k < |index| ensures index[k] == row
      {
        SettledStep(index, moved, row, i, k);
      }
    }
    if Settled(row, index) {
      forall k | 0 <= k < |index| ensures moved[k] == index[k]
      {
        if k >= i && k < |index| - 1 {
          assert moved[k] == index[k + 1];
        }
      }
    }
  }

  /** If the shifted index equals the index, every row from the first
      occurrence of `row` down is `row` (by induction from the bottom). */
  lemma {:induction false} SettledStep<T>(index: seq<T>, moved: seq<T>, row: T, i: nat, k: nat)
    requires row in index && i == FirstIndex(index, row)
    requires moved == RemoveFirst(index, row) + [row] && moved == index
    requires i <= k < |index|
    ensures index[k] == row
    decreases k - i
  {
    if k > i {
      SettledStep(index, moved, row, i, k - 1);
      assert moved[k - 1] == index[k];
    }
  }

  /** The shift only reorders: the same rows, as often as before. */
  lemma ShiftIsPermutation<T>(row: T, index: seq<T>)
    requires row in index
    ensures ShiftRowToBottom(row, index).Some? ==> multiset(ShiftRowToBottom(row, index).value) == multiset(index)
  {
    var r := RemoveFirst(index, row);
    assert multiset(r + [row]) == multiset(r) + multiset{row};
  }

  /** Shifting a row that is already alone at the bottom changes nothing. */
  lemma ShiftAtBottom<T>(row: T, p: seq<T>)
    requires row !in p
    ensures ShiftRowToBottom(row, p + [row]) == Some(p + [row])
  {
    var s := p + [row];
    assert s[..|p|] == p;
    FirstIndexUnique(s, row, |p|);
    assert s[|p| + 1..] == [];
    assert RemoveFirst(s, row) == p;
  }

  /** Removing `x` keeps every other value. */
  lemma RemoveFirstKeeps<T>(s: seq<T>, x: T, y: T)
    requires x != y
    ensures y in RemoveFirst(s, x) <==> y in s
  {
    if x in s {
      var i := FirstIndex(s, x);
      assert s == s[..i] + [x] + s[i + 1..];
    }
  }

  /** `s` ends with `t`. */
  predicate EndsWith<T(==)>(s: seq<T>, t: seq<T>)
  {
    |t| <= |s| && s[|s| - |t|..] == t
  }

  /** No element twice. */
  predicate AllDifferent<T(==)>(s: seq<T>)
  {
    forall i, j :: 0 <= i < j < |s| ==> s[i] != s[j]
  }

  /** The shifts of `labels`, one after another, stopping at the first that
      raises. On an index without repeats that is the first missing label; on
      an index with a repeated label every shift must leave it as it is. */
  function ShiftAll<T(==,!new)>(labels: seq<T>, index: seq<T>): (r: Option<seq<T>>)
    ensures AllDifferent(index) ==> (r.None? <==> exists t :: t in labels && t !in index)
    ensures !AllDifferent(index) ==> (r.None? <==> exists t :: t in labels && !Settled(t, index))
    ensures r.Some? ==> multiset(r.value) == multiset(index)
    ensures r.Some? && !AllDifferent(index) ==> r.value == index
  {
    if labels == [] then Some(index)
    else
      match ShiftRowToBottom(labels[0], index)
      case None => assert labels[0] in labels; None
      case Some(next) =>
        var r := ShiftAll(labels[1..], next);
        ShiftAllStep(labels, index, next, r);
        r
  }

  /** One step of `ShiftAll`: what holds of the later shifts on the shifted
      index holds of all of them on the index. */
  lemma ShiftAllStep<T>(labels: seq<T>, index: seq<T>, next: seq<T>, r: Option<seq<T>>)
    requires labels != [] && ShiftRowToBottom(labels[0], index) == Some(next)
    requires AllDifferent(next) ==> (r.None? <==> exists t :: t in labels[1..] && t !in next)
    requires !AllDifferent(next) ==> (r.None? <==> exists t :: t in labels[1..] && !Settled(t, next))
    requires r.Some? ==> multiset(r.value) == multiset(next)
    requires r.Some? && !AllDifferent(next) ==> r.value == next
    ensures AllDifferent(index) ==> (r.None? <==> exists t :: t in labels && t !in index)
    ensures !AllDifferent(index) ==> (r.None? <==> exists t :: t in labels && !Settled(t, index))
    ensures r.Some? ==> multiset(r.value) == multiset(index)
    ensures r.Some? && !AllDifferent(index) ==> r.value == index
  {
    if AllDifferent(index) {
      ShiftIsPermutation(labels[0], index);
      ShiftKeepsDistinct(labels[0], index);
      StepDistinct(labels, index, next, r);
    } else {
      assert next == index;
      StepRepeated(labels, index, r);
    }
  }

  /** `ShiftAllStep` on an index without repeats. */
  lemma StepDistinct<T>(labels: seq<T>, index: seq<T>, next: seq<T>, r: Option<seq<T>>)
    requires labels != [] && labels[0] in index
    requires AllDifferent(next) && multiset(next) == multiset(index)
    requires r.None? <==> exists t :: t in labels[1..] && t !in next
    requires r.Some? ==> multiset(r.value) == multiset(next)
    ensures r.None? <==> exists t :: t in labels && t !in index
    ensures r.Some? ==> multiset(r.value) == multiset(index)
  {
    SameMembers(next, index);
    assert labels == [labels[0]] + labels[1..];
  }

  /** `ShiftAllStep` on an index with a repeated label, where the first
      shift changed nothing. */
  lemma StepRepeated<T>(labels: seq<T>, index: seq<T>, r: Option<seq<T>>)
    requires labels != [] && Settled(labels[0], index)
    requires r.None? <==> exists t :: t in labels[1..] && !Settled(t, index)
    requires r.Some? ==> r.value == index
    ensures r.None? <==> exists t :: t in labels && !Settled(t, index)
    ensures r.Some? ==> multiset(r.value) == multiset(index) && r.value == index
  {
    assert labels == [labels[0]] + labels[1..];
  }

  /** Sequences with the same multiset have the same members. */
  lemma SameMembers<T>(a: seq<T>, b: seq<T>)
    requires multiset(a) == multiset(b)
    ensures forall x :: x in a <==> x in b
  {
    assert forall x :: x in a <==> x in multiset(a);
    assert forall x :: x in b <==> x in multiset(b);
  }

  /** Shifting a row of an index without repeats leaves it without repeats. */
  lemma ShiftKeepsDistinct<T>(row: T, index: seq<T>)
    requires row in index
    ensures AllDifferent(index) ==> AllDifferent(RemoveFirst(index, row) + [row])
  {
    if !AllDifferent(index) { return; }
    var i := FirstIndex(index, row);
    var moved := RemoveFirst(index, row) + [row];
    forall a, b | 0 <= a < b < |moved| ensures moved[a] != moved[b]
    {
      var fa := if a < i then a else if a < |index| - 1 then a + 1 else i;
      var fb := if b < i then b else if b < |index| - 1 then b + 1 else i;
      assert moved[a] == index[fa] && moved[b] == index[fb];
    }
  }

  /** Shifting distinct labels, none of them among the rows shifted before
      (`done`), appends them at the bottom after those rows, whatever came
      before, on an index without repeats. */
  lemma {:induction false} ShiftAllAppends<T(!new)>(labels: seq<T>, p: seq<T>, done: seq<T>)
    requires AllDifferent(labels) && AllDifferent(p + done)
    requires forall y :: y in labels ==> y !in done && y in p
    ensures ShiftAll(labels, p + done).Some?
    ensures EndsWith(ShiftAll(labels, p + done).value, done + labels)
    decreases |labels|
  {
    if labels == [] {
      assert done + labels == done;
    } else {
      var x, rest := labels[0], labels[1..];
      ShiftFirst(labels, p, done);
      RestStillPending(labels, p, done);
      ShiftAllAppends(rest, RemoveFirst(p, x), done + [x]);
      AppendHead(done, labels);
    }
  }

  lemma AppendHead<T>(done: seq<T>, labels: seq<T>)
    requires labels != []
    ensures done + [labels[0]] + labels[1..] == done + labels
  {
    assert labels == [labels[0]] + labels[1..];
  }

  /** The first shift moves its row behind the rows shifted before. */
  lemma ShiftFirst<T(!new)>(labels: seq<T>, p: seq<T>, done: seq<T>)
    requires labels != [] && labels[0] in p && AllDifferent(p + done)
    ensures ShiftAll(labels, p + done) == ShiftAll(labels[1..], RemoveFirst(p, labels[0]) + (done + [labels[0]]))
    ensures AllDifferent(RemoveFirst(p, labels[0]) + (done + [labels[0]]))
  {
    var x := labels[0];
    RemoveFirstAppend(p, done, x);
    ShiftKeepsDistinct(x, p + done);
    assert RemoveFirst(p + done, x) + [x] == RemoveFirst(p, x) + (done + [x]);
    assert ShiftRowToBottom(x, p + done) == Some(RemoveFirst(p, x) + (done + [x])) by {
      assert RemoveFirst(p, x) + done + [x] == RemoveFirst(p, x) + (done + [x]);
    }
  }

  /** After the first shift the remaining labels still qualify. */
  lemma RestStillPending<T>(labels: seq<T>, p: seq<T>, done: seq<T>)
    requires labels != [] && AllDifferent(labels)
    requires forall y :: y in labels ==> y !in done && y in p
    ensures AllDifferent(labels[1..])
    ensures forall y :: y in labels[1..] ==> y !in done + [labels[0]] && y in RemoveFirst(p, labels[0])
  {
    var x, rest := labels[0], labels[1..];
    forall y | y in rest
      ensures y !in done + [x] && y in RemoveFirst(p, x)
    {
      var i :| 0 <= i < |rest| && rest[i] == y;
      assert y == labels[i + 1];
      RemoveFirstKeeps(p, x, y);
    }
  }

  /** The rows moved to the bottom of the results table, in this order. */
  const Trailer: seq<string> := ["Konstant", "År FE", "Bransje FE", "R2", "Antall observasjoner"]

  /** The five shifts at the end of the analysis. */
  function ReorderTrailer(index: seq<string>): (r: Option<seq<string>>)
  {
    ShiftAll(Trailer, index)
  }

  /** The reordering raises exactly when a trailer row is missing or the
      index repeats a label; otherwise it keeps the rows and ends with the
      trailer in order, whatever the order the rows were inserted in. */
  lemma ReorderTrailerEnds(index: seq<string>)
    ensures ReorderTrailer(index).None? <==> (exists t :: t in Trailer && t !in index) || !AllDifferent(index)
    ensures ReorderTrailer(index).Some? ==>
      multiset(ReorderTrailer(index).value) == multiset(index)
      && EndsWith(ReorderTrailer(index).value, Trailer)
  {
    if !AllDifferent(index) {
      assert !Settled(Trailer[0], index) || !Settled(Trailer[3], index);
    } else if forall t :: t in Trailer ==> t in index {
      assert index + [] == index;
      ShiftAllAppends(Trailer, index, []);
      assert [] + Trailer == Trailer;
    }
  }

  /** One estimated coefficient: the rounded value as `str` prints it, and its p-value. */
  datatype Estimate = Estimate(coef: string, pvalue: real)

  /** What the regression provides to the table: an estimate per regressor
      (the intercept under `Intercept`) and the rounded R² as a string. */
  datatype Fit = Fit(estimates: map<string, Estimate>, rsquared: string)

  /** Both fixed effects are always on. */
  const FIXED_EFFECTS_YEAR := true
  const FIXED_EFFECTS_INDUSTRY := true

  function YesNo(b: bool): string { if b then "Ja" else "Nei" }

  /** Every estimate is rounded to at most the shown number of decimals. */
  predicate Rounded(fit: Fit)
  {
    forall k :: k in fit.estimates ==> FracLen(fit.estimates[k].coef) <= NUM_DECIMALS
  }

  /** The row a coefficient is stored under: the intercept as `Konstant`. */
  function RowLabel(name: string): string
  {
    if name == "Intercept" then "Konstant" else name
  }

  /** `['Intercept'] + var[1:]`: the coefficients reported for the regression
      of `var[0]` on the rest. */
  function Reported(vars: seq<string>): (names: seq<string>)
    requires vars != []
    ensures |names| == |vars| && names[0] == "Intercept"
    ensures forall i :: 1 <= i < |vars| ==> names[i] == vars[i]
  {
    ["Intercept"] + vars[1..]
  }

  /** The text of one coefficient cell. */
  function CoefText(fit: Fit, name: string): string
    requires Rounded(fit) && name in fit.estimates
  {
    FormatCoefficient(fit.estimates[name].coef, fit.estimates[name].pvalue)
  }

  /** Every name has an estimate. */
  predicate Estimated(fit: Fit, names: seq<string>)
  {
    forall i :: 0 <= i < |names| ==> names[i] in fit.estimates
  }

  /** The test for a name the regression has no estimate for. */
  function Unestimated(fit: Fit): string -> bool
  {
    n => n !in fit.estimates
  }

  /** The coefficient cells, one per reported name. */
  function CoefficientCells(names: seq<string>, fit: Fit): (cells: seq<(string, string)>)
    requires Rounded(fit) && Estimated(fit, names)
    ensures |cells| == |names|
    ensures forall i :: 0 <= i < |names| ==> cells[i] == (RowLabel(names[i]), CoefText(fit, names[i]))
  {
    seq(|names|, i requires 0 <= i < |names| => (RowLabel(names[i]), CoefText(fit, names[i])))
  }

  /** The trailer cells written after the coefficients. */
  function TrailerCells(nobs: nat, fit: Fit): seq<(string, string)>
  {
    [("Antall observasjoner", ThousandSeparator(nobs)),
     ("R2", ReplaceChar(fit.rsquared, '.', ',')),
     ("År FE", YesNo(FIXED_EFFECTS_YEAR)),
     ("Bransje FE", YesNo(FIXED_EFFECTS_INDUSTRY))]
  }

  /** The labels of the trailer cells. */
  const TrailerLabels: seq<string> := ["Antall observasjoner", "R2", "År FE", "Bransje FE"]

  /** Why no column can be made: no response variable, or a reported name
      the regression has no estimate for (the first such, as `params[i]`
      fails on it). */
  datatype ReportError = NoResponse | MissingEstimate(name: string)

  /** One model's column of `regression_rrw` for the regression of `vars[0]`
      on `vars[1..]` with `nobs` observations: the coefficient cells in the
      order reported, then the trailer cells. */
  function ModelColumn(vars: seq<string>, fit: Fit, nobs: nat): (r: Result<Series<string, string>, ReportError>)
    requires Rounded(fit)
    ensures r.Err? <==> (vars == [] || "Intercept" !in fit.estimates
      || exists i :: 1 <= i < |vars| && vars[i] !in fit.estimates)
    ensures r.Err? && vars != [] ==> (r.error.MissingEstimate? && r.error.name !in fit.estimates
      && r.error.name in ["Intercept"] + vars[1..])
    ensures r.Ok? ==> forall t :: t in TrailerLabels ==> t in r.value.cells
    ensures r.Ok? ==> ("Antall observasjoner" in r.value.cells && "R2" in r.value.cells
      && "År FE" in r.value.cells && "Bransje FE" in r.value.cells)
    ensures r.Ok? ==> (r.value.cells["Antall observasjoner"] == ThousandSeparator(nobs)
      && r.value.cells["R2"] == ReplaceChar(fit.rsquared, '.', ',')
      && r.value.cells["År FE"] == "Ja" && r.value.cells["Bransje FE"] == "Ja")
  {
    if vars == [] then Err(NoResponse)
    else
      var names := Reported(vars);
      var missing := Filter(names, Unestimated(fit));
      MissingIff(vars, fit);
      if missing != [] then
        assert missing[0] in missing;
        Err(MissingEstimate(missing[0]))
      else
        TrailerWritten(PutAll(Empty(), CoefficientCells(names, fit)), nobs, fit);
        Ok(ResultsColumn(vars, fit, nobs))
  }

  /** The column itself: the coefficient cells written in order, then the trailer cells. */
  function ResultsColumn(vars: seq<string>, fit: Fit, nobs: nat): Series<string, string>
    requires Rounded(fit) && vars != [] && Estimated(fit, Reported(vars))
  {
    PutAll(PutAll(Empty(), CoefficientCells(Reported(vars), fit)), TrailerCells(nobs, fit))
  }

  /** Some reported name lacks an estimate exactly when the intercept or some
      regressor does. */
  lemma MissingIff(vars: seq<string>, fit: Fit)
    requires vars != []
    ensures Filter(Reported(vars), Unestimated(fit)) == [] <==> Estimated(fit, Reported(vars))
    ensures Estimated(fit, Reported(vars)) <==> ("Intercept" in fit.estimates
      && forall i :: 1 <= i < |vars| ==> vars[i] in fit.estimates)
  {
    var names := Reported(vars);
    if !Estimated(fit, names) {
      var i :| 0 <= i < |names| && names[i] !in fit.estimates;
      assert names[i] in Filter(names, Unestimated(fit));
    }
    if Filter(names, Unestimated(fit)) != [] {
      assert Filter(names, Unestimated(fit))[0] in Filter(names, Unestimated(fit));
    }
  }

  /** The trailer cells are the last writes to their rows. */
  lemma TrailerWritten(s: Series<string, string>, nobs: nat, fit: Fit)
    ensures var col := PutAll(s, TrailerCells(nobs, fit));
      (forall t :: t in TrailerLabels ==> t in col.cells)
      && "Antall observasjoner" in col.cells && "R2" in col.cells
      && "År FE" in col.cells && "Bransje FE" in col.cells
      && col.cells["Antall observasjoner"] == ThousandSeparator(nobs)
      && col.cells["R2"] == ReplaceChar(fit.rsquared, '.', ',')
      && col.cells["År FE"] == "Ja" && col.cells["Bransje FE"] == "Ja"
  {
    var cells := TrailerCells(nobs, fit);
    forall i | 0 <= i < |cells| ensures cells[i].0 in PutAll(s, cells).cells && PutAll(s, cells).cells[cells[i].0] == cells[i].1
    {
      PutAllUniform(s, cells, cells[i].0, cells[i].1);
    }
    assert cells[0].0 == "Antall observasjoner" && cells[1].0 == "R2";
    assert cells[2].0 == "År FE" && cells[3].0 == "Bransje FE";
  }

  /** The trailer cells leave every other row as it was. */
  lemma TrailerUntouched(s: Series<string, string>, nobs: nat, fit: Fit, row: string)
    requires row !in TrailerLabels
    ensures row in PutAll(s, TrailerCells(nobs, fit)).cells <==> row in s.cells
    ensures row in s.cells ==> PutAll(s, TrailerCells(nobs, fit)).cells[row] == s.cells[row]
  {
    var trailer := TrailerCells(nobs, fit);
    forall i | 0 <= i < |trailer| ensures trailer[i].0 != row
    {
      assert trailer[i].0 == TrailerLabels[i];
    }
    PutAllUntouched(s, trailer, row);
  }

  /** A row all of whose writes agree holds their common text. */
  lemma RowWrites(names: seq<string>, fit: Fit, row: string, src: string)
    requires Rounded(fit) && Estimated(fit, names) && src in names && RowLabel(src) == row
    requires forall i :: 0 <= i < |names| && RowLabel(names[i]) == row ==> CoefText(fit, names[i]) == CoefText(fit, src)
    ensures src in fit.estimates
    ensures row in PutAll(Empty(), CoefficientCells(names, fit)).cells
      && PutAll(Empty(), CoefficientCells(names, fit)).cells[row] == CoefText(fit, src)
  {
    var cells := CoefficientCells(names, fit);
    var j :| 0 <= j < |names| && names[j] == src;
    assert cells[j].0 == row;
    PutAllUniform(Empty(), cells, row, CoefText(fit, src));
  }

  /** A regressor whose name clashes with no other row of the column holds
      its formatted coefficient, however often it is listed. */
  lemma RegressorCell(vars: seq<string>, fit: Fit, nobs: nat, v: string)
    requires Rounded(fit) && vars != [] && Estimated(fit, Reported(vars))
    requires v in vars[1..] && v !in TrailerLabels && v != "Intercept" && v != "Konstant"
    ensures v in fit.estimates && v in ResultsColumn(vars, fit, nobs).cells
    ensures ResultsColumn(vars, fit, nobs).cells[v] == CoefText(fit, v)
  {
    var names := Reported(vars);
    var j :| 0 <= j < |vars[1..]| && vars[1..][j] == v;
    assert names[j + 1] == v;
    forall i | 0 <= i < |names| && RowLabel(names[i]) == v
      ensures CoefText(fit, names[i]) == CoefText(fit, v)
    {
      assert names[i] == v;
    }
    RowWrites(names, fit, v, v);
    TrailerUntouched(PutAll(Empty(), CoefficientCells(names, fit)), nobs, fit, v);
  }

  /** Unless a regressor is itself named `Konstant`, the `Konstant` row holds
      the intercept. */
  lemma InterceptCell(vars: seq<string>, fit: Fit, nobs: nat)
    requires Rounded(fit) && vars != [] && Estimated(fit, Reported(vars))
    requires "Konstant" !in vars[1..]
    ensures "Intercept" in fit.estimates && "Konstant" in ResultsColumn(vars, fit, nobs).cells
    ensures ResultsColumn(vars, fit, nobs).cells["Konstant"] == CoefText(fit, "Intercept")
  {
    var names := Reported(vars);
    forall i | 0 <= i < |names| && RowLabel(names[i]) == "Konstant"
      ensures names[i] == "Intercept"
    {
      if i > 0 {
        assert names[i] == vars[1..][i - 1];
      }
    }
    RowWrites(names, fit, "Konstant", "Intercept");
    TrailerUntouched(PutAll(Empty(), CoefficientCells(names, fit)), nobs, fit, "Konstant");
  }

  /** The labels of the coefficient cells: each name, the intercept as `Konstant`. */
  lemma CoefficientKeys(vars: seq<string>, fit: Fit)
    requires Rounded(fit) && vars != [] && Estimated(fit, Reported(vars))
    requires "Intercept" !in vars[1..]
    ensures Keys(CoefficientCells(Reported(vars), fit)) == ["Konstant"] + vars[1..]
  {
    var names := Reported(vars);
    var ks := Keys(CoefficientCells(names, fit));
    var regs := vars[1..];
    forall i | 1 <= i < |ks| ensures ks[i] == regs[i - 1]
    {
      assert names[i] == regs[i - 1];
    }
    ConsEqual(ks, "Konstant", regs);
  }

  /** A sequence that starts with `x` and goes on as `t` is `[x] + t`. */
  lemma ConsEqual<T>(s: seq<T>, x: T, t: seq<T>)
    requires |s| == |t| + 1 && s[0] == x
    requires forall i :: 1 <= i < |s| ==> s[i] == t[i - 1]
    ensures s == [x] + t
  {
  }

  /** With distinct regressors that clash with no other row, the column reads
      top to bottom: `Konstant`, the regressors in order, then the trailer rows. */
  lemma ModelColumnLabels(vars: seq<string>, fit: Fit, nobs: nat)
    requires Rounded(fit) && vars != [] && Estimated(fit, Reported(vars))
    requires AllDifferent(vars[1..])
    requires forall v :: v in vars[1..] ==> v !in TrailerLabels && v != "Intercept" && v != "Konstant"
    ensures ResultsColumn(vars, fit, nobs).labels == ["Konstant"] + vars[1..] + TrailerLabels
  {
    var s := PutAll(Empty(), CoefficientCells(Reported(vars), fit));
    CoefficientsFresh(vars, fit);
    TrailerAfter(s, vars[1..], nobs, fit);
  }

  /** The trailer rows land below a `Konstant` row and regressor rows that
      none of them names. */
  lemma TrailerAfter(s: Series<string, string>, regs: seq<string>, nobs: nat, fit: Fit)
    requires s.labels == ["Konstant"] + regs
    requires forall l :: l in s.cells <==> l in ["Konstant"] + regs
    requires forall v :: v in regs ==> v !in TrailerLabels
    ensures PutAll(s, TrailerCells(nobs, fit)).labels == ["Konstant"] + regs + TrailerLabels
  {
    forall t | t in TrailerLabels ensures t !in s.cells
    {
      assert t != "Konstant" && t !in regs;
    }
    TrailerFresh(s, nobs, fit);
  }

  /** Distinct coefficient rows are appended one each, in order. */
  lemma CoefficientsFresh(vars: seq<string>, fit: Fit)
    requires Rounded(fit) && vars != [] && Estimated(fit, Reported(vars))
    requires AllDifferent(vars[1..])
    requires forall v :: v in vars[1..] ==> v != "Intercept" && v != "Konstant"
    ensures PutAll(Empty(), CoefficientCells(Reported(vars), fit)).labels == ["Konstant"] + vars[1..]
    ensures forall l :: l in PutAll(Empty(), CoefficientCells(Reported(vars), fit)).cells <==> l in ["Konstant"] + vars[1..]
  {
    var coefs := CoefficientCells(Reported(vars), fit);
    var ks := Keys(coefs);
    assert ks == ["Konstant"] + vars[1..] by {
      CoefficientKeys(vars, fit);
    }
    assert AllDifferent(ks) by {
      ConsDifferent("Konstant", vars[1..]);
    }
    PutAllFresh(Empty(), coefs);
  }

  /** A new first element keeps a sequence free of repeats. */
  lemma ConsDifferent<T>(x: T, rest: seq<T>)
    requires x !in rest && AllDifferent(rest)
    ensures AllDifferent([x] + rest)
  {
    var s := [x] + rest;
    forall i, j | 0 <= i < j < |s| ensures s[i] != s[j]
    {
      assert s[j] == rest[j - 1];
      if i > 0 {
        assert s[i] == rest[i - 1];
      }
    }
  }

  /** Trailer rows not yet present are appended in their order. */
  lemma TrailerFresh(s: Series<string, string>, nobs: nat, fit: Fit)
    requires forall t :: t in TrailerLabels ==> t !in s.cells
    ensures PutAll(s, TrailerCells(nobs, fit)).labels == s.labels + TrailerLabels
  {
    var trailer := TrailerCells(nobs, fit);
    assert Keys(trailer) == TrailerLabels;
    forall i | 0 <= i < |trailer| ensures trailer[i].0 !in s.cells
    {
      assert trailer[i].0 == TrailerLabels[i];
    }
    PutAllFresh(s, trailer);
  }
}
