/** The accounting variables derived from each raw statement. A missing
    reported item means the item was zero (`fillna(0)`); inventories and
    receivables first fall back from one reported item to another. */
module Derivation {
  import opened Common
  import opened Panel

  /** `fillna(0)` on one cell. */
  function OrZero(v: Option<real>): real
  {
    match v
    case Some(x) => x
    case None => 0.0
  }

  /** The first value when present, else the second (`s.loc[isnull(s)] = t`). */
  function Coalesce(a: Option<real>, b: Option<real>): (r: Option<real>)
    ensures r.None? <==> a.None? && b.None?
  {
    if a.Some? then a else b
  }

  /** Columns written by the derivation step. */
  const DerivedColumns: set<Column> := {
    Salg, Driftskostnader, Varekostnader, Eiendeler, Lonnskostnader,
    Varelager, Kundefordringer, Leverandorgjeld, SumEiendelerEur, SumOmsetningEur }

  /** Source columns whose missing value counts exactly as a reported zero. */
  const ZeroFilledSources: set<Column> := {
    Salgsinntekt, SumInntekter, Driftsresultat, Varekostnad, EndringBeholdning,
    SumEiendeler, Loennskostnad, SumVarer, BiologiskeEiendeler, Kundefordringer,
    Leverandoergjeld, SumEiendelerEur, SumOmsetningEur }

  /** The value the derivation step writes into derived column `k`. */
  function Formula(r: Row, k: Column): real
  {
    match k
    case Salg => OrZero(Get(r, Salgsinntekt))
    case Driftskostnader => OrZero(Get(r, SumInntekter)) - OrZero(Get(r, Driftsresultat))
    case Varekostnader => OrZero(Get(r, Varekostnad)) + OrZero(Get(r, EndringBeholdning))
    case Eiendeler => OrZero(Get(r, SumEiendeler))
    case Lonnskostnader => OrZero(Get(r, Loennskostnad))
    case Varelager => OrZero(Coalesce(Get(r, Varer), Get(r, SumVarer))) + OrZero(Get(r, BiologiskeEiendeler))
    case Kundefordringer => OrZero(Coalesce(Get(r, SumFordringer), Get(r, Kundefordringer)))
    case Leverandorgjeld => OrZero(Get(r, Leverandoergjeld))
    case SumEiendelerEur => OrZero(Get(r, SumEiendelerEur))
    case SumOmsetningEur => OrZero(Get(r, SumOmsetningEur))
    case _ => 0.0
  }

  /** The derivation step on one statement: every derived column is filled
      (never missing) with its formula, every other column is left as it was. */
  function DeriveRow(r: Row): (d: Row)
    ensures SameKeys(d, r)
    ensures forall k :: k in DerivedColumns ==> Get(d, k) == Some(Formula(r, k))
    ensures forall c :: c !in DerivedColumns ==> Get(d, c) == Get(r, c)
  {
    var fields := r.fields
      [Salg := Some(Formula(r, Salg))]
      [Driftskostnader := Some(Formula(r, Driftskostnader))]
      [Varekostnader := Some(Formula(r, Varekostnader))]
      [Eiendeler := Some(Formula(r, Eiendeler))]
      [Lonnskostnader := Some(Formula(r, Lonnskostnader))]
      [Varelager := Some(Formula(r, Varelager))]
      [Kundefordringer := Some(Formula(r, Kundefordringer))]
      [Leverandorgjeld := Some(Formula(r, Leverandorgjeld))]
      [SumEiendelerEur := Some(Formula(r, SumEiendelerEur))]
      [SumOmsetningEur := Some(Formula(r, SumOmsetningEur))];
    Row(r.orgnr, r.regnaar, r.bransje, fields)
  }

  /** The statement with column `c` reported as an explicit zero. */
  function WithZero(r: Row, c: Column): Row
  {
    r.(fields := r.fields[c := Some(0.0)])
  }

  /** Missing-as-zero: for every source column read only through `fillna(0)`
      (directly or as a fallback), a missing cell derives exactly what a
      reported zero derives. */
  lemma MissingIsZero(r: Row, c: Column, k: Column)
    requires c in ZeroFilledSources && Get(r, c).None?
    requires k in DerivedColumns
    ensures Formula(WithZero(r, c), k) == Formula(r, k)
  {
  }

  /** The rule does not extend to the primary item of a fallback: a missing
      `Varer` lets `Sum varer` through, a reported zero does not. */
  lemma MissingPrimaryIsNotZero()
    ensures var r := Row(1, 2010, "C", map[SumVarer := Some(5.0)]);
            Formula(r, Varelager) == 5.0 && Formula(WithZero(r, Varer), Varelager) == 0.0
  {
  }

  /** Inventories: `Varer`, else `Sum varer`, else zero, plus biological assets. */
  lemma InventoryFallback(r: Row)
    ensures Get(r, Varer).Some? ==>
      Formula(r, Varelager) == Get(r, Varer).value + OrZero(Get(r, BiologiskeEiendeler))
    ensures Get(r, Varer).None? ==>
      Formula(r, Varelager) == OrZero(Get(r, SumVarer)) + OrZero(Get(r, BiologiskeEiendeler))
  {
  }

  /** Receivables: `Sum fordringer`, else the reported `Kundefordringer`, else zero. */
  lemma ReceivablesFallback(r: Row)
    ensures Get(r, SumFordringer).Some? ==> Formula(r, Kundefordringer) == Get(r, SumFordringer).value
    ensures Get(r, SumFordringer).None? ==> Formula(r, Kundefordringer) == OrZero(Get(r, Kundefordringer))
  {
  }
}
