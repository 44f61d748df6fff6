/** The firm-year panel: one record per annual statement, keyed by firm
    (`orgnr`) and accounting year (`regnaar`), with the numeric columns in a
    map from column to a possibly missing value. */
module Panel {
  import opened Common

  /** The numeric columns the pipeline reads or writes; `Name` gives each one's
      column header. */
  datatype Column =
    // Source items of the yearly extracts.
    | Salgsinntekt | SumInntekter | Driftsresultat | Varekostnad | EndringBeholdning
    | SumEiendeler | Loennskostnad | Varer | SumVarer | BiologiskeEiendeler
    | SumFordringer | Leverandoergjeld
    // Derived items (Kundefordringer and the two EUR totals are also source items).
    | Salg | Driftskostnader | Varekostnader | Eiendeler | Lonnskostnader
    | Varelager | Kundefordringer | Leverandorgjeld | SumEiendelerEur | SumOmsetningEur
    // Nominal copies kept beside the deflated items.
    | SalgNominal | LonnskostnaderNominal | EiendelerNominal
    // Lagged items and the macro series.
    | SalgPrev | SalgPrevPrev | DriftskostnaderPrev | VarekostnaderPrev | VarelagerPrev
    | Bnp | BnpPrev

  function Name(c: Column): string
  {
    match c
    case Salgsinntekt => "Salgsinntekt"
    case SumInntekter => "Sum inntekter"
    case Driftsresultat => "Driftsresultat"
    case Varekostnad => "Varekostnad"
    case EndringBeholdning => "Endring i beholdning av varer under tilvirkning og ferdig tilvirkede varer"
    case SumEiendeler => "SUM EIENDELER"
    case Loennskostnad => "Loennskostnad"
    case Varer => "Varer"
    case SumVarer => "Sum varer"
    case BiologiskeEiendeler => "Biologiske eiendeler"
    case SumFordringer => "Sum fordringer"
    case Leverandoergjeld => "Leverandoergjeld"
    case Salg => "Salg"
    case Driftskostnader => "Driftskostnader"
    case Varekostnader => "Varekostnader"
    case Eiendeler => "Eiendeler"
    case Lonnskostnader => "Lonnskostnader"
    case Varelager => "Varelager"
    case Kundefordringer => "Kundefordringer"
    case Leverandorgjeld => "Leverandorgjeld"
    case SumEiendelerEur => "sum_eiendeler_EUR"
    case SumOmsetningEur => "sum_omsetning_EUR"
    case SalgNominal => "Salg_ikke_deflatert"
    case LonnskostnaderNominal => "Lonnskostnader_ikke_deflatert"
    case EiendelerNominal => "Eiendeler_ikke_deflatert"
    case SalgPrev => "Salg_prev"
    case SalgPrevPrev => "Salg_prev_prev"
    case DriftskostnaderPrev => "Driftskostnader_prev"
    case VarekostnaderPrev => "Varekostnader_prev"
    case VarelagerPrev => "Varelager_prev"
    case Bnp => "bnp"
    case BnpPrev => "bnp_prev"
  }

  datatype Row = Row(orgnr: int, regnaar: int, bransje: string, fields: map<Column, Option<real>>)

  /** A raw statement as loaded: its closing date (`avslutningsdato`) and its row. */
  datatype Statement = Statement(closing: string, row: Row)

  /** The value in column `c`; a column the row lacks reads as missing. */
  function Get(r: Row, c: Column): Option<real>
  {
    if c in r.fields then r.fields[c] else None
  }

  /** Not null and strictly positive. */
  predicate PositiveIn(r: Row, c: Column)
  {
    Get(r, c).Some? && Get(r, c).value > 0.0
  }

  /** The three keys that identify and classify a row. */
  predicate SameKeys(a: Row, b: Row)
  {
    a.orgnr == b.orgnr && a.regnaar == b.regnaar && a.bransje == b.bransje
  }
}
