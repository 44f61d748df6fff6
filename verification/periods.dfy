/** Period keys `YYYYMM` as integers: read from a statement's closing date
    (`avslutningsdato`, `YYYY-MM-DD`) and from a CPI series label (`YYYYMmm`). */
module Periods {
  import opened Common
  import opened Digits
  import opened Strings

  /** `int(date[0:7].replace('-', ''))` for the digit strings `int` reads;
      `None` for anything else. */
  function ClosingKey(date: string): Option<nat>
  {
    ParseNat(RemoveChar(Prefix(date, 7), '-'))
  }

  /** `int(period.replace('M', ''))` for the digit strings `int` reads;
      `None` for anything else. */
  function CpiKey(period: string): Option<nat>
  {
    ParseNat(RemoveChar(period, 'M'))
  }

  /** A four-digit year and a two-digit month. */
  predicate YearMonth(y: string, m: string)
  {
    |y| == 4 && |m| == 2 && AllDigits(y) && AllDigits(m)
  }

  /** The key of a year and month: YYYY * 100 + MM, readable back as both parts. */
  lemma {:induction false} KeyOfDigits(y: string, m: string)
    requires YearMonth(y, m)
    ensures ParseNat(y + m) == Some(Value(y) * 100 + Value(m))
    ensures (Value(y) * 100 + Value(m)) / 100 == Value(y)
    ensures (Value(y) * 100 + Value(m)) % 100 == Value(m)
  {
    ValueAppend(y, m);
    assert Pow10(2) == 100;
    ValueBound(m);
  }

  /** A closing date `YYYY-MM-…` has the key YYYY * 100 + MM, whatever follows the month. */
  lemma {:induction false} ClosingKeyOfDate(y: string, m: string, rest: string)
    requires YearMonth(y, m)
    ensures ClosingKey(y + "-" + m + rest) == Some(Value(y) * 100 + Value(m))
  {
    var date := y + "-" + m + rest;
    assert Prefix(date, 7) == y + "-" + m by {
      assert date[..7] == y + "-" + m;
    }
    JoinedKey(y, m, '-');
  }

  /** A CPI label `YYYYMmm` has the key YYYY * 100 + MM. */
  lemma {:induction false} CpiKeyOfLabel(y: string, m: string)
    requires YearMonth(y, m)
    ensures CpiKey(y + "M" + m) == Some(Value(y) * 100 + Value(m))
  {
    JoinedKey(y, m, 'M');
  }

  /** A statement closing in a month finds the CPI entry labelled with that month. */
  lemma ClosingMatchesCpi(y: string, m: string, rest: string)
    requires YearMonth(y, m)
    ensures ClosingKey(y + "-" + m + rest) == CpiKey(y + "M" + m)
  {
    ClosingKeyOfDate(y, m, rest);
    CpiKeyOfLabel(y, m);
  }

  predicate AsciiLetter(c: char) { 'a' <= c <= 'z' || 'A' <= c <= 'Z' }

  /** A closing date with a letter among its first seven characters has no
      key: `int` raises on any letter in a base-ten literal. */
  lemma ClosingKeyRejectsText(date: string, k: nat)
    requires k < 7 && k < |date| && AsciiLetter(date[k])
    ensures ClosingKey(date) == None
  {
    var p := Prefix(date, 7);
    assert p[k] == date[k] && date[k] in p;
    assert date[k] in RemoveChar(p, '-') && !IsDigit(date[k]);
  }

  /** A CPI label with a letter other than `M` has no key. */
  lemma CpiKeyRejectsText(period: string, k: nat)
    requires k < |period| && AsciiLetter(period[k]) && period[k] != 'M'
    ensures CpiKey(period) == None
  {
    assert period[k] in period;
    assert period[k] in RemoveChar(period, 'M') && !IsDigit(period[k]);
  }

  /** Year and month joined by a non-digit separator read as YYYY * 100 + MM
      once the separator is removed. */
  lemma JoinedKey(y: string, m: string, sep: char)
    requires YearMonth(y, m) && !IsDigit(sep)
    ensures ParseNat(RemoveChar(y + [sep] + m, sep)) == Some(Value(y) * 100 + Value(m))
  {
    RemoveCharAbsent(y, sep);
    RemoveCharAbsent(m, sep);
    RemoveCharAppend(y + [sep], m, sep);
    RemoveCharAppend(y, [sep], sep);
    assert RemoveChar([sep], sep) == [];
    assert RemoveChar(y + [sep] + m, sep) == y + m;
    KeyOfDigits(y, m);
  }
}
