/** Rendering of numbers in the results tables: coefficients padded to a fixed
    number of decimals with a decimal comma and significance stars, counts
    with a space as thousands separator. */
module Formatting {
  import opened Common
  import opened Digits
  import opened Strings

  /** Decimals shown for every coefficient. */
  const NUM_DECIMALS: nat := 3

  /** `s.rfind(c)`: the position of the last `c`, or -1 when there is none. */
  function RFind(s: string, c: char): (i: int)
    ensures -1 <= i < |s|
    ensures i == -1 <==> c !in s
    ensures i >= 0 ==> s[i] == c && c !in s[i + 1..]
  {
    if s == [] then -1
    else if s[|s| - 1] == c then |s| - 1
    else
      var i := RFind(s[..|s| - 1], c);
      assert s == s[..|s| - 1] + [s[|s| - 1]];
      i
  }

  /** `len(num[num.rfind('.') + 1:])`: the digits after the last point, or
      the whole string when it has no point. */
  function FracLen(num: string): nat
  {
    |num| - (RFind(num, '.') + 1)
  }

  function Zeros(k: nat): (z: string)
    ensures |z| == k && forall i :: 0 <= i < k ==> z[i] == '0'
  {
    seq(k, _ => '0')
  }

  /** Appending zeros lengthens the part after the last point by as many. */
  lemma FracLenZeros(num: string, k: nat)
    ensures FracLen(num + Zeros(k)) == FracLen(num) + k
  {
    var s := num + Zeros(k);
    if '.' in num {
      var i := RFind(num, '.');
      assert s[i] == '.';
      assert s[i + 1..] == num[i + 1..] + Zeros(k);
      assert RFind(s, '.') == i;
    } else {
      assert '.' !in s;
    }
  }

  /** `add_tailing_zeros_decimals`: append `'0'` until the part after the
      last point has `n` characters. The loop only stops when it starts at
      most `n` long; otherwise it never ends, which is why the model requires it. */
  function AddTrailingZeros(num: string, n: nat): (r: string)
    requires FracLen(num) <= n
    ensures r == num + Zeros(n - FracLen(num))
    ensures FracLen(r) == n
    decreases n - FracLen(num)
  {
    if FracLen(num) == n then
      assert num + Zeros(0) == num;
      num
    else
      FracLenZeros(num, 1);
      var r := AddTrailingZeros(num + Zeros(1), n);
      assert num + Zeros(1) + Zeros(n - FracLen(num) - 1) == num + Zeros(n - FracLen(num));
      r
  }

  /** Padding a padded number changes nothing. */
  lemma AddTrailingZerosIdempotent(num: string, n: nat)
    requires FracLen(num) <= n
    ensures AddTrailingZeros(AddTrailingZeros(num, n), n) == AddTrailingZeros(num, n)
  {
    var r := AddTrailingZeros(num, n);
    assert r + Zeros(0) == r;
  }

  /** When the part after the point is already longer than `n` (or, without
      a point, the whole string is), no number of appended zeros meets the
      loop's exit test: the source loops forever on such input. */
  lemma PaddingNeverStops(num: string, n: nat, k: nat)
    requires FracLen(num) > n
    ensures FracLen(num + Zeros(k)) != n
  {
    FracLenZeros(num, k);
  }

  /** `"{:,.0f}".format(n).replace(',', ' ')` for a count: the digits in
      groups of three from the right, separated by spaces. */
  function ThousandSeparator(n: nat): (s: string)
    ensures |s| > 0 && IsDigit(s[0]) && IsDigit(s[|s| - 1])
    ensures forall i :: 0 <= i < |s| ==> IsDigit(s[i]) || s[i] == ' '
    ensures Grouped(s)
    ensures s[0] == '0' <==> n == 0
    decreases n
  {
    if n < 1000 then
      var s := NatToDecimal(n);
      DecimalShort(n, 3);
      assert |s| == 1 ==> s[..0] == [] && Value(s) == DigitValue(s[0]);
      s
    else
      var hi := ThousandSeparator(n / 1000);
      var s := hi + " " + Group(n % 1000);
      assert s[..|s| - 4] == hi && s[|s| - 3..] == Group(n % 1000);
      s
  }

  /** A leading group of one to three digits, then any number of groups of
      exactly three digits, each after a single space. */
  predicate Grouped(s: string)
    decreases |s|
  {
    if |s| <= 3 then |s| > 0 && AllDigits(s)
    else |s| >= 5 && s[|s| - 4] == ' ' && AllDigits(s[|s| - 3..]) && Grouped(s[..|s| - 4])
  }

  /** A group of three digits, zero-padded. */
  function Group(n: nat): (g: string)
    requires n < 1000
    ensures |g| == 3 && AllDigits(g) && Value(g) == n
  {
    var g := [DigitChar(n / 100), DigitChar(n / 10 % 10), DigitChar(n % 10)];
    assert g[..2][..1] == [g[0]];
    assert Value([g[0]]) == n / 100 by {
      assert [g[0]][..0] == [];
    }
    g
  }

  /** Deleting the spaces leaves the plain digits of the count. */
  lemma {:induction false} SeparatedDigits(n: nat)
    ensures AllDigits(RemoveChar(ThousandSeparator(n), ' '))
    ensures |RemoveChar(ThousandSeparator(n), ' ')| > 0
    ensures Value(RemoveChar(ThousandSeparator(n), ' ')) == n
    decreases n
  {
    var s := ThousandSeparator(n);
    if n < 1000 {
      DigitsHaveNoSpace(s);
      RemoveCharAbsent(s, ' ');
    } else {
      var q, m := n / 1000, n % 1000;
      var hi := ThousandSeparator(q);
      var g := Group(m);
      assert s == hi + " " + g;
      SeparatedDigits(q);
      JoinGroup(hi, g);
      assert q * 1000 + m == n;
    }
  }

  /** Removing the spaces around a trailing group of digits shifts the value
      read so far by the group's width. */
  lemma JoinGroup(hi: string, g: string)
    requires AllDigits(RemoveChar(hi, ' ')) && AllDigits(g) && |g| == 3
    ensures AllDigits(RemoveChar(hi + " " + g, ' '))
    ensures |RemoveChar(hi + " " + g, ' ')| >= 3
    ensures Value(RemoveChar(hi + " " + g, ' ')) == Value(RemoveChar(hi, ' ')) * 1000 + Value(g)
  {
    DropSpace(hi, g);
    var d := RemoveChar(hi, ' ');
    ValueAppend(d, g);
    assert Pow10(3) == 1000;
  }

  /** The separating space goes, the digits on either side stay. */
  lemma DropSpace(hi: string, g: string)
    requires AllDigits(g)
    ensures RemoveChar(hi + " " + g, ' ') == RemoveChar(hi, ' ') + g
  {
    DigitsHaveNoSpace(g);
    RemoveCharAbsent(g, ' ');
    RemoveCharAppend(hi + " ", g, ' ');
    DropTrailingSpace(hi);
  }

  lemma DigitsHaveNoSpace(g: string)
    requires AllDigits(g)
    ensures ' ' !in g
  {
    assert forall i :: 0 <= i < |g| ==> IsDigit(g[i]);
  }

  lemma DropTrailingSpace(hi: string)
    ensures RemoveChar(hi + " ", ' ') == RemoveChar(hi, ' ')
  {
    RemoveCharAppend(hi, " ", ' ');
    assert RemoveChar(" ", ' ') == [];
  }

  /** The separated count reads back as the count once the spaces are removed. */
  lemma ThousandSeparatorRoundTrip(n: nat)
    ensures ParseNat(RemoveChar(ThousandSeparator(n), ' ')) == Some(n)
  {
    SeparatedDigits(n);
  }

  /** The significance stars for a p-value: one tier, chosen from the lowest threshold up. */
  function Stars(p: real): (s: string)
    ensures |s| <= 4 && forall i :: 0 <= i < |s| ==> s[i] == '*'
  {
    if p < 0.001 then "****"
    else if p < 0.01 then "***"
    else if p < 0.05 then "**"
    else if p < 0.10 then "*"
    else ""
  }

  /** The significance thresholds, strictest first. */
  const Thresholds: seq<real> := [0.001, 0.01, 0.05, 0.10]

  /** The number of stars is the number of thresholds the p-value is below. */
  lemma StarsCountThresholds(p: real)
    ensures |Stars(p)| == |set t | t in Thresholds && p < t|
  {
    var below := set t | t in Thresholds && p < t;
    if p < 0.001 {
      assert below == {0.001, 0.01, 0.05, 0.10};
    } else if p < 0.01 {
      assert below == {0.01, 0.05, 0.10};
    } else if p < 0.05 {
      assert below == {0.05, 0.10};
    } else if p < 0.10 {
      assert below == {0.10};
    } else {
      assert below == {};
    }
  }

  /** A larger p-value never earns more stars. */
  lemma StarsMonotone(p: real, q: real)
    requires p <= q
    ensures |Stars(q)| <= |Stars(p)|
  {
  }

  /** One coefficient cell: the rounded coefficient padded to the fixed number
      of decimals, the point turned into a comma, the stars appended. */
  function FormatCoefficient(coef: string, p: real): (r: string)
    requires FracLen(coef) <= NUM_DECIMALS
    ensures r == ReplaceChar(coef, '.', ',') + Zeros(NUM_DECIMALS - FracLen(coef)) + Stars(p)
    ensures '.' !in r
  {
    var padded := AddTrailingZeros(coef, NUM_DECIMALS);
    CommaPadded(coef, NUM_DECIMALS - FracLen(coef));
    ReplaceChar(padded, '.', ',') + Stars(p)
  }

  /** Turning points into commas commutes with padding by zeros. */
  lemma CommaPadded(coef: string, k: nat)
    ensures ReplaceChar(coef + Zeros(k), '.', ',') == ReplaceChar(coef, '.', ',') + Zeros(k)
  {
    ReplaceCharAppend(coef, Zeros(k), '.', ',');
    assert ReplaceChar(Zeros(k), '.', ',') == Zeros(k);
  }

  /** A rounded coefficient of 0.1 with p = 0.002 is shown as `0,100***`. */
  lemma FormatCoefficientExample()
    ensures FormatCoefficient("0.1", 0.002) == "0,100***"
  {
    assert RFind("0.1", '.') == 1;
    assert ReplaceChar("0.1", '.', ',') == "0,1";
    assert Zeros(2) == "00";
  }
}
