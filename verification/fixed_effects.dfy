/** The fixed-effect dummies of the regressions (`pd.get_dummies(...).iloc[:, :-1]`):
    one indicator column per distinct category in sorted order, the last
    (largest) category left out as the reference, each column named by a
    prefix and the category. */
module FixedEffects {
  import opened Seqs
  import opened Strings
  import opened Digits
  import opened Panel

  /** `lt` is a strict total order. */
  ghost predicate StrictOrder<T(!new)>(lt: (T, T) -> bool)
  {
    (forall a :: !lt(a, a))
    && (forall a, b, c :: lt(a, b) && lt(b, c) ==> lt(a, c))
    && (forall a, b :: a == b || lt(a, b) || lt(b, a))
  }

  predicate Increasing<T>(r: seq<T>, lt: (T, T) -> bool)
  {
    forall i, j :: 0 <= i < j < |r| ==> lt(r[i], r[j])
  }

  /** `x` put into its place in an increasing sequence, unless it is there already. */
  function Insert<T(==,!new)>(x: T, r: seq<T>, lt: (T, T) -> bool): (out: seq<T>)
    requires StrictOrder(lt) && Increasing(r, lt)
    ensures Increasing(out, lt)
    ensures forall y :: y in out <==> y in r || y == x
  {
    if r == [] then [x]
    else if x == r[0] then r
    else if lt(x, r[0]) then [x] + r
    else
      var rest := Insert(x, r[1..], lt);
      assert forall y :: y in r[1..] ==> lt(r[0], y);
      assert Increasing(r[1..], lt);
      [r[0]] + rest
  }

  /** The distinct values of `s` in increasing order (the dummy columns before
      the last is dropped). */
  function Categories<T(==,!new)>(s: seq<T>, lt: (T, T) -> bool): (r: seq<T>)
    requires StrictOrder(lt)
    ensures Increasing(r, lt)
    ensures forall y :: y in r <==> y in s
  {
    if s == [] then [] else Insert(s[0], Categories(s[1..], lt), lt)
  }

  /** An increasing sequence holds no value twice, so it is as long as its set of values. */
  lemma {:induction false} IncreasingCardinality<T(!new)>(r: seq<T>, lt: (T, T) -> bool)
    requires StrictOrder(lt) && Increasing(r, lt)
    ensures |set y | y in r| == |r|
  {
    if r != [] {
      assert Increasing(r[1..], lt);
      IncreasingCardinality(r[1..], lt);
      assert r[0] !in r[1..];
      assert (set y | y in r) == {r[0]} + (set y | y in r[1..]);
    }
  }

  /** `.iloc[:, :-1]`: every column but the last. */
  function DropLast<T>(r: seq<T>): (d: seq<T>)
    ensures |d| == if r == [] then 0 else |r| - 1
    ensures forall i :: 0 <= i < |d| ==> d[i] == r[i]
  {
    if r == [] then [] else r[..|r| - 1]
  }

  /** The dummy column names for the values `s`: each kept category with the prefix. */
  function Dummies<T(==,!new)>(s: seq<T>, lt: (T, T) -> bool, prefix: string, show: T -> string): (names: seq<string>)
    requires StrictOrder(lt)
    ensures forall i :: 0 <= i < |names| ==> prefix <= names[i]
    ensures forall i :: 0 <= i < |names| ==>
      exists x :: x in s && names[i] == prefix + show(x) && exists y :: y in s && lt(x, y)
  {
    var c := Categories(s, lt);
    var names := Map(DropLast(c), (x: T) => prefix + show(x));
    forall i | 0 <= i < |names|
      ensures exists x :: x in s && names[i] == prefix + show(x) && exists y :: y in s && lt(x, y)
    {
      KeptHasLarger(s, lt, c, i);
      assert names[i] == prefix + show(c[i]);
    }
    names
  }

  /** The `i`-th dummy names the `i`-th category in sorted order. */
  lemma DummyAt<T(!new)>(s: seq<T>, lt: (T, T) -> bool, prefix: string, show: T -> string, i: nat)
    requires StrictOrder(lt) && i < |Dummies(s, lt, prefix, show)|
    ensures i < |Categories(s, lt)| - 1
    ensures Dummies(s, lt, prefix, show)[i] == prefix + show(Categories(s, lt)[i])
  {
  }

  /** Every category but the last is present and has a larger one present. */
  lemma KeptHasLarger<T(!new)>(s: seq<T>, lt: (T, T) -> bool, c: seq<T>, i: nat)
    requires StrictOrder(lt) && c == Categories(s, lt) && i < |c| - 1
    ensures c[i] in s && exists y :: y in s && lt(c[i], y)
  {
    var top := c[|c| - 1];
    assert top in s && lt(c[i], top);
  }

  /** One dummy for every distinct value but one. */
  lemma DummyCount<T(!new)>(s: seq<T>, lt: (T, T) -> bool, prefix: string, show: T -> string)
    requires StrictOrder(lt)
    ensures |Dummies(s, lt, prefix, show)| == if s == [] then 0 else |set y | y in s| - 1
  {
    var c := Categories(s, lt);
    IncreasingCardinality(c, lt);
    assert (set y | y in c) == (set y | y in s);
    if s != [] {
      assert s[0] in c;
    }
  }

  /** The category left out is the largest value; every other value has its
      own column, and (with names that tell categories apart) the largest has none. */
  lemma DummiesOmitLargest<T(!new)>(s: seq<T>, lt: (T, T) -> bool, prefix: string, show: T -> string)
    requires StrictOrder(lt) && s != []
    requires forall a, b :: show(a) == show(b) ==> a == b
    ensures var c := Categories(s, lt);
      var top := c[|c| - 1];
      top in s && (forall x :: x in s && x != top ==> lt(x, top))
      && (forall x :: x in s && x != top ==> prefix + show(x) in Dummies(s, lt, prefix, show))
      && prefix + show(top) !in Dummies(s, lt, prefix, show)
  {
    var c := Categories(s, lt);
    assert s[0] in c;
    var top := c[|c| - 1];
    var d := Dummies(s, lt, prefix, show);
    var kept := DropLast(c);
    forall x | x in s && x != top
      ensures lt(x, top) && prefix + show(x) in d
    {
      var i :| 0 <= i < |c| && c[i] == x;
      assert i < |c| - 1;
      assert d[i] == prefix + show(kept[i]);
    }
    forall i | 0 <= i < |d| ensures d[i] != prefix + show(top)
    {
      assert d[i] == prefix + show(kept[i]);
      assert kept[i] == c[i] && lt(c[i], top);
      assert show(kept[i]) == (prefix + show(kept[i]))[|prefix|..];
      assert show(top) == (prefix + show(top))[|prefix|..];
    }
  }

  /** A present value has a dummy exactly when some present value is larger. */
  lemma DummyFor<T(!new)>(s: seq<T>, lt: (T, T) -> bool, prefix: string, show: T -> string, x: T)
    requires StrictOrder(lt) && x in s
    requires forall a, b :: show(a) == show(b) ==> a == b
    ensures prefix + show(x) in Dummies(s, lt, prefix, show) <==> exists y :: y in s && lt(x, y)
  {
    DummiesOmitLargest(s, lt, prefix, show);
    var c := Categories(s, lt);
    var top := c[|c| - 1];
    if x != top {
      assert top in s && lt(x, top);
    } else {
      forall y | y in s ensures !lt(x, y)
      {
        if y != top {
          assert lt(y, top);
        }
      }
    }
  }

  predicate IntLess(a: int, b: int) { a < b }

  lemma IntLessStrict()
    ensures StrictOrder(IntLess)
  {
  }

  lemma StrLessStrict()
    ensures StrictOrder(StrLess)
  {
    forall a: string ensures !StrLess(a, a) { StrLessIrreflexive(a); }
    forall a: string, b: string, c: string | StrLess(a, b) && StrLess(b, c) ensures StrLess(a, c)
    {
      StrLessTransitive(a, b, c);
    }
    forall a: string, b: string ensures a == b || StrLess(a, b) || StrLess(b, a)
    {
      StrLessTotal(a, b);
    }
  }

  function Year(r: Row): int { r.regnaar }

  function Industry(r: Row): string { r.bransje }

  function Code(s: string): string { s }

  /** `dy<year>` for every year but the latest (`fixed_effects_year`). */
  function YearDummies(rows: seq<Row>): (names: seq<string>)
    ensures forall i :: 0 <= i < |names| ==> "dy" <= names[i]
    ensures forall i :: 0 <= i < |names| ==>
      exists r :: r in rows && names[i] == "dy" + IntToString(r.regnaar) && exists q :: q in rows && q.regnaar > r.regnaar
  {
    IntLessStrict();
    var names := Dummies(Map(rows, Year), IntLess, "dy", IntToString);
    YearNames(rows, names);
    names
  }

  lemma YearNames(rows: seq<Row>, names: seq<string>)
    requires StrictOrder(IntLess)
    requires names == Dummies(Map(rows, Year), IntLess, "dy", IntToString)
    ensures forall i :: 0 <= i < |names| ==>
      exists r :: r in rows && names[i] == "dy" + IntToString(r.regnaar) && exists q :: q in rows && q.regnaar > r.regnaar
  {
    var ys := Map(rows, Year);
    forall i | 0 <= i < |names|
      ensures exists r :: r in rows && names[i] == "dy" + IntToString(r.regnaar) && exists q :: q in rows && q.regnaar > r.regnaar
    {
      DummyAt(ys, IntLess, "dy", IntToString, i);
      var c := Categories(ys, IntLess);
      KeptHasLarger(ys, IntLess, c, i);
      YearOf(rows, ys, c[i], names[i]);
    }
  }

  /** A year in the year column, and a later one, come from rows. */
  lemma YearOf(rows: seq<Row>, ys: seq<int>, x: int, name: string)
    requires ys == Map(rows, Year)
    requires x in ys && name == "dy" + IntToString(x) && exists y :: y in ys && IntLess(x, y)
    ensures exists r :: r in rows && name == "dy" + IntToString(r.regnaar) && exists q :: q in rows && q.regnaar > r.regnaar
  {
    var y :| y in ys && IntLess(x, y);
    var j :| 0 <= j < |ys| && ys[j] == x;
    var k :| 0 <= k < |ys| && ys[k] == y;
    assert rows[j] in rows && rows[k] in rows && rows[k].regnaar > rows[j].regnaar;
  }

  /** `di<code>` for every industry but the last in sorted order (`fixed_effects_Bransje`). */
  function IndustryDummies(rows: seq<Row>): (names: seq<string>)
    ensures forall i :: 0 <= i < |names| ==> "di" <= names[i]
    ensures forall i :: 0 <= i < |names| ==>
      exists r :: r in rows && names[i] == "di" + r.bransje && exists q :: q in rows && StrLess(r.bransje, q.bransje)
  {
    StrLessStrict();
    var names := Dummies(Map(rows, Industry), StrLess, "di", Code);
    IndustryNames(rows, names);
    names
  }

  lemma IndustryNames(rows: seq<Row>, names: seq<string>)
    requires StrictOrder(StrLess)
    requires names == Dummies(Map(rows, Industry), StrLess, "di", Code)
    ensures forall i :: 0 <= i < |names| ==>
      exists r :: r in rows && names[i] == "di" + r.bransje && exists q :: q in rows && StrLess(r.bransje, q.bransje)
  {
    var bs := Map(rows, Industry);
    forall i | 0 <= i < |names|
      ensures exists r :: r in rows && names[i] == "di" + r.bransje && exists q :: q in rows && StrLess(r.bransje, q.bransje)
    {
      DummyAt(bs, StrLess, "di", Code, i);
      var c := Categories(bs, StrLess);
      KeptHasLarger(bs, StrLess, c, i);
      IndustryOf(rows, bs, c[i], names[i]);
    }
  }

  /** An industry in the industry column, and a later one, come from rows. */
  lemma IndustryOf(rows: seq<Row>, bs: seq<string>, x: string, name: string)
    requires bs == Map(rows, Industry)
    requires x in bs && name == "di" + x && exists y :: y in bs && StrLess(x, y)
    ensures exists r :: r in rows && name == "di" + r.bransje && exists q :: q in rows && StrLess(r.bransje, q.bransje)
  {
    var y :| y in bs && StrLess(x, y);
    var j :| 0 <= j < |bs| && bs[j] == x;
    var k :| 0 <= k < |bs| && bs[k] == y;
    assert rows[j] in rows && rows[k] in rows && StrLess(rows[j].bransje, rows[k].bransje);
  }

  /** The year dummies followed by the industry dummies; the two groups never share a name. */
  function FixedEffectColumns(rows: seq<Row>): (names: seq<string>)
    ensures forall i, j :: 0 <= i < |YearDummies(rows)| <= j < |names| ==> names[i] != names[j]
  {
    var yd, bd := YearDummies(rows), IndustryDummies(rows);
    var names := yd + bd;
    forall i, j | 0 <= i < |yd| <= j < |names| ensures names[i] != names[j]
    {
      assert names[i][1] == 'y' && names[j][1] == 'i';
    }
    names
  }

  /** As many dummies as distinct years and distinct industries, one of each left out. */
  lemma FixedEffectCount(rows: seq<Row>)
    requires rows != []
    ensures |FixedEffectColumns(rows)|
      == (|set r | r in rows :: r.regnaar| - 1) + (|set r | r in rows :: r.bransje| - 1)
  {
    assert FixedEffectColumns(rows) == YearDummies(rows) + IndustryDummies(rows);
    YearCount(rows);
    IndustryCount(rows);
  }

  lemma YearCount(rows: seq<Row>)
    requires rows != []
    ensures |YearDummies(rows)| == |set r | r in rows :: r.regnaar| - 1
  {
    IntLessStrict();
    DummyCount(Map(rows, Year), IntLess, "dy", IntToString);
    YearValues(rows);
  }

  lemma IndustryCount(rows: seq<Row>)
    requires rows != []
    ensures |IndustryDummies(rows)| == |set r | r in rows :: r.bransje| - 1
  {
    StrLessStrict();
    DummyCount(Map(rows, Industry), StrLess, "di", Code);
    IndustryValues(rows);
  }

  /** The values of the year column are the rows' years. */
  lemma YearValues(rows: seq<Row>)
    ensures (set y | y in Map(rows, Year)) == (set r | r in rows :: r.regnaar)
  {
    var ys := Map(rows, Year);
    forall y | y in ys ensures y in (set r | r in rows :: r.regnaar)
    {
      var i :| 0 <= i < |ys| && ys[i] == y;
      assert rows[i] in rows;
    }
    forall r | r in rows ensures r.regnaar in ys
    {
      var i :| 0 <= i < |rows| && rows[i] == r;
      assert ys[i] == r.regnaar;
    }
  }

  /** The values of the industry column are the rows' industries. */
  lemma IndustryValues(rows: seq<Row>)
    ensures (set b | b in Map(rows, Industry)) == (set r | r in rows :: r.bransje)
  {
    var bs := Map(rows, Industry);
    forall b | b in bs ensures b in (set r | r in rows :: r.bransje)
    {
      var i :| 0 <= i < |bs| && bs[i] == b;
      assert rows[i] in rows;
    }
    forall r | r in rows ensures r.bransje in bs
    {
      var i :| 0 <= i < |rows| && rows[i] == r;
      assert bs[i] == r.bransje;
    }
  }

  /** The dummy names of different years differ. */
  lemma YearNamesInjective()
    ensures forall a: int, b: int :: IntToString(a) == IntToString(b) ==> a == b
  {
    forall a: int, b: int | IntToString(a) == IntToString(b) ensures a == b
    {
      IntToStringInjective(a, b);
    }
  }

  /** The latest year gets no dummy; every earlier year present does. */
  lemma YearDummiesOmitLatest(rows: seq<Row>, y: int)
    requires exists r :: r in rows && r.regnaar == y
    ensures "dy" + IntToString(y) in FixedEffectColumns(rows)
        <==> exists r :: r in rows && r.regnaar > y
  {
    var yd, bd := YearDummies(rows), IndustryDummies(rows);
    assert FixedEffectColumns(rows) == yd + bd;
    NotIndustryName(rows, IntToString(y));
    YearDummyFor(rows, y);
  }

  /** A name starting `dy` is no industry dummy. */
  lemma NotIndustryName(rows: seq<Row>, t: string)
    ensures "dy" + t !in IndustryDummies(rows)
  {
    var bd := IndustryDummies(rows);
    var name := "dy" + t;
    assert name[1] == 'y';
    forall i | 0 <= i < |bd| ensures bd[i] != name
    {
      assert "di" <= bd[i] && bd[i][1] == 'i';
    }
  }

  /** The year dummies alone. */
  lemma YearDummyFor(rows: seq<Row>, y: int)
    requires exists r :: r in rows && r.regnaar == y
    ensures "dy" + IntToString(y) in YearDummies(rows) <==> exists r :: r in rows && r.regnaar > y
  {
    IntLessStrict();
    var ys := Map(rows, Year);
    var r0 :| r0 in rows && r0.regnaar == y;
    var k :| 0 <= k < |rows| && rows[k] == r0;
    assert ys[k] == y;
    YearNamesInjective();
    DummyFor(ys, IntLess, "dy", IntToString, y);
    LaterYear(rows, y);
  }

  /** Some year in the year column is later exactly when some row is of a later year. */
  lemma LaterYear(rows: seq<Row>, y: int)
    ensures (exists v :: v in Map(rows, Year) && IntLess(y, v)) <==> exists r :: r in rows && r.regnaar > y
  {
    var ys := Map(rows, Year);
    if exists r :: r in rows && r.regnaar > y {
      var r1 :| r1 in rows && r1.regnaar > y;
      var j :| 0 <= j < |rows| && rows[j] == r1;
      assert ys[j] in ys && IntLess(y, ys[j]);
    }
    if exists v :: v in ys && IntLess(y, v) {
      var v :| v in ys && IntLess(y, v);
      var j :| 0 <= j < |ys| && ys[j] == v;
      assert rows[j] in rows && rows[j].regnaar > y;
    }
  }
}
