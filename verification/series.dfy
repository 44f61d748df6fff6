/** A labelled column (a pandas `Series` keyed by row label), as used for the
    sample-selection ledger and for each model's column of results. Such a
    column is built from empty by assignments `series[k] = v`: assigning to a
    label that exists overwrites its cell in place, assigning to a new label
    appends it at the bottom. So the labels never repeat, and the column is an
    ordered dictionary: the labels top to bottom and the cell of each. */
module Series {
  datatype Series<K, V> = Series(labels: seq<K>, cells: map<K, V>)

  /** No label twice, and exactly the labels have cells. */
  ghost predicate Valid<K(!new), V>(s: Series<K, V>)
  {
    (forall i, j :: 0 <= i < j < |s.labels| ==> s.labels[i] != s.labels[j])
    && (forall k :: k in s.cells <==> k in s.labels)
  }

  /** `pd.Series(dtype=...)`: no labels, no cells. */
  function Empty<K(!new), V>(): (s: Series<K, V>)
    ensures Valid(s) && |s.labels| == 0
  {
    Series([], map[])
  }

  /** `series[k] = v`. */
  function Put<K(!new), V>(s: Series<K, V>, k: K, v: V): (r: Series<K, V>)
    ensures k in r.cells && r.cells[k] == v
    ensures forall l :: l != k ==> (l in r.cells <==> l in s.cells)
    ensures forall l :: l != k && l in s.cells ==> r.cells[l] == s.cells[l]
    ensures k in s.cells ==> r.labels == s.labels
    ensures k !in s.cells ==> r.labels == s.labels + [k]
  {
    Series(if k in s.cells then s.labels else s.labels + [k], s.cells[k := v])
  }

  /** Assignment keeps a column well formed. */
  lemma PutValid<K(!new), V>(s: Series<K, V>, k: K, v: V)
    requires Valid(s)
    ensures Valid(Put(s, k, v))
  {
    var r := Put(s, k, v);
    if k !in s.cells {
      assert forall i :: 0 <= i < |s.labels| ==> s.labels[i] in s.cells;
      assert forall i :: 0 <= i < |s.labels| ==> r.labels[i] == s.labels[i];
    }
  }

  /** The assignments `series[k] = v` for every `(k, v)` of `cells`, in order. */
  function PutAll<K(!new), V>(s: Series<K, V>, cells: seq<(K, V)>): (r: Series<K, V>)
    ensures forall l :: l in s.cells ==> l in r.cells
    ensures forall i :: 0 <= i < |cells| ==> cells[i].0 in r.cells
    decreases |cells|
  {
    if cells == [] then s
    else
      var r := PutAll(Put(s, cells[0].0, cells[0].1), cells[1..]);
      assert forall i :: 1 <= i < |cells| ==> cells[i] == cells[1..][i - 1];
      r
  }

  /** The labels of a list of cells. */
  function Keys<K, V>(cells: seq<(K, V)>): (ks: seq<K>)
    ensures |ks| == |cells| && forall i :: 0 <= i < |cells| ==> ks[i] == cells[i].0
  {
    seq(|cells|, i requires 0 <= i < |cells| => cells[i].0)
  }

  /** Assigning to labels that are new and pairwise different appends them
      in order, each with its value. */
  lemma PutAllFresh<K(!new), V>(s: Series<K, V>, cells: seq<(K, V)>)
    requires forall i :: 0 <= i < |cells| ==> cells[i].0 !in s.cells
    requires forall i, j :: 0 <= i < j < |cells| ==> cells[i].0 != cells[j].0
    ensures PutAll(s, cells).labels == s.labels + Keys(cells)
    ensures forall i :: 0 <= i < |cells| ==> PutAll(s, cells).cells[cells[i].0] == cells[i].1
    ensures forall l :: l in s.cells ==> l in PutAll(s, cells).cells && PutAll(s, cells).cells[l] == s.cells[l]
    ensures forall l :: l in PutAll(s, cells).cells <==> l in s.cells || l in Keys(cells)
  {
    PutAllFreshLabels(s, cells);
    forall i | 0 <= i < |cells|
      ensures PutAll(s, cells).cells[cells[i].0] == cells[i].1
    {
      PutAllUniform(s, cells, cells[i].0, cells[i].1);
    }
    forall l | l in s.cells || l !in Keys(cells)
      ensures l in PutAll(s, cells).cells <==> l in s.cells
      ensures l in s.cells ==> PutAll(s, cells).cells[l] == s.cells[l]
    {
      PutAllUntouched(s, cells, l);
    }
    forall l | l in Keys(cells) ensures l in PutAll(s, cells).cells
    {
      var i :| 0 <= i < |cells| && Keys(cells)[i] == l;
    }
  }

  /** The labels appended by assignments to new, pairwise different labels. */
  lemma {:induction false} PutAllFreshLabels<K(!new), V>(s: Series<K, V>, cells: seq<(K, V)>)
    requires forall i :: 0 <= i < |cells| ==> cells[i].0 !in s.cells
    requires forall i, j :: 0 <= i < j < |cells| ==> cells[i].0 != cells[j].0
    ensures PutAll(s, cells).labels == s.labels + Keys(cells)
    decreases |cells|
  {
    if cells != [] {
      var t := Put(s, cells[0].0, cells[0].1);
      var rest := cells[1..];
      assert forall i :: 0 <= i < |rest| ==> rest[i] == cells[i + 1];
      PutAllFreshLabels(t, rest);
      KeysCons(cells);
      AppendAssoc(s.labels, [cells[0].0], Keys(rest));
    }
  }

  lemma AppendAssoc<T>(a: seq<T>, b: seq<T>, c: seq<T>)
    ensures (a + b) + c == a + (b + c)
  {
  }

  /** The labels of a non-empty list: the first label, then the rest's. */
  lemma KeysCons<K, V>(cells: seq<(K, V)>)
    requires cells != []
    ensures Keys(cells) == [cells[0].0] + Keys(cells[1..])
  {
    var ks, rest := Keys(cells), Keys(cells[1..]);
    assert forall i :: 1 <= i < |ks| ==> ks[i] == rest[i - 1];
  }

  /** A label no assignment touches keeps its cell, or its absence. */
  lemma {:induction false} PutAllUntouched<K(!new), V>(s: Series<K, V>, cells: seq<(K, V)>, k: K)
    requires forall i :: 0 <= i < |cells| ==> cells[i].0 != k
    ensures k in PutAll(s, cells).cells <==> k in s.cells
    ensures k in s.cells ==> PutAll(s, cells).cells[k] == s.cells[k]
    decreases |cells|
  {
    if cells != [] {
      var rest := cells[1..];
      assert forall i :: 0 <= i < |rest| ==> rest[i] == cells[i + 1];
      PutAllUntouched(Put(s, cells[0].0, cells[0].1), rest, k);
    }
  }

  /** A label every assignment to which writes the same value ends up holding
      that value: the last write wins, and here all writes agree. */
  lemma {:induction false} PutAllUniform<K(!new), V>(s: Series<K, V>, cells: seq<(K, V)>, k: K, v: V)
    requires exists i :: 0 <= i < |cells| && cells[i].0 == k
    requires forall i :: 0 <= i < |cells| && cells[i].0 == k ==> cells[i].1 == v
    ensures k in PutAll(s, cells).cells && PutAll(s, cells).cells[k] == v
    decreases |cells|
  {
    var t := Put(s, cells[0].0, cells[0].1);
    var rest := cells[1..];
    assert forall i :: 0 <= i < |rest| ==> rest[i] == cells[i + 1];
    if exists i :: 0 <= i < |rest| && rest[i].0 == k {
      PutAllUniform(t, rest, k, v);
    } else {
      assert cells[0].0 == k;
      PutAllUntouched(t, rest, k);
    }
  }
}
