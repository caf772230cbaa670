/** The data frame the cleaning pipeline works on: named columns of cells, all
    of the same length. */
module Tables {

  /** One cell of a frame: a missing marker (pandas NaN/None), a number or a text. */
  datatype Cell = Missing | Num(value: real) | Str(text: string)

  /** A labelled column. */
  datatype Column = Column(name: string, cells: seq<Cell>)

  predicate Distinct(ns: seq<string>)
  {
    forall i, j :: 0 <= i < j < |ns| ==> ns[i] != ns[j]
  }

  /** The first position of `name` in `ns`. */
  function IndexIn(ns: seq<string>, name: string): (i: nat)
    requires name in ns
    ensures i < |ns| && ns[i] == name
    ensures name !in ns[..i]
  {
    if ns[0] == name then 0
    else
      assert ns == [ns[0]] + ns[1..];
      var k := IndexIn(ns[1..], name);
      assert ns[..k + 1] == [ns[0]] + ns[1..][..k];
      1 + k
  }

  /** A data frame: its columns in order and its number of rows. */
  datatype Table = Table(columns: seq<Column>, rows: nat)
  {
    function Names(): seq<string>
    {
      seq(|columns|, i requires 0 <= i < |columns| => columns[i].name)
    }

    predicate Has(name: string)
    {
      name in Names()
    }

    /** Every column has one cell per row and no label occurs twice. */
    predicate Valid()
    {
      && (forall i :: 0 <= i < |columns| ==> |columns[i].cells| == rows)
      && Distinct(Names())
    }

    /** The position of the column labelled `name`. */
    function IndexOf(name: string): (i: nat)
      requires Has(name)
      ensures i < |columns| && columns[i].name == name
    {
      IndexIn(Names(), name)
    }

    /** `df[name]`: the cells of the column labelled `name`. */
    function Col(name: string): (c: seq<Cell>)
      requires Valid() && Has(name)
      ensures |c| == rows
      ensures forall i :: 0 <= i < |columns| && columns[i].name == name ==> c == columns[i].cells
    {
      var k := IndexOf(name);
      assert forall i :: 0 <= i < |columns| && columns[i].name == name ==> Names()[i] == Names()[k];
      columns[k].cells
    }

    /** `df[name] = cells`: replaces the column in its place when the label
        exists, and appends a new column at the end otherwise. */
    function Put(name: string, cells: seq<Cell>): (r: Table)
      requires Valid() && |cells| == rows
      ensures r.Valid() && r.rows == rows
      ensures r.Names() == if Has(name) then Names() else Names() + [name]
      ensures r.Has(name) && r.Col(name) == cells
      ensures forall n :: Has(n) && n != name ==> r.Has(n) && r.Col(n) == Col(n)
    {
      if Has(name) then
        var k := IndexOf(name);
        var r := Table(columns[k := Column(name, cells)], rows);
        assert r.Names() == Names();
        r
      else
        var r := Table(columns + [Column(name, cells)], rows);
        assert r.Names() == Names() + [name];
        r
    }

    /** `pd.concat([df, extra], axis=1)` for columns whose labels are new:
        the old columns keep their places and the new ones follow in order. */
    function Extend(extra: seq<Column>): (r: Table)
      requires Valid()
      requires forall j :: 0 <= j < |extra| ==> |extra[j].cells| == rows && !Has(extra[j].name)
      requires forall j1, j2 :: 0 <= j1 < j2 < |extra| ==> extra[j1].name != extra[j2].name
      ensures r.Valid() && r.rows == rows && |r.columns| == |columns| + |extra|
      ensures forall n :: Has(n) ==> r.Has(n) && r.IndexOf(n) == IndexOf(n) && r.Col(n) == Col(n)
      ensures forall j :: 0 <= j < |extra| ==>
        r.Has(extra[j].name) && r.IndexOf(extra[j].name) == |columns| + j && r.Col(extra[j].name) == extra[j].cells
      ensures forall n :: r.Has(n) ==> Has(n) || exists j :: 0 <= j < |extra| && extra[j].name == n
    {
      var r := Table(columns + extra, rows);
      ExtendNames(this, extra);
      ExtendValid(this, extra);
      ExtendKeeps(this, extra);
      ExtendAdds(this, extra);
      ExtendOnly(this, extra);
      r
    }
  }

  /** The labels after `Extend`: the old ones, then those of `extra`. */
  lemma {:induction false} ExtendNames(t: Table, extra: seq<Column>)
    ensures var r := Table(t.columns + extra, t.rows);
      && |r.Names()| == |t.columns| + |extra|
      && (forall c :: 0 <= c < |t.columns| ==> r.Names()[c] == t.Names()[c])
      && (forall j :: 0 <= j < |extra| ==> r.Names()[|t.columns| + j] == extra[j].name)
  {
  }

  lemma {:induction false} ExtendValid(t: Table, extra: seq<Column>)
    requires t.Valid()
    requires forall j :: 0 <= j < |extra| ==> |extra[j].cells| == t.rows && !t.Has(extra[j].name)
    requires forall j1, j2 :: 0 <= j1 < j2 < |extra| ==> extra[j1].name != extra[j2].name
    ensures Table(t.columns + extra, t.rows).Valid()
  {
    var r := Table(t.columns + extra, t.rows);
    var m := |t.columns|;
    ExtendNames(t, extra);
    forall i | 0 <= i < |r.columns|
      ensures |r.columns[i].cells| == t.rows
    {
      if i < m {
        assert r.columns[i] == t.columns[i];
      } else {
        assert r.columns[i] == extra[i - m];
      }
    }
    forall c1, c2 | 0 <= c1 < c2 < |r.columns|
      ensures r.Names()[c1] != r.Names()[c2]
    {
      if c2 < m {
        assert r.Names()[c1] == t.Names()[c1] && r.Names()[c2] == t.Names()[c2];
      } else if c1 < m {
        assert r.Names()[c1] == t.Names()[c1] && t.Has(t.Names()[c1]);
        assert r.Names()[c2] == extra[c2 - m].name;
      } else {
        assert r.Names()[c1] == extra[c1 - m].name && r.Names()[c2] == extra[c2 - m].name;
      }
    }
  }

  lemma {:induction false} ExtendKeeps(t: Table, extra: seq<Column>)
    requires t.Valid() && Table(t.columns + extra, t.rows).Valid()
    ensures var r := Table(t.columns + extra, t.rows);
      forall n :: t.Has(n) ==> r.Has(n) && r.IndexOf(n) == t.IndexOf(n) && r.Col(n) == t.Col(n)
  {
    var r := Table(t.columns + extra, t.rows);
    ExtendNames(t, extra);
    forall n | t.Has(n)
      ensures r.Has(n) && r.IndexOf(n) == t.IndexOf(n) && r.Col(n) == t.Col(n)
    {
      var c := t.IndexOf(n);
      assert r.Names()[c] == n;
      var c' := r.IndexOf(n);
      assert r.Names()[c'] == r.Names()[c];
    }
  }

  lemma {:induction false} ExtendAdds(t: Table, extra: seq<Column>)
    requires Table(t.columns + extra, t.rows).Valid()
    ensures var r := Table(t.columns + extra, t.rows);
      forall j :: 0 <= j < |extra| ==>
        r.Has(extra[j].name) && r.IndexOf(extra[j].name) == |t.columns| + j && r.Col(extra[j].name) == extra[j].cells
  {
    var r := Table(t.columns + extra, t.rows);
    ExtendNames(t, extra);
    forall j | 0 <= j < |extra|
      ensures r.Has(extra[j].name) && r.IndexOf(extra[j].name) == |t.columns| + j && r.Col(extra[j].name) == extra[j].cells
    {
      var c := |t.columns| + j;
      assert r.Names()[c] == extra[j].name;
      assert r.columns[c] == extra[j];
      var c' := r.IndexOf(extra[j].name);
      assert r.Names()[c'] == r.Names()[c];
    }
  }

  lemma {:induction false} ExtendOnly(t: Table, extra: seq<Column>)
    ensures var r := Table(t.columns + extra, t.rows);
      forall n :: r.Has(n) ==> t.Has(n) || exists j :: 0 <= j < |extra| && extra[j].name == n
  {
    var r := Table(t.columns + extra, t.rows);
    var m := |t.columns|;
    ExtendNames(t, extra);
    forall n | r.Has(n)
      ensures t.Has(n) || exists j :: 0 <= j < |extra| && extra[j].name == n
    {
      var c := r.IndexOf(n);
      if c < m {
        assert t.Names()[c] == n;
      } else {
        assert extra[c - m].name == n;
      }
    }
  }

  /** The positions `i` with `mask[i]`, in increasing order. */
  function Kept(mask: seq<bool>): (k: seq<nat>)
    ensures |k| <= |mask|
    ensures forall j :: 0 <= j < |k| ==> k[j] < |mask| && mask[k[j]]
  {
    if |mask| == 0 then []
    else
      var last := |mask| - 1;
      Kept(mask[..last]) + (if mask[last] then [last] else [])
  }

  /** The kept positions are strictly increasing. */
  lemma {:induction false} KeptIncreasing(mask: seq<bool>)
    ensures forall j1, j2 :: 0 <= j1 < j2 < |Kept(mask)| ==> Kept(mask)[j1] < Kept(mask)[j2]
  {
    if |mask| > 0 {
      KeptIncreasing(mask[..|mask| - 1]);
    }
  }

  /** A position is kept exactly when it is marked. */
  lemma {:induction false} KeptComplete(mask: seq<bool>)
    ensures forall i :: 0 <= i < |mask| ==> (i in Kept(mask) <==> mask[i])
  {
    if |mask| > 0 {
      var last := |mask| - 1;
      var init := mask[..last];
      KeptComplete(init);
      assert forall i :: 0 <= i < last ==> mask[i] == init[i];
      forall i | 0 <= i < |mask| && i in Kept(mask)
        ensures mask[i]
      {
        var j :| 0 <= j < |Kept(mask)| && Kept(mask)[j] == i;
      }
    }
  }

  /** With no marked position nothing is kept. */
  lemma {:induction false} KeptNone(mask: seq<bool>)
    ensures (forall i :: 0 <= i < |mask| ==> !mask[i]) ==> Kept(mask) == []
  {
    if |mask| > 0 {
      KeptNone(mask[..|mask| - 1]);
    }
  }

  /** When every position is kept, the kept positions are 0, 1, ..., |mask| - 1. */
  lemma {:induction false} KeptAll(mask: seq<bool>)
    requires forall i :: 0 <= i < |mask| ==> mask[i]
    ensures |Kept(mask)| == |mask|
    ensures forall j :: 0 <= j < |mask| ==> Kept(mask)[j] == j
  {
    if |mask| > 0 {
      KeptAll(mask[..|mask| - 1]);
    }
  }

  /** Keeping all positions but one keeps |mask| - 1 of them. */
  lemma {:induction false} KeptAllBut(mask: seq<bool>, e: nat)
    requires e < |mask| && !mask[e]
    requires forall i :: 0 <= i < |mask| && i != e ==> mask[i]
    ensures |Kept(mask)| == |mask| - 1
  {
    var last := |mask| - 1;
    var init := mask[..last];
    if e == last {
      KeptAll(init);
      assert Kept(mask) == Kept(init);
    } else {
      KeptAllBut(init, e);
      assert Kept(mask) == Kept(init) + [last];
    }
  }

  /** The elements of `s` at the positions `k`, in the order of `k`. */
  function Select<T>(s: seq<T>, k: seq<nat>): (r: seq<T>)
    requires forall j :: 0 <= j < |k| ==> k[j] < |s|
  {
    seq(|k|, j requires 0 <= j < |k| => s[k[j]])
  }

  /** The rows `k` of `t`, in the order of `k`, with every column kept. */
  function SelectRows(t: Table, k: seq<nat>): (r: Table)
    requires t.Valid()
    requires forall j :: 0 <= j < |k| ==> k[j] < t.rows
    ensures r.Valid() && r.rows == |k| && r.Names() == t.Names()
    ensures forall n, j :: t.Has(n) && 0 <= j < |k| ==> r.Col(n)[j] == t.Col(n)[k[j]]
  {
    var r := Table(seq(|t.columns|, c requires 0 <= c < |t.columns| =>
                     Column(t.columns[c].name, Select(t.columns[c].cells, k))), |k|);
    assert r.Names() == t.Names();
    r
  }
}
