/** The six steps of `clean_data`, each as a function from frame to frame,
    with the properties each step promises. */
module Cleaning {
  import opened Tables
  import opened Ordering
  import opened Stats

  const AGE := "Age"
  const FARE := "Fare"
  const SEX := "Sex"
  const EMBARKED := "Embarked"
  /** Line 38: the prefix Emb and the default separator `_` that `get_dummies` puts before each category. */
  const PREFIX := "Emb_"
  /** The identifier and free-text columns dropped by step 2. */
  const DROPPED := ["Cabin", "PassengerId", "Name", "Ticket"]

  // ---------------------------------------------------------------------
  // Cells

  /** The numbers of a column, in row order, skipping every other cell. */
  function PresentNums(cells: seq<Cell>): (r: seq<real>)
    ensures |r| <= |cells|
    ensures forall v :: v in r <==> Num(v) in cells
  {
    if |cells| == 0 then []
    else
      var last := |cells| - 1;
      PresentNums(cells[..last]) + (if cells[last].Num? then [cells[last].value] else [])
  }

  /** The texts of a column, in row order, skipping every other cell. */
  function PresentStrs(cells: seq<Cell>): (r: seq<string>)
    ensures |r| <= |cells|
    ensures forall v :: v in r <==> Str(v) in cells
  {
    if |cells| == 0 then []
    else
      var last := |cells| - 1;
      PresentStrs(cells[..last]) + (if cells[last].Str? then [cells[last].text] else [])
  }

  /** A column pandas can treat as numbers: no text anywhere. */
  predicate Numeric(cells: seq<Cell>)
  {
    forall i :: 0 <= i < |cells| ==> !cells[i].Str?
  }

  /** A categorical column of texts (and missing cells). */
  predicate Textual(cells: seq<Cell>)
  {
    forall i :: 0 <= i < |cells| ==> !cells[i].Num?
  }

  /** `Series.fillna(fill)`. */
  function FillMissing(cells: seq<Cell>, fill: Cell): (r: seq<Cell>)
  {
    seq(|cells|, i requires 0 <= i < |cells| => if cells[i].Missing? then fill else cells[i])
  }

  // ---------------------------------------------------------------------
  // Step 1: imputation

  /** The value `fillna(median())` writes: the median, or NaN when no age is present. */
  function MedianFill(cells: seq<Cell>): Cell
  {
    match Median(PresentNums(cells))
    case Some(m) => Num(m)
    case None => Missing
  }

  /** Line 29: fills each missing age with the median of the present ages. */
  function ImputeAge(t: Table): (r: Table)
    requires t.Valid() && t.Has(AGE) && Numeric(t.Col(AGE))
    ensures r.Valid() && r.rows == t.rows && r.Names() == t.Names()
    ensures forall n :: t.Has(n) && n != AGE ==> r.Col(n) == t.Col(n)
    ensures Numeric(r.Col(AGE))
    ensures forall i :: 0 <= i < t.rows && !t.Col(AGE)[i].Missing? ==> r.Col(AGE)[i] == t.Col(AGE)[i]
    ensures forall i :: 0 <= i < t.rows && t.Col(AGE)[i].Missing? ==>
      if PresentNums(t.Col(AGE)) == [] then r.Col(AGE)[i] == Missing
      else r.Col(AGE)[i] == Num(Median(PresentNums(t.Col(AGE))).value)
    ensures PresentNums(t.Col(AGE)) != [] ==> forall i :: 0 <= i < t.rows ==> r.Col(AGE)[i].Num?
  {
    var age := t.Col(AGE);
    t.Put(AGE, FillMissing(age, MedianFill(age)))
  }

  /** Line 30: fills each missing port with the most frequent present port.
      The mode of an empty column has no first element, so at least one port
      must be present. */
  function ImputeEmbarked(t: Table): (r: Table)
    requires t.Valid() && t.Has(EMBARKED) && Textual(t.Col(EMBARKED))
    requires PresentStrs(t.Col(EMBARKED)) != []
    ensures r.Valid() && r.rows == t.rows && r.Names() == t.Names()
    ensures forall n :: t.Has(n) && n != EMBARKED ==> r.Col(n) == t.Col(n)
    ensures Textual(r.Col(EMBARKED))
    ensures forall i :: 0 <= i < t.rows && !t.Col(EMBARKED)[i].Missing? ==>
      r.Col(EMBARKED)[i] == t.Col(EMBARKED)[i]
    ensures forall i :: 0 <= i < t.rows && t.Col(EMBARKED)[i].Missing? ==>
      r.Col(EMBARKED)[i].Str? && IsMode(r.Col(EMBARKED)[i].text, PresentStrs(t.Col(EMBARKED)))
    ensures forall i :: 0 <= i < t.rows ==> r.Col(EMBARKED)[i].Str?
  {
    var emb := t.Col(EMBARKED);
    t.Put(EMBARKED, FillMissing(emb, Str(Mode(PresentStrs(emb)))))
  }

  // ---------------------------------------------------------------------
  // Step 2: dropping columns

  /** Which columns survive when the labels `drop` are removed. */
  function KeepMask(t: Table, drop: seq<string>): (mask: seq<bool>)
    ensures |mask| == |t.columns|
  {
    seq(|t.columns|, i requires 0 <= i < |t.columns| => t.columns[i].name !in drop)
  }

  /** Selecting columns at increasing positions keeps a valid frame whose
      columns are those of `t`. */
  lemma {:induction false} ColumnsSelected(t: Table, k: seq<nat>)
    requires t.Valid()
    requires forall j :: 0 <= j < |k| ==> k[j] < |t.columns|
    requires forall j1, j2 :: 0 <= j1 < j2 < |k| ==> k[j1] < k[j2]
    ensures Table(Select(t.columns, k), t.rows).Valid()
    ensures forall n :: Table(Select(t.columns, k), t.rows).Has(n) ==>
      && t.Has(n)
      && Table(Select(t.columns, k), t.rows).Col(n) == t.Col(n)
      && t.IndexOf(n) == k[Table(Select(t.columns, k), t.rows).IndexOf(n)]
  {
    var r := Table(Select(t.columns, k), t.rows);
    assert forall j :: 0 <= j < |k| ==> r.Names()[j] == t.Names()[k[j]];
    forall n | r.Has(n)
      ensures t.Has(n) && r.Col(n) == t.Col(n) && t.IndexOf(n) == k[r.IndexOf(n)]
    {
      var j := r.IndexOf(n);
      assert t.Names()[k[j]] == n;
      var i := t.IndexOf(n);
      assert t.Names()[i] == t.Names()[k[j]];
    }
  }

  /** Line 34: removes the listed columns that the frame has; a listed label
      the frame lacks is skipped, not an error. */
  function WithoutColumns(t: Table, drop: seq<string>): (r: Table)
    requires t.Valid()
    ensures r.Valid() && r.rows == t.rows
    ensures forall n :: r.Has(n) <==> t.Has(n) && n !in drop
    ensures forall n :: r.Has(n) ==> r.Col(n) == t.Col(n)
    ensures forall a, b :: r.Has(a) && r.Has(b) && r.IndexOf(a) < r.IndexOf(b) ==> t.IndexOf(a) < t.IndexOf(b)
    ensures |r.columns| <= |t.columns|
    ensures (forall n :: t.Has(n) ==> n !in drop) ==> r == t
  {
    var mask := KeepMask(t, drop);
    var k := Kept(mask);
    KeptIncreasing(mask);
    ColumnsSelected(t, k);
    WithoutColumnsFacts(t, drop);
    Table(Select(t.columns, k), t.rows)
  }

  lemma {:induction false} WithoutColumnsFacts(t: Table, drop: seq<string>)
    requires t.Valid()
    ensures var r := Table(Select(t.columns, Kept(KeepMask(t, drop))), t.rows);
      && (forall n :: t.Has(n) && n !in drop ==> r.Has(n))
      && (forall n :: r.Has(n) ==> n !in drop)
      && ((forall n :: t.Has(n) ==> n !in drop) ==> r == t)
  {
    var mask := KeepMask(t, drop);
    var k := Kept(mask);
    var r := Table(Select(t.columns, k), t.rows);
    KeptComplete(mask);
    forall n | t.Has(n) && n !in drop
      ensures r.Has(n)
    {
      var i := t.IndexOf(n);
      assert mask[i];
      var j :| 0 <= j < |k| && k[j] == i;
      assert r.Names()[j] == n;
    }
    forall n | r.Has(n)
      ensures n !in drop
    {
      var j := r.IndexOf(n);
      assert mask[k[j]];
    }
    if forall n :: t.Has(n) ==> n !in drop {
      assert forall i :: 0 <= i < |mask| ==> mask[i] by {
        forall i | 0 <= i < |mask| ensures mask[i] {
          assert t.Names()[i] == t.columns[i].name;
        }
      }
      KeptAll(mask);
      assert Select(t.columns, k) == t.columns;
    }
  }

  /** Step 2: drop whichever of Cabin, PassengerId, Name and Ticket exist. */
  function Prune(t: Table): (r: Table)
    requires t.Valid()
    ensures r.Valid() && r.rows == t.rows
    ensures forall n :: r.Has(n) <==> t.Has(n) && n !in DROPPED
    ensures forall n :: r.Has(n) ==> r.Col(n) == t.Col(n)
    ensures forall a, b :: r.Has(a) && r.Has(b) && r.IndexOf(a) < r.IndexOf(b) ==> t.IndexOf(a) < t.IndexOf(b)
    ensures (forall n :: n in DROPPED ==> !t.Has(n)) ==> r == t
  {
    WithoutColumns(t, DROPPED)
  }

  /** Pruning twice is pruning once. */
  lemma {:induction false} PruneIdempotent(t: Table)
    requires t.Valid()
    ensures Prune(Prune(t)) == Prune(t)
  {
  }

  // ---------------------------------------------------------------------
  // Step 3: encoding Sex

  /** `{'male': 0, 'female': 1}` as `Series.map` applies it: anything else becomes NaN. */
  function SexCode(c: Cell): Cell
  {
    if c == Str("male") then Num(0.0)
    else if c == Str("female") then Num(1.0)
    else Missing
  }

  /** Line 37: replaces each Sex value by its code, 0 for male and 1 for
      female, and anything else by NaN. */
  function EncodeSex(t: Table): (r: Table)
    requires t.Valid() && t.Has(SEX)
    ensures r.Valid() && r.rows == t.rows && r.Names() == t.Names()
    ensures forall n :: t.Has(n) && n != SEX ==> r.Col(n) == t.Col(n)
    ensures forall i :: 0 <= i < t.rows ==>
      && (r.Col(SEX)[i] == Num(0.0) <==> t.Col(SEX)[i] == Str("male"))
      && (r.Col(SEX)[i] == Num(1.0) <==> t.Col(SEX)[i] == Str("female"))
      && (r.Col(SEX)[i] == Missing <==> t.Col(SEX)[i] != Str("male") && t.Col(SEX)[i] != Str("female"))
  {
    var sex := t.Col(SEX);
    t.Put(SEX, seq(|sex|, i requires 0 <= i < |sex| => SexCode(sex[i])))
  }

  /** The code is invertible on the two-word vocabulary. */
  function SexLabel(c: Cell): Cell
  {
    if c == Num(0.0) then Str("male")
    else if c == Num(1.0) then Str("female")
    else Missing
  }

  lemma {:induction false} SexCodeRoundTrip(t: Table, i: nat)
    requires t.Valid() && t.Has(SEX) && i < t.rows
    requires t.Col(SEX)[i] in {Str("male"), Str("female")}
    ensures SexLabel(EncodeSex(t).Col(SEX)[i]) == t.Col(SEX)[i]
  {
  }

  // ---------------------------------------------------------------------
  // Step 4: one-hot encoding of Embarked, dropping the first category

  /** The categories `get_dummies` finds: the distinct texts, sorted. */
  function Categories(cells: seq<Cell>): (cats: seq<string>)
    ensures StrictlySorted(cats)
    ensures forall v :: v in cats <==> Str(v) in cells
  {
    SortedDistinct(PresentStrs(cells))
  }

  /** Filling Embarked with one of its own values leaves its categories as they were. */
  lemma {:induction false} ImputeKeepsCategories(t: Table)
    requires t.Valid() && t.Has(EMBARKED) && Textual(t.Col(EMBARKED))
    requires PresentStrs(t.Col(EMBARKED)) != []
    ensures Categories(ImputeEmbarked(t).Col(EMBARKED)) == Categories(t.Col(EMBARKED))
  {
    var before := t.Col(EMBARKED);
    var after := ImputeEmbarked(t).Col(EMBARKED);
    forall v ensures Str(v) in after <==> Str(v) in before {
      if Str(v) in after {
        var i :| 0 <= i < |after| && after[i] == Str(v);
        if before[i].Missing? {
          assert v in PresentStrs(before);
        }
      }
      if Str(v) in before {
        var i :| 0 <= i < |before| && before[i] == Str(v);
        assert after[i] == Str(v);
      }
    }
    StrictlySortedUnique(Categories(after), Categories(before));
  }

  /** The indicator column for category `v`: 1 where the row holds `v`, else 0. */
  function Indicator(cells: seq<Cell>, v: string): (r: seq<Cell>)
    ensures |r| == |cells|
  {
    seq(|cells|, i requires 0 <= i < |cells| => if cells[i] == Str(v) then Num(1.0) else Num(0.0))
  }

  /** One `Emb_<v>` column for every category but the first. */
  function Dummies(cells: seq<Cell>): (ds: seq<Column>)
  {
    var cats := Categories(cells);
    if |cats| == 0 then []
    else seq(|cats| - 1, j requires 0 <= j < |cats| - 1 =>
           Column(PREFIX + cats[j + 1], Indicator(cells, cats[j + 1])))
  }

  /** No existing column already carries a label that step 4 generates
      (pandas would then hold two columns with one label). */
  predicate DummyLabelsFresh(t: Table)
    requires t.Valid() && t.Has(EMBARKED)
  {
    var cats := Categories(t.Col(EMBARKED));
    forall j :: 1 <= j < |cats| ==> !t.Has(PREFIX + cats[j])
  }

  /** The shape of every label step 4 generates: it starts with `Emb_`. */
  predicate IsDummyLabel(n: string)
  {
    |n| >= |PREFIX| && n[..|PREFIX|] == PREFIX
  }

  lemma {:induction false} DummyLabelShape()
    ensures forall v :: IsDummyLabel(PREFIX + v)
    ensures !IsDummyLabel(AGE) && !IsDummyLabel(FARE) && !IsDummyLabel(SEX) && !IsDummyLabel(EMBARKED)
    ensures forall n :: n in DROPPED ==> !IsDummyLabel(n)
  {
    assert FARE[..|PREFIX|][0] != PREFIX[0];
    assert EMBARKED[..|PREFIX|][3] != PREFIX[3];
  }

  lemma {:induction false} PrefixInjective(v: string, w: string)
    requires PREFIX + v == PREFIX + w
    ensures v == w
  {
    assert v == (PREFIX + v)[|PREFIX|..];
    assert w == (PREFIX + w)[|PREFIX|..];
  }

  /** The labels and contents of the indicator columns, which are new and distinct. */
  lemma {:induction false} DummiesLabelled(t: Table)
    requires t.Valid() && t.Has(EMBARKED) && DummyLabelsFresh(t)
    ensures var cats := Categories(t.Col(EMBARKED));
      var ds := Dummies(t.Col(EMBARKED));
      && |ds| == (if |cats| == 0 then 0 else |cats| - 1)
      && (forall j :: 0 <= j < |ds| ==>
            && ds[j].name == PREFIX + cats[j + 1]
            && ds[j].cells == Indicator(t.Col(EMBARKED), cats[j + 1])
            && |ds[j].cells| == t.rows
            && !t.Has(ds[j].name)
            && ds[j].name != EMBARKED)
      && (forall j1, j2 :: 0 <= j1 < j2 < |ds| ==> ds[j1].name != ds[j2].name)
  {
    var cats := Categories(t.Col(EMBARKED));
    var ds := Dummies(t.Col(EMBARKED));
    forall j | 0 <= j < |ds| ensures ds[j].name != EMBARKED {
      assert EMBARKED[3] != ds[j].name[3];
    }
    forall j1, j2 | 0 <= j1 < j2 < |ds| ensures ds[j1].name != ds[j2].name {
      assert cats[j1 + 1] != cats[j2 + 1];
      if ds[j1].name == ds[j2].name {
        PrefixInjective(cats[j1 + 1], cats[j2 + 1]);
      }
    }
  }

  /** Removing Embarked removes exactly one column. */
  lemma {:induction false} WithoutEmbarkedWidth(t: Table)
    requires t.Valid() && t.Has(EMBARKED)
    ensures |WithoutColumns(t, [EMBARKED]).columns| == |t.columns| - 1
  {
    var e := t.IndexOf(EMBARKED);
    var mask := KeepMask(t, [EMBARKED]);
    assert !mask[e];
    forall i | 0 <= i < |mask| && i != e ensures mask[i] {
      assert t.Names()[i] != t.Names()[e];
    }
    KeptAllBut(mask, e);
  }

  /** Line 38: one-hot encodes Embarked without its first category, labelling
      each indicator with the prefix Emb. Embarked goes, the other columns stay
      in order, and the indicator columns follow them. */
  function OneHot(t: Table): (r: Table)
    requires t.Valid() && t.Has(EMBARKED) && DummyLabelsFresh(t)
    ensures r.Valid() && r.rows == t.rows
    ensures !r.Has(EMBARKED)
    ensures forall n :: t.Has(n) && n != EMBARKED ==>
      r.Has(n) && r.Col(n) == t.Col(n) && r.IndexOf(n) < |t.columns| - 1
    ensures forall a, b ::
      (t.Has(a) && t.Has(b) && a != EMBARKED && b != EMBARKED && r.IndexOf(a) < r.IndexOf(b)) ==>
      t.IndexOf(a) < t.IndexOf(b)
    ensures var cats := Categories(t.Col(EMBARKED));
      && |r.columns| == |t.columns| - 1 + (if |cats| == 0 then 0 else |cats| - 1)
      && (forall j :: 1 <= j < |cats| ==>
            && r.Has(PREFIX + cats[j])
            && r.IndexOf(PREFIX + cats[j]) == |t.columns| - 2 + j
            && r.Col(PREFIX + cats[j]) == Indicator(t.Col(EMBARKED), cats[j]))
      && (forall n :: r.Has(n) ==>
            (t.Has(n) && n != EMBARKED) || exists j :: 1 <= j < |cats| && n == PREFIX + cats[j])
  {
    var w := WithoutColumns(t, [EMBARKED]);
    var ds := Dummies(t.Col(EMBARKED));
    DummiesLabelled(t);
    WithoutEmbarkedWidth(t);
    var r := w.Extend(ds);
    OneHotFacts(t, w, ds, r);
    r
  }

  lemma {:induction false} OneHotFacts(t: Table, w: Table, ds: seq<Column>, r: Table)
    requires t.Valid() && t.Has(EMBARKED) && DummyLabelsFresh(t)
    requires w == WithoutColumns(t, [EMBARKED]) && ds == Dummies(t.Col(EMBARKED))
    requires |w.columns| == |t.columns| - 1
    requires forall j :: 0 <= j < |ds| ==> |ds[j].cells| == w.rows && !w.Has(ds[j].name)
    requires forall j1, j2 :: 0 <= j1 < j2 < |ds| ==> ds[j1].name != ds[j2].name
    requires r == w.Extend(ds)
    ensures !r.Has(EMBARKED)
    ensures var cats := Categories(t.Col(EMBARKED));
      && (forall j :: 1 <= j < |cats| ==>
            && r.Has(PREFIX + cats[j])
            && r.IndexOf(PREFIX + cats[j]) == |t.columns| - 2 + j
            && r.Col(PREFIX + cats[j]) == Indicator(t.Col(EMBARKED), cats[j]))
      && (forall n :: r.Has(n) ==>
            (t.Has(n) && n != EMBARKED) || exists j :: 1 <= j < |cats| && n == PREFIX + cats[j])
  {
    var cats := Categories(t.Col(EMBARKED));
    DummiesLabelled(t);
    forall j | 1 <= j < |cats|
      ensures r.Has(PREFIX + cats[j]) && r.IndexOf(PREFIX + cats[j]) == |t.columns| - 2 + j
      ensures r.Col(PREFIX + cats[j]) == Indicator(t.Col(EMBARKED), cats[j])
    {
      assert ds[j - 1].name == PREFIX + cats[j];
    }
    forall n | r.Has(n)
      ensures (t.Has(n) && n != EMBARKED) || exists j :: 1 <= j < |cats| && n == PREFIX + cats[j]
    {
      if !w.Has(n) {
        var j :| 0 <= j < |ds| && ds[j].name == n;
        assert n == PREFIX + cats[j + 1];
      }
    }
  }

  /** Row i of indicator Emb_v is 1 exactly when row i held v, and 0 otherwise. */
  lemma {:induction false} OneHotIndicator(t: Table, j: nat, i: nat)
    requires t.Valid() && t.Has(EMBARKED) && DummyLabelsFresh(t)
    requires 1 <= j < |Categories(t.Col(EMBARKED))| && i < t.rows
    ensures var v := Categories(t.Col(EMBARKED))[j];
      && (OneHot(t).Col(PREFIX + v)[i] == Num(1.0) <==> t.Col(EMBARKED)[i] == Str(v))
      && (OneHot(t).Col(PREFIX + v)[i] == Num(0.0) <==> t.Col(EMBARKED)[i] != Str(v))
  {
  }

  /** At most one indicator is set in each row. */
  lemma {:induction false} AtMostOneIndicator(t: Table, j1: nat, j2: nat, i: nat)
    requires t.Valid() && t.Has(EMBARKED) && DummyLabelsFresh(t)
    requires 1 <= j1 < |Categories(t.Col(EMBARKED))| && 1 <= j2 < |Categories(t.Col(EMBARKED))|
    requires i < t.rows
    requires OneHot(t).Col(PREFIX + Categories(t.Col(EMBARKED))[j1])[i] == Num(1.0)
    requires OneHot(t).Col(PREFIX + Categories(t.Col(EMBARKED))[j2])[i] == Num(1.0)
    ensures j1 == j2
  {
    var cats := Categories(t.Col(EMBARKED));
    OneHotIndicator(t, j1, i);
    OneHotIndicator(t, j2, i);
  }

  /** All indicators of a row are 0 exactly when the row held the first
      (baseline) category, or held no category. */
  lemma {:induction false} AllZeroIffBaseline(t: Table, i: nat)
    requires t.Valid() && t.Has(EMBARKED) && DummyLabelsFresh(t)
    requires |Categories(t.Col(EMBARKED))| > 0 && i < t.rows
    ensures var cats := Categories(t.Col(EMBARKED));
      (forall j :: 1 <= j < |cats| ==> OneHot(t).Col(PREFIX + cats[j])[i] == Num(0.0))
      <==> (t.Col(EMBARKED)[i] == Str(cats[0]) || !t.Col(EMBARKED)[i].Str?)
  {
    var cells := t.Col(EMBARKED);
    var cats := Categories(cells);
    var r := OneHot(t);
    IndicatorsZero(cells, cats, i);
    assert forall j :: 1 <= j < |cats| ==> r.Col(PREFIX + cats[j]) == Indicator(cells, cats[j]);
  }

  /** The same fact on the Embarked cells and their indicator columns. */
  lemma {:induction false} IndicatorsZero(cells: seq<Cell>, cats: seq<string>, i: nat)
    requires cats == Categories(cells) && |cats| > 0 && i < |cells|
    ensures (forall j :: 1 <= j < |cats| ==> Indicator(cells, cats[j])[i] == Num(0.0))
      <==> (cells[i] == Str(cats[0]) || !cells[i].Str?)
  {
    var c := cells[i];
    if c.Str? && c != Str(cats[0]) {
      assert c in cells;
      var j :| 0 <= j < |cats| && cats[j] == c.text;
      assert Indicator(cells, cats[j])[i] == Num(1.0);
    } else {
      forall j | 1 <= j < |cats| ensures Indicator(cells, cats[j])[i] == Num(0.0) {
        assert cats[0] != cats[j];
      }
    }
  }

  /** The new columns are exactly Emb_v for the present values v other than the smallest. */
  lemma {:induction false} OneHotLabels(t: Table, v: string)
    requires t.Valid() && t.Has(EMBARKED) && DummyLabelsFresh(t)
    ensures var cats := Categories(t.Col(EMBARKED));
      (OneHot(t).Has(PREFIX + v) && !t.Has(PREFIX + v))
      <==> (Str(v) in t.Col(EMBARKED) && v != cats[0])
  {
    var cats := Categories(t.Col(EMBARKED));
    var r := OneHot(t);
    if r.Has(PREFIX + v) && !t.Has(PREFIX + v) {
      var j :| 1 <= j < |cats| && PREFIX + v == PREFIX + cats[j];
      PrefixInjective(v, cats[j]);
      assert cats[0] != cats[j];
    }
    if Str(v) in t.Col(EMBARKED) && v != cats[0] {
      var j :| 0 <= j < |cats| && cats[j] == v;
    }
  }

  // ---------------------------------------------------------------------
  // Step 5: standardisation

  /** v |-> (v - m) / d on the numbers of a column; other cells are kept
      (StandardScaler ignores NaN when fitting and keeps it when transforming). */
  function ScaleCells(cells: seq<Cell>, m: real, d: real): (r: seq<Cell>)
    requires d != 0.0
    ensures |r| == |cells|
    ensures forall i :: 0 <= i < |cells| ==> (r[i].Num? <==> cells[i].Num?) && (r[i].Missing? <==> cells[i].Missing?)
  {
    seq(|cells|, i requires 0 <= i < |cells| =>
      if cells[i].Num? then Num((cells[i].value - m) / d) else cells[i])
  }

  /** `StandardScaler.inverse_transform`: v |-> v * d + m. */
  function UnscaleCells(cells: seq<Cell>, m: real, d: real): (r: seq<Cell>)
    ensures |r| == |cells|
  {
    seq(|cells|, i requires 0 <= i < |cells| =>
      if cells[i].Num? then Num(cells[i].value * d + m) else cells[i])
  }

  lemma {:induction false} QuotientRoundTrip(v: real, m: real, d: real)
    requires d != 0.0
    ensures ((v - m) / d) * d + m == v
  {
  }

  /** Over the reals the scaling is undone exactly. */
  lemma {:induction false} ScaleRoundTrip(cells: seq<Cell>, m: real, d: real)
    requires d != 0.0
    ensures UnscaleCells(ScaleCells(cells, m, d), m, d) == cells
  {
    var sc := ScaleCells(cells, m, d);
    var back := UnscaleCells(sc, m, d);
    forall i | 0 <= i < |cells|
      ensures back[i] == cells[i]
    {
      if cells[i].Num? {
        var v := cells[i].value;
        assert sc[i] == Num((v - m) / d);
        QuotientRoundTrip(v, m, d);
        assert back[i] == Num(((v - m) / d) * d + m);
      } else {
        assert sc[i] == cells[i];
      }
    }
    assert back == cells;
  }

  /** The numbers of a scaled column are the scaled numbers. */
  lemma {:induction false} PresentScaled(cells: seq<Cell>, m: real, d: real)
    requires d != 0.0
    ensures PresentNums(ScaleCells(cells, m, d)) == Standardised(PresentNums(cells), m, d)
  {
    if |cells| > 0 {
      var last := |cells| - 1;
      var c := ScaleCells(cells, m, d);
      var xs := PresentNums(cells[..last]);
      PresentScaled(cells[..last], m, d);
      ScalePrefix(cells, m, d);
      if cells[last].Num? {
        var v := cells[last].value;
        assert c[last] == Num((v - m) / d);
        StandardisedSnoc(xs, v, m, d);
        assert PresentNums(cells) == xs + [v];
        assert PresentNums(c) == PresentNums(c[..last]) + [(v - m) / d];
      } else {
        assert c[last] == cells[last];
        assert PresentNums(cells) == xs;
        assert PresentNums(c) == PresentNums(c[..last]);
      }
    }
  }

  lemma {:induction false} ScalePrefix(cells: seq<Cell>, m: real, d: real)
    requires d != 0.0 && |cells| > 0
    ensures ScaleCells(cells, m, d)[..|cells| - 1] == ScaleCells(cells[..|cells| - 1], m, d)
  {
  }

  lemma {:induction false} StandardisedSnoc(xs: seq<real>, v: real, m: real, d: real)
    requires d != 0.0
    ensures Standardised(xs + [v], m, d) == Standardised(xs, m, d) + [(v - m) / d]
  {
    assert (xs + [v])[..|xs|] == xs;
  }

  /** Line 43, for one column: the scaler centres each value on the mean of
      the present values and divides by the scale `d`. */
  function ScaleColumn(cells: seq<Cell>, d: real): (r: seq<Cell>)
    requires d != 0.0
    ensures |r| == |cells|
    ensures forall i :: 0 <= i < |cells| ==> (r[i].Num? <==> cells[i].Num?) && (r[i].Missing? <==> cells[i].Missing?)
  {
    ScaleCells(cells, Mean(PresentNums(cells)), d)
  }

  /** Lines 42-43: when both Age and Fare exist, each is standardised with
      its own mean and scale. */
  function Standardise(t: Table, ageScale: real, fareScale: real): (r: Table)
    requires t.Valid() && ageScale > 0.0 && fareScale > 0.0
    requires t.Has(AGE) && t.Has(FARE) ==> Numeric(t.Col(AGE)) && Numeric(t.Col(FARE))
    ensures r.Valid() && r.rows == t.rows && r.Names() == t.Names()
    ensures !(t.Has(AGE) && t.Has(FARE)) ==> r == t
    ensures t.Has(AGE) && t.Has(FARE) ==>
      && (forall n :: t.Has(n) && n != AGE && n != FARE ==> r.Col(n) == t.Col(n))
      && r.Col(AGE) == ScaleColumn(t.Col(AGE), ageScale)
      && r.Col(FARE) == ScaleColumn(t.Col(FARE), fareScale)
  {
    if t.Has(AGE) && t.Has(FARE) then
      var t1 := t.Put(AGE, ScaleColumn(t.Col(AGE), ageScale));
      t1.Put(FARE, ScaleColumn(t1.Col(FARE), fareScale))
    else t
  }

  /** Scaling keeps every cell's kind, and the original values come back
      from the fitted mean and scale. */
  lemma {:induction false} StandardiseRoundTrip(t: Table, ageScale: real, fareScale: real)
    requires t.Valid() && ageScale > 0.0 && fareScale > 0.0
    requires t.Has(AGE) && t.Has(FARE) && Numeric(t.Col(AGE)) && Numeric(t.Col(FARE))
    ensures var r := Standardise(t, ageScale, fareScale);
      && UnscaleCells(r.Col(AGE), Mean(PresentNums(t.Col(AGE))), ageScale) == t.Col(AGE)
      && UnscaleCells(r.Col(FARE), Mean(PresentNums(t.Col(FARE))), fareScale) == t.Col(FARE)
      && (forall i :: 0 <= i < t.rows ==> (r.Col(AGE)[i].Missing? <==> t.Col(AGE)[i].Missing?))
      && (forall i :: 0 <= i < t.rows ==> (r.Col(FARE)[i].Missing? <==> t.Col(FARE)[i].Missing?))
  {
    ScaleRoundTrip(t.Col(AGE), Mean(PresentNums(t.Col(AGE))), ageScale);
    ScaleRoundTrip(t.Col(FARE), Mean(PresentNums(t.Col(FARE))), fareScale);
  }

  /** After scaling, the present values of a column have mean 0, and
      variance 1 when the scale is the population standard deviation. */
  lemma {:induction false} ScaledColumnMoments(cells: seq<Cell>, d: real)
    requires d > 0.0
    ensures Mean(PresentNums(ScaleColumn(cells, d))) == 0.0
    ensures d * d == Variance(PresentNums(cells)) && Variance(PresentNums(cells)) > 0.0 ==>
      Variance(PresentNums(ScaleColumn(cells, d))) == 1.0
  {
    var xs := PresentNums(cells);
    PresentScaled(cells, Mean(xs), d);
    StandardisedMeanZero(xs, d);
    if d * d == Variance(xs) && Variance(xs) > 0.0 {
      StandardisedUnitVariance(xs, d);
    }
  }

  // ---------------------------------------------------------------------
  // Step 6: the interquartile-range filter

  /** The first and third quartiles of the present fares. */
  function Quartiles(fare: seq<Cell>): (q: (real, real))
    requires PresentNums(fare) != []
  {
    var x := SortReals(PresentNums(fare));
    (Quantile(x, 0.25), Quantile(x, 0.75))
  }

  /** [Q1 - 1.5 IQR, Q3 + 1.5 IQR]; None when no fare is present (Q1 and Q3 are NaN). */
  function Fences(fare: seq<Cell>): (f: Option<(real, real)>)
    ensures f.None? <==> PresentNums(fare) == []
    ensures f.Some? ==>
      var (q1, q3) := Quartiles(fare);
      f.value.0 <= q1 <= q3 <= f.value.1 && f.value.0 == q1 - 1.5 * (q3 - q1) && f.value.1 == q3 + 1.5 * (q3 - q1)
  {
    if PresentNums(fare) == [] then None
    else
      var (q1, q3) := Quartiles(fare);
      QuantileMonotone(SortReals(PresentNums(fare)), 0.25, 0.75);
      Some((q1 - 1.5 * (q3 - q1), q3 + 1.5 * (q3 - q1)))
  }

  /** Line 50: a row passes when its fare is at least the lower fence and at
      most the upper one; a comparison with NaN is false. */
  predicate WithinFences(c: Cell, f: Option<(real, real)>)
  {
    f.Some? && c.Num? && f.value.0 <= c.value <= f.value.1
  }

  /** The rows the filter keeps, in increasing order. */
  function KeptRows(fare: seq<Cell>): (k: seq<nat>)
    ensures |k| <= |fare|
    ensures forall j :: 0 <= j < |k| ==> k[j] < |fare|
    ensures forall j1, j2 :: 0 <= j1 < j2 < |k| ==> k[j1] < k[j2]
    ensures forall i :: 0 <= i < |fare| ==> (i in k <==> WithinFences(fare[i], Fences(fare)))
    ensures Fences(fare).None? ==> k == []
  {
    var f := Fences(fare);
    var mask := seq(|fare|, i requires 0 <= i < |fare| => WithinFences(fare[i], f));
    KeptIncreasing(mask);
    KeptComplete(mask);
    KeptNone(mask);
    Kept(mask)
  }

  /** Lines 46-50: when Fare exists, keeps only the rows whose fare lies
      within the interquartile fences. */
  function FilterOutliers(t: Table): (r: Table)
    requires t.Valid() && (t.Has(FARE) ==> Numeric(t.Col(FARE)))
    ensures r.Valid() && r.Names() == t.Names() && r.rows <= t.rows
    ensures !t.Has(FARE) ==> r == t
    ensures t.Has(FARE) ==>
      && r.rows == |KeptRows(t.Col(FARE))|
      && forall n, j :: t.Has(n) && 0 <= j < r.rows ==> r.Col(n)[j] == t.Col(n)[KeptRows(t.Col(FARE))[j]]
  {
    if t.Has(FARE) then SelectRows(t, KeptRows(t.Col(FARE))) else t
  }

  /** Every row whose fare lies between the quartiles survives. */
  lemma {:induction false} InterquartileRowsKept(t: Table, i: nat)
    requires t.Valid() && t.Has(FARE) && i < t.rows
    requires t.Col(FARE)[i].Num? && PresentNums(t.Col(FARE)) != []
    requires Quartiles(t.Col(FARE)).0 <= t.Col(FARE)[i].value <= Quartiles(t.Col(FARE)).1
    ensures i in KeptRows(t.Col(FARE))
  {
  }

  /** A row with a missing fare never survives, and with no fare at all no row does. */
  lemma {:induction false} MissingFareDropped(t: Table)
    requires t.Valid() && t.Has(FARE) && Numeric(t.Col(FARE))
    ensures forall i :: 0 <= i < t.rows && t.Col(FARE)[i].Missing? ==> i !in KeptRows(t.Col(FARE))
    ensures PresentNums(t.Col(FARE)) == [] ==> FilterOutliers(t).rows == 0
  {
  }
}
