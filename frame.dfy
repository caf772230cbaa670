/** The DataFrame object that `clean_data` receives and updates in place.
    `df[name] = cells` replaces (or appends) one column of the frame it is
    applied to; `drop`, `get_dummies` and boolean indexing build new frames. */
module Frames {
  import opened Tables
  import opened Stats
  import opened Cleaning
  import opened Pipeline

  class Frame {
    var columns: seq<Column>
    var rows: nat

    /** The table the frame currently holds. */
    function Value(): Table
      reads this
    {
      Table(columns, rows)
    }

    constructor (t: Table)
      ensures Value() == t
    {
      columns := t.columns;
      rows := t.rows;
    }

    /** `name in df.columns`. */
    method Contains(name: string) returns (b: bool)
      ensures b <==> Value().Has(name)
    {
      b := name in Value().Names();
    }

    /** `df[name]`. */
    method Get(name: string) returns (cells: seq<Cell>)
      requires Value().Valid() && Value().Has(name)
      ensures |cells| == rows && cells == Value().Col(name)
    {
      cells := Value().Col(name);
    }

    /** `df[name] = cells`: the column is replaced where it stands, or
        appended when the frame has no such label. */
    method SetColumn(name: string, cells: seq<Cell>)
      requires Value().Valid() && |cells| == rows
      modifies this
      ensures Value() == old(Value()).Put(name, cells)
      ensures Value().Valid() && Value().Has(name) && Value().Col(name) == cells
    {
      var t := Value().Put(name, cells);
      columns := t.columns;
      rows := t.rows;
    }
  }

  /** Lines 29-30: the caller's frame gets its Age and Embarked gaps filled. */
  method ImputeInPlace(df: Frame)
    requires InputOk(df.Value())
    modifies df
    ensures df.Value() == ImputeEmbarked(ImputeAge(old(df.Value())))
  {
    ghost var t := df.Value();
    var age := df.Get(AGE);
    df.SetColumn(AGE, FillMissing(age, MedianFill(age)));
    assert df.Value() == ImputeAge(t);
    var emb := df.Get(EMBARKED);
    df.SetColumn(EMBARKED, FillMissing(emb, Str(Mode(PresentStrs(emb)))));
  }

  /** Line 37: the Sex column of the frame is replaced by its codes. */
  method EncodeSexInPlace(f: Frame)
    requires f.Value().Valid() && f.Value().Has(SEX)
    modifies f
    ensures f.Value() == EncodeSex(old(f.Value()))
  {
    var sex := f.Get(SEX);
    f.SetColumn(SEX, seq(|sex|, i requires 0 <= i < |sex| => SexCode(sex[i])));
  }

  /** Lines 42-43: Age and Fare are replaced by their scaled values when both exist. */
  method StandardiseInPlace(g: Frame, ageScale: real, fareScale: real)
    requires Standardise.requires(g.Value(), ageScale, fareScale)
    modifies g
    ensures g.Value() == Standardise(old(g.Value()), ageScale, fareScale)
  {
    var hasAge := g.Contains(AGE);
    var hasFare := g.Contains(FARE);
    if hasAge && hasFare {
      var a := g.Get(AGE);
      g.SetColumn(AGE, ScaleColumn(a, ageScale));
      var fare := g.Get(FARE);
      g.SetColumn(FARE, ScaleColumn(fare, fareScale));
    }
  }

  /** `clean_data(df)`: lines 29-30 overwrite two columns of the caller's
      frame, which therefore ends up imputed; the frame returned is a new
      one, built by the later steps. */
  method CleanData(df: Frame, ageScale: real, fareScale: real) returns (out: Frame)
    requires CleanPre(df.Value(), ageScale, fareScale)
    modifies df
    ensures df.Value() == ImputeEmbarked(ImputeAge(old(df.Value())))
    ensures fresh(out) && out.Value() == Clean(old(df.Value()), ageScale, fareScale)
  {
    ghost var t := df.Value();
    ImputeInPlace(df);
    var s1 := df.Value();
    ImputedReady(t, s1);
    var f := EncodedFrame(s1);
    var s3 := f.Value();
    EncodedReady(t, s1, s3);
    HotReady(t, ageScale, fareScale, s1, s3, OneHot(s3));
    var g := ScaledFrame(s3, ageScale, fareScale);
    var p := g.Value();
    var hasFare := g.Contains(FARE);
    if hasFare {
      out := new Frame(FilterOutliers(p));
    } else {
      assert FilterOutliers(p) == p;
      out := g;
    }
  }

  /** Lines 34 and 37: the pruned frame is a new one, whose Sex column is
      then encoded in place. */
  method EncodedFrame(s1: Table) returns (f: Frame)
    requires s1.Valid() && Prune(s1).Has(SEX)
    ensures fresh(f) && f.Value() == EncodeSex(Prune(s1))
  {
    f := new Frame(Prune(s1));
    EncodeSexInPlace(f);
  }

  /** Lines 38 and 41-43: `get_dummies` builds a new frame, whose Age and
      Fare columns are then scaled in place. */
  method ScaledFrame(s3: Table, ageScale: real, fareScale: real) returns (g: Frame)
    requires s3.Valid() && s3.Has(EMBARKED) && DummyLabelsFresh(s3)
    requires Standardise.requires(OneHot(s3), ageScale, fareScale)
    ensures fresh(g) && g.Value() == Standardise(OneHot(s3), ageScale, fareScale)
  {
    g := new Frame(OneHot(s3));
    StandardiseInPlace(g, ageScale, fareScale);
  }
}
