/** `clean_data` as the composition of its six steps. */
module Pipeline {
  import opened Tables
  import opened Ordering
  import opened Stats
  import opened Cleaning

  /** What the model asks of the input frame. `clean_data` raises unless
      Age, Sex and Embarked exist (lines 29, 30, 37 and 38 index them
      unguarded) and Embarked has a present value (`mode()[0]`). The rest
      are restrictions of the model, not raise conditions: Age and Fare hold
      numbers and Embarked holds texts (no mixed-type columns), and no
      column already carries a label step 4 generates (pandas would then
      hold two columns with one label). */
  predicate InputOk(t: Table)
  {
    && t.Valid()
    && t.Has(AGE) && t.Has(SEX) && t.Has(EMBARKED)
    && Numeric(t.Col(AGE))
    && Textual(t.Col(EMBARKED)) && PresentStrs(t.Col(EMBARKED)) != []
    && (t.Has(FARE) ==> Numeric(t.Col(FARE)))
    && DummyLabelsFresh(t)
  }

  /** The two scales are parameters: the scaler fits each as the population
      standard deviation of its column, or as 1 when that deviation is zero. */
  predicate CleanPre(t: Table, ageScale: real, fareScale: real)
  {
    InputOk(t) && ageScale > 0.0 && fareScale > 0.0
  }

  /** A column no step touches. */
  predicate Passthrough(n: string)
  {
    n !in DROPPED && n != AGE && n != SEX && n != EMBARKED && n != FARE
  }

  /** Age after imputation: numbers only, and none missing when any was present. */
  predicate AgeImputed(t: Table, c: seq<Cell>)
    requires t.Valid() && t.Has(AGE)
  {
    && |c| == t.rows
    && Numeric(c)
    && (PresentNums(t.Col(AGE)) != [] ==> forall i :: 0 <= i < |c| ==> c[i].Num?)
  }

  // The stage invariants: what holds of the frame `s` that the pipeline has
  // made of the input `t` after each step.

  /** After step 1 (lines 29-30). */
  ghost predicate AfterImpute(t: Table, s: Table)
    requires InputOk(t)
  {
    && s.Valid() && s.rows == t.rows && s.Names() == t.Names()
    && (forall n :: t.Has(n) && n != AGE && n != EMBARKED ==> s.Col(n) == t.Col(n))
    && AgeImputed(t, s.Col(AGE))
    && Categories(s.Col(EMBARKED)) == Categories(t.Col(EMBARKED))
  }

  /** After step 2 (lines 33-34). */
  ghost predicate AfterPrune(t: Table, s: Table)
    requires InputOk(t)
  {
    && s.Valid() && s.rows == t.rows && s.Has(AGE) && s.Has(SEX) && s.Has(EMBARKED)
    && (forall n :: s.Has(n) <==> t.Has(n) && n !in DROPPED)
    && (forall n :: s.Has(n) && n != AGE && n != EMBARKED ==> s.Col(n) == t.Col(n))
    && AgeImputed(t, s.Col(AGE))
    && Categories(s.Col(EMBARKED)) == Categories(t.Col(EMBARKED))
  }

  /** After the Sex encoding (line 37). */
  ghost predicate AfterSex(t: Table, s: Table)
    requires InputOk(t)
  {
    && s.Valid() && s.rows == t.rows && s.Has(AGE) && s.Has(SEX) && s.Has(EMBARKED)
    && (forall n :: s.Has(n) <==> t.Has(n) && n !in DROPPED)
    && (forall n :: s.Has(n) && n != AGE && n != EMBARKED && n != SEX ==> s.Col(n) == t.Col(n))
    && AgeImputed(t, s.Col(AGE))
    && (forall i :: 0 <= i < t.rows ==> s.Col(SEX)[i] == SexCode(t.Col(SEX)[i]))
    && Categories(s.Col(EMBARKED)) == Categories(t.Col(EMBARKED))
  }

  /** The labels every later stage has. */
  ghost predicate Relabelled(t: Table, s: Table)
    requires InputOk(t) && s.Valid()
  {
    && (forall n :: n in DROPPED ==> !s.Has(n))
    && !s.Has(EMBARKED) && s.Has(AGE) && s.Has(SEX)
    && (s.Has(FARE) <==> t.Has(FARE))
    && (forall n :: t.Has(n) && Passthrough(n) ==> s.Has(n))
    && (var cats := Categories(t.Col(EMBARKED));
        && (forall j :: 1 <= j < |cats| ==> s.Has(PREFIX + cats[j]))
        && (forall n :: s.Has(n) && !t.Has(n) ==> exists j :: 1 <= j < |cats| && n == PREFIX + cats[j]))
  }

  /** After the one-hot encoding (line 38). */
  ghost predicate AfterOneHot(t: Table, s: Table)
    requires InputOk(t)
  {
    && s.Valid() && s.rows == t.rows
    && Relabelled(t, s)
    && (forall n :: t.Has(n) && Passthrough(n) ==> s.Col(n) == t.Col(n))
    && (t.Has(FARE) ==> s.Col(FARE) == t.Col(FARE))
    && AgeImputed(t, s.Col(AGE))
    && (forall i :: 0 <= i < t.rows ==> s.Col(SEX)[i] == SexCode(t.Col(SEX)[i]))
  }

  /** After the scaling (lines 41-43). */
  ghost predicate AfterScale(t: Table, s: Table)
    requires InputOk(t)
  {
    && s.Valid() && s.rows == t.rows
    && Relabelled(t, s)
    && (forall n :: t.Has(n) && Passthrough(n) ==> s.Col(n) == t.Col(n))
    && (t.Has(FARE) ==> Numeric(s.Col(FARE)))
    && AgeImputed(t, s.Col(AGE))
    && (forall i :: 0 <= i < t.rows ==> s.Col(SEX)[i] == SexCode(t.Col(SEX)[i]))
  }

  lemma {:induction false} ImputeStep(t: Table)
    requires InputOk(t)
    ensures AfterImpute(t, ImputeEmbarked(ImputeAge(t)))
  {
    ImputeKeepsCategories(ImputeAge(t));
  }

  lemma {:induction false} PruneStep(t: Table, s: Table)
    requires InputOk(t) && AfterImpute(t, s)
    ensures AfterPrune(t, Prune(s))
  {
    PruneLabels(t, s);
    PruneCells(t, s);
    PruneKeeps(s);
  }

  lemma {:induction false} PruneLabels(t: Table, s: Table)
    requires s.Valid() && s.Names() == t.Names()
    ensures forall n :: Prune(s).Has(n) <==> t.Has(n) && n !in DROPPED
  {
    assert forall n :: s.Has(n) <==> t.Has(n);
  }

  lemma {:induction false} PruneCells(t: Table, s: Table)
    requires t.Valid() && s.Valid() && s.Names() == t.Names()
    requires forall n :: t.Has(n) && n != AGE && n != EMBARKED ==> s.Col(n) == t.Col(n)
    ensures forall n :: Prune(s).Has(n) && n != AGE && n != EMBARKED ==> Prune(s).Col(n) == t.Col(n)
  {
    var r := Prune(s);
    forall n | r.Has(n) && n != AGE && n != EMBARKED
      ensures r.Col(n) == t.Col(n)
    {
      assert s.Has(n) && t.Has(n);
    }
  }

  lemma {:induction false} PruneKeeps(s: Table)
    requires s.Valid() && s.Has(AGE) && s.Has(SEX) && s.Has(EMBARKED)
    ensures Prune(s).Has(SEX)
    ensures Prune(s).Has(AGE) && Prune(s).Col(AGE) == s.Col(AGE)
    ensures Prune(s).Has(EMBARKED) && Prune(s).Col(EMBARKED) == s.Col(EMBARKED)
  {
    assert AGE !in DROPPED && SEX !in DROPPED && EMBARKED !in DROPPED;
  }

  lemma {:induction false} SexStep(t: Table, s: Table)
    requires InputOk(t) && AfterPrune(t, s)
    ensures s.Has(SEX) && AfterSex(t, EncodeSex(s))
  {
    SexLabels(t, s);
    SexCodes(s);
    assert s.Col(SEX) == t.Col(SEX);
  }

  lemma {:induction false} SexLabels(t: Table, s: Table)
    requires s.Valid() && s.Has(SEX)
    requires forall n :: s.Has(n) <==> t.Has(n) && n !in DROPPED
    ensures forall n :: EncodeSex(s).Has(n) <==> t.Has(n) && n !in DROPPED
  {
    assert EncodeSex(s).Names() == s.Names();
  }

  lemma {:induction false} SexCodes(s: Table)
    requires s.Valid() && s.Has(SEX)
    ensures forall i :: 0 <= i < s.rows ==> EncodeSex(s).Col(SEX)[i] == SexCode(s.Col(SEX)[i])
  {
    var sex := s.Col(SEX);
    assert EncodeSex(s).Col(SEX) == seq(|sex|, i requires 0 <= i < |sex| => SexCode(sex[i]));
  }

  lemma {:induction false} OneHotStep(t: Table, s: Table)
    requires InputOk(t) && AfterSex(t, s)
    ensures s.Has(EMBARKED) && DummyLabelsFresh(s) && AfterOneHot(t, OneHot(s))
  {
    OneHotLabelsStep(t, s);
    OneHotCellsStep(t, s);
  }

  lemma {:induction false} OneHotLabelsStep(t: Table, s: Table)
    requires InputOk(t) && AfterSex(t, s)
    ensures s.Has(EMBARKED) && DummyLabelsFresh(s)
    ensures OneHot(s).Valid() && Relabelled(t, OneHot(s))
  {
    OneHotNewLabels(s);
    OneHotDropsLabels(t, s);
    OneHotFareLabel(t, s);
    OneHotOnlyDummies(t, s);
    OneHotKeepsLabels(t, s);
    OneHotKeepsPassthrough(t, s);
    OneHotKeepsCategories(t, s);
  }

  lemma {:induction false} OneHotDropsLabels(t: Table, s: Table)
    requires s.Valid() && s.Has(EMBARKED) && DummyLabelsFresh(s)
    requires forall n :: s.Has(n) <==> t.Has(n) && n !in DROPPED
    requires forall n :: OneHot(s).Has(n) && !s.Has(n) ==> IsDummyLabel(n)
    ensures forall n :: n in DROPPED ==> !OneHot(s).Has(n)
  {
    DummyLabelShape();
  }

  lemma {:induction false} OneHotFareLabel(t: Table, s: Table)
    requires s.Valid() && s.Has(EMBARKED) && DummyLabelsFresh(s)
    requires forall n :: s.Has(n) <==> t.Has(n) && n !in DROPPED
    requires forall n :: OneHot(s).Has(n) && !s.Has(n) ==> IsDummyLabel(n)
    ensures OneHot(s).Has(FARE) <==> t.Has(FARE)
  {
    var r := OneHot(s);
    assert !IsDummyLabel(FARE) by { DummyLabelShape(); }
    assert FARE !in DROPPED;
    assert s.Has(FARE) <==> t.Has(FARE);
    assert s.Has(FARE) ==> r.Has(FARE);
  }

  /** The only labels step 4 adds are Emb_v for the categories after the first. */
  lemma {:induction false} OneHotOnlyDummies(t: Table, s: Table)
    requires t.Valid() && t.Has(EMBARKED)
    requires s.Valid() && s.Has(EMBARKED) && DummyLabelsFresh(s)
    requires forall n :: s.Has(n) <==> t.Has(n) && n !in DROPPED
    requires Categories(s.Col(EMBARKED)) == Categories(t.Col(EMBARKED))
    ensures var cats := Categories(t.Col(EMBARKED));
      forall n :: OneHot(s).Has(n) && !t.Has(n) ==> exists j :: 1 <= j < |cats| && n == PREFIX + cats[j]
  {
    var r := OneHot(s);
    var cats := Categories(s.Col(EMBARKED));
    forall n | r.Has(n) && !t.Has(n)
      ensures exists j :: 1 <= j < |cats| && n == PREFIX + cats[j]
    {
      assert !s.Has(n);
    }
  }

  lemma {:induction false} OneHotKeepsLabels(t: Table, s: Table)
    requires s.Valid() && s.Has(EMBARKED) && DummyLabelsFresh(s)
    requires forall n :: s.Has(n) <==> t.Has(n) && n !in DROPPED
    requires t.Has(AGE) && t.Has(SEX)
    ensures !OneHot(s).Has(EMBARKED) && OneHot(s).Has(AGE) && OneHot(s).Has(SEX)
  {
    assert AGE !in DROPPED && SEX !in DROPPED;
    assert s.Has(AGE) && s.Has(SEX);
  }

  lemma {:induction false} OneHotKeepsPassthrough(t: Table, s: Table)
    requires s.Valid() && s.Has(EMBARKED) && DummyLabelsFresh(s)
    requires forall n :: s.Has(n) <==> t.Has(n) && n !in DROPPED
    ensures forall n :: t.Has(n) && Passthrough(n) ==> OneHot(s).Has(n)
  {
    forall n | t.Has(n) && Passthrough(n)
      ensures OneHot(s).Has(n)
    {
      assert s.Has(n) && n != EMBARKED;
    }
  }

  lemma {:induction false} OneHotKeepsCategories(t: Table, s: Table)
    requires InputOk(t) && AfterSex(t, s) && s.Has(EMBARKED) && DummyLabelsFresh(s)
    ensures var cats := Categories(t.Col(EMBARKED));
      forall j :: 1 <= j < |cats| ==> OneHot(s).Has(PREFIX + cats[j])
  {
    var r := OneHot(s);
    var cats := Categories(s.Col(EMBARKED));
    assert cats == Categories(t.Col(EMBARKED));
    assert forall j :: 1 <= j < |cats| ==> r.Has(PREFIX + cats[j]);
  }

  /** The labels step 4 adds are indicator labels. */
  lemma {:induction false} OneHotNewLabels(s: Table)
    requires s.Valid() && s.Has(EMBARKED) && DummyLabelsFresh(s)
    ensures forall n :: OneHot(s).Has(n) && !s.Has(n) ==> IsDummyLabel(n)
  {
    DummyLabelShape();
    var r := OneHot(s);
    forall n | r.Has(n) && !s.Has(n) ensures IsDummyLabel(n) {
      var cats := Categories(s.Col(EMBARKED));
      var j :| 1 <= j < |cats| && n == PREFIX + cats[j];
    }
  }

  lemma {:induction false} OneHotCellsStep(t: Table, s: Table)
    requires InputOk(t) && AfterSex(t, s)
    requires s.Has(EMBARKED) && DummyLabelsFresh(s)
    requires OneHot(s).Valid() && Relabelled(t, OneHot(s))
    ensures AfterOneHot(t, OneHot(s))
  {
    var r := OneHot(s);
    assert r.Col(AGE) == s.Col(AGE) && r.Col(SEX) == s.Col(SEX);
  }

  lemma {:induction false} ScaleStep(t: Table, s: Table, ageScale: real, fareScale: real)
    requires CleanPre(t, ageScale, fareScale) && AfterOneHot(t, s)
    ensures Standardise.requires(s, ageScale, fareScale)
    ensures AfterScale(t, Standardise(s, ageScale, fareScale))
  {
    ScaleNumbersStep(t, s, ageScale, fareScale);
    ScaleLabelsStep(t, s, ageScale, fareScale);
    var r := Standardise(s, ageScale, fareScale);
    assert r.Col(SEX) == s.Col(SEX);
  }

  lemma {:induction false} ScaleNumbersStep(t: Table, s: Table, ageScale: real, fareScale: real)
    requires InputOk(t) && ageScale > 0.0 && fareScale > 0.0
    requires s.Valid() && s.rows == t.rows && s.Has(AGE) && (s.Has(FARE) <==> t.Has(FARE))
    requires AgeImputed(t, s.Col(AGE))
    requires t.Has(FARE) ==> s.Col(FARE) == t.Col(FARE)
    ensures Standardise.requires(s, ageScale, fareScale)
    ensures AgeImputed(t, Standardise(s, ageScale, fareScale).Col(AGE))
    ensures t.Has(FARE) ==> Numeric(Standardise(s, ageScale, fareScale).Col(FARE))
  {
    var r := Standardise(s, ageScale, fareScale);
    if s.Has(FARE) {
      assert r.Col(AGE) == ScaleColumn(s.Col(AGE), ageScale);
      ScaledAgeImputed(t, s.Col(AGE), ageScale);
      ScaledNumeric(s.Col(FARE), fareScale);
    } else {
      assert r == s;
    }
  }

  lemma {:induction false} ScaledAgeImputed(t: Table, c: seq<Cell>, d: real)
    requires t.Valid() && t.Has(AGE) && AgeImputed(t, c) && d != 0.0
    ensures AgeImputed(t, ScaleColumn(c, d))
  {
  }

  lemma {:induction false} ScaledNumeric(c: seq<Cell>, d: real)
    requires Numeric(c) && d != 0.0
    ensures Numeric(ScaleColumn(c, d))
  {
  }

  lemma {:induction false} ScaleLabelsStep(t: Table, s: Table, ageScale: real, fareScale: real)
    requires InputOk(t) && s.Valid() && Relabelled(t, s)
    requires Standardise.requires(s, ageScale, fareScale)
    ensures Standardise(s, ageScale, fareScale).Valid() && Relabelled(t, Standardise(s, ageScale, fareScale))
  {
    RelabelledByNames(t, s, Standardise(s, ageScale, fareScale));
  }

  /** The stage labels depend on the label list alone. */
  lemma {:induction false} RelabelledByNames(t: Table, s: Table, r: Table)
    requires InputOk(t) && s.Valid() && r.Valid() && r.Names() == s.Names()
    requires Relabelled(t, s)
    ensures Relabelled(t, r)
  {
    assert forall n :: r.Has(n) <==> s.Has(n);
  }

  // What a step-by-step evaluation of the pipeline needs to know at each
  // stage: that the next step may be applied.

  lemma {:induction false} ImputedReady(t: Table, s1: Table)
    requires InputOk(t) && s1 == ImputeEmbarked(ImputeAge(t))
    ensures s1.Valid() && Prune(s1).Has(SEX)
  {
    ImputeStep(t);
    PruneStep(t, s1);
  }

  lemma {:induction false} EncodedReady(t: Table, s1: Table, s3: Table)
    requires InputOk(t) && s1 == ImputeEmbarked(ImputeAge(t))
    requires s1.Valid() && Prune(s1).Has(SEX) && s3 == EncodeSex(Prune(s1))
    ensures s3.Valid() && s3.Has(EMBARKED) && DummyLabelsFresh(s3)
  {
    ImputeStep(t);
    PruneStep(t, s1);
    SexStep(t, Prune(s1));
    OneHotStep(t, s3);
  }

  lemma {:induction false} HotReady(t: Table, ageScale: real, fareScale: real, s1: Table, s3: Table, s4: Table)
    requires CleanPre(t, ageScale, fareScale) && s1 == ImputeEmbarked(ImputeAge(t))
    requires s1.Valid() && Prune(s1).Has(SEX) && s3 == EncodeSex(Prune(s1))
    requires s3.Valid() && s3.Has(EMBARKED) && DummyLabelsFresh(s3) && s4 == OneHot(s3)
    ensures Standardise.requires(s4, ageScale, fareScale)
    ensures Standardise(s4, ageScale, fareScale) == Prepared(t, ageScale, fareScale)
    ensures FilterOutliers.requires(Prepared(t, ageScale, fareScale))
    ensures Clean(t, ageScale, fareScale) == FilterOutliers(Prepared(t, ageScale, fareScale))
  {
    FilterStep(t, Prepared(t, ageScale, fareScale));
    ImputeStep(t);
    PruneStep(t, s1);
    SexStep(t, Prune(s1));
    OneHotStep(t, s3);
    ScaleStep(t, s4, ageScale, fareScale);
  }

  /** Steps 1 to 5 (lines 29-43): every step keeps all rows. */
  function Prepared(t: Table, ageScale: real, fareScale: real): (r: Table)
    requires CleanPre(t, ageScale, fareScale)
    ensures r.rows == t.rows
    ensures AfterScale(t, r)
  {
    var s1 := ImputeEmbarked(ImputeAge(t));
    ImputeStep(t);
    PruneStep(t, s1);
    var s2 := Prune(s1);
    SexStep(t, s2);
    var s3 := EncodeSex(s2);
    OneHotStep(t, s3);
    var s4 := OneHot(s3);
    ScaleStep(t, s4, ageScale, fareScale);
    Standardise(s4, ageScale, fareScale)
  }

  /** `clean_data` (lines 24-52). */
  function Clean(t: Table, ageScale: real, fareScale: real): (r: Table)
    requires CleanPre(t, ageScale, fareScale)
    ensures r.Valid() && r.rows <= t.rows
    ensures Relabelled(t, r)
    ensures !t.Has(FARE) ==> r.rows == t.rows
  {
    var p := Prepared(t, ageScale, fareScale);
    FilterStep(t, p);
    FilterOutliers(p)
  }

  lemma {:induction false} FilterStep(t: Table, s: Table)
    requires InputOk(t) && AfterScale(t, s)
    ensures FilterOutliers.requires(s)
    ensures FilterOutliers(s).Valid() && FilterOutliers(s).rows <= t.rows
    ensures Relabelled(t, FilterOutliers(s))
  {
    var r := FilterOutliers(s);
    assert forall n :: r.Has(n) <==> s.Has(n);
  }

  /** The rows of the cleaned frame are rows of the input, in their original
      order, with the cells of every untouched column intact. */
  lemma {:induction false} CleanKeepsRows(t: Table, ageScale: real, fareScale: real, n: string)
    requires CleanPre(t, ageScale, fareScale) && t.Has(FARE)
    requires t.Has(n) && Passthrough(n)
    ensures var p := Prepared(t, ageScale, fareScale);
      var r := Clean(t, ageScale, fareScale);
      && r.rows == |KeptRows(p.Col(FARE))|
      && (forall j1, j2 :: 0 <= j1 < j2 < r.rows ==> KeptRows(p.Col(FARE))[j1] < KeptRows(p.Col(FARE))[j2])
      && r.Has(n)
      && (forall j :: 0 <= j < r.rows ==> r.Col(n)[j] == t.Col(n)[KeptRows(p.Col(FARE))[j]])
  {
  }

  /** With a Fare column, a row survives exactly when its scaled fare lies
      within the fences. */
  lemma {:induction false} CleanFilter(t: Table, ageScale: real, fareScale: real, i: nat)
    requires CleanPre(t, ageScale, fareScale) && t.Has(FARE) && i < t.rows
    ensures var p := Prepared(t, ageScale, fareScale);
      && p.Has(FARE)
      && (i in KeptRows(p.Col(FARE)) <==> WithinFences(p.Col(FARE)[i], Fences(p.Col(FARE))))
  {
  }

  /** Without a Fare column the cleaned frame is the prepared one. */
  lemma {:induction false} CleanWithoutFare(t: Table, ageScale: real, fareScale: real)
    requires CleanPre(t, ageScale, fareScale) && !t.Has(FARE)
    ensures Clean(t, ageScale, fareScale) == Prepared(t, ageScale, fareScale)
  {
  }
}
