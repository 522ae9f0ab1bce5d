/**
  The data preparation steps: cleaning the metadata frame, dropping the
  label column of the pixel frames, and merging the three frames.
 */
module MakeDataset {
  import opened Wrappers
  import opened Frames
  import opened Lesions
  import opened Categorical
  import opened Imputation
  import opened Merging
  import opened Tables

  /** The columns `clean_meta` drops once the lesion columns exist. */
  const DROPPED: seq<string> := ["dx", "lesion_id", "image_id"]
  const DROPPED_SET: set<string> := {"dx", "lesion_id", "image_id"}

  /** Derived names as cells: the name, or NaN. */
  function NameCells(names: seq<Option<string>>): (r: seq<Cell>)
    ensures |r| == |names|
  {
    seq(|names|, i requires 0 <= i < |names| => if names[i].Some? then Text(names[i].value) else Missing)
  }

  /** A column read as categorical values: strings are names, anything else is NaN. */
  function CellNames(cells: seq<Cell>): (r: seq<Option<string>>)
    ensures |r| == |cells|
  {
    seq(|cells|, i requires 0 <= i < |cells| => if cells[i].Text? then Some(cells[i].s) else None)
  }

  /** Integer codes as numeric cells. */
  function CodeCells(codes: seq<int>): (r: seq<Cell>)
    ensures |r| == |codes|
  {
    seq(|codes|, i requires 0 <= i < |codes| => Num(codes[i] as real))
  }

  /** What `clean_meta` leaves in its argument, and the exception it raised, if any. */
  datatype Outcome = Outcome(state: Frame, error: Option<Error>)

  /** The frame after lines 78 and 79: `lesion_type` and `lesion_type_idx` assigned. */
  function WithLesionColumns(f: Frame): (r: Frame)
    requires "dx" in Names(f.cols)
    ensures r.index == f.index
    ensures "lesion_type" in Names(r.cols) && "lesion_type_idx" in Names(r.cols)
  {
    var f1 := Assign(f, "lesion_type", NameCells(LesionTypes(Column(f, "dx").cells)));
    var cells := CodeCells(Codes(CellNames(Column(f1, "lesion_type").cells)));
    AssignNames(f1, "lesion_type_idx", cells, "lesion_type");
    Assign(f1, "lesion_type_idx", cells)
  }

  /** The names after lines 78 and 79: the old ones and the two lesion columns. */
  lemma LesionColumnsNames(f: Frame, n: string)
    requires "dx" in Names(f.cols)
    ensures WithLesionColumns(f).index == f.index
    ensures n in Names(WithLesionColumns(f).cols) <==>
      n in Names(f.cols) || n == "lesion_type" || n == "lesion_type_idx"
  {
    var f1 := Assign(f, "lesion_type", NameCells(LesionTypes(Column(f, "dx").cells)));
    AssignNames(f, "lesion_type", NameCells(LesionTypes(Column(f, "dx").cells)), n);
    AssignNames(f1, "lesion_type_idx", CodeCells(Codes(CellNames(Column(f1, "lesion_type").cells))), n);
  }

  /** Line 87, once the identifiers are dropped: impute `age`, or fail if there is none. */
  function AfterDrop(f3: Frame): (r: Outcome)
    ensures r.state.index == f3.index
  {
    if "age" !in Names(f3.cols) then Outcome(f3, Some(AttributeError("age")))
    else Outcome(Assign(f3, "age", ImputeMean(Column(f3, "age").cells)), None)
  }

  /** Lines 83 to 87, once the lesion columns exist. */
  function AfterLesionColumns(f2: Frame): (r: Outcome)
    ensures r.state.index == f2.index
  {
    match Frames.Drop(f2, DROPPED)
    case Failure(e) => Outcome(f2, Some(e))
    case Success(f3) => AfterDrop(f3)
  }

  /**
    `clean_meta` on a frame, as the state it leaves and the exception it
    raises: a KeyError for a missing `dx` before anything changes; the drop's
    KeyError once the lesion columns were added; an AttributeError for a
    missing `age` once the identifiers were dropped; otherwise the cleaned frame.
   */
  function CleanMetaSpec(f: Frame): (r: Outcome)
    ensures r.state.index == f.index
  {
    if "dx" !in Names(f.cols) then Outcome(f, Some(KeyError(["dx"])))
    else
      LesionColumnsNames(f, "");
      AfterLesionColumns(WithLesionColumns(f))
  }

  /** Dropping the identifiers: a KeyError naming the missing ones, or the frame without them. */
  lemma DropIdentifiers(f: Frame)
    ensures Frames.Drop(f, DROPPED).Success? <==>
      "dx" in Names(f.cols) && "lesion_id" in Names(f.cols) && "image_id" in Names(f.cols)
    ensures Frames.Drop(f, DROPPED).Success? ==>
      Frames.Drop(f, DROPPED).value == Frame(f.index, Without(f.cols, DROPPED_SET))
    ensures Frames.Drop(f, DROPPED).Failure? ==>
      && Frames.Drop(f, DROPPED).error.KeyError?
      && forall n :: n in Frames.Drop(f, DROPPED).error.labels <==> n in DROPPED && n !in Names(f.cols)
  {
    DropSpec(f, DROPPED);
    assert (set l | l in DROPPED) == DROPPED_SET;
    assert "dx" in DROPPED && "lesion_id" in DROPPED && "image_id" in DROPPED;
  }

  /**
    `clean_meta` fails exactly when one of `dx`, `lesion_id`, `image_id`
    and `age` is missing: on `dx` before the frame changes, with a KeyError
    naming the missing identifiers, or with an AttributeError for `age`.
   */
  lemma CleanMetaErrors(f: Frame)
    ensures CleanMetaSpec(f).error == None <==> HasInputColumns(f)
    ensures "dx" !in Names(f.cols) ==> CleanMetaSpec(f) == Outcome(f, Some(KeyError(["dx"])))
    ensures "dx" in Names(f.cols) && ("lesion_id" !in Names(f.cols) || "image_id" !in Names(f.cols)) ==>
      && CleanMetaSpec(f).error.Some? && CleanMetaSpec(f).error.value.KeyError?
      && (forall n :: n in CleanMetaSpec(f).error.value.labels <==> n in DROPPED && n !in Names(f.cols))
      && CleanMetaSpec(f).state == WithLesionColumns(f)
    ensures ("dx" in Names(f.cols) && "lesion_id" in Names(f.cols) && "image_id" in Names(f.cols)
      && "age" !in Names(f.cols)) ==>
      && CleanMetaSpec(f).error == Some(AttributeError("age"))
      && CleanMetaSpec(f).state == Frame(f.index, Without(WithLesionColumns(f).cols, DROPPED_SET))
  {
    if "dx" in Names(f.cols) {
      var f2 := WithLesionColumns(f);
      assert CleanMetaSpec(f) == AfterLesionColumns(f2);
      LesionColumnsNames(f, "dx");
      LesionColumnsNames(f, "lesion_id");
      LesionColumnsNames(f, "image_id");
      LesionColumnsNames(f, "age");
      DropIdentifiers(f2);
      forall n | n in DROPPED ensures n in Names(f2.cols) <==> n in Names(f.cols) {
        LesionColumnsNames(f, n);
      }
      if Frames.Drop(f2, DROPPED).Success? {
        WithoutNames(f2.cols, DROPPED_SET, "age");
      }
    }
  }

  /** The four columns `clean_meta` reads. */
  predicate HasInputColumns(f: Frame) {
    "dx" in Names(f.cols) && "lesion_id" in Names(f.cols) && "image_id" in Names(f.cols) && "age" in Names(f.cols)
  }

  /** Inputs that `clean_meta` cleans: the four columns it reads, none of the two it adds. */
  predicate Cleanable(f: Frame) {
    && WellFormed(f) && Distinct(Names(f.cols))
    && HasInputColumns(f)
    && "lesion_type" !in Names(f.cols) && "lesion_type_idx" !in Names(f.cols)
  }

  function LesionTypeSeries(f: Frame): Series
    requires "dx" in Names(f.cols)
  {
    Series("lesion_type", NameCells(LesionTypes(Column(f, "dx").cells)))
  }

  function LesionIdxSeries(f: Frame): Series
    requires "dx" in Names(f.cols)
  {
    Series("lesion_type_idx", CodeCells(Codes(CellNames(LesionTypeSeries(f).cells))))
  }

  /** On a frame without them, lines 78 and 79 append the two lesion columns. */
  lemma LesionColumnsAppended(f: Frame)
    requires Distinct(Names(f.cols)) && "dx" in Names(f.cols)
    requires "lesion_type" !in Names(f.cols) && "lesion_type_idx" !in Names(f.cols)
    ensures WithLesionColumns(f) == Frame(f.index, f.cols + [LesionTypeSeries(f), LesionIdxSeries(f)])
  {
    var lt, lti := LesionTypeSeries(f), LesionIdxSeries(f);
    var f1 := Assign(f, "lesion_type", lt.cells);
    AssignShape(f, "lesion_type", lt.cells);
    NamesConcat(f.cols, [lt]);
    AssignShape(f1, "lesion_type_idx", lti.cells);
    assert f1.cols + [lti] == f.cols + [lt, lti];
  }

  /** The `age` column is found where it stands once the identifiers are dropped. */
  lemma AgeKept(f: Frame, extra: seq<Series>)
    requires Distinct(Names(f.cols)) && "age" in Names(f.cols)
    ensures var kept := Without(f.cols, DROPPED_SET) + extra;
      "age" in Names(kept) && Column(Frame(f.index, kept), "age") == Column(f, "age")
  {
    var ageCol := Column(f, "age");
    var g := Without(f.cols, DROPPED_SET);
    ColumnOf(f, ageCol);
    WithoutMembers(f.cols, DROPPED_SET);
    assert ageCol in g;
    WithoutDistinct(f.cols, DROPPED_SET);
    ColumnOf(Frame(f.index, g), ageCol);
    NamesConcat(g, extra);
    var p := Position(Names(g), "age");
    assert Names(g + extra)[p] == "age";
    assert Names(g + extra)[..p] == Names(g)[..p];
  }

  /** On a cleanable frame the drop of line 83 succeeds and keeps the lesion columns last. */
  lemma DropAfterLesionColumns(f: Frame)
    requires Cleanable(f)
    ensures Frames.Drop(WithLesionColumns(f), DROPPED) ==
      Success(Frame(f.index, Without(f.cols, DROPPED_SET) + [LesionTypeSeries(f), LesionIdxSeries(f)]))
  {
    var lt, lti := LesionTypeSeries(f), LesionIdxSeries(f);
    LesionColumnsAppended(f);
    var f2 := WithLesionColumns(f);
    WithoutConcat(f.cols, [lt, lti], DROPPED_SET);
    WithoutNothing([lt, lti], DROPPED_SET);
    DropIdentifiers(f2);
    LesionColumnsNames(f, "dx");
    LesionColumnsNames(f, "lesion_id");
    LesionColumnsNames(f, "image_id");
  }

  /**
    On a cleanable frame the steps compose to: the identifier columns
    dropped, the two lesion columns appended, and `age` imputed in place.
   */
  lemma CleanMetaStructure(f: Frame)
    requires Cleanable(f)
    ensures var kept := Without(f.cols, DROPPED_SET) + [LesionTypeSeries(f), LesionIdxSeries(f)];
      && "age" in Names(kept)
      && CleanMetaSpec(f) == Outcome(Assign(Frame(f.index, kept), "age", ImputeMean(Column(f, "age").cells)), None)
  {
    var kept := Without(f.cols, DROPPED_SET) + [LesionTypeSeries(f), LesionIdxSeries(f)];
    DropAfterLesionColumns(f);
    assert CleanMetaSpec(f) == AfterDrop(Frame(f.index, kept));
    AgeKept(f, [LesionTypeSeries(f), LesionIdxSeries(f)]);
  }

  /** The names in a lesion column: the distinct categories of `lesion_type_idx`. */
  function DistinctNames(cells: seq<Cell>): set<string> {
    PresentNames(CellNames(cells))
  }

  /** The cleaned frame is well formed, with unique names, and holds the two lesion columns. */
  lemma CleanedShape(f: Frame)
    requires Cleanable(f)
    ensures var r := CleanMetaSpec(f).state;
      && WellFormed(r) && Distinct(Names(r.cols))
      && Names(r.cols) == Names(Without(f.cols, DROPPED_SET)) + ["lesion_type", "lesion_type_idx"]
      && LesionTypeSeries(f) in r.cols && LesionIdxSeries(f) in r.cols
      && forall s :: s in Without(f.cols, DROPPED_SET) && s.name != "age" ==> s in r.cols
  {
    var lt, lti := LesionTypeSeries(f), LesionIdxSeries(f);
    var g := Without(f.cols, DROPPED_SET);
    var kept := g + [lt, lti];
    CleanMetaStructure(f);
    WithoutDistinct(f.cols, DROPPED_SET);
    WithoutNames(f.cols, DROPPED_SET, "lesion_type");
    WithoutNames(f.cols, DROPPED_SET, "lesion_type_idx");
    NamesConcat(g, [lt, lti]);
    assert Names([lt, lti]) == ["lesion_type", "lesion_type_idx"];
    DistinctConcat(Names(g), ["lesion_type", "lesion_type_idx"]);
    WithoutWellFormed(f, DROPPED_SET);
    assert WellFormed(Frame(f.index, kept));
    var ages := ImputeMean(Column(f, "age").cells);
    ImputeMeanSpec(Column(f, "age").cells);
    AssignShape(Frame(f.index, kept), "age", ages);
    AssignWellFormed(Frame(f.index, kept), "age", ages);
  }

  /**
    On a frame holding `dx`, `lesion_id`, `image_id` and `age` (and not yet
    the lesion columns) `clean_meta` succeeds; the result has the input's
    columns without the three identifiers, in their order, then
    `lesion_type` and `lesion_type_idx`; the row labels, hence the number
    of rows, are unchanged, and every kept column other than `age` keeps
    its cells.
   */
  lemma CleanMetaColumns(f: Frame)
    requires Cleanable(f)
    ensures var r := CleanMetaSpec(f);
      && r.error == None
      && r.state.index == f.index && WellFormed(r.state)
      && Names(r.state.cols) == Names(Without(f.cols, DROPPED_SET)) + ["lesion_type", "lesion_type_idx"]
      && (forall n :: n in DROPPED_SET ==> n !in Names(r.state.cols))
      && forall s :: s in f.cols && s.name !in DROPPED_SET && s.name != "age" ==> s in r.state.cols
  {
    var r := CleanMetaSpec(f);
    CleanMetaStructure(f);
    assert r.error == None;
    CleanedShape(f);
    var names := Names(r.state.cols);
    forall n | n in DROPPED_SET ensures n !in names {
      WithoutNames(f.cols, DROPPED_SET, n);
    }
    WithoutMembers(f.cols, DROPPED_SET);
    forall s | s in f.cols && s.name !in DROPPED_SET && s.name != "age" ensures s in r.state.cols {
      assert s in Without(f.cols, DROPPED_SET);
    }
  }

  /**
    Each row's `lesion_type` is the dictionary's name for its `dx` code,
    and NaN for a code the dictionary lacks.
   */
  lemma CleanMetaLesionType(f: Frame, i: nat)
    requires Cleanable(f) && i < |f.index|
    ensures "lesion_type" in Names(CleanMetaSpec(f).state.cols)
    ensures var dx := Column(f, "dx").cells;
      var t := Column(CleanMetaSpec(f).state, "lesion_type").cells;
      && |t| == |f.index|
      && t[i] == if dx[i].Text? && dx[i].s in LESIONS_DICT then Text(LESIONS_DICT[dx[i].s]) else Missing
  {
    var r := CleanMetaSpec(f).state;
    CleanedShape(f);
    ColumnOf(r, LesionTypeSeries(f));
  }

  /**
    `lesion_type_idx` codes `lesion_type`: -1 for NaN, a code in [0, k-1]
    for a name, where k is the number of distinct names; two rows get the
    same code exactly when they have the same name; codes increase with the
    names' lexicographic order.
   */
  lemma CleanMetaLesionIdx(f: Frame, i: nat, j: nat)
    requires Cleanable(f) && i < |f.index| && j < |f.index|
    ensures "lesion_type" in Names(CleanMetaSpec(f).state.cols)
    ensures "lesion_type_idx" in Names(CleanMetaSpec(f).state.cols)
    ensures var r := CleanMetaSpec(f).state;
      var t := Column(r, "lesion_type").cells;
      var c := Column(r, "lesion_type_idx").cells;
      && |t| == |c| == |f.index|
      && (t[i].Missing? <==> c[i] == Num(-1.0))
      && (t[i].Text? ==> c[i].Num? && 0.0 <= c[i].x < |DistinctNames(t)| as real)
      && (c[i] == c[j] <==> t[i] == t[j])
      && c[i].Num? && c[j].Num?
      && (t[i].Text? && t[j].Text? ==> (c[i].x < c[j].x <==> Less(t[i].s, t[j].s)))
  {
    var r := CleanMetaSpec(f).state;
    var lt, lti := LesionTypeSeries(f), LesionIdxSeries(f);
    CleanedShape(f);
    ColumnOf(r, lt);
    ColumnOf(r, lti);
    var names := CellNames(lt.cells);
    CodeRange(names, i);
    CodeRange(names, j);
    CodeOrder(names, i, j);
  }

  /** Every code in [0, k-1] is taken by some row of `lesion_type_idx`. */
  lemma CleanMetaIdxContiguous(f: Frame, code: int)
    requires Cleanable(f)
    requires 0 <= code < |DistinctNames(LesionTypeSeries(f).cells)|
    ensures "lesion_type_idx" in Names(CleanMetaSpec(f).state.cols)
    ensures |Column(CleanMetaSpec(f).state, "lesion_type_idx").cells| == |f.index|
    ensures exists i :: 0 <= i < |f.index| && Column(CleanMetaSpec(f).state, "lesion_type_idx").cells[i] == Num(code as real)
  {
    var r := CleanMetaSpec(f).state;
    var lt, lti := LesionTypeSeries(f), LesionIdxSeries(f);
    CleanedShape(f);
    ColumnOf(r, lt);
    ColumnOf(r, lti);
    CodesContiguous(CellNames(lt.cells), code);
    var i :| 0 <= i < |lt.cells| && CellNames(lt.cells)[i].Some? && Codes(CellNames(lt.cells))[i] == code;
    assert lti.cells[i] == Num(code as real);
  }

  /**
    `age` after cleaning: present ages are unchanged; every missing age is
    the mean of the present ones, so none is missing when one was present;
    if none was present, the column is unchanged.
   */
  lemma CleanMetaAge(f: Frame)
    requires Cleanable(f)
    ensures "age" in Names(CleanMetaSpec(f).state.cols)
    ensures var a := Column(f, "age").cells;
      var b := Column(CleanMetaSpec(f).state, "age").cells;
      && |b| == |a|
      && (forall i :: 0 <= i < |a| && !a[i].Missing? ==> b[i] == a[i])
      && (SomePresent(a) ==> Mean(a).Some? && forall i :: 0 <= i < |a| && a[i].Missing? ==> b[i] == Num(Mean(a).value))
      && (SomePresent(a) ==> forall i :: 0 <= i < |b| ==> !b[i].Missing?)
      && (!SomePresent(a) ==> b == a)
  {
    CleanMetaStructure(f);
    ImputeMeanSpec(Column(f, "age").cells);
  }

  /** Cleaning the cleaned frame again fails: `dx` is gone. */
  lemma CleanMetaTwiceFails(f: Frame)
    requires Cleanable(f)
    ensures var r := CleanMetaSpec(f).state;
      CleanMetaSpec(r) == Outcome(r, Some(KeyError(["dx"])))
  {
    CleanMetaColumns(f);
  }

  // ---------------------------------------------------------------------
  // The operations, on tables updated in place

  /**
    `clean_meta(meta_df)`: changes `meta` step by step as `CleanMetaSpec`
    describes, including the changes made before an exception, and returns
    the same table on success.
   */
  method CleanMeta(meta: Table) returns (r: Result<Table, Error>)
    requires meta.Valid()
    modifies meta
    ensures meta.Valid()
    ensures meta.Value() == CleanMetaSpec(old(meta.Value())).state
    ensures match CleanMetaSpec(old(meta.Value())).error
      case None => r == Success(meta)
      case Some(e) => r == Failure(e)
  {
    if !meta.Has("dx") {
      return Failure(KeyError(["dx"]));
    }
    ghost var f := meta.Value();
    meta.SetColumn("lesion_type", NameCells(LesionTypes(meta.Get("dx"))));
    meta.SetColumn("lesion_type_idx", CodeCells(Codes(CellNames(meta.Get("lesion_type")))));
    assert meta.Value() == WithLesionColumns(f);
    var err := meta.Drop(DROPPED);
    if err.Some? {
      return Failure(err.value);
    }
    if !meta.Has("age") {
      return Failure(AttributeError("age"));
    }
    meta.SetColumn("age", ImputeMean(meta.Get("age")));
    return Success(meta);
  }

  /**
    Dropping `label` from a frame: a KeyError naming `label` when there is
    no such column, otherwise the frame without it.
   */
  lemma DropLabel(f: Frame)
    ensures "label" !in Names(f.cols) ==> Frames.Drop(f, ["label"]) == Failure(KeyError(["label"]))
    ensures "label" in Names(f.cols) ==> Frames.Drop(f, ["label"]) == Success(Frame(f.index, Without(f.cols, {"label"})))
  {
    assert (set l | l in ["label"]) == {"label"};
    assert ["label"][1..] == [];
    assert Absent(["label"], Names(f.cols)) == if "label" in Names(f.cols) then [] else ["label"];
  }

  /**
    With unique column names, removing `label` takes out exactly that
    column: those before it and after it keep their order and their cells.
   */
  lemma WithoutLabel(cols: seq<Series>)
    requires Distinct(Names(cols)) && "label" in Names(cols)
    ensures var p := Position(Names(cols), "label");
      && Without(cols, {"label"}) == cols[..p] + cols[p + 1..]
      && |Without(cols, {"label"})| == |cols| - 1
      && "label" !in Names(Without(cols, {"label"}))
  {
    var p := Position(Names(cols), "label");
    assert cols[p].name == "label";
    WithoutOne(cols, p);
    WithoutNames(cols, {"label"}, "label");
  }

  /**
    `clean_luminance(l_df)`: removes the `label` column from the table
    itself and returns that table; without a `label` column it raises a
    KeyError and leaves the table as it was.
   */
  method CleanLuminance(l: Table) returns (r: Result<Table, Error>)
    requires l.Valid()
    modifies l
    ensures l.Valid() && l.index == old(l.index)
    ensures "label" in Names(old(l.cols)) ==>
      && r == Success(l)
      && var p := Position(Names(old(l.cols)), "label");
         l.cols == old(l.cols)[..p] + old(l.cols)[p + 1..]
    ensures "label" !in Names(old(l.cols)) ==> r == Failure(KeyError(["label"])) && l.cols == old(l.cols)
  {
    DropLabel(l.Value());
    if l.Has("label") {
      WithoutLabel(l.cols);
    }
    var err := l.Drop(["label"]);
    if err.Some? {
      return Failure(err.value);
    }
    return Success(l);
  }

  /** `clean_rgb(rgb_df)`: the same removal of `label` as `clean_luminance`. */
  method CleanRgb(rgb: Table) returns (r: Result<Table, Error>)
    requires rgb.Valid()
    modifies rgb
    ensures rgb.Valid() && rgb.index == old(rgb.index)
    ensures "label" in Names(old(rgb.cols)) ==>
      && r == Success(rgb)
      && var p := Position(Names(old(rgb.cols)), "label");
         rgb.cols == old(rgb.cols)[..p] + old(rgb.cols)[p + 1..]
    ensures "label" !in Names(old(rgb.cols)) ==> r == Failure(KeyError(["label"])) && rgb.cols == old(rgb.cols)
  {
    DropLabel(rgb.Value());
    if rgb.Has("label") {
      WithoutLabel(rgb.cols);
    }
    var err := rgb.Drop(["label"]);
    if err.Some? {
      return Failure(err.value);
    }
    return Success(rgb);
  }

  /**
    `merge_pixel_values(meta_df, l_28_28_df, rgb_28_28_df)`: renames the
    columns of the two pixel tables in place (a table passed twice is
    renamed twice) and returns the merge of the renamed tables with the
    metadata.
   */
  method MergePixelValues(meta: Table, l: Table, rgb: Table) returns (merged: Frame)
    requires meta.Valid() && l.Valid() && rgb.Valid()
    modifies l, rgb
    ensures meta.Valid() && l.Valid() && rgb.Valid()
    ensures l.index == old(l.index) && rgb.index == old(rgb.index)
    ensures l != rgb ==> l.cols == Suffixed(old(l.cols), L_28_28)
    ensures rgb.cols == Suffixed(if l == rgb then Suffixed(old(l.cols), L_28_28) else old(rgb.cols), RGB_28_28)
    ensures meta != l && meta != rgb ==> meta.Value() == old(meta.Value())
    ensures merged == Merged(meta.Value(), l.Value(), rgb.Value())
  {
    l.AddSuffix(L_28_28);
    rgb.AddSuffix(RGB_28_28);
    merged := Merged(meta.Value(), l.Value(), rgb.Value());
  }
}
