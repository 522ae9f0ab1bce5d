/**
  A three-row metadata frame worked through `clean_meta`: ages 5, NaN and
  15 and diagnosis codes nv, mel, nv give ages 5, 10 and 15, the two full
  names, and the codes 0, 1, 0 ("Melanocytic nevi" sorts before "Melanoma").
 */
module Scenario {
  import opened Wrappers
  import opened Frames
  import opened Lesions
  import opened Categorical
  import opened Imputation
  import opened MakeDataset

  const NEVI: string := "Melanocytic nevi"
  const MEL: string := "Melanoma"

  /** The example's input: two identifier columns, `dx` and `age`. */
  const DX: Series := Series("dx", [Text("nv"), Text("mel"), Text("nv")])
  const AGE: Series := Series("age", [Num(5.0), Missing, Num(15.0)])
  const EXAMPLE: Frame := Frame([0, 1, 2], [
    Series("lesion_id", [Text("a"), Text("b"), Text("c")]),
    Series("image_id", [Text("p"), Text("q"), Text("r")]),
    DX, AGE])

  /** The expected output columns. */
  const AGE_FILLED: Series := Series("age", [Num(5.0), Num(10.0), Num(15.0)])
  const LESION_TYPE: Series := Series("lesion_type", [Text(NEVI), Text(MEL), Text(NEVI)])
  const LESION_TYPE_IDX: Series := Series("lesion_type_idx", [Num(0.0), Num(1.0), Num(0.0)])

  lemma ExampleAges()
    ensures ImputeMean(AGE.cells) == AGE_FILLED.cells
  {
    var a := AGE.cells;
    assert a[1..] == [Missing, Num(15.0)] && a[1..][1..] == [Num(15.0)] && a[1..][1..][1..] == [];
    assert Count(a) == 2 && Sum(a) == 20.0;
  }

  /** The two names agree on "Mela" and differ at 'n' < 'o'. */
  lemma NevusBeforeMelanoma()
    ensures Less(NEVI, MEL)
  {
    var n, m := NEVI, MEL;
    assert Less(n[4..], m[4..]);
    assert n[3..][1..] == n[4..] && m[3..][1..] == m[4..];
    assert n[2..][1..] == n[3..] && m[2..][1..] == m[3..];
    assert n[1..][1..] == n[2..] && m[1..][1..] == m[2..];
  }

  /** Three rows naming a, b, a with a before b get the categories [a, b]. */
  lemma CategoriesOfTwo(a: string, b: string)
    requires Less(a, b)
    ensures Categories([Some(a), Some(b), Some(a)]) == [a, b]
  {
    var v := [Some(a), Some(b), Some(a)];
    LessIrreflexive(a);
    LessAsymmetric(a, b);
    assert v[1..] == [Some(b), Some(a)] && v[1..][1..] == [Some(a)] && v[1..][1..][1..] == [];
    assert Categories([Some(a)]) == [a];
    assert Insert([a], b) == [a, b];
  }

  /** ... and the codes 0, 1, 0. */
  lemma CodesOfTwo(a: string, b: string)
    requires Less(a, b)
    ensures Codes([Some(a), Some(b), Some(a)]) == [0, 1, 0]
  {
    var v := [Some(a), Some(b), Some(a)];
    CategoriesOfTwo(a, b);
    LessIrreflexive(a);
    var cats := Categories(v);
    assert cats[1..] == [b];
    var codes := Codes(v);
    assert codes[0] == 0 && codes[1] == 1 && codes[2] == 0;
  }

  lemma ExampleCodes()
    ensures Codes([Some(NEVI), Some(MEL), Some(NEVI)]) == [0, 1, 0]
  {
    NevusBeforeMelanoma();
    CodesOfTwo(NEVI, MEL);
  }

  lemma ExampleNames()
    ensures Names(EXAMPLE.cols) == ["lesion_id", "image_id", "dx", "age"]
    ensures Cleanable(EXAMPLE)
  {
    assert Names(EXAMPLE.cols) == ["lesion_id", "image_id", "dx", "age"];
  }

  lemma ExampleColumns()
    requires Names(EXAMPLE.cols) == ["lesion_id", "image_id", "dx", "age"]
    ensures Column(EXAMPLE, "dx") == DX && Column(EXAMPLE, "age") == AGE
  {
  }

  lemma ExampleWithout()
    ensures Without(EXAMPLE.cols, DROPPED_SET) == [AGE]
  {
    var c := EXAMPLE.cols;
    assert c[1..][1..][1..] == [AGE] && c[1..][1..][1..][1..] == [];
    assert Without(c[1..][1..][1..], DROPPED_SET) == [AGE];
    assert Without(c[1..][1..], DROPPED_SET) == [AGE];
    assert Without(c[1..], DROPPED_SET) == [AGE];
  }

  lemma ExampleLookups()
    ensures LesionType(Text("nv")) == Some(NEVI)
    ensures LesionType(Text("mel")) == Some(MEL)
  {
    assert "nv" in LESIONS_DICT && "mel" in LESIONS_DICT;
  }

  lemma ExampleLesionTypes()
    ensures NameCells(LesionTypes(DX.cells)) == LESION_TYPE.cells
  {
    ExampleLookups();
    assert LesionTypes(DX.cells) == [Some(NEVI), Some(MEL), Some(NEVI)];
  }

  lemma ExampleCellNames()
    ensures CellNames(LESION_TYPE.cells) == [Some(NEVI), Some(MEL), Some(NEVI)]
  {
  }

  lemma ExampleCodeCells()
    ensures CodeCells([0, 1, 0]) == LESION_TYPE_IDX.cells
  {
  }

  lemma ExampleLesionIdx()
    ensures CodeCells(Codes(CellNames(LESION_TYPE.cells))) == LESION_TYPE_IDX.cells
  {
    ExampleCellNames();
    ExampleCodes();
    ExampleCodeCells();
  }

  lemma ExampleLesionColumns()
    ensures "dx" in Names(EXAMPLE.cols)
    ensures LesionTypeSeries(EXAMPLE) == LESION_TYPE
    ensures LesionIdxSeries(EXAMPLE) == LESION_TYPE_IDX
  {
    ExampleNames();
    ExampleColumns();
    ExampleLesionTypes();
    ExampleLesionIdx();
  }

  /**
    `clean_meta` on a frame whose only kept column is `age`: the result is
    the imputed age followed by the two lesion columns.
   */
  lemma CleanMetaOfParts(f: Frame, age: Series, lt: Series, lti: Series, filled: Series)
    requires Cleanable(f) && age.name == "age" && filled.name == "age"
    requires Without(f.cols, DROPPED_SET) == [age] && Column(f, "age") == age
    requires LesionTypeSeries(f) == lt && LesionIdxSeries(f) == lti
    requires ImputeMean(age.cells) == filled.cells
    ensures CleanMetaSpec(f) == Outcome(Frame(f.index, [filled, lt, lti]), None)
  {
    CleanMetaStructure(f);
    var kept := [age, lt, lti];
    assert Names(kept)[0] == "age";
    assert Position(Names(kept), "age") == 0;
  }

  /** `clean_meta` on the example: identifiers dropped, lesion columns appended, age imputed. */
  lemma CleanMetaExample()
    ensures CleanMetaSpec(EXAMPLE) == Outcome(Frame([0, 1, 2], [AGE_FILLED, LESION_TYPE, LESION_TYPE_IDX]), None)
  {
    ExampleNames();
    ExampleColumns();
    ExampleWithout();
    ExampleLesionColumns();
    ExampleAges();
    CleanMetaOfParts(EXAMPLE, AGE, LESION_TYPE, LESION_TYPE_IDX, AGE_FILLED);
  }
}
