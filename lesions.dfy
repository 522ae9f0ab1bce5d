/** The fixed dictionary from diagnosis code to the lesion's full name. */
module Lesions {
  import opened Wrappers
  import opened Frames

  /** `lesions_dict`: seven diagnosis codes and their full names, as spelled there. */
  const LESIONS_DICT: map<string, string> := map[
    "nv" := "Melanocytic nevi",
    "mel" := "Melanoma",
    "bkl" := "Benign keratosis-like lesions ",
    "bcc" := "Basal cell carcinoma",
    "akiec" := "Actinic keratoses",
    "vasc" := "Vascular lesions",
    "df" := "Dermatofibroma"
  ]

  const CODES: set<string> := {"nv", "mel", "bkl", "bcc", "akiec", "vasc", "df"}

  /**
    `lesions_dict.get` applied to one `dx` cell: the full name of a known code,
    and nothing (NaN) for an unknown code, a number or a missing cell.
   */
  function LesionType(dx: Cell): (r: Option<string>)
    ensures r.Some? ==> r.value in LESIONS_DICT.Values
  {
    if dx.Text? && dx.s in LESIONS_DICT then Some(LESIONS_DICT[dx.s]) else None
  }

  /** `meta_df['dx'].map(lesions_dict.get)`, row by row. */
  function LesionTypes(dx: seq<Cell>): (r: seq<Option<string>>)
    ensures |r| == |dx|
  {
    seq(|dx|, i requires 0 <= i < |dx| => LesionType(dx[i]))
  }

  /** The dictionary has exactly the seven codes, with seven distinct names. */
  lemma DictionaryShape()
    ensures LESIONS_DICT.Keys == CODES && |LESIONS_DICT| == 7
    ensures |LESIONS_DICT.Values| == 7
  {
    var names := {
      "Melanocytic nevi", "Melanoma", "Benign keratosis-like lesions ",
      "Basal cell carcinoma", "Actinic keratoses", "Vascular lesions", "Dermatofibroma"};
    forall v | v in LESIONS_DICT.Values ensures v in names {
      var k :| k in LESIONS_DICT && LESIONS_DICT[k] == v;
    }
    assert LESIONS_DICT["nv"] == "Melanocytic nevi" && LESIONS_DICT["mel"] == "Melanoma";
    assert LESIONS_DICT["bkl"] == "Benign keratosis-like lesions ";
    assert LESIONS_DICT["bcc"] == "Basal cell carcinoma" && LESIONS_DICT["akiec"] == "Actinic keratoses";
    assert LESIONS_DICT["vasc"] == "Vascular lesions" && LESIONS_DICT["df"] == "Dermatofibroma";
    assert LESIONS_DICT.Values == names;
  }

  /** A derived name is present exactly for a known code, and names a unique code. */
  lemma LesionTypeSpec(dx: Cell, other: Cell)
    ensures LesionType(dx).Some? <==> dx.Text? && dx.s in CODES
    ensures LesionType(dx).Some? ==> LesionType(dx).value == LESIONS_DICT[dx.s]
    ensures LesionType(dx).Some? && LesionType(dx) == LesionType(other) ==> dx == other
  {
    DictionaryShape();
  }
}
