# skin-pigment-analysis: the data preparation step, in Dafny

This project models `src/data/make_dataset.py` of skin-pigment-analysis, the
step that turns the HAM10000 metadata table and the 28 x 28 luminance and RGB
pixel tables into one training table:

- `lesions_dict`, the fixed map from diagnosis code to the lesion's full name;
- `clean_meta`, which adds `lesion_type` (the full name of `dx`) and
  `lesion_type_idx` (its pandas categorical code), drops `dx`, `lesion_id` and
  `image_id`, and fills the missing ages with the mean age;
- `clean_luminance` and `clean_rgb`, which drop the `label` column in place;
- `merge_pixel_values`, which suffixes the pixel column names and joins the
  three tables side by side, matching rows by their index label.

A pandas data frame is a `Frame`: row labels and named columns of cells, where
a cell is NaN (`Missing`), a string or a number (`Frames`). The two pandas
operations the code relies on are modelled exactly:

- column assignment overwrites a column of the same name where it stands,
  and otherwise appends a new column;
- `drop` raises a KeyError listing the labels that are not columns, and
  otherwise removes the named columns and keeps the others in order.

The functions mutate their arguments. So a table is a `Table` object
(`Tables`) whose `index` and `cols` fields the methods `SetColumn`, `Drop`
and `AddSuffix` update. The methods `CleanMeta`, `CleanLuminance`, `CleanRgb`
and `MergePixelValues` (`MakeDataset`) perform the source's statements in
order on such objects. Each one is proved against a pure function of the old
state:

- `CleanMetaSpec` for `clean_meta`;
- `Frames.Drop` for the label removal;
- `Merging.Merged` for the merge.

The properties are lemmas about those functions:

- `Lesions`: the dictionary;
- `Categorical`: the categorical codes, using a model of Python's string
  order (`Less`);
- `Imputation`: mean imputation;
- `Merging`: the transpose/append merge;
- `MakeDataset`: the composed cleaning;
- `Scenario`: a worked three-row example.

`clean_meta` can fail part-way, and the model keeps the changes it made before
the exception:

- a missing `dx` raises KeyError before anything changes;
- a missing `lesion_id` or `image_id` raises the drop's KeyError after the two
  lesion columns were added;
- a missing `age` raises AttributeError after the identifiers were dropped.

The only exceptions are pandas' own: KeyError for a missing column, and
AttributeError for a missing `age`. The transpose/append join does not refuse
frames with different row labels: it takes the union of the labels and fills
the gaps with NaN (`Concat`). When every age is missing, the mean is NaN and
`fillna(NaN)` changes nothing, so the ages stay missing.

## Model

| member | source | states |
|---|---|---|
| Lesions.DictionaryShape | src/data/make_dataset.py:48-56 | the dictionary's keys are exactly the seven codes nv, mel, bkl, bcc, akiec, vasc, df, and it has seven distinct full names |
| Lesions.LesionType | src/data/make_dataset.py:78 | a derived name, when there is one, is one of the dictionary's full names |
| Lesions.LesionTypes | src/data/make_dataset.py:78 | `dx.map(lesions_dict.get)` gives one entry per row; each entry's meaning is stated by `LesionTypeSpec` and `CleanMetaLesionType` |
| Lesions.LesionTypeSpec | src/data/make_dataset.py:78 | `dict.get` on a `dx` cell gives a name exactly for a string that is one of the seven codes, and that name is the dictionary's entry; two cells with the same name hold the same code |
| Categorical.LessIrreflexive | src/data/make_dataset.py:79 | no string sorts before itself under Python's `<` |
| Categorical.LessTransitive | src/data/make_dataset.py:79 | Python's `<` on strings is transitive |
| Categorical.LessTotal | src/data/make_dataset.py:79 | any two different strings are ordered one way or the other |
| Categorical.LessAsymmetric | src/data/make_dataset.py:79 | two strings are never each before the other |
| Categorical.Insert | src/data/make_dataset.py:79 | inserting a name into the sorted categories keeps them strictly sorted and adds exactly that name |
| Categorical.Categories | src/data/make_dataset.py:79 | the categories are strictly sorted and are exactly the names present in the column |
| Categorical.Codes | src/data/make_dataset.py:79 | `pd.Categorical(values).codes` gives one code per row; `CodeRange`, `CodeOrder` and `CodesContiguous` state what the codes are |
| Categorical.CategoryCount | src/data/make_dataset.py:79 | there are as many categories as distinct present names |
| Categorical.CodeRange | src/data/make_dataset.py:79 | a missing name gets code -1; a present name gets a code in [0, k-1], with k the number of distinct names |
| Categorical.CodeOrder | src/data/make_dataset.py:79 | two rows get equal codes exactly when their names are equal; for present names the code order is the lexicographic order of the names, in both directions |
| Categorical.CodesContiguous | src/data/make_dataset.py:79 | every code in [0, k-1] is taken by some row |
| Imputation.Mean | src/data/make_dataset.py:87 | `age.mean()` with NaN skipped exists exactly when some age is present; `MeanBounds` bounds it by the present values |
| Imputation.ImputeMean | src/data/make_dataset.py:87 | `fillna(mean)` keeps the length and every present cell; `ImputeMeanSpec` states what the missing cells become |
| Imputation.FillNa | src/data/make_dataset.py:87 | `fillna` keeps the column's length |
| Imputation.CountPositive | src/data/make_dataset.py:87 | some cell is numeric exactly when the count of non-missing cells is positive |
| Imputation.SumBounds | src/data/make_dataset.py:87 | the sum of the present values lies between count times any lower and any upper bound |
| Imputation.MeanBounds | src/data/make_dataset.py:87 | the mean lies between any bounds of the present values |
| Imputation.ImputeMeanSpec | src/data/make_dataset.py:87 | present cells are unchanged; the mean exists exactly when a value is present, and every missing cell becomes it, so nothing stays missing; with no value present the column is unchanged |
| Imputation.ImputeMeanIdempotent | src/data/make_dataset.py:87 | imputing a second time changes nothing |
| Frames.Assign | src/data/make_dataset.py:78-79 | `df[name] = cells` keeps the row labels and afterwards the column `name` holds exactly those cells |
| Frames.AssignShape | src/data/make_dataset.py:78-79 | assigning to an existing name keeps the names, assigning to a new one appends exactly one column; other columns are kept and names stay unique |
| Frames.AssignNames | src/data/make_dataset.py:78-79 | the names after an assignment are the old names plus the assigned one |
| Frames.AssignWellFormed | src/data/make_dataset.py:87 | assigning a column as long as the index keeps the frame well formed |
| Frames.Drop | src/data/make_dataset.py:83 | `df.drop(columns)` keeps the row labels and never adds columns on success, and a failure is a KeyError naming at least one label; `DropSpec` states it in full |
| Frames.WithoutMembers | src/data/make_dataset.py:83 | a column survives a drop exactly when its label is not dropped |
| Frames.AbsentMembers | src/data/make_dataset.py:83 | the missing labels reported are exactly the requested labels that are not columns |
| Frames.DropSpec | src/data/make_dataset.py:83 | `drop` succeeds exactly when every label is a column; then it keeps the row labels and exactly the other columns; otherwise it raises a KeyError naming exactly the absent labels |
| Frames.WithoutNames | src/data/make_dataset.py:83 | after a drop a name is present exactly when it was present and not dropped |
| Frames.WithoutConcat | src/data/make_dataset.py:83 | dropping keeps the remaining columns in their order |
| Frames.WithoutDistinct | src/data/make_dataset.py:83 | dropping keeps column names unique |
| Frames.WithoutWellFormed | src/data/make_dataset.py:83 | dropping keeps the frame well formed |
| Frames.WithoutOne | src/data/make_dataset.py:138 | dropping one label removes exactly that column; the columns before and after it are unchanged |
| Frames.DropTwiceFails | src/data/make_dataset.py:138 | dropping the same label a second time raises a KeyError naming it |
| Tables.Table.SetColumn | src/data/make_dataset.py:78-79 | in-place column assignment: the object's new frame is the assignment applied to its old frame |
| Tables.Table.Drop | src/data/make_dataset.py:83 | in-place `drop`: on success the object holds the dropped frame; on KeyError it is unchanged and the error is returned |
| Tables.Table.AddSuffix | src/data/make_dataset.py:114-117 | `df.columns = [...]` renames every column with the suffix and keeps the rows |
| Merging.Suffixed | src/data/make_dataset.py:114-117 | renaming keeps the number of columns |
| Merging.SuffixedDistinct | src/data/make_dataset.py:114-117 | suffixing keeps unique names unique |
| Merging.SuffixesNeverCollide | src/data/make_dataset.py:114-117 | a luminance name never equals an RGB name once both are suffixed |
| Merging.NewLabels | src/data/make_dataset.py:122 | the appended row labels are exactly those of the second frame that the first lacks |
| Merging.NewLabelsDistinct | src/data/make_dataset.py:122 | the appended row labels are unique |
| Merging.Concat | src/data/make_dataset.py:122-123 | the transpose/append join is well formed; its names are the first frame's then the second's; its row labels are the union |
| Merging.ConcatRowByLabel | src/data/make_dataset.py:122-123 | the joined row with label x is the first frame's row x next to the second frame's row x, NaN standing in for a missing row |
| Merging.ConcatAligned | src/data/make_dataset.py:122-123 | frames with the same row labels are put side by side |
| Merging.Merged | src/data/make_dataset.py:122-123 | the returned frame is well formed with the RGB, then luminance, then metadata names; `MergedRowByLabel` and `MergedAligned` state its rows |
| Merging.MergedColumns | src/tests/test_make_dataset.py:171-179 | the merged names are the RGB names, then the luminance names, then the metadata names, so the width is the sum of the three widths |
| Merging.MergedRowByLabel | src/data/make_dataset.py:122-123 | merged row labels are the union of the three; row x holds the RGB, luminance and metadata rows x |
| Merging.MergedAligned | src/data/make_dataset.py:122-123 | with shared row labels, row i of the result is row i of each input, side by side |
| Merging.MergedNamesUnique | src/data/make_dataset.py:114-123 | with unique names in each input and no metadata name equal to a suffixed pixel name, the merged names are unique |
| MakeDataset.WithLesionColumns | src/data/make_dataset.py:78-79 | after lines 78-79 the row labels are unchanged and both lesion columns exist; `LesionColumnsNames` and `LesionColumnsAppended` state the rest |
| MakeDataset.LesionColumnsNames | src/data/make_dataset.py:78-79 | after lines 78-79 the names are the old ones plus `lesion_type` and `lesion_type_idx`, over the same rows |
| MakeDataset.AfterDrop | src/data/make_dataset.py:87 | the age step keeps the row labels |
| MakeDataset.AfterLesionColumns | src/data/make_dataset.py:83-87 | the drop and age steps keep the row labels |
| MakeDataset.CleanMetaSpec | src/data/make_dataset.py:61-89 | `clean_meta`, including a partial change before an exception, keeps the row labels |
| MakeDataset.DropIdentifiers | src/data/make_dataset.py:83 | dropping the identifiers succeeds exactly when `dx`, `lesion_id` and `image_id` are all columns; the KeyError names exactly the absent ones |
| MakeDataset.CleanMetaErrors | src/data/make_dataset.py:78-87 | `clean_meta` fails exactly when one of `dx`, `lesion_id`, `image_id`, `age` is missing: a KeyError for `dx` with the frame unchanged; a KeyError naming the missing identifiers, leaving the frame with the two lesion columns added; or an AttributeError for `age`, leaving the frame with the lesion columns added and the identifiers dropped |
| MakeDataset.LesionColumnsAppended | src/data/make_dataset.py:78-79 | on a frame without them, the two lesion columns are appended after the existing ones |
| MakeDataset.AgeKept | src/data/make_dataset.py:83-87 | after the drop, `age` still holds its original cells |
| MakeDataset.DropAfterLesionColumns | src/data/make_dataset.py:83 | on a cleanable frame the drop succeeds and the lesion columns come last |
| MakeDataset.CleanMetaStructure | src/data/make_dataset.py:78-87 | on a cleanable frame `clean_meta` succeeds with the kept columns, then the lesion columns, and `age` imputed in place |
| MakeDataset.CleanedShape | src/data/make_dataset.py:78-87 | the cleaned frame is well formed with unique names and holds both lesion columns and every kept column other than `age` |
| MakeDataset.CleanMetaColumns | src/tests/test_make_dataset.py:117-129 | the output columns are the input columns minus exactly `dx`, `lesion_id`, `image_id`, in order, then `lesion_type`, `lesion_type_idx`; the rows are the same and kept columns other than `age` keep their cells |
| MakeDataset.CleanMetaLesionType | src/data/make_dataset.py:78 | each row's `lesion_type` is the dictionary's name for its `dx`, and NaN for an unknown code |
| MakeDataset.CleanMetaLesionIdx | src/tests/test_make_dataset.py:138-144 | `lesion_type_idx` is -1 exactly for a NaN name, in [0, k-1] for a name, equal exactly for equal names and ordered like the names |
| MakeDataset.CleanMetaIdxContiguous | src/data/make_dataset.py:79 | every code in [0, k-1] appears in `lesion_type_idx` |
| MakeDataset.CleanMetaAge | src/tests/test_make_dataset.py:131-136 | present ages are unchanged, missing ages become the mean, none is missing if one was present, and all-missing ages stay missing |
| MakeDataset.CleanMetaTwiceFails | src/data/make_dataset.py:78 | cleaning the cleaned frame again raises KeyError for `dx` and changes nothing |
| MakeDataset.CleanMeta | src/data/make_dataset.py:61-89 | the method leaves the table in the state `CleanMetaSpec` gives, returns the table itself on success and the exception otherwise |
| MakeDataset.DropLabel | src/data/make_dataset.py:138 | dropping `label` raises KeyError(`label`) without the column and otherwise removes it |
| MakeDataset.WithoutLabel | src/data/make_dataset.py:138 | with unique names, removing `label` takes out exactly that column and leaves one column fewer |
| MakeDataset.CleanLuminance | src/data/make_dataset.py:127-139 | the table itself loses exactly its `label` column, other columns keep order and cells, rows are unchanged, and the same table is returned; without `label` a KeyError and no change |
| MakeDataset.CleanRgb | src/data/make_dataset.py:141-153 | the same contract as `CleanLuminance`, for the RGB table |
| MakeDataset.MergePixelValues | src/data/make_dataset.py:91-125 | the pixel tables are renamed in place with `_l_28_28` and `_rgb_28_28` (twice if the same table is passed twice), the metadata table is untouched, and the result is the merge of the renamed tables |
| Scenario.ExampleAges | src/data/make_dataset.py:87 | ages 5, NaN, 15 are imputed as 5, 10, 15 |
| Scenario.CodesOfTwo | src/data/make_dataset.py:79 | rows naming a, b, a with a before b get codes 0, 1, 0 |
| Scenario.ExampleCodes | src/data/make_dataset.py:79 | names "Melanocytic nevi", "Melanoma", "Melanocytic nevi" get codes 0, 1, 0 |
| Scenario.CleanMetaExample | src/data/make_dataset.py:61-89 | the three-row example is cleaned to ages 5, 10, 15, the two full names and codes 0, 1, 0 |

## Left out

- `main` and the `__main__` block: reading and writing CSV files, logging and path resolution are I/O.
- Floating point: ages and means are exact `real`s, so rounding in the mean is not modelled.
- Imputation.Mean: only `Num` cells count toward the mean and any other cell is skipped. pandas would raise a TypeError on an `age` column holding strings.
- Column dtypes, and the dtype coercion of transposing mixed-type frames, are not modelled. A categorical code is stored as a number cell, and a code of pandas' int8 type is an unbounded integer; with at most seven names it always fits.
- Tables.Table.Valid requires unique row labels and unique column names. pandas allows duplicates, and then `df[name]` returns a frame rather than a column; that case is outside the model.
- Merging.Suffixed: column labels are strings, so `str(col)` is the identity; non-string column labels are not modelled.
- Merging.Concat: when the row labels differ, the model places the second frame's new labels after the first frame's labels, in the order they appear. The order pandas gives the combined labels depends on the pandas version and is not modelled. The properties by label (`ConcatRowByLabel`, `MergedRowByLabel`) and the equal-label case (`MergedAligned`) do not depend on it.
- The lesion-name list fixture of the tests is not part of this model. The test that the raw data contains nulls states a fact about the data, not about the code, and is not modelled.
