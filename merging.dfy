/**
  `merge_pixel_values`: the pixel columns are renamed with a suffix naming
  their kind and resolution, and the frames are joined side by side through
  `(x.T.append(y.T, sort=False)).T`, which matches rows by their index label.
 */
module Merging {
  import opened Frames

  const L_28_28: string := "_l_28_28"
  const RGB_28_28: string := "_rgb_28_28"

  /** `df.columns = [str(col) + suffix for col in df.columns]`. */
  function Suffixed(cols: seq<Series>, suffix: string): (r: seq<Series>)
    ensures |r| == |cols|
  {
    seq(|cols|, j requires 0 <= j < |cols| => Series(cols[j].name + suffix, cols[j].cells))
  }

  /** Appending one suffix keeps unique column names unique. */
  lemma SuffixedDistinct(cols: seq<Series>, suffix: string)
    requires Distinct(Names(cols))
    ensures Distinct(Names(Suffixed(cols, suffix)))
  {
    var r := Suffixed(cols, suffix);
    forall i, j | 0 <= i < j < |r| ensures Names(r)[i] != Names(r)[j] {
      var a, b := cols[i].name, cols[j].name;
      assert Names(cols)[i] == a && Names(cols)[j] == b;
      assert (a + suffix)[..|a|] == a && (b + suffix)[..|b|] == b;
    }
  }

  /** No luminance column name can equal an RGB column name once both are suffixed. */
  lemma SuffixesNeverCollide(a: string, b: string)
    ensures a + L_28_28 != b + RGB_28_28
  {
    if |a| == |b| + 2 {
      assert (a + L_28_28)[|a|] == '_';
      assert (b + RGB_28_28)[|b| + 2] == 'g';
    }
  }

  /** The labels of `b` that `a` lacks, in `b`'s order. */
  function NewLabels(b: seq<int>, a: seq<int>): (r: seq<int>)
    ensures forall x :: x in r <==> x in b && x !in a
  {
    if b == [] then []
    else (if b[0] in a then [] else [b[0]]) + NewLabels(b[1..], a)
  }

  lemma {:induction false} NewLabelsDistinct(b: seq<int>, a: seq<int>)
    requires Distinct(b)
    ensures Distinct(NewLabels(b, a))
  {
    if b != [] {
      NewLabelsDistinct(b[1..], a);
      var head := if b[0] in a then [] else [b[0]];
      forall j | 0 <= j < |b[1..]| ensures b[1..][j] != b[0] {
        assert b[1..][j] == b[j + 1];
      }
      assert b[0] !in b[1..];
      DistinctConcat(head, NewLabels(b[1..], a));
      assert NewLabels(b, a) == head + NewLabels(b[1..], a);
    }
  }

  lemma {:induction false} NewLabelsNone(b: seq<int>, a: seq<int>)
    requires forall i :: 0 <= i < |b| ==> b[i] in a
    ensures NewLabels(b, a) == []
  {
    if b != [] {
      assert forall i :: 0 <= i < |b[1..]| ==> b[1..][i] == b[i + 1];
      NewLabelsNone(b[1..], a);
    }
  }

  /** The cell of `s` at row label `x`, or NaN when `from` lacks that label. */
  function Lookup(s: Series, from: seq<int>, x: int): Cell
    requires |s.cells| == |from|
  {
    if x in from then s.cells[Position(from, x)] else Missing
  }

  /** The columns re-indexed from the labels `from` to the labels `to`. */
  function Realign(cols: seq<Series>, from: seq<int>, to: seq<int>): (r: seq<Series>)
    requires forall j :: 0 <= j < |cols| ==> |cols[j].cells| == |from|
    ensures |r| == |cols|
  {
    seq(|cols|, j requires 0 <= j < |cols| =>
      Series(cols[j].name, seq(|to|, p requires 0 <= p < |to| => Lookup(cols[j], from, to[p]))))
  }

  /**
    `(a.T.append(b.T, sort=False)).T`: the columns of `a` then those of `b`,
    over the labels of `a` followed by the labels only `b` has; a label a
    frame lacks gives NaN cells in that frame's columns.
   */
  function Concat(a: Frame, b: Frame): (r: Frame)
    requires WellFormed(a) && WellFormed(b)
    ensures WellFormed(r)
    ensures Names(r.cols) == Names(a.cols) + Names(b.cols)
    ensures forall x :: x in r.index <==> x in a.index || x in b.index
  {
    var index := a.index + NewLabels(b.index, a.index);
    NewLabelsDistinct(b.index, a.index);
    DistinctConcat(a.index, NewLabels(b.index, a.index));
    var r := Frame(index, Realign(a.cols, a.index, index) + Realign(b.cols, b.index, index));
    NamesConcat(Realign(a.cols, a.index, index), Realign(b.cols, b.index, index));
    r
  }

  /**
    The frame `merge_pixel_values` returns, given the two pixel frames after
    their renaming: RGB columns, then luminance columns, then metadata.
   */
  function Merged(meta: Frame, l: Frame, rgb: Frame): (r: Frame)
    requires WellFormed(meta) && WellFormed(l) && WellFormed(rgb)
    ensures WellFormed(r)
    ensures Names(r.cols) == Names(rgb.cols) + Names(l.cols) + Names(meta.cols)
  {
    Concat(rgb, Concat(l, meta))
  }

  /** The cells of a frame's row with label `x`, or NaN cells if it has no such row. */
  function RowOrBlank(f: Frame, x: int): (r: seq<Cell>)
    requires WellFormed(f)
    ensures |r| == |f.cols|
  {
    if x in f.index then seq(|f.cols|, j requires 0 <= j < |f.cols| => f.cols[j].cells[Position(f.index, x)])
    else seq(|f.cols|, j => Missing)
  }

  // ---------------------------------------------------------------------
  // Properties of the merge

  /**
    Rows are matched by label: the joined row with label `x` is the row of
    `a` with that label next to the row of `b` with that label, NaN standing
    in for a row a frame does not have.
   */
  lemma ConcatRowByLabel(a: Frame, b: Frame, x: int)
    requires WellFormed(a) && WellFormed(b) && x in Concat(a, b).index
    ensures RowOrBlank(Concat(a, b), x) == RowOrBlank(a, x) + RowOrBlank(b, x)
  {
    var r := Concat(a, b);
    var p := Position(r.index, x);
    var lhs, rhs := RowOrBlank(r, x), RowOrBlank(a, x) + RowOrBlank(b, x);
    forall j | 0 <= j < |lhs| ensures lhs[j] == rhs[j] {
      if j < |a.cols| {
        assert lhs[j] == Lookup(a.cols[j], a.index, x);
      } else {
        assert lhs[j] == Lookup(b.cols[j - |a.cols|], b.index, x);
      }
    }
  }

  lemma RealignSame(cols: seq<Series>, index: seq<int>)
    requires Distinct(index) && forall j :: 0 <= j < |cols| ==> |cols[j].cells| == |index|
    ensures Realign(cols, index, index) == cols
  {
    var r := Realign(cols, index, index);
    forall j | 0 <= j < |cols| ensures r[j] == cols[j] {
      forall p | 0 <= p < |index| ensures r[j].cells[p] == cols[j].cells[p] {
        PositionAt(index, p);
      }
    }
  }

  /** Frames over the same row labels are simply put side by side. */
  lemma ConcatAligned(a: Frame, b: Frame)
    requires WellFormed(a) && WellFormed(b) && a.index == b.index
    ensures Concat(a, b) == Frame(a.index, a.cols + b.cols)
  {
    NewLabelsNone(b.index, a.index);
    assert a.index + [] == a.index;
    RealignSame(a.cols, a.index);
    RealignSame(b.cols, b.index);
  }

  /**
    The merged frame has the RGB column names, then the luminance names,
    then the metadata names, so its width is the sum of the three widths.
   */
  lemma MergedColumns(meta: Frame, l: Frame, rgb: Frame)
    requires WellFormed(meta) && WellFormed(l) && WellFormed(rgb)
    ensures WellFormed(Merged(meta, l, rgb))
    ensures Names(Merged(meta, l, rgb).cols) == Names(rgb.cols) + Names(l.cols) + Names(meta.cols)
    ensures |Merged(meta, l, rgb).cols| == |rgb.cols| + |l.cols| + |meta.cols|
  {
    assert |Names(Merged(meta, l, rgb).cols)| == |Merged(meta, l, rgb).cols|;
  }

  /**
    Rows are aligned by label: the merged row with label `x` holds the RGB,
    luminance and metadata rows with that label, and the merged labels are
    those of the three frames together.
   */
  lemma MergedRowByLabel(meta: Frame, l: Frame, rgb: Frame, x: int)
    requires WellFormed(meta) && WellFormed(l) && WellFormed(rgb)
    ensures x in Merged(meta, l, rgb).index <==> x in rgb.index || x in l.index || x in meta.index
    ensures x in Merged(meta, l, rgb).index ==>
      RowOrBlank(Merged(meta, l, rgb), x) == RowOrBlank(rgb, x) + RowOrBlank(l, x) + RowOrBlank(meta, x)
  {
    if x in Merged(meta, l, rgb).index {
      ConcatRowByLabel(rgb, Concat(l, meta), x);
      if x in Concat(l, meta).index {
        ConcatRowByLabel(l, meta, x);
      } else {
        assert RowOrBlank(l, x) + RowOrBlank(meta, x) == RowOrBlank(Concat(l, meta), x);
      }
    }
  }

  /**
    When the three frames share their row labels (the 0..n-1 index that
    reading a CSV file gives), the merge keeps those labels and puts row i
    of each frame side by side in row i.
   */
  lemma MergedAligned(meta: Frame, l: Frame, rgb: Frame)
    requires WellFormed(meta) && WellFormed(l) && WellFormed(rgb)
    requires l.index == meta.index && rgb.index == meta.index
    ensures Merged(meta, l, rgb) == Frame(meta.index, rgb.cols + l.cols + meta.cols)
  {
    ConcatAligned(l, meta);
    ConcatAligned(rgb, Concat(l, meta));
  }

  /**
    The suffixes keep the merged names unique: given unique names in each
    input and no metadata name equal to a suffixed pixel name, the merged
    frame has no repeated column name.
   */
  lemma MergedNamesUnique(meta: Frame, l: Frame, rgb: Frame)
    requires WellFormed(meta) && WellFormed(l) && WellFormed(rgb)
    requires Distinct(Names(meta.cols)) && Distinct(Names(l.cols)) && Distinct(Names(rgb.cols))
    requires forall n :: n in Names(meta.cols) ==>
      n !in Names(Suffixed(l.cols, L_28_28)) && n !in Names(Suffixed(rgb.cols, RGB_28_28))
    ensures var l2, rgb2 := Frame(l.index, Suffixed(l.cols, L_28_28)), Frame(rgb.index, Suffixed(rgb.cols, RGB_28_28));
      Distinct(Names(Merged(meta, l2, rgb2).cols))
  {
    var ln, rn := Names(Suffixed(l.cols, L_28_28)), Names(Suffixed(rgb.cols, RGB_28_28));
    var l2, rgb2 := Frame(l.index, Suffixed(l.cols, L_28_28)), Frame(rgb.index, Suffixed(rgb.cols, RGB_28_28));
    MergedColumns(meta, l2, rgb2);
    SuffixedDistinct(l.cols, L_28_28);
    SuffixedDistinct(rgb.cols, RGB_28_28);
    DistinctConcat(ln, Names(meta.cols));
    forall n | n in rn ensures n !in ln + Names(meta.cols) {
      var j :| 0 <= j < |rn| && rn[j] == n;
      if n in ln {
        var k :| 0 <= k < |ln| && ln[k] == n;
        SuffixesNeverCollide(l.cols[k].name, rgb.cols[j].name);
      }
    }
    DistinctConcat(rn, ln + Names(meta.cols));
    assert rn + ln + Names(meta.cols) == rn + (ln + Names(meta.cols));
  }
}
