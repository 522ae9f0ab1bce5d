/**
  An abstract pandas data frame: row labels and named columns in order, and
  the two column operations the data preparation relies on: column
  assignment (`df[name] = values`) and dropping columns by label.
 */
module Frames {
  import opened Wrappers

  /** One cell: NaN, a string or a number. */
  datatype Cell = Missing | Text(s: string) | Num(x: real)

  /** A named column (a pandas Series). */
  datatype Series = Series(name: string, cells: seq<Cell>)

  /** Row labels (the frame's index) and the columns, in order. */
  datatype Frame = Frame(index: seq<int>, cols: seq<Series>)

  /** The exceptions pandas raises in the modelled code. */
  datatype Error = KeyError(labels: seq<string>) | AttributeError(attr: string)

  predicate Distinct<T(==)>(s: seq<T>) {
    forall i, j :: 0 <= i < j < |s| ==> s[i] != s[j]
  }

  function Names(cols: seq<Series>): seq<string> {
    seq(|cols|, j requires 0 <= j < |cols| => cols[j].name)
  }

  /** Every column is as long as the index, and row labels are unique. */
  predicate WellFormed(f: Frame) {
    && Distinct(f.index)
    && forall j :: 0 <= j < |f.cols| ==> |f.cols[j].cells| == |f.index|
  }

  /** First position of `x` in `s`. */
  function Position<T(==)>(s: seq<T>, x: T): (p: nat)
    requires x in s
    ensures p < |s| && s[p] == x && x !in s[..p]
  {
    if s[0] == x then 0 else 1 + Position(s[1..], x)
  }

  /** `f[name]`: the column labelled `name`. */
  function Column(f: Frame, name: string): Series
    requires name in Names(f.cols)
  {
    f.cols[Position(Names(f.cols), name)]
  }

  /**
    `f[name] = cells`: an existing column of that name is overwritten where
    it stands, otherwise the new column is appended after the last one.
   */
  function Assign(f: Frame, name: string, cells: seq<Cell>): (r: Frame)
    ensures r.index == f.index
    ensures name in Names(r.cols) && Column(r, name) == Series(name, cells)
  {
    if name in Names(f.cols) then
      var p := Position(Names(f.cols), name);
      var r := Frame(f.index, f.cols[p := Series(name, cells)]);
      assert Names(r.cols) == Names(f.cols);
      r
    else
      var r := Frame(f.index, f.cols + [Series(name, cells)]);
      assert Names(r.cols) == Names(f.cols) + [name];
      r
  }

  /** The columns whose label is not in `labels`, in their original order. */
  function Without(cols: seq<Series>, labels: set<string>): seq<Series> {
    if cols == [] then []
    else (if cols[0].name in labels then [] else [cols[0]]) + Without(cols[1..], labels)
  }

  /** The labels of `labels` that are not column names, in order. */
  function Absent(labels: seq<string>, names: seq<string>): seq<string> {
    if labels == [] then []
    else (if labels[0] in names then [] else [labels[0]]) + Absent(labels[1..], names)
  }

  /**
    `f.drop(columns=labels)`: a KeyError listing the labels that are not
    columns, or the frame without the columns so labelled.
   */
  function Drop(f: Frame, labels: seq<string>): (r: Result<Frame, Error>)
    ensures r.Success? ==> r.value.index == f.index && |r.value.cols| <= |f.cols|
    ensures r.Failure? ==> r.error.KeyError? && r.error.labels != []
  {
    var missing := Absent(labels, Names(f.cols));
    if missing != [] then Failure(KeyError(missing))
    else
      WithoutLength(f.cols, set l | l in labels);
      Success(Frame(f.index, Without(f.cols, set l | l in labels)))
  }

  // ---------------------------------------------------------------------
  // Lemmas about names, column assignment and dropping

  /** A column survives the drop exactly when its label is not dropped. */
  lemma {:induction false} WithoutMembers(cols: seq<Series>, labels: set<string>)
    ensures forall s :: s in Without(cols, labels) <==> s in cols && s.name !in labels
  {
    if cols != [] {
      WithoutMembers(cols[1..], labels);
      assert forall s :: s in cols <==> s == cols[0] || s in cols[1..] by {
        assert cols == [cols[0]] + cols[1..];
      }
    }
  }

  lemma {:induction false} AbsentMembers(labels: seq<string>, names: seq<string>)
    ensures forall l :: l in Absent(labels, names) <==> l in labels && l !in names
  {
    if labels != [] {
      AbsentMembers(labels[1..], names);
      assert forall l :: l in labels <==> l == labels[0] || l in labels[1..] by {
        assert labels == [labels[0]] + labels[1..];
      }
    }
  }

  /**
    The drop succeeds exactly when every label is a column name; it then
    keeps the row labels and exactly the columns not so labelled, and
    otherwise raises a KeyError naming exactly the labels that are missing.
   */
  lemma {:induction false} WithoutLength(cols: seq<Series>, labels: set<string>)
    ensures |Without(cols, labels)| <= |cols|
  {
    if cols != [] {
      WithoutLength(cols[1..], labels);
    }
  }

  lemma DropSpec(f: Frame, labels: seq<string>)
    ensures Drop(f, labels).Success? <==> forall l :: l in labels ==> l in Names(f.cols)
    ensures Drop(f, labels).Failure? ==>
      && Drop(f, labels).error.KeyError? && Drop(f, labels).error.labels != []
      && forall l :: l in Drop(f, labels).error.labels <==> l in labels && l !in Names(f.cols)
    ensures Drop(f, labels).Success? ==>
      && Drop(f, labels).value.index == f.index
      && forall s :: s in Drop(f, labels).value.cols <==> s in f.cols && s.name !in labels
  {
    var missing := Absent(labels, Names(f.cols));
    AbsentMembers(labels, Names(f.cols));
    WithoutMembers(f.cols, set l | l in labels);
    if missing != [] {
      assert missing[0] in missing;
    }
  }

  lemma NamesConcat(a: seq<Series>, b: seq<Series>)
    ensures Names(a + b) == Names(a) + Names(b)
  {
  }

  lemma NameIn(cols: seq<Series>, s: Series)
    requires s in cols
    ensures s.name in Names(cols)
  {
    var j :| 0 <= j < |cols| && cols[j] == s;
    assert Names(cols)[j] == s.name;
  }

  /** In a sequence without repetitions, an element's first position is its position. */
  lemma PositionAt<T>(s: seq<T>, j: nat)
    requires Distinct(s) && j < |s|
    ensures Position(s, s[j]) == j
  {
    var p := Position(s, s[j]);
    assert s[p] == s[j];
  }

  /** With unique names, looking a column up by its name finds that column. */
  lemma PositionOfName(cols: seq<Series>, j: nat)
    requires Distinct(Names(cols)) && j < |cols|
    ensures cols[j].name in Names(cols) && Position(Names(cols), cols[j].name) == j
  {
    assert Names(cols)[j] == cols[j].name;
    PositionAt(Names(cols), j);
  }

  lemma DistinctConcat<T>(x: seq<T>, y: seq<T>)
    requires Distinct(x) && Distinct(y) && forall e :: e in x ==> e !in y
    ensures Distinct(x + y)
  {
    forall i, j | 0 <= i < j < |x + y| ensures (x + y)[i] != (x + y)[j] {
      if i < |x| && j >= |x| {
        assert (x + y)[i] in x && (x + y)[j] == y[j - |x|];
      }
    }
  }

  lemma ColumnOf(f: Frame, s: Series)
    requires Distinct(Names(f.cols)) && s in f.cols
    ensures s.name in Names(f.cols) && Column(f, s.name) == s
  {
    var j :| 0 <= j < |f.cols| && f.cols[j] == s;
    NameIn(f.cols, s);
    PositionOfName(f.cols, j);
  }

  /**
    Assigning to an existing label keeps the column names, and every other
    column; assigning to a new label appends one column.
   */
  lemma {:induction false} AssignShape(f: Frame, name: string, cells: seq<Cell>)
    requires Distinct(Names(f.cols))
    ensures var r := Assign(f, name, cells);
      && Distinct(Names(r.cols))
      && (name in Names(f.cols) ==> Names(r.cols) == Names(f.cols))
      && (name !in Names(f.cols) ==> r.cols == f.cols + [Series(name, cells)])
      && forall s :: s in f.cols && s.name != name ==> s in r.cols
  {
    var r := Assign(f, name, cells);
    if name in Names(f.cols) {
      var p := Position(Names(f.cols), name);
      assert Names(r.cols) == Names(f.cols);
      forall s | s in f.cols && s.name != name ensures s in r.cols {
        var k :| 0 <= k < |f.cols| && f.cols[k] == s;
        assert Names(f.cols)[k] == s.name;
        assert k != p && r.cols[k] == s;
      }
    } else {
      NamesConcat(f.cols, [Series(name, cells)]);
      assert Names(r.cols) == Names(f.cols) + [name];
    }
  }

  /** The names after an assignment are the old ones plus the assigned label. */
  lemma AssignNames(f: Frame, name: string, cells: seq<Cell>, n: string)
    ensures n in Names(Assign(f, name, cells).cols) <==> n in Names(f.cols) || n == name
  {
    var r := Assign(f, name, cells);
    if name !in Names(f.cols) {
      assert Names(r.cols) == Names(f.cols) + [name];
    } else {
      assert Names(r.cols) == Names(f.cols);
    }
  }

  /** After a drop, a label is a column name exactly when it was one and was not dropped. */
  lemma WithoutNames(cols: seq<Series>, labels: set<string>, n: string)
    ensures n in Names(Without(cols, labels)) <==> n in Names(cols) && n !in labels
  {
    var r := Without(cols, labels);
    WithoutMembers(cols, labels);
    if n in labels {
      forall j | 0 <= j < |r| ensures Names(r)[j] != n {
        assert r[j] in r;
      }
    } else {
      if n in Names(cols) {
        var j :| 0 <= j < |cols| && Names(cols)[j] == n;
        assert cols[j] in r;
        NameIn(r, cols[j]);
      }
      if n in Names(r) {
        var j :| 0 <= j < |r| && Names(r)[j] == n;
        assert r[j] in cols;
        NameIn(cols, r[j]);
      }
    }
  }

  lemma AssignWellFormed(f: Frame, name: string, cells: seq<Cell>)
    requires WellFormed(f) && |cells| == |f.index|
    ensures WellFormed(Assign(f, name, cells))
  {
  }

  /** Dropping commutes with concatenation: the kept columns keep their order. */
  lemma {:induction false} WithoutConcat(a: seq<Series>, b: seq<Series>, labels: set<string>)
    ensures Without(a + b, labels) == Without(a, labels) + Without(b, labels)
  {
    if a == [] {
      assert a + b == b;
    } else {
      assert (a + b)[0] == a[0] && (a + b)[1..] == a[1..] + b;
      WithoutConcat(a[1..], b, labels);
    }
  }

  /** Nothing is dropped when no column carries one of the labels. */
  lemma {:induction false} WithoutNothing(cols: seq<Series>, labels: set<string>)
    requires forall j :: 0 <= j < |cols| ==> cols[j].name !in labels
    ensures Without(cols, labels) == cols
  {
    if cols != [] {
      WithoutNothing(cols[1..], labels);
    }
  }

  /** Dropping keeps the column names unique. */
  lemma {:induction false} WithoutDistinct(cols: seq<Series>, labels: set<string>)
    requires Distinct(Names(cols))
    ensures Distinct(Names(Without(cols, labels)))
  {
    if cols != [] {
      assert Names(cols[1..]) == Names(cols)[1..];
      WithoutDistinct(cols[1..], labels);
      WithoutMembers(cols[1..], labels);
      var head := if cols[0].name in labels then [] else [cols[0]];
      var rest := Without(cols[1..], labels);
      NamesConcat(head, rest);
      forall s | s in rest ensures s.name != cols[0].name {
        assert s in cols[1..];
        var j :| 0 <= j < |cols[1..]| && cols[1..][j] == s;
        assert Names(cols)[j + 1] == s.name && Names(cols)[0] == cols[0].name;
      }
      forall i, k | 0 <= i < k < |Names(head + rest)|
        ensures Names(head + rest)[i] != Names(head + rest)[k]
      {
        if head != [] && i == 0 {
          assert (head + rest)[k] in rest;
        }
      }
    }
  }

  /**
    Dropping one label of a frame with unique column names removes exactly
    the column so labelled: the columns before and after it stay as they were.
   */
  lemma {:induction false} WithoutOne(cols: seq<Series>, p: nat)
    requires Distinct(Names(cols)) && p < |cols|
    ensures Without(cols, {cols[p].name}) == cols[..p] + cols[p + 1..]
  {
    var n := cols[p].name;
    assert Names(cols[1..]) == Names(cols)[1..];
    if p == 0 {
      forall j | 0 <= j < |cols[1..]| ensures cols[1..][j].name !in {n} {
        assert Names(cols)[j + 1] == cols[j + 1].name && Names(cols)[0] == n;
      }
      WithoutNothing(cols[1..], {n});
    } else {
      assert Names(cols)[0] == cols[0].name && Names(cols)[p] == n;
      assert cols[1..][p - 1] == cols[p];
      assert Without(cols, {n}) == [cols[0]] + Without(cols[1..], {n});
      WithoutOne(cols[1..], p - 1);
      assert cols[..p] == [cols[0]] + cols[1..][..p - 1];
      assert cols[p + 1..] == cols[1..][p..];
    }
  }

  /**
    Dropping a label a second time fails: once the column is gone the drop
    raises a KeyError.
   */
  lemma DropTwiceFails(f: Frame, g: Frame, name: string)
    requires Drop(f, [name]) == Success(g)
    ensures Drop(g, [name]) == Failure(KeyError([name]))
  {
    assert (set l | l in [name]) == {name};
    assert g.cols == Without(f.cols, {name});
    WithoutMembers(f.cols, {name});
    assert [name][1..] == [];
    assert Absent([name], Names(g.cols)) == [name];
  }

  lemma WithoutWellFormed(f: Frame, labels: set<string>)
    requires WellFormed(f)
    ensures WellFormed(Frame(f.index, Without(f.cols, labels)))
  {
    var r := Without(f.cols, labels);
    WithoutMembers(f.cols, labels);
    forall j | 0 <= j < |r| ensures |r[j].cells| == |f.index| {
      assert r[j] in f.cols;
    }
  }
}
