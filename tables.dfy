/** A pandas DataFrame object as the cleaning code sees it: updated in place. */
module Tables {
  import opened Wrappers
  import opened Frames
  import opened Merging

  class Table {
    var index: seq<int>
    var cols: seq<Series>

    /** Columns as long as the index, unique row labels, unique column names. */
    ghost predicate Valid()
      reads this
    {
      WellFormed(Value()) && Distinct(Names(cols))
    }

    function Value(): Frame
      reads this
    {
      Frame(index, cols)
    }

    constructor (f: Frame)
      requires WellFormed(f) && Distinct(Names(f.cols))
      ensures Valid() && Value() == f
    {
      index, cols := f.index, f.cols;
    }

    function Has(name: string): bool
      reads this
    {
      name in Names(cols)
    }

    /** `df[name]`, one cell per row. */
    function Get(name: string): (cells: seq<Cell>)
      reads this
      requires Valid() && Has(name)
      ensures |cells| == |index|
    {
      Column(Value(), name).cells
    }

    /** `df[name] = cells`. */
    method SetColumn(name: string, cells: seq<Cell>)
      requires Valid() && |cells| == |index|
      modifies this
      ensures Valid() && Value() == Assign(old(Value()), name, cells)
    {
      AssignShape(Value(), name, cells);
      AssignWellFormed(Value(), name, cells);
      var f := Assign(Value(), name, cells);
      index, cols := f.index, f.cols;
    }

    /** `df.drop(columns=labels, inplace=True)`; on a KeyError nothing changes. */
    method Drop(labels: seq<string>) returns (err: Option<Error>)
      requires Valid()
      modifies this
      ensures Valid()
      ensures match Frames.Drop(old(Value()), labels)
        case Success(f) => err == None && Value() == f
        case Failure(e) => err == Some(e) && Value() == old(Value())
    {
      match Frames.Drop(Value(), labels)
      case Failure(e) =>
        err := Some(e);
      case Success(f) =>
        WithoutDistinct(cols, set l | l in labels);
        WithoutWellFormed(Value(), set l | l in labels);
        index, cols := f.index, f.cols;
        err := None;
    }

    /** `df.columns = [str(col) + suffix for col in df.columns]`. */
    method AddSuffix(suffix: string)
      requires Valid()
      modifies this
      ensures Valid() && index == old(index) && cols == Suffixed(old(cols), suffix)
    {
      SuffixedDistinct(cols, suffix);
      cols := Suffixed(cols, suffix);
    }
  }
}
