/**
  `pd.Categorical(values).codes` for a column of names: the categories are
  the distinct non-missing names in sorted order, each name's code is its
  position among them, and a missing name gets the code -1.
 */
module Categorical {
  import opened Wrappers

  /**
    Python's `<` on strings: code-point lexicographic order, in which a
    proper prefix comes first.
   */
  predicate Less(a: string, b: string)
    decreases |a|
  {
    |b| > 0 && (|a| == 0 || a[0] < b[0] || (a[0] == b[0] && Less(a[1..], b[1..])))
  }

  lemma {:induction false} LessIrreflexive(a: string)
    ensures !Less(a, a)
    decreases |a|
  {
    if |a| > 0 {
      LessIrreflexive(a[1..]);
    }
  }

  lemma {:induction false} LessTransitive(a: string, b: string, c: string)
    requires Less(a, b) && Less(b, c)
    ensures Less(a, c)
    decreases |a|
  {
    if |a| > 0 && a[0] == b[0] && b[0] == c[0] {
      LessTransitive(a[1..], b[1..], c[1..]);
    }
  }

  /** Any two different strings are ordered one way or the other. */
  lemma {:induction false} LessTotal(a: string, b: string)
    ensures a == b || Less(a, b) || Less(b, a)
    decreases |a|
  {
    if |a| > 0 && |b| > 0 && a[0] == b[0] {
      LessTotal(a[1..], b[1..]);
      if a[1..] == b[1..] {
        assert a == [a[0]] + a[1..] && b == [b[0]] + b[1..];
      }
    }
  }

  lemma {:induction false} LessAsymmetric(a: string, b: string)
    requires Less(a, b)
    ensures !Less(b, a)
  {
    if Less(b, a) {
      LessTransitive(a, b, a);
      LessIrreflexive(a);
    }
  }

  /** Strictly increasing, hence without repetitions. */
  predicate Sorted(s: seq<string>) {
    forall i, j :: 0 <= i < j < |s| ==> Less(s[i], s[j])
  }

  lemma SortedCons(h: string, s: seq<string>)
    requires Sorted(s) && forall n :: n in s ==> Less(h, n)
    ensures Sorted([h] + s)
  {
    var r := [h] + s;
    forall i, j | 0 <= i < j < |r| ensures Less(r[i], r[j]) {
      if i == 0 {
        assert r[j] in s;
      } else {
        assert r[i] == s[i - 1] && r[j] == s[j - 1];
      }
    }
  }

  /** Adds `x` to a sorted sequence of distinct names, unless it is already there. */
  function Insert(s: seq<string>, x: string): (r: seq<string>)
    requires Sorted(s)
    ensures Sorted(r)
    ensures forall n :: n in r <==> n in s || n == x
  {
    if s == [] then [x]
    else if x == s[0] then s
    else if Less(x, s[0]) then
      assert forall n :: n in s ==> Less(x, n) by {
        forall n | n in s ensures Less(x, n) {
          var j :| 0 <= j < |s| && s[j] == n;
          if j > 0 { LessTransitive(x, s[0], n); }
        }
      }
      SortedCons(x, s);
      [x] + s
    else
      var rest := Insert(s[1..], x);
      assert forall n :: n in rest ==> Less(s[0], n) by {
        LessTotal(x, s[0]);
        forall n | n in rest ensures Less(s[0], n) {
          if n != x {
            var j :| 0 <= j < |s[1..]| && s[1..][j] == n;
            assert s[j + 1] == n;
          }
        }
      }
      SortedCons(s[0], rest);
      [s[0]] + rest
  }

  /** The categories: the distinct present names, sorted. */
  function Categories(values: seq<Option<string>>): (cats: seq<string>)
    ensures Sorted(cats)
    ensures forall n :: n in cats <==> Some(n) in values
  {
    if values == [] then []
    else
      var rest := Categories(values[1..]);
      assert forall n :: Some(n) in values <==> values[0] == Some(n) || Some(n) in values[1..] by {
        assert values == [values[0]] + values[1..];
      }
      match values[0]
      case None => rest
      case Some(n) => Insert(rest, n)
  }

  /** Position of `x` in `s`. */
  function IndexOf(s: seq<string>, x: string): (p: nat)
    requires x in s
    ensures p < |s| && s[p] == x
  {
    if s[0] == x then 0 else 1 + IndexOf(s[1..], x)
  }

  function Code(cats: seq<string>, v: Option<string>): int {
    match v
    case None => -1
    case Some(n) => if n in cats then IndexOf(cats, n) else -1
  }

  /** `pd.Categorical(values).codes`. */
  function Codes(values: seq<Option<string>>): (codes: seq<int>)
    ensures |codes| == |values|
  {
    var cats := Categories(values);
    seq(|values|, i requires 0 <= i < |values| => Code(cats, values[i]))
  }

  /** The distinct names present in the column. */
  function PresentNames(values: seq<Option<string>>): set<string> {
    set v | v in values && v.Some? :: v.value
  }

  // ---------------------------------------------------------------------
  // Properties of the codes

  lemma {:induction false} DistinctCardinality(s: seq<string>)
    requires Sorted(s)
    ensures |set n | n in s| == |s|
  {
    if s != [] {
      DistinctCardinality(s[1..]);
      assert (set n | n in s) == {s[0]} + (set n | n in s[1..]);
      if s[0] in s[1..] {
        var j :| 0 <= j < |s[1..]| && s[1..][j] == s[0];
        assert Less(s[0], s[j + 1]);
        LessIrreflexive(s[0]);
      }
    }
  }

  /** There are as many categories as distinct present names. */
  lemma CategoryCount(values: seq<Option<string>>)
    ensures |Categories(values)| == |PresentNames(values)|
  {
    var cats := Categories(values);
    DistinctCardinality(cats);
    assert (set n | n in cats) == PresentNames(values) by {
      forall n ensures n in cats <==> n in PresentNames(values) {
        if n in PresentNames(values) {
          var v :| v in values && v.Some? && v.value == n;
          assert Some(n) == v;
        }
      }
    }
  }

  /**
    A missing name gets -1; a present name gets a code in [0, k-1], where k
    is the number of distinct present names.
   */
  lemma CodeRange(values: seq<Option<string>>, i: nat)
    requires i < |values|
    ensures values[i].None? ==> Codes(values)[i] == -1
    ensures values[i].Some? ==> 0 <= Codes(values)[i] < |PresentNames(values)|
  {
    CategoryCount(values);
    if values[i].Some? {
      assert Some(values[i].value) in values;
    }
  }

  lemma SortedIndexOrder(s: seq<string>, i: nat, j: nat)
    requires Sorted(s) && i < |s| && j < |s|
    ensures i < j <==> Less(s[i], s[j])
  {
    if i >= j && Less(s[i], s[j]) {
      if i == j {
        LessIrreflexive(s[i]);
      } else {
        LessAsymmetric(s[i], s[j]);
      }
    }
  }

  /**
    Codes follow the order of the names: two rows get equal codes exactly
    when their names are equal (missing included), and for present names
    the smaller code goes to the lexicographically smaller name.
   */
  lemma CodeOrder(values: seq<Option<string>>, i: nat, j: nat)
    requires i < |values| && j < |values|
    ensures Codes(values)[i] == Codes(values)[j] <==> values[i] == values[j]
    ensures values[i].Some? && values[j].Some? ==>
      (Codes(values)[i] < Codes(values)[j] <==> Less(values[i].value, values[j].value))
  {
    var cats := Categories(values);
    if values[i].Some? {
      assert Some(values[i].value) in values;
    }
    if values[j].Some? {
      assert Some(values[j].value) in values;
    }
    if values[i].Some? && values[j].Some? {
      var p, q := IndexOf(cats, values[i].value), IndexOf(cats, values[j].value);
      SortedIndexOrder(cats, p, q);
      if p == q {
        assert values[i].value == values[j].value;
      }
    }
  }

  /** Codes are contiguous: every code in [0, k-1] is taken by some row. */
  lemma CodesContiguous(values: seq<Option<string>>, c: int)
    requires 0 <= c < |PresentNames(values)|
    ensures exists i :: 0 <= i < |values| && values[i].Some? && Codes(values)[i] == c
  {
    var cats := Categories(values);
    CategoryCount(values);
    var n := cats[c];
    assert Some(n) in values;
    var i :| 0 <= i < |values| && values[i] == Some(n);
    SortedIndexOrder(cats, IndexOf(cats, n), c);
    SortedIndexOrder(cats, c, IndexOf(cats, n));
    assert Codes(values)[i] == c;
  }
}
