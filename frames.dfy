/** A pandas DataFrame as the cleaning passes see it: an ordered list of
    distinct column names, a dtype per column, one sequence of cells per
    column, and one index label per row. */
module Frames {
  import opened Values

  /** `Numeric` is float64/int64, the dtypes the last pass fills with the
      median; every other dtype (object, bool, ...) is `Other`. */
  datatype DType = Numeric | Other

  /** Every non-missing cell is a number, as in a float64/int64 column. */
  predicate AllNumeric(s: seq<Cell>)
  {
    forall x :: x in s ==> x.None? || x.value.Num?
  }

  /** The dtype pandas infers for a freshly built column of cells; a column
      without any value is float64. */
  function Infer(s: seq<Cell>): (d: DType)
    ensures (forall i :: 0 <= i < |s| ==> s[i].None? || s[i].value.Num?) ==> d == Numeric
    ensures (exists i :: 0 <= i < |s| && s[i].Some? && s[i].value.Str?) ==> d == Other
  {
    if AllNumeric(s) then Numeric else Other
  }

  predicate Distinct<T(==)>(s: seq<T>)
  {
    forall i, j :: 0 <= i < j < |s| ==> s[i] != s[j]
  }

  /** One column: its dtype and one cell per row. */
  datatype Column = Column(dtype: DType, cells: seq<Cell>)

  /** The column has `n` cells, and only numbers if its dtype is numeric. */
  predicate Fits(col: Column, n: nat)
  {
    |col.cells| == n && (col.dtype == Numeric ==> AllNumeric(col.cells))
  }

  /** A table: its column names in order, each name's column, and one index
      label per row. A column is present exactly when `columns` names it. */
  datatype Frame = Frame(columns: seq<string>, data: map<string, Column>, index: seq<int>)
  {
    /** What every DataFrame satisfies: the column names are distinct, and
        every present column is stored with one cell per row and only
        numbers if it is numeric. */
    ghost predicate WF()
    {
      && Distinct(columns)
      && (forall c :: c in columns ==> c in data && Fits(data[c], |index|))
    }
  }

  /** The positions of `keep` that hold true, in increasing order. */
  function Kept(keep: seq<bool>): (p: seq<nat>)
    ensures |p| <= |keep|
    ensures forall j :: 0 <= j < |p| ==> p[j] < |keep| && keep[p[j]]
    ensures forall i :: 0 <= i < |keep| && keep[i] ==> i in p
    ensures forall j, k :: 0 <= j < k < |p| ==> p[j] < p[k]
  {
    if keep == [] then []
    else Kept(keep[..|keep| - 1]) + (if keep[|keep| - 1] then [|keep| - 1] else [])
  }

  /** The elements of `s` at the positions where `keep` is true, in order. */
  function Filter<T>(s: seq<T>, keep: seq<bool>): (r: seq<T>)
    requires |keep| == |s|
    ensures |r| == |Kept(keep)| <= |s|
    ensures forall j :: 0 <= j < |r| ==> r[j] == s[Kept(keep)[j]]
  {
    if s == [] then []
    else
      var n := |s| - 1;
      Filter(s[..n], keep[..n]) + (if keep[n] then [s[n]] else [])
  }

  /** Filtering keeps exactly the marked elements: nothing new appears and
      every marked element stays. */
  lemma FilterElements<T>(s: seq<T>, keep: seq<bool>)
    requires |keep| == |s|
    ensures forall x :: x in Filter(s, keep) ==> x in s
    ensures forall i :: 0 <= i < |s| && keep[i] ==> s[i] in Filter(s, keep)
  {
    var r, p := Filter(s, keep), Kept(keep);
    forall x | x in r ensures x in s {
      var j :| 0 <= j < |r| && r[j] == x;
      assert s[p[j]] == x;
    }
    forall i | 0 <= i < |s| && keep[i] ensures s[i] in r {
      var j :| 0 <= j < |p| && p[j] == i;
      assert r[j] == s[i];
    }
  }

  /** Among distinct elements, an element survives the filter exactly when
      its position is marked. */
  lemma FilterMember<T>(s: seq<T>, keep: seq<bool>, i: nat)
    requires |keep| == |s| && Distinct(s) && i < |s|
    ensures s[i] in Filter(s, keep) <==> keep[i]
  {
    var r, p := Filter(s, keep), Kept(keep);
    if keep[i] {
      FilterElements(s, keep);
    } else {
      forall j | 0 <= j < |r| ensures r[j] != s[i] {
        assert r[j] == s[p[j]] && p[j] != i;
      }
    }
  }

  /** The columns of `cols` not in `names`, in their order. */
  function Without(cols: seq<string>, names: set<string>): (r: seq<string>)
    ensures forall c :: c in r <==> c in cols && c !in names
    ensures Distinct(cols) ==> Distinct(r)
  {
    if cols == [] then []
    else
      var rest := Without(cols[1..], names);
      assert forall c :: c in cols[1..] ==> c in cols;
      if cols[0] in names then rest
      else
        assert Distinct(cols) ==> cols[0] !in cols[1..];
        [cols[0]] + rest
  }

  /** Marks the names of `cols` that are not in `names`. */
  function Absent(cols: seq<string>, names: set<string>): (keep: seq<bool>)
    ensures |keep| == |cols| && forall i :: 0 <= i < |cols| ==> (keep[i] <==> cols[i] !in names)
  {
    seq(|cols|, i requires 0 <= i < |cols| => cols[i] !in names)
  }

  lemma AbsentCons(cols: seq<string>, names: set<string>)
    requires cols != []
    ensures Absent(cols, names) == [cols[0] !in names] + Absent(cols[1..], names)
  {
    var a, b := Absent(cols, names), [cols[0] !in names] + Absent(cols[1..], names);
    forall i | 0 <= i < |cols| ensures a[i] == b[i] {
      if i > 0 { assert cols[i] == cols[1..][i - 1]; }
    }
  }

  /** Filtering a sequence with a first element filters the rest and keeps
      the first element in front when it is marked. */
  lemma {:induction false} FilterCons<T>(x: T, s: seq<T>, b: bool, keep: seq<bool>)
    requires |keep| == |s|
    ensures Filter([x] + s, [b] + keep) == (if b then [x] else []) + Filter(s, keep)
    decreases |s|
  {
    if s != [] {
      var n := |s| - 1;
      var u, k := [x] + s, [b] + keep;
      var head := if b then [x] else [];
      var last := if keep[n] then [s[n]] else [];
      assert u[..n + 1] == [x] + s[..n] && k[..n + 1] == [b] + keep[..n];
      assert u[n + 1] == s[n] && k[n + 1] == keep[n];
      assert Filter(u, k) == Filter(u[..n + 1], k[..n + 1]) + last;
      FilterCons(x, s[..n], b, keep[..n]);
      assert Filter(s, keep) == Filter(s[..n], keep[..n]) + last;
      assert Filter(u, k) == head + Filter(s[..n], keep[..n]) + last;
    }
  }

  /** The columns that remain are the original columns at the unnamed
      positions, in their original order. */
  lemma {:induction false} WithoutInOrder(cols: seq<string>, names: set<string>)
    ensures Without(cols, names) == Filter(cols, Absent(cols, names))
  {
    if cols != [] {
      var x, rest := cols[0], cols[1..];
      var keep := Absent(rest, names);
      WithoutInOrder(rest, names);
      assert cols == [x] + rest;
      AbsentCons(cols, names);
      FilterCons(x, rest, x !in names, keep);
      assert Without(cols, names) == (if x !in names then [x] else []) + Without(rest, names);
    }
  }

  /** Dropping names from a list with one more column at its end drops
      them from the list and keeps that column last unless it is named. */
  lemma {:induction false} WithoutAppend(cols: seq<string>, x: string, names: set<string>)
    ensures Without(cols + [x], names) == Without(cols, names) + (if x in names then [] else [x])
  {
    if cols != [] {
      assert (cols + [x])[1..] == cols[1..] + [x];
      WithoutAppend(cols[1..], x, names);
    }
  }

  /** `df.drop(columns=names, errors='ignore')`. */
  function DropColumns(f: Frame, names: set<string>): (r: Frame)
    requires f.WF()
    ensures r.WF() && r.index == f.index && r.data == f.data - names
    ensures forall c :: c in r.columns <==> c in f.columns && c !in names
    ensures r.columns == Without(f.columns, names)
  {
    Frame(Without(f.columns, names), f.data - names, f.index)
  }

  /** `df[c] = col`: replaces column `c` where it stands, or appends it. */
  function SetColumn(f: Frame, c: string, col: Column): (r: Frame)
    requires f.WF() && Fits(col, |f.index|)
    ensures r.WF() && r.index == f.index
    ensures r.data == f.data[c := col]
    ensures r.columns == if c in f.columns then f.columns else f.columns + [c]
  {
    var cols := if c in f.columns then f.columns else f.columns + [c];
    Frame(cols, f.data[c := col], f.index)
  }

  /** Keeps the rows whose position `keep` marks, in their order. */
  function KeepRows(f: Frame, keep: seq<bool>): (r: Frame)
    requires f.WF() && |keep| == |f.index|
    ensures r.WF() && r.columns == f.columns
    ensures r.index == Filter(f.index, keep)
    ensures forall c :: c in f.columns ==>
      c in r.data && r.data[c] == Column(f.data[c].dtype, Filter(f.data[c].cells, keep))
  {
    var data := map c | c in f.columns :: Column(f.data[c].dtype, Filter(f.data[c].cells, keep));
    assert forall c :: c in f.columns ==> Fits(data[c], |Filter(f.index, keep)|) by {
      forall c | c in f.columns ensures Fits(data[c], |Filter(f.index, keep)|) {
        FilterElements(f.data[c].cells, keep);
      }
    }
    Frame(f.columns, data, Filter(f.index, keep))
  }

  /** `fillna(v)` on one column. */
  function FillNa(s: seq<Cell>, v: Value): (r: seq<Cell>)
    ensures |r| == |s|
    ensures forall i :: 0 <= i < |s| ==> r[i] == (if s[i].None? then Some(v) else s[i])
  {
    seq(|s|, i requires 0 <= i < |s| => if s[i].None? then Some(v) else s[i])
  }

  /** The labels of a fresh RangeIndex. */
  function Range(n: nat): (r: seq<int>)
    ensures |r| == n && forall i :: 0 <= i < n ==> r[i] == i
  {
    seq(n, i => i)
  }

  /** `reset_index(drop=True)`. */
  function ResetIndex(f: Frame): (r: Frame)
    requires f.WF()
    ensures r.WF() && r.columns == f.columns && r.data == f.data
    ensures r.index == Range(|f.index|)
  {
    f.(index := Range(|f.index|))
  }
}
