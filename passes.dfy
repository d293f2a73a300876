/** The six cleaning passes of the feature engineer and the pipeline that runs
    them, each as a function from the table before the pass to the table
    after it (and, where the pass can raise, the exception). */
module Passes {
  import opened Values
  import opened Stats
  import opened Frames
  import opened Rules

  /** The table after a pass, and the exception the pass raised, if any. */
  datatype Step = Step(df: Frame, err: Option<Error>)

  predicate NoMissing(s: seq<Cell>)
  {
    forall i :: 0 <= i < |s| ==> s[i].Some?
  }

  predicate AllMissing(s: seq<Cell>)
  {
    forall i :: 0 <= i < |s| ==> s[i].None?
  }

  /** `after` is `before` with every missing cell replaced by the mode of
      `before`, and every other cell left alone. */
  ghost predicate FilledWithMode(before: seq<Cell>, after: seq<Cell>)
  {
    |after| == |before| &&
    forall i :: 0 <= i < |before| ==>
      (before[i].Some? ==> after[i] == before[i]) &&
      (before[i].None? ==> after[i].Some? && IsMode(before, after[i].value))
  }

  /** `after` is `before` with every missing cell replaced by the median of
      `before` (and left missing when there is no median). */
  predicate FilledWithMedian(before: seq<Cell>, after: seq<Cell>)
  {
    |after| == |before| &&
    forall i :: 0 <= i < |before| ==>
      (before[i].Some? ==> after[i] == before[i]) &&
      (before[i].None? ==> after[i] == (if Median(before).Some? then Some(Num(Median(before).value)) else None))
  }

  // ---------------------------------------------------------------------------
  // 1. drop_measured_flags

  function DropMeasuredFlags(f: Frame): (r: Frame)
    requires f.WF()
    ensures r.WF() && r.index == f.index
    ensures forall c :: c in r.columns <==> c in f.columns && c !in MeasuredFlags
    ensures r.columns == Filter(f.columns, Absent(f.columns, MeasuredFlags))
    ensures forall c :: c in r.columns ==> r.data[c] == f.data[c]
  {
    WithoutInOrder(f.columns, MeasuredFlags);
    DropColumns(f, MeasuredFlags)
  }

  // ---------------------------------------------------------------------------
  // 2. fill_missing_sex

  lemma FillKeepsNumeric(s: seq<Cell>, v: Value)
    requires AllNumeric(s) && v.Num?
    ensures AllNumeric(FillNa(s, v))
  {
    var t := FillNa(s, v);
    forall x | x in t ensures x.None? || x.value.Num? {
      var i :| 0 <= i < |t| && t[i] == x;
      assert s[i] in s;
    }
  }

  /** `df[c].fillna(df[c].mode()[0], inplace=True)`: the missing cells of
      column `c` get the column's mode, or, when the column has no value at
      all, `mode()[0]` raises and nothing changes. */
  function FillWithMode(f: Frame, c: string): (r: Step)
    requires f.WF() && c in f.columns
    ensures r.df.WF() && r.df.index == f.index && r.df.columns == f.columns
    ensures forall d :: d in f.columns && d != c ==> r.df.data[d] == f.data[d]
    ensures r.df.data[c].dtype == f.data[c].dtype
    ensures r.err.Some? <==> AllMissing(f.data[c].cells)
    ensures r.err.Some? ==> r == Step(f, Some(NoMode(c)))
    ensures r.err.None? ==> FilledWithMode(f.data[c].cells, r.df.data[c].cells)
  {
    var col := f.data[c];
    match Mode(col.cells)
    case None => Step(f, Some(NoMode(c)))
    case Some(m) =>
      if col.dtype == Numeric then
        assert Some(m) in col.cells;
        FillKeepsNumeric(col.cells, m);
        Step(SetColumn(f, c, Column(col.dtype, FillNa(col.cells, m))), None)
      else
        Step(SetColumn(f, c, Column(col.dtype, FillNa(col.cells, m))), None)
  }

  function FillMissingSex(f: Frame): (r: Step)
    requires f.WF()
    ensures r.df.WF() && r.df.index == f.index && r.df.columns == f.columns
    ensures forall c :: c in f.columns && c != "sex" ==> r.df.data[c] == f.data[c]
    ensures "sex" !in f.columns ==> r == Step(f, None)
    ensures r.err.Some? <==> "sex" in f.columns && AllMissing(f.data["sex"].cells)
    ensures r.err.Some? ==> r == Step(f, Some(NoMode("sex")))
    ensures "sex" in f.columns ==> r.df.data["sex"].dtype == f.data["sex"].dtype
    ensures "sex" in f.columns && r.err.None? ==> FilledWithMode(f.data["sex"].cells, r.df.data["sex"].cells)
  {
    if "sex" !in f.columns then Step(f, None) else FillWithMode(f, "sex")
  }

  // ---------------------------------------------------------------------------
  // 3. replace_tbg

  /** `row[c]`: the cell, or None when the table has no column `c`. */
  function CellOf(f: Frame, c: string, i: nat): Option<Cell>
    requires f.WF() && i < |f.index|
  {
    if c in f.columns then Some(f.data[c].cells[i]) else None
  }

  /** `replace` applied to row `i`. */
  function ReplaceAt(f: Frame, i: nat): Result<Cell, Error>
    requires f.WF() && "TBG" in f.columns && i < |f.index|
  {
    ReplaceRow(f.data["TBG"].cells[i], CellOf(f, "age", i), CellOf(f, "sex", i), i)
  }

  /** `apply(replace, axis=1)` over the first `k` rows: the new cells, or the
      exception of the first row that raises. */
  function ReplaceRows(f: Frame, k: nat): (r: Result<seq<Cell>, Error>)
    requires f.WF() && "TBG" in f.columns && k <= |f.index|
    ensures r.Ok? ==> |r.value| == k && forall i :: 0 <= i < k ==> ReplaceAt(f, i) == Ok(r.value[i])
    ensures r.Err? ==> exists i :: 0 <= i < k && ReplaceAt(f, i) == Err(r.error) &&
                          forall j :: 0 <= j < i ==> ReplaceAt(f, j).Ok?
  {
    if k == 0 then Ok([])
    else
      match ReplaceRows(f, k - 1)
      case Err(e) => Err(e)
      case Ok(prefix) =>
        match ReplaceAt(f, k - 1)
        case Err(e) => Err(e)
        case Ok(c) => Ok(prefix + [c])
  }

  /** `df['TBG'] = df.apply(replace, axis=1)` when there is a TBG column;
      the new column's dtype is inferred from its cells. */
  function ReplaceTbg(f: Frame): (r: Step)
    requires f.WF()
    ensures r.df.WF() && r.df.index == f.index && r.df.columns == f.columns
    ensures forall c :: c in f.columns && c != "TBG" ==> r.df.data[c] == f.data[c]
    ensures "TBG" !in f.columns ==> r == Step(f, None)
    ensures r.err.Some? ==>
      r.df == f && "TBG" in f.columns &&
      exists i :: 0 <= i < |f.index| && ReplaceAt(f, i) == Err(r.err.value) &&
        forall j :: 0 <= j < i ==> ReplaceAt(f, j).Ok?
    ensures "TBG" in f.columns && r.err.None? ==>
      r.df.data["TBG"].dtype == Infer(r.df.data["TBG"].cells) &&
      forall i :: 0 <= i < |f.index| ==> ReplaceAt(f, i) == Ok(r.df.data["TBG"].cells[i])
  {
    if "TBG" !in f.columns then Step(f, None)
    else
      match ReplaceRows(f, |f.index|)
      case Err(e) => Step(f, Some(e))
      case Ok(col) => Step(SetColumn(f, "TBG", Column(Infer(col), col)), None)
  }

  /** replace_tbg changes no present TBG value. A missing TBG of a row
      with a missing age stays missing, and one of a row with a numeric age
      becomes the value of the band that contains the age and has the row's
      sex, or stays missing when there is none. */
  lemma ReplaceTbgEffect(f: Frame, i: nat)
    requires f.WF() && "TBG" in f.columns && i < |f.index|
    requires ReplaceTbg(f).err.None?
    ensures var tbg, after := f.data["TBG"].cells[i], ReplaceTbg(f).df.data["TBG"].cells[i];
      && (tbg.Some? ==> after == tbg)
      && (tbg.None? && "age" in f.columns && f.data["age"].cells[i].None? ==> after == None)
      && (tbg.None? && "age" in f.columns && "sex" in f.columns && f.data["age"].cells[i].Some? &&
          f.data["age"].cells[i].value.Num? ==>
            after == match Lookup(ReplacementValues, f.data["age"].cells[i].value.x, f.data["sex"].cells[i])
                     case None => None
                     case Some(v) => Some(Num(v)))
  {
    assert ReplaceAt(f, i) == Ok(ReplaceTbg(f).df.data["TBG"].cells[i]);
  }

  /** replace_tbg keeps a numeric TBG column numeric: each new cell is the
      row's present number, a band value or missing, so pandas infers a
      numeric dtype again and the last pass fills TBG with its median. */
  lemma ReplaceTbgKeepsNumeric(f: Frame)
    requires f.WF() && "TBG" in f.columns && f.data["TBG"].dtype == Numeric
    requires ReplaceTbg(f).err.None?
    ensures ReplaceTbg(f).df.data["TBG"].dtype == Numeric
  {
    var cells := ReplaceTbg(f).df.data["TBG"].cells;
    forall x | x in cells ensures x.None? || x.value.Num? {
      var i :| 0 <= i < |cells| && cells[i] == x;
      assert ReplaceAt(f, i) == Ok(x);
      assert f.data["TBG"].cells[i] in f.data["TBG"].cells;
    }
    assert AllNumeric(cells);
  }

  /** Row `i` makes `replace` raise: its TBG is missing and the table has no
      `age` or no `sex` column (KeyError), or its age is a string
      (TypeError). */
  predicate RowRaises(f: Frame, i: nat)
    requires f.WF() && "TBG" in f.columns && i < |f.index|
  {
    && f.data["TBG"].cells[i].None?
    && ("age" !in f.columns || "sex" !in f.columns ||
        (f.data["age"].cells[i].Some? && f.data["age"].cells[i].value.Str?))
  }

  /** The exception a raising row gives. */
  function RowError(f: Frame, i: nat): Error
    requires f.WF() && "TBG" in f.columns && i < |f.index|
  {
    if "age" !in f.columns then MissingColumn("age")
    else if "sex" !in f.columns then MissingColumn("sex")
    else IncomparableAge(i)
  }

  lemma RowRaisesExactly(f: Frame, i: nat)
    requires f.WF() && "TBG" in f.columns && i < |f.index|
    ensures ReplaceAt(f, i).Err? <==> RowRaises(f, i)
    ensures RowRaises(f, i) ==> ReplaceAt(f, i) == Err(RowError(f, i))
  {
  }

  /** replace_tbg raises exactly when some row with a missing TBG has no
      age or sex column or a string age, and then with the exception of
      the first such row. */
  lemma ReplaceTbgRaises(f: Frame)
    requires f.WF() && "TBG" in f.columns
    ensures ReplaceTbg(f).err.Some? <==> exists i :: 0 <= i < |f.index| && RowRaises(f, i)
    ensures ReplaceTbg(f).err.Some? ==>
      exists i ::
        && 0 <= i < |f.index|
        && RowRaises(f, i)
        && ReplaceTbg(f).err == Some(RowError(f, i))
        && forall j :: 0 <= j < i ==> !RowRaises(f, j)
  {
    var s := ReplaceTbg(f);
    if s.err.Some? {
      var i :| 0 <= i < |f.index| && ReplaceAt(f, i) == Err(s.err.value) &&
        forall j :: 0 <= j < i ==> ReplaceAt(f, j).Ok?;
      RowRaisesExactly(f, i);
      forall j | 0 <= j < i ensures !RowRaises(f, j) {
        RowRaisesExactly(f, j);
      }
    } else {
      forall i | 0 <= i < |f.index| ensures !RowRaises(f, i) {
        RowRaisesExactly(f, i);
      }
    }
  }

  // ---------------------------------------------------------------------------
  // 4. map_target_column

  /** `df.index + 1`. */
  function PatientIds(index: seq<int>): (r: seq<Cell>)
    ensures |r| == |index| && AllNumeric(r)
    ensures forall i :: 0 <= i < |index| ==> r[i] == Some(Num((index[i] + 1) as real))
  {
    seq(|index|, i requires 0 <= i < |index| => Some(Num((index[i] + 1) as real)))
  }

  /** `Series.map(m)` on a whole column. */
  function MapColumn(s: seq<Cell>, m: Cell -> Cell): (r: seq<Cell>)
    ensures |r| == |s| && forall i :: 0 <= i < |s| ==> r[i] == m(s[i])
  {
    seq(|s|, i requires 0 <= i < |s| => m(s[i]))
  }

  /** The four column names the pass uses are pairwise different. */
  lemma TargetNamesDistinct()
    ensures "target" != "class" && "target" != "patient_id" && "target" != "Patient_ID"
    ensures "class" != "patient_id" && "class" != "Patient_ID" && "patient_id" != "Patient_ID"
  {
    assert "target"[0] != "class"[0] && "target"[0] != "patient_id"[0] && "target"[0] != "Patient_ID"[0];
    assert "class"[0] != "patient_id"[0] && "class"[0] != "Patient_ID"[0] && "patient_id"[0] != "Patient_ID"[0];
  }

  /** `df[c] = df[t].map(m)` when column `t` exists (object dtype). */
  function WithMapped(f: Frame, t: string, c: string, m: Cell -> Cell): (r: Frame)
    requires f.WF()
    ensures r.WF() && r.index == f.index
    ensures forall d :: d in r.columns <==> d in f.columns || (d == c && t in f.columns)
    ensures r.columns == if t in f.columns && c !in f.columns then f.columns + [c] else f.columns
    ensures t in f.columns ==> r.data[c] == Column(Other, MapColumn(f.data[t].cells, m))
    ensures forall d :: d in f.columns && (d != c || t !in f.columns) ==> r.data[d] == f.data[d]
  {
    if t in f.columns then SetColumn(f, c, Column(Other, MapColumn(f.data[t].cells, m))) else f
  }

  /** `df[pid] = df.index + 1` then `df.drop(columns=[t, p], errors='ignore')`. */
  function WithPatientId(f: Frame, t: string, p: string, pid: string): (r: Frame)
    requires f.WF() && pid != t && pid != p
    ensures r.WF() && r.index == f.index
    ensures forall d :: d in r.columns <==> (d in f.columns || d == pid) && d != t && d != p
    ensures r.columns == Without(if pid in f.columns then f.columns else f.columns + [pid], {t, p})
    ensures r.data[pid] == Column(Numeric, PatientIds(f.index))
    ensures forall d :: d in r.columns && d != pid ==> r.data[d] == f.data[d]
  {
    var g := SetColumn(f, pid, Column(Numeric, PatientIds(f.index)));
    var names := {t, p};
    assert pid in g.columns && pid !in names;
    DropColumns(g, names)
  }

  /** Patient_ID goes last when it is new; the other columns keep their
      order less `t` and `p`. */
  lemma WithPatientIdOrder(f: Frame, t: string, p: string, pid: string)
    requires f.WF() && pid != t && pid != p
    ensures WithPatientId(f, t, p, pid).columns ==
      Without(f.columns, {t, p}) + (if pid in f.columns then [] else [pid])
  {
    if pid !in f.columns {
      WithoutAppend(f.columns, pid, {t, p});
    }
  }

  /** map_target_column over the column names `t` (target), `c` (class),
      `p` (patient_id) and `pid` (Patient_ID) and the code mapping `m`:
      when `t` exists, `c` is set to `t` mapped through `m` (object dtype);
      when `p` exists, `pid` is set to the index labels plus one and `t` and
      `p` are dropped. No other column changes. */
  function MapTarget(f: Frame, t: string, c: string, p: string, pid: string, m: Cell -> Cell): (r: Frame)
    requires f.WF()
    requires t != c && t != p && t != pid && c != p && c != pid && p != pid
    ensures r.WF() && r.index == f.index
    ensures t in f.columns ==> c in r.columns && r.data[c] == Column(Other, MapColumn(f.data[t].cells, m))
    ensures t !in f.columns && c in f.columns ==> c in r.columns && r.data[c] == f.data[c]
    ensures c in r.columns <==> c in f.columns || t in f.columns
    ensures p in f.columns ==>
      t !in r.columns && p !in r.columns && pid in r.columns &&
      r.data[pid] == Column(Numeric, PatientIds(f.index))
    ensures p !in f.columns ==>
      (t in r.columns <==> t in f.columns) && (pid in r.columns <==> pid in f.columns)
    ensures forall d :: d in f.columns && d != c && d != pid && ((d != t && d != p) || p !in f.columns) ==>
      d in r.columns && r.data[d] == f.data[d]
    ensures p !in f.columns && pid in f.columns ==> r.data[pid] == f.data[pid]
    ensures forall d :: d in r.columns ==> d in f.columns || d == c || d == pid
  {
    var f1 := WithMapped(f, t, c, m);
    if p in f1.columns then WithPatientId(f1, t, p, pid) else f1
  }

  /** The column order after map_target_column: the input's columns in
      their order, less `t` and `p` when `p` is dropped, then a new `c`,
      then a new `pid`. */
  lemma MapTargetOrder(f: Frame, t: string, c: string, p: string, pid: string, m: Cell -> Cell)
    requires f.WF()
    requires t != c && t != p && t != pid && c != p && c != pid && p != pid
    ensures MapTarget(f, t, c, p, pid, m).columns ==
      (if p in f.columns then Without(f.columns, {t, p}) else f.columns)
      + (if t in f.columns && c !in f.columns then [c] else [])
      + (if p in f.columns && pid !in f.columns then [pid] else [])
  {
    var f1 := WithMapped(f, t, c, m);
    if p in f.columns {
      assert p in f1.columns;
      WithPatientIdOrder(f1, t, p, pid);
      if t in f.columns && c !in f.columns {
        assert f1.columns == f.columns + [c];
        WithoutAppend(f.columns, c, {t, p});
      } else {
        assert f1.columns == f.columns;
      }
    }
  }

  /** map_target_column itself: MapTarget over the source's column names
      and its code mapping. */
  function MapTargetColumn(f: Frame): (r: Frame)
    requires f.WF()
    ensures r.WF() && r.index == f.index
    ensures "target" in f.columns ==>
      "class" in r.columns && r.data["class"] == Column(Other, MapColumn(f.data["target"].cells, MapCode))
    ensures "target" !in f.columns && "class" in f.columns ==> "class" in r.columns && r.data["class"] == f.data["class"]
    ensures "class" in r.columns <==> "class" in f.columns || "target" in f.columns
    ensures "patient_id" in f.columns ==>
      "target" !in r.columns && "patient_id" !in r.columns && "Patient_ID" in r.columns &&
      r.data["Patient_ID"] == Column(Numeric, PatientIds(f.index))
    ensures "patient_id" !in f.columns ==>
      ("target" in r.columns <==> "target" in f.columns) && ("Patient_ID" in r.columns <==> "Patient_ID" in f.columns)
    ensures "patient_id" !in f.columns && "Patient_ID" in f.columns ==> r.data["Patient_ID"] == f.data["Patient_ID"]
    ensures forall d ::
      (d in f.columns && d != "class" && d != "Patient_ID" &&
       ((d != "target" && d != "patient_id") || "patient_id" !in f.columns)) ==>
      d in r.columns && r.data[d] == f.data[d]
    ensures forall d :: d in r.columns ==> d in f.columns || d == "class" || d == "Patient_ID"
  {
    TargetNamesDistinct();
    MapTarget(f, "target", "class", "patient_id", "Patient_ID", MapCode)
  }

  /** map_target_column keeps the other columns in their order and appends
      a new `class` column, then a new `Patient_ID` column. */
  lemma MapTargetColumnOrder(f: Frame)
    requires f.WF()
    ensures MapTargetColumn(f).columns ==
      (if "patient_id" in f.columns then Without(f.columns, {"target", "patient_id"}) else f.columns)
      + (if "target" in f.columns && "class" !in f.columns then ["class"] else [])
      + (if "patient_id" in f.columns && "Patient_ID" !in f.columns then ["Patient_ID"] else [])
  {
    TargetNamesDistinct();
    assert MapTargetColumn(f) == MapTarget(f, "target", "class", "patient_id", "Patient_ID", MapCode);
    MapTargetOrder(f, "target", "class", "patient_id", "Patient_ID", MapCode);
  }

  /** `index + 1` over a RangeIndex is the 1-based position. */
  lemma PatientIdsOfRange(n: nat)
    ensures forall i :: 0 <= i < n ==> PatientIds(Range(n))[i] == Some(Num((i + 1) as real))
  {
  }

  /** With the default RangeIndex, Patient_ID is the 1-based row position. */
  lemma PatientIdIsPosition(f: Frame)
    requires f.WF() && "patient_id" in f.columns && f.index == Range(|f.index|)
    ensures "Patient_ID" in MapTargetColumn(f).columns
    ensures forall i :: 0 <= i < |f.index| ==>
      MapTargetColumn(f).data["Patient_ID"].cells[i] == Some(Num((i + 1) as real))
  {
    var ids := MapTargetColumn(f).data["Patient_ID"].cells;
    assert ids == PatientIds(Range(|f.index|));
    PatientIdsOfRange(|f.index|);
  }

  // ---------------------------------------------------------------------------
  // 5. drop_nan_if_no_condition

  predicate HasRequired(f: Frame)
  {
    (forall c :: c in Labs ==> c in f.columns) && "class" in f.columns
  }

  function LabCells(f: Frame, i: nat): (r: seq<Cell>)
    requires f.WF() && HasRequired(f) && i < |f.index|
    ensures |r| == |Labs| && forall k :: 0 <= k < |Labs| ==> r[k] == f.data[Labs[k]].cells[i]
  {
    seq(|Labs|, k requires 0 <= k < |Labs| => f.data[Labs[k]].cells[i])
  }

  /** The boolean mask `condition` of the source, for row `i`. */
  predicate Condition(f: Frame, i: nat)
    requires f.WF() && HasRequired(f) && i < |f.index|
  {
    DropsRow(LabCells(f, i), f.data["class"].cells[i])
  }

  /** `df[condition].index`: the labels of the rows the condition selects. */
  function DroppedLabels(f: Frame): set<int>
    requires f.WF() && HasRequired(f)
  {
    set i | 0 <= i < |f.index| && Condition(f, i) :: f.index[i]
  }

  /** `df.drop(labels)` keeps a row exactly when its label is not among them. */
  function KeepMask(f: Frame): (keep: seq<bool>)
    requires f.WF() && HasRequired(f)
    ensures |keep| == |f.index|
    ensures forall i :: 0 <= i < |f.index| ==> (keep[i] <==> f.index[i] !in DroppedLabels(f))
  {
    seq(|f.index|, i requires 0 <= i < |f.index| => f.index[i] !in DroppedLabels(f))
  }

  function DropNanIfNoCondition(f: Frame): (r: Frame)
    requires f.WF()
    ensures r.WF() && r.columns == f.columns
    ensures |r.index| <= |f.index|
    ensures !HasRequired(f) ==> r == f
    ensures HasRequired(f) ==>
      r.index == Filter(f.index, KeepMask(f)) &&
      forall c :: c in f.columns ==> r.data[c] == Column(f.data[c].dtype, Filter(f.data[c].cells, KeepMask(f)))
  {
    if HasRequired(f) then KeepRows(f, KeepMask(f)) else f
  }

  /** With distinct index labels, a row's label is among the dropped
      labels exactly when the condition selects that row. */
  lemma DroppedExactly(f: Frame, i: nat)
    requires f.WF() && HasRequired(f) && Distinct(f.index) && i < |f.index|
    ensures f.index[i] in DroppedLabels(f) <==> Condition(f, i)
  {
    if !Condition(f, i) {
      forall i' | 0 <= i' < |f.index| && Condition(f, i') ensures f.index[i'] != f.index[i] {
        if i' < i { assert f.index[i'] != f.index[i]; }
        if i < i' { assert f.index[i] != f.index[i']; }
      }
    }
  }

  /** With distinct index labels (as read_csv gives), the pass keeps
      exactly the rows that do not have a missing lab together with class
      "No Condition": a row's label survives exactly then, and the rows
      kept are, in order, those at the positions Kept(KeepMask(f)). */
  lemma DropNanKeepsExactly(f: Frame)
    requires f.WF() && HasRequired(f) && Distinct(f.index)
    ensures forall i :: 0 <= i < |f.index| ==>
      (f.index[i] in DropNanIfNoCondition(f).index <==> !Condition(f, i))
    ensures forall i :: 0 <= i < |f.index| ==> (i in Kept(KeepMask(f)) <==> !Condition(f, i))
  {
    var keep := KeepMask(f);
    var rest := DropNanIfNoCondition(f).index;
    assert rest == Filter(f.index, keep);
    forall i | 0 <= i < |f.index|
      ensures (f.index[i] in rest <==> !Condition(f, i)) && (i in Kept(keep) <==> !Condition(f, i))
    {
      FilterMember(f.index, keep, i);
      DroppedExactly(f, i);
      if i in Kept(keep) {
        var j :| 0 <= j < |Kept(keep)| && Kept(keep)[j] == i;
      }
    }
  }

  /** The condition, column by column as the source writes it. */
  lemma ConditionByColumn(f: Frame, i: nat)
    requires f.WF() && HasRequired(f) && i < |f.index|
    ensures Condition(f, i) <==>
      (f.data["TSH"].cells[i].None? || f.data["T3"].cells[i].None? || f.data["TT4"].cells[i].None? ||
       f.data["T4U"].cells[i].None? || f.data["FTI"].cells[i].None?) &&
      f.data["class"].cells[i] == Some(Str("No Condition"))
  {
    var labs := LabCells(f, i);
    assert labs[0] == f.data["TSH"].cells[i] && labs[1] == f.data["T3"].cells[i];
    assert labs[2] == f.data["TT4"].cells[i] && labs[3] == f.data["T4U"].cells[i];
    assert labs[4] == f.data["FTI"].cells[i];
  }

  /** The source drops by label, so a row that shares its label with a row
      the condition selects is removed too, whether or not it is selected. */
  lemma SharedLabelDropped(f: Frame, i: nat, j: nat)
    requires f.WF() && HasRequired(f) && i < |f.index| && j < |f.index|
    requires f.index[i] == f.index[j] && Condition(f, i)
    ensures j !in Kept(KeepMask(f))
  {
    assert f.index[i] in DroppedLabels(f);
    assert !KeepMask(f)[j];
  }

  // ---------------------------------------------------------------------------
  // 6. fill_remaining_nans

  /** The body of the loop on one column: a float64/int64 column gets
      `fillna(median())` (and stays as it is when it has no number, the
      median being NaN); any other column gets `fillna(mode()[0])`, which
      raises on a column without any value (None here). */
  function FillCells(col: Column): (r: Option<seq<Cell>>)
    ensures r.None? <==> col.dtype == Other && AllMissing(col.cells)
    ensures r.Some? && col.dtype == Other ==> FilledWithMode(col.cells, r.value)
    ensures r.Some? && col.dtype == Numeric ==> FilledWithMedian(col.cells, r.value)
    ensures r.Some? && col.dtype == Numeric && AllNumeric(col.cells) ==> AllNumeric(r.value)
  {
    if col.dtype == Other then
      match Mode(col.cells)
      case None => None
      case Some(v) => Some(FillNa(col.cells, v))
    else
      match Median(col.cells)
      case None => Some(col.cells)
      case Some(m) =>
        if AllNumeric(col.cells) then FillKeepsNumeric(col.cells, Num(m)); Some(FillNa(col.cells, Num(m)))
        else Some(FillNa(col.cells, Num(m)))
  }

  /** One turn of the loop, at column `c`. */
  function FillColumn(f: Frame, c: string): (r: Step)
    requires f.WF() && c in f.columns
    ensures r.df.WF() && r.df.index == f.index && r.df.columns == f.columns
    ensures forall d :: d in f.columns && d != c ==> r.df.data[d] == f.data[d]
    ensures FillCells(f.data[c]).None? ==> r == Step(f, Some(NoMode(c)))
    ensures FillCells(f.data[c]).Some? ==>
      r.err.None? && r.df.data[c] == Column(f.data[c].dtype, FillCells(f.data[c]).value)
  {
    var col := f.data[c];
    match FillCells(col)
    case None => Step(f, Some(NoMode(c)))
    case Some(cells) => Step(SetColumn(f, c, Column(col.dtype, cells)), None)
  }

  /** The loop over the columns `cs`, stopping at the first that raises. */
  function FillColumns(f: Frame, cs: seq<string>): (r: Step)
    requires f.WF() && forall c :: c in cs ==> c in f.columns
    ensures r.df.WF() && r.df.index == f.index && r.df.columns == f.columns
    ensures forall d :: d in f.columns && d !in cs ==> r.df.data[d] == f.data[d]
    decreases |cs|
  {
    if cs == [] then Step(f, None)
    else
      var s := FillColumn(f, cs[0]);
      if s.err.Some? then s else FillColumns(s.df, cs[1..])
  }

  /** Dropping the first of distinct names leaves distinct names that do
      not contain it. */
  lemma DistinctTail(cs: seq<string>)
    requires Distinct(cs) && cs != []
    ensures Distinct(cs[1..]) && cs[0] !in cs[1..]
  {
    var rest := cs[1..];
    forall j | 0 <= j < |rest| ensures rest[j] != cs[0] {
      assert rest[j] == cs[j + 1];
    }
    forall i, j | 0 <= i < j < |rest| ensures rest[i] != rest[j] {
      assert rest[i] == cs[i + 1] && rest[j] == cs[j + 1];
    }
  }

  /** The loop raises exactly when the body raises on one of the columns as
      they were before the loop. */
  lemma {:induction false} FillColumnsRaises(f: Frame, cs: seq<string>)
    requires f.WF() && Distinct(cs) && forall c :: c in cs ==> c in f.columns
    ensures FillColumns(f, cs).err.None? <==> forall c :: c in cs ==> FillCells(f.data[c]).Some?
    decreases |cs|
  {
    if cs != [] {
      var s := FillColumn(f, cs[0]);
      if s.err.None? {
        DistinctTail(cs);
        FillColumnsRaises(s.df, cs[1..]);
        assert forall c :: c in cs[1..] ==> s.df.data[c] == f.data[c];
        assert forall c :: c in cs ==> c == cs[0] || c in cs[1..];
      }
    }
  }

  /** Filling column after column is filling each column from its own
      original cells. */
  lemma {:induction false} FillColumnsValues(f: Frame, cs: seq<string>)
    requires f.WF() && Distinct(cs) && forall c :: c in cs ==> c in f.columns
    requires FillColumns(f, cs).err.None?
    ensures forall c :: c in cs ==>
      FillCells(f.data[c]).Some? &&
      FillColumns(f, cs).df.data[c] == Column(f.data[c].dtype, FillCells(f.data[c]).value)
    decreases |cs|
  {
    if cs != [] {
      var s := FillColumn(f, cs[0]);
      DistinctTail(cs);
      FillColumnsValues(s.df, cs[1..]);
      assert forall c :: c in cs[1..] ==> s.df.data[c] == f.data[c];
      assert forall c :: c in cs ==> c == cs[0] || c in cs[1..];
    }
  }

  /** When the loop raises, it is at the first column, in order, on which
      the body raises. */
  lemma {:induction false} FillColumnsFirstError(f: Frame, cs: seq<string>)
    requires f.WF() && Distinct(cs) && forall c :: c in cs ==> c in f.columns
    requires FillColumns(f, cs).err.Some?
    ensures exists k ::
      && 0 <= k < |cs|
      && FillColumns(f, cs).err == Some(NoMode(cs[k]))
      && FillCells(f.data[cs[k]]).None?
      && forall j :: 0 <= j < k ==> FillCells(f.data[cs[j]]).Some?
    decreases |cs|
  {
    var s := FillColumn(f, cs[0]);
    if s.err.None? {
      var rest := cs[1..];
      DistinctTail(cs);
      FillColumnsFirstError(s.df, rest);
      var k :| 0 <= k < |rest| && FillColumns(s.df, rest).err == Some(NoMode(rest[k])) &&
        FillCells(s.df.data[rest[k]]).None? && forall j :: 0 <= j < k ==> FillCells(s.df.data[rest[j]]).Some?;
      assert rest[k] in rest && cs[k + 1] == rest[k];
      forall j | 0 <= j < k + 1 ensures FillCells(f.data[cs[j]]).Some? {
        if j > 0 { assert cs[j] == rest[j - 1] && rest[j - 1] in rest; }
      }
    } else {
      assert FillColumns(f, cs).err == Some(NoMode(cs[0]));
    }
  }

  /** A table with a column that cannot be filled makes
      fill_remaining_nans raise at the first such column. */
  lemma FillRemainingNansFirst(f: Frame)
    requires f.WF() && exists c :: c in f.columns && FillCells(f.data[c]).None?
    ensures exists k ::
      && 0 <= k < |f.columns|
      && FillCells(f.data[f.columns[k]]).None?
      && (forall j :: 0 <= j < k ==> FillCells(f.data[f.columns[j]]).Some?)
      && FillRemainingNans(f).err == Some(NoMode(f.columns[k]))
  {
    FillColumnsRaises(f, f.columns);
    FillColumnsFirstError(f, f.columns);
  }

  /** `g` is `f` with the first `k` columns of `cs` filled and the others
      as they were. */
  ghost predicate FilledUpTo(f: Frame, g: Frame, cs: seq<string>, k: nat)
    requires f.WF() && forall c :: c in cs ==> c in f.columns
  {
    && g.WF() && g.columns == f.columns
    && k <= |cs|
    && (forall j :: 0 <= j < k ==>
          FillCells(f.data[cs[j]]).Some? &&
          g.data[cs[j]] == Column(f.data[cs[j]].dtype, FillCells(f.data[cs[j]]).value))
    && (forall j :: k <= j < |cs| ==> g.data[cs[j]] == f.data[cs[j]])
  }

  /** When the body raises first at column `cs[k]`, the loop raises there
      and leaves the columns before it filled, since each is filled in
      place before the exception, and the others as they were. */
  lemma {:induction false} FillColumnsPartial(f: Frame, cs: seq<string>, k: nat)
    requires f.WF() && Distinct(cs) && forall c :: c in cs ==> c in f.columns
    requires k < |cs| && FillCells(f.data[cs[k]]).None?
    requires forall j :: 0 <= j < k ==> FillCells(f.data[cs[j]]).Some?
    ensures FillColumns(f, cs).err == Some(NoMode(cs[k]))
    ensures FilledUpTo(f, FillColumns(f, cs).df, cs, k)
    decreases k
  {
    if k == 0 {
      assert FillColumns(f, cs) == Step(f, Some(NoMode(cs[0])));
    } else {
      var g := FillColumn(f, cs[0]).df;
      var rest := cs[1..];
      DistinctTail(cs);
      assert FillColumns(f, cs) == FillColumns(g, rest);
      FillColumnTail(f, cs);
      FillColumnsPartial(g, rest, k - 1);
      var r := FillColumns(g, rest).df;
      assert r.data[cs[0]] == g.data[cs[0]];
      FilledUpToCons(f, r, cs, k);
    }
  }

  /** Filling the first of distinct columns leaves each later one as it
      was. */
  lemma FillColumnTail(f: Frame, cs: seq<string>)
    requires f.WF() && cs != [] && cs[0] !in cs[1..] && forall c :: c in cs ==> c in f.columns
    ensures var g := FillColumn(f, cs[0]).df;
      forall j :: 0 <= j < |cs| - 1 ==> cs[1..][j] == cs[j + 1] && g.data[cs[1..][j]] == f.data[cs[j + 1]]
  {
    forall j | 0 <= j < |cs| - 1 ensures cs[1..][j] in cs[1..] { }
  }

  /** Filling the first column and then the next `k - 1` columns of the
      rest is filling the first `k` columns. */
  lemma FilledUpToCons(f: Frame, r: Frame, cs: seq<string>, k: nat)
    requires f.WF() && Distinct(cs) && forall c :: c in cs ==> c in f.columns
    requires 0 < k <= |cs| && FillCells(f.data[cs[0]]).Some?
    requires FilledUpTo(FillColumn(f, cs[0]).df, r, cs[1..], k - 1)
    requires cs[0] !in cs[1..] && r.data[cs[0]] == FillColumn(f, cs[0]).df.data[cs[0]]
    ensures FilledUpTo(f, r, cs, k)
  {
    var g := FillColumn(f, cs[0]).df;
    var rest := cs[1..];
    forall j | 0 < j < |cs| ensures cs[j] == rest[j - 1] && g.data[cs[j]] == f.data[cs[j]] {
      assert rest[j - 1] in rest;
    }
  }

  function FillRemainingNans(f: Frame): (r: Step)
    requires f.WF()
    ensures r.df.WF() && r.df.index == f.index && r.df.columns == f.columns
  {
    FillColumns(f, f.columns)
  }

  /** fill_remaining_nans raises at the first column, in column order, that
      cannot be filled, and leaves the columns before it filled and the
      others as they were. */
  lemma FillRemainingNansRaises(f: Frame)
    requires f.WF() && FillRemainingNans(f).err.Some?
    ensures exists k ::
      && 0 <= k < |f.columns|
      && FillRemainingNans(f).err == Some(NoMode(f.columns[k]))
      && FillCells(f.data[f.columns[k]]).None?
      && (forall j :: 0 <= j < k ==> FillCells(f.data[f.columns[j]]).Some?)
      && FilledUpTo(f, FillRemainingNans(f).df, f.columns, k)
  {
    FillColumnsFirstError(f, f.columns);
    var k :| && 0 <= k < |f.columns| && FillColumns(f, f.columns).err == Some(NoMode(f.columns[k]))
      && FillCells(f.data[f.columns[k]]).None?
      && forall j :: 0 <= j < k ==> FillCells(f.data[f.columns[j]]).Some?;
    FillColumnsPartial(f, f.columns, k);
  }

  /** A filled column has no missing cell, unless it is numeric with no
      number at all, in which case it is left as it was. */
  lemma FillCellsComplete(col: Column)
    requires FillCells(col).Some?
    ensures NoMissing(FillCells(col).value) ||
            (col.dtype == Numeric && Nums(col.cells) == [] && FillCells(col).value == col.cells)
  {
    if col.dtype == Numeric && Median(col.cells).None? {
      MedianSplits(col.cells);
    }
  }

  // ---------------------------------------------------------------------------
  // clean

  /** drop_measured_flags, then fill_missing_sex. */
  function SexStep(f: Frame): (r: Step)
    requires f.WF()
    ensures r.df.WF() && r.df.index == f.index
  {
    FillMissingSex(DropMeasuredFlags(f))
  }

  /** The table the TBG pass starts from. */
  function BeforeTbg(f: Frame): (g: Frame)
    requires f.WF()
    ensures g.WF() && g.index == f.index
  {
    SexStep(f).df
  }

  /** replace_tbg on the table fill_missing_sex leaves. */
  function TbgStep(f: Frame): (r: Step)
    requires f.WF()
    ensures r.df.WF() && r.df.index == f.index
  {
    ReplaceTbg(BeforeTbg(f))
  }

  /** The table the last pass starts from: map_target_column, then
      drop_nan_if_no_condition, after replace_tbg. */
  function BeforeFill(f: Frame): (h: Frame)
    requires f.WF()
    ensures h.WF() && |h.index| <= |f.index|
  {
    DropNanIfNoCondition(MapTargetColumn(TbgStep(f).df))
  }

  /** The six passes in order, stopping at the first exception. */
  function CleanSteps(f: Frame): (r: Step)
    requires f.WF()
    ensures r.df.WF() && |r.df.index| <= |f.index|
  {
    if SexStep(f).err.Some? then SexStep(f)
    else if TbgStep(f).err.Some? then TbgStep(f)
    else FillRemainingNans(BeforeFill(f))
  }

  /** `clean()`: the cleaned table with a fresh RangeIndex, or the
      exception. Only the row-dropping pass removes rows, so the result has
      at most as many rows as the input, labelled 0..n-1. */
  function Clean(f: Frame): (r: Result<Frame, Error>)
    requires f.WF()
    ensures r.Ok? ==> r.value.WF() && |r.value.index| <= |f.index| && r.value.index == Range(|r.value.index|)
  {
    var s := CleanSteps(f);
    if s.err.Some? then Err(s.err.value) else Ok(ResetIndex(s.df))
  }

  /** The frames between the passes of a clean() that raises nothing. */
  datatype Trace = Trace(f1: Frame, f2: Frame, f3: Frame, f4: Frame, f5: Frame, f6: Frame)

  /** Where a successful clean() passes through, pass by pass. */
  lemma CleanTrace(f: Frame) returns (t: Trace)
    requires f.WF() && Clean(f).Ok?
    ensures t.f1 == DropMeasuredFlags(f) && t.f1.WF()
    ensures FillMissingSex(t.f1) == Step(t.f2, None) && t.f2.WF()
    ensures ReplaceTbg(t.f2) == Step(t.f3, None) && t.f3.WF()
    ensures t.f4 == MapTargetColumn(t.f3) && t.f4.WF()
    ensures t.f5 == DropNanIfNoCondition(t.f4) && t.f5.WF()
    ensures FillRemainingNans(t.f5) == Step(t.f6, None) && t.f6.WF()
    ensures Clean(f) == Ok(ResetIndex(t.f6))
  {
    var f1 := DropMeasuredFlags(f);
    var s2 := FillMissingSex(f1);
    var s3 := ReplaceTbg(s2.df);
    var f4 := MapTargetColumn(s3.df);
    var f5 := DropNanIfNoCondition(f4);
    var s6 := FillRemainingNans(f5);
    t := Trace(f1, s2.df, s3.df, f4, f5, s6.df);
  }

  /** `sex` is present and has no value, so `mode()[0]` raises. */
  predicate SexRaises(f: Frame)
    requires f.WF()
  {
    "sex" in f.columns && AllMissing(f.data["sex"].cells)
  }

  /** Some row makes `replace` raise. */
  predicate TbgRaises(g: Frame)
    requires g.WF()
  {
    "TBG" in g.columns && exists i :: 0 <= i < |g.index| && RowRaises(g, i)
  }

  /** Some column cannot be filled by the last pass. */
  predicate FillRaises(h: Frame)
    requires h.WF()
  {
    exists c :: c in h.columns && FillCells(h.data[c]).None?
  }

  /** clean() raises exactly when fill_missing_sex, replace_tbg or
      fill_remaining_nans raises, and with the exception its passes stop
      at. */
  lemma CleanRaises(f: Frame)
    requires f.WF()
    ensures Clean(f).Err? <==> SexRaises(f) || TbgRaises(BeforeTbg(f)) || FillRaises(BeforeFill(f))
    ensures Clean(f).Err? ==> CleanSteps(f).err == Some(Clean(f).error)
  {
    var f1 := DropMeasuredFlags(f);
    NotFlags();
    assert "sex" in f1.columns <==> "sex" in f.columns;
    var s2 := FillMissingSex(f1);
    assert s2.err.Some? <==> SexRaises(f);
    if !SexRaises(f) {
      var g := s2.df;
      assert g == BeforeTbg(f);
      var s3 := ReplaceTbg(g);
      if "TBG" in g.columns {
        ReplaceTbgRaises(g);
      }
      assert s3.err.Some? <==> TbgRaises(g);
      if !TbgRaises(g) {
        var h := DropNanIfNoCondition(MapTargetColumn(s3.df));
        assert h == BeforeFill(f);
        assert CleanSteps(f) == FillRemainingNans(h);
        FillColumnsRaises(h, h.columns);
      }
    }
  }

  /** A `sex` column without any value stops clean() at fill_missing_sex,
      with the flags already dropped. */
  lemma CleanSexError(f: Frame)
    requires f.WF() && SexRaises(f)
    ensures CleanSteps(f) == Step(DropMeasuredFlags(f), Some(NoMode("sex")))
  {
    NotFlags();
  }

  /** Otherwise a raising row stops clean() at replace_tbg, with the
      exception of the first raising row and the table as replace_tbg
      found it. */
  lemma CleanTbgError(f: Frame)
    requires f.WF() && !SexRaises(f) && TbgRaises(BeforeTbg(f))
    ensures var g := BeforeTbg(f);
      exists i ::
        && 0 <= i < |g.index|
        && RowRaises(g, i)
        && (forall j :: 0 <= j < i ==> !RowRaises(g, j))
        && CleanSteps(f) == Step(g, Some(RowError(g, i)))
  {
    var f1 := DropMeasuredFlags(f);
    NotFlags();
    assert "sex" in f1.columns <==> "sex" in f.columns;
    var g := BeforeTbg(f);
    assert FillMissingSex(f1) == Step(g, None);
    ReplaceTbgRaises(g);
    assert CleanSteps(f) == ReplaceTbg(g);
  }

  /** When neither fill_missing_sex nor replace_tbg raises, clean() ends
      where fill_remaining_nans ends: when a column cannot be filled, with
      the exception of the first such column (FillRemainingNansFirst) and
      the columns before it filled (FillRemainingNansRaises). */
  lemma CleanReachesFill(f: Frame)
    requires f.WF() && !SexRaises(f) && !TbgRaises(BeforeTbg(f))
    ensures CleanSteps(f) == FillRemainingNans(BeforeFill(f))
  {
    var f1 := DropMeasuredFlags(f);
    NotFlags();
    assert "sex" in f1.columns <==> "sex" in f.columns;
    var g := BeforeTbg(f);
    assert FillMissingSex(f1) == Step(g, None);
    if "TBG" in g.columns {
      ReplaceTbgRaises(g);
    }
  }

  /** The columns clean() leaves: no flag column; `class` exactly when the
      input has `class` or `target`; with `patient_id`, a `Patient_ID` and
      neither `target` nor `patient_id`; without it, `target` as in the
      input. Every other column survives. */
  lemma CleanColumns(f: Frame)
    requires f.WF() && Clean(f).Ok?
    ensures var r := Clean(f).value;
      && (forall c :: c in MeasuredFlags ==> c !in r.columns)
      && ("class" in r.columns <==> "class" in f.columns || "target" in f.columns)
      && ("patient_id" in f.columns ==>
            "Patient_ID" in r.columns && "target" !in r.columns && "patient_id" !in r.columns)
      && ("patient_id" !in f.columns ==> ("target" in r.columns <==> "target" in f.columns))
      && ("patient_id" !in f.columns ==> ("Patient_ID" in r.columns <==> "Patient_ID" in f.columns))
      && (forall c :: c in f.columns && c !in MeasuredFlags && c != "target" && c != "patient_id" ==> c in r.columns)
      && (forall c :: c in r.columns ==> c in f.columns || c == "class" || c == "Patient_ID")
  {
    var t := CleanTrace(f);
    NotFlags();
    TargetNamesDistinct();
    assert t.f4 == MapTarget(t.f3, "target", "class", "patient_id", "Patient_ID", MapCode);
    assert t.f3.columns == t.f1.columns;
    assert t.f6.columns == t.f4.columns;
  }

  /** The cells of `s` that are present are strings from `names`. */
  predicate OnlyIn(s: seq<Cell>, names: set<string>)
  {
    forall x :: x in s ==> x.None? || (x.value.Str? && x.value.s in names)
  }

  lemma MappedClasses(s: seq<Cell>)
    ensures OnlyIn(MapColumn(s, MapCode), ClassNames)
  {
    var r := MapColumn(s, MapCode);
    forall x | x in r ensures x.None? || (x.value.Str? && x.value.s in ClassNames) {
      var i :| 0 <= i < |r| && r[i] == x;
      assert x == MapCode(s[i]);
    }
  }

  lemma FilterOnlyIn(s: seq<Cell>, keep: seq<bool>, names: set<string>)
    requires |keep| == |s| && OnlyIn(s, names)
    ensures OnlyIn(Filter(s, keep), names)
  {
    FilterElements(s, keep);
  }

  /** Filling with the mode of a column whose values come from `names`
      leaves no cell missing and every cell from `names`. */
  lemma ModeFillOnlyIn(before: seq<Cell>, after: seq<Cell>, names: set<string>)
    requires FilledWithMode(before, after) && OnlyIn(before, names)
    ensures NoMissing(after) && forall x :: x in after ==> x.Some? && x.value.Str? && x.value.s in names
  {
    forall i | 0 <= i < |after| ensures after[i].Some? && after[i].value.Str? && after[i].value.s in names {
      assert before[i] in before;
      if before[i].None? {
        CountPositive(before, after[i].value);
      }
    }
  }

  /** With a `target` column, the cleaned `class` column holds only the seven
      class names and nothing missing: unknown codes map to missing cells,
      which the last pass fills with the (class-name) mode. */
  lemma CleanClassNames(f: Frame)
    requires f.WF() && Clean(f).Ok? && "target" in f.columns
    ensures var r := Clean(f).value;
      "class" in r.columns &&
      forall x :: x in r.data["class"].cells ==> x.Some? && x.value.Str? && x.value.s in ClassNames
  {
    var t := CleanTrace(f);
    NotFlags();
    TargetNamesDistinct();
    assert t.f4 == MapTarget(t.f3, "target", "class", "patient_id", "Patient_ID", MapCode);
    assert "target" in t.f3.columns;
    var c4 := t.f4.data["class"];
    assert c4 == Column(Other, MapColumn(t.f3.data["target"].cells, MapCode));
    MappedClasses(t.f3.data["target"].cells);
    var c5 := t.f5.data["class"];
    assert c5.dtype == Other && OnlyIn(c5.cells, ClassNames) by {
      if HasRequired(t.f4) {
        FilterOnlyIn(c4.cells, KeepMask(t.f4), ClassNames);
      }
    }
    FillColumnsValues(t.f5, t.f5.columns);
    assert t.f6.data["class"] == Column(Other, FillCells(c5).value);
    ModeFillOnlyIn(c5.cells, FillCells(c5).value, ClassNames);
  }

  /** After clean(), no cell is missing, except in a float64/int64 column
      that had no number at all, which stays entirely missing. */
  lemma CleanNoMissing(f: Frame)
    requires f.WF() && Clean(f).Ok?
    ensures var r := Clean(f).value;
      forall c :: c in r.columns ==>
        NoMissing(r.data[c].cells) || (r.data[c].dtype == Numeric && AllMissing(r.data[c].cells))
  {
    var t := CleanTrace(f);
    FillColumnsValues(t.f5, t.f5.columns);
    forall c | c in t.f6.columns
      ensures NoMissing(t.f6.data[c].cells) || (t.f6.data[c].dtype == Numeric && AllMissing(t.f6.data[c].cells))
    {
      var col := t.f5.data[c];
      FillCellsComplete(col);
      if !NoMissing(t.f6.data[c].cells) {
        assert Fits(col, |t.f5.index|);
        forall i | 0 <= i < |col.cells| ensures col.cells[i].None? {
          assert col.cells[i] in col.cells;
        }
      }
    }
  }
}
