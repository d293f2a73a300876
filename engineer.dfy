/** The feature engineer object: it owns one table, and each pass method
    replaces that table, in place, by what the pass makes of it. An
    exception is returned as a value, with the table left as the source
    leaves it when the exception propagates. */
module Engineer {
  import opened Values
  import opened Frames
  import P = Passes

  class ThyroidFeatureEngineer {
    var df: Frame

    ghost predicate Valid()
      reads this
    {
      df.WF()
    }

    /** `__init__`: the engineer works on its own copy of the caller's table
        (a Frame is a value, so no pass can reach the caller's table). */
    constructor(input: Frame)
      requires input.WF()
      ensures Valid() && df == input
    {
      df := input;
    }

    method DropMeasuredFlags()
      requires Valid()
      modifies this
      ensures Valid() && df == P.DropMeasuredFlags(old(df))
    {
      df := P.DropMeasuredFlags(df);
    }

    /** On a `sex` column without any value, `mode()[0]` raises and the
        table is left as it was. */
    method FillMissingSex() returns (err: Option<Error>)
      requires Valid()
      modifies this
      ensures Valid() && P.FillMissingSex(old(df)) == P.Step(df, err)
    {
      var s := P.FillMissingSex(df);
      df, err := s.df, s.err;
    }

    /** The new TBG column is assigned only when every row has been
        replaced; a raising row leaves the table as it was. */
    method ReplaceTbg() returns (err: Option<Error>)
      requires Valid()
      modifies this
      ensures Valid() && P.ReplaceTbg(old(df)) == P.Step(df, err)
    {
      var s := P.ReplaceTbg(df);
      df, err := s.df, s.err;
    }

    method MapTargetColumn()
      requires Valid()
      modifies this
      ensures Valid() && df == P.MapTargetColumn(old(df))
    {
      df := P.MapTargetColumn(df);
    }

    method DropNanIfNoCondition()
      requires Valid()
      modifies this
      ensures Valid() && df == P.DropNanIfNoCondition(old(df))
    {
      df := P.DropNanIfNoCondition(df);
    }

    /** The loop over the columns, filling each in place; when a column
        raises, the columns before it stay filled. */
    method FillRemainingNans() returns (err: Option<Error>)
      requires Valid()
      modifies this
      ensures Valid() && P.FillRemainingNans(old(df)) == P.Step(df, err)
    {
      var cols := df.columns;
      ghost var start := df;
      var k := 0;
      while k < |cols|
        invariant 0 <= k <= |cols|
        invariant df.WF() && df.columns == cols
        invariant P.FillColumns(start, cols) == P.FillColumns(df, cols[k..])
      {
        var c := cols[k];
        assert cols[k..][0] == c && cols[k..][1..] == cols[k + 1..];
        var col := df.data[c];
        var cells := P.FillCells(col);
        if cells.None? {
          return Some(NoMode(c));
        }
        df := SetColumn(df, c, Column(col.dtype, cells.value));
        k := k + 1;
      }
      return None;
    }

    /** `clean()`: the passes in order, then `reset_index(drop=True)`; the
        first exception stops the pipeline and leaves the table as the
        passes before it made it. */
    method Clean() returns (r: Result<Frame, Error>)
      requires Valid()
      modifies this
      ensures Valid()
      ensures r == P.Clean(old(df))
      ensures r.Ok? ==> df == r.value
      ensures r.Err? ==> df == P.CleanSteps(old(df)).df
    {
      DropMeasuredFlags();
      var e := FillMissingSex();
      if e.Some? {
        return Err(e.value);
      }
      e := ReplaceTbg();
      if e.Some? {
        return Err(e.value);
      }
      MapTargetColumn();
      DropNanIfNoCondition();
      e := FillRemainingNans();
      if e.Some? {
        return Err(e.value);
      }
      df := ResetIndex(df);
      return Ok(df);
    }
  }
}
