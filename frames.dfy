/** The frames `app_cleaned` and `prev_app_cleaned`, which the cleaning code updates in place one
    column at a time. */
module Frames {
  import opened Cells
  import opened Tables
  import opened Statistics
  import opened Imputation
  import opened DayOffsets
  import opened Binning

  class Frame {
    var names: seq<ColName>
    var cols: map<ColName, seq<Cell>>
    var rows: nat

    /** The frame's current contents as a value. */
    function Snapshot(): Table
      reads this
    {
      Table(names, cols, rows)
    }

    ghost predicate Valid()
      reads this
    {
      Snapshot().WellFormed()
    }

    /** `df.copy()`. */
    constructor Copy(t: Table)
      requires t.WellFormed()
      ensures Valid() && Snapshot() == t
    {
      names, cols, rows := t.names, t.cols, t.rows;
    }

    /** `df[c] = col`. */
    method SetColumn(c: ColName, col: seq<Cell>)
      requires Valid() && |col| == rows
      modifies this
      ensures Valid() && Snapshot() == Tables.Assign(old(Snapshot()), c, col)
    {
      if c !in cols {
        names := names + [c];
      }
      cols := cols[c := col];
    }

    /** `if c in df.columns: df[c] = df[c].fillna(<value of rule>)`; a fault is the exception
        computing the value raises. */
    method ImputeColumn(c: ColName, rule: Rule) returns (fault: Option<Fault>)
      requires Valid()
      modifies this
      ensures Valid()
      ensures Imputation.Impute(old(Snapshot()), c, rule) ==
                if fault.None? then Success(Snapshot()) else Failure(fault.value)
    {
      if c in cols {
        var fill := FillValue(c, cols[c], rule);
        if fill.Failure? {
          return Some(fill.error);
        }
        SetColumn(c, Filled(cols[c], fill.value));
      }
      return None;
    }

    /** The fill statements `fs`, each `if c in df.columns: df[c] = df[c].fillna(...)`, run on the
        frame in order; the first exception ends the run. */
    method ImputeColumns(fs: seq<FillRule>) returns (fault: Option<Fault>)
      requires Valid()
      modifies this
      ensures Valid()
      ensures ImputeAll(old(Snapshot()), fs) == if fault.None? then Success(Snapshot()) else Failure(fault.value)
    {
      ghost var t0 := Snapshot();
      assert fs[..0] == [];
      for k := 0 to |fs|
        invariant Valid()
        invariant ImputeAll(t0, fs[..k]) == Success(Snapshot())
      {
        ImputeAllStep(t0, fs, k, Snapshot());
        fault := ImputeColumn(fs[k].column, fs[k].rule);
        if fault.Some? {
          ImputeAllFailureStays(t0, fs, k + 1);
          return;
        }
      }
      assert fs[..|fs|] == fs;
      return None;
    }

    /** `for col in [c for c in df.columns if c.startswith("DAYS")]: df[col] = abs(df[col])`;
        a fault is the TypeError `abs` raises on a column holding text. */
    method NormaliseDayOffsets() returns (fault: Option<Fault>)
      requires Valid()
      modifies this
      ensures Valid()
      ensures DayOffsets.NormaliseDays(old(Snapshot())) ==
                if fault.None? then Success(Snapshot()) else Failure(fault.value)
    {
      ghost var t0 := Snapshot();
      var days := DaysColumns(names);
      assert days[..0] == [];
      var k := 0;
      while k < |days|
        invariant 0 <= k <= |days| && Valid()
        invariant AbsColumns(t0, days[..k]) == Success(Snapshot())
      {
        AbsColumnsStep(t0, days, k, Snapshot());
        var c := days[k];
        var col := cols[c];
        if !Numeric(col) {
          AbsColumnsFailureStays(t0, days, k + 1);
          return Some(NonNumericColumn(c));
        }
        SetColumn(c, AbsColumn(col));
        k := k + 1;
      }
      assert days[..k] == days;
      return None;
    }

    /** `if source in df.columns: df[target] = pd.cut(df[source], bins, labels=ranges)`; a fault
        is the TypeError `pd.cut` raises on text. */
    method DeriveRangeColumn(source: ColName, target: ColName, field: RangeField) returns (fault: Option<Fault>)
      requires Valid()
      modifies this
      ensures Valid()
      ensures DeriveRange(old(Snapshot()), source, target, field) ==
                if fault.None? then Success(Snapshot()) else Failure(fault.value)
    {
      if source in cols {
        var col := cols[source];
        if !Numeric(col) {
          return Some(NonNumericColumn(source));
        }
        SetColumn(target, CutColumn(col, field));
      }
      return None;
    }
  }
}
