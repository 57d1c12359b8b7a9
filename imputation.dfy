/** Stage B, imputation: the missing cells of a named column are filled with one value computed
    from the column by a rule. */
module Imputation {
  import opened Cells
  import opened Tables
  import opened Statistics
  import opened Pruning

  /** How the fill value of a column is obtained. */
  datatype Rule = ModeRule | MeanRule | MedianRule | ConstantRule(fill: Value)

  /** The value `col.fillna(...)` is given under `rule`: None where pandas computes NaN (the mean or
      median of a column without values, for which `fillna` changes nothing), or the exception
      pandas raises (`mode()[0]` of an empty mode, the mean or median of text). */
  function FillValue(c: ColName, col: seq<Cell>, rule: Rule): (r: Result<Option<Value>, Fault>)
    ensures r.Failure? <==>
              || (rule == ModeRule && forall i :: 0 <= i < |col| ==> col[i].None?)
              || ((rule == MeanRule || rule == MedianRule) && !Numeric(col))
    ensures r.Failure? ==> r.error == (if rule == ModeRule then ModeOfEmptyColumn(c) else NonNumericColumn(c))
    ensures r.Success? && r.value.None? ==> forall i :: 0 <= i < |col| ==> col[i].None?
  {
    match rule
    case ModeRule =>
      (match Mode(col)
       case None => Failure(ModeOfEmptyColumn(c))
       case Some(v) => Success(Some(v)))
    case MeanRule =>
      if !Numeric(col) then Failure(NonNumericColumn(c))
      else
        var xs := Numbers(col);
        if xs == [] then Success(None) else Success(Some(Num(Mean(xs))))
    case MedianRule =>
      if !Numeric(col) then Failure(NonNumericColumn(c))
      else
        var xs := Numbers(col);
        if xs == [] then Success(None) else Success(Some(Num(Median(xs))))
    case ConstantRule(v) => Success(Some(v))
  }

  /** On a column that survives the 40% rule, the fill value can be computed exactly when the
      table has rows (for a mode), the column is numeric (for a mean or median), or always (for a
      constant). */
  lemma SurvivorFillValue(c: ColName, col: seq<Cell>, rows: nat, rule: Rule)
    requires |col| == rows && !MostlyMissing(col, rows)
    ensures FillValue(c, col, rule).Success? <==>
              if rule == ModeRule then rows > 0 else rule.ConstantRule? || Numeric(col)
  {
    if rule == ModeRule && rows > 0 {
      var i := SurvivorHasValue(col, rows);
    }
  }

  /** `col.fillna(fill)`, where a NaN fill leaves the column as it is. */
  function Filled(col: seq<Cell>, fill: Option<Value>): seq<Cell>
  {
    match fill
    case None => col
    case Some(v) => FillNa(col, v)
  }

  /** `if c in df.columns: df[c] = df[c].fillna(<rule>)`. */
  function Impute(t: Table, c: ColName, rule: Rule): (r: Result<Table, Fault>)
    requires t.WellFormed()
    ensures c !in t.cols ==> r == Success(t)
    ensures r.Failure? ==> c in t.cols && FillValue(c, t.cols[c], rule) == Failure(r.error)
    ensures r.Success? ==>
              && r.value.WellFormed() && r.value.names == t.names && r.value.rows == t.rows
              && (forall d :: d in r.value.cols <==> d in t.cols)
              && (forall d :: d in t.cols && d != c ==> r.value.cols[d] == t.cols[d])
    ensures r.Success? && c in t.cols ==>
              forall i :: 0 <= i < t.rows && t.cols[c][i].Some? ==> r.value.cols[c][i] == t.cols[c][i]
    ensures r.Success? && c in t.cols ==>
              FillValue(c, t.cols[c], rule).Success? &&
              forall i :: 0 <= i < t.rows && t.cols[c][i].None? && r.value.cols[c][i].Some? ==>
                r.value.cols[c][i] == FillValue(c, t.cols[c], rule).value
    ensures r.Success? && c in t.cols && FillValue(c, t.cols[c], rule).value.Some? ==>
              NullCount(r.value.cols[c]) == 0
    ensures r.Success? && c in t.cols && (exists i :: 0 <= i < t.rows && t.cols[c][i].Some?) ==>
              NullCount(r.value.cols[c]) == 0
  {
    if c !in t.cols then Success(t)
    else
      var fill :- FillValue(c, t.cols[c], rule);
      Success(Assign(t, c, Filled(t.cols[c], fill)))
  }

  /** One `if c in df.columns: df[c] = df[c].fillna(...)` statement of the cleaning code. */
  datatype FillRule = FillRule(column: ColName, rule: Rule)

  /** No column is filled by two rules. */
  predicate DistinctColumns(fs: seq<FillRule>)
  {
    forall k, l :: 0 <= k < l < |fs| ==> fs[k].column != fs[l].column
  }

  /** The fill statements `fs` run one after the other; the first that raises ends the run. */
  function ImputeAll(t: Table, fs: seq<FillRule>): (r: Result<Table, Fault>)
    requires t.WellFormed()
    ensures r.Success? ==>
              && r.value.WellFormed() && r.value.names == t.names && r.value.rows == t.rows
              && (forall d :: d in r.value.cols <==> d in t.cols)
    decreases |fs|
  {
    if fs == [] then Success(t)
    else
      var u :- ImputeAll(t, fs[..|fs| - 1]);
      Impute(u, fs[|fs| - 1].column, fs[|fs| - 1].rule)
  }

  /** The run of the first `k + 1` statements is the run of the first `k` and one more. */
  lemma ImputeAllStep(t: Table, fs: seq<FillRule>, k: nat, u: Table)
    requires t.WellFormed() && k < |fs| && ImputeAll(t, fs[..k]) == Success(u)
    ensures u.WellFormed()
    ensures ImputeAll(t, fs[..k + 1]) == Impute(u, fs[k].column, fs[k].rule)
  {
    assert fs[..k + 1][..k] == fs[..k];
  }

  /** Once a statement has raised, the later ones do not run. */
  lemma {:induction false} ImputeAllFailureStays(t: Table, fs: seq<FillRule>, k: nat)
    requires t.WellFormed() && k <= |fs| && ImputeAll(t, fs[..k]).Failure?
    ensures ImputeAll(t, fs) == ImputeAll(t, fs[..k])
    decreases |fs| - k
  {
    if k < |fs| {
      assert fs[..k + 1][..k] == fs[..k];
      ImputeAllFailureStays(t, fs, k + 1);
    } else {
      assert fs[..k] == fs;
    }
  }

  /** A run that raises does so at a named column present in the table whose fill value cannot
      be computed; `k` is that statement. */
  lemma {:induction false} ImputeAllFault(t: Table, fs: seq<FillRule>) returns (k: nat)
    requires t.WellFormed() && DistinctColumns(fs) && ImputeAll(t, fs).Failure?
    ensures k < |fs| && fs[k].column in t.cols
    ensures FillValue(fs[k].column, t.cols[fs[k].column], fs[k].rule) == Failure(ImputeAll(t, fs).error)
    decreases |fs|
  {
    var n := |fs| - 1;
    var init := fs[..n];
    var f := fs[n];
    assert DistinctColumns(init);
    match ImputeAll(t, init)
    case Failure(e) => {
      k := ImputeAllFault(t, init);
      assert init[k] == fs[k];
    }
    case Success(u) => {
      ImputeAllUnnamed(t, init);
      assert forall l :: 0 <= l < n ==> init[l].column != f.column;
      assert ImputeAll(t, fs) == Impute(u, f.column, f.rule);
      k := n;
    }
  }

  /** A run that meets an empty mode does so at a mode statement whose column is present in the
      table and holds no value. */
  lemma ImputeAllModeFault(t: Table, fs: seq<FillRule>, c: ColName) returns (k: nat)
    requires t.WellFormed() && DistinctColumns(fs) && ImputeAll(t, fs) == Failure(ModeOfEmptyColumn(c))
    ensures k < |fs| && fs[k] == FillRule(c, ModeRule) && c in t.cols
    ensures forall i :: 0 <= i < |t.cols[c]| ==> t.cols[c][i].None?
  {
    k := ImputeAllFault(t, fs);
  }

  /** A run succeeds exactly when every named column present in the table has a fill value that
      can be computed. */
  lemma {:induction false} ImputeAllOutcome(t: Table, fs: seq<FillRule>)
    requires t.WellFormed() && DistinctColumns(fs)
    ensures ImputeAll(t, fs).Success? <==>
              forall k :: 0 <= k < |fs| && fs[k].column in t.cols ==>
                FillValue(fs[k].column, t.cols[fs[k].column], fs[k].rule).Success?
  {
    if ImputeAll(t, fs).Success? {
      forall k | 0 <= k < |fs| && fs[k].column in t.cols
        ensures FillValue(fs[k].column, t.cols[fs[k].column], fs[k].rule).Success?
      {
        ImputeAllNamed(t, fs, k);
      }
    } else if forall k :: 0 <= k < |fs| && fs[k].column in t.cols ==>
                FillValue(fs[k].column, t.cols[fs[k].column], fs[k].rule).Success? {
      ImputeAllRuns(t, fs);
    }
  }

  /** A run whose every fill value can be computed does not raise. */
  lemma {:induction false} ImputeAllRuns(t: Table, fs: seq<FillRule>)
    requires t.WellFormed() && DistinctColumns(fs)
    requires forall k :: 0 <= k < |fs| && fs[k].column in t.cols ==>
               FillValue(fs[k].column, t.cols[fs[k].column], fs[k].rule).Success?
    ensures ImputeAll(t, fs).Success?
    decreases |fs|
  {
    if fs != [] {
      var n := |fs| - 1;
      var init := fs[..n];
      var f := fs[n];
      assert forall k :: 0 <= k < n ==> init[k] == fs[k];
      ImputeAllRuns(t, init);
      var u := ImputeAll(t, init).value;
      ImputeAllUnnamed(t, init);
      if f.column in t.cols {
        assert u.cols[f.column] == t.cols[f.column];
      }
      assert ImputeAll(t, fs) == Impute(u, f.column, f.rule);
    }
  }

  /** A column no statement names is left as it was. */
  lemma {:induction false} ImputeAllUnnamed(t: Table, fs: seq<FillRule>)
    requires t.WellFormed()
    ensures ImputeAll(t, fs).Success? ==>
              forall c :: c in t.cols && (forall k :: 0 <= k < |fs| ==> fs[k].column != c) ==>
                ImputeAll(t, fs).value.cols[c] == t.cols[c]
    decreases |fs|
  {
    if fs != [] && ImputeAll(t, fs).Success? {
      var n := |fs| - 1;
      var init := fs[..n];
      ImputeAllUnnamed(t, init);
      var u := ImputeAll(t, init).value;
      assert ImputeAll(t, fs) == Impute(u, fs[n].column, fs[n].rule);
      forall c | c in t.cols && (forall k :: 0 <= k < |fs| ==> fs[k].column != c)
        ensures ImputeAll(t, fs).value.cols[c] == t.cols[c]
      {
        assert forall k :: 0 <= k < n ==> init[k] == fs[k];
        assert u.cols[c] == t.cols[c];
        assert fs[n].column != c;
      }
    }
  }

  /** `after` is `before` with its missing cells filled under `rule`: the fill value can be
      computed, present cells are kept, every cell that became present holds the fill value, and
      a column that had a value has no missing cell left. */
  ghost predicate FilledFrom(c: ColName, before: seq<Cell>, after: seq<Cell>, rule: Rule)
  {
    && |after| == |before|
    && FillValue(c, before, rule).Success?
    && (forall i :: 0 <= i < |before| && before[i].Some? ==> after[i] == before[i])
    && (forall i :: 0 <= i < |before| && before[i].None? && after[i].Some? ==>
          after[i] == FillValue(c, before, rule).value)
    && (FillValue(c, before, rule).value.Some? ==> NullCount(after) == 0)
    && ((exists i :: 0 <= i < |before| && before[i].Some?) ==> NullCount(after) == 0)
  }

  /** Each named column present in the table ends up filled from its original cells. */
  lemma {:induction false} ImputeAllNamed(t: Table, fs: seq<FillRule>, k: nat)
    requires t.WellFormed() && DistinctColumns(fs) && k < |fs| && fs[k].column in t.cols
    requires ImputeAll(t, fs).Success?
    ensures FilledFrom(fs[k].column, t.cols[fs[k].column], ImputeAll(t, fs).value.cols[fs[k].column], fs[k].rule)
    decreases |fs|
  {
    var n := |fs| - 1;
    var init := fs[..n];
    var u := ImputeAll(t, init).value;
    var c := fs[k].column;
    assert DistinctColumns(init);
    assert ImputeAll(t, fs) == Impute(u, fs[n].column, fs[n].rule);
    var after := ImputeAll(t, fs).value.cols[c];
    if k < n {
      assert init[k] == fs[k];
      ImputeAllNamed(t, init, k);
      assert fs[n].column != c;
      FilledFromSame(c, t.cols[c], u.cols[c], t.cols[c], after, fs[k].rule);
    } else {
      ImputeAllUnnamed(t, init);
      assert forall l :: 0 <= l < n ==> init[l].column != c;
      ImputeFills(u, c, fs[n].rule);
      FilledFromSame(c, u.cols[c], after, t.cols[c], after, fs[k].rule);
    }
  }

  lemma FilledFromSame(c: ColName, before: seq<Cell>, after: seq<Cell>, before': seq<Cell>, after': seq<Cell>, rule: Rule)
    requires FilledFrom(c, before, after, rule) && before == before' && after == after'
    ensures FilledFrom(c, before', after', rule)
  {
  }

  /** One fill statement that runs fills its column from the cells it had. */
  lemma ImputeFills(t: Table, c: ColName, rule: Rule)
    requires t.WellFormed() && c in t.cols && Impute(t, c, rule).Success?
    ensures FilledFrom(c, t.cols[c], Impute(t, c, rule).value.cols[c], rule)
  {
  }

  /** Filling a numeric column with its mean or median leaves it numeric. */
  lemma FilledKeepsNumeric(c: ColName, before: seq<Cell>, after: seq<Cell>, rule: Rule)
    requires rule == MeanRule || rule == MedianRule
    requires FilledFrom(c, before, after, rule) && Numeric(before)
    ensures Numeric(after)
  {
  }
}
