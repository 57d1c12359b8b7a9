/** Stage B, normalisation: every column whose name starts with "DAYS" holds day offsets counted
    back from the application date, and is replaced by their absolute values. */
module DayOffsets {
  import opened Cells
  import opened Tables
  import opened Statistics

  /** `col.startswith("DAYS")`: the naming convention that selects the columns to normalise. */
  predicate IsDaysColumn(c: ColName)
  {
    |c| >= 4 && c[..4] == "DAYS"
  }

  /** `[col for col in df.columns if col.startswith("DAYS")]`. */
  function DaysColumns(names: seq<ColName>): (r: seq<ColName>)
    ensures forall c :: c in r <==> c in names && IsDaysColumn(c)
  {
    if names == [] then []
    else (if IsDaysColumn(names[0]) then [names[0]] else []) + DaysColumns(names[1..])
  }

  lemma {:induction false} DaysColumnsDistinct(names: seq<ColName>)
    requires Distinct(names)
    ensures Distinct(DaysColumns(names))
  {
    if names != [] {
      var rest := DaysColumns(names[1..]);
      DaysColumnsDistinct(names[1..]);
      if IsDaysColumn(names[0]) {
        assert names[0] !in names[1..];
        var r := [names[0]] + rest;
        forall i, j | 0 <= i < j < |r|
          ensures r[i] != r[j]
        {
          assert r[j] == rest[j - 1] && r[j] in rest;
          if i > 0 {
            assert r[i] == rest[i - 1];
          }
        }
      }
    }
  }

  /** `abs` of one cell: a number becomes its magnitude, a missing cell stays missing. */
  function AbsCell(cell: Cell): (r: Cell)
    ensures r.Some? <==> cell.Some?
    ensures cell.Some? && cell.value.Num? ==>
              r.value.Num? && r.value.x >= 0.0 && (r.value.x == cell.value.x || r.value.x == -cell.value.x)
  {
    match cell
    case Some(Num(x)) => Some(Num(if x < 0.0 then -x else x))
    case _ => cell
  }

  /** `abs(df[col])` of a numeric column. */
  function AbsColumn(col: seq<Cell>): (r: seq<Cell>)
    ensures |r| == |col|
    ensures forall i :: 0 <= i < |col| ==> r[i] == AbsCell(col[i])
  {
    seq(|col|, i requires 0 <= i < |col| => AbsCell(col[i]))
  }

  /** Taking absolute values twice is taking them once. */
  lemma AbsColumnIdempotent(col: seq<Cell>)
    ensures AbsColumn(AbsColumn(col)) == AbsColumn(col)
  {
    var a := AbsColumn(col);
    assert forall i :: 0 <= i < |col| ==> AbsCell(a[i]) == a[i];
  }

  /** The loop `for col in cs: df[col] = abs(df[col])`, which stops at the first column holding text
      (pandas raises TypeError there). */
  function AbsColumns(t: Table, cs: seq<ColName>): (r: Result<Table, Fault>)
    requires t.WellFormed() && forall c :: c in cs ==> c in t.cols
    ensures r.Success? ==>
              && r.value.WellFormed() && r.value.names == t.names && r.value.rows == t.rows
              && (forall c :: c in r.value.cols <==> c in t.cols)
    ensures r.Failure? ==> r.error.NonNumericColumn?
    decreases |cs|
  {
    if cs == [] then Success(t)
    else
      var u :- AbsColumns(t, cs[..|cs| - 1]);
      var c := cs[|cs| - 1];
      if !Numeric(u.cols[c]) then Failure(NonNumericColumn(c))
      else Success(Assign(u, c, AbsColumn(u.cols[c])))
  }

  /** One more turn of the loop: the next column is checked, then replaced by its absolute values. */
  lemma AbsColumnsStep(t: Table, cs: seq<ColName>, k: nat, u: Table)
    requires t.WellFormed() && forall c :: c in cs ==> c in t.cols
    requires k < |cs| && AbsColumns(t, cs[..k]) == Success(u)
    ensures u.WellFormed() && cs[k] in u.cols
    ensures AbsColumns(t, cs[..k + 1]) ==
              if Numeric(u.cols[cs[k]]) then Success(Assign(u, cs[k], AbsColumn(u.cols[cs[k]])))
              else Failure(NonNumericColumn(cs[k]))
  {
    assert cs[..k + 1][..k] == cs[..k];
  }

  /** Once the loop has raised, the later columns do not matter. */
  lemma {:induction false} AbsColumnsFailureStays(t: Table, cs: seq<ColName>, k: nat)
    requires t.WellFormed() && forall c :: c in cs ==> c in t.cols
    requires k <= |cs| && AbsColumns(t, cs[..k]).Failure?
    ensures AbsColumns(t, cs) == AbsColumns(t, cs[..k])
    decreases |cs| - k
  {
    if k < |cs| {
      assert cs[..k + 1][..k] == cs[..k];
      AbsColumnsFailureStays(t, cs, k + 1);
    } else {
      assert cs[..k] == cs;
    }
  }

  lemma {:induction false} AbsColumnsSpec(t: Table, cs: seq<ColName>)
    requires t.WellFormed() && Distinct(cs) && forall c :: c in cs ==> c in t.cols
    ensures AbsColumns(t, cs).Success? <==> forall c :: c in cs ==> Numeric(t.cols[c])
    ensures AbsColumns(t, cs).Success? ==>
              forall c :: c in t.cols ==>
                AbsColumns(t, cs).value.cols[c] == if c in cs then AbsColumn(t.cols[c]) else t.cols[c]
    decreases |cs|
  {
    if cs != [] {
      var init := cs[..|cs| - 1];
      var c := cs[|cs| - 1];
      assert cs == init + [c];
      assert Distinct(init);
      assert c !in init;
      AbsColumnsSpec(t, init);
    }
  }

  /** The normalisation step: every "DAYS" column, in column order. */
  function NormaliseDays(t: Table): (r: Result<Table, Fault>)
    requires t.WellFormed()
    ensures r.Success? ==>
              && r.value.WellFormed() && r.value.names == t.names && r.value.rows == t.rows
              && (forall c :: c in r.value.cols <==> c in t.cols)
    ensures r.Failure? ==> r.error.NonNumericColumn?
  {
    AbsColumns(t, DaysColumns(t.names))
  }

  /** Normalisation succeeds exactly when every "DAYS" column is numeric; it then replaces every
      "DAYS" column by its absolute values and leaves every other column as it was. */
  lemma NormaliseDaysSpec(t: Table)
    requires t.WellFormed()
    ensures NormaliseDays(t).Success? <==> forall c :: c in t.cols && IsDaysColumn(c) ==> Numeric(t.cols[c])
    ensures NormaliseDays(t).Success? ==>
              forall c :: c in t.cols ==>
                NormaliseDays(t).value.cols[c] == if IsDaysColumn(c) then AbsColumn(t.cols[c]) else t.cols[c]
  {
    DaysColumnsDistinct(t.names);
    AbsColumnsSpec(t, DaysColumns(t.names));
  }

  /** After normalisation every present cell of a "DAYS" column is a number at least 0. */
  lemma NormaliseDaysNonNegative(t: Table, c: ColName, i: nat)
    requires t.WellFormed() && NormaliseDays(t).Success?
    requires IsDaysColumn(c) && c in NormaliseDays(t).value.cols
    requires i < t.rows && NormaliseDays(t).value.cols[c][i].Some?
    ensures NormaliseDays(t).value.cols[c][i].value.Num?
    ensures NormaliseDays(t).value.cols[c][i].value.x >= 0.0
  {
    NormaliseDaysSpec(t);
  }

  /** Normalising a normalised table succeeds and changes nothing. */
  lemma NormaliseDaysIdempotent(t: Table)
    requires t.WellFormed() && NormaliseDays(t).Success?
    ensures NormaliseDays(NormaliseDays(t).value) == NormaliseDays(t)
  {
    var u := NormaliseDays(t).value;
    NormaliseDaysSpec(t);
    forall c | c in u.cols && IsDaysColumn(c)
      ensures Numeric(u.cols[c]) && AbsColumn(u.cols[c]) == u.cols[c]
    {
      assert u.cols[c] == AbsColumn(t.cols[c]);
      AbsColumnIdempotent(t.cols[c]);
    }
    NormaliseDaysSpec(u);
    var v := NormaliseDays(u).value;
    forall c | c in u.cols
      ensures c in v.cols && v.cols[c] == u.cols[c]
    {
    }
    assert v.cols.Keys == u.cols.Keys;
    assert v.cols == u.cols;
    assert v == u;
  }
}
