/** The cleaning of the previous-applications table: drop the mostly-missing and the
    administrative columns, then fill four columns. */
module PreviousCleaning {
  import opened Cells
  import opened Tables
  import opened Statistics
  import opened Pruning
  import opened Imputation
  import opened Frames

  /** The fill statements of the previous-applications table, in the order they run; the payment
      count is filled with the constant 0. */
  const PreviousFills: seq<FillRule> := [
    FillRule("AMT_GOODS_PRICE", MedianRule),
    FillRule("AMT_ANNUITY", MedianRule),
    FillRule("PRODUCT_COMBINATION", ModeRule),
    FillRule("CNT_PAYMENT", ConstantRule(Num(0.0)))
  ]

  /** The columns some fill statement names. */
  predicate IsFilledColumn(c: ColName)
  {
    c == "AMT_GOODS_PRICE" || c == "AMT_ANNUITY" || c == "PRODUCT_COMBINATION" || c == "CNT_PAYMENT"
  }

  lemma PreviousFillsNamed(c: ColName)
    ensures IsFilledColumn(c) <==> exists k :: 0 <= k < |PreviousFills| && PreviousFills[k].column == c
  {
    if IsFilledColumn(c) {
      var k := if c == "AMT_GOODS_PRICE" then 0 else if c == "AMT_ANNUITY" then 1
               else if c == "PRODUCT_COMBINATION" then 2 else 3;
      assert PreviousFills[k].column == c;
    }
  }

  lemma PreviousFillsDistinct()
    ensures DistinctColumns(PreviousFills)
  {
  }

  /** The previous-applications table through pruning and the fill statements. */
  function CleanPrevious(t: Table): (r: Result<Table, Fault>)
    requires t.WellFormed()
    ensures r.Success? ==> r.value.WellFormed() && r.value.rows == t.rows
  {
    ImputeAll(PrunePrevious(t), PreviousFills)
  }

  /** The columns that survive are the non-administrative ones with less than 40% missing cells,
      and every one no statement fills keeps its cells. */
  lemma CleanPreviousColumns(t: Table)
    requires t.WellFormed() && CleanPrevious(t).Success?
    ensures forall c :: c in CleanPrevious(t).value.cols <==>
              c in t.cols && !MostlyMissing(t.cols[c], t.rows) && c !in AdministrativeColumns
    ensures forall c :: c in CleanPrevious(t).value.cols && !IsFilledColumn(c) ==>
              CleanPrevious(t).value.cols[c] == t.cols[c]
  {
    var pruned := PrunePrevious(t);
    ImputeAllUnnamed(pruned, PreviousFills);
    forall c | !IsFilledColumn(c)
      ensures forall k :: 0 <= k < |PreviousFills| ==> PreviousFills[k].column != c
    {
      PreviousFillsNamed(c);
    }
  }

  /** A filled column keeps its present cells and holds its fill value in the others; in a table
      with rows, no cell of it is missing any more. */
  lemma CleanPreviousFilled(t: Table, k: nat)
    requires t.WellFormed() && CleanPrevious(t).Success?
    requires k < |PreviousFills| && PreviousFills[k].column in CleanPrevious(t).value.cols
    ensures PreviousFills[k].column in t.cols
    ensures FilledFrom(PreviousFills[k].column, t.cols[PreviousFills[k].column],
                       CleanPrevious(t).value.cols[PreviousFills[k].column], PreviousFills[k].rule)
    ensures t.rows > 0 ==> NullCount(CleanPrevious(t).value.cols[PreviousFills[k].column]) == 0
  {
    var c := PreviousFills[k].column;
    var pruned := PrunePrevious(t);
    assert c in pruned.cols && pruned.cols[c] == t.cols[c];
    PreviousFillsDistinct();
    ImputeAllNamed(pruned, PreviousFills, k);
    if t.rows > 0 {
      var i := SurvivorHasValue(t.cols[c], t.rows);
    }
  }

  /** The payment count has no missing cell after cleaning, whatever the table: each one missing
      before is 0. */
  lemma CleanPreviousPaymentsComplete(t: Table, i: nat)
    requires t.WellFormed() && CleanPrevious(t).Success? && "CNT_PAYMENT" in CleanPrevious(t).value.cols
    requires i < t.rows
    ensures CleanPrevious(t).value.cols["CNT_PAYMENT"][i] ==
              if t.cols["CNT_PAYMENT"][i].None? then Some(Num(0.0)) else t.cols["CNT_PAYMENT"][i]
  {
    var r := CleanPrevious(t).value;
    CleanPreviousFilled(t, 3);
    var col := r.cols["CNT_PAYMENT"];
    assert NullCount(col) == 0;
    assert col[i] != None;
  }

  /** What the fill statements need of the table: rows, if it has the mode-filled column, and
      numbers in the median-filled columns that survive the pruning. */
  ghost predicate FillsCanRun(t: Table)
    requires t.WellFormed()
  {
    && (t.rows == 0 ==> "PRODUCT_COMBINATION" !in t.cols)
    && NumericIfKept(t, "AMT_GOODS_PRICE")
    && NumericIfKept(t, "AMT_ANNUITY")
  }

  /** The fill value of statement `k` can be computed on the pruned table exactly when the column
      is numeric (for a median), the table has rows (for the mode), or always (for the constant). */
  lemma PreviousFillSucceeds(t: Table, k: nat)
    requires t.WellFormed() && k < |PreviousFills|
    requires PreviousFills[k].column in PrunePrevious(t).cols
    ensures FillValue(PreviousFills[k].column, PrunePrevious(t).cols[PreviousFills[k].column],
                      PreviousFills[k].rule).Success? <==>
              if k < 2 then Numeric(t.cols[PreviousFills[k].column]) else k == 3 || t.rows > 0
  {
    var f := PreviousFills[k];
    PreviousRule(k);
    SurvivorFillValue(f.column, t.cols[f.column], t.rows, f.rule);
  }

  lemma PreviousRule(k: nat)
    requires k < |PreviousFills|
    ensures PreviousFills[k].rule == if k < 2 then MedianRule else if k == 2 then ModeRule else ConstantRule(Num(0.0))
  {
  }

  /** Statement `k` runs on a table the fill statements can run on. */
  lemma PreviousFillRuns(t: Table, k: nat)
    requires t.WellFormed() && FillsCanRun(t) && k < |PreviousFills|
    requires PreviousFills[k].column in PrunePrevious(t).cols
    ensures FillValue(PreviousFills[k].column, PrunePrevious(t).cols[PreviousFills[k].column],
                      PreviousFills[k].rule).Success?
  {
    var c := PreviousFills[k].column;
    assert c in t.cols && !MostlyMissing(t.cols[c], t.rows);
    if k == 0 {
      assert c == "AMT_GOODS_PRICE" && Numeric(t.cols[c]);
    } else if k == 1 {
      assert c == "AMT_ANNUITY" && Numeric(t.cols[c]);
    } else if k == 2 {
      assert c == "PRODUCT_COMBINATION" && t.rows > 0;
    }
    PreviousFillSucceeds(t, k);
  }

  /** Statement `k` of a run of the fill statements that succeeded could compute its fill value. */
  lemma PreviousFillRan(t: Table, k: nat)
    requires t.WellFormed() && CleanPrevious(t).Success?
    requires k < |PreviousFills| && PreviousFills[k].column in PrunePrevious(t).cols
    ensures if k < 2 then Numeric(t.cols[PreviousFills[k].column]) else k == 3 || t.rows > 0
  {
    PreviousFillsDistinct();
    ImputeAllOutcome(PrunePrevious(t), PreviousFills);
    PreviousFillSucceeds(t, k);
  }

  /** The cleaning raises exactly when the table has no rows yet has the mode-filled column, or a
      median-filled column survives the pruning holding text. */
  lemma CleanPreviousSucceeds(t: Table)
    requires t.WellFormed()
    ensures CleanPrevious(t).Success? <==> FillsCanRun(t)
  {
    if FillsCanRun(t) {
      PreviousFillsRunWhenTheyCan(t);
    }
    if CleanPrevious(t).Success? {
      PreviousFillsRanOnlyIfTheyCould(t);
    }
  }

  lemma PreviousFillsRunWhenTheyCan(t: Table)
    requires t.WellFormed() && FillsCanRun(t)
    ensures CleanPrevious(t).Success?
  {
    var p := PrunePrevious(t);
    var fs := PreviousFills;
    PreviousFillsDistinct();
    ImputeAllOutcome(p, fs);
    forall k | 0 <= k < |fs| && fs[k].column in p.cols
      ensures FillValue(fs[k].column, p.cols[fs[k].column], fs[k].rule).Success?
    {
      PreviousFillRuns(t, k);
    }
  }

  lemma PreviousFillsRanOnlyIfTheyCould(t: Table)
    requires t.WellFormed() && CleanPrevious(t).Success?
    ensures FillsCanRun(t)
  {
    var p := PrunePrevious(t);
    var fs := PreviousFills;
    forall k | 0 <= k < |fs| && fs[k].column in p.cols
      ensures if k < 2 then Numeric(t.cols[fs[k].column]) else k == 3 || t.rows > 0
    {
      PreviousFillRan(t, k);
    }
    assert fs[0].column == "AMT_GOODS_PRICE" && fs[1].column == "AMT_ANNUITY" && fs[2].column == "PRODUCT_COMBINATION";
    FilledNotAdministrative();
  }

  lemma FilledNotAdministrative()
    ensures forall c :: IsFilledColumn(c) ==> c !in AdministrativeColumns
  {
  }

  /** An empty mode can only be met in a table without rows. */
  lemma CleanPreviousModeFault(t: Table, c: ColName)
    requires t.WellFormed() && CleanPrevious(t) == Failure(ModeOfEmptyColumn(c))
    ensures t.rows == 0 && c == "PRODUCT_COMBINATION" && c in t.cols
  {
    var p := PrunePrevious(t);
    PreviousFillsDistinct();
    var k := ImputeAllModeFault(p, PreviousFills, c);
    ModeFillIsProductCombination(k);
    if t.rows > 0 {
      var i := SurvivorHasValue(p.cols[c], t.rows);
      assert false;
    }
  }

  lemma ModeFillIsProductCombination(k: nat)
    requires k < |PreviousFills| && PreviousFills[k].rule == ModeRule
    ensures PreviousFills[k].column == "PRODUCT_COMBINATION"
  {
  }

  /** The cleaning as the code runs it: the pruned table is updated in place by each fill
      statement in turn; the first exception ends the run. */
  method CleanPreviousInPlace(t: Table) returns (r: Result<Table, Fault>)
    requires t.WellFormed()
    ensures r == CleanPrevious(t)
  {
    var frame := new Frame.Copy(PrunePrevious(t));
    var fault := frame.ImputeColumns(PreviousFills);
    if fault.Some? {
      return Failure(fault.value);
    }
    return Success(frame.Snapshot());
  }
}
