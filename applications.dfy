/** The cleaning of the applications table: drop the mostly-missing columns, fill five columns,
    turn the day offsets into day counts and derive three range columns from the amounts. */
module ApplicationCleaning {
  import opened Cells
  import opened Tables
  import opened Statistics
  import opened Pruning
  import opened Imputation
  import opened DayOffsets
  import opened Binning
  import opened Frames

  /** The fill statements of the applications table, in the order they run. */
  const ApplicationFills: seq<FillRule> := [
    FillRule("CNT_FAM_MEMBERS", ModeRule),
    FillRule("OCCUPATION_TYPE", ModeRule),
    FillRule("NAME_TYPE_SUITE", ModeRule),
    FillRule("AMT_ANNUITY", MeanRule),
    FillRule("AMT_GOODS_PRICE", MedianRule)
  ]

  /** The columns filled with their most frequent value. */
  predicate FilledByMode(c: ColName)
  {
    c == "CNT_FAM_MEMBERS" || c == "OCCUPATION_TYPE" || c == "NAME_TYPE_SUITE"
  }

  /** The columns some fill statement names. */
  predicate IsFilledColumn(c: ColName)
  {
    FilledByMode(c) || c == "AMT_ANNUITY" || c == "AMT_GOODS_PRICE"
  }

  /** A range column derived from an amount column with the bins of `field`. */
  datatype Derivation = Derivation(source: ColName, target: ColName, field: RangeField)

  const GoodsPriceDerivation := Derivation("AMT_GOODS_PRICE", "AMT_GOODS_PRICE_RANGE", GoodsPriceField)
  const IncomeDerivation := Derivation("AMT_INCOME_TOTAL", "AMT_INCOME_TOTAL_RANGE", IncomeField)
  const CreditDerivation := Derivation("AMT_CREDIT", "AMT_CREDIT_RANGE", CreditField)

  predicate IsRangeColumn(c: ColName)
  {
    c == "AMT_GOODS_PRICE_RANGE" || c == "AMT_INCOME_TOTAL_RANGE" || c == "AMT_CREDIT_RANGE"
  }

  predicate IsAmountSource(c: ColName)
  {
    c == "AMT_GOODS_PRICE" || c == "AMT_INCOME_TOTAL" || c == "AMT_CREDIT"
  }

  /** The columns the cleaning computes on as numbers: the mean- and median-filled ones, the
      "DAYS" ones and the binned amounts. Text in any of them raises TypeError. */
  predicate NeedsNumbers(c: ColName)
  {
    c == "AMT_ANNUITY" || IsAmountSource(c) || IsDaysColumn(c)
  }

  function Derive(t: Table, d: Derivation): (r: Result<Table, Fault>)
    requires t.WellFormed()
    ensures r.Success? ==> r.value.WellFormed() && r.value.rows == t.rows
  {
    DeriveRange(t, d.source, d.target, d.field)
  }

  /** The three range derivations, goods price, income, credit, in that order. */
  function DeriveRanges(t: Table): (r: Result<Table, Fault>)
    requires t.WellFormed()
    ensures r.Success? ==> r.value.WellFormed() && r.value.rows == t.rows
  {
    var u :- Derive(t, GoodsPriceDerivation);
    var v :- Derive(u, IncomeDerivation);
    Derive(v, CreditDerivation)
  }

  /** Where the amount of `d` is a column, its range column is one too and holds, row by row, the
      range the amount falls in. */
  ghost predicate Derived(u: Table, d: Derivation)
    requires u.WellFormed()
  {
    d.source in u.cols ==>
      && d.target in u.cols
      && Numeric(u.cols[d.source])
      && forall i :: 0 <= i < u.rows ==> u.cols[d.target][i] == CutCell(u.cols[d.source][i], d.field)
  }

  /** Every column of `t` outside `written` is a column of `u` with the same cells, and `u` has
      no other column outside `written`. */
  ghost predicate KeepsOtherColumns(t: Table, u: Table, written: set<ColName>)
  {
    forall c :: c !in written ==> (c in u.cols <==> c in t.cols) && (c in t.cols ==> u.cols[c] == t.cols[c])
  }

  lemma KeepsOtherColumnsChain(t: Table, u: Table, v: Table, a: set<ColName>, b: set<ColName>)
    requires KeepsOtherColumns(t, u, a) && KeepsOtherColumns(u, v, b)
    ensures KeepsOtherColumns(t, v, a + b)
  {
  }

  /** One derivation succeeds exactly when its amount is absent or numeric; it then writes its
      range column and leaves every other column as it was. */
  lemma DeriveSpec(t: Table, d: Derivation)
    requires t.WellFormed() && d.source != d.target
    ensures Derive(t, d).Success? <==> (d.source in t.cols ==> Numeric(t.cols[d.source]))
    ensures Derive(t, d).Failure? ==> Derive(t, d).error.NonNumericColumn?
    ensures Derive(t, d).Success? ==>
              Derived(Derive(t, d).value, d) && KeepsOtherColumns(t, Derive(t, d).value, {d.target})
  {
  }

  /** A derivation that holds in `u` still holds once a column other than its own two is written. */
  lemma DerivedKept(u: Table, v: Table, d: Derivation, written: ColName)
    requires u.WellFormed() && v.WellFormed() && v.rows == u.rows && Derived(u, d)
    requires written != d.source && written != d.target && KeepsOtherColumns(u, v, {written})
    ensures Derived(v, d)
  {
    if d.source in v.cols {
      assert v.cols[d.source] == u.cols[d.source] && v.cols[d.target] == u.cols[d.target];
    }
  }

  /** An amount column is not written by a derivation of another amount. */
  lemma SourceKept(t: Table, u: Table, d: Derivation, c: ColName)
    requires KeepsOtherColumns(t, u, {d.target}) && IsAmountSource(c) && IsRangeColumn(d.target)
    ensures c in u.cols <==> c in t.cols
    ensures c in t.cols ==> u.cols[c] == t.cols[c]
  {
    assert c != d.target;
  }

  /** The range columns the derivations write. */
  const RangeTargets: set<ColName> := {"AMT_GOODS_PRICE_RANGE", "AMT_INCOME_TOTAL_RANGE", "AMT_CREDIT_RANGE"}

  /** Column `c`, if present, holds only numbers. */
  ghost predicate NumericIfPresent(t: Table, c: ColName)
  {
    c in t.cols ==> Numeric(t.cols[c])
  }

  lemma DeriveRangesOutcome(t: Table)
    requires t.WellFormed()
    ensures DeriveRanges(t).Success? <==>
              && NumericIfPresent(t, "AMT_GOODS_PRICE")
              && NumericIfPresent(t, "AMT_INCOME_TOTAL")
              && NumericIfPresent(t, "AMT_CREDIT")
    ensures DeriveRanges(t).Failure? ==> DeriveRanges(t).error.NonNumericColumn?
  {
    var g, i, c := GoodsPriceDerivation, IncomeDerivation, CreditDerivation;
    DeriveSpec(t, g);
    if Derive(t, g).Success? {
      var u := Derive(t, g).value;
      DeriveSpec(u, i);
      SourceKept(t, u, g, i.source);
      if Derive(u, i).Success? {
        var v := Derive(u, i).value;
        DeriveSpec(v, c);
        SourceKept(u, v, i, c.source);
        SourceKept(t, u, g, c.source);
        assert DeriveRanges(t) == Derive(v, c);
      } else {
        assert DeriveRanges(t) == Derive(u, i);
      }
    }
  }

  lemma DeriveRangesEffect(t: Table)
    requires t.WellFormed() && DeriveRanges(t).Success?
    ensures KeepsOtherColumns(t, DeriveRanges(t).value, RangeTargets)
    ensures && Derived(DeriveRanges(t).value, GoodsPriceDerivation)
            && Derived(DeriveRanges(t).value, IncomeDerivation)
            && Derived(DeriveRanges(t).value, CreditDerivation)
  {
    var g, i, c := GoodsPriceDerivation, IncomeDerivation, CreditDerivation;
    DeriveSpec(t, g);
    var u := Derive(t, g).value;
    DeriveSpec(u, i);
    var v := Derive(u, i).value;
    DeriveSpec(v, c);
    var w := Derive(v, c).value;
    assert DeriveRanges(t) == Success(w);
    KeepsOtherColumnsChain(t, u, v, {g.target}, {i.target});
    KeepsOtherColumnsChain(t, v, w, {g.target} + {i.target}, {c.target});
    assert {g.target} + {i.target} + {c.target} == RangeTargets;
    DerivedKept(u, v, g, i.target);
    DerivedKept(v, w, g, c.target);
    DerivedKept(v, w, i, c.target);
  }

  /** The derivations succeed exactly when every amount present is numeric; they then add the
      range columns and leave every other column as it was. */
  lemma DeriveRangesSpec(t: Table)
    requires t.WellFormed()
    ensures DeriveRanges(t).Success? <==> forall c :: c in t.cols && IsAmountSource(c) ==> Numeric(t.cols[c])
    ensures DeriveRanges(t).Failure? ==> DeriveRanges(t).error.NonNumericColumn?
    ensures DeriveRanges(t).Success? ==>
              forall c :: !IsRangeColumn(c) ==>
                && (c in DeriveRanges(t).value.cols <==> c in t.cols)
                && (c in t.cols ==> DeriveRanges(t).value.cols[c] == t.cols[c])
    ensures DeriveRanges(t).Success? ==>
              && Derived(DeriveRanges(t).value, GoodsPriceDerivation)
              && Derived(DeriveRanges(t).value, IncomeDerivation)
              && Derived(DeriveRanges(t).value, CreditDerivation)
  {
    DeriveRangesOutcome(t);
    assert (forall c :: c in t.cols && IsAmountSource(c) ==> Numeric(t.cols[c])) <==>
             && NumericIfPresent(t, "AMT_GOODS_PRICE")
             && NumericIfPresent(t, "AMT_INCOME_TOTAL")
             && NumericIfPresent(t, "AMT_CREDIT");
    if DeriveRanges(t).Success? {
      DeriveRangesEffect(t);
      forall c | !IsRangeColumn(c)
        ensures c !in RangeTargets
      {
      }
    }
  }

  /** Range column `d.target` of `u` is the one of `t`: present in both or in neither, with the
      same cells. */
  ghost predicate TargetAsIn(t: Table, u: Table, d: Derivation)
  {
    && (d.target in u.cols <==> d.target in t.cols)
    && (d.target in t.cols ==> u.cols[d.target] == t.cols[d.target])
  }

  /** A derivation whose amount is not a column adds no range column: its range column stays
      as it was, absent or with the cells it had. */
  lemma DeriveRangesAbsentAmount(t: Table)
    requires t.WellFormed() && DeriveRanges(t).Success?
    ensures GoodsPriceDerivation.source !in t.cols ==> TargetAsIn(t, DeriveRanges(t).value, GoodsPriceDerivation)
    ensures IncomeDerivation.source !in t.cols ==> TargetAsIn(t, DeriveRanges(t).value, IncomeDerivation)
    ensures CreditDerivation.source !in t.cols ==> TargetAsIn(t, DeriveRanges(t).value, CreditDerivation)
  {
    var g, i, c := GoodsPriceDerivation, IncomeDerivation, CreditDerivation;
    DeriveSpec(t, g);
    var u := Derive(t, g).value;
    DeriveSpec(u, i);
    var v := Derive(u, i).value;
    DeriveSpec(v, c);
    var w := Derive(v, c).value;
    assert DeriveRanges(t) == Success(w);
    assert g.target !in {i.target} && g.target !in {c.target};
    assert i.target !in {g.target} && i.target !in {c.target};
    assert c.target !in {g.target} && c.target !in {i.target};
    SourceKept(t, u, g, i.source);
    SourceKept(t, u, g, c.source);
    SourceKept(u, v, i, c.source);
  }

  /** The applications table through every cleaning stage; the first exception ends it. */
  function CleanApplications(t: Table): (r: Result<Table, Fault>)
    requires t.WellFormed()
    ensures r.Success? ==> r.value.WellFormed() && r.value.rows == t.rows
  {
    var pruned := PruneApplications(t);
    var imputed :- ImputeAll(pruned, ApplicationFills);
    var normalised :- NormaliseDays(imputed);
    DeriveRanges(normalised)
  }

  lemma FilledColumnsNamed(c: ColName)
    ensures IsFilledColumn(c) <==> exists k :: 0 <= k < |ApplicationFills| && ApplicationFills[k].column == c
  {
    if IsFilledColumn(c) {
      var k := if c == "CNT_FAM_MEMBERS" then 0 else if c == "OCCUPATION_TYPE" then 1
               else if c == "NAME_TYPE_SUITE" then 2 else if c == "AMT_ANNUITY" then 3 else 4;
      assert ApplicationFills[k].column == c;
    }
  }

  lemma ApplicationFillsDistinct()
    ensures DistinctColumns(ApplicationFills)
  {
  }

  /** Filled, range and "DAYS" columns are three separate kinds. */
  lemma ColumnKindsDisjoint(c: ColName)
    ensures IsFilledColumn(c) ==> !IsDaysColumn(c) && !IsRangeColumn(c)
    ensures IsDaysColumn(c) ==> !IsRangeColumn(c) && !IsAmountSource(c)
  {
    if IsDaysColumn(c) {
      assert c[..4] == "DAYS";
      assert c[0] == 'D';
    }
  }

  /** The stages of a successful cleaning, each with its own result. */
  lemma CleanApplicationsStages(t: Table) returns (pruned: Table, imputed: Table, normalised: Table)
    requires t.WellFormed() && CleanApplications(t).Success?
    ensures pruned == PruneApplications(t)
    ensures imputed.WellFormed() && ImputeAll(pruned, ApplicationFills) == Success(imputed)
    ensures normalised.WellFormed() && NormaliseDays(imputed) == Success(normalised)
    ensures DeriveRanges(normalised) == CleanApplications(t)
  {
    pruned := PruneApplications(t);
    imputed := ImputeAll(pruned, ApplicationFills).value;
    normalised := NormaliseDays(imputed).value;
  }

  /** The columns that survive cleaning are the ones with less than 40% missing cells, plus the
      range columns; each range column present holds the ranges of its amount column. */
  lemma CleanApplicationsColumns(t: Table)
    requires t.WellFormed() && CleanApplications(t).Success?
    ensures forall c :: !IsRangeColumn(c) ==>
              (c in CleanApplications(t).value.cols <==> c in t.cols && !MostlyMissing(t.cols[c], t.rows))
    ensures && Derived(CleanApplications(t).value, GoodsPriceDerivation)
            && Derived(CleanApplications(t).value, IncomeDerivation)
            && Derived(CleanApplications(t).value, CreditDerivation)
  {
    var pruned, imputed, normalised := CleanApplicationsStages(t);
    DeriveRangesSpec(normalised);
  }

  /** The amount of `d` did not survive pruning, and the range column of `d` in `out` is then
      the one read in `t`, kept only if it is less than 40% missing. */
  ghost predicate RangeOnlyFromSurvivor(t: Table, out: Table, d: Derivation)
    requires t.WellFormed()
  {
    !(d.source in t.cols && !MostlyMissing(t.cols[d.source], t.rows)) ==>
      && (d.target in out.cols <==> d.target in t.cols && !MostlyMissing(t.cols[d.target], t.rows))
      && (d.target in out.cols ==> out.cols[d.target] == t.cols[d.target])
  }

  /** A range column is added only for an amount that survives pruning: where the amount was
      pruned or never read, the range column is just a column as read, kept or pruned like any
      other and never filled or normalised. */
  lemma CleanApplicationsRangeOnlyFromSurvivor(t: Table)
    requires t.WellFormed() && CleanApplications(t).Success?
    ensures RangeOnlyFromSurvivor(t, CleanApplications(t).value, GoodsPriceDerivation)
    ensures RangeOnlyFromSurvivor(t, CleanApplications(t).value, IncomeDerivation)
    ensures RangeOnlyFromSurvivor(t, CleanApplications(t).value, CreditDerivation)
  {
    var pruned, imputed, normalised := CleanApplicationsStages(t);
    DeriveRangesAbsentAmount(normalised);
    NormaliseDaysSpec(imputed);
    RangeTargetThroughFills(t, GoodsPriceDerivation.target);
    RangeTargetThroughFills(t, IncomeDerivation.target);
    RangeTargetThroughFills(t, CreditDerivation.target);
  }

  /** A range column as read goes through the fills and the day-offset normalisation
      unchanged. */
  lemma RangeTargetThroughFills(t: Table, c: ColName)
    requires t.WellFormed() && ImputeAll(PruneApplications(t), ApplicationFills).Success?
    requires IsRangeColumn(c)
    ensures c in PruneApplications(t).cols ==> ImputeAll(PruneApplications(t), ApplicationFills).value.cols[c] == t.cols[c]
    ensures !IsDaysColumn(c)
  {
    ColumnKindsDisjoint(c);
    if c in PruneApplications(t).cols {
      ImputedApplications(t, c);
    }
  }

  /** A column no statement fills and no derivation writes keeps its cells, except that a "DAYS"
      column holds the absolute values of its cells. */
  lemma CleanApplicationsUntouched(t: Table, c: ColName)
    requires t.WellFormed() && CleanApplications(t).Success?
    requires c in CleanApplications(t).value.cols && !IsRangeColumn(c) && !IsFilledColumn(c)
    ensures c in t.cols
    ensures CleanApplications(t).value.cols[c] == if IsDaysColumn(c) then AbsColumn(t.cols[c]) else t.cols[c]
    ensures IsDaysColumn(c) ==> Numeric(t.cols[c])
  {
    var pruned, imputed, normalised := CleanApplicationsStages(t);
    var r := CleanApplications(t).value;
    DeriveRangesSpec(normalised);
    assert r.cols[c] == normalised.cols[c];
    NormaliseDaysSpec(imputed);
    FilledColumnsNamed(c);
    ImputeAllUnnamed(pruned, ApplicationFills);
    assert imputed.cols[c] == pruned.cols[c];
  }

  /** After cleaning, every present cell of a "DAYS" column is a number at least 0. */
  lemma CleanApplicationsDaysNonNegative(t: Table, c: ColName, i: nat)
    requires t.WellFormed() && CleanApplications(t).Success?
    requires IsDaysColumn(c) && c in CleanApplications(t).value.cols
    requires i < t.rows && CleanApplications(t).value.cols[c][i].Some?
    ensures CleanApplications(t).value.cols[c][i].value.Num?
    ensures CleanApplications(t).value.cols[c][i].value.x >= 0.0
  {
    ColumnKindsDisjoint(c);
    CleanApplicationsUntouched(t, c);
    var col := t.cols[c];
    assert CleanApplications(t).value.cols[c][i] == AbsCell(col[i]);
  }

  /** A filled column keeps its present cells and holds its fill value in the others; in a table
      with rows, no cell of it is missing any more. */
  lemma CleanApplicationsFilled(t: Table, k: nat)
    requires t.WellFormed() && CleanApplications(t).Success?
    requires k < |ApplicationFills| && ApplicationFills[k].column in CleanApplications(t).value.cols
    ensures ApplicationFills[k].column in t.cols
    ensures FilledFrom(ApplicationFills[k].column, t.cols[ApplicationFills[k].column],
                       CleanApplications(t).value.cols[ApplicationFills[k].column], ApplicationFills[k].rule)
    ensures t.rows > 0 ==> NullCount(CleanApplications(t).value.cols[ApplicationFills[k].column]) == 0
  {
    var c := ApplicationFills[k].column;
    var pruned, imputed, normalised := CleanApplicationsStages(t);
    var r := CleanApplications(t).value;
    FilledColumnsNamed(c);
    ColumnKindsDisjoint(c);
    DeriveRangesSpec(normalised);
    assert c in normalised.cols && r.cols[c] == normalised.cols[c];
    NormaliseDaysSpec(imputed);
    assert c in imputed.cols && r.cols[c] == imputed.cols[c];
    assert c in pruned.cols && pruned.cols[c] == t.cols[c];
    ApplicationFillsDistinct();
    ImputeAllNamed(pruned, ApplicationFills, k);
    assert FilledFrom(c, pruned.cols[c], imputed.cols[c], ApplicationFills[k].rule);
    if t.rows > 0 {
      var i := SurvivorHasValue(t.cols[c], t.rows);
    }
  }

  /** What the fill statements need of the table: rows, if it has a mode-filled column, and
      numbers in the mean- or median-filled columns that survive the pruning. */
  ghost predicate FillsCanRun(t: Table)
    requires t.WellFormed()
  {
    && (t.rows == 0 ==> "CNT_FAM_MEMBERS" !in t.cols && "OCCUPATION_TYPE" !in t.cols && "NAME_TYPE_SUITE" !in t.cols)
    && NumericIfKept(t, "AMT_ANNUITY")
    && NumericIfKept(t, "AMT_GOODS_PRICE")
  }

  /** The fill value of statement `k` can be computed on the pruned table exactly when the table
      has rows (for a mode) or the column is numeric (for a mean or median). */
  lemma ApplicationFillSucceeds(t: Table, k: nat)
    requires t.WellFormed() && k < |ApplicationFills|
    requires ApplicationFills[k].column in PruneApplications(t).cols
    ensures FillValue(ApplicationFills[k].column, PruneApplications(t).cols[ApplicationFills[k].column],
                      ApplicationFills[k].rule).Success? <==>
              if k < 3 then t.rows > 0 else Numeric(t.cols[ApplicationFills[k].column])
  {
    var f := ApplicationFills[k];
    ApplicationRule(k);
    SurvivorFillValue(f.column, t.cols[f.column], t.rows, f.rule);
  }

  lemma ApplicationRule(k: nat)
    requires k < |ApplicationFills|
    ensures ApplicationFills[k].rule == if k < 3 then ModeRule else if k == 3 then MeanRule else MedianRule
  {
  }

  /** Statement `k` runs on a table the fill statements can run on. */
  lemma ApplicationFillRuns(t: Table, k: nat)
    requires t.WellFormed() && FillsCanRun(t) && k < |ApplicationFills|
    requires ApplicationFills[k].column in PruneApplications(t).cols
    ensures FillValue(ApplicationFills[k].column, PruneApplications(t).cols[ApplicationFills[k].column],
                      ApplicationFills[k].rule).Success?
  {
    var c := ApplicationFills[k].column;
    assert c in t.cols && !MostlyMissing(t.cols[c], t.rows);
    if k == 3 {
      assert c == "AMT_ANNUITY" && Numeric(t.cols[c]);
    } else if k == 4 {
      assert c == "AMT_GOODS_PRICE" && Numeric(t.cols[c]);
    } else {
      assert c in t.cols && t.rows > 0;
    }
    ApplicationFillSucceeds(t, k);
  }

  /** Statement `k` of a run of the fill statements that succeeded could compute its fill value. */
  lemma ApplicationFillRan(t: Table, k: nat)
    requires t.WellFormed() && ImputeAll(PruneApplications(t), ApplicationFills).Success?
    requires k < |ApplicationFills| && ApplicationFills[k].column in PruneApplications(t).cols
    ensures if k < 3 then t.rows > 0 else Numeric(t.cols[ApplicationFills[k].column])
  {
    ApplicationFillsDistinct();
    ImputeAllOutcome(PruneApplications(t), ApplicationFills);
    ApplicationFillSucceeds(t, k);
  }

  /** The fill statements raise exactly when the table has no rows and still has a mode-filled
      column (whose mode is then empty), or when the mean- or median-filled column survives the
      pruning holding text. */
  lemma ApplicationFillsSucceed(t: Table)
    requires t.WellFormed()
    ensures ImputeAll(PruneApplications(t), ApplicationFills).Success? <==> FillsCanRun(t)
  {
    if FillsCanRun(t) {
      FillsRunWhenTheyCan(t);
    }
    if ImputeAll(PruneApplications(t), ApplicationFills).Success? {
      FillsRanOnlyIfTheyCould(t);
    }
  }

  lemma FillsRunWhenTheyCan(t: Table)
    requires t.WellFormed() && FillsCanRun(t)
    ensures ImputeAll(PruneApplications(t), ApplicationFills).Success?
  {
    var p := PruneApplications(t);
    var fs := ApplicationFills;
    ApplicationFillsDistinct();
    ImputeAllOutcome(p, fs);
    forall k | 0 <= k < |fs| && fs[k].column in p.cols
      ensures FillValue(fs[k].column, p.cols[fs[k].column], fs[k].rule).Success?
    {
      ApplicationFillRuns(t, k);
    }
  }

  lemma FillsRanOnlyIfTheyCould(t: Table)
    requires t.WellFormed() && ImputeAll(PruneApplications(t), ApplicationFills).Success?
    ensures FillsCanRun(t)
  {
    var p := PruneApplications(t);
    var fs := ApplicationFills;
    forall k | 0 <= k < |fs| && fs[k].column in p.cols
      ensures if k < 3 then t.rows > 0 else Numeric(t.cols[fs[k].column])
    {
      ApplicationFillRan(t, k);
    }
    assert fs[0].column == "CNT_FAM_MEMBERS" && fs[1].column == "OCCUPATION_TYPE" && fs[2].column == "NAME_TYPE_SUITE";
    assert fs[3].column == "AMT_ANNUITY" && fs[4].column == "AMT_GOODS_PRICE";
  }

  /** What the whole cleaning needs of the table: what the fill statements need, and numbers in
      every surviving column it computes on as numbers. */
  ghost predicate CleaningCanRun(t: Table)
    requires t.WellFormed()
  {
    && (t.rows == 0 ==> "CNT_FAM_MEMBERS" !in t.cols && "OCCUPATION_TYPE" !in t.cols && "NAME_TYPE_SUITE" !in t.cols)
    && (forall c :: NeedsNumbers(c) ==> NumericIfKept(t, c))
  }

  /** After the fill statements, an unfilled column is as it was, and the goods price, which the
      median fills and the bins cut, is numeric before and after. */
  lemma ImputedApplications(t: Table, c: ColName)
    requires t.WellFormed() && ImputeAll(PruneApplications(t), ApplicationFills).Success?
    requires c in PruneApplications(t).cols
    ensures !IsFilledColumn(c) ==> ImputeAll(PruneApplications(t), ApplicationFills).value.cols[c] == t.cols[c]
    ensures c == "AMT_GOODS_PRICE" ==>
              && Numeric(t.cols[c])
              && Numeric(ImputeAll(PruneApplications(t), ApplicationFills).value.cols[c])
  {
    var p := PruneApplications(t);
    var imputed := ImputeAll(p, ApplicationFills).value;
    if c == "AMT_GOODS_PRICE" {
      ApplicationFillsDistinct();
      ImputeAllNamed(p, ApplicationFills, 4);
      assert FillValue(c, p.cols[c], MedianRule).Success?;
      FilledKeepsNumeric(c, p.cols[c], imputed.cols[c], MedianRule);
    } else {
      FilledColumnsNamed(c);
      ImputeAllUnnamed(p, ApplicationFills);
    }
  }

  /** After the fills, the day offsets can be normalised exactly when every surviving "DAYS"
      column is numeric. */
  lemma NormaliseApplicationsSucceeds(t: Table)
    requires t.WellFormed() && ImputeAll(PruneApplications(t), ApplicationFills).Success?
    ensures NormaliseDays(ImputeAll(PruneApplications(t), ApplicationFills).value).Success? <==>
              forall c :: IsDaysColumn(c) ==> NumericIfKept(t, c)
  {
    var imputed := ImputeAll(PruneApplications(t), ApplicationFills).value;
    NormaliseDaysSpec(imputed);
    forall c | c in imputed.cols && IsDaysColumn(c)
      ensures imputed.cols[c] == t.cols[c]
    {
      ColumnKindsDisjoint(c);
      ImputedApplications(t, c);
    }
  }

  /** An amount column leaves the fills numeric exactly when it entered them numeric. */
  lemma ImputedAmount(t: Table, c: ColName)
    requires t.WellFormed() && ImputeAll(PruneApplications(t), ApplicationFills).Success?
    requires IsAmountSource(c) && c in PruneApplications(t).cols
    ensures Numeric(ImputeAll(PruneApplications(t), ApplicationFills).value.cols[c]) <==> Numeric(t.cols[c])
  {
    var imputed := ImputeAll(PruneApplications(t), ApplicationFills).value;
    if c == "AMT_GOODS_PRICE" {
      ImputedApplications(t, c);
    } else {
      UnfilledAmountKept(t, c);
      assert imputed.cols[c] == t.cols[c];
    }
  }

  lemma UnfilledAmountKept(t: Table, c: ColName)
    requires t.WellFormed() && ImputeAll(PruneApplications(t), ApplicationFills).Success?
    requires (c == "AMT_INCOME_TOTAL" || c == "AMT_CREDIT") && c in PruneApplications(t).cols
    ensures ImputeAll(PruneApplications(t), ApplicationFills).value.cols[c] == t.cols[c]
  {
    AmountsUnfilled();
    ImputedApplications(t, c);
  }

  lemma AmountsUnfilled()
    ensures !IsFilledColumn("AMT_INCOME_TOTAL") && !IsFilledColumn("AMT_CREDIT")
  {
  }

  /** An amount column reaches the derivations numeric exactly when it was numeric in the table. */
  lemma AmountReachesDerivations(t: Table, c: ColName)
    requires t.WellFormed() && ImputeAll(PruneApplications(t), ApplicationFills).Success?
    requires NormaliseDays(ImputeAll(PruneApplications(t), ApplicationFills).value).Success?
    requires IsAmountSource(c) && c in NormaliseDays(ImputeAll(PruneApplications(t), ApplicationFills).value).value.cols
    ensures c in t.cols && !MostlyMissing(t.cols[c], t.rows)
    ensures Numeric(NormaliseDays(ImputeAll(PruneApplications(t), ApplicationFills).value).value.cols[c]) <==>
              Numeric(t.cols[c])
  {
    var imputed := ImputeAll(PruneApplications(t), ApplicationFills).value;
    var normalised := NormaliseDays(imputed).value;
    ColumnKindsDisjoint(c);
    NormaliseDaysSpec(imputed);
    assert normalised.cols[c] == imputed.cols[c];
    ImputedAmount(t, c);
  }

  /** After the fills and the normalisation, the ranges can be derived exactly when every
      surviving amount column is numeric. */
  lemma DeriveApplicationsSucceeds(t: Table)
    requires t.WellFormed() && ImputeAll(PruneApplications(t), ApplicationFills).Success?
    requires NormaliseDays(ImputeAll(PruneApplications(t), ApplicationFills).value).Success?
    ensures DeriveRanges(NormaliseDays(ImputeAll(PruneApplications(t), ApplicationFills).value).value).Success? <==>
              forall c :: IsAmountSource(c) ==> NumericIfKept(t, c)
  {
    var imputed := ImputeAll(PruneApplications(t), ApplicationFills).value;
    var normalised := NormaliseDays(imputed).value;
    DeriveRangesSpec(normalised);
    forall c | IsAmountSource(c) && c in normalised.cols
      ensures Numeric(normalised.cols[c]) <==> Numeric(t.cols[c])
    {
      AmountReachesDerivations(t, c);
    }
    forall c | c in t.cols && !MostlyMissing(t.cols[c], t.rows) && IsAmountSource(c)
      ensures c in normalised.cols
    {
    }
  }

  /** The cleaning raises exactly when the table has no rows yet has a mode-filled column, or a
      surviving column it computes on as numbers holds text. */
  lemma CleanApplicationsSucceeds(t: Table)
    requires t.WellFormed()
    ensures CleanApplications(t).Success? <==> CleaningCanRun(t)
  {
    var p := PruneApplications(t);
    ApplicationFillsSucceed(t);
    var r := ImputeAll(p, ApplicationFills);
    if r.Success? {
      NormaliseApplicationsSucceeds(t);
      var n := NormaliseDays(r.value);
      if n.Success? {
        DeriveApplicationsSucceeds(t);
        assert CleanApplications(t) == DeriveRanges(n.value);
      } else {
        assert CleanApplications(t) == Failure(n.error);
      }
    } else {
      assert CleanApplications(t) == Failure(r.error);
    }
  }

  /** A fill statement that meets an empty mode does so on a mode-filled column of a table
      without rows. */
  lemma FillsModeFault(t: Table, c: ColName)
    requires t.WellFormed() && ImputeAll(PruneApplications(t), ApplicationFills) == Failure(ModeOfEmptyColumn(c))
    ensures t.rows == 0 && c in t.cols && FilledByMode(c)
  {
    var p := PruneApplications(t);
    ApplicationFillsDistinct();
    var k := ImputeAllModeFault(p, ApplicationFills, c);
    ModeFillsAreModeColumns(k);
    if t.rows > 0 {
      var i := SurvivorHasValue(p.cols[c], t.rows);
      assert false;
    }
  }

  lemma ModeFillsAreModeColumns(k: nat)
    requires k < |ApplicationFills| && ApplicationFills[k].rule == ModeRule
    ensures FilledByMode(ApplicationFills[k].column)
  {
  }

  /** An empty mode can only be met in a table without rows: a column that survives the pruning
      of a table with rows has a value. */
  lemma CleanApplicationsModeFault(t: Table, c: ColName)
    requires t.WellFormed() && CleanApplications(t) == Failure(ModeOfEmptyColumn(c))
    ensures t.rows == 0 && c in t.cols && FilledByMode(c)
  {
    var r := ImputeAll(PruneApplications(t), ApplicationFills);
    if r.Success? {
      var n := NormaliseDays(r.value);
      if n.Success? {
        assert CleanApplications(t) == DeriveRanges(n.value);
        DeriveRangesSpec(n.value);
      }
      assert false;
    }
    FillsModeFault(t, c);
  }

  /** The three range derivations, run on the frame in place. */
  method DeriveApplicationRanges(frame: Frame) returns (fault: Option<Fault>)
    requires frame.Valid()
    modifies frame
    ensures frame.Valid()
    ensures DeriveRanges(old(frame.Snapshot())) ==
              if fault.None? then Success(frame.Snapshot()) else Failure(fault.value)
  {
    fault := frame.DeriveRangeColumn("AMT_GOODS_PRICE", "AMT_GOODS_PRICE_RANGE", GoodsPriceField);
    if fault.Some? {
      return;
    }
    fault := frame.DeriveRangeColumn("AMT_INCOME_TOTAL", "AMT_INCOME_TOTAL_RANGE", IncomeField);
    if fault.Some? {
      return;
    }
    fault := frame.DeriveRangeColumn("AMT_CREDIT", "AMT_CREDIT_RANGE", CreditField);
  }

  /** The cleaning as the code runs it: the pruned table is copied into a frame that each
      statement updates in place; the first exception ends the run. */
  method CleanApplicationsInPlace(t: Table) returns (r: Result<Table, Fault>)
    requires t.WellFormed()
    ensures r == CleanApplications(t)
  {
    var frame := new Frame.Copy(PruneApplications(t));
    var fault := frame.ImputeColumns(ApplicationFills);
    if fault.Some? {
      return Failure(fault.value);
    }
    fault := frame.NormaliseDayOffsets();
    if fault.Some? {
      return Failure(fault.value);
    }
    fault := DeriveApplicationRanges(frame);
    if fault.Some? {
      return Failure(fault.value);
    }
    return Success(frame.Snapshot());
  }
}
