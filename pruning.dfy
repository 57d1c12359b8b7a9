/** Stage A: dropping the columns that are mostly missing, and for previous applications also four
    administrative columns. */
module Pruning {
  import opened Cells
  import opened Tables
  import opened Statistics

  /** `null_count / rows * 100 >= 40` in integers. With no rows pandas divides 0 by 0 and gets NaN,
      and `NaN >= 40` is false, so nothing is dropped from an empty table. */
  predicate MostlyMissing(col: seq<Cell>, rows: nat)
  {
    rows > 0 && 100 * NullCount(col) >= 40 * rows
  }

  /** A product with a positive factor has the sign of the other factor. */
  lemma SignOfProduct(r: real, x: real)
    requires r > 0.0
    ensures r * x >= 0.0 <==> x >= 0.0
  {
    if x < 0.0 {
      assert r * (-x) > 0.0;
    }
  }

  lemma ShareAtLeast(n: real, r: real)
    requires r > 0.0
    ensures n / r * 100.0 >= 40.0 <==> 100.0 * n >= 40.0 * r
  {
    var q := n / r;
    assert n == q * r;
    assert 100.0 * n - 40.0 * r == r * (q * 100.0 - 40.0);
    SignOfProduct(r, q * 100.0 - 40.0);
  }

  /** The integer comparison is the percentage test as the code writes it, over exact reals. */
  lemma MostlyMissingShare(col: seq<Cell>, rows: nat)
    ensures MostlyMissing(col, rows) <==>
              rows > 0 && (NullCount(col) as real) / (rows as real) * 100.0 >= 40.0
  {
    if rows > 0 {
      ShareAtLeast(NullCount(col) as real, rows as real);
    }
  }

  /** The columns among `cs` whose null share is at least 40%, in the order of `cs`. */
  function MissingAmong(t: Table, cs: seq<ColName>): (r: seq<ColName>)
    requires forall c :: c in cs ==> c in t.cols
    ensures forall c :: c in r <==> c in cs && MostlyMissing(t.cols[c], t.rows)
  {
    if cs == [] then []
    else (if MostlyMissing(t.cols[cs[0]], t.rows) then [cs[0]] else []) + MissingAmong(t, cs[1..])
  }

  /** The list of mostly missing columns (`msng_col`, `var_msng_ge_40`). pandas builds it from a
      table sorted by null count; only its contents matter to `drop`. */
  function MissingColumns(t: Table): (r: seq<ColName>)
    requires t.WellFormed()
    ensures forall c :: c in r <==> c in t.cols && MostlyMissing(t.cols[c], t.rows)
  {
    MissingAmong(t, t.names)
  }

  /** The four previous-application columns that are dropped whatever their null share. */
  const AdministrativeColumns: seq<ColName> :=
    ["WEEKDAY_APPR_PROCESS_START", "HOUR_APPR_PROCESS_START",
     "FLAG_LAST_APPL_PER_CONTRACT", "NFLAG_LAST_APPL_IN_DAY"]

  /** `[c for c in cs if c in df.columns]`. */
  function PresentOnly(t: Table, cs: seq<ColName>): (r: seq<ColName>)
    ensures forall c :: c in r <==> c in cs && c in t.cols
  {
    if cs == [] then []
    else (if cs[0] in t.cols then [cs[0]] else []) + PresentOnly(t, cs[1..])
  }

  /** Pruning of the applications table: a column is dropped exactly when at least 40% of its
      cells are missing; the others keep their cells and their order, and no row is lost. */
  function PruneApplications(t: Table): (r: Table)
    requires t.WellFormed()
    ensures r.WellFormed() && r.rows == t.rows
    ensures forall c :: c in r.cols <==> c in t.cols && !MostlyMissing(t.cols[c], t.rows)
    ensures forall c :: c in r.cols ==> r.cols[c] == t.cols[c]
    ensures InOrderOf(r.names, t.names)
  {
    Drop(t, MissingColumns(t))
  }

  /** Pruning of the previous-applications table: the mostly missing columns and the
      administrative ones are dropped, names that are not columns are filtered out first so the
      drop cannot fail, and everything else is kept as it was. */
  function PrunePrevious(t: Table): (r: Table)
    requires t.WellFormed()
    ensures r.WellFormed() && r.rows == t.rows
    ensures forall c :: c in r.cols <==>
              c in t.cols && !MostlyMissing(t.cols[c], t.rows) && c !in AdministrativeColumns
    ensures forall c :: c in r.cols ==> r.cols[c] == t.cols[c]
    ensures InOrderOf(r.names, t.names)
  {
    Drop(t, PresentOnly(t, MissingColumns(t) + AdministrativeColumns))
  }

  /** Column `c`, if it survives the 40% rule, holds only numbers. */
  ghost predicate NumericIfKept(t: Table, c: ColName)
    requires t.WellFormed()
  {
    c in t.cols && !MostlyMissing(t.cols[c], t.rows) ==> Numeric(t.cols[c])
  }

  /** A column that survives the 40% rule in a table with rows has fewer missing cells than rows,
      so it holds at least one value. */
  lemma SurvivorHasValue(col: seq<Cell>, rows: nat) returns (i: nat)
    requires |col| == rows > 0 && !MostlyMissing(col, rows)
    ensures i < |col| && col[i].Some?
  {
    assert NullCount(col) < |col|;
    i := CountBelowLength(col, None);
  }
}
