/** The data frame as a value: ordered column names and one column of cells per name. */
module Tables {
  import opened Cells

  type ColName = string

  /** The exceptions pandas can raise inside the cleaning steps (the reads are guarded separately). */
  datatype Fault =
    | ModeOfEmptyColumn(column: ColName)  // `mode()[0]` on a column without values: KeyError
    | NonNumericColumn(column: ColName)   // mean, median, abs or cut over text: TypeError
    | MissingJoinKey                      // merge on a key column one side lacks: KeyError

  predicate Distinct(s: seq<ColName>)
  {
    forall i, j :: 0 <= i < j < |s| ==> s[i] != s[j]
  }

  /** A data frame: `names` in column order, `cols` the cells of each column, `rows` its length. */
  datatype Table = Table(names: seq<ColName>, cols: map<ColName, seq<Cell>>, rows: nat) {
    ghost predicate WellFormed()
    {
      && Distinct(names)
      && (forall c :: c in cols <==> c in names)
      && (forall c :: c in cols ==> |cols[c]| == rows)
    }
  }

  /** `df[c] = col`: an existing column keeps its place, a new one goes last, nothing else changes. */
  function Assign(t: Table, c: ColName, col: seq<Cell>): (r: Table)
    requires t.WellFormed() && |col| == t.rows
    ensures r.WellFormed() && r.rows == t.rows
    ensures r.names == if c in t.cols then t.names else t.names + [c]
    ensures c in r.cols && r.cols[c] == col
    ensures forall d :: d != c ==> (d in r.cols <==> d in t.cols)
    ensures forall d :: d in t.cols && d != c ==> r.cols[d] == t.cols[d]
  {
    Table(if c in t.cols then t.names else t.names + [c], t.cols[c := col], t.rows)
  }

  /** The names of `s` that are not in `ds`, in the order of `s`. */
  function Without(s: seq<ColName>, ds: seq<ColName>): (r: seq<ColName>)
    ensures forall c :: c in r <==> c in s && c !in ds
  {
    if s == [] then []
    else (if s[0] in ds then [] else [s[0]]) + Without(s[1..], ds)
  }

  /** Position of `c` in `s` (its first one). */
  function IndexOf(s: seq<ColName>, c: ColName): (i: nat)
    requires c in s
    ensures i < |s| && s[i] == c
  {
    if s[0] == c then 0 else 1 + IndexOf(s[1..], c)
  }

  /** Every element of `r` occurs in `s`, and `r` lists them in the order they have in `s`. */
  ghost predicate InOrderOf(r: seq<ColName>, s: seq<ColName>)
  {
    forall i, j :: 0 <= i < j < |r| ==> r[i] in s && r[j] in s && IndexOf(s, r[i]) < IndexOf(s, r[j])
  }

  lemma IndexOfTail(s: seq<ColName>, y: ColName)
    requires Distinct(s) && s != [] && y in s[1..]
    ensures y != s[0] && IndexOf(s, y) == 1 + IndexOf(s[1..], y)
  {
    var k :| 0 <= k < |s| - 1 && s[1..][k] == y;
    assert s[k + 1] == y;
  }

  /** A sequence listed in the order of a distinct one has no repeats. */
  lemma InOrderDistinct(r: seq<ColName>, s: seq<ColName>)
    requires InOrderOf(r, s)
    ensures Distinct(r)
  {
  }

  /** Names in the order of the tail of a distinct sequence are in the order of the whole, one
      place further on. */
  lemma InOrderOfTail(rt: seq<ColName>, s: seq<ColName>)
    requires Distinct(s) && s != [] && InOrderOf(rt, s[1..]) && (forall y :: y in rt ==> y in s[1..])
    ensures InOrderOf(rt, s)
    ensures forall y :: y in rt ==> y != s[0] && IndexOf(s, y) == 1 + IndexOf(s[1..], y)
  {
    forall y | y in rt
      ensures y != s[0] && IndexOf(s, y) == 1 + IndexOf(s[1..], y)
    {
      IndexOfTail(s, y);
    }
  }

  /** ... and the first name of the whole may be put in front of them. */
  lemma InOrderOfCons(rt: seq<ColName>, s: seq<ColName>)
    requires Distinct(s) && s != [] && InOrderOf(rt, s[1..]) && (forall y :: y in rt ==> y in s[1..])
    ensures InOrderOf([s[0]] + rt, s)
  {
    InOrderOfTail(rt, s);
    var r := [s[0]] + rt;
    forall i, j | 0 <= i < j < |r|
      ensures r[i] in s && r[j] in s && IndexOf(s, r[i]) < IndexOf(s, r[j])
    {
      assert r[j] == rt[j - 1] && rt[j - 1] in rt;
      if i > 0 {
        assert r[i] == rt[i - 1] && rt[i - 1] in rt;
      }
    }
  }

  /** Dropping names keeps the remaining ones in their original order. */
  lemma {:induction false} WithoutKeepsOrder(s: seq<ColName>, ds: seq<ColName>)
    requires Distinct(s)
    ensures InOrderOf(Without(s, ds), s)
  {
    if s != [] {
      var tail := s[1..];
      WithoutKeepsOrder(tail, ds);
      var rt := Without(tail, ds);
      if s[0] in ds {
        assert Without(s, ds) == rt;
        InOrderOfTail(rt, s);
      } else {
        assert Without(s, ds) == [s[0]] + rt;
        InOrderOfCons(rt, s);
      }
    }
  }

  /** `df.drop(labels=ds, axis=1)`; pandas raises KeyError for an absent label, so every label must
      be a column. The other columns keep their cells and their order, and the row count is kept. */
  function Drop(t: Table, ds: seq<ColName>): (r: Table)
    requires t.WellFormed()
    requires forall d :: d in ds ==> d in t.cols
    ensures r.WellFormed() && r.rows == t.rows
    ensures r.names == Without(t.names, ds) && InOrderOf(r.names, t.names)
    ensures forall c :: c in r.cols <==> c in t.cols && c !in ds
    ensures forall c :: c in r.cols ==> r.cols[c] == t.cols[c]
  {
    WithoutKeepsOrder(t.names, ds);
    InOrderDistinct(Without(t.names, ds), t.names);
    Table(Without(t.names, ds), map c | c in t.cols && c !in ds :: t.cols[c], t.rows)
  }

  /** `col.fillna(v)`: every missing cell becomes `v`, every present cell stays. */
  function FillNa(col: seq<Cell>, v: Value): (r: seq<Cell>)
    ensures |r| == |col|
    ensures None !in r
    ensures forall i :: 0 <= i < |col| && col[i].Some? ==> r[i] == col[i]
    ensures forall i :: 0 <= i < |col| && col[i].None? ==> r[i] == Some(v)
  {
    seq(|col|, i requires 0 <= i < |col| => if col[i].None? then Some(v) else col[i])
  }

  /** `col.isnull().sum()`. */
  function NullCount(col: seq<Cell>): nat
  {
    Count(col, None)
  }

  /** Row `i` of a frame, its cells in column order. */
  function Row(t: Table, i: nat): (r: seq<Cell>)
    requires t.WellFormed() && i < t.rows
    ensures |r| == |t.names|
    ensures forall k :: 0 <= k < |t.names| ==> r[k] == t.cols[t.names[k]][i]
  {
    seq(|t.names|, k requires 0 <= k < |t.names| => t.cols[t.names[k]][i])
  }
}
