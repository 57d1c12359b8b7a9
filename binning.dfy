/** Stage C, feature derivation: `pd.cut` of three amount columns into labelled ranges, with pandas'
    default right-closed intervals `(b_i, b_{i+1}]` (the lowest edge itself is not in any range)
    and an open top range above the last finite edge. */
module Binning {
  import opened Cells
  import opened Tables
  import opened Statistics

  /** Each edge is below the next one. */
  predicate Ascending(edges: seq<real>)
  {
    |edges| <= 1 || (edges[0] < edges[1] && Ascending(edges[1..]))
  }

  lemma {:induction false} AscendingAt(edges: seq<real>, i: nat, j: nat)
    requires Ascending(edges) && i < j < |edges|
    ensures edges[i] < edges[j]
  {
    if i == 0 {
      if j > 1 {
        AscendingAt(edges[1..], 0, j - 1);
      }
    } else {
      AscendingAt(edges[1..], i - 1, j - 1);
    }
  }

  /** The number of leading edges strictly below `x`. */
  function Below(edges: seq<real>, x: real): (k: nat)
    ensures k <= |edges|
    ensures forall i :: 0 <= i < k ==> edges[i] < x
    ensures k < |edges| ==> x <= edges[k]
  {
    if edges == [] || x <= edges[0] then 0 else 1 + Below(edges[1..], x)
  }

  /** `x` lies in range `i`: above edge `i` and, unless `i` is the open top range, at most edge `i + 1`. */
  predicate InRange(edges: seq<real>, i: nat, x: real)
  {
    i < |edges| && edges[i] < x && (i + 1 < |edges| ==> x <= edges[i + 1])
  }

  /** The range `pd.cut` puts `x` in, by index; None for `x` at or below the lowest edge. */
  function Bucket(edges: seq<real>, x: real): (r: Option<nat>)
    ensures r.None? <==> edges == [] || x <= edges[0]
    ensures r.Some? ==> InRange(edges, r.value, x)
  {
    var k := Below(edges, x);
    if k == 0 then None else Some(k - 1)
  }

  /** With ascending edges the range holding `x` is unique. */
  lemma BucketIsTheRange(edges: seq<real>, i: nat, x: real)
    requires Ascending(edges) && InRange(edges, i, x)
    ensures Bucket(edges, x) == Some(i)
  {
    var k := Below(edges, x);
    if k < i {
      AscendingAt(edges, k, i);
    }
  }

  lemma {:induction false} BelowMonotone(edges: seq<real>, x: real, y: real)
    requires x <= y
    ensures Below(edges, x) <= Below(edges, y)
  {
    if edges != [] && x > edges[0] {
      BelowMonotone(edges[1..], x, y);
    }
  }

  /** A larger amount never falls in a lower range. */
  lemma BucketMonotone(edges: seq<real>, x: real, y: real)
    requires x <= y && Bucket(edges, x).Some?
    ensures Bucket(edges, y).Some? && Bucket(edges, x).value <= Bucket(edges, y).value
  {
    BelowMonotone(edges, x, y);
  }

  // ---------------------------------------------------------------- goods price

  const GoodsPriceEdges: seq<real> :=
    [0.0, 100000.0, 200000.0, 300000.0, 400000.0, 500000.0, 600000.0, 700000.0, 800000.0, 900000.0]

  /** The labels of `AMT_GOODS_PRICE_RANGE`, lowest first. */
  datatype GoodsPriceRange =
    | Goods0To100K | Goods100KTo200K | Goods200KTo300K | Goods300KTo400K | Goods400KTo500K
    | Goods500KTo600K | Goods600KTo700K | Goods700KTo800K | Goods800KTo900K | GoodsAbove900K
  {
    function Index(): nat
    {
      match this
      case Goods0To100K => 0 case Goods100KTo200K => 1 case Goods200KTo300K => 2
      case Goods300KTo400K => 3 case Goods400KTo500K => 4 case Goods500KTo600K => 5
      case Goods600KTo700K => 6 case Goods700KTo800K => 7 case Goods800KTo900K => 8
      case GoodsAbove900K => 9
    }

    function Label(): string
    {
      match this
      case Goods0To100K => "0-100K" case Goods100KTo200K => "100k-200K"
      case Goods200KTo300K => "200K-300K" case Goods300KTo400K => "300K-400K"
      case Goods400KTo500K => "400K-500K" case Goods500KTo600K => "500K-600K"
      case Goods600KTo700K => "600K-700K" case Goods700KTo800K => "700K-800K"
      case Goods800KTo900K => "800K-900K" case GoodsAbove900K => "Above 900K"
    }
  }

  const GoodsPriceRanges: seq<GoodsPriceRange> :=
    [Goods0To100K, Goods100KTo200K, Goods200KTo300K, Goods300KTo400K, Goods400KTo500K,
     Goods500KTo600K, Goods600KTo700K, Goods700KTo800K, Goods800KTo900K, GoodsAbove900K]

  lemma GoodsPriceEdgesAscending()
    ensures Ascending(GoodsPriceEdges)
  {
  }

  /** The goods-price range of an amount: the one whose interval holds it, none at or below 0. */
  function GoodsPriceRangeOf(x: real): (r: Option<GoodsPriceRange>)
    ensures r.None? <==> x <= 0.0
    ensures r.Some? ==> InRange(GoodsPriceEdges, r.value.Index(), x)
  {
    assert forall i :: 0 <= i < |GoodsPriceRanges| ==> GoodsPriceRanges[i].Index() == i;
    match Bucket(GoodsPriceEdges, x)
    case None => None
    case Some(i) => Some(GoodsPriceRanges[i])
  }

  /** An edge belongs to the range below it: 100000 is in "0-100K", just above it is "100k-200K". */
  lemma GoodsPriceBoundaries()
    ensures GoodsPriceRangeOf(100000.0) == Some(Goods0To100K)
    ensures GoodsPriceRangeOf(100000.5) == Some(Goods100KTo200K)
  {
    GoodsPriceEdgesAscending();
    BucketIsTheRange(GoodsPriceEdges, 0, 100000.0);
    BucketIsTheRange(GoodsPriceEdges, 1, 100000.5);
  }

  /** Every price above 900000 is in "Above 900K". */
  lemma GoodsPriceTop(x: real)
    requires x > 900000.0
    ensures GoodsPriceRangeOf(x) == Some(GoodsAbove900K)
  {
    GoodsPriceEdgesAscending();
    BucketIsTheRange(GoodsPriceEdges, 9, x);
  }

  /** A larger amount never gets a lower range. */
  lemma GoodsPriceMonotone(x: real, y: real)
    requires 0.0 < x <= y
    ensures GoodsPriceRangeOf(x).value.Index() <= GoodsPriceRangeOf(y).value.Index()
  {
    GoodsPriceEdgesAscending();
    BucketIsTheRange(GoodsPriceEdges, GoodsPriceRangeOf(x).value.Index(), x);
    BucketIsTheRange(GoodsPriceEdges, GoodsPriceRangeOf(y).value.Index(), y);
    BucketMonotone(GoodsPriceEdges, x, y);
  }

  // ---------------------------------------------------------------- income

  const IncomeEdges: seq<real> :=
    [0.0, 100000.0, 150000.0, 200000.0, 250000.0, 300000.0, 350000.0, 400000.0]

  /** The labels of `AMT_INCOME_TOTAL_RANGE`, lowest first. */
  datatype IncomeRange =
    | Income0To100K | Income100KTo150K | Income150KTo200K | Income200KTo250K
    | Income250KTo300K | Income300KTo350K | Income350KTo400K | IncomeAbove400K
  {
    function Index(): nat
    {
      match this
      case Income0To100K => 0 case Income100KTo150K => 1 case Income150KTo200K => 2
      case Income200KTo250K => 3 case Income250KTo300K => 4 case Income300KTo350K => 5
      case Income350KTo400K => 6 case IncomeAbove400K => 7
    }

    function Label(): string
    {
      match this
      case Income0To100K => "0-100K" case Income100KTo150K => "100K-150K"
      case Income150KTo200K => "150K-200K" case Income200KTo250K => "200K-250K"
      case Income250KTo300K => "250K-300K" case Income300KTo350K => "300K-350K"
      case Income350KTo400K => "350K-400K" case IncomeAbove400K => "Above 400K"
    }
  }

  const IncomeRanges: seq<IncomeRange> :=
    [Income0To100K, Income100KTo150K, Income150KTo200K, Income200KTo250K,
     Income250KTo300K, Income300KTo350K, Income350KTo400K, IncomeAbove400K]

  lemma IncomeEdgesAscending()
    ensures Ascending(IncomeEdges)
  {
  }

  /** The income range of an amount: the one whose interval holds it, none at or below 0. */
  function IncomeRangeOf(x: real): (r: Option<IncomeRange>)
    ensures r.None? <==> x <= 0.0
    ensures r.Some? ==> InRange(IncomeEdges, r.value.Index(), x)
  {
    assert forall i :: 0 <= i < |IncomeRanges| ==> IncomeRanges[i].Index() == i;
    match Bucket(IncomeEdges, x)
    case None => None
    case Some(i) => Some(IncomeRanges[i])
  }

  /** An edge belongs to the range below it: 100000 is in "0-100K", 150000 in "100K-150K". */
  lemma IncomeBoundaries()
    ensures IncomeRangeOf(100000.0) == Some(Income0To100K)
    ensures IncomeRangeOf(150000.0) == Some(Income100KTo150K)
  {
    IncomeEdgesAscending();
    BucketIsTheRange(IncomeEdges, 0, 100000.0);
    BucketIsTheRange(IncomeEdges, 1, 150000.0);
  }

  /** Every income above 400000 is in "Above 400K". */
  lemma IncomeTop(x: real)
    requires x > 400000.0
    ensures IncomeRangeOf(x) == Some(IncomeAbove400K)
  {
    IncomeEdgesAscending();
    BucketIsTheRange(IncomeEdges, 7, x);
  }

  /** A larger amount never gets a lower range. */
  lemma IncomeMonotone(x: real, y: real)
    requires 0.0 < x <= y
    ensures IncomeRangeOf(x).value.Index() <= IncomeRangeOf(y).value.Index()
  {
    IncomeEdgesAscending();
    BucketIsTheRange(IncomeEdges, IncomeRangeOf(x).value.Index(), x);
    BucketIsTheRange(IncomeEdges, IncomeRangeOf(y).value.Index(), y);
    BucketMonotone(IncomeEdges, x, y);
  }

  // ---------------------------------------------------------------- credit

  const CreditEdges: seq<real> :=
    [0.0, 200000.0, 400000.0, 600000.0, 800000.0, 900000.0, 1000000.0, 2000000.0, 3000000.0]

  /** The labels of `AMT_CREDIT_RANGE`, lowest first. */
  datatype CreditRange =
    | Credit0To200K | Credit200KTo400K | Credit400KTo600K | Credit600KTo800K | Credit800KTo900K
    | Credit900KTo1M | Credit1MTo2M | Credit2MTo3M | CreditAbove3M
  {
    function Index(): nat
    {
      match this
      case Credit0To200K => 0 case Credit200KTo400K => 1 case Credit400KTo600K => 2
      case Credit600KTo800K => 3 case Credit800KTo900K => 4 case Credit900KTo1M => 5
      case Credit1MTo2M => 6 case Credit2MTo3M => 7 case CreditAbove3M => 8
    }

    function Label(): string
    {
      match this
      case Credit0To200K => "0-200K" case Credit200KTo400K => "200K-400K"
      case Credit400KTo600K => "400K-600K" case Credit600KTo800K => "600K-800K"
      case Credit800KTo900K => "800K-900K" case Credit900KTo1M => "900K-1M"
      case Credit1MTo2M => "1M-2M" case Credit2MTo3M => "2M-3M" case CreditAbove3M => "Above 3M"
    }
  }

  const CreditRanges: seq<CreditRange> :=
    [Credit0To200K, Credit200KTo400K, Credit400KTo600K, Credit600KTo800K, Credit800KTo900K,
     Credit900KTo1M, Credit1MTo2M, Credit2MTo3M, CreditAbove3M]

  lemma CreditEdgesAscending()
    ensures Ascending(CreditEdges)
  {
  }

  /** The credit range of an amount: the one whose interval holds it, none at or below 0. */
  function CreditRangeOf(x: real): (r: Option<CreditRange>)
    ensures r.None? <==> x <= 0.0
    ensures r.Some? ==> InRange(CreditEdges, r.value.Index(), x)
  {
    assert forall i :: 0 <= i < |CreditRanges| ==> CreditRanges[i].Index() == i;
    match Bucket(CreditEdges, x)
    case None => None
    case Some(i) => Some(CreditRanges[i])
  }

  /** An edge belongs to the range below it: 200000 is in "0-200K"; 5000000 is in "Above 3M". */
  lemma CreditBoundaries()
    ensures CreditRangeOf(200000.0) == Some(Credit0To200K)
    ensures CreditRangeOf(5000000.0) == Some(CreditAbove3M)
  {
    CreditEdgesAscending();
    BucketIsTheRange(CreditEdges, 0, 200000.0);
    BucketIsTheRange(CreditEdges, 8, 5000000.0);
  }

  /** Every credit above 3000000 is in "Above 3M". */
  lemma CreditTop(x: real)
    requires x > 3000000.0
    ensures CreditRangeOf(x) == Some(CreditAbove3M)
  {
    CreditEdgesAscending();
    BucketIsTheRange(CreditEdges, 8, x);
  }

  /** A larger amount never gets a lower range. */
  lemma CreditMonotone(x: real, y: real)
    requires 0.0 < x <= y
    ensures CreditRangeOf(x).value.Index() <= CreditRangeOf(y).value.Index()
  {
    CreditEdgesAscending();
    BucketIsTheRange(CreditEdges, CreditRangeOf(x).value.Index(), x);
    BucketIsTheRange(CreditEdges, CreditRangeOf(y).value.Index(), y);
    BucketMonotone(CreditEdges, x, y);
  }

  // ---------------------------------------------------------------- columns

  /** The three derived range columns. */
  datatype RangeField = GoodsPriceField | IncomeField | CreditField

  /** The label `pd.cut` gives an amount in `field`, if any. */
  function RangeLabel(field: RangeField, x: real): (r: Option<string>)
    ensures r.Some? <==> x > 0.0
  {
    match field
    case GoodsPriceField => (match GoodsPriceRangeOf(x) case None => None case Some(l) => Some(l.Label()))
    case IncomeField => (match IncomeRangeOf(x) case None => None case Some(l) => Some(l.Label()))
    case CreditField => (match CreditRangeOf(x) case None => None case Some(l) => Some(l.Label()))
  }

  /** One cell of `pd.cut(col, bins, labels=ranges)`: a missing amount, 0 or a negative amount
      gives a missing label. */
  function CutCell(cell: Cell, field: RangeField): (r: Cell)
    requires cell.Some? ==> cell.value.Num?
    ensures r.Some? <==> cell.Some? && cell.value.x > 0.0
    ensures r.Some? ==> r.value.Text?
  {
    match cell
    case None => None
    case Some(v) =>
      match RangeLabel(field, v.x)
      case None => None
      case Some(l) => Some(Text(l))
  }

  /** `pd.cut` over a numeric column. */
  function CutColumn(col: seq<Cell>, field: RangeField): (r: seq<Cell>)
    requires Numeric(col)
    ensures |r| == |col|
    ensures forall i :: 0 <= i < |col| ==> r[i] == CutCell(col[i], field)
  {
    seq(|col|, i requires 0 <= i < |col| => CutCell(col[i], field))
  }

  /** `if source in df.columns: df[target] = pd.cut(df[source], ...)`; pd.cut raises TypeError on
      text. */
  function DeriveRange(t: Table, source: ColName, target: ColName, field: RangeField): (r: Result<Table, Fault>)
    requires t.WellFormed()
    ensures source !in t.cols ==> r == Success(t)
    ensures r.Failure? <==> source in t.cols && !Numeric(t.cols[source])
    ensures r.Failure? ==> r.error == NonNumericColumn(source)
    ensures r.Success? && source in t.cols ==>
              && r.value.WellFormed() && r.value.rows == t.rows
              && r.value.names == (if target in t.cols then t.names else t.names + [target])
              && target in r.value.cols
              && (forall i :: 0 <= i < t.rows ==> r.value.cols[target][i] == CutCell(t.cols[source][i], field))
              && (forall d :: d != target ==> (d in r.value.cols <==> d in t.cols))
              && (forall d :: d in t.cols && d != target ==> r.value.cols[d] == t.cols[d])
  {
    if source !in t.cols then Success(t)
    else if !Numeric(t.cols[source]) then Failure(NonNumericColumn(source))
    else Success(Assign(t, target, CutColumn(t.cols[source], field)))
  }
}
