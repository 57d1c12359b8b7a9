/** Stage C, join: `pd.merge(app, prev, how='inner', on='SK_ID_CURR')`. A merged row is kept as the
    pair of rows it combines. pandas matches missing keys with each other, and so does the
    equality of cells used here. */
module Join {
  import opened Cells
  import opened Tables

  /** The pairs `(i, j)` with `kb[j] == x`, in the order of `kb`. */
  function MatchesOf(i: nat, x: Cell, kb: seq<Cell>): (r: seq<(nat, nat)>)
    ensures |r| == Count(kb, x)
    ensures forall p :: p in r <==> p.0 == i && p.1 < |kb| && kb[p.1] == x
    ensures forall k, l :: 0 <= k < l < |r| ==> r[k].1 < r[l].1
  {
    if kb == [] then []
    else
      var j := |kb| - 1;
      MatchesOf(i, x, kb[..j]) + (if kb[j] == x then [(i, j)] else [])
  }

  /** The row pairs an inner join on keys `ka` and `kb` produces, in pandas' order: by left row,
      then by right row. */
  function JoinPairs(ka: seq<Cell>, kb: seq<Cell>): (r: seq<(nat, nat)>)
    ensures forall p :: p in r <==> p.0 < |ka| && p.1 < |kb| && ka[p.0] == kb[p.1]
  {
    if ka == [] then []
    else
      var i := |ka| - 1;
      JoinPairs(ka[..i], kb) + MatchesOf(i, ka[i], kb)
  }

  /** Pairs are listed in increasing (left, right) order, so every matching pair occurs exactly once. */
  lemma {:induction false} JoinPairsOnce(ka: seq<Cell>, kb: seq<Cell>)
    ensures forall k, l :: 0 <= k < l < |JoinPairs(ka, kb)| ==>
              var p, q := JoinPairs(ka, kb)[k], JoinPairs(ka, kb)[l];
              p.0 < q.0 || (p.0 == q.0 && p.1 < q.1)
  {
    if ka != [] {
      var i := |ka| - 1;
      var front := JoinPairs(ka[..i], kb);
      var back := MatchesOf(i, ka[i], kb);
      JoinPairsOnce(ka[..i], kb);
      var r := JoinPairs(ka, kb);
      assert r == front + back;
      forall k, l | 0 <= k < l < |r|
        ensures r[k].0 < r[l].0 || (r[k].0 == r[l].0 && r[k].1 < r[l].1)
      {
        if l >= |front| {
          assert r[l] == back[l - |front|] && r[l] in back;
          if k < |front| {
            assert r[k] == front[k] && r[k] in front;
          } else {
            assert r[k] == back[k - |front|] && r[k] in back;
          }
        }
      }
    }
  }

  /** No key occurs twice (SK_ID_CURR identifies an application). */
  predicate UniqueKeys(ka: seq<Cell>)
  {
    forall i, j :: 0 <= i < j < |ka| ==> ka[i] != ka[j]
  }

  /** The number of rows of `kb` whose key occurs in `ka`. */
  function MatchedRows(ka: seq<Cell>, kb: seq<Cell>): (n: nat)
    ensures n <= |kb|
  {
    if kb == [] then 0
    else MatchedRows(ka, kb[..|kb| - 1]) + (if kb[|kb| - 1] in ka then 1 else 0)
  }

  lemma {:induction false} MatchedRowsExtend(ka: seq<Cell>, x: Cell, kb: seq<Cell>)
    requires x !in ka
    ensures MatchedRows(ka + [x], kb) == MatchedRows(ka, kb) + Count(kb, x)
  {
    if kb != [] {
      MatchedRowsExtend(ka, x, kb[..|kb| - 1]);
    }
  }

  lemma {:induction false} NothingMatchesNoKeys(kb: seq<Cell>)
    ensures MatchedRows([], kb) == 0
  {
    if kb != [] {
      NothingMatchesNoKeys(kb[..|kb| - 1]);
    }
  }

  /** With unique left keys, the join has one row per right row whose key occurs on the left, so
      never more rows than the right table. */
  lemma {:induction false} JoinCardinality(ka: seq<Cell>, kb: seq<Cell>)
    requires UniqueKeys(ka)
    ensures |JoinPairs(ka, kb)| == MatchedRows(ka, kb) <= |kb|
  {
    if ka != [] {
      var i := |ka| - 1;
      assert ka == ka[..i] + [ka[i]];
      assert ka[i] !in ka[..i];
      assert UniqueKeys(ka[..i]);
      JoinCardinality(ka[..i], kb);
      MatchedRowsExtend(ka[..i], ka[i], kb);
      assert |JoinPairs(ka, kb)| == |JoinPairs(ka[..i], kb)| + Count(kb, ka[i]);
      assert MatchedRows(ka, kb) == MatchedRows(ka[..i] + [ka[i]], kb);
    } else {
      NothingMatchesNoKeys(kb);
    }
  }

  /** The join key of both tables. */
  const JoinKey: ColName := "SK_ID_CURR"

  /** A merged row: the applications row and the previous-applications row it combines. */
  datatype MergedRow = MergedRow(app: seq<Cell>, prev: seq<Cell>)

  /** The merged row of each pair of row numbers, in the order of the pairs. */
  function PairedRows(a: Table, b: Table, ps: seq<(nat, nat)>): (r: seq<MergedRow>)
    requires a.WellFormed() && b.WellFormed()
    requires forall p :: p in ps ==> p.0 < a.rows && p.1 < b.rows
    ensures |r| == |ps|
    ensures forall k :: 0 <= k < |ps| ==> r[k] == MergedRow(Row(a, ps[k].0), Row(b, ps[k].1))
  {
    seq(|ps|, k requires 0 <= k < |ps| => assert ps[k] in ps; MergedRow(Row(a, ps[k].0), Row(b, ps[k].1)))
  }

  /** `m` joins a row of `a` and a row of `b` with equal keys. */
  ghost predicate JoinsEqualKeys(a: Table, b: Table, m: MergedRow)
    requires a.WellFormed() && b.WellFormed() && JoinKey in a.cols && JoinKey in b.cols
  {
    exists i, j :: 0 <= i < a.rows && 0 <= j < b.rows && a.cols[JoinKey][i] == b.cols[JoinKey][j]
      && m == MergedRow(Row(a, i), Row(b, j))
  }

  /** Each merged row of pairs with equal keys joins two rows with equal keys. */
  lemma PairedRowsMatch(a: Table, b: Table, ps: seq<(nat, nat)>)
    requires a.WellFormed() && b.WellFormed() && JoinKey in a.cols && JoinKey in b.cols
    requires forall p :: p in ps ==> p.0 < a.rows && p.1 < b.rows && a.cols[JoinKey][p.0] == b.cols[JoinKey][p.1]
    ensures forall k :: 0 <= k < |ps| ==> JoinsEqualKeys(a, b, PairedRows(a, b, ps)[k])
  {
    forall k | 0 <= k < |ps|
      ensures JoinsEqualKeys(a, b, PairedRows(a, b, ps)[k])
    {
      assert ps[k] in ps;
      var i, j := ps[k].0, ps[k].1;
      assert PairedRows(a, b, ps)[k] == MergedRow(Row(a, i), Row(b, j));
    }
  }

  /** The inner merge on `SK_ID_CURR`; pandas raises KeyError when either side lacks the column. */
  function Merge(a: Table, b: Table): (r: Result<seq<MergedRow>, Fault>)
    requires a.WellFormed() && b.WellFormed()
    ensures r.Failure? <==> JoinKey !in a.cols || JoinKey !in b.cols
    ensures r.Failure? ==> r.error == MissingJoinKey
    ensures r.Success? ==> |r.value| == |JoinPairs(a.cols[JoinKey], b.cols[JoinKey])|
    ensures r.Success? ==>
              JoinKey in a.cols && JoinKey in b.cols &&
              |a.cols[JoinKey]| == a.rows && |b.cols[JoinKey]| == b.rows &&
              forall k :: 0 <= k < |r.value| ==> JoinsEqualKeys(a, b, r.value[k])
    ensures r.Success? ==> r.value == PairedRows(a, b, JoinPairs(a.cols[JoinKey], b.cols[JoinKey]))
  {
    if JoinKey !in a.cols || JoinKey !in b.cols then Failure(MissingJoinKey)
    else
      var ps := JoinPairs(a.cols[JoinKey], b.cols[JoinKey]);
      PairedRowsMatch(a, b, ps);
      Success(PairedRows(a, b, ps))
  }

  /** Every pair of rows with equal keys is a merged row. */
  lemma MergeKeepsEveryMatch(a: Table, b: Table, i: nat, j: nat)
    requires a.WellFormed() && b.WellFormed() && Merge(a, b).Success?
    requires i < a.rows && j < b.rows && a.cols[JoinKey][i] == b.cols[JoinKey][j]
    ensures MergedRow(Row(a, i), Row(b, j)) in Merge(a, b).value
  {
    var ps := JoinPairs(a.cols[JoinKey], b.cols[JoinKey]);
    assert (i, j) in ps;
    var k :| 0 <= k < |ps| && ps[k] == (i, j);
    assert Merge(a, b).value[k] == MergedRow(Row(a, i), Row(b, j));
  }
}
