/** The statistics imputation fills with: `mode()[0]`, `mean()` and `median()` of a column, all of
    them over its present cells only (pandas skips NaN). */
module Statistics {
  import opened Cells

  /** Every present cell is a number: the columns pandas can average, take the median or the
      absolute value of, or cut into bins. */
  predicate Numeric(col: seq<Cell>)
  {
    forall i :: 0 <= i < |col| && col[i].Some? ==> col[i].value.Num?
  }

  /** The present numbers of a numeric column, in row order. */
  function Numbers(col: seq<Cell>): (xs: seq<real>)
    requires Numeric(col)
    ensures |xs| == |col| - Count(col, None)
    ensures xs == [] <==> forall i :: 0 <= i < |col| ==> col[i].None?
    ensures forall x :: x in xs <==> Some(Num(x)) in col
  {
    if col == [] then []
    else
      var init := col[..|col| - 1];
      var last := col[|col| - 1];
      assert col == init + [last];
      Numbers(init) + (if last.Some? then [last.value.x] else [])
  }

  /** Counting one more element adds one exactly when it is the value counted. */
  lemma CountAppend<T>(s: seq<T>, y: T, x: T)
    ensures Count(s + [y], x) == Count(s, x) + (if y == x then 1 else 0)
  {
    assert (s + [y])[..|s|] == s;
  }

  /** Each number occurs among the present numbers as often as it occurs in the column, so the
      mean and the median see every present value with its multiplicity. */
  lemma {:induction false} NumbersCount(col: seq<Cell>, x: real)
    requires Numeric(col)
    ensures Count(Numbers(col), x) == Count(col, Some(Num(x)))
  {
    if col != [] {
      var init := col[..|col| - 1];
      var last := col[|col| - 1];
      assert col == init + [last];
      NumbersCount(init, x);
      CountAppend(init, last, Some(Num(x)));
      if last.Some? {
        CountAppend(Numbers(init), last.value.x, x);
      } else {
        assert Numbers(col) == Numbers(init) + [];
        assert Numbers(init) + [] == Numbers(init);
      }
    }
  }

  // ---------------------------------------------------------------- mode

  /** `v` is more frequent in `col` than `w`, or as frequent and not larger: the order in which
      `Series.mode` would list `v` before `w`. */
  predicate Beats(col: seq<Cell>, v: Value, w: Value)
  {
    var cv, cw := Count(col, Some(v)), Count(col, Some(w));
    cv > cw || (cv == cw && ValueLe(v, w))
  }

  lemma BeatsTotal(col: seq<Cell>, v: Value, w: Value)
    ensures Beats(col, v, w) || Beats(col, w, v)
  {
    ValueLeTotal(v, w);
  }

  lemma BeatsTransitive(col: seq<Cell>, u: Value, v: Value, w: Value)
    requires Beats(col, u, v) && Beats(col, v, w)
    ensures Beats(col, u, w)
  {
    if Count(col, Some(u)) == Count(col, Some(v)) == Count(col, Some(w)) {
      ValueLeTransitive(u, v, w);
    }
  }

  /** The value that beats every present value of `part`, frequencies taken in `col`. */
  function BestAmong(part: seq<Cell>, col: seq<Cell>): (m: Option<Value>)
    ensures m.None? <==> forall i :: 0 <= i < |part| ==> part[i].None?
    ensures m.Some? ==> Some(m.value) in part
  {
    if part == [] then None
    else
      var best := BestAmong(part[..|part| - 1], col);
      var last := part[|part| - 1];
      assert part == part[..|part| - 1] + [last];
      if last.None? then best
      else if best.None? || !Beats(col, best.value, last.value) then Some(last.value)
      else best
  }

  /** `col.mode()[0]`, or None where pandas' mode is empty (a column without values). */
  function Mode(col: seq<Cell>): (m: Option<Value>)
    ensures m.None? <==> forall i :: 0 <= i < |col| ==> col[i].None?
    ensures m.Some? ==> Some(m.value) in col
  {
    BestAmong(col, col)
  }

  lemma {:induction false} BestAmongBeatsAll(part: seq<Cell>, col: seq<Cell>)
    ensures BestAmong(part, col).Some? ==>
              forall i :: 0 <= i < |part| && part[i].Some? ==>
                Beats(col, BestAmong(part, col).value, part[i].value)
  {
    if part != [] {
      var init := part[..|part| - 1];
      var last := part[|part| - 1];
      var best := BestAmong(init, col);
      BestAmongBeatsAll(init, col);
      var m := BestAmong(part, col);
      if m.Some? {
        forall i | 0 <= i < |part| && part[i].Some?
          ensures Beats(col, m.value, part[i].value)
        {
          if i < |part| - 1 {
            assert part[i] == init[i];
            if m != best {
              BeatsTotal(col, best.value, last.value);
              BeatsTransitive(col, last.value, best.value, part[i].value);
            }
          } else {
            BeatsTotal(col, m.value, m.value);
            if m != Some(last.value) {
              assert Beats(col, best.value, last.value);
            }
          }
        }
      }
    }
  }

  /** The mode is a most frequent present value, and the smallest of those that are equally
      frequent; it is None exactly when the column has no value. */
  lemma ModeIsSmallestMostFrequent(col: seq<Cell>, i: nat)
    requires i < |col| && col[i].Some?
    ensures Mode(col).Some?
    ensures Count(col, Some(Mode(col).value)) >= Count(col, col[i])
    ensures Count(col, Some(Mode(col).value)) == Count(col, col[i]) ==> ValueLe(Mode(col).value, col[i].value)
  {
    BestAmongBeatsAll(col, col);
  }

  // ---------------------------------------------------------------- mean

  function Sum(xs: seq<real>): real
  {
    if xs == [] then 0.0 else Sum(xs[..|xs| - 1]) + xs[|xs| - 1]
  }

  function Min(xs: seq<real>): (m: real)
    requires xs != []
    ensures m in xs && forall x :: x in xs ==> m <= x
  {
    if |xs| == 1 then xs[0]
    else
      var rest := Min(xs[1..]);
      assert xs == [xs[0]] + xs[1..];
      if xs[0] <= rest then xs[0] else rest
  }

  function Max(xs: seq<real>): (m: real)
    requires xs != []
    ensures m in xs && forall x :: x in xs ==> x <= m
  {
    if |xs| == 1 then xs[0]
    else
      var rest := Max(xs[1..]);
      assert xs == [xs[0]] + xs[1..];
      if xs[0] >= rest then xs[0] else rest
  }

  /** `Series.mean()` over the present numbers, in exact arithmetic: it lies between the smallest
      and the largest value. */
  function Mean(xs: seq<real>): (m: real)
    requires xs != []
    ensures Min(xs) <= m <= Max(xs)
  {
    SumBetween(xs, Min(xs), Max(xs));
    QuotientBetween(Sum(xs), |xs| as real, Min(xs), Max(xs));
    Sum(xs) / (|xs| as real)
  }

  lemma {:induction false} SumBetween(xs: seq<real>, lo: real, hi: real)
    requires forall x :: x in xs ==> lo <= x <= hi
    ensures (|xs| as real) * lo <= Sum(xs) <= (|xs| as real) * hi
  {
    if xs != [] {
      var init := xs[..|xs| - 1];
      assert forall x :: x in init ==> x in xs;
      SumBetween(init, lo, hi);
      assert xs[|xs| - 1] in xs;
    }
  }

  lemma QuotientBetween(total: real, n: real, lo: real, hi: real)
    requires n > 0.0 && n * lo <= total <= n * hi
    ensures lo <= total / n <= hi
  {
    var q := total / n;
    assert q * n == total;
  }

  // ---------------------------------------------------------------- median

  predicate Sorted(s: seq<real>)
  {
    forall i, j :: 0 <= i < j < |s| ==> s[i] <= s[j]
  }

  function Insert(x: real, s: seq<real>): (r: seq<real>)
    requires Sorted(s)
    ensures Sorted(r) && |r| == |s| + 1
    ensures forall y :: y in r ==> y == x || y in s
  {
    if s == [] || x <= s[0] then
      assert s == [] || forall k :: 0 <= k < |s| ==> s[0] <= s[k];
      [x] + s
    else
      var rest := Insert(x, s[1..]);
      assert s == [s[0]] + s[1..];
      assert forall k :: 0 <= k < |rest| ==> s[0] <= rest[k] by {
        forall k | 0 <= k < |rest|
          ensures s[0] <= rest[k]
        {
          assert rest[k] in rest;
        }
      }
      [s[0]] + rest
  }

  lemma {:induction false} InsertPermutes(x: real, s: seq<real>)
    requires Sorted(s)
    ensures multiset(Insert(x, s)) == multiset(s) + multiset{x}
  {
    if s != [] && x > s[0] {
      assert s == [s[0]] + s[1..];
      InsertPermutes(x, s[1..]);
    }
  }

  /** The values of `xs` in ascending order (`Series.median` sorts them). */
  function Sort(xs: seq<real>): (r: seq<real>)
    ensures Sorted(r) && |r| == |xs|
  {
    if xs == [] then []
    else Insert(xs[0], Sort(xs[1..]))
  }

  /** Sorting only reorders the values. */
  lemma {:induction false} SortPermutes(xs: seq<real>)
    ensures multiset(Sort(xs)) == multiset(xs)
  {
    if xs != [] {
      assert xs == [xs[0]] + xs[1..];
      SortPermutes(xs[1..]);
      InsertPermutes(xs[0], Sort(xs[1..]));
    }
  }

  /** The middle of a sorted sequence: its middle value, or the mean of its two middle values
      when its length is even. */
  function Middle(s: seq<real>): real
    requires s != []
  {
    var n := |s|;
    if n % 2 == 1 then s[n / 2] else (s[n / 2 - 1] + s[n / 2]) / 2.0
  }

  /** `Series.median()` over the present numbers: at least half of the values are at most it and
      at least half are at least it. */
  function Median(xs: seq<real>): (m: real)
    requires xs != []
    ensures 2 * CountSide(xs, m, true) >= |xs|
    ensures 2 * CountSide(xs, m, false) >= |xs|
  {
    var s := Sort(xs);
    SortPermutes(xs);
    MiddleSplitsInHalves(s);
    CountSidePermutation(xs, s, Middle(s), true);
    CountSidePermutation(xs, s, Middle(s), false);
    Middle(s)
  }

  predicate OnSide(x: real, m: real, below: bool)
  {
    if below then x <= m else m <= x
  }

  /** How many of `xs` are at most `m` (below) or at least `m` (not below). */
  function CountSide(xs: seq<real>, m: real, below: bool): nat
  {
    if xs == [] then 0
    else CountSide(xs[..|xs| - 1], m, below) + (if OnSide(xs[|xs| - 1], m, below) then 1 else 0)
  }

  lemma {:induction false} CountSideAppend(a: seq<real>, b: seq<real>, m: real, below: bool)
    ensures CountSide(a + b, m, below) == CountSide(a, m, below) + CountSide(b, m, below)
    decreases |b|
  {
    if b == [] {
      assert a + b == a;
    } else {
      var b' := b[..|b| - 1];
      assert (a + b)[..|a + b| - 1] == a + b';
      assert (a + b)[|a + b| - 1] == b[|b| - 1];
      CountSideAppend(a, b', m, below);
    }
  }

  lemma {:induction false} CountSideAll(xs: seq<real>, m: real, below: bool)
    requires forall k :: 0 <= k < |xs| ==> OnSide(xs[k], m, below)
    ensures CountSide(xs, m, below) == |xs|
  {
    if xs != [] {
      CountSideAll(xs[..|xs| - 1], m, below);
    }
  }

  /** Taking out the value at `k` leaves the others, as a multiset. */
  lemma RemoveAt(t: seq<real>, k: nat)
    requires k < |t|
    ensures multiset(t[..k] + t[k + 1..]) == multiset(t) - multiset{t[k]}
  {
    assert t == t[..k] + [t[k]] + t[k + 1..];
  }

  /** Taking out the value at `k` lowers the count by one exactly when that value is on the side. */
  lemma CountSideRemoveAt(t: seq<real>, k: nat, m: real, below: bool)
    requires k < |t|
    ensures CountSide(t, m, below) ==
              CountSide(t[..k] + t[k + 1..], m, below) + (if OnSide(t[k], m, below) then 1 else 0)
  {
    assert t == t[..k] + [t[k]] + t[k + 1..];
    CountSideAppend(t[..k], [t[k]], m, below);
    CountSideAppend(t[..k] + [t[k]], t[k + 1..], m, below);
    CountSideAppend(t[..k], t[k + 1..], m, below);
    assert CountSide([t[k]], m, below) == CountSide([], m, below) + (if OnSide(t[k], m, below) then 1 else 0);
  }

  lemma {:induction false} CountSidePermutation(s: seq<real>, t: seq<real>, m: real, below: bool)
    requires multiset(s) == multiset(t)
    ensures CountSide(s, m, below) == CountSide(t, m, below)
    decreases |s|
  {
    if s == [] {
      assert |t| == |multiset(t)| == 0;
    } else {
      var n := |s| - 1;
      var x := s[n];
      RemoveAt(s, n);
      assert s[..n] + s[n + 1..] == s[..n];
      assert x in multiset(t);
      var k :| 0 <= k < |t| && t[k] == x;
      RemoveAt(t, k);
      CountSidePermutation(s[..n], t[..k] + t[k + 1..], m, below);
      CountSideRemoveAt(t, k, m, below);
    }
  }

  /** In a sorted sequence, if the slice `lo..hi` lies on one side of `m`, at least `hi - lo`
      values do. */
  lemma CountSideOfSlice(s: seq<real>, lo: nat, hi: nat, m: real, below: bool)
    requires lo <= hi <= |s|
    requires forall k :: lo <= k < hi ==> OnSide(s[k], m, below)
    ensures CountSide(s, m, below) >= hi - lo
  {
    assert s == s[..lo] + s[lo..hi] + s[hi..];
    CountSideAppend(s[..lo], s[lo..hi], m, below);
    CountSideAppend(s[..lo] + s[lo..hi], s[hi..], m, below);
    CountSideAll(s[lo..hi], m, below);
  }

  lemma MiddleSplitsInHalves(s: seq<real>)
    requires s != [] && Sorted(s)
    ensures 2 * CountSide(s, Middle(s), true) >= |s|
    ensures 2 * CountSide(s, Middle(s), false) >= |s|
  {
    var m := Middle(s);
    var n := |s|;
    if n % 2 == 1 {
      CountSideOfSlice(s, 0, n / 2 + 1, m, true);
      CountSideOfSlice(s, n / 2, n, m, false);
    } else {
      assert s[n / 2 - 1] <= s[n / 2];
      CountSideOfSlice(s, 0, n / 2, m, true);
      CountSideOfSlice(s, n / 2, n, m, false);
    }
  }
}
