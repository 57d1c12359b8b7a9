/** Cell values of a data frame, the order pandas sorts them in, and occurrence counts. */
module Cells {

  datatype Option<+T> = None | Some(value: T)

  /** The outcome of a step that may raise; usable with `:-`. */
  datatype Result<+T, +E> = Success(value: T) | Failure(error: E) {
    predicate IsFailure() { Failure? }

    function PropagateFailure<U>(): Result<U, E>
      requires Failure?
    {
      Failure(error)
    }

    function Extract(): T
      requires Success?
    {
      value
    }
  }

  /** A parsed CSV value: pandas reads numbers as numbers and keeps anything else as text. */
  datatype Value = Num(x: real) | Text(s: string)

  /** A cell of a column; None is pandas' missing value (NaN). */
  type Cell = Option<Value>

  /** Python's `<=` on `str`: lexicographic on code points. */
  predicate TextLe(a: string, b: string)
    decreases |a|
  {
    a == [] || (b != [] && (a[0] < b[0] || (a[0] == b[0] && TextLe(a[1..], b[1..]))))
  }

  /** The order `Series.mode` sorts its result in: numbers by value, text lexicographically
      (numbers before text for a mixed column). */
  predicate ValueLe(v: Value, w: Value)
  {
    match (v, w)
    case (Num(a), Num(b)) => a <= b
    case (Text(a), Text(b)) => TextLe(a, b)
    case (Num(_), Text(_)) => true
    case (Text(_), Num(_)) => false
  }

  lemma {:induction false} TextLeTotal(a: string, b: string)
    ensures TextLe(a, b) || TextLe(b, a)
    decreases |a|
  {
    if a != [] && b != [] && a[0] == b[0] {
      TextLeTotal(a[1..], b[1..]);
    }
  }

  lemma {:induction false} TextLeAntisymmetric(a: string, b: string)
    requires TextLe(a, b) && TextLe(b, a)
    ensures a == b
    decreases |a|
  {
    if a != [] && b != [] {
      TextLeAntisymmetric(a[1..], b[1..]);
      assert a == [a[0]] + a[1..] && b == [b[0]] + b[1..];
    }
  }

  lemma {:induction false} TextLeTransitive(a: string, b: string, c: string)
    requires TextLe(a, b) && TextLe(b, c)
    ensures TextLe(a, c)
    decreases |a|
  {
    if a != [] && b != [] && c != [] && a[0] == b[0] && b[0] == c[0] {
      TextLeTransitive(a[1..], b[1..], c[1..]);
    }
  }

  lemma ValueLeTotal(v: Value, w: Value)
    ensures ValueLe(v, w) || ValueLe(w, v)
  {
    if v.Text? && w.Text? {
      TextLeTotal(v.s, w.s);
    }
  }

  lemma ValueLeAntisymmetric(v: Value, w: Value)
    requires ValueLe(v, w) && ValueLe(w, v)
    ensures v == w
  {
    if v.Text? && w.Text? {
      TextLeAntisymmetric(v.s, w.s);
    }
  }

  lemma ValueLeTransitive(u: Value, v: Value, w: Value)
    requires ValueLe(u, v) && ValueLe(v, w)
    ensures ValueLe(u, w)
  {
    if u.Text? && v.Text? && w.Text? {
      TextLeTransitive(u.s, v.s, w.s);
    }
  }

  /** Number of occurrences of `x` in `s`. */
  function Count<T(==)>(s: seq<T>, x: T): (n: nat)
    ensures n <= |s|
    ensures n > 0 <==> x in s
  {
    if s == [] then 0
    else Count(s[..|s| - 1], x) + (if s[|s| - 1] == x then 1 else 0)
  }

  /** Fewer occurrences than elements: some element differs from `x`. */
  lemma {:induction false} CountBelowLength<T>(s: seq<T>, x: T) returns (i: nat)
    requires Count(s, x) < |s|
    ensures i < |s| && s[i] != x
  {
    if s[|s| - 1] != x {
      i := |s| - 1;
    } else {
      i := CountBelowLength(s[..|s| - 1], x);
    }
  }
}
