/** What several models share. */
module Common {

  datatype Option<+T> = None | Some(value: T)

  type Byte = b: int | 0 <= b < 256
  type Bytes = seq<Byte>

  lemma Join<T>(a: seq<T>, b: seq<T>, c: seq<T>)
    ensures a + (b + c) == (a + b) + c
  {
  }

  lemma ProductGrows(a: int, b: int, n: int)
    requires a <= b && n > 0
    ensures a * n <= b * n && (a - 1) * n + n == a * n
  {
  }

  /** A quotient is the only number that leaves a proper remainder. */
  lemma DivisionIs(a: int, n: int, q: int, r: int)
    requires n > 0 && a == q * n + r && 0 <= r < n
    ensures a / n == q
  {
    var p := a / n;
    assert p * n <= a < p * n + n;
    if p < q { ProductGrows(p + 1, q, n); }
    if q < p { ProductGrows(q + 1, p, n); }
  }
}
