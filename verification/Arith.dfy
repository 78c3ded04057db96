/** Integer facts shared by the models: scaling, division by an interval, powers of two. */
module Arith {
  lemma MulMono(a: int, b: int, c: int)
    requires a <= b && 0 <= c
    ensures a * c <= b * c
  {
  }

  lemma MulNext(i: int, j: int, c: int)
    requires i < j && 0 <= c
    ensures i * c + c <= j * c
  {
    MulMono(i + 1, j, c);
    assert (i + 1) * c == i * c + c;
  }

  lemma DivUnique(x: int, d: int, q: int)
    requires d > 0 && q * d <= x < (q + 1) * d
    ensures x / d == q && x % d == x - q * d
  {
    var p := x / d;
    assert x == d * p + x % d;
    assert p * d <= x < (p + 1) * d;
    if p < q { MulMono(p + 1, q, d); } else if p > q { MulMono(q + 1, p, d); }
  }

  lemma DivMono(x: int, y: int, d: int)
    requires d > 0 && x <= y
    ensures x / d <= y / d
  {
    assert x == d * (x / d) + x % d && y == d * (y / d) + y % d;
    if y / d < x / d { MulNext(y / d, x / d, d); }
  }

  lemma ModAdd(y: int, m: int, c: int)
    requires m > 0
    ensures (c * m + y) / m == c + y / m && (c * m + y) % m == y % m
  {
    assert y == m * (y / m) + y % m;
    assert (c + y / m) * m == c * m + y / m * m;
    DivUnique(c * m + y, m, c + y / m);
  }

  lemma MulMod(q: int, m: int)
    requires m > 0
    ensures q * m % m == 0 && q * m / m == q
  {
    ModAdd(0, m, q);
  }

  lemma DivSplit(x: int, m: int)
    requires m > 0
    ensures x == x / m * m + x % m
  {
  }

  lemma DivNat(x: nat, m: nat)
    requires m > 0
    ensures x / m >= 0
  {
    DivSplit(x, m);
    if x / m < 0 { MulMono(x / m, -1, m); }
  }

  lemma Distribute(a: int, b: int, c: int)
    ensures (a + b) * c == a * c + b * c
  {
  }

  lemma Associate(a: int, b: int, c: int)
    ensures a * (b * c) == a * b * c
  {
  }
}
