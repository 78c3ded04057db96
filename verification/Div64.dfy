/** 64-by-64-bit division through a 64-by-32-bit one (kvm-kmod-3.16/external-module-compat.c). */
module Div64 {
  import Arith

  const TWO32: nat := 0x1_0000_0000
  const TWO64: nat := 0x1_0000_0000_0000_0000

  function Pow2(n: nat): (p: nat)
    ensures p > 0
  {
    if n == 0 then 1 else 2 * Pow2(n - 1)
  }

  /** fls: the number of the highest set bit, counted from 1. */
  function Fls(x: nat): (n: nat)
    ensures x < Pow2(n) && (x > 0 ==> n > 0 && Pow2(n - 1) <= x)
  {
    if x == 0 then 0 else 1 + Fls(x / 2)
  }

  /** How far div64_u64 shifts both operands. */
  function Shift(divisor: nat): nat { Fls(divisor / TWO32) }

  function Shr(n: nat, s: nat): nat {
    Arith.DivNat(n, Pow2(s));
    n / Pow2(s)
  }

  /** The 32-bit divisor. */
  function Short(divisor: nat): (d: nat)
    requires divisor > 0
    ensures 0 < d < TWO32
  {
    if divisor < TWO32 then divisor
    else
      ShiftedDivisor(divisor);
      Shr(divisor, Shift(divisor))
  }

  /** div64_u64. */
  function DivU64(dividend: nat, divisor: nat): nat
    requires divisor > 0
  {
    if divisor / TWO32 > 0 then DoDiv(Shr(dividend, Shift(divisor)), Short(divisor))
    else DoDiv(dividend, Short(divisor))
  }

  /** do_div. */
  function DoDiv(n: nat, d: nat): nat
    requires 0 < d < TWO32
  {
    Arith.DivNat(n, d);
    n / d
  }

  lemma PowSum(m: nat, n: nat)
    ensures Pow2(m + n) == Pow2(m) * Pow2(n)
  {
    if m > 0 {
      PowSum(m - 1, n);
      assert Pow2(m + n) == 2 * Pow2(m + n - 1);
    }
  }

  lemma PowMono(m: nat, n: nat)
    requires m <= n
    ensures Pow2(m) <= Pow2(n)
  {
    if m < n {
      PowMono(m, n - 1);
    }
  }

  lemma Pow32()
    ensures Pow2(31) == 0x8000_0000 && Pow2(32) == TWO32
  {
    assert Pow2(4) == 16;
    PowSum(4, 4);
    PowSum(8, 8);
    PowSum(16, 8);
    PowSum(24, 4);
    PowSum(28, 3);
  }

  /** The shifted divisor fits 32 bits and has its highest bit set. */
  lemma ShiftedDivisor(divisor: nat)
    requires TWO32 <= divisor
    ensures Shift(divisor) > 0 && 0x8000_0000 <= Shr(divisor, Shift(divisor)) < TWO32
  {
    var high := divisor / TWO32;
    var s := Fls(high);
    Pow32();
    PowSum(32, s);
    PowSum(31, s);
    PowSum(32, s - 1);
    // divisor < (high + 1) * 2^32 <= 2^(32+s) and divisor >= high * 2^32 >= 2^(31+s)
    Arith.MulMono(high + 1, Pow2(s), TWO32);
    Arith.MulMono(Pow2(s - 1), high, TWO32);
    assert divisor < (high + 1) * TWO32;
    DivRange(divisor, Pow2(s), Pow2(31), TWO32);
  }

  lemma DivRange(n: nat, m: nat, lo: nat, hi: nat)
    requires m > 0 && lo * m <= n < hi * m
    ensures lo <= n / m < hi
  {
    var q := n / m;
    Arith.DivSplit(n, m);
    if q < lo {
      Arith.MulNext(q, lo, m);
    } else if q >= hi {
      Arith.MulMono(hi, q, m);
    }
  }

  /** Shifting both operands right and dividing is dividing by the shifted divisor shifted back. */
  lemma DivDiv(n: nat, m: nat, d: nat)
    requires m > 0 && d > 0
    ensures m * d > 0 && n / m / d == n / (m * d)
  {
    var q := n / m / d;
    Arith.MulMono(1, d, m);
    Arith.DivSplit(n, m);
    Arith.DivSplit(n / m, d);
    // q d <= n/m < (q + 1) d, hence q d m <= n < (q + 1) d m
    Arith.MulMono(q * d, n / m, m);
    Arith.MulMono(n / m + 1, (q + 1) * d, m);
    Rearrange(q, d, m);
    Rearrange(q + 1, d, m);
    Arith.DivUnique(n, m * d, q);
  }

  lemma Rearrange(q: int, d: int, m: int)
    ensures q * d * m == q * (m * d)
  {
  }

  /** If (q + 1) e <= big, dividing by big instead of big + e is off by one at most, and upwards. */
  lemma OffByOne(n: nat, big: nat, e: nat)
    requires big > 0 && (n / (big + e) + 1) * e <= big
    ensures n / (big + e) <= n / big <= n / (big + e) + 1
    ensures n / big == n / (big + e) <==> n < (n / (big + e) + 1) * big
  {
    var q := n / (big + e);
    Arith.DivSplit(n, big + e);
    Spread(q, big, e);
    Arith.Distribute(q, 1, e);
    Arith.Distribute(q, 1, big);
    Arith.Distribute(q + 1, 1, big);
    Between(n, big, e, q * big, q * e, n % (big + e));
    if n < (q + 1) * big {
      Arith.DivUnique(n, big, q);
    } else {
      Arith.DivUnique(n, big, q + 1);
    }
  }

  lemma Between(n: int, big: int, e: int, qBig: int, qE: int, rest: int)
    requires n == qBig + qE + rest && 0 <= rest < big + e && 0 <= qE && qE + e <= big
    ensures qBig <= n < qBig + big + big
  {
  }

  lemma Spread(q: int, a: int, b: int)
    ensures q * (a + b) == q * a + q * b
  {
  }

  /** The bits that the shift drops are few enough, for every 64-bit dividend. */
  lemma Dropped(n: nat, divisor: nat)
    requires n < TWO64 && TWO32 <= divisor < TWO64
    ensures (n / divisor + 1) * (divisor % Pow2(Shift(divisor))) <= divisor - divisor % Pow2(Shift(divisor))
  {
    var s := Shift(divisor);
    ShiftedDivisor(divisor);
    ShiftBound(divisor);
    PowSum(33 - s, s);
    PowSum(1, 32);
    Pow32();
    assert Pow2(s) == 2 * Pow2(s - 1);
    DroppedBy(n, divisor, Pow2(s), Pow2(33 - s));
  }

  lemma DroppedBy(n: nat, divisor: nat, m: nat, c: nat)
    requires n < TWO64 && m > 0 && m % 2 == 0 && 0x8000_0000 <= divisor / m && c * m == 0x2_0000_0000
    ensures (n / divisor + 1) * (divisor % m) <= divisor - divisor % m
  {
    Arith.DivSplit(divisor, m);
    Arith.MulMono(0x8000_0000, divisor / m, m);
    QuotientBound(n, divisor, m, c);
    SmallProduct(n / divisor + 1, m, divisor % m, divisor - divisor % m);
  }

  lemma SmallProduct(q: nat, m: nat, e: nat, big: nat)
    requires q * m <= 0x2_0000_0000 && e < m && m % 2 == 0 && big >= 0x8000_0000 * m
    ensures q * e <= big
  {
    if m == 2 {
      Arith.MulMono(e, 1, q);
      Comm(e, q);
    } else {
      Arith.MulMono(e, m, q);
      Comm(e, q);
      Comm(m, q);
    }
  }

  lemma ShiftBound(divisor: nat)
    requires TWO32 <= divisor < TWO64
    ensures 0 < Shift(divisor) <= 32
  {
    var s := Fls(divisor / TWO32);
    Pow32();
    if s > 32 {
      PowMono(32, s - 1);
    }
  }

  lemma Comm(a: int, b: int)
    ensures a * b == b * a
  {
  }

  lemma QuotientBound(n: nat, divisor: nat, m: nat, c: nat)
    requires n < TWO64 && m > 0 && 0x8000_0000 * m <= divisor && c * m == 0x2_0000_0000
    ensures (n / divisor + 1) * m <= 0x2_0000_0000
  {
    var q := n / divisor;
    Arith.DivSplit(n, divisor);
    Arith.MulMono(0x8000_0000 * m, divisor, q);
    Comm(divisor, q);
    assert 0x8000_0000 * m * q == 0x8000_0000 * (q * m) by { Comm(m, q); }
    if c <= q {
      Arith.MulMono(c, q, m);
    }
    Arith.MulMono(q + 1, c, m);
  }

  /** The result is the quotient or one more; it is the quotient just when the dividend is below the next multiple of
      the divisor without its dropped bits. */
  lemma QuotientOrOneMore(n: nat, divisor: nat)
    requires n < TWO64 && 0 < divisor < TWO64
    ensures DivU64(n, divisor) == n / divisor || DivU64(n, divisor) == n / divisor + 1
    ensures divisor < TWO32 ==> DivU64(n, divisor) == n / divisor
    ensures DivU64(n, divisor) == n / divisor <==>
              divisor < TWO32 || n < (n / divisor + 1) * (divisor - divisor % Pow2(Shift(divisor)))
  {
    hide Shift, Pow2;
    if divisor >= TWO32 {
      Dropped(n, divisor);
      ShiftedDivisor(divisor);
      ShiftedQuotient(n, divisor, Pow2(Shift(divisor)));
    }
  }

  lemma ShiftedQuotient(n: nat, divisor: nat, m: nat)
    requires m > 0 && divisor / m > 0 && divisor > 0
    requires (n / divisor + 1) * (divisor % m) <= divisor - divisor % m
    ensures n / divisor <= n / m / (divisor / m) <= n / divisor + 1
    ensures n / m / (divisor / m) == n / divisor <==> n < (n / divisor + 1) * (divisor - divisor % m)
  {
    Arith.DivSplit(divisor, m);
    Comm(divisor / m, m);
    DivDiv(n, m, divisor / m);
    OffByOne(n, divisor - divisor % m, divisor % m);
  }

  /** The bound is reached. */
  lemma Tight()
    ensures DivU64(0x2_0000_0000, 0x1_0000_0001) == 2 && 0x2_0000_0000 / 0x1_0000_0001 == 1
  {
    assert Fls(1) == 1;
  }
}
