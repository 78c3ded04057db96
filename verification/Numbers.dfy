/** Bytes as bits and as numbers, and numbers as bytes in either order. */
module Numbers {
  import opened Arith
  import opened Values

  // Bits of a byte.

  function Mask(k: nat): Octet
    requires k < 8
  {
    [1, 2, 4, 8, 16, 32, 64, 128][k]
  }

  predicate Bit(b: Octet, k: nat)
    requires k < 8
  {
    b & Mask(k) != 0
  }

  function BitOn(b: Octet, k: nat): Octet
    requires k < 8
  {
    b | Mask(k)
  }

  function BitOff(b: Octet, k: nat): Octet
    requires k < 8
  {
    b & !Mask(k)
  }

  lemma BitSet(b: Octet, k: nat, j: nat)
    requires k < 8 && j < 8
    ensures Bit(BitOn(b, k), j) <==> j == k || Bit(b, j)
  {
  }

  lemma BitClear(b: Octet, k: nat, j: nat)
    requires k < 8 && j < 8
    ensures Bit(BitOff(b, k), j) <==> j != k && Bit(b, j)
  {
  }

  lemma BitZero(k: nat)
    requires k < 8
    ensures !Bit(0, k)
  {
  }

  /** The mask of bit k is 1 shifted by k. */
  lemma MaskIs(k: nat)
    requires k < 8
    ensures Mask(k) == (1 as Octet) << k
  {
    if k < 4 {
      if k == 0 {} else if k == 1 {} else if k == 2 {} else {}
    } else {
      if k == 4 {} else if k == 5 {} else if k == 6 {} else {}
    }
  }

  /** So setting and clearing it is what the C expressions do. */
  lemma BitIs(b: Octet, k: nat)
    requires k < 8
    ensures BitOn(b, k) == b | ((1 as Octet) << k) && BitOff(b, k) == b & !((1 as Octet) << k)
    ensures Bit(b, k) <==> b & ((1 as Octet) << k) != 0
  {
    hide Mask;
    MaskIs(k);
  }

  // Numbers in the guest's byte order.

  datatype Endian = Little | Big

  function Power(w: nat): (p: nat)
    ensures p > 0
  {
    if w == 0 then 1 else 256 * Power(w - 1)
  }

  /** How many numbers the bits from i on can hold. */
  function Span(i: nat): nat
    requires i <= 8
    decreases 8 - i
  {
    if i == 8 then 1 else 2 * Span(i + 1)
  }

  /** The binary digits of n, put into the bits from i on. */
  function Digits(n: nat, i: nat): Octet
    requires i <= 8
    decreases 8 - i
  {
    if i == 8 then 0
    else if n % 2 == 1 then BitOn(Digits(n / 2, i + 1), i) else Digits(n / 2, i + 1)
  }

  /** The number in the bits from i on. */
  function Value(b: Octet, i: nat): nat
    requires i <= 8
    decreases 8 - i
  {
    if i == 8 then 0 else One(b, i) + 2 * Value(b, i + 1)
  }

  function ByteOf(n: nat): Octet { Digits(n, 0) }

  function Num(b: Octet): nat { Value(b, 0) }

  lemma {:induction false} DigitsAbove(n: nat, i: nat, k: nat)
    requires k < i <= 8
    ensures !Bit(Digits(n, i), k)
    decreases 8 - i
  {
    hide Bit, BitOn;
    if i == 8 {
      BitZero(k);
    } else {
      DigitsAbove(n / 2, i + 1, k);
      BitSet(Digits(n / 2, i + 1), i, k);
    }
  }

  lemma {:induction false} ValueAbove(b: Octet, k: nat, i: nat)
    requires k < i <= 8
    ensures Value(BitOn(b, k), i) == Value(b, i)
    decreases 8 - i
  {
    hide Bit, BitOn;
    if i < 8 {
      BitSet(b, k, i);
      ValueAbove(b, k, i + 1);
    }
  }

  lemma {:induction false} ValueDigits(n: nat, i: nat)
    requires i <= 8 && n < Span(i)
    ensures Value(Digits(n, i), i) == n
    decreases 8 - i
  {
    hide Bit, BitOn;
    if i < 8 {
      var d := Digits(n / 2, i + 1);
      ValueDigits(n / 2, i + 1);
      DigitsAbove(n / 2, i + 1, i);
      BitSet(d, i, i);
      ValueAbove(d, i, i + 1);
    }
  }

  lemma NumByte(n: nat)
    requires n < 256
    ensures Num(ByteOf(n)) == n
  {
    hide Value, Digits;
    assert Span(6) == 4 && Span(3) == 32 && Span(0) == 256;
    ValueDigits(n, 0);
  }

  /** The number in a byte is the usual one: counting up the byte counts up the number. */
  lemma NumCounts(b: Octet)
    ensures Num(0) == 0 && (b != 255 ==> Num(b + 1) == Num(b) + 1)
  {
    NumSum(0);
    NumSum(b);
    NumSum(b + 1);
  }

  lemma NumSum(b: Octet)
    ensures Num(b) == One(b, 0) + 2 * One(b, 1) + 4 * One(b, 2) + 8 * One(b, 3)
                      + 16 * One(b, 4) + 32 * One(b, 5) + 64 * One(b, 6) + 128 * One(b, 7)
  {
    hide One;
    assert Value(b, 6) == One(b, 6) + 2 * One(b, 7);
    assert Value(b, 4) == One(b, 4) + 2 * One(b, 5) + 4 * Value(b, 6);
    assert Value(b, 2) == One(b, 2) + 2 * One(b, 3) + 4 * Value(b, 4);
  }

  function One(b: Octet, k: nat): nat
    requires k < 8
  {
    if Bit(b, k) then 1 else 0
  }

  /** The w bytes of n. */
  function Put(n: nat, w: nat, e: Endian): (s: seq<Octet>)
    ensures |s| == w
  {
    if w == 0 then []
    else if e.Little? then [ByteOf(n % 256)] + Put(n / 256, w - 1, e)
    else Put(n / 256, w - 1, e) + [ByteOf(n % 256)]
  }

  function Get(s: seq<Octet>, e: Endian): nat {
    if s == [] then 0
    else if e.Little? then Num(s[0]) + 256 * Get(s[1..], e)
    else Num(s[|s| - 1]) + 256 * Get(s[..|s| - 1], e)
  }

  /** Little endian begins with the low byte, big endian ends with it. */
  lemma {:induction false} PutAt(n: nat, w: nat, e: Endian, i: nat)
    requires i < w
    ensures Num(Put(n, w, e)[if e.Little? then i else w - 1 - i]) == n / Power(i) % 256
  {
    hide ByteOf, Num;
    NumByte(n % 256);
    if i > 0 {
      PutAt(n / 256, w - 1, e, i - 1);
      DivDiv(n, Power(i - 1));
    }
  }

  lemma DivDiv(n: nat, p: nat)
    requires p > 0
    ensures n / 256 / p == n / (256 * p)
  {
    var q := n / (256 * p);
    DivSplit(n, 256 * p);
    var m := n / 256;
    assert p * q * 256 == 256 * p * q;
    assert p * q <= m < p * q + p;
    DivUnique(m, p, q);
  }

  lemma {:induction false} GetPut(n: nat, w: nat, e: Endian)
    requires n < Power(w)
    ensures Get(Put(n, w, e), e) == n
  {
    hide ByteOf, Num;
    if w > 0 {
      NumByte(n % 256);
      GetPut(n / 256, w - 1, e);
      var s := Put(n, w, e);
      if e.Little? {
        assert s[1..] == Put(n / 256, w - 1, e);
      } else {
        assert s[..w - 1] == Put(n / 256, w - 1, e);
      }
    }
  }

  lemma Powers()
    ensures Power(4) == 0x1_0000_0000 && Power(8) == 0x1_0000_0000_0000_0000
  {
    assert Power(2) == 0x1_0000;
    assert Power(6) == 0x1_0000_0000_0000;
  }
}
