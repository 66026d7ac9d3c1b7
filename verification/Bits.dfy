/** Powers of two, shifts and bit counts of natural numbers. */
module Bits {

  type byte = x: nat | x < 256

  function Pow2(n: nat): (r: nat)
    ensures r >= 1
  {
    if n == 0 then 1 else 2 * Pow2(n - 1)
  }

  /** The shift e >> i. */
  function Shr(e: nat, i: nat): nat {
    Quotient(e, Pow2(i))
  }

  /** The shift e << i. */
  function Shl(e: nat, i: nat): nat {
    e * Pow2(i)
  }

  function Quotient(e: nat, d: nat): nat
    requires d > 0
  {
    e / d
  }

  function GetBit(e: nat, i: nat): nat {
    Shr(e, i) % 2
  }

  /** The number of significant bits. */
  function BitCount(e: nat): nat {
    if e == 0 then 0 else 1 + BitCount(e / 2)
  }

  function CeilDiv(a: nat, b: nat): nat
    requires b > 0
  {
    (a + b - 1) / b
  }

  lemma {:induction false} Pow2Add(a: nat, b: nat)
    ensures Pow2(a + b) == Pow2(a) * Pow2(b)
  {
    if a > 0 {
      Pow2Add(a - 1, b);
      assert Pow2(a) * Pow2(b) == 2 * (Pow2(a - 1) * Pow2(b));
    }
  }

  lemma {:induction false} Pow2Monotone(a: nat, b: nat)
    requires a <= b
    ensures Pow2(a) <= Pow2(b)
  {
    if a < b {
      Pow2Monotone(a, b - 1);
    }
  }

  lemma MulMonotone(x: int, y: int, d: int)
    requires x <= y && 0 <= d
    ensures x * d <= y * d
  {
    assert (y - x) * d >= 0;
  }

  lemma MulAssociative(x: int, y: int, z: int)
    ensures x * (y * z) == (x * y) * z
  {
  }

  lemma QuotientUnique(d: int, q: int, r: int, q': int, r': int)
    requires 0 <= r < d && 0 <= r' < d && q * d + r == q' * d + r'
    ensures q == q' && r == r'
  {
    assert (q + 1) * d == q * d + d;
    assert (q' + 1) * d == q' * d + d;
    if q < q' {
      MulMonotone(q + 1, q', d);
    } else if q' < q {
      MulMonotone(q' + 1, q, d);
    }
  }

  /** Quotient and remainder are determined by the division equation. */
  lemma DivModUnique(e: int, d: int, q: int, r: int)
    requires 0 <= r < d && e == q * d + r
    ensures e / d == q && e % d == r
  {
    QuotientUnique(d, q, r, e / d, e % d);
  }

  lemma DivDiv(e: nat, a: nat, b: nat)
    requires a > 0 && b > 0
    ensures a * b > 0 && e / a / b == e / (a * b)
  {
    var q, r := e / a, e % a;
    var s, t := q / b, q % b;
    NestedDivision(e, a, b, q, r, s, t);
    DivModUnique(e, a * b, s, t * a + r);
  }

  lemma NestedDivision(e: nat, a: nat, b: nat, q: nat, r: nat, s: nat, t: nat)
    requires e == q * a + r && r < a && q == s * b + t && t < b
    ensures 0 <= t * a + r < a * b && e == s * (a * b) + (t * a + r)
  {
    MulMonotone(t + 1, b, a);
    assert (t + 1) * a == t * a + a;
    assert q * a == (s * b) * a + t * a;
    assert (s * b) * a == s * (a * b);
  }

  lemma ShlShl(e: nat, i: nat, j: nat)
    ensures Shl(Shl(e, i), j) == Shl(e, i + j)
  {
    hide Pow2;
    Pow2Add(i, j);
    MulAssociative(e, Pow2(i), Pow2(j));
  }

  lemma ShlZero(e: nat)
    ensures Shl(e, 0) == e
  {
  }

  lemma ShrShr(e: nat, i: nat, j: nat)
    ensures Shr(Shr(e, i), j) == Shr(e, i + j)
  {
    Pow2Add(i, j);
    DivDiv(e, Pow2(i), Pow2(j));
  }

  /** A shift by one more place drops exactly the next bit. */
  lemma ShrStep(e: nat, i: nat)
    ensures Shr(e, i) == 2 * Shr(e, i + 1) + GetBit(e, i)
  {
    ShrShr(e, i, 1);
    assert Pow2(1) == 2 * Pow2(0);
  }

  lemma OneBitMore(e: nat)
    requires e > 0
    ensures BitCount(e) == 1 + BitCount(e / 2) && (e / 2 > 0 <==> BitCount(e / 2) > 0)
  {
  }

  lemma {:induction false} BitCountBound(e: nat)
    ensures e < Pow2(BitCount(e))
    ensures e > 0 ==> Pow2(BitCount(e) - 1) <= e
  {
    if e > 0 {
      BitCountBound(e / 2);
      OneBitMore(e);
      hide BitCount;
    }
  }

  lemma ShrZero(e: nat, i: nat)
    requires BitCount(e) <= i
    ensures Shr(e, i) == 0
  {
    BitCountBound(e);
    Pow2Monotone(BitCount(e), i);
    DivModUnique(e, Pow2(i), 0, e);
  }

  lemma ShrPositive(e: nat, i: nat)
    requires i < BitCount(e)
    ensures Shr(e, i) >= 1
  {
    BitCountBound(e);
    Pow2Monotone(i, BitCount(e) - 1);
    DivPositive(e, Pow2(i));
  }

  lemma DivPositive(e: nat, d: nat)
    requires 0 < d <= e
    ensures e / d >= 1
  {
    assert e == e / d * d + e % d;
  }

  lemma NextProduct(n: int, w: int)
    ensures (n + 1) * w == n * w + w
  {
  }

  // ----- bitwise exclusive or

  function Xor(a: nat, b: nat): nat
    decreases a + b
  {
    if a == 0 && b == 0 then 0 else 2 * Xor(a / 2, b / 2) + (a + b) % 2
  }

  lemma {:induction false} XorBelow(a: nat, b: nat, n: nat)
    requires a < Pow2(n) && b < Pow2(n)
    ensures Xor(a, b) < Pow2(n)
  {
    if n > 0 {
      XorBelow(a / 2, b / 2, n - 1);
    }
  }

  /** Every bit is set when exactly one of the two is set. */
  lemma {:induction false} XorBit(a: nat, b: nat, i: nat)
    ensures GetBit(Xor(a, b), i) == (GetBit(a, i) + GetBit(b, i)) % 2
  {
    hide *;
    XorHalf(a, b);
    if i == 0 {
      LowestBit(a);
      LowestBit(b);
      LowestBit(Xor(a, b));
    } else {
      XorBit(a / 2, b / 2, i - 1);
      NextBitUp(a, i - 1);
      NextBitUp(b, i - 1);
      NextBitUp(Xor(a, b), i - 1);
    }
  }

  lemma XorHalf(a: nat, b: nat)
    ensures Xor(a, b) % 2 == (a + b) % 2 && Xor(a, b) / 2 == Xor(a / 2, b / 2)
  {
    var x, half := Xor(a, b), Xor(a / 2, b / 2);
    assert x == 2 * half + (a + b) % 2;
    hide *;
    DivModUnique(x, 2, half, (a + b) % 2);
  }

  lemma LowestBit(e: nat)
    ensures GetBit(e, 0) == e % 2
  {
  }

  lemma NextBitUp(e: nat, i: nat)
    ensures GetBit(e, i + 1) == GetBit(e / 2, i)
  {
    assert Shr(e, 1) == e / 2 by {
      assert Pow2(1) == 2;
    }
    ShrShr(e, 1, i);
  }

  lemma {:induction false} XorZero(a: nat)
    ensures Xor(a, 0) == a
  {
    if a > 0 {
      XorZero(a / 2);
    }
  }

  /** The lowest bit is flipped. */
  lemma XorOne(a: nat)
    ensures Xor(a, 1) == if a % 2 == 0 then a + 1 else a - 1
  {
    XorZero(a / 2);
  }

  function Min(a: int, b: int): int {
    if a <= b then a else b
  }
}
