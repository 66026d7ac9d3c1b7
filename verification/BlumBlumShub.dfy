/** The Blum Blum Shub generator with random access: 3rdParty/cryptopp890/blumshub.cpp, lines 9-62. */
module BlumBlumShubGenerator {
  import opened Bits
  import opened Divisibility
  import opened NumberTheory

  // ----- the keystream, by its definition

  /** The value of the b-th block: x0 squared b+1 times. */
  ghost function BlockValue(x0: nat, n: nat, b: nat): nat
    requires n > 0
  {
    Power(x0, Pow2(b + 1)) % n
  }

  /** Keystream bit j: every block gives its maxBits low bits, high bit first. */
  ghost function StreamBit(x0: nat, n: nat, maxBits: nat, j: nat): nat
    requires n > 0 && maxBits > 0
  {
    GetBit(BlockValue(x0, n, j / maxBits), maxBits - 1 - j % maxBits)
  }

  /** Every block gives as many bits as the logarithm of the length of the modulus, rounded down. */
  ghost predicate Width(maxBits: nat, n: nat) {
    Pow2(maxBits) <= BitCount(n) < Pow2(maxBits + 1)
  }

  /** The number formed by k keystream bits from bit j on. */
  ghost function StreamBits(x0: nat, n: nat, maxBits: nat, j: nat, k: nat): (r: nat)
    requires n > 0 && maxBits > 0
    ensures r < Pow2(k)
  {
    if k == 0 then 0 else 2 * StreamBits(x0, n, maxBits, j, k - 1) + StreamBit(x0, n, maxBits, j + k - 1)
  }

  lemma SquareBlock(x0: nat, n: nat, b: nat)
    requires n > 0
    ensures BlockValue(x0, n, b) * BlockValue(x0, n, b) % n == BlockValue(x0, n, b + 1)
  {
    var e := Pow2(b + 1);
    assert Pow2(b + 2) == e + e;
    PowerAdd(x0, e, e);
    CongruentMod(Power(x0, e), n);
    CongruentMul(Power(x0, e), Power(x0, e) % n, Power(x0, e), Power(x0, e) % n, n);
    CongruentSameMod(Power(x0, e + e), BlockValue(x0, n, b) * BlockValue(x0, n, b), n);
  }

  lemma PowerOfTwo(e: nat)
    ensures Power(2, e) == Pow2(e)
  {
  }

  // ----- when the reduced exponent stands for the full one

  /** An odd divisor of a power of two is one. */
  lemma {:induction false} OddDivisorOfPow2(h: int, m: nat)
    requires h > 0 && h % 2 == 1 && Divides(h, Pow2(m))
    ensures h == 1
  {
    var k :| Cofactor(h, Pow2(m), k);
    if m == 0 {
      DividesOne(h);
    } else {
      HalfOfEven(k, h, Pow2(m - 1));
      assert Cofactor(h, Pow2(m - 1), k / 2);
      OddDivisorOfPow2(h, m - 1);
    }
  }

  lemma HalfOfEven(k: int, h: int, z: int)
    requires 2 * z == k * h && h % 2 == 1
    ensures z == k / 2 * h
  {
    var j := h / 2;
    assert k * h == 2 * (k * j) + k by {
      assert k * (2 * j + 1) == 2 * (k * j) + k;
    }
    assert k % 2 == 0;
    var l := k / 2;
    assert k * h == 2 * (l * h);
  }

  /** For distinct primes that are 3 modulo 4, no power of two is a multiple of (p-1)(q-1). */
  lemma BlumExponentNotZero(p: int, q: int, m: nat)
    requires p > 1 && q > 1 && p % 4 == 3 && q % 4 == 3 && p != q
    ensures (p - 1) * (q - 1) > 0 && Pow2(m) % ((p - 1) * (q - 1)) != 0
  {
    AtLeastOnce(p - 1, q - 1);
    if p > 3 {
      NoPowerIsMultiple(p, q, m);
    } else {
      assert (p - 1) * (q - 1) == (q - 1) * (p - 1);
      NoPowerIsMultiple(q, p, m);
    }
  }

  lemma NoPowerIsMultiple(x: int, y: int, m: nat)
    requires x > 3 && x % 4 == 3 && (x - 1) * (y - 1) > 0
    ensures Pow2(m) % ((x - 1) * (y - 1)) != 0
  {
    var h, phi := (x - 1) / 2, (x - 1) * (y - 1);
    if Pow2(m) % phi == 0 {
      ExactQuotient(Pow2(m), phi);
      assert Cofactor(h, x - 1, 2);
      DividesProduct(h, x - 1, y - 1);
      DividesProduct(h, phi, Pow2(m) / phi);
      OddDivisorOfPow2(h, m);
    }
  }

  lemma ExactQuotient(a: int, d: int)
    requires d > 0 && a % d == 0
    ensures a == a / d * d
  {
  }

  /** Seek reaches the m-th square of every base exactly when 2^m is not a multiple of (p-1)(q-1). */
  lemma SeekExponent(p: int, q: int, m: nat)
    requires Prime(p) && Prime(q) && p != q && m > 0
    ensures (p - 1) * (q - 1) > 0 && p * q > 0
    ensures (forall seed: nat :: SeekReaches(p, q, seed * seed % (p * q), m)) <==> Pow2(m) % ((p - 1) * (q - 1)) != 0
  {
    TwoPeriods(0, p, q);
    var phi := (p - 1) * (q - 1);
    if Pow2(m) % phi != 0 {
      forall seed: nat ensures SeekReaches(p, q, seed * seed % (p * q), m) {
        ReduceExponent(p, q, seed * seed % (p * q), Pow2(m));
      }
    } else {
      SeekMisses(p, q, p * p % (p * q), m);
      var seed: nat := p;
      assert !SeekReaches(p, q, seed * seed % (p * q), m);
    }
  }

  ghost predicate SeekReaches(p: int, q: int, x0: nat, m: nat)
    requires (p - 1) * (q - 1) > 0 && p * q > 0
  {
    Power(x0, Pow2(m) % ((p - 1) * (q - 1))) % (p * q) == Power(x0, Pow2(m)) % (p * q)
  }

  /** A base that p divides shows the failure: its power 0 is one, its other powers are multiples of p. */
  lemma SeekMisses(p: int, q: int, x0: nat, m: nat)
    requires Prime(p) && Prime(q) && (p - 1) * (q - 1) > 0 && p * q > 0
    requires Pow2(m) % ((p - 1) * (q - 1)) == 0 && x0 == p * p % (p * q)
    ensures !SeekReaches(p, q, x0, m)
  {
    var n, e := p * q, Pow2(m);
    assert Cofactor(p, p * p, p) && Cofactor(p, n, q);
    RemainderDivisible(p, p * p, n);
    assert Power(x0, e) == x0 * Power(x0, e - 1);
    DividesProduct(p, x0, Power(x0, e - 1));
    RemainderDivisible(p, Power(x0, e), n);
    AtLeastOnce(q, p);
    RemainderUnique(1, n, 0, 1);
    assert Power(x0, 0) == 1;
    if SeekReaches(p, q, x0, m) {
      DividesOne(p);
    }
  }

  /** A divisor of the number and of the modulus divides the remainder. */
  lemma RemainderDivisible(d: int, a: int, n: int)
    requires n > 0 && Divides(d, a) && Divides(d, n)
    ensures Divides(d, a % n)
  {
    var q, r := a / n, a % n;
    assert a == q * n + r;
    RemainderCombination(d, a, n, q, r);
  }

  lemma RemainderCombination(d: int, a: int, n: int, q: int, r: int)
    requires a == q * n + r && Divides(d, a) && Divides(d, n)
    ensures Divides(d, r)
  {
    DividesCombination(d, a, n, 1, -q);
  }

  lemma NoBits(x0: nat, n: nat, maxBits: nat, j: nat)
    requires n > 0 && maxBits > 0
    ensures StreamBits(x0, n, maxBits, j, 0) == 0
  {
  }

  /** One more bit of a byte. */
  lemma NextBit(x0: nat, n: nat, maxBits: nat, j: nat, k: nat)
    requires n > 0 && maxBits > 0 && k < 8
    ensures StreamBits(x0, n, maxBits, j, k + 1) == 2 * StreamBits(x0, n, maxBits, j, k) + StreamBit(x0, n, maxBits, j + k) < 256
  {
    hide StreamBit;
    assert Pow2(8) == 256 by {
      assert Pow2(4) == 16;
    }
    Pow2Monotone(k + 1, 8);
  }

  /** The bits of one block are the low bits of its square. */
  lemma BlockBits(x0: nat, n: nat, maxBits: nat, b: nat)
    requires n > 0 && maxBits > 0
    ensures b * maxBits >= 0
    ensures StreamBits(x0, n, maxBits, b * maxBits, maxBits) == BlockValue(x0, n, b) % Pow2(maxBits)
  {
    HighBits(x0, n, maxBits, b, maxBits);
    ShlZero(0);
    assert Shr(BlockValue(x0, n, b), 0) == BlockValue(x0, n, b);
  }

  lemma BlockBit(x0: nat, n: nat, maxBits: nat, b: nat, i: nat)
    requires n > 0 && i < maxBits
    ensures b * maxBits + i >= 0
    ensures StreamBit(x0, n, maxBits, b * maxBits + i) == GetBit(BlockValue(x0, n, b), maxBits - 1 - i)
  {
    RemainderUnique(b * maxBits + i, maxBits, b, i);
  }

  lemma {:induction false} HighBits(x0: nat, n: nat, maxBits: nat, b: nat, k: nat)
    requires n > 0 && k <= maxBits && maxBits > 0
    ensures b * maxBits >= 0
    ensures StreamBits(x0, n, maxBits, b * maxBits, k) == Shr(BlockValue(x0, n, b), maxBits - k) % Pow2(k)
  {
    if k > 0 {
      var value := BlockValue(x0, n, b);
      HighBits(x0, n, maxBits, b, k - 1);
      BlockBit(x0, n, maxBits, b, k - 1);
      ShrStep(value, maxBits - k);
      OneMoreBit(Shr(value, maxBits - k), Shr(value, maxBits - k + 1), GetBit(value, maxBits - k), Pow2(k - 1));
    }
  }

  lemma OneMoreBit(x: nat, high: nat, bit: nat, p: nat)
    requires x == 2 * high + bit && bit < 2 && p > 0
    ensures x % (2 * p) == 2 * (high % p) + bit
  {
    var q, r := high / p, high % p;
    assert high == q * p + r;
    assert q * (2 * p) == 2 * (q * p);
    DivModUnique(x, 2 * p, q, 2 * r + bit);
  }

  /** With 7 and 11 and seed 2 the squares are 16, 25, 9 and 4, and the first byte is 0x14: two bits of each. */
  lemma FirstByte(maxBits: nat)
    requires Width(maxBits, 7 * 11)
    ensures maxBits == 2 && StreamBits(2 * 2 % 77, 77, maxBits, 0, 8) == 0x14
  {
    hide *;
    TwoBits(maxBits);
    FourBlocks();
    NoBits(4, 77, 2, 0);
    TwoMoreBits(0, 0, 16);
    TwoMoreBits(1, 0, 25);
    TwoMoreBits(2, 1, 9);
    TwoMoreBits(3, 5, 4);
  }

  lemma FourBlocks()
    ensures BlockValue(4, 77, 0) == 16 && BlockValue(4, 77, 1) == 25 && BlockValue(4, 77, 2) == 9 && BlockValue(4, 77, 3) == 4
  {
    assert Power(4, 2) == 16 && Pow2(1) == 2;
    assert BlockValue(4, 77, 0) == 16;
    hide BlockValue;
    SquareBlock(4, 77, 0);
    SquareBlock(4, 77, 1);
    SquareBlock(4, 77, 2);
  }

  lemma TwoMoreBits(b: nat, before: nat, value: nat)
    requires b < 4 && BlockValue(4, 77, b) == value && StreamBits(4, 77, 2, 0, 2 * b) == before
    ensures StreamBits(4, 77, 2, 0, 2 * b + 2) == 4 * before + value % 4
  {
    LowBits(value);
    hide *;
    NextBit(4, 77, 2, 0, 2 * b);
    NextBit(4, 77, 2, 0, 2 * b + 1);
    BlockBit(4, 77, 2, b, 0);
    BlockBit(4, 77, 2, b, 1);
  }

  lemma LowBits(value: nat)
    ensures 2 * GetBit(value, 1) + GetBit(value, 0) == value % 4
  {
    assert GetBit(value, 1) == value / 2 % 2 && GetBit(value, 0) == value % 2;
  }

  lemma TwoBits(k: nat)
    requires Width(k, 77)
    ensures k == 2
  {
    assert BitCount(77) == 7 by {
      assert BitCount(77) == 3 + BitCount(9) && BitCount(9) == 4;
    }
    assert Pow2(2) == 4 && Pow2(3) == 8;
    hide Pow2, BitCount;
    if k > 2 {
      Pow2Monotone(3, k);
    } else if k < 2 {
      Pow2Monotone(k + 1, 2);
    }
  }

  // ----- the generator

  class BlumBlumShub {
    const p: int
    const q: int
    const n: nat
    const x0: nat
    const maxBits: nat
    var current: nat
    var bitsLeft: nat
    ghost var block: nat

    ghost predicate Valid()
      reads this
    {
      && n > 0 && maxBits > 0 && n == p * q && p > 1 && q > 1
      && Width(maxBits, n)
      && current == BlockValue(x0, n, block)
      && bitsLeft <= maxBits
    }

    /** How many keystream bits come before the next one. */
    ghost function Position(): nat
      requires Valid()
      reads this
    {
      block * maxBits + (maxBits - bitsLeft)
    }

    constructor (p: int, q: int, seed: int)
      requires p > 1 && q > 1
      ensures Valid() && this.p == p && this.q == q && Position() == 0
      ensures x0 == seed * seed % (p * q)
      ensures Pow2(maxBits) <= BitCount(p * q) < Pow2(maxBits + 1)
    {
      this.p, this.q := p, q;
      TwoPeriods(0, p, q);
      AtLeastOnce(p, q);
      var modulus: nat := p * q;
      n := modulus;
      var x: nat := seed * seed % modulus;
      x0 := x;
      current := x * x % modulus;
      var bits := BitCount(BitCount(modulus)) - 1;
      AtLeastTwoBits(modulus);
      BitCountBound(BitCount(modulus));
      maxBits := bits;
      bitsLeft := bits;
      block := 0;
      FirstBlock(x, modulus);
    }

    static lemma AtLeastTwoBits(n: nat)
      requires n >= 2
      ensures BitCount(BitCount(n)) >= 2
    {
      assert BitCount(n) == 1 + BitCount(n / 2) && BitCount(n / 2) == 1 + BitCount(n / 2 / 2);
      assert BitCount(BitCount(n)) == 1 + BitCount(BitCount(n) / 2);
      assert BitCount(n) / 2 >= 1;
    }

    static lemma FirstBlock(x: nat, n: nat)
      requires n > 0
      ensures x * x % n == BlockValue(x, n, 0)
    {
      assert Pow2(1) == 2 * Pow2(0);
      assert Power(x, 2) == x * Power(x, 1) && Power(x, 1) == x * Power(x, 0);
    }

    /** The next keystream bit. */
    method GenerateBit() returns (bit: nat)
      requires Valid()
      modifies this
      ensures Valid() && Position() == old(Position()) + 1
      ensures bit == StreamBit(x0, n, maxBits, old(Position()))
    {
      hide Width, BlockValue, Pow2;
      ghost var position := Position();
      if bitsLeft == 0 {
        SquareBlock(x0, n, block);
        current := current * current % n;
        bitsLeft := maxBits;
        block := block + 1;
      }
      assert position == block * maxBits + (maxBits - bitsLeft);
      RemainderUnique(position, maxBits, block, maxBits - bitsLeft);
      bitsLeft := bitsLeft - 1;
      bit := GetBit(current, bitsLeft);
    }

    method GenerateByte() returns (b: nat)
      requires Valid()
      modifies this
      ensures Valid() && Position() == old(Position()) + 8
      ensures b == StreamBits(x0, n, maxBits, old(Position()), 8) && b < 256
    {
      b := 0;
      ghost var position := Position();
      NoBits(x0, n, maxBits, position);
      hide StreamBits, StreamBit, BlockValue, Pow2, Width;
      for i := 0 to 8
        invariant Valid() && Position() == position + i
        invariant b == StreamBits(x0, n, maxBits, position, i) && (i == 8 ==> b < 256)
      {
        var bit := GenerateBit();
        NextBit(x0, n, maxBits, position, i);
        b := (b * 2 + bit) % 256;
      }
    }

    method GenerateBlock(output: array<nat>, size: nat)
      requires Valid() && size <= output.Length
      modifies this, output
      ensures Valid() && Position() == old(Position()) + 8 * size
      ensures forall i :: 0 <= i < size ==> output[i] == StreamBits(x0, n, maxBits, old(Position()) + 8 * i, 8)
      ensures forall i :: size <= i < output.Length ==> output[i] == old(output[i])
    {
      hide StreamBits, StreamBit, BlockValue, Pow2, Width;
      ghost var position := Position();
      for i := 0 to size
        invariant Valid() && Position() == position + 8 * i
        invariant forall k :: 0 <= k < i ==> output[k] == StreamBits(x0, n, maxBits, position + 8 * k, 8)
        invariant forall k :: size <= k < output.Length ==> output[k] == old(output[k])
      {
        var b := GenerateByte();
        output[i] := b;
      }
    }

    /** Jumps to byte index of the keystream: the bits generated from here on are those of a fresh generator
      after 8*index bits, if and only if the reduced exponent still reaches the right square. That holds
      for distinct primes unless the number of squarings makes the reduced exponent zero, and so always
      for distinct primes that are 3 modulo 4. */
    method Seek(index: nat)
      requires Valid()
      modifies this
      ensures (p - 1) * (q - 1) > 0 && p * q > 0
      ensures Valid() && Position() == 8 * index <==> SeekReaches(p, q, x0, Squarings(index, maxBits))
      ensures Prime(p) && Prime(q) && p != q && Pow2(Squarings(index, maxBits)) % ((p - 1) * (q - 1)) != 0 ==> Valid() && Position() == 8 * index
      ensures Prime(p) && Prime(q) && p != q && p % 4 == 3 && q % 4 == 3 ==> Valid() && Position() == 8 * index
    {
      hide Width, Prime;
      TwoPeriods(0, p, q);
      var i := 8 * index;
      var m := i / maxBits + 1;
      PowerOfTwo(m);
      var e := Power(2, m) % ((p - 1) * (q - 1));
      if Prime(p) && Prime(q) && p != q {
        SeekRight(p, q, x0, m);
      }
      current := Power(x0, e) % n;
      bitsLeft := maxBits - i % maxBits;
      block := i / maxBits;
      assert i == block * maxBits + i % maxBits;
    }
  }

  /** How often the first value is squared to reach a byte of the keystream. */
  function Squarings(index: nat, maxBits: nat): nat
    requires maxBits > 0
  {
    8 * index / maxBits + 1
  }

  lemma SeekRight(p: int, q: int, x0: nat, m: nat)
    requires Prime(p) && Prime(q) && p != q
    ensures (p - 1) * (q - 1) > 0 && p * q > 0
    ensures Pow2(m) % ((p - 1) * (q - 1)) != 0 ==> SeekReaches(p, q, x0, m)
    ensures p % 4 == 3 && q % 4 == 3 ==> SeekReaches(p, q, x0, m)
  {
    TwoPeriods(0, p, q);
    if p % 4 == 3 && q % 4 == 3 {
      BlumExponentNotZero(p, q, m);
    }
    if Pow2(m) % ((p - 1) * (q - 1)) != 0 {
      ReduceExponent(p, q, x0, Pow2(m));
    }
  }

  /** With 3 and 5, which are not both 3 modulo 4, and seed 3, a seek to byte 1 goes wrong: blocks give two bits,
    32 is a multiple of 8, and the base becomes 1 instead of a multiple of 3. */
  lemma SeekGoesWrong()
    ensures Prime(3) && Prime(5) && BitCount(BitCount(3 * 5)) - 1 == 2 && Squarings(1, 2) == 5
    ensures Pow2(5) % ((3 - 1) * (5 - 1)) == 0 && !SeekReaches(3, 5, 3 * 3 % (3 * 5), 5)
  {
    SmallPrimes();
    assert BitCount(15) == 4 && BitCount(4) == 3;
    assert Pow2(5) == 32;
    SeekMisses(3, 5, 9, 5);
  }

  lemma SmallPrimes()
    ensures Prime(3) && Prime(5)
  {
    forall d | 1 < d < 5 ensures !Divides(d, 5) && (d < 3 ==> !Divides(d, 3)) {
      RemainderUnique(5, 2, 2, 1);
      if k :| Cofactor(d, 5, k) {
        assert 5 == k * d;
        assert d == 2 || d == 3 || d == 4;
      }
      if k :| Cofactor(d, 3, k) {
        assert d >= 3 || d == 2;
      }
    }
  }
}
