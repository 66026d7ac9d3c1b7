/** Divisibility and congruence of integers, with explicit cofactors. */
module Divisibility {

  ghost predicate Cofactor(d: int, a: int, k: int) {
    a == k * d
  }

  ghost predicate Divides(d: int, a: int) {
    exists k :: Cofactor(d, a, k)
  }

  ghost predicate Congruent(a: int, b: int, m: int) {
    Divides(m, a - b)
  }

  /** A divisor of both x and y divides every combination of them. */
  lemma DividesCombination(d: int, x: int, y: int, p: int, q: int)
    requires Divides(d, x) && Divides(d, y)
    ensures Divides(d, p * x + q * y)
  {
    var j :| Cofactor(d, x, j);
    var k :| Cofactor(d, y, k);
    Combine(d, j, k, p, q);
    assert Cofactor(d, p * x + q * y, p * j + q * k);
  }

  lemma Combine(d: int, j: int, k: int, p: int, q: int)
    ensures p * (j * d) + q * (k * d) == (p * j + q * k) * d
  {
    assert p * (j * d) == (p * j) * d;
    assert q * (k * d) == (q * k) * d;
  }

  lemma DividesProduct(d: int, x: int, k: int)
    requires Divides(d, x)
    ensures Divides(d, k * x)
  {
    DividesCombination(d, x, x, k, 0);
  }

  lemma DividesSum(d: int, x: int, y: int)
    requires Divides(d, x) && Divides(d, y)
    ensures Divides(d, x + y)
  {
    DividesCombination(d, x, y, 1, 1);
  }

  lemma DividesSelf(d: int)
    ensures Divides(d, d) && Divides(d, 0)
  {
    assert Cofactor(d, d, 1) && Cofactor(d, 0, 0);
  }

  lemma CongruentRefl(a: int, m: int)
    ensures Congruent(a, a, m)
  {
    DividesSelf(m);
  }

  lemma CongruentTrans(a: int, b: int, c: int, m: int)
    requires Congruent(a, b, m) && Congruent(b, c, m)
    ensures Congruent(a, c, m)
  {
    DividesSum(m, a - b, b - c);
  }

  lemma CongruentAdd(a: int, b: int, c: int, d: int, m: int)
    requires Congruent(a, b, m) && Congruent(c, d, m)
    ensures Congruent(a + c, b + d, m)
  {
    DividesSum(m, a - b, c - d);
    assert (a + c) - (b + d) == (a - b) + (c - d);
  }

  lemma CongruentMul(a: int, b: int, c: int, d: int, m: int)
    requires Congruent(a, b, m) && Congruent(c, d, m)
    ensures Congruent(a * c, b * d, m)
  {
    DividesCombination(m, a - b, c - d, c, b);
    assert a * c - b * d == c * (a - b) + b * (c - d);
  }

  lemma CongruentMod(a: int, m: int)
    requires m > 0
    ensures Congruent(a, a % m, m)
  {
    assert Cofactor(m, a - a % m, a / m);
  }

  /** Congruent values have the same remainder. */
  lemma CongruentSameMod(a: int, b: int, m: int)
    requires m > 0 && Congruent(a, b, m)
    ensures a % m == b % m
  {
    var k :| Cofactor(m, a - b, k);
    var q, r := b / m, b % m;
    assert a == k * m + (q * m + r);
    assert k * m + q * m == (k + q) * m;
    RemainderUnique(a, m, k + q, r);
  }

  lemma RemainderUnique(a: int, m: int, q: int, r: int)
    requires a == q * m + r && 0 <= r < (if m < 0 then -m else m)
    ensures a % m == r && a / m == q
  {
    var q', r' := a / m, a % m;
    assert a == q' * m + r';
    assert (q - q') * m == r' - r;
    assert -(q - q') * -m == r' - r;
    SmallMultiple(if m < 0 then -(q - q') else q - q', if m < 0 then -m else m);
  }

  lemma AtLeastOnce(k: int, m: int)
    requires k >= 1 && m >= 0
    ensures k * m >= m
  {
    assert (k - 1) * m >= 0;
  }

  /** A multiple strictly between -m and m is zero. */
  lemma SmallMultiple(k: int, m: int)
    requires -m < k * m < m
    ensures k == 0
  {
    assert -k * m == -(k * m);
    if k >= 1 {
      AtLeastOnce(k, m);
    } else if k <= -1 {
      AtLeastOnce(-k, m);
    }
  }

  lemma DividesSmall(d: int, a: int)
    requires d > 0 && Divides(d, a) && -d < a < d
    ensures a == 0
  {
    var k :| Cofactor(d, a, k);
    SmallMultiple(k, d);
  }

  /** The divisors of 1 are the two units. */
  lemma DividesOne(d: int)
    requires Divides(d, 1)
    ensures d == 1 || d == -1
  {
    var k :| Cofactor(d, 1, k);
    assert Cofactor(-d, 1, -k);
    if d > 1 {
      DividesSmall(d, 1);
    } else if d < -1 {
      DividesSmall(-d, 1);
    }
  }
}
