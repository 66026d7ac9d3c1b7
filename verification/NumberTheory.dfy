/** Primes, Fermat's little theorem and what they say about reducing exponents. */
module NumberTheory {
  import Bits
  import opened Divisibility

  ghost predicate Prime(p: int) {
    p > 1 && forall d :: 1 < d < p ==> !Divides(d, p)
  }

  function Power(b: int, e: nat): int {
    if e == 0 then 1 else b * Power(b, e - 1)
  }

  // ----- Euclid's lemma

  /** A prime that divides x*b for some x below it divides b. */
  lemma {:induction false} PrimeDividesSmall(p: int, x: int, b: int)
    requires Prime(p) && 0 < x < p && Divides(p, x * b)
    ensures Divides(p, b)
    decreases x
  {
    var q, r := p / x, p % x;
    assert p == q * x + r;
    if r == 0 {
      assert Cofactor(x, p, q);
      assert Divides(x, p);
      assert x == 1;
      assert x * b == b;
    } else {
      DividesSelf(p);
      DividesCombination(p, p, x * b, b, -q);
      assert b * p + -q * (x * b) == r * b by {
        assert b * p == b * (q * x) + b * r;
        assert b * (q * x) == q * (x * b);
        assert -q * (x * b) == -(q * (x * b));
      }
      PrimeDividesSmall(p, r, b);
    }
  }

  lemma PrimeDividesProduct(p: int, a: int, b: int)
    requires Prime(p) && Divides(p, a * b)
    ensures Divides(p, a) || Divides(p, b)
  {
    var q, r := a / p, a % p;
    assert a == q * p + r;
    if r == 0 {
      assert Cofactor(p, a, q);
    } else {
      assert Cofactor(p, p * (q * b), q * b);
      DividesCombination(p, a * b, p * (q * b), 1, -1);
      assert 1 * (a * b) + -1 * (p * (q * b)) == r * b by {
        assert a * b == (q * p) * b + r * b;
        assert (q * p) * b == p * (q * b);
      }
      PrimeDividesSmall(p, r, b);
    }
  }

  /** Two distinct primes that divide a number divide it together. */
  lemma DistinctPrimes(p: int, q: int, a: int)
    requires Prime(p) && Prime(q) && p != q && Divides(p, a) && Divides(q, a)
    ensures Divides(p * q, a)
  {
    var k :| Cofactor(p, a, k);
    PrimeDividesProduct(q, k, p);
    if Divides(q, p) {
      PrimeDividesPrime(q, p);
    }
    var j :| Cofactor(q, k, j);
    assert (j * q) * p == j * (p * q);
    assert Cofactor(p * q, a, j);
  }

  lemma PrimeDividesPrime(q: int, p: int)
    requires Prime(p) && Prime(q) && Divides(q, p)
    ensures p == q
  {
    var k :| Cofactor(q, p, k);
    if q > p {
      DividesSmall(q, p);
    }
  }

  // ----- the binomial theorem for 1 + a

  function Choose(n: nat, k: nat): nat {
    if k == 0 then 1 else if n == 0 then 0 else Choose(n - 1, k - 1) + Choose(n - 1, k)
  }

  lemma {:induction false} ChooseAbove(n: nat, k: nat)
    requires k > n
    ensures Choose(n, k) == 0
  {
    if n > 0 {
      ChooseAbove(n - 1, k - 1);
      ChooseAbove(n - 1, k);
    }
  }

  lemma {:induction false} ChooseAll(n: nat)
    ensures Choose(n, n) == 1
  {
    if n > 0 {
      ChooseAll(n - 1);
      ChooseAbove(n - 1, n);
    }
  }

  /** k*C(n, k) == n*C(n-1, k-1). */
  lemma {:induction false} Absorption(n: nat, k: nat)
    requires n > 0 && k > 0
    ensures k * Choose(n, k) == n * Choose(n - 1, k - 1)
  {
    if n == 1 {
      ChooseAbove(0, k);
      if k > 1 {
        ChooseAbove(0, k - 1);
      }
    } else {
      var c := Choose(n - 1, k);
      var d := Choose(n - 1, k - 1);
      Absorption(n - 1, k);
      if k > 1 {
        Absorption(n - 1, k - 1);
        assert d == Choose(n - 2, k - 2) + Choose(n - 2, k - 1);
      }
      var e := if k > 1 then Choose(n - 2, k - 2) else 0;
      var f := Choose(n - 2, k - 1);
      assert d == e + f;
      AbsorptionStep(n, k, c, d, e, f);
    }
  }

  lemma AbsorptionStep(n: nat, k: nat, c: nat, d: nat, e: nat, f: nat)
    requires k * c == (n - 1) * f && (k - 1) * d == (n - 1) * e && d == e + f
    ensures k * (d + c) == n * d
  {
    assert k * (d + c) == k * d + k * c;
    assert (k - 1) * d == k * d - d;
    assert (n - 1) * d == n * d - d;
    assert (n - 1) * d == (n - 1) * e + (n - 1) * f;
  }

  lemma PrimeDividesChoose(p: int, k: nat)
    requires Prime(p) && 0 < k < p
    ensures Divides(p, Choose(p, k))
  {
    Absorption(p, k);
    assert Cofactor(p, k * Choose(p, k), Choose(p - 1, k - 1));
    PrimeDividesSmall(p, k, Choose(p, k));
  }

  /** The sum of C(n, k)*a^k over k < j. */
  function BinomialSum(n: nat, a: int, j: nat): int {
    if j == 0 then 0 else BinomialSum(n, a, j - 1) + Choose(n, j - 1) * Power(a, j - 1)
  }

  lemma BinomialTerm(a: int, c: int, d: int, w: int, sum: int)
    ensures (d + c) * (a * w) + a * sum == c * (a * w) + a * (sum + d * w)
  {
    assert (d + c) * (a * w) == d * (a * w) + c * (a * w);
    assert d * (a * w) == a * (d * w);
    assert a * (sum + d * w) == a * sum + a * (d * w);
  }

  lemma {:induction false} BinomialSumStep(n: nat, a: int, j: nat)
    ensures BinomialSum(n + 1, a, j + 1) == BinomialSum(n, a, j + 1) + a * BinomialSum(n, a, j)
  {
    if j > 0 {
      BinomialSumStep(n, a, j - 1);
      assert Choose(n + 1, j) == Choose(n, j - 1) + Choose(n, j);
      BinomialTerm(a, Choose(n, j), Choose(n, j - 1), Power(a, j - 1), BinomialSum(n, a, j - 1));
    } else {
      assert BinomialSum(n + 1, a, 1) == BinomialSum(n + 1, a, 0) + 1 * Power(a, 0);
      assert BinomialSum(n, a, 1) == BinomialSum(n, a, 0) + 1 * Power(a, 0);
    }
  }

  lemma NoFurtherTerm(n: nat, a: int)
    ensures BinomialSum(n, a, n + 2) == BinomialSum(n, a, n + 1)
  {
    ChooseAbove(n, n + 1);
    assert BinomialSum(n, a, n + 2) == BinomialSum(n, a, n + 1) + 0 * Power(a, n + 1);
  }

  lemma Powers(a: int, n: nat)
    ensures Power(1 + a, n + 1) == Power(1 + a, n) + a * Power(1 + a, n)
  {
  }

  lemma {:induction false} BinomialTheorem(n: nat, a: int)
    ensures Power(1 + a, n) == BinomialSum(n, a, n + 1)
  {
    if n > 0 {
      hide BinomialSum, Choose;
      BinomialTheorem(n - 1, a);
      BinomialSumStep(n - 1, a, n);
      NoFurtherTerm(n - 1, a);
      Powers(a, n - 1);
    } else {
      assert BinomialSum(0, a, 1) == BinomialSum(0, a, 0) + 1 * Power(a, 0);
    }
  }

  lemma {:induction false} MiddleTermsVanish(p: int, a: int, j: nat)
    requires Prime(p) && 1 <= j <= p
    ensures Congruent(BinomialSum(p, a, j), 1, p)
  {
    if j == 1 {
      assert BinomialSum(p, a, 1) == BinomialSum(p, a, 0) + 1 * Power(a, 0);
      CongruentRefl(1, p);
    } else {
      MiddleTermsVanish(p, a, j - 1);
      PrimeDividesChoose(p, j - 1);
      DividesProduct(p, Choose(p, j - 1), Power(a, j - 1));
      DividesSum(p, BinomialSum(p, a, j - 1) - 1, Power(a, j - 1) * Choose(p, j - 1));
    }
  }

  lemma LastTerm(n: nat, a: int)
    ensures BinomialSum(n, a, n + 1) == BinomialSum(n, a, n) + Power(a, n)
  {
    ChooseAll(n);
    assert BinomialSum(n, a, n + 1) == BinomialSum(n, a, n) + Choose(n, n) * Power(a, n);
  }

  /** Modulo a prime p, only the outer terms of (1 + a)^p are left. */
  lemma FermatStep(p: int, a: int)
    requires Prime(p)
    ensures Congruent(Power(1 + a, p), 1 + Power(a, p), p)
  {
    BinomialTheorem(p, a);
    LastTerm(p, a);
    MiddleTermsVanish(p, a, p);
    CongruentRefl(Power(a, p), p);
    CongruentAdd(BinomialSum(p, a, p), 1, Power(a, p), Power(a, p), p);
  }

  /** Fermat's little theorem, for every base. */
  lemma {:induction false} Fermat(p: int, a: nat)
    requires Prime(p)
    ensures Congruent(Power(a, p), a, p)
  {
    if a == 0 {
      assert Power(0, p) == 0 * Power(0, p - 1);
      CongruentRefl(0, p);
    } else {
      Fermat(p, a - 1);
      FermatStep(p, a - 1);
      CongruentRefl(1, p);
      CongruentAdd(1, 1, Power(a - 1, p), a - 1, p);
      CongruentTrans(Power(a, p), 1 + Power(a - 1, p), a, p);
    }
  }

  // ----- exponents modulo p - 1

  lemma {:induction false} PowerAdd(b: int, d: nat, e: nat)
    ensures Power(b, d + e) == Power(b, d) * Power(b, e)
  {
    if d > 0 {
      PowerAdd(b, d - 1, e);
      assert b * (Power(b, d - 1) * Power(b, e)) == (b * Power(b, d - 1)) * Power(b, e);
    }
  }

  lemma {:induction false} PowerCongruent(a: int, b: int, e: nat, m: int)
    requires Congruent(a, b, m)
    ensures Congruent(Power(a, e), Power(b, e), m)
  {
    if e == 0 {
      CongruentRefl(1, m);
    } else {
      PowerCongruent(a, b, e - 1, m);
      CongruentMul(a, b, Power(a, e - 1), Power(b, e - 1), m);
    }
  }

  /** Modulo a prime, positive exponents can be changed by multiples of p - 1, whatever the base. */
  lemma {:induction false} PowerPeriod(p: int, a: nat, e: nat, t: nat)
    requires Prime(p) && e >= 1
    ensures e + t * (p - 1) >= 1
    ensures Congruent(Power(a, e + t * (p - 1)), Power(a, e), p)
  {
    if t == 0 {
      CongruentRefl(Power(a, e), p);
    } else {
      PowerPeriod(p, a, e, t - 1);
      var f: nat := e + (t - 1) * (p - 1);
      PeriodStep(p, a, f);
      Bits.NextProduct(t - 1, p - 1);
      CongruentTrans(Power(a, f + (p - 1)), Power(a, f), Power(a, e), p);
    }
  }

  lemma PeriodStep(p: int, a: nat, f: nat)
    requires Prime(p) && f >= 1
    ensures Congruent(Power(a, f + (p - 1)), Power(a, f), p)
  {
    PowerAdd(a, f - 1, p);
    PowerAdd(a, f - 1, 1);
    assert Power(a, 1) == a * Power(a, 0) == a;
    Fermat(p, a);
    CongruentRefl(Power(a, f - 1), p);
    CongruentMul(Power(a, f - 1), Power(a, f - 1), Power(a, p), a, p);
  }

  /** Modulo the product of two distinct primes, an exponent can be reduced modulo (p-1)(q-1) as
    long as the reduced exponent is not zero. */
  lemma ReduceExponent(p: int, q: int, a: nat, e: nat)
    requires Prime(p) && Prime(q) && p != q
    requires (p - 1) * (q - 1) > 0 && e % ((p - 1) * (q - 1)) != 0
    ensures Power(a, e % ((p - 1) * (q - 1))) % (p * q) == Power(a, e) % (p * q)
  {
    hide Power;
    TwoPeriods(0, p, q);
    var phi: nat := (p - 1) * (q - 1);
    var r, t := SplitExponent(e, phi);
    TwoPeriods(t, p, q);
    SamePower(p, q, a, r, e, t * (q - 1), t * (p - 1));
  }

  lemma SamePower(p: int, q: int, a: nat, r: nat, e: nat, s: nat, u: nat)
    requires Prime(p) && Prime(q) && p != q && p * q > 0 && r > 0
    requires e == r + s * (p - 1) && e == r + u * (q - 1)
    ensures Power(a, r) % (p * q) == Power(a, e) % (p * q)
  {
    hide Power;
    PowerPeriod(p, a, r, s);
    PowerPeriod(q, a, r, u);
    DistinctPrimes(p, q, Power(a, e) - Power(a, r));
    CongruentSameMod(Power(a, e), Power(a, r), p * q);
  }

  lemma SplitExponent(e: nat, phi: nat) returns (r: nat, t: nat)
    requires phi > 0
    ensures r == e % phi && e == r + t * phi
  {
    r, t := e % phi, e / phi;
  }

  lemma TwoPeriods(t: nat, p: int, q: int)
    requires p > 1 && q > 1
    ensures t * (q - 1) >= 0 && t * (p - 1) >= 0 && p * q > 0 && (p - 1) * (q - 1) > 0
    ensures t * ((p - 1) * (q - 1)) == (t * (q - 1)) * (p - 1) == (t * (p - 1)) * (q - 1)
  {
    AtLeastOnce(p - 1, q - 1);
    AtLeastOnce(p, q);
    Regroup(t, p - 1, q - 1);
  }

  lemma Regroup(t: int, x: int, y: int)
    ensures t * (x * y) == (t * y) * x == (t * x) * y
  {
  }
}
