/** Greatest common divisors and modular inverses over the integers, by Euclid's algorithm on
  rotating three-element buffers: 3rdParty/cryptopp890/algebra.cpp, lines 56-88.
*/
module QuotientRing {
  import opened Divisibility

  predicate IsUnit(a: int) {
    a == 1 || a == -1
  }

  /** Some multiple of a is 1 modulo m. */
  ghost predicate Invertible(a: int, m: int) {
    exists v :: Congruent(v * a, 1, m)
  }

  ghost predicate CommonDivisor(d: int, a: int, b: int) {
    Divides(d, a) && Divides(d, b)
  }

  lemma DivisionKeepsDivisors(d: int, a: int, b: int)
    requires b != 0
    ensures CommonDivisor(d, a, b) <==> CommonDivisor(d, b, a % b)
  {
    var q, r := a / b, a % b;
    assert a == q * b + r;
    if CommonDivisor(d, a, b) {
      DividesCombination(d, a, b, 1, -q);
      assert 1 * a + -q * b == r;
    }
    if CommonDivisor(d, b, r) {
      DividesCombination(d, b, r, q, 1);
    }
  }

  /** The result is a common divisor, and every common divisor divides it. */
  method Gcd(a: int, b: int) returns (result: int)
    ensures CommonDivisor(result, a, b)
    ensures forall d :: CommonDivisor(d, a, b) ==> Divides(d, result)
  {
    var g := new int[3][b, a, 0];
    var i0, i1, i2 := 0, 1, 2;
    while g[i1] != 0
      invariant g.Length == 3 && {i0, i1, i2} == {0, 1, 2}
      invariant forall d :: CommonDivisor(d, a, b) <==> CommonDivisor(d, g[i0], g[i1])
      decreases if g[i1] < 0 then -g[i1] else g[i1]
    {
      ghost var x, y := g[i0], g[i1];
      g[i2] := g[i0] % g[i1];
      i0, i1, i2 := i1, i2, i0;
      forall d ensures CommonDivisor(d, x, y) <==> CommonDivisor(d, g[i0], g[i1]) {
        DivisionKeepsDivisors(d, x, y);
      }
    }
    result := g[i0];
    DividesSelf(result);
    assert CommonDivisor(result, g[i0], g[i1]);
  }

  lemma StepKeepsCongruence(a: int, m: int, g0: int, v0: int, g1: int, v1: int, y: int, g2: int)
    requires Congruent(v0 * a, g0, m) && Congruent(v1 * a, g1, m) && g0 == y * g1 + g2
    ensures Congruent((v0 - v1 * y) * a, g2, m)
  {
    DividesCombination(m, v0 * a - g0, v1 * a - g1, 1, -y);
    assert (v0 - v1 * y) * a - g2 == 1 * (v0 * a - g0) + -y * (v1 * a - g1) by {
      assert (v0 - v1 * y) * a == v0 * a - (v1 * y) * a;
      assert (v1 * y) * a == y * (v1 * a);
      assert -y * (v1 * a - g1) == -(y * (v1 * a)) + y * g1;
    }
  }

  /** If some multiple of a is 1 modulo m, a common divisor of a and m is a unit. */
  lemma InvertibleHasUnitDivisor(d: int, a: int, m: int)
    requires CommonDivisor(d, m, a) && Invertible(a, m)
    ensures IsUnit(d)
  {
    var v :| Congruent(v * a, 1, m);
    var k :| Cofactor(m, v * a - 1, k);
    DividesCombination(d, a, m, v, -k);
    assert v * a + -k * m == 1;
    DividesOne(d);
  }

  /** What the loop keeps of the two current remainders g0, g1 and their multipliers v0, v1. */
  ghost predicate Keeps(m: int, a: int, g0: int, g1: int, v0: int, v1: int) {
    && Congruent(v0 * a, g0, m) && Congruent(v1 * a, g1, m)
    && (forall d :: CommonDivisor(d, m, a) <==> CommonDivisor(d, g0, g1))
    && (-m < a < m ==> -m < g1 < m)
    && (!(-m < a < m) ==> (g0 == m && g1 == a) || (g0 == a && g1 == m))
  }

  lemma KeepsStart(m: int, a: int)
    ensures Keeps(m, a, m, a, 0, 1)
  {
    assert Cofactor(m, 0 * a - m, -1);
    CongruentRefl(a, m);
  }

  lemma KeepsStep(m: int, a: int, g0: int, g1: int, v0: int, v1: int)
    requires m > 1 && Keeps(m, a, g0, g1, v0, v1) && g1 % m != 0
    ensures g1 != 0 && 0 <= g0 % g1 < (if g1 < 0 then -g1 else g1)
    ensures Keeps(m, a, g1, g0 % g1, v1, v0 - v1 * (g0 / g1))
  {
    hide CommonDivisor, Congruent;
    RemainderUnique(0, m, 0, 0);
    var y, g2 := g0 / g1, g0 % g1;
    StepKeepsCongruence(a, m, g0, v0, g1, v1, y, g2);
    forall d ensures CommonDivisor(d, m, a) <==> CommonDivisor(d, g1, g2) {
      DivisionKeepsDivisors(d, g0, g1);
    }
    RangeStep(m, a, g0, g1);
  }

  lemma RangeStep(m: int, a: int, g0: int, g1: int)
    requires m > 1 && g1 % m != 0
    requires -m < a < m ==> -m < g1 < m
    requires !(-m < a < m) ==> (g0 == m && g1 == a) || (g0 == a && g1 == m)
    ensures -m < a < m ==> -m < g0 % g1 < m
    ensures !(-m < a < m) ==> g1 == a && g0 % g1 == m
  {
    RemainderUnique(0, m, 0, 0);
    if -m < a < m {
      RemainderRange(g0, g1);
    } else {
      RemainderUnique(m, m, 1, 0);
      RemainderUnique(-m, m, -1, 0);
      assert g1 == a;
      RemainderUnique(m, a, 0, m);
    }
  }

  lemma RemainderRange(x: int, d: int)
    requires d != 0
    ensures 0 <= x % d < (if d < 0 then -d else d)
  {
  }

  /** What the loop leaves behind: g0 divides both inputs, and is congruent to v0*a. */
  lemma KeepsEnd(m: int, a: int, g0: int, g1: int, v0: int, v1: int)
    requires m > 1 && Keeps(m, a, g0, g1, v0, v1) && g1 % m == 0
    ensures -m < a < m && IsUnit(g0) ==> Congruent(v0 / g0 * a, 1, m)
    ensures -m < a < m && !IsUnit(g0) ==> !Invertible(a, m)
    ensures !(-m < a < m) ==> !IsUnit(g0)
  {
    if -m < a < m {
      SmallMultiple(g1 / m, m);
      DividesSelf(g0);
      assert CommonDivisor(g0, g0, g1);
      if Invertible(a, m) {
        InvertibleHasUnitDivisor(g0, a, m);
      }
      if g0 == -1 {
        DividesProduct(m, v0 * a - g0, -1);
        assert v0 / g0 * a - 1 == -1 * (v0 * a - g0);
      }
    }
  }

  /** An inverse of a when it has one, zero otherwise. */
  ghost predicate RightAnswer(m: int, a: int, result: int) {
    if Invertible(a, m) then Congruent(result * a, 1, m) else result == 0
  }

  lemma ZeroIsNoInverse(m: int, a: int)
    requires m > 1
    ensures !Congruent(0 * a, 1, m)
  {
    if Congruent(0 * a, 1, m) {
      DividesSmall(m, 0 * a - 1);
    }
  }

  /** Modulo m, for a in (-m, m): an inverse of a, or zero when a has none.  Zero whenever a is
    outside that range, since the loop then stops at the modulus, which is zero modulo itself. */
  method MultiplicativeInverse(m: int, a: int) returns (result: int)
    requires m > 1
    ensures -m < a < m && Invertible(a, m) ==> Congruent(result * a, 1, m)
    ensures -m < a < m && !Invertible(a, m) ==> result == 0
    ensures !(-m < a < m) ==> result == 0
    ensures RightAnswer(m, a, result) <==> -m < a < m || !Invertible(a, m)
  {
    ZeroIsNoInverse(m, a);
    var g := new int[3][m, a, 0];
    var v := new int[3][0, 1, 0];
    var i0, i1, i2 := 0, 1, 2;
    KeepsStart(m, a);
    while (g[i1] - 0) % m != 0
      invariant g.Length == v.Length == 3 && {i0, i1, i2} == {0, 1, 2}
      invariant Keeps(m, a, g[i0], g[i1], v[i0], v[i1])
      decreases if g[i1] < 0 then -g[i1] else g[i1]
    {
      KeepsStep(m, a, g[i0], g[i1], v[i0], v[i1]);
      var y := g[i0] / g[i1];
      g[i2] := g[i0] % g[i1];
      v[i2] := v[i0] - v[i1] * y;
      i0, i1, i2 := i1, i2, i0;
    }
    KeepsEnd(m, a, g[i0], g[i1], v[i0], v[i1]);
    result := if IsUnit(g[i0]) then v[i0] / g[i0] else 0;
  }

  /** An element outside the range can have an inverse and still yield zero. */
  lemma UnreducedElement()
    ensures Invertible(8, 7) && !(-7 < 8 < 7) && !Congruent(0 * 8, 1, 7)
  {
    assert Cofactor(7, 1 * 8 - 1, 1);
    assert Congruent(1 * 8, 1, 7);
    if Congruent(0 * 8, 1, 7) {
      DividesSmall(7, 0 * 8 - 1);
    }
  }
}
