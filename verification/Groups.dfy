/** Groups given by their operations, and integer multiples of their elements.

  The fast multiplication algorithms are all stated against `Times`, which is
  plain repeated addition.  The group laws are kept behind the predicates
  `AssocAt`, `UnitAt` and `InverseAt`, so a proof names the instance it uses.
*/
module Groups {

  datatype Group<!T(!new)> = Group(id: T, add: (T, T) -> T, inv: T -> T) {

    ghost predicate AssocAt(x: T, y: T, z: T) {
      add(add(x, y), z) == add(x, add(y, z))
    }

    ghost predicate UnitAt(x: T) {
      add(id, x) == x && add(x, id) == x
    }

    ghost predicate InverseAt(x: T) {
      add(x, inv(x)) == id && add(inv(x), x) == id
    }

    ghost predicate Laws() {
      && (forall x, y, z :: AssocAt(x, y, z))
      && (forall x :: UnitAt(x))
      && (forall x :: InverseAt(x))
    }

    ghost predicate Commute(x: T, y: T) {
      add(x, y) == add(y, x)
    }

    ghost predicate Abelian() {
      Laws() && forall x, y :: Commute(x, y)
    }

    function Double(x: T): T {
      add(x, x)
    }
  }

  /** The integer multiple k*x, by repeated addition (of the inverse if k < 0). */
  ghost function Times<T(!new)>(g: Group<T>, k: int, x: T): T
    decreases if k < 0 then -k else k
  {
    if k == 0 then g.id
    else if k > 0 then g.add(Times(g, k - 1, x), x)
    else g.add(Times(g, k + 1, x), g.inv(x))
  }

  lemma TimesOne<T(!new)>(g: Group<T>, x: T)
    requires g.Laws()
    ensures Times(g, 1, x) == x
  {
    assert Times(g, 0, x) == g.id;
    assert g.UnitAt(x);
  }

  lemma TimesSucc<T(!new)>(g: Group<T>, k: int, x: T)
    requires g.Laws()
    ensures Times(g, k + 1, x) == g.add(Times(g, k, x), x)
  {
    if k < 0 {
      var t := Times(g, k + 1, x);
      assert Times(g, k, x) == g.add(t, g.inv(x));
      assert g.AssocAt(t, g.inv(x), x) && g.InverseAt(x) && g.UnitAt(t);
    }
  }

  lemma TimesPred<T(!new)>(g: Group<T>, k: int, x: T)
    requires g.Laws()
    ensures Times(g, k - 1, x) == g.add(Times(g, k, x), g.inv(x))
  {
    if k > 0 {
      var t := Times(g, k - 1, x);
      assert g.AssocAt(t, x, g.inv(x)) && g.InverseAt(x) && g.UnitAt(t);
    }
  }

  /** Multiples of one element add up, in any group. */
  lemma {:induction false} TimesAdd<T(!new)>(g: Group<T>, j: int, k: int, x: T)
    requires g.Laws()
    ensures g.add(Times(g, j, x), Times(g, k, x)) == Times(g, j + k, x)
    decreases if k < 0 then -k else k
  {
    var t := Times(g, j, x);
    if k == 0 {
      assert g.UnitAt(t);
    } else if k > 0 {
      TimesAdd(g, j, k - 1, x);
      assert g.AssocAt(t, Times(g, k - 1, x), x);
      TimesSucc(g, j + k - 1, x);
    } else {
      TimesAdd(g, j, k + 1, x);
      assert g.AssocAt(t, Times(g, k + 1, x), g.inv(x));
      TimesPred(g, j + k + 1, x);
    }
  }

  lemma TimesDouble<T(!new)>(g: Group<T>, k: int, x: T)
    requires g.Laws()
    ensures g.Double(Times(g, k, x)) == Times(g, 2 * k, x)
  {
    TimesAdd(g, k, k, x);
  }

  /** An element with a right inverse z for y is the inverse of y. */
  lemma InverseUnique<T(!new)>(g: Group<T>, y: T, z: T)
    requires g.Laws() && g.add(y, z) == g.id
    ensures g.inv(y) == z
  {
    assert g.AssocAt(g.inv(y), y, z) && g.InverseAt(y);
    assert g.UnitAt(z) && g.UnitAt(g.inv(y));
  }

  lemma TimesNegate<T(!new)>(g: Group<T>, k: int, x: T)
    requires g.Laws()
    ensures g.inv(Times(g, k, x)) == Times(g, -k, x)
  {
    TimesAdd(g, k, -k, x);
    InverseUnique(g, Times(g, k, x), Times(g, -k, x));
  }

  lemma {:induction false} TimesTimes<T(!new)>(g: Group<T>, j: int, k: int, x: T)
    requires g.Laws()
    ensures Times(g, j, Times(g, k, x)) == Times(g, j * k, x)
    decreases if j < 0 then -j else j
  {
    var y := Times(g, k, x);
    if j > 0 {
      TimesTimes(g, j - 1, k, x);
      TimesAdd(g, (j - 1) * k, k, x);
      assert (j - 1) * k + k == j * k;
    } else if j < 0 {
      TimesTimes(g, j + 1, k, x);
      TimesNegate(g, k, x);
      TimesAdd(g, (j + 1) * k, -k, x);
      assert (j + 1) * k + -k == j * k;
    }
  }

  /** The combination a*x + b*y of two elements. */
  ghost function Comb<T(!new)>(g: Group<T>, a: int, x: T, b: int, y: T): T {
    g.add(Times(g, a, x), Times(g, b, y))
  }

  /** Exchanging the middle pair of a four-term sum. */
  lemma Exchange<T(!new)>(g: Group<T>, p: T, q: T, r: T, s: T)
    requires g.Laws() && g.Commute(q, r)
    ensures g.add(g.add(p, q), g.add(r, s)) == g.add(g.add(p, r), g.add(q, s))
  {
    assert g.AssocAt(p, q, g.add(r, s)) && g.AssocAt(q, r, s) && g.AssocAt(r, q, s) && g.AssocAt(p, r, g.add(q, s));
  }

  lemma CommuteAdd<T(!new)>(g: Group<T>, x: T, y: T, z: T)
    requires g.Laws() && g.Commute(x, y) && g.Commute(x, z)
    ensures g.Commute(x, g.add(y, z))
  {
    assert g.AssocAt(x, y, z) && g.AssocAt(y, x, z) && g.AssocAt(y, z, x);
  }

  /** Non-negative multiples of commuting elements commute. */
  lemma {:induction false} CommuteTimes<T(!new)>(g: Group<T>, x: T, k: nat, y: T)
    requires g.Laws() && g.Commute(x, y)
    ensures g.Commute(x, Times(g, k, y))
  {
    if k == 0 {
      assert g.UnitAt(x);
    } else {
      CommuteTimes(g, x, k - 1, y);
      CommuteAdd(g, x, Times(g, k - 1, y), y);
    }
  }

  lemma CommuteMultiples<T(!new)>(g: Group<T>, a: nat, x: T, b: nat, y: T)
    requires g.Laws() && g.Commute(x, y)
    ensures g.Commute(Times(g, a, x), Times(g, b, y))
  {
    CommuteTimes(g, x, b, y);
    assert g.Commute(Times(g, b, y), x);
    CommuteTimes(g, Times(g, b, y), a, x);
  }

  /** Combinations of commuting elements add coefficient by coefficient. */
  lemma CombAdd<T(!new)>(g: Group<T>, x: T, y: T, a: nat, b: nat, c: nat, d: nat)
    requires g.Laws() && g.Commute(x, y)
    ensures g.add(Comb(g, a, x, b, y), Comb(g, c, x, d, y)) == Comb(g, a + c, x, b + d, y)
  {
    CommuteMultiples(g, c, x, b, y);
    Exchange(g, Times(g, a, x), Times(g, b, y), Times(g, c, x), Times(g, d, y));
    TimesAdd(g, a, c, x);
    TimesAdd(g, b, d, y);
  }

  /** Multiples distribute over a sum of commuting elements. */
  lemma {:induction false} TimesDistributes<T(!new)>(g: Group<T>, k: nat, x: T, y: T)
    requires g.Laws() && g.Commute(x, y)
    ensures Times(g, k, g.add(x, y)) == Comb(g, k, x, k, y)
  {
    if k == 0 {
      assert g.UnitAt(g.id);
    } else {
      TimesDistributes(g, k - 1, x, y);
      TimesOne(g, x);
      TimesOne(g, y);
      CombAdd(g, x, y, k - 1, k - 1, 1, 1);
    }
  }
}
