/** The product of many (base, exponent) pairs by Euclidean steps on a heap of exponents:
  3rdParty/cryptopp890/algebra.cpp, lines 172-204.
*/
module GeneralCascade {
  import opened Groups
  import opened SimultaneousMultiplication
  import opened CascadeMultiplication

  datatype BaseAndExponent<T> = BaseAndExponent(base: T, exponent: nat)

  /** What the C++ standard promises of make_heap, push_heap and pop_heap on entries compared by
    exponent.  Which of the allowed orders results is up to the library. */
  datatype StdHeap<!T(!new)> = StdHeap(
    make: seq<BaseAndExponent<T>> -> seq<BaseAndExponent<T>>,
    push: seq<BaseAndExponent<T>> -> seq<BaseAndExponent<T>>,
    pop: seq<BaseAndExponent<T>> -> seq<BaseAndExponent<T>>)
  {
    ghost predicate MakesAt(s: seq<BaseAndExponent<T>>) {
      IsHeap(make(s)) && multiset(make(s)) == multiset(s)
    }

    /** push_heap: all but the last entry already form a heap. */
    ghost predicate PushesAt(s: seq<BaseAndExponent<T>>) {
      s != [] && IsHeap(s[..|s| - 1]) ==> IsHeap(push(s)) && multiset(push(s)) == multiset(s)
    }

    /** pop_heap: the top of a heap moves to the end, the others form a heap. */
    ghost predicate PopsAt(s: seq<BaseAndExponent<T>>) {
      s != [] && IsHeap(s) ==>
        && multiset(pop(s)) == multiset(s) && |pop(s)| == |s|
        && pop(s)[|s| - 1] == s[0] && IsHeap(pop(s)[..|s| - 1])
    }

    ghost predicate Conforms() {
      forall s :: MakesAt(s) && PushesAt(s) && PopsAt(s)
    }
  }

  /** The usual array heap: no entry is above its parent. */
  ghost predicate IsHeap<T>(s: seq<BaseAndExponent<T>>) {
    forall i :: 0 < i < |s| ==> BelowParent(s, i)
  }

  ghost predicate BelowParent<T>(s: seq<BaseAndExponent<T>>, i: nat)
    requires 0 < i < |s|
  {
    s[i].exponent <= s[(i - 1) / 2].exponent
  }

  lemma {:induction false} HeapTop<T>(s: seq<BaseAndExponent<T>>, i: nat)
    requires IsHeap(s) && i < |s|
    ensures s[i].exponent <= s[0].exponent
  {
    if i > 0 {
      assert BelowParent(s, i);
      HeapTop(s, (i - 1) / 2);
    }
  }

  // ----- a library that keeps the promise: the heap is sorted by falling exponents

  function Insert<T>(x: BaseAndExponent<T>, s: seq<BaseAndExponent<T>>): seq<BaseAndExponent<T>> {
    if s == [] || s[0].exponent <= x.exponent then [x] + s else [s[0]] + Insert(x, s[1..])
  }

  function Sorted<T>(s: seq<BaseAndExponent<T>>): seq<BaseAndExponent<T>> {
    if s == [] then [] else Insert(s[0], Sorted(s[1..]))
  }

  function TopToEnd<T>(s: seq<BaseAndExponent<T>>): seq<BaseAndExponent<T>> {
    if s == [] then [] else Sorted(s[1..]) + [s[0]]
  }

  ghost predicate Falling<T>(s: seq<BaseAndExponent<T>>) {
    forall i, j :: 0 <= i < j < |s| ==> s[j].exponent <= s[i].exponent
  }

  ghost predicate AtMost<T>(s: seq<BaseAndExponent<T>>, top: nat) {
    forall i :: 0 <= i < |s| ==> s[i].exponent <= top
  }

  lemma {:induction false} InsertFalls<T>(x: BaseAndExponent<T>, s: seq<BaseAndExponent<T>>, top: nat)
    requires Falling(s) && AtMost(s, top) && x.exponent <= top
    ensures Falling(Insert(x, s)) && AtMost(Insert(x, s), top)
  {
    if s != [] && s[0].exponent > x.exponent {
      InsertFalls(x, s[1..], s[0].exponent);
    }
  }

  lemma {:induction false} InsertAdds<T>(x: BaseAndExponent<T>, s: seq<BaseAndExponent<T>>)
    ensures multiset(Insert(x, s)) == multiset(s) + multiset{x}
  {
    if s != [] && s[0].exponent > x.exponent {
      InsertAdds(x, s[1..]);
      assert [s[0]] + s[1..] == s;
    }
  }

  lemma {:induction false} SortedFalls<T>(s: seq<BaseAndExponent<T>>)
    ensures Falling(Sorted(s))
  {
    if s != [] {
      var rest := Sorted(s[1..]);
      SortedFalls(s[1..]);
      InsertFalls(s[0], rest, if rest != [] && rest[0].exponent > s[0].exponent then rest[0].exponent else s[0].exponent);
    }
  }

  lemma {:induction false} SortedPermutes<T>(s: seq<BaseAndExponent<T>>)
    ensures multiset(Sorted(s)) == multiset(s)
  {
    if s != [] {
      SortedPermutes(s[1..]);
      InsertAdds(s[0], Sorted(s[1..]));
      assert [s[0]] + s[1..] == s;
    }
  }

  lemma SortedHeap<T>(s: seq<BaseAndExponent<T>>)
    ensures IsHeap(Sorted(s)) && multiset(Sorted(s)) == multiset(s)
  {
    SortedFalls(s);
    SortedPermutes(s);
    forall i | 0 < i < |Sorted(s)| ensures BelowParent(Sorted(s), i) {
    }
  }

  function SortingHeap<T(!new)>(): StdHeap<T> {
    StdHeap(Sorted, Sorted, TopToEnd)
  }

  /** The contract of the heap functions can be met. */
  lemma SortingConforms<T(!new)>()
    ensures SortingHeap<T>().Conforms()
  {
    var heap := SortingHeap<T>();
    forall s: seq<BaseAndExponent<T>> ensures heap.MakesAt(s) && heap.PushesAt(s) && heap.PopsAt(s) {
      SortedHeap(s);
      if s != [] {
        SortedHeap(s[1..]);
        var rest := Sorted(s[1..]);
        assert [s[0]] + s[1..] == s && TopToEnd(s)[..|rest|] == rest;
        SameLength(s[1..], rest);
      }
    }
  }

  // ----- the sum that every step keeps

  /** The sum of exponent*base over all entries. */
  ghost function Total<T(!new)>(g: Group<T>, s: seq<BaseAndExponent<T>>): T {
    if s == [] then g.id else g.add(Times(g, s[0].exponent, s[0].base), Total(g, s[1..]))
  }

  ghost function ExponentSum<T>(s: seq<BaseAndExponent<T>>): nat {
    if s == [] then 0 else s[0].exponent + ExponentSum(s[1..])
  }

  lemma SwapFirst<T(!new)>(g: Group<T>, x: T, y: T, z: T)
    requires g.Abelian()
    ensures g.add(x, g.add(y, z)) == g.add(y, g.add(x, z))
  {
    assert g.AssocAt(x, y, z) && g.AssocAt(y, x, z) && g.Commute(x, y);
  }

  /** Any entry can be taken out first. */
  lemma {:induction false} TotalAt<T(!new)>(g: Group<T>, s: seq<BaseAndExponent<T>>, i: nat)
    requires g.Abelian() && i < |s|
    ensures Total(g, s) == g.add(Times(g, s[i].exponent, s[i].base), Total(g, s[..i] + s[i + 1..]))
    ensures ExponentSum(s) == s[i].exponent + ExponentSum(s[..i] + s[i + 1..])
  {
    var rest := s[..i] + s[i + 1..];
    if i == 0 {
      assert rest == s[1..];
    } else {
      TotalAt(g, s[1..], i - 1);
      assert rest[1..] == s[1..][..i - 1] + s[1..][i..];
      SwapFirst(g, Times(g, s[0].exponent, s[0].base), Times(g, s[i].exponent, s[i].base), Total(g, rest[1..]));
    }
  }

  /** The sums do not depend on the order of the entries. */
  lemma {:induction false} TotalPermuted<T(!new)>(g: Group<T>, s: seq<BaseAndExponent<T>>, t: seq<BaseAndExponent<T>>)
    requires g.Abelian() && multiset(s) == multiset(t)
    ensures Total(g, s) == Total(g, t) && ExponentSum(s) == ExponentSum(t) && |s| == |t|
    decreases |s|
  {
    SameLength(s, t);
    if s != [] {
      var i := FindEntry(s, t);
      TotalPermuted(g, s[1..], t[..i] + t[i + 1..]);
      TotalAt(g, t, i);
    }
  }

  lemma SameLength<E>(s: seq<E>, t: seq<E>)
    requires multiset(s) == multiset(t)
    ensures |s| == |t|
  {
    assert |multiset(s)| == |s| && |multiset(t)| == |t|;
  }

  lemma WithoutEntry<E>(s: seq<E>, i: nat)
    requires i < |s|
    ensures multiset(s[..i] + s[i + 1..]) == multiset(s) - multiset{s[i]}
  {
    assert s == s[..i] + [s[i]] + s[i + 1..];
  }

  /** The first entry of s, found in a permutation t, leaves permutations behind. */
  lemma FindEntry<E>(s: seq<E>, t: seq<E>) returns (i: nat)
    requires multiset(s) == multiset(t) && s != []
    ensures i < |t| && t[i] == s[0]
    ensures multiset(s[1..]) == multiset(t[..i] + t[i + 1..])
  {
    i := SomeEntry(s, t);
    WithoutEntry(t, i);
    WithoutFirst(s);
  }

  lemma WithoutFirst<E>(s: seq<E>)
    requires s != []
    ensures multiset(s[1..]) == multiset(s) - multiset{s[0]}
  {
    assert s == [s[0]] + s[1..];
  }

  lemma SomeEntry<E>(s: seq<E>, t: seq<E>) returns (i: nat)
    requires multiset(s) == multiset(t) && s != []
    ensures i < |t| && t[i] == s[0]
  {
    assert s[0] in multiset(s);
    assert s[0] in t;
    i :| 0 <= i < |t| && t[i] == s[0];
  }

  /** a*x + b*y == a*x + (q*a + r)*y == a*(x + q*y) + r*y. */
  lemma EuclidStep<T(!new)>(g: Group<T>, x: T, a: nat, y: T, b: nat, q: nat, r: nat, z: T)
    requires g.Abelian() && b == q * a + r
    ensures g.add(Times(g, a, x), g.add(Times(g, b, y), z))
         == g.add(Times(g, a, g.add(x, Times(g, q, y))), g.add(Times(g, r, y), z))
  {
    var qy := Times(g, q, y);
    assert g.Commute(x, qy);
    TimesDistributes(g, a, x, qy);
    TimesTimes(g, a, q, y);
    TimesAdd(g, a * q, r, y);
    assert a * q + r == b;
    Reassociate(g, Times(g, a, x), Times(g, a * q, y), Times(g, r, y), z);
  }

  lemma Reassociate<T(!new)>(g: Group<T>, p: T, s: T, t: T, z: T)
    requires g.Laws()
    ensures g.add(p, g.add(g.add(s, t), z)) == g.add(g.add(p, s), g.add(t, z))
  {
    assert g.AssocAt(p, s, g.add(t, z)) && g.AssocAt(s, t, z);
  }

  lemma {:induction false} AllZero<T(!new)>(g: Group<T>, s: seq<BaseAndExponent<T>>)
    requires g.Laws() && forall i :: 0 <= i < |s| ==> s[i].exponent == 0
    ensures Total(g, s) == g.id
  {
    if s != [] {
      AllZero(g, s[1..]);
      assert g.UnitAt(g.id);
    }
  }

  /** The heap with the largest exponent set aside at the end. */
  ghost predicate Popped<T>(s: seq<BaseAndExponent<T>>) {
    && |s| >= 2 && IsHeap(s[..|s| - 1])
    && forall i :: 0 <= i < |s| ==> s[i].exponent <= s[|s| - 1].exponent
  }

  /** Setting the top of a heap aside leaves the two largest exponents at the end and at the front. */
  lemma PopSelectsLargest<T(!new)>(heap: StdHeap<T>, s: seq<BaseAndExponent<T>>)
    requires heap.Conforms() && IsHeap(s) && |s| >= 2
    ensures Popped(heap.pop(s)) && multiset(heap.pop(s)) == multiset(s) && |heap.pop(s)| == |s|
    ensures forall i :: 0 <= i < |s| - 1 ==> heap.pop(s)[i].exponent <= heap.pop(s)[0].exponent
  {
    assert heap.PopsAt(s);
    var t := heap.pop(s);
    forall i | 0 <= i < |t| ensures t[i].exponent <= t[|t| - 1].exponent {
      assert t[i] in multiset(t);
      assert t[i] in s;
      var j :| 0 <= j < |s| && s[j] == t[i];
      HeapTop(s, j);
    }
    forall i | 0 <= i < |t| - 1 ensures t[i].exponent <= t[0].exponent {
      HeapTop(t[..|t| - 1], i);
    }
  }

  /** The sums by their first, last and middle entries. */
  lemma TotalEnds<T(!new)>(g: Group<T>, s: seq<BaseAndExponent<T>>)
    requires g.Abelian() && |s| >= 2
    ensures var n, a, b := |s| - 1, s[0], s[|s| - 1];
            && Total(g, s) == g.add(Times(g, a.exponent, a.base), g.add(Times(g, b.exponent, b.base), Total(g, s[1..n])))
            && ExponentSum(s) == a.exponent + b.exponent + ExponentSum(s[1..n])
  {
    var n, tail := |s| - 1, s[1..];
    TotalAt(g, tail, n - 1);
    assert tail[n - 1] == s[n];
    assert tail[..n - 1] + tail[n..] == s[1..n];
  }

  /** The entries after dividing the last exponent by the first. */
  ghost function Reduced<T(!new)>(g: Group<T>, s: seq<BaseAndExponent<T>>): (t: seq<BaseAndExponent<T>>)
    requires |s| >= 2 && s[0].exponent > 0
    ensures |t| == |s|
  {
    var n, a, b := |s| - 1, s[0], s[|s| - 1];
    [BaseAndExponent(g.add(a.base, Times(g, b.exponent / a.exponent, b.base)), a.exponent)]
      + s[1..n] + [BaseAndExponent(b.base, b.exponent % a.exponent)]
  }

  lemma ReducedHeap<T(!new)>(g: Group<T>, s: seq<BaseAndExponent<T>>)
    requires |s| >= 2 && s[0].exponent > 0 && IsHeap(s[..|s| - 1])
    ensures IsHeap(Reduced(g, s)[..|s| - 1])
  {
    var n, t := |s| - 1, Reduced(g, s);
    forall i | 0 < i < n ensures BelowParent(t[..n], i) {
      assert BelowParent(s[..n], i);
    }
  }

  lemma RemainderBelow(a: nat, b: nat) returns (q: nat, r: nat)
    requires 0 < a <= b
    ensures q == b / a && r == b % a && b == q * a + r && r < b
  {
    q, r := b / a, b % a;
  }

  /** One Euclidean step on the first and the last entry keeps the sum and lowers the exponents. */
  lemma StepKeepsTotal<T(!new)>(g: Group<T>, s: seq<BaseAndExponent<T>>)
    requires g.Abelian() && |s| >= 2 && 0 < s[0].exponent <= s[|s| - 1].exponent
    ensures Total(g, Reduced(g, s)) == Total(g, s) && ExponentSum(Reduced(g, s)) < ExponentSum(s)
  {
    var n, a, b, t := |s| - 1, s[0], s[|s| - 1], Reduced(g, s);
    assert t[1..n] == s[1..n];
    var q, r := RemainderBelow(a.exponent, b.exponent);
    assert t[0] == BaseAndExponent(g.add(a.base, Times(g, q, b.base)), a.exponent) && t[n] == BaseAndExponent(b.base, r);
    TotalEnds(g, s);
    TotalEnds(g, t);
    EuclidStep(g, a.base, a.exponent, b.base, b.exponent, q, r, Total(g, s[1..n]));
  }

  method Rearrange<T>(entries: array<BaseAndExponent<T>>, s: seq<BaseAndExponent<T>>)
    requires entries.Length == |s|
    modifies entries
    ensures entries[..] == s
  {
    forall i | 0 <= i < |s| {
      entries[i] := s[i];
    }
  }

  /** Puts the last entry back and takes the largest one out again. */
  method PushAndPop<T(!new)>(heap: StdHeap<T>, entries: array<BaseAndExponent<T>>)
    requires heap.Conforms() && entries.Length >= 2 && IsHeap(entries[..entries.Length - 1])
    modifies entries
    ensures Popped(entries[..]) && multiset(entries[..]) == old(multiset(entries[..]))
    ensures forall i :: 0 <= i < entries.Length - 1 ==> entries[i].exponent <= entries[0].exponent
  {
    assert entries[..][..entries.Length - 1] == entries[..entries.Length - 1];
    assert heap.PushesAt(entries[..]);
    var pushed := heap.push(entries[..]);
    assert |multiset(pushed)| == |pushed| && |multiset(entries[..])| == entries.Length;
    PopSelectsLargest(heap, pushed);
    Rearrange(entries, heap.pop(pushed));
  }

  method MakeAndPop<T(!new)>(heap: StdHeap<T>, entries: array<BaseAndExponent<T>>)
    requires heap.Conforms() && entries.Length >= 2
    modifies entries
    ensures Popped(entries[..]) && multiset(entries[..]) == old(multiset(entries[..]))
    ensures forall i :: 0 <= i < entries.Length - 1 ==> entries[i].exponent <= entries[0].exponent
  {
    assert heap.MakesAt(entries[..]);
    var made := heap.make(entries[..]);
    assert |multiset(made)| == |made| && |multiset(entries[..])| == entries.Length;
    PopSelectsLargest(heap, made);
    Rearrange(entries, heap.pop(made));
  }

  /** Replaces the largest exponent by its remainder modulo the next largest. */
  method ReduceLargest<T(!new)>(g: Group<T>, inversionIsFast: bool, entries: array<BaseAndExponent<T>>)
    requires g.Abelian() && Popped(entries[..]) && entries[0].exponent > 0
    modifies entries
    ensures Total(g, entries[..]) == old(Total(g, entries[..]))
    ensures ExponentSum(entries[..]) < old(ExponentSum(entries[..]))
    ensures IsHeap(entries[..entries.Length - 1])
  {
    var n := entries.Length - 1;
    var first, last := entries[0], entries[n];
    var q := last.exponent / first.exponent;
    var product;
    if q == 1 {
      TimesOne(g, last.base);
      product := last.base;
    } else {
      product := ScalarMultiply(g, inversionIsFast, last.base, q);
    }
    entries[n] := BaseAndExponent(last.base, last.exponent % first.exponent);
    entries[0] := BaseAndExponent(g.add(first.base, product), first.exponent);
    ghost var before := old(entries[..]);
    assert entries[..] == Reduced(g, before);
    StepKeepsTotal(g, before);
    ReducedHeap(g, before);
    assert entries[..n] == entries[..][..n];
  }

  /** For one or more entries the result is the sum of exponent*base. */
  method GeneralCascadeMultiplication<T(!new)>(g: Group<T>, inversionIsFast: bool, heap: StdHeap<T>,
                                               entries: array<BaseAndExponent<T>>, unset: T) returns (result: T)
    requires g.Abelian() && heap.Conforms() && entries.Length >= 1
    modifies entries
    ensures result == old(Total(g, entries[..]))
  {
    if entries.Length == 1 {
      result := ScalarMultiply(g, inversionIsFast, entries[0].base, entries[0].exponent);
      TotalOne(g, entries[..]);
    } else if entries.Length == 2 {
      assert g.Commute(entries[0].base, entries[1].base);
      result := CascadeScalarMultiply(g, entries[0].base, entries[0].exponent, entries[1].base, entries[1].exponent, unset);
      TotalOne(g, entries[..][1..]);
    } else {
      ghost var sum := Total(g, entries[..]);
      ghost var before := entries[..];
      MakeAndPop(heap, entries);
      TotalPermuted(g, before, entries[..]);
      while entries[0].exponent != 0
        invariant Popped(entries[..]) && Total(g, entries[..]) == sum
        invariant forall i :: 0 <= i < entries.Length - 1 ==> entries[i].exponent <= entries[0].exponent
        decreases ExponentSum(entries[..])
      {
        ReduceLargest(g, inversionIsFast, entries);
        before := entries[..];
        PushAndPop(heap, entries);
        TotalPermuted(g, before, entries[..]);
      }
      var last := entries[entries.Length - 1];
      result := ScalarMultiply(g, inversionIsFast, last.base, last.exponent);
      OnlyLast(g, entries[..]);
    }
  }

  lemma TotalOne<T(!new)>(g: Group<T>, s: seq<BaseAndExponent<T>>)
    requires g.Laws() && |s| == 1
    ensures Total(g, s) == Times(g, s[0].exponent, s[0].base)
  {
    assert s[1..] == [];
    assert g.UnitAt(Times(g, s[0].exponent, s[0].base));
  }

  lemma OnlyLast<T(!new)>(g: Group<T>, s: seq<BaseAndExponent<T>>)
    requires g.Abelian() && |s| >= 1 && forall i :: 0 <= i < |s| - 1 ==> s[i].exponent == 0
    ensures Total(g, s) == Times(g, s[|s| - 1].exponent, s[|s| - 1].base)
  {
    var n := |s| - 1;
    TotalAt(g, s, n);
    AllZero(g, s[..n] + s[n + 1..]);
    assert g.UnitAt(Times(g, s[n].exponent, s[n].base));
  }
}
