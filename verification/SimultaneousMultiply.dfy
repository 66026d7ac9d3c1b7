/** Multiplying one group element by many exponents at once, with (signed)
  sliding windows: 3rdParty/cryptopp890/algebra.cpp, lines 206-314.
*/
module SimultaneousMultiplication {
  import opened Bits
  import opened Groups

  const WORD_BITS := 64

  /** Recodes an exponent, low end first, into odd digits at growing bit positions. */
  class WindowSlider {
    var exp: nat
    var windowModulus: nat
    var windowSize: nat
    var windowBegin: nat
    var expWindow: nat
    const fastNegate: bool
    var negateNext: bool
    var firstTime: bool
    var finished: bool

    ghost predicate Valid()
      reads this
    {
      && windowSize >= 1
      && windowModulus == Pow2(windowSize)
      && (!firstTime && !finished ==>
            && 0 < expWindow < windowModulus
            && expWindow % 2 == 1
            && (negateNext ==> fastNegate && exp / windowModulus >= 2))
    }

    /** The signed digit of the current window. */
    ghost function Digit(): int
      reads this
    {
      var w: int := expWindow;
      if firstTime || finished then 0 else if negateNext then -w else w
    }

    /** What is still to be handed out, the current digit included, in units of 2^windowBegin. */
    ghost function Pending(): int
      requires Valid()
      reads this
    {
      if firstTime then exp
      else if finished then 0
      else Digit() + exp / windowModulus * windowModulus
    }

    ghost function Remaining(): int
      requires Valid()
      reads this
    {
      Pending() * Pow2(windowBegin)
    }

    constructor (expIn: nat, fastNegate: bool, windowSizeIn: nat := 0)
      ensures Valid() && firstTime && !finished
      ensures Remaining() == expIn && windowBegin == 0
      ensures this.fastNegate == fastNegate && (windowSizeIn > 0 ==> windowSize == windowSizeIn)
      ensures windowSizeIn == 0 ==>
                var limits := [17, 24, 70, 197, 539, 1434];
                && windowSize <= 7 && (windowSize > 1 ==> limits[windowSize - 2] < BitCount(expIn))
                && (windowSize < 7 ==> BitCount(expIn) <= limits[windowSize - 1])
    {
      exp := expIn;
      this.fastNegate := fastNegate;
      var w := windowSizeIn;
      if w == 0 {
        var expLen := BitCount(expIn);
        w := if expLen <= 17 then 1 else if expLen <= 24 then 2 else if expLen <= 70 then 3
             else if expLen <= 197 then 4 else if expLen <= 539 then 5 else if expLen <= 1434 then 6 else 7;
      }
      windowSize := w;
      windowModulus := 1 * Pow2(w);
      windowBegin, expWindow := 0, 0;
      negateNext, firstTime, finished := false, true, false;
    }

    /** Moves on to the next window: the digit just left is subtracted from what remains,
      the new window starts at least windowSize places further up, and what is pending shrinks. */
    method FindNextWindow()
      requires Valid() && !finished
      modifies this
      ensures Valid() && !firstTime && windowSize == old(windowSize)
      ensures Remaining() == old(Remaining() - Digit() * Pow2(windowBegin))
      ensures !finished ==> windowBegin >= old(windowBegin) + (if old(firstTime) then 0 else windowSize)
      ensures !old(firstTime) ==> 0 <= Pending() < old(Pending())
      ensures !finished ==> Pending() > 0
    {
      var skipCount := if firstTime then 0 else windowSize;
      ghost var skip0, begin := skipCount, windowBegin;
      HandedOut(skip0);
      firstTime := false;
      skipCount, finished := SkipZeros(exp, skipCount);
      if finished {
        return;
      }
      ghost var rest := Shr(exp, skip0);
      exp := Shr(exp, skipCount);
      windowBegin := windowBegin + skipCount;
      Rescale(exp, rest, begin, skip0, skipCount);
      CutWindow();
    }

    /** Splits the window off an odd value, signed when negation is fast and the next bit is set. */
    method CutWindow()
      requires windowSize >= 1 && windowModulus == Pow2(windowSize) && exp % 2 == 1 && !firstTime && !finished
      modifies this`expWindow, this`negateNext, this`exp
      ensures Valid() && Pending() == old(exp)
    {
      expWindow := exp % Pow2(windowSize);
      Recode(exp, windowSize);
      if fastNegate && GetBit(exp, windowSize) == 1 {
        negateNext := true;
        expWindow := Pow2(windowSize) - expWindow;
        exp := exp + windowModulus;
      } else {
        negateNext := false;
      }
    }

    /** Advances to the next set bit; finished when there is none left. */
    static method SkipZeros(exp: nat, start: nat) returns (skipCount: nat, finished: bool)
      ensures finished ==> Shr(exp, start) == 0
      ensures !finished ==> skipCount >= start && Shr(exp, skipCount) % 2 == 1
      ensures !finished ==> Shr(exp, start) == Shr(exp, skipCount) * Pow2(skipCount - start)
    {
      var expLen := CeilDiv(BitCount(exp), WORD_BITS) * WORD_BITS;
      skipCount, finished := start, false;
      while GetBit(exp, skipCount) == 0
        invariant start <= skipCount
        invariant Shr(exp, start) == Shr(exp, skipCount) * Pow2(skipCount - start)
        decreases expLen - skipCount
      {
        if skipCount >= expLen {
          ShrZero(exp, skipCount);
          finished := true;
          return;
        }
        SkipOne(exp, start, skipCount);
        skipCount := skipCount + 1;
      }
    }

    /** The part above the current window, and how it compares to what is pending. */
    lemma HandedOut(skip0: nat)
      requires Valid() && !finished
      requires skip0 == if firstTime then 0 else windowSize
      ensures Shr(exp, skip0) * Pow2(skip0 + windowBegin) == Remaining() - Digit() * Pow2(windowBegin)
      ensures !firstTime ==> Shr(exp, skip0) < Pending()
      ensures Pending() >= 0
    {
      var p, q, hi := Pow2(skip0), Pow2(windowBegin), Shr(exp, skip0);
      assert Pow2(skip0 + windowBegin) == p * q by {
        Pow2Add(skip0, windowBegin);
      }
      if firstTime {
        assert p == 1 && hi == exp;
      } else {
        assert Pending() == Digit() + hi * p;
        PendingAbove(hi, p, q, Digit());
      }
    }
  }

  lemma SkipOne(exp: nat, start: nat, skip: nat)
    requires start <= skip && GetBit(exp, skip) == 0
    ensures Shr(exp, skip) * Pow2(skip - start) == Shr(exp, skip + 1) * Pow2(skip + 1 - start)
  {
    ShrStep(exp, skip);
    var h, u := Shr(exp, skip + 1), Pow2(skip - start);
    assert (2 * h) * u == h * (2 * u);
  }

  lemma PendingAbove(hi: nat, p: nat, q: nat, digit: int)
    requires 0 - p < digit < p && digit != 0 && (digit < 0 ==> hi >= 2)
    ensures hi < digit + hi * p
    ensures hi * (p * q) == (digit + hi * p) * q - digit * q
  {
    assert hi * (p * q) == (hi * p) * q;
    assert (digit + hi * p) * q == digit * q + (hi * p) * q;
    assert hi * p == hi * (p - 1) + hi;
    MulMonotone(if digit < 0 then 2 else 0, hi, p - 1);
  }

  /** An odd value splits into an odd window below 2^w and the part above it; when bit w is
    set the window can be taken as negative, against one more in the part above. */
  lemma Recode(e: nat, w: nat)
    requires w >= 1 && e % 2 == 1
    ensures 0 < e % Pow2(w) && e % Pow2(w) % 2 == 1 && (Pow2(w) - e % Pow2(w)) % 2 == 1
    ensures e % Pow2(w) + e / Pow2(w) * Pow2(w) == e
    ensures GetBit(e, w) == 1 ==> (e + Pow2(w)) / Pow2(w) >= 2
    ensures -(Pow2(w) - e % Pow2(w)) + (e + Pow2(w)) / Pow2(w) * Pow2(w) == e
  {
    assert Pow2(w) == 2 * Pow2(w - 1);
    hide Pow2, GetBit;
    BitQuotient(e, w);
    OddRemainder(e, Pow2(w - 1));
    NextQuotient(e, Pow2(w));
  }

  lemma BitQuotient(e: nat, w: nat)
    ensures GetBit(e, w) == 1 ==> e / Pow2(w) >= 1
  {
  }

  lemma OddRemainder(e: nat, half: nat)
    requires e % 2 == 1 && half > 0
    ensures e % (2 * half) % 2 == 1 && (2 * half - e % (2 * half)) % 2 == 1
  {
    var q, r := e / (2 * half), e % (2 * half);
    assert e == q * (2 * half) + r;
    Twice(q, half);
    SameParity(e, q * half, r);
  }

  lemma NextQuotient(e: nat, m: nat)
    requires m > 0
    ensures e % m + e / m * m == e
    ensures (e + m) / m == e / m + 1
    ensures -(m - e % m) + (e + m) / m * m == e
  {
    var q, r := e / m, e % m;
    assert e == q * m + r;
    assert (q + 1) * m == q * m + m;
    DivModUnique(e + m, m, q + 1, r);
  }

  lemma Twice(x: int, y: int)
    ensures x * (2 * y) == 2 * (x * y)
  {
  }

  lemma SameParity(e: int, half: int, r: int)
    requires e == 2 * half + r
    ensures e % 2 == r % 2
  {
  }

  lemma Rescale(value: nat, rest: nat, begin: nat, skip0: nat, skip: nat)
    requires skip0 <= skip && rest == value * Pow2(skip - skip0)
    ensures value * Pow2(begin + skip) == rest * Pow2(skip0 + begin)
    ensures value <= rest
  {
    Pow2Add(skip - skip0, skip0 + begin);
    var a, b := Pow2(skip - skip0), Pow2(skip0 + begin);
    assert value * (a * b) == value * a * b;
    assert value * 1 <= value * a;
  }

  // ----- the weighted bucket sum

  /** The sum of (2k+1)*c[k] over k >= j. */
  ghost function Weighted(c: seq<int>, j: nat): int
    decreases |c| - j
  {
    if j >= |c| then 0 else (2 * j + 1) * c[j] + Weighted(c, j + 1)
  }

  /** The sum of c[k] over k >= j. */
  ghost function Suffix(c: seq<int>, j: nat): int
    decreases |c| - j
  {
    if j >= |c| then 0 else c[j] + Suffix(c, j + 1)
  }

  /** The sum of the suffix sums from j on. */
  ghost function SuffixSum(c: seq<int>, j: nat): int
    decreases |c| - j
  {
    if j >= |c| then 0 else Suffix(c, j) + SuffixSum(c, j + 1)
  }

  /** Twice the sum of the later suffix sums, plus the total, weighs entry k by 2k+1. */
  lemma {:induction false} WeightedBySuffixes(c: seq<int>, j: nat)
    ensures Weighted(c, j) == 2 * SuffixSum(c, j + 1) + (2 * j + 1) * Suffix(c, j)
    decreases |c| - j
  {
    if j < |c| {
      WeightedBySuffixes(c, j + 1);
      assert (2 * j + 1) * Suffix(c, j) == (2 * j + 1) * c[j] + (2 * j + 1) * Suffix(c, j + 1);
      assert (2 * (j + 1) + 1) * Suffix(c, j + 1) == (2 * j + 1) * Suffix(c, j + 1) + 2 * Suffix(c, j + 1);
    }
  }

  lemma SuffixStep(c: seq<int>, j: nat)
    requires j < |c|
    ensures Suffix(c, j) == c[j] + Suffix(c, j + 1) && SuffixSum(c, j) == Suffix(c, j) + SuffixSum(c, j + 1)
    ensures j == |c| - 1 ==> Suffix(c, j + 1) == 0 && SuffixSum(c, j + 1) == 0
  {
  }

  lemma {:induction false} WeightedUpdate(c: seq<int>, i: nat, d: int, j: nat)
    requires i < |c|
    ensures Weighted(c[i := c[i] + d], j) == Weighted(c, j) + if j <= i then (2 * i + 1) * d else 0
    decreases |c| - j
  {
    if j < |c| {
      WeightedUpdate(c, i, d, j + 1);
      if j == i {
        assert (2 * i + 1) * (c[i] + d) == (2 * i + 1) * c[i] + (2 * i + 1) * d;
      }
    }
  }

  lemma {:induction false} WeightedZero(n: nat, j: nat)
    ensures Weighted(seq(n, _ => 0), j) == 0
    decreases n - j
  {
    if j < n {
      WeightedZero(n, j + 1);
    }
  }

  /** Every bucket holds its coefficient times the base. */
  ghost predicate Holds<T(!new)>(g: Group<T>, base: T, row: seq<T>, coef: seq<int>) {
    |row| == |coef| && forall j :: 0 <= j < |row| ==> row[j] == Times(g, coef[j], base)
  }

  /** Collapses a row of buckets with two running sums and one final doubling. */
  method FoldBuckets<T(!new)>(g: Group<T>, row: seq<T>, ghost base: T, ghost coef: seq<int>) returns (r: T)
    requires g.Laws() && |row| >= 1 && Holds(g, base, row, coef)
    ensures r == Times(g, Weighted(coef, 0), base)
  {
    hide Times, Weighted, Suffix, SuffixSum;
    var buckets := row;
    var n := |row|;
    r := buckets[n - 1];
    WeightedBySuffixes(coef, 0);
    SuffixStep(coef, n - 1);
    if |buckets| > 1 {
      var j := |buckets| - 2;
      while j >= 1
        invariant 0 <= j <= n - 2 && |buckets| == n
        invariant forall k :: 0 <= k <= j ==> buckets[k] == row[k]
        invariant buckets[j + 1] == Times(g, Suffix(coef, j + 1), base)
        invariant r == Times(g, SuffixSum(coef, j + 1), base)
      {
        SuffixStep(coef, j);
        TimesAdd(g, coef[j], Suffix(coef, j + 1), base);
        buckets := buckets[j := g.add(buckets[j], buckets[j + 1])];
        TimesAdd(g, SuffixSum(coef, j + 1), Suffix(coef, j), base);
        r := g.add(r, buckets[j]);
        j := j - 1;
      }
      SuffixStep(coef, 0);
      TimesAdd(g, coef[0], Suffix(coef, 1), base);
      buckets := buckets[0 := g.add(buckets[0], buckets[1])];
      TimesDouble(g, SuffixSum(coef, 1), base);
      TimesAdd(g, 2 * SuffixSum(coef, 1), Suffix(coef, 0), base);
      r := g.add(g.Double(r), buckets[0]);
    }
  }

  // ----- the main loop

  /** What the main loop needs to know of a slider. */
  datatype View = View(backlog: int, finished: bool, begin: nat) {
    ghost predicate Behind(pos: nat) {
      !finished && begin < pos
    }

    /** Either work was handed out, or nothing changed. */
    ghost predicate Progresses(next: View) {
      next == this || 0 <= next.backlog < backlog
    }
  }

  /** Slider s and bucket row, weighed by coef, together still account for exponent e. */
  ghost predicate Tracks<T(!new)>(g: Group<T>, base: T, s: WindowSlider, row: seq<T>, coef: seq<int>, e: nat, v: View)
    reads s
  {
    && s.Valid() && !s.firstTime
    && |row| == Pow2(s.windowSize - 1)
    && Holds(g, base, row, coef)
    && Weighted(coef, 0) + s.Remaining() == e
    && v == View(s.Pending(), s.finished, s.windowBegin) && v.backlog >= 0
  }

  /** Starts a slider on its first window and gives it a row of empty buckets. */
  method StartSlider<T(!new)>(g: Group<T>, ghost base: T, e: nat, inversionIsFast: bool)
    returns (s: WindowSlider, row: seq<T>, ghost coef: seq<int>, ghost v: View)
    requires g.Laws()
    ensures fresh(s) && Tracks(g, base, s, row, coef, e, v)
  {
    s := new WindowSlider(e, inversionIsFast, 0);
    s.FindNextWindow();
    row := seq(Pow2(s.windowSize - 1), _ => g.id);
    coef := seq(Pow2(s.windowSize - 1), _ => 0);
    v := View(s.Pending(), s.finished, s.windowBegin);
    WeightedZero(|coef|, 0);
  }

  lemma HoldsAdd<T(!new)>(g: Group<T>, base: T, row: seq<T>, coef: seq<int>, k: nat, d: int)
    requires g.Laws() && Holds(g, base, row, coef) && k < |row|
    ensures Holds(g, base, row[k := g.add(row[k], Times(g, d, base))], coef[k := coef[k] + d])
    ensures Weighted(coef[k := coef[k] + d], 0) == Weighted(coef, 0) + (2 * k + 1) * d
  {
    TimesAdd(g, coef[k], d, base);
    WeightedUpdate(coef, k, d, 0);
  }

  /** Puts the current power of two of the base into the bucket of the current digit. */
  method TakeWindow<T(!new)>(g: Group<T>, ghost base: T, power: T, ghost pos: nat, s: WindowSlider,
                             row: seq<T>, ghost coef: seq<int>, ghost e: nat, ghost v: View)
    returns (row': seq<T>, ghost coef': seq<int>, ghost v': View)
    requires g.Laws() && Tracks(g, base, s, row, coef, e, v)
    requires !s.finished && s.windowBegin == pos && power == Times(g, Pow2(pos), base)
    modifies s
    ensures Tracks(g, base, s, row', coef', e, v')
    ensures !v'.Behind(pos + 1) && v'.backlog < v.backlog
  {
    var k := s.expWindow / 2;
    assert Pow2(s.windowSize) == 2 * Pow2(s.windowSize - 1);
    ghost var d := SignedPower(s.negateNext, pos);
    DigitTerm(k, s.expWindow, s.negateNext, pos);
    HoldsAdd(g, base, row, coef, k, d);
    coef' := coef[k := coef[k] + d];
    TimesNegate(g, Pow2(pos), base);
    row' := row[k := g.add(row[k], if s.negateNext then g.inv(power) else power)];
    s.FindNextWindow();
    v' := View(s.Pending(), s.finished, s.windowBegin);
  }

  ghost function SignedPower(negative: bool, pos: nat): int {
    var p: int := Pow2(pos);
    if negative then -p else p
  }

  /** An odd window adds its weight in the bucket of half its size. */
  lemma DigitTerm(k: nat, window: nat, negative: bool, pos: nat)
    requires window % 2 == 1 && k == window / 2
    ensures (2 * k + 1) * SignedPower(negative, pos) == (if negative then 0 - window else window) * Pow2(pos)
  {
    assert 2 * k + 1 == window;
  }

  ghost predicate Distinct(sliders: seq<WindowSlider>) {
    forall i, j :: 0 <= i < j < |sliders| ==> sliders[i] != sliders[j]
  }

  ghost predicate AllTrack<T(!new)>(g: Group<T>, base: T, sliders: seq<WindowSlider>, buckets: seq<seq<T>>,
                                    coefs: seq<seq<int>>, exps: seq<nat>, views: seq<View>)
    reads sliders
  {
    && |sliders| == |buckets| == |coefs| == |views| == |exps|
    && Distinct(sliders)
    && forall i :: 0 <= i < |sliders| ==> Tracks(g, base, sliders[i], buckets[i], coefs[i], exps[i], views[i])
  }

  ghost predicate NoneBehind(views: seq<View>, pos: nat) {
    forall i :: 0 <= i < |views| ==> !views[i].Behind(pos)
  }

  /** One slider at one bit position: its window is taken if it begins here. */
  method VisitSlider<T(!new)>(g: Group<T>, ghost base: T, power: T, pos: nat, sliders: seq<WindowSlider>, i: nat,
                              buckets: seq<seq<T>>, ghost coefs: seq<seq<int>>, ghost exps: seq<nat>, ghost views: seq<View>)
    returns (busy: bool, buckets': seq<seq<T>>, ghost coefs': seq<seq<int>>, ghost views': seq<View>)
    requires g.Laws() && AllTrack(g, base, sliders, buckets, coefs, exps, views)
    requires i < |sliders| && power == Times(g, Pow2(pos), base) && !views[i].Behind(pos)
    modifies sliders[i]
    ensures AllTrack(g, base, sliders, buckets', coefs', exps, views')
    ensures forall k :: 0 <= k < |views| && k != i ==> views'[k] == views[k]
    ensures views[i].Progresses(views'[i]) && !views'[i].Behind(pos + 1)
    ensures busy == !views'[i].finished
  {
    buckets', coefs', views' := buckets, coefs, views;
    if !sliders[i].finished && pos == sliders[i].windowBegin {
      var row, coef, v := TakeWindow(g, base, power, pos, sliders[i], buckets[i], coefs[i], exps[i], views[i]);
      buckets', coefs', views' := buckets[i := row], coefs[i := coef], views[i := v];
      forall k | 0 <= k < |sliders|
        ensures Tracks(g, base, sliders[k], buckets'[k], coefs'[k], exps[k], views'[k])
      {
        if k != i {
          assert old(Tracks(g, base, sliders[k], buckets[k], coefs[k], exps[k], views[k]));
        }
      }
    }
    busy := !sliders[i].finished;
  }

  /** Visits every slider at one bit position. */
  method VisitPosition<T(!new)>(g: Group<T>, ghost base: T, power: T, pos: nat, sliders: seq<WindowSlider>,
                                buckets: seq<seq<T>>, ghost coefs: seq<seq<int>>, ghost exps: seq<nat>, ghost views: seq<View>)
    returns (notDone: bool, buckets': seq<seq<T>>, ghost coefs': seq<seq<int>>, ghost views': seq<View>)
    requires g.Laws() && AllTrack(g, base, sliders, buckets, coefs, exps, views)
    requires power == Times(g, Pow2(pos), base) && NoneBehind(views, pos)
    modifies sliders
    ensures AllTrack(g, base, sliders, buckets', coefs', exps, views')
    ensures NoneBehind(views', pos + 1)
    ensures notDone <==> exists i :: 0 <= i < |views'| && !views'[i].finished
    ensures forall i :: 0 <= i < |views| ==> views[i].Progresses(views'[i])
  {
    hide Tracks, Times, Pow2;
    notDone := false;
    buckets', coefs', views' := buckets, coefs, views;
    var i := 0;
    while i < |sliders|
      invariant 0 <= i <= |sliders|
      invariant AllTrack(g, base, sliders, buckets', coefs', exps, views')
      invariant forall k :: 0 <= k < i ==> views[k].Progresses(views'[k]) && !views'[k].Behind(pos + 1)
      invariant forall k :: i <= k < |views| ==> views'[k] == views[k]
      invariant notDone ==> exists k :: 0 <= k < i && !views'[k].finished
      invariant !notDone ==> forall k :: 0 <= k < i ==> views'[k].finished
    {
      var busy;
      busy, buckets', coefs', views' := VisitSlider(g, base, power, pos, sliders, i, buckets', coefs', exps, views');
      notDone := notDone || busy;
      i := i + 1;
    }
  }

  // ----- termination

  ghost function Backlog(views: seq<View>): int {
    if views == [] then 0 else views[0].backlog + Backlog(views[1..])
  }

  /** How far ahead the windows are that still have to be met. */
  ghost function Ahead(views: seq<View>, pos: nat): int {
    if views == [] then 0 else (if views[0].finished then 0 else views[0].begin - pos) + Ahead(views[1..], pos)
  }

  lemma {:induction false} BacklogShrinks(s: seq<View>, t: seq<View>)
    requires |s| == |t| && forall i :: 0 <= i < |s| ==> s[i].Progresses(t[i])
    ensures Backlog(t) <= Backlog(s)
    ensures Backlog(t) == Backlog(s) ==> s == t
  {
    if s != [] {
      BacklogShrinks(s[1..], t[1..]);
      assert s == [s[0]] + s[1..] && t == [t[0]] + t[1..];
    }
  }

  lemma {:induction false} BacklogNonNegative(s: seq<View>, pos: nat)
    requires forall i :: 0 <= i < |s| ==> s[i].backlog >= 0 && !s[i].Behind(pos)
    ensures Backlog(s) >= 0 && Ahead(s, pos) >= 0
  {
    if s != [] {
      BacklogNonNegative(s[1..], pos);
    }
  }

  lemma {:induction false} AheadShrinks(s: seq<View>, pos: nat)
    ensures Ahead(s, pos + 1) <= Ahead(s, pos)
    ensures (exists i :: 0 <= i < |s| && !s[i].finished) ==> Ahead(s, pos + 1) < Ahead(s, pos)
  {
    if s != [] {
      AheadShrinks(s[1..], pos);
      if i :| 0 <= i < |s| && !s[i].finished && i > 0 {
        assert !s[1..][i - 1].finished;
      }
    }
  }

  lemma DoublePower<T(!new)>(g: Group<T>, pos: nat, base: T)
    requires g.Laws()
    ensures g.Double(Times(g, Pow2(pos), base)) == Times(g, Pow2(pos + 1), base)
  {
    TimesDouble(g, Pow2(pos), base);
  }

  lemma AllHandedOut<T(!new)>(g: Group<T>, base: T, s: WindowSlider, row: seq<T>, coef: seq<int>, e: nat, v: View)
    requires Tracks(g, base, s, row, coef, e, v) && v.finished
    ensures Accounts(g, base, row, coef, e)
  {
  }

  method StartSliders<T(!new)>(g: Group<T>, ghost base: T, exps: seq<nat>, inversionIsFast: bool)
    returns (sliders: seq<WindowSlider>, buckets: seq<seq<T>>, ghost coefs: seq<seq<int>>, ghost views: seq<View>)
    requires g.Laws()
    ensures AllTrack(g, base, sliders, buckets, coefs, exps, views) && fresh(sliders)
  {
    hide Tracks;
    sliders, buckets, coefs, views := [], [], [], [];
    var i := 0;
    while i < |exps|
      invariant 0 <= i <= |exps| && |sliders| == i
      invariant AllTrack(g, base, sliders, buckets, coefs, exps[..i], views)
      invariant fresh(sliders)
    {
      var s, row, coef, v := StartSlider(g, base, exps[i], inversionIsFast);
      sliders, buckets, coefs, views := sliders + [s], buckets + [row], coefs + [coef], views + [v];
      i := i + 1;
    }
    assert exps[..i] == exps;
  }

  lemma PendingViews<T(!new)>(g: Group<T>, base: T, sliders: seq<WindowSlider>, buckets: seq<seq<T>>,
                              coefs: seq<seq<int>>, exps: seq<nat>, views: seq<View>)
    requires AllTrack(g, base, sliders, buckets, coefs, exps, views)
    ensures |views| == |exps| && NoneBehind(views, 0) && forall i :: 0 <= i < |views| ==> views[i].backlog >= 0
  {
  }

  /** Doubles the base until every slider is finished, filling the buckets on the way. */
  method FillBuckets<T(!new)>(g: Group<T>, base: T, sliders: seq<WindowSlider>, buckets: seq<seq<T>>,
                              ghost coefs: seq<seq<int>>, ghost exps: seq<nat>, ghost views: seq<View>)
    returns (buckets': seq<seq<T>>, ghost coefs': seq<seq<int>>, ghost views': seq<View>)
    requires g.Laws() && AllTrack(g, base, sliders, buckets, coefs, exps, views)
    modifies sliders
    ensures AllTrack(g, base, sliders, buckets', coefs', exps, views')
    ensures forall i :: 0 <= i < |exps| ==> views'[i].finished
  {
    buckets', coefs', views' := buckets, coefs, views;
    var expBitPosition: nat := 0;
    var power := base;
    TimesOne(g, base);
    PendingViews(g, base, sliders, buckets, coefs, exps, views);
    var notDone := true;
    assert power == Times(g, Pow2(expBitPosition), base);
    hide AllTrack, Times, Pow2, Backlog, Ahead;
    while notDone
      invariant AllTrack(g, base, sliders, buckets', coefs', exps, views')
      invariant power == Times(g, Pow2(expBitPosition), base)
      invariant NoneBehind(views', expBitPosition)
      invariant !notDone ==> forall i :: 0 <= i < |exps| ==> views'[i].finished
      decreases Backlog(views'), Ahead(views', expBitPosition), notDone
    {
      ghost var views0 := views';
      PendingViews(g, base, sliders, buckets', coefs', exps, views');
      BacklogNonNegative(views', expBitPosition);
      notDone, buckets', coefs', views' :=
        VisitPosition(g, base, power, expBitPosition, sliders, buckets', coefs', exps, views');
      PendingViews(g, base, sliders, buckets', coefs', exps, views');
      BacklogShrinks(views0, views');
      AheadShrinks(views', expBitPosition);
      if notDone {
        DoublePower(g, expBitPosition, base);
        power := g.Double(power);
        expBitPosition := expBitPosition + 1;
      }
    }
  }

  /** Every slot of results receives its exponent times the base, in any group. */
  method SimultaneousMultiply<T(!new)>(g: Group<T>, inversionIsFast: bool, results: array<T>, base: T, exps: seq<nat>)
    requires g.Laws() && |exps| <= results.Length
    modifies results
    ensures forall i :: 0 <= i < |exps| ==> results[i] == Times(g, exps[i], base)
    ensures forall i :: |exps| <= i < results.Length ==> results[i] == old(results[i])
  {
    var sliders, buckets, coefs, views := StartSliders(g, base, exps, inversionIsFast);
    buckets, coefs, views := FillBuckets(g, base, sliders, buckets, coefs, exps, views);
    forall i | 0 <= i < |exps| ensures Accounts(g, base, buckets[i], coefs[i], exps[i]) {
      AllHandedOut(g, base, sliders[i], buckets[i], coefs[i], exps[i], views[i]);
    }
    CollectResults(g, results, base, buckets, coefs, exps);
  }

  /** A bucket row that stands for exponent e. */
  ghost predicate Accounts<T(!new)>(g: Group<T>, base: T, row: seq<T>, coef: seq<int>, e: nat) {
    |row| >= 1 && Holds(g, base, row, coef) && Weighted(coef, 0) == e
  }

  method CollectResults<T(!new)>(g: Group<T>, results: array<T>, ghost base: T, buckets: seq<seq<T>>,
                                 ghost coefs: seq<seq<int>>, ghost exps: seq<nat>)
    requires g.Laws() && |buckets| == |coefs| == |exps| <= results.Length
    requires forall i :: 0 <= i < |exps| ==> Accounts(g, base, buckets[i], coefs[i], exps[i])
    modifies results
    ensures forall i :: 0 <= i < |exps| ==> results[i] == Times(g, exps[i], base)
    ensures forall i :: |exps| <= i < results.Length ==> results[i] == old(results[i])
  {
    var i := 0;
    while i < |buckets|
      invariant 0 <= i <= |buckets|
      invariant forall k :: 0 <= k < i ==> results[k] == Times(g, exps[k], base)
      invariant forall k :: |exps| <= k < results.Length ==> results[k] == old(results[k])
    {
      assert Accounts(g, base, buckets[i], coefs[i], exps[i]);
      var r := FoldBuckets(g, buckets[i], base, coefs[i]);
      results[i] := r;
      i := i + 1;
    }
  }

  /** One multiplication, as a list of one exponent. */
  method ScalarMultiply<T(!new)>(g: Group<T>, inversionIsFast: bool, base: T, exponent: nat) returns (result: T)
    requires g.Laws()
    ensures result == Times(g, exponent, base)
  {
    var results := new T[1](_ => g.id);
    SimultaneousMultiply(g, inversionIsFast, results, base, [exponent]);
    result := results[0];
    assert [exponent][0] == exponent;
  }
}
