/** Bit strings, high bit first, and buffers of fixed-width cells that are filled bit by bit. */
module BitStrings {
  import opened Bits
  import opened Sequences

  function BitsOf(v: nat, n: nat): (s: seq<bool>)
    ensures |s| == n
  {
    if n == 0 then [] else BitsOf(v / 2, n - 1) + [v % 2 == 1]
  }

  function Zeros(n: nat): (s: seq<bool>)
    ensures |s| == n
  {
    seq(n, _ => false)
  }

  /** All bits of a sequence of w-bit values. */
  function Flatten(values: seq<nat>, w: nat): seq<bool> {
    if values == [] then []
    else
      var n := |values| - 1;
      Flatten(values[..n], w) + BitsOf(values[n], w)
  }

  function FromBits(s: seq<bool>): (v: nat)
    ensures v < Pow2(|s|)
  {
    if s == [] then 0 else 2 * FromBits(s[..|s| - 1]) + if s[|s| - 1] then 1 else 0
  }

  /** Cuts a bit string into w-bit values; bits that do not fill a value are dropped. */
  function Pack(s: seq<bool>, w: nat): seq<nat>
    requires w > 0
  {
    if |s| < w then [] else [FromBits(s[..w])] + Pack(s[w..], w)
  }

  ghost predicate Fits(values: seq<nat>, w: nat) {
    forall i :: 0 <= i < |values| ==> values[i] < Pow2(w)
  }

  lemma {:induction false} BitsOfFromBits(s: seq<bool>)
    ensures BitsOf(FromBits(s), |s|) == s
  {
    if s != [] {
      BitsOfFromBits(s[..|s| - 1]);
    }
  }

  lemma {:induction false} FromBitsOfBits(v: nat, n: nat)
    requires v < Pow2(n)
    ensures FromBits(BitsOf(v, n)) == v
  {
    if n > 0 {
      FromBitsOfBits(v / 2, n - 1);
      assert BitsOf(v, n)[..n - 1] == BitsOf(v / 2, n - 1);
    }
  }

  lemma ShiftHalf(hi: nat, lo: nat, u: nat)
    ensures (hi * (2 * u) + lo) / 2 == hi * u + lo / 2 && (hi * (2 * u) + lo) % 2 == lo % 2
  {
    assert hi * (2 * u) == 2 * (hi * u);
  }

  /** The bits of a value are those of its high part followed by those of its low part. */
  lemma {:induction false} BitsOfParts(hi: nat, a: nat, lo: nat, b: nat)
    requires lo < Pow2(b)
    ensures BitsOf(hi * Pow2(b) + lo, a + b) == BitsOf(hi, a) + BitsOf(lo, b)
  {
    if b > 0 {
      ShiftHalf(hi, lo, Pow2(b - 1));
      BitsOfParts(hi, a, lo / 2, b - 1);
    }
  }

  lemma {:induction false} BitsOfZero(n: nat)
    ensures BitsOf(0, n) == Zeros(n)
  {
    if n > 0 {
      BitsOfZero(n - 1);
    }
  }

  lemma FlattenAppend(values: seq<nat>, v: nat, w: nat)
    ensures Flatten(values + [v], w) == Flatten(values, w) + BitsOf(v, w)
  {
    assert (values + [v])[..|values|] == values;
  }

  lemma {:induction false} FlattenConcat(a: seq<nat>, b: seq<nat>, w: nat)
    ensures Flatten(a + b, w) == Flatten(a, w) + Flatten(b, w)
  {
    if b == [] {
      assert a + b == a;
    } else {
      hide *;
      var n := |b| - 1;
      FlattenConcat(a, b[..n], w);
      FlattenAppend(a + b[..n], b[n], w);
      FlattenAppend(b[..n], b[n], w);
      Reassociate(a, b[..n], [b[n]]);
      Reassociate(Flatten(a, w), Flatten(b[..n], w), BitsOf(b[n], w));
      assert b == b[..n] + [b[n]];
    }
  }

  lemma FlattenOne(v: nat, w: nat)
    ensures Flatten([v], w) == BitsOf(v, w)
  {
    assert [v][..0] == [];
  }

  lemma FitsFront(values: seq<nat>, w: nat)
    requires Fits(values, w) && values != []
    ensures values[0] < Pow2(w) && Fits(values[1..], w)
  {
  }

  lemma PackFront(front: seq<bool>, rest: seq<bool>, w: nat)
    requires w > 0 && |front| == w
    ensures Pack(front + rest, w) == [FromBits(front)] + Pack(rest, w)
  {
    assert (front + rest)[..w] == front;
    assert (front + rest)[w..] == rest;
  }

  /** Cutting undoes flattening, whatever incomplete group follows. */
  lemma {:induction false} PackFlatten(values: seq<nat>, w: nat, rest: seq<bool>)
    requires w > 0 && Fits(values, w) && |rest| < w
    ensures Pack(Flatten(values, w) + rest, w) == values
  {
    if values == [] {
      assert Flatten(values, w) + rest == rest;
    } else {
      FitsFront(values, w);
      hide *;
      var tail := values[1..];
      FlattenConcat([values[0]], tail, w);
      FlattenOne(values[0], w);
      assert [values[0]] + tail == values;
      Reassociate(BitsOf(values[0], w), Flatten(tail, w), rest);
      PackFront(BitsOf(values[0], w), Flatten(tail, w) + rest, w);
      FromBitsOfBits(values[0], w);
      PackFlatten(tail, w, rest);
    }
  }

  /** What cutting into w-bit values leaves over. */
  function LeftOver(s: seq<bool>, w: nat): (r: seq<bool>)
    requires w > 0
    ensures |r| < w
  {
    if |s| < w then s else LeftOver(s[w..], w)
  }

  lemma {:induction false} PackFits(s: seq<bool>, w: nat)
    requires w > 0
    ensures Fits(Pack(s, w), w)
  {
    if |s| >= w {
      PackFits(s[w..], w);
    }
  }

  lemma CutNothing(s: seq<bool>, w: nat)
    requires |s| < w
    ensures Flatten(Pack(s, w), w) == [] && LeftOver(s, w) == s
  {
  }

  lemma CutFront(s: seq<bool>, w: nat)
    requires 0 < w <= |s|
    ensures Pack(s, w) == [FromBits(s[..w])] + Pack(s[w..], w) && LeftOver(s, w) == LeftOver(s[w..], w)
  {
  }

  lemma {:induction false} FlattenPack(s: seq<bool>, w: nat)
    requires w > 0
    ensures Flatten(Pack(s, w), w) + LeftOver(s, w) == s
  {
    hide *;
    if |s| < w {
      CutNothing(s, w);
    } else {
      CutFront(s, w);
      var values, rest := Pack(s[w..], w), LeftOver(s[w..], w);
      FlattenPack(s[w..], w);
      FlattenCons(s[..w], values, w);
      Reassociate(s[..w], Flatten(values, w), rest);
      assert s[..w] + s[w..] == s;
    }
  }

  lemma FlattenCons(head: seq<bool>, values: seq<nat>, w: nat)
    requires |head| == w
    ensures FromBits(head) < Pow2(w) && Flatten([FromBits(head)] + values, w) == head + Flatten(values, w)
  {
    hide Flatten, BitsOf, FromBits, Pow2;
    FlattenConcat([FromBits(head)], values, w);
    FlattenOne(FromBits(head), w);
    BitsOfFromBits(head);
  }

  lemma {:induction false} FlattenLength(values: seq<nat>, w: nat)
    ensures |Flatten(values, w)| == |values| * w
  {
    if values != [] {
      var n := |values| - 1;
      FlattenLength(values[..n], w);
      NextProduct(n, w);
    }
  }

  // ----- bitwise or

  /** The bitwise or of two numbers. */
  function Or(a: nat, b: nat): nat
    decreases a + b
  {
    if a == 0 && b == 0 then 0
    else 2 * Or(a / 2, b / 2) + if a % 2 == 1 || b % 2 == 1 then 1 else 0
  }

  lemma {:induction false} OrZero(a: nat)
    ensures Or(a, 0) == a
  {
    if a > 0 {
      OrZero(a / 2);
    }
  }

  /** Bits that do not overlap are added. */
  lemma {:induction false} OrDisjoint(hi: nat, lo: nat, t: nat)
    requires lo < Pow2(t)
    ensures Or(hi * Pow2(t), lo) == hi * Pow2(t) + lo
  {
    if t == 0 {
      OrZero(hi);
    } else {
      ShiftHalf(hi, 0, Pow2(t - 1));
      ShiftHalf(hi, lo, Pow2(t - 1));
      OrDisjoint(hi, lo / 2, t - 1);
    }
  }

  // ----- cell buffers

  /** A buffer of w-bit cells: the first bytePos are full, the next one has `tail` as its high bits,
    and everything else is zero. */
  ghost predicate Holds(buf: seq<nat>, w: nat, bytePos: nat, tail: seq<bool>) {
    && |tail| < w && bytePos <= |buf|
    && Fits(buf[..bytePos], w)
    && (bytePos < |buf| ==> buf[bytePos] == Shl(FromBits(tail), w - |tail|))
    && forall j :: bytePos < j < |buf| ==> buf[j] == 0
  }

  /** The bits in the buffer. */
  ghost function Content(buf: seq<nat>, w: nat, bytePos: nat, tail: seq<bool>): seq<bool>
    requires bytePos <= |buf|
  {
    Flatten(buf[..bytePos], w) + tail
  }

  lemma PartsBelow(hi: nat, a: nat, lo: nat, b: nat)
    requires hi < a && lo < b
    ensures hi * b + lo < a * b
  {
    MulMonotone(hi + 1, a, b);
    NextProduct(hi, b);
  }

  lemma {:induction false} FromBitsConcat(s: seq<bool>, r: nat, n: nat)
    requires r < Pow2(n)
    ensures FromBits(s + BitsOf(r, n)) == FromBits(s) * Pow2(n) + r
  {
    if n == 0 {
      assert s + BitsOf(r, 0) == s;
    } else {
      var low := BitsOf(r / 2, n - 1);
      FromBitsConcat(s, r / 2, n - 1);
      FromBitsAppend(s + low, r % 2 == 1);
      Reassociate(s, low, [r % 2 == 1]);
      TwiceProduct(FromBits(s), Pow2(n - 1));
    }
  }

  lemma FromBitsAppend(s: seq<bool>, b: bool)
    ensures FromBits(s + [b]) == 2 * FromBits(s) + if b then 1 else 0
  {
    assert (s + [b])[..|s|] == s;
  }

  lemma TwiceProduct(h: int, u: int)
    ensures 2 * (h * u) == h * (2 * u)
  {
  }

  lemma Factor(h: nat, a: nat, r: nat, b: nat)
    ensures h * (a * b) + r * b == (h * a + r) * b
  {
    assert (h * a + r) * b == (h * a) * b + r * b;
    assert (h * a) * b == h * (a * b);
  }

  /** The new value of a cell when n bits go in after the tail, with room to spare. */
  lemma PartValue(tail: seq<bool>, r: nat, n: nat, rest: nat)
    requires r < Pow2(n)
    ensures Or(Shl(FromBits(tail), n + rest), Shl(r, rest)) == Shl(FromBits(tail + BitsOf(r, n)), rest)
  {
    Pow2Add(n, rest);
    PartsBelow(r, Pow2(n), 0, Pow2(rest));
    OrDisjoint(FromBits(tail), r * Pow2(rest), n + rest);
    FromBitsConcat(tail, r, n);
    Factor(FromBits(tail), Pow2(n), r, Pow2(rest));
  }

  lemma PartCell(cell: nat, w: nat, tail: seq<bool>, r: nat, n: nat)
    requires |tail| + n <= w && r < Pow2(n) && cell == Shl(FromBits(tail), w - |tail|)
    ensures Or(cell, Shl(r, w - |tail| - n)) == Shl(FromBits(tail + BitsOf(r, n)), w - |tail + BitsOf(r, n)|)
  {
    var rest := w - |tail| - n;
    PartValue(tail, r, n, rest);
    assert n + rest == w - |tail| && |tail + BitsOf(r, n)| == |tail| + n;
  }

  lemma CellInProgress(buf: seq<nat>, w: nat, bytePos: nat, tail: seq<bool>)
    requires Holds(buf, w, bytePos, tail) && bytePos < |buf|
    ensures buf[bytePos] == Shl(FromBits(tail), w - |tail|)
  {
  }

  /** A new value for the cell in progress. */
  lemma PutCell(buf: seq<nat>, w: nat, bytePos: nat, tail: seq<bool>, v: nat, tail': seq<bool>)
    requires Holds(buf, w, bytePos, tail) && bytePos < |buf| && |tail'| < w && v == Shl(FromBits(tail'), w - |tail'|)
    ensures Holds(buf[bytePos := v], w, bytePos, tail')
    ensures Content(buf[bytePos := v], w, bytePos, tail') == Flatten(buf[..bytePos], w) + tail'
  {
    assert buf[bytePos := v][..bytePos] == buf[..bytePos];
  }

  /** The final value of the cell in progress. */
  lemma FinishCell(buf: seq<nat>, w: nat, bytePos: nat, tail: seq<bool>, full: seq<bool>)
    requires Holds(buf, w, bytePos, tail) && bytePos < |buf| && |full| == w
    ensures var buf' := buf[bytePos := FromBits(full)];
            && Holds(buf', w, bytePos + 1, [])
            && Content(buf', w, bytePos + 1, []) == Flatten(buf[..bytePos], w) + full
  {
    var buf' := buf[bytePos := FromBits(full)];
    assert buf'[..bytePos + 1] == buf[..bytePos] + [FromBits(full)];
    FlattenAppend(buf[..bytePos], FromBits(full), w);
    BitsOfFromBits(full);
    assert FromBits([]) == 0;
  }

  /** Or-ing in n bits that do not fill the cell. */
  lemma PutPart(buf: seq<nat>, w: nat, bytePos: nat, tail: seq<bool>, r: nat, n: nat)
    requires Holds(buf, w, bytePos, tail) && bytePos < |buf| && |tail| + n < w && r < Pow2(n)
    ensures var buf' := buf[bytePos := Or(buf[bytePos], Shl(r, w - |tail| - n))];
            && Holds(buf', w, bytePos, tail + BitsOf(r, n))
            && Content(buf', w, bytePos, tail + BitsOf(r, n)) == Content(buf, w, bytePos, tail) + BitsOf(r, n)
  {
    CellInProgress(buf, w, bytePos, tail);
    hide Flatten, BitsOf, FromBits, Or, Pow2, Holds, Shl;
    PartCell(buf[bytePos], w, tail, r, n);
    PutCell(buf, w, bytePos, tail, Or(buf[bytePos], Shl(r, w - |tail| - n)), tail + BitsOf(r, n));
    Reassociate(Flatten(buf[..bytePos], w), tail, BitsOf(r, n));
  }

  /** Or-ing in the bits that complete the cell. */
  lemma PutRest(buf: seq<nat>, w: nat, bytePos: nat, tail: seq<bool>, top: nat)
    requires Holds(buf, w, bytePos, tail) && bytePos < |buf| && top < Pow2(w - |tail|)
    ensures var buf' := buf[bytePos := Or(buf[bytePos], top)];
            && Holds(buf', w, bytePos + 1, [])
            && Content(buf', w, bytePos + 1, []) == Content(buf, w, bytePos, tail) + BitsOf(top, w - |tail|)
  {
    CellInProgress(buf, w, bytePos, tail);
    hide Flatten, BitsOf, FromBits, Or, Pow2, Holds, Shl;
    var n := w - |tail|;
    PartValue(tail, top, n, 0);
    ShlZero(top);
    ShlZero(FromBits(tail + BitsOf(top, n)));
    FinishCell(buf, w, bytePos, tail, tail + BitsOf(top, n));
    Reassociate(Flatten(buf[..bytePos], w), tail, BitsOf(top, n));
  }
}
