/** Encoding bytes as characters of 1 to 7 bits and back, and grouping of the characters:
  3rdParty/cryptopp890/basecode.cpp, lines 14-235.
*/
module BaseCode {
  import opened Bits
  import opened BitStrings
  import opened Sequences

  // ----- what the codecs compute, on whole messages

  function Translate(alphabet: seq<byte>, values: seq<nat>): (s: seq<byte>)
    requires forall i :: 0 <= i < |values| ==> values[i] < |alphabet|
    ensures |s| == |values|
  {
    seq(|values|, i requires 0 <= i < |values| => alphabet[values[i]])
  }

  /** Cuts into w-bit values, completing the last one with zero bits. */
  function PackPadded(s: seq<bool>, w: nat): seq<nat>
    requires w > 0
  {
    var rest := LeftOver(s, w);
    Pack(s, w) + if rest == [] then [] else [FromBits(rest + Zeros(w - |rest|))]
  }

  /** How many padding characters complete a block. */
  function PaddingCount(n: nat, blockSize: nat): nat
    requires blockSize > 0
  {
    (blockSize - n % blockSize) % blockSize
  }

  function Padding(padding: int, n: nat, blockSize: nat): seq<byte>
    requires blockSize > 0 && -1 <= padding < 256
  {
    if padding == -1 then [] else seq(PaddingCount(n, blockSize), _ => padding)
  }

  /** The text of a message. */
  ghost function EncodeText(alphabet: seq<byte>, k: nat, padding: int, blockSize: nat, message: seq<byte>): seq<byte>
    requires k > 0 && blockSize > 0 && |alphabet| == Pow2(k) && -1 <= padding < 256
  {
    var values := PackPadded(Flatten(message, 8), k);
    PackPaddedFits(Flatten(message, 8), k);
    Translate(alphabet, values) + Padding(padding, |values|, blockSize)
  }

  predicate Skipped(v: int) {
    v < 0 || v >= 256
  }

  /** The values of the characters that are not skipped. */
  function LookupAll(lookup: seq<int>, text: seq<byte>): seq<nat>
    requires |lookup| == 256
  {
    if text == [] then []
    else
      var v := lookup[text[|text| - 1]];
      LookupAll(lookup, text[..|text| - 1]) + if Skipped(v) then [] else [v]
  }

  function DecodeText(lookup: seq<int>, k: nat, text: seq<byte>): seq<nat>
    requires |lookup| == 256
  {
    Pack(Flatten(LookupAll(lookup, text), k), 8)
  }

  // ----- the round trip

  lemma PackPaddedFits(s: seq<bool>, k: nat)
    requires k > 0
    ensures Fits(PackPadded(s, k), k)
  {
    PackFits(s, k);
  }

  /** Flattening the padded values gives the bits back, with fewer than k zeros behind. */
  lemma FlattenPackPadded(s: seq<bool>, k: nat) returns (extra: nat)
    requires k > 0
    ensures extra < k && Flatten(PackPadded(s, k), k) == s + Zeros(extra)
  {
    var values, rest := Pack(s, k), LeftOver(s, k);
    FlattenPack(s, k);
    if rest == [] {
      extra := 0;
      assert PackPadded(s, k) == values;
      assert s + Zeros(0) == s == Flatten(values, k);
    } else {
      extra := k - |rest|;
      var last := rest + Zeros(extra);
      calc {
        Flatten(values + [FromBits(last)], k);
        { FlattenAppend(values, FromBits(last), k); }
        Flatten(values, k) + BitsOf(FromBits(last), k);
        { BitsOfFromBits(last); }
        Flatten(values, k) + (rest + Zeros(extra));
        { Reassociate(Flatten(values, k), rest, Zeros(extra)); }
        s + Zeros(extra);
      }
    }
  }

  lemma {:induction false} LookupConcat(lookup: seq<int>, a: seq<byte>, b: seq<byte>)
    requires |lookup| == 256
    ensures LookupAll(lookup, a + b) == LookupAll(lookup, a) + LookupAll(lookup, b)
  {
    if b == [] {
      assert a + b == a;
    } else {
      var n := |b| - 1;
      LookupConcat(lookup, a, b[..n]);
      assert a + b == a + b[..n] + [b[n]] && b == b[..n] + [b[n]];
      LookupAppend(lookup, a + b[..n], b[n]);
      LookupAppend(lookup, b[..n], b[n]);
    }
  }

  lemma LookupAppend(lookup: seq<int>, text: seq<byte>, c: byte)
    requires |lookup| == 256
    ensures LookupAll(lookup, text + [c]) == LookupAll(lookup, text) + if Skipped(lookup[c]) then [] else [lookup[c]]
  {
    assert (text + [c])[..|text|] == text;
  }

  /** The table gives every character of the alphabet its position. */
  ghost predicate Matches(lookup: seq<int>, alphabet: seq<byte>) {
    |lookup| == 256 && |alphabet| <= 256 && forall v :: 0 <= v < |alphabet| ==> lookup[alphabet[v]] == v
  }

  lemma {:induction false} LookupTranslated(lookup: seq<int>, alphabet: seq<byte>, values: seq<nat>)
    requires Matches(lookup, alphabet) && forall i :: 0 <= i < |values| ==> values[i] < |alphabet|
    ensures LookupAll(lookup, Translate(alphabet, values)) == values
  {
    if values != [] {
      var n := |values| - 1;
      LookupTranslated(lookup, alphabet, values[..n]);
      var text := Translate(alphabet, values);
      assert text[..n] == Translate(alphabet, values[..n]);
      assert text[n] == alphabet[values[n]];
      assert values == values[..n] + [values[n]];
    }
  }

  ghost predicate AllSkipped(lookup: seq<int>, text: seq<byte>)
    requires |lookup| == 256
  {
    forall i :: 0 <= i < |text| ==> Skipped(lookup[text[i]])
  }

  lemma {:induction false} LookupSkipped(lookup: seq<int>, text: seq<byte>)
    requires |lookup| == 256 && AllSkipped(lookup, text)
    ensures LookupAll(lookup, text) == []
  {
    if text != [] {
      LookupSkipped(lookup, text[..|text| - 1]);
    }
  }

  /** The bits of a message with fewer than eight zeros behind decode to the message. */
  lemma DecodePadded(message: seq<byte>, extra: nat)
    requires extra < 8
    ensures Pack(Flatten(message, 8) + Zeros(extra), 8) == message
  {
    assert Pow2(8) == 256 by {
      assert Pow2(4) == 16;
    }
    PackFlatten(message, 8, Zeros(extra));
  }

  /** Any text with the same unskipped characters as the encoding decodes to the message. */
  lemma DecodeSameValues(alphabet: seq<byte>, lookup: seq<int>, k: nat, message: seq<byte>, text: seq<byte>)
    requires 1 <= k <= 7 && |alphabet| == Pow2(k) && |lookup| == 256
    requires LookupAll(lookup, text) == PackPadded(Flatten(message, 8), k)
    ensures DecodeText(lookup, k, text) == message
  {
    var extra := FlattenPackPadded(Flatten(message, 8), k);
    DecodePadded(message, extra);
  }

  lemma LookupEncoded(alphabet: seq<byte>, lookup: seq<int>, k: nat, padding: int, blockSize: nat, message: seq<byte>)
    requires k > 0 && blockSize > 0 && |alphabet| == Pow2(k) && Matches(lookup, alphabet)
    requires -1 <= padding < 256 && (padding >= 0 ==> Skipped(lookup[padding]))
    ensures LookupAll(lookup, EncodeText(alphabet, k, padding, blockSize, message)) == PackPadded(Flatten(message, 8), k)
  {
    var values := PackPadded(Flatten(message, 8), k);
    PackPaddedFits(Flatten(message, 8), k);
    var pad := Padding(padding, |values|, blockSize);
    LookupConcat(lookup, Translate(alphabet, values), pad);
    LookupTranslated(lookup, alphabet, values);
    LookupSkipped(lookup, pad);
  }

  /** Decoding undoes encoding: every width from 1 to 7, every alphabet with its table, with or without
    a padding character that the table skips. */
  lemma RoundTrip(alphabet: seq<byte>, lookup: seq<int>, k: nat, padding: int, blockSize: nat, message: seq<byte>)
    requires 1 <= k <= 7 && blockSize > 0 && |alphabet| == Pow2(k) && Matches(lookup, alphabet)
    requires -1 <= padding < 256 && (padding >= 0 ==> Skipped(lookup[padding]))
    ensures DecodeText(lookup, k, EncodeText(alphabet, k, padding, blockSize, message)) == message
  {
    LookupEncoded(alphabet, lookup, k, padding, blockSize, message);
    DecodeSameValues(alphabet, lookup, k, message, EncodeText(alphabet, k, padding, blockSize, message));
  }

  // ----- the encoding of RFC 4648, section 4: six bits per character

  /** Whole values in front of other bits are cut off first. */
  lemma {:induction false} PackValues(values: seq<nat>, w: nat, rest: seq<bool>)
    requires w > 0 && Fits(values, w)
    ensures PackPadded(Flatten(values, w) + rest, w) == values + PackPadded(rest, w)
  {
    hide *;
    if values == [] {
      NoValues(w, rest);
    } else {
      FitsFront(values, w);
      var tail := values[1..];
      FlattenConcat([values[0]], tail, w);
      FlattenOne(values[0], w);
      assert [values[0]] + tail == values;
      Reassociate(BitsOf(values[0], w), Flatten(tail, w), rest);
      Reassociate([values[0]], tail, PackPadded(rest, w));
      PaddedFront(BitsOf(values[0], w), Flatten(tail, w) + rest, w);
      FromBitsOfBits(values[0], w);
      PackValues(tail, w, rest);
    }
  }

  lemma NoValues(w: nat, rest: seq<bool>)
    ensures Flatten([], w) + rest == rest
  {
  }

  lemma PaddedFront(front: seq<bool>, rest: seq<bool>, w: nat)
    requires w > 0 && |front| == w
    ensures PackPadded(front + rest, w) == [FromBits(front)] + PackPadded(rest, w)
  {
    hide Pack, LeftOver, FromBits, Pow2;
    CutFront(front + rest, w);
    assert (front + rest)[..w] == front && (front + rest)[w..] == rest;
    var more := LeftOver(rest, w);
    Reassociate([FromBits(front)], Pack(rest, w), if more == [] then [] else [FromBits(more + Zeros(w - |more|))]);
  }

  /** The three bytes and the four values have the same bits. */
  lemma SameBits(a: byte, b: byte, c: byte)
    ensures BitsOf(a, 8) == BitsOf(a / 4, 6) + BitsOf(a % 4, 2)
    ensures BitsOf(a % 4, 2) + BitsOf(b, 8) == BitsOf(a % 4 * 16 + b / 16, 6) + BitsOf(b % 16, 4)
    ensures BitsOf(b % 16, 4) + BitsOf(c, 8) == BitsOf(b % 16 * 4 + c / 64, 6) + BitsOf(c % 64, 6)
  {
    Pow2Small();
    hide *;
    BitsOfParts(a / 4, 6, a % 4, 2);
    BitsOfParts(b / 16, 4, b % 16, 4);
    BitsOfParts(a % 4, 2, b / 16, 4);
    Reassociate(BitsOf(a % 4, 2), BitsOf(b / 16, 4), BitsOf(b % 16, 4));
    BitsOfParts(c / 64, 2, c % 64, 6);
    BitsOfParts(b % 16, 4, c / 64, 2);
    Reassociate(BitsOf(b % 16, 4), BitsOf(c / 64, 2), BitsOf(c % 64, 6));
  }

  /** Three bytes give four values, and the bytes behind them give theirs. */
  lemma ThreeBytes(a: byte, b: byte, c: byte, rest: seq<byte>)
    ensures PackPadded(Flatten([a, b, c] + rest, 8), 6)
         == [a / 4, a % 4 * 16 + b / 16, b % 16 * 4 + c / 64, c % 64] + PackPadded(Flatten(rest, 8), 6)
  {
    Pow2Small();
    var values: seq<nat> := [a / 4, a % 4 * 16 + b / 16, b % 16 * 4 + c / 64, c % 64];
    assert Fits(values, 6);
    hide *;
    ThreeFlattened(a, b, c);
    FlattenConcat([a, b, c], rest, 8);
    PackValues(values, 6, Flatten(rest, 8));
  }

  lemma ThreeFlattened(a: byte, b: byte, c: byte)
    ensures Flatten([a, b, c], 8) == Flatten([a / 4, a % 4 * 16 + b / 16, b % 16 * 4 + c / 64, c % 64], 6)
  {
    hide *;
    SameBits(a, b, c);
    var x, y, z: seq<bool> := BitsOf(a / 4, 6), BitsOf(a % 4 * 16 + b / 16, 6), BitsOf(b % 16 * 4 + c / 64, 6);
    FlattenThree([a as nat, b, c], 8);
    FlattenThree([(a / 4) as nat, a % 4 * 16 + b / 16, b % 16 * 4 + c / 64], 6);
    FlattenAppend([(a / 4) as nat, a % 4 * 16 + b / 16, b % 16 * 4 + c / 64], c % 64, 6);
    assert [(a / 4) as nat, a % 4 * 16 + b / 16, b % 16 * 4 + c / 64] + [(c % 64) as nat] == [(a / 4) as nat, a % 4 * 16 + b / 16, b % 16 * 4 + c / 64, c % 64];
    calc {
      BitsOf(a, 8) + BitsOf(b, 8) + BitsOf(c, 8);
      x + BitsOf(a % 4, 2) + BitsOf(b, 8) + BitsOf(c, 8);
      { Reassociate(x, BitsOf(a % 4, 2), BitsOf(b, 8)); Reassociate(x, y, BitsOf(b % 16, 4)); }
      x + y + BitsOf(b % 16, 4) + BitsOf(c, 8);
      { Reassociate(x + y, BitsOf(b % 16, 4), BitsOf(c, 8)); Reassociate(x + y, z, BitsOf(c % 64, 6)); }
      x + y + z + BitsOf(c % 64, 6);
    }
  }

  lemma FlattenThree(values: seq<nat>, w: nat)
    requires |values| == 3
    ensures Flatten(values, w) == BitsOf(values[0], w) + BitsOf(values[1], w) + BitsOf(values[2], w)
  {
    hide BitsOf;
    FlattenOne(values[0], w);
    FlattenAppend([values[0]], values[1], w);
    FlattenAppend([values[0]] + [values[1]], values[2], w);
    hide *;
    assert [values[0]] + [values[1]] + [values[2]] == values;
  }

  /** One byte at the end gives two values; the bits missing are zero. */
  lemma LastByte(a: byte)
    ensures PackPadded(Flatten([a], 8), 6) == [a / 4, a % 4 * 16]
  {
    Pow2Small();
    var values: seq<nat> := [a / 4];
    assert Fits(values, 6) && Shl(a % 4, 4) == a % 4 * 16;
    hide *;
    SameBits(a, 0, 0);
    FlattenOne(a, 8);
    FlattenOne(a / 4, 6);
    PackValues(values, 6, BitsOf(a % 4, 2));
    LastBits(a % 4, 2);
  }

  /** Two bytes give three. */
  lemma LastTwoBytes(a: byte, b: byte)
    ensures PackPadded(Flatten([a, b], 8), 6) == [a / 4, a % 4 * 16 + b / 16, b % 16 * 4]
  {
    Pow2Small();
    var values: seq<nat> := [a / 4, a % 4 * 16 + b / 16];
    assert Fits(values, 6) && Shl(b % 16, 2) == b % 16 * 4;
    hide *;
    TwoFlattened(a, b);
    PackValues(values, 6, BitsOf(b % 16, 4));
    LastBits(b % 16, 4);
  }

  lemma TwoFlattened(a: byte, b: byte)
    ensures Flatten([a, b], 8) == Flatten([a / 4, a % 4 * 16 + b / 16], 6) + BitsOf(b % 16, 4)
  {
    hide *;
    SameBits(a, b, 0);
    FlattenTwo(a, b, 8);
    FlattenTwo(a / 4, a % 4 * 16 + b / 16, 6);
    Reassociate(BitsOf(a / 4, 6), BitsOf(a % 4, 2), BitsOf(b, 8));
    Reassociate(BitsOf(a / 4, 6), BitsOf(a % 4 * 16 + b / 16, 6), BitsOf(b % 16, 4));
  }

  lemma FlattenTwo(v: nat, u: nat, w: nat)
    ensures Flatten([v, u], w) == BitsOf(v, w) + BitsOf(u, w)
  {
    FlattenOne(v, w);
    FlattenAppend([v], u, w);
    hide *;
    assert [v] + [u] == [v, u];
  }

  lemma NoBits()
    ensures PackPadded([], 6) == []
  {
  }

  lemma LastBits(v: nat, n: nat)
    requires 0 < n < 6 && v < Pow2(n)
    ensures PackPadded(BitsOf(v, n), 6) == [Shl(v, 6 - n)]
  {
    var s := BitsOf(v, n);
    assert Pack(s, 6) == [] && LeftOver(s, 6) == s;
    hide Pack, LeftOver, FromBits, BitsOf, Pow2, Shl;
    FromBitsOfBits(v, n);
    LastValue(s, 6);
  }

  /** The text of a message of one, two or three bytes, with its padding. */
  lemma Base64Text(alphabet: seq<byte>, padding: byte, a: byte, b: byte, c: byte)
    requires |alphabet| == 64
    ensures Pow2(6) == 64
    ensures EncodeText(alphabet, 6, padding, 4, [a]) == [alphabet[a / 4], alphabet[a % 4 * 16], padding, padding]
    ensures EncodeText(alphabet, 6, padding, 4, [a, b])
         == [alphabet[a / 4], alphabet[a % 4 * 16 + b / 16], alphabet[b % 16 * 4], padding]
    ensures EncodeText(alphabet, 6, padding, 4, [a, b, c])
         == [alphabet[a / 4], alphabet[a % 4 * 16 + b / 16], alphabet[b % 16 * 4 + c / 64], alphabet[c % 64]]
  {
    Pow2Small();
    hide *;
    LastByte(a);
    EncodedValues(alphabet, padding, [a], [a / 4, a % 4 * 16], 2);
    LastTwoBytes(a, b);
    EncodedValues(alphabet, padding, [a, b], [a / 4, a % 4 * 16 + b / 16, b % 16 * 4], 1);
    ThreeValues(a, b, c);
    EncodedValues(alphabet, padding, [a, b, c], [a / 4, a % 4 * 16 + b / 16, b % 16 * 4 + c / 64, c % 64], 0);
  }

  lemma ThreeValues(a: byte, b: byte, c: byte)
    ensures PackPadded(Flatten([a, b, c], 8), 6) == [a / 4, a % 4 * 16 + b / 16, b % 16 * 4 + c / 64, c % 64]
  {
    ThreeBytes(a, b, c, []);
    NoBits();
    assert Flatten([], 8) == [] && [a, b, c] + [] == [a, b, c];
    hide *;
  }

  lemma EncodedValues(alphabet: seq<byte>, padding: byte, message: seq<byte>, values: seq<nat>, count: nat)
    requires |alphabet| == 64 == Pow2(6) && PackPadded(Flatten(message, 8), 6) == values && 2 <= |values| <= 4 && |values| + count == 4
    requires forall i :: 0 <= i < |values| ==> values[i] < 64
    ensures EncodeText(alphabet, 6, padding, 4, message)
         == seq(|values|, i requires 0 <= i < |values| => alphabet[values[i]]) + seq(count, _ => padding)
  {
    hide PackPadded, Flatten, Pow2;
  }

  // ----- flushed cells and a buffer together

  /** The flushed cells and the buffer together hold `bits`. */
  ghost predicate Carries(flushed: seq<nat>, buf: seq<nat>, w: nat, pos: nat, tail: seq<bool>, bits: seq<bool>) {
    pos <= |buf| && Holds(buf, w, pos, tail) && Flatten(flushed, w) + Content(buf, w, pos, tail) == bits
  }

  lemma TailBelow(flushed: seq<nat>, buf: seq<nat>, w: nat, pos: nat, tail: seq<bool>, bits: seq<bool>)
    requires Carries(flushed, buf, w, pos, tail, bits)
    ensures |tail| < w
  {
  }

  lemma CarryPart(flushed: seq<nat>, buf: seq<nat>, w: nat, pos: nat, tail: seq<bool>, bits: seq<bool>, r: nat, n: nat)
    requires Carries(flushed, buf, w, pos, tail, bits) && pos < |buf| && |tail| + n < w && r < Pow2(n)
    ensures Carries(flushed, buf[pos := Or(buf[pos], Shl(r, w - |tail| - n))], w, pos, tail + BitsOf(r, n), bits + BitsOf(r, n))
  {
    PutPart(buf, w, pos, tail, r, n);
    Reassociate(Flatten(flushed, w), Content(buf, w, pos, tail), BitsOf(r, n));
  }

  lemma CarryRest(flushed: seq<nat>, buf: seq<nat>, w: nat, pos: nat, tail: seq<bool>, bits: seq<bool>, top: nat)
    requires Carries(flushed, buf, w, pos, tail, bits) && pos < |buf| && top < Pow2(w - |tail|)
    ensures Carries(flushed, buf[pos := Or(buf[pos], top)], w, pos + 1, [], bits + BitsOf(top, w - |tail|))
  {
    PutRest(buf, w, pos, tail, top);
    Reassociate(Flatten(flushed, w), Content(buf, w, pos, tail), BitsOf(top, w - |tail|));
  }

  // ----- the encoder

  /** What is left of a source byte: its remaining s bits, high bits first. */
  ghost predicate Source(b: nat, r: nat, s: nat) {
    1 <= s <= 8 && r < Pow2(s) && b == Shl(r, 8 - s)
  }

  lemma Pow2Small()
    ensures Pow2(0) == 1 && Pow2(1) == 2 && Pow2(2) == 4 && Pow2(3) == 8 && Pow2(4) == 16
    ensures Pow2(5) == 32 && Pow2(6) == 64 && Pow2(7) == 128 && Pow2(8) == 256
  {
    assert Pow2(4) == 16;
  }

  /** When fewer bits are left than the target takes, they all move to the high end of its free part. */
  lemma SourceShort(b: nat, r: nat, s: nat, t: nat)
    requires Source(b, r, s) && s < t <= 8
    ensures Shr(b, 8 - t) == Shl(r, t - s)
  {
    Pow2Add(t - s, 8 - t);
    MulAssociative(r, Pow2(t - s), Pow2(8 - t));
    DivModUnique(b, Pow2(8 - t), r * Pow2(t - s), 0);
  }

  /** Otherwise the high t bits move, and the shift left leaves the others. */
  lemma SourceLong(b: nat, r: nat, s: nat, t: nat) returns (top: nat, low: nat)
    requires Source(b, r, s) && 1 <= t <= s
    ensures Shr(b, 8 - t) == top < Pow2(t) && low < Pow2(s - t)
    ensures BitsOf(r, s) == BitsOf(top, t) + BitsOf(low, s - t)
    ensures s > t ==> Source(Shl(b, t) % 256, low, s - t)
  {
    hide Pow2, BitsOf, Shr, Shl;
    top, low := SplitBits(r, t, s - t);
    SplitSource(b, r, s, t, top, low);
  }

  lemma SplitBelow(r: nat, a: nat, d: nat) returns (q: nat, l: nat)
    requires r < a * d && d > 0
    ensures r == q * d + l && q < a && l < d
  {
    q, l := r / d, r % d;
    assert r == q * d + l;
    if q >= a {
      MulMonotone(a, q, d);
    }
  }

  lemma SplitBits(r: nat, a: nat, n: nat) returns (top: nat, low: nat)
    requires r < Pow2(a + n)
    ensures r == Shl(top, n) + low && top < Pow2(a) && low < Pow2(n)
    ensures BitsOf(r, a + n) == BitsOf(top, a) + BitsOf(low, n)
  {
    hide Pow2, BitsOf;
    Pow2Add(a, n);
    top, low := SplitBelow(r, Pow2(a), Pow2(n));
    BitsOfParts(top, a, low, n);
  }

  lemma SplitSource(b: nat, r: nat, s: nat, t: nat, top: nat, low: nat)
    requires Source(b, r, s) && 1 <= t <= s && r == Shl(top, s - t) + low && low < Pow2(s - t)
    ensures Shr(b, 8 - t) == top
    ensures Shl(b, t) % 256 == Shl(low, 8 - (s - t))
  {
    hide *;
    SourceShift(b, r, s);
    ShlSum(b, r, s - t, 8 - s, top, low);
    assert s - t + (8 - s) == 8 - t && 8 - s + t == 8 - (s - t);
    HighPart(b, 8 - t, top, Shl(low, 8 - s));
    LowPart(b, t, top, Shl(low, 8 - s));
    ShlShl(low, 8 - s, t);
  }

  lemma SourceShift(b: nat, r: nat, s: nat)
    requires Source(b, r, s)
    ensures 1 <= s <= 8 && b == Shl(r, 8 - s)
  {
  }

  /** Shifting both parts of a number. */
  lemma ShlSum(b: nat, r: nat, n: nat, i: nat, top: nat, low: nat)
    requires r == Shl(top, n) + low && low < Pow2(n) && b == Shl(r, i)
    ensures b == Shl(top, n + i) + Shl(low, i) && Shl(low, i) < Pow2(n + i)
  {
    hide Pow2;
    Pow2Add(n, i);
    Factor2(top, Pow2(n), low, Pow2(i));
    PartsBelow(low, Pow2(n), 0, Pow2(i));
  }

  lemma HighPart(b: nat, n: nat, top: nat, rest: nat)
    requires rest < Pow2(n) && b == Shl(top, n) + rest
    ensures Shr(b, n) == top
  {
    hide Pow2;
    DivModUnique(b, Pow2(n), top, rest);
  }

  /** In a byte, the shift left drops the high part. */
  lemma LowPart(b: nat, t: nat, top: nat, rest: nat)
    requires t <= 8 && rest < Pow2(8 - t) && b == Shl(top, 8 - t) + rest
    ensures Shl(b, t) % 256 == Shl(rest, t)
  {
    Pow2Small();
    ShlSum(Shl(b, t), b, 8 - t, t, top, rest);
    TimesByte(top);
    hide *;
    DivModUnique(Shl(b, t), 256, top, Shl(rest, t));
  }

  lemma TimesByte(top: nat)
    ensures Shl(top, 8) == top * 256
  {
    Pow2Small();
  }

  lemma Factor2(top: nat, u: nat, low: nat, v: nat)
    ensures (top * u + low) * v == top * (u * v) + low * v
  {
    assert (top * u) * v == top * (u * v);
  }

  ghost predicate Multiple(n: nat, size: nat) {
    size > 0 && n % size == 0
  }

  lemma MultipleMeans(n: nat, size: nat)
    requires size > 0
    ensures Multiple(n, size) <==> n % size == 0
  {
  }

  ghost predicate Widths(k: nat, blockSize: nat) {
    1 <= k <= 7 && blockSize > 0 && blockSize * k % 8 == 0
  }

  /** Whole blocks take whole numbers of bytes, so a block that is not full has room for a byte. */
  lemma RoomForByte(k: nat, blockSize: nat, blocks: nat, bytePos: nat, bitPos: nat, bits: nat)
    requires Widths(k, blockSize) && bytePos < blockSize && bitPos < k && bits % 8 == 0
    requires blocks * blockSize * k + (bytePos * k + bitPos) == bits
    ensures bytePos * k + bitPos + 8 <= blockSize * k
  {
    PartsBelow(bytePos, blockSize, bitPos, k);
    MulAssociative(blocks, blockSize, k);
    var c := ExactBlocks(blockSize * k, 8);
    MulAssociative(blocks, c, 8);
    WholeByteMore(bytePos * k + bitPos, bits, blocks * c, c);
  }

  lemma WholeByteMore(x: nat, bits: nat, before: int, c: nat)
    requires bits % 8 == 0 && before * 8 + x == bits && x < c * 8
    ensures x + 8 <= c * 8
  {
  }

  lemma BufferRoom(k: nat, blockSize: nat, values: seq<nat>, buf: seq<nat>, bytePos: nat, tail: seq<bool>, bits: seq<bool>)
    requires Widths(k, blockSize) && bytePos < blockSize == |buf| && |tail| < k && |bits| % 8 == 0
    requires Multiple(|values|, blockSize) && Flatten(values, k) + Content(buf, k, bytePos, tail) == bits
    ensures bytePos * k + |tail| + 8 <= blockSize * k
  {
    FlattenLength(values, k);
    FlattenLength(buf[..bytePos], k);
    var blocks := ExactBlocks(|values|, blockSize);
    RoomForByte(k, blockSize, blocks, bytePos, |tail|, |bits|);
  }

  lemma ExactBlocks(n: nat, size: nat) returns (blocks: nat)
    requires size > 0 && n % size == 0
    ensures n == blocks * size
  {
    blocks := n / size;
  }

  lemma ExactQuotient(n: nat, size: nat)
    requires n > 0 && size > 0 && n % size == 0
    ensures n / size > 0 && n == n / size * size
  {
  }

  lemma WholeByte(b: byte)
    ensures Source(b, b, 8)
  {
    Pow2Small();
  }

  lemma NextValue(values: seq<nat>, v: nat, w: nat)
    requires w > 0
    ensures |Flatten(values, w)| % w == 0
    ensures Flatten(values + [v], w) == Flatten(values, w) + BitsOf(v, w)
  {
    FlattenLength(values, w);
    DivModUnique(|values| * w, w, |values|, 0);
    FlattenAppend(values, v, w);
  }

  lemma SplitTaken(bits: seq<bool>, taken: seq<bool>, top: seq<bool>, low: seq<bool>)
    ensures (bits + taken) + top == bits + (taken + top) && taken + (top + low) == (taken + top) + low
    ensures |low| == 0 ==> taken + (top + low) == taken + top
  {
  }

  /** A full buffer joins the flushed cells. */
  lemma FlushCells(flushed: seq<nat>, buf: seq<nat>, w: nat, tail: seq<bool>, bits: seq<bool>)
    requires Carries(flushed, buf, w, |buf|, tail, bits) && tail == []
    ensures Flatten(flushed + buf, w) == bits && Fits(buf, w)
  {
    assert buf[..|buf|] == buf;
    FlattenConcat(flushed, buf, w);
    assert Flatten(buf, w) + tail == Flatten(buf, w);
  }

  /** The assignment a[i] |= v. */
  method StoreOr(a: array<nat>, i: nat, v: nat)
    requires i < a.Length
    modifies a
    ensures a[..] == old(a[..])[i := Or(old(a[i]), v)]
  {
    a[i] := Or(a[i], v);
  }

  class BaseNEncoder {
    const alphabet: seq<byte>
    const bitsPerChar: nat
    const padding: int
    const outputBlockSize: nat
    const outBuf: array<nat>
    var bytePos: nat
    var bitPos: nat
    var output: seq<byte>
    ghost var tail: seq<bool>
    ghost var values: seq<nat>
    ghost var absorbed: seq<byte>
    ghost var before: seq<byte>

    ghost predicate Params() {
      && Widths(bitsPerChar, outputBlockSize) && outBuf.Length == outputBlockSize
      && |alphabet| == Pow2(bitsPerChar) && -1 <= padding < 256
    }

    lemma Bounds()
      requires Params()
      ensures 1 <= bitsPerChar <= 7 && outputBlockSize > 0 && outBuf.Length == outputBlockSize
    {
    }

    /** The values already output and the buffer together hold `bits`. */
    ghost predicate Filling(bits: seq<bool>)
      reads this, outBuf
    {
      && Params() && bytePos <= outBuf.Length && |tail| == bitPos
      && Fits(values, bitsPerChar) && Multiple(|values|, outputBlockSize)
      && Carries(values, outBuf[..], bitsPerChar, bytePos, tail, bits)
    }

    ghost predicate Valid()
      reads this, outBuf
    {
      && Params() && bytePos < outputBlockSize
      && Fits(values, bitsPerChar) && Multiple(|values|, outputBlockSize)
      && output == before + Translate(alphabet, values)
      && (bytePos == 0 ==> bitPos == 0 && tail == [] && Flatten(values, bitsPerChar) == Flatten(absorbed, 8))
      && (bytePos > 0 ==> Filling(Flatten(absorbed, 8)))
    }

    constructor (alphabet: seq<byte>, bitsPerChar: nat, padding: int)
      requires 1 <= bitsPerChar <= 7 && |alphabet| == Pow2(bitsPerChar) && -1 <= padding < 256
      ensures Valid() && absorbed == [] && output == before == []
      ensures this.alphabet == alphabet && this.bitsPerChar == bitsPerChar && this.padding == padding
      ensures forall n :: 0 < n < outputBlockSize ==> n * bitsPerChar % 8 != 0
    {
      var size := BlockSize(bitsPerChar);
      this.alphabet, this.bitsPerChar, this.padding := alphabet, bitsPerChar, padding;
      outputBlockSize := size;
      outBuf := new nat[size];
      bytePos, bitPos, output := 0, 0, [];
      tail, values, absorbed, before := [], [], [], [];
      new;
      assert Translate(alphabet, []) == [];
    }

    /** The least number of characters that holds a whole number of bytes. */
    static method BlockSize(k: nat) returns (size: nat)
      requires 1 <= k <= 7
      ensures Widths(k, size)
      ensures forall n :: 0 < n < size ==> n * k % 8 != 0
    {
      hide Multiple;
      var i := 8;
      EightTimes(k);
      while i % k != 0
        invariant i % 8 == 0 && 8 <= i <= 8 * k && Multiple(8 * k, k)
        invariant forall j :: 0 < j < i && j % 8 == 0 ==> !Multiple(j, k)
        decreases 8 * k - i
      {
        MultipleMeans(i, k);
        i := i + 8;
      }
      size := i / k;
      ExactQuotient(i, k);
      forall n | 0 < n < size ensures n * k % 8 != 0 {
        SmallerBlock(n, k, size, i);
      }
    }

    static lemma EightTimes(k: nat)
      requires k > 0
      ensures Multiple(8 * k, k)
    {
      DivModUnique(8 * k, k, 8, 0);
    }

    static lemma SmallerBlock(n: nat, k: nat, size: nat, i: nat)
      requires 1 <= k <= 7 && 0 < n < size && size * k == i
      requires forall j :: 0 < j < i && j % 8 == 0 ==> !Multiple(j, k)
      ensures n * k % 8 != 0
    {
      PartsBelow(n, size, 0, k);
      DivModUnique(n * k, k, n, 0);
      assert Multiple(n * k, k);
    }

    /** In the middle of a source byte: `taken` of its bits are in the buffer, the s bits of r are not. */
    ghost predicate Absorbing(source: byte, b: nat, r: nat, s: nat, bits: seq<bool>, taken: seq<bool>)
      reads this, outBuf
    {
      && Filling(bits + taken) && bytePos < outputBlockSize
      && Source(b, r, s) && taken + BitsOf(r, s) == BitsOf(source, 8)
      && bytePos * bitsPerChar + bitPos + s <= outputBlockSize * bitsPerChar
    }

    lemma StartAbsorbing(source: byte, bits: seq<bool>)
      requires Filling(bits) && bytePos < outputBlockSize && |bits| % 8 == 0
      ensures Absorbing(source, source, source, 8, bits, [])
    {
      BufferRoom(bitsPerChar, outputBlockSize, values, outBuf[..], bytePos, tail, bits);
      WholeByte(source);
      assert bits + [] == bits;
      assert [] + BitsOf(source, 8) == BitsOf(source, 8);
    }

    /** Or-s the bits of one source byte into the buffer, high bits first. */
    method AbsorbByte(source: byte, ghost bits: seq<bool>)
      requires Filling(bits) && bytePos < outputBlockSize && |bits| % 8 == 0
      modifies outBuf, this`bytePos, this`bitPos, this`tail
      ensures Filling(bits + BitsOf(source, 8))
      ensures 0 < bytePos && (bytePos == outputBlockSize ==> bitPos == 0)
    {
      var b: nat, bitsLeftInSource: nat := source, 8;
      ghost var r: nat, taken: seq<bool> := b, [];
      StartAbsorbing(source, bits);
      while true
        invariant Absorbing(source, b, r, bitsLeftInSource, bits, taken)
        invariant bytePos > 0 || bitPos + bitsLeftInSource > bitsPerChar
        decreases bitsLeftInSource
      {
        if bitsLeftInSource >= bitsPerChar - bitPos {
          b, bitsLeftInSource, r, taken := FillTarget(source, b, r, bitsLeftInSource, bits, taken);
          if bitsLeftInSource == 0 {
            break;
          }
        } else {
          StoreRest(source, b, r, bitsLeftInSource, bits, taken);
          break;
        }
      }
    }

    /** The source has enough bits for the character in progress. */
    method FillTarget(ghost source: byte, b: nat, ghost r: nat, bitsLeftInSource: nat, ghost bits: seq<bool>,
                      ghost taken: seq<bool>)
      returns (b': nat, left: nat, ghost r': nat, ghost taken': seq<bool>)
      requires Absorbing(source, b, r, bitsLeftInSource, bits, taken) && bitsLeftInSource >= bitsPerChar - bitPos
      modifies outBuf, this`bytePos, this`bitPos, this`tail
      ensures left == bitsLeftInSource - (bitsPerChar - old(bitPos)) && bytePos == old(bytePos) + 1 && bitPos == 0
      ensures left > 0 ==> Absorbing(source, b', r', left, bits, taken')
      ensures left == 0 ==> Filling(bits + BitsOf(source, 8))
    {
      TailBelow(values, outBuf[..], bitsPerChar, bytePos, tail, bits + taken);
      Bounds();
      hide Filling, Source, Multiple, Params, Carries, Shr, Shl, BitsOf, Pow2, Or, Holds, Content, Fits;
      var bitsLeftInTarget := bitsPerChar - bitPos;
      ghost var top, low := SourceLong(b, r, bitsLeftInSource, bitsLeftInTarget);
      left := bitsLeftInSource - bitsLeftInTarget;
      SplitTaken(bits, taken, BitsOf(top, bitsLeftInTarget), BitsOf(low, left));
      NextProduct(bytePos, bitsPerChar);
      CompleteCell(b, top, bits + taken);
      taken', r' := taken + BitsOf(top, bitsLeftInTarget), low;
      b' := Shl(b, bitsLeftInTarget) % 256;
      if left > 0 {
        InBounds(bytePos, left, bitsPerChar, outputBlockSize);
      }
    }

    /** The source is exhausted before the character in progress is complete. */
    method StoreRest(ghost source: byte, b: nat, ghost r: nat, bitsLeftInSource: nat, ghost bits: seq<bool>,
                     ghost taken: seq<bool>)
      requires Absorbing(source, b, r, bitsLeftInSource, bits, taken) && bitsLeftInSource < bitsPerChar - bitPos
      modifies outBuf, this`bytePos, this`bitPos, this`tail
      ensures Filling(bits + BitsOf(source, 8)) && bytePos == old(bytePos) && bytePos < outputBlockSize
    {
      SourceShort(b, r, bitsLeftInSource, bitsPerChar - bitPos);
      ExtendCell(b, r, bitsLeftInSource, bits + taken);
      Reassociate(bits, taken, BitsOf(r, bitsLeftInSource));
    }

    static lemma InBounds(bytePos: nat, more: nat, k: nat, blockSize: nat)
      requires more > 0 && bytePos * k + more <= blockSize * k
      ensures bytePos < blockSize
    {
      if blockSize <= bytePos {
        MulMonotone(blockSize, bytePos, k);
      }
    }

    method CompleteCell(b: nat, ghost top: nat, ghost bits: seq<bool>)
      requires Filling(bits) && bytePos < outputBlockSize
      requires Shr(b, 8 - (bitsPerChar - bitPos)) == top < Pow2(bitsPerChar - bitPos)
      modifies outBuf, this`bytePos, this`bitPos, this`tail
      ensures Filling(bits + BitsOf(top, bitsPerChar - old(bitPos))) && bytePos == old(bytePos) + 1 && bitPos == 0
    {
      hide Carries, BitsOf, Pow2, Or, Shr, Shl;
      var high := Shr(b, 8 - (bitsPerChar - bitPos));
      CarryRest(values, outBuf[..], bitsPerChar, bytePos, tail, bits, high);
      StoreOr(outBuf, bytePos, high);
      bitPos, tail := 0, [];
      bytePos := bytePos + 1;
    }

    method ExtendCell(b: nat, ghost r: nat, n: nat, ghost bits: seq<bool>)
      requires Filling(bits) && bytePos < outputBlockSize && bitPos + n < bitsPerChar && r < Pow2(n)
      requires Shr(b, 8 - (bitsPerChar - bitPos)) == Shl(r, bitsPerChar - bitPos - n)
      modifies outBuf, this`bytePos, this`bitPos, this`tail
      ensures Filling(bits + BitsOf(r, n)) && bytePos == old(bytePos) && bitPos == old(bitPos) + n
    {
      hide Carries, BitsOf, Pow2, Or, Shr, Shl;
      CarryPart(values, outBuf[..], bitsPerChar, bytePos, tail, bits, r, n);
      StoreOr(outBuf, bytePos, Shr(b, 8 - (bitsPerChar - bitPos)));
      bitPos, tail := bitPos + n, tail + BitsOf(r, n);
    }

    lemma StartBlock()
      requires Valid() && bytePos == 0 && forall i :: 0 <= i < outBuf.Length ==> outBuf[i] == 0
      ensures Filling(Flatten(absorbed, 8))
    {
      assert Content(outBuf[..], bitsPerChar, 0, []) == [];
    }

    method ClearBuffer()
      requires Valid() && bytePos == 0
      modifies outBuf
      ensures Filling(Flatten(absorbed, 8))
    {
      var i := 0;
      while i < outputBlockSize
        invariant 0 <= i <= outputBlockSize
        invariant forall j :: 0 <= j < i ==> outBuf[j] == 0
      {
        outBuf[i] := 0;
        i := i + 1;
      }
      StartBlock();
    }

    method StoreByte(c: byte)
      requires Filling(Flatten(absorbed, 8)) && bytePos < outputBlockSize
      modifies outBuf, this`bytePos, this`bitPos, this`tail, this`absorbed
      ensures Filling(Flatten(absorbed, 8)) && absorbed == old(absorbed) + [c]
      ensures 0 < bytePos && (bytePos == outputBlockSize ==> bitPos == 0)
    {
      NextValue(absorbed, c, 8);
      AbsorbByte(c, Flatten(absorbed, 8));
      absorbed := absorbed + [c];
    }

    method PutByte(c: byte)
      requires Valid()
      modifies this, outBuf
      ensures Valid() && absorbed == old(absorbed) + [c] && before == old(before)
    {
      if bytePos == 0 {
        ClearBuffer();
      }
      StoreByte(c);
      if bytePos == outputBlockSize {
        FlushBlock();
      }
    }

    /** Translates the first n buffered values to characters, in place. */
    method TranslateBuffer(n: nat)
      requires Params() && n <= outBuf.Length && Fits(outBuf[..n], bitsPerChar)
      modifies outBuf
      ensures outBuf[..n] == Translate(alphabet, old(outBuf[..n]))
      ensures forall j :: n <= j < outBuf.Length ==> outBuf[j] == old(outBuf[j])
    {
      var i := 0;
      while i < n
        invariant 0 <= i <= n
        invariant forall j :: 0 <= j < i ==> outBuf[j] == alphabet[old(outBuf[..n])[j]]
        invariant forall j :: i <= j < outBuf.Length ==> outBuf[j] == old(outBuf[j])
      {
        assert outBuf[i] == old(outBuf[..n])[i];
        outBuf[i] := alphabet[outBuf[i]];
        i := i + 1;
      }
    }

    /** Outputs the first buffered values as characters. */
    method EmitBuffer()
      requires Params() && bytePos <= outBuf.Length && Fits(outBuf[..bytePos], bitsPerChar)
      modifies outBuf, this`output
      ensures output == old(output) + Translate(alphabet, old(outBuf[..bytePos]))
    {
      hide *;
      TranslateBuffer(bytePos);
      output := output + outBuf[..bytePos];
    }

    lemma FullBlock()
      requires Filling(Flatten(absorbed, 8)) && bytePos == outputBlockSize && bitPos == 0
      ensures var full := outBuf[..];
              && Fits(full, bitsPerChar) && Fits(values + full, bitsPerChar)
              && Multiple(|values + full|, outputBlockSize)
              && Flatten(values + full, bitsPerChar) == Flatten(absorbed, 8)
              && Translate(alphabet, values + full) == Translate(alphabet, values) + Translate(alphabet, full)
    {
      hide Flatten, Pow2, Carries, Holds, Content, Translate;
      var full := outBuf[..];
      FlushCells(values, full, bitsPerChar, tail, Flatten(absorbed, 8));
      AddBlock(|values|, outputBlockSize);
      TranslateConcat(alphabet, values, full);
    }

    method FlushBlock()
      requires Filling(Flatten(absorbed, 8)) && bytePos == outputBlockSize && bitPos == 0
      requires output == before + Translate(alphabet, values)
      modifies outBuf, this`output, this`bytePos, this`bitPos, this`values
      ensures Valid()
    {
      Bounds();
      ghost var full := outBuf[..];
      assert full == outBuf[..bytePos];
      FullBlock();
      hide Params, Filling, Flatten, Translate, Fits, Multiple;
      EmitBuffer();
      Reassociate(before, Translate(alphabet, values), Translate(alphabet, full));
      values := values + full;
      bytePos, bitPos := 0, 0;
    }

    static lemma AddBlock(n: nat, size: nat)
      requires Multiple(n, size)
      ensures Multiple(n + size, size)
    {
      DivModUnique(n + size, size, n / size + 1, 0);
      NextProduct(n / size, size);
    }

    /** Outputs what is buffered, completed with zero bits and with padding. */
    method Finish()
      requires Valid()
      modifies this, outBuf
      ensures Valid() && absorbed == [] && output == before
      ensures output == old(before) + EncodeText(alphabet, bitsPerChar, padding, outputBlockSize, old(absorbed))
    {
      CloseLastCell();
      EmitLast();
      Reset();
    }

    /** A character in progress is completed with the zero bits already behind its used ones. */
    method CloseLastCell()
      requires Valid()
      modifies this`bytePos
      ensures bytePos <= outputBlockSize && Fits(outBuf[..bytePos], bitsPerChar)
      ensures var all := values + outBuf[..bytePos];
              && Fits(all, bitsPerChar)
              && EncodeText(alphabet, bitsPerChar, padding, outputBlockSize, absorbed)
                 == Translate(alphabet, all) + Padding(padding, |all|, outputBlockSize)
    {
      hide Flatten, PackPadded, Pow2, Holds, Content, Translate, Padding;
      FinalValues(bitsPerChar, values, outBuf[..], bytePos, tail, Flatten(absorbed, 8));
      PackPaddedFits(Flatten(absorbed, 8), bitsPerChar);
      if bitPos > 0 {
        bytePos := bytePos + 1;
      }
      ghost var last := outBuf[..bytePos];
      assert outBuf[..][..bytePos] == last;
      forall i | 0 <= i < |last| ensures last[i] < Pow2(bitsPerChar) {
        assert (values + last)[|values| + i] == last[i];
      }
    }

    method Reset()
      requires Params()
      modifies this
      ensures Valid() && absorbed == [] && output == before == old(output)
    {
      bytePos, bitPos, tail, values, absorbed := 0, 0, [], [], [];
      before := output;
      DivModUnique(0, outputBlockSize, 0, 0);
      assert Translate(alphabet, values) == [];
      assert before + [] == before;
    }

    /** Outputs the last buffered values and the padding after them. */
    method EmitLast()
      requires Params() && bytePos <= outputBlockSize && Multiple(|values|, outputBlockSize)
      requires Fits(values, bitsPerChar) && Fits(outBuf[..bytePos], bitsPerChar)
      requires output == before + Translate(alphabet, values)
      modifies outBuf, this`bytePos, this`output
      ensures var all := values + old(outBuf[..bytePos]);
              output == before + (Translate(alphabet, all) + Padding(padding, |all|, outputBlockSize))
    {
      ghost var last := outBuf[..bytePos];
      TranslateConcat(alphabet, values, last);
      PaddingFills(|values|, bytePos, outputBlockSize);
      TranslateBuffer(bytePos);
      assert outBuf[..bytePos] == Translate(alphabet, last);
      ghost var pad := Padding(padding, |values| + |last|, outputBlockSize);
      if padding != -1 && bytePos > 0 {
        FillPadding();
        assert outBuf[..bytePos] == outBuf[..];
      }
      assert outBuf[..bytePos] == Translate(alphabet, last) + pad;
      output := output + outBuf[..bytePos];
      Regroup(before, Translate(alphabet, values), Translate(alphabet, last), pad);
    }

    method FillPadding()
      requires Params() && padding >= 0 && bytePos <= outputBlockSize
      modifies outBuf, this`bytePos
      ensures bytePos == outputBlockSize
      ensures outBuf[..] == old(outBuf[..bytePos]) + seq(outputBlockSize - old(bytePos), _ => padding)
    {
      for i := bytePos to outputBlockSize
        invariant forall j :: 0 <= j < bytePos ==> outBuf[j] == old(outBuf[j])
        invariant forall j :: bytePos <= j < i ==> outBuf[j] == padding
        modifies outBuf
      {
        outBuf[i] := padding;
      }
      bytePos := outputBlockSize;
    }

    /** Feeds a piece of the message; at its end the output is the encoding of all pieces together. */
    method Put2(input: seq<byte>, messageEnd: bool)
      requires Valid()
      modifies this, outBuf
      ensures Valid()
      ensures !messageEnd ==> absorbed == old(absorbed) + input && before == old(before)
      ensures messageEnd ==> absorbed == [] && output == before
      ensures messageEnd ==> output == old(before) + EncodeText(alphabet, bitsPerChar, padding, outputBlockSize, old(absorbed) + input)
    {
      hide *;
      var inputPosition := 0;
      while inputPosition < |input|
        invariant 0 <= inputPosition <= |input|
        invariant Valid() && absorbed == old(absorbed) + input[..inputPosition] && before == old(before)
      {
        PutByte(input[inputPosition]);
        OneMore(old(absorbed), input, inputPosition);
        inputPosition := inputPosition + 1;
      }
      assert input[..|input|] == input;
      if messageEnd {
        Finish();
      }
    }
  }

  lemma OneMore<T>(a: seq<T>, s: seq<T>, i: nat)
    requires i < |s|
    ensures a + s[..i] + [s[i]] == a + s[..i + 1]
  {
  }

  lemma TranslateConcat(alphabet: seq<byte>, a: seq<nat>, b: seq<nat>)
    requires forall i :: 0 <= i < |a| ==> a[i] < |alphabet|
    requires forall i :: 0 <= i < |b| ==> b[i] < |alphabet|
    ensures Translate(alphabet, a + b) == Translate(alphabet, a) + Translate(alphabet, b)
  {
  }

  lemma Regroup<T>(a: seq<T>, b: seq<T>, c: seq<T>, d: seq<T>)
    ensures (a + b) + (c + d) == a + ((b + c) + d)
  {
  }

  /** The values output, the full cells and the cell in progress are the padded values of all bits. */
  lemma FinalValues(k: nat, values: seq<nat>, buf: seq<nat>, bytePos: nat, tail: seq<bool>, bits: seq<bool>)
    requires k > 0 && bytePos < |buf| && Fits(values, k)
    requires bytePos > 0 ==> Holds(buf, k, bytePos, tail) && Flatten(values, k) + Content(buf, k, bytePos, tail) == bits
    requires bytePos == 0 ==> tail == [] && Flatten(values, k) == bits
    ensures var n := if |tail| > 0 then bytePos + 1 else bytePos;
            values + buf[..n] == PackPadded(bits, k)
  {
    var full := buf[..bytePos];
    FlattenConcat(values, full, k);
    if bytePos == 0 {
      assert values + full == values;
      assert Flatten(values, k) + tail == bits;
    } else {
      Reassociate(Flatten(values, k), Flatten(full, k), tail);
    }
    PadOut(values + full, k, tail, bits);
    LastCell(k, values, buf, bytePos, tail);
  }

  lemma LastCell(k: nat, values: seq<nat>, buf: seq<nat>, bytePos: nat, tail: seq<bool>)
    requires bytePos < |buf| && |tail| <= k && (|tail| > 0 ==> buf[bytePos] == Shl(FromBits(tail), k - |tail|))
    ensures values + buf[..if |tail| > 0 then bytePos + 1 else bytePos]
         == values + buf[..bytePos] + if tail == [] then [] else [FromBits(tail + Zeros(k - |tail|))]
  {
    hide Shl, FromBits, Pow2;
    if |tail| > 0 {
      LastValue(tail, k);
      assert buf[..bytePos + 1] == buf[..bytePos] + [buf[bytePos]];
    }
  }

  lemma {:induction false} LeftOverFlatten(values: seq<nat>, w: nat, rest: seq<bool>)
    requires w > 0 && |rest| < w
    ensures LeftOver(Flatten(values, w) + rest, w) == rest
  {
    if values == [] {
      assert Flatten(values, w) + rest == rest;
    } else {
      var tail := values[1..];
      assert [values[0]] + tail == values;
      FlattenConcat([values[0]], tail, w);
      FlattenOne(values[0], w);
      assert (Flatten(values, w) + rest)[w..] == Flatten(tail, w) + rest;
      LeftOverFlatten(tail, w, rest);
    }
  }

  lemma PadOut(values: seq<nat>, k: nat, tail: seq<bool>, bits: seq<bool>)
    requires k > 0 && |tail| < k && Fits(values, k) && Flatten(values, k) + tail == bits
    ensures PackPadded(bits, k) == values + if tail == [] then [] else [FromBits(tail + Zeros(k - |tail|))]
  {
    PackFlatten(values, k, tail);
    LeftOverFlatten(values, k, tail);
  }

  lemma LastValue(tail: seq<bool>, k: nat)
    requires |tail| <= k
    ensures Shl(FromBits(tail), k - |tail|) == FromBits(tail + Zeros(k - |tail|))
  {
    BitsOfZero(k - |tail|);
    FromBitsConcat(tail, 0, k - |tail|);
  }

  lemma PaddingFills(done: nat, n: nat, blockSize: nat)
    requires blockSize > 0 && done % blockSize == 0 && n <= blockSize
    ensures PaddingCount(done + n, blockSize) == if n == 0 then 0 else blockSize - n
  {
    var q := done / blockSize;
    assert done == q * blockSize;
    NextProduct(q, blockSize);
    if n == blockSize {
      DivModUnique(done + n, blockSize, q + 1, 0);
    } else {
      DivModUnique(done + n, blockSize, q, n);
    }
    DivModUnique(blockSize, blockSize, 1, 0);
    if 0 < n {
      DivModUnique(blockSize - n, blockSize, 0, blockSize - n);
    }
  }

  // ----- the decoder

  ghost predicate DecoderWidths(k: nat, blockSize: nat) {
    1 <= k <= 7 && blockSize > 0 && blockSize * 8 % k == 0
  }

  lemma MultipleBelow(x: nat, y: nat, u: nat)
    requires u > 0 && x % u == 0 && y % u == 0 && x < y
    ensures x + u <= y
  {
    var p := ExactBlocks(x, u);
    var q := ExactBlocks(y, u);
    if q <= p {
      MulMonotone(q, p, u);
    } else {
      MulMonotone(p + 1, q, u);
      NextProduct(p, u);
    }
  }

  /** Whole blocks take whole numbers of characters, so a block that is not full has room for one. */
  lemma RoomForChar(k: nat, blockSize: nat, blocks: nat, bytePos: nat, bitPos: nat, bits: nat)
    requires DecoderWidths(k, blockSize) && bytePos < blockSize && bitPos < 8 && bits % k == 0
    requires blocks * blockSize * 8 + (bytePos * 8 + bitPos) == bits
    ensures bytePos * 8 + bitPos + k <= blockSize * 8
  {
    var c := ExactBlocks(blockSize * 8, k);
    var n := ExactBlocks(bits, k);
    var x := bytePos * 8 + bitPos;
    assert x == (n - blocks * c) * k by {
      MulAssociative(blocks, blockSize, 8);
      MulAssociative(blocks, c, k);
      Minus(n, blocks * c, k);
    }
    RemainderOfMultiple(n - blocks * c, k);
    MultipleBelow(x, blockSize * 8, k);
  }

  lemma Minus(a: int, b: int, k: int)
    ensures (a - b) * k == a * k - b * k
  {
  }

  lemma RemainderOfMultiple(n: int, k: int)
    requires k > 0
    ensures n * k % k == 0
  {
    DivModUnique(n * k, k, n, 0);
  }

  lemma DecoderRoom(k: nat, blockSize: nat, flushed: seq<nat>, buf: seq<nat>, bytePos: nat, tail: seq<bool>, bits: seq<bool>)
    requires DecoderWidths(k, blockSize) && bytePos < blockSize == |buf| && |tail| < 8 && |bits| % k == 0
    requires Multiple(|flushed|, blockSize) && Flatten(flushed, 8) + Content(buf, 8, bytePos, tail) == bits
    ensures bytePos * 8 + |tail| + k <= blockSize * 8
  {
    FlattenLength(flushed, 8);
    FlattenLength(buf[..bytePos], 8);
    var blocks := ExactBlocks(|flushed|, blockSize);
    RoomForChar(k, blockSize, blocks, bytePos, |tail|, |bits|);
  }

  /** A value that crosses the end of a byte: its high part and its low `over` bits. */
  lemma SplitValue(v: nat, k: nat, over: nat) returns (top: nat, low: nat)
    requires v < Pow2(k) && over <= k <= 8
    ensures Shr(v, over) == top < Pow2(k - over) && low < Pow2(over)
    ensures BitsOf(v, k) == BitsOf(top, k - over) + BitsOf(low, over)
    ensures Shl(v, 8 - over) % 256 == Shl(low, 8 - over)
  {
    hide *;
    top, low := SplitBits(v, k - over, over);
    HighPart(v, over, top, low);
    LowPart(v, 8 - over, top, low);
    assert 8 - (8 - over) == over;
  }

  class BaseNDecoder {
    const lookup: seq<int>
    const bitsPerChar: nat
    const outputBlockSize: nat
    const outBuf: array<nat>
    var bytePos: nat
    var bitPos: nat
    var output: seq<nat>
    ghost var tail: seq<bool>
    ghost var flushed: seq<nat>
    ghost var absorbed: seq<byte>
    ghost var before: seq<nat>

    ghost predicate Params() {
      && DecoderWidths(bitsPerChar, outputBlockSize) && outBuf.Length == outputBlockSize && |lookup| == 256
      && forall c :: 0 <= c < 256 ==> Skipped(lookup[c]) || lookup[c] < Pow2(bitsPerChar)
    }

    lemma Bounds()
      requires Params()
      ensures 1 <= bitsPerChar <= 7 && outputBlockSize > 0 && outBuf.Length == outputBlockSize
    {
    }

    ghost predicate Filling(bits: seq<bool>)
      reads this, outBuf
    {
      && Params() && bytePos <= outBuf.Length && |tail| == bitPos
      && Fits(flushed, 8) && Multiple(|flushed|, outputBlockSize)
      && Carries(flushed, outBuf[..], 8, bytePos, tail, bits)
    }

    /** All bits of the characters seen so far. */
    ghost function Bits(): seq<bool>
      requires |lookup| == 256
      reads this
    {
      Flatten(LookupAll(lookup, absorbed), bitsPerChar)
    }

    ghost predicate Valid()
      reads this, outBuf
    {
      && Params() && bytePos < outputBlockSize
      && Fits(flushed, 8) && Multiple(|flushed|, outputBlockSize)
      && output == before + flushed
      && (bytePos == 0 && bitPos == 0 ==> tail == [] && Flatten(flushed, 8) == Bits())
      && (bytePos > 0 || bitPos > 0 ==> Filling(Bits()))
    }

    constructor (lookup: seq<int>, bitsPerChar: nat)
      requires 1 <= bitsPerChar <= 7 && |lookup| == 256
      requires forall c :: 0 <= c < 256 ==> Skipped(lookup[c]) || lookup[c] < Pow2(bitsPerChar)
      ensures Valid() && absorbed == [] && output == before == []
      ensures this.lookup == lookup && this.bitsPerChar == bitsPerChar
    {
      var size := BlockSize(bitsPerChar);
      this.lookup, this.bitsPerChar := lookup, bitsPerChar;
      outputBlockSize := size;
      outBuf := new nat[size];
      bytePos, bitPos, output := 0, 0, [];
      tail, flushed, absorbed, before := [], [], [], [];
      new;
      DivModUnique(0, size, 0, 0);
    }

    /** The least number of bytes that holds a whole number of characters. */
    static method BlockSize(k: nat) returns (size: nat)
      requires 1 <= k <= 7
      ensures DecoderWidths(k, size)
      ensures forall chars :: 0 < chars && chars * k < size * 8 ==> !WholeBytes(chars, k)
    {
      var i := k;
      ghost var chars: nat := 1;
      while i % 8 != 0
        invariant i == chars * k && 1 <= chars <= 8
        invariant forall n :: 0 < n < chars ==> !WholeBytes(n, k)
        decreases 8 - chars
      {
        assert !WholeBytes(chars, k);
        NextProduct(chars, k);
        chars := chars + 1;
        i := i + k;
      }
      size := i / 8;
      RemainderOfMultiple(chars, k);
      forall n | 0 < n && n * k < size * 8 ensures !WholeBytes(n, k) {
        if chars <= n {
          MulMonotone(chars, n, k);
        }
      }
    }

    lemma StartBlock()
      requires Valid() && bytePos == 0 && bitPos == 0 && forall i :: 0 <= i < outBuf.Length ==> outBuf[i] == 0
      ensures Filling(Bits())
    {
      assert Content(outBuf[..], 8, 0, []) == [];
    }

    method ClearBuffer()
      requires Valid() && bytePos == 0 && bitPos == 0
      modifies outBuf
      ensures Filling(Bits())
    {
      var i := 0;
      while i < outputBlockSize
        invariant 0 <= i <= outputBlockSize
        invariant forall j :: 0 <= j < i ==> outBuf[j] == 0
      {
        outBuf[i] := 0;
        i := i + 1;
      }
      StartBlock();
    }

    /** The value fits behind the bits already in the byte. */
    method StoreInside(v: nat, ghost bits: seq<bool>)
      requires Params() && Carries(flushed, outBuf[..], 8, bytePos, tail, bits) && |tail| == bitPos
      requires bytePos < outputBlockSize && v < Pow2(bitsPerChar) && bitPos + bitsPerChar <= 8
      modifies outBuf, this`tail
      ensures bitPos + bitsPerChar < 8 ==> |tail| == bitPos + bitsPerChar && Carries(flushed, outBuf[..], 8, bytePos, tail, bits + BitsOf(v, bitsPerChar))
      ensures bitPos + bitsPerChar == 8 ==> tail == [] && Carries(flushed, outBuf[..], 8, bytePos + 1, tail, bits + BitsOf(v, bitsPerChar))
    {
      hide Carries, BitsOf, Pow2, Or, Shl;
      InsideByte(flushed, outBuf[..], bytePos, tail, bits, v, bitsPerChar);
      StoreOr(outBuf, bytePos, Shl(v, 8 - (bitPos + bitsPerChar)));
      tail := if bitPos + bitsPerChar < 8 then tail + BitsOf(v, bitsPerChar) else [];
    }

    /** The value crosses into the next byte. */
    method StoreAcross(v: nat, ghost bits: seq<bool>)
      requires Params() && Carries(flushed, outBuf[..], 8, bytePos, tail, bits) && |tail| == bitPos
      requires bytePos + 1 < outputBlockSize && v < Pow2(bitsPerChar) && 8 < bitPos + bitsPerChar
      modifies outBuf, this`tail
      ensures |tail| == bitPos + bitsPerChar - 8
      ensures Carries(flushed, outBuf[..], 8, bytePos + 1, tail, bits + BitsOf(v, bitsPerChar))
    {
      TailBelow(flushed, outBuf[..], 8, bytePos, tail, bits);
      Bounds();
      hide *;
      var over := bitPos + bitsPerChar - 8;
      ghost var low := CrossBytes(flushed, outBuf[..], bytePos, tail, bits, v, bitsPerChar);
      StoreOr(outBuf, bytePos, Shr(v, over));
      StoreOr(outBuf, bytePos + 1, Shl(v, 8 - over) % 256);
      tail := BitsOf(low, over);
    }

    /** Appends the bits of one value to the buffer. */
    method StoreValue(v: nat, ghost bits: seq<bool>)
      requires Filling(bits) && bytePos < outputBlockSize && v < Pow2(bitsPerChar)
      requires bytePos * 8 + bitPos + bitsPerChar <= outputBlockSize * 8
      modifies outBuf, this`bytePos, this`bitPos, this`tail
      ensures Filling(bits + BitsOf(v, bitsPerChar)) && (bytePos > 0 || bitPos > 0)
      ensures bytePos == outputBlockSize ==> bitPos == 0
    {
      TailBelow(flushed, outBuf[..], 8, bytePos, tail, bits);
      Bounds();
      hide Params, Multiple, Carries, BitsOf, Flatten, Pow2, Holds, Content, Fits;
      StoreBits(v, bits);
      bitPos := bitPos + bitsPerChar;
      CarryBits();
    }

    /** The bits of the value are in the buffer, the position is not yet moved. */
    method StoreBits(v: nat, ghost bits: seq<bool>)
      requires Params() && Carries(flushed, outBuf[..], 8, bytePos, tail, bits) && |tail| == bitPos
      requires bytePos < outputBlockSize && v < Pow2(bitsPerChar) && bytePos * 8 + bitPos + bitsPerChar <= outputBlockSize * 8
      modifies outBuf, this`tail
      ensures var end, n := bitPos + bitsPerChar, if bitPos + bitsPerChar < 8 then bytePos else bytePos + 1;
              && n <= outputBlockSize && |tail| == (if end < 8 then end else end - 8)
              && Carries(flushed, outBuf[..], 8, n, tail, bits + BitsOf(v, bitsPerChar))
    {
      Bounds();
      hide *;
      var newBitPos := bitPos + bitsPerChar;
      if newBitPos <= 8 {
        StoreInside(v, bits);
      } else {
        StoreAcross(v, bits);
      }
    }

    method CarryBits()
      requires bitPos < 16
      modifies this`bytePos, this`bitPos
      ensures old(bitPos) < 8 ==> bitPos == old(bitPos) && bytePos == old(bytePos)
      ensures old(bitPos) >= 8 ==> bitPos == old(bitPos) - 8 && bytePos == old(bytePos) + 1
    {
      while bitPos >= 8
        invariant (bitPos == old(bitPos) && bytePos == old(bytePos)) || (bitPos + 8 == old(bitPos) && bytePos == old(bytePos) + 1)
        decreases bitPos
      {
        bitPos := bitPos - 8;
        bytePos := bytePos + 1;
      }
    }

    method PutChar(c: byte)
      requires Valid()
      modifies this, outBuf
      ensures Valid() && absorbed == old(absorbed) + [c] && before == old(before)
      ensures Bits() == old(Bits()) + if 0 <= lookup[c] < 256 then BitsOf(lookup[c], bitsPerChar) else []
    {
      var value := lookup[c];
      LookupAppend(lookup, absorbed, c);
      if value < 0 || value >= 256 {
        assert LookupAll(lookup, absorbed + [c]) == LookupAll(lookup, absorbed);
        absorbed := absorbed + [c];
        return;
      }
      FlattenAppend(LookupAll(lookup, absorbed), value, bitsPerChar);
      PutValue(value, c);
    }

    method PutValue(value: nat, ghost c: byte)
      requires Valid() && value < Pow2(bitsPerChar)
      requires Flatten(LookupAll(lookup, absorbed + [c]), bitsPerChar) == Bits() + BitsOf(value, bitsPerChar)
      modifies this, outBuf
      ensures Valid() && absorbed == old(absorbed) + [c] && before == old(before)
    {
      hide LookupAll, BitsOf, Pow2, Content, Holds;
      if bytePos == 0 && bitPos == 0 {
        ClearBuffer();
      }
      CharFits();
      StoreValue(value, Bits());
      absorbed := absorbed + [c];
      if bytePos == outputBlockSize {
        FlushBlock();
      }
    }

    lemma CharFits()
      requires Params() && bytePos < outputBlockSize && Filling(Bits())
      ensures bytePos * 8 + bitPos + bitsPerChar <= outputBlockSize * 8
    {
      FlattenLength(LookupAll(lookup, absorbed), bitsPerChar);
      RemainderOfMultiple(|LookupAll(lookup, absorbed)|, bitsPerChar);
      DecoderRoom(bitsPerChar, outputBlockSize, flushed, outBuf[..], bytePos, tail, Bits());
    }

    lemma FullBlock()
      requires Params() && Filling(Bits()) && bytePos == outputBlockSize && bitPos == 0
      ensures Fits(flushed + outBuf[..], 8) && Multiple(|flushed + outBuf[..]|, outputBlockSize)
      ensures Flatten(flushed + outBuf[..], 8) == Bits()
    {
      hide Flatten, Pow2, Carries, Holds, Content;
      FlushCells(flushed, outBuf[..], 8, tail, Bits());
      BaseNEncoder.AddBlock(|flushed|, outputBlockSize);
    }

    method FlushBlock()
      requires Params() && Filling(Bits()) && bytePos == outputBlockSize && bitPos == 0 && output == before + flushed
      modifies this`output, this`bytePos, this`flushed
      ensures Valid()
    {
      ghost var full := outBuf[..];
      assert full == outBuf[..bytePos];
      FullBlock();
      hide Filling, Flatten, Pow2, DecoderWidths, Fits, Multiple;
      output := output + outBuf[..bytePos];
      Reassociate(before, flushed, full);
      flushed := flushed + full;
      bytePos := 0;
    }

    /** Outputs the whole bytes in the buffer and drops the incomplete one. */
    method Finish()
      requires Valid()
      modifies this
      ensures Valid() && absorbed == [] && output == before
      ensures output == old(before) + DecodeText(lookup, bitsPerChar, old(absorbed))
    {
      hide Pack, Pow2, Holds;
      DecodedBytes(flushed, outBuf[..], bytePos, tail, Bits());
      Reassociate(before, flushed, outBuf[..bytePos]);
      assert outBuf[..][..bytePos] == outBuf[..bytePos];
      output := output + outBuf[..bytePos];
      bytePos, bitPos, tail, flushed, absorbed := 0, 0, [], [], [];
      before := output;
      DivModUnique(0, outputBlockSize, 0, 0);
      assert before + [] == before;
    }

    /** Feeds a piece of text; at its end the output is the decoding of all pieces together. */
    method Put2(input: seq<byte>, messageEnd: bool)
      requires Valid()
      modifies this, outBuf
      ensures Valid()
      ensures !messageEnd ==> absorbed == old(absorbed) + input && before == old(before)
      ensures messageEnd ==> absorbed == [] && output == before
      ensures messageEnd ==> output == old(before) + DecodeText(lookup, bitsPerChar, old(absorbed) + input)
    {
      hide *;
      var inputPosition := 0;
      while inputPosition < |input|
        invariant 0 <= inputPosition <= |input|
        invariant Valid() && absorbed == old(absorbed) + input[..inputPosition] && before == old(before)
      {
        PutChar(input[inputPosition]);
        OneMore(old(absorbed), input, inputPosition);
        inputPosition := inputPosition + 1;
      }
      assert input[..|input|] == input;
      if messageEnd {
        Finish();
      }
    }
  }

  /** Or-ing a value into a byte with enough free bits. */
  lemma InsideByte(flushed: seq<nat>, buf: seq<nat>, pos: nat, tail: seq<bool>, bits: seq<bool>, v: nat, k: nat)
    requires Carries(flushed, buf, 8, pos, tail, bits) && pos < |buf| && v < Pow2(k) && |tail| + k <= 8
    ensures var buf' := buf[pos := Or(buf[pos], Shl(v, 8 - |tail| - k))];
            if |tail| + k < 8 then Carries(flushed, buf', 8, pos, tail + BitsOf(v, k), bits + BitsOf(v, k))
            else Carries(flushed, buf', 8, pos + 1, [], bits + BitsOf(v, k))
  {
    hide Carries, BitsOf, Pow2, Or, Shl;
    if |tail| + k < 8 {
      CarryPart(flushed, buf, 8, pos, tail, bits, v, k);
    } else {
      CompleteByte(flushed, buf, pos, tail, bits, v, k);
    }
  }

  /** Or-ing a value into two bytes. */
  lemma CrossBytes(flushed: seq<nat>, buf: seq<nat>, pos: nat, tail: seq<bool>, bits: seq<bool>, v: nat,
                   k: nat) returns (low: nat)
    requires Carries(flushed, buf, 8, pos, tail, bits) && pos + 1 < |buf| && v < Pow2(k) && |tail| < 8 < |tail| + k && k <= 7
    ensures var over := |tail| + k - 8;
            var buf' := buf[pos := Or(buf[pos], Shr(v, over))];
            Carries(flushed, buf'[pos + 1 := Or(buf'[pos + 1], Shl(v, 8 - over) % 256)], 8, pos + 1, BitsOf(low, over), bits + BitsOf(v, k))
  {
    hide *;
    var over := |tail| + k - 8;
    var top;
    top, low := SplitValue(v, k, over);
    CarryRest(flushed, buf, 8, pos, tail, bits, top);
    CarryPart(flushed, buf[pos := Or(buf[pos], top)], 8, pos + 1, [], bits + BitsOf(top, k - over), low, over);
    Reassociate(bits, BitsOf(top, k - over), BitsOf(low, over));
    assert [] + BitsOf(low, over) == BitsOf(low, over);
  }

  lemma CompleteByte(flushed: seq<nat>, buf: seq<nat>, pos: nat, tail: seq<bool>, bits: seq<bool>, v: nat, k: nat)
    requires Carries(flushed, buf, 8, pos, tail, bits) && pos < |buf| && v < Pow2(k) && |tail| + k == 8
    ensures Shl(v, 8 - |tail| - k) == v
    ensures Carries(flushed, buf[pos := Or(buf[pos], v)], 8, pos + 1, [], bits + BitsOf(v, k))
  {
    hide *;
    TimesOne(v, 8 - |tail| - k);
    CarryRest(flushed, buf, 8, pos, tail, bits, v);
  }

  lemma TimesOne(v: nat, n: nat)
    requires n == 0
    ensures Shl(v, n) == v
  {
  }

  ghost predicate WholeBytes(chars: nat, k: nat) {
    chars * k % 8 == 0
  }

  lemma DecodedBytes(flushed: seq<nat>, buf: seq<nat>, bytePos: nat, tail: seq<bool>, bits: seq<bool>)
    requires bytePos < |buf| && Fits(flushed, 8)
    requires bytePos == 0 && tail == [] ==> Flatten(flushed, 8) == bits
    requires bytePos > 0 || tail != [] ==> Holds(buf, 8, bytePos, tail) && Flatten(flushed, 8) + Content(buf, 8, bytePos, tail) == bits
    ensures flushed + buf[..bytePos] == Pack(bits, 8)
  {
    var all := flushed + buf[..bytePos];
    FlattenConcat(flushed, buf[..bytePos], 8);
    Reassociate(Flatten(flushed, 8), Flatten(buf[..bytePos], 8), tail);
    assert bytePos == 0 && tail == [] ==> Flatten(all, 8) + tail == bits;
    PackFlatten(all, 8, tail);
  }

  // ----- the decoding table

  predicate IsUpper(c: byte) {
    65 <= c <= 90
  }

  predicate IsLower(c: byte) {
    97 <= c <= 122
  }

  predicate IsAlpha(c: byte) {
    IsUpper(c) || IsLower(c)
  }

  function ToUpper(c: byte): byte {
    if IsLower(c) then c - 32 else c
  }

  function ToLower(c: byte): byte {
    if IsUpper(c) then c + 32 else c
  }

  /** An alphabet character stands for c. */
  predicate Claims(letter: byte, c: byte, caseInsensitive: bool) {
    letter == c || (caseInsensitive && IsAlpha(letter) && (ToUpper(letter) == c || ToLower(letter) == c))
  }

  /** The value of c is the last position of the alphabet that stands for it, -1 if there is none. */
  ghost predicate LastClaim(alphabet: seq<byte>, c: byte, caseInsensitive: bool, v: int) {
    && -1 <= v < |alphabet|
    && (v >= 0 ==> Claims(alphabet[v], c, caseInsensitive))
    && forall i :: v < i < |alphabet| ==> !Claims(alphabet[i], c, caseInsensitive)
  }

  /** Without regard to case, a character stands for itself and for the letter whose number differs by 32. */
  lemma ClaimsByNumber(letter: byte, c: byte)
    ensures Claims(letter, c, false) <==> letter == c
    ensures Claims(letter, c, true) <==> letter == c || (65 <= letter <= 90 && c == letter + 32) || (97 <= letter <= 122 && c == letter - 32)
  {
  }

  /** The two cases of a letter have the same value. */
  lemma CaseDoesNotMatter(alphabet: seq<byte>, upper: byte, v: int, w: int)
    requires 65 <= upper <= 90 && LastClaim(alphabet, upper, true, v) && LastClaim(alphabet, upper + 32, true, w)
    ensures v == w
  {
    forall letter: byte ensures Claims(letter, upper, true) <==> Claims(letter, upper + 32, true) {
      ClaimsByNumber(letter, upper);
      ClaimsByNumber(letter, upper + 32);
    }
    hide Claims;
  }

  method InitializeDecodingLookupArray(lookup: array<int>, alphabet: seq<byte>, caseInsensitive: bool)
    requires lookup.Length == 256
    modifies lookup
    ensures forall c: byte :: LastClaim(alphabet, c, caseInsensitive, lookup[c])
    ensures caseInsensitive ==> forall upper :: 65 <= upper <= 90 ==> lookup[upper] == lookup[upper + 32]
  {
    for c := 0 to 256
      invariant forall d :: 0 <= d < c ==> lookup[d] == -1
    {
      lookup[c] := -1;
    }
    for i := 0 to |alphabet|
      invariant forall c: byte :: LastClaim(alphabet[..i], c, caseInsensitive, lookup[c])
    {
      if caseInsensitive && IsAlpha(alphabet[i]) {
        lookup[ToUpper(alphabet[i])] := i;
        lookup[ToLower(alphabet[i])] := i;
      } else {
        lookup[alphabet[i]] := i;
      }
      assert alphabet[..i + 1] == alphabet[..i] + [alphabet[i]];
    }
    assert alphabet[..|alphabet|] == alphabet;
    if caseInsensitive {
      forall upper | 65 <= upper <= 90 ensures lookup[upper] == lookup[upper + 32] {
        CaseDoesNotMatter(alphabet, upper, lookup[upper], lookup[upper + 32]);
      }
    }
  }

  /** The table gives every character its position exactly when no later character stands for it too. */
  lemma TableMatches(lookup: seq<int>, alphabet: seq<byte>, caseInsensitive: bool)
    requires |lookup| == 256 && |alphabet| <= 256
    requires forall c: byte :: LastClaim(alphabet, c, caseInsensitive, lookup[c])
    ensures Matches(lookup, alphabet) <==> (forall i, j :: 0 <= i < j < |alphabet| ==> !Claims(alphabet[j], alphabet[i], caseInsensitive))
  {
    forall v | 0 <= v < |alphabet| ensures LastClaim(alphabet, alphabet[v], caseInsensitive, lookup[alphabet[v]]) {
    }
  }

  // ----- padding with a character of the alphabet

  lemma {:induction false} PackLength(s: seq<bool>, w: nat, n: nat)
    requires w > 0 && |s| == n * w
    ensures |Pack(s, w)| == n
  {
    if n > 0 {
      NextProduct(n - 1, w);
      PackLength(s[w..], w, n - 1);
    }
  }

  lemma {:induction false} LookupRepeated(lookup: seq<int>, c: byte, n: nat)
    requires |lookup| == 256 && !Skipped(lookup[c])
    ensures LookupAll(lookup, seq(n, _ => c)) == seq(n, _ => lookup[c])
  {
    if n > 0 {
      LookupRepeated(lookup, c, n - 1);
      assert seq(n, _ => c)[..n - 1] == seq(n - 1, _ => c);
      assert seq(n, _ => lookup[c]) == seq(n - 1, _ => lookup[c]) + [lookup[c]];
    }
  }

  lemma PaddedMultiple(n: nat, blockSize: nat)
    requires blockSize > 0
    ensures (n + PaddingCount(n, blockSize)) % blockSize == 0
  {
    var q, r := n / blockSize, n % blockSize;
    assert n == q * blockSize + r;
    NextProduct(q, blockSize);
    if r == 0 {
      DivModUnique(blockSize, blockSize, 1, 0);
    } else {
      DivModUnique(blockSize - r, blockSize, 0, blockSize - r);
      DivModUnique(n + blockSize - r, blockSize, q + 1, 0);
    }
  }

  lemma WholeBlocksOfBits(n: nat, k: nat, blockSize: nat) returns (bytes: nat)
    requires Widths(k, blockSize) && n % blockSize == 0
    ensures n * k == bytes * 8
  {
    var blocks := ExactBlocks(n, blockSize);
    var c := ExactBlocks(blockSize * k, 8);
    MulAssociative(blocks, blockSize, k);
    MulAssociative(blocks, c, 8);
    bytes := blocks * c;
  }

  /** Values behind those of a message that complete the block decode to more bytes. */
  lemma DecodedLonger(k: nat, blockSize: nat, n: nat, values: nat, all: seq<nat>)
    requires Widths(k, blockSize) && n * 8 <= values * k && values < |all| && Multiple(|all|, blockSize)
    ensures |Pack(Flatten(all, k), 8)| > n
  {
    var bytes := WholeBlocksOfBits(|all|, k, blockSize);
    MoreBytes(n, values, |all|, k, bytes);
    PackedLength(all, k, 8, bytes);
  }

  lemma PackedLength(values: seq<nat>, k: nat, w: nat, n: nat)
    requires w > 0 && |values| * k == n * w
    ensures |Pack(Flatten(values, k), w)| == n
  {
    FlattenLength(values, k);
    PackLength(Flatten(values, k), w, n);
  }

  lemma MoreBytes(n: nat, values: nat, all: nat, k: nat, bytes: nat)
    requires k > 0 && n * 8 <= values * k && values < all && all * k == bytes * 8
    ensures bytes > n
  {
    MulMonotone(values + 1, all, k);
    NextProduct(values, k);
  }

  lemma LookupPadded(alphabet: seq<byte>, lookup: seq<int>, padding: byte, values: seq<nat>, count: nat)
    requires Matches(lookup, alphabet) && !Skipped(lookup[padding]) && forall i :: 0 <= i < |values| ==> values[i] < |alphabet|
    ensures LookupAll(lookup, Translate(alphabet, values) + seq(count, _ => padding)) == values + seq(count, _ => lookup[padding])
  {
    LookupTranslated(lookup, alphabet, values);
    LookupConcat(lookup, Translate(alphabet, values), seq(count, _ => padding));
    LookupRepeated(lookup, padding, count);
  }

  /** With a padding character that the table does not skip, the round trip holds exactly for the
    messages that fill whole blocks. */
  lemma PaddingInAlphabet(alphabet: seq<byte>, lookup: seq<int>, k: nat, padding: byte, blockSize: nat, message: seq<byte>)
    requires Widths(k, blockSize) && |alphabet| == Pow2(k) && Matches(lookup, alphabet)
    requires !Skipped(lookup[padding])
    ensures blockSize * k > 0
    ensures DecodeText(lookup, k, EncodeText(alphabet, k, padding, blockSize, message)) == message
       <==> |message| * 8 % (blockSize * k) == 0
  {
    MulMonotone(1, blockSize, k);
    assert |lookup| == 256;
    hide *;
    PaddedDecodes(alphabet, lookup, k, padding, blockSize, blockSize * k, message);
    MultipleMeans(|message| * 8, blockSize * k);
  }

  lemma PaddedDecodes(alphabet: seq<byte>, lookup: seq<int>, k: nat, padding: byte, blockSize: nat, blockBits: nat,
                      message: seq<byte>)
    requires Widths(k, blockSize) && k > 0 && blockSize > 0 && blockBits == blockSize * k
    requires |alphabet| == Pow2(k) && |lookup| == 256 && Matches(lookup, alphabet) && !Skipped(lookup[padding]) && 1 <= k <= 7
    ensures DecodeText(lookup, k, EncodeText(alphabet, k, padding, blockSize, message)) == message <==> Multiple(|message| * 8, blockBits)
  {
    hide *;
    var values := PackPadded(Flatten(message, 8), k);
    var all := PaddedValues(alphabet, lookup, k, padding, blockSize, message);
    FilledBlocks(message, k, blockSize, blockBits, values, |all|);
    if |all| > |values| {
      DecodedLonger(k, blockSize, |message|, |values|, all);
      DecodeOfValues(lookup, k, EncodeText(alphabet, k, padding, blockSize, message), all);
    } else {
      DecodeSameValues(alphabet, lookup, k, message, EncodeText(alphabet, k, padding, blockSize, message));
    }
  }

  lemma FilledBlocks(message: seq<byte>, k: nat, blockSize: nat, blockBits: nat, values: seq<nat>, all: nat)
    requires Widths(k, blockSize) && k > 0 && blockSize > 0 && blockBits == blockSize * k && values == PackPadded(Flatten(message, 8), k)
    requires all == |values| + PaddingCount(|values|, blockSize)
    ensures blockBits > 0 && |message| * 8 <= |values| * k && Multiple(all, blockSize)
    ensures all == |values| <==> Multiple(|message| * 8, blockBits)
  {
    hide *;
    var extra := ValuesCover(message, k, values);
    RemainderOfMultiple(|message|, 8);
    FilledCounts(|message| * 8, |values|, extra, k, blockSize, blockBits, all);
  }

  lemma FilledCounts(bits: nat, values: nat, extra: nat, k: nat, blockSize: nat, blockBits: nat, all: nat)
    requires Widths(k, blockSize) && blockBits == blockSize * k && bits % 8 == 0 && values * k == bits + extra && extra < k
    requires all == values + PaddingCount(values, blockSize)
    ensures blockBits > 0 && bits <= values * k && Multiple(all, blockSize)
    ensures all == values <==> Multiple(bits, blockBits)
  {
    hide PaddingCount;
    NoPadding(values, blockSize);
    CountedBlocks(bits, values, extra, k, blockSize);
    PaddedMultiple(values, blockSize);
  }

  /** What the table makes of an encoding: its values and one more for every padding character. */
  lemma PaddedValues(alphabet: seq<byte>, lookup: seq<int>, k: nat, padding: byte, blockSize: nat,
                     message: seq<byte>) returns (all: seq<nat>)
    requires k > 0 && blockSize > 0 && |alphabet| == Pow2(k) && Matches(lookup, alphabet) && !Skipped(lookup[padding])
    ensures var values := PackPadded(Flatten(message, 8), k);
            && LookupAll(lookup, EncodeText(alphabet, k, padding, blockSize, message)) == all
            && |all| == |values| + PaddingCount(|values|, blockSize)
            && (|all| == |values| ==> all == values)
  {
    var values := PackPadded(Flatten(message, 8), k);
    PackPaddedFits(Flatten(message, 8), k);
    hide Flatten, PackPadded, PaddingCount, Pow2;
    var count := PaddingCount(|values|, blockSize);
    LookupPadded(alphabet, lookup, padding, values, count);
    all := values + seq(count, _ => lookup[padding]);
  }

  lemma DecodeOfValues(lookup: seq<int>, k: nat, text: seq<byte>, values: seq<nat>)
    requires |lookup| == 256 && LookupAll(lookup, text) == values
    ensures DecodeText(lookup, k, text) == Pack(Flatten(values, k), 8)
  {
    hide LookupAll, Pack, Flatten;
  }

  lemma NoPadding(n: nat, blockSize: nat)
    requires blockSize > 0
    ensures PaddingCount(n, blockSize) == 0 <==> n % blockSize == 0
  {
    var r := n % blockSize;
    if r == 0 {
      DivModUnique(blockSize, blockSize, 1, 0);
    } else {
      DivModUnique(blockSize - r, blockSize, 0, blockSize - r);
    }
  }

  lemma CountedBlocks(bits: nat, values: nat, extra: nat, k: nat, blockSize: nat)
    requires Widths(k, blockSize) && bits % 8 == 0 && values * k == bits + extra && extra < k
    ensures blockSize * k > 0
    ensures values % blockSize == 0 <==> bits % (blockSize * k) == 0
  {
    MulMonotone(1, blockSize, k);
    if values % blockSize == 0 {
      WholeBlocks(bits, values, extra, k, blockSize);
    }
    if bits % (blockSize * k) == 0 {
      var blocks := ExactBlocks(bits, blockSize * k);
      WholeValues(bits, values, extra, k, blockSize, blocks);
    }
  }

  lemma WholeBlocks(bits: nat, values: nat, extra: nat, k: nat, blockSize: nat)
    requires Widths(k, blockSize) && bits % 8 == 0 && values * k == bits + extra && extra < k
    requires blockSize * k > 0 && values % blockSize == 0
    ensures bits % (blockSize * k) == 0
  {
    var blocks := ExactBlocks(values, blockSize);
    var bytes := WholeBlocksOfBits(values, k, blockSize);
    NothingLeft(bits, extra, bytes);
    MulAssociative(blocks, blockSize, k);
    DivModUnique(bits, blockSize * k, blocks, 0);
  }

  lemma NothingLeft(bits: nat, extra: nat, bytes: nat)
    requires bits % 8 == 0 && bits + extra == bytes * 8 && extra < 8
    ensures extra == 0
  {
  }

  lemma WholeValues(bits: nat, values: nat, extra: nat, k: nat, blockSize: nat, blocks: nat)
    requires values * k == bits + extra && extra < k && blockSize > 0 && bits == blocks * (blockSize * k)
    ensures values % blockSize == 0
  {
    MulAssociative(blocks, blockSize, k);
    SameFactor(values, blocks * blockSize, extra, k);
    DivModUnique(values, blockSize, blocks, 0);
  }

  lemma SameFactor(x: nat, y: int, extra: nat, k: nat)
    requires x * k == y * k + extra && extra < k
    ensures x == y
  {
    QuotientUnique(k, x, 0, y, extra);
  }

  /** Four characters of six bits hold three bytes, so one byte never comes back. */
  lemma OneByteLost(alphabet: seq<byte>, lookup: seq<int>, padding: byte, b: byte)
    requires |alphabet| == Pow2(6) && Matches(lookup, alphabet) && !Skipped(lookup[padding])
    ensures DecodeText(lookup, 6, EncodeText(alphabet, 6, padding, 4, [b])) != [b]
  {
    hide *;
    assert Widths(6, 4) by {
      FourOfSix();
    }
    PaddingInAlphabet(alphabet, lookup, 6, padding, 4, [b]);
  }

  lemma FourOfSix()
    ensures Widths(6, 4)
  {
  }

  /** The values have room for the message and for fewer than k bits more. */
  lemma ValuesCover(message: seq<byte>, k: nat, values: seq<nat>) returns (extra: nat)
    requires k > 0 && values == PackPadded(Flatten(message, 8), k)
    ensures |values| * k == |message| * 8 + extra && extra < k
  {
    extra := FlattenPackPadded(Flatten(message, 8), k);
    hide *;
    FlattenLength(values, k);
    FlattenLength(message, 8);
  }

  // ----- the grouper

  /** Groups of g characters joined by the separator. */
  function Grouped(g: nat, separator: seq<byte>, text: seq<byte>): seq<byte> {
    if g == 0 || |text| <= g then text
    else text[..g] + separator + Grouped(g, separator, text[g..])
  }

  /** The length of the last group of n characters. */
  function LastGroup(g: nat, n: nat): (r: nat)
    requires g > 0
    ensures r <= g && (r == 0 <==> n == 0)
  {
    if n <= g then n else LastGroup(g, n - g)
  }

  /** Character i stands behind as many separators as there are whole groups before it. */
  lemma {:induction false} GroupedAt(g: nat, separator: seq<byte>, text: seq<byte>, i: nat)
    requires g > 0 && i < |text|
    ensures 0 <= i + i / g * |separator| < |Grouped(g, separator, text)|
    ensures Grouped(g, separator, text)[i + i / g * |separator|] == text[i]
  {
    if i < g {
      DivModUnique(i, g, 0, i);
    } else {
      GroupedAt(g, separator, text[g..], i - g);
      NextGroupOf(i, g, |separator|);
    }
  }

  /** Every group but the first has the separator in front. */
  lemma {:induction false} SeparatorAt(g: nat, separator: seq<byte>, text: seq<byte>, i: nat)
    requires g > 0 && 0 < i < |text| && i % g == 0
    ensures var end := i + i / g * |separator|;
            |separator| <= end <= |Grouped(g, separator, text)| && Grouped(g, separator, text)[end - |separator|..end] == separator
  {
    FirstMultiple(i, g);
    var rest := Grouped(g, separator, text[g..]);
    var front := text[..g] + separator;
    assert Grouped(g, separator, text) == front + rest;
    hide Grouped;
    NextGroupOf(i, g, |separator|);
    if i > g {
      SeparatorAt(g, separator, text[g..], i - g);
      var end := i - g + (i - g) / g * |separator|;
      assert (front + rest)[|front| + (end - |separator|)..|front| + end] == rest[end - |separator|..end];
    } else {
      NothingBefore(g, |separator|);
      assert (front + rest)[g..g + |separator|] == separator;
    }
  }

  lemma NothingBefore(g: nat, n: nat)
    requires g > 0
    ensures (g - g) / g * n == 0
  {
    DivModUnique(0, g, 0, 0);
  }

  lemma FirstMultiple(i: nat, g: nat)
    requires 0 < g && 0 < i && i % g == 0
    ensures i >= g && (i - g) % g == 0
  {
    if i < g {
      DivModUnique(i, g, 0, i);
    } else {
      NextGroupOf(i, g, 0);
    }
  }

  lemma NextGroupOf(i: nat, g: nat, n: nat)
    requires 0 < g <= i
    ensures i % g == (i - g) % g && i / g * n == (i - g) / g * n + n && (i - g) / g * n >= 0
  {
    var q, r := (i - g) / g, (i - g) % g;
    assert i - g == q * g + r;
    NextProduct(q, g);
    NextProduct(q, n);
    DivModUnique(i, g, q + 1, r);
  }

  lemma {:induction false} ExtendGroup(g: nat, separator: seq<byte>, a: seq<byte>, p: seq<byte>)
    requires g > 0 && LastGroup(g, |a|) + |p| <= g
    ensures Grouped(g, separator, a + p) == Grouped(g, separator, a) + p
    ensures LastGroup(g, |a + p|) == LastGroup(g, |a|) + |p|
  {
    if |a| > g {
      ExtendGroup(g, separator, a[g..], p);
      assert (a + p)[..g] == a[..g] && (a + p)[g..] == a[g..] + p;
      Reassociate(a[..g] + separator, Grouped(g, separator, a[g..]), p);
    }
  }

  lemma {:induction false} NextGroup(g: nat, separator: seq<byte>, a: seq<byte>, p: seq<byte>)
    requires g > 0 && LastGroup(g, |a|) == g && 0 < |p| <= g
    ensures Grouped(g, separator, a + p) == Grouped(g, separator, a) + separator + p
    ensures LastGroup(g, |a + p|) == |p|
  {
    assert (a + p)[..g] == a[..g] && (a + p)[g..] == a[g..] + p;
    if |a| > g {
      NextGroup(g, separator, a[g..], p);
      Reassociate(a[..g] + separator, Grouped(g, separator, a[g..]) + separator, p);
      Reassociate(a[..g] + separator, Grouped(g, separator, a[g..]), separator);
    } else {
      assert a[g..] == [] && a[..g] == a;
      assert a[g..] + p == p;
    }
  }

  class Grouper {
    const groupSize: nat
    const separator: seq<byte>
    const terminator: seq<byte>
    var counter: nat
    var output: seq<byte>
    ghost var absorbed: seq<byte>
    ghost var before: seq<byte>

    ghost predicate Valid()
      reads this
    {
      && output == before + Grouped(groupSize, separator, absorbed)
      && (groupSize > 0 ==> counter == LastGroup(groupSize, |absorbed|))
      && (groupSize == 0 ==> counter == 0)
    }

    constructor (groupSize: nat, separator: seq<byte>, terminator: seq<byte>)
      ensures Valid() && absorbed == [] && output == before == []
      ensures this.groupSize == groupSize && this.separator == separator && this.terminator == terminator
    {
      this.groupSize, this.separator, this.terminator := groupSize, separator, terminator;
      counter, output, absorbed, before := 0, [], [], [];
    }

    /** Outputs the next len characters, after a separator when the group is full. */
    method PutPiece(piece: seq<byte>) returns (len: nat)
      requires Valid() && groupSize > 0 && |piece| > 0
      modifies this`counter, this`output, this`absorbed
      ensures Valid() && 0 < len <= |piece| && absorbed == old(absorbed) + piece[..len]
    {
      ghost var full := counter == groupSize;
      if counter == groupSize {
        output := output + separator;
        counter := 0;
      }
      len := if |piece| < groupSize - counter then |piece| else groupSize - counter;
      output := output + piece[..len];
      counter := counter + len;
      if full {
        NextGroup(groupSize, separator, absorbed, piece[..len]);
        Reassociate(before, Grouped(groupSize, separator, absorbed), separator);
        Reassociate(before, Grouped(groupSize, separator, absorbed) + separator, piece[..len]);
      } else {
        ExtendGroup(groupSize, separator, absorbed, piece[..len]);
        Reassociate(before, Grouped(groupSize, separator, absorbed), piece[..len]);
      }
      absorbed := absorbed + piece[..len];
    }

    method PutGroups(input: seq<byte>)
      requires Valid() && groupSize > 0
      modifies this`counter, this`output, this`absorbed
      ensures Valid() && absorbed == old(absorbed) + input
    {
      hide *;
      var inputPosition := 0;
      while inputPosition < |input|
        invariant 0 <= inputPosition <= |input|
        invariant Valid() && absorbed == old(absorbed) + input[..inputPosition]
      {
        var len := PutPiece(input[inputPosition..]);
        assert input[..inputPosition] + input[inputPosition..][..len] == input[..inputPosition + len];
        Reassociate(old(absorbed), input[..inputPosition], input[inputPosition..][..len]);
        inputPosition := inputPosition + len;
      }
      assert input[..|input|] == input;
    }

    /** Feeds a piece of text; at its end the output is the grouping of all pieces together. */
    method Put2(input: seq<byte>, messageEnd: bool)
      requires Valid()
      modifies this
      ensures Valid()
      ensures !messageEnd ==> absorbed == old(absorbed) + input && before == old(before)
      ensures messageEnd ==> absorbed == [] && output == before
      ensures messageEnd ==> output == old(before) + Grouped(groupSize, separator, old(absorbed) + input) + terminator
    {
      if groupSize > 0 {
        PutGroups(input);
      } else {
        output := output + input;
        Reassociate(before, absorbed, input);
        absorbed := absorbed + input;
      }
      if messageEnd {
        output := output + terminator;
        counter, absorbed, before := 0, [], output;
        assert before + [] == before;
      }
    }
  }

  lemma LookupBetween(lookup: seq<int>, a: seq<byte>, separator: seq<byte>, b: seq<byte>)
    requires |lookup| == 256 && AllSkipped(lookup, separator)
    ensures LookupAll(lookup, a + separator + b) == LookupAll(lookup, a) + LookupAll(lookup, b)
  {
    LookupConcat(lookup, a + separator, b);
    LookupConcat(lookup, a, separator);
    LookupSkipped(lookup, separator);
  }

  lemma {:induction false} LookupGrouped(lookup: seq<int>, g: nat, separator: seq<byte>, text: seq<byte>)
    requires |lookup| == 256 && AllSkipped(lookup, separator)
    ensures LookupAll(lookup, Grouped(g, separator, text)) == LookupAll(lookup, text)
  {
    if g > 0 && |text| > g {
      LookupGrouped(lookup, g, separator, text[g..]);
      LookupBetween(lookup, text[..g], separator, Grouped(g, separator, text[g..]));
      LookupConcat(lookup, text[..g], text[g..]);
      assert text[..g] + text[g..] == text;
    }
  }

  /** Encoder, grouper and decoder in a row: a decoder that skips the characters of the separator
    and of the terminator recovers the message. */
  lemma GroupedRoundTrip(alphabet: seq<byte>, lookup: seq<int>, k: nat, padding: int, blockSize: nat, message: seq<byte>,
                         g: nat, separator: seq<byte>, terminator: seq<byte>)
    requires 1 <= k <= 7 && blockSize > 0 && |alphabet| == Pow2(k) && Matches(lookup, alphabet)
    requires -1 <= padding < 256 && (padding >= 0 ==> Skipped(lookup[padding]))
    requires AllSkipped(lookup, separator) && AllSkipped(lookup, terminator)
    ensures DecodeText(lookup, k, Grouped(g, separator, EncodeText(alphabet, k, padding, blockSize, message)) + terminator) == message
  {
    var text := EncodeText(alphabet, k, padding, blockSize, message);
    LookupEncoded(alphabet, lookup, k, padding, blockSize, message);
    LookupGrouped(lookup, g, separator, text);
    LookupSkipped(lookup, terminator);
    LookupConcat(lookup, Grouped(g, separator, text), terminator);
    DecodeSameValues(alphabet, lookup, k, message, Grouped(g, separator, text) + terminator);
  }
}
