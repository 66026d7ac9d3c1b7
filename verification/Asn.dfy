/** Length octets, object identifiers and re-encoding of ASN.1 objects:
  3rdParty/cryptopp890/asn.cpp, lines 20-88, 271-286, 307-372 and 501-630.
*/
module Asn {
  import opened Bits
  import opened Options
  import opened Sequences

  // ----- byte queues

  class ByteQueue {
    var data: seq<byte>

    constructor ()
      ensures data == []
    {
      data := [];
    }

    method Put(b: byte)
      modifies this
      ensures data == old(data) + [b]
    {
      data := data + [b];
    }

    method Get() returns (ok: bool, b: byte)
      modifies this
      ensures ok == (old(data) != [])
      ensures if ok then [b] + data == old(data) && b == old(data)[0] else data == old(data)
    {
      ok, b := data != [], 0;
      if ok {
        b := data[0];
        data := data[1..];
      }
    }

    /** Moves at most n bytes to the end of the target. */
    method TransferTo(target: ByteQueue, n: nat) returns (moved: nat)
      requires target != this
      modifies this, target
      ensures moved == (if n <= |old(data)| then n else |old(data)|)
      ensures target.data == old(target.data) + old(data)[..moved] && data == old(data)[moved..]
    {
      moved := if n <= |data| then n else |data|;
      target.data := target.data + data[..moved];
      data := data[moved..];
    }
  }

  // ----- numbers as octets, most significant first

  const TWO_TO_THE_56: nat := 0x100_0000_0000_0000
  const TWO_TO_THE_64: nat := 0x1_0000_0000_0000_0000

  function BigEndian(s: seq<byte>): nat {
    if s == [] then 0 else BigEndian(s[..|s| - 1]) * 256 + s[|s| - 1]
  }

  /** The octets of a number, without leading zeros. */
  function Octets(n: nat): seq<byte> {
    if n == 0 then [] else Octets(n / 256) + [n % 256]
  }

  lemma {:induction false} OctetsValue(n: nat)
    ensures BigEndian(Octets(n)) == n
  {
    if n > 0 {
      OctetsValue(n / 256);
      assert Octets(n)[..|Octets(n)| - 1] == Octets(n / 256);
    }
  }

  lemma {:induction false} OctetsShortest(s: seq<byte>)
    ensures |Octets(BigEndian(s))| <= |s|
  {
    if s != [] {
      var high := BigEndian(s[..|s| - 1]);
      OctetsShortest(s[..|s| - 1]);
      assert BigEndian(s) / 256 == high;
    }
  }

  lemma {:induction false} BigEndianMonotone(s: seq<byte>, t: seq<byte>)
    ensures BigEndian(s) <= BigEndian(s + t)
  {
    if t == [] {
      assert s + t == s;
    } else {
      BigEndianMonotone(s, t[..|t| - 1]);
      assert (s + t)[..|s + t| - 1] == s + t[..|t| - 1];
    }
  }

  lemma {:induction false} OctetsBound(n: nat)
    ensures n < Pow2(8 * |Octets(n)|)
    ensures n > 0 ==> |Octets(n)| > 0 && Pow2(8 * |Octets(n)| - 8) <= n
  {
    if n > 0 {
      OctetsBound(n / 256);
      ByteMore(8 * |Octets(n / 256)|);
      if n / 256 > 0 {
        ByteMore(8 * |Octets(n / 256)| - 8);
      }
    }
  }

  lemma ByteMore(m: nat)
    ensures Pow2(m + 8) == 256 * Pow2(m)
  {
    assert Pow2(m + 8) == 2 * Pow2(m + 7) && Pow2(m + 7) == 2 * Pow2(m + 6) && Pow2(m + 6) == 2 * Pow2(m + 5);
    assert Pow2(m + 5) == 2 * Pow2(m + 4) && Pow2(m + 4) == 2 * Pow2(m + 3) && Pow2(m + 3) == 2 * Pow2(m + 2);
    assert Pow2(m + 2) == 2 * Pow2(m + 1) && Pow2(m + 1) == 2 * Pow2(m);
  }

  lemma PowerZero()
    ensures Pow2(0) == 1
  {
  }

  lemma LimitIsPower()
    ensures Pow2(56) == TWO_TO_THE_56 && Pow2(64) == TWO_TO_THE_64
  {
    PowerZero();
    hide Pow2;
    ByteMore(0);
    ByteMore(8);
    ByteMore(16);
    ByteMore(24);
    ByteMore(32);
    ByteMore(40);
    ByteMore(48);
    ByteMore(56);
  }

  lemma OctetsCount(n: nat, count: nat)
    requires n < Pow2(8 * count) && count > 0 && Pow2(8 * count - 8) <= n
    ensures |Octets(n)| == count
  {
    OctetsBound(n);
    var m := |Octets(n)|;
    assert n > 0;
    if m < count {
      Pow2Monotone(8 * m, 8 * count - 8);
    } else if count < m {
      Pow2Monotone(8 * count, 8 * m - 8);
    }
  }

  lemma ShrNonzero(n: nat, t: nat)
    ensures Shr(n, t) > 0 <==> Pow2(t) <= n
  {
    if Pow2(t) <= n {
      DivPositive(n, Pow2(t));
    } else {
      DivModUnique(n, Pow2(t), 0, n);
    }
  }

  /** Bounds l and h around the number of significant bits, whole octets apart. */
  ghost predicate Bisecting(value: nat, l: nat, h: nat) {
    && l % 8 == 0 && (h == l + 64 || h == l + 32 || h == l + 16 || h == l + 8)
    && Pow2(l) <= value < Pow2(h)
  }

  lemma BisectStep(value: nat, l: nat, h: nat)
    requires Bisecting(value, l, h) && h - l > 8
    ensures var t := (l + h) / 2; if Shr(value, t) > 0 then Bisecting(value, t, h) else Bisecting(value, l, t)
  {
    ShrNonzero(value, (l + h) / 2);
  }

  /** The number of significant octets, by bisection. */
  method BytePrecision(value: nat) returns (n: nat)
    requires value < TWO_TO_THE_64
    ensures n == |Octets(value)|
  {
    if value == 0 {
      return 0;
    }
    var l: nat, h: nat := 0, 64;
    LimitIsPower();
    while h - l > 8
      invariant Bisecting(value, l, h)
      decreases h - l
    {
      BisectStep(value, l, h);
      var t := (l + h) / 2;
      if Shr(value, t) > 0 {
        l := t;
      } else {
        h := t;
      }
    }
    n := h / 8;
    OctetsCount(value, n);
  }

  // ----- length octets

  function DerLength(n: nat): seq<byte>
    requires n < TWO_TO_THE_64
  {
    if n <= 0x7f then [n] else [AtMostEight(n) + 0x80] + Octets(n)
  }

  function AtMostEight(n: nat): (m: nat)
    requires n < TWO_TO_THE_64
    ensures m == |Octets(n)| <= 8
  {
    EightOctets(n);
    |Octets(n)|
  }

  lemma EightOctets(n: nat)
    requires n < TWO_TO_THE_64
    ensures |Octets(n)| <= 8
  {
    OctetsBound(n);
    LimitIsPower();
    if |Octets(n)| > 8 {
      Pow2Monotone(64, 8 * |Octets(n)| - 8);
    }
  }

  method DerLengthEncode(bt: ByteQueue, length: nat) returns (count: nat)
    requires length < TWO_TO_THE_64
    modifies bt
    ensures bt.data == old(bt.data) + DerLength(length) && count == |DerLength(length)|
  {
    if length <= 0x7f {
      bt.Put(length);
      return 1;
    }
    var j := BytePrecision(length);
    EightOctets(length);
    bt.Put(j + 0x80);
    count := 1;
    ghost var p := j;
    NoneLeft(length);
    while j > 0
      invariant 0 <= j <= p == |Octets(length)| && count == 1 + (p - j)
      invariant bt.data == old(bt.data) + [p + 0x80] + Octets(Shr(length, 8 * j))
      invariant |Octets(Shr(length, 8 * j))| == p - j
    {
      NextOctet(length, j - 1);
      bt.Put(Shr(length, (j - 1) * 8) % 256);
      count := count + 1;
      j := j - 1;
    }
    assert Shr(length, 0) == length;
  }

  lemma NoneLeft(n: nat)
    ensures Octets(Shr(n, 8 * |Octets(n)|)) == []
  {
    OctetsBound(n);
    DivModUnique(n, Pow2(8 * |Octets(n)|), 0, n);
  }

  lemma NextOctet(n: nat, j: nat)
    requires j < |Octets(n)|
    ensures Octets(Shr(n, 8 * j)) == Octets(Shr(n, 8 * (j + 1))) + [Shr(n, 8 * j) % 256]
  {
    assert n > 0;
    hide *;
    OctetsBound(n);
    Pow2Monotone(8 * j, 8 * |Octets(n)| - 8);
    ShrNonzero(n, 8 * j);
    ShrShr(n, 8 * j, 8);
    assert 8 * j + 8 == 8 * (j + 1);
    LastOctet(Shr(n, 8 * j));
  }

  lemma LastOctet(n: nat)
    requires n > 0
    ensures Octets(n) == Octets(Shr(n, 8)) + [n % 256]
  {
    assert Pow2(8) == 256 by {
      ByteMore(0);
    }
  }

  /** Octet i of the long form, by its weight. */
  lemma {:induction false} OctetAt(n: nat, i: nat)
    requires i < |Octets(n)|
    ensures Octets(n)[i] == Shr(n, 8 * (|Octets(n)| - 1 - i)) % 256
    ensures i == 0 ==> Octets(n)[i] != 0
  {
    var last := |Octets(n)| - 1;
    if i == last {
      assert Shr(n, 0) == n;
    } else {
      var m := 8 * (last - 1 - i);
      OctetAt(n / 256, i);
      assert Shr(n, 8) == n / 256 by {
        assert Pow2(8) == 256 by {
          ByteMore(0);
        }
      }
      ShrShr(n, 8, m);
      assert 8 + m == 8 * (last - i);
    }
  }

  /** The length octets: the number itself up to 127, otherwise 0x80 and the number of octets of the number, then these
    octets, the most significant one first and not zero. */
  lemma LengthOctets(n: nat)
    requires n < TWO_TO_THE_64
    ensures n < 0x80 ==> DerLength(n) == [n]
    ensures n >= 0x80 ==>
              var s := DerLength(n);
              && 2 <= |s| <= 9 && s[0] == 0x80 + |s| - 1 && s[1] != 0
              && forall i :: 1 <= i < |s| ==> s[i] == Shr(n, 8 * (|s| - 1 - i)) % 256
  {
    if n >= 0x80 {
      OctetsBound(n);
      EightOctets(n);
      hide Octets, Shr, Pow2;
      forall i | 1 <= i < |DerLength(n)| ensures DerLength(n)[i] == Shr(n, 8 * (|DerLength(n)| - 1 - i)) % 256 {
        OctetAt(n, i - 1);
      }
      OctetAt(n, 0);
    }
  }

  datatype Length = Definite(n: nat) | Indefinite | Truncated | Overflow

  /** What `count` octets say, and how many were read. They overflow when the octets before the last one
    do not leave room for eight more bits. */
  function ReadOctets(s: seq<byte>, count: nat): (r: (Length, nat))
    requires count > 0
    ensures r.0.Definite? ==> r.0.n < TWO_TO_THE_64 && r.1 <= |s|
  {
    var body := s[..Min(count, |s|)];
    var before := body[..Min(count - 1, |body|)];
    if BigEndian(before) >= TWO_TO_THE_56 then (Overflow, 0)
    else if |body| < count then (Truncated, 0)
    else (Definite(BigEndian(body)), count)
  }

  /** What the length octets at the start of the data say, and how many octets they are. */
  function ReadLength(s: seq<byte>): (r: (Length, nat))
    ensures r.0.Definite? ==> r.0.n < TWO_TO_THE_64
    ensures r.0.Definite? || r.0.Indefinite? ==> 0 < r.1 <= |s|
  {
    if s == [] then (Truncated, 0)
    else if s[0] < 0x80 then (Definite(s[0]), 1)
    else if s[0] == 0x80 then (Indefinite, 1)
    else
      var (length, count) := ReadOctets(s[1..], s[0] - 0x80);
      (length, 1 + count)
  }

  /** Of octets that are all there, the long form takes exactly the numbers of 64 bits. */
  lemma WholeLongForm(s: seq<byte>, count: nat)
    requires 0 < count <= |s|
    ensures ReadOctets(s, count) == if BigEndian(s[..count]) < TWO_TO_THE_64 then (Definite(BigEndian(s[..count])), count) else (Overflow, 0)
  {
    assert s[..count][..count - 1] == s[..count - 1];
  }

  /** Reads length octets; the original returns false on truncated data and throws on overflow. */
  method BerLengthDecode(bt: ByteQueue) returns (r: Length)
    modifies bt
    ensures r == ReadLength(old(bt.data)).0
    ensures r.Definite? || r.Indefinite? ==> bt.data == old(bt.data)[ReadLength(old(bt.data)).1..]
  {
    var ok, b := bt.Get();
    if !ok {
      return Truncated;
    }
    if b < 0x80 {
      return Definite(b);
    }
    var lengthBytes := b - 0x80;
    if lengthBytes == 0 {
      return Indefinite;
    }
    assert bt.data == old(bt.data)[1..];
    r := BerLongLength(bt, lengthBytes);
  }

  /** The loop invariant: `length` is the value of the octets read, which left room before the last of them. */
  ghost predicate Reading(start: seq<byte>, count: nat, left: nat, data: seq<byte>, length: nat) {
    && left <= count && count - left <= |start|
    && data == start[count - left..] && length == BigEndian(start[..count - left])
    && (left < count ==> BigEndian(start[..count - left - 1]) < TWO_TO_THE_56)
  }

  lemma ReadingStep(start: seq<byte>, count: nat, left: nat, data: seq<byte>, length: nat)
    requires Reading(start, count, left, data, length) && left > 0
    ensures length >= TWO_TO_THE_56 ==> ReadOctets(start, count).0 == Overflow
    ensures length < TWO_TO_THE_56 && data == [] ==> ReadOctets(start, count).0 == Truncated
    ensures length < TWO_TO_THE_56 && data != [] ==> Reading(start, count, left - 1, data[1..], length * 256 + data[0])
  {
    var got := count - left;
    var body := start[..Min(count, |start|)];
    var before := body[..Min(count - 1, |body|)];
    assert before == start[..got] + before[got..];
    BigEndianMonotone(start[..got], before[got..]);
    if data == [] {
      assert before == start[..got];
    } else {
      assert start[..got + 1][..got] == start[..got];
    }
  }

  lemma ReadingDone(start: seq<byte>, count: nat, data: seq<byte>, length: nat)
    requires count > 0 && Reading(start, count, 0, data, length)
    ensures ReadOctets(start, count) == (Definite(length), count)
  {
    assert start[..count][..count - 1] == start[..count - 1];
  }

  method BerLongLength(bt: ByteQueue, lengthBytes: nat) returns (r: Length)
    requires lengthBytes > 0
    modifies bt
    ensures r == ReadOctets(old(bt.data), lengthBytes).0
    ensures r.Definite? ==> bt.data == old(bt.data)[lengthBytes..] && ReadOctets(old(bt.data), lengthBytes).1 == lengthBytes
  {
    var length: nat, left := 0, lengthBytes;
    while left > 0
      invariant Reading(old(bt.data), lengthBytes, left, bt.data, length)
    {
      ReadingStep(old(bt.data), lengthBytes, left, bt.data, length);
      left := left - 1;
      if length >= TWO_TO_THE_56 {
        return Overflow;
      }
      var ok, b := bt.Get();
      if !ok {
        return Truncated;
      }
      length := length * 256 + b;
    }
    ReadingDone(old(bt.data), lengthBytes, bt.data, length);
    r := Definite(length);
  }

  lemma OctetsRead(n: nat, rest: seq<byte>)
    requires 0 < n < TWO_TO_THE_64
    ensures ReadOctets(Octets(n) + rest, |Octets(n)|) == (Definite(n), |Octets(n)|)
  {
    var count := |Octets(n)|;
    OctetsValue(n);
    OctetsValue(n / 256);
    assert (Octets(n) + rest)[..count] == Octets(n);
    assert Octets(n)[..count - 1] == Octets(n / 256);
  }

  lemma LongForm(n: nat, octets: seq<byte>, rest: seq<byte>)
    requires 0 < |octets| < 0x80 && ReadOctets(octets + rest, |octets|) == (Definite(n), |octets|)
    ensures ReadLength([|octets| + 0x80] + octets + rest) == (Definite(n), 1 + |octets|)
  {
    assert ([|octets| + 0x80] + octets + rest)[1..] == octets + rest;
  }

  /** Decoding the length octets of any 64-bit length gives it back and consumes exactly them. */
  lemma LengthRoundTrip(n: nat, rest: seq<byte>)
    requires n < TWO_TO_THE_64
    ensures ReadLength(DerLength(n) + rest) == (Definite(n), |DerLength(n)|)
  {
    if n > 0x7f {
      EightOctets(n);
      OctetsRead(n, rest);
      LongForm(n, Octets(n), rest);
    }
  }

  /** No length octets that decode to n are shorter. */
  lemma LengthMinimal(header: seq<byte>, n: nat)
    requires ReadLength(header).0 == Definite(n)
    ensures |DerLength(n)| <= ReadLength(header).1
  {
    if n > 0x7f {
      var count := header[0] - 0x80;
      OctetsShortest(header[1..][..count]);
    }
  }

  lemma ReadOctetsPrefix(s: seq<byte>, t: seq<byte>, count: nat)
    requires 0 < count <= |s| && count <= |t| && s[..count] == t[..count]
    ensures ReadOctets(s, count) == ReadOctets(t, count)
  {
  }

  /** What follows the length octets does not matter. */
  lemma LengthPrefix(s: seq<byte>, t: seq<byte>)
    requires ReadLength(s).0.Definite? || ReadLength(s).0.Indefinite?
    requires ReadLength(s).1 <= |t| && s[..ReadLength(s).1] == t[..ReadLength(s).1]
    ensures ReadLength(t) == ReadLength(s)
  {
    var n := ReadLength(s).1;
    assert s[0] == s[..n][0] == t[..n][0] == t[0];
    if s[0] > 0x80 {
      var count := s[0] - 0x80;
      assert s[1..][..count] == s[..n][1..] == t[..n][1..] == t[1..][..count];
      ReadOctetsPrefix(s[1..], t[1..], count);
    }
  }

  // ----- BER objects with one tag octet

  /** An object as it is written: with its length octets and its contents, or with an indefinite length
    and the objects up to the end-of-contents octets. */
  datatype Ber = Primitive(tag: byte, header: seq<byte>, content: seq<byte>) | Nested(tag: byte, children: seq<Ber>)

  predicate Constructed(tag: byte) {
    tag / 0x20 % 2 == 1
  }

  /** The constructed bit is bit 5. */
  lemma ConstructedBit(tag: byte)
    ensures Constructed(tag) <==> GetBit(tag, 5) == 1
  {
    assert Pow2(5) == 32 by {
      assert Pow2(3) == 8;
    }
  }

  predicate IsEnd(s: seq<byte>) {
    |s| >= 2 && s[0] == 0 && s[1] == 0
  }

  ghost function Bytes(b: Ber): seq<byte> {
    match b
    case Primitive(tag, header, content) => [tag] + header + content
    case Nested(tag, children) => [tag, 0x80] + (AllBytes(children) + [0, 0])
  }

  ghost function AllBytes(bs: seq<Ber>): seq<byte> {
    if bs == [] then [] else Bytes(bs[0]) + AllBytes(bs[1..])
  }

  ghost predicate WellFormed(b: Ber) {
    match b
    case Primitive(_, header, content) => ReadLength(header) == (Definite(|content|), |header|)
    case Nested(tag, children) => Constructed(tag) && AllWellFormed(children)
  }

  ghost predicate AllWellFormed(bs: seq<Ber>) {
    forall i :: 0 <= i < |bs| ==> WellFormed(bs[i]) && !IsEnd(Bytes(bs[i]))
  }

  /** The object with a definite length of minimal octets. */
  ghost function Reencoded(b: Ber): seq<byte>
    decreases b, 1
  {
    Encoded(b.tag, Contents(b))
  }

  /** A definite length in its shortest form, computed modulo 2^64. */
  function Encoded(tag: byte, content: seq<byte>): seq<byte> {
    [tag] + DerLength(|content| % TWO_TO_THE_64) + content
  }

  /** Contents with a definite length stay as they are, even where they hold objects of indefinite length. */
  ghost function Contents(b: Ber): seq<byte>
    decreases b, 0
  {
    match b
    case Primitive(_, _, content) => content
    case Nested(_, children) => AllReencoded(children)
  }

  ghost function AllReencoded(bs: seq<Ber>): seq<byte> {
    if bs == [] then [] else Reencoded(bs[0]) + AllReencoded(bs[1..])
  }

  // ----- reading an object

  /** The object at the start of the data and what follows it. */
  ghost function ParseBer(s: seq<byte>): (r: Option<(Ber, seq<byte>)>)
    ensures r.Some? ==> |r.value.1| < |s|
    decreases |s|, 0
  {
    if s == [] then None
    else
      var (length, n) := ReadLength(s[1..]);
      match length
      case Definite(m) =>
        if |s| - 1 - n < m then None
        else Some((Primitive(s[0], s[1..1 + n], s[1 + n..1 + n + m]), s[1 + n + m..]))
      case Indefinite =>
        if !Constructed(s[0]) then None
        else (match ParseChildren(s[2..])
              case None => None
              case Some(p) => Some((Nested(s[0], p.0), p.1)))
      case _ => None
  }

  /** The objects up to the end-of-contents octets and what follows these. */
  ghost function ParseChildren(s: seq<byte>): (r: Option<(seq<Ber>, seq<byte>)>)
    ensures r.Some? ==> |r.value.1| < |s|
    decreases |s|, 1
  {
    if IsEnd(s) then Some(([], s[2..]))
    else match ParseBer(s)
      case None => None
      case Some(p) =>
        match ParseChildren(p.1)
        case None => None
        case Some(q) => Some(([p.0] + q.0, q.1))
  }

  /** What is read is well formed and is a prefix of the data. */
  lemma {:induction false} ParsedBer(s: seq<byte>)
    ensures ParseBer(s).Some? ==> var (b, rest) := ParseBer(s).value; WellFormed(b) && s == Bytes(b) + rest
    decreases |s|, 0
  {
    if ParseBer(s).Some? {
      var (length, n) := ReadLength(s[1..]);
      if length.Definite? {
        ParsedDefinite(s, length.n, n);
      } else {
        hide Bytes, AllBytes;
        ParsedChildren(s[2..]);
        var (bs, rest) := ParseChildren(s[2..]).value;
        ParsedNested(s, bs, rest);
      }
    }
  }

  lemma ParsedDefinite(s: seq<byte>, m: nat, n: nat)
    requires s != [] && ReadLength(s[1..]) == (Definite(m), n) && m <= |s| - 1 - n
    ensures ReadLength(s[1..1 + n]) == (Definite(m), n)
    ensures s == [s[0]] + s[1..1 + n] + s[1 + n..1 + n + m] + s[1 + n + m..]
  {
    LengthPrefix(s[1..], s[1..1 + n]);
  }

  lemma ParsedNested(s: seq<byte>, bs: seq<Ber>, rest: seq<byte>)
    requires |s| >= 2 && s[1] == 0x80 && s[2..] == AllBytes(bs) + [0, 0] + rest
    ensures s == Bytes(Nested(s[0], bs)) + rest
  {
    hide AllBytes;
    assert s == [s[0], 0x80] + s[2..];
    Reassociate([s[0], 0x80], AllBytes(bs) + [0, 0], rest);
  }

  lemma Append3<T>(a: seq<T>, b: seq<T>, c: seq<T>, d: seq<T>)
    ensures a + b + c + d == a + (b + c + d)
  {
  }

  lemma Append4<T>(a: seq<T>, b: seq<T>, c: seq<T>, d: seq<T>)
    ensures a + (b + c + d) == (a + b + c) + d
  {
  }

  lemma {:induction false} ParsedChildren(s: seq<byte>)
    ensures ParseChildren(s).Some? ==> var (bs, rest) := ParseChildren(s).value; AllWellFormed(bs) && s == AllBytes(bs) + [0, 0] + rest
    decreases |s|, 1
  {
    if IsEnd(s) {
      assert s == [] + [0, 0] + s[2..];
    } else if ParseChildren(s).Some? {
      ParsedBer(s);
      var (b, rest) := ParseBer(s).value;
      ParsedChildren(rest);
      var (bs, end) := ParseChildren(rest).value;
      ParsedFirst(s, b, bs, end);
    }
  }

  lemma StartsWith(a: seq<byte>, b: seq<byte>)
    ensures IsEnd(a) ==> IsEnd(a + b)
  {
  }

  lemma ParsedFirst(s: seq<byte>, b: Ber, bs: seq<Ber>, end: seq<byte>)
    requires s == Bytes(b) + (AllBytes(bs) + [0, 0] + end) && WellFormed(b) && AllWellFormed(bs) && !IsEnd(s)
    ensures AllWellFormed([b] + bs) && s == AllBytes([b] + bs) + [0, 0] + end
  {
    hide Bytes;
    assert ([b] + bs)[1..] == bs;
    Append4(Bytes(b), AllBytes(bs), [0, 0], end);
    StartsWith(Bytes(b), AllBytes(bs) + [0, 0] + end);
  }

  /** Every well-formed object is read back, whatever follows it. */
  lemma {:induction false} BytesParse(b: Ber, rest: seq<byte>)
    requires WellFormed(b)
    ensures ParseBer(Bytes(b) + rest) == Some((b, rest))
    decreases b
  {
    match b
    case Primitive(tag, header, content) =>
      PrimitiveParses(tag, header, content, rest);
    case Nested(tag, children) =>
      ChildrenParse(children, rest);
      NestedParses(tag, AllBytes(children) + [0, 0], rest);
  }

  lemma PrimitiveParses(tag: byte, header: seq<byte>, content: seq<byte>, rest: seq<byte>)
    requires ReadLength(header) == (Definite(|content|), |header|)
    ensures ParseBer([tag] + header + content + rest) == Some((Primitive(tag, header, content), rest))
  {
    hide ReadLength;
    var s, n := [tag] + header + content + rest, |header|;
    assert s[1..] == header + (content + rest);
    assert s[1..][..n] == header == header[..n];
    LengthPrefix(header, s[1..]);
    assert s[1..1 + n] == header && s[1 + n..1 + n + |content|] == content && s[1 + n + |content|..] == rest;
  }

  lemma NestedParses(tag: byte, members: seq<byte>, rest: seq<byte>)
    requires Constructed(tag) && ParseChildren(members + rest).Some?
    ensures var r := ParseChildren(members + rest).value;
            ParseBer([tag, 0x80] + members + rest) == Some((Nested(tag, r.0), r.1))
  {
    hide ParseChildren;
    var s := [tag, 0x80] + members + rest;
    assert s[1..][0] == 0x80;
    assert s[2..] == members + rest;
  }

  /** An object of indefinite length is read exactly when bit 5 of its tag is set, whatever its members are; it is
    re-encoded with the length of its re-encoded members, and what follows it is left. */
  lemma IndefiniteTag(tag: byte, bs: seq<Ber>, rest: seq<byte>)
    requires AllWellFormed(bs)
    ensures var r := ParseBer([tag, 0x80] + (AllBytes(bs) + [0, 0]) + rest);
            && (r.Some? <==> GetBit(tag, 5) == 1)
            && (r.Some? ==> r.value.1 == rest && Reencoded(r.value.0) == [tag] + DerLength(|AllReencoded(bs)| % TWO_TO_THE_64) + AllReencoded(bs))
  {
    ConstructedBit(tag);
    hide GetBit, AllBytes, AllReencoded, DerLength, AllWellFormed;
    ChildrenParse(bs, rest);
    assert (AllBytes(bs) + [0, 0]) + rest == AllBytes(bs) + [0, 0] + rest;
    if Constructed(tag) {
      NestedParses(tag, AllBytes(bs) + [0, 0], rest);
    } else {
      assert ([tag, 0x80] + (AllBytes(bs) + [0, 0]) + rest)[1..][0] == 0x80;
    }
  }

  /** The empty one: 30 80 00 00 becomes 30 00. */
  lemma EmptyIndefinite(tag: byte, rest: seq<byte>)
    ensures var r := ParseBer([tag, 0x80, 0, 0] + rest);
            && (r.Some? <==> GetBit(tag, 5) == 1)
            && (r.Some? ==> Reencoded(r.value.0) == [tag, 0] && r.value.1 == rest)
  {
    IndefiniteTag(tag, [], rest);
    hide ParseBer, Reencoded, GetBit;
    assert [tag, 0x80] + (AllBytes([]) + [0, 0]) + rest == [tag, 0x80, 0, 0] + rest;
    assert [tag] + DerLength(0) + AllReencoded([]) == [tag, 0];
  }

  lemma {:induction false} ChildrenParse(bs: seq<Ber>, rest: seq<byte>)
    requires AllWellFormed(bs)
    ensures ParseChildren(AllBytes(bs) + [0, 0] + rest) == Some((bs, rest))
    decreases bs
  {
    hide ReadLength, Bytes, ParseBer;
    var s := AllBytes(bs) + [0, 0] + rest;
    if bs == [] {
      assert s[2..] == rest;
    } else {
      var tail := AllBytes(bs[1..]) + [0, 0] + rest;
      BytesParse(bs[0], tail);
      ChildrenParse(bs[1..], rest);
      assert s == Bytes(bs[0]) + tail;
      NotEnd(bs[0], tail);
      assert [bs[0]] + bs[1..] == bs;
    }
  }

  lemma NotEnd(b: Ber, rest: seq<byte>)
    requires WellFormed(b) && !IsEnd(Bytes(b))
    ensures !IsEnd(Bytes(b) + rest)
  {
    if b.Primitive? {
      assert ReadLength(b.header).1 > 0;
    }
    assert |Bytes(b)| >= 2;
  }

  // ----- re-encoding

  /** A decoder reads from the queue of the outermost object: a decoder of indefinite length passes
    reads on unchanged, and DerReencode opens no decoder inside one of definite length. */
  class BerGeneralDecoder {
    const inQueue: ByteQueue
    var length: nat
    var definiteLength: bool

    constructor (inQueue: ByteQueue)
      ensures this.inQueue == inQueue
    {
      this.inQueue := inQueue;
      length, definiteLength := 0, false;
    }

    method Init(tag: byte) returns (ok: bool)
      modifies this, inQueue
      ensures ok ==> old(inQueue.data) != [] && old(inQueue.data)[0] == tag
      ensures ok == (old(inQueue.data) != [] && old(inQueue.data)[0] == tag && Header(old(inQueue.data)[1..], tag))
      ensures ok && !definiteLength ==> GetBit(tag, 5) == 1
      ensures old(inQueue.data) != [] && old(inQueue.data)[0] == tag && ReadLength(old(inQueue.data)[1..]).0.Indefinite? ==> ok == (GetBit(tag, 5) == 1)
      ensures ok ==> var (l, n) := ReadLength(old(inQueue.data)[1..]);
                     inQueue.data == old(inQueue.data)[1 + n..] && definiteLength == l.Definite? && (definiteLength ==> length == l.n)
    {
      var got, b := inQueue.Get();
      if !got || b != tag {
        return false;
      }
      assert inQueue.data == old(inQueue.data)[1..];
      var l := BerLengthDecode(inQueue);
      if l.Truncated? || l.Overflow? {
        return false;
      }
      definiteLength := l.Definite?;
      if definiteLength {
        length := l.n;
      }
      ConstructedBit(tag);
      ok := definiteLength || Constructed(tag);
    }

    /** Moves the remaining contents to the target. */
    method TransferRest(target: ByteQueue)
      requires definiteLength && target != inQueue
      modifies this`length, inQueue, target
      ensures var n := Min(old(length), |old(inQueue.data)|);
              && length == old(length) - n && inQueue.data == old(inQueue.data)[n..]
              && target.data == old(target.data) + old(inQueue.data)[..n]
    {
      var moved := inQueue.TransferTo(target, length);
      length := length - moved;
    }

    method MessageEnd() returns (ok: bool)
      modifies inQueue
      ensures definiteLength ==> ok == (length == 0) && inQueue.data == old(inQueue.data)
      ensures !definiteLength ==> ok == IsEnd(old(inQueue.data)) && (ok ==> inQueue.data == old(inQueue.data)[2..])
    {
      if definiteLength {
        return length == 0;
      }
      var high, a := inQueue.Get();
      var low, b := inQueue.Get();
      ok := high && low && a == 0 && b == 0;
    }
  }

  /** The octets after a tag start an object. */
  predicate Header(s: seq<byte>, tag: byte) {
    ReadLength(s).0.Definite? || (ReadLength(s).0.Indefinite? && Constructed(tag))
  }

  class DerGeneralEncoder {
    const tag: byte
    const queue: ByteQueue

    constructor (tag: byte)
      ensures this.tag == tag && fresh(queue) && queue.data == []
    {
      this.tag := tag;
      queue := new ByteQueue();
    }

    method MessageEnd(outQueue: ByteQueue)
      requires outQueue != queue
      modifies outQueue, queue
      ensures outQueue.data == old(outQueue.data) + Encoded(tag, old(queue.data))
    {
      var length := |queue.data| % TWO_TO_THE_64;
      outQueue.Put(tag);
      var _ := DerLengthEncode(outQueue, length);
      var _ := queue.TransferTo(outQueue, |queue.data|);
    }
  }

  /** Objects read before the remaining ones. */
  ghost function Before(done: seq<Ber>, r: Option<(seq<Ber>, seq<byte>)>): Option<(seq<Ber>, seq<byte>)> {
    match r
    case None => None
    case Some(p) => Some((done + p.0, p.1))
  }

  lemma OneMoreChild(done: seq<Ber>, s: seq<byte>)
    requires !IsEnd(s)
    ensures ParseBer(s).None? ==> Before(done, ParseChildren(s)) == None
    ensures ParseBer(s).Some? ==> var (b, rest) := ParseBer(s).value;
                                  Before(done, ParseChildren(s)) == Before(done + [b], ParseChildren(rest))
  {
    if ParseBer(s).Some? && ParseChildren(s).Some? {
      var (b, rest) := ParseBer(s).value;
      var (bs, end) := ParseChildren(rest).value;
      assert done + ([b] + bs) == done + [b] + bs;
    }
  }

  lemma {:induction false} AllReencodedAppend(bs: seq<Ber>, b: Ber)
    ensures AllReencoded(bs + [b]) == AllReencoded(bs) + Reencoded(b)
  {
    if bs == [] {
      assert [] + [b] == [b] && [b][1..] == [];
    } else {
      AllReencodedAppend(bs[1..], b);
      assert (bs + [b])[1..] == bs[1..] + [b];
      Reassociate(Reencoded(bs[0]), AllReencoded(bs[1..]), Reencoded(b));
    }
  }

  /** The loop invariant: what is left to read and what is written after `before` belong together. */
  ghost predicate Transferring(start: seq<byte>, done: seq<Ber>, data: seq<byte>, before: seq<byte>, written: seq<byte>) {
    && |data| <= |start|
    && Before(done, ParseChildren(data)) == ParseChildren(start)
    && written == before + AllReencoded(done)
  }

  lemma TransferringStart(start: seq<byte>, before: seq<byte>)
    ensures Transferring(start, [], start, before, before)
  {
    if ParseChildren(start).Some? {
      assert [] + ParseChildren(start).value.0 == ParseChildren(start).value.0;
    }
  }

  lemma TransferringStep(start: seq<byte>, done: seq<Ber>, data: seq<byte>, before: seq<byte>, written: seq<byte>)
    requires Transferring(start, done, data, before, written) && !IsEnd(data)
    ensures ParseBer(data).None? ==> ParseChildren(start).None?
    ensures ParseBer(data).Some? ==> var (b, rest) := ParseBer(data).value;
                                     Transferring(start, done + [b], rest, before, written + Reencoded(b))
  {
    hide ParseBer, ParseChildren, Reencoded;
    OneMoreChild(done, data);
    if ParseBer(data).Some? {
      var b := ParseBer(data).value.0;
      AllReencodedAppend(done, b);
      Reassociate(before, AllReencoded(done), Reencoded(b));
    }
  }

  lemma TransferringEnd(start: seq<byte>, done: seq<Ber>, data: seq<byte>, before: seq<byte>, written: seq<byte>)
    requires Transferring(start, done, data, before, written) && IsEnd(data)
    ensures ParseChildren(start) == Some((done, data[2..]))
  {
    assert done + [] == done;
  }

  method TransferChildren(source: ByteQueue, queue: ByteQueue) returns (ok: bool)
    requires source != queue
    modifies source, queue
    ensures ok == ParseChildren(old(source.data)).Some?
    ensures ok ==> IsEnd(source.data)
    ensures ok ==> var (bs, rest) := ParseChildren(old(source.data)).value;
                   source.data[2..] == rest && queue.data == old(queue.data) + AllReencoded(bs)
    decreases |source.data|, 1
  {
    ghost var start, before, done := source.data, queue.data, [];
    TransferringStart(start, before);
    while !IsEnd(source.data)
      invariant Transferring(start, done, source.data, before, queue.data)
      decreases |source.data|
    {
      TransferringStep(start, done, source.data, before, queue.data);
      ghost var parsed := ParseBer(source.data);
      ok := DerReencode(source, queue);
      if !ok {
        return false;
      }
      done := done + [parsed.value.0];
    }
    TransferringEnd(start, done, source.data, before, queue.data);
    ok := true;
  }

  /** Moves the contents of an opened object to the queue and closes the object. */
  method TransferContents(decoder: BerGeneralDecoder, queue: ByteQueue) returns (ok: bool)
    requires decoder.inQueue != queue && queue.data == []
    modifies decoder, decoder.inQueue, queue
    ensures var data := old(decoder.inQueue.data);
            if old(decoder.definiteLength) then
              ok == (old(decoder.length) <= |data|)
              && (ok ==> queue.data == data[..old(decoder.length)] && decoder.inQueue.data == data[old(decoder.length)..])
            else
              ok == ParseChildren(data).Some?
              && (ok ==> queue.data == AllReencoded(ParseChildren(data).value.0) && decoder.inQueue.data == ParseChildren(data).value.1)
    decreases |decoder.inQueue.data|, 2
  {
    hide ParseBer, ParseChildren, AllReencoded;
    if decoder.definiteLength {
      decoder.TransferRest(queue);
    } else {
      ok := TransferChildren(decoder.inQueue, queue);
      if !ok {
        return false;
      }
    }
    ok := decoder.MessageEnd();
  }

  /** Re-encodes the object at the head of the source: it succeeds exactly when the source starts with a
    well-formed object, consumes exactly that object, and writes it with definite length. */
  method DerReencode(source: ByteQueue, dest: ByteQueue) returns (ok: bool)
    requires source != dest
    modifies source, dest
    ensures ok == ParseBer(old(source.data)).Some?
    ensures ok ==> var (b, rest) := ParseBer(old(source.data)).value;
                   source.data == rest && dest.data == old(dest.data) + Reencoded(b)
    decreases |source.data|, 0
  {
    if source.data == [] {
      return false;
    }
    hide ParseBer, ParseChildren, Reencoded, AllReencoded, Encoded, ReadLength;
    ghost var s := source.data;
    var tag := source.data[0];
    var decoder := new BerGeneralDecoder(source);
    var encoder := new DerGeneralEncoder(tag);
    ok := decoder.Init(tag);
    if !ok {
      NoHeader(s);
      return false;
    }
    ghost var n := ReadLength(s[1..]).1;
    if decoder.definiteLength {
      DefiniteObject(s, decoder.length, n, source.data);
    } else {
      IndefiniteObject(s, n, source.data);
    }
    ok := TransferContents(decoder, encoder.queue);
    if ok {
      encoder.MessageEnd(dest);
    }
  }

  lemma NoHeader(s: seq<byte>)
    requires s != [] && !Header(s[1..], s[0])
    ensures ParseBer(s).None?
  {
    hide ParseChildren;
  }

  lemma DefiniteObject(s: seq<byte>, m: nat, n: nat, data: seq<byte>)
    requires s != [] && ReadLength(s[1..]) == (Definite(m), n) && data == s[1 + n..]
    ensures ParseBer(s).Some? == (m <= |data|)
    ensures m <= |data| ==> Reencoded(ParseBer(s).value.0) == Encoded(s[0], data[..m]) && ParseBer(s).value.1 == data[m..]
  {
    hide ParseChildren, Encoded, ReadLength;
    if m <= |data| {
      assert data[..m] == s[1 + n..1 + n + m];
      assert data[m..] == s[1 + n + m..];
    }
  }

  lemma IndefiniteObject(s: seq<byte>, n: nat, data: seq<byte>)
    requires s != [] && Header(s[1..], s[0]) && ReadLength(s[1..]) == (Indefinite, n) && data == s[1 + n..]
    ensures ParseBer(s).Some? == ParseChildren(data).Some?
    ensures ParseBer(s).Some? ==> Reencoded(ParseBer(s).value.0) == Encoded(s[0], AllReencoded(ParseChildren(data).value.0))
    ensures ParseBer(s).Some? ==> ParseBer(s).value.1 == ParseChildren(data).value.1
  {
    hide ParseChildren, Encoded;
  }

  /** The re-encoded object as an object of its own. */
  ghost function Der(b: Ber): Ber
    requires |Contents(b)| < TWO_TO_THE_64
  {
    Primitive(b.tag, DerLength(|Contents(b)|), Contents(b))
  }

  /** The result is well formed and of definite length, holds the same tag and contents, and re-encoding
    changes it no more. */
  lemma ReencodeIdempotent(b: Ber, rest: seq<byte>)
    requires |Contents(b)| < TWO_TO_THE_64
    ensures WellFormed(Der(b)) && Bytes(Der(b)) == Reencoded(b)
    ensures ParseBer(Reencoded(b) + rest) == Some((Der(b), rest))
    ensures Reencoded(Der(b)) == Reencoded(b)
  {
    DerWellFormed(b);
    BytesParse(Der(b), rest);
  }

  lemma DerWellFormed(b: Ber)
    requires |Contents(b)| < TWO_TO_THE_64
    ensures WellFormed(Der(b)) && Bytes(Der(b)) == Reencoded(b)
  {
    hide ReadLength, DerLength;
    var header := DerLength(|Contents(b)|);
    LengthRoundTrip(|Contents(b)|, []);
    assert header + [] == header;
  }

  /** No object of definite length with the same contents is shorter. */
  lemma ReencodeMinimal(b: Ber, other: Ber)
    requires WellFormed(other) && other.Primitive? && other.content == Contents(b)
    ensures |Reencoded(b)| <= |Bytes(other)|
  {
    hide ReadLength, DerLength, Contents;
    LengthMinimal(other.header, |other.content|);
  }

  /** The objects in the data, up to its end. */
  ghost function ParseAll(s: seq<byte>): Option<seq<Ber>>
    decreases |s|
  {
    if s == [] then Some([])
    else match ParseBer(s)
      case None => None
      case Some(p) =>
        match ParseAll(p.1)
        case None => None
        case Some(bs) => Some([p.0] + bs)
  }

  ghost function AllDer(bs: seq<Ber>): seq<Ber>
    requires forall i :: 0 <= i < |bs| ==> |Contents(bs[i])| < TWO_TO_THE_64
  {
    if bs == [] then [] else [Der(bs[0])] + AllDer(bs[1..])
  }

  /** The new contents of an object of indefinite length hold its re-encoded members, in order. */
  lemma {:induction false} MembersKept(bs: seq<Ber>)
    requires forall i :: 0 <= i < |bs| ==> |Contents(bs[i])| < TWO_TO_THE_64
    ensures ParseAll(AllReencoded(bs)) == Some(AllDer(bs))
  {
    if bs != [] {
      ReencodeIdempotent(bs[0], AllReencoded(bs[1..]));
      MembersKept(bs[1..]);
    }
  }

  // ----- object identifiers

  const TWO_TO_THE_25: nat := 0x200_0000
  const TWO_TO_THE_32: nat := 0x1_0000_0000

  /** The digits of a number to base 128, each marked as not the last one. */
  function HighDigits(v: nat): seq<byte> {
    if v == 0 then [] else HighDigits(v / 128) + [0x80 + v % 128]
  }

  function ArcOctets(v: nat): seq<byte> {
    HighDigits(v / 128) + [v % 128]
  }

  lemma WordIsPower()
    ensures Pow2(32) == TWO_TO_THE_32
  {
    PowerZero();
    hide Pow2;
    ByteMore(0);
    ByteMore(8);
    ByteMore(16);
    ByteMore(24);
  }

  ghost predicate Bracketing(value: nat, l: nat, h: nat) {
    && (h == l + 32 || h == l + 16 || h == l + 8 || h == l + 4 || h == l + 2 || h == l + 1)
    && Pow2(l) <= value < Pow2(h)
  }

  lemma BracketStep(value: nat, l: nat, h: nat)
    requires Bracketing(value, l, h) && h - l > 1
    ensures var t := (l + h) / 2; if Shr(value, t) > 0 then Bracketing(value, t, h) else Bracketing(value, l, t)
  {
    ShrNonzero(value, (l + h) / 2);
  }

  lemma BitCountUnique(value: nat, l: nat)
    requires Pow2(l) <= value < Pow2(l + 1)
    ensures BitCount(value) == l + 1
  {
    BitCountBound(value);
    var n := BitCount(value);
    if n <= l {
      Pow2Monotone(n, l);
    } else if n > l + 1 {
      Pow2Monotone(l + 1, n - 1);
    }
  }

  /** The number of significant bits, by bisection. */
  method BitPrecision(value: nat) returns (n: nat)
    requires value < TWO_TO_THE_32
    ensures n == BitCount(value)
  {
    if value == 0 {
      return 0;
    }
    var l: nat, h: nat := 0, 32;
    WordIsPower();
    while h - l > 1
      invariant Bracketing(value, l, h)
      decreases h - l
    {
      BracketStep(value, l, h);
      var t := (l + h) / 2;
      if Shr(value, t) > 0 {
        l := t;
      } else {
        h := t;
      }
    }
    BitCountUnique(value, l);
    n := h;
  }

  lemma NextDigit(v: nat, i: nat, before: seq<byte>)
    requires i < BitCount(v)
    ensures before + HighDigits(Shr(v, i + 7)) + [0x80 + Shr(v, i) % 0x80] == before + HighDigits(Shr(v, i))
  {
    ShrPositive(v, i);
    ShrShr(v, i, 7);
    SevenBits();
    Reassociate(before, HighDigits(Shr(v, i + 7)), [0x80 + Shr(v, i) % 0x80]);
  }

  lemma SevenBits()
    ensures Pow2(7) == 128
  {
    assert Pow2(4) == 16;
  }

  lemma LastDigit(v: nat, before: seq<byte>)
    ensures before + HighDigits(Shr(v, 7)) + [v % 0x80] == before + ArcOctets(v)
  {
    SevenBits();
    Reassociate(before, HighDigits(Shr(v, 7)), [v % 0x80]);
  }

  method EncodeValue(bt: ByteQueue, v: nat)
    requires v < TWO_TO_THE_32
    modifies bt
    ensures bt.data == old(bt.data) + ArcOctets(v)
  {
    var bits := BitPrecision(v);
    var i := FirstDigit(bits);
    ShrZero(v, i + 7);
    assert bt.data == old(bt.data) + HighDigits(0);
    hide HighDigits, ArcOctets, Shr, BitCount, FirstDigit;
    ghost var groups: nat := i / 7;
    while i != 0
      invariant i == 7 * groups && (i > 0 ==> i < BitCount(v))
      invariant bt.data == old(bt.data) + HighDigits(Shr(v, i + 7))
      decreases i
    {
      NextDigit(v, i, old(bt.data));
      bt.Put(0x80 + Shr(v, i) % 0x80);
      i, groups := i - 7, groups - 1;
    }
    LastDigit(v, old(bt.data));
    bt.Put(v % 0x80);
  }

  /** The position of the highest group of seven bits. */
  function FirstDigit(bits: nat): (i: int)
    ensures i >= 0 && i % 7 == 0 && bits <= i + 7 && (i > 0 ==> i < bits)
  {
    ((if bits < 7 then 7 else bits) + 6) / 7 * 7 - 7
  }

  /** The number at the start of the data, read after the digits of v, and how many octets were read. */
  function ReadArc(s: seq<byte>, v: nat): (r: Option<(nat, nat)>)
    ensures r.Some? ==> 0 < r.value.1 <= |s| && r.value.0 < TWO_TO_THE_32
  {
    if s == [] || v >= TWO_TO_THE_25 then None
    else
      var w := v * 128 + s[0] % 0x80;
      if s[0] < 0x80 then Some((w, 1)) else Later(ReadArc(s[1..], w), 1)
  }

  function Later(r: Option<(nat, nat)>, n: nat): Option<(nat, nat)> {
    match r
    case None => None
    case Some(p) => Some((p.0, p.1 + n))
  }

  /** Reads one number; the original throws where this returns false. */
  method DecodeValue(bt: ByteQueue) returns (ok: bool, v: nat, i: nat)
    modifies bt
    ensures ok == ReadArc(old(bt.data), 0).Some?
    ensures ok ==> (v, i) == ReadArc(old(bt.data), 0).value && bt.data == old(bt.data)[i..]
  {
    i, v := 0, 0;
    while true
      invariant i <= |old(bt.data)| && bt.data == old(bt.data)[i..]
      invariant ReadArc(old(bt.data), 0) == Later(ReadArc(bt.data, v), i)
      decreases |bt.data|
    {
      var b: byte;
      ok, b := bt.Get();
      if !ok {
        return;
      }
      i := i + 1;
      if v >= TWO_TO_THE_25 {
        ok := false;
        return;
      }
      v := v * 128 + b % 0x80;
      if b < 0x80 {
        return;
      }
    }
  }

  lemma LaterTwice(r: Option<(nat, nat)>, n: nat, m: nat)
    ensures Later(Later(r, n), m) == Later(r, m + n)
  {
  }

  /** Reading the leading digits of a number leaves the number as the value to continue with. */
  lemma {:induction false} HighDigitsRead(u: nat, s: seq<byte>)
    requires u < TWO_TO_THE_32
    ensures ReadArc(HighDigits(u) + s, 0) == Later(ReadArc(s, u), |HighDigits(u)|)
  {
    if u == 0 {
      assert HighDigits(0) + s == s;
    } else {
      hide ReadArc, Later;
      var d: byte := 0x80 + u % 128;
      HighDigitsRead(u / 128, [d] + s);
      LaterTwice(ReadArc(s, u), 1, |HighDigits(u / 128)|);
      Reassociate(HighDigits(u / 128), [d], s);
      DigitRead(u / 128, d, s);
    }
  }

  lemma DigitRead(v: nat, d: byte, s: seq<byte>)
    requires v < TWO_TO_THE_25 && d >= 0x80
    ensures ReadArc([d] + s, v) == Later(ReadArc(s, v * 128 + d % 0x80), 1)
  {
    assert ([d] + s)[1..] == s;
  }

  /** Every 32-bit value is read back and exactly its octets are consumed. */
  lemma ArcRoundTrip(v: nat, rest: seq<byte>)
    requires v < TWO_TO_THE_32
    ensures ReadArc(ArcOctets(v) + rest, 0) == Some((v, |ArcOctets(v)|))
  {
    HighDigitsRead(v / 128, [v % 128] + rest);
    Reassociate(HighDigits(v / 128), [v % 128], rest);
  }

  /** A number of more than 32 bits is refused, so that exactly those of 32 bits come back. */
  lemma ArcTooLarge(v: nat, rest: seq<byte>)
    requires v >= TWO_TO_THE_32
    ensures ReadArc(ArcOctets(v) + rest, 0).None?
  {
    HighDigitsTooLarge(v / 128, [v % 128] + rest);
    Reassociate(HighDigits(v / 128), [v % 128], rest);
  }

  lemma {:induction false} HighDigitsTooLarge(u: nat, s: seq<byte>)
    requires u >= TWO_TO_THE_25
    ensures ReadArc(HighDigits(u) + s, 0).None?
  {
    if u < TWO_TO_THE_32 {
      HighDigitsRead(u, s);
    } else {
      hide ReadArc;
      HighDigitsTooLarge(u / 128, [(0x80 + u % 128) as byte] + s);
      Reassociate(HighDigits(u / 128), [(0x80 + u % 128) as byte], s);
    }
  }

  ghost predicate Words(values: seq<nat>) {
    forall i :: 0 <= i < |values| ==> values[i] < TWO_TO_THE_32
  }

  function AllArcs(values: seq<nat>): seq<byte> {
    if values == [] then [] else AllArcs(values[..|values| - 1]) + ArcOctets(values[|values| - 1])
  }

  /** The first octet holds the first two arcs, cut to eight bits. */
  function OidContents(values: seq<nat>): seq<byte>
    requires |values| >= 2
  {
    [(values[0] * 40 + values[1]) % 256] + AllArcs(values[2..])
  }

  const OBJECT_IDENTIFIER: byte := 6

  function OidBytes(values: seq<nat>): seq<byte>
    requires |values| >= 2 && |OidContents(values)| < TWO_TO_THE_64
  {
    [OBJECT_IDENTIFIER] + DerLength(|OidContents(values)|) + OidContents(values)
  }

  /** The arc 1.2.840.113549 of RSA Data Security is 06 06 2a 86 48 86 f7 0d. */
  lemma RsaOid()
    ensures OidContents([1, 2, 840, 113549]) == [0x2a, 0x86, 0x48, 0x86, 0xf7, 0x0d]
    ensures OidBytes([1, 2, 840, 113549]) == [6, 6, 0x2a, 0x86, 0x48, 0x86, 0xf7, 0x0d]
  {
    assert ArcOctets(840) == [0x86, 0x48] by {
      assert HighDigits(6) == HighDigits(0) + [0x86];
    }
    assert ArcOctets(113549) == [0x86, 0xf7, 0x0d] by {
      assert HighDigits(887) == HighDigits(6) + [0xf7];
      assert HighDigits(6) == HighDigits(0) + [0x86];
    }
    var arcs := [1, 2, 840, 113549][2..];
    assert arcs == [840, 113549] && arcs[..1] == [840] && [840][..0] == [];
    hide ArcOctets;
    assert AllArcs([840]) == AllArcs([]) + ArcOctets(840);
    assert AllArcs(arcs) == AllArcs([840]) + ArcOctets(113549);
  }

  /** Reads numbers until `length` octets are used up. */
  function ReadArcs(s: seq<byte>, length: nat): (r: Option<(seq<nat>, seq<byte>)>)
    decreases length
  {
    if length == 0 then Some(([], s))
    else match ReadArc(s, 0)
      case None => None
      case Some(p) =>
        if p.1 > length then None
        else match ReadArcs(s[p.1..], length - p.1)
          case None => None
          case Some(q) => Some(([p.0] + q.0, q.1))
  }

  function ReadOid(s: seq<byte>): Option<(seq<nat>, seq<byte>)> {
    if s == [] || s[0] != OBJECT_IDENTIFIER then None
    else
      var (length, n) := ReadLength(s[1..]);
      if !length.Definite? || length.n < 1 || |s| <= 1 + n then None
      else match ReadArcs(s[2 + n..], length.n - 1)
        case None => None
        case Some(q) => Some(([s[1 + n] / 40, s[1 + n] % 40] + q.0, q.1))
  }

  class Oid {
    var values: seq<nat>

    constructor (values: seq<nat>)
      ensures this.values == values
    {
      this.values := values;
    }

    method DerEncode(bt: ByteQueue)
      requires |values| >= 2 && Words(values) && |OidContents(values)| < TWO_TO_THE_64
      modifies bt
      ensures bt.data == old(bt.data) + OidBytes(values)
    {
      var temp := EncodeContents();
      bt.Put(OBJECT_IDENTIFIER);
      var _ := DerLengthEncode(bt, |temp.data|);
      var _ := temp.TransferTo(bt, |temp.data|);
      ghost var contents := OidContents(values);
      assert contents[..|contents|] == contents;
      Append3(old(bt.data), [OBJECT_IDENTIFIER], DerLength(|contents|), contents);
    }

    method EncodeContents() returns (temp: ByteQueue)
      requires |values| >= 2 && Words(values)
      ensures fresh(temp) && temp.data == OidContents(values)
    {
      temp := new ByteQueue();
      ghost var first := [(values[0] * 40 + values[1]) % 256];
      temp.Put((values[0] * 40 + values[1]) % 256);
      var i := 2;
      assert values[2..2] == [];
      while i < |values|
        invariant 2 <= i <= |values|
        invariant temp.data == first + AllArcs(values[2..i])
      {
        EncodeValue(temp, values[i]);
        assert values[2..i + 1][..i - 2] == values[2..i];
        Reassociate(first, AllArcs(values[2..i]), ArcOctets(values[i]));
        i := i + 1;
      }
      assert values[2..i] == values[2..];
    }

    /** Reads the arcs behind the first two; the original throws where this returns false. */
    method DecodeArcs(bt: ByteQueue, length: nat) returns (ok: bool)
      modifies bt, this
      ensures ok == ReadArcs(old(bt.data), length).Some?
      ensures ok ==> values == old(values) + ReadArcs(old(bt.data), length).value.0 && bt.data == ReadArcs(old(bt.data), length).value.1
    {
      var left: nat := length;
      ghost var all, done := ReadArcs(bt.data, length), [];
      if all.Some? {
        assert [] + all.value.0 == all.value.0;
      }
      while left > 0
        invariant AfterArcs(done, ReadArcs(bt.data, left)) == all
        invariant values == old(values) + done
      {
        var v: nat, n: nat;
        ghost var s := bt.data;
        ok, v, n := DecodeValue(bt);
        if !ok || n > left {
          return false;
        }
        OneMoreArc(done, s, left);
        Reassociate(old(values), done, [v]);
        values, done := values + [v], done + [v];
        left := left - n;
      }
      assert done + [] == done;
      ok := true;
    }

    method BerDecode(bt: ByteQueue) returns (ok: bool)
      modifies bt, this
      ensures ok == ReadOid(old(bt.data)).Some?
      ensures ok ==> (values, bt.data) == ReadOid(old(bt.data)).value
    {
      var b: byte;
      ok, b := bt.Get();
      if !ok || b != OBJECT_IDENTIFIER {
        return false;
      }
      assert bt.data == old(bt.data)[1..];
      var length := BerLengthDecode(bt);
      if !length.Definite? || length.n < 1 {
        return false;
      }
      ok, b := bt.Get();
      if !ok {
        return false;
      }
      ghost var n := ReadLength(old(bt.data)[1..]).1;
      DropThrice(old(bt.data), n);
      values := [b / 40, b % 40];
      ok := DecodeArcs(bt, length.n - 1);
    }
  }

  lemma DropThrice(s: seq<byte>, n: nat)
    requires 1 + n < |s|
    ensures s[1..][n..][0] == s[1 + n] && s[1..][n..][1..] == s[2 + n..]
  {
  }

  ghost function AfterArcs(done: seq<nat>, r: Option<(seq<nat>, seq<byte>)>): Option<(seq<nat>, seq<byte>)> {
    match r
    case None => None
    case Some(p) => Some((done + p.0, p.1))
  }

  lemma OneMoreArc(done: seq<nat>, s: seq<byte>, left: nat)
    requires left > 0 && ReadArc(s, 0).Some? && ReadArc(s, 0).value.1 <= left
    ensures var (v, n) := ReadArc(s, 0).value;
            AfterArcs(done, ReadArcs(s, left)) == AfterArcs(done + [v], ReadArcs(s[n..], left - n))
  {
    var (v, n) := ReadArc(s, 0).value;
    if ReadArcs(s[n..], left - n).Some? {
      Reassociate(done, [v], ReadArcs(s[n..], left - n).value.0);
    }
  }

  lemma {:induction false} ArcsRoundTrip(values: seq<nat>, rest: seq<byte>)
    requires Words(values)
    ensures ReadArcs(AllArcs(values) + rest, |AllArcs(values)|) == Some((values, rest))
    decreases |values|
  {
    if values == [] {
      assert [] + rest == rest;
    } else {
      ArcsSplit(values);
      var head, tail := ArcOctets(values[0]), AllArcs(values[1..]);
      ArcRoundTrip(values[0], tail + rest);
      ArcsRoundTrip(values[1..], rest);
      Reassociate(head, tail, rest);
      assert (head + (tail + rest))[|head|..] == tail + rest;
      assert [values[0]] + values[1..] == values;
    }
  }

  lemma {:induction false} ArcsSplit(values: seq<nat>)
    requires values != []
    ensures AllArcs(values) == ArcOctets(values[0]) + AllArcs(values[1..])
    decreases |values|
  {
    var n := |values| - 1;
    if n == 0 {
      assert values[..0] == [];
    } else {
      ArcsSplit(values[..n]);
      assert values[..n][1..] == values[1..][..n - 1];
      Reassociate(ArcOctets(values[0]), AllArcs(values[1..][..n - 1]), ArcOctets(values[n]));
    }
  }

  lemma OidRead(first: byte, values: seq<nat>, header: seq<byte>, s: seq<byte>, rest: seq<byte>)
    requires Words(values) && s == [OBJECT_IDENTIFIER] + header + ([first] + AllArcs(values)) + rest
    requires ReadLength(s[1..]) == (Definite(1 + |AllArcs(values)|), |header|)
    ensures ReadOid(s) == Some(([first / 40, first % 40] + values, rest))
  {
    hide ReadLength;
    var arcs := AllArcs(values);
    assert s[1 + |header|] == first && s[2 + |header|..] == arcs + rest;
    ArcsRoundTrip(values, rest);
  }

  /** What decoding gives for the encoding of an identifier. */
  lemma OidDecoded(values: seq<nat>, rest: seq<byte>)
    requires |values| >= 2 && Words(values) && |OidContents(values)| < TWO_TO_THE_64
    ensures var first := (values[0] * 40 + values[1]) % 256;
            ReadOid(OidBytes(values) + rest) == Some(([first / 40, first % 40] + values[2..], rest))
  {
    hide ReadLength, DerLength;
    var first, arcs := (values[0] * 40 + values[1]) % 256, AllArcs(values[2..]);
    var header, s := DerLength(1 + |arcs|), OidBytes(values) + rest;
    assert s[1..] == header + ([first] + arcs + rest);
    LengthRoundTrip(1 + |arcs|, [first] + arcs + rest);
    OidRead(first, values[2..], header, s, rest);
  }

  /** Decoding gives the identifier back exactly when its second arc is below 40 and the first two arcs
    fit the first octet. */
  lemma OidRoundTrip(values: seq<nat>, rest: seq<byte>)
    requires |values| >= 2 && Words(values) && |OidContents(values)| < TWO_TO_THE_64
    ensures ReadOid(OidBytes(values) + rest) == Some((values, rest)) <==> values[1] < 40 && values[0] * 40 + values[1] < 256
  {
    hide ReadOid, OidContents, OidBytes;
    OidDecoded(values, rest);
    var first := (values[0] * 40 + values[1]) % 256;
    var decoded := [first / 40, first % 40] + values[2..];
    assert values == [values[0], values[1]] + values[2..];
    assert decoded[0] == first / 40 && decoded[1] == first % 40;
    if values[1] < 40 && values[0] * 40 + values[1] < 256 {
      DivModUnique(first, 40, values[0], values[1]);
    }
  }

  /** 2.100.3 comes back as 4.20.3. */
  lemma OidChanged(rest: seq<byte>)
    ensures |OidContents([2, 100, 3])| == 2 && ReadOid(OidBytes([2, 100, 3]) + rest) == Some(([4, 20, 3], rest))
  {
    assert [2, 100, 3][2..] == [3] && [3][..0] == [];
    assert OidContents([2, 100, 3]) == [180, 3];
    OidDecoded([2, 100, 3], rest);
    assert [4, 20] + [3] == [4, 20, 3];
  }
}
