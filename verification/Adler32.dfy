/** The Adler-32 checksum with deferred reduction: 3rdParty/cryptopp890/adler32.cpp, lines 8-80. */
module Adler32Checksum {
  import opened Bits

  const BASE: nat := 65521

  /** 32-bit arithmetic that must not wrap around. */
  type word32 = x: nat | x < 0x1_0000_0000

  // ----- the definition of RFC 1950, section 8.2

  /** The sum of the bytes. */
  function Sum(data: seq<byte>): nat {
    if data == [] then 0 else Sum(data[..|data| - 1]) + data[|data| - 1]
  }

  /** s1 is one plus the sum of all bytes. */
  function S1(data: seq<byte>): nat {
    1 + Sum(data)
  }

  /** s2 is the sum of all s1 values after each byte. */
  function S2(data: seq<byte>): nat {
    if data == [] then 0 else S2(data[..|data| - 1]) + S1(data)
  }

  /** s2 and s1 modulo 65521, each in two bytes, most significant first. */
  function Checksum(data: seq<byte>): seq<byte> {
    var s1, s2 := S1(data) % BASE, S2(data) % BASE;
    [s2 / 0x100, s2 % 0x100, s1 / 0x100, s1 % 0x100]
  }

  /** The sums from the other end: s1 starts at one, and s2 counts every byte as often as it has been in s1. */
  lemma {:induction false} FromTheFront(b: byte, rest: seq<byte>)
    ensures S1([b] + rest) == S1(rest) + b
    ensures S2([b] + rest) == S2(rest) + 1 + (|rest| + 1) * b
  {
    if rest == [] {
      NoBytes();
      SumAppend([], b);
      assert [b] + rest == [] + [b];
    } else {
      hide *;
      var n := |rest| - 1;
      var front, last := rest[..n], rest[n];
      FromTheFront(b, front);
      assert rest == front + [last] && [b] + rest == ([b] + front) + [last];
      SumAppend([b] + front, last);
      SumAppend(front, last);
      NextProduct(|rest|, b);
    }
  }

  lemma NoBytes()
    ensures S1([]) == 1 && S2([]) == 0
  {
  }

  /** The checksum as a number of 32 bits, high byte first. */
  lemma ChecksumNumber(data: seq<byte>)
    ensures |Checksum(data)| == 4
    ensures var c := Checksum(data);
            var high: nat, b: nat, a: nat, low: nat := c[0], c[1], c[2], c[3];
            high * 0x100_0000 + b * 0x1_0000 + a * 0x100 + low == S2(data) % 65521 * 0x1_0000 + S1(data) % 65521
  {
  }

  /** The checksum of "Wikipedia" is 11e60398. */
  lemma WikipediaChecksum()
    ensures Checksum([0x57, 0x69, 0x6b, 0x69, 0x70, 0x65, 0x64, 0x69, 0x61]) == [0x11, 0xe6, 0x03, 0x98]
  {
    hide S1, S2;
    NoBytes();
    Front([0x61], [], 98, 98);
    Front([0x69, 0x61], [0x61], 203, 309);
    Front([0x64, 0x69, 0x61], [0x69, 0x61], 303, 610);
    Front([0x65, 0x64, 0x69, 0x61], [0x64, 0x69, 0x61], 404, 1015);
    Front([0x70, 0x65, 0x64, 0x69, 0x61], [0x65, 0x64, 0x69, 0x61], 516, 1576);
    Front([0x69, 0x70, 0x65, 0x64, 0x69, 0x61], [0x70, 0x65, 0x64, 0x69, 0x61], 621, 2207);
    Front([0x6b, 0x69, 0x70, 0x65, 0x64, 0x69, 0x61], [0x69, 0x70, 0x65, 0x64, 0x69, 0x61], 728, 2957);
    Front([0x69, 0x6b, 0x69, 0x70, 0x65, 0x64, 0x69, 0x61], [0x6b, 0x69, 0x70, 0x65, 0x64, 0x69, 0x61], 833, 3798);
    Front([0x57, 0x69, 0x6b, 0x69, 0x70, 0x65, 0x64, 0x69, 0x61], [0x69, 0x6b, 0x69, 0x70, 0x65, 0x64, 0x69, 0x61], 920, 4582);
  }

  lemma Front(data: seq<byte>, rest: seq<byte>, s1: nat, s2: nat)
    requires |data| > 0 && data == [data[0]] + rest && s1 == S1(rest) + data[0] && s2 == S2(rest) + 1 + |data| * data[0]
    ensures S1(data) == s1 && S2(data) == s2
  {
    FromTheFront(data[0], rest);
  }

  // ----- running sums

  /** Sums that agree with the definition modulo 65521. */
  ghost predicate Tracks(s1: int, s2: int, data: seq<byte>) {
    s1 % BASE == S1(data) % BASE && s2 % BASE == S2(data) % BASE
  }

  lemma SumAppend(data: seq<byte>, b: byte)
    ensures S1(data + [b]) == S1(data) + b && S2(data + [b]) == S2(data) + S1(data) + b
  {
    assert (data + [b])[..|data|] == data;
  }

  lemma ModAdd(a: int, a': int, b: int, b': int)
    requires a % BASE == a' % BASE && b % BASE == b' % BASE
    ensures (a + b) % BASE == (a' + b') % BASE
  {
  }

  /** One more byte keeps the agreement. */
  lemma TracksByte(s1: int, s2: int, data: seq<byte>, b: byte)
    requires Tracks(s1, s2, data)
    ensures Tracks(s1 + b, s2 + (s1 + b), data + [b])
  {
    SumAppend(data, b);
    ModAdd(s1, S1(data), b, b);
    ModAdd(s2, S2(data), s1 + b, S1(data) + b);
  }

  lemma TracksNext(s1: int, s2: int, data: seq<byte>, input: seq<byte>, k: nat)
    requires k < |input| && Tracks(s1, s2, data + input[..k])
    ensures Tracks(s1 + input[k], s2 + (s1 + input[k]), data + input[..k + 1])
  {
    TracksByte(s1, s2, data + input[..k], input[k]);
    assert data + input[..k] + [input[k]] == data + input[..k + 1];
  }

  /** A single subtraction reduces s1, and s2 may be reduced at any time. */
  lemma TracksReduced(s1: int, s2: int, data: seq<byte>)
    requires Tracks(s1, s2, data)
    ensures Tracks(s1 - BASE, s2, data) && Tracks(s1, s2 % BASE, data) && Tracks(s1 - BASE, s2 % BASE, data)
  {
  }

  /** The largest s1 before its reduction: eight bytes on top of a reduced value. */
  const S1_LIMIT: nat := 67560

  /** After n bytes since the last reduction of s2, k of them since the last one of s1. */
  ghost predicate Growing(s1: int, s2: int, n: nat, k: nat) {
    0 <= s1 <= 65520 + 255 * k && 0 <= s2 <= 65520 + S1_LIMIT * n
  }

  /** After n bytes since the last reduction of s2. */
  ghost predicate Bounded(s1: int, s2: int, n: nat) {
    Growing(s1, s2, n, 0)
  }

  class Adler32 {
    var s1: nat
    var s2: nat
    ghost var absorbed: seq<byte>

    ghost predicate Valid()
      reads this
    {
      s1 == S1(absorbed) % BASE && s2 == S2(absorbed) % BASE
    }

    constructor ()
      ensures Valid() && absorbed == []
    {
      s1, s2, absorbed := 1, 0, [];
    }

    method Reset()
      modifies this
      ensures Valid() && absorbed == []
    {
      s1, s2, absorbed := 1, 0, [];
    }

    /** One byte: both sums stay below 2^32. */
    static method AddByte(a1: word32, a2: word32, input: seq<byte>, k: nat, ghost data: seq<byte>,
                          ghost n: nat) returns (s1: word32, s2: word32)
      requires k < |input| && k < 8 && n + k < 0x8000
      requires Growing(a1, a2, n + k, k) && Tracks(a1, a2, data + input[..k])
      ensures Growing(s1, s2, n + k + 1, k + 1) && Tracks(s1, s2, data + input[..k + 1])
    {
      TracksNext(a1, a2, data, input, k);
      hide Tracks;
      s1 := a1 + input[k];
      s2 := a2 + s1;
    }

    /** Up to seven bytes, to leave a multiple of eight. */
    static method AddFew(a1: word32, a2: word32, few: seq<byte>, ghost data: seq<byte>) returns (s1: word32, s2: word32)
      requires |few| < 8 && a1 < BASE && a2 < BASE && Tracks(a1, a2, data)
      ensures s1 < BASE && s2 < BASE && Tracks(s1, s2, data + few)
    {
      hide Tracks;
      s1, s2 := a1, a2;
      var i := 0;
      assert data + few[..0] == data;
      while i < |few|
        invariant 0 <= i <= |few|
        invariant Growing(s1, s2, i, i)
        invariant Tracks(s1, s2, data + few[..i])
      {
        s1, s2 := AddByte(s1, s2, few, i, data, 0);
        i := i + 1;
      }
      assert few[..i] == few;
      TracksReduced(s1, s2, data + few);
      if s1 >= BASE {
        s1 := s1 - BASE;
      }
      s2 := s2 % BASE;
    }

    /** Eight bytes, and a single subtraction for s1. */
    static method AddEight(a1: word32, a2: word32, input: seq<byte>, ghost data: seq<byte>,
                           ghost n: nat) returns (s1: word32, s2: word32)
      requires |input| == 8 && Bounded(a1, a2, n) && n + 8 <= 0x8000 && Tracks(a1, a2, data)
      ensures Bounded(s1, s2, n + 8) && Tracks(s1, s2, data + input)
    {
      hide Tracks;
      s1, s2 := a1, a2;
      assert data + input[..0] == data;
      s1, s2 := AddByte(s1, s2, input, 0, data, n);
      s1, s2 := AddByte(s1, s2, input, 1, data, n);
      s1, s2 := AddByte(s1, s2, input, 2, data, n);
      s1, s2 := AddByte(s1, s2, input, 3, data, n);
      s1, s2 := AddByte(s1, s2, input, 4, data, n);
      s1, s2 := AddByte(s1, s2, input, 5, data, n);
      s1, s2 := AddByte(s1, s2, input, 6, data, n);
      s1, s2 := AddByte(s1, s2, input, 7, data, n);
      assert input[..8] == input;
      TracksReduced(s1, s2, data + input);
      if s1 >= BASE {
        s1 := s1 - BASE;
      }
    }

    /** The bytes since the last reduction of s2 and those before the next one are at most 0x8000. */
    ghost static predicate Scheduled(n: nat, length: nat) {
      length % 8 == 0 && n % 8 == 0 && n + length % 0x8000 <= 0x8000 && (n > 0 ==> length % 0x8000 != 0)
    }

    static lemma ScheduledStep(n: nat, length: nat)
      requires Scheduled(n, length) && length > 0
      ensures n + 8 <= 0x8000 && length >= 8
      ensures (length - 8) % 0x8000 == 0 ==> Scheduled(0, length - 8)
      ensures (length - 8) % 0x8000 != 0 ==> Scheduled(n + 8, length - 8)
    {
      var eights := length / 8;
      assert length == 8 * eights && length % 0x8000 == 8 * (eights % 0x1000);
      assert (eights - 1) % 0x1000 == if eights % 0x1000 == 0 then 0xFFF else eights % 0x1000 - 1;
      assert (length - 8) % 0x8000 == 8 * ((eights - 1) % 0x1000);
    }

    /** Blocks of eight bytes; s2 is reduced only when the length left is a multiple of 0x8000. */
    static method AddBlocks(a1: word32, a2: word32, input: seq<byte>, ghost data: seq<byte>) returns (s1: word32, s2: word32)
      requires |input| % 8 == 0 && a1 < BASE && a2 < BASE && Tracks(a1, a2, data)
      ensures s1 < BASE && s2 < BASE && Tracks(s1, s2, data + input)
    {
      s1, s2 := a1, a2;
      var length := |input|;
      ghost var n: nat := 0;
      assert data + input[..0] == data;
      while length > 0
        invariant 0 <= length <= |input| && Scheduled(n, length)
        invariant Bounded(s1, s2, n) && (length == 0 ==> s2 < BASE)
        invariant Tracks(s1, s2, data + input[..|input| - length])
      {
        ScheduledStep(n, length);
        ghost var done := data + input[..|input| - length];
        var block := input[|input| - length..][..8];
        s1, s2 := AddEight(s1, s2, block, done, n);
        assert done + block == data + input[..|input| - (length - 8)];
        length := length - 8;
        if length % 0x8000 == 0 {
          TracksReduced(s1, s2, data + input[..|input| - length]);
          s2 := s2 % BASE;
          n := 0;
        } else {
          n := n + 8;
        }
      }
      assert input[..|input|] == input;
    }

    /** Adds bytes to the message; no 32-bit sum wraps around and both sums end up reduced. */
    method Update(input: seq<byte>)
      requires Valid()
      modifies this
      ensures Valid() && absorbed == old(absorbed) + input && s1 < BASE && s2 < BASE
    {
      var few := |input| % 8;
      var t1, t2 := s1, s2;
      assert absorbed + input[..0] == absorbed;
      if few != 0 {
        t1, t2 := AddFew(t1, t2, input[..few], absorbed);
      }
      t1, t2 := AddBlocks(t1, t2, input[few..], absorbed + input[..few]);
      assert absorbed + input[..few] + input[few..] == absorbed + input;
      s1, s2, absorbed := t1, t2, absorbed + input;
    }

    /** Writes the first `size` bytes of the checksum and starts again; false where the original throws. */
    method TruncatedFinal(hash: array<byte>, size: nat) returns (ok: bool)
      requires Valid() && (size <= 4 ==> size <= hash.Length)
      modifies this, hash
      ensures ok == (size <= 4)
      ensures ok ==> hash[..size] == Checksum(old(absorbed))[..size] && Valid() && absorbed == []
      ensures ok ==> hash[size..] == old(hash[size..])
      ensures !ok ==> Valid() && absorbed == old(absorbed) && hash[..] == old(hash[..])
    {
      if size > 4 {
        return false;
      }
      if size == 4 {
        hash[3] := s1 % 0x100;
      }
      if size >= 3 {
        hash[2] := s1 / 0x100 % 0x100;
      }
      if size >= 2 {
        hash[1] := s2 % 0x100;
      }
      if size >= 1 {
        hash[0] := s2 / 0x100 % 0x100;
      }
      Reset();
      ok := true;
    }
  }
}
