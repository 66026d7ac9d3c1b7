/** The chunked, authenticated container of src/CryptoApi.cpp: the key-level buffer operations
  (lines 321-489) and the password-level ones (492-792).
*/
module Container {
  import opened Bits
  import opened Options
  import opened Sequences

  const INT_MAX: nat := 0x7fff_ffff
  const PASSWORD_SALT_SIZE: nat := 16
  const CHUNK_SIZE: nat := 1024

  datatype Status = NoError | InvalidArgument | InvalidData | BufferTooSmall | UnexpectedError | FileIoError | OperationCancelled

  // ----- the providers

  /** An authenticated cipher. Its operations may fail. */
  datatype Aead = Aead(
    nonceSize: nat, tagSize: nat, keySize: nat,
    acceptsKey: seq<byte> -> bool,
    encrypt: (seq<byte>, seq<byte>, seq<byte>) -> Option<(seq<byte>, seq<byte>)>,
    decrypt: (seq<byte>, seq<byte>, seq<byte>, seq<byte>) -> Option<seq<byte>>)
  {
    /** What the callers rely on: sizes that leave room in 32-bit sums, ciphertext as long as the plaintext,
      and decryption that inverts encryption. */
    ghost predicate Conforms() {
      && 0 < keySize && nonceSize + tagSize <= 0x10000
      && (forall k, n, p :: |n| == nonceSize && encrypt(k, n, p).Some? ==> Sound(k, n, p))
      && (forall k, n, c, t :: decrypt(k, n, c, t).Some? ==> |decrypt(k, n, c, t).value| == |c|)
    }

    ghost predicate Sound(k: seq<byte>, n: seq<byte>, p: seq<byte>)
      requires encrypt(k, n, p).Some?
    {
      var (c, t) := encrypt(k, n, p).value;
      |c| == |p| && |t| == tagSize && decrypt(k, n, c, t) == Some(p)
    }

    function Overhead(): nat {
      nonceSize + tagSize
    }
  }

  /** The key for a password and a salt. */
  type Kdf = (seq<byte>, seq<byte>) -> Option<seq<byte>>

  ghost predicate Derives(kdf: Kdf, aead: Aead) {
    forall password, salt :: kdf(password, salt).Some? ==> |kdf(password, salt).value| == aead.keySize
  }

  /** A random source: what the i-th call gives for a number of bytes. */
  class RandomSource {
    const draw: (nat, nat) -> Option<seq<byte>>
    var calls: nat

    ghost predicate Valid() {
      Draws(draw)
    }

    method Generate(n: nat) returns (r: Option<seq<byte>>)
      modifies this`calls
      ensures r == draw(old(calls), n) && calls == old(calls) + 1
    {
      r := draw(calls, n);
      calls := calls + 1;
    }
  }

  /** The answers of a progress callback to the bytes processed and the total. The calls of a run have growing
    first arguments, so that this holds for callbacks with a state, too; without one the answer is true. */
  type Progress = (nat, nat) -> bool

  /** The bytes behind a pointer that may be null. */
  function Text(buffer: Option<seq<byte>>, size: int): (s: seq<byte>)
    requires buffer.Some? ==> size <= |buffer.value|
    ensures |s| <= Max(size, 0)
  {
    if buffer.None? || size <= 0 then [] else buffer.value[..size]
  }

  lemma WholeText(buffer: seq<byte>, size: nat)
    requires size <= |buffer|
    ensures Text(Some(buffer), size) == buffer[..size] && Text(None, size) == []
  {
  }

  function Max(a: int, b: int): int {
    if a >= b then a else b
  }

  // ----- the grammar

  function Le32(n: nat): (s: seq<byte>)
    requires n < 0x1_0000_0000
    ensures |s| == 4
  {
    [n % 0x100, n / 0x100 % 0x100, n / 0x1_0000 % 0x100, n / 0x100_0000]
  }

  function ReadLe32(s: seq<byte>): nat
    requires |s| == 4
  {
    var a: nat, b: nat, c: nat, d: nat := s[0], s[1], s[2], s[3];
    a + b * 0x100 + c * 0x1_0000 + d * 0x100_0000
  }

  lemma Le32RoundTrip(n: nat)
    requires n < 0x1_0000_0000
    ensures ReadLe32(Le32(n)) == n
  {
    assert n / 0x1_0000 == n / 0x100 / 0x100 && n / 0x100_0000 == n / 0x1_0000 / 0x100;
  }

  function Join(a: Option<seq<byte>>, b: Option<seq<byte>>): Option<seq<byte>> {
    if a.Some? && b.Some? then Some(a.value + b.value) else None
  }

  /** The plaintext size of the first record, when the data starts with a whole record. */
  function FirstRecord(p: Aead, s: seq<byte>): (r: Option<nat>)
    ensures r.Some? ==> r.value <= CHUNK_SIZE && 4 + r.value + p.Overhead() <= |s|
  {
    if |s| < 4 then None
    else
      var n := ReadLe32(s[..4]);
      if n > CHUNK_SIZE || n + p.Overhead() > |s| - 4 then None else Some(n)
  }

  /** A nonce, a ciphertext and a tag. */
  function OpenChunk(p: Aead, key: seq<byte>, s: seq<byte>): Option<seq<byte>>
    requires p.Overhead() <= |s|
  {
    if !p.acceptsKey(key) then None
    else p.decrypt(key, s[..p.nonceSize], s[p.nonceSize..|s| - p.tagSize], s[|s| - p.tagSize..])
  }

  /** The plaintext of a sequence of records. */
  function OpenRecords(p: Aead, key: seq<byte>, s: seq<byte>): Option<seq<byte>>
    decreases |s|
  {
    if s == [] then Some([])
    else match FirstRecord(p, s)
      case None => None
      case Some(n) =>
        var end := 4 + n + p.Overhead();
        Join(OpenChunk(p, key, s[4..end]), OpenRecords(p, key, s[end..]))
  }

  /** The plaintext of a container. */
  function Open(p: Aead, kdf: Kdf, password: seq<byte>, container: seq<byte>): Option<seq<byte>> {
    if |container| < PASSWORD_SALT_SIZE then None
    else match kdf(password, container[..PASSWORD_SALT_SIZE])
      case None => None
      case Some(key) => OpenRecords(p, key, container[PASSWORD_SALT_SIZE..])
  }

  function RecordBytes(p: Aead, key: seq<byte>, nonce: seq<byte>, chunk: seq<byte>): Option<seq<byte>>
    requires |chunk| <= CHUNK_SIZE
  {
    match p.encrypt(key, nonce, chunk)
    case None => None
    case Some(e) => Some(Le32(|chunk|) + (nonce + e.0 + e.1))
  }

  ghost predicate Chunked(chunks: seq<seq<byte>>) {
    forall i :: 0 <= i < |chunks| ==> 0 < |chunks[i]| <= CHUNK_SIZE
  }

  /** The records of the chunks; the i-th one has the nonce of draw first + i. */
  ghost function Sealed(p: Aead, key: seq<byte>, draw: (nat, nat) -> Option<seq<byte>>, first: nat,
                        chunks: seq<seq<byte>>): Option<seq<byte>>
    requires Chunked(chunks)
  {
    if chunks == [] then Some([])
    else
      var n := |chunks| - 1;
      match draw(first + n, p.nonceSize)
      case None => None
      case Some(nonce) => Join(Sealed(p, key, draw, first, chunks[..n]), RecordBytes(p, key, nonce, chunks[n]))
  }

  lemma OpenOne(p: Aead, key: seq<byte>, nonce: seq<byte>, chunk: seq<byte>)
    requires p.Conforms() && p.acceptsKey(key) && |nonce| == p.nonceSize && |chunk| <= CHUNK_SIZE
    requires RecordBytes(p, key, nonce, chunk).Some?
    ensures var r := RecordBytes(p, key, nonce, chunk).value;
            && |r| == 4 + |chunk| + p.Overhead() && FirstRecord(p, r) == Some(|chunk|)
            && OpenRecords(p, key, r) == Some(chunk)
  {
    var r := RecordBytes(p, key, nonce, chunk).value;
    var (c, t) := p.encrypt(key, nonce, chunk).value;
    assert p.Sound(key, nonce, chunk);
    assert r[..4] == Le32(|chunk|);
    Le32RoundTrip(|chunk|);
    var body := r[4..];
    assert body == nonce + c + t;
    assert body[..p.nonceSize] == nonce && body[p.nonceSize..|body| - p.tagSize] == c && body[|body| - p.tagSize..] == t;
    assert r[4..|r|] == body && r[|r|..] == [];
    assert chunk + [] == chunk;
  }

  lemma JoinAssociative(a: Option<seq<byte>>, b: Option<seq<byte>>, c: Option<seq<byte>>)
    ensures Join(Join(a, b), c) == Join(a, Join(b, c))
  {
    if a.Some? && b.Some? && c.Some? {
      Reassociate(a.value, b.value, c.value);
    }
  }

  lemma JoinCases(a: Option<seq<byte>>, b: Option<seq<byte>>)
    ensures Join(a, b).Some? <==> a.Some? && b.Some?
  {
  }

  lemma JoinEmpty(a: Option<seq<byte>>)
    ensures Join(Some([]), a) == a == Join(a, Some([]))
  {
    if a.Some? {
      assert [] + a.value == a.value == a.value + [];
    }
  }

  /** The first record and what follows it. */
  lemma OpenStep(p: Aead, key: seq<byte>, s: seq<byte>, n: nat, body: seq<byte>, rest: seq<byte>)
    requires FirstRecord(p, s) == Some(n) && body == s[4..4 + n + p.Overhead()] && rest == s[4 + n + p.Overhead()..]
    ensures OpenRecords(p, key, s) == Join(OpenChunk(p, key, body), OpenRecords(p, key, rest))
  {
    hide Join, OpenChunk, FirstRecord;
  }

  lemma FirstRecordPrefix(p: Aead, a: seq<byte>, b: seq<byte>)
    requires FirstRecord(p, a).Some?
    ensures FirstRecord(p, a + b) == FirstRecord(p, a)
  {
    assert (a + b)[..4] == a[..4];
  }

  /** Records in front of others open separately. */
  lemma {:induction false} OpenAppend(p: Aead, key: seq<byte>, a: seq<byte>, b: seq<byte>)
    requires OpenRecords(p, key, a).Some?
    ensures OpenRecords(p, key, a + b) == Join(OpenRecords(p, key, a), OpenRecords(p, key, b))
    decreases |a|
  {
    RecordCases(p, key, a);
    hide OpenRecords, FirstRecord, OpenChunk;
    if a == [] {
      assert a + b == b;
      JoinEmpty(OpenRecords(p, key, b));
    } else {
      var n := FirstRecord(p, a).value;
      var end := 4 + n + p.Overhead();
      var body, rest := a[4..end], a[end..];
      FirstRecordPrefix(p, a, b);
      OpenStep(p, key, a, n, body, rest);
      assert (a + b)[4..end] == body && (a + b)[end..] == rest + b;
      OpenStep(p, key, a + b, n, body, rest + b);
      OpenAppend(p, key, rest, b);
      JoinAssociative(OpenChunk(p, key, body), OpenRecords(p, key, rest), OpenRecords(p, key, b));
    }
  }

  /** The size of a container's records. */
  function RecordsSize(plain: nat, count: nat, overhead: nat): nat {
    plain + count * (4 + overhead)
  }

  lemma NextSize(plain: nat, count: nat, overhead: nat, chunk: nat)
    ensures RecordsSize(plain + chunk, count + 1, overhead) == RecordsSize(plain, count, overhead) + (4 + chunk + overhead)
  {
    assert (count + 1) * (4 + overhead) == count * (4 + overhead) + (4 + overhead);
  }

  ghost predicate Draws(draw: (nat, nat) -> Option<seq<byte>>) {
    forall i, n :: draw(i, n).Some? ==> |draw(i, n).value| == n
  }

  /** A record behind others. */
  lemma OpenLast(p: Aead, key: seq<byte>, before: seq<byte>, plain: seq<byte>, count: nat, nonce: seq<byte>, chunk: seq<byte>)
    requires p.Conforms() && p.acceptsKey(key) && |nonce| == p.nonceSize && |chunk| <= CHUNK_SIZE
    requires RecordBytes(p, key, nonce, chunk).Some?
    requires OpenRecords(p, key, before) == Some(plain) && |before| == RecordsSize(|plain|, count, p.Overhead())
    ensures var s := before + RecordBytes(p, key, nonce, chunk).value;
            OpenRecords(p, key, s) == Some(plain + chunk) && |s| == RecordsSize(|plain + chunk|, count + 1, p.Overhead())
  {
    OpenOne(p, key, nonce, chunk);
    hide OpenRecords, RecordBytes, FirstRecord, RecordsSize;
    OpenAppend(p, key, before, RecordBytes(p, key, nonce, chunk).value);
    NextSize(|plain|, count, p.Overhead(), |chunk|);
  }

  lemma SealedUnfold(p: Aead, key: seq<byte>, draw: (nat, nat) -> Option<seq<byte>>, first: nat, chunks: seq<seq<byte>>,
                     n: nat)
    requires Chunked(chunks) && Sealed(p, key, draw, first, chunks).Some? && |chunks| == n + 1
    ensures draw(first + n, p.nonceSize).Some? && Sealed(p, key, draw, first, chunks[..n]).Some?
    ensures var nonce := draw(first + n, p.nonceSize).value;
            && RecordBytes(p, key, nonce, chunks[n]).Some?
            && Sealed(p, key, draw, first, chunks).value == Sealed(p, key, draw, first, chunks[..n]).value + RecordBytes(p, key, nonce, chunks[n]).value
    ensures Concat(chunks) == Concat(chunks[..n]) + chunks[n]
  {
    hide RecordBytes;
  }

  /** Both readers recover what a writer wrote, and the size of it is known in advance. */
  lemma {:induction false} SealedOpens(p: Aead, key: seq<byte>, draw: (nat, nat) -> Option<seq<byte>>, first: nat,
                                       chunks: seq<seq<byte>>)
    requires p.Conforms() && p.acceptsKey(key) && Chunked(chunks) && Draws(draw) && Sealed(p, key, draw, first, chunks).Some?
    ensures OpenRecords(p, key, Sealed(p, key, draw, first, chunks).value) == Some(Concat(chunks))
    ensures |Sealed(p, key, draw, first, chunks).value| == RecordsSize(|Concat(chunks)|, |chunks|, p.Overhead())
  {
    if chunks != [] {
      var n := |chunks| - 1;
      SealedUnfold(p, key, draw, first, chunks, n);
      hide RecordBytes, OpenRecords, RecordsSize, Sealed, Concat;
      SealedOpens(p, key, draw, first, chunks[..n]);
      OpenLast(p, key, Sealed(p, key, draw, first, chunks[..n]).value, Concat(chunks[..n]), n, draw(first + n, p.nonceSize).value, chunks[n]);
    }
  }

  /** The framing: a little-endian length of at most 1024, and as many bytes as it says behind nonce and tag. */
  lemma Framing(p: Aead, n: nat, data: seq<byte>)
    requires n < 0x1_0000_0000
    ensures FirstRecord(p, [n % 0x100, n / 0x100 % 0x100, n / 0x1_0000 % 0x100, n / 0x100_0000] + data)
         == if n <= 1024 && p.nonceSize + n + p.tagSize <= |data| then Some(n) else None
  {
    assert (Le32(n) + data)[..4] == Le32(n);
    Le32RoundTrip(n);
  }

  lemma RecordParts(prefix: seq<byte>, nonce: seq<byte>, ciphertext: seq<byte>, tag: seq<byte>, rest: seq<byte>)
    ensures var s, record := prefix + (nonce + ciphertext + tag) + rest, nonce + ciphertext + tag;
            && s == prefix + (record + rest) && s[|prefix|..|prefix| + |record|] == record && s[|prefix| + |record|..] == rest
            && record[..|nonce|] == nonce && record[|nonce|..|record| - |tag|] == ciphertext && record[|record| - |tag|..] == tag
  {
  }

  /** One record in front of others, for a reader: what it is, what it opens to, and what is asked after it. */
  lemma RecordOpens(p: Aead, key: seq<byte>, n: nat, nonce: seq<byte>, ciphertext: seq<byte>, tag: seq<byte>, rest: seq<byte>)
    requires n == |ciphertext| <= 1024 && |nonce| == p.nonceSize && |tag| == p.tagSize
    ensures var s := [n % 0x100, n / 0x100, 0, 0] + (nonce + ciphertext + tag) + rest;
            && FirstRecord(p, s) == Some(n) && s[4..4 + n + p.Overhead()] == nonce + ciphertext + tag && s[4 + n + p.Overhead()..] == rest
            && OpenChunk(p, key, nonce + ciphertext + tag) == (if p.acceptsKey(key) then p.decrypt(key, nonce, ciphertext, tag) else None)
            && OpenRecords(p, key, s)
               == (if !p.acceptsKey(key) || p.decrypt(key, nonce, ciphertext, tag).None? || OpenRecords(p, key, rest).None? then None
                   else Some(p.decrypt(key, nonce, ciphertext, tag).value + OpenRecords(p, key, rest).value))
  {
    var prefix: seq<byte> := [n % 0x100, n / 0x100, 0, 0];
    assert n / 0x100 % 0x100 == n / 0x100 && n / 0x1_0000 % 0x100 == 0 && n / 0x100_0000 == 0;
    RecordParts(prefix, nonce, ciphertext, tag, rest);
    Framing(p, n, nonce + ciphertext + tag + rest);
    var s, record := prefix + (nonce + ciphertext + tag) + rest, nonce + ciphertext + tag;
    hide FirstRecord, OpenRecords;
    OpenStep(p, key, s, n, record, rest);
  }

  /** The bytes of one record. */
  lemma RecordLayout(p: Aead, key: seq<byte>, nonce: seq<byte>, chunk: seq<byte>)
    requires |chunk| <= 1024
    ensures RecordBytes(p, key, nonce, chunk)
         == match p.encrypt(key, nonce, chunk)
            case None => None
            case Some(e) => Some([|chunk| % 0x100, |chunk| / 0x100, 0, 0] + (nonce + e.0 + e.1))
  {
    var n := |chunk|;
    assert n / 0x100 % 0x100 == n / 0x100 && n / 0x1_0000 % 0x100 == 0 && n / 0x100_0000 == 0;
  }

  // ----- key-level operations

  /** Writes bytes into a buffer. */
  method CopyInto(out: array<byte>, at: nat, s: seq<byte>)
    requires at + |s| <= out.Length
    modifies out
    ensures out[..at] == old(out[..at]) && out[at..at + |s|] == s && out[at + |s|..] == old(out[at + |s|..])
  {
    for i := 0 to |s|
      invariant forall j :: 0 <= j < out.Length && !(at <= j < at + i) ==> out[j] == old(out[j])
      invariant forall j :: 0 <= j < i ==> out[at + j] == s[j]
    {
      out[at + i] := s[i];
    }
  }

  method WriteUInt32(out: array<byte>, at: nat, value: nat)
    requires at + 4 <= out.Length && value < 0x1_0000_0000
    modifies out
    ensures out[..at] == old(out[..at]) && out[at..at + 4] == Le32(value) && out[at + 4..] == old(out[at + 4..])
  {
    out[at] := value % 0x100;
    out[at + 1] := value / 0x100 % 0x100;
    out[at + 2] := value / 0x1_0000 % 0x100;
    out[at + 3] := value / 0x100_0000;
  }

  /** A nonce, the ciphertext and the tag of one message. */
  function SealMessage(p: Aead, key: seq<byte>, nonce: Option<seq<byte>>, input: seq<byte>): Option<seq<byte>> {
    if !p.acceptsKey(key) || nonce.None? then None
    else match p.encrypt(key, nonce.value, input)
      case None => None
      case Some(e) => Some(nonce.value + e.0 + e.1)
  }

  /** What encrypting returns: a refused key is the caller's fault, other failures are not. */
  function SealStatus(p: Aead, key: seq<byte>, message: Option<seq<byte>>): Status {
    if message.Some? then NoError else if p.acceptsKey(key) then UnexpectedError else InvalidArgument
  }

  /** What decrypting returns when it is not given a plaintext. */
  function OpenStatus(p: Aead, key: seq<byte>, plain: Option<seq<byte>>): Status {
    if plain.Some? then NoError else if p.acceptsKey(key) then InvalidData else InvalidArgument
  }

  /** Encrypts one message with a key. */
  method EncryptWithKey(p: Aead, random: RandomSource, key: seq<byte>, input: seq<byte>, capacity: nat,
                        out: array?<byte>, at: nat)
    returns (status: Status, size: nat)
    requires p.Conforms() && random.Valid() && |input| <= INT_MAX
    requires out != null ==> at + capacity <= out.Length
    modifies out, random`calls
    ensures var required := |input| + p.Overhead();
            && ((key == [] || required > 0x7fff_ffff) ==> status == InvalidArgument)
            && (key != [] && required <= INT_MAX && (capacity < required || out == null) ==> status == BufferTooSmall && size == required)
            && (key != [] && required <= INT_MAX && capacity >= required && out != null ==>
                  && status == SealStatus(p, key, SealMessage(p, key, random.draw(old(random.calls), p.nonceSize), input))
                  && var nonce := random.draw(old(random.calls), p.nonceSize);
                     status == if !p.acceptsKey(key) then InvalidArgument
                               else if nonce.None? || p.encrypt(key, nonce.value, input).None? then UnexpectedError
                               else NoError)
    ensures status == NoError ==>
              && random.draw(old(random.calls), p.nonceSize).Some?
              && var nonce := random.draw(old(random.calls), p.nonceSize).value;
                 && p.encrypt(key, nonce, input).Some?
                 && var (ciphertext, tag) := p.encrypt(key, nonce, input).value;
                    out != null && at + size <= out.Length && out[at..at + size] == nonce + ciphertext + tag
    ensures status == NoError ==>
              && out != null && random.calls == old(random.calls) + 1 && size == |input| + p.Overhead() <= capacity
              && Some(out[at..at + size]) == SealMessage(p, key, random.draw(old(random.calls), p.nonceSize), input)
              && out[..at] == old(out[..at]) && out[at + size..] == old(out[at + size..])
  {
    size := 0;
    if key == [] {
      return InvalidArgument, 0;
    }
    var requiredSize := |input| + p.nonceSize + p.tagSize;
    if requiredSize > INT_MAX {
      return InvalidArgument, 0;
    }
    if capacity < requiredSize || out == null {
      return BufferTooSmall, requiredSize;
    }
    if !p.acceptsKey(key) {
      return InvalidArgument, 0;
    }
    var nonce := random.Generate(p.nonceSize);
    if nonce.None? {
      return UnexpectedError, 0;
    }
    var encrypted := p.encrypt(key, nonce.value, input);
    if encrypted.None? {
      return UnexpectedError, 0;
    }
    assert p.Sound(key, nonce.value, input);
    CopyInto(out, at, nonce.value + encrypted.value.0 + encrypted.value.1);
    return NoError, requiredSize;
  }

  /** Decrypts one message with a key. */
  method DecryptWithKey(p: Aead, key: seq<byte>, input: seq<byte>, capacity: nat, out: array?<byte>, at: nat)
    returns (status: Status, size: nat)
    requires p.Conforms() && (out != null ==> at + capacity <= out.Length)
    modifies out
    ensures key == [] ==> status == InvalidArgument
    ensures key != [] && |input| < p.Overhead() ==> status == InvalidData
    ensures key != [] && |input| >= p.Overhead() ==>
              var required := |input| - p.Overhead();
              if capacity < required || (required > 0 && out == null) then status == BufferTooSmall && size == required
              else
                && status == OpenStatus(p, key, OpenChunk(p, key, input))
                && var end := |input| - p.tagSize;
                   status == if !p.acceptsKey(key) then InvalidArgument
                             else if p.decrypt(key, input[..p.nonceSize], input[p.nonceSize..end], input[end..]).None? then InvalidData
                             else NoError
    ensures status == NoError ==>
              && |input| >= p.Overhead() && size == |input| - p.Overhead() <= capacity && OpenChunk(p, key, input).Some?
              && (out == null ==> OpenChunk(p, key, input).value == [])
              && (out != null ==> out[at..at + size] == OpenChunk(p, key, input).value && out[..at] == old(out[..at]) && out[at + size..] == old(out[at + size..]))
  {
    if key == [] {
      return InvalidArgument, 0;
    }
    var overhead := p.nonceSize + p.tagSize;
    if |input| < overhead {
      return InvalidData, 0;
    }
    var requiredSize := |input| - overhead;
    if capacity < requiredSize || (requiredSize > 0 && out == null) {
      return BufferTooSmall, requiredSize;
    }
    if !p.acceptsKey(key) {
      return InvalidArgument, 0;
    }
    var plain := p.decrypt(key, input[..p.nonceSize], input[p.nonceSize..|input| - p.tagSize], input[|input| - p.tagSize..]);
    if plain.None? {
      return InvalidData, 0;
    }
    if out != null {
      CopyInto(out, at, plain.value);
    }
    return NoError, requiredSize;
  }

  // ----- the password-level writer

  function ChunkCount(n: nat): (count: nat)
    ensures n <= count * CHUNK_SIZE < n + CHUNK_SIZE
  {
    (n + CHUNK_SIZE - 1) / CHUNK_SIZE
  }

  function ChunkAt(s: seq<byte>, i: nat): (c: seq<byte>)
    requires i < ChunkCount(|s|)
    ensures 0 < |c| <= CHUNK_SIZE
  {
    s[i * CHUNK_SIZE..Min(i * CHUNK_SIZE + CHUNK_SIZE, |s|)]
  }

  /** The first `count` chunks of a plaintext, all full but the last one. */
  function FirstChunks(s: seq<byte>, count: nat): (chunks: seq<seq<byte>>)
    requires count <= ChunkCount(|s|)
    ensures |chunks| == count
  {
    seq(count, i requires 0 <= i < count => ChunkAt(s, i))
  }

  function Chunks(s: seq<byte>): (chunks: seq<seq<byte>>)
    ensures Chunked(chunks)
  {
    FirstChunks(s, ChunkCount(|s|))
  }

  lemma {:induction false} ConcatChunks(s: seq<byte>, count: nat)
    requires count <= ChunkCount(|s|)
    ensures Concat(FirstChunks(s, count)) == s[..Min(count * CHUNK_SIZE, |s|)]
  {
    if count > 0 {
      ConcatChunks(s, count - 1);
      assert FirstChunks(s, count)[..count - 1] == FirstChunks(s, count - 1);
      assert s[..Min(count * CHUNK_SIZE, |s|)] == s[..(count - 1) * CHUNK_SIZE] + ChunkAt(s, count - 1);
    }
  }

  lemma ChunksCover(s: seq<byte>)
    ensures Concat(Chunks(s)) == s
  {
    ConcatChunks(s, ChunkCount(|s|));
  }

  /** The size of the container of n bytes. */
  function ContainerSize(p: Aead, n: nat): nat {
    PASSWORD_SALT_SIZE + RecordsSize(n, ChunkCount(n), p.Overhead())
  }

  /** The size in numbers: a salt of 16 bytes, and for every 1024 bytes begun a length, a nonce and a tag. */
  lemma SizeInNumbers(p: Aead, n: nat)
    ensures ContainerSize(p, n) == 16 + n + (n + 1023) / 1024 * (4 + p.nonceSize + p.tagSize)
  {
  }

  /** A message behind the size of its plaintext. */
  function Prefixed(size: nat, message: Option<seq<byte>>): Option<seq<byte>>
    requires size <= CHUNK_SIZE
  {
    Join(Some(Le32(size)), message)
  }

  lemma SealedLast(p: Aead, key: seq<byte>, draw: (nat, nat) -> Option<seq<byte>>, first: nat, chunks: seq<seq<byte>>, n: nat)
    requires Chunked(chunks) && |chunks| == n + 1 && p.acceptsKey(key)
    ensures Sealed(p, key, draw, first, chunks)
         == Join(Sealed(p, key, draw, first, chunks[..n]), Prefixed(|chunks[n]|, SealMessage(p, key, draw(first + n, p.nonceSize), chunks[n])))
  {
  }

  /** The records of the first `count` chunks. */
  ghost function SealedPart(p: Aead, key: seq<byte>, draw: (nat, nat) -> Option<seq<byte>>, first: nat, s: seq<byte>,
                            count: nat): Option<seq<byte>>
    requires count <= ChunkCount(|s|)
  {
    assert Chunked(FirstChunks(s, count));
    Sealed(p, key, draw, first, FirstChunks(s, count))
  }

  /** One more record of a sealed sequence. */
  lemma SealedStep(p: Aead, key: seq<byte>, draw: (nat, nat) -> Option<seq<byte>>, first: nat, s: seq<byte>, i: nat)
    requires i < ChunkCount(|s|) && p.acceptsKey(key)
    ensures var message := SealMessage(p, key, draw(first + i, p.nonceSize), ChunkAt(s, i));
            SealedPart(p, key, draw, first, s, i + 1) == Join(SealedPart(p, key, draw, first, s, i), Prefixed(|ChunkAt(s, i)|, message))
  {
    var chunks := FirstChunks(s, i + 1);
    assert Chunked(chunks) && chunks[..i] == FirstChunks(s, i) && chunks[i] == ChunkAt(s, i);
    hide FirstChunks, ChunkAt, SealMessage, Sealed;
    SealedLast(p, key, draw, first, chunks, i);
  }

  lemma TwoParts(s: seq<byte>, at: nat, m: nat, n: nat)
    requires at + m + n <= |s|
    ensures s[at..at + m + n] == s[at..at + m] + s[at + m..][..n]
  {
  }

  /** Encrypts one chunk to a record. */
  method SealChunk(p: Aead, random: RandomSource, key: seq<byte>, chunk: seq<byte>, out: array<byte>,
                   at: nat) returns (status: Status, next: nat)
    requires p.Conforms() && random.Valid() && key != [] && |chunk| <= CHUNK_SIZE && at + 4 + |chunk| + p.Overhead() <= out.Length
    modifies out, random`calls
    ensures status == SealStatus(p, key, SealMessage(p, key, random.draw(old(random.calls), p.nonceSize), chunk))
    ensures status == NoError ==>
              && next == at + 4 + |chunk| + p.Overhead() && random.calls == old(random.calls) + 1
              && Prefixed(|chunk|, SealMessage(p, key, random.draw(old(random.calls), p.nonceSize), chunk)) == Some(out[at..next])
              && out[..at] == old(out[..at])
  {
    hide SealMessage;
    var size: nat;
    status, size := EncryptWithKey(p, random, key, chunk, |chunk| + p.nonceSize + p.tagSize, out, at + 4);
    next := at + 4 + size;
    if status == NoError {
      ghost var message := out[at + 4..next];
      assert out[..at] == out[..at + 4][..at] == old(out[..at + 4])[..at];
      WriteUInt32(out, at, |chunk|);
      TwoParts(out[..], at, 4, size);
      assert out[at + 4..][..size] == message;
    }
  }

  /** After `count` chunks: the salt, their records, and room for the others. */
  ghost predicate Writing(p: Aead, key: seq<byte>, draw: (nat, nat) -> Option<seq<byte>>, first: nat, input: seq<byte>,
                          count: nat,
                          salt: seq<byte>, written: seq<byte>) {
    && count <= ChunkCount(|input|) && |salt| == PASSWORD_SALT_SIZE
    && |written| == PASSWORD_SALT_SIZE + RecordsSize(Min(count * CHUNK_SIZE, |input|), count, p.Overhead())
    && Join(Some(salt), SealedPart(p, key, draw, first, input, count)) == Some(written)
  }

  lemma WritingStart(p: Aead, key: seq<byte>, draw: (nat, nat) -> Option<seq<byte>>, first: nat, input: seq<byte>,
                     salt: seq<byte>)
    requires |salt| == PASSWORD_SALT_SIZE
    ensures Writing(p, key, draw, first, input, 0, salt, salt)
  {
    JoinEmpty(Some(salt));
  }

  lemma WritingFits(p: Aead, key: seq<byte>, draw: (nat, nat) -> Option<seq<byte>>, first: nat, input: seq<byte>, i: nat,
                    salt: seq<byte>, written: seq<byte>)
    requires Writing(p, key, draw, first, input, i, salt, written) && i < ChunkCount(|input|)
    ensures |written| + 4 + |ChunkAt(input, i)| + p.Overhead() <= ContainerSize(p, |input|)
  {
    var chunk := ChunkAt(input, i);
    assert Min((i + 1) * CHUNK_SIZE, |input|) == Min(i * CHUNK_SIZE, |input|) + |chunk|;
    NextSize(Min(i * CHUNK_SIZE, |input|), i, p.Overhead(), |chunk|);
    SizeMonotone(Min((i + 1) * CHUNK_SIZE, |input|), i + 1, |input|, ChunkCount(|input|), p.Overhead());
  }

  lemma WritingStep(p: Aead, key: seq<byte>, draw: (nat, nat) -> Option<seq<byte>>, first: nat, input: seq<byte>, i: nat,
                    salt: seq<byte>, written: seq<byte>)
    requires Writing(p, key, draw, first, input, i, salt, written) && i < ChunkCount(|input|) && p.acceptsKey(key)
    ensures var message := SealMessage(p, key, draw(first + i, p.nonceSize), ChunkAt(input, i));
            message.Some? && |message.value| == |ChunkAt(input, i)| + p.Overhead() ==>
              Writing(p, key, draw, first, input, i + 1, salt, written + Prefixed(|ChunkAt(input, i)|, message).value)
  {
    var chunk := ChunkAt(input, i);
    var message := SealMessage(p, key, draw(first + i, p.nonceSize), chunk);
    assert Min((i + 1) * CHUNK_SIZE, |input|) == Min(i * CHUNK_SIZE, |input|) + |chunk|;
    SealedStep(p, key, draw, first, input, i);
    NextSize(Min(i * CHUNK_SIZE, |input|), i, p.Overhead(), |chunk|);
    hide SealedPart, SealMessage, ChunkAt, RecordsSize, Sealed;
    JoinAssociative(Some(salt), SealedPart(p, key, draw, first, input, i), Prefixed(|chunk|, message));
  }

  lemma SizeMonotone(n: nat, count: nat, m: nat, more: nat, overhead: nat)
    requires n <= m && count <= more
    ensures RecordsSize(n, count, overhead) <= RecordsSize(m, more, overhead)
  {
    MulMonotone(count, more, 4 + overhead);
  }

  /** The container is complete. */
  lemma WritingDone(p: Aead, kdf: Kdf, password: seq<byte>, key: seq<byte>, draw: (nat, nat) -> Option<seq<byte>>,
                    first: nat, input: seq<byte>,
                    salt: seq<byte>, written: seq<byte>)
    requires Writing(p, key, draw, first, input, ChunkCount(|input|), salt, written)
    requires p.Conforms() && Draws(draw) && (input != [] ==> p.acceptsKey(key)) && kdf(password, salt) == Some(key)
    ensures Open(p, kdf, password, written) == Some(input) && |written| == ContainerSize(p, |input|)
    ensures Join(Some(salt), Sealed(p, key, draw, first, Chunks(input))) == Some(written)
  {
    ChunksCover(input);
    assert written[..PASSWORD_SALT_SIZE] == salt;
    assert Some(written[PASSWORD_SALT_SIZE..]) == Sealed(p, key, draw, first, Chunks(input));
    if input != [] {
      SealedOpens(p, key, draw, first, Chunks(input));
    }
  }

  /** Whether the random source, the key derivation and the cipher all succeed. */
  ghost predicate CanSeal(p: Aead, kdf: Kdf, password: seq<byte>, draw: (nat, nat) -> Option<seq<byte>>, first: nat,
                          input: seq<byte>) {
    && draw(first, PASSWORD_SALT_SIZE).Some?
    && kdf(password, draw(first, PASSWORD_SALT_SIZE).value).Some?
    && var key := kdf(password, draw(first, PASSWORD_SALT_SIZE).value).value;
       input != [] ==> p.acceptsKey(key) && Sealed(p, key, draw, first + 1, Chunks(input)).Some?
  }

  /** The container: a salt from the first draw, then the records, each with a nonce from a draw of its own. */
  ghost predicate IsContainer(p: Aead, kdf: Kdf, password: seq<byte>, draw: (nat, nat) -> Option<seq<byte>>, first: nat,
                              chunks: seq<seq<byte>>, container: seq<byte>) {
    && draw(first, PASSWORD_SALT_SIZE).Some?
    && kdf(password, draw(first, PASSWORD_SALT_SIZE).value).Some?
    && Chunked(chunks)
    && var salt := draw(first, PASSWORD_SALT_SIZE).value;
       Join(Some(salt), Sealed(p, kdf(password, salt).value, draw, first + 1, chunks)) == Some(container)
  }

  lemma SealedKey(p: Aead, key: seq<byte>, nonce: Option<seq<byte>>, input: seq<byte>)
    requires SealMessage(p, key, nonce, input).Some?
    ensures p.acceptsKey(key)
  {
  }

  /** The record of a chunk, when nonce and ciphertext can be made. */
  ghost function OneSealed(p: Aead, key: seq<byte>, draw: (nat, nat) -> Option<seq<byte>>, i: nat, chunk: seq<byte>): Option<seq<byte>>
    requires |chunk| <= CHUNK_SIZE
  {
    match draw(i, p.nonceSize)
    case None => None
    case Some(nonce) => RecordBytes(p, key, nonce, chunk)
  }

  lemma SealedBehind(p: Aead, key: seq<byte>, draw: (nat, nat) -> Option<seq<byte>>, first: nat, chunks: seq<seq<byte>>, n: nat)
    requires Chunked(chunks) && |chunks| == n + 1
    ensures Sealed(p, key, draw, first, chunks) == Join(Sealed(p, key, draw, first, chunks[..n]), OneSealed(p, key, draw, first + n, chunks[n]))
  {
    hide RecordBytes;
  }

  lemma {:induction false} SealedFromFront(p: Aead, key: seq<byte>, draw: (nat, nat) -> Option<seq<byte>>, first: nat,
                                           chunk: seq<byte>, chunks: seq<seq<byte>>)
    requires Chunked([chunk] + chunks) && |chunk| <= CHUNK_SIZE && Chunked(chunks)
    ensures Sealed(p, key, draw, first, [chunk] + chunks) == Join(OneSealed(p, key, draw, first, chunk), Sealed(p, key, draw, first + 1, chunks))
    decreases |chunks|
  {
    if chunks == [] {
      SealedOne(p, key, draw, first, chunk);
      SealedNothing(p, key, draw, first + 1);
      hide *;
      assert [chunk] + chunks == [chunk];
      JoinEmpty(OneSealed(p, key, draw, first, chunk));
    } else {
      hide *;
      var n := |chunks| - 1;
      LastAside(chunk, chunks);
      SealedBehind(p, key, draw, first, [chunk] + chunks, n + 1);
      SealedFromFront(p, key, draw, first, chunk, chunks[..n]);
      SealedBehind(p, key, draw, first + 1, chunks, n);
      JoinAssociative(OneSealed(p, key, draw, first, chunk), Sealed(p, key, draw, first + 1, chunks[..n]), OneSealed(p, key, draw, first + 1 + n, chunks[n]));
    }
  }

  lemma SealedOne(p: Aead, key: seq<byte>, draw: (nat, nat) -> Option<seq<byte>>, first: nat, chunk: seq<byte>)
    requires Chunked([chunk]) && |chunk| <= CHUNK_SIZE
    ensures Sealed(p, key, draw, first, [chunk]) == OneSealed(p, key, draw, first, chunk)
  {
    SealedBehind(p, key, draw, first, [chunk], 0);
    assert [chunk][..0] == [];
    SealedNothing(p, key, draw, first);
    hide Sealed, OneSealed;
    JoinEmpty(OneSealed(p, key, draw, first, chunk));
  }

  lemma LastAside(chunk: seq<byte>, chunks: seq<seq<byte>>)
    requires chunks != [] && Chunked(chunks) && Chunked([chunk] + chunks)
    ensures var n := |chunks| - 1;
            && ([chunk] + chunks)[..n + 1] == [chunk] + chunks[..n] && ([chunk] + chunks)[n + 1] == chunks[n]
            && Chunked([chunk] + chunks[..n]) && Chunked(chunks[..n]) && |chunks[n]| <= CHUNK_SIZE
  {
  }

  /** The bytes of the records, from the front: every chunk has a draw of its own for its nonce. */
  lemma SealedByChunk(p: Aead, key: seq<byte>, draw: (nat, nat) -> Option<seq<byte>>, first: nat,
                      chunk: seq<byte>, chunks: seq<seq<byte>>)
    requires 0 < |chunk| <= 1024 && Chunked(chunks)
    ensures Chunked([chunk] + chunks)
    ensures Sealed(p, key, draw, first, [chunk] + chunks)
         == match draw(first, p.nonceSize)
            case None => None
            case Some(nonce) =>
              match p.encrypt(key, nonce, chunk)
              case None => None
              case Some(e) => Join(Some([|chunk| % 0x100, |chunk| / 0x100, 0, 0] + (nonce + e.0 + e.1)), Sealed(p, key, draw, first + 1, chunks))
  {
    assert Chunked([chunk] + chunks);
    SealedFromFront(p, key, draw, first, chunk, chunks);
    hide Sealed, RecordBytes;
    if draw(first, p.nonceSize).Some? {
      RecordLayout(p, key, draw(first, p.nonceSize).value, chunk);
    }
  }

  // ----- what a writer returns

  /** Sealing one chunk behind the other, and asking after each of them whether to go on. */
  function SealAll(p: Aead, key: seq<byte>, draw: (nat, nat) -> Option<seq<byte>>, first: nat, go: Progress,
                   chunks: seq<seq<byte>>, done: nat, total: nat): Status
    decreases |chunks|
  {
    if chunks == [] then NoError
    else
      var message := SealMessage(p, key, draw(first, p.nonceSize), chunks[0]);
      if message.None? then SealStatus(p, key, None)
      else if !go(done + |chunks[0]|, total) then OperationCancelled
      else SealAll(p, key, draw, first + 1, go, chunks[1..], done + |chunks[0]|, total)
  }

  /** The callback lets every chunk pass. */
  ghost predicate Granted(go: Progress, chunks: seq<seq<byte>>, done: nat, total: nat)
    decreases |chunks|
  {
    chunks != [] ==> go(done + |chunks[0]|, total) && Granted(go, chunks[1..], done + |chunks[0]|, total)
  }

  lemma {:induction false} SealedFront(p: Aead, key: seq<byte>, draw: (nat, nat) -> Option<seq<byte>>, first: nat,
                                       chunks: seq<seq<byte>>)
    requires Chunked(chunks) && chunks != [] && p.acceptsKey(key)
    ensures Sealed(p, key, draw, first, chunks).Some?
       <==> SealMessage(p, key, draw(first, p.nonceSize), chunks[0]).Some? && Sealed(p, key, draw, first + 1, chunks[1..]).Some?
    decreases |chunks|
  {
    hide Sealed, SealMessage;
    var n := |chunks| - 1;
    SealedLast(p, key, draw, first, chunks, n);
    if n == 0 {
      assert chunks[..0] == chunks[1..] == [];
      SealedNothing(p, key, draw, first);
      SealedNothing(p, key, draw, first + 1);
    } else {
      assert chunks[1..][..n - 1] == chunks[..n][1..] && chunks[1..][n - 1] == chunks[n];
      SealedLast(p, key, draw, first + 1, chunks[1..], n - 1);
      SealedFront(p, key, draw, first, chunks[..n]);
    }
  }

  /** Sealing succeeds exactly when the key is accepted, every record can be made, and the callback lets every
    chunk pass. */
  lemma {:induction false} SealAllSucceeds(p: Aead, key: seq<byte>, draw: (nat, nat) -> Option<seq<byte>>, first: nat,
                                           go: Progress,
                                           chunks: seq<seq<byte>>, done: nat, total: nat)
    requires Chunked(chunks)
    ensures SealAll(p, key, draw, first, go, chunks, done, total) == NoError
       <==> (chunks != [] ==> p.acceptsKey(key) && Sealed(p, key, draw, first, chunks).Some?) && Granted(go, chunks, done, total)
    decreases |chunks|
  {
    if chunks != [] && p.acceptsKey(key) {
      SealedFront(p, key, draw, first, chunks);
      SealAllSucceeds(p, key, draw, first + 1, go, chunks[1..], done + |chunks[0]|, total);
      SealedNothing(p, key, draw, first + 1);
      hide Sealed;
    }
  }

  lemma SealedNothing(p: Aead, key: seq<byte>, draw: (nat, nat) -> Option<seq<byte>>, first: nat)
    ensures Sealed(p, key, draw, first, []) == Some([])
  {
  }

  /** The status of a run that has room for its container. */
  function EncryptStatus(p: Aead, kdf: Kdf, password: seq<byte>, draw: (nat, nat) -> Option<seq<byte>>, first: nat,
                         go: Progress, input: seq<byte>): Status {
    match draw(first, PASSWORD_SALT_SIZE)
    case None => UnexpectedError
    case Some(salt) =>
      match kdf(password, salt)
      case None => UnexpectedError
      case Some(key) => SealAll(p, key, draw, first + 1, go, Chunks(input), 0, |input|)
  }

  lemma EncryptSucceeds(p: Aead, kdf: Kdf, password: seq<byte>, draw: (nat, nat) -> Option<seq<byte>>, first: nat,
                        go: Progress, input: seq<byte>)
    ensures EncryptStatus(p, kdf, password, draw, first, go, input) == NoError
       <==> CanSeal(p, kdf, password, draw, first, input) && Granted(go, Chunks(input), 0, |input|)
  {
    hide Sealed, SealAll, Granted, ChunkAt;
    if draw(first, PASSWORD_SALT_SIZE).Some? && kdf(password, draw(first, PASSWORD_SALT_SIZE).value).Some? {
      SealAllSucceeds(p, kdf(password, draw(first, PASSWORD_SALT_SIZE).value).value, draw, first + 1, go, Chunks(input), 0, |input|);
    }
  }

  /** The statuses of the writer's loop: a refused key is INVALID_ARGUMENT, a nonce or a ciphertext that cannot be made
    UNEXPECTED_ERROR, and OPERATION_CANCELLED is left for the callback. */
  lemma {:induction false} SealAllFails(p: Aead, key: seq<byte>, draw: (nat, nat) -> Option<seq<byte>>, first: nat,
                                        go: Progress, chunks: seq<seq<byte>>, done: nat, total: nat)
    requires Chunked(chunks)
    ensures var status := SealAll(p, key, draw, first, go, chunks, done, total);
            && (chunks != [] && !p.acceptsKey(key) ==> status == InvalidArgument)
            && (p.acceptsKey(key) ==> status in {NoError, UnexpectedError, OperationCancelled})
            && (p.acceptsKey(key) && Sealed(p, key, draw, first, chunks).Some? && !Granted(go, chunks, done, total) ==> status == OperationCancelled)
            && (p.acceptsKey(key) && Sealed(p, key, draw, first, chunks).None? && Granted(go, chunks, done, total) ==> status == UnexpectedError)
    decreases |chunks|
  {
    SealedNothing(p, key, draw, first);
    hide Sealed, SealMessage;
    if chunks != [] {
      if p.acceptsKey(key) {
        SealedFront(p, key, draw, first, chunks);
        SealAllFails(p, key, draw, first + 1, go, chunks[1..], done + |chunks[0]|, total);
      } else {
        NotAccepted(p, key, draw(first, p.nonceSize), chunks[0]);
      }
    }
  }

  /** One chunk in front of others, for the writer's loop. */
  lemma ChunkSealed(p: Aead, key: seq<byte>, draw: (nat, nat) -> Option<seq<byte>>, first: nat, go: Progress,
                    chunk: seq<byte>, chunks: seq<seq<byte>>, done: nat, total: nat)
    ensures SealAll(p, key, draw, first, go, [chunk] + chunks, done, total)
         == (if !p.acceptsKey(key) then InvalidArgument
             else if draw(first, p.nonceSize).None? || p.encrypt(key, draw(first, p.nonceSize).value, chunk).None? then UnexpectedError
             else if !go(done + |chunk|, total) then OperationCancelled
             else SealAll(p, key, draw, first + 1, go, chunks, done + |chunk|, total))
  {
    assert ([chunk] + chunks)[1..] == chunks;
  }

  lemma NotAccepted(p: Aead, key: seq<byte>, nonce: Option<seq<byte>>, input: seq<byte>)
    requires !p.acceptsKey(key)
    ensures SealMessage(p, key, nonce, input).None?
  {
  }

  /** What the callback is asked for a plaintext in memory: after every 1024 bytes and at the end. */
  lemma GrantedByChunks(go: Progress, s: seq<byte>)
    ensures Granted(go, Chunks(s), 0, |s|) <==> forall i: nat :: i < (|s| + 1023) / 1024 ==> AsksAt(go, s, i)
  {
    GrantedFrom(go, s, 0);
    assert Chunks(s)[0..] == Chunks(s);
  }

  ghost predicate AsksAt(go: Progress, s: seq<byte>, i: nat) {
    go(if (i + 1) * 1024 < |s| then (i + 1) * 1024 else |s|, |s|)
  }

  lemma {:induction false} GrantedFrom(go: Progress, s: seq<byte>, i: nat)
    requires i <= ChunkCount(|s|)
    ensures Granted(go, Chunks(s)[i..], Min(i * CHUNK_SIZE, |s|), |s|) <==> forall j: nat :: i <= j < ChunkCount(|s|) ==> AsksAt(go, s, j)
    decreases ChunkCount(|s|) - i
  {
    if i < ChunkCount(|s|) {
      var rest := Chunks(s)[i..];
      assert rest[0] == ChunkAt(s, i) && rest[1..] == Chunks(s)[i + 1..];
      assert Min(i * CHUNK_SIZE, |s|) + |ChunkAt(s, i)| == Min((i + 1) * CHUNK_SIZE, |s|);
      assert AsksAt(go, s, i) == go(Min((i + 1) * CHUNK_SIZE, |s|), |s|);
      hide ChunkAt, Chunks, AsksAt, Min;
      GrantedFrom(go, s, i + 1);
    }
  }

  lemma EncryptFails(p: Aead, kdf: Kdf, password: seq<byte>, draw: (nat, nat) -> Option<seq<byte>>, first: nat,
                     go: Progress, input: seq<byte>)
    ensures var status := EncryptStatus(p, kdf, password, draw, first, go, input);
            && (draw(first, 16).None? ==> status == UnexpectedError)
            && (draw(first, 16).Some? ==>
                  match kdf(password, draw(first, 16).value)
                  case None => status == UnexpectedError
                  case Some(key) =>
                    var sealed, granted := Sealed(p, key, draw, first + 1, Chunks(input)), Granted(go, Chunks(input), 0, |input|);
                    && (input != [] && !p.acceptsKey(key) ==> status == InvalidArgument)
                    && (p.acceptsKey(key) && sealed.None? && granted ==> status == UnexpectedError)
                    && (p.acceptsKey(key) && sealed.Some? && !granted ==> status == OperationCancelled))
  {
    hide Sealed, SealAll, Granted, ChunkAt;
    if draw(first, 16).Some? && kdf(password, draw(first, 16).value).Some? {
      SealAllFails(p, kdf(password, draw(first, 16).value).value, draw, first + 1, go, Chunks(input), 0, |input|);
    }
  }

  /** One pass of the loop over the chunks. */
  method SealNext(p: Aead, random: RandomSource, key: seq<byte>, input: seq<byte>, chunkIndex: nat, out: array<byte>, at: nat,
                  ghost salt: seq<byte>, ghost first: nat)
    returns (status: Status, next: nat, chunkSize: nat)
    requires p.Conforms() && random.Valid() && key != [] && ContainerSize(p, |input|) <= out.Length && at <= out.Length
    requires chunkIndex < ChunkCount(|input|) && random.calls == first + chunkIndex
    requires Writing(p, key, random.draw, first, input, chunkIndex, salt, out[..at])
    modifies out, random`calls
    ensures chunkSize == |ChunkAt(input, chunkIndex)|
    ensures status == SealStatus(p, key, SealMessage(p, key, random.draw(first + chunkIndex, p.nonceSize), ChunkAt(input, chunkIndex)))
    ensures status == NoError ==>
              && p.acceptsKey(key) && next <= out.Length && random.calls == first + chunkIndex + 1
              && Writing(p, key, random.draw, first, input, chunkIndex + 1, salt, out[..next])
  {
    hide SealMessage, Sealed, Writing, ContainerSize;
    var chunk := ChunkAt(input, chunkIndex);
    chunkSize := |chunk|;
    WritingFits(p, key, random.draw, first, input, chunkIndex, salt, out[..at]);
    if p.acceptsKey(key) {
      WritingStep(p, key, random.draw, first, input, chunkIndex, salt, out[..at]);
    }
    ghost var before := out[..at];
    status, next := SealChunk(p, random, key, chunk, out, at);
    if status == NoError {
      SealedKey(p, key, random.draw(first + chunkIndex, p.nonceSize), chunk);
      assert out[..next] == before + out[at..next];
    }
  }

  /** What is left of sealing all chunks of an input, with the first i of them done. */
  ghost function SealFrom(p: Aead, key: seq<byte>, draw: (nat, nat) -> Option<seq<byte>>, first: nat, go: Progress,
                          input: seq<byte>, i: nat): Status
    requires i <= ChunkCount(|input|)
  {
    SealAll(p, key, draw, first + i, go, Chunks(input)[i..], Min(i * CHUNK_SIZE, |input|), |input|)
  }

  lemma SealFromStep(p: Aead, key: seq<byte>, draw: (nat, nat) -> Option<seq<byte>>, first: nat, go: Progress,
                     input: seq<byte>, i: nat)
    requires i < ChunkCount(|input|)
    ensures Min(i * CHUNK_SIZE, |input|) + |ChunkAt(input, i)| == Min((i + 1) * CHUNK_SIZE, |input|)
    ensures var message := SealMessage(p, key, draw(first + i, p.nonceSize), ChunkAt(input, i));
            SealFrom(p, key, draw, first, go, input, i)
              == if message.None? then SealStatus(p, key, None)
                 else if !go(Min((i + 1) * CHUNK_SIZE, |input|), |input|) then OperationCancelled
                 else SealFrom(p, key, draw, first, go, input, i + 1)
  {
    var rest := Chunks(input)[i..];
    assert rest[0] == ChunkAt(input, i) && rest[1..] == Chunks(input)[i + 1..];
    hide SealMessage;
  }

  /** With i chunks done: their records are written, and the others decide the outcome. */
  ghost predicate Sealing(p: Aead, key: seq<byte>, random: RandomSource, first: nat, go: Progress, input: seq<byte>, i: nat,
                          salt: seq<byte>, written: seq<byte>)
    reads random
  {
    && random.calls == first + i && i <= ChunkCount(|input|) && (i > 0 ==> p.acceptsKey(key))
    && Writing(p, key, random.draw, first, input, i, salt, written)
    && SealFrom(p, key, random.draw, first, go, input, i) == SealFrom(p, key, random.draw, first, go, input, 0)
  }

  /** One pass of the loop over the chunks, with the question whether to go on. */
  method SealAndAsk(p: Aead, random: RandomSource, key: seq<byte>, input: seq<byte>, chunkIndex: nat, out: array<byte>,
                    at: nat,
                    processed: nat, go: Progress, ghost salt: seq<byte>, ghost first: nat)
    returns (status: Status, next: nat, processedBytes: nat)
    requires p.Conforms() && random.Valid() && key != [] && ContainerSize(p, |input|) <= out.Length && at <= out.Length
    requires chunkIndex < ChunkCount(|input|) && processed == Min(chunkIndex * CHUNK_SIZE, |input|)
    requires Sealing(p, key, random, first, go, input, chunkIndex, salt, out[..at])
    modifies out, random`calls
    ensures status != NoError ==> status == SealFrom(p, key, random.draw, first, go, input, 0)
    ensures status == NoError ==>
              && next <= out.Length && processedBytes == Min((chunkIndex + 1) * CHUNK_SIZE, |input|)
              && Sealing(p, key, random, first, go, input, chunkIndex + 1, salt, out[..next])
  {
    SealFromStep(p, key, random.draw, first, go, input, chunkIndex);
    hide SealMessage, Writing, ChunkAt, SealFrom, ContainerSize, Min;
    var chunkSize: nat;
    status, next, chunkSize := SealNext(p, random, key, input, chunkIndex, out, at, salt, first);
    processedBytes := processed + chunkSize;
    if status == NoError && !go(processedBytes, |input|) {
      status := OperationCancelled;
    }
  }

  /** Encrypts all chunks behind the salt already in the buffer. */
  method SealChunks(p: Aead, random: RandomSource, key: seq<byte>, input: seq<byte>, out: array<byte>, go: Progress,
                    ghost salt: seq<byte>)
    returns (status: Status)
    requires p.Conforms() && random.Valid() && key != [] && |input| <= INT_MAX && ContainerSize(p, |input|) <= out.Length
    requires salt == out[..PASSWORD_SALT_SIZE]
    modifies out, random`calls
    ensures status == SealAll(p, key, random.draw, old(random.calls), go, Chunks(input), 0, |input|)
    ensures status == NoError ==> Writing(p, key, random.draw, old(random.calls), input, ChunkCount(|input|), salt, out[..ContainerSize(p, |input|)])
    ensures status == NoError ==> random.calls == old(random.calls) + ChunkCount(|input|) && (input != [] ==> p.acceptsKey(key))
  {
    hide Writing, Chunks, SealFrom, SealAll, Sealed, ChunkAt;
    var chunkCount := ChunkCount(|input|);
    var writePos: nat, chunkIndex: nat, processedBytes: nat := PASSWORD_SALT_SIZE, 0, 0;
    ghost var first := random.calls;
    WritingStart(p, key, random.draw, first, input, salt);
    SealFromEnds(p, key, random.draw, first, go, input);
    assert Sealing(p, key, random, first, go, input, 0, salt, out[..PASSWORD_SALT_SIZE]);
    while chunkIndex < chunkCount
      invariant writePos <= out.Length && chunkIndex <= chunkCount && processedBytes == Min(chunkIndex * CHUNK_SIZE, |input|)
      invariant Sealing(p, key, random, first, go, input, chunkIndex, salt, out[..writePos])
    {
      status, writePos, processedBytes := SealAndAsk(p, random, key, input, chunkIndex, out, writePos, processedBytes, go, salt, first);
      if status != NoError {
        return;
      }
      chunkIndex := chunkIndex + 1;
    }
    WrittenSize(p, key, random.draw, first, input, salt, out[..writePos]);
    status := NoError;
  }

  lemma SealFromEnds(p: Aead, key: seq<byte>, draw: (nat, nat) -> Option<seq<byte>>, first: nat, go: Progress,
                     input: seq<byte>)
    ensures SealFrom(p, key, draw, first, go, input, 0) == SealAll(p, key, draw, first, go, Chunks(input), 0, |input|)
    ensures SealFrom(p, key, draw, first, go, input, ChunkCount(|input|)) == NoError
  {
    assert Chunks(input)[0..] == Chunks(input);
  }

  lemma WrittenSize(p: Aead, key: seq<byte>, draw: (nat, nat) -> Option<seq<byte>>, first: nat, input: seq<byte>,
                    salt: seq<byte>, written: seq<byte>)
    requires Writing(p, key, draw, first, input, ChunkCount(|input|), salt, written)
    ensures |written| == ContainerSize(p, |input|)
  {
    hide Sealed;
  }

  /** The arguments of the password-level writer that the original accepts. */
  predicate GoodPlaintext(password: Option<seq<byte>>, passwordSize: int, input: Option<seq<byte>>, inputSize: int) {
    password.Some? && passwordSize > 0 && inputSize >= 0 && (inputSize > 0 ==> input.Some?)
  }

  /** Encrypts a buffer with a password. It succeeds exactly when the arguments are good, the container fits, the
    providers do not fail and the callback lets every chunk pass; then it fills exactly the announced size,
    and the container opens to the input. */
  method EncryptBuffer(p: Aead, kdf: Kdf, random: RandomSource, password: Option<seq<byte>>, passwordSize: int,
                       input: Option<seq<byte>>, inputSize: int, capacity: int, out: array?<byte>, go: Progress)
    returns (status: Status, size: nat)
    requires p.Conforms() && Derives(kdf, p) && random.Valid() && inputSize <= INT_MAX
    requires (password.Some? ==> passwordSize <= |password.value|) && (input.Some? ==> inputSize <= |input.value|)
    requires out != null ==> capacity <= out.Length
    modifies out, random`calls
    ensures password.None? || passwordSize <= 0 || inputSize < 0 || (inputSize > 0 && input.None?) ==> status == InvalidArgument
    ensures GoodPlaintext(password, passwordSize, input, inputSize) ==>
              var text := Text(input, inputSize);
              if ContainerSize(p, |text|) > 0x7fff_ffff then status == InvalidArgument
              else if capacity < ContainerSize(p, |text|) || out == null then status == BufferTooSmall && size == ContainerSize(p, |text|)
              else
                && status == EncryptStatus(p, kdf, Text(password, passwordSize), random.draw, old(random.calls), go, text)
                && (random.draw(old(random.calls), 16).None? ==> status == UnexpectedError)
                && (random.draw(old(random.calls), 16).Some? ==>
                      match kdf(Text(password, passwordSize), random.draw(old(random.calls), 16).value)
                      case None => status == UnexpectedError
                      case Some(key) =>
                        var sealed := Sealed(p, key, random.draw, old(random.calls) + 1, Chunks(text));
                        var granted := Granted(go, Chunks(text), 0, |text|);
                        && (text != [] && !p.acceptsKey(key) ==> status == InvalidArgument)
                        && (p.acceptsKey(key) && sealed.None? && granted ==> status == UnexpectedError)
                        && (p.acceptsKey(key) && sealed.Some? && !granted ==> status == OperationCancelled))
    ensures status != NoError && status != BufferTooSmall ==> size == 0
    ensures var text := Text(input, inputSize);
            status == NoError <==>
              && GoodPlaintext(password, passwordSize, input, inputSize)
              && ContainerSize(p, |text|) <= INT_MAX && ContainerSize(p, |text|) <= capacity && out != null
              && CanSeal(p, kdf, Text(password, passwordSize), random.draw, old(random.calls), text)
              && Granted(go, Chunks(text), 0, |text|)
    ensures status == NoError ==>
              var text := Text(input, inputSize);
              && size == ContainerSize(p, |text|)
              && Open(p, kdf, Text(password, passwordSize), out[..size]) == Some(text)
              && IsContainer(p, kdf, Text(password, passwordSize), random.draw, old(random.calls), Chunks(text), out[..size])
              && random.calls == old(random.calls) + 1 + ChunkCount(|text|)
  {
    hide Sealed, Chunks, EncryptStatus, CanSeal, Granted, IsContainer, Open, ContainerSize, ChunkCount;
    if password.None? || passwordSize <= 0 || inputSize < 0 || (inputSize > 0 && input.None?) {
      return InvalidArgument, 0;
    }
    var text := Text(input, inputSize);
    EncryptSucceeds(p, kdf, Text(password, passwordSize), random.draw, random.calls, go, text);
    EncryptFails(p, kdf, Text(password, passwordSize), random.draw, random.calls, go, text);
    hide Text;
    status, size := EncryptText(p, kdf, random, Text(password, passwordSize), text, capacity, out, go);
  }

  /** The writer behind the checks of its pointers. */
  method EncryptText(p: Aead, kdf: Kdf, random: RandomSource, password: seq<byte>, input: seq<byte>, capacity: int,
                     out: array?<byte>, go: Progress)
    returns (status: Status, size: nat)
    requires p.Conforms() && Derives(kdf, p) && random.Valid() && |input| <= INT_MAX
    requires out != null ==> capacity <= out.Length
    modifies out, random`calls
    ensures if ContainerSize(p, |input|) > 0x7fff_ffff then status == InvalidArgument
            else if capacity < ContainerSize(p, |input|) || out == null then status == BufferTooSmall && size == ContainerSize(p, |input|)
            else status == EncryptStatus(p, kdf, password, random.draw, old(random.calls), go, input)
    ensures status != NoError && status != BufferTooSmall ==> size == 0
    ensures status == NoError ==>
              && ContainerSize(p, |input|) <= 0x7fff_ffff && size == ContainerSize(p, |input|) <= capacity && out != null
              && Open(p, kdf, password, out[..size]) == Some(input)
              && IsContainer(p, kdf, password, random.draw, old(random.calls), Chunks(input), out[..size])
              && random.calls == old(random.calls) + 1 + ChunkCount(|input|)
  {
    hide Sealed, Chunks, EncryptStatus, IsContainer, Open, ContainerSize;
    var requiredSize := RequiredSize(p, |input|);
    if requiredSize > INT_MAX {
      return InvalidArgument, 0;
    }
    if capacity < requiredSize || out == null {
      return BufferTooSmall, requiredSize;
    }
    status := SealBuffer(p, kdf, random, password, input, out, go);
    size := if status == NoError then requiredSize else 0;
  }

  /** Writes salt and records into a buffer that has room for them. */
  method SealBuffer(p: Aead, kdf: Kdf, random: RandomSource, password: seq<byte>, input: seq<byte>, out: array<byte>,
                    go: Progress)
    returns (status: Status)
    requires p.Conforms() && Derives(kdf, p) && random.Valid() && |input| <= INT_MAX && ContainerSize(p, |input|) <= out.Length
    modifies out, random`calls
    ensures status == EncryptStatus(p, kdf, password, random.draw, old(random.calls), go, input)
    ensures status == NoError ==>
              var container := out[..ContainerSize(p, |input|)];
              && Open(p, kdf, password, container) == Some(input)
              && IsContainer(p, kdf, password, random.draw, old(random.calls), Chunks(input), container)
              && random.calls == old(random.calls) + 1 + ChunkCount(|input|)
  {
    hide Sealed, OpenRecords, Writing, SealAll, ChunkAt, RecordsSize, Chunks;
    ghost var start := random.calls;
    var salt := random.Generate(PASSWORD_SALT_SIZE);
    if salt.None? {
      return UnexpectedError;
    }
    CopyInto(out, 0, salt.value);
    var key := kdf(password, salt.value);
    if key.None? {
      return UnexpectedError;
    }
    status := SealChunks(p, random, key.value, input, out, go, salt.value);
    if status == NoError {
      WritingDone(p, kdf, password, key.value, random.draw, start + 1, input, salt.value, out[..ContainerSize(p, |input|)]);
    }
  }

  /** The size that is announced. */
  method RequiredSize(p: Aead, inputSize: nat) returns (requiredSize: nat)
    ensures requiredSize == ContainerSize(p, inputSize)
  {
    var recordOverhead := 4 + p.nonceSize + p.tagSize;
    var chunkCount := if inputSize > 0 then (inputSize + CHUNK_SIZE - 1) / CHUNK_SIZE else 0;
    assert recordOverhead == 4 + p.Overhead() && chunkCount == ChunkCount(inputSize);
    requiredSize := PASSWORD_SALT_SIZE + inputSize + chunkCount * recordOverhead;
  }

  // ----- the in-memory reader

  /** The plaintext size that the framing announces. */
  function Scan(p: Aead, s: seq<byte>): Option<nat>
    decreases |s|
  {
    if s == [] then Some(0)
    else match FirstRecord(p, s)
      case None => None
      case Some(n) => Added(n, Scan(p, s[4 + n + p.Overhead()..]))
  }

  function Added(n: nat, r: Option<nat>): Option<nat> {
    if r.Some? then Some(n + r.value) else None
  }

  /** A container that opens has the announced size; the announced size never exceeds the size of the
    container, so that the check against INT_MAX in the first pass never fails. */
  lemma {:induction false} ScanBound(p: Aead, key: seq<byte>, s: seq<byte>)
    requires p.Conforms()
    ensures Scan(p, s).Some? ==> Scan(p, s).value <= |s|
    ensures OpenRecords(p, key, s).Some? ==> Scan(p, s) == Some(|OpenRecords(p, key, s).value|)
    decreases |s|
  {
    RecordCases(p, key, s);
    hide FirstRecord, OpenRecords, OpenChunk, Scan;
    if s != [] && FirstRecord(p, s).Some? {
      var n := FirstRecord(p, s).value;
      var end := 4 + n + p.Overhead();
      ScanBound(p, key, s[end..]);
      ChunkSize(p, key, s[4..end]);
      NextChunk(p, key, s, n, s[4..end], s[end..], []);
      JoinEmpty(OpenRecords(p, key, s));
    }
  }

  lemma RecordCases(p: Aead, key: seq<byte>, s: seq<byte>)
    ensures s == [] ==> Scan(p, s) == Some(0) && OpenRecords(p, key, s) == Some([])
    ensures s != [] && FirstRecord(p, s).None? ==> Scan(p, s).None? && OpenRecords(p, key, s).None?
  {
    hide FirstRecord;
  }

  lemma ChunkSize(p: Aead, key: seq<byte>, record: seq<byte>)
    requires p.Conforms() && p.Overhead() <= |record|
    ensures OpenChunk(p, key, record).Some? ==> |OpenChunk(p, key, record).value| == |record| - p.Overhead()
  {
  }

  /** The first pass checks the framing and adds up the plaintext sizes. */
  method ScanRecords(p: Aead, input: seq<byte>) returns (status: Status, requiredSize: nat)
    requires p.Conforms() && PASSWORD_SALT_SIZE <= |input|
    ensures var r := Scan(p, input[PASSWORD_SALT_SIZE..]);
            && (status == NoError <==> r.Some? && r.value <= INT_MAX)
            && (status == NoError ==> requiredSize == r.value)
    ensures status == NoError || status == InvalidData || (status == InvalidArgument && |input| > INT_MAX)
  {
    requiredSize := 0;
    var scanPos: nat := PASSWORD_SALT_SIZE;
    ghost var all := ScanFrom(p, input, scanPos, 0);
    assert all == Scan(p, input[scanPos..]);
    hide Scan, ScanFrom;
    while scanPos < |input|
      invariant requiredSize <= scanPos <= |input| && requiredSize <= INT_MAX
      invariant ScanFrom(p, input, scanPos, requiredSize) == all
    {
      status, scanPos, requiredSize := ScanNext(p, input, scanPos, requiredSize);
      if status != NoError {
        return;
      }
    }
    ScanStep(p, input, scanPos, requiredSize);
    status := NoError;
  }

  method ScanNext(p: Aead, input: seq<byte>, at: nat, sum: nat) returns (status: Status, scanPos: nat, requiredSize: nat)
    requires at < |input| && sum <= INT_MAX
    ensures status == NoError ==> at < scanPos <= |input| && requiredSize <= INT_MAX
    ensures status == NoError ==> ScanFrom(p, input, at, sum) == ScanFrom(p, input, scanPos, requiredSize)
    ensures status != NoError ==> ScanFrom(p, input, at, sum).None? || ScanFrom(p, input, at, sum).value > INT_MAX
    ensures status == NoError ==> requiredSize - sum <= scanPos - at
    ensures status == NoError || status == InvalidData || (status == InvalidArgument && sum + (|input| - at) > INT_MAX)
  {
    hide *;
    ScanStep(p, input, at, sum);
    scanPos, requiredSize := at, sum;
    if |input| - scanPos < 4 {
      return InvalidData, at, sum;
    }
    var chunkPlainSize := ReadLe32(input[scanPos..scanPos + 4]);
    scanPos := scanPos + 4;
    if chunkPlainSize > CHUNK_SIZE {
      return InvalidData, at, sum;
    }
    var recordSize := chunkPlainSize + p.nonceSize + p.tagSize;
    if recordSize > |input| - scanPos {
      return InvalidData, at, sum;
    }
    scanPos := scanPos + recordSize;
    requiredSize := requiredSize + chunkPlainSize;
    if requiredSize > INT_MAX {
      ScanStep(p, input, scanPos, requiredSize);
      return InvalidArgument, at, sum;
    }
    status := NoError;
  }

  /** What the rest of the data adds to a sum. */
  function ScanFrom(p: Aead, input: seq<byte>, at: nat, sum: nat): Option<nat>
    requires at <= |input|
  {
    Added(sum, Scan(p, input[at..]))
  }

  lemma ScanStep(p: Aead, input: seq<byte>, at: nat, sum: nat)
    requires at <= |input|
    ensures at == |input| ==> ScanFrom(p, input, at, sum) == Some(sum)
    ensures 0 < |input| - at < 4 ==> ScanFrom(p, input, at, sum) == None
    ensures |input| - at >= 4 ==>
              var n := ReadLe32(input[at..at + 4]);
              var end := at + 4 + (n + p.nonceSize + p.tagSize);
              if n > CHUNK_SIZE || end > |input| then ScanFrom(p, input, at, sum) == None
              else ScanFrom(p, input, at, sum) == ScanFrom(p, input, end, sum + n)
    ensures ScanFrom(p, input, at, sum).Some? ==> ScanFrom(p, input, at, sum).value >= sum
  {
    if |input| - at >= 4 {
      var n := ReadLe32(input[at..at + 4]);
      assert input[at..][..4] == input[at..at + 4];
      if n <= CHUNK_SIZE && at + 4 + n + p.Overhead() <= |input| {
        assert input[at..][4 + n + p.Overhead()..] == input[at + 4 + n + p.Overhead()..];
      }
    }
  }

  /** In the second pass: the plaintext so far, and what is left to open. */
  ghost predicate Opening(p: Aead, key: seq<byte>, all: Option<seq<byte>>, plain: seq<byte>, rest: seq<byte>,
                          requiredSize: nat) {
    && |plain| <= requiredSize && Scan(p, rest) == Some(requiredSize - |plain|)
    && Join(Some(plain), OpenRecords(p, key, rest)) == all
  }

  lemma OpeningStep(p: Aead, key: seq<byte>, all: Option<seq<byte>>, plain: seq<byte>, rest: seq<byte>,
                    requiredSize: nat) returns (n: nat)
    requires p.Conforms() && Opening(p, key, all, plain, rest, requiredSize) && rest != []
    ensures FirstRecord(p, rest) == Some(n) && n == ReadLe32(rest[..4]) && |plain| + n <= requiredSize
    ensures var chunk := OpenChunk(p, key, rest[4..4 + n + p.Overhead()]);
            if chunk.None? then all.None?
            else |chunk.value| == n && Opening(p, key, all, plain + chunk.value, rest[4 + n + p.Overhead()..], requiredSize)
  {
    hide Scan, OpenRecords, OpenChunk, FirstRecord, ReadLe32;
    ScannedRecord(p, rest);
    n := FirstRecord(p, rest).value;
    var end := 4 + n + p.Overhead();
    ChunkSize(p, key, rest[4..end]);
    NextChunk(p, key, rest, n, rest[4..end], rest[end..], plain);
  }

  lemma ScannedRecord(p: Aead, s: seq<byte>)
    requires s != [] && Scan(p, s).Some?
    ensures FirstRecord(p, s).Some? && FirstRecord(p, s).value == ReadLe32(s[..4])
  {
  }

  lemma OpeningDone(p: Aead, key: seq<byte>, all: Option<seq<byte>>, plain: seq<byte>, requiredSize: nat)
    requires Opening(p, key, all, plain, [], requiredSize)
    ensures all == Some(plain) && |plain| == requiredSize
  {
    JoinEmpty(Some(plain));
  }

  /** Opening one record behind the other, and asking after each of them whether to go on. */
  function OpenAll(p: Aead, key: seq<byte>, go: Progress, s: seq<byte>, done: nat, total: nat): Status
    decreases |s|
  {
    if s == [] then NoError
    else match FirstRecord(p, s)
      case None => InvalidData
      case Some(n) =>
        var end := 4 + n + p.Overhead();
        if OpenChunk(p, key, s[4..end]).None? then OpenStatus(p, key, None)
        else if !go(done + end, total) then OperationCancelled
        else OpenAll(p, key, go, s[end..], done + end, total)
  }

  /** The callback lets every record pass. */
  ghost predicate Allowed(p: Aead, go: Progress, s: seq<byte>, done: nat, total: nat)
    decreases |s|
  {
    s != [] && FirstRecord(p, s).Some? ==>
      var end := 4 + FirstRecord(p, s).value + p.Overhead();
      go(done + end, total) && Allowed(p, go, s[end..], done + end, total)
  }

  /** Opening succeeds exactly when the records open and the callback lets every one of them pass. */
  lemma {:induction false} OpenAllSucceeds(p: Aead, key: seq<byte>, go: Progress, s: seq<byte>, done: nat, total: nat)
    ensures OpenAll(p, key, go, s, done, total) == NoError <==> OpenRecords(p, key, s).Some? && Allowed(p, go, s, done, total)
    decreases |s|
  {
    hide OpenChunk, FirstRecord;
    if s != [] && FirstRecord(p, s).Some? {
      var end := 4 + FirstRecord(p, s).value + p.Overhead();
      OpenAllSucceeds(p, key, go, s[end..], done + end, total);
    }
  }

  /** The statuses of the reader's loop on data that is framed well: a refused key is INVALID_ARGUMENT, a record that
    does not open INVALID_DATA, and OPERATION_CANCELLED is left for the callback. */
  lemma {:induction false} OpenAllFails(p: Aead, key: seq<byte>, go: Progress, s: seq<byte>, done: nat, total: nat)
    ensures var status := OpenAll(p, key, go, s, done, total);
            && (s != [] && FirstRecord(p, s).Some? && !p.acceptsKey(key) ==> status == InvalidArgument)
            && (p.acceptsKey(key) ==> status in {NoError, InvalidData, OperationCancelled})
            && (p.acceptsKey(key) && OpenRecords(p, key, s).Some? && !Allowed(p, go, s, done, total) ==> status == OperationCancelled)
            && (p.acceptsKey(key) && OpenRecords(p, key, s).None? && Allowed(p, go, s, done, total) ==> status == InvalidData)
    decreases |s|
  {
    hide *;
    if s != [] && FirstRecord(p, s).Some? {
      var n := FirstRecord(p, s).value;
      var end := 4 + n + p.Overhead();
      AllowedStep(p, key, go, s, done, total, n);
      OpenAllStep(p, key, go, s, n, s[4..end], s[end..], done, total);
      OpenStep(p, key, s, n, s[4..end], s[end..]);
      JoinCases(OpenChunk(p, key, s[4..end]), OpenRecords(p, key, s[end..]));
      OpenAllFails(p, key, go, s[end..], done + end, total);
    } else {
      NoRecordOpens(p, key, go, s, done, total);
    }
  }

  lemma AllowedStep(p: Aead, key: seq<byte>, go: Progress, s: seq<byte>, done: nat, total: nat, n: nat)
    requires FirstRecord(p, s) == Some(n) && s != []
    ensures var end := 4 + n + p.Overhead();
            && (Allowed(p, go, s, done, total) <==> go(done + end, total) && Allowed(p, go, s[end..], done + end, total))
            && (!p.acceptsKey(key) ==> OpenChunk(p, key, s[4..end]).None?)
            && OpenStatus(p, key, None) == if p.acceptsKey(key) then InvalidData else InvalidArgument
  {
    hide FirstRecord;
  }

  lemma NoRecordOpens(p: Aead, key: seq<byte>, go: Progress, s: seq<byte>, done: nat, total: nat)
    requires s == [] || FirstRecord(p, s).None?
    ensures Allowed(p, go, s, done, total) && (OpenRecords(p, key, s).Some? <==> s == [])
    ensures OpenAll(p, key, go, s, done, total) == if s == [] then NoError else InvalidData
  {
    hide FirstRecord;
  }

  lemma OpenAllStep(p: Aead, key: seq<byte>, go: Progress, s: seq<byte>, n: nat, record: seq<byte>, rest: seq<byte>,
                    done: nat, total: nat)
    requires FirstRecord(p, s) == Some(n) && record == s[4..4 + n + p.Overhead()] && rest == s[4 + n + p.Overhead()..]
    ensures OpenAll(p, key, go, s, done, total)
         == if OpenChunk(p, key, record).None? then OpenStatus(p, key, None)
            else if !go(done + (4 + n + p.Overhead()), total) then OperationCancelled
            else OpenAll(p, key, go, rest, done + (4 + n + p.Overhead()), total)
  {
    hide OpenChunk;
  }

  /** One record in front of others, for the reader's loop: what decides the status, and what the callback is asked. */
  lemma RecordDecides(p: Aead, key: seq<byte>, go: Progress, n: nat, nonce: seq<byte>, ciphertext: seq<byte>, tag: seq<byte>,
                      rest: seq<byte>, done: nat, total: nat)
    requires n == |ciphertext| <= 1024 && |nonce| == p.nonceSize && |tag| == p.tagSize
    ensures var s := [n % 0x100, n / 0x100, 0, 0] + (nonce + ciphertext + tag) + rest;
            var next := done + (4 + p.nonceSize + n + p.tagSize);
            && (Scan(p, s).Some? <==> Scan(p, rest).Some?) && (Scan(p, s).Some? ==> Scan(p, s).value == n + Scan(p, rest).value)
            && (Allowed(p, go, s, done, total) <==> go(next, total) && Allowed(p, go, rest, next, total))
            && OpenAll(p, key, go, s, done, total)
               == (if !p.acceptsKey(key) then InvalidArgument
                   else if p.decrypt(key, nonce, ciphertext, tag).None? then InvalidData
                   else if !go(next, total) then OperationCancelled
                   else OpenAll(p, key, go, rest, next, total))
  {
    RecordOpens(p, key, n, nonce, ciphertext, tag, rest);
    var s := [n % 0x100, n / 0x100, 0, 0] + (nonce + ciphertext + tag) + rest;
    hide OpenChunk, FirstRecord, OpenRecords;
    NextChunk(p, key, s, n, nonce + ciphertext + tag, rest, []);
    OpenAllStep(p, key, go, s, n, nonce + ciphertext + tag, rest, done, total);
  }

  /** The second pass decrypts the records one behind the other. */
  method OpenChunks(p: Aead, key: seq<byte>, input: seq<byte>, out: array?<byte>, requiredSize: nat,
                    go: Progress) returns (status: Status)
    requires p.Conforms() && key != [] && PASSWORD_SALT_SIZE <= |input| && Scan(p, input[PASSWORD_SALT_SIZE..]) == Some(requiredSize)
    requires if out == null then requiredSize == 0 else requiredSize <= out.Length
    modifies out
    ensures status == OpenAll(p, key, go, input[PASSWORD_SALT_SIZE..], 0, |input|)
    ensures status == NoError ==>
              var plain := OpenRecords(p, key, input[PASSWORD_SALT_SIZE..]);
              plain.Some? && |plain.value| == requiredSize && (out != null ==> out[..requiredSize] == plain.value)
  {
    var readPos: nat, writePos: nat, processedBytes: nat := PASSWORD_SALT_SIZE, 0, 0;
    ghost var plain: seq<byte> := [];
    ghost var all, result := OpenRecords(p, key, input[readPos..]), OpenAll(p, key, go, input[readPos..], 0, |input|);
    JoinEmpty(all);
    NothingToOpen(p, key, go);
    assert Opening(p, key, all, plain, input[readPos..], requiredSize);
    hide OpenRecords, Opening, OpenAll;
    while readPos < |input|
      invariant readPos <= |input| && |plain| == writePos <= requiredSize
      invariant Opening(p, key, all, plain, input[readPos..], requiredSize)
      invariant OpenAll(p, key, go, input[readPos..], processedBytes, |input|) == result
      invariant out != null ==> out[..writePos] == plain
    {
      status, readPos, writePos, processedBytes := OpenNext(p, key, input, readPos, out, writePos, go, processedBytes, all, plain, requiredSize);
      if status != NoError {
        return;
      }
      plain := if out == null then plain else out[..writePos];
    }
    OpeningDone(p, key, all, plain, requiredSize);
    status := NoError;
  }

  lemma NothingToOpen(p: Aead, key: seq<byte>, go: Progress)
    ensures forall done, total :: OpenAll(p, key, go, [], done, total) == NoError
  {
  }

  /** One pass of the loop over the records, with the question whether to go on. */
  method OpenNext(p: Aead, key: seq<byte>, input: seq<byte>, at: nat, out: array?<byte>, writeAt: nat, go: Progress,
                  done: nat,
                  ghost all: Option<seq<byte>>, ghost plain: seq<byte>, ghost requiredSize: nat)
    returns (status: Status, readPos: nat, writePos: nat, processedBytes: nat)
    requires p.Conforms() && key != [] && at < |input| && |plain| == writeAt
    requires Opening(p, key, all, plain, input[at..], requiredSize)
    requires if out == null then requiredSize == 0 else requiredSize <= out.Length && out[..writeAt] == plain
    modifies out
    ensures at < readPos <= |input|
    ensures status != NoError ==> OpenAll(p, key, go, input[at..], done, |input|) == status
    ensures status == NoError ==>
              && writeAt <= writePos <= requiredSize && (out == null ==> writePos == 0)
              && Opening(p, key, all, if out == null then plain else out[..writePos], input[readPos..], requiredSize)
              && OpenAll(p, key, go, input[at..], done, |input|) == OpenAll(p, key, go, input[readPos..], processedBytes, |input|)
  {
    hide OpenChunk, Opening, ReadLe32, OpenAll;
    ghost var n := OpeningStep(p, key, all, plain, input[at..], requiredSize);
    SameRecord(p, input, at, n);
    OpenAllStep(p, key, go, input[at..], n, input[at..][4..4 + n + p.Overhead()], input[at..][4 + n + p.Overhead()..], done, |input|);
    var chunkPlainSize := ReadLe32(input[at..at + 4]);
    var recordSize := chunkPlainSize + p.nonceSize + p.tagSize;
    readPos := at + 4 + recordSize;
    writePos := writeAt + chunkPlainSize;
    processedBytes := done + (4 + recordSize);
    status := OpenInto(p, key, input[at + 4..readPos], chunkPlainSize, out, writeAt, plain);
    if status == NoError && !go(processedBytes, |input|) {
      status := OperationCancelled;
    }
  }

  /** Decrypts a record behind the plaintext so far. */
  method OpenInto(p: Aead, key: seq<byte>, record: seq<byte>, chunkPlainSize: nat, out: array?<byte>, at: nat,
                  ghost plain: seq<byte>) returns (status: Status)
    requires p.Conforms() && key != [] && |record| == chunkPlainSize + p.Overhead() && |plain| == at
    requires if out == null then chunkPlainSize == 0 else at + chunkPlainSize <= out.Length && out[..at] == plain
    modifies out
    ensures status == OpenStatus(p, key, OpenChunk(p, key, record))
    ensures status == NoError ==> plain + OpenChunk(p, key, record).value == if out == null then plain else out[..at + chunkPlainSize]
  {
    hide OpenChunk;
    var chunkOutputSize: nat;
    status, chunkOutputSize := DecryptWithKey(p, key, record, chunkPlainSize, out, at);
    if status != NoError || chunkOutputSize != chunkPlainSize {
      status := if status != NoError then status else InvalidData;
    } else if out == null {
      assert plain + OpenChunk(p, key, record).value == plain;
    } else {
      assert out[..at + chunkPlainSize] == out[..at] + out[at..at + chunkPlainSize];
    }
  }

  lemma SameRecord(p: Aead, input: seq<byte>, at: nat, n: nat)
    requires at + 4 + n + p.Overhead() <= |input|
    ensures input[at..][..4] == input[at..at + 4]
    ensures input[at..][4..4 + n + p.Overhead()] == input[at + 4..at + 4 + (n + p.nonceSize + p.tagSize)]
    ensures input[at..][4 + n + p.Overhead()..] == input[at + 4 + (n + p.nonceSize + p.tagSize)..]
  {
  }

  /** The next record and what follows it, behind the plaintext so far. */
  lemma NextChunk(p: Aead, key: seq<byte>, s: seq<byte>, n: nat, record: seq<byte>, rest: seq<byte>, plain: seq<byte>)
    requires FirstRecord(p, s) == Some(n) && record == s[4..4 + n + p.Overhead()] && rest == s[4 + n + p.Overhead()..]
    ensures Scan(p, s) == Added(n, Scan(p, rest))
    ensures var chunk := OpenChunk(p, key, record);
            Join(Some(plain), OpenRecords(p, key, s)) == if chunk.None? then None else Join(Some(plain + chunk.value), OpenRecords(p, key, rest))
  {
    hide *;
    NextScanned(p, s, n, rest);
    OpenStep(p, key, s, n, record, rest);
    JoinChunk(plain, OpenChunk(p, key, record), OpenRecords(p, key, rest));
  }

  lemma NextScanned(p: Aead, s: seq<byte>, n: nat, rest: seq<byte>)
    requires FirstRecord(p, s) == Some(n) && rest == s[4 + n + p.Overhead()..]
    ensures Scan(p, s) == Added(n, Scan(p, rest))
  {
    hide FirstRecord;
  }

  lemma JoinChunk(plain: seq<byte>, chunk: Option<seq<byte>>, rest: Option<seq<byte>>)
    ensures Join(Some(plain), Join(chunk, rest)) == if chunk.None? then None else Join(Some(plain + chunk.value), rest)
  {
    JoinAssociative(Some(plain), chunk, rest);
  }

  /** The arguments of the password-level reader that the original accepts. */
  predicate GoodContainer(password: Option<seq<byte>>, passwordSize: int, input: Option<seq<byte>>, inputSize: int) {
    password.Some? && passwordSize > 0 && input.Some? && inputSize >= 0
  }

  /** The status of a run on a container whose records are framed well and whose plaintext has room. */
  function DecryptStatus(p: Aead, kdf: Kdf, password: seq<byte>, go: Progress, container: seq<byte>): Status
    requires PASSWORD_SALT_SIZE <= |container|
  {
    match kdf(password, container[..PASSWORD_SALT_SIZE])
    case None => UnexpectedError
    case Some(key) => OpenAll(p, key, go, container[PASSWORD_SALT_SIZE..], 0, |container|)
  }

  lemma DecryptSucceeds(p: Aead, kdf: Kdf, password: seq<byte>, go: Progress, container: seq<byte>)
    requires PASSWORD_SALT_SIZE <= |container|
    ensures DecryptStatus(p, kdf, password, go, container) == NoError
       <==> Open(p, kdf, password, container).Some? && Allowed(p, go, container[PASSWORD_SALT_SIZE..], 0, |container|)
  {
    hide OpenRecords, OpenAll, Allowed;
    if kdf(password, container[..PASSWORD_SALT_SIZE]).Some? {
      OpenAllSucceeds(p, kdf(password, container[..PASSWORD_SALT_SIZE]).value, go, container[PASSWORD_SALT_SIZE..], 0, |container|);
    }
  }

  lemma DecryptFails(p: Aead, kdf: Kdf, password: seq<byte>, go: Progress, container: seq<byte>)
    requires 16 <= |container| && Scan(p, container[16..]).Some?
    ensures var status := DecryptStatus(p, kdf, password, go, container);
            match kdf(password, container[..16])
            case None => status == UnexpectedError
            case Some(key) =>
              var plain, allowed := Open(p, kdf, password, container), Allowed(p, go, container[16..], 0, |container|);
              && (|container| > 16 && !p.acceptsKey(key) ==> status == InvalidArgument)
              && (p.acceptsKey(key) && plain.None? && allowed ==> status == InvalidData)
              && (p.acceptsKey(key) && plain.Some? && !allowed ==> status == OperationCancelled)
  {
    hide OpenRecords, OpenAll, Allowed;
    if kdf(password, container[..16]).Some? {
      var key := kdf(password, container[..16]).value;
      OpenAllFails(p, key, go, container[16..], 0, |container|);
      RecordCases(p, key, container[16..]);
    }
  }

  /** A container that opens has the announced size. */
  lemma OpenScan(p: Aead, kdf: Kdf, password: seq<byte>, container: seq<byte>)
    requires p.Conforms() && PASSWORD_SALT_SIZE <= |container|
    ensures var r := Scan(p, container[PASSWORD_SALT_SIZE..]);
            && (r.Some? ==> r.value <= |container|)
            && (Open(p, kdf, password, container).Some? ==> r == Some(|Open(p, kdf, password, container).value|))
  {
    ScanBound(p, [], container[PASSWORD_SALT_SIZE..]);
    if kdf(password, container[..PASSWORD_SALT_SIZE]).Some? {
      ScanBound(p, kdf(password, container[..PASSWORD_SALT_SIZE]).value, container[PASSWORD_SALT_SIZE..]);
    }
    hide Scan, OpenRecords;
  }

  /** Decrypts a container in memory. It succeeds exactly when the arguments are good, the container opens, the
    plaintext fits and the callback lets every record pass. */
  method DecryptBuffer(p: Aead, kdf: Kdf, password: Option<seq<byte>>, passwordSize: int, input: Option<seq<byte>>,
                       inputSize: int,
                       capacity: int, out: array?<byte>, go: Progress)
    returns (status: Status, size: nat)
    requires p.Conforms() && Derives(kdf, p) && inputSize <= INT_MAX && capacity <= INT_MAX
    requires (password.Some? ==> passwordSize <= |password.value|) && (input.Some? ==> inputSize <= |input.value|)
    requires out != null ==> capacity <= out.Length
    modifies out
    ensures password.None? || passwordSize <= 0 || input.None? || inputSize < 0 ==> status == InvalidArgument
    ensures GoodContainer(password, passwordSize, input, inputSize) ==>
              var container := Text(input, inputSize);
              if |container| < PASSWORD_SALT_SIZE || Scan(p, container[PASSWORD_SALT_SIZE..]).None? then status == InvalidData
              else
                var required := Scan(p, container[PASSWORD_SALT_SIZE..]).value;
                if capacity < required || (required > 0 && out == null) then status == BufferTooSmall && size == required
                else
                  && status == DecryptStatus(p, kdf, Text(password, passwordSize), go, container)
                  && match kdf(Text(password, passwordSize), container[..16])
                     case None => status == UnexpectedError
                     case Some(key) =>
                       var plain := Open(p, kdf, Text(password, passwordSize), container);
                       var allowed := Allowed(p, go, container[16..], 0, |container|);
                       && (|container| > 16 && !p.acceptsKey(key) ==> status == InvalidArgument)
                       && (p.acceptsKey(key) && plain.None? && allowed ==> status == InvalidData)
                       && (p.acceptsKey(key) && plain.Some? && !allowed ==> status == OperationCancelled)
    ensures status != NoError && status != BufferTooSmall ==> size == 0
    ensures status == NoError <==>
              && GoodContainer(password, passwordSize, input, inputSize)
              && var container := Text(input, inputSize);
                 && Open(p, kdf, Text(password, passwordSize), container).Some?
                 && Allowed(p, go, container[PASSWORD_SALT_SIZE..], 0, |container|)
                 && var plain := Open(p, kdf, Text(password, passwordSize), container).value;
                    |plain| <= capacity && (plain != [] ==> out != null)
    ensures status == NoError ==>
              var plain := Open(p, kdf, Text(password, passwordSize), Text(input, inputSize)).value;
              size == |plain| && (out != null ==> out[..size] == plain)
  {
    if password.None? || passwordSize <= 0 || input.None? || inputSize < 0 {
      return InvalidArgument, 0;
    }
    var container := Text(input, inputSize);
    if inputSize < PASSWORD_SALT_SIZE {
      return InvalidData, 0;
    }
    ghost var secret := Text(password, passwordSize);
    var requiredSize: nat;
    status, requiredSize := ScanRecords(p, container);
    OpenScan(p, kdf, secret, container);
    DecryptSucceeds(p, kdf, secret, go, container);
    hide Scan, OpenRecords, OpenAll, Allowed;
    if status != NoError {
      return status, 0;
    }
    DecryptFails(p, kdf, secret, go, container);
    if capacity < requiredSize || (requiredSize > 0 && out == null) {
      return BufferTooSmall, requiredSize;
    }
    var key := kdf(Text(password, passwordSize), container[..PASSWORD_SALT_SIZE]);
    if key.None? {
      return UnexpectedError, 0;
    }
    status := OpenChunks(p, key.value, container, out, requiredSize, go);
    size := if status == NoError then requiredSize else 0;
  }
}
