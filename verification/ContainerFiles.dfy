/** The container in files: src/CryptoApi.cpp, lines 144-167 (exact reads) and 951-1287. A file is read in pieces,
  and every call may give less than it is asked for, or fail.
*/
module ContainerFiles {
  import opened Bits
  import opened Container
  import opened Options
  import opened Sequences

  // ----- reading

  /** What the system allows: how many bytes call number i may give, at least one; None when the call fails. */
  type Supply = nat -> Option<nat>

  /** How many bytes a call gives that asks for n with `left` bytes to the end of the file. */
  function Delivered(supply: Supply, call: nat, n: nat, left: nat): (r: Option<nat>)
    ensures r.Some? ==> r.value <= n && r.value <= left && (r.value == 0 <==> n == 0 || left == 0)
  {
    match supply(call)
    case None => None
    case Some(most) => Some(Min(Min(n, if most == 0 then 1 else most), left))
  }

  /** How many calls it takes to get n bytes; None when a call fails or the file ends before. */
  function CallsFor(supply: Supply, call: nat, n: nat, left: nat): (r: Option<nat>)
    ensures r.Some? ==> n <= left
    decreases n
  {
    if n == 0 then Some(0)
    else match Delivered(supply, call, n, left)
      case None => None
      case Some(m) =>
        if m == 0 then None
        else match CallsFor(supply, call + 1, n - m, left - m)
          case None => None
          case Some(k) => Some(k + 1)
  }

  ghost predicate NeverFails(supply: Supply) {
    forall i :: supply(i).Some?
  }

  /** Without failing calls, n bytes are there to be read unless the file ends before. */
  lemma {:induction false} EnoughCalls(supply: Supply, call: nat, n: nat, left: nat)
    requires NeverFails(supply) && n <= left
    ensures CallsFor(supply, call, n, left).Some?
    decreases n
  {
    if n > 0 {
      var m := Delivered(supply, call, n, left).value;
      EnoughCalls(supply, call + 1, n - m, left - m);
    }
  }

  class FileHandle {
    const data: seq<byte>
    const supply: Supply
    var pos: nat
    var calls: nat

    constructor (data: seq<byte>, supply: Supply)
      ensures Valid() && this.data == data && this.supply == supply && pos == 0 && calls == 0
    {
      this.data, this.supply := data, supply;
      pos, calls := 0, 0;
    }

    ghost predicate Valid()
      reads this
    {
      pos <= |data|
    }

    ghost function Rest(): seq<byte>
      requires Valid()
      reads this
    {
      data[pos..]
    }

    method Read(n: nat) returns (ok: bool, bytes: seq<byte>)
      requires Valid()
      modifies this`pos, this`calls
      ensures Valid() && calls == old(calls) + 1
      ensures var r := Delivered(supply, old(calls), n, |old(Rest())|);
              ok == r.Some? && |bytes| == (if ok then r.value else 0) && old(Rest()) == bytes + Rest()
    {
      var given := Delivered(supply, calls, n, |data| - pos);
      ok, bytes := given.Some?, [];
      if ok {
        bytes := data[pos..pos + given.value];
        pos := pos + given.value;
      }
      calls := calls + 1;
    }

    /** Reads until n bytes are there. */
    method ReadExact(n: nat) returns (ok: bool, bytes: seq<byte>)
      requires Valid()
      modifies this`pos, this`calls
      ensures Valid() && old(Rest()) == bytes + Rest()
      ensures ok == CallsFor(supply, old(calls), n, |old(Rest())|).Some?
      ensures ok ==> |bytes| == n && calls == old(calls) + CallsFor(supply, old(calls), n, |old(Rest())|).value
    {
      bytes := [];
      ghost var whole, first := Rest(), calls;
      ghost var start := CallsFor(supply, calls, n, |whole|);
      while |bytes| < n
        invariant Valid() && whole == bytes + Rest() && |bytes| <= n && calls >= first
        invariant start == Later(CallsFor(supply, calls, n - |bytes|, |Rest()|), calls - first)
        decreases n - |bytes|
      {
        var more: seq<byte>;
        ok, more := ReadMore(n - |bytes|, n, bytes, whole, start, first);
        if !ok {
          return false, bytes + more;
        }
        bytes := bytes + more;
      }
      ok := true;
    }

    /** One pass of the loop. */
    method ReadMore(missing: nat, ghost n: nat, ghost bytes: seq<byte>, ghost whole: seq<byte>, ghost start: Option<nat>,
                    ghost first: nat)
      returns (ok: bool, more: seq<byte>)
      requires Valid() && whole == bytes + Rest() && missing == n - |bytes| > 0 && calls >= first
      requires start == Later(CallsFor(supply, calls, missing, |Rest()|), calls - first)
      modifies this`pos, this`calls
      ensures Valid() && whole == bytes + more + Rest() && |more| <= missing
      ensures ok ==> 0 < |more| && calls >= first
      ensures ok ==> start == Later(CallsFor(supply, calls, missing - |more|, |Rest()|), calls - first)
      ensures !ok ==> start.None?
    {
      hide CallsFor, Delivered;
      CallsStep(supply, calls, missing, |Rest()|);
      ok, more := Read(missing);
      Reassociate(bytes, more, Rest());
      ok := ok && more != [];
    }
  }

  function Later(r: Option<nat>, n: nat): Option<nat> {
    if r.Some? then Some(r.value + n) else None
  }

  lemma CallsStep(supply: Supply, call: nat, n: nat, left: nat)
    ensures CallsFor(supply, call, 0, left) == Some(0)
    ensures n > 0 ==>
              var r := Delivered(supply, call, n, left);
              && (r.Some? ==> r.value <= n && r.value <= left)
              && CallsFor(supply, call, n, left)
                 == if r.None? || r.value == 0 then None else Later(CallsFor(supply, call + 1, n - r.value, left - r.value), 1)
  {
    hide Delivered;
  }

  // ----- the writer

  /** The pieces that a writer reads, up to the end of the file or to a failing call, and whether it reaches the end. */
  function Pieces(supply: Supply, call: nat, s: seq<byte>): (r: (seq<seq<byte>>, bool))
    ensures Chunked(r.0)
    decreases |s|
  {
    match Delivered(supply, call, CHUNK_SIZE, |s|)
    case None => ([], false)
    case Some(m) =>
      if m == 0 then ([], true)
      else
        var (pieces, whole) := Pieces(supply, call + 1, s[m..]);
        ([s[..m]] + pieces, whole)
  }

  lemma {:induction false} PiecesCover(supply: Supply, call: nat, s: seq<byte>)
    ensures Pieces(supply, call, s).1 ==> Concat(Pieces(supply, call, s).0) == s
    decreases |s|
  {
    hide *;
    PiecesStep(supply, call, s);
    var r := Delivered(supply, call, CHUNK_SIZE, |s|);
    if r.Some? && r.value > 0 {
      PiecesCover(supply, call + 1, s[r.value..]);
      ConcatFront(s[..r.value], Pieces(supply, call + 1, s[r.value..]).0);
    }
  }

  lemma PiecesStep(supply: Supply, call: nat, s: seq<byte>)
    ensures var r := Delivered(supply, call, CHUNK_SIZE, |s|);
            && (r.None? ==> !Pieces(supply, call, s).1)
            && (r == Some(0) ==> s == [] && Concat(Pieces(supply, call, s).0) == [])
            && (r.Some? && r.value > 0 ==>
                  && Pieces(supply, call, s).0 == [s[..r.value]] + Pieces(supply, call + 1, s[r.value..]).0
                  && Pieces(supply, call, s).1 == Pieces(supply, call + 1, s[r.value..]).1)
  {
    hide Delivered;
  }

  /** What a writer returns that has its key: the first piece that cannot be sealed or is not let pass decides,
    a failing call after them is an error of the file. */
  function SealFileStatus(p: Aead, key: seq<byte>, draw: (nat, nat) -> Option<seq<byte>>, first: nat, go: Progress,
                          supply: Supply, call: nat, data: seq<byte>): Status {
    var (pieces, whole) := Pieces(supply, call, data);
    var sealed := SealAll(p, key, draw, first, go, pieces, 0, |data|);
    if sealed == NoError && !whole then FileIoError else sealed
  }

  function EncryptFileStatus(p: Aead, kdf: Kdf, password: seq<byte>, draw: (nat, nat) -> Option<seq<byte>>, first: nat,
                             go: Progress, supply: Supply, call: nat, data: seq<byte>): Status {
    match draw(first, PASSWORD_SALT_SIZE)
    case None => UnexpectedError
    case Some(salt) =>
      match kdf(password, salt)
      case None => UnexpectedError
      case Some(key) => SealFileStatus(p, key, draw, first + 1, go, supply, call, data)
  }

  /** The providers do not fail on the pieces. */
  ghost predicate CanSealPieces(p: Aead, kdf: Kdf, password: seq<byte>, draw: (nat, nat) -> Option<seq<byte>>, first: nat,
                                pieces: seq<seq<byte>>)
    requires Chunked(pieces)
  {
    && draw(first, PASSWORD_SALT_SIZE).Some?
    && kdf(password, draw(first, PASSWORD_SALT_SIZE).value).Some?
    && var key := kdf(password, draw(first, PASSWORD_SALT_SIZE).value).value;
       pieces != [] ==> p.acceptsKey(key) && Sealed(p, key, draw, first + 1, pieces).Some?
  }

  /** Writing succeeds exactly when the file is read to its end, the providers do not fail on the pieces read, and
    the callback lets every piece pass. */
  lemma EncryptFileSucceeds(p: Aead, kdf: Kdf, password: seq<byte>, draw: (nat, nat) -> Option<seq<byte>>, first: nat,
                            go: Progress, supply: Supply, call: nat, data: seq<byte>)
    ensures var (pieces, whole) := Pieces(supply, call, data);
            (EncryptFileStatus(p, kdf, password, draw, first, go, supply, call, data) == NoError)
              == (whole && CanSealPieces(p, kdf, password, draw, first, pieces) && Granted(go, pieces, 0, |data|))
  {
    hide Sealed, SealAll, Granted, Pieces;
    if draw(first, PASSWORD_SALT_SIZE).Some? && kdf(password, draw(first, PASSWORD_SALT_SIZE).value).Some? {
      SealAllSucceeds(p, kdf(password, draw(first, PASSWORD_SALT_SIZE).value).value, draw, first + 1, go, Pieces(supply, call, data).0, 0, |data|);
    }
  }

  /** The other statuses: without salt or key UNEXPECTED_ERROR, as for a piece that cannot be sealed; INVALID_ARGUMENT for
    a refused key; OPERATION_CANCELLED when only the callback objects, FILE_IO_ERROR when only a read fails. */
  lemma EncryptFileFails(p: Aead, kdf: Kdf, password: seq<byte>, draw: (nat, nat) -> Option<seq<byte>>, first: nat,
                         go: Progress, supply: Supply, call: nat, data: seq<byte>)
    ensures var status := EncryptFileStatus(p, kdf, password, draw, first, go, supply, call, data);
            && (draw(first, 16).None? ==> status == UnexpectedError)
            && (draw(first, 16).Some? ==>
                  match kdf(password, draw(first, 16).value)
                  case None => status == UnexpectedError
                  case Some(key) =>
                    var (pieces, whole) := Pieces(supply, call, data);
                    var sealed, granted := Sealed(p, key, draw, first + 1, pieces), Granted(go, pieces, 0, |data|);
                    && (pieces != [] && !p.acceptsKey(key) ==> status == InvalidArgument)
                    && (p.acceptsKey(key) && sealed.None? && granted ==> status == UnexpectedError)
                    && (p.acceptsKey(key) && sealed.Some? && !granted ==> status == OperationCancelled)
                    && (p.acceptsKey(key) && sealed.Some? && granted && !whole ==> status == FileIoError)
                    && (pieces == [] && !whole ==> status == FileIoError))
  {
    hide Sealed, SealAll, Granted, Pieces;
    if draw(first, 16).Some? && kdf(password, draw(first, 16).value).Some? {
      var key, pieces := kdf(password, draw(first, 16).value).value, Pieces(supply, call, data).0;
      SealAllFails(p, key, draw, first + 1, go, pieces, 0, |data|);
      SealAllSucceeds(p, key, draw, first + 1, go, pieces, 0, |data|);
      SealingNothing(p, key, draw, first + 1, go, |data|);
    }
  }

  lemma SealingNothing(p: Aead, key: seq<byte>, draw: (nat, nat) -> Option<seq<byte>>, first: nat, go: Progress, total: nat)
    ensures SealAll(p, key, draw, first, go, [], 0, total) == NoError
  {
  }

  /** A cipher that works on keys, nonces and chunks of the sizes it announces. */
  ghost predicate Reliable(p: Aead, draw: (nat, nat) -> Option<seq<byte>>) {
    && (forall i, n :: draw(i, n).Some? && |draw(i, n).value| == n)
    && (forall key :: |key| == p.keySize ==> p.acceptsKey(key))
    && (forall key, nonce, chunk :: |key| == p.keySize && |nonce| == p.nonceSize && |chunk| <= CHUNK_SIZE ==> p.encrypt(key, nonce, chunk).Some?)
  }

  lemma {:induction false} ReliableSeals(p: Aead, draw: (nat, nat) -> Option<seq<byte>>, key: seq<byte>, first: nat,
                                         go: Progress, chunks: seq<seq<byte>>, done: nat, total: nat)
    requires Reliable(p, draw) && |key| == p.keySize && Chunked(chunks) && Granted(go, chunks, done, total)
    ensures SealAll(p, key, draw, first, go, chunks, done, total) == NoError
    decreases |chunks|
  {
    if chunks != [] {
      assert draw(first, p.nonceSize).Some?;
      ReliableSeals(p, draw, key, first + 1, go, chunks[1..], done + |chunks[0]|, total);
    }
  }

  lemma {:induction false} ReadToEnd(supply: Supply, call: nat, s: seq<byte>)
    requires NeverFails(supply)
    ensures Pieces(supply, call, s).1
    decreases |s|
  {
    var m := Delivered(supply, call, CHUNK_SIZE, |s|).value;
    if m > 0 {
      ReadToEnd(supply, call + 1, s[m..]);
    }
  }

  /** With such a cipher, a random source and a key derivation that do not fail, every file is encrypted whose reads
    do not fail, in whatever pieces it is read. */
  lemma ReliableEncrypts(p: Aead, kdf: Kdf, password: seq<byte>, draw: (nat, nat) -> Option<seq<byte>>, first: nat,
                         go: Progress, supply: Supply, call: nat, data: seq<byte>)
    requires Derives(kdf, p) && Reliable(p, draw) && NeverFails(supply) && kdf(password, draw(first, PASSWORD_SALT_SIZE).value).Some?
    requires Granted(go, Pieces(supply, call, data).0, 0, |data|)
    ensures EncryptFileStatus(p, kdf, password, draw, first, go, supply, call, data) == NoError
  {
    hide Pieces, SealAll, Granted;
    ReadToEnd(supply, call, data);
    ReliableSeals(p, draw, kdf(password, draw(first, PASSWORD_SALT_SIZE).value).value, first + 1, go, Pieces(supply, call, data).0, 0, |data|);
  }

  /** In the writer's loop: the output holds the salt and the records of the pieces read. */
  ghost predicate WritingFile(p: Aead, key: seq<byte>, draw: (nat, nat) -> Option<seq<byte>>, first: nat, salt: seq<byte>,
                              pieces: seq<seq<byte>>, output: seq<byte>) {
    && Chunked(pieces) && (pieces != [] ==> p.acceptsKey(key))
    && Join(Some(salt), Sealed(p, key, draw, first, pieces)) == Some(output)
  }

  lemma WritingFileStep(p: Aead, key: seq<byte>, draw: (nat, nat) -> Option<seq<byte>>, first: nat, salt: seq<byte>,
                        pieces: seq<seq<byte>>, output: seq<byte>, piece: seq<byte>, message: seq<byte>)
    requires WritingFile(p, key, draw, first, salt, pieces, output) && 0 < |piece| <= CHUNK_SIZE
    requires SealMessage(p, key, draw(first + |pieces|, p.nonceSize), piece) == Some(message)
    ensures WritingFile(p, key, draw, first, salt, pieces + [piece], output + Le32(|piece|) + message)
  {
    SealedKey(p, key, draw(first + |pieces|, p.nonceSize), piece);
    assert (pieces + [piece])[..|pieces|] == pieces;
    SealedLast(p, key, draw, first, pieces + [piece], |pieces|);
    hide Sealed, SealMessage;
    JoinAssociative(Some(salt), Sealed(p, key, draw, first, pieces), Some(Le32(|piece|) + message));
    Reassociate(output, Le32(|piece|), message);
  }

  /** The file that is written opens to what was read. */
  lemma WritingFileDone(p: Aead, kdf: Kdf, password: seq<byte>, key: seq<byte>, draw: (nat, nat) -> Option<seq<byte>>,
                        first: nat,
                        salt: seq<byte>, pieces: seq<seq<byte>>, output: seq<byte>)
    requires WritingFile(p, key, draw, first, salt, pieces, output)
    requires p.Conforms() && Draws(draw) && |salt| == PASSWORD_SALT_SIZE && kdf(password, salt) == Some(key)
    ensures Open(p, kdf, password, output) == Some(Concat(pieces))
  {
    assert output[..PASSWORD_SALT_SIZE] == salt;
    assert Some(output[PASSWORD_SALT_SIZE..]) == Sealed(p, key, draw, first, pieces);
    if pieces != [] {
      SealedOpens(p, key, draw, first, pieces);
    }
  }

  /** What is left to do with some pieces sealed: the pieces of the rest of the file. */
  ghost predicate ReadingFile(p: Aead, key: seq<byte>, draw: (nat, nat) -> Option<seq<byte>>, first: nat, go: Progress,
                              supply: Supply, start: nat, data: seq<byte>,
                              pieces: seq<seq<byte>>, call: nat, rest: seq<byte>, done: nat) {
    var (all, whole) := Pieces(supply, start, data);
    var (others, end) := Pieces(supply, call, rest);
    && all == pieces + others && whole == end
    && SealAll(p, key, draw, first, go, all, 0, |data|) == SealAll(p, key, draw, first + |pieces|, go, others, done, |data|)
  }

  lemma ReadingFileStep(p: Aead, key: seq<byte>, draw: (nat, nat) -> Option<seq<byte>>, first: nat, go: Progress,
                        supply: Supply, start: nat, data: seq<byte>,
                        pieces: seq<seq<byte>>, call: nat, rest: seq<byte>, done: nat, piece: seq<byte>, next: seq<byte>)
    requires ReadingFile(p, key, draw, first, go, supply, start, data, pieces, call, rest, done)
    requires Delivered(supply, call, CHUNK_SIZE, |rest|) == Some(|piece|) && piece != [] && rest == piece + next
    ensures var message := SealMessage(p, key, draw(first + |pieces|, p.nonceSize), piece);
            && (message.None? ==> SealFileStatus(p, key, draw, first, go, supply, start, data) == SealStatus(p, key, None))
            && (message.Some? && !go(done + |piece|, |data|) ==> SealFileStatus(p, key, draw, first, go, supply, start, data) == OperationCancelled)
            && (message.Some? && go(done + |piece|, |data|) ==>
                  ReadingFile(p, key, draw, first, go, supply, start, data, pieces + [piece], call + 1, next, done + |piece|))
  {
    assert rest[..|piece|] == piece && rest[|piece|..] == next;
    var others := Pieces(supply, call + 1, next).0;
    assert Pieces(supply, call, rest).0 == [piece] + others;
    assert ([piece] + others)[1..] == others;
    Reassociate(pieces, [piece], others);
    hide SealMessage, Pieces;
  }

  /** Encrypts one piece of the file. */
  method SealPiece(p: Aead, random: RandomSource, key: seq<byte>, piece: seq<byte>,
                   buffer: array<byte>) returns (status: Status, size: nat)
    requires p.Conforms() && random.Valid() && key != [] && |piece| <= CHUNK_SIZE && buffer.Length == CHUNK_SIZE + p.nonceSize + p.tagSize
    modifies random`calls, buffer
    ensures status == SealStatus(p, key, SealMessage(p, key, random.draw(old(random.calls), p.nonceSize), piece))
    ensures status == NoError ==>
              && size <= buffer.Length && random.calls == old(random.calls) + 1
              && SealMessage(p, key, random.draw(old(random.calls), p.nonceSize), piece) == Some(buffer[0..size])
  {
    hide SealMessage;
    status, size := EncryptWithKey(p, random, key, piece, buffer.Length, buffer, 0);
  }

  /** The state of the writer's loop: records written, pieces read, and what is left to do. */
  ghost predicate SealingFile(p: Aead, key: seq<byte>, random: RandomSource, first: nat, salt: seq<byte>, go: Progress,
                              file: FileHandle, start: nat,
                              pieces: seq<seq<byte>>, output: seq<byte>, done: nat)
    reads random, file
  {
    && file.Valid() && random.calls == first + |pieces|
    && WritingFile(p, key, random.draw, first, salt, pieces, output)
    && ReadingFile(p, key, random.draw, first, go, file.supply, start, file.data, pieces, file.calls, file.Rest(), done)
  }

  /** Writes the record of one piece. */
  method WritePiece(p: Aead, random: RandomSource, key: seq<byte>, piece: seq<byte>, output: seq<byte>, buffer: array<byte>,
                    ghost salt: seq<byte>, ghost first: nat, ghost pieces: seq<seq<byte>>)
    returns (status: Status, longer: seq<byte>)
    requires p.Conforms() && random.Valid() && key != [] && 0 < |piece| <= CHUNK_SIZE && buffer.Length == CHUNK_SIZE + p.nonceSize + p.tagSize
    requires random.calls == first + |pieces| && WritingFile(p, key, random.draw, first, salt, pieces, output)
    modifies random`calls, buffer
    ensures var message := SealMessage(p, key, random.draw(first + |pieces|, p.nonceSize), piece);
            (status == NoError <==> message.Some?) && (message.None? ==> status == SealStatus(p, key, None))
    ensures status == NoError ==> random.calls == first + |pieces + [piece]| && WritingFile(p, key, random.draw, first, salt, pieces + [piece], longer)
  {
    hide WritingFile, SealMessage;
    longer := output;
    var size: nat;
    status, size := SealPiece(p, random, key, piece, buffer);
    if status == NoError {
      WritingFileStep(p, key, random.draw, first, salt, pieces, output, piece, buffer[0..size]);
      longer := output + Le32(|piece|) + buffer[0..size];
    }
  }

  /** One pass of the writer's loop: it ends with the file, or with the status of the whole run. */
  method SealNextPiece(p: Aead, random: RandomSource, key: seq<byte>, file: FileHandle, go: Progress, done: nat,
                       output: seq<byte>, buffer: array<byte>,
                       ghost salt: seq<byte>, ghost first: nat, ghost start: nat, ghost pieces: seq<seq<byte>>)
    returns (status: Status, end: bool, longer: seq<byte>, processedBytes: nat, ghost more: seq<seq<byte>>)
    requires p.Conforms() && random.Valid() && key != [] && buffer.Length == CHUNK_SIZE + p.nonceSize + p.tagSize
    requires file.Valid() && SealingFile(p, key, random, first, salt, go, file, start, pieces, output, done)
    modifies random`calls, file`pos, file`calls, buffer
    ensures file.Valid() && |file.Rest()| <= |old(file.Rest())|
    ensures status != NoError || end ==> status == SealFileStatus(p, key, random.draw, first, go, file.supply, start, file.data)
    ensures status == NoError && end ==> WritingFile(p, key, random.draw, first, salt, Pieces(file.supply, start, file.data).0, longer)
    ensures status == NoError && !end ==>
              |file.Rest()| < |old(file.Rest())| && SealingFile(p, key, random, first, salt, go, file, start, more, longer, processedBytes)
  {
    hide WritingFile, ReadingFile, SealFileStatus, SealMessage, Pieces, Delivered, SealStatus;
    end, longer, more := false, output, pieces;
    ghost var call, rest := file.calls, file.Rest();
    SealFileEnds(p, key, random.draw, first, go, file.supply, start, file.data, pieces, call, rest, done);
    var ok, piece := file.Read(CHUNK_SIZE);
    processedBytes := done + |piece|;
    if !ok {
      return FileIoError, end, longer, processedBytes, more;
    }
    if piece == [] {
      return NoError, true, longer, processedBytes, more;
    }
    ReadingFileStep(p, key, random.draw, first, go, file.supply, start, file.data, pieces, call, rest, done, piece, file.Rest());
    status, longer := WritePiece(p, random, key, piece, output, buffer, salt, first, pieces);
    more := pieces + [piece];
    if status == NoError && !go(processedBytes, |file.data|) {
      status := OperationCancelled;
    }
  }

  /** Encrypts all that is read from the file behind the salt. */
  method SealFile(p: Aead, random: RandomSource, key: seq<byte>, salt: seq<byte>, file: FileHandle, go: Progress)
    returns (status: Status, output: seq<byte>)
    requires p.Conforms() && random.Valid() && key != [] && file.Valid() && file.pos == 0
    modifies random`calls, file`pos, file`calls
    ensures status == SealFileStatus(p, key, random.draw, old(random.calls), go, file.supply, old(file.calls), file.data)
    ensures status == NoError ==> WritingFile(p, key, random.draw, old(random.calls), salt, Pieces(file.supply, old(file.calls), file.data).0, output)
  {
    ghost var first, start := random.calls, file.calls;
    ghost var pieces := SealFileStarts(p, key, random, first, salt, go, file, start);
    hide *;
    output := salt;
    var encryptedChunk := new byte[CHUNK_SIZE + p.nonceSize + p.tagSize];
    var processedBytes: nat, end := 0, false;
    while true
      invariant file.Valid() && SealingFile(p, key, random, first, salt, go, file, start, pieces, output, processedBytes)
      decreases |file.Rest()|
    {
      status, end, output, processedBytes, pieces := SealNextPiece(p, random, key, file, go, processedBytes, output, encryptedChunk, salt, first, start, pieces);
      if status != NoError || end {
        return;
      }
    }
  }

  lemma SealFileStarts(p: Aead, key: seq<byte>, random: RandomSource, first: nat, salt: seq<byte>, go: Progress,
                       file: FileHandle, start: nat)
    returns (pieces: seq<seq<byte>>)
    requires file.Valid() && file.pos == 0 && file.calls == start && random.calls == first
    ensures SealingFile(p, key, random, first, salt, go, file, start, pieces, salt, 0)
  {
    pieces := [];
    JoinEmpty(Some(salt));
    assert WritingFile(p, key, random.draw, first, salt, pieces, salt);
    hide Pieces, WritingFile, SealAll;
    assert [] + Pieces(file.supply, start, file.data).0 == Pieces(file.supply, start, file.data).0;
    assert file.Rest() == file.data;
  }

  /** A failing call, or the end of the file. */
  lemma SealFileEnds(p: Aead, key: seq<byte>, draw: (nat, nat) -> Option<seq<byte>>, first: nat, go: Progress,
                     supply: Supply, start: nat, data: seq<byte>,
                     pieces: seq<seq<byte>>, call: nat, rest: seq<byte>, done: nat)
    requires ReadingFile(p, key, draw, first, go, supply, start, data, pieces, call, rest, done)
    ensures var r := Delivered(supply, call, CHUNK_SIZE, |rest|);
            && (r.None? ==> SealFileStatus(p, key, draw, first, go, supply, start, data) == FileIoError)
            && (r == Some(0) ==> SealFileStatus(p, key, draw, first, go, supply, start, data) == NoError && Pieces(supply, start, data).0 == pieces)
  {
    var r := Delivered(supply, call, CHUNK_SIZE, |rest|);
    if r.None? || r == Some(0) {
      assert Pieces(supply, call, rest).0 == [] && pieces + [] == pieces;
    }
    hide Pieces;
  }

  /** The password of the file operations: not null, not empty, and of a size that fits an int. */
  predicate GoodPassword(password: Option<seq<byte>>) {
    password.Some? && 0 < |password.value| <= INT_MAX
  }

  /** Encrypts a file, whatever the sizes of the pieces in which it is read. */
  method EncryptFile(p: Aead, kdf: Kdf, random: RandomSource, password: Option<seq<byte>>, file: FileHandle, go: Progress)
    returns (status: Status, output: seq<byte>)
    requires p.Conforms() && Derives(kdf, p) && random.Valid() && file.Valid() && file.pos == 0
    modifies random`calls, file`pos, file`calls
    ensures password.None? || |password.value| == 0 || |password.value| > 0x7fff_ffff ==> status == InvalidArgument
    ensures GoodPassword(password) ==>
              status == EncryptFileStatus(p, kdf, password.value, random.draw, old(random.calls), go, file.supply, old(file.calls), file.data)
    ensures GoodPassword(password) && random.draw(old(random.calls), 16).None? ==> status == UnexpectedError
    ensures GoodPassword(password) && random.draw(old(random.calls), 16).Some? ==>
              match kdf(password.value, random.draw(old(random.calls), 16).value)
              case None => status == UnexpectedError
              case Some(key) =>
                var (pieces, whole) := Pieces(file.supply, old(file.calls), file.data);
                var sealed, granted := Sealed(p, key, random.draw, old(random.calls) + 1, pieces), Granted(go, pieces, 0, |file.data|);
                && (pieces != [] && !p.acceptsKey(key) ==> status == InvalidArgument)
                && (p.acceptsKey(key) && sealed.None? && granted ==> status == UnexpectedError)
                && (p.acceptsKey(key) && sealed.Some? && !granted ==> status == OperationCancelled)
                && (p.acceptsKey(key) && sealed.Some? && granted && !whole ==> status == FileIoError)
    ensures var (pieces, whole) := Pieces(file.supply, old(file.calls), file.data);
            status == NoError <==>
              && GoodPassword(password) && whole && CanSealPieces(p, kdf, password.value, random.draw, old(random.calls), pieces) && Granted(go, pieces, 0, |file.data|)
    ensures status == NoError ==>
              && Open(p, kdf, password.value, output) == Some(file.data)
              && IsContainer(p, kdf, password.value, random.draw, old(random.calls), Pieces(file.supply, old(file.calls), file.data).0, output)
  {
    output := [];
    if password.None? || |password.value| == 0 || |password.value| > INT_MAX {
      return InvalidArgument, output;
    }
    EncryptFileSucceeds(p, kdf, password.value, random.draw, random.calls, go, file.supply, file.calls, file.data);
    EncryptFileFails(p, kdf, password.value, random.draw, random.calls, go, file.supply, file.calls, file.data);
    hide *;
    status, output := SealWith(p, kdf, random, password.value, file, go);
  }

  /** Draws the salt, derives the key and seals the file behind the salt. */
  method SealWith(p: Aead, kdf: Kdf, random: RandomSource, password: seq<byte>, file: FileHandle, go: Progress)
    returns (status: Status, output: seq<byte>)
    requires p.Conforms() && Derives(kdf, p) && random.Valid() && file.Valid() && file.pos == 0
    modifies random`calls, file`pos, file`calls
    ensures status == EncryptFileStatus(p, kdf, password, random.draw, old(random.calls), go, file.supply, old(file.calls), file.data)
    ensures status == NoError ==>
              && Open(p, kdf, password, output) == Some(file.data)
              && IsContainer(p, kdf, password, random.draw, old(random.calls), Pieces(file.supply, old(file.calls), file.data).0, output)
  {
    output := [];
    hide Pieces, Granted, CanSealPieces, OpenRecords, Sealed, SealAll;
    var salt := random.Generate(PASSWORD_SALT_SIZE);
    if salt.None? {
      return UnexpectedError, output;
    }
    var key := kdf(password, salt.value);
    if key.None? {
      return UnexpectedError, output;
    }
    ghost var first, pieces := random.calls, Pieces(file.supply, file.calls, file.data).0;
    status, output := SealFile(p, random, key.value, salt.value, file, go);
    if status == NoError {
      PiecesCover(file.supply, old(file.calls), file.data);
      WritingFileDone(p, kdf, password, key.value, random.draw, first, salt.value, pieces, output);
    }
  }

  // ----- the reader

  /** The reads of the records arrive: no call fails, and every call for a length prefix may give four bytes. It
    depends on the data only through the sizes of the records. */
  ghost predicate Arrives(p: Aead, supply: Supply, call: nat, s: seq<byte>)
    decreases |s|
  {
    if s == [] then supply(call).Some?
    else match FirstRecord(p, s)
      case None => supply(call).Some?
      case Some(n) =>
        var body := CallsFor(supply, call + 1, n + p.Overhead(), |s| - 4);
        && supply(call).Some? && supply(call).value >= 4 && body.Some?
        && Arrives(p, supply, call + 1 + body.value, s[4 + n + p.Overhead()..])
  }

  /** What a reader returns that has its key, for any reads. */
  function OpenFileStatus(p: Aead, key: seq<byte>, go: Progress, supply: Supply, call: nat, s: seq<byte>, done: nat,
                          total: nat): Status
    decreases |s|
  {
    if supply(call).None? then FileIoError
    else if s == [] then NoError
    else if supply(call).value < 4 || FirstRecord(p, s).None? then InvalidData
    else
      var n := FirstRecord(p, s).value;
      var end := 4 + n + p.Overhead();
      match CallsFor(supply, call + 1, n + p.Overhead(), |s| - 4)
      case None => InvalidData
      case Some(k) =>
        if OpenChunk(p, key, s[4..end]).None? then OpenStatus(p, key, None)
        else if !go(done + end, total) then OperationCancelled
        else OpenFileStatus(p, key, go, supply, call + 1 + k, s[end..], done + end, total)
  }

  /** Reading succeeds exactly when the records open, their reads arrive, and the callback lets every one pass. */
  lemma {:induction false} OpenFileSucceeds(p: Aead, key: seq<byte>, go: Progress, supply: Supply, call: nat,
                                            s: seq<byte>, done: nat, total: nat)
    ensures OpenFileStatus(p, key, go, supply, call, s, done, total) == NoError
       <==> OpenRecords(p, key, s).Some? && Arrives(p, supply, call, s) && Allowed(p, go, s, done, total)
    decreases |s|
  {
    hide OpenChunk, FirstRecord, CallsFor;
    if s != [] && FirstRecord(p, s).Some? {
      var n := FirstRecord(p, s).value;
      var body := CallsFor(supply, call + 1, n + p.Overhead(), |s| - 4);
      if body.Some? {
        var end := 4 + n + p.Overhead();
        OpenFileSucceeds(p, key, go, supply, call + 1 + body.value, s[end..], done + end, total);
      }
    }
  }

  /** The other statuses when the reads arrive: INVALID_ARGUMENT for a refused key, INVALID_DATA when a record does not
    open, OPERATION_CANCELLED when only the callback objects. */
  lemma {:induction false} OpenFileFails(p: Aead, key: seq<byte>, go: Progress, supply: Supply, call: nat, s: seq<byte>,
                                         done: nat, total: nat)
    requires Arrives(p, supply, call, s)
    ensures var status := OpenFileStatus(p, key, go, supply, call, s, done, total);
            && (p.acceptsKey(key) ==> status in {NoError, InvalidData, OperationCancelled})
            && (p.acceptsKey(key) && OpenRecords(p, key, s).None? && Allowed(p, go, s, done, total) ==> status == InvalidData)
            && (p.acceptsKey(key) && OpenRecords(p, key, s).Some? && !Allowed(p, go, s, done, total) ==> status == OperationCancelled)
            && (s != [] && FirstRecord(p, s).Some? && !p.acceptsKey(key) ==> status == InvalidArgument)
            && (s != [] && FirstRecord(p, s).None? ==> status == InvalidData)
    decreases |s|
  {
    hide *;
    if s != [] && FirstRecord(p, s).Some? {
      var n := FirstRecord(p, s).value;
      var body := CallsFor(supply, call + 1, n + p.Overhead(), |s| - 4);
      var end := 4 + n + p.Overhead();
      ArrivesStep(p, go, supply, call, s, done, total, n);
      OpenFileStep(p, key, go, supply, call, s, done, total, n);
      OpenStep(p, key, s, n, s[4..end], s[end..]);
      JoinCases(OpenChunk(p, key, s[4..end]), OpenRecords(p, key, s[end..]));
      OpenFileFails(p, key, go, supply, call + 1 + body.value, s[end..], done + end, total);
    } else {
      NoRecordArrives(p, key, go, supply, call, s, done, total);
    }
  }

  lemma ArrivesStep(p: Aead, go: Progress, supply: Supply, call: nat, s: seq<byte>, done: nat, total: nat, n: nat)
    requires FirstRecord(p, s) == Some(n) && Arrives(p, supply, call, s)
    ensures var end, body := 4 + n + p.Overhead(), CallsFor(supply, call + 1, n + p.Overhead(), |s| - 4);
            && supply(call).Some? && supply(call).value >= 4 && body.Some?
            && Arrives(p, supply, call + 1 + body.value, s[end..])
            && (Allowed(p, go, s, done, total) <==> go(done + end, total) && Allowed(p, go, s[end..], done + end, total))
  {
    hide FirstRecord, CallsFor;
  }

  lemma NoRecordArrives(p: Aead, key: seq<byte>, go: Progress, supply: Supply, call: nat, s: seq<byte>, done: nat, total: nat)
    requires Arrives(p, supply, call, s) && (s == [] || FirstRecord(p, s).None?)
    ensures Allowed(p, go, s, done, total) && (OpenRecords(p, key, s).Some? <==> s == [])
    ensures OpenFileStatus(p, key, go, supply, call, s, done, total) == if s == [] then NoError else InvalidData
  {
    hide FirstRecord;
  }

  /** One record in front of others, for any reads: what decides the status, and what the callback is asked. */
  lemma FileRecordDecides(p: Aead, key: seq<byte>, go: Progress, supply: Supply, call: nat, n: nat, nonce: seq<byte>,
                          ciphertext: seq<byte>, tag: seq<byte>, rest: seq<byte>, done: nat, total: nat)
    requires n == |ciphertext| <= 1024 && |nonce| == p.nonceSize && |tag| == p.tagSize
    ensures var size := p.nonceSize + n + p.tagSize;
            var body, next := CallsFor(supply, call + 1, size, size + |rest|), done + (4 + size);
            OpenFileStatus(p, key, go, supply, call, [n % 0x100, n / 0x100, 0, 0] + (nonce + ciphertext + tag) + rest, done, total)
            == (if supply(call).None? then FileIoError
                else if supply(call).value < 4 || body.None? then InvalidData
                else if !p.acceptsKey(key) then InvalidArgument
                else if p.decrypt(key, nonce, ciphertext, tag).None? then InvalidData
                else if !go(next, total) then OperationCancelled
                else OpenFileStatus(p, key, go, supply, call + 1 + body.value, rest, next, total))
  {
    hide *;
    RecordOpens(p, key, n, nonce, ciphertext, tag, rest);
    OverheadIs(p);
    OpenFileStep(p, key, go, supply, call, [n % 0x100, n / 0x100, 0, 0] + (nonce + ciphertext + tag) + rest, done, total, n);
  }

  lemma OverheadIs(p: Aead)
    ensures p.Overhead() == p.nonceSize + p.tagSize
  {
  }

  lemma OpenFileStep(p: Aead, key: seq<byte>, go: Progress, supply: Supply, call: nat, s: seq<byte>, done: nat, total: nat, n: nat)
    requires FirstRecord(p, s) == Some(n)
    ensures var end := 4 + n + p.Overhead();
            var body, chunk := CallsFor(supply, call + 1, n + p.Overhead(), |s| - 4), OpenChunk(p, key, s[4..end]);
            && (!p.acceptsKey(key) ==> chunk.None?)
            && OpenFileStatus(p, key, go, supply, call, s, done, total)
               == (if supply(call).None? then FileIoError
                   else if supply(call).value < 4 || body.None? then InvalidData
                   else if chunk.None? then (if p.acceptsKey(key) then InvalidData else InvalidArgument)
                   else if !go(done + end, total) then OperationCancelled
                   else OpenFileStatus(p, key, go, supply, call + 1 + body.value, s[end..], done + end, total))
  {
    hide FirstRecord, CallsFor;
  }

  function DecryptFileStatus(p: Aead, kdf: Kdf, password: seq<byte>, go: Progress, supply: Supply, call: nat,
                             data: seq<byte>): Status {
    match CallsFor(supply, call, PASSWORD_SALT_SIZE, |data|)
    case None => InvalidData
    case Some(k) =>
      match kdf(password, data[..PASSWORD_SALT_SIZE])
      case None => UnexpectedError
      case Some(key) => OpenFileStatus(p, key, go, supply, call + k, data[PASSWORD_SALT_SIZE..], PASSWORD_SALT_SIZE, |data|)
  }

  ghost predicate FileArrives(p: Aead, supply: Supply, call: nat, data: seq<byte>) {
    var salt := CallsFor(supply, call, PASSWORD_SALT_SIZE, |data|);
    salt.Some? && Arrives(p, supply, call + salt.value, data[PASSWORD_SALT_SIZE..])
  }

  lemma DecryptFileSucceeds(p: Aead, kdf: Kdf, password: seq<byte>, go: Progress, supply: Supply, call: nat, data: seq<byte>)
    ensures DecryptFileStatus(p, kdf, password, go, supply, call, data) == NoError
       <==> Open(p, kdf, password, data).Some? && FileArrives(p, supply, call, data) && Allowed(p, go, data[PASSWORD_SALT_SIZE..], PASSWORD_SALT_SIZE, |data|)
  {
    hide OpenRecords, OpenFileStatus, Arrives, Allowed, CallsFor;
    var salt := CallsFor(supply, call, PASSWORD_SALT_SIZE, |data|);
    if salt.Some? && kdf(password, data[..PASSWORD_SALT_SIZE]).Some? {
      var key := kdf(password, data[..PASSWORD_SALT_SIZE]).value;
      OpenFileSucceeds(p, key, go, supply, call + salt.value, data[PASSWORD_SALT_SIZE..], PASSWORD_SALT_SIZE, |data|);
    }
  }

  lemma DecryptFileFails(p: Aead, kdf: Kdf, password: seq<byte>, go: Progress, supply: Supply, call: nat, data: seq<byte>)
    ensures CallsFor(supply, call, 16, |data|).None? ==> DecryptFileStatus(p, kdf, password, go, supply, call, data) == InvalidData
    ensures FileArrives(p, supply, call, data) ==>
              var status := DecryptFileStatus(p, kdf, password, go, supply, call, data);
              match kdf(password, data[..16])
              case None => status == UnexpectedError
              case Some(key) =>
                var plain, allowed := Open(p, kdf, password, data), Allowed(p, go, data[16..], 16, |data|);
                && (p.acceptsKey(key) && plain.None? && allowed ==> status == InvalidData)
                && (p.acceptsKey(key) && plain.Some? && !allowed ==> status == OperationCancelled)
                && (FirstRecord(p, data[16..]).Some? && !p.acceptsKey(key) ==> status == InvalidArgument)
  {
    hide OpenRecords, OpenFileStatus, Arrives, Allowed, CallsFor;
    if FileArrives(p, supply, call, data) && kdf(password, data[..16]).Some? {
      var key, salt := kdf(password, data[..16]).value, CallsFor(supply, call, 16, |data|);
      OpenFileFails(p, key, go, supply, call + salt.value, data[16..], 16, |data|);
    }
  }

  /** Calls that may give four bytes and never fail are enough. */
  lemma {:induction false} FourBytesArrive(p: Aead, supply: Supply, call: nat, s: seq<byte>)
    requires forall i :: supply(i).Some? && supply(i).value >= 4
    ensures Arrives(p, supply, call, s)
    decreases |s|
  {
    hide FirstRecord, CallsFor;
    if s != [] && FirstRecord(p, s).Some? {
      var n := FirstRecord(p, s).value;
      EnoughCalls(supply, call + 1, n + p.Overhead(), |s| - 4);
      FourBytesArrive(p, supply, call + 1 + CallsFor(supply, call + 1, n + p.Overhead(), |s| - 4).value, s[4 + n + p.Overhead()..]);
    }
  }

  /** Then every container that opens is decrypted, when the callback never objects. */
  lemma FourBytesDecrypt(p: Aead, kdf: Kdf, password: seq<byte>, go: Progress, supply: Supply, call: nat, data: seq<byte>)
    requires Open(p, kdf, password, data).Some?
    requires (forall i :: supply(i).Some? && supply(i).value >= 4) && forall a, b :: go(a, b)
    ensures DecryptFileStatus(p, kdf, password, go, supply, call, data) == NoError
  {
    hide OpenRecords, CallsFor, Arrives, Allowed, DecryptFileStatus;
    EnoughCalls(supply, call, PASSWORD_SALT_SIZE, |data|);
    FourBytesArrive(p, supply, call + CallsFor(supply, call, PASSWORD_SALT_SIZE, |data|).value, data[PASSWORD_SALT_SIZE..]);
    AlwaysAllowed(p, go, data[PASSWORD_SALT_SIZE..], PASSWORD_SALT_SIZE, |data|);
    DecryptFileSucceeds(p, kdf, password, go, supply, call, data);
  }

  /** When calls never fail but give one byte at a time, every file with a record is refused. */
  lemma TornPrefix(p: Aead, kdf: Kdf, password: seq<byte>, go: Progress, supply: Supply, call: nat, data: seq<byte>)
    requires (forall i :: supply(i) == Some(1)) && |data| > PASSWORD_SALT_SIZE && kdf(password, data[..PASSWORD_SALT_SIZE]).Some?
    ensures DecryptFileStatus(p, kdf, password, go, supply, call, data) == InvalidData
  {
    EnoughCalls(supply, call, PASSWORD_SALT_SIZE, |data|);
  }

  /** A call for a prefix that gives less than four bytes, or a record that is not whole. */
  ghost predicate RecordBroken(p: Aead, supply: Supply, call: nat, s: seq<byte>) {
    && supply(call).Some? && s != []
    && (supply(call).value < 4 || FirstRecord(p, s).None?
        || CallsFor(supply, call + 1, FirstRecord(p, s).value + p.Overhead(), |s| - 4).None?)
  }

  /** A whole record is read, with what follows it and the number of the next call. */
  ghost predicate RecordRead(p: Aead, supply: Supply, call: nat, s: seq<byte>, record: seq<byte>, rest: seq<byte>,
                             next: nat) {
    && supply(call).Some? && supply(call).value >= 4 && FirstRecord(p, s).Some?
    && var n := FirstRecord(p, s).value;
       && record == s[4..4 + n + p.Overhead()] && rest == s[4 + n + p.Overhead()..]
       && var body := CallsFor(supply, call + 1, n + p.Overhead(), |s| - 4);
          body.Some? && next == call + 1 + body.value
  }

  /** Reads a length prefix with one call and the rest of the record with as many as it takes. */
  method ReadRecord(p: Aead, file: FileHandle) returns (status: Status, end: bool, record: seq<byte>)
    requires file.Valid()
    modifies file`pos, file`calls
    ensures file.Valid() && |file.Rest()| <= |old(file.Rest())|
    ensures status == FileIoError || status == InvalidData || status == NoError
    ensures status == FileIoError ==> file.supply(old(file.calls)).None?
    ensures status == InvalidData ==> RecordBroken(p, file.supply, old(file.calls), old(file.Rest()))
    ensures status == NoError && end ==> file.supply(old(file.calls)).Some? && old(file.Rest()) == []
    ensures status == NoError && !end ==> RecordRead(p, file.supply, old(file.calls), old(file.Rest()), record, file.Rest(), file.calls)
  {
    hide Delivered, CallsFor, ReadLe32;
    ghost var s, call := file.Rest(), file.calls;
    end, record := false, [];
    PrefixDelivered(file.supply, call, |s|);
    var ok, lengthPrefix := file.Read(4);
    if !ok {
      return FileIoError, end, record;
    }
    if lengthPrefix == [] {
      return NoError, true, record;
    }
    if |lengthPrefix| != 4 {
      return InvalidData, end, record;
    }
    var plaintextChunkSize := ReadLe32(lengthPrefix);
    PrefixRead(p, s, lengthPrefix, file.Rest());
    if plaintextChunkSize > CHUNK_SIZE {
      return InvalidData, end, record;
    }
    ghost var rest := file.Rest();
    ok, record := file.ReadExact(plaintextChunkSize + p.nonceSize + p.tagSize);
    status := if ok then NoError else InvalidData;
    if ok {
      RestOfRecord(s, lengthPrefix, rest, record, file.Rest());
    }
  }

  /** A call for four bytes gives them exactly when it may and when they are there. */
  lemma PrefixDelivered(supply: Supply, call: nat, left: nat)
    ensures var r := Delivered(supply, call, 4, left);
            && (r.Some? <==> supply(call).Some?)
            && (r.Some? ==> r.value <= 4 && r.value <= left && (r.value == 4 <==> supply(call).value >= 4 && left >= 4))
  {
  }

  lemma PrefixRead(p: Aead, s: seq<byte>, prefix: seq<byte>, rest: seq<byte>)
    requires s == prefix + rest && |prefix| == 4
    ensures FirstRecord(p, s) == if ReadLe32(prefix) > CHUNK_SIZE || ReadLe32(prefix) + p.Overhead() > |rest| then None else Some(ReadLe32(prefix))
  {
    hide ReadLe32;
    assert s[..4] == prefix;
  }

  lemma RestOfRecord(s: seq<byte>, prefix: seq<byte>, rest: seq<byte>, record: seq<byte>, next: seq<byte>)
    requires s == prefix + rest && rest == record + next
    ensures s[|prefix|..|prefix| + |record|] == record && s[|prefix| + |record|..] == next
  {
  }

  lemma BrokenRecord(p: Aead, key: seq<byte>, go: Progress, supply: Supply, call: nat, s: seq<byte>, done: nat, total: nat)
    ensures supply(call).None? ==> OpenFileStatus(p, key, go, supply, call, s, done, total) == FileIoError
    ensures supply(call).Some? && s == [] ==> OpenFileStatus(p, key, go, supply, call, s, done, total) == NoError
    ensures RecordBroken(p, supply, call, s) ==> OpenFileStatus(p, key, go, supply, call, s, done, total) == InvalidData
  {
    hide OpenChunk, FirstRecord, CallsFor;
  }

  /** What one record means for the run. */
  lemma WholeRecord(p: Aead, key: seq<byte>, go: Progress, supply: Supply, call: nat, s: seq<byte>, done: nat, total: nat,
                    record: seq<byte>, rest: seq<byte>, next: nat)
    requires RecordRead(p, supply, call, s, record, rest, next)
    ensures p.Overhead() <= |record| <= CHUNK_SIZE + p.Overhead() && |rest| < |s| && s != []
    ensures NextRecord(p, key, s) == if OpenChunk(p, key, record).None? then None else Some((OpenChunk(p, key, record).value, rest))
    ensures OpenFileStatus(p, key, go, supply, call, s, done, total)
         == if OpenChunk(p, key, record).None? then OpenStatus(p, key, None)
            else if !go(done + (4 + |record|), total) then OperationCancelled
            else OpenFileStatus(p, key, go, supply, next, rest, done + (4 + |record|), total)
  {
    hide OpenChunk, FirstRecord, CallsFor;
  }

  method OpenRecord(p: Aead, key: seq<byte>, record: seq<byte>,
                    buffer: array<byte>) returns (status: Status, chunk: seq<byte>)
    requires p.Conforms() && key != [] && buffer.Length == CHUNK_SIZE && p.Overhead() <= |record| <= CHUNK_SIZE + p.Overhead()
    modifies buffer
    ensures OpenChunk(p, key, record).None? ==> status != NoError && status == OpenStatus(p, key, None)
    ensures OpenChunk(p, key, record).Some? ==> status == NoError && OpenChunk(p, key, record) == Some(chunk)
  {
    hide OpenChunk;
    chunk := [];
    var size: nat;
    status, size := DecryptWithKey(p, key, record, buffer.Length, buffer, 0);
    if status == NoError {
      chunk := buffer[0..size];
    }
  }

  /** One pass of the reader's loop: it ends with the file, or with the status of the whole run. */
  method OpenNextRecord(p: Aead, key: seq<byte>, file: FileHandle, go: Progress, done: nat, buffer: array<byte>)
    returns (status: Status, end: bool, chunk: seq<byte>, processedBytes: nat)
    requires p.Conforms() && key != [] && file.Valid() && buffer.Length == CHUNK_SIZE
    modifies file`pos, file`calls, buffer
    ensures file.Valid() && |file.Rest()| <= |old(file.Rest())|
    ensures status != NoError || end ==> status == OpenFileStatus(p, key, go, file.supply, old(file.calls), old(file.Rest()), done, |file.data|)
    ensures status == NoError && end ==> old(file.Rest()) == []
    ensures status == NoError && !end ==>
              && NextRecord(p, key, old(file.Rest())) == Some((chunk, file.Rest())) && old(file.Rest()) != [] && |file.Rest()| < |old(file.Rest())|
              && OpenFileStatus(p, key, go, file.supply, old(file.calls), old(file.Rest()), done, |file.data|)
                 == OpenFileStatus(p, key, go, file.supply, file.calls, file.Rest(), processedBytes, |file.data|)
  {
    hide *;
    ghost var s, call := file.Rest(), file.calls;
    BrokenRecord(p, key, go, file.supply, call, s, done, |file.data|);
    var record: seq<byte>;
    chunk, processedBytes := [], done;
    status, end, record := ReadRecord(p, file);
    if status != NoError || end {
      return;
    }
    WholeRecord(p, key, go, file.supply, call, s, done, |file.data|, record, file.Rest(), file.calls);
    processedBytes := done + (4 + |record|);
    status, chunk := OpenRecord(p, key, record, buffer);
    if status == NoError && !go(processedBytes, |file.data|) {
      status := OperationCancelled;
    }
  }

  /** The first record opened, and what follows it. */
  function NextRecord(p: Aead, key: seq<byte>, s: seq<byte>): Option<(seq<byte>, seq<byte>)> {
    match FirstRecord(p, s)
    case None => None
    case Some(n) =>
      var end := 4 + n + p.Overhead();
      match OpenChunk(p, key, s[4..end])
      case None => None
      case Some(chunk) => Some((chunk, s[end..]))
  }

  lemma NextRecordCases(p: Aead, key: seq<byte>, s: seq<byte>)
    ensures FirstRecord(p, s).None? ==> NextRecord(p, key, s).None?
    ensures FirstRecord(p, s).Some? ==>
              var end := 4 + FirstRecord(p, s).value + p.Overhead();
              var chunk := OpenChunk(p, key, s[4..end]);
              NextRecord(p, key, s) == if chunk.None? then None else Some((chunk.value, s[end..]))
  {
    hide OpenChunk, FirstRecord;
  }

  /** The records left, behind the plaintext so far. */
  lemma OpenRest(p: Aead, key: seq<byte>, rest: seq<byte>, output: seq<byte>)
    ensures rest == [] ==> Join(Some(output), OpenRecords(p, key, rest)) == Some(output)
    ensures rest != [] ==>
              match NextRecord(p, key, rest)
              case None => Join(Some(output), OpenRecords(p, key, rest)) == None
              case Some(r) => Join(Some(output), OpenRecords(p, key, rest)) == Join(Some(output + r.0), OpenRecords(p, key, r.1))
  {
    RecordCases(p, key, rest);
    NextRecordCases(p, key, rest);
    hide *;
    JoinEmpty(Some(output));
    if rest != [] && FirstRecord(p, rest).Some? {
      var n := FirstRecord(p, rest).value;
      NextChunk(p, key, rest, n, rest[4..4 + n + p.Overhead()], rest[4 + n + p.Overhead()..], output);
    } else if rest != [] {
      NothingJoined(output);
    }
  }

  lemma NothingJoined(output: seq<byte>)
    ensures Join(Some(output), None) == None
  {
  }

  /** Decrypts the records of a file up to its end. */
  method OpenFile(p: Aead, key: seq<byte>, file: FileHandle, go: Progress,
                  done: nat) returns (status: Status, output: seq<byte>)
    requires p.Conforms() && key != [] && file.Valid()
    modifies file`pos, file`calls
    ensures status == OpenFileStatus(p, key, go, file.supply, old(file.calls), old(file.Rest()), done, |file.data|)
    ensures status == NoError ==> OpenRecords(p, key, old(file.Rest())) == Some(output)
  {
    output := [];
    var plaintextChunk := new byte[CHUNK_SIZE];
    var processedBytes, end := done, false;
    ghost var all := OpenRecords(p, key, file.Rest());
    ghost var result := OpenFileStatus(p, key, go, file.supply, file.calls, file.Rest(), done, |file.data|);
    JoinEmpty(all);
    hide *;
    while true
      invariant file.Valid()
      invariant Join(Some(output), OpenRecords(p, key, file.Rest())) == all
      invariant OpenFileStatus(p, key, go, file.supply, file.calls, file.Rest(), processedBytes, |file.data|) == result
      decreases |file.Rest()|
    {
      OpenRest(p, key, file.Rest(), output);
      var chunk: seq<byte>;
      status, end, chunk, processedBytes := OpenNextRecord(p, key, file, go, processedBytes, plaintextChunk);
      if status != NoError || end {
        return;
      }
      output := output + chunk;
    }
  }

  lemma NoSalt(p: Aead, kdf: Kdf, password: seq<byte>, go: Progress, supply: Supply, call: nat, data: seq<byte>)
    requires CallsFor(supply, call, PASSWORD_SALT_SIZE, |data|).None?
    ensures DecryptFileStatus(p, kdf, password, go, supply, call, data) == InvalidData
  {
  }

  /** What the salt means for the run and for the container. */
  lemma SaltRead(p: Aead, kdf: Kdf, password: seq<byte>, go: Progress, supply: Supply, call: nat, data: seq<byte>,
                 salt: seq<byte>, rest: seq<byte>)
    requires data == salt + rest && |salt| == PASSWORD_SALT_SIZE && CallsFor(supply, call, PASSWORD_SALT_SIZE, |data|).Some?
    ensures var next, key := call + CallsFor(supply, call, PASSWORD_SALT_SIZE, |data|).value, kdf(password, salt);
            var status := DecryptFileStatus(p, kdf, password, go, supply, call, data);
            if key.None? then status == UnexpectedError
            else
              && status == OpenFileStatus(p, key.value, go, supply, next, rest, PASSWORD_SALT_SIZE, |data|)
              && Open(p, kdf, password, data) == OpenRecords(p, key.value, rest)
  {
    hide OpenRecords, OpenFileStatus, CallsFor;
    assert data[..PASSWORD_SALT_SIZE] == salt && data[PASSWORD_SALT_SIZE..] == rest;
  }

  lemma NotEmpty(p: Aead, kdf: Kdf, password: seq<byte>, salt: seq<byte>)
    requires p.Conforms() && Derives(kdf, p) && kdf(password, salt).Some?
    ensures kdf(password, salt).value != []
  {
  }

  method ReadSalt(file: FileHandle) returns (ok: bool, salt: seq<byte>)
    requires file.Valid() && file.pos == 0
    modifies file`pos, file`calls
    ensures file.Valid()
    ensures ok == CallsFor(file.supply, old(file.calls), PASSWORD_SALT_SIZE, |file.data|).Some?
    ensures ok ==>
              && |salt| == PASSWORD_SALT_SIZE && file.data == salt + file.Rest()
              && file.calls == old(file.calls) + CallsFor(file.supply, old(file.calls), PASSWORD_SALT_SIZE, |file.data|).value
  {
    hide CallsFor;
    assert file.Rest() == file.data;
    ok, salt := file.ReadExact(PASSWORD_SALT_SIZE);
  }

  /** Reads the salt, derives the key and opens the records behind it. */
  method OpenFrom(p: Aead, kdf: Kdf, password: seq<byte>, file: FileHandle, go: Progress) returns (status: Status, output: seq<byte>)
    requires p.Conforms() && Derives(kdf, p) && file.Valid() && file.pos == 0
    modifies file`pos, file`calls
    ensures status == DecryptFileStatus(p, kdf, password, go, file.supply, old(file.calls), file.data)
    ensures status == NoError ==> Open(p, kdf, password, file.data) == Some(output)
  {
    hide *;
    ghost var call := file.calls;
    var ok, salt := ReadSalt(file);
    if !ok {
      NoSalt(p, kdf, password, go, file.supply, call, file.data);
      return InvalidData, [];
    }
    SaltRead(p, kdf, password, go, file.supply, call, file.data, salt, file.Rest());
    var key := kdf(password, salt);
    if key.None? {
      return UnexpectedError, [];
    }
    NotEmpty(p, kdf, password, salt);
    status, output := OpenFile(p, key.value, file, go, PASSWORD_SALT_SIZE);
  }

  /** Decrypts a file. What it writes is the plaintext of the container; it succeeds exactly when the password is good,
    the container opens, the reads arrive and the callback lets every record pass. */
  method DecryptFile(p: Aead, kdf: Kdf, password: Option<seq<byte>>, file: FileHandle,
                     go: Progress) returns (status: Status, output: seq<byte>)
    requires p.Conforms() && Derives(kdf, p) && file.Valid() && file.pos == 0
    modifies file`pos, file`calls
    ensures password.None? || |password.value| == 0 || |password.value| > 0x7fff_ffff ==> status == InvalidArgument
    ensures GoodPassword(password) ==> status == DecryptFileStatus(p, kdf, password.value, go, file.supply, old(file.calls), file.data)
    ensures GoodPassword(password) && CallsFor(file.supply, old(file.calls), 16, |file.data|).None? ==> status == InvalidData
    ensures GoodPassword(password) && FileArrives(p, file.supply, old(file.calls), file.data) ==>
              match kdf(password.value, file.data[..16])
              case None => status == UnexpectedError
              case Some(key) =>
                var plain, allowed := Open(p, kdf, password.value, file.data), Allowed(p, go, file.data[16..], 16, |file.data|);
                && (p.acceptsKey(key) && plain.None? && allowed ==> status == InvalidData)
                && (p.acceptsKey(key) && plain.Some? && !allowed ==> status == OperationCancelled)
                && (FirstRecord(p, file.data[16..]).Some? && !p.acceptsKey(key) ==> status == InvalidArgument)
    ensures status == NoError <==>
              && GoodPassword(password) && Open(p, kdf, password.value, file.data).Some?
              && FileArrives(p, file.supply, old(file.calls), file.data)
              && Allowed(p, go, file.data[PASSWORD_SALT_SIZE..], PASSWORD_SALT_SIZE, |file.data|)
    ensures status == NoError ==> Open(p, kdf, password.value, file.data) == Some(output)
  {
    output := [];
    if password.None? || |password.value| == 0 || |password.value| > INT_MAX {
      return InvalidArgument, output;
    }
    hide OpenRecords, DecryptFileStatus, FileArrives, Allowed, Open;
    DecryptFileSucceeds(p, kdf, password.value, go, file.supply, file.calls, file.data);
    DecryptFileFails(p, kdf, password.value, go, file.supply, file.calls, file.data);
    status, output := OpenFrom(p, kdf, password.value, file, go);
  }

  // ----- a container that is refused when it is read byte by byte

  /** A cipher without nonce and tag that leaves the text as it is. */
  function Plain(): Aead {
    Aead(0, 0, 1, key => |key| == 1, (key, nonce, text) => Some((text, [])), (key, nonce, text, tag) => Some(text))
  }

  lemma PlainConforms()
    ensures Plain().Conforms()
  {
    forall k, n, t | |n| == 0 ensures Plain().Sound(k, n, t) {
    }
  }

  /** A salt of zeros and one record with the byte 7. */
  function OneRecord(): seq<byte> {
    seq(PASSWORD_SALT_SIZE, _ => 0) + ([1, 0, 0, 0] + [7])
  }

  function AnyKey(password: seq<byte>, salt: seq<byte>): Option<seq<byte>> {
    Some([5])
  }

  function GoOn(processed: nat, total: nat): bool {
    true
  }

  function FourAtATime(call: nat): Option<nat> {
    Some(4)
  }

  function OneAtATime(call: nat): Option<nat> {
    Some(1)
  }

  /** The container opens to the byte 7. Read four bytes at a time it is decrypted, read byte by byte it is refused. */
  lemma OneRecordTorn(password: seq<byte>)
    ensures Plain().Conforms() && Open(Plain(), AnyKey, password, OneRecord()) == Some([7])
    ensures DecryptFileStatus(Plain(), AnyKey, password, GoOn, FourAtATime, 0, OneRecord()) == NoError
    ensures DecryptFileStatus(Plain(), AnyKey, password, GoOn, OneAtATime, 0, OneRecord()) == InvalidData
  {
    PlainConforms();
    OneRecordOpens(password);
    assert (forall i :: FourAtATime(i) == Some(4)) && (forall i :: OneAtATime(i) == Some(1)) && forall a, b :: GoOn(a, b);
    hide *;
    FourBytesDecrypt(Plain(), AnyKey, password, GoOn, FourAtATime, 0, OneRecord());
    TornPrefix(Plain(), AnyKey, password, GoOn, OneAtATime, 0, OneRecord());
  }

  lemma OneRecordOpens(password: seq<byte>)
    ensures |OneRecord()| > PASSWORD_SALT_SIZE && AnyKey(password, OneRecord()[..PASSWORD_SALT_SIZE]) == Some([5])
    ensures Open(Plain(), AnyKey, password, OneRecord()) == Some([7])
  {
    var records: seq<byte> := [1, 0, 0, 0] + [7];
    assert OneRecord()[PASSWORD_SALT_SIZE..] == records;
    assert records[..4] == [1, 0, 0, 0] && records[4..5] == [7] && records[5..] == [];
    var text: seq<byte> := [7];
    assert text[0..|text| - 0] == text && OpenChunk(Plain(), [5], text) == Some(text);
    OpenStep(Plain(), [5], records, 1, text, []);
    assert OpenRecords(Plain(), [5], []) == Some([]);
    JoinEmpty(Some(text));
  }

  lemma {:induction false} AlwaysAllowed(p: Aead, go: Progress, s: seq<byte>, done: nat, total: nat)
    requires forall a, b :: go(a, b)
    ensures Allowed(p, go, s, done, total)
    decreases |s|
  {
    if s != [] && FirstRecord(p, s).Some? {
      var end := 4 + FirstRecord(p, s).value + p.Overhead();
      AlwaysAllowed(p, go, s[end..], done + end, total);
    }
  }
}
