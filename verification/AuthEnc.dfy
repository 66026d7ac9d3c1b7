/** The state machine shared by the authenticated encryption modes: 3rdParty/cryptopp890/authenc.cpp,
  lines 11-180, and authenc.h, line 59 (Restart). The hooks of a mode are recorded in a log.
*/
module AuthenticatedEncryption {
  import opened Bits
  import opened Sequences

  datatype State = Start | KeySet | IVSet | AuthUntransformed | AuthTransformed | AuthFooter

  /** Returning normally, or the exception thrown. */
  datatype Outcome = Done | BadState | InvalidArgument

  /** What a mode is asked to authenticate, in order. The three last-block hooks find the bytes that do not
    fill a block, and the lengths they may read. */
  datatype Event =
    | Block(bytes: seq<byte>)
    | LastHeader(rest: seq<byte>, headerLength: nat)
    | LastConfidential(rest: seq<byte>, headerLength: nat, messageLength: nat)
    | LastFooter(rest: seq<byte>, footerLength: nat, macSize: nat)

  /** A mode: block size, limits, which text is authenticated, its keystream and its tag. */
  datatype Mode = Mode(
    blockSize: nat, digestSize: nat,
    maxHeaderLength: nat, maxMessageLength: nat, maxFooterLength: nat,
    authenticationIsOnPlaintext: bool, isForwardTransformation: bool,
    transform: (nat, byte) -> byte,
    tag: seq<Event> -> seq<byte>)

  // ----- what is authenticated

  function WholeBlocks(data: seq<byte>, size: nat): seq<Event>
    requires size > 0
  {
    if |data| < size then [] else [Block(data[..size])] + WholeBlocks(data[size..], size)
  }

  function Rest(data: seq<byte>, size: nat): (r: seq<byte>)
    requires size > 0
    ensures |r| < size && |r| <= |data|
  {
    if |data| < size then data else Rest(data[size..], size)
  }

  /** Data that comes in pieces: what was left over goes in front of the next piece. */
  lemma {:induction false} BlocksAppend(a: seq<byte>, b: seq<byte>, size: nat)
    requires size > 0
    ensures WholeBlocks(a + b, size) == WholeBlocks(a, size) + WholeBlocks(Rest(a, size) + b, size)
    ensures Rest(a + b, size) == Rest(Rest(a, size) + b, size)
    decreases |a|
  {
    if |a| >= size {
      BlocksAppend(a[size..], b, size);
      assert (a + b)[..size] == a[..size] && (a + b)[size..] == a[size..] + b;
    }
  }

  /** The keystream applied to a message from position p on. */
  function Transformed(m: Mode, p: nat, input: seq<byte>): (s: seq<byte>)
    ensures |s| == |input|
  {
    seq(|input|, i requires 0 <= i < |input| => m.transform(p + i, input[i]))
  }

  lemma TransformedAppend(m: Mode, a: seq<byte>, b: seq<byte>)
    ensures Transformed(m, 0, a + b) == Transformed(m, 0, a) + Transformed(m, |a|, b)
  {
  }

  /** Encryption transforms the plaintext, decryption gives it. */
  function Plaintext(m: Mode, message: seq<byte>): seq<byte> {
    if m.isForwardTransformation then message else Transformed(m, 0, message)
  }

  function Ciphertext(m: Mode, message: seq<byte>): seq<byte> {
    if m.isForwardTransformation then Transformed(m, 0, message) else message
  }

  /** The text that is authenticated for a message. */
  function Authenticated(m: Mode, message: seq<byte>): seq<byte> {
    if m.authenticationIsOnPlaintext then Plaintext(m, message) else Ciphertext(m, message)
  }

  function HeaderLog(m: Mode, header: seq<byte>): seq<Event>
    requires m.blockSize > 0
  {
    WholeBlocks(header, m.blockSize)
  }

  function MessageLog(m: Mode, header: seq<byte>, message: seq<byte>): seq<Event>
    requires m.blockSize > 0
  {
    HeaderLog(m, header) + [LastHeader(Rest(header, m.blockSize), |header|)] + WholeBlocks(Authenticated(m, message), m.blockSize)
  }

  function FooterLog(m: Mode, header: seq<byte>, message: seq<byte>, footer: seq<byte>): seq<Event>
    requires m.blockSize > 0
  {
    MessageLog(m, header, message)
    + [LastConfidential(Rest(Authenticated(m, message), m.blockSize), |header|, |message|)]
    + WholeBlocks(footer, m.blockSize)
  }

  /** A whole run: it depends on the header, the message and the footer only. */
  function FullLog(m: Mode, header: seq<byte>, message: seq<byte>, footer: seq<byte>, macSize: nat): seq<Event>
    requires m.blockSize > 0
  {
    FooterLog(m, header, message, footer) + [LastFooter(Rest(footer, m.blockSize), |footer|, macSize)]
  }

  /** The log of a run, by the text that the mode announces: the plaintext or the ciphertext, whichever of the two is
    the input and whichever the output. */
  lemma LogOfRun(m: Mode, header: seq<byte>, message: seq<byte>, footer: seq<byte>, macSize: nat, output: seq<byte>)
    requires m.blockSize > 0 && |output| == |message| && forall i :: 0 <= i < |message| ==> output[i] == m.transform(i, message[i])
    ensures var plaintext, ciphertext := if m.isForwardTransformation then message else output,
                                         if m.isForwardTransformation then output else message;
            var text := if m.authenticationIsOnPlaintext then plaintext else ciphertext;
            FullLog(m, header, message, footer, macSize)
            == WholeBlocks(header, m.blockSize) + [LastHeader(Rest(header, m.blockSize), |header|)]
               + WholeBlocks(text, m.blockSize) + [LastConfidential(Rest(text, m.blockSize), |header|, |message|)]
               + WholeBlocks(footer, m.blockSize) + [LastFooter(Rest(footer, m.blockSize), |footer|, macSize)]
  {
    hide WholeBlocks, Rest;
    assert Transformed(m, 0, message) == output;
  }

  lemma EveryByte(m: Mode, message: seq<byte>, output: seq<byte>)
    requires output == Transformed(m, 0, message)
    ensures |output| == |message| && forall i :: 0 <= i < |message| ==> output[i] == m.transform(i, message[i])
  {
  }

  lemma {:induction false} BlockCount(data: seq<byte>, size: nat)
    requires size > 0
    ensures |WholeBlocks(data, size)| == |data| / size
    ensures Rest(data, size) == data[|data| - |data| % size..]
  {
    if |data| < size {
      DivModUnique(|data|, size, 0, |data|);
    } else {
      BlockCount(data[size..], size);
      OneBlockMore(|data|, size);
    }
  }

  /** Block i, by its position in the data. */
  lemma {:induction false} BlockAt(data: seq<byte>, size: nat, i: nat)
    requires size > 0 && i < |WholeBlocks(data, size)|
    ensures 0 <= i * size <= i * size + size <= |data|
    ensures WholeBlocks(data, size)[i] == Block(data[i * size..i * size + size])
  {
    if i > 0 {
      var rest := data[size..];
      BlockAt(rest, size, i - 1);
      NextProduct(i - 1, size);
      assert rest[(i - 1) * size..(i - 1) * size + size] == data[i * size..i * size + size];
    }
  }

  lemma OneBlockMore(n: nat, size: nat)
    requires 0 < size <= n
    ensures n / size == (n - size) / size + 1 && n % size == (n - size) % size
  {
    var q, r := (n - size) / size, (n - size) % size;
    assert n - size == q * size + r;
    NextProduct(q, size);
    DivModUnique(n, size, q + 1, r);
  }

  // ----- the order of the hooks

  function Hooks(log: seq<Event>): seq<Event> {
    if log == [] then []
    else Hooks(log[..|log| - 1]) + if log[|log| - 1].Block? then [] else [log[|log| - 1]]
  }

  lemma {:induction false} HooksConcat(a: seq<Event>, b: seq<Event>)
    ensures Hooks(a + b) == Hooks(a) + Hooks(b)
  {
    if b == [] {
      assert a + b == a;
    } else {
      var n := |b| - 1;
      HooksConcat(a, b[..n]);
      assert (a + b)[..|a + b| - 1] == a + b[..n] && (a + b)[|a + b| - 1] == b[n];
    }
  }

  lemma HooksOne(e: Event)
    requires !e.Block?
    ensures Hooks([e]) == [e]
  {
    assert [e][..0] == [];
  }

  lemma {:induction false} NoHooks(data: seq<byte>, size: nat)
    requires size > 0
    ensures Hooks(WholeBlocks(data, size)) == []
  {
    if |data| >= size {
      NoHooks(data[size..], size);
      var first := [Block(data[..size])];
      HooksConcat(first, WholeBlocks(data[size..], size));
      assert first[..0] == [];
    }
  }

  /** On every complete run each of the three hooks is called exactly once, in this order. */
  lemma HooksOnceInOrder(m: Mode, header: seq<byte>, message: seq<byte>, footer: seq<byte>, macSize: nat)
    requires m.blockSize > 0
    ensures Hooks(FullLog(m, header, message, footer, macSize))
         == [LastHeader(Rest(header, m.blockSize), |header|),
             LastConfidential(Rest(Authenticated(m, message), m.blockSize), |header|, |message|),
             LastFooter(Rest(footer, m.blockSize), |footer|, macSize)]
  {
    hide WholeBlocks, Rest, Authenticated, Hooks;
    var first := LastHeader(Rest(header, m.blockSize), |header|);
    var second := LastConfidential(Rest(Authenticated(m, message), m.blockSize), |header|, |message|);
    var third := LastFooter(Rest(footer, m.blockSize), |footer|, macSize);
    HooksOne(first);
    HooksOne(second);
    HooksOne(third);
    NoHooks(header, m.blockSize);
    NoHooks(Authenticated(m, message), m.blockSize);
    NoHooks(footer, m.blockSize);
    HooksConcat(HeaderLog(m, header), [first]);
    HooksConcat(HeaderLog(m, header) + [first], WholeBlocks(Authenticated(m, message), m.blockSize));
    HooksConcat(MessageLog(m, header, message), [second]);
    HooksConcat(MessageLog(m, header, message) + [second], WholeBlocks(footer, m.blockSize));
    HooksConcat(FooterLog(m, header, message, footer), [third]);
  }

  // ----- the state machine

  class AuthenticatedSymmetricCipher {
    const mode: Mode
    const buffer: array<byte>
    var totalHeaderLength: nat
    var totalMessageLength: nat
    var totalFooterLength: nat
    var bufferedDataLength: nat
    var state: State
    var cipherPosition: nat
    var log: seq<Event>
    ghost var header: seq<byte>
    ghost var message: seq<byte>
    ghost var footer: seq<byte>

    predicate Active()
      reads this
    {
      state != Start && state != KeySet
    }

    /** What is left over in the buffer. */
    ghost predicate Holds(rest: seq<byte>)
      reads this, buffer
    {
      bufferedDataLength == |rest| <= buffer.Length && buffer[..bufferedDataLength] == rest
    }

    ghost predicate InHeader()
      reads this, buffer
    {
      && buffer.Length == mode.blockSize > 0 && state == IVSet && totalHeaderLength == |header| && totalFooterLength == 0
      && message == [] && footer == [] && cipherPosition == 0
      && log == HeaderLog(mode, header) && Holds(Rest(header, mode.blockSize))
    }

    ghost predicate InMessage()
      reads this, buffer
    {
      && buffer.Length == mode.blockSize > 0 && totalHeaderLength == |header| && totalFooterLength == 0
      && state == (if mode.authenticationIsOnPlaintext == mode.isForwardTransformation then AuthUntransformed else AuthTransformed)
      && footer == [] && cipherPosition == |message|
      && log == MessageLog(mode, header, message) && Holds(Rest(Authenticated(mode, message), mode.blockSize))
    }

    ghost predicate InFooter()
      reads this, buffer
    {
      && buffer.Length == mode.blockSize > 0 && state == AuthFooter && totalHeaderLength == |header| && totalFooterLength == |footer|
      && log == FooterLog(mode, header, message, footer) && Holds(Rest(footer, mode.blockSize))
    }

    /** In each state the log and the buffer are those of the data so far. */
    ghost predicate Valid()
      reads this, buffer
    {
      && buffer.Length == mode.blockSize > 0
      && (Active() ==> totalMessageLength <= mode.maxMessageLength)
      && (match state
          case Start => true
          case KeySet => true
          case IVSet => InHeader() && totalMessageLength == 0
          case AuthFooter => InFooter() && totalMessageLength >= |message|
          case _ => InMessage() && totalMessageLength == |message|)
    }

    constructor (mode: Mode)
      requires mode.blockSize > 0
      ensures Valid() && state == Start && this.mode == mode && fresh(buffer)
    {
      this.mode := mode;
      buffer := new byte[mode.blockSize];
      totalHeaderLength, totalMessageLength, totalFooterLength, bufferedDataLength := 0, 0, 0, 0;
      state, cipherPosition, log := Start, 0, [];
      header, message, footer := [], [], [];
    }

    method Restart()
      requires Valid()
      modifies this`state
      ensures Valid() && state == if old(Active()) then KeySet else old(state)
    {
      if state != Start && state != KeySet {
        state := KeySet;
      }
    }

    /** Starts a run; `accepted` says whether the mode accepts the initialization vector. */
    method Resynchronize(accepted: bool) returns (outcome: Outcome)
      requires Valid()
      modifies this
      ensures Valid()
      ensures old(state) == Start ==> outcome == BadState && state == Start
      ensures old(state) != Start ==> if accepted then outcome == Done && state == IVSet && header == [] else outcome == InvalidArgument && state == KeySet
    {
      if state == Start {
        return BadState;
      }
      bufferedDataLength := 0;
      totalHeaderLength, totalMessageLength, totalFooterLength := 0, 0, 0;
      state := KeySet;
      if !accepted {
        return InvalidArgument;
      }
      cipherPosition, log := 0, [];
      header, message, footer := [], [], [];
      assert buffer[..0] == [];
      state := IVSet;
      outcome := Done;
    }

    /** Sets the key and, when one is given, the initialization vector. */
    method SetKey(keyAccepted: bool, ivGiven: bool, ivAccepted: bool) returns (outcome: Outcome)
      requires Valid()
      modifies this
      ensures Valid()
      ensures !keyAccepted ==> outcome == InvalidArgument && state == Start
      ensures keyAccepted && !ivGiven ==> outcome == Done && state == KeySet
      ensures keyAccepted && ivGiven ==> if ivAccepted then outcome == Done && state == IVSet && header == [] else outcome == InvalidArgument && state == KeySet
    {
      bufferedDataLength := 0;
      state := Start;
      if !keyAccepted {
        return InvalidArgument;
      }
      state := KeySet;
      outcome := Done;
      if ivGiven {
        outcome := Resynchronize(ivAccepted);
      }
    }

    /** Whole blocks go to the mode; the number of bytes left over is returned. */
    method AuthenticateBlocks(data: seq<byte>) returns (leftOver: nat)
      requires mode.blockSize > 0
      modifies this`log
      ensures log == old(log) + WholeBlocks(data, mode.blockSize) && leftOver == |Rest(data, mode.blockSize)|
    {
      log := log + WholeBlocks(data, mode.blockSize);
      leftOver := |Rest(data, mode.blockSize)|;
    }

    method CopyIn(at: nat, s: seq<byte>)
      requires at + |s| <= buffer.Length
      modifies buffer
      ensures buffer[..at + |s|] == old(buffer[..at]) + s
    {
      for i := 0 to |s|
        invariant forall j :: 0 <= j < at ==> buffer[j] == old(buffer[j])
        invariant forall j :: 0 <= j < i ==> buffer[at + j] == s[j]
      {
        buffer[at + i] := s[i];
      }
    }

    /** Authenticates data behind what is left over in the buffer. */
    method AuthenticateData(input: seq<byte>, ghost rest: seq<byte>)
      requires buffer.Length == mode.blockSize > 0 && Holds(rest) && |rest| < mode.blockSize
      modifies this`log, this`bufferedDataLength, buffer
      ensures log == old(log) + WholeBlocks(rest + input, mode.blockSize) && Holds(Rest(rest + input, mode.blockSize))
    {
      if |input| == 0 {
        assert rest + input == rest;
        return;
      }
      var blockSize := mode.blockSize;
      var num := bufferedDataLength;
      var data := input;
      if num > 0 {
        if num + |input| >= blockSize {
          CopyIn(num, input[..blockSize - num]);
          ghost var first := buffer[..];
          OneBlock(first, blockSize);
          var _ := AuthenticateBlocks(buffer[..]);
          data := input[blockSize - num..];
          assert first == buffer[..num + |input[..blockSize - num]|];
          assert rest + input == first + data;
          BlocksAppend(first, data, blockSize);
          assert [] + data == data;
          Reassociate(old(log), WholeBlocks(first, blockSize), WholeBlocks(data, blockSize));
        } else {
          CopyIn(num, input);
          bufferedDataLength := num + |input|;
          return;
        }
      } else {
        assert rest + input == data;
      }
      StoreData(data);
    }

    /** Authenticates data when nothing is left over in the buffer. */
    method StoreData(data: seq<byte>)
      requires buffer.Length == mode.blockSize > 0
      modifies this`log, this`bufferedDataLength, buffer
      ensures log == old(log) + WholeBlocks(data, mode.blockSize) && Holds(Rest(data, mode.blockSize))
    {
      var len := |data|;
      RestIsEnd(data, mode.blockSize);
      if len >= mode.blockSize {
        len := AuthenticateBlocks(data);
      } else {
        assert log == log + [];
      }
      CopyIn(0, data[|data| - len..]);
      bufferedDataLength := len;
    }

    /** Associated data: header before the message, footer after it. Empty input changes nothing in any state. */
    method Update(input: seq<byte>) returns (outcome: Outcome)
      requires Valid()
      modifies this, buffer
      ensures Valid()
      ensures input == [] ==> outcome == Done && state == old(state) && header == old(header) && message == old(message) && footer == old(footer)
      ensures input != [] && !old(Active()) ==> outcome == BadState && state == old(state)
      ensures input != [] && old(Active()) ==> outcome == Done && message == old(message)
      ensures input != [] && old(state) == IVSet ==> state == IVSet && header == old(header) + input && footer == old(footer)
      ensures input != [] && old(Active()) && old(state) != IVSet ==> state == AuthFooter && header == old(header) && footer == old(footer) + input
    {
      if |input| == 0 {
        return Done;
      }
      match state {
        case Start | KeySet =>
          return BadState;
        case IVSet =>
          UpdateHeader(input);
        case AuthUntransformed | AuthTransformed =>
          LastConfidentialBlock();
          UpdateFooter(input);
        case AuthFooter =>
          UpdateFooter(input);
      }
      outcome := Done;
    }

    method UpdateHeader(input: seq<byte>)
      requires InHeader()
      modifies this`log, this`bufferedDataLength, this`totalHeaderLength, this`header, buffer
      ensures InHeader() && header == old(header) + input
    {
      hide WholeBlocks, Rest;
      BlocksAppend(header, input, mode.blockSize);
      AuthenticateData(input, Rest(header, mode.blockSize));
      totalHeaderLength := totalHeaderLength + |input|;
      header := header + input;
    }

    method UpdateFooter(input: seq<byte>)
      requires InFooter()
      modifies this`log, this`bufferedDataLength, this`totalFooterLength, this`footer, buffer
      ensures InFooter() && footer == old(footer) + input
    {
      hide WholeBlocks, Rest, MessageLog;
      BlocksAppend(footer, input, mode.blockSize);
      ghost var before := MessageLog(mode, header, message) + [LastConfidential(Rest(Authenticated(mode, message), mode.blockSize), |header|, |message|)];
      Reassociate(before, WholeBlocks(footer, mode.blockSize), WholeBlocks(Rest(footer, mode.blockSize) + input, mode.blockSize));
      AuthenticateData(input, Rest(footer, mode.blockSize));
      totalFooterLength := totalFooterLength + |input|;
      footer := footer + input;
    }

    /** The header is complete. */
    method LastHeaderBlock()
      requires InHeader()
      modifies this`log, this`bufferedDataLength, this`state
      ensures InMessage()
    {
      log := log + [LastHeader(buffer[..bufferedDataLength], totalHeaderLength)];
      assert Authenticated(mode, []) == [];
      assert log + [] == log && buffer[..0] == [];
      bufferedDataLength := 0;
      state := if mode.authenticationIsOnPlaintext == mode.isForwardTransformation then AuthUntransformed else AuthTransformed;
    }

    /** The message is complete. */
    method LastConfidentialBlock()
      requires InMessage() && totalMessageLength == |message|
      modifies this`log, this`bufferedDataLength, this`state
      ensures InFooter()
    {
      log := log + [LastConfidential(buffer[..bufferedDataLength], totalHeaderLength, totalMessageLength)];
      assert log + [] == log && buffer[..0] == [];
      bufferedDataLength := 0;
      state := AuthFooter;
    }

    /** Encrypts or decrypts a piece of the message. A call that is refused after the footer has started
      still counts its length. */
    method ProcessData(input: seq<byte>) returns (outcome: Outcome, output: seq<byte>)
      requires Valid()
      modifies this, buffer
      ensures Valid() && header == old(header) && footer == old(footer)
      ensures !old(Active()) ==> outcome == BadState && state == old(state)
      ensures old(Active()) && |input| > mode.maxMessageLength - old(totalMessageLength) ==> outcome == InvalidArgument && state == old(state) && message == old(message)
      ensures old(Active()) && |input| <= mode.maxMessageLength - old(totalMessageLength) ==>
                if old(state) == AuthFooter then outcome == BadState && state == AuthFooter && message == old(message) && totalMessageLength == old(totalMessageLength) + |input|
                else outcome == Done && message == old(message) + input && output == Transformed(mode, |old(message)|, input) && (state == AuthUntransformed || state == AuthTransformed)
    {
      output := [];
      if Active() && |input| > mode.maxMessageLength - totalMessageLength {
        return InvalidArgument, output;
      }
      totalMessageLength := totalMessageLength + |input|;
      match state {
        case Start | KeySet =>
          return BadState, output;
        case AuthFooter =>
          return BadState, output;
        case IVSet =>
          LastHeaderBlock();
          output := ProcessMessage(input);
        case _ =>
          output := ProcessMessage(input);
      }
      outcome := Done;
    }

    /** Authenticates the input or the output of the cipher. */
    method ProcessMessage(input: seq<byte>) returns (output: seq<byte>)
      requires InMessage()
      modifies this`log, this`bufferedDataLength, this`cipherPosition, this`message, buffer
      ensures InMessage() && message == old(message) + input && output == Transformed(mode, |old(message)|, input)
    {
      hide WholeBlocks, Rest;
      ghost var rest := Rest(Authenticated(mode, message), mode.blockSize);
      ghost var before := HeaderLog(mode, header) + [LastHeader(Rest(header, mode.blockSize), |header|)];
      ghost var more := if state == AuthUntransformed then input else Transformed(mode, |message|, input);
      BlocksAppend(Authenticated(mode, message), more, mode.blockSize);
      TransformedAppend(mode, message, input);
      assert Authenticated(mode, message + input) == Authenticated(mode, message) + more;
      Reassociate(before, WholeBlocks(Authenticated(mode, message), mode.blockSize), WholeBlocks(rest + more, mode.blockSize));
      if state == AuthUntransformed {
        AuthenticateData(input, rest);
        output := Transformed(mode, cipherPosition, input);
      } else {
        output := Transformed(mode, cipherPosition, input);
        AuthenticateData(output, rest);
      }
      cipherPosition := cipherPosition + |input|;
      message := message + input;
    }

    /** Ends the run and gives the tag. A refused call changes nothing; lengths are checked before the state. */
    method TruncatedFinal(macSize: nat) returns (outcome: Outcome, mac: seq<byte>)
      requires Valid()
      modifies this
      ensures Valid()
      ensures macSize > mode.digestSize || old(totalHeaderLength) > mode.maxHeaderLength || old(totalFooterLength) > mode.maxFooterLength ==> outcome == InvalidArgument
      ensures macSize <= mode.digestSize && old(totalHeaderLength) <= mode.maxHeaderLength && old(totalFooterLength) <= mode.maxFooterLength ==>
                outcome == if old(Active()) then Done else BadState
      ensures outcome != Done ==> state == old(state) && log == old(log) && header == old(header) && message == old(message) && footer == old(footer)
      ensures outcome == Done ==> state == KeySet && log == FullLog(mode, old(header), old(message), old(footer), macSize) && mac == mode.tag(log)
    {
      mac := [];
      if macSize > mode.digestSize || totalHeaderLength > mode.maxHeaderLength || totalFooterLength > mode.maxFooterLength {
        return InvalidArgument, mac;
      }
      match state {
        case Start | KeySet =>
          return BadState, mac;
        case IVSet =>
          LastHeaderBlock();
          LastConfidentialBlock();
        case AuthUntransformed | AuthTransformed =>
          LastConfidentialBlock();
        case AuthFooter =>
      }
      log := log + [LastFooter(buffer[..bufferedDataLength], totalFooterLength, macSize)];
      mac := mode.tag(log);
      bufferedDataLength := 0;
      state := KeySet;
      outcome := Done;
    }
  }

  lemma OneBlock(data: seq<byte>, size: nat)
    requires |data| == size > 0
    ensures Rest(data, size) == [] && WholeBlocks(data, size) == [Block(data)]
  {
    assert data[..size] == data && data[size..] == [];
  }

  lemma {:induction false} RestIsEnd(data: seq<byte>, size: nat)
    requires size > 0
    ensures Rest(data, size) == data[|data| - |Rest(data, size)|..]
  {
    if |data| >= size {
      RestIsEnd(data[size..], size);
    }
  }

  /** What counts as header: without any message call, what comes after it as well. */
  function HeaderOf(headers: seq<seq<byte>>, messages: seq<seq<byte>>, footers: seq<seq<byte>>): seq<byte> {
    if messages == [] then Concat(headers) + Concat(footers) else Concat(headers)
  }

  function FooterOf(messages: seq<seq<byte>>, footers: seq<seq<byte>>): seq<byte> {
    if messages == [] then [] else Concat(footers)
  }

  method FeedHeaders(cipher: AuthenticatedSymmetricCipher, headers: seq<seq<byte>>)
    requires cipher.Valid() && cipher.state == IVSet && cipher.header == []
    modifies cipher, cipher.buffer
    ensures cipher.Valid() && cipher.state == IVSet && cipher.header == Concat(headers)
  {
    hide Concat, HeaderLog, Rest;
    EmptyConcat(headers);
    for i := 0 to |headers|
      invariant cipher.Valid() && cipher.state == IVSet && cipher.header == Concat(headers[..i])
    {
      NextPiece(headers, i);
      var _ := cipher.Update(headers[i]);
    }
    assert headers[..|headers|] == headers;
  }

  /** Stops at the first piece that exceeds the limit for messages. */
  method FeedMessages(cipher: AuthenticatedSymmetricCipher, messages: seq<seq<byte>>) returns (outcome: Outcome, output: seq<byte>)
    requires cipher.Valid() && cipher.state == IVSet
    modifies cipher, cipher.buffer
    ensures outcome == if |Concat(messages)| <= cipher.mode.maxMessageLength then Done else InvalidArgument
    ensures cipher.Valid() && cipher.header == old(cipher.header)
    ensures outcome == Done ==> cipher.message == Concat(messages) && cipher.footer == [] && output == Transformed(cipher.mode, 0, Concat(messages))
    ensures outcome == Done ==> cipher.Active() && cipher.state != AuthFooter && (cipher.state == IVSet <==> messages == [])
  {
    hide Concat, MessageLog, HeaderLog, Rest, Authenticated;
    EmptyConcat(messages);
    output := [];
    for i := 0 to |messages|
      invariant cipher.Valid() && cipher.Active() && cipher.state != AuthFooter && (cipher.state == IVSet <==> i == 0)
      invariant cipher.header == old(cipher.header) && cipher.message == Concat(messages[..i]) && cipher.footer == []
      invariant output == Transformed(cipher.mode, 0, Concat(messages[..i]))
    {
      NextPiece(messages, i);
      ConcatPrefix(messages, i + 1);
      TransformedAppend(cipher.mode, Concat(messages[..i]), messages[i]);
      var piece: seq<byte>;
      outcome, piece := cipher.ProcessData(messages[i]);
      if outcome != Done {
        return;
      }
      output := output + piece;
    }
    assert messages[..|messages|] == messages;
    outcome := Done;
  }

  /** Footers that follow no message are header. */
  method FeedFooters(cipher: AuthenticatedSymmetricCipher, footers: seq<seq<byte>>)
    requires cipher.Valid() && cipher.Active() && cipher.footer == []
    modifies cipher, cipher.buffer
    ensures cipher.Valid() && cipher.Active() && cipher.message == old(cipher.message)
    ensures old(cipher.state) == IVSet ==> cipher.header == old(cipher.header) + Concat(footers) && cipher.footer == []
    ensures old(cipher.state) != IVSet ==> cipher.header == old(cipher.header) && cipher.footer == Concat(footers)
  {
    hide Concat, FooterLog, MessageLog, HeaderLog, Rest, Authenticated;
    EmptyConcat(footers);
    for i := 0 to |footers|
      invariant cipher.Valid() && cipher.Active() && (cipher.state == IVSet <==> old(cipher.state) == IVSet)
      invariant cipher.message == old(cipher.message)
      invariant cipher.header == old(cipher.header) + if cipher.state == IVSet then Concat(footers[..i]) else []
      invariant cipher.footer == if cipher.state == IVSet then [] else Concat(footers[..i])
    {
      NextPiece(footers, i);
      Reassociate(old(cipher.header), Concat(footers[..i]), footers[i]);
      assert cipher.header + [] == cipher.header && cipher.footer + [] == cipher.footer;
      assert Concat(footers[..i]) + [] == Concat(footers[..i]);
      var _ := cipher.Update(footers[i]);
    }
    assert footers[..|footers|] == footers;
  }

  /** A whole run. Whatever the pieces are, the output is the transformed message, and the tag is that of the header,
    the plaintext or the ciphertext, as the mode announces, and the footer. */
  method Run(mode: Mode, headers: seq<seq<byte>>, messages: seq<seq<byte>>, footers: seq<seq<byte>>,
             macSize: nat) returns (outcome: Outcome, output: seq<byte>, mac: seq<byte>)
    requires mode.blockSize > 0
    ensures outcome == Done <==>
              && macSize <= mode.digestSize && |HeaderOf(headers, messages, footers)| <= mode.maxHeaderLength
              && |Concat(messages)| <= mode.maxMessageLength && |FooterOf(messages, footers)| <= mode.maxFooterLength
    ensures outcome == Done ==>
              var header, message, footer := HeaderOf(headers, messages, footers), Concat(messages), FooterOf(messages, footers);
              && |output| == |message| && (forall i :: 0 <= i < |message| ==> output[i] == mode.transform(i, message[i]))
              && var plaintext, ciphertext := if mode.isForwardTransformation then message else output,
                                              if mode.isForwardTransformation then output else message;
                 var text := if mode.authenticationIsOnPlaintext then plaintext else ciphertext;
                 mac == mode.tag(
                   WholeBlocks(header, mode.blockSize) + [LastHeader(Rest(header, mode.blockSize), |header|)]
                   + WholeBlocks(text, mode.blockSize) + [LastConfidential(Rest(text, mode.blockSize), |header|, |message|)]
                   + WholeBlocks(footer, mode.blockSize) + [LastFooter(Rest(footer, mode.blockSize), |footer|, macSize)])
  {
    hide Concat, FullLog, FooterLog, MessageLog, HeaderLog, WholeBlocks, Rest, Transformed, Authenticated;
    mac := [];
    var cipher := new AuthenticatedSymmetricCipher(mode);
    outcome := cipher.SetKey(true, true, true);
    FeedHeaders(cipher, headers);
    outcome, output := FeedMessages(cipher, messages);
    if outcome == Done {
      FeedFooters(cipher, footers);
      EveryByte(mode, Concat(messages), output);
      LogOfRun(mode, HeaderOf(headers, messages, footers), Concat(messages), FooterOf(messages, footers), macSize, output);
      outcome, mac := cipher.TruncatedFinal(macSize);
    }
  }
}
