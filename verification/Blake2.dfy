/** The streaming engine of BLAKE2s and BLAKE2b: 3rdParty/cryptopp890/blake2.cpp, lines 462-660. The compression
  function is a parameter.
*/
module Blake2Streaming {
  import opened Bits
  import opened Sequences

  /** Compresses a block: chaining value, block, the two counter words and the two flag words. */
  type Compression = (seq<byte>, seq<byte>, nat, nat, nat, nat) -> seq<byte>

  /** What BLAKE2s and BLAKE2b differ in. The chaining value is held as its bytes in memory order. */
  datatype Variant = Variant(blockSize: nat, wordLimit: nat, compress: Compression) {
    ghost predicate Valid() {
      && 0 < blockSize < wordLimit
      && forall h, m, t0, t1, f0, f1 :: |compress(h, m, t0, t1, f0, f1)| == |h|
    }

    function Low(count: nat): nat
      requires wordLimit > 0
    {
      count % wordLimit
    }

    function High(count: nat): nat
      requires wordLimit > 0
    {
      Quotient(count, wordLimit) % wordLimit
    }
  }

  // ----- the hash of RFC 7693, section 3.3

  function Zeros(n: nat): seq<byte> {
    seq(n, _ => 0)
  }

  /** The chaining value after all blocks but the last one; the counter of a block is the number of bytes
    up to its end. */
  function Chain(v: Variant, initial: seq<byte>, blocks: seq<seq<byte>>): seq<byte>
    requires v.wordLimit > 0
  {
    if blocks == [] then initial
    else
      var n, count := |blocks| - 1, |Concat(blocks)|;
      v.compress(Chain(v, initial, blocks[..n]), blocks[n], v.Low(count), v.High(count), 0, 0)
  }

  /** All full blocks but the last block, and the last block, which is empty only for empty data. */
  function Split(data: seq<byte>, blockSize: nat): (seq<seq<byte>>, seq<byte>)
    requires blockSize > 0
  {
    if |data| <= blockSize then ([], data)
    else
      var (blocks, last) := Split(data[blockSize..], blockSize);
      ([data[..blockSize]] + blocks, last)
  }

  /** The hash of the data: the key block, when there is a key, and the message. The last block is completed
    with zeros, its counter counts the bytes of the data, and it sets the flags. */
  function OneShot(v: Variant, initial: seq<byte>, treeMode: bool, data: seq<byte>): seq<byte>
    requires v.Valid()
  {
    var (blocks, last) := Split(data, v.blockSize);
    SplitParts(data, v.blockSize);
    v.compress(Chain(v, initial, blocks), last + Zeros(v.blockSize - |last|), v.Low(|data|), v.High(|data|),
               v.wordLimit - 1, if treeMode then v.wordLimit - 1 else 0)
  }

  /** A key is completed with zeros to one block; without a key there is no key block. */
  function PaddedKey(key: seq<byte>, blockSize: nat): (r: seq<byte>)
    requires |key| <= blockSize
    ensures r == [] || |r| == blockSize
  {
    if key == [] then [] else key + Zeros(blockSize - |key|)
  }

  function XorByte(a: byte, b: byte): byte {
    Pow2Eight();
    XorBelow(a, b, 8);
    Xor(a, b)
  }

  lemma Pow2Eight()
    ensures Pow2(8) == 256
  {
    assert Pow2(4) == 16;
  }

  /** The initialization vector combined with the parameter block, whose first two bytes are the sizes of digest and key. */
  function InitialValue(iv: seq<byte>, parameterBlock: seq<byte>, digestSize: nat, keySize: nat): (h: seq<byte>)
    requires |iv| == |parameterBlock| >= 2
    ensures |h| == |iv|
  {
    var parameters := parameterBlock[0 := digestSize % 0x100][1 := keySize % 0x100];
    seq(|iv|, i requires 0 <= i < |iv| => XorByte(iv[i], parameters[i]))
  }

  /** The hash of a message under a key, both unpadded. */
  function Hash(v: Variant, iv: seq<byte>, parameterBlock: seq<byte>, digestSize: nat, key: seq<byte>, treeMode: bool,
                message: seq<byte>): seq<byte>
    requires v.Valid() && |iv| == |parameterBlock| >= 2 && |key| <= v.blockSize
  {
    OneShot(v, InitialValue(iv, parameterBlock, digestSize, |key|), treeMode, PaddedKey(key, v.blockSize) + message)
  }

  ghost predicate Full(blocks: seq<seq<byte>>, blockSize: nat) {
    forall i :: 0 <= i < |blocks| ==> |blocks[i]| == blockSize
  }

  lemma {:induction false} SplitParts(data: seq<byte>, blockSize: nat)
    requires blockSize > 0
    ensures var (blocks, last) := Split(data, blockSize);
            && Full(blocks, blockSize) && Concat(blocks) + last == data
            && |last| <= blockSize && (last == [] <==> data == [])
  {
    if |data| > blockSize {
      SplitParts(data[blockSize..], blockSize);
      var (blocks, last) := Split(data[blockSize..], blockSize);
      ConcatFront(data[..blockSize], blocks);
      Reassociate(data[..blockSize], Concat(blocks), last);
    }
  }

  /** Holding back a last block that is neither empty nor longer than a block determines the split. */
  lemma {:induction false} SplitUnique(blocks: seq<seq<byte>>, last: seq<byte>, blockSize: nat)
    requires blockSize > 0 && Full(blocks, blockSize) && |last| <= blockSize && (last == [] ==> blocks == [])
    ensures Split(Concat(blocks) + last, blockSize) == (blocks, last)
    decreases |blocks|
  {
    if blocks == [] {
      assert Concat(blocks) + last == last;
    } else {
      var head, tail := blocks[0], blocks[1..];
      var rest := Concat(tail) + last;
      assert [head] + tail == blocks;
      ConcatFront(head, tail);
      Reassociate(head, Concat(tail), last);
      SplitUnique(tail, last, blockSize);
      assert (head + rest)[..blockSize] == head && (head + rest)[blockSize..] == rest;
      assert |rest| > 0;
    }
  }

  /** The counters of RFC 7693: the i-th block has i + 1 times the block size. */
  lemma {:induction false} BlockCounters(blocks: seq<seq<byte>>, blockSize: nat)
    requires Full(blocks, blockSize)
    ensures |Concat(blocks)| == |blocks| * blockSize
  {
    if blocks != [] {
      var n := |blocks| - 1;
      BlockCounters(blocks[..n], blockSize);
      NextProduct(n, blockSize);
    }
  }

  /** The loop of RFC 7693, section 3.3: the chaining value after the first n blocks of the data. */
  function RfcChain(v: Variant, initial: seq<byte>, data: seq<byte>, n: nat): seq<byte>
    requires v.wordLimit > 0 && n * v.blockSize <= |data|
  {
    if n == 0 then initial
    else
      NextProduct(n - 1, v.blockSize);
      var count := n * v.blockSize;
      v.compress(RfcChain(v, initial, data, n - 1), data[count - v.blockSize..count], v.Low(count), v.High(count), 0, 0)
  }

  /** The index of the last of the blocks that the RFC pads the data to: there is always one block. */
  function LastIndex(n: nat, blockSize: nat): nat
    requires blockSize > 0
  {
    if n == 0 then 0 else Quotient(n - 1, blockSize)
  }

  lemma {:induction false} ChainIsRfc(v: Variant, initial: seq<byte>, blocks: seq<seq<byte>>, data: seq<byte>, n: nat)
    requires v.wordLimit > 0 && Full(blocks, v.blockSize) && n <= |blocks| && Concat(blocks) <= data
    ensures n * v.blockSize <= |data| && RfcChain(v, initial, data, n) == Chain(v, initial, blocks[..n])
  {
    BlockCounters(blocks[..n], v.blockSize);
    ConcatPrefix(blocks, n);
    if n > 0 {
      NextProduct(n - 1, v.blockSize);
      ChainIsRfc(v, initial, blocks, data, n - 1);
      BlockCounters(blocks[..n - 1], v.blockSize);
      assert blocks[..n][..n - 1] == blocks[..n - 1] && blocks[..n][n - 1] == blocks[n - 1];
      var count := n * v.blockSize;
      assert Concat(blocks[..n]) == data[..count];
      assert data[count - v.blockSize..count] == blocks[n - 1];
    }
  }

  /** The hash is that of RFC 7693: the chain over all blocks but the last one, then the last block, completed
    with zeros, with the length of the data as its counter. */
  lemma OneShotIsRfc(v: Variant, initial: seq<byte>, treeMode: bool, data: seq<byte>)
    requires v.Valid()
    ensures var n := LastIndex(|data|, v.blockSize);
            && n * v.blockSize <= |data| <= n * v.blockSize + v.blockSize
            && OneShot(v, initial, treeMode, data)
               == v.compress(RfcChain(v, initial, data, n), data[n * v.blockSize..] + Zeros(v.blockSize - (|data| - n * v.blockSize)),
                             v.Low(|data|), v.High(|data|), v.wordLimit - 1, if treeMode then v.wordLimit - 1 else 0)
  {
    hide Concat, Full, RfcChain, Chain;
    var (blocks, last) := Split(data, v.blockSize);
    SplitParts(data, v.blockSize);
    BlockCounters(blocks, v.blockSize);
    if data != [] {
      DivModUnique(|data| - 1, v.blockSize, |blocks|, |last| - 1);
    }
    assert blocks[..|blocks|] == blocks;
    ChainIsRfc(v, initial, blocks, data, |blocks|);
    assert data[|blocks| * v.blockSize..] == last;
  }

  /** What is combined with byte i of the vector: the sizes of digest and key in front, then the parameters given. */
  function Parameter(parameterBlock: seq<byte>, digestSize: nat, keySize: nat, i: nat): byte
    requires i < |parameterBlock|
  {
    if i == 0 then digestSize % 0x100 else if i == 1 then keySize % 0x100 else parameterBlock[i]
  }

  /** A bit of the first chaining value is that of the vector, flipped where the parameter has a bit. */
  lemma InitialBits(iv: seq<byte>, parameterBlock: seq<byte>, digestSize: nat, keySize: nat, i: nat, bit: nat)
    requires |iv| == |parameterBlock| >= 2 && i < |iv|
    ensures var h := InitialValue(iv, parameterBlock, digestSize, keySize);
            GetBit(h[i], bit) == (GetBit(iv[i], bit) + GetBit(Parameter(parameterBlock, digestSize, keySize, i), bit)) % 2
  {
    hide Xor, GetBit;
    XorBit(iv[i], Parameter(parameterBlock, digestSize, keySize, i), bit);
  }

  /** Without salt, personalization and tree parameters the block starts with the digest size, the key size and two
    ones, and is zero otherwise: only the first four bytes of the vector change, as RFC 7693 says, and the third and
    the fourth only in their lowest bit. */
  lemma SequentialParameters(iv: seq<byte>, parameterBlock: seq<byte>, digestSize: nat, keySize: nat)
    requires |iv| == |parameterBlock| >= 4 && digestSize < 0x100 && keySize < 0x100
    requires parameterBlock[2] == parameterBlock[3] == 1 && forall i :: 4 <= i < |iv| ==> parameterBlock[i] == 0
    ensures var h := InitialValue(iv, parameterBlock, digestSize, keySize);
            && (forall bit: nat :: GetBit(h[0], bit) == (GetBit(iv[0], bit) + GetBit(digestSize, bit)) % 2)
            && (forall bit: nat :: GetBit(h[1], bit) == (GetBit(iv[1], bit) + GetBit(keySize, bit)) % 2)
            && (forall i :: 2 <= i < 4 ==> h[i] == if iv[i] % 2 == 0 then iv[i] + 1 else iv[i] - 1)
            && (forall i :: 4 <= i < |iv| ==> h[i] == iv[i])
  {
    hide Xor, GetBit;
    forall bit: nat ensures var h := InitialValue(iv, parameterBlock, digestSize, keySize);
                            && GetBit(h[0], bit) == (GetBit(iv[0], bit) + GetBit(digestSize, bit)) % 2
                            && GetBit(h[1], bit) == (GetBit(iv[1], bit) + GetBit(keySize, bit)) % 2 {
      InitialBits(iv, parameterBlock, digestSize, keySize, 0, bit);
      InitialBits(iv, parameterBlock, digestSize, keySize, 1, bit);
    }
    XorOne(iv[2]);
    XorOne(iv[3]);
    forall i | 4 <= i < |iv| ensures Xor(iv[i], 0) == iv[i] {
      XorZero(iv[i]);
    }
  }

  /** The first block of a keyed hash: the key, then zeros. */
  lemma KeyBlock(key: seq<byte>, blockSize: nat)
    requires |key| <= blockSize
    ensures key == [] ==> PaddedKey(key, blockSize) == []
    ensures key != [] ==> |PaddedKey(key, blockSize)| == blockSize && forall i :: 0 <= i < blockSize ==> PaddedKey(key, blockSize)[i] == if i < |key| then key[i] else 0
  {
  }

  /** The two counter words are the digits of the number of bytes. */
  lemma CounterDigits(v: Variant, count: nat)
    requires v.wordLimit > 0
    ensures v.Low(count) < v.wordLimit && v.High(count) < v.wordLimit && v.wordLimit * v.wordLimit > 0
    ensures v.High(count) * v.wordLimit + v.Low(count) == count % (v.wordLimit * v.wordLimit)
  {
    var w := v.wordLimit;
    var q, r := count / w, count % w;
    var s, t := q / w, q % w;
    assert count == q * w + r && q == s * w + t;
    NestedDivision(count, w, w, q, r, s, t);
    DivModUnique(count, w * w, s, t * w + r);
  }

  /** A message of two blocks: the first is compressed with the bytes of one block as its counter and without flags,
    the second, completed with zeros, with the bytes of the message and the last-block flag. */
  lemma TwoBlocks(v: Variant, initial: seq<byte>, treeMode: bool, first: seq<byte>, second: seq<byte>)
    requires v.Valid() && |first| == v.blockSize && 0 < |second| <= v.blockSize && 2 * v.blockSize < v.wordLimit
    ensures OneShot(v, initial, treeMode, first + second)
         == v.compress(v.compress(initial, first, v.blockSize, 0, 0, 0), second + seq(v.blockSize - |second|, _ => 0),
                       |first| + |second|, 0, v.wordLimit - 1, if treeMode then v.wordLimit - 1 else 0)
  {
    var data := first + second;
    assert data[..v.blockSize] == first && data[v.blockSize..] == second;
    assert Split(data, v.blockSize) == ([first] + [], second);
    ChainOne(v, initial, first);
    DivModUnique(|data|, v.wordLimit, 0, |data|);
    DivModUnique(0, v.wordLimit, 0, 0);
    hide Chain, Split;
    assert [first] + [] == [first];
  }

  lemma ChainOne(v: Variant, initial: seq<byte>, block: seq<byte>)
    requires v.Valid() && |block| == v.blockSize
    ensures Chain(v, initial, [block]) == v.compress(initial, block, v.blockSize, 0, 0, 0)
  {
    assert [block][..0] == [] && Concat([block]) == block;
    DivModUnique(v.blockSize, v.wordLimit, 0, v.blockSize);
    DivModUnique(0, v.wordLimit, 0, 0);
  }

  // ----- the streaming state

  /** Addition of machine words. */
  function AddMod(a: nat, b: nat, w: nat): nat
    requires w > 0
  {
    (a + b) % w
  }

  function NextLow(t0: nat, count: nat, w: nat): nat
    requires w > 0
  {
    AddMod(t0, count, w)
  }

  /** The carry shows in a low word below what was added. */
  function NextHigh(t0: nat, t1: nat, count: nat, w: nat): nat
    requires w > 0
  {
    AddMod(t1, if NextLow(t0, count, w) < count then 1 else 0, w)
  }

  lemma CounterStep(v: Variant, total: nat, count: nat)
    requires v.wordLimit > 0 && count < v.wordLimit
    ensures v.Low(total + count) == NextLow(v.Low(total), count, v.wordLimit)
    ensures v.High(total + count) == NextHigh(v.Low(total), v.High(total), count, v.wordLimit)
  {
    var w := v.wordLimit;
    var q, low := total / w, total % w;
    assert total == q * w + low;
    if low + count < w {
      DivModUnique(total + count, w, q, low + count);
      DivModUnique(low + count, w, 0, low + count);
      ModTwice(q, w);
    } else {
      NextProduct(q, w);
      DivModUnique(total + count, w, q + 1, low + count - w);
      DivModUnique(low + count, w, 1, low + count - w);
      ModNext(q, w);
    }
  }

  lemma ModTwice(q: nat, w: nat)
    requires w > 0
    ensures (q % w + 0) % w == q % w
  {
    DivModUnique(q % w, w, 0, q % w);
  }

  lemma ModNext(q: nat, w: nat)
    requires w > 0
    ensures (q + 1) % w == (q % w + 1) % w
  {
    var a, r := q / w, q % w;
    assert q == a * w + r;
    if r + 1 < w {
      DivModUnique(q + 1, w, a, r + 1);
      DivModUnique(r + 1, w, 0, r + 1);
    } else {
      NextProduct(a, w);
      DivModUnique(q + 1, w, a + 1, 0);
      DivModUnique(r + 1, w, 1, 0);
    }
  }

  class Blake2 {
    const variant: Variant
    const iv: seq<byte>
    const parameterBlock: seq<byte>
    const digestSize: nat
    const key: seq<byte>
    const treeMode: bool
    const keyBlock: seq<byte>
    const initial: seq<byte>
    const buf: array<byte>
    var len: nat
    var h: seq<byte>
    var t0: nat
    var t1: nat
    var f0: nat
    var f1: nat
    ghost var blocks: seq<seq<byte>>
    ghost var message: seq<byte>

    /** The padded key and the initial chaining value are those of the key and of the parameters. */
    ghost predicate Params() {
      && variant.Valid() && buf.Length == variant.blockSize
      && |iv| == |parameterBlock| >= 2 && digestSize <= |iv| && |key| <= variant.blockSize
      && keyBlock == PaddedKey(key, variant.blockSize)
      && initial == InitialValue(iv, parameterBlock, digestSize, |key|)
    }

    /** The chaining value and the counter cover the compressed blocks. */
    ghost predicate Compressed()
      reads this
    {
      && Params() && Full(blocks, variant.blockSize)
      && h == Chain(variant, initial, blocks) && |h| == |initial|
      && t0 == variant.Low(|Concat(blocks)|) && t1 == variant.High(|Concat(blocks)|)
      && f0 == 0 && f1 == 0
    }

    /** The buffer holds back the last block, which is empty only before the first byte. */
    ghost predicate Valid()
      reads this, buf
    {
      && Compressed() && len <= buf.Length && (len == 0 ==> blocks == [])
      && Concat(blocks) + buf[..len] == keyBlock + message
    }

    constructor (variant: Variant, iv: seq<byte>, parameterBlock: seq<byte>, digestSize: nat, key: seq<byte>, treeMode: bool)
      requires variant.Valid() && |iv| == |parameterBlock| >= 2 && digestSize <= |iv| && |key| <= variant.blockSize
      ensures Valid() && message == [] && fresh(buf)
      ensures this.variant == variant && this.iv == iv && this.parameterBlock == parameterBlock
      ensures this.digestSize == digestSize && this.key == key && this.treeMode == treeMode
    {
      this.variant, this.iv, this.parameterBlock := variant, iv, parameterBlock;
      this.digestSize, this.key, this.treeMode := digestSize, key, treeMode;
      keyBlock := PaddedKey(key, variant.blockSize);
      initial := InitialValue(iv, parameterBlock, digestSize, |key|);
      buf := new byte[variant.blockSize];
      len, h, t0, t1, f0, f1, blocks, message := 0, [], 0, 0, 0, 0, [], [];
      new;
      Restart();
    }

    method Restart()
      requires Params()
      modifies this, buf
      ensures Valid() && message == [] && blocks == [] && t0 == t1 == f0 == f1 == 0
      ensures h == InitialValue(iv, parameterBlock, digestSize, |key|)
    {
      h, t0, t1, f0, f1, len := InitialValue(iv, parameterBlock, digestSize, |key|), 0, 0, 0, 0, 0;
      blocks, message := [], [];
      DivModUnique(0, variant.wordLimit, 0, 0);
      hide InitialValue;
      if |key| != 0 {
        CopyIn(keyBlock);
        assert Concat(blocks) + buf[..len] == keyBlock;
      }
      assert keyBlock + [] == keyBlock;
    }

    method IncrementCounter(count: nat, ghost total: nat)
      requires variant.Valid() && count < variant.wordLimit
      requires t0 == variant.Low(total) && t1 == variant.High(total)
      modifies this`t0, this`t1
      ensures t0 == variant.Low(total + count) && t1 == variant.High(total + count)
    {
      CounterStep(variant, total, count);
      hide AddMod, Quotient;
      t0 := AddMod(t0, count, variant.wordLimit);
      var carry := if t0 < count then 1 else 0;
      t1 := AddMod(t1, carry, variant.wordLimit);
    }

    method Compress(block: seq<byte>)
      modifies this`h
      ensures h == variant.compress(old(h), block, t0, t1, f0, f1)
    {
      h := variant.compress(h, block, t0, t1, f0, f1);
    }

    /** Compresses a block that is not the last one. */
    method CompressBlock(block: seq<byte>)
      requires Compressed() && |block| == variant.blockSize
      modifies this`h, this`t0, this`t1, this`blocks
      ensures Compressed() && blocks == old(blocks) + [block]
    {
      IncrementCounter(variant.blockSize, |Concat(blocks)|);
      Compress(block);
      assert (blocks + [block])[..|blocks|] == blocks;
      blocks := blocks + [block];
    }

    /** Copies bytes behind those in the buffer. */
    method CopyIn(s: seq<byte>)
      requires len + |s| <= buf.Length
      modifies buf, this`len
      ensures len == old(len) + |s| && buf[..len] == old(buf[..len]) + s
    {
      for i := 0 to |s|
        invariant forall j :: 0 <= j < len ==> buf[j] == old(buf[j])
        invariant forall j :: 0 <= j < i ==> buf[len + j] == s[j]
        modifies buf
      {
        buf[len + i] := s[i];
      }
      len := len + |s|;
    }

    /** The chaining value covers whole blocks of the data, and some of it is left in `rest`. */
    ghost predicate Pending(data: seq<byte>, rest: seq<byte>)
      reads this
    {
      Compressed() && Concat(blocks) + rest == data
    }

    lemma Advance(data: seq<byte>, done: seq<seq<byte>>, block: seq<byte>, rest: seq<byte>)
      requires Concat(done) + (block + rest) == data
      ensures Concat(done + [block]) + rest == data
    {
      assert (done + [block])[..|done|] == done;
      Reassociate(Concat(done), block, rest);
    }

    /** Completes the block in the buffer. */
    method FinishBuffer(input: seq<byte>, ghost data: seq<byte>)
      requires Compressed() && len <= buf.Length && Concat(blocks) + buf[..len] + input == data && len + |input| > variant.blockSize
      modifies this`h, this`t0, this`t1, this`blocks, this`len, buf
      ensures len == 0 && Pending(data, input[variant.blockSize - old(len)..])
    {
      var fill := variant.blockSize - len;
      ghost var rest := input[fill..];
      Reassociate(Concat(blocks), buf[..len], input);
      assert buf[..len] + input == buf[..len] + input[..fill] + rest;
      CopyIn(input[..fill]);
      assert buf[..] == buf[..len];
      Advance(data, blocks, buf[..], rest);
      CompressBlock(buf[..]);
      len := 0;
    }

    /** Compresses all blocks of the input but the last one. */
    method CompressAll(input: seq<byte>, start: nat, ghost data: seq<byte>) returns (pos: nat)
      requires start < |input| && Pending(data, input[start..])
      modifies this`h, this`t0, this`t1, this`blocks
      ensures start <= pos < |input| <= pos + variant.blockSize && Pending(data, input[pos..])
    {
      hide Concat, Chain, Full, Quotient, InitialValue, PaddedKey;
      pos := start;
      while |input| - pos > variant.blockSize
        invariant start <= pos < |input| && Pending(data, input[pos..])
      {
        var block := input[pos..pos + variant.blockSize];
        assert input[pos..] == block + input[pos + variant.blockSize..];
        Advance(data, blocks, block, input[pos + variant.blockSize..]);
        CompressBlock(block);
        pos := pos + variant.blockSize;
      }
    }

    /** Compresses what must not be held back. */
    method Drain(input: seq<byte>, ghost data: seq<byte>) returns (pos: nat)
      requires Valid() && data == keyBlock + message + input
      modifies this`h, this`t0, this`t1, this`blocks, this`len, buf
      ensures Compressed() && pos <= |input| && len + (|input| - pos) <= variant.blockSize
      ensures Concat(blocks) + (buf[..len] + input[pos..]) == data
      ensures len == 0 && pos == |input| ==> blocks == []
    {
      hide Concat, Chain, Full, Quotient, InitialValue, PaddedKey;
      pos := 0;
      Reassociate(Concat(blocks), buf[..len], input);
      assert input[0..] == input;
      if |input| > variant.blockSize - len {
        if len != 0 {
          pos := variant.blockSize - len;
          FinishBuffer(input, data);
        }
        pos := CompressAll(input, pos, data);
        assert buf[..0] + input[pos..] == input[pos..];
      }
    }

    /** Adds bytes to the message. */
    method Update(input: seq<byte>)
      requires Valid()
      modifies this, buf
      ensures Valid() && message == old(message) + input
    {
      hide Concat, Chain, Full, Quotient, InitialValue, PaddedKey;
      var pos := Drain(input, keyBlock + message + input);
      if |input| - pos > 0 {
        CopyIn(input[pos..]);
      } else {
        assert buf[..len] + input[pos..] == buf[..len];
      }
      message := message + input;
      Reassociate(keyBlock, old(message), input);
    }

    /** Writes the first `size` bytes of the hash and starts again; false where the original throws. */
    method TruncatedFinal(hash: array<byte>, size: nat) returns (ok: bool)
      requires Valid() && hash != buf && (size <= digestSize ==> size <= hash.Length)
      modifies this, buf, hash
      ensures ok == (size <= digestSize)
      ensures !ok ==> Valid() && message == old(message) && hash[..] == old(hash[..])
      ensures ok ==> Valid() && message == []
      ensures ok ==> hash[size..] == old(hash[size..])
      ensures ok ==> var digest := Hash(variant, iv, parameterBlock, digestSize, key, treeMode, old(message));
                     size <= |digest| && hash[..size] == digest[..size]
    {
      if size > digestSize {
        return false;
      }
      Finish();
      forall i | 0 <= i < size {
        hash[i] := h[i];
      }
      Restart();
      ok := true;
    }

    /** The hash by the blocks before the last one. */
    static lemma LastBlock(v: Variant, initial: seq<byte>, treeMode: bool, blocks: seq<seq<byte>>, last: seq<byte>,
                           data: seq<byte>)
      requires v.Valid() && Full(blocks, v.blockSize) && |last| <= v.blockSize && (last == [] ==> blocks == [])
      requires Concat(blocks) + last == data
      ensures var chain := Chain(v, initial, blocks);
              && |OneShot(v, initial, treeMode, data)| == |chain|
              && OneShot(v, initial, treeMode, data)
                 == v.compress(chain, last + Zeros(v.blockSize - |last|), v.Low(|data|), v.High(|data|),
                               v.wordLimit - 1, if treeMode then v.wordLimit - 1 else 0)
    {
      hide Chain, Concat, Full, Quotient;
      SplitUnique(blocks, last, v.blockSize);
    }

    /** Completes the buffer with zero bytes. */
    method FillZeros()
      requires len <= buf.Length
      modifies buf
      ensures buf[..] == old(buf[..len]) + Zeros(buf.Length - len)
    {
      for i := len to buf.Length
        invariant forall j :: 0 <= j < len ==> buf[j] == old(buf[j])
        invariant forall j :: len <= j < i ==> buf[j] == 0
        modifies buf
      {
        buf[i] := 0;
      }
    }

    /** Compresses the last block. */
    method Finish()
      requires Valid()
      modifies this`f0, this`f1, this`t0, this`t1, this`h, buf
      ensures h == OneShot(variant, initial, treeMode, keyBlock + message) && |h| == |initial|
    {
      hide Concat, Chain, Full, Quotient, InitialValue, PaddedKey, OneShot;
      ghost var last := buf[..len];
      f0 := variant.wordLimit - 1;
      if treeMode {
        f1 := variant.wordLimit - 1;
      }
      IncrementCounter(len, |Concat(blocks)|);
      FillZeros();
      LastBlock(variant, initial, treeMode, blocks, last, keyBlock + message);
      Compress(buf[..]);
    }
  }
}
