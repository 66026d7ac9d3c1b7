# Verified models of the cryptographic core

This project models, in Dafny, the algorithms and protocols at the core of the repository and proves what they
are for. Each module stands for one component:

| file | component |
|---|---|
| `SimultaneousMultiply.dfy`, `CascadeMultiply.dfy`, `GeneralCascade.dfy` | fast multiplication in groups: sliding windows with buckets, a two-exponent window table, and Euclidean steps on a heap |
| `QuotientRing.dfy` | greatest common divisor and modular inverse |
| `BlumBlumShub.dfy` | the Blum Blum Shub generator with random access |
| `ModulesChooser.dfy` | the search for a self-sufficient set of modules |
| `Container.dfy`, `ContainerFiles.dfy` | the chunked authenticated container, in memory and in files |
| `BaseCode.dfy` | the encoder, decoder and grouper for 1 to 7 bits per character |
| `Asn.dfy` | BER and DER length octets, object identifiers, and re-encoding to definite lengths |
| `Blake2.dfy` | the streaming engine of BLAKE2s and BLAKE2b |
| `AuthEnc.dfy` | the state machine behind the authenticated encryption modes |
| `Adler32.dfy` | the Adler-32 checksum |
| `Bits.dfy`, `BitStrings.dfy`, `Sequences.dfy`, `Groups.dfy`, `Divisibility.dfy`, `NumberTheory.dfy`, `Options.dfy` | the mathematics these rest on |

Code that changes state is modelled as methods and classes over the same fields, loops included; each is proved
against a specification that does not mention how it is computed: repeated addition in the group, the stream
of a fresh generator, the existence of a self-sufficient set of modules, the concatenated bits of a message, the one-shot
hash of a standard.  Streaming classes carry the message so far as a ghost field, so their contracts say that
results depend only on the concatenation of the pieces.

Unseen parts are parameters with the contract that their callers rely on: a group is any structure with the
group laws (`Groups.Group.Laws`), an authenticated cipher is any pair of functions in which decryption inverts
encryption (`Container.Aead.Conforms`), the three heap functions of the C++ library promise a permutation that
is a heap (`GeneralCascade.StdHeap.Conforms`, which sorting meets), and the BLAKE2 compression function is any
function that keeps the length of the chaining value. A file is its bytes together with the number of bytes that each
read call may give, or its failure (`ContainerFiles.Supply`); a progress callback is any function of the bytes
processed and their total that lets the run go on or not.

Findings about the code that the model makes precise:

- The comments at src/CryptoApi.cpp:216-217 speak of chunks of 1 MiB; the constants are 1024 bytes, and the model
  follows the constants.
- `DecryptFile` reads a length prefix with a single call and takes fewer than four bytes for corrupt data, while
  `EncryptFile` accepts pieces of any size. A container that opens is decrypted if and only if no read call fails,
  every call for a prefix may give four bytes (`ContainerFiles.FileArrives`), and the callback never objects. Four bytes
  a call are enough for every container; one byte a call is not enough for any container with a record
  (`ContainerFiles.TornPrefix`), for example the one of `ContainerFiles.OneRecordTorn`.
- The check of the plaintext size against `INT_MAX` in the first pass of the in-memory reader cannot fail, because
  the announced size never exceeds the size of the container (`Container.ScanBound`, `Container.ScanRecords`).
- `MultiplicativeInverse` yields zero for every element outside (-m, m), although such an element may have an inverse
  (`QuotientRing.UnreducedElement`).
- `Seek` is right for every seed of two distinct primes exactly when 2^m is not a multiple of (p-1)(q-1), m being the
  number of squarings. For primes that are 3 modulo 4 that always holds; with 3 and 5, seed 3 and byte 1 it goes wrong
  (`BlumBlumShubGenerator.SeekGoesWrong`).
- An object identifier comes back from its encoding exactly when its second arc is below 40 and 40a + b fits a byte;
  2.100.3 comes back as 4.20.3.
- With a padding character inside the alphabet, k bits per character and blocks of s characters, base-N decoding
  undoes encoding exactly for the messages of n bytes with 8n a multiple of s*k: never for one byte in blocks of four
  characters of six bits (`BaseCode.OneByteLost`).
- Without any `ProcessData` call, input meant as footer is authenticated as header (`AuthenticatedEncryption.Run`).
- A `ProcessData` call that is refused because the footer has started still adds its length to the message counter.

## Model

| member | source | states |
|---|---|---|
| SimultaneousMultiplication.WindowSlider.constructor | 3rdParty/cryptopp890/algebra.cpp:208-218 | before its first window a slider still has the whole exponent to hand out, and its window size is the one given or goes with the length of the exponent |
| SimultaneousMultiplication.WindowSlider.FindNextWindow | 3rdParty/cryptopp890/algebra.cpp:220-247 | exactly the digit just left is taken off what remains of the exponent, the next window starts at least windowSize places higher, and the pending part shrinks |
| SimultaneousMultiplication.WindowSlider.CutWindow | 3rdParty/cryptopp890/algebra.cpp:237-246 | an odd value splits into a non-zero odd digit below 2^windowSize, negative only when negation is fast, and the part above it, without changing the value |
| SimultaneousMultiplication.WindowSlider.SkipZeros | 3rdParty/cryptopp890/algebra.cpp:222-233 | the skip ends on a set bit with only zeros passed over, or reports that nothing is left |
| SimultaneousMultiplication.Recode | 3rdParty/cryptopp890/algebra.cpp:237-246 | both the unsigned and the negated window, with the part above it, give back the odd value, and both windows are odd |
| SimultaneousMultiplication.WeightedBySuffixes | 3rdParty/cryptopp890/algebra.cpp:302-312 | running suffix sums, doubled once at the end, weigh bucket j by 2j+1 |
| SimultaneousMultiplication.WeightedUpdate | 3rdParty/cryptopp890/algebra.cpp:282-286 | adding to bucket i changes the weighted sum by 2i+1 times as much |
| SimultaneousMultiplication.FoldBuckets | 3rdParty/cryptopp890/algebra.cpp:301-312 | the bucket fold is the sum of (2j+1) times bucket j, in any group |
| SimultaneousMultiplication.TakeWindow | 3rdParty/cryptopp890/algebra.cpp:282-287 | putting a window into its bucket keeps buckets and slider together equal to exponent times base |
| SimultaneousMultiplication.VisitSlider | 3rdParty/cryptopp890/algebra.cpp:280-289 | a window is taken exactly at its bit position and no other slider changes |
| SimultaneousMultiplication.VisitPosition | 3rdParty/cryptopp890/algebra.cpp:277-290 | after a bit position no slider has a window behind it, and the flag says whether any slider is unfinished |
| SimultaneousMultiplication.BacklogShrinks | 3rdParty/cryptopp890/algebra.cpp:275-297 | a pass over the sliders lowers the total backlog or changes nothing |
| SimultaneousMultiplication.AheadShrinks | 3rdParty/cryptopp890/algebra.cpp:292-296 | without progress the distance to the windows ahead shrinks, so the main loop ends |
| SimultaneousMultiplication.FillBuckets | 3rdParty/cryptopp890/algebra.cpp:271-297 | the main loop ends with every slider finished and every exponent accounted for in its buckets |
| SimultaneousMultiplication.SimultaneousMultiply | 3rdParty/cryptopp890/algebra.cpp:255-314 | every result slot is its exponent times the base by repeated addition, in every group, and no other slot is written |
| SimultaneousMultiplication.ScalarMultiply | 3rdParty/cryptopp890/algebra.cpp:90-95 | the result is exponent times base |
| CascadeMultiplication.EntryAdd | 3rdParty/cryptopp890/algebra.cpp:118-128 | the sum of two right table entries is right where their coordinates add |
| CascadeMultiplication.FillColumn | 3rdParty/cryptopp890/algebra.cpp:120-122 | an odd column is filled with right entries from the first row to the last |
| CascadeMultiplication.FillRow | 3rdParty/cryptopp890/algebra.cpp:127-128 | a row is completed with right entries between its odd columns |
| CascadeMultiplication.FillTable | 3rdParty/cryptopp890/algebra.cpp:103-129 | every entry with an odd coordinate is written and is p1*x + p2*y; the others are never needed |
| CascadeMultiplication.ReadTable | 3rdParty/cryptopp890/algebra.cpp:154-162 | every table entry that the main loop reads has been filled with p1*x + p2*y |
| CascadeMultiplication.DropZeros | 3rdParty/cryptopp890/algebra.cpp:142-151 | the common factor 2^squaresAfter is removed, one of the rest is odd unless both are zero, and squaresBefore stays non-negative |
| CascadeMultiplication.DoubleMany | 3rdParty/cryptopp890/algebra.cpp:159-165 | n doublings multiply both coefficients by 2^n |
| CascadeMultiplication.TakeWindow | 3rdParty/cryptopp890/algebra.cpp:142-166 | a window shifts both coefficients up by its width and adds its two digits |
| CascadeMultiplication.AbsorbWindow | 3rdParty/cryptopp890/algebra.cpp:140-167 | after the window that ends at bit i the result is (e1>>i)*x + (e2>>i)*y |
| CascadeMultiplication.ReadBit | 3rdParty/cryptopp890/algebra.cpp:135-168 | one pass of the main loop keeps the result equal to the bits taken in and the powers equal to the bits read since |
| CascadeMultiplication.CascadeScalarMultiply | 3rdParty/cryptopp890/algebra.cpp:97-170 | the result is e1*x + e2*y, both by repeated addition, for all exponents, as soon as x and y commute |
| GeneralCascade.HeapTop | 3rdParty/cryptopp890/algebra.cpp:184-189 | the top of a heap has the largest exponent |
| GeneralCascade.SortingConforms | 3rdParty/cryptopp890/algebra.cpp:184-200 | the contract that the loop needs of make_heap, push_heap and pop_heap can be met: keeping the entries sorted by falling exponents meets it |
| GeneralCascade.TotalPermuted | 3rdParty/cryptopp890/algebra.cpp:184-201 | the sum of exponent*base does not depend on the order of the entries |
| GeneralCascade.PopSelectsLargest | 3rdParty/cryptopp890/algebra.cpp:185-189 | after pop_heap the last entry has the largest exponent and the first one the next largest |
| GeneralCascade.EuclidStep | 3rdParty/cryptopp890/algebra.cpp:190-196 | dividing the largest exponent by the next largest moves the quotient to the other base without changing the sum |
| GeneralCascade.StepKeepsTotal | 3rdParty/cryptopp890/algebra.cpp:187-200 | a heap step conserves the sum and strictly lowers the total of the exponents |
| GeneralCascade.ReduceLargest | 3rdParty/cryptopp890/algebra.cpp:189-196 | the step done in place conserves the sum, lowers the exponents and leaves a heap in front of the last entry |
| GeneralCascade.GeneralCascadeMultiplication | 3rdParty/cryptopp890/algebra.cpp:172-204 | for one or more pairs in an abelian group the result is the sum of exponent*base, and the loop ends |
| QuotientRing.Gcd | 3rdParty/cryptopp890/algebra.cpp:56-68 | the result is a common divisor that every common divisor divides, for all integers |
| QuotientRing.KeepsStep | 3rdParty/cryptopp890/algebra.cpp:77-84 | a division step keeps g congruent to v*a modulo m and the common divisors of m and a |
| QuotientRing.KeepsEnd | 3rdParty/cryptopp890/algebra.cpp:87 | at the end the last g is a unit exactly when there is an inverse, and v/g is that inverse |
| QuotientRing.InvertibleHasUnitDivisor | 3rdParty/cryptopp890/algebra.cpp:87 | an element with an inverse has only unit divisors in common with the modulus |
| QuotientRing.MultiplicativeInverse | 3rdParty/cryptopp890/algebra.cpp:70-88 | the answer is right, an inverse or zero when there is none, if and only if -m < a < m or a has no inverse; outside that range it is always zero |
| QuotientRing.UnreducedElement | 3rdParty/cryptopp890/algebra.cpp:76 | 8 has an inverse modulo 7 but is outside the range |
| NumberTheory.Fermat | 3rdParty/cryptopp890/blumshub.cpp:59 | a^p is congruent to a modulo every prime p |
| NumberTheory.PowerPeriod | 3rdParty/cryptopp890/blumshub.cpp:59-60 | positive exponents may change by multiples of p-1 modulo a prime, for every base |
| NumberTheory.ReduceExponent | 3rdParty/cryptopp890/blumshub.cpp:59-60 | an exponent may be reduced modulo (p-1)(q-1) for every base modulo pq, unless the reduced exponent is zero |
| BlumBlumShubGenerator.BlumExponentNotZero | 3rdParty/cryptopp890/blumshub.cpp:59 | no power of two is a multiple of (p-1)(q-1) for distinct p and q that are 3 modulo 4 |
| BlumBlumShubGenerator.SeekExponent | 3rdParty/cryptopp890/blumshub.cpp:59-60 | for distinct primes the jump reaches the m-th square for every seed if and only if 2^m is not a multiple of (p-1)(q-1) |
| BlumBlumShubGenerator.SeekMisses | 3rdParty/cryptopp890/blumshub.cpp:59-60 | the seed p shows the failure when 2^m is such a multiple |
| BlumBlumShubGenerator.SeekGoesWrong | 3rdParty/cryptopp890/blumshub.cpp:55-62 | with 3 and 5 and seed 3 the jump to byte 1 misses: five squarings, and 32 is a multiple of 2*4 |
| BlumBlumShubGenerator.BlumBlumShub.constructor | 3rdParty/cryptopp890/blumshub.cpp:9-15 | a new generator stands at the first bit of the stream of its seed, of which every block gives as many bits as the binary logarithm of the bit length of the modulus, rounded down |
| BlumBlumShubGenerator.BlockBits | 3rdParty/cryptopp890/blumshub.cpp:17-26 | the bits of a block, read as a number, are the low bits of its square |
| BlumBlumShubGenerator.FirstByte | 3rdParty/cryptopp890/blumshub.cpp:9-34 | with 7 and 11 and seed 2 every block gives two bits and the first byte is 0x14 |
| BlumBlumShubGenerator.BlumBlumShub.GenerateBit | 3rdParty/cryptopp890/blumshub.cpp:17-26 | the bit is the next one of the stream, blocks being squared only when needed |
| BlumBlumShubGenerator.BlumBlumShub.GenerateByte | 3rdParty/cryptopp890/blumshub.cpp:28-34 | the byte is the next eight bits, high bit first |
| BlumBlumShubGenerator.BlumBlumShub.GenerateBlock | 3rdParty/cryptopp890/blumshub.cpp:36-40 | the output is the next bytes of the stream and nothing else is written |
| BlumBlumShubGenerator.BlumBlumShub.Seek | 3rdParty/cryptopp890/blumshub.cpp:55-62 | for any factors p and q above one, afterwards the generator stands at byte `index` of the same stream if and only if the reduced exponent reaches the right square of its seed; that holds for distinct primes whenever 2^m is not a multiple of (p-1)(q-1), and always when both are 3 modulo 4 |
| ModulesChoice.ResolveDependencies | 3rdParty/botan3130/configure.py:2637-2676 | it ends, and succeeds exactly when some self-sufficient set of available modules contains the module, whatever the order of alternatives and with cycles; the returned set is such a set |
| ModulesChoice.MeetDependency | 3rdParty/botan3130/configure.py:2655-2674 | a dependency is met exactly when an alternative is loaded already or resolves on top of what is loaded |
| ModulesChoice.AnotherWay | 3rdParty/botan3130/configure.py:2659-2671 | a resolvable module has, for a dependency not met yet, an alternative that is resolvable on top of what is loaded: no choice made so far has to be undone |
| ModulesChoice.WayFound | 3rdParty/botan3130/configure.py:2676 | what a successful call has collected is itself self-sufficient |
| ModulesChoice.JoinSelfSufficient | 3rdParty/botan3130/configure.py:2695 | the sets found for several modules can be joined |
| ModulesChoice.CycleAndGap | 3rdParty/botan3130/configure.py:2655-2676 | two modules that need each other are resolvable, one whose only alternative is missing is not, until that one is loaded |
| ModulesChoice.ModulesChooser.ResolveDependenciesForAllModules | 3rdParty/botan3130/configure.py:2684-2702 | the new to-load set is self-sufficient within the old sets, keeps exactly the requested modules that are resolvable, and is disjoint from the new maybe-dep set; the others are recorded |
| Container.OpenAppend | src/CryptoApi.cpp:730-755 | records in front of others open separately, so that readers may go record by record |
| Container.Framing | src/CryptoApi.cpp:670-699 | a record is whole exactly when its little-endian length is at most 1024 and as many bytes follow behind nonce and tag |
| Container.RecordOpens | src/CryptoApi.cpp:411-488 | a record holds length, nonce, ciphertext and tag in this order, and opens to what the cipher makes of the three |
| Container.RecordLayout | src/CryptoApi.cpp:389-408 | a chunk is written as its length in four bytes, nonce, ciphertext and tag |
| Container.SealedByChunk | src/CryptoApi.cpp:568-593 | the bytes of the records, chunk by chunk, each with a nonce from a draw of its own |
| Container.SealedOpens | src/CryptoApi.cpp:568-593 | whatever the chunks, the records written for them open to their concatenation, and their size is plaintext plus 4 + nonce + tag for every chunk |
| Container.SealAllSucceeds | src/CryptoApi.cpp:564-612 | the loop over chunks succeeds exactly when the cipher takes the key, every chunk is sealed and the callback lets every chunk pass |
| Container.SealAllFails | src/CryptoApi.cpp:564-612 | the other statuses of the loop: INVALID_ARGUMENT for a refused key, UNEXPECTED_ERROR when a chunk cannot be sealed, OPERATION_CANCELLED when only the callback objects |
| Container.ChunkSealed | src/CryptoApi.cpp:564-612 | one pass of the loop: what decides the status, and what the callback is asked |
| Container.GrantedByChunks | src/CryptoApi.cpp:564-612 | the callback is asked after every 1024 bytes and at the end |
| Container.SizeInNumbers | src/CryptoApi.cpp:524-532 | the announced size is 16 + n + ceil(n/1024)*(4 + nonce + tag) |
| Container.EncryptWithKey | src/CryptoApi.cpp:321-408 | one message becomes nonce, ciphertext and tag, in this order, at the place given, nothing else in the buffer changes, and every status is given: INVALID_ARGUMENT without a key or when it is refused, UNEXPECTED_ERROR when nonce or ciphertext cannot be made |
| Container.DecryptWithKey | src/CryptoApi.cpp:411-488 | succeeds exactly when key, sizes and tag are accepted and then writes exactly the plaintext; a refused key is INVALID_ARGUMENT, a refused tag INVALID_DATA |
| Container.SealChunk | src/CryptoApi.cpp:570-593 | one chunk becomes a record behind its little-endian length |
| Container.WritingFits | src/CryptoApi.cpp:524-532 | the announced size leaves room for every record still to be written |
| Container.SealChunks | src/CryptoApi.cpp:564-593 | the loop fills exactly the announced size with the records of the 1024-byte chunks, each with a nonce from a draw of its own |
| Container.WholeText | src/CryptoApi.cpp:501-505 | a buffer and its size stand for the first bytes of the buffer, a null pointer for none |
| Container.EncryptBuffer | src/CryptoApi.cpp:492-630 | every status is given, null arguments, sizes, providers and cancellation included; it succeeds exactly when the arguments are good, the container fits, no provider fails and the callback lets every chunk pass, and then fills exactly the announced size, which opens to the input, empty input included |
| Container.OpenAllSucceeds | src/CryptoApi.cpp:726-774 | the loop over records succeeds exactly when every record opens and the callback lets every one pass |
| Container.OpenAllFails | src/CryptoApi.cpp:726-774 | the other statuses of the loop: INVALID_ARGUMENT for a refused key, INVALID_DATA when a record does not open, OPERATION_CANCELLED when only the callback objects |
| Container.RecordDecides | src/CryptoApi.cpp:670-774 | one record in front of others: its part of the announced size, what decides the status, and what the callback is asked |
| Container.ScanBound | src/CryptoApi.cpp:670-704 | the size announced by the framing is that of the plaintext and never above the size of the container |
| Container.ScanRecords | src/CryptoApi.cpp:670-704 | the first pass accepts exactly the well-framed containers and adds up their plaintext sizes; INVALID_ARGUMENT needs an input above INT_MAX |
| Container.OpenChunks | src/CryptoApi.cpp:726-774 | the second pass has the status of the first record that fails or is not let pass, and otherwise writes the plaintexts one behind the other |
| Container.DecryptBuffer | src/CryptoApi.cpp:633-792 | every status is given, null arguments and cancellation included: in particular INVALID_DATA for bad framing and for a container that does not open under an accepted key; it succeeds exactly when the arguments are good, the container opens, the plaintext fits and the callback lets every record pass, and then gives the plaintext and its size |
| ContainerFiles.FileHandle.ReadExact | src/CryptoApi.cpp:144-167 | gives exactly n bytes whatever the pieces, and fails exactly when a call fails or the file ends before |
| ContainerFiles.PiecesCover | src/CryptoApi.cpp:1036-1054 | the pieces read up to the end of a file are all of it |
| ContainerFiles.WritingFileStep | src/CryptoApi.cpp:1056-1080 | one more piece of the file extends the output by its record |
| ContainerFiles.EncryptFileSucceeds | src/CryptoApi.cpp:951-1104 | the writer succeeds exactly when no read fails before the end of the file, salt and key are derived, the cipher seals every piece read and the callback lets every piece pass |
| ContainerFiles.EncryptFileFails | src/CryptoApi.cpp:951-1104 | the other statuses of the writer: UNEXPECTED_ERROR without salt or key or when a piece cannot be sealed, INVALID_ARGUMENT for a refused key, OPERATION_CANCELLED when only the callback objects, FILE_IO_ERROR when only a read fails |
| ContainerFiles.ReliableEncrypts | src/CryptoApi.cpp:951-1104 | with a cipher that works on keys, nonces and chunks of its own sizes, a random source and a key derivation that do not fail, every file whose reads do not fail is encrypted, in whatever pieces it is read |
| ContainerFiles.SealFile | src/CryptoApi.cpp:1036-1098 | the loop has the status of the first piece that is not read, not sealed or not let pass, and otherwise the output is the records of all pieces |
| ContainerFiles.EncryptFile | src/CryptoApi.cpp:951-1104 | every status is given for every schedule of short or failing reads, and success exactly; the file written then opens to the file read |
| ContainerFiles.OpenRest | src/CryptoApi.cpp:1198-1263 | what is left of the file, behind the plaintext so far, means the same after each record |
| ContainerFiles.OpenFileSucceeds | src/CryptoApi.cpp:1198-1281 | the reader's loop succeeds exactly when the records open, no read call fails and every call for a prefix may give four bytes, and the callback lets every record pass |
| ContainerFiles.OpenFileFails | src/CryptoApi.cpp:1198-1281 | the other statuses when the reads arrive: INVALID_ARGUMENT for a refused key, INVALID_DATA when the records do not open, OPERATION_CANCELLED when only the callback objects |
| ContainerFiles.FileRecordDecides | src/CryptoApi.cpp:1198-1281 | one record in front of others, for any reads: FILE_IO_ERROR when the read of the prefix fails, INVALID_DATA when it is short or the record is not whole, then as in memory |
| ContainerFiles.DecryptFileFails | src/CryptoApi.cpp:1107-1288 | without a whole salt INVALID_DATA, without a key UNEXPECTED_ERROR, and when the reads arrive the statuses of the loop |
| ContainerFiles.FourBytesDecrypt | src/CryptoApi.cpp:1107-1288 | calls that never fail and may give four bytes decrypt every container that opens |
| ContainerFiles.TornPrefix | src/CryptoApi.cpp:1198-1220 | calls that give one byte at a time refuse every file that is longer than its salt with INVALID_DATA, unless the key derivation fails before |
| ContainerFiles.OneRecordTorn | src/CryptoApi.cpp:1198-1220 | a container of one record that opens is decrypted when calls give four bytes and refused when they give one |
| ContainerFiles.OpenFile | src/CryptoApi.cpp:1195-1281 | the streaming loop writes the plaintext of the same records as the in-memory reader, and has the status of the first read or record that fails |
| ContainerFiles.DecryptFile | src/CryptoApi.cpp:1107-1288 | every status is given for every schedule of reads; it succeeds if and only if the password is good, the container opens, no read call fails and every call for a prefix may give four bytes, and the callback lets every record pass; what is written then is the plaintext |
| BaseCode.BaseNEncoder.constructor | 3rdParty/cryptopp890/basecode.cpp:14-38 | the block is the least number of characters that holds whole bytes |
| BaseCode.BaseNEncoder.AbsorbByte | 3rdParty/cryptopp890/basecode.cpp:49-71 | the eight bits of a source byte go behind the bits already in the buffer, with every write in bounds |
| BaseCode.BaseNEncoder.FlushBlock | 3rdParty/cryptopp890/basecode.cpp:74-85 | a full block is output through the alphabet |
| BaseCode.BaseNEncoder.Finish | 3rdParty/cryptopp890/basecode.cpp:87-103 | the last bits are completed with zeros and the block with padding |
| BaseCode.BaseNEncoder.Put2 | 3rdParty/cryptopp890/basecode.cpp:40-105 | at the end of a message the output is the encoding of all pieces together, however they were split |
| BaseCode.BaseNDecoder.BlockSize | 3rdParty/cryptopp890/basecode.cpp:117-120 | the block is the least number of bytes that holds whole characters |
| BaseCode.BaseNDecoder.StoreValue | 3rdParty/cryptopp890/basecode.cpp:138-154 | the bits of a value go behind the bits already in the buffer, into one byte or two, with every write in bounds |
| BaseCode.BaseNDecoder.PutChar | 3rdParty/cryptopp890/basecode.cpp:128-160 | a character with a value from 0 to 255 adds its bits, any other is skipped |
| BaseCode.BaseNDecoder.Put2 | 3rdParty/cryptopp890/basecode.cpp:125-168 | at the end of a message the output is the whole bytes formed by all pieces together, however they were split |
| BaseCode.FinalValues | 3rdParty/cryptopp890/basecode.cpp:87-94 | what was output and what is in the buffer are the padded values of all bits of the message |
| BaseCode.RoundTrip | 3rdParty/cryptopp890/basecode.cpp:14-168 | for 1 to 7 bits per character, every alphabet with its table, and optional padding that the table skips, decoding the encoding gives back every message |
| BaseCode.ThreeBytes | 3rdParty/cryptopp890/basecode.cpp:49-85 | with six bits per character three bytes give the four values of section 4 of RFC 4648, and the bytes behind them give theirs |
| BaseCode.LastByte | 3rdParty/cryptopp890/basecode.cpp:87-94 | one byte at the end gives two values, with zeros for the bits missing |
| BaseCode.LastTwoBytes | 3rdParty/cryptopp890/basecode.cpp:87-94 | two bytes at the end give three values, with zeros for the bits missing |
| BaseCode.Base64Text | 3rdParty/cryptopp890/basecode.cpp:87-103 | the characters and the padding of messages of one, two and three bytes |
| BaseCode.PaddingInAlphabet | 3rdParty/cryptopp890/basecode.cpp:96-100 | with padding that the table does not skip, the round trip holds if and only if the bits of the message are a multiple of the bits of a block |
| BaseCode.OneByteLost | 3rdParty/cryptopp890/basecode.cpp:96-100 | such padding and four characters of six bits to a block: no message of one byte comes back |
| BaseCode.InitializeDecodingLookupArray | 3rdParty/cryptopp890/basecode.cpp:170-189 | every character gets the last position of the alphabet that stands for it, or -1 |
| BaseCode.ClaimsByNumber | 3rdParty/cryptopp890/basecode.cpp:178-187 | without regard to case a letter also stands for the one whose number differs by 32, and nothing else does |
| BaseCode.CaseDoesNotMatter | 3rdParty/cryptopp890/basecode.cpp:178-187 | then both cases of a letter have the same value |
| BaseCode.TableMatches | 3rdParty/cryptopp890/basecode.cpp:170-189 | the table fits the alphabet if and only if no later character also stands for an earlier one |
| BaseCode.Grouper.PutPiece | 3rdParty/cryptopp890/basecode.cpp:213-223 | a separator goes out exactly when a full group is followed by more |
| BaseCode.Grouper.Put2 | 3rdParty/cryptopp890/basecode.cpp:206-235 | the output is exact groups joined by the separator, then the terminator, however the input was split |
| BaseCode.GroupedAt | 3rdParty/cryptopp890/basecode.cpp:206-228 | character i stands behind i/g separators |
| BaseCode.SeparatorAt | 3rdParty/cryptopp890/basecode.cpp:206-228 | every group but the first has the separator in front |
| BaseCode.GroupedRoundTrip | 3rdParty/cryptopp890/basecode.cpp:40-235 | encoder, grouper and a decoder that skips separator and terminator give back every message |
| Asn.BytePrecision | 3rdParty/cryptopp890/misc.h:1024-1040 | the bisection finds the number of significant octets of every 64-bit value |
| Asn.BitPrecision | 3rdParty/cryptopp890/misc.h:1047-1064 | the bisection finds the number of significant bits of every 32-bit value |
| Asn.DerLengthEncode | 3rdParty/cryptopp890/asn.cpp:20-39 | the octets put out are the short form or the count and the octets of the length without leading zeros |
| Asn.LengthOctets | 3rdParty/cryptopp890/asn.cpp:20-39 | the number itself up to 127, otherwise 0x80 plus a count and as many octets, each by its weight, the first one not zero |
| Asn.BerLengthDecode | 3rdParty/cryptopp890/asn.cpp:41-77 | every outcome, consumed octets included: short, indefinite, long form with up to 127 octets, truncated, overflow |
| Asn.BerLongLength | 3rdParty/cryptopp890/asn.cpp:63-75 | the long form is read as its value, and overflow is found before it happens |
| Asn.WholeLongForm | 3rdParty/cryptopp890/asn.cpp:63-75 | of octets that are all there, exactly the numbers below 2^64 are taken |
| Asn.LengthRoundTrip | 3rdParty/cryptopp890/asn.cpp:20-77 | decoding inverts encoding for every 64-bit length, whatever follows |
| Asn.LengthMinimal | 3rdParty/cryptopp890/asn.cpp:20-39 | no length octets that decode to the same length are shorter |
| Asn.ParsedBer | 3rdParty/cryptopp890/asn.cpp:501-512 | what is read is a well-formed object and the data is its octets followed by the rest |
| Asn.BytesParse | 3rdParty/cryptopp890/asn.cpp:271-286 | every well-formed object is read back from its octets, whatever follows |
| Asn.IndefiniteTag | 3rdParty/cryptopp890/asn.cpp:501-512 | an object of indefinite length is read exactly when bit 5 of its tag is set, whatever its members are, and re-encoded with the definite length of its re-encoded members |
| Asn.EmptyIndefinite | 3rdParty/cryptopp890/asn.cpp:501-512 | the empty one, as in 30 80 00 00, becomes its tag and a zero |
| Asn.BerGeneralDecoder.Init | 3rdParty/cryptopp890/asn.cpp:501-512 | opens exactly the objects with the tag and a length that is definite, or indefinite when bit 5 of the tag is set |
| Asn.BerGeneralDecoder.MessageEnd | 3rdParty/cryptopp890/asn.cpp:553-567 | closes on used-up contents or on end-of-contents octets, which it removes |
| Asn.DerGeneralEncoder.MessageEnd | 3rdParty/cryptopp890/asn.cpp:624-631 | puts out tag, shortest definite length and contents |
| Asn.TransferChildren | 3rdParty/cryptopp890/asn.cpp:281-282 | the members up to the end-of-contents octets are re-encoded in order |
| Asn.DerReencode | 3rdParty/cryptopp890/asn.cpp:271-286 | it ends, succeeds exactly when the source starts with a well-formed object, consumes exactly that object and writes it with a definite length |
| Asn.ReencodeIdempotent | 3rdParty/cryptopp890/asn.cpp:271-286 | the result is well formed with the same tag and contents, and re-encoding changes it no more |
| Asn.ReencodeMinimal | 3rdParty/cryptopp890/asn.cpp:271-286 | no object of definite length with the same contents is shorter |
| Asn.MembersKept | 3rdParty/cryptopp890/asn.cpp:281-285 | the new contents of an object of indefinite length hold its re-encoded members and nothing else |
| Asn.EncodeValue | 3rdParty/cryptopp890/asn.cpp:307-312 | a 32-bit arc becomes its base-128 digits without leading zeros, marked but for the last |
| Asn.DecodeValue | 3rdParty/cryptopp890/asn.cpp:314-331 | reads one arc and its octet count, or finds truncation or overflow |
| Asn.ArcRoundTrip | 3rdParty/cryptopp890/asn.cpp:307-331 | every 32-bit arc is read back and exactly its octets are consumed |
| Asn.ArcTooLarge | 3rdParty/cryptopp890/asn.cpp:314-331 | a number of more than 32 bits is refused |
| Asn.Oid.DerEncode | 3rdParty/cryptopp890/asn.cpp:333-343 | puts out tag, length and arcs, the first two cut to one byte |
| Asn.Oid.BerDecode | 3rdParty/cryptopp890/asn.cpp:345-372 | reads an identifier and consumes exactly it, or fails |
| Asn.OidDecoded | 3rdParty/cryptopp890/asn.cpp:333-372 | decoding an encoding changes at most the first two arcs |
| Asn.OidRoundTrip | 3rdParty/cryptopp890/asn.cpp:333-372 | an identifier comes back if and only if its second arc is below 40 and 40a + b is below 256 |
| Asn.OidChanged | 3rdParty/cryptopp890/asn.cpp:337 | 2.100.3 comes back as 4.20.3 |
| Asn.RsaOid | 3rdParty/cryptopp890/asn.cpp:333-343 | 1.2.840.113549 is 06 06 2a 86 48 86 f7 0d |
| Blake2Streaming.SplitUnique | 3rdParty/cryptopp890/blake2.cpp:536-571 | a last block of 1 to blockSize bytes held back determines which blocks have been compressed |
| Blake2Streaming.OneShotIsRfc | 3rdParty/cryptopp890/blake2.cpp:611-634 | the specification of the streaming engine is the indexed loop of section 3.3 of RFC 7693 |
| Blake2Streaming.TwoBlocks | 3rdParty/cryptopp890/blake2.cpp:536-634 | a message of two blocks: the counters and flags of both, and the zeros behind the second |
| Blake2Streaming.CounterStep | 3rdParty/cryptopp890/blake2.cpp:661-673 | the two words with their carry are the byte count |
| Blake2Streaming.CounterDigits | 3rdParty/cryptopp890/blake2.cpp:661-673 | the two words are the low and the high digit of the byte count |
| Blake2Streaming.Blake2.Restart | 3rdParty/cryptopp890/blake2.cpp:474-503 | a new run starts from the initialization vector combined with the parameter block, into which the sizes of digest and key go, with counter and flags at zero, and its first data is the key completed with zeros to a block, if there is a key |
| Bits.XorBit | 3rdParty/cryptopp890/blake2.cpp:495-496 | a bit of the combination is set when exactly one of the two bits is |
| Blake2Streaming.InitialBits | 3rdParty/cryptopp890/blake2.cpp:491-496 | every bit of the first chaining value: that of the vector, flipped where the parameters have a bit, the sizes of digest and key standing in front |
| Blake2Streaming.KeyBlock | 3rdParty/cryptopp890/blake2.cpp:498-502 | the first block of a keyed hash is the key, then zeros |
| Blake2Streaming.SequentialParameters | 3rdParty/cryptopp890/blake2.cpp:474-503 | without salt, personalization and tree parameters only the first four bytes of the vector change, as RFC 7693 says: by the bits of the two sizes, and by the lowest bit of the third and the fourth |
| Blake2Streaming.Blake2.CompressBlock | 3rdParty/cryptopp890/blake2.cpp:549-550 | the chaining value and the counter then cover one more block |
| Blake2Streaming.Blake2.Update | 3rdParty/cryptopp890/blake2.cpp:536-571 | the message grows by the input; all but the last non-empty block is compressed, however the message was split |
| Blake2Streaming.Blake2.TruncatedFinal | 3rdParty/cryptopp890/blake2.cpp:611-634 | the bytes written are those of the one-shot hash of the message under the key, nothing else is written, and the engine is ready for a new message; sizes above the digest size are refused |
| AuthenticatedEncryption.BlocksAppend | 3rdParty/cryptopp890/authenc.cpp:11-51 | blocks and leftover of two pieces are those of their concatenation |
| AuthenticatedEncryption.BlockAt | 3rdParty/cryptopp890/authenc.cpp:11-51 | block i is the i-th piece of the data of the size of a block |
| AuthenticatedEncryption.BlockCount | 3rdParty/cryptopp890/authenc.cpp:11-51 | there are as many blocks as fit, and the leftover is the end of the data |
| AuthenticatedEncryption.LogOfRun | 3rdParty/cryptopp890/authenc.cpp:124-135 | what is authenticated in a run: the header, then the plaintext or the ciphertext, as the mode announces, whichever of the two is the input, then the footer |
| AuthenticatedEncryption.HooksOnceInOrder | 3rdParty/cryptopp890/authenc.cpp:141-184 | on a complete run the last-header, last-confidential and last-footer hooks are called once each, in this order, with the leftovers of header, message and footer |
| AuthenticatedEncryption.AuthenticatedSymmetricCipher.AuthenticateData | 3rdParty/cryptopp890/authenc.cpp:11-51 | whole blocks are authenticated and the rest is kept in the buffer |
| AuthenticatedEncryption.AuthenticatedSymmetricCipher.SetKey | 3rdParty/cryptopp890/authenc.cpp:53-65 | the state after a key that is refused or accepted, with and without an initialization vector |
| AuthenticatedEncryption.AuthenticatedSymmetricCipher.Resynchronize | 3rdParty/cryptopp890/authenc.cpp:67-78 | needs a key, and starts an empty run |
| AuthenticatedEncryption.AuthenticatedSymmetricCipher.Restart | 3rdParty/cryptopp890/authenc.h:59 | a run is abandoned but the key is kept |
| AuthenticatedEncryption.AuthenticatedSymmetricCipher.Update | 3rdParty/cryptopp890/authenc.cpp:80-107 | input is header before the message and footer after it, the first footer byte ends the message, empty input changes nothing |
| AuthenticatedEncryption.AuthenticatedSymmetricCipher.ProcessData | 3rdParty/cryptopp890/authenc.cpp:109-139 | the first call ends the header, the output is the keystream applied at the right position, and calls over the limit or after the footer are refused |
| AuthenticatedEncryption.AuthenticatedSymmetricCipher.TruncatedFinal | 3rdParty/cryptopp890/authenc.cpp:141-184 | a refused call changes nothing; otherwise the log of the run is that of header, message and footer, and the tag is computed from it |
| AuthenticatedEncryption.Run | 3rdParty/cryptopp890/authenc.cpp:53-184 | a whole run in any pieces succeeds exactly within the limits; its output is the keystream applied to the concatenated message, and its tag is that of header, plaintext or ciphertext, as the mode announces, and footer, where the footer counts as header when there is no message call at all |
| Adler32Checksum.Adler32.AddFew | 3rdParty/cryptopp890/adler32.cpp:15-27 | the first bytes leave both sums reduced, and no 32-bit sum wraps around |
| Adler32Checksum.Adler32.AddEight | 3rdParty/cryptopp890/adler32.cpp:31-44 | a single subtraction reduces s1 after eight bytes |
| Adler32Checksum.Adler32.AddBlocks | 3rdParty/cryptopp890/adler32.cpp:29-47 | reducing s2 only when the length left is a multiple of 0x8000 never lets it wrap around and leaves it reduced |
| Adler32Checksum.Adler32.Update | 3rdParty/cryptopp890/adler32.cpp:8-54 | both sums end below 65521 and equal to the definition on the whole message |
| Adler32Checksum.Adler32.TruncatedFinal | 3rdParty/cryptopp890/adler32.cpp:56-80 | the first bytes of the checksum, most significant first, are written and a new message starts; larger sizes are refused |
| Adler32Checksum.FromTheFront | 3rdParty/cryptopp890/adler32.cpp:8-54 | a byte in front adds itself to s1 and one more than the bytes behind it times itself to s2 |
| Adler32Checksum.ChecksumNumber | 3rdParty/cryptopp890/adler32.cpp:56-80 | the four bytes are s2 and s1 modulo 65521, high bytes first |
| Adler32Checksum.WikipediaChecksum | 3rdParty/cryptopp890/adler32.cpp:8-80 | the checksum of the nine letters of Wikipedia is 11e60398 |

## Left out

- Machine integers of the arbitrary-precision class and of bit positions: exponents, window positions and message counters are unbounded here; only the sums of Adler-32, the counter words of BLAKE2, 32-bit arcs, 64-bit lengths and the INT_MAX checks of the container have their widths.
- GeneralCascade.GeneralCascadeMultiplication: the bodies of make_heap, push_heap and pop_heap are not modelled, only the contract that the C++ standard gives them; an empty range, on which the original is undefined, is excluded.
- CascadeMultiplication.CascadeScalarMultiply: the unset entries of the power table are a parameter, because the original leaves them default-constructed.
- SimultaneousMultiplication.SimultaneousMultiply: a missing list of exponents with a positive count is not modelled.
- QuotientRing.MultiplicativeInverse: only the integers are modelled as the Euclidean domain.
- BlumBlumShubGenerator.BlumBlumShub: ProcessData, which combines the same bytes with its input, is left out.
- ModulesChoice.ResolveDependencies: a dependency is the set of its alternatives, already split at the bars; the rest of the configuration script (options, templates, compiler probing, logging) is left out.
- ContainerFiles.EncryptFile: writes to the output file always succeed and a failed run does not describe the partial file; paths, opening of files, deletion of partial output and wiping of keys are left out.
- Container.EncryptBuffer: a missing callback is one that never objects, and the percentage it is given is left out, being a function of the other two numbers; overlap of input and output buffers and a null pointer for the output size are left out.
- Container.EncryptWithKey: a null key or input is left out, since the callers check for it.
- Container.Aead: ciphers, key derivation and random source are parameters and their creation does not fail; the iteration count of the key derivation is part of the parameter.
- BaseCode.BaseNEncoder.Put2: the resumable paths of the filter macros are left out; every output call takes everything. Parameter parsing of the three codecs is left out.
- BaseCode.BaseNDecoder.constructor: table values outside the alphabet's range are either skipped or below 2^bitsPerChar, as the table initializer makes them.
- Asn.DerReencode: when it fails, what was already consumed or written is not described; contents are shorter than 2^64 bytes where the length octets matter.
- Asn.BerGeneralDecoder: nested decoders of indefinite length pass reads on, so all of them read from the outermost queue; the other operations of the two classes are left out.
- Strings, integers, bit strings, dates and key formats of the ASN.1 code, and the debug printing in it, are left out.
- Blake2Streaming.Blake2.Restart: a customized counter is left out; salt and personalization are part of the parameter block as given, and words are held as their bytes in memory order.
- The BLAKE2 compression function and all SIMD variants are left out.
- AuthenticatedEncryption.AuthenticatedSymmetricCipher: the modes (GCM, CCM, EAX) are parameters: block size, limits, a keystream that works position by position, and a tag computed from the log; checking of prespecified lengths is left out, and lengths do not wrap at 2^64.
- Thin forwarding methods, constructors and factories of the facade, RSA, signatures, key agreement, certificates, PGP and SSH are left out.
