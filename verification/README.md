# A verified model of a BitTorrent client

The client reads bencoded metainfo, talks to a UDP tracker and to peers, cuts the file into pieces and
blocks, and checks pieces with SHA-1 from the `digestpp` library. This project models the parts of it
that have to be exactly right, and proves what they promise. `dafny verify dfyconfig.toml` checks it.

**Bencode** (`Bencode*.dfy`, `Decimals`, `Metainfo`). The decoder keeps a stack of pointers into a tree that it is still
building. A pointer is modelled as the path to the node it points at, and writing through it as replacing
that node (`BencodePaths`). `BasicDecode` has the source's loop, and is proved equal to a recursive-descent
reading of the text, errors and error offsets included. On the grammar rest the round trip, at any depth
and with any trailing input, independence of the order of dictionary entries, and canonicalisation.
`Metainfo` builds on it: what is loaded from a metainfo file, and when the info hash is the hash of the
very bytes in the file. `BencodeExamples` has two texts byte by byte.

**Hashing** (`Absorb`, `MerkleDamgard`, `Sha1`, `Sha2`, `Blake2`, `Blake2x`, `Skein`, `Shake`, `Esch`, `Cshake`,
`CounterXof`, `Xof`). All providers share one buffering routine, in an eager and a lazy mode. It is a class
whose invariant ties buffer, chaining value and counter to the message so far, over an abstract block
transformation; the providers are then proved against the standards: FIPS 180-4, FIPS 202, RFC 7693, SP
800-185 and the Skein 1.3 paper. SHA-1, which the client depends on, is modelled down to its rounds on
32-bit words. Output of arbitrary length is compared with one infinite stream, for every split.

**Peer wire protocol** (`Serialization`, `Messages`, `Connection`). Codec and framing are proved against
the byte layout of BEP 3 and composed into one end-to-end statement; the handshake gate is a machine over
events in any interleaving, and each handler of the connection class is one of its steps.

**Download** (`Pieces`, `Completion`, `PieceObjects`, `Torrent`, `RarestFirst`, `RequestLoop`). Blocks tile
the file; completion and validation are a machine over all runs, which the piece and torrent classes
refine; the rarest-first index, kept behind a dirty flag, agrees with the live availabilities; the request
loop fills the pipeline.

**Tracker** (`Tracker`, `UdpTracker`). The handlers of the UDP tracker are steps of a machine whose events
may come in any order and at any time, which includes every order the timers and the socket can produce.

Where a promise does not hold for all inputs, the code is kept as it is and the exact condition is proved:

- a text comes back from re-encoding exactly when it is canonical (`ReencodeExact`; `i007e` does not), and
  `info` is hashed as it stands in the file exactly when it is canonical and has both its integers
  (`InfoHashedBytes`, with `MissingLengthHashed` as an instance);
- a string that is too long for the input is noticed exactly when its length is below 2^63 (`LengthGuard`,
  with `HugeLengthReadsOn` as an instance);
- the cSHAKE header is `bytepad` exactly when it does not already end on a block boundary (`HeaderIsBytePad`,
  with `AlignedHeaderGetsBlockOfZeros` as an instance);
- squeezes stay in step with the stream exactly when none of no bytes comes first or, for SHAKE, at a block
  boundary (`NothingSkipped`, with `EmptySqueezeSkips` as an instance; for Esch, Skein
  and BLAKE2X in the contracts of `Squeeze`, with the two `EmptySqueezeFirst` as instances);
- the blocks tile the file exactly when length, piece length and piece count are consistent (`FileTiled`,
  with `SecondPieceWrapsAround` as an instance);
- a write lands where it belongs exactly below an offset of 2^32 (`WritePlacement`, with `WriteAtFourGiB` as an
  instance);
- the counter of complete blocks is right exactly when no block was reported twice (`CounterExact`, with
  `RepeatedReportValidatesEarly` as an instance);
- without repeated reports, all pieces can become validated exactly when none is empty (`AllCanBeValidated`,
  with `SecondPieceEmpty` as an instance);
- a bit field is received whole exactly when it has at most 2^28 bytes (`AllBitsReceived`, with
  `HugeBitFieldCut` as an instance);
- the tracker's announces stay right exactly when the connection id is good, and one kind of answer spoils
  it (`GoodIsWeakest`, `StepGoodExactly`, with `ErrorToConnectSpoils` as an instance).

Specifications that code is compared with are tied down in turn, in bytes, bits and numbers or by instances
(`FrameMeans`, `ScheduleBits`, `PaddedBytes`, `LessExactly`, `AnswerIs` and others).

A byte is an integer below 256, and file contents, wires and messages are sequences of bytes. Widths are
written out where they matter. A decoder that throws returns an error value. Handlers and callbacks are
atomic steps. A little-endian host is assumed, as the documentation of `digestpp` does.

## Model

| member | source | states |
|---|---|---|
| BencodeDigits.LeavesRangeExact | service/include/service/bencode.h:295-320 | the bound tests, which never compute the new value, are true exactly when appending the digit leaves the type's range, at both ends of `long long` and at the top of `size_t` |
| BencodeDigits.ShortNumberInRange | service/include/service/bencode.h:324-344 | any run of at most `digits10` digits fits, so the unchecked steps cannot overflow |
| BencodeDigits.DecodeDigits | service/include/service/bencode.h:322-370 | the reader's loop has the outcome of the declarative `Number` (run of digits, value, error, offset), and every intermediate value stays in range |
| BencodeDigits.NumberSound | service/include/service/bencode.h:322-370 | whatever is accepted is in range and is the signed decimal that stands in the text |
| BencodeDigits.NumberExact | service/include/service/bencode.h:322-370 | a run without leading zeros is accepted if and only if its number fits, the two bounds included |
| BencodeDigits.NumberAccepted | service/include/service/bencode.h:322-370 | a number is accepted if and only if something follows it, it has at most 19 digits (20 for a length), leading zeros included, and it fits 64 bits; no digits at all are zero |
| BencodeDigits.WriteIntegerFits | service/include/service/bencode.h:667-682 | the buffer of `digits10 + 2` characters holds every number of the type, sign included |
| BencodeDigits.NumberRoundTrip | service/include/service/bencode.h:667-682 | a written number, followed by any non-digit, is read back exactly, and has no leading zero |
| BencodeGrammar.ParsedValueValid | service/include/service/bencode.h:460-542 | every decoded value has integers and lengths in range and strictly increasing keys in every dictionary |
| BencodeGrammar.FirstByte | service/include/service/bencode.h:518-535 | integers, lists, dictionaries and strings begin with `i`, `l`, `d` and a digit, nothing begins with another byte, and an element for a key that is taken is refused where it has been read, or where its container opens |
| BencodeGrammar.IntegerRejections | service/include/service/bencode.h:372-392 | `i`, `i7` and `i7x` are rejected at their ends, and `ie` is zero |
| BencodeGrammar.StringRejections | service/include/service/bencode.h:395-415 | `2x` and `2:x` are rejected, the one for its syntax, the other for its end |
| BencodeGrammar.ContainerRejections | service/include/service/bencode.h:505-520 | where `l`, `d`, `di` and `d0:` are rejected |
| BencodeGrammar.TakenFails | service/include/service/bencode.h:488-495 | an element for a key that is already there is never accepted, whatever the element is |
| BencodePaths.PathExtend | service/include/service/bencode.h:481-499 | the pointer returned by `store` denotes the element, and writing through it changes the container it was stored in |
| BencodePaths.PathPrefix | service/include/service/bencode.h:473-499 | every pointer below the top of the stack is live and denotes a container that leads on to the next one |
| BencodePaths.PutKeepsPrefix | service/include/service/bencode.h:473-499 | a write through the top pointer leaves each pointer below it denoting the container it was pushed for, changed only along the way to the top |
| BencodePaths.StoredChild | service/include/service/bencode.h:481-499 | storing into a list or dictionary and then replacing the stored element is storing the replacement |
| BencodeDecoder.DecodeInt | service/include/service/bencode.h:372-392 | an integer token is read as the grammar says, with the same error and offset |
| BencodeDecoder.DecodeStr | service/include/service/bencode.h:405-415 | a string token is read as the grammar says, with the same error and offset; the test for the end of the input is the coded one, with its signed length, and reading beyond the end is the outcome PastEnd |
| BencodeGrammar.LengthGuard | service/include/service/bencode.h:407-410 | the coded test lets a string longer than the rest of the input through if and only if its length is 2^63 or more |
| BencodeGrammar.StrPastEnd | service/include/service/bencode.h:405-415 | the string reader goes beyond the end of the input if and only if it is at such a string |
| BencodeGrammar.ValuePastEnd | service/include/service/bencode.h:460-542 | the decoder goes beyond the end of the input if and only if it comes to such a string, in whatever container; every other text is decoded or rejected |
| BencodeGrammar.HugeLengthReadsOn | service/include/service/bencode.h:407-414 | the text `9223372036854775808:` is an instance |
| BencodeDecoder.ReadStream | service/include/service/bencode.h:417-426 | the reader for streams, byte by byte, notices the end of the input for every length |
| BencodeDecoder.Store | service/include/service/bencode.h:481-499 | the root, the end of a list, or a new key of a dictionary; refused exactly for a key that is taken |
| BencodeDecoder.StoreOpen | service/include/service/bencode.h:525-530 | storing an empty container and reading on inside it amounts to reading that container as an element |
| BencodeDecoder.CloseInnermost | service/include/service/bencode.h:506-511 | popping the stack at an `e` leaves a valid stack and exactly the rest of the surrounding containers to read |
| BencodeDecoder.DecodeElement | service/include/service/bencode.h:522-535 | one element moves the decoder forward, keeps the stack valid and keeps what is left to read; errors are the grammar's |
| BencodeDecoder.BasicDecode | service/include/service/bencode.h:460-542 | the stack machine refines the recursive grammar: on every input the same value and rest, or the same error at the same offset, where PastEnd stands for the undefined reads that LengthGuard describes |
| BencodeValue.LessExactly | service/include/service/bencode.h:53-53 | a key comes before another if and only if they agree up to some place where it has ended or has the smaller byte, as `operator<` of `std::string` has it |
| BencodeValue.PrefixFirst | service/include/service/bencode.h:53-53 | a key comes after every proper prefix of it, as `name.utf-8` after `name` |
| BencodeValue.SortedUnique | service/include/service/bencode.h:704-709 | two maps with the same entries are iterated, and so encoded, in the same order |
| BencodeTheorems.RoundTripAt | service/include/service/bencode.h:685-764 | wherever an encoding stands in a text, decoding there gives the value, stops right after it, and the text is canonical |
| BencodeOrder.NormalExactly | service/include/service/bencode.h:488-495 | two writable values have the same sorted form if and only if they differ only in the order of dictionary entries, at any depth |
| BencodeTheorems.ParsedAt | service/include/service/bencode.h:460-542 | a text with dictionary entries in any order, at any depth, decodes to the sorted form of what is written |
| BencodeTheorems.RoundTrip | service/include/service/bencode.h:685-764 | decode(encode(v) + rest) is v and leaves exactly rest, for values of any depth |
| BencodeExamples.ListExample | service/include/service/bencode.h:685-764 | the list of -42 and `spam` is written `li-42e4:spame`, and read back from it |
| BencodeExamples.DictExample | service/include/service/bencode.h:685-764 | the dictionary from `cow` to `spam` is written `d3:cow4:spame`, and read back from it |
| BencodeTheorems.ReencodeExact | service/include/service/bencode.h:460-764 | re-encoding a decoded text gives that text back if and only if it has minimal decimals and strictly increasing keys throughout |
| BencodeTheorems.LeadingZerosDropped | service/include/service/bencode.h:460-764 | `i007e` is a text that does not come back: it is re-encoded as `i7e` |
| BencodeTheorems.ReencodeIdempotent | service/include/service/bencode.h:460-764 | re-encoding keeps the value and reaches a canonical text in one step |
| BencodeTheorems.AnyEntryOrder | service/include/service/bencode.h:488-495 | two texts decode and re-encode alike if and only if what is written in them differs only in the order of dictionary entries, at whatever depth |
| Metainfo.LookUp | service/include/service/bencode.h:91-92 | looking a key up puts a missing one into the dictionary, as the integer 0, and changes no other value |
| Metainfo.Load | service/src/metainfo.cpp:10-32 | the fields of a metainfo file, or a failure when the file is not bencoded or an entry has the wrong type, which a missing string or dictionary has; what is loaded is what stands under `announce`, `piece length`, `length` and `pieces`, the hashes being its parts of 20 bytes; the info hash is the SHA-1 digest of the dictionary as the look-ups leave it |
| Metainfo.LoadsExactly | service/src/metainfo.cpp:10-32 | a file is loaded if and only if it has the strings and the dictionary, and neither of the two integers has another type |
| Metainfo.LoadRoundTrip | service/src/metainfo.cpp:10-32 | a file written with an announce URL, a length, a piece length and hashes is loaded with exactly these, and with the SHA-1 digest of its `info` |
| Metainfo.ReencodedLength | service/src/metainfo.cpp:32-32 | re-encoding makes a text at most twice as long, so the hashed text stays below the limit of the hash |
| Metainfo.InfoHashedBytes | service/src/metainfo.cpp:17-32 | what is hashed is the part of the file that `info` was decoded from, behind the only key `info` that the decoder comes to in the outer dictionary, if and only if that part is canonical and has both `length` and `piece length` |
| Metainfo.MissingLengthHashed | service/src/metainfo.cpp:17-32 | `d8:announce0:4:infod12:piece lengthi1e6:pieces0:ee` is canonical and is loaded, but `6:lengthi0e` is hashed with it |
| Absorb.BlocksTaken | digestpp/detail/absorb_data.hpp:28-36 | the number of blocks taken leaves less than a block behind in the eager mode, and one byte to a whole block in the lazy mode |
| Absorb.Absorber.constructor | digestpp/algorithm/detail/sha1_provider.hpp:51-60 | a fresh provider is valid and has absorbed nothing |
| Absorb.Absorber.Transform | digestpp/algorithm/detail/sha1_provider.hpp:96-102 | the callback on several blocks is the chain of the single transformations, each with its own byte count |
| Absorb.Absorber.CopyIn | digestpp/detail/absorb_data.hpp:37-37 | a copy changes exactly its target range, which lies inside the buffer |
| Absorb.Absorber.Update | digestpp/detail/absorb_data.hpp:14-39 | the buffer, chaining value, position and bit counter after any update are those of the whole message so far, and `total` is 8 * (absorbed - pos) |
| Absorb.BufferedUnique | digestpp/detail/absorb_data.hpp:14-39 | how many bytes stay in the buffer depends only on how many were absorbed and on the mode |
| Absorb.SplitInvariant | digestpp/detail/absorb_data.hpp:14-39 | two providers that absorbed the same message in whatever pieces agree in state, position, counter and live buffer |
| Absorb.AbsorbIterator | digestpp/hasher.hpp:161-170 | byte-by-byte absorption is absorption of the whole |
| Absorb.AbsorbStream | digestpp/hasher.hpp:131-146 | absorption from a stream, a buffer at a time, is absorption of the whole |
| Absorb.Absorber.Copy | digestpp/hasher.hpp:266-275 | the copy that `digest` works on is in the same state and shares no memory |
| MerkleDamgard.ZeroCountIs | digestpp/algorithm/detail/sha2_provider.hpp:172-185 | the number of padding zeros that fills the last block is the one of the standard, and the only one below a block |
| MerkleDamgard.PaddedBytes | digestpp/algorithm/detail/sha2_provider.hpp:172-185 | the padded message byte by byte: the message, 0x80, zeros, and the number of bits in 8 or 16 bytes, in as few blocks as can hold it |
| MerkleDamgard.LengthField | digestpp/algorithm/detail/sha2_provider.hpp:182-184 | a 64-bit length written at the end of zeros is the longer length field of the standard |
| MerkleDamgard.PaddedOneBlock | digestpp/algorithm/detail/sha1_provider.hpp:68-81 | the message padded by the standard, when the length fits in the last block, is what the buffer is made into |
| MerkleDamgard.PaddedTwoBlocks | digestpp/algorithm/detail/sha1_provider.hpp:72-77 | the same when one more block is needed |
| MerkleDamgard.Final | digestpp/algorithm/detail/sha2_provider.hpp:172-189 | for every message below 2^61 bytes and any chunking, `final` gives the compression function iterated over the message padded by section 5.1 of FIPS 180-4, with 8- or 16-byte lengths |
| MerkleDamgard.Digest | digestpp/hasher.hpp:266-275 | a digest in the middle of absorbing is the digest so far, and changes nothing of the hasher |
| Sha2.Hash | digestpp/algorithm/detail/sha2_provider.hpp:166-189 | the digest of any sequence of updates: the standard's hash of the concatenation, for both word sizes, with blocks of 64 bytes and lengths of 8 or twice that, its words swapped and stored most significant byte first, cut to the digest's length |
| Sha2.SwappedStore | digestpp/algorithm/detail/sha2_provider.hpp:186-188 | a swapped word, stored on a little-endian host, is written most significant byte first |
| Sha2.DigestWord | digestpp/algorithm/detail/sha2_provider.hpp:186-189 | word i of the digest is word i of the chaining value, most significant byte first |
| Sha2.NameOfSha512of256 | digestpp/algorithm/detail/sha2_provider.hpp:152-164 | the name that SHA-512/256 hashes is `SHA-512/256` |
| Sha2.InitTruncated | digestpp/algorithm/detail/sha2_provider.hpp:152-164 | the initial value of SHA-512/t is the hash of its name from the changed initial values (section 5.3.6 of FIPS 180-4), and nothing is left in the buffer |
| Sha1.SwappedLoad | digestpp/algorithm/detail/sha1_provider.hpp:100-102 | loading a word on a little-endian host and swapping it gives the big-endian word of the block |
| Sha1.Expand | digestpp/algorithm/detail/sha1_provider.hpp:100-108 | the message schedule is W_t of the standard for all 80 words; ScheduleBits and WordBits say what these are |
| Sha1.ScheduleBits | digestpp/algorithm/detail/sha1_provider.hpp:107-108 | bit j + 1 of W_t, counted around, is the exclusive or of bit j of W_(t-3), W_(t-8), W_(t-14) and W_(t-16) |
| Sha1.WordBits | digestpp/algorithm/detail/sha1_provider.hpp:100-106 | the first sixteen words are the block, four bytes each, most significant first, and a word of the digest is written so |
| Sha1.ScheduleOfAbc | digestpp/algorithm/detail/sha1_provider.hpp:100-108 | `abc` is padded to one block, and its W_16 is 0xc2c4c700 |
| Sha1.ChBits | digestpp/algorithm/detail/sha1_provider.hpp:21-24 | Ch has the bit of y where x has one, and that of z elsewhere |
| Sha1.MajBits | digestpp/algorithm/detail/sha1_provider.hpp:31-34 | Maj has the bits that at least two of three have |
| Sha1.RotateIs | digestpp/algorithm/detail/sha1_provider.hpp:120-123 | the rotations of a round are by 5 and by 30 |
| Sha1.TemporaryIs | digestpp/algorithm/detail/sha1_provider.hpp:120-120 | T is the sum of five words modulo 2^32 |
| Sha1.RoundIs | digestpp/algorithm/detail/sha1_provider.hpp:116-143 | round t has Ch, Parity, Maj and Parity again in its four quarters, with their constants, and shifts the variables on |
| Sha1.Constants | digestpp/algorithm/detail/constants/sha1_constants.hpp:21-23 | the constants are the square roots of 2, 3, 5 and 10 with thirty binary places |
| Sha1.CompressIs | digestpp/algorithm/detail/sha1_provider.hpp:144-148 | what eighty rounds give is added word by word |
| Sha1.DigestIs | digestpp/algorithm/detail/sha1_provider.hpp:51-85 | the five initial words, and the order of the words in the digest |
| Sha1.Sha1OfBlock | digestpp/algorithm/detail/sha1_provider.hpp:68-85 | a message of at most 55 bytes is one block: the message, 0x80, zeros, and the number of bits |
| Sha1.EightyRounds | digestpp/algorithm/detail/sha1_provider.hpp:110-143 | the rounds, with function and constant switched after rounds 19, 39 and 59, are those of section 6.1.2 of FIPS 180-4 |
| Sha1.Transform | digestpp/algorithm/detail/sha1_provider.hpp:96-151 | the chaining value updated in place is the compression function iterated over the blocks |
| Sha1.SwappedStore | digestpp/algorithm/detail/sha1_provider.hpp:82-84 | swapping a word before storing it on a little-endian host writes it most significant byte first |
| Sha1.ComputeHash | service/include/service/sha1.h:21-27 | the service's hash is the SHA-1 digest of FIPS 180-4 of its input |
| Blake2.CallsExplicit | digestpp/algorithm/detail/blake2_provider.hpp:268-285 | call i of the compression function has block i, the counter (i + 1) * blocksize and no flag, except the last one, never empty unless there is no data, which has the total count and the flag (section 3.3 of RFC 7693) |
| Blake2.HashOfBlock | digestpp/algorithm/detail/blake2_provider.hpp:229-241 | a message that fits a block, without a key, is one call, with its length and the final flag |
| Blake2.FoldMore | digestpp/algorithm/detail/blake2_provider.hpp:268-285 | each call starts from the result of the one before |
| Blake2.KeyBlockIs | digestpp/algorithm/detail/blake2_provider.hpp:256-266 | a key is filled up with zeros to a block, and no key is no block |
| Blake2.FoldChain | digestpp/algorithm/detail/blake2_provider.hpp:162-166 | what the lazy buffer holds back is exactly the last call; everything before it went through the unflagged calls |
| Blake2.Init | digestpp/algorithm/detail/blake2_provider.hpp:134-160 | with a key, the padded key is in the buffer and nothing is compressed yet, so a key alone is still the last block |
| Blake2.Final | digestpp/algorithm/detail/blake2_provider.hpp:229-241 | whatever the updates were, `final` makes the standard's calls for the key block and the message |
| Xof.StreamSplit | digestpp/algorithm/detail/shake_provider.hpp:124-156 | reading a + b bytes of an output stream is reading a bytes and then b bytes from where that ended |
| Xof.StreamIsOutput | digestpp/algorithm/detail/shake_provider.hpp:124-156 | reading from the start of the stream gives whole blocks and a truncated last one, as section 4 of FIPS 202 defines the output |
| Xof.OutputByte | digestpp/algorithm/detail/shake_provider.hpp:124-156 | byte k * r + j of the output is byte j of the state after k more permutations |
| Xof.SqueezesSplit | digestpp/algorithm/detail/shake_provider.hpp:124-156 | squeezes of any lengths one after the other give what one squeeze of the sum gives |
| Xof.NothingSkipped | digestpp/algorithm/detail/shake_provider.hpp:124-156 | a run of squeezes stays in step with the stream if and only if none of them is a squeeze of no bytes in the first place or at a block boundary |
| Xof.EmptySqueezeSkips | digestpp/algorithm/detail/shake_provider.hpp:124-156 | a first squeeze of no bytes loses as many bytes of the stream as the buffer held, and one more |
| Xof.PositiveLengths | digestpp/algorithm/detail/shake_provider.hpp:124-156 | so positive lengths never skip anything |
| Shake.SpongePaddedIs | digestpp/algorithm/detail/shake_provider.hpp:130-134 | suffix, zeros and the final bit make the buffer the last block of the padded message, also when suffix and final bit share a byte |
| Shake.SpongePaddedBytes | digestpp/algorithm/detail/shake_provider.hpp:130-133 | the padded message byte by byte: the message, the suffix, zeros, and the highest bit of the last byte, also when that is the suffix |
| Shake.SpongeMore | digestpp/algorithm/detail/shake_provider.hpp:113-117 | each block is added to the state, which is then permuted |
| Shake.ShakeProvider.Finish | digestpp/algorithm/detail/shake_provider.hpp:128-136 | the first squeeze leaves the sponge state after the padded message |
| Shake.ShakeProvider.Squeeze | digestpp/algorithm/detail/shake_provider.hpp:124-156 | each call outputs the next bytes of the sponge's output; the position moves by as many bytes plus the exact number that a call for no bytes skips |
| Shake.SqueezeRun | digestpp/algorithm/detail/shake_provider.hpp:124-156 | a run of squeezes, from the first one on, outputs the sponge's stream for the absorbed message, unless one of them is such a call; how far it gets is said for all runs |
| Shake.Sha3Final | digestpp/algorithm/detail/sha3_provider.hpp:145-161 | SHA-3 is the sponge with suffix 0x06, truncated to the digest, for any updates |
| Cshake.LeftEncode | digestpp/algorithm/detail/shake_provider.hpp:21-34 | the loops write left_encode of section 2.3.1 of SP 800-185, with the least number of bytes, for every size_t |
| Cshake.RightEncode | digestpp/algorithm/detail/shake_provider.hpp:36-49 | the same for right_encode; the KangarooTwelve form writes zero as a lone zero count |
| Cshake.ByteLengthLeast | digestpp/algorithm/detail/shake_provider.hpp:21-30 | no shorter encoding of the number exists |
| Cshake.LeftDecodes | digestpp/algorithm/detail/shake_provider.hpp:21-34 | left_encode can be decoded from the front, whatever follows |
| Cshake.RightDecodes | digestpp/algorithm/detail/shake_provider.hpp:36-49 | right_encode can be decoded from the back, whatever comes before |
| Cshake.HeaderInjective | digestpp/algorithm/detail/shake_provider.hpp:88-111 | different function names, customizations or messages are absorbed as different bytes, as a header tells where it ends |
| Cshake.HeaderAligned | digestpp/algorithm/detail/shake_provider.hpp:107-109 | the header is a whole number of blocks |
| Cshake.HeaderIsBytePad | digestpp/algorithm/detail/shake_provider.hpp:107-109 | the header is bytepad of section 2.3.3 of SP 800-185 if and only if it does not already end on a block boundary; there `init` adds a block of zeros too many |
| Cshake.AlignedHeaderGetsBlockOfZeros | digestpp/algorithm/detail/shake_provider.hpp:107-109 | an empty name and a customization of 161 bytes, at rate 168, get a second block of zeros |
| Cshake.Init | digestpp/algorithm/detail/shake_provider.hpp:80-111 | `init` absorbs exactly the header, or nothing without name and customization, and leaves the buffer empty |
| Cshake.EmailSignature | digestpp/algorithm/detail/shake_provider.hpp:80-111 | the encodings of zero, and the header of the standard's example: an empty name and `Email Signature` at rate 168 |
| Cshake.Customized | digestpp/algorithm/detail/shake_provider.hpp:80-156 | cSHAKE of a message is the sponge with suffix 0x04 over header and message, and SHAKE, with suffix 0x1f, without name and customization |
| CounterXof.CounterProvider.Squeeze | digestpp/algorithm/detail/skein_provider.hpp:245-280 | each call outputs the next bytes of the numbered blocks; only a first call for no bytes can put the position elsewhere, and it is said where |
| CounterXof.EmptySqueezeFirst | digestpp/algorithm/detail/skein_provider.hpp:245-280 | after such a first call, the next one outputs bytes of the finished hash |
| CounterXof.NumberedByte | digestpp/algorithm/detail/skein_provider.hpp:268-279 | byte k * r + j of the output is byte j of block k |
| CounterXof.SqueezeRun | digestpp/algorithm/detail/blake2_provider.hpp:192-227 | any run of calls that does not begin so outputs the blocks 0, 1, 2, ... in order, however the length is split |
| Blake2x.OutputIsHash | digestpp/algorithm/detail/blake2_provider.hpp:213-226 | an output block is the hash of the finished hash, from initial values with the block number |
| Blake2x.SqueezeRun | digestpp/algorithm/detail/blake2_provider.hpp:192-227 | any run of squeezes of an absorbed key and message gives the blocks hashed from their hash, in order; excluded is only a first call for no bytes with less than half a block in the buffer |
| Skein.BlocksExplicit | digestpp/algorithm/detail/skein_provider.hpp:307-352 | block i has the position where it ends, the first mark when i is 0, and the last mark at the end (section 3.4 of the Skein 1.3 paper) |
| Skein.FoldMore | digestpp/algorithm/detail/skein_provider.hpp:307-352 | each block is processed with its tweak from the result of the one before |
| Skein.FoldChain | digestpp/algorithm/detail/skein_provider.hpp:239-243 | the tweak that moves on by itself in the state gives each block the tweak of the paper |
| Skein.Finish | digestpp/algorithm/detail/skein_provider.hpp:248-260 | for any updates, the end of a stage leaves UBI of the absorbed data, the empty message included |
| Skein.InjectParameter | digestpp/algorithm/detail/skein_provider.hpp:354-371 | a parameter is processed as its own UBI stage, and an empty one not at all |
| Skein.Init | digestpp/algorithm/detail/skein_provider.hpp:212-237 | key, configuration, personalization and nonce are chained as in section 3.5, and the message stage begins with a clean tweak |
| Skein.PreparedIs | digestpp/algorithm/detail/skein_provider.hpp:212-237 | the stages before the message have the type codes 0, 4, 8 and 20, in this order, and empty parameters have none |
| Skein.ConfigBytes | digestpp/algorithm/detail/skein_provider.hpp:221-229 | the configuration string: `SHA3`, version 1, the output length in bits in eight bytes, zeros |
| Skein.OutputBlockIs | digestpp/algorithm/detail/skein_provider.hpp:268-279 | output block i is one call on the eight bytes of i, with type code 63, as first and last block |
| Skein.OutputIsUbi | digestpp/algorithm/detail/skein_provider.hpp:268-279 | an output block is UBI of the 8-byte block number, which wraps around at 2^64 |
| Skein.SqueezeRun | digestpp/algorithm/detail/skein_provider.hpp:245-280 | any run of squeezes of an absorbed message, the first one for some bytes, gives the output blocks of UBI of that message, in order |
| Esch.AbsorbedChain | digestpp/algorithm/detail/esch_provider.hpp:110-114 | the lazy buffer leaves exactly the last block of the message, full or partial, to be told apart |
| Esch.AbsorbedLast | digestpp/algorithm/detail/esch_provider.hpp:119-134 | a last block of less than 16 bytes gets 0x80 and zeros, one of 16 is as it is, each with its own constant |
| Esch.EschProvider.Finish | digestpp/algorithm/detail/esch_provider.hpp:119-134 | the first squeeze processes the last block as padded or as full, for any updates |
| Esch.EschProvider.Squeeze | digestpp/algorithm/detail/esch_provider.hpp:116-152 | each call outputs the next bytes of the stream; only a first call for no bytes with a partial block in the buffer skips, and exactly that many bytes |
| Esch.EmptySqueezeFirst | digestpp/algorithm/detail/esch_provider.hpp:116-152 | after a first squeeze of no bytes, output begins as many bytes into the stream as there were in the buffer |
| Esch.SqueezeRun | digestpp/algorithm/detail/esch_provider.hpp:116-152 | a run of calls that does not begin so outputs the stream, however the length is split |
| Bytes.ByteOfNumber | service/src/serialization.cpp:31-39 | byte i of a number, in either order, is the number divided by 256^i, modulo 256 |
| Bytes.SwappedIsBigEndian | service/src/serialization.cpp:31-39 | swapping a number and writing it low byte first writes it in network order |
| Serialization.Serializer.Write | service/include/service/serialization.h:13-41 | a byte is written where the cursor is; it fails exactly when nothing more is reserved |
| Serialization.Serializer.PutBytes | service/src/serialization.cpp:82-88 | reserving and writing appends exactly the bytes and uses up what was reserved |
| Serialization.Serializer.PutUint32 | service/src/serialization.cpp:31-39 | appends the number low byte first |
| Serialization.Serializer.PutBits | service/src/serialization.cpp:90-107 | appends the packed bits, eight to a byte, the first one highest, the last byte filled up with zeros |
| Serialization.Deserializer.Get | service/include/service/serialization.h:82-129 | gives the next bytes and moves on, or fails and leaves the cursor where it is |
| Serialization.Deserializer.GetBig32 | service/src/serialization.cpp:120-129 | gives the number that the next four bytes are in network order, or fails |
| Serialization.Deserializer.GetBits | service/src/serialization.cpp:188-211 | gives as many bits of the next bytes as there is room for, the highest first, or fails; for every size a signed index reaches |
| Serialization.PackRoundTrip | service/src/serialization.cpp:90-107 | unpacking packed bits gives them back, extended with false bits to whole bytes |
| Serialization.PackedBits | service/src/serialization.cpp:90-107 | byte i of a packed vector is the number with the binary digits 8 * i to 8 * i + 7, the first one worth 128, missing ones zero |
| Serialization.PackedExample | service/src/serialization.cpp:90-107 | 1, 0, 1, 1, four zeros and a 1 are packed into 0xb0 and 0x80 |
| Serialization.UnpackedBits | service/src/serialization.cpp:188-211 | the bits unpacked are the binary digits of the bytes, in the same order |
| Messages.ShortOnTheWire | service/include/service/peer/messages.h:12-141 | BEP 3 in bytes: keep-alive, the messages without payload, with ids 0 to 3, and `have`, with id 4 and its index |
| Messages.RequestOnTheWire | service/include/service/peer/messages.h:12-141 | a request and a cancellation in bytes: length 13, id 6 or 8, then index, begin and length, most significant bytes first |
| Messages.BlockOnTheWire | service/include/service/peer/messages.h:12-141 | a block and a bit field in bytes: length, id 7 or 5, the numbers, the data |
| Messages.LengthPrefix | service/include/service/peer/messages.h:32-141 | the length that each constructor computes is the number of bytes that follow the prefix |
| Messages.Serialize | service/src/messages.cpp:13-68 | every message is written as BEP 3 has it, never running out of reserved space |
| Messages.ReadFrame | service/src/peer_connection.cpp:215-276 | a frame is decoded to the message of its id, with the 32-bit size of a bit field wrapping around, or refused, as the declarative `Decode` says |
| Messages.FrameMeans | service/src/peer_connection.cpp:215-276 | what each of the nine ids is taken for, from which positions the fields are read, and which frames are too short |
| Messages.Big32Is | service/src/serialization.cpp:120-129 | four bytes read as a number, most significant first |
| Messages.AllBitsReceived | service/src/messages.cpp:114-119 | a bit field is received with all of its bits if and only if it has at most 2^28 bytes |
| Messages.HugeBitFieldCut | service/src/messages.cpp:114-119 | a bit field of 2^32 + 8 bits is received as its first 8 bits |
| Messages.DecodeRoundTrip | service/src/messages.cpp:99-160 | decoding an encoded message gives it back, with a bit field extended to whole bytes |
| Messages.ReceiveMessages | service/src/peer_connection.cpp:195-281 | the receive loop delivers what reading frame by frame delivers, and stops at the same frame |
| Messages.FrameReceived | service/src/peer_connection.cpp:195-281 | at a message that was sent, the loop delivers it, or skips it if it is a keep-alive, and goes on right behind it |
| Messages.StreamRoundTrip | service/src/peer_connection.cpp:195-281 | any list of messages serialized back to back is received in order, keep-alives dropped, whatever bytes follow |
| Messages.ArrivalInvariant | service/src/peer_connection.cpp:125-140 | what is delivered does not depend on how the bytes arrive: going on from the first unfinished frame gives what the whole stream gives |
| Connection.PeerConnection.SendMessage | service/src/peer_connection.cpp:72-123 | one step of the machine: written when the handshake is complete, else put at the end of the pending messages |
| Connection.PeerConnection.OnHelloWritten | service/src/peer_connection.cpp:60-66 | one step: completes the handshake if the other side's has arrived |
| Connection.PeerConnection.OnHelloArrives | service/src/peer_connection.cpp:167-182 | one step: ignored for another info hash, else completes the handshake if ours is written |
| Connection.PeerConnection.HandshakeComplete | service/src/peer_connection.cpp:187-193 | everything pending is written in order; the list itself stays |
| Connection.StepIs | service/src/peer_connection.cpp:55-193 | what each event does to the fields: a keep-alive is sent like any message, a completion writes what is pending |
| Connection.CallsAre | service/src/peer_connection.cpp:72-123 | the calls of `send` are counted in order, keep-alives included |
| Connection.HandshakeGate | service/src/peer_connection.cpp:55-123 | in every interleaving with one start the wire is the handshake, nothing more until both handshakes are through, and then all messages passed to `send` in call order, each exactly once |
| Connection.MismatchSendsNothing | service/src/peer_connection.cpp:167-176 | a peer with another info hash is never sent anything but the handshake |
| Connection.RepeatedCompletionSendsAgain | service/src/peer_connection.cpp:187-193 | a second completion would send the pending messages once more, which is why one arrival is assumed |
| Connection.SerializeHandshake | service/src/messages.cpp:22-32 | the handshake is written with its length byte and eight zero bytes |
| Connection.HandshakeOnTheWire | service/src/messages.cpp:22-32 | the handshake in bytes: the length of the name, the name, eight zeros, the info hash, the peer id |
| Connection.ReceiveHandshake | service/src/peer_connection.cpp:142-160 | the two reads and the deserialization give the fields at their places, or wait for more bytes |
| Connection.HandshakeRoundTrip | service/src/messages.cpp:22-96 | a written handshake is read back, whatever follows it |
| Connection.EndToEnd | service/src/peer_connection.cpp:55-281 | once the handshakes are through, the receiver of the bytes on the wire gets the sender's handshake and then every message passed to `send`, in call order, without the keep-alives |
| Pieces.MakeBlocks | service/src/piece.cpp:7-21 | the constructor cuts a piece into nominal blocks and a last one that is as long as it needs to be: block k begins at 16384 * k |
| Pieces.BlockByOffset | service/include/service/piece.h:33-36 | the block at index offset / 16384 contains the offset, for every offset in the piece |
| Pieces.GeneratePieces | service/src/manager.cpp:107-124 | the sizes of all pieces, with the wrap-around of the 64-bit subtraction and the cut to 32 bits: the piece length, and for the last piece what is left |
| Pieces.FileTiled | service/src/manager.cpp:107-124 | the blocks of all pieces tile [0, length) without gap or overlap if and only if length, piece length and count are consistent |
| Pieces.SecondPieceWrapsAround | service/src/manager.cpp:113-117 | for one byte in two pieces of 16 KiB the second size wraps around to nearly 4 GiB, and the blocks do not tile the file |
| Pieces.TilesPartition | service/src/manager.cpp:107-124 | tiling intervals are non-empty, pairwise disjoint, and cover every position |
| Pieces.IntervalsAreBlocks | service/src/piece.cpp:7-21 | the tiles are the blocks of the pieces, moved to where the piece begins in the file |
| Pieces.PieceStands | service/src/torrent.cpp:44-45 | piece i of the tiling begins at i times the piece length |
| Pieces.BlockPlace | service/src/torrent.cpp:24-25 | a write of block k of piece i is meant for i times the piece length plus 16384 * k, which is where the tiling has that block |
| Pieces.ContentAfterWrites | service/src/torrent.cpp:24-42 | in a file of any size, after correct writes below offset 2^32, in any order and any number, every position written to holds the content's byte |
| Pieces.ReadBack | service/src/torrent.cpp:44-69 | reading a range whose positions have all been written gives those bytes |
| Pieces.WholeFile | service/src/torrent.cpp:24-42 | once every block has been written, the file is the content |
| Pieces.WritePlacement | service/src/torrent.cpp:24-25 | a write lands where it belongs if and only if its file offset is below 2^32 |
| Pieces.WriteAtFourGiB | service/src/torrent.cpp:24-25 | the block for byte 2^32 overwrites the beginning of the file |
| Completion.CounterCountsReports | service/src/piece.cpp:23-37 | in every run a block is flagged exactly when it has been reported since the last reset, and the counter is the number of all these reports |
| Completion.CounterExact | service/src/piece.cpp:23-37 | the counter is the number of complete blocks if and only if no block was reported twice since the last reset |
| Completion.CompleteMeansFull | service/include/service/piece.h:29-31 | without repeated reports, complete by the counter is complete by the flags |
| Completion.ValidationOnce | service/src/torrent.cpp:34-37 | without repeated reports, one validation is under way exactly from the write that fills the piece to its answer, and a piece that passed stays full; for a piece without blocks none ever is |
| Completion.Totals | service/src/torrent.cpp:81-91 | without repeated reports, `downloaded` and `validated` are the total size and the number of the pieces that passed |
| Completion.EmptyNever | service/src/torrent.cpp:34-37 | a piece without blocks is never validated, and so never passes, in any run |
| Completion.AllValidated | service/src/torrent.cpp:84-89 | without repeated reports, `validated` is the number of pieces if and only if every piece has passed |
| Completion.AllCanBeValidated | service/src/torrent.cpp:86-89 | a run without repeated reports can make `validated` the number of pieces if and only if no piece is empty |
| Torrent.SecondPieceEmpty | service/src/manager.cpp:107-124 | 16384 bytes in two pieces of 16384 are tiled, but the second piece has no block, and `validated` never becomes two |
| Completion.RepeatedReportValidatesEarly | service/src/piece.cpp:23-37 | with a repeated report a piece of two blocks is sent to validation although one of them has not been written |
| PieceObjects.Piece.constructor | service/src/piece.cpp:7-21 | a new piece has the blocks it should have, none of them requested or complete |
| PieceObjects.Piece.BlockWritten | service/src/piece.cpp:23-37 | one step of the machine: flag and counter; the request flags stay |
| PieceObjects.Piece.Reset | service/include/service/piece.h:38-45 | one step of the machine: no block is complete; the request flags stay |
| Torrent.Torrent.WriteBlock | service/src/torrent.cpp:24-33 | below offset 2^32 the data can be read at its place in the file afterwards and nothing else in the file changes; the file always is what the writes so far have made of it |
| Torrent.Torrent.ReadBlock | service/src/torrent.cpp:44-69 | when all writes so far were correct and cover the range, what is read is the content's bytes there |
| Torrent.Torrent.OnWritten | service/src/torrent.cpp:34-40 | one step of the machine: the block is reported, and a validation started when the counter says the piece is complete; which blocks are requested stays |
| Torrent.Torrent.OnValidation | service/src/torrent.cpp:71-100 | one step of the machine: the piece counts as downloaded exactly when the SHA-1 digest of its bytes in the file is its hash, and is emptied else |
| Torrent.Torrent.CompletePieceBytes | service/src/torrent.cpp:71-81 | a piece that is full, after correct writes of whole blocks, is validated against the content's bytes; a complete block has always been written |
| RarestFirst.SortByAvailability | service/src/rarest_first_picker.cpp:65-65 | a sorted permutation |
| RarestFirst.Group | service/src/rarest_first_picker.cpp:67-81 | the sorted pieces end up in non-empty buckets, one for each availability, in increasing order, each shuffled; none is lost or doubled |
| RarestFirst.RarestFirstPicker.Increment | service/src/rarest_first_picker.cpp:34-39 | the availability of exactly the piece with that index goes up by one |
| RarestFirst.RarestFirstPicker.OnHave | service/src/rarest_first_picker.cpp:19-22 | the same, and the index is stale |
| RarestFirst.RarestFirstPicker.OnBitfield | service/src/rarest_first_picker.cpp:24-32 | the availability of exactly the pieces whose bit is set goes up by one, and the index is stale |
| RarestFirst.RarestFirstPicker.SortPieces | service/src/rarest_first_picker.cpp:64-84 | afterwards the index agrees with the live availabilities, and the pieces are a permutation of what they were |
| RarestFirst.RarestFirstPicker.RarestFirstOrder | service/src/rarest_first_picker.cpp:41-62 | whenever the index is not stale, the candidates are exactly the pieces that are available, incomplete and held by the peer, each once, in order of their availability now |
| RarestFirst.Scan | service/src/rarest_first_picker.cpp:46-61 | the loops find the candidate of the given number, and null exactly when there are not that many |
| RarestFirst.RarestFirstPicker.Next | service/src/rarest_first_picker.cpp:41-62 | `next` returns candidate number `attempt` of a fresh index; the order does not change between calls while it is fresh |
| RequestLoop.Peer.RefreshInterest | service/src/peer.cpp:166-184 | afterwards the peer is interested exactly when the other side has a missing piece, and has said so exactly if that changed |
| RequestLoop.RequestsOfExactly | service/src/peer.cpp:196-208 | a block of a piece is requested if and only if it was neither requested nor complete |
| RequestLoop.RequestsInOrder | service/src/peer.cpp:196-208 | the requests of a piece are in the order of its blocks |
| RequestLoop.AllRequestsExactly | service/src/peer.cpp:188-211 | requested are exactly the blocks of the pieces that the call came to that were neither requested nor complete, with index, offset and size |
| RequestLoop.AllRequestsOnce | service/src/peer.cpp:188-211 | no block is requested twice in a call |
| RequestLoop.Peer.RequestPiece | service/src/peer.cpp:196-208 | marks and requests the requestable blocks in order; the queue grows by as many |
| RequestLoop.Peer.Ask | service/src/peer.cpp:196-208 | marking blocks as requested changes neither the index nor the candidates |
| RequestLoop.Peer.Fill | service/src/peer.cpp:186-212 | the loop ends, because each round uses up a candidate, changes nothing of the pieces but request flags, and leaves the pipeline full or no candidate unasked |
| RequestLoop.Peer.RequestBlocks | service/src/peer.cpp:186-212 | the first n candidates are asked for all they can still give; of the pieces only these request flags change, so the candidates stay the same, and an order that was fixed stays fixed; the queue grows by exactly the requests sent and overshoots 10 by less than those of the last piece; at the end the pipeline is full or no eligible piece has a requestable block |
| UdpTracker.RequestQueue.Insert | service/include/service/tracker/udp_tracker.h:127-133 | the slot of that kind is overwritten, the other one stays |
| UdpTracker.RequestQueue.Top | service/include/service/tracker/udp_tracker.h:135-143 | the connect request if there is one, else the announce request, else an exception |
| UdpTracker.RequestQueue.Remove | service/include/service/tracker/udp_tracker.h:149-156 | exactly the slots that hold this very request are emptied |
| UdpTracker.UdpTracker.Run | service/src/udp_tracker.cpp:154-162 | the start state of the machine, with the first packet sent |
| UdpTracker.UdpTracker.SendRequest | service/src/udp_tracker.cpp:164-182 | the top request becomes current and is sent with the present connection id |
| UdpTracker.UdpTracker.OnConnectTimer | service/src/udp_tracker.cpp:308-321 | one step of the machine, in which a new connect request resets the id; it is sent at once if nothing is awaited; announces stay right |
| UdpTracker.UdpTracker.OnAnnounceTimer | service/src/udp_tracker.cpp:308-321 | one step of the machine; the new request is sent at once if nothing is awaited and no connect request is queued; announces stay right |
| UdpTracker.UdpTracker.OnResponse | service/src/udp_tracker.cpp:206-224 | one step of the machine; after the answer to a connect request the queued announce is sent with the new id; a good connection id stays good if and only if the answer is not a misdirected one while not connected, and announces stay right when it is not misdirected |
| UdpTracker.UdpTracker.HandleResponse | service/src/udp_tracker.cpp:226-306 | what each action does to queue and connection id; nothing for another transaction id or an unknown action |
| Tracker.AnswerIs | service/src/udp_tracker.cpp:206-306 | what a datagram does to slots, connection id and log: an answer takes the current request out, and whatever is still queued is sent and becomes current |
| Tracker.ConnectAccepted | service/src/udp_tracker.cpp:219-245 | the answer to a connect request adds exactly its id and the queued announce with that id to the log |
| Tracker.AnnounceAnswered | service/src/udp_tracker.cpp:259-285 | the answer to the current announce takes it out of its slot, and nothing is sent when nothing else is queued |
| Tracker.TimersSend | service/src/udp_tracker.cpp:308-321 | each timer queues its request with its own transaction id and, when nothing is awaited, sends the first request of the queue; a retry sends that again |
| Tracker.OrdinaryRun | service/src/udp_tracker.cpp:154-321 | the log of the ordinary run: connect with the magic id, announce with the id received, announce again when the timer fires |
| Tracker.LatestExactly | service/src/udp_tracker.cpp:164-182 | the latest id is that of the last accepted response, and connected is a log in which only packets follow one |
| Tracker.StepKeeps | service/src/udp_tracker.cpp:154-321 | every step keeps the kinds of the two slots, and every packet carries the id that the last answer or the last new connect request left |
| Tracker.StepGoodExactly | service/src/udp_tracker.cpp:226-306 | a step breaks "an empty connect slot means a good id" if and only if it is an announce or error answer taken for the queued connect request while not connected |
| Tracker.AnnouncesCarryLatest | service/src/udp_tracker.cpp:164-182 | in every run without such an answer, with any retransmissions and late, repeated or foreign replies, each announce carries the id of the latest accepted connect response (BEP 15) |
| Tracker.GoodIsWeakest | service/src/udp_tracker.cpp:154-321 | from a running state, announces stay right over all such runs if and only if the connection id is good in that state |
| Tracker.ErrorToConnectSpoils | service/src/udp_tracker.cpp:287-306 | an error in reply to the first connect request makes the announce go out with the magic id at once |

## Left out

- Sockets, strands, threads, mutexes, timers, files and logging: handlers are atomic steps, the file is a byte sequence, the wire is the sequence of issued writes; the order in which the operating system completes overlapping writes is not modelled.
- Dereferencing the end of the input in `bencode.h` (lines 349, 362, 377, 387): end of input there is a rejection in the model.
- Running out of memory: the stream reader of `bencode.h` allocates a string of the length it has read before it reads the characters, and fails there for lengths no memory can hold.
- Metainfo.Load: a `pieces` string of 2^31 bytes or more, whose position is computed in a signed 32-bit number, and a file of 2^60 bytes or more.
- `decode_view`, the Boost variants, and end-of-file handling of streams in `bencode.h`: the same decoder with other containers.
- Absorb.Absorber.Update: messages of 2^61 bytes and more, whose bit count does not fit the 64-bit counter.
- The compression functions and permutations other than SHA-1's are parameters; the constant tables and the first initial values are not checked.
- Blake2.Final: salt and personalization enter only through the abstract initial value; the fixed-length `x_hash` variant of BLAKE2X, whose last block depends on the length still to come, is not covered.
- Absorbing after squeezing has begun, which nothing in the providers prevents.
- The remaining digest providers repeat the same buffering; KangarooTwelve's tree mode is not part of this model.
- `serialize(std::array<uint32_t, 2>)`, which reserves twice and which no message uses.
- Messages.Serialize: bit fields of 2^31 bits or more and blocks of more than 2^32 - 14 bytes, which 32-bit indices and lengths cannot carry.
- Messages.ReadFrame: an unknown id (a null pointer is passed on), an exception while decoding, and the undefined behaviour of frames longer than 2^32 - 5 bytes or of bit fields that a signed index cannot reach are all the outcome Failed, after which nothing more is received.
- Connection.HandshakeGate: assumes one start, one completed write and one arrival of a handshake, as the code issues one of each; RepeatedCompletionSendsAgain shows what more would do.
- Piece objects hold their blocks as values, not as shared objects with locks of their own; `try_lock` always succeeds.
- Torrent.Torrent.CompletePieceBytes: assumes that each write to the piece is of a whole block, which the code does not look at; a block counts as complete whatever the length of the data was.
- Pieces.ReadBack: assumes that every write was below offset 2^32; WritePlacement says why. The 64-bit wrap-around of file offsets when reading is not modelled.
- Counters are unbounded; `downloaded` and the availabilities would need 2^64 and 2^32 steps to wrap around.
- `std::sort` and `std::random_shuffle` are any sorted permutation and any permutation.
- RarestFirst.RarestFirstPicker.Increment: requires a piece with that index, where the source dereferences the end iterator.
- `get_piece(i)` by position after the pieces have been sorted, and so `blocks_in_queue` under PIECE messages, which goes through it and which unsolicited messages can make wrap around.
- The byte layout and the peer list of tracker messages, the announce interval, and the waiting times of `RetryTimer` (15 + 2^n seconds with n at most 8, where BEP 15 has 15 * 2^n): a timer may fire at any time in the model.
- Tracker.AnnouncesCarryLatest: what an answer of action 0 to an announce, or a null current request, leads to is modelled (the latter stops the tracker), but that they do not occur is not claimed.
- The "Malformed" branches of `handle_response` (lines 238-241 and 260-263) are unreachable, as the response buffer always has 1020 bytes; a shorter datagram leaves zeros in it.
- `LeechChoker`, `RateMeasure`, the peer handler, and the command line.
