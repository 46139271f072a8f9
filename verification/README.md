# A verified model of the instrumentation agent's core

The repository is an Android instrumentation agent with a command-line client. This project models
the parts of it whose behaviour is hard to see by reading: its codecs and stream protocols, its
checksum, digest, search and lookup algorithms, and the hook engine. Each loop, buffer and class of
the source is an imperative method or class here, and is proved against a specification function or
predicate; the lemmas then prove what the source promises about that specification.

* **MessagePack and frames** (`Bytes`, `MsgPack`, `MsgPackRoundTrip`, `MsgPackCodec`,
  `MsgPackFormat`, `Frames`).
  `Writer` and `Reader` are classes over a growing buffer and a cursor. Reading what was written gives
  the value back exactly when the value is *readable*: no BIN anywhere and every length below 2^32.
  Values come back normalised as the code does it: an unsigned number up to 127 as a signed one, a
  float as a double. The client's receive loop gives the same frames however the stream is cut.
* **The client's JSON and the injector's payloads** (`JsonStrings`, `Payload`). A list of strings
  survives being quoted and taken apart again, and the backward walk over the trailers of an executable
  finds the newest payload with the wanted magic. Trailer sizes that wrap the code's 64-bit sum are
  modelled, and it is proved exactly when they keep the walk from ending or lead it astray.
* **The Unity line rewrite** (`UnityPreprocess`, `UnityProperties`,
  `UnityGrammar`, `UnitySecondRun`). The lexer
  rewrites `dynamic.unity.assembly.A-B` to `dynamic.unity.assembly["A-B"]` in code only. `UnityGrammar`
  describes texts by their pieces, without the lexer, and proves what the output of each is. Which chains are
  taken is characterised by a lexer that does no rewriting, and the whole output by those chains. A
  second run reads the text as the first one did exactly when no rewritten name that ends in a hyphen
  stands before a slash, and then changes nothing; in general it changes nothing exactly when the
  first run's output has no hyphenated chain that a run takes. For a family of inputs with such a slash it is
  proved that the second run does change the text, because the slash is first read as the beginning
  of a regular expression and then as a division.
* **Checksums and digests** (`Crc`, `Adler`, `BlockHash`, `Md5`, `Sha1`, `Sha256`,
  `DigestConstants`, `KnownAnswers` and the three answers). The table-driven
  CRC is long division of polynomials over GF(2) and detects every change within 32 adjacent bits.
  Adler-32 with deferred reduction stays within 32 bits, and 5552 is the longest chunk for which it
  does. The streaming digests equal the padded message folded block by block, for every split; the
  constants of SHA-256 and SHA-1 are the digits of the roots that the standard names, and the digests of
  "abc" are proved from the definitions, which pins every other constant, rotation and byte order.
* **Search and lookup** (`Levenshtein`, `Scanner`, `ElfLookup`). The two-row programme computes the
  minimum cost over all edit scripts. The greedy pattern scan reports a largest possible set of
  matches that do not overlap. Both ELF hash-table lookups agree with a linear scan.
* **The hook engine** (`ArgSlots`, `HookDispatch`, `HookProperties`, `HookOrder`, `PageAllocator`,
  `Trampolines`, `SigParser`). Argument slots never overlap, and writing one argument changes no other. The dispatcher
  saves and restores thread state by hand; it is proved to behave as a semantics in which every
  dispatch has its own scope, for every nesting of calls. From that follow the properties about
  re-entry and about how often the original runs. Installed bridges form a chain that ends at the
  original entry point.

A call of the original method or of a callback is an arbitrary tree of further calls (`HookDispatch.Run`).
Memory pages that the system maps, and the bytes a socket or a file delivers, are parameters.

The model follows the code where the code and its comments differ. Where the code does less than one
would expect, the condition is part of the result: BIN values are written but not read
(`MsgPackRoundTrip.RoundTrip`), a trailer size of 2^64 - 16 keeps the payload search from ever returning
(`Payload.LoopsExactly`), a hit at address 0 ends the pattern search (`Scanner.FindBytesAll`), and a
name ending in a hyphen can make a second rewrite differ from the first (`UnitySecondRun.SecondRunChanges`).
The buffers of the digest contexts are `array`s that the methods fill in place.

## Model

| member | source | states |
|---|---|---|
| MsgPackCodec.Writer.WriteInt | engine/mpack/mpack.h:116-132 | appends exactly the encoding of a 64-bit signed number, in the shortest of the forms the code has |
| MsgPackCodec.Writer.WriteUInt | engine/mpack/mpack.h:134-150 | appends exactly the encoding of a 64-bit unsigned number |
| MsgPackCodec.Writer.WriteDouble | engine/mpack/mpack.h:152-157 | appends the tag and eight bytes of a bit pattern; FLOAT and DOUBLE are written alike |
| MsgPackCodec.Writer.WriteString | engine/mpack/mpack.h:159-174 | appends head and bytes of a string, the length cut to 32 bits |
| MsgPackCodec.Writer.WriteBinary | engine/mpack/mpack.h:176-189 | appends head and bytes of a BIN value |
| MsgPackCodec.Writer.WriteValue | engine/mpack/mpack.h:215-237 | the recursive writer appends the encoding of the whole value and keeps what the buffer held |
| MsgPackCodec.Reader.ReadValue | engine/mpack/mpack.h:267-370 | on arbitrary bytes: terminates, the result and the cursor are those of the decoding function, the cursor stays within the data and moves forward when a value is accepted |
| MsgPackCodec.Reader.ReadArray | engine/mpack/mpack.h:408-417 | reads exactly `count` items in order, or fails; the cursor stays in range |
| MsgPackCodec.Reader.ReadMap | engine/mpack/mpack.h:419-431 | reads exactly `count` entries with string keys in order, or fails; the cursor stays in range |
| MsgPackFormat.HeadIs | engine/mpack/mpack.h:267-370 | every head is read as the table of the MessagePack specification says, byte by byte; an unknown tag and a head cut short are refused |
| MsgPackFormat.NumbersWritten | engine/mpack/mpack.h:116-150 | a number is written as the shortest head of the table that means it, an unsigned one up to 127 as the signed one |
| MsgPackFormat.LengthsWritten | engine/mpack/mpack.h:159-213 | so are the heads of strings, arrays and maps whose length fits 32 bits |
| MsgPackFormat.OthersWritten | engine/mpack/mpack.h:108-189 | nil, booleans, doubles and BIN heads byte by byte |
| MsgPackFormat.PartsInOrder | engine/mpack/mpack.h:159-237 | head before contents, and each key before its value |
| MsgPackFormat.ItemsInOrder | engine/mpack/mpack.h:215-237 | items are written one behind the other in their order |
| MsgPackFormat.EntriesInOrder | engine/mpack/mpack.h:215-237 | so are entries |
| MsgPackFormat.GetIntIs | engine/mpack/mpack.h:84-90 | getInt reads the first entry with the key: a signed number as it is, an unsigned one as the signed number of the same bits, and anything else as the default |
| MsgPackFormat.GetIntDefault | engine/mpack/mpack.h:84-90 | without the key, or in what is no map, it is the default |
| Bytes.BigEndianByte | engine/mpack/mpack.h:240-256 | where each byte of a big-endian number stands |
| Bytes.LittleEndianByte | cli/injector/payload.cpp:117-118 | where each byte of a little-endian number stands |
| MsgPackRoundTrip.RoundTrip | engine/mpack/mpack.h:116-431 | reading the written bytes before any suffix gives the normalised value and stops at the suffix, if and only if the value has no BIN and its lengths fit 32 bits |
| MsgPackRoundTrip.PrefixFree | engine/mpack/mpack.h:116-237 | no readable encoding is a proper prefix of another, and equal encodings mean equal values up to normalisation |
| MsgPackRoundTrip.NormIsFaithful | engine/mpack/mpack.h:134-157 | normalising changes no written byte, is idempotent, and keeps readability |
| MsgPackRoundTrip.GetIntNorm | engine/mpack/mpack.h:84-90 | getInt gives the same number before and after normalisation, for every key and default |
| MsgPackRoundTrip.ReencodeShrinks | engine/mpack/mpack.h:267-431 | what the reader accepts is readable, and writing it again takes no more bytes than were consumed |
| MsgPackRoundTrip.ReencodeAccepted | engine/mpack/mpack.h:267-431 | an accepted value consumed at least one byte within the data; written again it is no longer, decodes to itself up to normalisation, and every getInt agrees |
| Frames.SendMsgpackFrame | cli/injector/repl_client.cpp:159-164 | sends the 32-bit big-endian length and then the encoding of the value |
| Frames.FrameWire | cli/injector/repl_client.cpp:159-164 | a frame byte by byte: four of length, most significant first, and then the payload |
| Frames.DrainAppend | cli/injector/repl_client.cpp:1930-1978 | taking out frames early or after more bytes have come gives the same frames and the same remainder |
| Frames.DrainLeavesNoFrame | cli/injector/repl_client.cpp:1933-1978 | after the loop the buffer holds no complete frame |
| Frames.SumIsExact | cli/injector/repl_client.cpp:1933-1937 | the loop's 32-bit sum is the frame's true size if and only if the header announces less than 2^32 - 4; otherwise the test passes on a buffer that does not hold the frame |
| Frames.Receiver.Receive | cli/injector/repl_client.cpp:1930-1978 | one chunk: the complete frames of old buffer plus chunk are handled in order, and exactly the rest stays buffered |
| Frames.Receiver.ReceiveAll | cli/injector/repl_client.cpp:1930-1978 | any number of chunks: frames and buffer depend on the concatenation alone |
| Frames.DrainWire | cli/injector/repl_client.cpp:1930-1978 | a stream of sent frames and an unfinished one comes apart into exactly the payloads and that unfinished prefix |
| Frames.ValuesOfEncodings | cli/injector/repl_client.cpp:1939-1941 | the payloads of readable values parse to those values, normalised, in order |
| Frames.BadPayloadSkipped | cli/injector/repl_client.cpp:1941-1978 | a payload that does not parse does not desynchronise the stream: all values before and after it arrive |
| Frames.ReceiveStream | cli/injector/repl_client.cpp:1930-1978 | for any payloads, those that do not parse included, and every chunking: exactly the values of those that parse arrive in order, and exactly the unfinished prefix stays |
| Frames.SendAndReceive | cli/injector/repl_client.cpp:1930-1978 | end to end: for every list of readable values and every chunking, exactly those values arrive in order and exactly the unfinished prefix stays |
| JsonStrings.QuoteJsString | cli/injector/repl_client.cpp:911-923 | the loop writes the quoted form on which the round trip rests |
| JsonStrings.JsonUnescape | cli/injector/repl_client.cpp:461-515 | the loop, with its look-ahead for four hexadecimal digits, computes the piecewise unescaping |
| JsonStrings.UnescapeEscape | cli/injector/repl_client.cpp:461-923 | undoing the escapes of any quoted string gives the string |
| JsonStrings.UnescapeNumber | cli/injector/repl_client.cpp:480-506 | a numeric escape of any code point below 2^16, with digits in either case, becomes that code point's bytes, and reading goes on behind it |
| JsonStrings.UnescapeLetter | cli/injector/repl_client.cpp:472-479 | what each of the eight single-letter escapes stands for |
| JsonStrings.UnescapeUnknown | cli/injector/repl_client.cpp:508-511 | any other escape is kept with its backslash |
| JsonStrings.UnescapeBadNumber | cli/injector/repl_client.cpp:480-507 | so is a numeric escape that is cut short or has another character among its digits |
| JsonStrings.UnescapePlain | cli/injector/repl_client.cpp:464-469 | every other character stands for itself, a backslash at the end too |
| JsonStrings.QuotedIs | cli/injector/repl_client.cpp:911-923 | quoting adds exactly one character for each special one, and leaves no line break and no tab |
| JsonStrings.CodePointIsUtf8 | cli/injector/repl_client.cpp:494-503 | those bytes decode as UTF-8 (section 3 of RFC 3629) to the code point, and are of the shortest length |
| JsonStrings.CloseOfListed | cli/injector/repl_client.cpp:529-547 | the bracket found is the one that ends the list, whatever brackets, quotes and backslashes the strings contain |
| JsonStrings.QuoteOfEscaped | cli/injector/repl_client.cpp:553-565 | the closing quotation mark found is the one that the printer wrote |
| JsonStrings.ExtractJsonStringArray | cli/injector/repl_client.cpp:517-572 | the index loops compute the extraction that the two round trips are about, with all its ways of giving up |
| JsonStrings.NothingExtracted | cli/injector/repl_client.cpp:517-547 | without the quoted key, or without both brackets, the result is empty |
| JsonStrings.ListRoundTrip | cli/injector/repl_client.cpp:517-572 | every list of strings, printed as an array after text without a bracket and before any text, is read back |
| JsonStrings.KeyedRoundTrip | cli/injector/repl_client.cpp:517-525 | the same for the array behind a key without an opening bracket, when the quoted key is first met there |
| JsonStrings.KeyExactly | cli/injector/repl_client.cpp:517-572 | whatever is printed around them: every list behind the key comes back if and only if the key has no opening bracket |
| Payload.ExtractEmbeddedPayload | cli/injector/payload.cpp:100-149 | for every file the call finds, fails, throws or never returns as the specified walk does; sums are those of 64 bits and the size is subtracted as a signed number |
| Payload.WalkFindsNewest | cli/injector/payload.cpp:110-144 | for any executable with any payloads appended, the newest payload with the magic is found, and without one the answer is that of the bare executable |
| Payload.ExtractFindsNewest | cli/injector/payload.cpp:100-149 | the same for the whole function: with no such payload its outcome is that of the walk over the bare executable |
| Payload.FoundIsAttached | cli/injector/payload.cpp:110-144 | conversely, a file in which something is found, and no trailer met wraps the sum, ends in that payload, its trailer, and well-formed payloads with other magics |
| Payload.AttachedIsStraight | cli/injector/payload.cpp:110-144 | in a file that ends so the walk meets no wrapping trailer and finds that payload |
| Payload.FoundIsAttachedExactly | cli/injector/payload.cpp:120-124 | what is found is such an attached payload if and only if no trailer met has a size of 2^64 - 16 or more |
| Payload.NotFoundExactly | cli/injector/payload.cpp:120-149 | without a wrapped sum the magic is not found if and only if the file is one without a trailer, with well-formed payloads of other magics behind it |
| Payload.ThrowsExactly | cli/injector/payload.cpp:120-127 | the call throws if and only if it meets a trailer with the magic whose size wraps the sum |
| Payload.NeverReturnsExactly | cli/injector/payload.cpp:111-144 | the outcome "never returns" holds exactly when after every number of rounds the loop goes on |
| Payload.LoopsExactly | cli/injector/payload.cpp:120-144 | the loop never ends if and only if it meets a trailer with another magic and the size 2^64 - 16 |
| Payload.LoopsOn | cli/injector/payload.cpp:120-144 | every non-empty front with such a trailer behind it is a file on which the call never returns |
| UnityPreprocess.IsUnityRegexContext | engine/utils/unity_preprocess.h:31-45 | the loop decides by the last character that is not blank |
| UnityGrammar.ContextIs | engine/utils/unity_preprocess.h:31-45 | a slash may begin a pattern if and only if, blanks aside, nothing or one of the listed operators comes before it |
| UnityPreprocess.PreprocessUnityLine | engine/utils/unity_preprocess.h:47-204 | the eight-state loop writes what the specified scan writes, for every input |
| UnityGrammar.RewrittenPieces | engine/utils/unity_preprocess.h:47-204 | for every text put together from code, divisions, chains, quoted and template text, comments and patterns, each described without the lexer: the output is the same text with the hyphenated chains in brackets |
| UnityGrammar.LiteralKept | engine/utils/unity_preprocess.h:75-196 | where the lexer is in code and a literal, a comment or a pattern stands, no chain is taken in it, it stands unchanged in the output, and the lexer is in code again behind it |
| UnityGrammar.LiteralAlone | engine/utils/unity_preprocess.h:75-196 | a text that is one literal, comment or pattern comes out as it is |
| UnityGrammar.Classes | engine/utils/unity_preprocess.h:21-29 | which characters are letters, identifier characters, name characters and blanks |
| UnityProperties.ChainsTaken | engine/utils/unity_preprocess.h:98-118 | a chain is taken at a place if and only if a lexer without any rewriting is in code state there, the prefix stands there behind no identifier character, and no chain taken earlier covers it |
| UnityProperties.OutputIsReplaced | engine/utils/unity_preprocess.h:47-204 | the output is the input with the hyphenated ones among those chains in bracket form, and every other character verbatim |
| UnityProperties.LengthGrows | engine/utils/unity_preprocess.h:109-112 | the output is longer by exactly three characters for each rewrite |
| UnityProperties.UnchangedExactly | engine/utils/unity_preprocess.h:107-112 | a run changes nothing if and only if no chain that it takes has a hyphen |
| UnitySecondRun.BracketedAgain | engine/utils/unity_preprocess.h:60-125 | the text of a rewrite, met again in code, is copied: its head is no chain and its name is inside a string |
| UnitySecondRun.NoNewChain | engine/utils/unity_preprocess.h:98-100 | the rewrite creates no chain that was not in the input |
| UnitySecondRun.ScansAlike | engine/utils/unity_preprocess.h:47-204 | the scan of the output keeps step with the scan of the input, state by state, and copies everything |
| UnitySecondRun.RunsInStep | engine/utils/unity_preprocess.h:31-204 | a second run reads the text as the first one did, step by step, if and only if no rewritten name that ends in a hyphen stands before a slash that opens no comment |
| UnitySecondRun.SecondRunExactly | engine/utils/unity_preprocess.h:107-112 | a second run changes nothing if and only if the first run's output has no hyphenated chain that a run takes |
| UnitySecondRun.SecondRunKeeps | engine/utils/unity_preprocess.h:47-204 | read off the input: when no rewritten name that ends in a hyphen stands before such a slash, a second run changes nothing |
| UnitySecondRun.SecondRunChanges | engine/utils/unity_preprocess.h:31-45 | for every pair of names of which the first ends in a hyphen there is an input whose second run is longer than the first |
| Crc.StepLinear | engine/utils/pi_hash.cpp:29-41 | the step that builds the table is linear over exclusive or |
| Crc.TableStep | engine/utils/pi_hash.cpp:47-65 | one table look-up does the work of eight single-bit steps |
| Crc.ByteStep | engine/utils/pi_hash.cpp:47-65 | one round of the byte loop feeds the eight bits of its byte to the bit-serial register |
| Crc.BuildTable | engine/utils/pi_hash.cpp:29-41 | every entry is eight steps from its index |
| Crc.TableCrc | engine/utils/pi_hash.cpp:47-55 | the table loop equals bit-serial division, for every message, seed and polynomial |
| Crc.Crc32 | engine/utils/pi_hash.cpp:47-55 | equals bit-serial division for the polynomial 0xEDB88320 |
| Crc.Crc32c | engine/utils/pi_hash.cpp:57-65 | equals bit-serial division for the polynomial 0x82F63B78 |
| Crc.CrcIsDivision | engine/utils/pi_hash.cpp:29-65 | the complemented checksum is the remainder, by schoolbook long division over GF(2), of the message times x^32 with the complemented seed added in front |
| Crc.PolynomialsAre | engine/utils/pi_hash.cpp:43-44 | the exponents of the two generator polynomials |
| Crc.CrcContinues | engine/utils/pi_hash.cpp:47-65 | the checksum of a concatenation continues from the checksum of its first part |
| Crc.DetectsBursts | engine/utils/pi_hash.cpp:29-65 | two messages whose bits differ only within 32 adjacent ones, wherever in a byte they begin, never have the same checksum |
| Crc.DetectsByteBursts | engine/utils/pi_hash.cpp:29-65 | the same for messages that differ only within four adjacent bytes |
| Adler.Adler32 | engine/utils/pi_hash.cpp:70-86 | 32-bit sums with deferred reduction give the per-byte definition of section 2.2 of RFC 1950, from any previous checksum |
| Adler.NoOverflow | engine/utils/pi_hash.cpp:74-84 | within a chunk of 5552 bytes no sum leaves 32 bits, whatever the data and the start |
| Adler.ChunkIsLargest | engine/utils/pi_hash.cpp:74-76 | 5552 is the largest chunk with that bound |
| Adler.LimitIsReached | engine/utils/pi_hash.cpp:74-84 | the bound is met by actual data |
| Adler.ReducedChunk | engine/utils/pi_hash.cpp:75-84 | one reduction at the end of a chunk is as good as one after every byte |
| Adler.ChecksumContinues | engine/utils/pi_hash.cpp:70-86 | the checksum of a concatenation continues from the checksum of its first part |
| Adler.ChecksumIs | engine/utils/pi_hash.cpp:70-86 | both halves outright, from any previous checksum: the sum of the bytes, and the sum of the bytes times their place from the end, modulo 65521 |
| BlockHash.AbsorbAppend | engine/utils/pi_hash.cpp:171-188 | feeding a message in two pieces: only the incomplete block of the first piece matters to chaining state and buffer |
| BlockHash.PadIsMinimal | engine/utils/pi_hash.cpp:190-201 | the padded message is whole blocks, and no smaller number of zeros makes room for exactly the length |
| BlockHash.CountsAdd | engine/utils/pi_hash.cpp:171-177 | the two 32-bit counters with their carry stay the 64-bit length in bits |
| BlockHash.AddLength | engine/utils/pi_hash.cpp:171-177 | the code's carry and shifts on the two counters add the length of the input to the message length |
| BlockHash.CountsAreBits | engine/utils/pi_hash.cpp:171-198 | where they are used the counters together are eight times the byte count modulo 2^64 |
| Md5.Context.Transform | engine/utils/pi_hash.cpp:117-163 | the sixty-four unrolled operations equal the scheduled ones of section 3.4 of RFC 1321 |
| Md5.FourSteps | engine/utils/pi_hash.cpp:117-163 | four operations with the code's renaming of variables are four steps of the rotating state |
| Md5.Context.Update | engine/utils/pi_hash.cpp:171-188 | state, counters and live buffer are those of the whole message so far, for every split |
| Md5.Context.Final | engine/utils/pi_hash.cpp:190-206 | pads in one update and gives the digest of the whole message; the partial block ends empty |
| Md5.Md5 | engine/utils/pi_hash.cpp:210-217 | equals the digest of sections 3.1 to 3.5 of RFC 1321 |
| Md5Answer.Answer | engine/utils/pi_hash.cpp:117-217 | the digest of "abc" is the one of section A.5 of RFC 1321 |
| Sha1.OrForms | engine/utils/pi_hash.cpp:237-267 | the code's and/or forms of the round functions equal the exclusive-or forms of FIPS 180-4 |
| Sha1.Context.Transform | engine/utils/pi_hash.cpp:237-267 | schedule and eighty rounds over the buffer equal the recursive compression function |
| Sha1.Context.Update | engine/utils/pi_hash.cpp:275-288 | state, counters and live buffer are those of the whole message so far, for every split |
| Sha1.Context.Final | engine/utils/pi_hash.cpp:290-306 | the byte-by-byte padding loop ends, and the digest is that of the whole message |
| Sha1.Sha1 | engine/utils/pi_hash.cpp:308-315 | equals the hash of sections 5.1.1 and 6.1.2 of FIPS 180-4 |
| Sha1Answer.Answer | engine/utils/pi_hash.cpp:237-315 | the digest of "abc" is the one of the examples to FIPS 180-4 |
| DigestConstants.Sha1ConstantsAreRoots | engine/utils/pi_hash.cpp:237-267 | the four round constants are the leading bits of the roots of 2, 3, 5 and 10 |
| Sha256.Context.Transform | engine/utils/pi_hash.cpp:352-376 | schedule and sixty-four rounds equal the recursive compression function |
| Sha256.Context.Update | engine/utils/pi_hash.cpp:386-411 | state, length and live buffer are those of the whole message so far, for every split |
| Sha256.Context.Final | engine/utils/pi_hash.cpp:413-432 | the byte-by-byte padding loop ends, and the digest is that of the whole message |
| Sha256.Sha256 | engine/utils/pi_hash.cpp:435-442 | equals the hash of sections 5.1.1 and 6.2.2 of FIPS 180-4 |
| Sha256Answer.Answer | engine/utils/pi_hash.cpp:333-442 | the digest of "abc" is the one of the examples to FIPS 180-4 |
| DigestConstants.ConstantsAreRoots | engine/utils/pi_hash.cpp:341-350 | constant t is the first 32 bits behind the point of the cube root of prime number t, for all 64 |
| DigestConstants.InitialIsRoots | engine/utils/pi_hash.cpp:378-384 | the eight words of the initial state are those bits of the square roots of the first eight primes |
| Levenshtein.FillRow | external/levenshtein/levenshtein.h:22-29 | the inner loop turns row i - 1 of the programme into row i |
| Levenshtein.LevenshteinDistance | external/levenshtein/levenshtein.h:11-33 | returns the minimum cost over all edit scripts between the case-folded strings |
| Levenshtein.DistIsMinimumCost | external/levenshtein/levenshtein.h:11-33 | some script reaches the distance and none is cheaper |
| Levenshtein.DistIsMetric | external/levenshtein/levenshtein.h:11-33 | symmetric, zero exactly for equal strings, triangle inequality, between the length difference and the longer length |
| Levenshtein.LevenshteinSimilarity | external/levenshtein/levenshtein.h:35-41 | lies between 0 and 1, and is 1 exactly when the case-folded strings are equal |
| Levenshtein.SimilarityScale | external/levenshtein/levenshtein.h:35-41 | the scale is symmetric and its end points mean what they should |
| Levenshtein.SimilarityIs | external/levenshtein/levenshtein.h:35-41 | the similarity is the part of the longer length that needs no edit |
| Levenshtein.ToLowerIs | external/levenshtein/levenshtein.h:24-26 | case folding letter by letter |
| Scanner.Compare | external/KittyMemory/KittyScanner.cpp:15-23 | true exactly when the bytes agree wherever the mask says so |
| Scanner.SumsAreRight | external/KittyMemory/KittyScanner.cpp:30-39 | the 64-bit window test is right for every start in the range if and only if the end plus the mask length does not pass 2^64 |
| Scanner.FindInRange | external/KittyMemory/KittyScanner.cpp:25-47 | a nonzero answer is the first hit; zero means none, or a hit at address 0 |
| Scanner.FindBytesAll | external/KittyMemory/KittyScanner.cpp:49-69 | ascending hits that do not overlap, of which every hit overlaps one that starts no later, if and only if the search does not meet a hit at address 0; then no set of non-overlapping hits is larger |
| Scanner.GreedyIsOptimal | external/KittyMemory/KittyScanner.cpp:49-69 | no set of non-overlapping hits is larger than an exhaustive list |
| ElfLookup.GnuHashSymName | external/KittyMemory/KittyUtils.cpp:151-156 | the loop computes the GNU hash of the name |
| ElfLookup.GnuHashValue | external/KittyMemory/KittyUtils.cpp:151-156 | that hash in closed form: 5381 * 33^n plus the sum of name[i] * 33^(n-1-i), modulo 2^32 |
| ElfLookup.GnuLookup | external/KittyMemory/KittyUtils.cpp:150-217 | on any well-formed table of either ELF class the lookup by filter, bucket and chain gives exactly what a linear scan of the hashed symbols gives |
| ElfLookup.BloomMiss | external/KittyMemory/KittyUtils.cpp:150-217 | a name whose filter bits are missing is no symbol's name |
| ElfLookup.BucketEnd | external/KittyMemory/KittyUtils.cpp:150-217 | at the end bit of a chain no later symbol can have the name |
| ElfLookup.ElfHashSymName | external/KittyMemory/KittyUtils.cpp:99-109 | the loop computes the SysV hash of the name |
| ElfLookup.ElfHashAppend | external/KittyMemory/KittyUtils.cpp:99-109 | what one more character does to the hash, in numbers: four bits up, the upper four of 32 bits folded into the low byte and dropped |
| ElfLookup.ElfHashValue | external/KittyMemory/KittyUtils.cpp:99-109 | as long as it stays below 2^28, the hash is the value at 16 of the polynomial of its characters |
| ElfLookup.ElfHashIs28Bits | external/KittyMemory/KittyUtils.cpp:99-144 | the SysV hash never has one of its upper four bits set |
| ElfLookup.ElfLookup | external/KittyMemory/KittyUtils.cpp:99-144 | on acyclic chains a symbol is found exactly when one has the name, and the found one has it |
| ArgSlots.ComputeArtArgSlot | engine/pine/pine_native.cpp:571-624 | the counting loop gives the slot of the specified left-to-right allocation, and the `this` slot for a negative index |
| ArgSlots.SlotIs | engine/pine/pine_native.cpp:571-606 | where an argument lies, counted from the types before it alone: stack offset, register file and register, for every signature |
| ArgSlots.SlotsAreApart | engine/pine/pine_native.cpp:571-624 | for every signature: slots are in range, and different arguments share no register and no stack byte |
| ArgSlots.GetAfterSet | engine/pine/pine_native.cpp:632-682 | a written argument reads back narrowed by its type and place |
| ArgSlots.SetWrites | engine/pine/pine_native.cpp:662-682 | the register, and each stack byte, that a write sets |
| ArgSlots.SignExtendIs | engine/pine/pine_native.cpp:655-658 | narrow signed values are the signed number of that many bits |
| ArgSlots.SetArgument | engine/pine/pine_native.cpp:632-682 | a written argument reads back narrowed, every other one as before, and no register and no stack byte but those of its slot changes |
| ArgSlots.SetKeepsElsewhere | engine/pine/pine_native.cpp:662-682 | a write to any slot changes its register and stack bytes alone; one to a floating-point register changes no stack byte |
| ArgSlots.SetKeepsOutside | engine/pine/pine_native.cpp:662-682 | what lies outside the argument slots is not touched |
| ArgSlots.CallFrame.GetArgRaw | engine/pine/pine_native.cpp:632-660 | reads the slot from the saved context, and 0 for an index out of range |
| ArgSlots.CallFrame.SetArgRaw | engine/pine/pine_native.cpp:662-682 | changes the context in place as the specified write does, and not at all for an index out of range |
| SigParser.ParseJavaArgTypes | engine/pine/pine_native.cpp:322-341 | the index loop computes the specified split, for malformed signatures too |
| SigParser.ParsesDescriptors | engine/pine/pine_native.cpp:322-341 | a signature built from any list of argument types, arrays and classes included, is split into exactly their descriptors |
| SigParser.TypesJoined | engine/pine/pine_native.cpp:327-339 | for any signature the types are the text between the parentheses cut into pieces, nothing lost and nothing added but the parenthesis behind an open bracket |
| SigParser.TypeIs | engine/pine/pine_native.cpp:327-339 | where one type ends, well formed or not |
| SigParser.NoTypes | engine/pine/pine_native.cpp:324-326 | without a pair of parentheses in this order there are none |
| HookDispatch.HookThread.MethodHookDispatcher | engine/pine/pine_native.cpp:1348-1405 | in every well-nested run, managed-stack words, current guard, active set and entry points after a dispatch are those before it, and the events are those of the scoped semantics |
| HookDispatch.HookThread.RunFrame | engine/pine/pine_native.cpp:1375-1405 | onEnter, the original unless it has run or a result is set, onLeave, with all state restored |
| HookDispatch.HookThread.InvokeOriginal | engine/pine/pine_native.cpp:941-1080 | the swap of the entry point around a call through JNI is undone, and the original is invoked at most once per frame |
| HookDispatch.HookThread.RunCode | engine/pine/pine_native.cpp:1348-1405 | entering a method through any chain of bridges restores all thread state |
| HookProperties.NoReentry | engine/pine/pine_native.cpp:1349-1357 | in the whole run of a dispatch, however deep it nests: no callback of a method that was active before, and of the dispatched method exactly the callbacks at the dispatch's own depth; callbacks see an empty managed stack, and where the stack is not known it is left alone |
| HookProperties.DispatchOwn | engine/pine/pine_native.cpp:1349-1405 | every callback of the method in a dispatch of it belongs to that dispatch itself; recursive calls fire none |
| HookProperties.ActiveGoesToBody | engine/pine/pine_native.cpp:1349-1357 | while a method is active, entering it goes through all its bridges to the original, once |
| HookProperties.DispatchCounts | engine/pine/pine_native.cpp:1348-1405 | over the whole run, at any depth, each callback of the method fires exactly once when it is registered and the method not active, and else never; the dispatch runs the original at most once, and exactly when the guard or the callbacks let it |
| HookOrder.DispatchOrder | engine/pine/pine_native.cpp:1388-1405 | onEnter comes before every other event; the original comes before onLeave if and only if onEnter called it or left no result set |
| HookOrder.OriginalFirstOfAll | engine/pine/pine_native.cpp:1349-1357 | while the method is active, the original is the first event of an entry through its bridges, and all that follows is nested in it |
| HookOrder.CallsInOrder | engine/pine/pine_native.cpp:1348-1405 | the calls of a body come one behind the other |
| HookProperties.DispatchFits | engine/pine/pine_native.cpp:1228-1260 | every event of a dispatch is nested in it, respects the active set and sees the stack words its scope gives it |
| PageAllocator.Memory.AllocUnprotected | engine/utils/memory.cpp:21-55 | a served block is new, lies in one page and is apart from all others; a request is refused exactly when too large or no page can be had, and then nothing changes |
| PageAllocator.PagesHalfUsed | engine/utils/memory.cpp:21-55 | of two consecutive pages more than one page's worth is handed out |
| PageAllocator.MemoryWellUsed | engine/utils/memory.cpp:21-55 | with at least two mapped pages, the blocks handed out exceed half the pages, rounded down |
| Trampolines.TrampolineInstaller.CreateNativeBridgeTrampoline | engine/trampoline/trampoline_installer.cpp:302-319 | a new bridge holds the callback and the saved entry point, and no other word of memory changes |
| Trampolines.TrampolineInstaller.InstallNativeReplacementTrampoline | engine/trampoline/trampoline_installer.cpp:354-367 | one bridge is put in front of the method's chain, the old entry point is returned, and every other chain stays intact |
| Trampolines.BridgesKept | engine/trampoline/trampoline_installer.cpp:302-319 | writing a new bridge leaves the bridges written before as they were |
| Trampolines.WordsApart | engine/trampoline/trampoline_installer.cpp:309-316 | the patched eight-byte words of different bridges share no byte |
| Trampolines.FollowVisitsAll | engine/trampoline/trampoline_installer.cpp:302-367 | after any n installs, n steps along the saved entry points visit the n bridges newest first and end at the original entry |
| Trampolines.InstalledChain | engine/trampoline/trampoline_installer.cpp:302-367 | read back from memory, installed hooks whose stored callback is the dispatcher are exactly the chain of their bridges down to the original code |
| Trampolines.ChainFiresOnce | engine/trampoline/trampoline_installer.cpp:302-367 | in any state the installer can reach: one outer call through the method's entry point, as memory has it, fires the registered callbacks once each in its whole run, recursive calls included, and itself runs the original once, or not at all exactly when a set result prevents it |

## Left out

- JsonStrings.KeyedRoundTrip: a key with an opening bracket is excluded, because the code then does not give every list back (`KeyExactly`). The program passes only `modules` and `classes` (cli/injector/repl_client.cpp:658-677).
- MsgPackRoundTrip.RoundTrip: doubles are kept as their 64-bit patterns; the conversion of a float to a double is not modelled.
- MsgPackCodec.Reader.ReadValue: reserving memory for an announced count, and the native stack that deep nesting takes, are not modelled.
- Frames.Receiver.Receive: headers of 2^32 - 4 and more are excluded, because the loop then reads bytes behind its buffer (`SumIsExact`); the same holds for what follows.
- Frames.Receiver.ReceiveAll: as for `Receive`, anywhere in the stream.
- Frames.DrainAppend: as for `Receive`.
- Frames.Receiver.Receive: what is printed for an answer or an event, and the sequence number of the last answer, are left out; a parsed value is appended to a list.
- Payload.WalkFindsNewest: appended payloads are shorter than 2^64 - 16 bytes.
- Payload.ExtractEmbeddedPayload: the XZ decompression of what was found, opening and reading the file, and reading errors.
- UnitySecondRun.SecondRunKeeps: one way only; whether a second run changes anything is decided exactly by `SecondRunExactly`, and whether it keeps step by `RunsInStep`.
- UnityGrammar.RewrittenPieces: texts that end inside quoted text, a block comment or a pattern have no tiling.
- UnityPreprocess.PreprocessUnityLine: characters are classified as in the "C" locale.
- Scanner.FindInRange: ranges whose end plus mask length passes 2^64, on which the code reads behind the range (`SumsAreRight`).
- Scanner.FindBytesAll: the same ranges; the hexadecimal and data variants, which prepare a pattern and call this one.
- ElfLookup.ElfLookup: chains with a cycle, on which the code's loop need not end; symbol types and values; `char` is unsigned, as on arm64.
- ArgSlots.CallFrame.SetArgRaw: decoding and re-encoding object references, and the typed setters on top of it.
- HookDispatch.HookThread.MethodHookDispatcher: hooks are neither installed nor removed during a run. An install on a method while its original runs through JNI would be undone when the entry point is put back.
- HookDispatch.HookThread.MethodHookDispatcher: several threads, C++ exceptions, the pinning of references in callee-saved registers, and the conversion of arguments and results.
- Trampolines.TrampolineInstaller.InstallNativeReplacementTrampoline: the machine code of a bridge is two words, the callback and the saved entry point; cache flushing and inline trampolines.
- PageAllocator.Memory.AllocUnprotected: the lock, and the naming and clearing of pages.
- Levenshtein.LevenshteinSimilarity: over the reals, without floating-point rounding.
- Levenshtein.SimilarityScale: over the reals, without floating-point rounding.
- Checksums and digests of a null pointer, sizes beyond what a `size_t` holds, and hexadecimal output.
- Mutation of map values by `set`, and the inactive fields of the source's value record.
- Process injection, sockets, terminal handling, the scripting engines and the Unity resolver: effects of the system or foreign libraries.
