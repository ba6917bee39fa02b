# libcask key codec in Dafny

A model of the CASK key codec of libcask (C++). It has three layers:

- the alignment and alphabet helpers of `helpers.cpp`;
- the URL-safe base64 codec (section 5 of RFC 4648, padding omitted as section 3.2 allows), made of the bit-stream encoder `Base64UrlEncode` of `cask_dependencies.cpp` and the decoder `Base64Url::DecodeFromChars` / `DecodeBase64` of `base64url.h`;
- `Cask_GenerateKey` of `cask.cpp`, with its size constants and its four argument checks.

The key generator is a pure function of explicit inputs:

- the allocator code, the provider signature and the provider data, as C strings (`CString`: null, or a buffer of C `char`s read up to its first NUL; each element is one byte, so a multi-byte UTF-8 character counts as several elements, and non-ASCII bytes fail every alphabet check);
- the requested entropy size;
- `fill`, the random bytes `FillRandom` would produce;
- `year` and `month`, which `gmtime` reports;
- `crc32`, the digest `Crc32::Hash` writes, as an uninterpreted function.

The result is either the key bytes or the error the source throws or asserts. Every C++ exception becomes a value:

- the decoder's exceptions are `DecodeError`;
- the generator's `std::invalid_argument`s and failing `assert`s are `GenerateError`.

Files:

- `results.dfy`: `Option` and `Result`.
- `bits.dfy`: big-endian bit streams, their values and 8-bit chunking. It is the common ground of the encoder and decoder specifications.
- `helpers.dfy`: `helpers.cpp` and `helpers.h`, with C++ truncating division and `strlen`.
- `text.dfy`: the `std::replace`, pad-with-`=` and `erase(remove(...))` passes.
- `encoder.dfy`: `Base64UrlEncode`, a method with the source's loops, and its reference `EncodeSpec`. Character i of `EncodeSpec` is the alphabet entry of bits 6i..6i+5 of the zero-filled bit stream.
- `decoder.dfy`: `DecodeBase64` and `DecodeFromChars`, each in two builds.
  - The build as written keeps the `out_len` computation and the read before empty input.
  - The corrected build checks the destination against the bytes the loop writes.
  - The accumulator loop is a method. Its reference is `DecodeSpec`, the successive 8-bit chunks of the 6-bit stream.
- `roundtrip.dfy`: the decoder inverts the encoder.
- `cask.dfy`: the constants, the argument checks, and the key layout as a run of steps. It ends with end-to-end lemmas for both builds of `Cask_GenerateKey`. The build as written also keeps the `keyLengthInBytes <= 64` assertion.

A canonical CASK key uses only the URL-safe alphabet and no padding. The decoder is more lenient than that:

- it accepts the standard `+` and `/` (`Decoder.StandardSpellingAccepted`);
- it stops at the first `=` (`Decoder.PaddingTolerated`).

The model follows the code here.

Some source lines do not compile as written, and the model gives them their evident meaning:

- `providerData.length()` on a `const char*` (cask.cpp line 86) is `strlen`;
- `source.begin()` on a `const char*` (base64url.h line 11) is the string's characters.

Some helpers are declared without a visible definition. They are assumed to have their evident meanings:

- `BytesToBase64Chars` is `b / 3 * 4`;
- `Base64CharsToBytes` is `c / 4 * 3`;
- `Is3ByteAligned` is `% 3 == 0`;
- `Is4CharAligned` is `% 4 == 0`;
- `Base64Url::CharsToBytes` is `Base64CharsToBytes`;
- `Base64Url::Chars` is the 64-character URL-safe table.

## Model

| member | source | states |
|---|---|---|
| Helpers.TruncDiv | src/libcask/helpers.cpp:10 | C++ `/` truncates toward zero: quotient times divisor lies between 0 and the dividend, within one divisor of it |
| Helpers.RoundUpToMultipleOf | src/libcask/helpers.cpp:8-11 | stays in int32 when neither `value + multiple` nor the `- 1` overflows; for value >= 0 and multiple > 0 the result is a multiple, at least value and below value + multiple; for a negative value it is below the multiple |
| Helpers.RoundUpTo3ByteAlignment | src/libcask/helpers.cpp:3-6 | rounding to 3: a multiple of 3 in [bytes, bytes + 3) for bytes >= 0 |
| Helpers.RoundUpIdempotent | src/libcask/helpers.cpp:8-11 | an aligned non-negative value is returned unchanged |
| Helpers.RoundUpTwice | src/libcask/helpers.cpp:8-11 | rounding twice equals rounding once |
| Helpers.RoundUpBelowZero | src/libcask/helpers.cpp:10 | below zero the rounding is wrong: -4 gives 0 and the aligned -6 gives -3 |
| Helpers.AlignmentOfConstants | src/libcask/helpers.cpp:3-6 | 16, 24 and 64 round to 18, 24 and 66 |
| Helpers.BytesToBase64Chars | src/libcask/helpers.h:9 | a 4-aligned character count, 4/3 of an aligned byte count |
| Helpers.Base64CharsToBytes | src/libcask/helpers.h:13 | a 3-aligned byte count, 3/4 of an aligned character count |
| Helpers.CharsBytesRoundTrip | src/libcask/helpers.h:9-13 | the two conversions invert each other on aligned counts |
| Helpers.UrlTable | src/libcask/helpers.h:5 | the alphabet has 64 entries, entry v being the v-th URL-safe character |
| Helpers.UrlTableLiteral | src/libcask/helpers.h:5 | the table is the source's literal: `A-Z`, then `a-z`, then `0-9`, then `-_` |
| Helpers.AlphabetBoundaries | src/libcask/helpers.h:5 | the table's ranges start and end at A, Z, a, z, 0, 9, then `-` and `_` |
| Helpers.UrlIndex | src/libcask/helpers.cpp:29-35 | every character the range test accepts has a table position holding it |
| Helpers.ValidCharacterIsInAlphabet | src/libcask/helpers.cpp:29-35 | the range test holds exactly for the 64 table characters |
| Helpers.Terminator | src/libcask/helpers.cpp:19 | the first NUL at or after a position, or the buffer's end; no NUL before it |
| Helpers.Strlen | src/libcask/cask.cpp:163 | `std::strlen`: no NUL before the length, and a NUL at it unless the buffer ends there |
| Helpers.Contents | src/libcask/helpers.cpp:19-24 | the characters before the terminator, none of them NUL |
| Helpers.AllValidFrom | src/libcask/helpers.cpp:19-26 | the character-by-character walk returns true iff every character up to the terminator passes the range test |
| Helpers.IsValidForBase64Url | src/libcask/helpers.cpp:13-27 | false for null; otherwise true iff every character of the contents is in the alphabet (so true for "") |
| Text.Replace | src/libcask/base64url.h:12-13 | same length; each `from` becomes `to`, every other character kept |
| Text.PadTo4 | src/libcask/base64url.h:16-18 | the input followed by fewer than 4 pad characters, to a multiple of 4 |
| Text.Erase | src/libcask/cask_dependencies.cpp:42 | no erased character is left and the string does not grow |
| Text.ReplaceAbsent | src/libcask/cask_dependencies.cpp:40-41 | replacing a character that does not occur changes nothing |
| Text.EraseAbsent | src/libcask/cask_dependencies.cpp:42 | erasing a character that does not occur changes nothing |
| Text.EraseAppend | src/libcask/cask_dependencies.cpp:42 | erasing distributes over concatenation |
| Text.EraseAll | src/libcask/cask_dependencies.cpp:42 | erasing from a string made only of that character leaves nothing |
| Text.PadThenErase | src/libcask/cask_dependencies.cpp:39-42 | padding with `=` and erasing every `=` gives back a string without `=` |
| Encoder.EncodeSpec | src/libcask/cask_dependencies.cpp:26-44 | ceil(8n/6) characters (4n/3 for aligned n), all from the alphabet, never `=`, `+` or `/` |
| Encoder.TableExcludes | src/libcask/cask_dependencies.cpp:22-24 | no table character is `=`, `+` or `/` |
| Encoder.Base64UrlEncode | src/libcask/cask_dependencies.cpp:26-44 | the source's loops, padding, replacement and erasure compute exactly the reference encoding |
| Encoder.EncodeByte | src/libcask/cask_dependencies.cpp:30-37 | one outer turn: `val` holds the bits so far and the output is every complete group of them |
| Encoder.EmitReadyGroups | src/libcask/cask_dependencies.cpp:33-36 | the inner loop emits each complete 6-bit group, leaving fewer than six bits |
| Encoder.EmitTail | src/libcask/cask_dependencies.cpp:38 | the leftover bits, zero-filled on the right, complete the reference encoding |
| Encoder.FinishPasses | src/libcask/cask_dependencies.cpp:39-42 | padding, replacing and erasing leave the loop's output unchanged |
| Encoder.EncodeEmpty | src/libcask-tests/cask_dependencies_tests.cpp:20-25 | empty input encodes to "" |
| Encoder.EncodeConcat | src/libcask/cask_dependencies.cpp:30-37 | encoding distributes over a 3-aligned prefix |
| Encoder.EncodeGroup | src/libcask/cask_dependencies.cpp:30-36 | one 3-byte group in closed form: the four 6-bit slices of its 24 bits |
| Encoder.SignatureEncoding | src/libcask/cask.cpp:101-103 | the signature bytes 25 04 09 encode to "JQQJ" |
| Decoder.StdTable | src/libcask/base64url.h:26-29 | the standard table has 64 entries, `+` and `/` last |
| Decoder.StdTableLiteral | src/libcask/base64url.h:26-29 | the standard table is its literal, the URL-safe table with `+/` in place of `-_` |
| Decoder.Find | src/libcask/base64url.h:50 | `find` gives the first position holding the character, or npos iff it is absent |
| Decoder.FindInTable | src/libcask/base64url.h:50-53 | on the table, `find` gives the character's value iff it is a standard character |
| Decoder.ToStandard | src/libcask/base64url.h:11-13 | same length, `-` and `_` become `+` and `/` |
| Decoder.FirstInvalid | src/libcask/base64url.h:50-53 | the first character outside the standard alphabet, all before it standard |
| Decoder.LoopOutcome | src/libcask/base64url.h:44-63 | success iff every character before the first `=` is standard; then the count is 6m/8 and the bytes are the reference decoding; nothing past them is touched |
| Decoder.AccumulateLoop | src/libcask/base64url.h:44-63 | the source's loop, with its 6-bit shifts and byte writes, computes that outcome |
| Decoder.Shift | src/libcask/base64url.h:55-60 | one character adds six bits: buffer times 64 plus the value, bits written plus bits pending grow by 6, fewer than 8 stay pending; a write puts the top byte at `j`, otherwise the destination is unchanged |
| Decoder.ShiftWrites | src/libcask/base64url.h:57-60 | a character that completes a byte advances `j` by one and changes the destination at the old `j` only |
| Decoder.TopByteExact | src/libcask/base64url.h:59 | when the buffer has at most `pending + 8` bits, the byte is the buffer with its pending bits shifted out, so `& 0xFF` drops nothing |
| Decoder.TopByteLowBits | src/libcask/base64url.h:59 | bits above `pending + 8` do not affect the written byte |
| Decoder.WrappedShift | src/libcask/base64url.h:45-55 | shifting a 32-bit buffer is the unbounded shift reduced modulo 2^32 |
| Decoder.TopByteWrapHarmless | src/libcask/base64url.h:45-59 | with fewer than 8 bits pending, the 32-bit buffer writes the same byte as the unbounded one |
| Decoder.DecodeBase64AsWritten | src/libcask/base64url.h:25-64 | throws on a length not a multiple of 4; reads before empty input; throws iff the destination is below `out_len`, writing nothing; otherwise succeeds iff the loop does, with the reference bytes |
| Decoder.OutLenAsWritten | src/libcask/base64url.h:36-38 | within two below 3 bytes per 4 characters; equal to the count written when the only `=` are at most two trailing ones |
| Decoder.OutLenCoversWrites | src/libcask/base64url.h:36-42 | for non-empty aligned input `out_len` is at least the count written, so the size check guards every write |
| Decoder.DecodeBase64 | src/libcask/base64url.h:25-64 | corrected: the same, with the size check against the count the loop writes and no read before empty input |
| Decoder.Prepared | src/libcask/base64url.h:10-18 | the string handed on has a length that is a multiple of 4, less than 4 longer than the source |
| Decoder.PreparedShape | src/libcask/base64url.h:10-18 | the loop stops exactly at the appended padding and sees the replaced source before it |
| Decoder.DecodeFromCharsAsWritten | src/libcask/base64url.h:3-22 | never the length exception; the read before the input iff the source is empty |
| Decoder.DecodeFromChars | src/libcask/base64url.h:3-22 | corrected: neither the length exception nor the read before the input; nothing past the count changes |
| Decoder.FromCharsDecodes | src/libcask/base64url.h:3-63 | a source of accepted characters writes its 6n/8 decoded bytes, exactly 3k for 4k characters |
| Decoder.FromCharsRejects | src/libcask/base64url.h:50-53 | an unaccepted character before any `=` makes the decoder throw |
| Decoder.StandardSpellingAccepted | src/libcask/base64url.h:11-13 | the decoder is not strict: `+/+/` is accepted and decodes like `-_-_` |
| Decoder.PaddingTolerated | src/libcask/base64url.h:16-18 | padding is not rejected: a source with its `=` padding decodes like the bare source |
| Decoder.OutLenExcess | src/libcask/base64url.h:36-38 | `out_len` is exact except for sources of 4k+1 characters, where it is one too many |
| Decoder.AsWrittenAgrees | src/libcask/base64url.h:36-42 | where `out_len` is exact, both builds give the same outcome |
| Decoder.AsWrittenOverstatesOutLen | src/libcask/base64url.h:36-42 | with exactly enough room for a 4k+1-character source, the build as written throws where the corrected one succeeds |
| Decoder.FiveCharacters | src/libcask/base64url.h:36-42 | "QUJDR" needs 3 bytes, and the build as written demands 4 |
| Decoder.EmptySource | src/libcask/base64url.h:37 | as written, empty input reads before the string; corrected, it writes nothing |
| RoundTrip.DecodeEncoded | src/libcask/base64url.h:3-63 | decoding an encoding gives back the bytes at the front of the destination, the rest untouched |
| RoundTrip.DecodeEncodedAsWritten | src/libcask/base64url.h:36-38 | the build as written round-trips too for non-empty input, as an encoding never has 4k+1 characters |
| RoundTrip.EncodedLength | src/libcask/cask_dependencies.cpp:30-38 | ceil(8n/6) characters carry exactly n bytes and are never 4k+1 in number |
| RoundTrip.DecodeGroup | src/libcask/base64url.h:55-60 | four characters decode to the three bytes of their 24 bits |
| Cask.ConstantValues | src/libcask/cask.cpp:22-37 | the constants are 24, 32, 18 and 66 |
| Cask.ValidForBase64Url | src/libcask/helpers.cpp:13-27 | on a non-null string the alphabet test is the range test of each character |
| Cask.ValidateProviderSignature | src/libcask/cask.cpp:156-171 | passes iff non-null, 4 characters and URL-safe; each failure names its cause |
| Cask.ValidateAllocatorCode | src/libcask/cask.cpp:173-188 | passes iff non-null, 2 characters and URL-safe; each failure names its cause |
| Cask.ValidateProviderData | src/libcask/cask.cpp:190-213 | passes iff non-null, at most 32 characters, a multiple of 4 and URL-safe, checked in that order |
| Cask.ValidateSecretEntropy | src/libcask/cask.cpp:215-221 | passes iff the rounded size lies in [18, 66] |
| Cask.EntropyAccepted | src/libcask/cask.cpp:79-84 | rounding then checking accepts exactly the requests for 16 to 66 bytes |
| Cask.ValidateArguments | src/libcask/cask.cpp:79-87 | the four checks in source order, the first failure deciding the error; on success a plan of the rounded entropy, 3/4 of the data length and the three strings |
| Cask.KeyLength | src/libcask/cask.cpp:57-59 | for an accepted plan, 30 to 102 bytes, a multiple of 3 |
| Cask.KeyLengthRange | src/libcask/cask.cpp:57-59 | every accepted key is 30 to 102 bytes long, a multiple of 3 |
| Cask.ZeroBytes | src/libcask/cask.cpp:90 | the new vector holds zeros |
| Cask.Entropy | src/libcask/cask.cpp:94 | byte i is the i-th random byte |
| Cask.OverwriteParts | src/libcask/cask.cpp:101-104 | writing through `destination` and advancing it puts the part at its offset and leaves the bytes before and after it unchanged |
| Cask.WithChecksum | src/libcask/cask.cpp:72-77 | the last three bytes become the first three CRC32 bytes of the rest, which is unchanged |
| Cask.Timestamp | src/libcask/cask.cpp:115-120 | the allocator code, then the table entries at year - 2024 and month - 1 |
| Cask.StampCharacters | src/libcask/cask.cpp:115-120 | in a supported year both indices are in the table and the string is URL-safe |
| Cask.StampDecodes | src/libcask/cask.cpp:115-123 | the timestamp string decodes to the allocator code's 12 bits, the year's 6 and the month's 6 |
| Cask.DecodeInto | src/libcask/cask.cpp:97-99 | decoding into the key's span keeps the bytes before it |
| Cask.DecoderOfDecodes | src/libcask/base64url.h:36-63 | both builds decode 4k URL-safe characters to 3k bytes, the corrected one also the empty string |
| Cask.DecodeIntoUrlSafe | src/libcask/cask.cpp:97-99 | a URL-safe 4k-character string fills its 3k-byte span, the write count assertion holds, nothing else changes |
| Cask.KeySteps | src/libcask/cask.cpp:97-130 | every write of lines 97-130 lies inside the key |
| Cask.InitialKey | src/libcask/cask.cpp:90-95 | the buffer is as long as the key, the random bytes first and zeros after them |
| Cask.LayOut | src/libcask/cask.cpp:90-130 | a laid-out key is as long as the plan says |
| Cask.RunEmptyDecode | src/libcask/cask.cpp:97 | as written, empty provider data stops the layout with the read before input |
| Cask.ChecksumSeals | src/libcask/cask.cpp:130 | the checksum step seals the body in front of it |
| Cask.RunSignature | src/libcask/cask.cpp:101-130 | signature copy, two decodes and the checksum produce the expected writes |
| Cask.RunBack | src/libcask/cask.cpp:122-130 | the timestamp and provider-signature decodes and the checksum produce the expected writes |
| Cask.RunFields | src/libcask/cask.cpp:97-130 | the five steps make the four writes, then the checksum |
| Cask.RunKeySteps | src/libcask/cask.cpp:97-130 | in a supported year the steps write the fields behind the entropy, whatever the buffer held |
| Cask.LayOutCorrect | src/libcask/cask.cpp:90-130 | in a supported year the layout is the reference key |
| Cask.LayOutYear | src/libcask/cask.cpp:106-113 | outside 2024-2087 the layout throws the year error |
| Cask.LayOutEmptyData | src/libcask/cask.cpp:97 | as written, empty provider data fails in the decoder |
| Cask.KeyLayout | src/libcask/cask.cpp:92-130 | the key field by field: entropy, provider data, 25 04 09, timestamp, provider signature, CRC32 prefix of all before it |
| Cask.GenerateKeyWith | src/libcask/cask.cpp:79-134 | success only for valid arguments, with 30-102 bytes (at most 64 as written) |
| Cask.GenerateKeyAsWritten | src/libcask/cask.cpp:50-135 | as written, no key is longer than 64 bytes |
| Cask.GenerateKey | src/libcask/cask.cpp:50-135 | corrected: keys of 30 to 102 bytes, multiples of 3 |
| Cask.GenerateKeyOutcome | src/libcask/cask.cpp:79-130 | every outcome: the first failing check; else the length assertion or the empty-data read (as written); else the year error; else the reference key |
| Cask.GenerateKeySucceeds | src/libcask/cask.cpp:79-134 | corrected: a key iff the checks pass and the year is supported, and then the reference key |
| Cask.AsWrittenAgreesWithCorrected | src/libcask/cask.cpp:89 | the two builds differ only where the build as written fails its assertion or reads before empty data |
| Cask.LongestKey | src/libcask/cask.cpp:86-89 | 66 bytes of entropy and 32 characters of data pass every check and give 102 bytes, which the assertion rejects |

## Left out

- `FillRandom` (`std::mt19937`), `GetUtcNow`/`gmtime` and `Crc32::Hash` are parameters: `fill`, `year`/`month` and `crc32`. `month` is required to be 1-12, which `gmtime` guarantees.
- `ComputeCrc32` in cask_dependencies.cpp is a stub returning 0 and is not modelled.
- `Cask_IsCask`, `Cask_IsCaskBytes`, `Cask_GenerateHash` and `Cask_CompareHash` are stubs returning false or 0, with no logic to model.
- The final `std::copy` into `output` (cask.cpp line 132) is not modelled: the key is returned as bytes. The source writes raw bytes, not base64 text, and never checks `outputSizeInBytes`.
- cask.h, cask_dependencies.h and the test scaffolding are not part of this model. The exception is the empty-input test vector (`Encoder.EncodeEmpty`).
- The integer buffers are unbounded: the 32-bit `val` of the encoder and `uint32_t buffer` of the decoder. Only their low 12 or 14 bits are ever read, and wrap-around does not change those; for the decoder `Decoder.TopByteWrapHarmless` proves it.
- Cask.GenerateKeyWith: requires the entropy argument to be at most 2^31 - 4. Rounding a larger `int32_t` overflows in `value + multiple`, which is undefined in C++.
- Helpers.RoundUpToMultipleOf: for negative values the contract only bounds the result below the multiple. The source rounds toward zero there, not up; `Helpers.RoundUpBelowZero` shows two cases. Negative entropy does reach the rounding (cask.cpp:79 rounds the raw argument before any check), but every such result is below 3 and the entropy check that follows rejects it (`Cask.EntropyAccepted`), so this is not listed as a finding.
- Cask.GenerateKeyWith: the model is of a build with `assert` enabled. Under `NDEBUG` the assertions of cask.cpp:89, 98, 123 and 127 vanish: the 64-byte cap no longer stops the 65- to 102-byte keys the checks admit, and the write counts are not compared.
- Cask.GenerateKeyWith: the default argument `secretEntropyInBytes = 32` of the C++ declaration is not modelled; callers pass the entropy explicitly.
- Cask.GenerateKeyWith: the exception messages are not modelled. Each check's failure is a distinct `GenerateError` value.
- Cask.LayOut: its own contract only fixes the key's length. The contents are stated by `Cask.LayOutCorrect`, `Cask.LayOutYear` and `Cask.LayOutEmptyData`.

## Findings

| source | as written | input that shows it | evidently intended | confidence | as-written member | corrected member |
|---|---|---|---|---|---|---|
| src/libcask/cask.cpp:89 | `assert(keyLengthInBytes <= 64)` after checks that admit 66 bytes of entropy and 24 bytes of provider data | entropy 66, provider data of 32 URL-safe characters: a 102-byte key | keys up to the 102 bytes the checks admit | high, not executed | Cask.LongestKey | Cask.GenerateKeySucceeds |
| src/libcask/base64url.h:37 | `input[in_len - 1]` with `in_len == 0`, a read before the string, reached by `Cask_GenerateKey` with empty provider data | `DecodeFromChars("", d)` | empty input decodes to zero bytes | high, not executed | Decoder.EmptySource | Decoder.DecodeBase64 |
| src/libcask/base64url.h:36-38 | `out_len` subtracts one per trailing `=`, but a 4k+1-character source gets three `=` and its true length is 3k | "QUJDR" into a 3-byte destination throws "too small" although 3 bytes are written | the size check against the bytes actually written | high, not executed | Decoder.FiveCharacters | Decoder.DecodeBase64 |
