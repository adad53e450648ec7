# Base64 and Base64url codecs of `framework::encoding`, in Dafny

This project models the two header-only codecs of the framework's
`framework::encoding` namespace:

- `base64.hpp` implements the standard alphabet of section 4 of RFC 4648.
- `base64url.hpp` implements the URL- and filename-safe alphabet of section 5 of RFC 4648.

Each header has three parts:

- **Alphabet.** A 64-character alphabet and a 256-entry inverse table. A loop builds the table: it fills every slot with -1, then writes each character's index.
- **Encoder.** An `int` accumulator `_value` and a bit counter `_value_b`.
  - Each input byte is shifted in.
  - While at least six bits are buffered, the top six are emitted as one character.
  - At the end, 2 or 4 leftover bits are left-aligned into one final character.
  - With padding on, `=` is appended until the length is a multiple of 4.
- **Decoder.** The reverse accumulator. It is deliberately lenient:
  - it stops at the first `=`;
  - it skips every character whose table entry is -1;
  - it emits a byte whenever eight bits are buffered;
  - it drops leftover bits without checking them.

The model has five modules.

- `Blocks` (`blocks.dfy`) is the reference specification, written without any accumulator.
  - `EncodeSymbols` turns three bytes into four 6-bit symbols.
  - `DecodeSymbols` turns four symbols back into three bytes.
  - It also has the partial trailing groups and the properties of these functions.
- `Codec` (`codec.dfy`) holds what the two headers share, parameterised by the alphabet.
  - **Specification functions.** `Encode` and `Decode`:
    - `Encode(a, s, padding)` spells `EncodeSymbols(s)` in the alphabet `a`, then appends the padding.
    - `Decode(a, t)` decodes `Accepted(a, t)`: the symbols of the in-alphabet characters before the first `=`.
  - **Imperative code**, in the form of the source:
    - the table-building loop over an `array<int>`, `BuildCharsetMap`;
    - the encoder loop `EncodeWith`, with its inner emit loop `Drain` and its padding loop `AppendPadding`;
    - the decoder loop `DecodeWith`, with `break` and `continue`.
  - **Proofs.** Each loop is proved equal to its specification function. The loop invariants relate the accumulator's live low bits to the symbols and bytes still pending.
- `CodecLaws` (`laws.dfy`) states the properties of the specification that hold for any alphabet: lengths, the output alphabet, the round trip, and how decoding treats `=` and foreign characters.
- `Base64` (`base64.dfy`) instantiates the shared code with the standard alphabet. It also holds:
  - the capacity computations of both functions;
  - the test vectors of `tests/encoding_base64.cc`.
- `Base64Url` (`base64url.dfy`) instantiates the shared code with the URL-safe alphabet. It also proves:
  - a URL-safe encoding is the standard one with `+`/`/` replaced by `-`/`_`;
  - the test vectors of `tests/encoding_base64url.cc`.

Bytes are the subset type `byte` (0..255). The source reads input through `unsigned char`. Text is `seq<char8>`: characters with codes below 256, one per `std::string` element.

The accumulator is an unbounded `nat`, read the way the source reads it, through `value / 2^valueBits % 64` (or `% 256`). A C++ `int` would eventually overflow (see "Left out").

## Model

| member | source | states |
|---|---|---|
| Blocks.EncodeSymbolsLength | include/framework/encoding/base64.hpp:63-73 | Encoding n bytes yields 4*(n/3) symbols, plus 0, 2 or 3 when n mod 3 is 0, 1 or 2 |
| Blocks.DecodeSymbolsLength | include/framework/encoding/base64.hpp:103-108 | k symbols decode to exactly floor(6k/8) bytes; leftover bits never form a partial byte |
| Blocks.EncodeSymbolsAppend | include/framework/encoding/base64.hpp:63-70 | Encoding is compositional at group boundaries: encode(p + r) = encode(p) + encode(r) when the length of p is a multiple of 3 |
| Blocks.DecodeSymbolsSnoc | include/framework/encoding/base64.hpp:103-108 | One more symbol appends exactly the byte it completes (none at the start of a group) |
| Blocks.EncodedPrefixSnoc | include/framework/encoding/base64.hpp:64-69 | One more byte appends exactly the one or two symbols it completes |
| Blocks.EncodedPrefixComplete | include/framework/encoding/base64.hpp:71-73 | The completed symbols followed by the left-aligned final symbol are the whole encoding |
| Blocks.GroupRoundTrip | include/framework/encoding/base64.hpp:103-108 | Decoding the four symbols of a full group gives back its three bytes |
| Blocks.LeftoverBitsIgnored | include/framework/encoding/base64.hpp:103-108 | The bits of a trailing group's last symbol that complete no byte are dropped unchecked: a lone trailing symbol is ignored whole, and symbols that differ only in those bits decode to the same bytes |
| Blocks.SymbolsRoundTrip | include/framework/encoding/base64.hpp:51-111 | The block-wise decoder inverts the block-wise encoder for every byte string |
| Codec.SymbolOf | include/framework/encoding/base64.hpp:36-42 | The table entry of byte b: -1 exactly when b is not in the alphabet, otherwise the last index holding b (later writes win) |
| Codec.BuildCharsetMap | include/framework/encoding/base64.hpp:36-42 | The fill-then-write loop over a 256-entry array yields SymbolOf for every byte |
| Codec.InverseTableUndoesCharset | include/framework/encoding/base64.hpp:36-42 | Over a valid alphabet, MAP[CHARSET[i]] == i for every i < 64; an entry is -1 iff its byte is not in the alphabet; `=` maps to -1 |
| Codec.FirstPad | include/framework/encoding/base64.hpp:99-100 | The position where the decoder breaks: no `=` before it, and `=` at it unless it is the end |
| Codec.FirstPadAt | include/framework/encoding/base64.hpp:99-100 | That position is unique: any position with no `=` before it and `=` (or the end) at it is FirstPad |
| Codec.EncodeStep | include/framework/encoding/base64.hpp:64-69 | After shifting in byte i, the characters `_value >> _value_b & 0x3F` emitted while `_value_b >= 0` are exactly the symbols the block-wise encoder adds, and the live bits are kept |
| Codec.EncodeFinish | include/framework/encoding/base64.hpp:71-73 | `((_value << 8) >> (_value_b + 8)) & 0x3F` is the block-wise encoder's final, zero-filled symbol |
| Codec.Drain | include/framework/encoding/base64.hpp:66-69 | The inner while loop appends the pending symbols' characters and lowers `_value_b` by 6 per character |
| Codec.AppendPadding | include/framework/encoding/base64.hpp:75-76 | The padding loop appends exactly the `=` characters that bring the text to a multiple of 4 |
| Codec.ShiftByte | include/framework/encoding/base64.hpp:63-70 | One iteration of the byte loop keeps the loop invariant: the output spells the completed symbols of the bytes read so far |
| Codec.EncodeWith | include/framework/encoding/base64.hpp:51-79 | The encoder returns Encode(charset, input, padding) |
| Codec.LiveBitsStep | include/framework/encoding/base64.hpp:103-107 | `_value_b` (live bits minus 8) cycles through -8, -2, -4, -6 as symbols are accepted |
| Codec.DecodeLiveStep | include/framework/encoding/base64.hpp:103-104 | After `(_value << 6) + symbol`, the low bits hold the not-yet-emitted bits of the symbols accepted so far |
| Codec.NextByteShift | include/framework/encoding/base64.hpp:105-106 | The byte `_value >> _value_b & 0xFF` emitted when `_value_b >= 0` is the byte the block-wise decoder appends |
| Codec.DecodeStep | include/framework/encoding/base64.hpp:103-108 | Shifting in one symbol extends the output by the block-wise decoder's next byte, if any, and keeps the live bits |
| Codec.SymbolsStep | include/framework/encoding/base64.hpp:101-102 | A character whose table entry is -1 adds no symbol; any other character adds its table entry |
| Codec.ShiftIn | include/framework/encoding/base64.hpp:103-108 | One accepted symbol keeps the decoder invariant: output == DecodeSymbols(accepted symbols) |
| Codec.DecodeWith | include/framework/encoding/base64.hpp:97-111 | The decoder returns Decode(charset, input): the block-wise decoding of the in-alphabet characters before the first `=` |
| CodecLaws.PaddingOfBody | include/framework/encoding/base64.hpp:75-76 | The padding adds 0, 2 or 1 `=` for n mod 3 = 0, 1, 2, reaching 4*ceil(n/3) characters |
| CodecLaws.EncodeLength | include/framework/encoding/base64.hpp:53-76 | Padded length is 4*ceil(n/3); unpadded length is UnpaddedLength(n); they differ by at most 2 |
| CodecLaws.EncodeAlphabet | include/framework/encoding/base64.hpp:67-76 | Unpadded output uses only alphabet characters; padded output is the unpadded output followed only by `=` |
| CodecLaws.FirstPadAppend | include/framework/encoding/base64.hpp:99-100 | The first `=` of p + r is p's first `=` if p has one, otherwise the length of p plus r's first `=` |
| CodecLaws.SymbolsAppend | include/framework/encoding/base64.hpp:99-102 | Skipping foreign characters is compositional over concatenation |
| CodecLaws.SymbolsOfSpell | include/framework/encoding/base64.hpp:36-42 | Over a valid alphabet, looking up the characters that spell q gives back q |
| CodecLaws.EncodeRoundTrip | include/framework/encoding/base64.hpp:51-111 | For any valid alphabet, every byte string and both padding settings, decode(encode(s)) == s |
| CodecLaws.DecodeLength | include/framework/encoding/base64.hpp:97-109 | The decoder yields floor(6k/8) bytes for k accepted symbols, hence at most 3/4 of the input length |
| CodecLaws.SymbolsBound | include/framework/encoding/base64.hpp:99-102 | Each character contributes at most one symbol |
| CodecLaws.DecodeStopsAtPad | include/framework/encoding/base64.hpp:100 | Everything from the first `=` on is ignored: decode(p + "=" + r) == decode(p) |
| CodecLaws.DecodeSkipsForeign | include/framework/encoding/base64.hpp:101-102 | A character that is neither `=` nor in the alphabet is skipped: decode(p + c + r) == decode(p + r) |
| CodecLaws.DecodeForeignOnly | include/framework/encoding/base64.hpp:101-102 | Input with no alphabet character decodes to the empty string |
| Base64.CharsetCodes | include/framework/encoding/base64.hpp:30-31 | The standard alphabet is A-Z, a-z, 0-9, `+`, `/` in that order (Table 1 of RFC 4648) |
| Base64.CharsetValid | include/framework/encoding/base64.hpp:30-31 | The standard alphabet has 64 distinct characters and no `=` |
| Base64.CharsetTable | include/framework/encoding/base64.hpp:36-42 | Every byte's table entry is its Table 1 value: `+` is 62, `/` is 63, and `=` and every other non-alphabet byte is -1 |
| Base64.OutputSize | include/framework/encoding/base64.hpp:53-55 | `_output_size`, four characters per started group of three bytes: the smallest multiple of 4 that is at least 4n/3 |
| Base64.Base64Encode | include/framework/encoding/base64.hpp:51-79 | `base64_encode` returns the specified encoding; its length is the reserved `_output_size` with padding, UnpaddedLength(n) without |
| Base64.EncodeSizes | include/framework/encoding/base64.hpp:53-55 | `_full_blocks * 4 + (_remainder ? 4 : 0)` is exactly the padded output length, a multiple of 4 |
| Base64.EncodeCharacters | include/framework/encoding/base64.hpp:63-76 | Every output character is in the alphabet except at most two trailing `=`; with padding off there is no `=` |
| Base64.Base64Decode | include/framework/encoding/base64.hpp:87-111 | `base64_decode` returns Decode(BASE64_CHARSET, input) |
| Base64.RoundTrip | tests/encoding_base64.cc:53-91 | base64_decode(base64_encode(s, p)) == s for every byte string s (binary bytes and every single ASCII byte included) and both p |
| Base64.DecodeReserveAsWritten | include/framework/encoding/base64.hpp:88-92 | The capacity computation as written, in `std::size_t`: it reads out of bounds exactly on "=", and exceeds 3/4 of the input length exactly on inputs of two or three characters ending in `=`, where the subtraction wraps |
| Base64.ReserveAsWrittenFails | include/framework/encoding/base64.hpp:88-92 | As written, the capacity computation reads out of bounds on "=" and wraps to 2^64 - 1 on "a=" and to 2^64 - 2 on "==" |
| Base64.DecodeReserve | include/framework/encoding/base64.hpp:88-92 | The corrected capacity never exceeds 3/4 of the input length; it equals the as-written value if and only if the input is not one to three characters ending in `=`, so on exactly the inputs where that one neither reads out of bounds nor wraps |
| Base64.DecodeReserveExact | include/framework/encoding/base64.hpp:88-92 | On every padded encoding of s, both the corrected and the as-written capacity are exactly the length of s |
| Base64.PaddedTail | include/framework/encoding/base64.hpp:71-76 | A padded encoding has 4*ceil(n/3) characters and ends in no `=`, two `=`, or one `=` for n mod 3 = 0, 1, 2 |
| Base64.EncodeMan | tests/encoding_base64.cc:27-34 | "Man" encodes to "TWFu" |
| Base64.EncodeMa | tests/encoding_base64.cc:36-41 | "Ma" encodes to "TWE=" |
| Base64.EncodeM | tests/encoding_base64.cc:43-44 | "M" encodes to "TQ==" |
| Base64.EncodeAAA | tests/encoding_base64.cc:48 | "AAA" encodes to "QUFB" |
| Base64.EncodeAA | tests/encoding_base64.cc:49 | "AA" encodes to "QUE=" |
| Base64.EncodeA | tests/encoding_base64.cc:50 | "A" encodes to "QQ==" |
| Base64.EncodeEmpty | tests/encoding_base64.cc:21-23 | The empty string encodes to the empty string |
| Base64.DecodeVectors | tests/encoding_base64.cc:27-45 | "TWFu", "TWE=" and "TQ==" decode to "Man", "Ma" and "M" |
| Base64.DecodeEmpty | tests/encoding_base64.cc:24 | The empty string decodes to the empty string |
| Base64.DecodeInvalid | tests/encoding_base64.cc:93-97 | "!!!!" decodes to the empty string |
| Base64.DecodeExtraPadding | tests/encoding_base64.cc:99-103 | "TWE===" decodes to "Ma" |
| Base64Url.CharsetCodes | include/framework/encoding/base64url.hpp:29-30 | The URL-safe alphabet is A-Z, a-z, 0-9, `-`, `_` in that order (Table 2 of RFC 4648) |
| Base64Url.CharsetValid | include/framework/encoding/base64url.hpp:29-30 | The URL-safe alphabet has 64 distinct characters and no `=` |
| Base64Url.CharsetTable | include/framework/encoding/base64url.hpp:35-42 | `-` maps to 62 and `_` to 63; `+`, `/`, `=` and every other non-alphabet byte map to -1 |
| Base64Url.CharsetTranslate | include/framework/encoding/base64url.hpp:29-30 | The URL-safe alphabet is the standard one with `+` and `/` replaced by `-` and `_` |
| Base64Url.Translate | include/framework/encoding/base64url.hpp:51-73 | base64url_encode(s, p) is base64_encode(s, p) with every `+` replaced by `-` and every `/` by `_` |
| Base64Url.Base64UrlEncode | include/framework/encoding/base64url.hpp:51-73 | `base64url_encode` returns the specified encoding, of length 4*ceil(n/3) with padding and UnpaddedLength(n) without |
| Base64Url.EncodeCharacters | include/framework/encoding/base64url.hpp:57-70 | The output contains no `+` and no `/`: only alphabet characters and at most two trailing `=`, and no `=` with padding off |
| Base64Url.Base64UrlDecode | include/framework/encoding/base64url.hpp:81-97 | `base64url_decode` returns Decode(BASE64URL_CHARSET, input) |
| Base64Url.RoundTrip | tests/encoding_base64url.cc:53-91 | base64url_decode(base64url_encode(s, p)) == s for every byte string s and both p |
| Base64Url.SkipsStandardSymbols | include/framework/encoding/base64url.hpp:87-88 | The standard alphabet's `+` and `/` are skipped wherever they occur |
| Base64Url.DecodeTranslated | include/framework/encoding/base64url.hpp:81-97 | Text free of `-` and `_`, with `+`/`/` replaced, decodes under the URL-safe alphabet to what the original decodes to under the standard one |
| Base64Url.EncodeMan | tests/encoding_base64url.cc:27-34 | "Man" encodes to "TWFu" |
| Base64Url.EncodeMa | tests/encoding_base64url.cc:36-41 | "Ma" encodes to "TWE=" |
| Base64Url.EncodeM | tests/encoding_base64url.cc:43-44 | "M" encodes to "TQ==" |
| Base64Url.EncodeAAA | tests/encoding_base64url.cc:48 | "AAA" encodes to "QUFB" |
| Base64Url.EncodeAA | tests/encoding_base64url.cc:49 | "AA" encodes to "QUE=" |
| Base64Url.EncodeA | tests/encoding_base64url.cc:50 | "A" encodes to "QQ==" |
| Base64Url.EncodeEmpty | tests/encoding_base64url.cc:21-23 | The empty string encodes to the empty string |
| Base64Url.DecodeVectors | tests/encoding_base64url.cc:27-45 | "TWFu", "TWE=" and "TQ==" decode to "Man", "Ma" and "M" |
| Base64Url.DecodeEmpty | tests/encoding_base64url.cc:24 | The empty string decodes to the empty string |
| Base64Url.DecodeInvalid | tests/encoding_base64url.cc:93-97 | "!@#$%^&*()" decodes to the empty string |
| Base64Url.DecodeExtraPadding | tests/encoding_base64url.cc:99-103 | "TWE===" decodes to "Ma" |

## Left out

- Capacity hints. `reserve` only pre-allocates, so it has no effect on the result, except in `base64_decode` on inputs of one to three characters ending in `=` (see Findings), where the source reads out of bounds or terminates. `Base64.Base64Decode` uses the corrected capacity, so on those inputs it returns the lenient decoding instead.
  - `Base64.Base64Encode` computes `OutputSize` and discards it.
  - `Base64.Base64Decode` computes the corrected `DecodeReserve` and discards it.
  - `base64url.hpp` reserves nothing.
- Machine integers. The accumulator is an unbounded `nat`; in the source it is a C++ `int`.
  - `_value` is never masked, so `_value << 8` overflows a 32-bit `int` from the fourth or fifth input byte (as soon as the bytes read so far are worth 2^23 or more), and `_value << 6` from about the sixth accepted symbol. Every sample of the unit tests longer than four bytes, such as "Hello" and "1234567890", reaches it.
  - Before C++20 such a shift is undefined behaviour; from C++20 on it wraps modulo 2^32.
  - Only the low bits of `_value` are ever read, through `& 0x3F` and `& 0xFF` with `_value_b` at most 6. So the unbounded value gives the same characters and bytes as a wrapping one.
- Codec.EncodeWith and Codec.DecodeWith do not model that overflow. The reason is the one above: it is undefined behaviour, and no character or byte that is read depends on it.
- Compile-time table. The source builds each inverse table once, as a `constexpr` array. The model builds it with `BuildCharsetMap` on each call and hands it to the decoder as a sequence.
- Helper methods. `Drain`, `AppendPadding`, `ShiftByte` and `ShiftIn` are parts of the source's loops written as separate methods:
  - `Drain` is the inner emit `while`;
  - `AppendPadding` is the padding `while`;
  - `ShiftByte` is one iteration of the encoder's byte loop;
  - `ShiftIn` is one accepted symbol of the decoder.
  Only the structure differs; the statements are the same.
- Default arguments. `padding = true` is an explicit parameter.
- Exceptions. `noexcept`, `std::length_error` and allocation failure are not modelled, and neither is the resulting `std::terminate`. The one place the source can reach them is recorded under "Findings".
- `char` signedness. The decoder compares a plain `char` with `'='` and indexes the table through `unsigned char`. Text is modelled as characters with codes 0..255, which has the same effect.
- The gtest harness and the 1 MiB test (`tests/encoding_base64.cc:105-110`, `tests/encoding_base64url.cc:105-110`) are runtime checks. `Base64.RoundTrip` and `Base64Url.RoundTrip` cover every input length, so they cover these too.
- The samples of the reversibility, binary and full-ASCII tests are not restated one by one. They are instances of the round-trip lemmas.
  - The binary sample (`tests/encoding_base64.cc:71`, `tests/encoding_base64url.cc:71`) builds its `std::string` from a C string literal starting with `\x00`, so it is empty. The full-ASCII test covers bytes 0 to 127 only. Bytes such as 0x80 and 0xFF are therefore covered by `Base64.RoundTrip` and `Base64Url.RoundTrip` alone.

## Findings

| source | as written | input that shows it | evidently intended | confidence | as-written member | corrected member |
|---|---|---|---|---|---|---|
| include/framework/encoding/base64.hpp:89-92 | It reads `input[input.size() - 2]` whenever the input ends in `=`, even for one character. It then subtracts the padding count from `(size / 4) * 3` in `std::size_t` | "=" reads before the start of the input. "a=" gives 0 - 1, which wraps to 2^64 - 1; `reserve` then throws inside a `noexcept` function | Look for a second `=` only when there are two characters, and never let the capacity go below zero | not executed | Base64.ReserveAsWrittenFails (on Base64.DecodeReserveAsWritten) | Base64.DecodeReserve, with Base64.DecodeReserveExact |
