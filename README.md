# BaseUwU in Dafny

BaseUwU is a binary-to-text encoding. Each bit of each input byte becomes a
three-character token: `OwO` for a 0 bit and `UwU` for a 1 bit. Bits go most
significant first, bytes go in input order, and there are no separators, so
`n` bytes become `24 * n` characters. The C header `baseuwu.h` provides three
operations:

- `UwU_Encode` fills a fresh buffer at computed indices.
- `UwU_Validate` checks the length, each token's middle `w` and each token's
  matching `O…O` or `U…U` outer pair.
- `UwU_Decode` refuses invalid text with status 2. Otherwise it rebuilds each
  byte by shifting the first character of 8 consecutive tokens into an
  accumulator.

`baseuwu.dfy` holds one module, `BaseUwU`:

- **Format, as pure functions.**
  - `Encoding(x)` is `Tokens(Bits(x))`. Bytes become their bits in
    transmission order, and each bit becomes its token.
  - `Valid(s)` is the validator's three conditions.
  - `Decoding(s)` is `InvalidFormat` for invalid text. Otherwise it is
    `Success` of the bytes the decoder's accumulator (`Accumulate`) rebuilds,
    one per block of 24 characters.
- **Operations, as methods.** `Encode`, `Validate` and `Decode` have the C
  code's loops and index arithmetic. Each is proved equal to its function.
  - `Encode` fills a local `array<char>` of `24 * n` characters in the nested
    `i`/`j` loops, then returns its contents.
  - `Validate` makes the same two passes, with early exits.
  - `Decode` calls `Validate`, then fills an `array<bv8>` byte by byte with
    `byte := (byte << 1) | bit`.
- **Lemmas relating the functions.** The length law and per-index contents of
  the encoding; that every encoding is valid; the round trip
  `Decoding(Encoding(x)) == Success(x)`; and its converse, that valid text is
  the encoding of what it decodes to. Together these make the valid texts
  exactly the image of `Encoding`, and make `Encoding` injective.

Bytes are `bv8`. Text is `seq<char>`, and its length is the C string's
`strlen`. Status code 2 is the `InvalidFormat` case of `DecodeResult`, which
carries no data. This matches the C function, which writes neither output on
that path.

## Model

| member | source | states |
|---|---|---|
| `BaseUwU.Encode` | baseuwu.h:18-67 | The buffer filled by the nested loops holds 24 characters per input byte and equals `Encoding(input)` |
| `BaseUwU.EncodingLength` | baseuwu.h:32-35 | The encoding of `n` bytes has exactly `24 * n` characters |
| `BaseUwU.EncodedToken` | baseuwu.h:42-57 | For byte `i` and bit `j`, positions `24i+3j` and `24i+3j+2` are `'U'` if bit `7-j` of `x[i]` is set and `'O'` otherwise; position `24i+3j+1` is `'w'` |
| `BaseUwU.BitsAt` | baseuwu.h:42-45 | Bit `8i+j` of the transmitted bit stream is bit `7-j` of byte `i`: most significant bit first, bytes in input order |
| `BaseUwU.TokensAt` | baseuwu.h:48-56 | Token `k` of the text occupies positions `3k..3k+2` as eye, `'w'`, eye, and the text has 3 characters per bit |
| `BaseUwU.ShiftedBit` | baseuwu.h:45 | `(b >> m) & 1` is 1 exactly when bit `m` of `b` is set |
| `BaseUwU.EncodingAlphabet` | baseuwu.h:48-56 | Every character of an encoding is `'O'`, `'U'` or `'w'` |
| `BaseUwU.EncodingValid` | baseuwu.h:81-105 | The validator accepts every encoding |
| `BaseUwU.Validate` | baseuwu.h:69-106 | Returns true iff the length is a multiple of 24, every token's middle character is `'w'`, and every token's outer pair is `O…O` or `U…U` |
| `BaseUwU.ValidAlphabet` | baseuwu.h:88-102 | Valid text contains only `'O'`, `'U'` and `'w'` |
| `BaseUwU.ValidationExamples` | test.c:36-41 | `"UwUUwUOwO"` (length 9), `"ASOKRAOKERKOERKOEOEOOEOO"` and `"UwUOwOUwUOwOUwUOwOAwAOwO"` (an `AwA` token) are rejected; `"UwUUwUOwOUwUUwUOwOOwOUwU"` is accepted |
| `BaseUwU.Decode` | baseuwu.h:108-157 | Returns `InvalidFormat` (status 2) exactly when the text is not valid; otherwise returns one byte per 24 characters, equal to `Decoding(s)` |
| `BaseUwU.AccumulateBit` | baseuwu.h:139-147 | After `k` tokens of a block, bit `k-1-j` of the accumulator is set exactly when token `j` starts with `'U'` |
| `BaseUwU.AccumulateHigh` | baseuwu.h:137-147 | After `k` tokens the accumulator has no bit at or above position `k`, so no bit is shifted out of the byte |
| `BaseUwU.DecodedBit` | baseuwu.h:136-150 | Bit `7-j` of decoded byte `i` is set exactly when character `24i+3j` is `'U'` |
| `BaseUwU.AccumulateEncoding` | baseuwu.h:136-150 | On the encoding of `x`, the accumulator of block `i` rebuilds `x[i]` exactly |
| `BaseUwU.RoundTrip` | baseuwu.h:119-154 | `Decoding(Encoding(x)) == Success(x)` for every byte sequence `x` |
| `BaseUwU.ValidReencodes` | baseuwu.h:119-150 | Valid text decodes successfully, and encoding the result gives back the text |
| `BaseUwU.ValidIffEncoding` | baseuwu.h:69-106 | Text is valid iff it is the encoding of some byte sequence |
| `BaseUwU.EncodingInjective` | baseuwu.h:18-67 | Two byte sequences with the same encoding are equal |
| `BaseUwU.EmptyExample` | baseuwu.h:32-61 | Empty input encodes to the empty text, which is valid and decodes to no bytes |
| `BaseUwU.ZeroByteExample` | baseuwu.h:42-57 | `[0x00]` encodes to eight `OwO` tokens, which decode back to `[0x00]` |
| `BaseUwU.FullByteExample` | baseuwu.h:42-57 | `[0xFF]` encodes to eight `UwU` tokens, which decode back to `[0xFF]` |
| `BaseUwU.ValidLength` | baseuwu.h:81-83 | Text whose length is not a multiple of 24 is never valid |

## Left out

- Allocation failure (status 1 of both `UwU_Encode` and `UwU_Decode`): memory allocation cannot fail in the model, so neither operation has that outcome.
- Encode: returns the contents of the filled buffer as a value, not a pointer written through `output_data_pointer`. Only the caller's view of the buffer is modelled; aliasing and ownership are not.
- Encode: `input_size * 24` and `output_size + 1` are `size_t` arithmetic in C. Sizes are unbounded here, so a wrap-around for inputs near the `size_t` limit is not modelled.
- C string mechanics: the NUL terminator, and `strlen` on the input of `UwU_Validate` and `UwU_Decode`. Text is a `seq<char>` whose length is `strlen`'s result, so text with an embedded NUL is not covered.
- Decode: the accumulator is a signed `char` in C. It is modelled as an unsigned 8-bit value (`bv8`) shifted left and OR-ed with the bit. The implementation-defined conversion of values above 127 is not modelled. `AccumulateHigh` shows that no bit is lost to the shift.
- Out-parameters: the `output_size_ptr` and `output_data_ptr` outputs of `UwU_Decode` become the `Success(data)` case of `DecodeResult`. The status codes 0 and 2 become `Success` and `InvalidFormat`.
- test.c: its `main` prints to the console and is not modelled. Its four validation strings are the cases in `ValidationExamples`.
