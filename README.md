# Base64 codec of `src/common/base64.c`, in Dafny

This project models the Base64 codec that PostgreSQL (and OpenTenBase) keep in
`src/common/base64.c`: the standard alphabet and padding of section 4 of
RFC 4648, in a strict variant that refuses whitespace. It proves properties of
the model.

- `tables.dfy` (`Base64Tables`) holds the two constant tables. `_base64` maps a
  6-bit value to a symbol. `b64lookup` maps a character code 0..127 to a 6-bit
  value, or to -1. The proofs state what each table holds and that they are
  inverse to each other. Characters are byte values 0..255.
- `lengths.dfy` (`Base64Lengths`) has `pg_b64_enc_len` and `pg_b64_dec_len`.
- `arith.dfy` (`Base64Arith`) holds the one fact about integer division that
  the encoder and the decoder both use to read fields out of their
  accumulators.
- `encoder.dfy` (`Base64Encoder`) has `pg_b64_encode` as an imperative method.
  It is the source loop over the caller's `dst` array, proved to write exactly
  `Encoded(src)` and to leave the rest of `dst` alone. `Encoded` describes the
  output group by group. Lemmas give its length, where `=` may appear, and how
  its length compares with `pg_b64_enc_len`.
- `decoder.dfy` (`Base64Decoder`) has `pg_b64_decode` as an imperative method.
  Its specification is a step machine:
  - `Step` is one loop iteration on the variables `pos` (as the pending 6-bit
    values), `end` and the bytes written so far;
  - `RunPrefix` runs `Step` over a prefix of the input;
  - `Decoded` is the result of the whole call, where `None` stands for -1.

  `Decode` is proved to return -1 exactly when `Decoded` is `None`, and
  otherwise to write `Decoded(src)`.
- `decode_shape.dfy` (`Base64DecodeShape`) describes, without the step machine,
  which inputs the decoder accepts and how many bytes it writes. An input is
  accepted when:
  - it contains no whitespace;
  - every character is `=` or a symbol;
  - the first `=` is at position 2 or 3 of its group of four;
  - its length is a multiple of four.
- `roundtrip.dfy` (`Base64RoundTrip`) proves that the decoder gives back what
  the encoder wrote. It also checks the test vectors of section 10 of
  RFC 4648, the usual "Man" example, and a few inputs the decoder must refuse
  or must accept leniently.

The decoder is deliberately lenient once the first `=` has set `end`:
- later `=` characters count as the value 0 wherever they are;
- alphabet symbols are still accepted after a `=` (for example, "QQ=A" decodes
  to "A");
- `end` is never reset, so every later group of four also yields `end` bytes.

The model keeps all of this. The test `end > 2`, which guards the third byte of
a group, is never true (`EndAtMostTwo`).

One point where a comment and the code differ: the comment on
`pg_b64_enc_len` (src/common/base64.c:177) says it returns the length of the
Base64-encoded string, and the next line calls it useful for sizing a
buffer. The code computes
`(srclen + 2) * 4 / 3`, which is exact only when `srclen % 3 == 1`. It is two
too large when `srclen % 3 == 0` and one too large when `srclen % 3 == 2`. The
model follows the code (`EncLenSlack`).

The loop bodies are split into small methods, each holding a run of stores or
checks from the source:
- `StoreGroup`/`WriteGroup` are the four stores of a full group, each reading
  the literal `_base64` table;
- `StoreTail`/`WriteTail` are the stores after the loop;
- `WriteUnit` is the one to three stores at the end of a group of four;
- `ClassifyChar` holds the checks on one character. It reports the three
  `return -1` exits of those checks as a negative value, and `Decode` then
  returns -1.

The order of stores and checks is the source's.

## Model

| member | source | states |
|---|---|---|
| Base64Tables.AlphabetTableMatches | src/common/base64.c:25-26 | entry `v` of `_base64` is 'A'..'Z' for 0..25, 'a'..'z' for 26..51, '0'..'9' for 52..61, '+' for 62, '/' for 63, and is the symbol the codec uses for `v` |
| Base64Tables.LookupTableMatches | src/common/base64.c:29-38 | every entry of `b64lookup` is the alphabet value of its code for 'A'..'Z', 'a'..'z', '0'..'9', '+', '/' and -1 for every other code 0..127 |
| Base64Tables.Symbol | src/common/base64.c:25-26 | no entry of `_base64` is '=' or a whitespace character |
| Base64Tables.SymbolInverse | src/common/base64.c:25-38 | `b64lookup` maps the symbol `_base64` gives every 6-bit value back to that value |
| Base64Tables.LookupInverse | src/common/base64.c:25-38 | every character the lookup accepts has a value below 64 and is the `_base64` symbol of that value, so the accepted characters are exactly the alphabet |
| Base64Lengths.EncLen | src/common/base64.c:181-186 | `(srclen + 2) * 4 / 3` leaves room for four characters per started group of three bytes, with at most two to spare |
| Base64Lengths.DecLen | src/common/base64.c:194-198 | `(srclen * 3) >> 2` leaves room for three bytes per complete group of four characters, with at most two to spare |
| Base64Lengths.DecLenCoversUnits | src/common/base64.c:194-198 | `(srclen * 3) >> 2` leaves room for three bytes per complete group of four characters |
| Base64Encoder.GroupFields | src/common/base64.c:68-71 | `(buf >> 18) & 0x3f`, `(buf >> 12) & 0x3f`, `(buf >> 6) & 0x3f` and `buf & 0x3f` of the 24-bit group of `b0`, `b1`, `b2` are the four 6-bit fields of the three bytes, most significant first |
| Base64Encoder.EncodeGroup | src/common/base64.c:68-71 | a full group becomes four characters, none of them '=' |
| Base64Encoder.EncodeGroupFields | src/common/base64.c:59-76 | the four symbols of a group are alphabet symbols whose values, put back together, are the 24-bit group of `b0`, `b1`, `b2` |
| Base64Encoder.EncodeTail | src/common/base64.c:77-83 | a trailing group becomes four characters: two symbols, then '=' in the last place, and '=' in the third place exactly when one byte is left over |
| Base64Encoder.EncodeTailFields | src/common/base64.c:77-83 | the symbols of a trailing group are alphabet symbols that carry every bit of the leftover bytes |
| Base64Encoder.EncodeGroups | src/common/base64.c:59-76 | `k` full groups become `4 * k` characters |
| Base64Encoder.GroupsAreSymbols | src/common/base64.c:59-76 | every character written by the loop is an alphabet symbol |
| Base64Encoder.Encoded | src/common/base64.c:47-86 | the encoding is a whole number of groups of four, and about four characters for every three bytes: `4 * len <= 3 * out <= 4 * len + 8` |
| Base64Encoder.EncodedLength | src/common/base64.c:59-85 | the encoder writes `4 * ceil(len / 3)` characters |
| Base64Encoder.EncodedLayout | src/common/base64.c:77-83 | every output character is a symbol or '='; '=' is in the last place exactly when `len % 3 != 0`, in the second to last too exactly when `len % 3 == 1`, and nowhere else |
| Base64Encoder.RoomForGroup | src/common/base64.c:181-186 | every group the encoder writes ends within `(srclen + 2) * 4 / 3` characters |
| Base64Encoder.EncLenSlack | src/common/base64.c:181-186 | `pg_b64_enc_len` is the encoded length when `len % 3 == 1`, and two more or one more when `len % 3` is 0 or 2 |
| Base64Encoder.StoreGroup | src/common/base64.c:68-71 | the four stores of a full group, reading `_base64`, write its encoding after what is already in `dst` and change nothing else |
| Base64Encoder.WriteGroup | src/common/base64.c:66-75 | after the groups before it, the write-out of group `k` leaves the first `k + 1` groups' encoding in `dst` |
| Base64Encoder.StoreTail | src/common/base64.c:77-83 | the stores after the loop, reading `_base64`, write the trailing group's encoding and change nothing else |
| Base64Encoder.WriteTail | src/common/base64.c:77-85 | after the loop, `dst` holds the whole encoding and the returned length is its length |
| Base64Encoder.Encode | src/common/base64.c:47-86 | `pg_b64_encode` writes exactly `Encoded(src)` at the start of `dst`, returns its length and leaves the rest of `dst` unchanged |
| Base64Decoder.Classify | src/common/base64.c:113-147 | a character is refused exactly when it is whitespace, a '=' at position 0 or 1 before `end` is set, or neither '=' nor a symbol; an accepted symbol yields the 6-bit value whose `_base64` symbol it is, and a '=' the value 0; `end` once set never changes, and a first '=' sets it to 1 or 2 |
| Base64Decoder.UnitBytes | src/common/base64.c:148-160 | a completed group of four 6-bit values yields its first one, two or three bytes: three while `end` is 0, otherwise `end` of them |
| Base64Decoder.Step | src/common/base64.c:148-160 | one iteration fails exactly when the character is refused, never takes back a byte already written, and advances `pos` by one, wrapping from 3 to 0 |
| Base64Decoder.PendCount | src/common/base64.c:109-161 | while no character has been refused, `pos` after `n` characters is `n % 4` |
| Base64Decoder.Decoded | src/common/base64.c:97-173 | the call never succeeds on a length that is not a multiple of four (the `pos != 0` exit), and on the empty input it succeeds with no bytes |
| Base64Decoder.FailureSticks | src/common/base64.c:109-146 | once the loop has returned -1 on a prefix, the call returns -1 whatever follows |
| Base64Decoder.UnitFields | src/common/base64.c:153-157 | `(buf >> 16) & 255`, `(buf >> 8) & 255` and `buf & 255` of four 6-bit values are the three bytes they hold |
| Base64Decoder.WriteUnit | src/common/base64.c:151-160 | the stores at the end of a group of four write one byte, a second one when `end` is 0 or above 1, a third one when `end` is 0 or above 2, and change nothing else |
| Base64Decoder.ClassifyChar | src/common/base64.c:113-147 | the checks on one character refuse it exactly when `Classify` does; otherwise they yield its 6-bit value and the new `end` |
| Base64Decoder.Decode | src/common/base64.c:97-173 | `pg_b64_decode` returns -1 exactly when `Decoded(src)` is `None`; otherwise it writes `Decoded(src)` at the start of `dst`, returns its length and leaves the rest of `dst` unchanged |
| Base64DecodeShape.RunShape | src/common/base64.c:109-161 | after `n` characters the loop has not returned -1 exactly when each of them passed its check, and then `pos` is `n % 4`, `end` is set by the first '=' read so far, and the number of bytes written is `OutLen` |
| Base64DecodeShape.EndAtMostTwo | src/common/base64.c:154-156 | `end` is never above 2, so `end > 2` is never true; it is set once the first '=' has been read |
| Base64DecodeShape.DecodeAccepts | src/common/base64.c:109-170 | the decoder succeeds exactly on inputs with no whitespace, only '=' and symbols, the first '=' at position 2 or 3 of its group, and a length that is a multiple of four |
| Base64DecodeShape.DecodedLength | src/common/base64.c:151-160 | on success it writes three bytes per group before the group holding the first '=', and one (first '=' at position 2) or two (position 3) bytes for that group and every later one |
| Base64DecodeShape.OutLenFits | src/common/base64.c:194-198 | the number of bytes written never exceeds `(len * 3) >> 2` |
| Base64DecodeShape.DecodedFitsDecLen | src/common/base64.c:194-198 | the decoded bytes fit in the buffer sized with `pg_b64_dec_len` |
| Base64DecodeShape.DecodeRejects | src/common/base64.c:113-170 | any whitespace, any character that is neither '=' nor a symbol, a first '=' at position 0 or 1 of its group, or a length that is not a multiple of four makes the decoder return -1 |
| Base64RoundTrip.FieldsBytes | src/common/base64.c:153-157 | the decoder's byte extraction applied to the encoder's four fields gives back the three bytes of the group |
| Base64RoundTrip.GroupDecodes | src/common/base64.c:148-160 | the decoder turns the four symbols of a full group back into its three bytes, without setting `end` |
| Base64RoundTrip.TailOneDecodes | src/common/base64.c:117-160 | the decoder turns "xx==" back into its one byte and sets `end` to 1 |
| Base64RoundTrip.TailTwoDecodes | src/common/base64.c:117-160 | the decoder turns "xxx=" back into its two bytes and sets `end` to 2 |
| Base64RoundTrip.GroupsRoundTrip | src/common/base64.c:109-161 | after the encoding of the first `k` groups, the decoder has written the first `3 * k` bytes |
| Base64RoundTrip.RoundTrip | src/common/base64.c:47-173 | decoding the output of `pg_b64_encode` succeeds and gives back exactly the bytes it encoded |
| Base64RoundTrip.EncodedIsWellFormed | src/common/base64.c:47-173 | the decoder accepts everything the encoder writes |
| Base64RoundTrip.EncodeExamples | src/common/base64.c:47-86 | "Man" encodes to "TWFu", "Ma" to "TWE=" and "M" to "TQ==" |
| Base64RoundTrip.Rfc4648Encodings | src/common/base64.c:47-86 | the encoder turns the test vectors of section 10 of RFC 4648 ("", "f", "fo", "foo", "foob", "fooba", "foobar") into "", "Zg==", "Zm8=", "Zm9v", "Zm9vYg==", "Zm9vYmE=" and "Zm9vYmFy" |
| Base64RoundTrip.Rfc4648Decodings | src/common/base64.c:97-173 | the decoder turns each of those encodings back into its test vector |
| Base64RoundTrip.DecodeVectors | src/common/base64.c:97-173 | "TWFu" decodes to "Man" and "TQ==" to "M" |
| Base64RoundTrip.DecodeExamples | src/common/base64.c:97-173 | "QQ==" and the lenient "QQ=A" decode to "A"; "QQ ==", "=AAA" and "QQ" are refused |

## Left out

- The `FRONTEND` choice between `postgres.h` and `postgres_fe.h` (lines 13-20) is build configuration with no behaviour.
- C `char` signedness is not modelled. Characters are byte values 0..255, and the decoder keeps the rule that holds either way: a character other than '=' is accepted only if its code is in 1..126 and `b64lookup` gives it a value.
- `int` overflow is not modelled. Lengths are unbounded naturals, so `pg_b64_enc_len`, `pg_b64_dec_len` and the returned counts never wrap, even for inputs near `INT_MAX`. The 32-bit accumulators never exceed 24 bits, so they are modelled exactly.
- Writing past the end of `dst` is the caller's problem in the source. In the model it is a precondition of `Encode` (`dst.Length >= EncLen(|src|)`) and of `Decode` (`dst.Length >= DecLen(|src|)`).
- Base64Decoder.Decode: when it returns -1, nothing is stated about what was written to `dst`, because the source makes no promise about partial output.
- The source buffer is a `seq`, read-only and separate from `dst`. Overlapping source and destination buffers are not modelled.
