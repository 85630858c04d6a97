# transaction-decoder, modelled in Dafny

A model of the legacy (pre-segwit) Bitcoin transaction deserializer of
`mvuk/transaction-decoder`. `decode` takes a hex string, turns it into raw
bytes with `hex::decode`, and reads these fields in order through a
forward-only cursor over the bytes: the version (`read_u32`), the input
count (`read_compact_size`), that many inputs (`read_txid`, `read_u32`,
`read_script`, `read_u32`), the output count, that many outputs
(`read_amount`, `read_script`), and the lock time. The transaction id is
SHA-256 applied twice to the whole raw buffer. `src/main.rs` and its
library copy `src/lib.rs` hold the same code, so one model covers both.

The model keeps the source's imperative shape. `ByteCursor.Cursor` is the
`&mut &[u8]` slice: an immutable buffer plus a position, and its `Read`
method is `<&[u8] as Read>::read` copying into an `array`. The readers in
`Readers` fill zero-initialised arrays through the cursor. `read_txid`
reverses its array in place. `Decoder.Decode` runs the two counted `for`
loops and appends to sequences. Each method is proved against a function
of the buffer and the position (`Fields`, `Decoder`) that returns the
value read and where the cursor ends up. The properties are lemmas about
those functions.

Files:

- `bytes.dfy`: byte and integer types, `from_le_bytes` as `LE`, `Reversed`.
- `hex.dfy`: `hex::encode` and `hex::decode`, following the `hex` crate.
- `cursor.dfy`: the slice cursor, its `Read`, and `Take`, its functional view.
- `types.dfy`: `Input`, `Output`, `Transaction`.
- `fields.dfy`: what each reader yields, as functions, and lemmas about them.
- `readers.dfy`: the readers as methods over the cursor.
- `decoder.dfy`: `decode`, the counted loops and the whole-transaction parse.
- `serializer.dfy`: a reference serializer for the legacy layout. The source has no serializer; this one is the inverse partner that the round-trip lemmas use.
- `wrappers.dfy`: the `Result` type.

Short reads: the code never fails on a truncated buffer. `Read::read` on a
slice copies only the bytes that are left, and the rest of each reader's
buffer keeps its zero initialisation. So a truncated field decodes as if
the missing high-order bytes were zero, and the `?` after each read never
fires. Reading with `read_exact` instead would fail with `UnexpectedEof`
on a truncated field; the code does not do that, and the model follows the
code. Bytes after the lock time are likewise ignored by the parse; they
only enter the transaction id.

## Model

| member | source | states |
|---|---|---|
| Bytes.LE | src/main.rs:14 | the little-endian value of n bytes is below 256^n |
| Bytes.LEOfToLE | src/main.rs:59 | reading back the n-byte little-endian encoding of any v < 256^n gives v |
| Bytes.ToLEOfLE | src/main.rs:20 | re-encoding a little-endian value gives back the bytes it was read from, so `from_le_bytes` loses nothing |
| Bytes.LEZeroPadded | src/main.rs:12-14 | zero bytes appended at the high end do not change a little-endian value, so a zero-padded short read decodes as the bytes that were there |
| Bytes.LEZeros | src/main.rs:12-14 | any number of zero bytes reads as 0 |
| Bytes.LEHighByte | src/main.rs:150-160 | n - 1 zero bytes followed by a 1 read as 256^(n - 1) |
| Bytes.Zeros | src/main.rs:12 | a fresh buffer of n bytes holds n zeros |
| Bytes.Reversed | src/main.rs:26 | the reversal has the same length and byte i is byte len-1-i of the input |
| Bytes.ReversedInvolution | src/main.rs:26 | reversing twice gives the wire order back |
| Hex.HexDigit | src/main.rs:34 | every digit written is a lowercase hex digit |
| Hex.DigitValue | src/main.rs:75 | a digit of either case stands for a nibble below 16 |
| Hex.DigitRoundTrip | src/main.rs:34 | digit writing and reading are inverse on nibbles and on lowercase digits |
| Hex.Encode | src/main.rs:34 | `hex::encode` writes two characters per byte |
| Hex.EncodeDigits | src/main.rs:34 | byte i becomes characters 2i and 2i+1, high nibble first |
| Hex.EncodeIsLowerHex | src/main.rs:34 | the output is even-length lowercase hex |
| Hex.Decode | src/main.rs:75 | `hex::decode` fails with OddLength exactly on odd length; it succeeds exactly when the length is even and every character is a hex digit; on success there is one byte per pair; an InvalidHexCharacter error names the first bad character and its index |
| Hex.DecodeFrom | src/main.rs:75 | decoding from pair i on succeeds exactly when all later characters are digits, or reports the first bad one at or after i |
| Hex.DecodeOfEncode | src/main.rs:166 | `hex::decode` inverts `hex::encode` |
| Hex.EncodeOfDecode | src/main.rs:34 | on lowercase hex text, `hex::encode` inverts `hex::decode`, so a script string determines its bytes |
| ByteCursor.Take | src/main.rs:12-13 | a read of n bytes yields n bytes and advances by min(n, remaining), staying inside the buffer |
| ByteCursor.TakeBytes | src/main.rs:12-13 | byte i of the read is the buffer byte at pos + i where there is one, and 0 beyond the end |
| ByteCursor.TakeAt | src/main.rs:13 | when the n bytes are present the read returns exactly them and advances by exactly n |
| ByteCursor.TakeExhausted | src/lib.rs:15 | a read on an exhausted cursor yields only zeros and does not move |
| ByteCursor.TakeShort | src/main.rs:13 | a short read returns the remaining bytes padded with zeros and moves to the end |
| ByteCursor.LEOfTake | src/main.rs:13-14 | the little-endian value of a read is that of the bytes actually read |
| ByteCursor.Cursor.constructor | src/main.rs:76 | `as_slice`: a cursor at position 0 over the decoded bytes |
| ByteCursor.Cursor.Remaining | src/main.rs:76 | the slice still ahead of the cursor is as long as what is left |
| ByteCursor.Cursor.Read | src/main.rs:13 | copies min(buffer length, remaining) bytes to the front of the buffer, leaves the rest of it unchanged, and advances by that count |
| ByteCursor.Cursor.ReadZeroFilled | src/main.rs:12-13 | reading into a fresh zero-filled buffer leaves it equal to `Take` and moves the cursor to where `Take` says |
| Fields.U32At | src/main.rs:11-15 | `read_u32` advances by min(4, remaining) and yields the little-endian value of exactly the bytes read |
| Fields.AmountAt | src/main.rs:17-21 | `read_amount` advances by min(8, remaining) and yields the little-endian value of exactly the bytes read |
| Fields.TxidAt | src/main.rs:23-28 | `read_txid` advances by min(32, remaining) |
| Fields.TxidBytes | src/main.rs:23-28 | txid byte i is wire byte 31 - i of the field, or 0 where the buffer ran short |
| Fields.TxidReversesWire | src/main.rs:26 | reversing the txid again gives the 32 wire bytes read |
| Fields.CompactSizeAt | src/main.rs:50-72 | `read_compact_size` is defined for every prefix byte and never moves the cursor back or past the end |
| Fields.CompactSizeSingleByte | src/main.rs:54-55 | a prefix of 0 to 252 is the value and consumes exactly one byte |
| Fields.CompactSizePrefixed | src/main.rs:56-70 | prefix 253, 254 or 255 is followed by the little-endian value of the next 2, 4 or 8 bytes (or those present), which is below 2^16, 2^32 or 2^64; no minimality check |
| Fields.CompactSizeComplete | src/lib.rs:52-74 | with all continuation bytes present the read consumes 1, 3, 5 or 9 bytes by prefix class and yields the prefix or the value that follows |
| Fields.CompactSizeTestVectors | src/main.rs:146-160 | [1] reads 1, [253,0,1] reads 256, [254,0,0,0,1] reads 256^3 and [255,0,0,0,0,0,0,0,1] reads 256^7 |
| Fields.CompactSizeHighByte | src/lib.rs:137-147 | each long prefix followed by zeros and a final 1 reads as 256^(w-1) |
| Fields.CompactSizeTestVectorHex | src/main.rs:165-170 | the hex text `fd204e` decodes to [253,32,78], which reads as 20000 |
| Fields.CompactSizeNonMinimal | src/main.rs:56-60 | the non-minimal encoding `fd 05 00` is accepted and reads as 5 |
| Fields.ReadersOnExhausted | src/lib.rs:13-17 | on an exhausted cursor every reader yields zeros (or an empty script) and does not move |
| Fields.ScriptAt | src/main.rs:30-35 | `read_script` never moves the cursor back or past the end |
| Fields.ScriptShape | src/main.rs:30-35 | a script of declared length L is 2L lowercase hex characters that decode to the L bytes read (zero-filled if the buffer ran short), and the cursor moves past the length and at most L bytes |
| Readers.ReadU32 | src/main.rs:11-15 | the method yields and moves the cursor exactly as `U32At` |
| Readers.ReadAmount | src/main.rs:17-21 | the method yields and moves the cursor exactly as `AmountAt` |
| Readers.ReverseInPlace | src/main.rs:26 | `[u8]::reverse` leaves the array holding the reversal of its old contents |
| Readers.ReadTxid | src/main.rs:23-28 | the method yields and moves the cursor exactly as `TxidAt` |
| Readers.ReadCompactSize | src/main.rs:50-72 | the method yields and moves the cursor exactly as `CompactSizeAt` |
| Readers.ReadScript | src/main.rs:30-35 | the method yields and moves the cursor exactly as `ScriptAt` |
| Decoder.HashRawTransaction | src/main.rs:37-47 | `hash_raw_transaction`: SHA-256 applied twice to the raw bytes, in digest order (not reversed), and it cannot fail; it has no contract of its own, and `DecodedShape` states the id it gives |
| Decoder.InputAt | src/main.rs:82-92 | one input stays inside the buffer |
| Decoder.OutputAt | src/main.rs:99-105 | one output stays inside the buffer |
| Decoder.Many | src/main.rs:81-93 | a counted loop yields exactly count items and never moves back or past the end |
| Decoder.InputsFrom | src/main.rs:79-93 | the input loop yields exactly `input_count` inputs |
| Decoder.OutputsFrom | src/main.rs:96-106 | the output loop yields exactly `output_count` outputs |
| Decoder.ManyInOrder | src/main.rs:81-93 | item n of a counted loop is the item read where the first n items end |
| Decoder.ManySnoc | src/main.rs:87 | one more item, read where the first ones end, is appended at the back |
| Decoder.InputsInWireOrder | src/main.rs:81-93 | input n is the one read right after the first n inputs |
| Decoder.OutputsInWireOrder | src/main.rs:98-106 | output n is the one read right after the first n outputs |
| Decoder.ParseTransaction | src/main.rs:76-117 | the cursor never passes the end of the raw buffer |
| Decoder.Decode | src/main.rs:74-121 | the loops and readers compute exactly `DecodeSpec`: the `hex::decode` error wrapped as a hex decode error, or the transaction `ParseTransaction` reads |
| Decoder.DecodeFailsOnlyOnBadHex | src/lib.rs:77 | `decode` fails if and only if `hex::decode` fails, and then with that cause |
| Decoder.DecodedShape | src/main.rs:109 | the decoded version is the first field, there are exactly as many inputs and outputs as the counts read, and the id is SHA-256 applied twice to the whole raw buffer, wherever the cursor stopped |
| Decoder.TruncatedStillDecodes | src/lib.rs:80-110 | a buffer ending right after an input count of 2 still decodes: two zero-filled inputs, no outputs, lock time 0 |
| Serializer.SerializeCompactSize | src/main.rs:50-72 | the encoding is a prefix byte followed by as many bytes as that prefix class announces |
| Serializer.CompactSizeRoundTrip | src/main.rs:50-72 | every value written as a CompactSize reads back, consuming 1, 3, 5 or 9 bytes |
| Serializer.U32RoundTrip | src/main.rs:11-15 | a 4-byte little-endian value reads back and consumes 4 bytes |
| Serializer.AmountRoundTrip | src/main.rs:17-21 | an 8-byte little-endian amount reads back and consumes 8 bytes |
| Serializer.TxidRoundTrip | src/main.rs:23-28 | a txid written in reverse reads back in stored order and consumes 32 bytes |
| Serializer.ScriptRoundTrip | src/main.rs:30-35 | a script text written as its byte count and the bytes `hex::decode` gives for it reads back as the same hex text |
| Serializer.InputRoundTrip | src/main.rs:82-85 | a written input reads back field by field |
| Serializer.InputsRoundTrip | src/main.rs:81-93 | a written list of inputs reads back, in order, with nothing left over |
| Serializer.InputsFromStep | src/main.rs:81-93 | one more written input after the others extends the list read by it |
| Serializer.OutputRoundTrip | src/main.rs:99-100 | a written output reads back field by field |
| Serializer.OutputsRoundTrip | src/main.rs:98-106 | a written list of outputs reads back, in order, with nothing left over |
| Serializer.OutputsFromStep | src/main.rs:98-106 | one more written output after the others extends the list read by it |
| Serializer.Layout | src/main.rs:77-108 | the fields of a serialized transaction lie in the order `decode` reads them |
| Serializer.FieldsRoundTrip | src/main.rs:77-108 | each of the six reads of `decode` yields its field of a serialized transaction and moves to the next field |
| Serializer.ParseOfSerialize | src/main.rs:76-117 | parsing a serialized transaction followed by any bytes gives back every field and stops after the lock time; the trailing bytes enter only the id |
| Serializer.DecodeOfSerialize | src/lib.rs:76-123 | `decode` of the hex of a serialized transaction followed by any bytes succeeds with that transaction, its id hashing the whole buffer |

## Left out

- SHA-256 (the `sha2` crate inside `hash_raw_transaction`) is a function-typed parameter `sha256` of `Decode`; nothing is assumed about it. `hash_raw_transaction` cannot fail in the model, as in the code, and its digest is not reversed.
- JSON rendering with `serde_json::to_string_pretty` and its error path are left out: `Decode` returns the `Transaction` value.
- The text of the error message ("Hex decode error: …" and the `Display` of the hex error) is represented only by `DecodeError.HexDecodeError` holding the `hex` crate's error value.
- Hex.Decode: works on the characters of the string, whereas the `hex` crate works on its UTF-8 bytes. On ASCII text the two agree exactly. On any text they agree on whether decoding succeeds and on the bytes it yields. On non-ASCII text the error can differ in kind, character and index: for "é" (two bytes, one character) the crate reports an invalid character at index 0 where the model reports `OddLength`, and for "0é" the crate reports `OddLength` where the model reports the invalid character 'é' at index 1.
- `src/transaction.rs` is not part of this model: `Txid` is modelled as 32 bytes, `Amount` as a u64 satoshi count, and `Input`, `Output` and `Transaction` as plain datatypes with the fields `decode` fills.
- `main()` with its hard-coded sample transaction and `println!`/`eprintln!` output, the unused `clap::Parser` import, and `src/diving-deeper.rs` (commented-out code) are left out.
- Resource exhaustion is not modelled: counts and script lengths are unbounded naturals, so the allocation of `vec![0_u8; script_size]`, the platform-dependent `as usize` cast and loops of up to 2^64 rounds cannot fail.
- Determinism of `decode` is not a separate lemma: `Decode` is proved equal to the function `DecodeSpec` of its inputs.
- Decoder.ParseTransaction: its own contract only bounds the cursor; what it reads is stated by `DecodedShape`, the wire-order lemmas and the round trips against the serializer.
