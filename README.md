# png-nom container parser, modelled in Dafny

This project models `src/lib.rs` of png-nom, a small PNG reader built from nom
parser combinators. The model is written as pure functions from the remaining
input (`seq<Byte>`) to an `Outcome`. An `Outcome` is either the decoded value
with the input that follows it, or the reason the parser stopped. The
project covers:

- the 8-byte signature check `header`;
- the chunk framer `chunk`. It reads a big-endian length, peeks the 4-byte
  type and then takes it, decodes the payload with the IHDR, tEXt, zTXt or
  fallback decoder that type selects, and reads a big-endian CRC;
- the document parser `png`, which is the signature followed by `many1!(chunk)`;
- the types `ImageHeader`, `TextData`, `ChunkData`, `Chunk` and `PNG`.

Files:

- `wire.dfy`: bytes, `u32`, big-endian encoding, and the outcome and error
  types. The `ParseError` datatype has five cases:
  - `Truncated`: too little input;
  - `TagMismatch`: a literal that does not match;
  - `NoNul`: no NUL byte for `take_until!`;
  - `LengthUnderflow`: the `usize` subtraction in the tEXt and zTXt arms
    would go below zero;
  - `InflateFailed`: `.unwrap()` on a failed decompression.

  The last two are panics. Nothing catches them, so they end the whole parse
  (`Aborts`).
- `combinators.dfy`: `take!`, `peek!`, `tag!`, `take_until!("\0")`,
  `be_u32`, `be_u8`, and the repetition of `many1!`, which takes a parser as
  a value, as nom does.
- `png_format.dfy`: the entity types and the parsers `header`, `chunk` (with
  its four payload arms) and `png`.
- `chunk_properties.dfy`: the exact outcome of each payload arm and of chunk
  framing for every input, plus round trips from chunks laid out as a PNG
  encoder writes them.
- `many_properties.dfy`: what `many1!` returns for any parser that consumes
  input.
- `document_properties.dfy`: what `png` returns for a whole file.

These points of the code are kept exactly as written:

- The IHDR arm always reads 13 bytes and never looks at the declared length.
  The PNG specification (ISO/IEC 15948, section 11.2.2) fixes IHDR at 13 data
  bytes, but the code does not compare `length` with 13.
- The tEXt keyword ends at the first NUL of the remaining input, and that NUL
  is not consumed. The text is the next `length - keyword.len()` bytes
  starting at the NUL, so a non-empty decoded text always begins with a 0
  byte. The text is empty when `length` equals the keyword's length. The PNG
  specification (section 11.3.4.3) puts the text after the null separator.
- The NUL search is not bounded by the chunk. If a tEXt payload has no NUL,
  the search runs on into the CRC and beyond. `TextKeywordCrcDecides` shows
  that, for a NUL-free payload as long as the declared length, the first CRC
  byte decides whether the chunk decodes. When that byte is 0, the chunk
  decodes with an empty text. Otherwise it fails with an underflow or for
  want of a NUL.
- The zTXt arm requires two NUL bytes after the keyword (`tag!("\0")` twice).
  The compression-method byte must therefore be 0.
- The CRC is read and stored but never computed or compared. The PNG
  specification (section 5.3) defines it over the chunk type and data.

## Model

| member | source | states |
|---|---|---|
| Wire.DecodeEncodeBe32 | src/lib.rs:53 | reading back the big-endian encoding of a `u32` gives the same value |
| Wire.EncodeDecodeBe32 | src/lib.rs:111 | every four bytes are the big-endian encoding of exactly the `u32` `be_u32` reads from them |
| Combinators.Take | src/lib.rs:105 | `take!(n)` succeeds exactly when at least `n` bytes remain; it returns exactly `n` bytes, and those bytes followed by the rest are the input; otherwise the input is truncated |
| Combinators.Peek | src/lib.rs:54 | `peek!(p)` on `s` succeeds exactly when `p` does on `s`, with the same value or error, and leaves the cursor at `s` |
| Combinators.Tag | src/lib.rs:92-93 | `tag!(lit)` succeeds exactly when the input starts with `lit` and consumes exactly `lit`; it reports truncation exactly when the input is a proper prefix of `lit`, and a mismatch otherwise |
| Combinators.TakeUntilNul | src/lib.rs:79 | `take_until!("\0")` succeeds exactly when the input holds a NUL; the bytes returned are those before the first NUL, and the NUL and everything after it are left unread |
| Combinators.TakeUntilNulAt | src/lib.rs:79 | at a known first NUL `k`, `take_until!` returns bytes `0..k` and leaves bytes `k..` |
| Combinators.BeU32 | src/lib.rs:53 | `be_u32` succeeds exactly when four bytes remain, and returns their big-endian value; the encoding of that value followed by the rest is the input |
| Combinators.BeU8 | src/lib.rs:59-63 | `be_u8` succeeds exactly when a byte remains, and returns that byte followed by the rest |
| Combinators.Many | src/lib.rs:130 | the repetition in `many1!` either succeeds, leaving no more input than it was given, or fails with an error that aborts |
| Combinators.Many1 | src/lib.rs:130 | a successful `many1!` returns at least one item and consumes input |
| PngFormat.ParseSignature | src/lib.rs:47-49 | `header` succeeds exactly when the first 8 bytes are `89 50 4E 47 0D 0A 1A 0A`, and consumes exactly those 8 |
| PngFormat.ParseIhdr | src/lib.rs:56-77 | the IHDR arm succeeds exactly when 13 bytes remain; width and height are the big-endian values of bytes 0..4 and 4..8; bit depth, colour type, compression, filter and interlace are bytes 8 to 12 in that order; exactly 13 bytes are consumed |
| PngFormat.ParseText | src/lib.rs:78-89 | the tEXt arm fails when no NUL remains, and a successful decode consumes exactly the declared `length` bytes |
| PngFormat.ParseZtxt | src/lib.rs:90-103 | the zTXt arm fails when no NUL remains, and a successful decode consumes exactly the declared `length` bytes |
| PngFormat.ParseUnknown | src/lib.rs:104-109 | the fallback arm succeeds exactly when `length` bytes remain, and returns exactly those bytes verbatim |
| PngFormat.ParsePayload | src/lib.rs:55-110 | a payload decoded by `switch!` consumes exactly 13 bytes for IHDR and exactly `length` bytes for every other type |
| PngFormat.ParseChunk | src/lib.rs:51-125 | `chunk` fails with truncation on fewer than 8 bytes; a successful chunk consumes at least 12 bytes and leaves a suffix of its input |
| PngFormat.ChunkParser | src/lib.rs:130 | `chunk`, handed to `many1!`, consumes at least 12 bytes whenever it succeeds |
| PngFormat.ParsePng | src/lib.rs:127-133 | without the signature, `png` fails (truncated or mismatched); a successful `png` has the signature in front and at least one chunk |
| ChunkProperties.TextArm | src/lib.rs:78-89 | the exact outcome of the tEXt arm at first NUL `k`: underflow if `length < k`, otherwise truncated if fewer than `length` bytes remain, otherwise keyword bytes `0..k`, text bytes `k..length` (starting at the NUL), and `length` bytes consumed |
| ChunkProperties.ZtxtArm | src/lib.rs:90-103 | the exact outcome of the zTXt arm at first NUL `k`: a missing second NUL is truncated or a mismatch; underflow if `length < k + 2`; truncated if fewer than `length` bytes remain; the inflate failure; otherwise keyword bytes `0..k`, text `inflate(bytes k+2..length)`, and `length` bytes consumed |
| ChunkProperties.ChunkPayloadFails | src/lib.rs:51-110 | the decoder is chosen by bytes 4..8 (the peeked type) and reads from byte 8 with the length in bytes 0..4; if it fails, the chunk fails with its error |
| ChunkProperties.ChunkFrame | src/lib.rs:51-125 | a decoded chunk has its stored type equal to bytes 4..8, which are the same bytes that chose the decoder; its CRC is the four bytes right after the payload, as read; it ends `12 + payload size` bytes in, or is truncated |
| ChunkProperties.UnknownChunk | src/lib.rs:104-111 | a chunk of any other type holds exactly the `length` bytes after its type, verbatim; it takes `4 + 4 + length + 4` bytes and is truncated when fewer remain |
| ChunkProperties.IhdrChunk | src/lib.rs:53-77 | an IHDR chunk reads its seven fields from bytes 8..21 and its CRC from bytes 21..25, whatever its declared length; it always takes 25 bytes, or is truncated |
| ChunkProperties.ChunkRoundTrip | src/lib.rs:51-125 | a chunk laid out as length, type, payload and CRC comes back with the payload its decoder makes of the payload bytes and the CRC as written, whatever the CRC is |
| ChunkProperties.ChunkFailsEncoded | src/lib.rs:51-110 | a laid-out chunk whose payload decoder fails makes the chunk fail with the decoder's error |
| ChunkProperties.UnknownRoundTrip | src/lib.rs:104-109 | any chunk of an unknown type comes back as `Unknown` holding its payload |
| ChunkProperties.IhdrArmRoundTrip | src/lib.rs:56-77 | the IHDR arm reads back every header from its 13-byte encoding |
| ChunkProperties.IhdrRoundTrip | src/lib.rs:53-77 | an IHDR chunk comes back with its header and CRC for every declared length |
| ChunkProperties.TextArmRoundTrip | src/lib.rs:78-89 | on a payload of keyword, NUL and text, the tEXt arm returns the keyword and the NUL followed by the text |
| ChunkProperties.TextRoundTrip | src/lib.rs:78-89 | a tEXt chunk of keyword, NUL and text comes back with that keyword, the text with the NUL in front, and its CRC |
| ChunkProperties.ZtxtArmRoundTrip | src/lib.rs:90-103 | on a payload of keyword, NUL, method byte 0 and data, the zTXt arm returns the keyword and `inflate(data)`, or fails when `inflate` rejects the data |
| ChunkProperties.ZtxtRoundTrip | src/lib.rs:90-103 | a zTXt chunk whose data inflates comes back with its keyword, the inflated text and its CRC |
| ChunkProperties.TextKeywordEndsInCrc | src/lib.rs:79-80 | a tEXt chunk whose payload has no NUL still decodes, as the whole payload for a keyword and an empty text, when its CRC's first byte is 0 |
| ChunkProperties.TextKeywordPastCrc | src/lib.rs:79-80 | the same chunk with no NUL in its CRC or anywhere after it fails for want of a NUL |
| ChunkProperties.TextPayloadPastPayload | src/lib.rs:79-80 | a NUL-free keyword of the declared length followed by a non-NUL byte fails to decode, by underflow or for want of a NUL |
| ChunkProperties.TextKeywordCrcDecides | src/lib.rs:79-80 | such a tEXt chunk decodes exactly when its CRC's first byte is 0; otherwise it fails by underflow or for want of a NUL |
| ManyProperties.RunConsumes | src/lib.rs:130 | items read in order, each taking at least `k` bytes, take at least `k` bytes apiece, and what they leave is a suffix of the input |
| ManyProperties.ManyRun | src/lib.rs:130 | the repetition returns `vs` and `rest` exactly when `vs` are the items read in order from the input and the next item fails at `rest` with an error that does not abort |
| ManyProperties.ManyAbort | src/lib.rs:130 | the repetition fails with `e` exactly when `e` aborts and, after some items read in order, the next item fails with `e` |
| ManyProperties.Many1Run | src/lib.rs:130 | `many1!` returns `vs` and `rest` exactly when `vs` is not empty, `vs` are the items read in order, and reading stops quietly at `rest` |
| ManyProperties.Many1Fails | src/lib.rs:130 | `many1!` fails with `e` exactly when the first item fails with `e`, or `e` aborts and a later item fails with it |
| DocumentProperties.PngSucceeds | src/lib.rs:127-133 | `png` returns chunks `cs` and leaves `rest` exactly when the file starts with the signature, `cs` is not empty, `cs` are the chunks read in file order after the signature, and reading stops quietly at `rest` |
| DocumentProperties.PngFails | src/lib.rs:127-133 | after a matching signature, `png` fails with `e` exactly when the first chunk fails with `e`, or `e` aborts and a later chunk fails with it; any other failing chunk just ends the list |
| DocumentProperties.PngOfRun | src/lib.rs:127-133 | a file whose chunks run to its very end is read completely, with every chunk in order |
| DocumentProperties.HeaderThenTextRun | src/lib.rs:51-125 | an IHDR chunk followed by a tEXt chunk is read as those two chunks, in order, with their CRCs as written |
| DocumentProperties.HeaderThenText | src/lib.rs:127-133 | a file of signature, IHDR chunk and tEXt chunk parses to exactly those two chunks and leaves nothing |

## Left out

- `inflate_bytes_zlib` (src/lib.rs:7, 99) is an external zlib library. It is
  a function parameter `Inflate`, and `None` stands for its error. The
  decompression itself is not modelled.
- `String::from_utf8_lossy` (src/lib.rs:84-85, 98-99): keyword and text stay
  the raw bytes handed to it. UTF-8 decoding and replacement characters are
  not modelled.
- The `tests` module (src/lib.rs:135-149) reads a file and prints. It is I/O
  only.
- CRC-32 computation: the source has none, and the model only carries the
  stored value.
- nom's `Incomplete` versus `Error`: every shortage of input is `Truncated`.
  `many1!` stops at any failing chunk except a panic, which includes a final
  chunk cut short at the end of the input. nom 3 may report such a cut as
  `Incomplete` instead. That end-of-input rule is not modelled.
- `LengthUnderflow` is treated as ending the parse for both build modes. A
  debug build panics. A release build wraps the `usize` and asks `take!` for
  an impossibly large count, which nom reports as `Incomplete`. The exact
  error value of either path is not modelled.
- The unused `std::mem::transmute` import (src/lib.rs:9) and the `Debug`
  derivations have no behaviour to model.
- `ParseText`, `ParseZtxt` and `ParseChunk` keep short contracts of their own.
  Their full behaviour is stated by `TextArm`, `ZtxtArm`, `ChunkFrame` and
  `ChunkPayloadFails`.
