/** The PNG container parser of `src/lib.rs`: the 8-byte signature check, the
    chunk framer with its four payload decoders, and the document assembler.
    Every parser takes the remaining input and returns the value it decoded
    with the input that follows it. */
module PngFormat {
  import opened Wire
  import opened Combinators

  /** The four raw bytes of a chunk's type code. */
  type ChunkType = t: seq<Byte> | |t| == 4 witness [0, 0, 0, 0]

  /** The zlib decompressor the zTXt decoder calls; `None` is its error. */
  type Inflate = seq<Byte> -> Option<seq<Byte>>

  datatype ImageHeader = ImageHeader(
    width: U32,
    height: U32,
    bitDepth: Byte,
    colorType: Byte,
    compression: Byte,
    filter: Byte,
    interlace: Byte)

  /** Keyword and text of a tEXt or zTXt chunk, kept as the raw bytes that the
      source hands to its lossy UTF-8 decoder. */
  datatype TextData = TextData(keyword: seq<Byte>, text: seq<Byte>)

  datatype ChunkData =
    | Header(header: ImageHeader)
    | Text(textData: TextData)
    | Unknown(bytes: seq<Byte>)

  /** A chunk as stored: its type code, its decoded payload and the CRC read
      from the file (never recomputed). */
  datatype Chunk = Chunk(chunkType: ChunkType, chunkData: ChunkData, crc: U32)

  datatype PNG = PNG(chunks: seq<Chunk>)

  /** The PNG file signature (section 5.2 of the PNG specification). */
  const Signature: seq<Byte> := [0x89, 0x50, 0x4E, 0x47, 0x0D, 0x0A, 0x1A, 0x0A]

  /** Type codes the decoder dispatches on: "IHDR", "tEXt" and "zTXt". */
  const IHDR: seq<Byte> := [0x49, 0x48, 0x44, 0x52]
  const TEXT: seq<Byte> := [0x74, 0x45, 0x58, 0x74]
  const ZTXT: seq<Byte> := [0x7A, 0x54, 0x58, 0x74]

  /** `header`: the signature, consumed exactly when the input starts with
      it. */
  function ParseSignature(s: seq<Byte>): (r: Outcome<seq<Byte>>)
    ensures r.Done? <==> 8 <= |s| && s[..8] == Signature
    ensures r.Done? ==> r.rest == s[8..]
    ensures r.Fail? ==> r.error in {Truncated, TagMismatch}
  {
    Tag(s, Signature)
  }

  /** The IHDR arm: seven fixed-width fields, 13 bytes, whatever the chunk's
      declared length says. */
  function ParseIhdr(s: seq<Byte>): (r: Outcome<ChunkData>)
    ensures r.Done? <==> 13 <= |s|
    ensures r.Done? ==> r.rest == s[13..] && r.value == Header(ImageHeader(
      DecodeBe32(s[0..4]), DecodeBe32(s[4..8]), s[8], s[9], s[10], s[11], s[12]))
    ensures r.Fail? ==> r.error == Truncated
  {
    match BeU32(s)
    case Fail(e) => Fail(e)
    case Done(width, s1) =>
    match BeU32(s1)
    case Fail(e) => Fail(e)
    case Done(height, s2) =>
    match BeU8(s2)
    case Fail(e) => Fail(e)
    case Done(bitDepth, s3) =>
    match BeU8(s3)
    case Fail(e) => Fail(e)
    case Done(colorType, s4) =>
    match BeU8(s4)
    case Fail(e) => Fail(e)
    case Done(compression, s5) =>
    match BeU8(s5)
    case Fail(e) => Fail(e)
    case Done(filter, s6) =>
    match BeU8(s6)
    case Fail(e) => Fail(e)
    case Done(interlace, s7) =>
    assert s1 == s[4..] && s2 == s[8..] && s3 == s[9..] && s4 == s[10..];
    assert s5 == s[11..] && s6 == s[12..] && s7 == s[13..];
    Done(Header(ImageHeader(width, height, bitDepth, colorType, compression, filter, interlace)), s7)
  }

  /** The tEXt arm: the keyword runs up to the first NUL of the remaining
      input, and the text is the next `length - |keyword|` bytes, starting at
      that NUL, so a successful decode consumes exactly `length` bytes.
      `ChunkProperties.TextArm` gives its outcome for every input. */
  function ParseText(s: seq<Byte>, length: U32): (r: Outcome<ChunkData>)
    ensures 0 !in s ==> r == Fail(NoNul)
    ensures r.Done? ==> length <= |s| && r.rest == s[length..]
  {
    match TakeUntilNul(s)
    case Fail(e) => Fail(e)
    case Done(keyword, s1) =>
    if length < |keyword| then Fail(LengthUnderflow)
    else
    match Take(s1, length - |keyword|)
    case Fail(e) => Fail(e)
    case Done(text, s2) => Done(Text(TextData(keyword, text)), s2)
  }

  /** The zTXt arm: the keyword up to the first NUL, that NUL, a compression
      method byte that must also be 0, then `length - |keyword| - 2` bytes of
      compressed text handed to `inflate`; a successful decode consumes
      exactly `length` bytes. `ChunkProperties.ZtxtArm` gives its outcome for
      every input. */
  function ParseZtxt(s: seq<Byte>, length: U32, inflate: Inflate): (r: Outcome<ChunkData>)
    ensures 0 !in s ==> r == Fail(NoNul)
    ensures r.Done? ==> length <= |s| && r.rest == s[length..]
  {
    match TakeUntilNul(s)
    case Fail(e) => Fail(e)
    case Done(keyword, s1) =>
    match Tag(s1, [0])
    case Fail(e) => Fail(e)
    case Done(_, s2) =>
    match Tag(s2, [0])
    case Fail(e) => Fail(e)
    case Done(_, s3) =>
    if length < |keyword| + 2 then Fail(LengthUnderflow)
    else
    match Take(s3, length - |keyword| - 2)
    case Fail(e) => Fail(e)
    case Done(data, s4) =>
    match inflate(data)
    case None => Fail(InflateFailed)
    case Some(text) => Done(Text(TextData(keyword, text)), s4)
  }

  /** The fallback arm: the next `length` bytes, verbatim. */
  function ParseUnknown(s: seq<Byte>, length: U32): (r: Outcome<ChunkData>)
    ensures r.Done? <==> length <= |s|
    ensures r.Done? ==> r.value == Unknown(s[..length]) && r.rest == s[length..]
    ensures r.Fail? ==> r.error == Truncated
  {
    match Take(s, length)
    case Fail(e) => Fail(e)
    case Done(data, rest) => Done(Unknown(data), rest)
  }

  /** How many payload bytes a successful decode of this type consumes: the
      declared length, except for IHDR, which always reads 13. */
  function PayloadSize(chunkType: seq<Byte>, length: U32): nat {
    if chunkType == IHDR then 13 else length
  }

  /** `switch!` on the type code: one decoder per known type, the fallback for
      every other code. */
  function ParsePayload(chunkType: seq<Byte>, length: U32, s: seq<Byte>, inflate: Inflate): (r: Outcome<ChunkData>)
    ensures r.Done? ==> PayloadSize(chunkType, length) <= |s|
    ensures r.Done? ==> r.rest == s[PayloadSize(chunkType, length)..]
  {
    if chunkType == IHDR then ParseIhdr(s)
    else if chunkType == TEXT then ParseText(s, length)
    else if chunkType == ZTXT then ParseZtxt(s, length, inflate)
    else ParseUnknown(s, length)
  }

  /** `chunk`: a big-endian length, the type code (peeked, then taken and
      dispatched on), the payload and a big-endian CRC. A chunk occupies at
      least the 12 bytes of its fixed fields; `ChunkProperties.ChunkFrame` says
      exactly which bytes each field comes from. */
  function ParseChunk(s: seq<Byte>, inflate: Inflate): (r: Outcome<Chunk>)
    ensures |s| < 8 ==> r == Fail(Truncated)
    ensures r.Done? ==> 12 <= |s| - |r.rest| && r.rest == s[|s| - |r.rest|..]
  {
    match BeU32(s)
    case Fail(e) => Fail(e)
    case Done(length, s1) =>
    match Peek(t => Take(t, 4), s1)
    case Fail(e) => Fail(e)
    case Done(chunkType, s1') =>
    match Take(s1', 4)
    case Fail(e) => Fail(e)
    case Done(tag, s2) =>
    match ParsePayload(tag, length, s2, inflate)
    case Fail(e) => Fail(e)
    case Done(chunkData, s3) =>
    match BeU32(s3)
    case Fail(e) => Fail(e)
    case Done(crc, s4) => Done(Chunk(chunkType, chunkData, crc), s4)
  }

  /** `chunk` as a parser value, to hand to `many1!`; every chunk it reads
      takes at least 12 bytes. */
  function ChunkParser(inflate: Inflate): (p: Parser<Chunk>)
    ensures ConsumesAtLeast(p, 12) && ConsumesAtLeast(p, 1)
    ensures forall t :: p(t) == ParseChunk(t, inflate)
  {
    t => ParseChunk(t, inflate)
  }

  /** `png`: the signature, then one or more chunks. */
  function ParsePng(s: seq<Byte>, inflate: Inflate): (r: Outcome<PNG>)
    ensures !(8 <= |s| && s[..8] == Signature) ==> r.Fail? && r.error in {Truncated, TagMismatch}
    ensures r.Done? ==> 8 <= |s| && s[..8] == Signature && 1 <= |r.value.chunks|
  {
    match ParseSignature(s)
    case Fail(e) => Fail(e)
    case Done(_, s1) =>
    match Many1(ChunkParser(inflate), s1)
    case Fail(e) => Fail(e)
    case Done(chunks, s2) => Done(PNG(chunks), s2)
  }
}
