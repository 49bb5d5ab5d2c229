/** What the chunk parser of `PngFormat` does, stated over absolute positions
    in its input: the outcome of each payload decoder, where each field of a
    chunk comes from, and round trips from chunks laid out as a PNG writer lays
    them out. */
module ChunkProperties {
  import opened Wire
  import opened Combinators
  import opened PngFormat

  /** The tEXt arm for every input with a NUL at `k` and none before it: it
      fails on underflow when the keyword is longer than `length`, is
      truncated when fewer than `length` bytes remain, and otherwise returns
      the keyword without its NUL and the text from the NUL up to `length`,
      consuming exactly `length` bytes. (Without any NUL it fails with
      `NoNul`, as `ParseText` states.) */
  lemma TextArm(s: seq<Byte>, length: U32, k: nat)
    requires IsFirstNul(s, k)
    ensures ParseText(s, length) ==
      if length < k then Fail(LengthUnderflow)
      else if |s| < length then Fail(Truncated)
      else Done(Text(TextData(s[..k], s[k..length])), s[length..])
  {
    TakeUntilNulAt(s, k);
    var u := TakeUntilNul(s);
    assert u.value == s[..k] && u.rest == s[k..];
    if k <= length {
      TakeAt(s, k, length - k);
      var v := Take(u.rest, length - |u.value|);
      if length <= |s| {
        assert v.value == s[k..length] && v.rest == s[length..];
        assert ParseText(s, length) == Done(Text(TextData(u.value, v.value)), v.rest);
      }
    }
  }

  /** The zTXt arm for every input with a NUL at `k` and none before it: the
      byte after the NUL must exist and be 0, `length` must leave room for the
      keyword and both zero bytes, `length` bytes must remain, and `inflate`
      must accept the `length - k - 2` bytes after the two zero bytes; then
      the text is what `inflate` returns and exactly `length` bytes are
      consumed. */
  lemma ZtxtArm(s: seq<Byte>, length: U32, inflate: Inflate, k: nat)
    requires IsFirstNul(s, k)
    ensures ParseZtxt(s, length, inflate) ==
      if |s| < k + 2 then Fail(Truncated)
      else if s[k + 1] != 0 then Fail(TagMismatch)
      else if length < k + 2 then Fail(LengthUnderflow)
      else if |s| < length then Fail(Truncated)
      else if inflate(s[k + 2..length]).None? then Fail(InflateFailed)
      else Done(Text(TextData(s[..k], inflate(s[k + 2..length]).value)), s[length..])
  {
    TakeUntilNulAt(s, k);
    var u := TakeUntilNul(s);
    assert u.value == s[..k] && u.rest == s[k..];
    assert s[k..][..1] == [0];
    assert Tag(s[k..], [0]) == Done([0], s[k + 1..]);
    if k + 2 <= |s| {
      assert s[k + 1..][..1] == [s[k + 1]];
      if s[k + 1] == 0 {
        assert Tag(s[k + 1..], [0]) == Done([0], s[k + 2..]);
        if k + 2 <= length {
          TakeAt(s, k + 2, length - k - 2);
          var v := Take(s[k + 2..], length - |u.value| - 2);
          if length <= |s| {
            assert v.value == s[k + 2..length] && v.rest == s[length..];
            if inflate(v.value).Some? {
              assert ParseZtxt(s, length, inflate)
                == Done(Text(TextData(u.value, inflate(v.value).value)), v.rest);
            }
          }
        }
      } else {
        assert Tag(s[k + 1..], [0]) == Fail(TagMismatch);
      }
    } else {
      assert s[k + 1..] == [];
      assert Tag(s[k + 1..], [0]) == Fail(Truncated);
    }
  }

  /** A chunk whose payload decoder fails fails with the decoder's error.
      The decoder is the one selected by bytes 4..8, the bytes the peek
      returned, and it reads from byte 8 on with the length in bytes 0..4. */
  lemma ChunkPayloadFails(s: seq<Byte>, inflate: Inflate)
    requires 8 <= |s|
    requires ParsePayload(s[4..8], DecodeBe32(s[..4]), s[8..], inflate).Fail?
    ensures ParseChunk(s, inflate) == Fail(ParsePayload(s[4..8], DecodeBe32(s[..4]), s[8..], inflate).error)
  {
    assert s[0..] == s;
    BeU32At(s, 0);
    TakeAt(s, 4, 4);
  }

  /** Framing of a chunk whose payload decodes: its type is bytes 4..8, its
      payload is what the selected decoder returns, its CRC is the four bytes
      right after the payload (stored as read, never compared with anything),
      and it ends `12 + PayloadSize` bytes in. With fewer bytes it is
      truncated. */
  lemma ChunkFrame(s: seq<Byte>, inflate: Inflate)
    requires 8 <= |s|
    requires ParsePayload(s[4..8], DecodeBe32(s[..4]), s[8..], inflate).Done?
    ensures
      var p := ParsePayload(s[4..8], DecodeBe32(s[..4]), s[8..], inflate);
      var n := 12 + PayloadSize(s[4..8], DecodeBe32(s[..4]));
      ParseChunk(s, inflate) ==
        if |s| < n then Fail(Truncated)
        else Done(Chunk(s[4..8], p.value, DecodeBe32(s[n - 4..n])), s[n..])
  {
    assert s[0..] == s;
    BeU32At(s, 0);
    TakeAt(s, 4, 4);
    var p := ParsePayload(s[4..8], DecodeBe32(s[..4]), s[8..], inflate);
    var size := PayloadSize(s[4..8], DecodeBe32(s[..4]));
    assert p.rest == s[8 + size..];
    BeU32At(s, 8 + size);
  }

  /** A type other than IHDR, tEXt and zTXt: the payload is exactly the
      `length` bytes after the type, verbatim; the chunk takes
      `4 + 4 + length + 4` bytes and is truncated when fewer remain. */
  lemma UnknownChunk(s: seq<Byte>, inflate: Inflate)
    requires 8 <= |s| && s[4..8] != IHDR && s[4..8] != TEXT && s[4..8] != ZTXT
    ensures
      var length := DecodeBe32(s[..4]);
      ParseChunk(s, inflate) ==
        if |s| < 12 + length then Fail(Truncated)
        else Done(Chunk(s[4..8], Unknown(s[8..8 + length]), DecodeBe32(s[8 + length..12 + length])),
                  s[12 + length..])
  {
    var length := DecodeBe32(s[..4]);
    if length <= |s| - 8 {
      assert s[8..][..length] == s[8..8 + length];
      ChunkFrame(s, inflate);
    } else {
      ChunkPayloadFails(s, inflate);
    }
  }

  /** An IHDR chunk reads its seven fields from the 13 bytes after the type
      and its CRC from the 4 bytes after those, whatever its declared length:
      it always takes 25 bytes. */
  lemma IhdrChunk(s: seq<Byte>, inflate: Inflate)
    requires 8 <= |s| && s[4..8] == IHDR
    ensures ParseChunk(s, inflate) ==
      if |s| < 25 then Fail(Truncated)
      else Done(Chunk(IHDR, Header(ImageHeader(
        DecodeBe32(s[8..12]), DecodeBe32(s[12..16]), s[16], s[17], s[18], s[19], s[20])),
        DecodeBe32(s[21..25])), s[25..])
  {
    if 21 <= |s| {
      assert s[8..][0..4] == s[8..12];
      assert s[8..][4..8] == s[12..16];
      ChunkFrame(s, inflate);
    } else {
      ChunkPayloadFails(s, inflate);
    }
  }

  // ---------------------------------------------------------------------------
  // The writer side: chunks as a PNG encoder lays them out, used to state what
  // the parser recovers from them.

  /** Length, type, payload and CRC, in file order. */
  function EncodeChunk(length: U32, chunkType: ChunkType, payload: seq<Byte>, crc: U32): (b: seq<Byte>)
    ensures |b| == 12 + |payload|
  {
    EncodeBe32(length) + chunkType + payload + EncodeBe32(crc)
  }

  /** The 13-byte IHDR payload. */
  function EncodeIhdr(h: ImageHeader): (b: seq<Byte>)
    ensures |b| == 13
  {
    EncodeBe32(h.width) + EncodeBe32(h.height)
      + [h.bitDepth, h.colorType, h.compression, h.filter, h.interlace]
  }

  /** An encoded chunk is its length field, then its type, then everything
      the payload decoder reads. */
  lemma EncodeChunkSplit(length: U32, chunkType: ChunkType, payload: seq<Byte>, crc: U32, rest: seq<Byte>)
    ensures EncodeChunk(length, chunkType, payload, crc) + rest
      == EncodeBe32(length) + (chunkType + (payload + EncodeBe32(crc) + rest))
  {
  }

  /** A chunk laid out by `EncodeChunk` comes back with the payload its
      type's decoder makes of the payload bytes, and with the CRC as written,
      whatever that CRC is. */
  lemma ChunkRoundTrip(length: U32, chunkType: ChunkType, payload: seq<Byte>, crc: U32, rest: seq<Byte>,
                       inflate: Inflate, data: ChunkData)
    requires ParsePayload(chunkType, length, payload + EncodeBe32(crc) + rest, inflate)
      == Done(data, EncodeBe32(crc) + rest)
    ensures ParseChunk(EncodeChunk(length, chunkType, payload, crc) + rest, inflate)
      == Done(Chunk(chunkType, data, crc), rest)
  {
    var tail := payload + EncodeBe32(crc) + rest;
    EncodeChunkSplit(length, chunkType, payload, crc, rest);
    BeU32Encoded(length, chunkType + tail);
    TakePrefix(chunkType, tail);
    BeU32Encoded(crc, rest);
  }

  /** A chunk laid out by `EncodeChunk` whose payload decoder fails fails
      with the decoder's error. */
  lemma ChunkFailsEncoded(length: U32, chunkType: ChunkType, payload: seq<Byte>, crc: U32, rest: seq<Byte>,
                          inflate: Inflate, e: ParseError)
    requires ParsePayload(chunkType, length, payload + EncodeBe32(crc) + rest, inflate) == Fail(e)
    ensures ParseChunk(EncodeChunk(length, chunkType, payload, crc) + rest, inflate) == Fail(e)
  {
    var tail := payload + EncodeBe32(crc) + rest;
    EncodeChunkSplit(length, chunkType, payload, crc, rest);
    BeU32Encoded(length, chunkType + tail);
    TakePrefix(chunkType, tail);
  }

  /** Any chunk of a type the decoder does not know comes back as `Unknown`
      holding its payload verbatim. */
  lemma UnknownRoundTrip(chunkType: ChunkType, payload: seq<Byte>, crc: U32, rest: seq<Byte>, inflate: Inflate)
    requires chunkType != IHDR && chunkType != TEXT && chunkType != ZTXT && |payload| < 0x1_0000_0000
    ensures ParseChunk(EncodeChunk(|payload|, chunkType, payload, crc) + rest, inflate)
      == Done(Chunk(chunkType, Unknown(payload), crc), rest)
  {
    TakePrefix(payload, EncodeBe32(crc) + rest);
    Regroup(payload, EncodeBe32(crc), rest);
    ChunkRoundTrip(|payload|, chunkType, payload, crc, rest, inflate, Unknown(payload));
  }

  /** The IHDR decoder reads back the 13 bytes `EncodeIhdr` writes. */
  lemma IhdrArmRoundTrip(h: ImageHeader, t: seq<Byte>)
    ensures ParseIhdr(EncodeIhdr(h) + t) == Done(Header(h), t)
  {
    var tail := [h.bitDepth, h.colorType, h.compression, h.filter, h.interlace] + t;
    assert EncodeIhdr(h) + t == EncodeBe32(h.width) + (EncodeBe32(h.height) + tail);
    BeU32Encoded(h.width, EncodeBe32(h.height) + tail);
    BeU32Encoded(h.height, tail);
  }

  /** An IHDR chunk comes back with its header, whatever its declared length:
      the decoder never looks at it. */
  lemma IhdrRoundTrip(h: ImageHeader, length: U32, crc: U32, rest: seq<Byte>, inflate: Inflate)
    ensures ParseChunk(EncodeChunk(length, IHDR, EncodeIhdr(h), crc) + rest, inflate)
      == Done(Chunk(IHDR, Header(h), crc), rest)
  {
    IhdrArmRoundTrip(h, EncodeBe32(crc) + rest);
    Regroup(EncodeIhdr(h), EncodeBe32(crc), rest);
    ChunkRoundTrip(length, IHDR, EncodeIhdr(h), crc, rest, inflate, Header(h));
  }

  /** The tEXt decoder on a payload written as keyword, NUL, text: the
      keyword comes back, and the decoded text is the NUL followed by the
      text, because the text is taken from the separator on. */
  lemma TextArmRoundTrip(keyword: seq<Byte>, text: seq<Byte>, t: seq<Byte>)
    requires 0 !in keyword && |keyword| + 1 + |text| < 0x1_0000_0000
    ensures ParseText(keyword + [0] + text + t, |keyword| + 1 + |text|)
      == Done(Text(TextData(keyword, [0] + text)), t)
  {
    var s := keyword + [0] + text + t;
    assert s == keyword + ([0] + text + t);
    assert s[..|keyword|] == keyword && s[|keyword|..] == [0] + text + t;
    TakeUntilNulAt(s, |keyword|);
    TakePrefix([0] + text, t);
  }

  /** The type code "tEXt" selects the tEXt decoder. */
  lemma TextDispatch(length: U32, s: seq<Byte>, inflate: Inflate)
    ensures ParsePayload(TEXT, length, s, inflate) == ParseText(s, length)
  {
    assert TEXT[0] != IHDR[0];
  }

  /** A tEXt chunk written as keyword, NUL, text, with the declared length
      counting all three. */
  lemma TextRoundTrip(keyword: seq<Byte>, text: seq<Byte>, crc: U32, rest: seq<Byte>, inflate: Inflate)
    requires 0 !in keyword && |keyword| + 1 + |text| < 0x1_0000_0000
    ensures
      var payload := keyword + [0] + text;
      ParseChunk(EncodeChunk(|payload|, TEXT, payload, crc) + rest, inflate)
        == Done(Chunk(TEXT, Text(TextData(keyword, [0] + text)), crc), rest)
  {
    var payload := keyword + [0] + text;
    var tail := EncodeBe32(crc) + rest;
    TextArmRoundTrip(keyword, text, tail);
    Regroup(payload, EncodeBe32(crc), rest);
    TextDispatch(|payload|, payload + tail, inflate);
    ChunkRoundTrip(|payload|, TEXT, payload, crc, rest, inflate, Text(TextData(keyword, [0] + text)));
  }

  /** The zTXt decoder on a payload written as keyword, NUL, method byte 0,
      compressed data: the keyword comes back with what `inflate` makes of the
      data, or the decode fails when `inflate` rejects it. */
  lemma ZtxtArmRoundTrip(keyword: seq<Byte>, data: seq<Byte>, t: seq<Byte>, inflate: Inflate)
    requires 0 !in keyword && |keyword| + 2 + |data| < 0x1_0000_0000
    ensures ParseZtxt(keyword + [0, 0] + data + t, |keyword| + 2 + |data|, inflate)
      == if inflate(data).None? then Fail(InflateFailed)
         else Done(Text(TextData(keyword, inflate(data).value)), t)
  {
    var s := keyword + [0, 0] + data + t;
    assert s == keyword + ([0] + ([0] + (data + t)));
    assert s[..|keyword|] == keyword && s[|keyword|..] == [0] + ([0] + (data + t));
    TakeUntilNulAt(s, |keyword|);
    TakePrefix([0], [0] + (data + t));
    TakePrefix([0], data + t);
    TakePrefix(data, t);
  }

  /** A zTXt chunk written as keyword, NUL, method byte 0 and compressed
      data; a rejected decompression fails the chunk (and aborts the whole
      parse). */
  lemma ZtxtRoundTrip(keyword: seq<Byte>, data: seq<Byte>, crc: U32, rest: seq<Byte>, inflate: Inflate)
    requires 0 !in keyword && |keyword| + 2 + |data| < 0x1_0000_0000
    requires inflate(data).Some?
    ensures
      var payload := keyword + [0, 0] + data;
      ParseChunk(EncodeChunk(|payload|, ZTXT, payload, crc) + rest, inflate)
        == Done(Chunk(ZTXT, Text(TextData(keyword, inflate(data).value)), crc), rest)
  {
    var payload := keyword + [0, 0] + data;
    var tail := EncodeBe32(crc) + rest;
    ZtxtArmRoundTrip(keyword, data, tail, inflate);
    Regroup(payload, EncodeBe32(crc), rest);
    assert ZTXT[0] != IHDR[0] && ZTXT[0] != TEXT[0];
    assert ParsePayload(ZTXT, |payload|, payload + tail, inflate) == ParseZtxt(payload + tail, |payload|, inflate);
    ChunkRoundTrip(|payload|, ZTXT, payload, crc, rest, inflate, Text(TextData(keyword, inflate(data).value)));
  }

  /** The tEXt keyword search is not bounded by the chunk. A payload with
      no NUL still decodes when the first CRC byte is 0: the keyword is the
      whole payload and the text is empty. */
  lemma TextKeywordEndsInCrc(keyword: seq<Byte>, crc: U32, rest: seq<Byte>, inflate: Inflate)
    requires 0 !in keyword && |keyword| < 0x1_0000_0000 && EncodeBe32(crc)[0] == 0
    ensures ParseChunk(EncodeChunk(|keyword|, TEXT, keyword, crc) + rest, inflate)
      == Done(Chunk(TEXT, Text(TextData(keyword, [])), crc), rest)
  {
    TextPayloadEndsInCrc(keyword, EncodeBe32(crc) + rest, inflate);
    Regroup(keyword, EncodeBe32(crc), rest);
    ChunkRoundTrip(|keyword|, TEXT, keyword, crc, rest, inflate, Text(TextData(keyword, [])));
  }

  /** The same through the type dispatch, the NUL being the first byte after
      the declared payload. */
  lemma TextPayloadEndsInCrc(keyword: seq<Byte>, t: seq<Byte>, inflate: Inflate)
    requires 0 !in keyword && |keyword| < 0x1_0000_0000 && t != [] && t[0] == 0
    ensures ParsePayload(TEXT, |keyword|, keyword + t, inflate) == Done(Text(TextData(keyword, [])), t)
  {
    TextKeywordUpToNul(keyword, t);
    TextDispatch(|keyword|, keyword + t, inflate);
  }

  /** The tEXt decoder on a NUL-free keyword followed by input that starts
      with a NUL, with a declared length of just the keyword: the text is
      empty and the NUL is left unread. */
  lemma TextKeywordUpToNul(keyword: seq<Byte>, t: seq<Byte>)
    requires 0 !in keyword && |keyword| < 0x1_0000_0000 && t != [] && t[0] == 0
    ensures ParseText(keyword + t, |keyword|) == Done(Text(TextData(keyword, [])), t)
  {
    var s := keyword + t;
    assert s[|keyword|] == 0;
    assert IsFirstNul(s, |keyword|);
    TextArm(s, |keyword|, |keyword|);
    assert s[..|keyword|] == keyword && s[|keyword|..|keyword|] == [] && s[|keyword|..] == t;
  }

  /** The same chunk with no NUL in its CRC or after it does not decode: for
      tEXt the stored CRC can decide whether the chunk is read. */
  lemma TextKeywordPastCrc(keyword: seq<Byte>, crc: U32, rest: seq<Byte>, inflate: Inflate)
    requires 0 !in keyword && |keyword| < 0x1_0000_0000 && 0 !in EncodeBe32(crc) && 0 !in rest
    ensures ParseChunk(EncodeChunk(|keyword|, TEXT, keyword, crc) + rest, inflate) == Fail(NoNul)
  {
    var s := keyword + EncodeBe32(crc) + rest;
    assert 0 !in s;
    TextDispatch(|keyword|, s, inflate);
    ChunkFailsEncoded(|keyword|, TEXT, keyword, crc, rest, inflate, NoNul);
  }

  /** For a tEXt chunk whose payload is a NUL-free keyword of exactly the
      declared length, the first CRC byte alone decides the outcome: the
      chunk decodes when that byte is 0, and otherwise the keyword search
      runs past the payload and fails, by underflow or for want of a NUL. */
  lemma TextKeywordCrcDecides(keyword: seq<Byte>, crc: U32, rest: seq<Byte>, inflate: Inflate)
    requires 0 !in keyword && |keyword| < 0x1_0000_0000
    ensures ParseChunk(EncodeChunk(|keyword|, TEXT, keyword, crc) + rest, inflate).Done?
      <==> EncodeBe32(crc)[0] == 0
    ensures EncodeBe32(crc)[0] != 0 ==>
      ParseChunk(EncodeChunk(|keyword|, TEXT, keyword, crc) + rest, inflate) in {Fail(LengthUnderflow), Fail(NoNul)}
  {
    if EncodeBe32(crc)[0] == 0 {
      TextKeywordEndsInCrc(keyword, crc, rest, inflate);
    } else {
      var t := EncodeBe32(crc) + rest;
      Regroup(keyword, EncodeBe32(crc), rest);
      var e := TextPayloadPastPayload(keyword, t, inflate);
      ChunkFailsEncoded(|keyword|, TEXT, keyword, crc, rest, inflate, e);
    }
  }

  /** The tEXt decoder on a NUL-free keyword of the declared length followed
      by a non-NUL byte: the first NUL, if any, lies beyond the declared
      length, so the decode fails. */
  lemma TextPayloadPastPayload(keyword: seq<Byte>, t: seq<Byte>, inflate: Inflate) returns (e: ParseError)
    requires 0 !in keyword && |keyword| < 0x1_0000_0000 && t != [] && t[0] != 0
    ensures e in {LengthUnderflow, NoNul}
    ensures ParsePayload(TEXT, |keyword|, keyword + t, inflate) == Fail(e)
  {
    var s := keyword + t;
    TextDispatch(|keyword|, s, inflate);
    if 0 in s {
      var k := |TakeUntilNul(s).value|;
      assert IsFirstNul(s, k);
      TextArm(s, |keyword|, k);
      e := LengthUnderflow;
    } else {
      e := NoNul;
    }
  }
}
