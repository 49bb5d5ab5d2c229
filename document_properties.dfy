/** What `png` and its `many1!(chunk)` loop deliver on a whole file: the
    chunks read one after another in file order, the point where reading
    stops, and the failures that end the parse instead. */
module DocumentProperties {
  import opened Wire
  import opened Combinators
  import opened PngFormat
  import opened ManyProperties
  import opened ChunkProperties

  /** `png` succeeds with chunks `cs`, leaving `rest`, exactly when the file
      starts with the signature, at least one chunk follows, `cs` are the
      chunks read in order after the signature, and reading stops at `rest`
      at a chunk that does not parse, for a reason that does not abort. */
  lemma PngSucceeds(s: seq<Byte>, cs: seq<Chunk>, rest: seq<Byte>, inflate: Inflate)
    ensures ParsePng(s, inflate) == Done(PNG(cs), rest)
      <==> (8 <= |s| && s[..8] == Signature && cs != []
        && Run(ChunkParser(inflate), s[8..], cs, rest) && Stops(ChunkParser(inflate), rest))
  {
    if 8 <= |s| && s[..8] == Signature {
      Many1Run(ChunkParser(inflate), s[8..], cs, rest);
    }
  }

  /** Once the signature matches, `png` fails with `e` exactly when the first
      chunk fails with `e`, or `e` aborts and some chunk after the first fails
      with it: a later chunk that merely does not parse ends the list
      instead. */
  lemma PngFails(s: seq<Byte>, e: ParseError, inflate: Inflate)
    requires 8 <= |s| && s[..8] == Signature
    ensures ParsePng(s, inflate) == Fail(e)
      <==> (ParseChunk(s[8..], inflate) == Fail(e)
        || (Aborts(e) && exists cs, rest :: Run(ChunkParser(inflate), s[8..], cs, rest)
                                       && ParseChunk(rest, inflate) == Fail(e)))
  {
    var p := ChunkParser(inflate);
    Many1Fails(p, s[8..], e);
    if exists cs, rest :: Run(p, s[8..], cs, rest) && p(rest) == Fail(e) {
      var cs, rest :| Run(p, s[8..], cs, rest) && p(rest) == Fail(e);
      assert ParseChunk(rest, inflate) == Fail(e);
    }
    if exists cs, rest :: Run(p, s[8..], cs, rest) && ParseChunk(rest, inflate) == Fail(e) {
      var cs, rest :| Run(p, s[8..], cs, rest) && ParseChunk(rest, inflate) == Fail(e);
      assert p(rest) == Fail(e);
    }
  }

  /** An IHDR chunk followed by a tEXt chunk, nothing after: both chunks
      are read, in order, with their CRCs as written, and the text carries the
      separator NUL in front. */
  lemma HeaderThenTextRun(h: ImageHeader, keyword: seq<Byte>, text: seq<Byte>, crc1: U32, crc2: U32, inflate: Inflate)
    requires 0 !in keyword && |keyword| + 1 + |text| < 0x1_0000_0000
    ensures
      var payload := keyword + [0] + text;
      Run(ChunkParser(inflate),
          EncodeChunk(13, IHDR, EncodeIhdr(h), crc1) + EncodeChunk(|payload|, TEXT, payload, crc2),
          [Chunk(IHDR, Header(h), crc1), Chunk(TEXT, Text(TextData(keyword, [0] + text)), crc2)], [])
  {
    var payload := keyword + [0] + text;
    var first := EncodeChunk(13, IHDR, EncodeIhdr(h), crc1);
    var second := EncodeChunk(|payload|, TEXT, payload, crc2);
    var c1 := Chunk(IHDR, Header(h), crc1);
    var c2 := Chunk(TEXT, Text(TextData(keyword, [0] + text)), crc2);
    var p := ChunkParser(inflate);
    IhdrRoundTrip(h, 13, crc1, second, inflate);
    TextRoundTrip(keyword, text, crc2, [], inflate);
    assert second + [] == second;
    RunOfTwo(p, first + second, c1, second, c2, []);
  }

  /** The whole file: the signature, then the two chunks of
      `HeaderThenTextRun`; `png` returns both. */
  lemma HeaderThenText(h: ImageHeader, keyword: seq<Byte>, text: seq<Byte>, crc1: U32, crc2: U32, inflate: Inflate)
    requires 0 !in keyword && |keyword| + 1 + |text| < 0x1_0000_0000
    ensures
      var payload := keyword + [0] + text;
      var file := Signature + EncodeChunk(13, IHDR, EncodeIhdr(h), crc1)
        + EncodeChunk(|payload|, TEXT, payload, crc2);
      ParsePng(file, inflate) == Done(PNG([
        Chunk(IHDR, Header(h), crc1),
        Chunk(TEXT, Text(TextData(keyword, [0] + text)), crc2)]), [])
  {
    var payload := keyword + [0] + text;
    var body := EncodeChunk(13, IHDR, EncodeIhdr(h), crc1) + EncodeChunk(|payload|, TEXT, payload, crc2);
    var file := Signature + EncodeChunk(13, IHDR, EncodeIhdr(h), crc1)
      + EncodeChunk(|payload|, TEXT, payload, crc2);
    Regroup(Signature, EncodeChunk(13, IHDR, EncodeIhdr(h), crc1), EncodeChunk(|payload|, TEXT, payload, crc2));
    TakePrefix(Signature, body);
    HeaderThenTextRun(h, keyword, text, crc1, crc2, inflate);
    PngOfRun(file, [Chunk(IHDR, Header(h), crc1), Chunk(TEXT, Text(TextData(keyword, [0] + text)), crc2)], inflate);
  }

  /** A file whose chunks run to its very end is read completely. */
  lemma PngOfRun(s: seq<Byte>, cs: seq<Chunk>, inflate: Inflate)
    requires 8 <= |s| && s[..8] == Signature && cs != [] && Run(ChunkParser(inflate), s[8..], cs, [])
    ensures ParsePng(s, inflate) == Done(PNG(cs), [])
  {
    assert Stops(ChunkParser(inflate), []) by {
      assert ParseChunk([], inflate) == Fail(Truncated);
    }
    PngSucceeds(s, cs, [], inflate);
  }
}
