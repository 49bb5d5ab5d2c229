/** Byte-level vocabulary shared by the parsers: bytes, 32-bit unsigned
    integers, the big-endian encoding of the latter, and the outcome type every
    parser returns (a value with the input left over, or an error). */
module Wire {

  /** One octet of input, as the `u8` the source reads. */
  type Byte = x: int | 0 <= x < 256

  /** A `u32`, as the source stores lengths, widths, heights and CRCs. */
  type U32 = x: int | 0 <= x < 0x1_0000_0000

  /** Value of four bytes read most significant first (network byte order). */
  function DecodeBe32(b: seq<Byte>): (x: U32)
    requires |b| == 4
  {
    ((b[0] as int * 256 + b[1]) * 256 + b[2]) * 256 + b[3]
  }

  /** The four bytes that `DecodeBe32` reads back as `x`. */
  function EncodeBe32(x: U32): (b: seq<Byte>)
    ensures |b| == 4
  {
    [x / 0x100_0000, (x / 0x1_0000) % 256, (x / 256) % 256, x % 256]
  }

  /** Decoding undoes encoding. */
  lemma DecodeEncodeBe32(x: U32)
    ensures DecodeBe32(EncodeBe32(x)) == x
  {
    var b := EncodeBe32(x);
    assert (x / 256) == (x / 0x1_0000) * 256 + (x / 256) % 256;
    assert (x / 0x1_0000) == (x / 0x100_0000) * 256 + (x / 0x1_0000) % 256;
  }

  /** Encoding undoes decoding, so every 4-byte sequence is the encoding of
      exactly one `U32`. */
  lemma EncodeDecodeBe32(b: seq<Byte>)
    requires |b| == 4
    ensures EncodeBe32(DecodeBe32(b)) == b
  {
    var hi: int := (b[0] as int * 256 + b[1]) * 256 + b[2];
    var x := DecodeBe32(b);
    assert x / 256 == hi && x % 256 == b[3];
    var mid: int := b[0] as int * 256 + b[1];
    assert hi / 256 == mid && hi % 256 == b[2];
    assert x / 0x1_0000 == mid by { assert x / 0x1_0000 == (x / 256) / 256; }
    assert x / 0x100_0000 == b[0] by { assert x / 0x100_0000 == (x / 0x1_0000) / 256; }
  }

  /** The standard optional value; `inflate` reports failure with `None`. */
  datatype Option<+T> = None | Some(value: T)

  /** Why a parser stopped. `Truncated` and `TagMismatch` are what nom's
      `take!`, `tag!` and `be_u32` report; `NoNul` is `take_until!` finding no
      terminator; `LengthUnderflow` is a `usize` subtraction that would go below
      zero; `InflateFailed` is `.unwrap()` on a failed decompression. */
  datatype ParseError = Truncated | TagMismatch | NoNul | LengthUnderflow | InflateFailed

  /** The failures that are panics rather than parse errors: the `usize`
      subtraction going below zero (in a release build it wraps instead, and
      the `take!` of the wrapped count reports `Incomplete`, which propagates
      the same way) and `.unwrap()` on a failed decompression. No combinator
      recovers from them, so they end the whole parse. */
  predicate Aborts(e: ParseError) {
    e == LengthUnderflow || e == InflateFailed
  }

  /** The result of running a parser on the remaining input: the value and the
      input that follows it, or the reason it failed. */
  datatype Outcome<+T> = Done(value: T, rest: seq<Byte>) | Fail(error: ParseError)
}
