/** The nom primitives the PNG parser is built from, as functions from the
    remaining input to an `Outcome`: `take!`, `peek!`, `tag!`, `take_until!`,
    `be_u32`, `be_u8` and the repetition of `many1!`. Each one either consumes a prefix of its input and
    hands back the suffix, or fails and consumes nothing. */
module Combinators {
  import opened Wire

  /** `take!(n)`: the next `n` bytes. */
  function Take(s: seq<Byte>, n: nat): (r: Outcome<seq<Byte>>)
    ensures r.Done? <==> n <= |s|
    ensures r.Done? ==> |r.value| == n && r.value + r.rest == s
    ensures r.Fail? ==> r.error == Truncated
  {
    if n <= |s| then Done(s[..n], s[n..]) else Fail(Truncated)
  }

  /** `peek!(p)`: what `p` reads from `s`, with the cursor left where it
      was, so that the next parser reads the same bytes again. */
  function Peek<T>(p: Parser<T>, s: seq<Byte>): (r: Outcome<T>)
    ensures r.Done? <==> p(s).Done?
    ensures r.Done? ==> r.value == p(s).value && r.rest == s
    ensures r.Fail? ==> r.error == p(s).error
  {
    match p(s)
    case Done(v, _) => Done(v, s)
    case Fail(e) => Fail(e)
  }

  /** `tag!(lit)`: succeeds exactly when the input starts with `lit`. Bytes
      are compared as far as both go: a difference is a mismatch, and an input
      that is a proper prefix of `lit` is truncated. */
  function Tag(s: seq<Byte>, lit: seq<Byte>): (r: Outcome<seq<Byte>>)
    ensures r.Done? <==> |lit| <= |s| && s[..|lit|] == lit
    ensures r.Done? ==> r.value == lit && r.rest == s[|lit|..]
    ensures r.Fail? && r.error == Truncated <==> |s| < |lit| && s == lit[..|s|]
    ensures r.Fail? ==> r.error in {Truncated, TagMismatch}
  {
    if |s| < |lit| then
      if s == lit[..|s|] then Fail(Truncated) else Fail(TagMismatch)
    else if s[..|lit|] == lit then Done(lit, s[|lit|..])
    else Fail(TagMismatch)
  }

  /** `k` is the position of the first NUL byte of `s`. */
  predicate IsFirstNul(s: seq<Byte>, k: nat) {
    k < |s| && s[k] == 0 && forall j :: 0 <= j < k ==> s[j] != 0
  }

  /** `take_until!("\0")`: every byte before the first NUL of the remaining
      input; the NUL itself is not consumed. Fails when the input holds no NUL
      at all. The search is not bounded by any declared length. */
  function TakeUntilNul(s: seq<Byte>): (r: Outcome<seq<Byte>>)
    ensures r.Done? <==> 0 in s
    ensures r.Done? ==> IsFirstNul(s, |r.value|) && r.value + r.rest == s
    ensures r.Fail? ==> r.error == NoNul
  {
    ScanForNul(s, 0)
  }

  /** The scan behind `TakeUntilNul`, from position `i` on, every byte before
      `i` being known not to be NUL. */
  function ScanForNul(s: seq<Byte>, i: nat): (r: Outcome<seq<Byte>>)
    requires i <= |s| && forall j :: 0 <= j < i ==> s[j] != 0
    ensures r.Done? <==> 0 in s
    ensures r.Done? ==> IsFirstNul(s, |r.value|) && r.value + r.rest == s
    ensures r.Fail? ==> r.error == NoNul
    decreases |s| - i
  {
    if i == |s| then Fail(NoNul)
    else if s[i] == 0 then Done(s[..i], s[i..])
    else ScanForNul(s, i + 1)
  }

  /** `be_u32`: the next four bytes as a big-endian unsigned integer. */
  function BeU32(s: seq<Byte>): (r: Outcome<U32>)
    ensures r.Done? <==> 4 <= |s|
    ensures r.Done? ==> r.value == DecodeBe32(s[..4]) && EncodeBe32(r.value) + r.rest == s
    ensures r.Fail? ==> r.error == Truncated
  {
    match Take(s, 4)
    case Fail(e) => Fail(e)
    case Done(b, rest) =>
      EncodeDecodeBe32(b);
      Done(DecodeBe32(b), rest)
  }

  /** `be_u8`: the next byte. */
  function BeU8(s: seq<Byte>): (r: Outcome<Byte>)
    ensures r.Done? <==> 1 <= |s|
    ensures r.Done? ==> [r.value] + r.rest == s
    ensures r.Fail? ==> r.error == Truncated
  {
    match Take(s, 1)
    case Fail(e) => Fail(e)
    case Done(b, rest) => Done(b[0], rest)
  }

  /** A sequence has at most one first NUL. */
  lemma FirstNulUnique(s: seq<Byte>, j: nat)
    requires IsFirstNul(s, j)
    ensures forall k: nat :: IsFirstNul(s, k) ==> k == j
  {
  }

  /** `take!` at position `i` of a larger input, in absolute positions. */
  lemma TakeAt(s: seq<Byte>, i: nat, n: nat)
    requires i <= |s|
    ensures Take(s[i..], n) ==
      if i + n <= |s| then Done(s[i..i + n], s[i + n..]) else Fail(Truncated)
  {
    if i + n <= |s| {
      assert s[i..][..n] == s[i..i + n];
      assert s[i..][n..] == s[i + n..];
    }
  }

  /** `be_u32` at position `i` of a larger input, in absolute positions. */
  lemma BeU32At(s: seq<Byte>, i: nat)
    requires i <= |s|
    ensures BeU32(s[i..]) ==
      if i + 4 <= |s| then Done(DecodeBe32(s[i..i + 4]), s[i + 4..]) else Fail(Truncated)
  {
    TakeAt(s, i, 4);
  }

  /** `take_until!` stops at the first NUL: the keyword it returns is every
      byte before that NUL and the input it leaves starts with the NUL. */
  lemma TakeUntilNulAt(s: seq<Byte>, k: nat)
    requires IsFirstNul(s, k)
    ensures TakeUntilNul(s) == Done(s[..k], s[k..])
  {
    var r := TakeUntilNul(s);
    FirstNulUnique(s, |r.value|);
    assert r.value == s[..k];
    assert r.rest == s[k..];
  }

  /** `take!(|a|)` returns exactly the bytes in front of it. */
  lemma TakePrefix(a: seq<Byte>, t: seq<Byte>)
    ensures Take(a + t, |a|) == Done(a, t)
  {
    assert (a + t)[..|a|] == a;
    assert (a + t)[|a|..] == t;
  }

  /** `be_u32` reads back the value whose big-endian encoding is in front. */
  lemma BeU32Encoded(x: U32, t: seq<Byte>)
    ensures BeU32(EncodeBe32(x) + t) == Done(x, t)
  {
    TakePrefix(EncodeBe32(x), t);
    DecodeEncodeBe32(x);
  }

  /** Concatenation regroups freely; kept apart so that proofs about parsers
      do not have to rediscover it. */
  lemma Regroup(a: seq<Byte>, b: seq<Byte>, c: seq<Byte>)
    ensures a + b + c == a + (b + c)
  {
  }

  /** A parser as a value, the way nom's combinators take their arguments. */
  type Parser<T> = seq<Byte> -> Outcome<T>

  /** Whenever `p` succeeds it consumes at least `k` bytes and leaves a
      suffix of its input. */
  ghost predicate ConsumesAtLeast<T>(p: Parser<T>, k: nat) {
    forall t :: p(t).Done? ==> |p(t).rest| + k <= |t| && p(t).rest == t[|t| - |p(t).rest|..]
  }

  /** The repetition inside `many1!(p)` after its first item: `p` is applied
      until it fails, and the input from that point is left over. A failure
      that aborts is not caught and ends the parse. */
  function Many<T>(p: Parser<T>, s: seq<Byte>): (r: Outcome<seq<T>>)
    requires ConsumesAtLeast(p, 1)
    ensures r.Done? ==> |r.rest| <= |s|
    ensures r.Fail? ==> Aborts(r.error)
    decreases |s|
  {
    match p(s)
    case Fail(e) => if Aborts(e) then Fail(e) else Done([], s)
    case Done(v, s1) =>
      match Many(p, s1)
      case Fail(e) => Fail(e)
      case Done(vs, s2) => Done([v] + vs, s2)
  }

  /** `many1!(p)`: the first item must parse, then `Many`. */
  function Many1<T>(p: Parser<T>, s: seq<Byte>): (r: Outcome<seq<T>>)
    requires ConsumesAtLeast(p, 1)
    ensures r.Done? ==> 1 <= |r.value| && |r.rest| < |s|
  {
    match p(s)
    case Fail(e) => Fail(e)
    case Done(v, s1) =>
      match Many(p, s1)
      case Fail(e) => Fail(e)
      case Done(vs, s2) => Done([v] + vs, s2)
  }
}
