/** What the repetition of `many1!` delivers, for any parser that consumes
    input: the items read one after another in input order, the point where
    reading stops, and the failures that end the parse instead. */
module ManyProperties {
  import opened Wire
  import opened Combinators

  /** Applying `p` `|vs|` times, each time to what the previous application
      left, yields exactly `vs`, in order, and leaves `rest`. */
  predicate Run<T(==)>(p: Parser<T>, s: seq<Byte>, vs: seq<T>, rest: seq<Byte>)
    decreases |vs|
  {
    if vs == [] then rest == s
    else p(s).Done? && p(s).value == vs[0] && Run(p, p(s).rest, vs[1..], rest)
  }

  /** The repetition ends quietly at `s`: `p` fails there, and not with an
      error that ends the whole parse. */
  predicate Stops<T>(p: Parser<T>, s: seq<Byte>) {
    p(s).Fail? && !Aborts(p(s).error)
  }

  /** Prepending one item is how the repetition builds its list. */
  lemma ConsSplit<T>(v: T, w: seq<T>, vs: seq<T>)
    requires vs != []
    ensures [v] + w == vs <==> v == vs[0] && w == vs[1..]
  {
    assert ([v] + w)[0] == v && ([v] + w)[1..] == w;
    assert [vs[0]] + vs[1..] == vs;
  }

  /** A run of items that each take at least `k` bytes takes at least `k`
      bytes per item, and what is left over is a suffix of the input. */
  lemma {:induction false} RunConsumes<T>(p: Parser<T>, k: nat, s: seq<Byte>, vs: seq<T>, rest: seq<Byte>)
    requires ConsumesAtLeast(p, k) && Run(p, s, vs, rest)
    ensures |rest| + k * |vs| <= |s|
    ensures rest == s[|s| - |rest|..]
    decreases |vs|
  {
    if vs != [] {
      var s1 := p(s).rest;
      RunConsumes(p, k, s1, vs[1..], rest);
      assert k * |vs| == k * |vs[1..]| + k;
      assert s1[|s1| - |rest|..] == s[|s| - |rest|..];
    }
  }

  /** The repetition succeeds with `vs`, leaving `rest`, exactly when `vs`
      are the items read in order from `s`, reading stops at `rest`, and no
      item on the way aborted. */
  lemma {:induction false} ManyRun<T>(p: Parser<T>, s: seq<Byte>, vs: seq<T>, rest: seq<Byte>)
    requires ConsumesAtLeast(p, 1)
    ensures Many(p, s) == Done(vs, rest) <==> Run(p, s, vs, rest) && Stops(p, rest)
    decreases |s|
  {
    match p(s)
    case Fail(e) =>
      assert vs != [] ==> !Run(p, s, vs, rest);
    case Done(v, s1) =>
      assert !Stops(p, s);
      if vs != [] {
        ManyRun(p, s1, vs[1..], rest);
        var m := Many(p, s1);
        if m.Done? {
          ConsSplit(v, m.value, vs);
        }
      }
  }

  /** The repetition fails with `e` exactly when `e` aborts and, after some
      items read in order, `p` fails with `e`. */
  lemma {:induction false} ManyAbort<T>(p: Parser<T>, s: seq<Byte>, e: ParseError)
    requires ConsumesAtLeast(p, 1)
    ensures Many(p, s) == Fail(e)
      <==> Aborts(e) && exists vs, rest :: Run(p, s, vs, rest) && p(rest) == Fail(e)
    decreases |s|
  {
    if p(s).Fail? {
      if Many(p, s) == Fail(e) {
        assert p(s) == Fail(e) && Run(p, s, [], s);
        assert exists vs', rest' :: Run(p, s, vs', rest') && p(rest') == Fail(e);
      }
      forall vs, rest | Run(p, s, vs, rest) && p(rest) == Fail(e) && Aborts(e)
        ensures Many(p, s) == Fail(e)
      {
        assert vs == [];
      }
    } else {
      var v, s1 := p(s).value, p(s).rest;
      ManyAbort(p, s1, e);
      if Many(p, s) == Fail(e) {
        assert Many(p, s1) == Fail(e);
        var vs, rest :| Run(p, s1, vs, rest) && p(rest) == Fail(e);
        assert ([v] + vs)[1..] == vs;
        assert Run(p, s, [v] + vs, rest);
        assert exists vs', rest' :: Run(p, s, vs', rest') && p(rest') == Fail(e);
      }
      forall vs, rest | Run(p, s, vs, rest) && p(rest) == Fail(e) && Aborts(e)
        ensures Many(p, s) == Fail(e)
      {
        assert vs != [];
        assert Run(p, s1, vs[1..], rest);
        assert exists vs', rest' :: Run(p, s1, vs', rest') && p(rest') == Fail(e);
        assert Many(p, s1) == Fail(e);
      }
    }
  }

  /** `many1!(p)` succeeds with `vs`, leaving `rest`, exactly when `vs` is
      not empty, `vs` are the items read in order from `s`, and reading stops
      at `rest`. */
  lemma Many1Run<T>(p: Parser<T>, s: seq<Byte>, vs: seq<T>, rest: seq<Byte>)
    requires ConsumesAtLeast(p, 1)
    ensures Many1(p, s) == Done(vs, rest)
      <==> (vs != [] && Run(p, s, vs, rest) && Stops(p, rest))
  {
    match p(s)
    case Fail(_) =>
      assert vs != [] ==> !Run(p, s, vs, rest);
    case Done(v, s1) =>
      if vs != [] {
        ManyRun(p, s1, vs[1..], rest);
        var m := Many(p, s1);
        if m.Done? {
          ConsSplit(v, m.value, vs);
        }
      }
  }

  /** `many1!(p)` fails with `e` exactly when the first item fails with `e`,
      or `e` aborts and, after some items read in order, `p` fails with `e`:
      a later item that merely does not parse ends the list instead. */
  lemma Many1Fails<T>(p: Parser<T>, s: seq<Byte>, e: ParseError)
    requires ConsumesAtLeast(p, 1)
    ensures Many1(p, s) == Fail(e)
      <==> (p(s) == Fail(e)
        || (Aborts(e) && exists vs, rest :: Run(p, s, vs, rest) && p(rest) == Fail(e)))
  {
    if p(s).Fail? {
      forall vs, rest | Run(p, s, vs, rest) && p(rest) == Fail(e)
        ensures p(s) == Fail(e)
      {
        assert vs == [];
      }
    } else {
      var v, s1 := p(s).value, p(s).rest;
      ManyAbort(p, s1, e);
      if Many(p, s1) == Fail(e) {
        var vs, rest :| Run(p, s1, vs, rest) && p(rest) == Fail(e);
        assert ([v] + vs)[1..] == vs;
        assert Run(p, s, [v] + vs, rest);
        assert exists vs', rest' :: Run(p, s, vs', rest') && p(rest') == Fail(e);
      }
      forall vs, rest | Run(p, s, vs, rest) && p(rest) == Fail(e) && Aborts(e)
        ensures Many(p, s1) == Fail(e)
      {
        assert vs != [];
        assert Run(p, s1, vs[1..], rest);
        assert exists vs', rest' :: Run(p, s1, vs', rest') && p(rest') == Fail(e);
      }
      assert Many(p, s1) == Fail(e) ==> Many1(p, s) == Fail(e);
    }
  }

  /** Two items read back to back form a run. */
  lemma RunOfTwo<T>(p: Parser<T>, s: seq<Byte>, v1: T, s1: seq<Byte>, v2: T, s2: seq<Byte>)
    requires p(s) == Done(v1, s1) && p(s1) == Done(v2, s2)
    ensures Run(p, s, [v1, v2], s2)
  {
    assert [v1, v2][1..] == [v2] && [v2][1..] == [];
  }
}
