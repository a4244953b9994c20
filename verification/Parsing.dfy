/**
 Prefix parsers. A parser reads a value off the front of a byte sequence and
 hands back what follows it. A printer e and a parser p belong together when
 they obey two laws, on the values the layout can carry:
   Prints: p reads e(x) back as x and leaves any tail alone;
   Reads:  whatever p accepts begins with the printing of its result.
 Round trips, canonicity, locality and prefix-freedom of the wire formats are
 consequences of these two laws.
 */
module Parsing {
  import opened Bytes

  datatype Parse<+T> = Fail | Done(value: T, rest: seq<Byte>) {
    predicate IsFailure() {
      Fail?
    }
    function PropagateFailure<U>(): Parse<U>
      requires Fail?
    {
      Fail
    }
    function Extract(): (T, seq<Byte>)
      requires Done?
    {
      (value, rest)
    }
  }

  function ParseBytes(n: nat, s: seq<Byte>): Parse<seq<Byte>> {
    if n > |s| then Fail else Done(s[..n], s[n..])
  }

  function ParseU8(s: seq<Byte>): Parse<Byte> {
    if s == [] then Fail else Done(s[0], s[1..])
  }

  function ParseU16(s: seq<Byte>): (r: Parse<nat>)
    ensures r.Done? ==> r.value < TWO_16
  {
    if |s| < 2 then Fail else
    Pow256Values();
    Done(FromLittleEndian(s[..2]), s[2..])
  }

  function ParseU64(s: seq<Byte>): Parse<U64> {
    if |s| < 8 then Fail else
    Pow256Values();
    Done(FromLittleEndian(s[..8]), s[8..])
  }

  function ParseKey(s: seq<Byte>): Parse<Key> {
    if |s| < 32 then Fail else Done(s[..32], s[32..])
  }

  function ParseSignature(s: seq<Byte>): Parse<Signature> {
    if |s| < 64 then Fail else Done(s[..64], s[64..])
  }

  /** A byte string behind its u16 length; the printed length keeps 16 bits only. */
  function EncodeBlob(v: seq<Byte>): seq<Byte> {
    LittleEndian(2, |v|) + v
  }

  function ParseBlob(s: seq<Byte>): Parse<seq<Byte>> {
    var (n, s1) :- ParseU16(s);
    ParseBytes(n, s1)
  }

  /** n values in a row. */
  function Repeat<T>(p: seq<Byte> -> Parse<T>, n: nat, s: seq<Byte>): Parse<seq<T>> {
    if n == 0 then Done([], s) else
    var (x, s1) :- p(s);
    var (xs, s2) :- Repeat(p, n - 1, s1);
    Done([x] + xs, s2)
  }

  function Concat<T>(e: T -> seq<Byte>, xs: seq<T>): seq<Byte> {
    if xs == [] then [] else e(xs[0]) + Concat(e, xs[1..])
  }

  function EncodeCounted<T>(e: T -> seq<Byte>, xs: seq<T>): seq<Byte> {
    LittleEndian(2, |xs|) + Concat(e, xs)
  }

  /**
   A u16 count and that many values. With guarded, the count is refused at once
   when minElem bytes for each value cannot fit in what remains.
   */
  function ParseCounted<T>(guarded: bool, minElem: nat, p: seq<Byte> -> Parse<T>, s: seq<Byte>): Parse<seq<T>> {
    var (n, s1) :- ParseU16(s);
    if guarded && (minElem == 0 || n > |s1| / minElem) then Fail else Repeat(p, n, s1)
  }

  ghost predicate Prints<T(!new)>(e: T -> seq<Byte>, p: seq<Byte> -> Parse<T>, fits: T -> bool) {
    forall x, t {:trigger p(e(x) + t)} :: fits(x) ==> p(e(x) + t) == Done(x, t)
  }

  ghost predicate Reads<T(!new)>(e: T -> seq<Byte>, p: seq<Byte> -> Parse<T>, fits: T -> bool) {
    forall s :: p(s).Done? ==> fits(p(s).value) && s == e(p(s).value) + p(s).rest
  }

  lemma BytesLaws(v: seq<Byte>, t: seq<Byte>)
    ensures ParseBytes(|v|, v + t) == Done(v, t)
  {
  }

  lemma U16Prints(n: nat, t: seq<Byte>)
    requires n < TWO_16
    ensures ParseU16(LittleEndian(2, n) + t) == Done(n, t)
  {
    Pow256Values();
    LittleEndianRoundTrip(2, n);
    BytesLaws(LittleEndian(2, n), t);
  }

  lemma U16Reads(s: seq<Byte>)
    ensures ParseU16(s).Done? ==> s == LittleEndian(2, ParseU16(s).value) + ParseU16(s).rest
  {
    if |s| >= 2 {
      LittleEndianCanonical(s[..2]);
    }
  }

  lemma BlobPrints(v: seq<Byte>, t: seq<Byte>)
    requires |v| < TWO_16
    ensures ParseBlob(EncodeBlob(v) + t) == Done(v, t)
  {
    U16Prints(|v|, v + t);
    assert EncodeBlob(v) + t == LittleEndian(2, |v|) + (v + t);
    BytesLaws(v, t);
  }

  lemma BlobReads(s: seq<Byte>)
    ensures ParseBlob(s).Done? ==>
              |ParseBlob(s).value| < TWO_16 && s == EncodeBlob(ParseBlob(s).value) + ParseBlob(s).rest
  {
    U16Reads(s);
    if ParseBlob(s).Done? {
      var s1 := ParseU16(s).rest;
      assert s1 == ParseBlob(s).value + ParseBlob(s).rest;
    }
  }

  /** Appending one value, as the encoder's loops do. */
  lemma {:induction false} ConcatSnoc<T>(e: T -> seq<Byte>, xs: seq<T>, x: T)
    ensures Concat(e, xs + [x]) == Concat(e, xs) + e(x)
  {
    if xs == [] {
      assert xs + [x] == [x];
      assert Concat(e, [x]) == e(x) + Concat(e, []);
    } else {
      ConcatSnoc(e, xs[1..], x);
      assert (xs + [x])[1..] == xs[1..] + [x];
    }
  }

  lemma {:induction false} ConcatLength<T>(e: T -> seq<Byte>, m: nat, xs: seq<T>)
    requires forall x <- xs :: |e(x)| >= m
    ensures |Concat(e, xs)| >= |xs| * m
  {
    if xs != [] {
      var k := |xs| - 1;
      ConcatLength(e, m, xs[1..]);
      assert (k + 1) * m == k * m + m;
      assert |e(xs[0])| >= m;
    }
  }

  /** Each value's printing is a part of the whole. */
  lemma {:induction false} ConcatBounds<T>(e: T -> seq<Byte>, xs: seq<T>, x: T)
    requires x in xs
    ensures |e(x)| <= |Concat(e, xs)|
  {
    if x != xs[0] {
      ConcatBounds(e, xs[1..], x);
    }
  }

  lemma {:induction false} RepeatPrints<T(!new)>(e: T -> seq<Byte>, p: seq<Byte> -> Parse<T>, fits: T -> bool,
                                                 xs: seq<T>, t: seq<Byte>)
    requires Prints(e, p, fits)
    requires forall x <- xs :: fits(x)
    ensures Repeat(p, |xs|, Concat(e, xs) + t) == Done(xs, t)
  {
    if xs == [] {
      assert Concat(e, xs) + t == t;
    } else {
      RepeatPrints(e, p, fits, xs[1..], t);
      assert Concat(e, xs) + t == e(xs[0]) + (Concat(e, xs[1..]) + t);
      assert [xs[0]] + xs[1..] == xs;
    }
  }

  lemma {:induction false} RepeatReads<T(!new)>(e: T -> seq<Byte>, p: seq<Byte> -> Parse<T>, fits: T -> bool,
                                                n: nat, s: seq<Byte>)
    requires Reads(e, p, fits)
    ensures var r := Repeat(p, n, s);
            r.Done? ==> |r.value| == n && (forall x <- r.value :: fits(x)) && s == Concat(e, r.value) + r.rest
  {
    var r := Repeat(p, n, s);
    if n > 0 && r.Done? {
      var s1 := p(s).rest;
      RepeatReads(e, p, fits, n - 1, s1);
      var r1 := Repeat(p, n - 1, s1);
      assert r.value == [p(s).value] + r1.value;
      assert r.value[1..] == r1.value;
      assert s == e(p(s).value) + (Concat(e, r1.value) + r.rest);
    }
  }

  lemma CountedPrints<T(!new)>(e: T -> seq<Byte>, p: seq<Byte> -> Parse<T>, fits: T -> bool, m: nat,
                               xs: seq<T>, t: seq<Byte>)
    requires Prints(e, p, fits)
    requires |xs| < TWO_16 && forall x <- xs :: fits(x)
    ensures ParseCounted(false, m, p, EncodeCounted(e, xs) + t) == Done(xs, t)
  {
    U16Prints(|xs|, Concat(e, xs) + t);
    assert EncodeCounted(e, xs) + t == LittleEndian(2, |xs|) + (Concat(e, xs) + t);
    RepeatPrints(e, p, fits, xs, t);
  }

  lemma CountedReads<T(!new)>(e: T -> seq<Byte>, p: seq<Byte> -> Parse<T>, fits: T -> bool, m: nat, s: seq<Byte>)
    requires Reads(e, p, fits)
    ensures var r := ParseCounted(false, m, p, s);
            r.Done? ==> |r.value| < TWO_16 && (forall x <- r.value :: fits(x))
                        && s == EncodeCounted(e, r.value) + r.rest
  {
    U16Reads(s);
    var u := ParseU16(s);
    if u.Done? {
      RepeatReads(e, p, fits, u.value, u.rest);
    }
  }

  lemma DivisionGuard(n: nat, room: nat, m: nat)
    requires m > 0
    ensures n > room / m <==> n * m > room
  {
    var q, r := room / m, room % m;
    assert room == q * m + r;
    if n > q {
      assert n * m >= (q + 1) * m;
    } else {
      assert n * m <= q * m;
    }
  }

  /** The early refusal never changes what is accepted, nor the result. */
  lemma CountGuardIsPure<T(!new)>(e: T -> seq<Byte>, p: seq<Byte> -> Parse<T>, fits: T -> bool, m: nat, s: seq<Byte>)
    requires Reads(e, p, fits)
    requires m > 0 && forall x :: fits(x) ==> |e(x)| >= m
    ensures ParseCounted(true, m, p, s) == ParseCounted(false, m, p, s)
  {
    var u := ParseU16(s);
    if u.Done? {
      DivisionGuard(u.value, |u.rest|, m);
      RepeatReads(e, p, fits, u.value, u.rest);
      var r := Repeat(p, u.value, u.rest);
      if r.Done? {
        ConcatLength(e, m, r.value);
      }
    }
  }
}
