/** The imperative body decoder and encoder, proved against the parser and printer of Transactions. */
module Codec {
  import opened Bytes
  import opened Parsing
  import opened Outcomes
  import opened Transactions
  import opened Layouts

  /** A cursor over a frame. A failed take leaves the cursor where it was. */
  class Decoder {
    const b: seq<Byte>
    var off: nat

    ghost predicate Valid()
      reads this
    {
      off <= |b|
    }

    ghost function Rest(): seq<Byte>
      requires Valid()
      reads this
    {
      b[off..]
    }

    constructor (b: seq<Byte>)
      ensures this.b == b && Valid() && off == 0 && Rest() == b
    {
      this.b := b;
      this.off := 0;
    }

    method Take(n: int) returns (r: Result<seq<Byte>>)
      requires Valid()
      modifies this`off
      ensures Valid()
      ensures n < 0 ==> r == Err(BadFrame)
      ensures n >= 0 ==> r == ToResult(ParseBytes(n, old(Rest())))
      ensures r.Ok? ==> Rest() == ParseBytes(n, old(Rest())).rest
      ensures off == old(off) + if r.Ok? then n else 0
    {
      if n < 0 || off + n > |b| {
        return Err(BadFrame);
      }
      var s := b[off..off + n];
      assert Rest()[..n] == s;
      off := off + n;
      r := Ok(s);
    }

    method U8() returns (r: Result<Byte>)
      requires Valid()
      modifies this`off
      ensures Valid()
      ensures r == ToResult(ParseU8(old(Rest())))
      ensures Rest() == if r.Ok? then ParseU8(old(Rest())).rest else old(Rest())
      ensures off == old(off) + if r.Ok? then 1 else 0
    {
      var s :- Take(1);
      r := Ok(s[0]);
    }

    method U16() returns (r: Result<nat>)
      requires Valid()
      modifies this`off
      ensures Valid()
      ensures r == ToResult(ParseU16(old(Rest())))
      ensures Rest() == if r.Ok? then ParseU16(old(Rest())).rest else old(Rest())
      ensures off == old(off) + if r.Ok? then 2 else 0
      ensures if |old(Rest())| >= 2 then r.Ok? && r.value == Low2(old(Rest()), 0) else r == Err(BadFrame)
    {
      TwoBytes(Rest(), 0, 0);
      var s :- Take(2);
      r := Ok(FromLittleEndian(s));
    }

    method U64() returns (r: Result<U64>)
      requires Valid()
      modifies this`off
      ensures Valid()
      ensures r == ToResult(ParseU64(old(Rest())))
      ensures Rest() == if r.Ok? then ParseU64(old(Rest())).rest else old(Rest())
      ensures off == old(off) + if r.Ok? then 8 else 0
      ensures if |old(Rest())| >= 8 then r.Ok? && r.value == Low8(old(Rest()), 0) else r == Err(BadFrame)
    {
      if |Rest()| >= 8 {
        EightBytes(Rest(), 0);
      }
      var s :- Take(8);
      Pow256Values();
      r := Ok(FromLittleEndian(s));
    }

    /** A u16 count, refused before any allocation unless minElem bytes for each element remain. */
    method Count(minElem: nat) returns (r: Result<nat>)
      requires Valid()
      modifies this`off
      ensures Valid()
      ensures r.Ok? <==> var u := ParseU16(old(Rest())); u.Done? && minElem > 0 && u.value <= |u.rest| / minElem
      ensures r.Ok? ==> var u := ParseU16(old(Rest()));
                        r.value == u.value && Rest() == u.rest && r.value * minElem <= |Rest()|
      ensures r.Err? ==> r.error == BadFrame
    {
      var n :- U16();
      if minElem == 0 || n > (|b| - off) / minElem {
        return Err(BadFrame);
      }
      DivisionGuard(n, |b| - off, minElem);
      r := Ok(n);
    }
  }

  /** The outcome of a list loop that has collected out and still has p to run. */
  ghost function Prepend<T>(out: seq<T>, p: Parse<seq<T>>): Parse<seq<T>> {
    if p.Done? then Done(out + p.value, p.rest) else Fail
  }

  lemma PrependNothing<T>(p: Parse<seq<T>>)
    ensures Prepend([], p) == p
  {
    if p.Done? {
      assert [] + p.value == p.value;
    }
  }

  lemma RepeatStep<T>(out: seq<T>, p: seq<Byte> -> Parse<T>, n: nat, s: seq<Byte>)
    requires n > 0
    ensures Prepend(out, Repeat(p, n, s)) ==
            if p(s).Done? then Prepend(out + [p(s).value], Repeat(p, n - 1, p(s).rest)) else Fail
  {
    if p(s).Done? {
      var r := Repeat(p, n - 1, p(s).rest);
      if r.Done? {
        assert out + ([p(s).value] + r.value) == (out + [p(s).value]) + r.value;
      }
    }
  }

  method TakeSignatures(d: Decoder) returns (r: Result<seq<Signature>>)
    requires d.Valid()
    modifies d`off
    ensures d.Valid()
    ensures r == ToResult(ParseCounted(true, 64, ParseSignature, old(d.Rest())))
    ensures r.Ok? ==> d.Rest() == ParseCounted(true, 64, ParseSignature, old(d.Rest())).rest
  {
    hide ParseU16, Low2;
    var n :- d.Count(64);
    ghost var s := d.Rest();
    var out: seq<Signature> := [];
    PrependNothing(Repeat(ParseSignature, n, s));
    for i := 0 to n
      invariant d.Valid()
      invariant Repeat(ParseSignature, n, s) == Prepend(out, Repeat(ParseSignature, n - i, d.Rest()))
    {
      RepeatStep(out, ParseSignature, n - i, d.Rest());
      var v :- d.Take(64);
      out := out + [v];
    }
    assert out + [] == out;
    r := Ok(out);
  }

  method TakeKeys(d: Decoder) returns (r: Result<seq<Key>>)
    requires d.Valid()
    modifies d`off
    ensures d.Valid()
    ensures r == ToResult(ParseCounted(true, 32, ParseKey, old(d.Rest())))
    ensures r.Ok? ==> d.Rest() == ParseCounted(true, 32, ParseKey, old(d.Rest())).rest
  {
    hide ParseU16, Low2;
    var n :- d.Count(32);
    ghost var s := d.Rest();
    var out: seq<Key> := [];
    PrependNothing(Repeat(ParseKey, n, s));
    for i := 0 to n
      invariant d.Valid()
      invariant Repeat(ParseKey, n, s) == Prepend(out, Repeat(ParseKey, n - i, d.Rest()))
    {
      RepeatStep(out, ParseKey, n - i, d.Rest());
      var k :- d.Take(32);
      out := out + [k];
    }
    assert out + [] == out;
    r := Ok(out);
  }

  method TakeInstruction(d: Decoder) returns (r: Result<Instruction>)
    requires d.Valid()
    modifies d`off
    ensures d.Valid()
    ensures r == ToResult(ParseInstruction(old(d.Rest())))
    ensures r.Ok? ==> d.Rest() == ParseInstruction(old(d.Rest())).rest
  {
    hide ParseU16, Low2;
    var pid :- d.U8();
    var al :- d.U16();
    var acc :- d.Take(al);
    var dl :- d.U16();
    var dat :- d.Take(dl);
    r := Ok(Instruction(pid, acc, dat));
  }

  method TakeInstructions(d: Decoder) returns (r: Result<seq<Instruction>>)
    requires d.Valid()
    modifies d`off
    ensures d.Valid()
    ensures r == ToResult(ParseCounted(true, 5, ParseInstruction, old(d.Rest())))
    ensures r.Ok? ==> d.Rest() == ParseCounted(true, 5, ParseInstruction, old(d.Rest())).rest
  {
    hide ParseU16, Low2, ParseInstruction;
    var n :- d.Count(5);
    ghost var s := d.Rest();
    var out: seq<Instruction> := [];
    PrependNothing(Repeat(ParseInstruction, n, s));
    for i := 0 to n
      invariant d.Valid()
      invariant Repeat(ParseInstruction, n, s) == Prepend(out, Repeat(ParseInstruction, n - i, d.Rest()))
    {
      RepeatStep(out, ParseInstruction, n - i, d.Rest());
      var ix :- TakeInstruction(d);
      out := out + [ix];
    }
    assert out + [] == out;
    r := Ok(out);
  }

  method TakeLookup(d: Decoder) returns (r: Result<AddressTableLookup>)
    requires d.Valid()
    modifies d`off
    ensures d.Valid()
    ensures r == ToResult(ParseLookup(old(d.Rest())))
    ensures r.Ok? ==> d.Rest() == ParseLookup(old(d.Rest())).rest
  {
    hide ParseU16, Low2;
    var key :- d.Take(32);
    var wl :- d.U16();
    var w :- d.Take(wl);
    var rl :- d.U16();
    var ro :- d.Take(rl);
    r := Ok(AddressTableLookup(key, w, ro));
  }

  method TakeLookups(d: Decoder) returns (r: Result<seq<AddressTableLookup>>)
    requires d.Valid()
    modifies d`off
    ensures d.Valid()
    ensures r == ToResult(ParseCounted(true, 36, ParseLookup, old(d.Rest())))
    ensures r.Ok? ==> d.Rest() == ParseCounted(true, 36, ParseLookup, old(d.Rest())).rest
  {
    hide ParseU16, Low2, ParseLookup;
    var n :- d.Count(36);
    ghost var s := d.Rest();
    var out: seq<AddressTableLookup> := [];
    PrependNothing(Repeat(ParseLookup, n, s));
    for i := 0 to n
      invariant d.Valid()
      invariant Repeat(ParseLookup, n, s) == Prepend(out, Repeat(ParseLookup, n - i, d.Rest()))
    {
      RepeatStep(out, ParseLookup, n - i, d.Rest());
      var l :- TakeLookup(d);
      out := out + [l];
    }
    assert out + [] == out;
    r := Ok(out);
  }

  /** The three header counts and the version byte. */
  method TakeFlags(d: Decoder) returns (r: Result<(Byte, Byte, Byte, Byte)>)
    requires d.Valid()
    modifies d`off
    ensures d.Valid()
    ensures var s := old(d.Rest());
            if |s| < 4 then r == Err(BadFrame) else r == Ok((s[0], s[1], s[2], s[3])) && d.Rest() == s[4..]
  {
    var required :- d.U8();
    var readonlySigned :- d.U8();
    var readonlyUnsigned :- d.U8();
    var versionByte :- d.U8();
    r := Ok((required, readonlySigned, readonlyUnsigned, versionByte));
  }

  method TakeHeader(d: Decoder) returns (r: Result<Header>)
    requires d.Valid()
    modifies d`off
    ensures d.Valid()
    ensures r == ToResult(ParseHeader(old(d.Rest())))
    ensures r.Ok? ==> d.Rest() == ParseHeader(old(d.Rest())).rest
  {
    hide FromLittleEndian, Pow256;
    ghost var s := d.Rest();
    var slot :- d.U64();
    var flags :- TakeFlags(d);
    assert d.Rest() == s[12..];
    var blockhash :- d.Take(32);
    assert blockhash == s[12..44];
    r := Ok(Header(slot, flags.0, flags.1, flags.2, flags.3, blockhash));
  }

  /** The transaction at the front of b, and the offset just past it. */
  method DecodeFullTxPrefix(b: seq<Byte>) returns (r: Result<FullTx>, consumed: nat)
    ensures r == ToResult(DecodePrefix(b))
    ensures r.Ok? ==> consumed <= |b| && DecodePrefix(b).rest == b[consumed..]
    ensures r.Ok? ==> consumed == BodyLength(r.value)
    ensures r.Err? ==> consumed == 0 && r.error == BadFrame
    ensures forall ft :: r == Ok(ft) <==> |b| <= 0x1_0000 && Fits(ft) && LaidOut(b, ft)
  {
    hide ParseHeader, ParseCounted, ParseInstruction, ParseLookup, Fits, LaidOut, BodyLength;
    AcceptsIffLaidOut(b);
    consumed := 0;
    if |b| > MAX_FULL_TX_BODY {
      r := Err(BadFrame);
      return;
    }
    var d := new Decoder(b);
    var h :- TakeHeader(d);
    var signatures :- TakeSignatures(d);
    var keys :- TakeKeys(d);
    var instructions :- TakeInstructions(d);
    var lookups :- TakeLookups(d);
    r := Ok(FullTx(h.slot, h.versionByte != 0, h.required, h.readonlySigned, h.readonlyUnsigned, h.blockhash,
                   signatures, keys, instructions, lookups));
    consumed := d.off;
  }

  method DecodeFullTx(b: seq<Byte>) returns (r: Result<FullTx>)
    ensures r == ToResult(DecodeExact(b))
    ensures r.Err? ==> r.error == BadFrame
    ensures forall ft :: r == Ok(ft) <==> |b| <= 0x1_0000 && Fits(ft) && LaidOut(b, ft) && |b| == BodyLength(ft)
  {
    hide Fits, LaidOut, BodyLength;
    var ft, consumed :- DecodeFullTxPrefix(b);
    if consumed != |b| {
      return Err(BadFrame);
    }
    r := Ok(ft);
  }

  lemma ConcatNext<T>(e: T -> seq<Byte>, xs: seq<T>, i: nat)
    requires i < |xs|
    ensures Concat(e, xs[..i + 1]) == Concat(e, xs[..i]) + e(xs[i])
  {
    ConcatSnoc(e, xs[..i], xs[i]);
    assert xs[..i + 1] == xs[..i] + [xs[i]];
  }

  method AppendHeader(start: seq<Byte>, ft: FullTx) returns (b: seq<Byte>)
    ensures b == start + EncodeHeader(HeaderOf(ft, if ft.versioned then 1 else 0))
  {
    b := start + LittleEndian(8, ft.slot);
    b := b + [ft.numRequiredSignatures % 256];
    b := b + [ft.numReadonlySignedAccounts % 256];
    b := b + [ft.numReadonlyUnsignedAccounts % 256];
    if ft.versioned {
      b := b + [1];
    } else {
      b := b + [0];
    }
    b := b + ft.recentBlockhash;
  }

  method AppendSignatures(start: seq<Byte>, signatures: seq<Signature>) returns (b: seq<Byte>)
    ensures b == start + EncodeCounted(EncodeSignature, signatures)
  {
    b := start + LittleEndian(2, |signatures|);
    ghost var base := b;
    for i := 0 to |signatures|
      invariant b == base + Concat(EncodeSignature, signatures[..i])
    {
      ConcatNext(EncodeSignature, signatures, i);
      b := b + signatures[i];
    }
    assert signatures[..|signatures|] == signatures;
  }

  method AppendKeys(start: seq<Byte>, keys: seq<Key>) returns (b: seq<Byte>)
    ensures b == start + EncodeCounted(EncodeKey, keys)
  {
    b := start + LittleEndian(2, |keys|);
    ghost var base := b;
    for i := 0 to |keys|
      invariant b == base + Concat(EncodeKey, keys[..i])
    {
      ConcatNext(EncodeKey, keys, i);
      b := b + keys[i];
    }
    assert keys[..|keys|] == keys;
  }

  method AppendInstruction(start: seq<Byte>, ix: Instruction) returns (b: seq<Byte>)
    ensures b == start + EncodeInstruction(ix)
  {
    b := start + [ix.programIdIndex % 256];
    b := b + LittleEndian(2, |ix.accounts|);
    b := b + ix.accounts;
    b := b + LittleEndian(2, |ix.data|);
    b := b + ix.data;
  }

  method AppendInstructions(start: seq<Byte>, instructions: seq<Instruction>) returns (b: seq<Byte>)
    ensures b == start + EncodeCounted(EncodeInstruction, instructions)
  {
    b := start + LittleEndian(2, |instructions|);
    ghost var base := b;
    for i := 0 to |instructions|
      invariant b == base + Concat(EncodeInstruction, instructions[..i])
    {
      ConcatNext(EncodeInstruction, instructions, i);
      b := AppendInstruction(b, instructions[i]);
    }
    assert instructions[..|instructions|] == instructions;
  }

  method AppendLookup(start: seq<Byte>, l: AddressTableLookup) returns (b: seq<Byte>)
    ensures b == start + EncodeLookup(l)
  {
    b := start + l.accountKey;
    b := b + LittleEndian(2, |l.writableIndexes|);
    b := b + l.writableIndexes;
    b := b + LittleEndian(2, |l.readonlyIndexes|);
    b := b + l.readonlyIndexes;
  }

  method AppendLookups(start: seq<Byte>, lookups: seq<AddressTableLookup>) returns (b: seq<Byte>)
    ensures b == start + EncodeCounted(EncodeLookup, lookups)
  {
    b := start + LittleEndian(2, |lookups|);
    ghost var base := b;
    for i := 0 to |lookups|
      invariant b == base + Concat(EncodeLookup, lookups[..i])
    {
      ConcatNext(EncodeLookup, lookups, i);
      b := AppendLookup(b, lookups[i]);
    }
    assert lookups[..|lookups|] == lookups;
  }

  method EncodeFullTx(ft: FullTx) returns (b: seq<Byte>)
    ensures b == EncodeTx(ft)
    ensures LaidOut(b, ft) && |b| == BodyLength(ft) && b[11] == if ft.versioned then 1 else 0
  {
    hide EncodeCounted, EncodeHeader, SignaturesAt, KeysAt, InstructionsAt, LookupsAt, BodyLength;
    PrintedBody(EncodeTx(ft), ft, if ft.versioned then 1 else 0);
    b := AppendHeader([], ft);
    b := AppendSignatures(b, ft.signatures);
    b := AppendKeys(b, ft.accountKeys);
    b := AppendInstructions(b, ft.instructions);
    b := AppendLookups(b, ft.addressTableLookups);
  }
}
