/**
 Which byte of a transaction body means what, written out by offsets: a second,
 independent description of the wire layout, which the parser and the printer
 of Transactions are proved to follow.
 */
module Layouts {
  import opened Bytes
  import opened Parsing
  import opened Transactions

  // ---------- the layout ----------

  /** A u16 count or length stands at at; the field keeps the low sixteen bits of n. */
  predicate CountAt(b: seq<Byte>, at: nat, n: nat) {
    at + 2 <= |b| && n % 0x1_0000 == Low2(b, at)
  }

  /** A length and that many bytes stand at at. */
  predicate BlobAt(b: seq<Byte>, at: nat, v: seq<Byte>) {
    CountAt(b, at, |v|) && at + 2 + |v| <= |b| && b[at + 2..at + 2 + |v|] == v
  }

  /** Program index, account indexes, data. */
  predicate InstructionAt(b: seq<Byte>, at: nat, ix: Instruction) {
    && at < |b| && b[at] == ix.programIdIndex % 0x100
    && BlobAt(b, at + 1, ix.accounts)
    && BlobAt(b, at + 3 + |ix.accounts|, ix.data)
  }

  /** Table key, writable indexes, readonly indexes. */
  predicate LookupAt(b: seq<Byte>, at: nat, l: AddressTableLookup) {
    && at + 32 <= |b| && b[at..at + 32] == l.accountKey
    && BlobAt(b, at + 32, l.writableIndexes)
    && BlobAt(b, at + 34 + |l.writableIndexes|, l.readonlyIndexes)
  }

  /** How many bytes a list of instructions takes: five, the account indexes and the data of each. */
  function InstructionBytes(ixs: seq<Instruction>): nat {
    if ixs == [] then 0 else
    var ix := ixs[|ixs| - 1];
    InstructionBytes(ixs[..|ixs| - 1]) + (5 + |ix.accounts| + |ix.data|)
  }

  /** How many bytes a list of lookups takes: thirty-six and both index lists of each. */
  function LookupBytes(ls: seq<AddressTableLookup>): nat {
    if ls == [] then 0 else
    var l := ls[|ls| - 1];
    LookupBytes(ls[..|ls| - 1]) + (36 + |l.writableIndexes| + |l.readonlyIndexes|)
  }

  /** Offsets 0 to 43. */
  predicate HeaderAt(b: seq<Byte>, ft: FullTx) {
    && |b| >= 44
    && ft.slot == Low8(b, 0)
    && b[8] == ft.numRequiredSignatures % 0x100
    && b[9] == ft.numReadonlySignedAccounts % 0x100
    && b[10] == ft.numReadonlyUnsignedAccounts % 0x100
    && (b[11] != 0 <==> ft.versioned)
    && b[12..44] == ft.recentBlockhash
  }

  ghost predicate SignaturesAt(b: seq<Byte>, at: nat, sigs: seq<Signature>) {
    && CountAt(b, at, |sigs|) && at + 2 + 64 * |sigs| <= |b|
    && forall i :: 0 <= i < |sigs| ==> b[at + 2 + 64 * i..at + 2 + 64 * i + 64] == sigs[i]
  }

  ghost predicate KeysAt(b: seq<Byte>, at: nat, keys: seq<Key>) {
    && CountAt(b, at, |keys|) && at + 2 + 32 * |keys| <= |b|
    && forall i :: 0 <= i < |keys| ==> b[at + 2 + 32 * i..at + 2 + 32 * i + 32] == keys[i]
  }

  ghost predicate InstructionsAt(b: seq<Byte>, at: nat, ixs: seq<Instruction>) {
    && CountAt(b, at, |ixs|)
    && forall i :: 0 <= i < |ixs| ==> InstructionAt(b, at + 2 + InstructionBytes(ixs[..i]), ixs[i])
  }

  ghost predicate LookupsAt(b: seq<Byte>, at: nat, ls: seq<AddressTableLookup>) {
    && CountAt(b, at, |ls|)
    && forall i :: 0 <= i < |ls| ==> LookupAt(b, at + 2 + LookupBytes(ls[..i]), ls[i])
  }

  /** Where each of the four lists begins, and where the body ends. */
  function KeysFrom(ft: FullTx): nat {
    46 + 64 * |ft.signatures|
  }

  function InstructionsFrom(ft: FullTx): nat {
    KeysFrom(ft) + 2 + 32 * |ft.accountKeys|
  }

  function LookupsFrom(ft: FullTx): nat {
    InstructionsFrom(ft) + 2 + InstructionBytes(ft.instructions)
  }

  function BodyLength(ft: FullTx): nat {
    LookupsFrom(ft) + 2 + LookupBytes(ft.addressTableLookups)
  }

  /** ft stands at the front of b. */
  ghost predicate LaidOut(b: seq<Byte>, ft: FullTx) {
    && HeaderAt(b, ft)
    && SignaturesAt(b, 44, ft.signatures)
    && KeysAt(b, KeysFrom(ft), ft.accountKeys)
    && InstructionsAt(b, InstructionsFrom(ft), ft.instructions)
    && LookupsAt(b, LookupsFrom(ft), ft.addressTableLookups)
  }

  // ---------- the printer follows it ----------

  /** The bytes p stand in b from at on. */
  predicate At(b: seq<Byte>, at: nat, p: seq<Byte>) {
    at + |p| <= |b| && b[at..at + |p|] == p
  }

  lemma AtBoth(b: seq<Byte>, at: nat, p: seq<Byte>, q: seq<Byte>)
    ensures At(b, at, p + q) <==> At(b, at, p) && At(b, at + |p|, q)
  {
    var n := at + |p| + |q|;
    if n <= |b| {
      var w := b[at..n];
      assert w == w[..|p|] + w[|p|..];
      assert w[..|p|] == b[at..at + |p|] && w[|p|..] == b[at + |p|..n];
      assert (p + q)[..|p|] == p && (p + q)[|p|..] == q;
    }
  }

  lemma PrintedCount(b: seq<Byte>, at: nat, n: nat)
    ensures At(b, at, LittleEndian(2, n)) <==> CountAt(b, at, n)
  {
    TwoBytes(b, at, n);
    if at + 2 <= |b| {
      assert b[at..at + 2] == [b[at], b[at + 1]];
      assert n % 0x1_0000 == n % 0x100 + 0x100 * (n / 0x100 % 0x100);
    }
  }

  lemma PrintedBlob(b: seq<Byte>, at: nat, v: seq<Byte>)
    ensures At(b, at, EncodeBlob(v)) <==> BlobAt(b, at, v)
  {
    hide LittleEndian, CountAt;
    AtBoth(b, at, LittleEndian(2, |v|), v);
    PrintedCount(b, at, |v|);
  }

  lemma PrintedByte(b: seq<Byte>, at: nat, x: Byte)
    ensures At(b, at, [x]) <==> at < |b| && b[at] == x
  {
    if at < |b| {
      assert b[at..at + 1] == [b[at]];
    }
  }

  lemma PrintedInstruction(b: seq<Byte>, at: nat, ix: Instruction)
    ensures At(b, at, EncodeInstruction(ix)) <==> InstructionAt(b, at, ix)
    ensures |EncodeInstruction(ix)| == 5 + |ix.accounts| + |ix.data|
  {
    hide At, BlobAt, LittleEndian;
    var pid: seq<Byte>, a, d := [ix.programIdIndex % 256], EncodeBlob(ix.accounts), EncodeBlob(ix.data);
    AtBoth(b, at, pid + a, d);
    AtBoth(b, at, pid, a);
    PrintedByte(b, at, ix.programIdIndex % 256);
    PrintedBlob(b, at + 1, ix.accounts);
    PrintedBlob(b, at + 3 + |ix.accounts|, ix.data);
  }

  lemma PrintedLookup(b: seq<Byte>, at: nat, l: AddressTableLookup)
    ensures At(b, at, EncodeLookup(l)) <==> LookupAt(b, at, l)
    ensures |EncodeLookup(l)| == 36 + |l.writableIndexes| + |l.readonlyIndexes|
  {
    hide BlobAt, LittleEndian;
    var w, r := EncodeBlob(l.writableIndexes), EncodeBlob(l.readonlyIndexes);
    AtBoth(b, at, l.accountKey + w, r);
    AtBoth(b, at, l.accountKey, w);
    PrintedBlob(b, at + 32, l.writableIndexes);
    PrintedBlob(b, at + 34 + |l.writableIndexes|, l.readonlyIndexes);
  }

  /** Element i of xs stands at its place in a list that begins at at. */
  ghost predicate ElementAt<T>(b: seq<Byte>, at: nat, e: T -> seq<Byte>, xs: seq<T>, i: nat)
    requires i < |xs|
  {
    At(b, at + |Concat(e, xs[..i])|, e(xs[i]))
  }

  lemma ElementOfLonger<T>(b: seq<Byte>, at: nat, e: T -> seq<Byte>, xs: seq<T>, x: T)
    ensures forall i: nat :: i < |xs| ==> (ElementAt(b, at, e, xs + [x], i) <==> ElementAt(b, at, e, xs, i))
    ensures ElementAt(b, at, e, xs + [x], |xs|) <==> At(b, at + |Concat(e, xs)|, e(x))
  {
    hide At, Concat;
    var all := xs + [x];
    assert all[..|xs|] == xs;
    forall i: nat | i < |xs| ensures ElementAt(b, at, e, all, i) <==> ElementAt(b, at, e, xs, i) {
      assert all[..i] == xs[..i];
    }
  }

  ghost predicate ElementsAt<T>(b: seq<Byte>, at: nat, e: T -> seq<Byte>, xs: seq<T>) {
    forall i: nat :: i < |xs| ==> ElementAt(b, at, e, xs, i)
  }

  lemma ElementsSnoc<T>(b: seq<Byte>, at: nat, e: T -> seq<Byte>, xs: seq<T>, x: T)
    ensures ElementsAt(b, at, e, xs + [x]) <==> ElementsAt(b, at, e, xs) && At(b, at + |Concat(e, xs)|, e(x))
  {
    hide At, Concat, ElementAt;
    ElementOfLonger(b, at, e, xs, x);
  }

  /** A list stands where each of its elements does. */
  lemma {:induction false} PrintedList<T>(b: seq<Byte>, at: nat, e: T -> seq<Byte>, xs: seq<T>)
    ensures At(b, at, Concat(e, xs)) <==> at <= |b| && ElementsAt(b, at, e, xs)
  {
    if xs == [] {
      assert At(b, at, []) <==> at <= |b|;
    } else {
      hide At, Concat, ElementsAt;
      var front, x := xs[..|xs| - 1], xs[|xs| - 1];
      assert xs == front + [x];
      ConcatSnoc(e, front, x);
      AtBoth(b, at, Concat(e, front), e(x));
      PrintedList(b, at, e, front);
      ElementsSnoc(b, at, e, front, x);
    }
  }

  lemma {:induction false} FixedSize<T>(e: T -> seq<Byte>, m: nat, xs: seq<T>)
    requires forall x :: |e(x)| == m
    ensures |Concat(e, xs)| == m * |xs|
  {
    if xs != [] {
      FixedSize(e, m, xs[1..]);
    }
  }

  lemma {:induction false} InstructionsSize(ixs: seq<Instruction>)
    ensures |Concat(EncodeInstruction, ixs)| == InstructionBytes(ixs)
  {
    if ixs != [] {
      hide EncodeInstruction;
      var front, ix := ixs[..|ixs| - 1], ixs[|ixs| - 1];
      assert ixs == front + [ix];
      InstructionsSize(front);
      ConcatSnoc(EncodeInstruction, front, ix);
      PrintedInstruction([], 0, ix);
    }
  }

  lemma {:induction false} LookupsSize(ls: seq<AddressTableLookup>)
    ensures |Concat(EncodeLookup, ls)| == LookupBytes(ls)
  {
    if ls != [] {
      hide EncodeLookup;
      var front, l := ls[..|ls| - 1], ls[|ls| - 1];
      assert ls == front + [l];
      LookupsSize(front);
      ConcatSnoc(EncodeLookup, front, l);
      PrintedLookup([], 0, l);
    }
  }

  lemma PrintedSignatures(b: seq<Byte>, at: nat, sigs: seq<Signature>)
    ensures At(b, at, EncodeCounted(EncodeSignature, sigs)) <==> SignaturesAt(b, at, sigs)
    ensures |EncodeCounted(EncodeSignature, sigs)| == 2 + 64 * |sigs|
  {
    hide Concat, LittleEndian, CountAt;
    AtBoth(b, at, LittleEndian(2, |sigs|), Concat(EncodeSignature, sigs));
    PrintedCount(b, at, |sigs|);
    PrintedList(b, at + 2, EncodeSignature, sigs);
    FixedSize(EncodeSignature, 64, sigs);
    forall i: nat | i < |sigs|
      ensures ElementAt(b, at + 2, EncodeSignature, sigs, i) <==> At(b, at + 2 + 64 * i, sigs[i])
    {
      FixedSize(EncodeSignature, 64, sigs[..i]);
    }
  }

  lemma PrintedKeys(b: seq<Byte>, at: nat, keys: seq<Key>)
    ensures At(b, at, EncodeCounted(EncodeKey, keys)) <==> KeysAt(b, at, keys)
    ensures |EncodeCounted(EncodeKey, keys)| == 2 + 32 * |keys|
  {
    hide Concat, LittleEndian, CountAt;
    AtBoth(b, at, LittleEndian(2, |keys|), Concat(EncodeKey, keys));
    PrintedCount(b, at, |keys|);
    PrintedList(b, at + 2, EncodeKey, keys);
    FixedSize(EncodeKey, 32, keys);
    forall i: nat | i < |keys|
      ensures ElementAt(b, at + 2, EncodeKey, keys, i) <==> At(b, at + 2 + 32 * i, keys[i])
    {
      FixedSize(EncodeKey, 32, keys[..i]);
    }
  }

  lemma PrintedInstructions(b: seq<Byte>, at: nat, ixs: seq<Instruction>)
    ensures At(b, at, EncodeCounted(EncodeInstruction, ixs)) <==> InstructionsAt(b, at, ixs)
    ensures |EncodeCounted(EncodeInstruction, ixs)| == 2 + InstructionBytes(ixs)
  {
    hide At, Concat, LittleEndian, EncodeInstruction, InstructionAt, InstructionBytes;
    AtBoth(b, at, LittleEndian(2, |ixs|), Concat(EncodeInstruction, ixs));
    PrintedCount(b, at, |ixs|);
    PrintedList(b, at + 2, EncodeInstruction, ixs);
    InstructionsSize(ixs);
    forall i: nat | i < |ixs|
      ensures ElementAt(b, at + 2, EncodeInstruction, ixs, i) <==>
              InstructionAt(b, at + 2 + InstructionBytes(ixs[..i]), ixs[i])
    {
      InstructionsSize(ixs[..i]);
      PrintedInstruction(b, at + 2 + InstructionBytes(ixs[..i]), ixs[i]);
    }
  }

  lemma PrintedLookups(b: seq<Byte>, at: nat, ls: seq<AddressTableLookup>)
    ensures At(b, at, EncodeCounted(EncodeLookup, ls)) <==> LookupsAt(b, at, ls)
    ensures |EncodeCounted(EncodeLookup, ls)| == 2 + LookupBytes(ls)
  {
    hide At, Concat, LittleEndian, EncodeLookup, LookupAt, LookupBytes;
    AtBoth(b, at, LittleEndian(2, |ls|), Concat(EncodeLookup, ls));
    PrintedCount(b, at, |ls|);
    PrintedList(b, at + 2, EncodeLookup, ls);
    LookupsSize(ls);
    forall i: nat | i < |ls|
      ensures ElementAt(b, at + 2, EncodeLookup, ls, i) <==>
              LookupAt(b, at + 2 + LookupBytes(ls[..i]), ls[i])
    {
      LookupsSize(ls[..i]);
      PrintedLookup(b, at + 2 + LookupBytes(ls[..i]), ls[i]);
    }
  }

  lemma PrintedSlot(b: seq<Byte>, v: U64)
    ensures At(b, 0, LittleEndian(8, v)) <==> |b| >= 8 && v == Low8(b, 0)
  {
    hide Low8;
    Pow256Values();
    LittleEndianRoundTrip(8, v);
    if |b| >= 8 {
      EightBytes(b, 0);
      LittleEndianCanonical(b[0..8]);
    }
  }

  lemma PrintedHeader(b: seq<Byte>, ft: FullTx, versionByte: Byte)
    ensures At(b, 0, EncodeHeader(HeaderOf(ft, versionByte))) && (versionByte != 0 <==> ft.versioned) <==>
            HeaderAt(b, ft) && b[11] == versionByte
  {
    hide LittleEndian, Low8;
    var h := HeaderOf(ft, versionByte);
    var word, four: seq<Byte> :=
      LittleEndian(8, h.slot), [h.required, h.readonlySigned, h.readonlyUnsigned, h.versionByte];
    AtBoth(b, 0, word + four, h.blockhash);
    AtBoth(b, 0, word, four);
    PrintedSlot(b, ft.slot);
    if |b| >= 44 {
      assert b[8..12] == [b[8], b[9], b[10], b[11]];
    }
  }

  /** The printed body stands at the front of b exactly when ft is laid out there. */
  lemma PrintedBody(b: seq<Byte>, ft: FullTx, versionByte: Byte)
    ensures EncodeBody(ft, versionByte) <= b && (versionByte != 0 <==> ft.versioned) <==>
            LaidOut(b, ft) && b[11] == versionByte
    ensures |EncodeBody(ft, versionByte)| == BodyLength(ft)
  {
    hide EncodeHeader, EncodeCounted, HeaderAt, SignaturesAt, KeysAt, InstructionsAt, LookupsAt,
         InstructionBytes, LookupBytes;
    var h := EncodeHeader(HeaderOf(ft, versionByte));
    var s, k := EncodeCounted(EncodeSignature, ft.signatures), EncodeCounted(EncodeKey, ft.accountKeys);
    var i := EncodeCounted(EncodeInstruction, ft.instructions);
    var l := EncodeCounted(EncodeLookup, ft.addressTableLookups);
    assert EncodeBody(ft, versionByte) == h + ((s + k) + (i + l));
    HeaderLength(HeaderOf(ft, versionByte));
    FrontIsAt(b, EncodeBody(ft, versionByte));
    hide At;
    AtBoth(b, 0, h, (s + k) + (i + l));
    AtBoth(b, 44, s + k, i + l);
    AtBoth(b, 44, s, k);
    PrintedHeader(b, ft, versionByte);
    HeaderHasByte11(b, ft);
    PrintedSignatures(b, 44, ft.signatures);
    PrintedKeys(b, KeysFrom(ft), ft.accountKeys);
    PrintedInstructions(b, InstructionsFrom(ft), ft.instructions);
    PrintedLookups(b, LookupsFrom(ft), ft.addressTableLookups);
    AtBoth(b, InstructionsFrom(ft), i, l);
  }

  lemma FrontIsAt(b: seq<Byte>, p: seq<Byte>)
    ensures p <= b <==> At(b, 0, p)
  {
    if |p| <= |b| {
      assert b[..|p|] == b[0..|p|];
    }
  }

  lemma HeaderLength(h: Header)
    ensures |EncodeHeader(h)| == 44
  {
  }

  lemma HeaderHasByte11(b: seq<Byte>, ft: FullTx)
    ensures HeaderAt(b, ft) ==> |b| >= 44
  {
  }

  // ---------- main results ----------

  /**
   The prefix decoder accepts b as ft exactly when b is within 64 KiB, every
   number of ft fits its field, and ft stands at the front of b; the rest is
   what follows it.
   */
  lemma DecodesIffLaidOut(b: seq<Byte>, ft: FullTx, rest: seq<Byte>)
    ensures DecodePrefix(b) == Done(ft, rest) <==>
            && |b| <= 0x1_0000 && Fits(ft) && LaidOut(b, ft)
            && BodyLength(ft) <= |b| && rest == b[BodyLength(ft)..]
  {
    hide ParseTx, EncodeBody, Fits, BodyLength, SignaturesAt, KeysAt, InstructionsAt, LookupsAt;
    TxReads(b);
    if |b| >= 44 {
      var body := EncodeBody(ft, b[11]);
      PrintedBody(b, ft, b[11]);
      if body <= b {
        assert b == body + b[|body|..];
        if Fits(ft) && (b[11] != 0 <==> ft.versioned) {
          TxPrints(ft, b[11], b[|body|..]);
        }
      }
    }
    if DecodePrefix(b) == Done(ft, rest) {
      PrintedBody(b, ft, b[11]);
      assert b[|EncodeBody(ft, b[11])|..] == rest;
    }
  }

  /** Acceptance, whatever follows: at most one transaction is laid out at the front of b and fits. */
  lemma AcceptsIffLaidOut(b: seq<Byte>)
    ensures DecodePrefix(b).Done? ==>
              |b| == BodyLength(DecodePrefix(b).value) + |DecodePrefix(b).rest|
    ensures forall ft :: DecodePrefix(b).Done? && DecodePrefix(b).value == ft <==>
                         |b| <= 0x1_0000 && Fits(ft) && LaidOut(b, ft)
  {
    hide DecodePrefix, Fits, LaidOut, BodyLength;
    forall ft
      ensures DecodePrefix(b).Done? && DecodePrefix(b).value == ft <==>
              |b| <= 0x1_0000 && Fits(ft) && LaidOut(b, ft)
    {
      if LaidOut(b, ft) {
        LaidOutEnds(b, ft);
        DecodesIffLaidOut(b, ft, b[BodyLength(ft)..]);
      }
      if DecodePrefix(b).Done? {
        DecodesIffLaidOut(b, DecodePrefix(b).value, DecodePrefix(b).rest);
      }
    }
    if DecodePrefix(b).Done? {
      DecodesIffLaidOut(b, DecodePrefix(b).value, DecodePrefix(b).rest);
    }
  }

  lemma LaidOutEnds(b: seq<Byte>, ft: FullTx)
    requires LaidOut(b, ft)
    ensures BodyLength(ft) <= |b|
  {
    hide EncodeBody, SignaturesAt, KeysAt, InstructionsAt, LookupsAt, BodyLength;
    PrintedBody(b, ft, b[11]);
  }

  lemma AcceptedIsLaidOut(b: seq<Byte>)
    ensures DecodePrefix(b).Done? ==> Fits(DecodePrefix(b).value) && LaidOut(b, DecodePrefix(b).value)
  {
    hide DecodePrefix, Fits, LaidOut;
    AcceptsIffLaidOut(b);
  }

  /** The fixed bytes of an accepted body, and its signatures and keys. */
  lemma AcceptedFront(b: seq<Byte>)
    requires DecodePrefix(b).Done?
    ensures var ft, s: seq<int> := DecodePrefix(b).value, b;
            && |b| >= 52
            && ft.slot == s[0] + 0x100 * s[1] + 0x1_0000 * s[2] + 0x100_0000 * s[3] + 0x1_0000_0000 * s[4]
                          + 0x100_0000_0000 * s[5] + 0x1_0000_0000_0000 * s[6] + 0x100_0000_0000_0000 * s[7]
            && ft.numRequiredSignatures == s[8]
            && ft.numReadonlySignedAccounts == s[9]
            && ft.numReadonlyUnsignedAccounts == s[10]
            && (ft.versioned <==> s[11] != 0)
            && ft.recentBlockhash == b[12..44]
            && |ft.signatures| == s[44] + 0x100 * s[45]
    ensures var ft, s: seq<int> := DecodePrefix(b).value, b;
            var keysAt := 46 + 64 * |ft.signatures|;
            && keysAt + 2 + 32 * |ft.accountKeys| <= |b|
            && (forall i :: 0 <= i < |ft.signatures| ==> ft.signatures[i] == b[46 + 64 * i..46 + 64 * i + 64])
            && |ft.accountKeys| == s[keysAt] + 0x100 * s[keysAt + 1]
            && (forall i :: 0 <= i < |ft.accountKeys| ==>
                  ft.accountKeys[i] == b[keysAt + 2 + 32 * i..keysAt + 2 + 32 * i + 32])
  {
    hide DecodePrefix, InstructionsAt, LookupAt, InstructionBytes, LookupBytes;
    AcceptedIsLaidOut(b);
  }

  /** The literal bytes of a field that fits. */
  lemma BlobBytes(b: seq<Byte>, at: nat, v: seq<Byte>)
    requires BlobAt(b, at, v) && |v| < TWO_16
    ensures var s: seq<int> := b;
            at + 2 + |v| <= |b| && |v| == s[at] + 0x100 * s[at + 1] && v == b[at + 2..at + 2 + |v|]
  {
  }

  /** Instruction i of an accepted body: its program index, account indexes and data. */
  lemma AcceptedInstruction(b: seq<Byte>, i: nat)
    requires DecodePrefix(b).Done? && i < |DecodePrefix(b).value.instructions|
    ensures var ft, s: seq<int> := DecodePrefix(b).value, b;
            var ix := ft.instructions[i];
            var from := 48 + 64 * |ft.signatures| + 32 * |ft.accountKeys|;
            var at := from + 2 + InstructionBytes(ft.instructions[..i]);
            var dataAt := at + 3 + |ix.accounts|;
            && dataAt + 2 + |ix.data| <= |b|
            && |ft.instructions| == s[from] + 0x100 * s[from + 1]
            && ix.programIdIndex == s[at]
            && |ix.accounts| == s[at + 1] + 0x100 * s[at + 2] && ix.accounts == b[at + 3..dataAt]
            && |ix.data| == s[dataAt] + 0x100 * s[dataAt + 1] && ix.data == b[dataAt + 2..dataAt + 2 + |ix.data|]
  {
    hide DecodePrefix, HeaderAt, SignaturesAt, KeysAt, LookupsAt, BlobAt, InstructionBytes, LookupBytes;
    AcceptedIsLaidOut(b);
    var ft := DecodePrefix(b).value;
    var ix, at := ft.instructions[i], InstructionsFrom(ft) + 2 + InstructionBytes(ft.instructions[..i]);
    assert InstructionFits(ix) && InstructionAt(b, at, ix);
    BlobBytes(b, at + 1, ix.accounts);
    BlobBytes(b, at + 3 + |ix.accounts|, ix.data);
  }

  /** Lookup i of an accepted body: its table key, writable indexes and readonly indexes. */
  lemma AcceptedLookup(b: seq<Byte>, i: nat)
    requires DecodePrefix(b).Done? && i < |DecodePrefix(b).value.addressTableLookups|
    ensures var ft, s: seq<int> := DecodePrefix(b).value, b;
            var l := ft.addressTableLookups[i];
            var from := 50 + 64 * |ft.signatures| + 32 * |ft.accountKeys| + InstructionBytes(ft.instructions);
            var at := from + 2 + LookupBytes(ft.addressTableLookups[..i]);
            var readonlyAt := at + 34 + |l.writableIndexes|;
            && readonlyAt + 2 + |l.readonlyIndexes| <= |b|
            && |ft.addressTableLookups| == s[from] + 0x100 * s[from + 1]
            && l.accountKey == b[at..at + 32]
            && |l.writableIndexes| == s[at + 32] + 0x100 * s[at + 33]
            && l.writableIndexes == b[at + 34..readonlyAt]
            && |l.readonlyIndexes| == s[readonlyAt] + 0x100 * s[readonlyAt + 1]
            && l.readonlyIndexes == b[readonlyAt + 2..readonlyAt + 2 + |l.readonlyIndexes|]
  {
    hide DecodePrefix, HeaderAt, SignaturesAt, KeysAt, InstructionsAt, BlobAt, InstructionBytes, LookupBytes;
    AcceptedIsLaidOut(b);
    var ft := DecodePrefix(b).value;
    var l, at := ft.addressTableLookups[i], LookupsFrom(ft) + 2 + LookupBytes(ft.addressTableLookups[..i]);
    assert LookupFits(l) && LookupAt(b, at, l);
    BlobBytes(b, at + 32, l.writableIndexes);
    BlobBytes(b, at + 34 + |l.writableIndexes|, l.readonlyIndexes);
  }
}
