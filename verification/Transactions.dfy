/**
 The positional full-transaction body: its printed form, its parser, and what
 the pair guarantees. The imperative encoder and decoder are in Codec.
 */
module Transactions {
  import opened Bytes
  import opened Parsing

  /** The cap on what follows a frame's type and flags bytes, and on a standalone body. */
  const MAX_FULL_TX_BODY := 0x1_0000

  datatype Instruction = Instruction(programIdIndex: U32, accounts: seq<Byte>, data: seq<Byte>)

  datatype AddressTableLookup = AddressTableLookup(
    accountKey: Key, writableIndexes: seq<Byte>, readonlyIndexes: seq<Byte>)

  datatype FullTx = FullTx(
    slot: U64,
    versioned: bool,
    numRequiredSignatures: U32,
    numReadonlySignedAccounts: U32,
    numReadonlyUnsignedAccounts: U32,
    recentBlockhash: Key,
    signatures: seq<Signature>,
    accountKeys: seq<Key>,
    instructions: seq<Instruction>,
    addressTableLookups: seq<AddressTableLookup>)

  /** The fixed first 44 bytes; versionByte is the raw byte 11. */
  datatype Header = Header(slot: U64, required: Byte, readonlySigned: Byte, readonlyUnsigned: Byte,
                           versionByte: Byte, blockhash: Key)

  // ---------- printed form ----------

  function EncodeKey(k: Key): seq<Byte> {
    k
  }

  function EncodeSignature(s: Signature): seq<Byte> {
    s
  }

  function EncodeInstruction(ix: Instruction): seq<Byte> {
    [ix.programIdIndex % 256] + EncodeBlob(ix.accounts) + EncodeBlob(ix.data)
  }

  function EncodeLookup(l: AddressTableLookup): seq<Byte> {
    l.accountKey + EncodeBlob(l.writableIndexes) + EncodeBlob(l.readonlyIndexes)
  }

  function EncodeHeader(h: Header): seq<Byte> {
    LittleEndian(8, h.slot) + [h.required, h.readonlySigned, h.readonlyUnsigned, h.versionByte] + h.blockhash
  }

  function HeaderOf(ft: FullTx, versionByte: Byte): Header {
    Header(ft.slot, ft.numRequiredSignatures % 256, ft.numReadonlySignedAccounts % 256,
           ft.numReadonlyUnsignedAccounts % 256, versionByte, ft.recentBlockhash)
  }

  function EncodeSigners(signatures: seq<Signature>, keys: seq<Key>): seq<Byte> {
    EncodeCounted(EncodeSignature, signatures) + EncodeCounted(EncodeKey, keys)
  }

  function EncodeCode(instructions: seq<Instruction>, lookups: seq<AddressTableLookup>): seq<Byte> {
    EncodeCounted(EncodeInstruction, instructions) + EncodeCounted(EncodeLookup, lookups)
  }

  function EncodeLists(ft: FullTx): seq<Byte> {
    EncodeSigners(ft.signatures, ft.accountKeys) + EncodeCode(ft.instructions, ft.addressTableLookups)
  }

  /** The body as a peer may write it: any non-zero versionByte says "versioned". */
  function EncodeBody(ft: FullTx, versionByte: Byte): seq<Byte> {
    EncodeHeader(HeaderOf(ft, versionByte)) + EncodeLists(ft)
  }

  function EncodeTx(ft: FullTx): seq<Byte> {
    EncodeBody(ft, if ft.versioned then 1 else 0)
  }

  // ---------- what the layout can carry ----------

  predicate InstructionFits(ix: Instruction) {
    ix.programIdIndex < 256 && |ix.accounts| < TWO_16 && |ix.data| < TWO_16
  }

  predicate LookupFits(l: AddressTableLookup) {
    |l.writableIndexes| < TWO_16 && |l.readonlyIndexes| < TWO_16
  }

  function Always<T>(): T -> bool {
    x => true
  }

  predicate BytesFit(ft: FullTx) {
    && ft.numRequiredSignatures < 256
    && ft.numReadonlySignedAccounts < 256
    && ft.numReadonlyUnsignedAccounts < 256
    && forall ix <- ft.instructions :: ix.programIdIndex < 256
  }

  /** Every number of the transaction survives the width it is printed in. */
  predicate Fits(ft: FullTx) {
    && BytesFit(ft)
    && |ft.signatures| < TWO_16
    && |ft.accountKeys| < TWO_16
    && |ft.instructions| < TWO_16
    && |ft.addressTableLookups| < TWO_16
    && (forall ix <- ft.instructions :: InstructionFits(ix))
    && (forall l <- ft.addressTableLookups :: LookupFits(l))
  }

  // ---------- parser ----------

  function ParseInstruction(s: seq<Byte>): Parse<Instruction> {
    var (pid, s1) :- ParseU8(s);
    var (accounts, s2) :- ParseBlob(s1);
    var (data, s3) :- ParseBlob(s2);
    Done(Instruction(pid, accounts, data), s3)
  }

  function ParseLookup(s: seq<Byte>): Parse<AddressTableLookup> {
    var (key, s1) :- ParseKey(s);
    var (w, s2) :- ParseBlob(s1);
    var (r, s3) :- ParseBlob(s2);
    Done(AddressTableLookup(key, w, r), s3)
  }

  function ParseHeader(s: seq<Byte>): Parse<Header> {
    if |s| < 44 then Fail else
    Pow256Values();
    Done(Header(FromLittleEndian(s[..8]), s[8], s[9], s[10], s[11], s[12..44]), s[44..])
  }

  function ParseSigners(guarded: bool, s: seq<Byte>): Parse<(seq<Signature>, seq<Key>)> {
    var (signatures, s1) :- ParseCounted(guarded, 64, ParseSignature, s);
    var (keys, s2) :- ParseCounted(guarded, 32, ParseKey, s1);
    Done((signatures, keys), s2)
  }

  function ParseCode(guarded: bool, s: seq<Byte>): Parse<(seq<Instruction>, seq<AddressTableLookup>)> {
    var (instructions, s1) :- ParseCounted(guarded, 5, ParseInstruction, s);
    var (lookups, s2) :- ParseCounted(guarded, 36, ParseLookup, s1);
    Done((instructions, lookups), s2)
  }

  function Assemble(h: Header, signers: (seq<Signature>, seq<Key>),
                    code: (seq<Instruction>, seq<AddressTableLookup>)): FullTx {
    FullTx(h.slot, h.versionByte != 0, h.required, h.readonlySigned, h.readonlyUnsigned, h.blockhash,
           signers.0, signers.1, code.0, code.1)
  }

  /** The four counted lists that follow header h. */
  function ParseLists(guarded: bool, h: Header, s: seq<Byte>): Parse<FullTx> {
    var (signers, s1) :- ParseSigners(guarded, s);
    var (code, s2) :- ParseCode(guarded, s1);
    Done(Assemble(h, signers, code), s2)
  }

  function ParseTx(guarded: bool, s: seq<Byte>): Parse<FullTx> {
    var (h, s1) :- ParseHeader(s);
    ParseLists(guarded, h, s1)
  }

  /** The language the prefix decoder accepts: the capped parser, with its count guards. */
  function DecodePrefix(b: seq<Byte>): Parse<FullTx> {
    if |b| > MAX_FULL_TX_BODY then Fail else ParseTx(true, b)
  }

  /** The language of the standalone decoder: exact consumption. */
  function DecodeExact(b: seq<Byte>): Parse<FullTx> {
    var r := DecodePrefix(b);
    if r.Done? && |r.rest| == 0 then r else Fail
  }

  // ---------- laws of the parts ----------

  lemma SignatureLaws()
    ensures Prints(EncodeSignature, ParseSignature, Always())
    ensures Reads(EncodeSignature, ParseSignature, Always())
  {
  }

  lemma KeyLaws()
    ensures Prints(EncodeKey, ParseKey, Always())
    ensures Reads(EncodeKey, ParseKey, Always())
  {
  }

  lemma InstructionPrints(ix: Instruction, t: seq<Byte>)
    requires InstructionFits(ix)
    ensures ParseInstruction(EncodeInstruction(ix) + t) == Done(ix, t)
  {
    var a, d := EncodeBlob(ix.accounts), EncodeBlob(ix.data);
    assert EncodeInstruction(ix) + t == [ix.programIdIndex] + (a + (d + t));
    BlobPrints(ix.accounts, d + t);
    BlobPrints(ix.data, t);
  }

  lemma InstructionReads(s: seq<Byte>)
    ensures var r := ParseInstruction(s);
            r.Done? ==> InstructionFits(r.value) && s == EncodeInstruction(r.value) + r.rest
  {
    hide FromLittleEndian, LittleEndian, Pow256;
    if ParseInstruction(s).Done? {
      BlobReads(s[1..]);
      BlobReads(ParseBlob(s[1..]).rest);
      assert s == [s[0]] + s[1..];
    }
  }

  lemma InstructionLaws()
    ensures Prints(EncodeInstruction, ParseInstruction, InstructionFits)
    ensures Reads(EncodeInstruction, ParseInstruction, InstructionFits)
  {
    forall ix, t | InstructionFits(ix) ensures ParseInstruction(EncodeInstruction(ix) + t) == Done(ix, t) {
      InstructionPrints(ix, t);
    }
    forall s { InstructionReads(s); }
  }

  lemma LookupPrints(l: AddressTableLookup, t: seq<Byte>)
    requires LookupFits(l)
    ensures ParseLookup(EncodeLookup(l) + t) == Done(l, t)
  {
    var w, r := EncodeBlob(l.writableIndexes), EncodeBlob(l.readonlyIndexes);
    assert EncodeLookup(l) + t == l.accountKey + (w + (r + t));
    BlobPrints(l.writableIndexes, r + t);
    BlobPrints(l.readonlyIndexes, t);
  }

  lemma LookupReads(s: seq<Byte>)
    ensures var r := ParseLookup(s);
            r.Done? ==> LookupFits(r.value) && s == EncodeLookup(r.value) + r.rest
  {
    hide FromLittleEndian, LittleEndian, Pow256;
    if ParseLookup(s).Done? {
      BlobReads(s[32..]);
      BlobReads(ParseBlob(s[32..]).rest);
      assert s == s[..32] + s[32..];
    }
  }

  lemma LookupLaws()
    ensures Prints(EncodeLookup, ParseLookup, LookupFits)
    ensures Reads(EncodeLookup, ParseLookup, LookupFits)
  {
    forall l, t | LookupFits(l) ensures ParseLookup(EncodeLookup(l) + t) == Done(l, t) {
      LookupPrints(l, t);
    }
    forall s { LookupReads(s); }
  }

  lemma HeaderPrints(h: Header, t: seq<Byte>)
    ensures ParseHeader(EncodeHeader(h) + t) == Done(h, t)
  {
    var s := EncodeHeader(h) + t;
    Pow256Values();
    LittleEndianRoundTrip(8, h.slot);
    assert s[..8] == LittleEndian(8, h.slot);
    assert s[12..44] == h.blockhash && s[44..] == t;
  }

  lemma HeaderReads(s: seq<Byte>)
    ensures var r := ParseHeader(s);
            r.Done? ==> r.value.versionByte == s[11] && s == EncodeHeader(r.value) + r.rest
  {
    if |s| >= 44 {
      LittleEndianCanonical(s[..8]);
      assert s == s[..8] + [s[8], s[9], s[10], s[11]] + s[12..44] + s[44..];
    }
  }

  // ---------- laws of the four lists ----------

  lemma SignatureListPrints(xs: seq<Signature>, t: seq<Byte>)
    requires |xs| < TWO_16
    ensures ParseCounted(false, 64, ParseSignature, EncodeCounted(EncodeSignature, xs) + t) == Done(xs, t)
  {
    SignatureLaws();
    CountedPrints(EncodeSignature, ParseSignature, Always(), 64, xs, t);
  }

  lemma SignatureListReads(s: seq<Byte>)
    ensures ParseCounted(true, 64, ParseSignature, s) == ParseCounted(false, 64, ParseSignature, s)
    ensures var r := ParseCounted(false, 64, ParseSignature, s);
            r.Done? ==> |r.value| < TWO_16
                        && s == EncodeCounted(EncodeSignature, r.value) + r.rest
  {
    SignatureLaws();
    CountGuardIsPure(EncodeSignature, ParseSignature, Always(), 64, s);
    CountedReads(EncodeSignature, ParseSignature, Always(), 64, s);
  }

  lemma KeyListPrints(xs: seq<Key>, t: seq<Byte>)
    requires |xs| < TWO_16
    ensures ParseCounted(false, 32, ParseKey, EncodeCounted(EncodeKey, xs) + t) == Done(xs, t)
  {
    KeyLaws();
    CountedPrints(EncodeKey, ParseKey, Always(), 32, xs, t);
  }

  lemma KeyListReads(s: seq<Byte>)
    ensures ParseCounted(true, 32, ParseKey, s) == ParseCounted(false, 32, ParseKey, s)
    ensures var r := ParseCounted(false, 32, ParseKey, s);
            r.Done? ==> |r.value| < TWO_16
                        && s == EncodeCounted(EncodeKey, r.value) + r.rest
  {
    KeyLaws();
    CountGuardIsPure(EncodeKey, ParseKey, Always(), 32, s);
    CountedReads(EncodeKey, ParseKey, Always(), 32, s);
  }

  lemma InstructionListPrints(xs: seq<Instruction>, t: seq<Byte>)
    requires |xs| < TWO_16 && forall x <- xs :: InstructionFits(x)
    ensures ParseCounted(false, 5, ParseInstruction, EncodeCounted(EncodeInstruction, xs) + t) == Done(xs, t)
  {
    InstructionLaws();
    CountedPrints(EncodeInstruction, ParseInstruction, InstructionFits, 5, xs, t);
  }

  lemma InstructionListReads(s: seq<Byte>)
    ensures ParseCounted(true, 5, ParseInstruction, s) == ParseCounted(false, 5, ParseInstruction, s)
    ensures var r := ParseCounted(false, 5, ParseInstruction, s);
            r.Done? ==> |r.value| < TWO_16 && (forall x <- r.value :: InstructionFits(x))
                        && s == EncodeCounted(EncodeInstruction, r.value) + r.rest
  {
    InstructionLaws();
    CountGuardIsPure(EncodeInstruction, ParseInstruction, InstructionFits, 5, s);
    CountedReads(EncodeInstruction, ParseInstruction, InstructionFits, 5, s);
  }

  lemma LookupListPrints(xs: seq<AddressTableLookup>, t: seq<Byte>)
    requires |xs| < TWO_16 && forall x <- xs :: LookupFits(x)
    ensures ParseCounted(false, 36, ParseLookup, EncodeCounted(EncodeLookup, xs) + t) == Done(xs, t)
  {
    LookupLaws();
    CountedPrints(EncodeLookup, ParseLookup, LookupFits, 36, xs, t);
  }

  lemma LookupListReads(s: seq<Byte>)
    ensures ParseCounted(true, 36, ParseLookup, s) == ParseCounted(false, 36, ParseLookup, s)
    ensures var r := ParseCounted(false, 36, ParseLookup, s);
            r.Done? ==> |r.value| < TWO_16 && (forall x <- r.value :: LookupFits(x))
                        && s == EncodeCounted(EncodeLookup, r.value) + r.rest
  {
    LookupLaws();
    CountGuardIsPure(EncodeLookup, ParseLookup, LookupFits, 36, s);
    CountedReads(EncodeLookup, ParseLookup, LookupFits, 36, s);
  }

  // ---------- laws of the body ----------

  lemma Associate(a: seq<Byte>, b: seq<Byte>, t: seq<Byte>)
    ensures (a + b) + t == a + (b + t)
  {
  }

  /** The count guards 64, 32, 5 and 36 change neither what is accepted nor the result. */
  lemma GuardsArePure(s: seq<Byte>)
    ensures ParseTx(true, s) == ParseTx(false, s)
  {
    var hr := ParseHeader(s);
    if hr.Done? {
      ListGuardsArePure(hr.value, hr.rest);
    }
  }

  lemma ListGuardsArePure(h: Header, s: seq<Byte>)
    ensures ParseLists(true, h, s) == ParseLists(false, h, s)
  {
    SignersRead(s);
    var r := ParseSigners(true, s);
    if r.Done? {
      CodeReads(r.rest);
    }
  }

  lemma SignersPrint(signatures: seq<Signature>, keys: seq<Key>, t: seq<Byte>)
    requires |signatures| < TWO_16 && |keys| < TWO_16
    ensures ParseSigners(false, EncodeSigners(signatures, keys) + t) == Done((signatures, keys), t)
  {
    var a, b := EncodeCounted(EncodeSignature, signatures), EncodeCounted(EncodeKey, keys);
    Associate(a, b, t);
    SignatureListPrints(signatures, b + t);
    KeyListPrints(keys, t);
  }

  lemma CodePrints(instructions: seq<Instruction>, lookups: seq<AddressTableLookup>, t: seq<Byte>)
    requires |instructions| < TWO_16 && forall ix <- instructions :: InstructionFits(ix)
    requires |lookups| < TWO_16 && forall l <- lookups :: LookupFits(l)
    ensures ParseCode(false, EncodeCode(instructions, lookups) + t) == Done((instructions, lookups), t)
  {
    var a, b := EncodeCounted(EncodeInstruction, instructions), EncodeCounted(EncodeLookup, lookups);
    Associate(a, b, t);
    InstructionListPrints(instructions, b + t);
    LookupListPrints(lookups, t);
  }

  lemma SignersRead(s: seq<Byte>)
    ensures ParseSigners(true, s) == ParseSigners(false, s)
    ensures var r := ParseSigners(false, s);
            r.Done? ==> |r.value.0| < TWO_16 && |r.value.1| < TWO_16
                        && s == EncodeSigners(r.value.0, r.value.1) + r.rest
  {
    SignatureListReads(s);
    var r1 := ParseCounted(false, 64, ParseSignature, s);
    if r1.Done? {
      KeyListReads(r1.rest);
      var r2 := ParseCounted(false, 32, ParseKey, r1.rest);
      if r2.Done? {
        Associate(EncodeCounted(EncodeSignature, r1.value), EncodeCounted(EncodeKey, r2.value), r2.rest);
      }
    }
  }

  lemma CodeReads(s: seq<Byte>)
    ensures ParseCode(true, s) == ParseCode(false, s)
    ensures var r := ParseCode(false, s);
            r.Done? ==> |r.value.0| < TWO_16 && (forall ix <- r.value.0 :: InstructionFits(ix))
                        && |r.value.1| < TWO_16 && (forall l <- r.value.1 :: LookupFits(l))
                        && s == EncodeCode(r.value.0, r.value.1) + r.rest
  {
    InstructionListReads(s);
    var r1 := ParseCounted(false, 5, ParseInstruction, s);
    if r1.Done? {
      LookupListReads(r1.rest);
      var r2 := ParseCounted(false, 36, ParseLookup, r1.rest);
      if r2.Done? {
        Associate(EncodeCounted(EncodeInstruction, r1.value), EncodeCounted(EncodeLookup, r2.value), r2.rest);
      }
    }
  }

  lemma ListsPrint(ft: FullTx, h: Header, t: seq<Byte>)
    requires Fits(ft)
    requires h == HeaderOf(ft, h.versionByte) && ft.versioned == (h.versionByte != 0)
    ensures ParseLists(false, h, EncodeLists(ft) + t) == Done(ft, t)
  {
    hide EncodeSigners, EncodeCode, ParseSigners, ParseCode;
    var code := EncodeCode(ft.instructions, ft.addressTableLookups);
    Associate(EncodeSigners(ft.signatures, ft.accountKeys), code, t);
    SignersPrint(ft.signatures, ft.accountKeys, code + t);
    CodePrints(ft.instructions, ft.addressTableLookups, t);
  }

  lemma ListsRead(h: Header, s: seq<Byte>)
    ensures var r := ParseLists(false, h, s);
            r.Done? ==> Fits(r.value) && s == EncodeLists(r.value) + r.rest
                        && h == HeaderOf(r.value, h.versionByte) && r.value.versioned == (h.versionByte != 0)
  {
    hide EncodeSigners, EncodeCode, ParseSigners, ParseCode;
    SignersRead(s);
    var r1 := ParseSigners(false, s);
    if r1.Done? {
      CodeReads(r1.rest);
      var r2 := ParseCode(false, r1.rest);
      if r2.Done? {
        Associate(EncodeSigners(r1.value.0, r1.value.1), EncodeCode(r2.value.0, r2.value.1), r2.rest);
      }
    }
  }

  lemma TxPrints(ft: FullTx, versionByte: Byte, t: seq<Byte>)
    requires Fits(ft) && ft.versioned == (versionByte != 0)
    ensures ParseTx(true, EncodeBody(ft, versionByte) + t) == Done(ft, t)
  {
    var h := HeaderOf(ft, versionByte);
    Associate(EncodeHeader(h), EncodeLists(ft), t);
    HeaderPrints(h, EncodeLists(ft) + t);
    ListsPrint(ft, h, t);
    GuardsArePure(EncodeBody(ft, versionByte) + t);
  }

  /** Whatever is accepted begins with the printing of the result, up to the raw version byte. */
  lemma TxReads(s: seq<Byte>)
    ensures var r := ParseTx(true, s);
            r.Done? ==> |s| > 11 && Fits(r.value) && r.value.versioned == (s[11] != 0)
                        && s == EncodeBody(r.value, s[11]) + r.rest
  {
    HeaderReads(s);
    var hr := ParseHeader(s);
    if hr.Done? {
      ListGuardsArePure(hr.value, hr.rest);
      ListsRead(hr.value, hr.rest);
      var r := ParseLists(true, hr.value, hr.rest);
      if r.Done? {
        Associate(EncodeHeader(hr.value), EncodeLists(r.value), r.rest);
      }
    }
  }

  /** Bytes added behind an accepted prefix are left alone. */
  lemma TxExtends(s: seq<Byte>, t: seq<Byte>)
    ensures var r := ParseTx(true, s); r.Done? ==> ParseTx(true, s + t) == Done(r.value, r.rest + t)
  {
    TxReads(s);
    var r := ParseTx(true, s);
    if r.Done? {
      var body := EncodeBody(r.value, s[11]);
      Associate(body, r.rest, t);
      TxPrints(r.value, s[11], r.rest + t);
    }
  }

  // ---------- main results ----------

  /**
   Under the size cap nothing was truncated: an encoding of at most 64 KiB has
   every count and length below 2^16.
   */
  lemma CapImpliesFits(ft: FullTx)
    requires BytesFit(ft) && |EncodeTx(ft)| <= MAX_FULL_TX_BODY
    ensures Fits(ft)
  {
    ConcatLength(EncodeSignature, 64, ft.signatures);
    ConcatLength(EncodeKey, 32, ft.accountKeys);
    ConcatLength(EncodeInstruction, 5, ft.instructions);
    ConcatLength(EncodeLookup, 36, ft.addressTableLookups);
    forall ix <- ft.instructions ensures InstructionFits(ix) {
      ConcatBounds(EncodeInstruction, ft.instructions, ix);
    }
    forall l <- ft.addressTableLookups ensures LookupFits(l) {
      ConcatBounds(EncodeLookup, ft.addressTableLookups, l);
    }
  }

  /** Decoding an encoding followed by any tail within the cap stops at the encoding's end. */
  lemma PrefixRoundTrip(ft: FullTx, t: seq<Byte>)
    requires BytesFit(ft) && |EncodeTx(ft) + t| <= MAX_FULL_TX_BODY
    ensures DecodePrefix(EncodeTx(ft) + t) == Done(ft, t)
  {
    CapImpliesFits(ft);
    TxPrints(ft, if ft.versioned then 1 else 0, t);
  }

  /** A transaction survives the round trip exactly when its bytes fit and its encoding is within the cap. */
  lemma RoundTrip(ft: FullTx)
    ensures DecodeExact(EncodeTx(ft)) == Done(ft, []) <==> BytesFit(ft) && |EncodeTx(ft)| <= MAX_FULL_TX_BODY
  {
    if BytesFit(ft) && |EncodeTx(ft)| <= MAX_FULL_TX_BODY {
      assert EncodeTx(ft) + [] == EncodeTx(ft);
      PrefixRoundTrip(ft, []);
    }
    TxReads(EncodeTx(ft));
  }

  /** The accepted prefixes are exactly the printings of fitting transactions under the cap. */
  lemma AcceptedPrefixes(b: seq<Byte>, ft: FullTx, rest: seq<Byte>)
    ensures DecodePrefix(b) == Done(ft, rest) <==>
            |b| <= MAX_FULL_TX_BODY && Fits(ft) &&
            exists v: Byte :: ft.versioned == (v != 0) && b == EncodeBody(ft, v) + rest
  {
    TxReads(b);
    forall v: Byte | Fits(ft) && ft.versioned == (v != 0) && b == EncodeBody(ft, v) + rest
      ensures ParseTx(true, b) == Done(ft, rest)
    {
      TxPrints(ft, v, rest);
    }
  }

  /** Re-encoding an accepted body gives it back, with byte 11 normalised to 0 or 1. */
  lemma Canonicity(b: seq<Byte>, ft: FullTx)
    ensures DecodeExact(b) == Done(ft, []) ==>
              |b| > 11 && EncodeTx(ft) == Normalised(b) && ft.versioned == (b[11] != 0)
  {
    hide EncodeLists;
    TxReads(b);
    if DecodeExact(b) == Done(ft, []) {
      var h := EncodeHeader(HeaderOf(ft, b[11]));
      assert b == h + EncodeLists(ft);
      HeaderVersionByte(HeaderOf(ft, b[11]), if b[11] != 0 then 1 else 0);
    }
  }

  /** Hence the encoder undoes the decoder exactly on the bodies whose byte 11 is 0 or 1. */
  lemma ReencodingIff(b: seq<Byte>)
    ensures DecodeExact(b).Done? ==> |b| > 11 && (EncodeTx(DecodeExact(b).value) == b <==> b[11] <= 1)
  {
    hide DecodePrefix, EncodeTx;
    if DecodeExact(b).Done? {
      Canonicity(b, DecodeExact(b).value);
      assert b[11] <= 1 ==> Normalised(b) == b;
    }
  }

  /** A transaction without lists. */
  function Bare(versioned: bool, required: U32): FullTx {
    FullTx(0, versioned, required, 0, 0, seq(32, _ => 0), [], [], [], [])
  }

  lemma BareLength(versioned: bool, required: U32, versionByte: Byte)
    ensures |EncodeBody(Bare(versioned, required), versionByte)| == 52
  {
  }

  /** An accepted body that re-encodes to something else: byte 11 is 2. */
  lemma ReencodingDiffers()
    ensures exists b :: DecodeExact(b).Done? && EncodeTx(DecodeExact(b).value) != b
  {
    hide DecodeExact, EncodeTx, Fits;
    var ft := Bare(true, 0);
    var b := EncodeBody(ft, 2);
    BareDecodes();
    ReencodingIff(b);
    assert b[11] == 2;
  }

  lemma BareDecodes()
    ensures DecodeExact(EncodeBody(Bare(true, 0), 2)) == Done(Bare(true, 0), [])
  {
    hide EncodeBody, ParseTx;
    var b := EncodeBody(Bare(true, 0), 2);
    BareLength(true, 0, 2);
    TxPrints(Bare(true, 0), 2, []);
    assert b + [] == b;
  }

  /** A transaction the round trip does not return: its signature count is 256. */
  lemma RoundTripDiffers()
    ensures exists ft :: |EncodeTx(ft)| <= MAX_FULL_TX_BODY && DecodeExact(EncodeTx(ft)) != Done(ft, [])
  {
    hide DecodeExact;
    var ft := Bare(false, 256);
    BareLength(false, 256, 0);
    RoundTrip(ft);
    assert |EncodeTx(ft)| <= MAX_FULL_TX_BODY;
  }

  function Normalised(b: seq<Byte>): seq<Byte>
    requires |b| > 11
  {
    b[11 := if b[11] != 0 then 1 else 0]
  }

  lemma HeaderVersionByte(h: Header, v: Byte)
    ensures EncodeHeader(h.(versionByte := v)) == EncodeHeader(h)[11 := v]
  {
  }

  /** Decoding is injective up to byte 11. */
  lemma DecodingIsInjective(a: seq<Byte>, b: seq<Byte>)
    ensures DecodeExact(a).Done? && DecodeExact(a) == DecodeExact(b) ==>
              |a| == |b| > 11 && a[..11] == b[..11] && a[12..] == b[12..] && (a[11] != 0 <==> b[11] != 0)
  {
    hide DecodePrefix;
    if DecodeExact(a).Done? && DecodeExact(a) == DecodeExact(b) {
      Canonicity(a, DecodeExact(a).value);
      Canonicity(b, DecodeExact(b).value);
      assert a[..11] == Normalised(a)[..11] && a[12..] == Normalised(a)[12..];
      assert b[..11] == Normalised(b)[..11] && b[12..] == Normalised(b)[12..];
    }
  }

  /** The result depends on the consumed bytes alone, whatever tail within the cap follows them. */
  lemma Locality(b: seq<Byte>, t: seq<Byte>)
    ensures var r := DecodePrefix(b);
            r.Done? && |b| - |r.rest| + |t| <= MAX_FULL_TX_BODY ==>
              |r.rest| <= |b| && DecodePrefix(b[..|b| - |r.rest|] + t) == Done(r.value, t)
  {
    TxReads(b);
    var r := DecodePrefix(b);
    if r.Done? && |b| - |r.rest| + |t| <= MAX_FULL_TX_BODY {
      var body := EncodeBody(r.value, b[11]);
      assert b[..|body|] == body;
      TxPrints(r.value, b[11], t);
    }
  }

  /** No proper prefix of what was consumed is accepted. */
  lemma PrefixFreedom(b: seq<Byte>, k: nat)
    ensures DecodePrefix(b).Done? && k + |DecodePrefix(b).rest| < |b| ==> DecodePrefix(b[..k]) == Fail
  {
    if DecodePrefix(b).Done? && k + |DecodePrefix(b).rest| < |b| && DecodePrefix(b[..k]).Done? {
      assert b == b[..k] + b[k..];
      TxExtends(b[..k], b[k..]);
    }
  }

  /** Hence no accepted standalone body is a proper prefix of another. */
  lemma NoBodyExtendsAnother(a: seq<Byte>, b: seq<Byte>)
    ensures DecodeExact(a).Done? && DecodeExact(b).Done? && a <= b ==> a == b
  {
    if a <= b {
      assert a == b[..|a|];
      PrefixFreedom(b, |a|);
    }
  }
}
