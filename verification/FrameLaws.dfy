/** What the frame encoder and decoder guarantee together, and forward compatibility of the trailer. */
module FrameLaws {
  import opened Bytes
  import opened Outcomes
  import opened Parsing
  import opened Transactions
  import opened Tlvs
  import opened Frames

  /** A transaction frame as a peer may write it: any flags, raw version byte and trailer. */
  function TxFrameBytes(flags: Byte, ft: FullTx, versionByte: Byte, ts: seq<Tlv>): seq<Byte> {
    [MSG_TX, flags] + (EncodeBody(ft, versionByte) + EncodeTlvs(ts))
  }

  function HeartbeatBytes(flags: Byte, ts: seq<Tlv>): seq<Byte> {
    [MSG_HEARTBEAT, flags] + EncodeTlvs(ts)
  }

  /** The decoder's verdict on any frame built from a fitting body and whole records. */
  lemma TxFrameVerdict(flags: Byte, ft: FullTx, versionByte: Byte, ts: seq<Tlv>)
    requires Fits(ft) && ft.versioned == (versionByte != 0) && AllFit(ts)
    ensures FrameOf(TxFrameBytes(flags, ft, versionByte, ts)) ==
            if flags / 2 != 0 || |TxFrameBytes(flags, ft, versionByte, ts)| - 2 > MAX_FULL_TX_BODY || !DistinctTypes(ts)
            then Err(BadFrame) else TxFrame(flags, ft, ts)
  {
    hide ParseTx, EncodeBody, TxFrame;
    var src := TxFrameBytes(flags, ft, versionByte, ts);
    assert src[2..] == EncodeBody(ft, versionByte) + EncodeTlvs(ts);
    TxPrints(ft, versionByte, EncodeTlvs(ts));
    RecordsPrint(ts);
  }

  lemma HeartbeatVerdict(flags: Byte, ts: seq<Tlv>)
    requires AllFit(ts)
    ensures FrameOf(HeartbeatBytes(flags, ts)) ==
            if flags != 0 || !DistinctTypes(ts) then Err(BadFrame) else HeartbeatFrame(ts)
  {
    hide HeartbeatFrame;
    var src := HeartbeatBytes(flags, ts);
    assert src[2..] == EncodeTlvs(ts);
    RecordsPrint(ts);
  }

  // ---------- what the records say ----------

  /** The records give the number v under type typ; no record gives 0. */
  ghost predicate SaysNumber(ts: seq<Tlv>, typ: Byte, v: U64) {
    Tlv(typ, LittleEndian(8, v)) in ts || (v == 0 && forall e <- ts :: e.typ != typ)
  }

  /** The records give the address list keys under type typ; no record gives the empty list. */
  ghost predicate SaysAddresses(ts: seq<Tlv>, typ: Byte, keys: seq<Key>) {
    Tlv(typ, Flatten(keys)) in ts || (keys == [] && forall e <- ts :: e.typ != typ)
  }

  lemma AbsentIffNone(ts: seq<Tlv>, typ: Byte)
    requires DistinctTypes(ts)
    ensures Find(ts, typ) == None <==> forall e <- ts :: e.typ != typ
  {
    FindIsMembership(ts, typ);
    forall e | Find(ts, typ) == None && e in ts ensures e.typ != typ {
      assert Tlv(e.typ, e.value) in ts;
    }
    if Find(ts, typ).Some? {
      assert Tlv(typ, Find(ts, typ).value) in ts;
    }
  }

  lemma NumberFieldMeaning(ts: seq<Tlv>, typ: Byte, v: U64)
    requires DistinctTypes(ts)
    ensures NumberField(ts, typ) == Some(v) <==> SaysNumber(ts, typ, v)
  {
    hide Find, DistinctTypes;
    AbsentIffNone(ts, typ);
    FindIsMembership(ts, typ);
    Pow256Values();
    LittleEndianRoundTrip(8, v);
    if Find(ts, typ).Some? {
      LittleEndianCanonical(Find(ts, typ).value);
      assert Tlv(typ, Find(ts, typ).value) in ts;
    }
  }

  lemma AddressFieldMeaning(ts: seq<Tlv>, typ: Byte, keys: seq<Key>)
    requires DistinctTypes(ts)
    ensures AddressField(ts, typ) == Some(keys) <==> SaysAddresses(ts, typ, keys)
  {
    hide Find, DistinctTypes, Addresses, Flatten;
    AbsentIffNone(ts, typ);
    FindIsMembership(ts, typ);
    if Find(ts, typ).Some? {
      AddressesBijection(Find(ts, typ).value, keys);
      assert Tlv(typ, Find(ts, typ).value) in ts;
    }
  }

  /** A heartbeat frame decodes to two numbers exactly when its records, of distinct types, give those numbers. */
  lemma HeartbeatMeaning(flags: Byte, ts: seq<Tlv>, serverTsMs: U64, highestSeq: U64)
    requires AllFit(ts)
    ensures FrameOf([2, flags] + EncodeTlvs(ts)) == Ok(FrameHeartbeat(serverTsMs, highestSeq)) <==>
            flags == 0 && DistinctTypes(ts) && SaysNumber(ts, 3, serverTsMs) && SaysNumber(ts, 4, highestSeq)
  {
    hide FrameOf, NumberField, SaysNumber, DistinctTypes;
    HeartbeatVerdict(flags, ts);
    if DistinctTypes(ts) {
      NumberFieldMeaning(ts, TLV_SERVER_TS_MS, serverTsMs);
      NumberFieldMeaning(ts, TLV_HIGHEST_SEQ, highestSeq);
    }
  }

  /** A transaction frame decodes to a transaction and two lists exactly when flags, size and records say so. */
  lemma TxMeaning(flags: Byte, ft: FullTx, versionByte: Byte, ts: seq<Tlv>, alt: bool, w: seq<Key>, ro: seq<Key>)
    requires Fits(ft) && ft.versioned == (versionByte != 0) && AllFit(ts)
    ensures FrameOf([1, flags] + (EncodeBody(ft, versionByte) + EncodeTlvs(ts))) == Ok(FullTxV2(ft, alt, w, ro)) <==>
            && flags == (if alt then 1 else 0)
            && |EncodeBody(ft, versionByte)| + |EncodeTlvs(ts)| <= 0x1_0000
            && DistinctTypes(ts) && SaysAddresses(ts, 1, w) && SaysAddresses(ts, 2, ro)
  {
    hide FrameOf, AddressField, SaysAddresses, DistinctTypes, EncodeBody;
    TxFrameVerdict(flags, ft, versionByte, ts);
    if DistinctTypes(ts) {
      AddressFieldMeaning(ts, TLV_LOADED_WRITABLE, w);
      AddressFieldMeaning(ts, TLV_LOADED_READONLY, ro);
    }
  }

  // ---------- by the first byte ----------

  /** The kind of every frame that decodes is its first byte; any other type is no error, whatever follows. */
  lemma FrameByType(src: seq<Byte>)
    ensures |src| < 2 ==> FrameOf(src) == Err(BadFrame)
    ensures |src| >= 2 && src[0] != 1 && src[0] != 2 ==> FrameOf(src) == Ok(UnknownFrame(src[0]))
    ensures |src| >= 2 && src[0] == 1 ==> FrameOf(src).Err? || FrameOf(src).value.FullTxV2?
    ensures |src| >= 2 && src[0] == 2 ==> FrameOf(src).Err? || FrameOf(src).value.FrameHeartbeat?
  {
    hide DecodePrefix, Trailer, AddressField, NumberField;
  }

  /** The bytes of a written frame; an empty address list writes nothing. */
  lemma EncodedFrame(ft: FullTx, alt: bool, w: seq<Key>, ro: seq<Key>)
    ensures EncodeFrame(ft, alt, w, ro) ==
            [1, if alt then 1 else 0] + EncodeTx(ft) + AddressRecord(1, w) + AddressRecord(2, ro)
  {
    hide EncodeTx, Flatten;
    RecordBytes(1, w);
    RecordBytes(2, ro);
    ConcatAppend(EncodeTlv, if |w| > 0 then [Tlv(1, Flatten(w))] else [],
                 if |ro| > 0 then [Tlv(2, Flatten(ro))] else []);
  }

  /** Type, little-endian length, keys; nothing at all for no keys. */
  function AddressRecord(typ: Byte, keys: seq<Key>): seq<Byte> {
    if |keys| == 0 then [] else [typ, 32 * |keys| % 0x100, 32 * |keys| / 0x100 % 0x100] + Flatten(keys)
  }

  lemma RecordBytes(typ: Byte, keys: seq<Key>)
    ensures EncodeTlvs(if |keys| > 0 then [Tlv(typ, Flatten(keys))] else []) == AddressRecord(typ, keys)
  {
    hide Flatten;
    FlattenLength(keys);
    TwoBytes([], 0, 32 * |keys|);
    if |keys| > 0 {
      var e := Tlv(typ, Flatten(keys));
      ConcatSnoc(EncodeTlv, [], e);
      assert [] + [e] == [e] && EncodeTlvs([e]) == EncodeTlv(e);
    }
  }

  // ---------- round trip ----------

  /**
   A transaction frame survives the round trip exactly when the transaction's
   bytes fit and body plus trailer are within the cap.
   */
  lemma FrameRoundTrip(ft: FullTx, alt: bool, w: seq<Key>, ro: seq<Key>)
    ensures FrameOf(EncodeFrame(ft, alt, w, ro)) == Ok(FullTxV2(ft, alt, w, ro)) <==>
            BytesFit(ft) && |EncodeFrame(ft, alt, w, ro)| - 2 <= MAX_FULL_TX_BODY
  {
    hide FrameOf, EncodeFrame;
    if BytesFit(ft) && |EncodeFrame(ft, alt, w, ro)| - 2 <= MAX_FULL_TX_BODY {
      FrameRoundTripWithin(ft, alt, w, ro);
    }
    DecodedFramesFit(EncodeFrame(ft, alt, w, ro));
  }

  /** The records the encoder writes carry both lists, an absent record standing for the empty list. */
  lemma TrailerFields(w: seq<Key>, ro: seq<Key>)
    ensures DistinctTypes(TrailerOf(w, ro))
    ensures AddressField(TrailerOf(w, ro), TLV_LOADED_WRITABLE) == Some(w)
    ensures AddressField(TrailerOf(w, ro), TLV_LOADED_READONLY) == Some(ro)
  {
    hide Addresses, Flatten;
    var ts := TrailerOf(w, ro);
    AddressesOfFlatten(w);
    AddressesOfFlatten(ro);
    FindIsMembership(ts, TLV_LOADED_WRITABLE);
    FindIsMembership(ts, TLV_LOADED_READONLY);
    if |w| > 0 {
      assert ts[0] == Tlv(TLV_LOADED_WRITABLE, Flatten(w));
      assert ts[0] in ts;
    }
    if |ro| > 0 {
      assert ts[|ts| - 1] == Tlv(TLV_LOADED_READONLY, Flatten(ro));
      assert ts[|ts| - 1] in ts;
    }
  }

  lemma FrameRoundTripWithin(ft: FullTx, alt: bool, w: seq<Key>, ro: seq<Key>)
    requires BytesFit(ft) && |EncodeFrame(ft, alt, w, ro)| - 2 <= MAX_FULL_TX_BODY
    ensures FrameOf(EncodeFrame(ft, alt, w, ro)) == Ok(FullTxV2(ft, alt, w, ro))
  {
    hide FrameOf, AddressField, EncodeBody, TrailerOf;
    var ts := TrailerOf(w, ro);
    TrailerIsPart(ft, alt, w, ro);
    CapImpliesFits(ft);
    TrailerFits(ft, alt, w, ro);
    TrailerFields(w, ro);
    TxFrameVerdict(if alt then 1 else 0, ft, if ft.versioned then 1 else 0, ts);
  }

  lemma TrailerIsPart(ft: FullTx, alt: bool, w: seq<Key>, ro: seq<Key>)
    ensures |EncodeTx(ft)| + |EncodeTlvs(TrailerOf(w, ro))| + 2 == |EncodeFrame(ft, alt, w, ro)|
  {
  }

  /** Under the cap both address lists fit their 16-bit lengths. */
  lemma TrailerFits(ft: FullTx, alt: bool, w: seq<Key>, ro: seq<Key>)
    requires |EncodeFrame(ft, alt, w, ro)| - 2 <= MAX_FULL_TX_BODY
    ensures AllFit(TrailerOf(w, ro))
  {
    hide EncodeTx, Flatten;
    TrailerIsPart(ft, alt, w, ro);
    forall e <- TrailerOf(w, ro) ensures TlvFits(e) {
      ConcatBounds(EncodeTlv, TrailerOf(w, ro), e);
    }
  }

  /** Every transaction frame that decodes carries a fitting transaction and is within the cap. */
  lemma DecodedFramesFit(src: seq<Byte>)
    ensures var f := FrameOf(src);
            f.Ok? && f.value.FullTxV2? ==> Fits(f.value.tx) && |src| - 2 <= MAX_FULL_TX_BODY
  {
    hide ParseTx, Trailer;
    if |src| >= 2 {
      TxReads(src[2..]);
    }
  }

  // ---------- forward compatibility ----------

  /** Distinctness, length, and fields depend on the records, not on their order. */
  lemma OrderIsImmaterial(ts: seq<Tlv>, us: seq<Tlv>)
    requires multiset(ts) == multiset(us)
    ensures AllFit(ts) <==> AllFit(us)
    ensures DistinctTypes(ts) <==> DistinctTypes(us)
    ensures |EncodeTlvs(ts)| == |EncodeTlvs(us)|
    ensures DistinctTypes(ts) ==> forall typ :: Find(ts, typ) == Find(us, typ)
  {
    assert forall e :: e in ts <==> e in multiset(ts);
    assert forall e :: e in us <==> e in multiset(us);
    assert |ts| == |multiset(ts)| == |us|;
    assert Types(ts) == Types(us);
    DistinctIffTypesSize(ts);
    DistinctIffTypesSize(us);
    PermutedLength(ts, us);
    if DistinctTypes(ts) {
      forall typ ensures Find(ts, typ) == Find(us, typ) {
        FindIsMembership(ts, typ);
        FindIsMembership(us, typ);
        if Find(ts, typ).Some? {
          assert Tlv(typ, Find(ts, typ).value) in us;
        }
        if Find(us, typ).Some? {
          assert Tlv(typ, Find(us, typ).value) in us;
        }
      }
    }
  }

  lemma DistinctSnoc(front: seq<Tlv>, e: Tlv)
    ensures Types(front + [e]) == Types(front) + {e.typ}
    ensures DistinctTypes(front + [e]) <==> DistinctTypes(front) && e.typ !in Types(front)
  {
    var ts := front + [e];
    if e.typ in Types(front) {
      var i :| 0 <= i < |front| && front[i].typ == e.typ;
      assert ts[i].typ == ts[|front|].typ;
    } else if DistinctTypes(front) {
      assert forall i :: 0 <= i < |front| ==> front[i].typ in Types(front);
    } else {
      var i, j :| 0 <= i < j < |front| && front[i].typ == front[j].typ;
      assert ts[i].typ == ts[j].typ;
    }
  }

  lemma {:induction false} DistinctIffTypesSize(ts: seq<Tlv>)
    ensures |Types(ts)| <= |ts|
    ensures DistinctTypes(ts) <==> |Types(ts)| == |ts|
  {
    if ts != [] {
      hide DistinctTypes, Types;
      var front, e := ts[..|ts| - 1], ts[|ts| - 1];
      DistinctIffTypesSize(front);
      DistinctSnoc(front, e);
      assert ts == front + [e];
    }
  }

  lemma {:induction false} ConcatAppend<T>(e: T -> seq<Byte>, a: seq<T>, b: seq<T>)
    ensures Concat(e, a + b) == Concat(e, a) + Concat(e, b)
  {
    if a == [] {
      assert a + b == b;
    } else {
      ConcatAppend(e, a[1..], b);
      assert (a + b)[1..] == a[1..] + b;
    }
  }

  lemma WithoutOne<T>(us: seq<T>, k: nat)
    requires k < |us|
    ensures us == us[..k] + [us[k]] + us[k + 1..]
    ensures multiset(us[..k] + us[k + 1..]) == multiset(us) - multiset{us[k]}
  {
    assert us == us[..k] + [us[k]] + us[k + 1..];
    assert multiset(us) == multiset(us[..k]) + multiset{us[k]} + multiset(us[k + 1..]);
  }

  lemma WithoutFirst<T>(ts: seq<T>)
    requires ts != []
    ensures multiset(ts[1..]) == multiset(ts) - multiset{ts[0]}
  {
    assert ts == [ts[0]] + ts[1..];
  }

  lemma {:induction false} PermutedLength(ts: seq<Tlv>, us: seq<Tlv>)
    requires multiset(ts) == multiset(us)
    ensures |EncodeTlvs(ts)| == |EncodeTlvs(us)|
    decreases |ts|
  {
    hide EncodeTlv;
    if ts == [] {
      assert |us| == |multiset(us)| == 0;
    } else {
      assert ts[0] in multiset(us);
      var k :| 0 <= k < |us| && us[k] == ts[0];
      WithoutOne(us, k);
      WithoutFirst(ts);
      PermutedLength(ts[1..], us[..k] + us[k + 1..]);
      InsertedLength(us[..k], ts[0], us[k + 1..]);
    }
  }

  /** Reordering the records of a transaction frame's trailer changes nothing. */
  lemma TxTrailerOrder(flags: Byte, ft: FullTx, versionByte: Byte, ts: seq<Tlv>, us: seq<Tlv>)
    requires Fits(ft) && ft.versioned == (versionByte != 0) && AllFit(ts)
    requires multiset(ts) == multiset(us)
    ensures FrameOf(TxFrameBytes(flags, ft, versionByte, ts)) == FrameOf(TxFrameBytes(flags, ft, versionByte, us))
  {
    hide FrameOf, EncodeBody, Addresses, Find;
    OrderIsImmaterial(ts, us);
    TxFrameVerdict(flags, ft, versionByte, ts);
    TxFrameVerdict(flags, ft, versionByte, us);
  }

  lemma HeartbeatTrailerOrder(flags: Byte, ts: seq<Tlv>, us: seq<Tlv>)
    requires AllFit(ts) && multiset(ts) == multiset(us)
    ensures FrameOf(HeartbeatBytes(flags, ts)) == FrameOf(HeartbeatBytes(flags, us))
  {
    hide FrameOf, Find;
    OrderIsImmaterial(ts, us);
    HeartbeatVerdict(flags, ts);
    HeartbeatVerdict(flags, us);
  }

  lemma {:induction false} FindIgnoresOthers(a: seq<Tlv>, e: Tlv, b: seq<Tlv>, typ: Byte)
    requires e.typ != typ
    ensures Find(a + [e] + b, typ) == Find(a + b, typ)
  {
    if a == [] {
      assert a + [e] + b == [e] + b && a + b == b;
      assert ([e] + b)[1..] == b;
    } else {
      FindIgnoresOthers(a[1..], e, b, typ);
      assert (a + [e] + b)[1..] == a[1..] + [e] + b;
      assert (a + b)[1..] == a[1..] + b;
    }
  }

  lemma FreshTypeKeepsDistinctness(a: seq<Tlv>, e: Tlv, b: seq<Tlv>)
    requires forall x <- a + b :: x.typ != e.typ
    ensures DistinctTypes(a + [e] + b) <==> DistinctTypes(a + b)
  {
    hide DistinctTypes;
    assert Types(a + [e] + b) == Types(a + b) + {e.typ};
    DistinctIffTypesSize(a + [e] + b);
    DistinctIffTypesSize(a + b);
  }

  /**
   A record of a new type, one a transaction frame gives no meaning to, may be
   inserted anywhere in the trailer: the outcome is the same, unless the record
   pushes body plus trailer over the cap, when the frame is refused.
   */
  lemma TxUnknownRecord(flags: Byte, ft: FullTx, versionByte: Byte, a: seq<Tlv>, e: Tlv, b: seq<Tlv>)
    requires Fits(ft) && ft.versioned == (versionByte != 0) && AllFit(a + b) && TlvFits(e)
    requires e.typ != TLV_LOADED_WRITABLE && e.typ != TLV_LOADED_READONLY
    requires forall x <- a + b :: x.typ != e.typ
    ensures var longer := TxFrameBytes(flags, ft, versionByte, a + [e] + b);
            FrameOf(longer) == if |longer| - 2 > MAX_FULL_TX_BODY then Err(BadFrame)
                               else FrameOf(TxFrameBytes(flags, ft, versionByte, a + b))
  {
    hide FrameOf, EncodeBody, Addresses, Find, EncodeTlv;
    FreshTypeKeepsDistinctness(a, e, b);
    FindIgnoresOthers(a, e, b, TLV_LOADED_WRITABLE);
    FindIgnoresOthers(a, e, b, TLV_LOADED_READONLY);
    TxFrameVerdict(flags, ft, versionByte, a + [e] + b);
    TxFrameVerdict(flags, ft, versionByte, a + b);
    InsertedLength(a, e, b);
  }

  lemma InsertedLength(a: seq<Tlv>, e: Tlv, b: seq<Tlv>)
    ensures |EncodeTlvs(a + [e] + b)| == |EncodeTlvs(a + b)| + |EncodeTlv(e)|
  {
    hide EncodeTlv;
    ConcatAppend(EncodeTlv, a + [e], b);
    ConcatSnoc(EncodeTlv, a, e);
    ConcatAppend(EncodeTlv, a, b);
  }

  /** The same for heartbeat frames, which have no cap of their own. */
  lemma HeartbeatUnknownRecord(flags: Byte, a: seq<Tlv>, e: Tlv, b: seq<Tlv>)
    requires AllFit(a + b) && TlvFits(e)
    requires e.typ != TLV_SERVER_TS_MS && e.typ != TLV_HIGHEST_SEQ
    requires forall x <- a + b :: x.typ != e.typ
    ensures FrameOf(HeartbeatBytes(flags, a + [e] + b)) == FrameOf(HeartbeatBytes(flags, a + b))
  {
    hide FrameOf, Find;
    FreshTypeKeepsDistinctness(a, e, b);
    FindIgnoresOthers(a, e, b, TLV_SERVER_TS_MS);
    FindIgnoresOthers(a, e, b, TLV_HIGHEST_SEQ);
    HeartbeatVerdict(flags, a + [e] + b);
    HeartbeatVerdict(flags, a + b);
  }

  /** A repeated type is refused whatever it is, known or unknown. */
  lemma RepeatedTypeIsRefused(flags: Byte, ft: FullTx, versionByte: Byte, ts: seq<Tlv>)
    requires Fits(ft) && ft.versioned == (versionByte != 0) && AllFit(ts) && !DistinctTypes(ts)
    ensures FrameOf(TxFrameBytes(flags, ft, versionByte, ts)) == Err(BadFrame)
    ensures FrameOf(HeartbeatBytes(flags, ts)) == Err(BadFrame)
  {
    hide FrameOf, EncodeBody, Find;
    TxFrameVerdict(flags, ft, versionByte, ts);
    HeartbeatVerdict(flags, ts);
  }
}
