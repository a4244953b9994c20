/** v2 stream frames: msg_type, flags, then a transaction body or nothing, then a trailer. */
module Frames {
  import opened Bytes
  import opened Outcomes
  import opened Parsing
  import opened Transactions
  import opened Tlvs
  import Codec
  import Layouts

  const MSG_TX: Byte := 1
  const MSG_HEARTBEAT: Byte := 2
  const FLAG_ALT_INCOMPLETE: Byte := 1

  const TLV_LOADED_WRITABLE: Byte := 1
  const TLV_LOADED_READONLY: Byte := 2
  const TLV_SERVER_TS_MS: Byte := 3
  const TLV_HIGHEST_SEQ: Byte := 4

  datatype Frame =
    | FullTxV2(tx: FullTx, altIncomplete: bool, loadedWritable: seq<Key>, loadedReadonly: seq<Key>)
    | FrameHeartbeat(serverTsMs: U64, highestSeq: U64)
    | UnknownFrame(typ: Byte)

  // ---------- address lists ----------

  function Flatten(keys: seq<Key>): seq<Byte> {
    Concat(EncodeKey, keys)
  }

  /** The 32-byte pieces of s; None when s is not a whole number of them. */
  function Addresses(s: seq<Byte>): Option<seq<Key>> {
    if |s| == 0 then Some([])
    else if |s| < 32 then None
    else
      var more := Addresses(s[32..]);
      if more.None? then None else Some([s[..32]] + more.value)
  }

  lemma {:induction false} FlattenLength(keys: seq<Key>)
    ensures |Flatten(keys)| == 32 * |keys|
  {
    if keys != [] {
      FlattenLength(keys[1..]);
    }
  }

  /** Key i of the flat form. */
  lemma {:induction false} FlattenAt(keys: seq<Key>, i: nat)
    requires i < |keys|
    ensures |Flatten(keys)| == 32 * |keys| && Flatten(keys)[32 * i..32 * i + 32] == keys[i]
  {
    FlattenLength(keys);
    if i > 0 {
      FlattenAt(keys[1..], i - 1);
      assert Flatten(keys)[32..] == Flatten(keys[1..]);
      assert Flatten(keys)[32..][32 * (i - 1)..32 * (i - 1) + 32] == Flatten(keys)[32 * i..32 * i + 32];
    }
  }

  lemma {:induction false} AddressesOfFlatten(keys: seq<Key>)
    ensures Addresses(Flatten(keys)) == Some(keys)
  {
    if keys != [] {
      AddressesOfFlatten(keys[1..]);
      assert Flatten(keys)[32..] == Flatten(keys[1..]);
      assert [keys[0]] + keys[1..] == keys;
    }
  }

  /** Address lists and their flat form are in one-to-one correspondence. */
  lemma {:induction false} AddressesBijection(s: seq<Byte>, keys: seq<Key>)
    ensures Addresses(s) == Some(keys) <==> s == Flatten(keys)
    decreases |s|
  {
    AddressesOfFlatten(keys);
    if Addresses(s) == Some(keys) && |s| > 0 {
      AddressesBijection(s[32..], keys[1..]);
      assert keys[1..] == Addresses(s[32..]).value;
      assert s == s[..32] + s[32..];
    }
  }

  method Flatten32(addrs: seq<Key>) returns (b: seq<Byte>)
    ensures b == Flatten(addrs)
  {
    b := [];
    for i := 0 to |addrs|
      invariant b == Flatten(addrs[..i])
    {
      Codec.ConcatNext(EncodeKey, addrs, i);
      b := b + addrs[i];
    }
    assert addrs[..|addrs|] == addrs;
  }

  method Unflatten32(src: seq<Byte>) returns (r: Result<seq<Key>>)
    ensures r == if Addresses(src).Some? then Ok(Addresses(src).value) else Err(BadFrame)
  {
    if |src| % 32 != 0 {
      if Addresses(src).Some? {
        AddressesBijection(src, Addresses(src).value);
        FlattenLength(Addresses(src).value);
      }
      return Err(BadFrame);
    }
    var out: seq<Key> := [];
    for i := 0 to |src| / 32
      invariant src[..i * 32] == Flatten(out)
    {
      var k: Key := src[i * 32..(i + 1) * 32];
      ConcatSnoc<Key>(EncodeKey, out, k);
      assert src[..(i + 1) * 32] == src[..i * 32] + k;
      out := out + [k];
    }
    assert src[..|src|] == src;
    AddressesBijection(src, out);
    r := Ok(out);
  }

  // ---------- what a frame says ----------

  function AddressField(ts: seq<Tlv>, typ: Byte): Option<seq<Key>> {
    var v := Find(ts, typ);
    if v.None? then Some([]) else Addresses(v.value)
  }

  function NumberField(ts: seq<Tlv>, typ: Byte): Option<U64> {
    var v := Find(ts, typ);
    if v.None? then Some(0)
    else if |v.value| != 8 then None
    else
      Pow256Values();
      Some(FromLittleEndian(v.value))
  }

  /** A transaction frame from its flags, its body and its trailer's records. */
  function TxFrame(flags: Byte, ft: FullTx, ts: seq<Tlv>): Result<Frame> {
    var w := AddressField(ts, TLV_LOADED_WRITABLE);
    var r := AddressField(ts, TLV_LOADED_READONLY);
    if w.Some? && r.Some? then Ok(FullTxV2(ft, flags % 2 != 0, w.value, r.value)) else Err(BadFrame)
  }

  function HeartbeatFrame(ts: seq<Tlv>): Result<Frame> {
    var t := NumberField(ts, TLV_SERVER_TS_MS);
    var h := NumberField(ts, TLV_HIGHEST_SEQ);
    if t.Some? && h.Some? then Ok(FrameHeartbeat(t.value, h.value)) else Err(BadFrame)
  }

  /** The decoded meaning of one frame. */
  ghost function FrameOf(src: seq<Byte>): Result<Frame> {
    if |src| < 2 then Err(BadFrame)
    else if src[0] == MSG_TX then
      var body := DecodePrefix(src[2..]);
      if src[1] / 2 != 0 || body.Fail? then Err(BadFrame) else
      var ts := Trailer(body.rest);
      if ts.None? then Err(BadFrame) else TxFrame(src[1], body.value, ts.value)
    else if src[0] == MSG_HEARTBEAT then
      var ts := Trailer(src[2..]);
      if src[1] != 0 || ts.None? then Err(BadFrame) else HeartbeatFrame(ts.value)
    else Ok(UnknownFrame(src[0]))
  }

  // ---------- the decoder ----------

  /** How one more record changes the field of type typ, when no earlier record has that type. */
  lemma FieldStep(ts: seq<Tlv>, i: nat, typ: Byte)
    requires DistinctTypes(ts) && i < |ts|
    ensures Find(ts[..i + 1], typ) == if ts[i].typ == typ then Some(ts[i].value) else Find(ts[..i], typ)
    ensures ts[i].typ == typ ==> Find(ts, typ) == Some(ts[i].value)
  {
    assert ts[..i + 1] == ts[..i] + [ts[i]];
    FindSnoc(ts[..i], ts[i], typ);
    if ts[i].typ == typ {
      FindAbsent(ts[..i], typ);
      assert ts == ts[..i + 1] + ts[i + 1..];
      FindAppend(ts[..i + 1], ts[i + 1..], typ);
    }
  }

  /** The trailer loop of a transaction frame. */
  method LoadedAddresses(tlvs: seq<Tlv>, tx: FullTx, flags: Byte) returns (r: Result<Frame>)
    requires DistinctTypes(tlvs)
    ensures r == TxFrame(flags, tx, tlvs)
  {
    hide Addresses, Find;
    var w: seq<Key>, ro: seq<Key> := [], [];
    FindNothing();
    for i := 0 to |tlvs|
      invariant AddressField(tlvs[..i], TLV_LOADED_WRITABLE) == Some(w)
      invariant AddressField(tlvs[..i], TLV_LOADED_READONLY) == Some(ro)
    {
      FieldStep(tlvs, i, TLV_LOADED_WRITABLE);
      FieldStep(tlvs, i, TLV_LOADED_READONLY);
      var e := tlvs[i];
      if e.typ == TLV_LOADED_WRITABLE {
        w :- Unflatten32(e.value);
      } else if e.typ == TLV_LOADED_READONLY {
        ro :- Unflatten32(e.value);
      }
    }
    assert tlvs[..|tlvs|] == tlvs;
    r := Ok(FullTxV2(tx, flags % 2 != 0, w, ro));
  }

  lemma FindNothing()
    ensures forall typ :: Find([], typ) == None
  {
  }

  /** The trailer loop of a heartbeat frame. */
  method HeartbeatFields(tlvs: seq<Tlv>) returns (r: Result<Frame>)
    requires DistinctTypes(tlvs)
    ensures r == HeartbeatFrame(tlvs)
  {
    hide Find, FromLittleEndian;
    var ts, hs := 0, 0;
    FindNothing();
    for i := 0 to |tlvs|
      invariant 0 <= ts < TWO_64 && 0 <= hs < TWO_64
      invariant NumberField(tlvs[..i], TLV_SERVER_TS_MS) == Some(ts)
      invariant NumberField(tlvs[..i], TLV_HIGHEST_SEQ) == Some(hs)
    {
      FieldStep(tlvs, i, TLV_SERVER_TS_MS);
      FieldStep(tlvs, i, TLV_HIGHEST_SEQ);
      Pow256Values();
      var e := tlvs[i];
      if e.typ == TLV_SERVER_TS_MS {
        if |e.value| != 8 {
          return Err(BadFrame);
        }
        ts := FromLittleEndian(e.value);
      } else if e.typ == TLV_HIGHEST_SEQ {
        if |e.value| != 8 {
          return Err(BadFrame);
        }
        hs := FromLittleEndian(e.value);
      }
    }
    assert tlvs[..|tlvs|] == tlvs;
    r := Ok(FrameHeartbeat(ts, hs));
  }

  method DecodeFrame(src: seq<Byte>) returns (r: Result<Frame>)
    ensures r == FrameOf(src)
  {
    hide DecodePrefix, Trailer, TxFrame, HeartbeatFrame;
    if |src| < 2 {
      return Err(BadFrame);
    }
    var msgType := src[0];
    var flags := src[1];
    var rest := src[2..];
    if msgType == MSG_TX {
      if flags / 2 != 0 {
        return Err(BadFrame);
      }
      var tx, consumed :- Codec.DecodeFullTxPrefix(rest);
      var tlvs :- ParseTlvs(rest[consumed..]);
      r := LoadedAddresses(tlvs, tx, flags);
    } else if msgType == MSG_HEARTBEAT {
      if flags != 0 {
        return Err(BadFrame);
      }
      var tlvs :- ParseTlvs(rest);
      r := HeartbeatFields(tlvs);
    } else {
      r := Ok(UnknownFrame(msgType));
    }
  }

  // ---------- the encoder ----------

  /** The records the encoder writes: an empty address list costs nothing. */
  function TrailerOf(w: seq<Key>, ro: seq<Key>): seq<Tlv> {
    (if |w| > 0 then [Tlv(TLV_LOADED_WRITABLE, Flatten(w))] else []) +
    (if |ro| > 0 then [Tlv(TLV_LOADED_READONLY, Flatten(ro))] else [])
  }

  function EncodeFrame(ft: FullTx, altIncomplete: bool, w: seq<Key>, ro: seq<Key>): seq<Byte> {
    [MSG_TX, if altIncomplete then FLAG_ALT_INCOMPLETE else 0] + (EncodeTx(ft) + EncodeTlvs(TrailerOf(w, ro)))
  }

  /** The trailer part of the encoder. */
  method AppendTrailer(start: seq<Byte>, loadedWritable: seq<Key>, loadedReadonly: seq<Key>) returns (b: seq<Byte>)
    ensures b == start + EncodeTlvs(TrailerOf(loadedWritable, loadedReadonly))
  {
    hide EncodeTlv;
    b := start;
    ghost var ts: seq<Tlv> := [];
    if |loadedWritable| > 0 {
      var v := Flatten32(loadedWritable);
      b := PutTlv(b, TLV_LOADED_WRITABLE, v);
      ConcatSnoc(EncodeTlv, ts, Tlv(TLV_LOADED_WRITABLE, v));
      ts := ts + [Tlv(TLV_LOADED_WRITABLE, v)];
    }
    assert b == start + EncodeTlvs(ts);
    if |loadedReadonly| > 0 {
      var v := Flatten32(loadedReadonly);
      b := PutTlv(b, TLV_LOADED_READONLY, v);
      ConcatSnoc(EncodeTlv, ts, Tlv(TLV_LOADED_READONLY, v));
      ts := ts + [Tlv(TLV_LOADED_READONLY, v)];
    }
    assert ts == TrailerOf(loadedWritable, loadedReadonly);
  }

  method EncodeFrameTx(ft: FullTx, altIncomplete: bool, loadedWritable: seq<Key>, loadedReadonly: seq<Key>)
    returns (b: seq<Byte>)
    ensures b == EncodeFrame(ft, altIncomplete, loadedWritable, loadedReadonly)
  {
    hide EncodeTx, TrailerOf, Layouts.LaidOut, Layouts.BodyLength;
    var body := Codec.EncodeFullTx(ft);
    b := [MSG_TX];
    if altIncomplete {
      b := b + [FLAG_ALT_INCOMPLETE];
    } else {
      b := b + [0];
    }
    b := b + body;
    b := AppendTrailer(b, loadedWritable, loadedReadonly);
  }
}
