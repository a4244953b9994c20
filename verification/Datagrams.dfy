/** Typed datagrams: a type byte, fixed fields, and trailing bytes a later wire version may add. */
module Datagrams {
  import opened Bytes
  import opened Outcomes

  const DG_SIG_FIRST: Byte := 1
  const DG_HEARTBEAT: Byte := 2
  const DG_SIG_FIRST_MIN := 1 + 8 + 8 + 64
  const DG_HEARTBEAT_MIN := 1 + 8 + 8

  datatype Datagram =
    | SigFirst(slot: U64, seqNo: U64, signature: Signature)
    | DatagramHeartbeat(serverTsMs: U64, highestSeq: U64)
    | UnknownDatagram(typ: Byte)

  function SigFirstBytes(slot: U64, seqNo: U64, sig: Signature): seq<Byte> {
    [DG_SIG_FIRST] + LittleEndian(8, slot) + LittleEndian(8, seqNo) + sig
  }

  function HeartbeatBytes(serverTsMs: U64, highestSeq: U64): seq<Byte> {
    [DG_HEARTBEAT] + LittleEndian(8, serverTsMs) + LittleEndian(8, highestSeq)
  }

  function U64At(src: seq<Byte>, at: nat): U64
    requires at + 8 <= |src|
  {
    Pow256Values();
    FromLittleEndian(src[at..at + 8])
  }

  function DecodeDatagram(src: seq<Byte>): Result<Datagram> {
    if |src| == 0 then Err(BadFrame)
    else if src[0] == DG_SIG_FIRST then
      if |src| < DG_SIG_FIRST_MIN then Err(BadFrame)
      else Ok(SigFirst(U64At(src, 1), U64At(src, 9), src[17..81]))
    else if src[0] == DG_HEARTBEAT then
      if |src| < DG_HEARTBEAT_MIN then Err(BadFrame)
      else Ok(DatagramHeartbeat(U64At(src, 1), U64At(src, 9)))
    else Ok(UnknownDatagram(src[0]))
  }

  lemma U64AtIs(src: seq<Byte>, at: nat, v: U64)
    requires at + 8 <= |src|
    ensures U64At(src, at) == v <==> src[at..at + 8] == LittleEndian(8, v)
  {
    Pow256Values();
    LittleEndianRoundTrip(8, v);
    LittleEndianCanonical(src[at..at + 8]);
  }

  /** A datagram decodes to a sig-first item exactly when it begins with that item's bytes. */
  lemma SigFirstAccepted(src: seq<Byte>, slot: U64, seqNo: U64, sig: Signature)
    ensures DecodeDatagram(src) == Ok(SigFirst(slot, seqNo, sig)) <==> SigFirstBytes(slot, seqNo, sig) <= src
  {
    var b := SigFirstBytes(slot, seqNo, sig);
    assert b[1..9] == LittleEndian(8, slot) && b[9..17] == LittleEndian(8, seqNo) && b[17..81] == sig;
    if |src| >= 81 {
      U64AtIs(src, 1, slot);
      U64AtIs(src, 9, seqNo);
      assert src[..81] == [src[0]] + src[1..9] + src[9..17] + src[17..81];
      if b <= src {
        assert src[1..9] == b[1..9] && src[9..17] == b[9..17] && src[17..81] == b[17..81];
      }
    }
  }

  /** A datagram decodes to a heartbeat exactly when it begins with that heartbeat's bytes. */
  lemma HeartbeatAccepted(src: seq<Byte>, serverTsMs: U64, highestSeq: U64)
    ensures DecodeDatagram(src) == Ok(DatagramHeartbeat(serverTsMs, highestSeq)) <==>
            HeartbeatBytes(serverTsMs, highestSeq) <= src
  {
    var b := HeartbeatBytes(serverTsMs, highestSeq);
    assert b[1..9] == LittleEndian(8, serverTsMs) && b[9..17] == LittleEndian(8, highestSeq);
    if |src| >= 17 {
      U64AtIs(src, 1, serverTsMs);
      U64AtIs(src, 9, highestSeq);
      assert src[..17] == [src[0]] + src[1..9] + src[9..17];
      if b <= src {
        assert src[1..9] == b[1..9] && src[9..17] == b[9..17];
      }
    }
  }

  /** The bytes of every datagram of a known type and sufficient length. */
  lemma DatagramBytes(src: seq<Byte>)
    ensures |src| >= 81 && src[0] == 1 ==>
              DecodeDatagram(src).Ok? && var d := DecodeDatagram(src).value;
              d.SigFirst? && d.slot == Low8(src, 1) && d.seqNo == Low8(src, 9) && d.signature == src[17..81]
    ensures |src| >= 17 && src[0] == 2 ==>
              DecodeDatagram(src).Ok? && var d := DecodeDatagram(src).value;
              d.DatagramHeartbeat? && d.serverTsMs == Low8(src, 1) && d.highestSeq == Low8(src, 9)
  {
    hide FromLittleEndian, Low8;
    if |src| >= 17 {
      EightBytes(src, 1);
      EightBytes(src, 9);
    }
  }

  /**
   Only an empty datagram, or a known type below its minimum, is refused; an
   unknown type is kept as such; a decodable datagram ignores what follows.
   */
  lemma RefusalsAndTrailingBytes(src: seq<Byte>, t: seq<Byte>)
    ensures DecodeDatagram(src).Err? <==>
              |src| == 0 || (src[0] == 1 && |src| < 81) || (src[0] == 2 && |src| < 17)
    ensures DecodeDatagram(src).Err? ==> DecodeDatagram(src).error == BadFrame
    ensures |src| > 0 && src[0] != 1 && src[0] != 2 ==> DecodeDatagram(src) == Ok(UnknownDatagram(src[0]))
    ensures DecodeDatagram(src).Ok? ==> DecodeDatagram(src + t) == DecodeDatagram(src)
  {
    if DecodeDatagram(src).Ok? && |src| >= 17 {
      assert (src + t)[1..9] == src[1..9] && (src + t)[9..17] == src[9..17];
      if |src| >= 81 {
        assert (src + t)[17..81] == src[17..81];
      }
    }
  }

  /** Go's copy, of the whole of bytes into buf from index at. */
  method CopyInto(buf: array<Byte>, at: nat, bytes: seq<Byte>)
    requires at + |bytes| <= buf.Length
    modifies buf
    ensures buf[..] == old(buf[..at]) + bytes + old(buf[at + |bytes|..])
  {
    for i := 0 to |bytes|
      invariant buf[..at] == old(buf[..at])
      invariant buf[at..at + i] == bytes[..i]
      invariant buf[at + i..] == old(buf[at + i..])
    {
      buf[at + i] := bytes[i];
      assert bytes[..i + 1] == bytes[..i] + [bytes[i]];
    }
    assert buf[..] == buf[..at] + buf[at..at + |bytes|] + buf[at + |bytes|..];
  }

  method EncodeDGSigFirst(buf: array<Byte>, slot: U64, seqNo: U64, sig: Signature)
    requires buf.Length == DG_SIG_FIRST_MIN
    modifies buf
    ensures buf[..] == SigFirstBytes(slot, seqNo, sig)
  {
    buf[0] := DG_SIG_FIRST;
    CopyInto(buf, 1, LittleEndian(8, slot));
    CopyInto(buf, 9, LittleEndian(8, seqNo));
    CopyInto(buf, 17, sig);
  }

  method EncodeDGHeartbeat(buf: array<Byte>, serverTsMs: U64, highestSeq: U64)
    requires buf.Length == DG_HEARTBEAT_MIN
    modifies buf
    ensures buf[..] == HeartbeatBytes(serverTsMs, highestSeq)
  {
    buf[0] := DG_HEARTBEAT;
    CopyInto(buf, 1, LittleEndian(8, serverTsMs));
    CopyInto(buf, 9, LittleEndian(8, highestSeq));
  }
}
