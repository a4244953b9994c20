/** The type-length-value trailer: u8 type, u16 little-endian length, value, to the end of the frame. */
module Tlvs {
  import opened Bytes
  import opened Counting
  import opened Outcomes
  import opened Parsing

  datatype Tlv = Tlv(typ: Byte, value: seq<Byte>)

  /** One record; the printed length keeps 16 bits only. */
  function EncodeTlv(e: Tlv): seq<Byte> {
    [e.typ] + EncodeBlob(e.value)
  }

  function EncodeTlvs(ts: seq<Tlv>): seq<Byte> {
    Concat(EncodeTlv, ts)
  }

  predicate TlvFits(e: Tlv) {
    |e.value| < TWO_16
  }

  ghost predicate AllFit(ts: seq<Tlv>) {
    forall e <- ts :: TlvFits(e)
  }

  ghost predicate DistinctTypes(ts: seq<Tlv>) {
    forall i, j :: 0 <= i < j < |ts| ==> ts[i].typ != ts[j].typ
  }

  function ParseTlv(s: seq<Byte>): (r: Parse<Tlv>)
    ensures r.Done? ==> |r.rest| < |s|
  {
    var (typ, s1) :- ParseU8(s);
    var (value, s2) :- ParseBlob(s1);
    Done(Tlv(typ, value), s2)
  }

  /** The records that make up s, whatever their types; None when s is not a whole number of records. */
  ghost function Records(s: seq<Byte>): Option<seq<Tlv>>
    decreases |s|
  {
    if |s| == 0 then Some([]) else
    var r := ParseTlv(s);
    if r.Fail? then None else
    var more := Records(r.rest);
    if more.None? then None else Some([r.value] + more.value)
  }

  /** The accepted trailers: whole records of pairwise distinct types. */
  ghost function Trailer(s: seq<Byte>): Option<seq<Tlv>> {
    var r := Records(s);
    if r.Some? && DistinctTypes(r.value) then r else None
  }

  /** The value of the first record of type typ. */
  function Find(ts: seq<Tlv>, typ: Byte): Option<seq<Byte>> {
    if ts == [] then None
    else if ts[0].typ == typ then Some(ts[0].value)
    else Find(ts[1..], typ)
  }

  // ---------- laws ----------

  lemma TlvPrints(e: Tlv, t: seq<Byte>)
    requires TlvFits(e)
    ensures ParseTlv(EncodeTlv(e) + t) == Done(e, t)
  {
    assert EncodeTlv(e) + t == [e.typ] + (EncodeBlob(e.value) + t);
    BlobPrints(e.value, t);
  }

  lemma TlvReads(s: seq<Byte>)
    ensures var r := ParseTlv(s); r.Done? ==> TlvFits(r.value) && s == EncodeTlv(r.value) + r.rest
  {
    if ParseTlv(s).Done? {
      BlobReads(s[1..]);
      assert s == [s[0]] + s[1..];
    }
  }

  lemma {:induction false} RecordsPrint(ts: seq<Tlv>)
    requires AllFit(ts)
    ensures Records(EncodeTlvs(ts)) == Some(ts)
  {
    if ts != [] {
      TlvPrints(ts[0], EncodeTlvs(ts[1..]));
      RecordsPrint(ts[1..]);
      assert [ts[0]] + ts[1..] == ts;
    }
  }

  lemma {:induction false} RecordsRead(s: seq<Byte>)
    ensures Records(s).Some? ==> AllFit(Records(s).value) && s == EncodeTlvs(Records(s).value)
    decreases |s|
  {
    if Records(s).Some? && |s| > 0 {
      TlvReads(s);
      var r := ParseTlv(s);
      RecordsRead(r.rest);
      assert Records(s).value[1..] == Records(r.rest).value;
    }
  }

  /**
   Trailer parsing is a bijection between the byte strings it accepts and the
   lists of records with distinct types and 16-bit lengths.
   */
  lemma TrailerBijection(src: seq<Byte>, ts: seq<Tlv>)
    ensures Trailer(src) == Some(ts) <==> AllFit(ts) && DistinctTypes(ts) && src == EncodeTlvs(ts)
  {
    RecordsRead(src);
    if AllFit(ts) && src == EncodeTlvs(ts) {
      RecordsPrint(ts);
    }
  }

  ghost function Types(ts: seq<Tlv>): set<int> {
    set e <- ts :: e.typ
  }

  lemma {:induction false} TypesSize(ts: seq<Tlv>)
    requires DistinctTypes(ts)
    ensures |Types(ts)| == |ts|
  {
    if ts != [] {
      var front, e := ts[..|ts| - 1], ts[|ts| - 1];
      TypesSize(front);
      assert ts == front + [e];
      assert Types(ts) == Types(front) + {e.typ};
    }
  }

  /** An accepted trailer has at most 256 records. */
  lemma TrailerLength(src: seq<Byte>)
    requires Trailer(src).Some?
    ensures |Trailer(src).value| <= 256
  {
    var ts := Trailer(src).value;
    TypesSize(ts);
    SubsetSize(Types(ts), Above(-1, 255));
  }

  /** With distinct types, the value found is that of the one record of the type. */
  lemma {:induction false} FindIsMembership(ts: seq<Tlv>, typ: Byte)
    requires DistinctTypes(ts)
    ensures forall v :: Find(ts, typ) == Some(v) <==> Tlv(typ, v) in ts
  {
    if ts != [] {
      FindIsMembership(ts[1..], typ);
      assert ts == [ts[0]] + ts[1..];
      if ts[0].typ == typ {
        forall v | Tlv(typ, v) in ts ensures v == ts[0].value {
          var i :| 0 <= i < |ts| && ts[i] == Tlv(typ, v);
        }
      }
    }
  }

  lemma {:induction false} FindSnoc(ts: seq<Tlv>, e: Tlv, typ: Byte)
    ensures Find(ts + [e], typ) ==
            if Find(ts, typ).Some? then Find(ts, typ) else if e.typ == typ then Some(e.value) else None
  {
    if ts == [] {
      assert ts + [e] == [e];
      assert Find([e], typ) == if e.typ == typ then Some(e.value) else Find([e][1..], typ);
    } else {
      FindSnoc(ts[1..], e, typ);
      assert (ts + [e])[1..] == ts[1..] + [e];
    }
  }

  lemma {:induction false} FindAppend(ts: seq<Tlv>, us: seq<Tlv>, typ: Byte)
    ensures Find(ts, typ).Some? ==> Find(ts + us, typ) == Find(ts, typ)
  {
    if ts != [] {
      FindAppend(ts[1..], us, typ);
      assert (ts + us)[1..] == ts[1..] + us;
    }
  }

  lemma {:induction false} FindAbsent(ts: seq<Tlv>, typ: Byte)
    requires forall e <- ts :: e.typ != typ
    ensures Find(ts, typ) == None
  {
    if ts != [] {
      FindAbsent(ts[1..], typ);
    }
  }

  // ---------- the loops ----------

  /** The outcome of the parse loop that has collected out and still has more to run. */
  ghost function Joined(out: seq<Tlv>, more: Option<seq<Tlv>>): Option<seq<Tlv>> {
    if more.None? then None else Some(out + more.value)
  }

  lemma RecordsStep(out: seq<Tlv>, s: seq<Byte>)
    requires |s| > 0
    ensures Joined(out, Records(s)) ==
            if ParseTlv(s).Fail? then None else Joined(out + [ParseTlv(s).value], Records(ParseTlv(s).rest))
  {
    var r := ParseTlv(s);
    if r.Done? && Records(r.rest).Some? {
      assert out + ([r.value] + Records(r.rest).value) == (out + [r.value]) + Records(r.rest).value;
    }
  }

  lemma RepeatedTypeRefuses(out: seq<Tlv>, e: Tlv, more: Option<seq<Tlv>>, i: nat)
    requires i < |out| && out[i].typ == e.typ
    ensures var all := Joined(out + [e], more); all.Some? ==> !DistinctTypes(all.value)
  {
    var all := Joined(out + [e], more);
    if all.Some? {
      assert all.value[i].typ == all.value[|out|].typ;
    }
  }

  method ParseTlvs(src: seq<Byte>) returns (r: Result<seq<Tlv>>)
    ensures r.Ok? <==> Trailer(src).Some?
    ensures r.Ok? ==> r.value == Trailer(src).value && DistinctTypes(r.value)
    ensures r.Err? ==> r.error == BadFrame
  {
    hide ParseTlv, Records, FromLittleEndian;
    var out: seq<Tlv> := [];
    var off := 0;
    assert src[0..] == src;
    assert Records(src).Some? ==> [] + Records(src).value == Records(src).value;
    while off < |src|
      invariant off <= |src|
      invariant Records(src) == Joined(out, Records(src[off..]))
      invariant DistinctTypes(out)
      decreases |src| - off
    {
      ghost var s := src[off..];
      RecordsStep(out, s);
      if off + 3 > |src| {
        ShortRecord(s);
        return Err(BadFrame);
      }
      RecordAt(src, off);
      var t := src[off];
      var l := FromLittleEndian(src[off + 1..off + 3]);
      var start := off + 3;
      var end := start + l;
      if end > |src| {
        return Err(BadFrame);
      }
      var e := Tlv(t, src[start..end]);
      for i := 0 to |out|
        invariant forall j :: 0 <= j < i ==> out[j].typ != t
      {
        if out[i].typ == t {
          RepeatedTypeRefuses(out, e, Records(src[end..]), i);
          return Err(BadFrame);
        }
      }
      out := out + [e];
      off := end;
    }
    NoRecords();
    assert src[off..] == [] && out + [] == out;
    r := Ok(out);
  }

  lemma ShortRecord(s: seq<Byte>)
    requires |s| < 3
    ensures ParseTlv(s) == Fail
  {
  }

  lemma NoRecords()
    ensures Records([]) == Some([])
  {
  }

  /** Reading a record by offsets, as the loop does. */
  lemma RecordAt(src: seq<Byte>, off: nat)
    requires off + 3 <= |src|
    ensures var start := off + 3;
            var end := start + FromLittleEndian(src[off + 1..off + 3]);
            ParseTlv(src[off..]) ==
            if end > |src| then Fail else Done(Tlv(src[off], src[start..end]), src[end..])
  {
    var s1 := src[off..][1..];
    assert s1[..2] == src[off + 1..off + 3];
    var l := FromLittleEndian(s1[..2]);
    var s3 := src[off + 3..];
    assert s1[2..] == s3;
    if l <= |s3| {
      assert s3[..l] == src[off + 3..off + 3 + l] && s3[l..] == src[off + 3 + l..];
    }
  }

  method PutTlv(buf: seq<Byte>, t: Byte, value: seq<Byte>) returns (b: seq<Byte>)
    ensures b == buf + EncodeTlv(Tlv(t, value))
    ensures b == buf + [t, |value| % 0x100, |value| / 0x100 % 0x100] + value
  {
    TwoBytes(value, 0, |value|);
    b := buf + [t];
    b := b + LittleEndian(2, |value|);
    b := b + value;
  }
}
