/** Whole runs of the stream reader over streams of records. */
module StreamLaws {
  import opened Bytes
  import opened Outcomes
  import opened Parsing
  import opened Transactions
  import opened Frames
  import opened FrameLaws
  import opened Streams

  /** A frame behind its length prefix. */
  function Record(f: seq<Byte>): seq<Byte> {
    BigEndian(4, |f|) + f
  }

  function Records(fs: seq<seq<Byte>>): seq<Byte> {
    Concat(Record, fs)
  }

  /** A frame the reader accepts: within the ceiling and decodable. */
  ghost predicate Good(f: seq<Byte>) {
    |f| <= MAX_FULL_TX_FRAME && FrameOf(f).Ok?
  }

  ghost predicate AllGood(fs: seq<seq<Byte>>) {
    forall f <- fs :: Good(f)
  }

  ghost predicate CarriesTx(f: seq<Byte>) {
    FrameOf(f).Ok? && FrameOf(f).value.FullTxV2?
  }

  ghost predicate CarriesHeartbeat(f: seq<Byte>) {
    FrameOf(f).Ok? && FrameOf(f).value.FrameHeartbeat?
  }

  ghost function HeartbeatIn(f: seq<Byte>): HeartbeatState
    requires CarriesHeartbeat(f)
  {
    HeartbeatState(FrameOf(f).value.serverTsMs, FrameOf(f).value.highestSeq)
  }

  /** The last heartbeat among fs, or hb when there is none. */
  ghost function LastHeartbeat(fs: seq<seq<Byte>>, hb: Option<HeartbeatState>): Option<HeartbeatState> {
    if fs == [] then hb
    else if CarriesHeartbeat(fs[|fs| - 1]) then Some(HeartbeatIn(fs[|fs| - 1]))
    else LastHeartbeat(fs[..|fs| - 1], hb)
  }

  /** The transactions of fs in order, each with the last heartbeat before it. */
  ghost function Expected(fs: seq<seq<Byte>>, hb: Option<HeartbeatState>): seq<(Frame, Option<HeartbeatState>)> {
    if fs == [] then [] else
    var front, f := fs[..|fs| - 1], fs[|fs| - 1];
    Expected(front, hb) + Contribution(f, LastHeartbeat(front, hb))
  }

  /** What one frame adds to a run while hb is the stored heartbeat. */
  ghost function Contribution(f: seq<Byte>, hb: Option<HeartbeatState>): seq<(Frame, Option<HeartbeatState>)> {
    if CarriesTx(f) then [(FrameOf(f).value, hb)] else []
  }

  /** A stream end inside a record: a partial length prefix, or a partial body of a permitted length. */
  ghost predicate Truncated(tail: seq<Byte>) {
    |tail| < 4 || (FromBigEndian(tail[..4]) <= MAX_FULL_TX_FRAME && |tail| - 4 < FromBigEndian(tail[..4]))
  }

  // ---------- taking the first record off ----------

  lemma {:induction false} LastHeartbeatCons(f: seq<Byte>, fs: seq<seq<Byte>>, hb: Option<HeartbeatState>)
    ensures LastHeartbeat([f] + fs, hb) == LastHeartbeat(fs, LastHeartbeat([f], hb))
  {
    if fs == [] {
      assert [f] + fs == [f];
    } else {
      LastHeartbeatCons(f, fs[..|fs| - 1], hb);
      assert ([f] + fs)[..|fs|] == [f] + fs[..|fs| - 1];
    }
  }

  lemma Associative<T>(a: seq<T>, b: seq<T>, c: seq<T>)
    ensures (a + b) + c == a + (b + c)
  {
  }

  lemma ExpectedSnoc(front: seq<seq<Byte>>, f: seq<Byte>, hb: Option<HeartbeatState>)
    ensures Expected(front + [f], hb) == Expected(front, hb) + Contribution(f, LastHeartbeat(front, hb))
  {
    hide LastHeartbeat, Contribution;
    assert (front + [f])[..|front|] == front;
  }

  lemma {:induction false} ExpectedCons(f: seq<Byte>, fs: seq<seq<Byte>>, hb: Option<HeartbeatState>)
    ensures Expected([f] + fs, hb) == Expected([f], hb) + Expected(fs, LastHeartbeat([f], hb))
  {
    if fs == [] {
      assert [f] + fs == [f];
    } else {
      hide Expected, LastHeartbeat, Contribution;
      var front, last, hb1 := fs[..|fs| - 1], fs[|fs| - 1], LastHeartbeat([f], hb);
      assert fs == front + [last] && [f] + fs == ([f] + front) + [last];
      ExpectedCons(f, front, hb);
      LastHeartbeatCons(f, front, hb);
      ExpectedSnoc([f] + front, last, hb);
      ExpectedSnoc(front, last, hb1);
      Associative(Expected([f], hb), Expected(front, hb1), Contribution(last, LastHeartbeat(front, hb1)));
    }
  }

  lemma SingleRecord(f: seq<Byte>, hb: Option<HeartbeatState>)
    ensures LastHeartbeat([f], hb) == if CarriesHeartbeat(f) then Some(HeartbeatIn(f)) else hb
    ensures Expected([f], hb) == if CarriesTx(f) then [(FrameOf(f).value, hb)] else []
  {
    assert [f][..0] == [];
  }

  /** What one call does when a good record is next. */
  lemma NextOnRecord(f: seq<Byte>, t: seq<Byte>, end: SourceEnd, hb: Option<HeartbeatState>)
    requires Good(f)
    ensures NextOn(Record(f) + t, end, hb) ==
            if CarriesTx(f) then NextResult(FrameOf(f), t, hb) else NextOn(t, end, LastHeartbeat([f], hb))
  {
    hide FrameOf, LastHeartbeat;
    var s := Record(f) + t;
    Pow256Values();
    BigEndianRoundTrip(4, |f|);
    assert s[..4] == BigEndian(4, |f|) && s[4..4 + |f|] == f && s[4 + |f|..] == t;
    SingleRecord(f, hb);
  }

  /** The bytes of a record: its length, high byte first, then the frame. */
  lemma RecordBytes(f: seq<Byte>)
    ensures |f| < 0x1_0000_0000 ==>
              Record(f) == [|f| / 0x100_0000, |f| / 0x1_0000 % 0x100, |f| / 0x100 % 0x100, |f| % 0x100] + f
  {
    FourBytes([], |f|);
  }

  /** One call by the bytes of the length prefix: a short prefix, an excessive length, a short body, or a frame. */
  lemma NextByPrefix(s: seq<Byte>, end: SourceEnd, hb: Option<HeartbeatState>)
    requires |s| >= 4
    ensures var b: seq<int>, r := s, NextOn(s, end, hb);
            var n := 0x100_0000 * b[0] + 0x1_0000 * b[1] + 0x100 * b[2] + b[3];
            if n > 196614 then r == NextResult(Err(FrameTooLarge(n)), s[4..], hb)
            else if |s| < 4 + n then
              r == NextResult(Err(if end.AppClose? then ClosedInFrame(end.close) else BadFrame), [], hb)
            else
              match FrameOf(s[4..4 + n])
              case Err(e) => r == NextResult(Err(e), s[4 + n..], hb)
              case Ok(UnknownFrame(_)) => r == NextOn(s[4 + n..], end, hb)
              case Ok(FrameHeartbeat(t, h)) => r == NextOn(s[4 + n..], end, Some(HeartbeatState(t, h)))
              case Ok(f) => r == NextResult(Ok(f), s[4 + n..], hb)
  {
    hide FrameOf, FromBigEndian;
    FourBytes(s, 0);
  }

  /** The record of a frame of any unassigned type is skipped, whatever the frame holds. */
  lemma UnknownIsSkipped(f: seq<Byte>, t: seq<Byte>, end: SourceEnd, hb: Option<HeartbeatState>)
    requires 2 <= |f| <= 196614 && f[0] != 1 && f[0] != 2
    ensures NextOn(Record(f) + t, end, hb) == NextOn(t, end, hb)
    ensures RunOn(Record(f) + t, end, hb) == RunOn(t, end, hb)
  {
    hide FrameOf, LastHeartbeat, NextOn, Record;
    FrameByType(f);
    NextOnRecord(f, t, end, hb);
    SingleRecord(f, hb);
  }

  // ---------- whole runs ----------

  /**
   Over good records, whatever follows them, the calls deliver exactly the
   transactions in order, each call leaving the last heartbeat before its cursor.
   */
  lemma {:induction false} RunOverRecords(fs: seq<seq<Byte>>, t: seq<Byte>, end: SourceEnd, hb: Option<HeartbeatState>)
    requires AllGood(fs)
    ensures RunOn(Records(fs) + t, end, hb) ==
            var r := RunOn(t, end, LastHeartbeat(fs, hb));
            RunResult(Expected(fs, hb) + r.seen, r.error, r.rest, r.heartbeat)
    decreases |fs|
  {
    hide Good, Record, RunOn, LastHeartbeat, Expected;
    if fs == [] {
      assert Records(fs) + t == t;
      NoRecords(hb);
      assert [] + RunOn(t, end, hb).seen == RunOn(t, end, hb).seen;
    } else {
      var f, hb1 := fs[0], LastHeartbeat([fs[0]], hb);
      assert fs == [f] + fs[1..];
      Associative(Record(f), Records(fs[1..]), t);
      FirstStep(f, Records(fs[1..]) + t, end, hb);
      RunOverRecords(fs[1..], t, end, hb1);
      LastHeartbeatCons(f, fs[1..], hb);
      ExpectedCons(f, fs[1..], hb);
      Associative(Expected([f], hb), Expected(fs[1..], hb1), RunOn(t, end, LastHeartbeat(fs, hb)).seen);
    }
  }

  lemma NoRecords(hb: Option<HeartbeatState>)
    ensures LastHeartbeat([], hb) == hb && Expected([], hb) == []
  {
  }

  lemma FirstStep(f: seq<Byte>, t: seq<Byte>, end: SourceEnd, hb: Option<HeartbeatState>)
    requires Good(f)
    ensures RunOn(Record(f) + t, end, hb) ==
            var r := RunOn(t, end, LastHeartbeat([f], hb));
            RunResult(Expected([f], hb) + r.seen, r.error, r.rest, r.heartbeat)
  {
    hide NextOn, Record, FrameOf;
    NextOnRecord(f, t, end, hb);
    SingleRecord(f, hb);
    var r := RunOn(t, end, LastHeartbeat([f], hb));
    assert [] + r.seen == r.seen;
  }

  /** One call, with no transaction before the record of f: f is returned and the cursor stands just behind it. */
  lemma {:induction false} NextOverRecords(fs: seq<seq<Byte>>, f: seq<Byte>, t: seq<Byte>, end: SourceEnd,
                                           hb: Option<HeartbeatState>)
    requires AllGood(fs) && (forall g <- fs :: !CarriesTx(g)) && Good(f) && CarriesTx(f)
    ensures NextOn(Records(fs) + (Record(f) + t), end, hb) == NextResult(FrameOf(f), t, LastHeartbeat(fs, hb))
    decreases |fs|
  {
    hide Good, CarriesTx, CarriesHeartbeat, Record, NextOn;
    if fs == [] {
      assert Records(fs) + (Record(f) + t) == Record(f) + t;
      NextOnRecord(f, t, end, hb);
    } else {
      var more := Records(fs[1..]) + (Record(f) + t);
      assert fs == [fs[0]] + fs[1..];
      assert Records(fs) + (Record(f) + t) == Record(fs[0]) + more;
      NextOnRecord(fs[0], more, end, hb);
      LastHeartbeatCons(fs[0], fs[1..], hb);
      NextOverRecords(fs[1..], f, t, end, LastHeartbeat([fs[0]], hb));
    }
  }

  /** With no heartbeat among fs from index k on, the stored one is that of frame k - 1, or what it was for k = 0. */
  lemma {:induction false} LastHeartbeatIs(fs: seq<seq<Byte>>, k: nat, hb: Option<HeartbeatState>)
    requires k <= |fs| && forall j :: k <= j < |fs| ==> !CarriesHeartbeat(fs[j])
    ensures k == 0 ==> LastHeartbeat(fs, hb) == hb
    ensures k > 0 && CarriesHeartbeat(fs[k - 1]) ==>
              var f := FrameOf(fs[k - 1]).value;
              LastHeartbeat(fs, hb) == Some(HeartbeatState(f.serverTsMs, f.highestSeq))
    decreases |fs|
  {
    hide FrameOf;
    if k < |fs| {
      LastHeartbeatIs(fs[..|fs| - 1], k, hb);
    }
  }

  /** x is the transaction of frame i, with the last heartbeat before it. */
  ghost predicate Carried(x: (Frame, Option<HeartbeatState>), fs: seq<seq<Byte>>, hb: Option<HeartbeatState>, i: nat) {
    i < |fs| && CarriesTx(fs[i]) && x == (FrameOf(fs[i]).value, LastHeartbeat(fs[..i], hb))
  }

  /** out holds the transactions of the frames at the indexes ix, which are all that carry one, in order. */
  ghost predicate Delivers(out: seq<(Frame, Option<HeartbeatState>)>, fs: seq<seq<Byte>>, hb: Option<HeartbeatState>,
                           ix: seq<nat>) {
    && |out| == |ix|
    && (forall j :: 0 <= j < |ix| ==> Carried(out[j], fs, hb, ix[j]))
    && (forall i, j :: 0 <= i < j < |ix| ==> ix[i] < ix[j])
    && (forall i: nat :: i < |fs| && CarriesTx(fs[i]) ==> i in ix)
  }

  lemma CarriedInLonger(fs: seq<seq<Byte>>, f: seq<Byte>, hb: Option<HeartbeatState>)
    ensures forall x, i: nat :: Carried(x, fs, hb, i) ==> i < |fs| && Carried(x, fs + [f], hb, i)
    ensures forall x :: Carried(x, fs + [f], hb, |fs|) <==>
                        CarriesTx(f) && x == (FrameOf(f).value, LastHeartbeat(fs, hb))
  {
    hide FrameOf, CarriesTx, LastHeartbeat;
    var all := fs + [f];
    assert all[..|fs|] == fs;
    forall x, i: nat | Carried(x, fs, hb, i) ensures Carried(x, all, hb, i) {
      assert all[..i] == fs[..i];
    }
  }

  lemma DeliversSnoc(out: seq<(Frame, Option<HeartbeatState>)>, fs: seq<seq<Byte>>, hb: Option<HeartbeatState>,
                     ix: seq<nat>, f: seq<Byte>)
    requires Delivers(out, fs, hb, ix)
    ensures Delivers(out + Contribution(f, LastHeartbeat(fs, hb)), fs + [f], hb,
                     ix + if CarriesTx(f) then [|fs|] else [])
  {
    hide FrameOf, CarriesTx, LastHeartbeat, Carried;
    CarriedInLonger(fs, f, hb);
    forall j | 0 <= j < |ix| ensures ix[j] < |fs| {
      assert Carried(out[j], fs, hb, ix[j]);
    }
  }

  /** The prediction holds exactly the frames that carry a transaction. */
  lemma {:induction false} ExpectedIndexes(fs: seq<seq<Byte>>, hb: Option<HeartbeatState>) returns (ix: seq<nat>)
    ensures Delivers(Expected(fs, hb), fs, hb, ix)
  {
    hide Contribution, CarriesTx, LastHeartbeat, FrameOf;
    if fs == [] {
      ix := [];
    } else {
      hide Delivers, Expected;
      var front, f := fs[..|fs| - 1], fs[|fs| - 1];
      var before := ExpectedIndexes(front, hb);
      assert fs == front + [f];
      ExpectedSnoc(front, f, hb);
      DeliversSnoc(Expected(front, hb), front, hb, before, f);
      ix := before + if CarriesTx(f) then [|front|] else [];
    }
  }

  lemma FrameErrors(f: seq<Byte>)
    ensures FrameOf(f).Err? ==> FrameOf(f).error == BadFrame
  {
    hide DecodePrefix, Tlvs.Trailer, AddressField, NumberField;
  }

  /** A length prefix beyond the ceiling; nothing behind it is read. */
  ghost predicate Oversized(t: seq<Byte>) {
    |t| >= 4 && FromBigEndian(t[..4]) > MAX_FULL_TX_FRAME
  }

  /** A complete record of a permitted length whose frame does not decode. */
  ghost predicate Undecodable(t: seq<Byte>) {
    |t| >= 4 && var n := FromBigEndian(t[..4]);
    n <= MAX_FULL_TX_FRAME && n <= |t| - 4 && FrameOf(t[4..4 + n]).Err?
  }

  /** The error with which a run stops at t. */
  ghost function StopError(t: seq<Byte>, end: SourceEnd): Error
    requires Truncated(t) || Oversized(t) || Undecodable(t)
  {
    if Oversized(t) then FrameTooLarge(FromBigEndian(t[..4]))
    else if Undecodable(t) then BadFrame
    else
      match end
      case CleanEnd => if t == [] then EndOfFeed else BadFrame
      case AppClose(c) => if t == [] then Terminal(c) else ClosedInFrame(c)
      case Failure => BadFrame
  }

  /** What a stopped run leaves unread: what follows the prefix or record it refused, or nothing. */
  ghost function StopRest(t: seq<Byte>): seq<Byte>
    requires Truncated(t) || Oversized(t) || Undecodable(t)
  {
    if Oversized(t) then t[4..]
    else if Undecodable(t) then t[4 + FromBigEndian(t[..4])..]
    else []
  }

  lemma RunStops(t: seq<Byte>, end: SourceEnd, hb: Option<HeartbeatState>)
    requires Truncated(t) || Oversized(t) || Undecodable(t)
    ensures RunOn(t, end, hb) == RunResult([], StopError(t, end), StopRest(t), hb)
  {
    if |t| >= 4 && FromBigEndian(t[..4]) <= |t| - 4 {
      FrameErrors(t[4..4 + FromBigEndian(t[..4])]);
    }
  }

  /** Every byte stream is good records followed by a place where the reader stops. */
  lemma {:induction false} Decompose(s: seq<Byte>) returns (fs: seq<seq<Byte>>, t: seq<Byte>)
    ensures AllGood(fs) && s == Records(fs) + t
    ensures Truncated(t) || Oversized(t) || Undecodable(t)
    decreases |s|
  {
    hide FrameOf;
    if Truncated(s) || Oversized(s) || Undecodable(s) {
      fs, t := [], s;
    } else {
      var n := FromBigEndian(s[..4]);
      var f := s[4..4 + n];
      var more;
      more, t := Decompose(s[4 + n..]);
      fs := [f] + more;
      BigEndianCanonical(s[..4]);
      assert s[..4] == BigEndian(4, |f|);
      assert fs[1..] == more;
      Associative(Record(f), Records(more), t);
      assert s == Record(f) + (Records(more) + t);
    }
  }

  /**
   Every run, on every byte stream: the good records at its front decide what is
   delivered and which heartbeat is stored, and what follows them decides how it ends.
   */
  lemma EveryRun(s: seq<Byte>, end: SourceEnd, hb: Option<HeartbeatState>) returns (fs: seq<seq<Byte>>, t: seq<Byte>)
    ensures AllGood(fs) && s == Records(fs) + t
    ensures Truncated(t) || Oversized(t) || Undecodable(t)
    ensures RunOn(s, end, hb) ==
            RunResult(Expected(fs, hb), StopError(t, end), StopRest(t), LastHeartbeat(fs, hb))
  {
    hide AllGood, RunOn, Truncated, Oversized, Undecodable;
    fs, t := Decompose(s);
    RunOverRecords(fs, t, end, hb);
    RunStops(t, end, LastHeartbeat(fs, hb));
    assert Expected(fs, hb) + [] == Expected(fs, hb);
  }

  /** A run ends with EOF exactly when the source ends cleanly on a boundary of good records. */
  lemma EofIff(s: seq<Byte>, end: SourceEnd, hb: Option<HeartbeatState>)
    ensures RunOn(s, end, hb).error == EndOfFeed <==> end == CleanEnd && exists fs :: AllGood(fs) && s == Records(fs)
  {
    hide RunOn, AllGood;
    var gs, t := EveryRun(s, end, hb);
    if RunOn(s, end, hb).error == EndOfFeed {
      assert Records(gs) + [] == Records(gs);
    }
    forall fs | end == CleanEnd && AllGood(fs) && s == Records(fs) ensures RunOn(s, end, hb).error == EndOfFeed {
      assert Records(fs) + [] == s;
      RunOverRecords(fs, [], end, hb);
      RunStops([], end, LastHeartbeat(fs, hb));
    }
  }

  /**
   A run ends with a bad frame exactly when good records are followed by an
   undecodable one, or by a stop inside a record, or, for a transport failure,
   by a stop anywhere, a record boundary included.
   */
  lemma BadFrameIff(s: seq<Byte>, end: SourceEnd, hb: Option<HeartbeatState>)
    ensures RunOn(s, end, hb).error == BadFrame <==>
            exists fs, t {:trigger Records(fs) + t} :: AllGood(fs) && s == Records(fs) + t && StopsBadly(t, end)
  {
    hide RunOn, AllGood, Truncated, Oversized, Undecodable;
    var gs, u := EveryRun(s, end, hb);
    StopsAre(u);
    assert s == Records(gs) + u;
    forall fs, t {:trigger Records(fs) + t} | AllGood(fs) && s == Records(fs) + t && StopsBadly(t, end)
      ensures RunOn(s, end, hb).error == BadFrame
    {
      StopsAre(t);
      RunOverRecords(fs, t, end, hb);
      RunStops(t, end, LastHeartbeat(fs, hb));
    }
  }

  /** A run reports the peer's close exactly when the peer closed: as it is on a record boundary, else as inside one. */
  lemma CloseIff(s: seq<Byte>, end: SourceEnd, hb: Option<HeartbeatState>, c: Close)
    ensures RunOn(s, end, hb).error == Terminal(c) <==>
            end == AppClose(c) && exists fs :: AllGood(fs) && s == Records(fs)
    ensures RunOn(s, end, hb).error == ClosedInFrame(c) <==>
            end == AppClose(c) && exists fs, t {:trigger Records(fs) + t} ::
              AllGood(fs) && s == Records(fs) + t && t != [] && Truncated(t)
  {
    hide RunOn, AllGood, Truncated, Oversized, Undecodable;
    var gs, u := EveryRun(s, end, hb);
    StopsAre(u);
    assert s == Records(gs) + u;
    assert Records(gs) + [] == Records(gs);
    forall fs | AllGood(fs) && s == Records(fs) ensures end == AppClose(c) ==> RunOn(s, end, hb).error == Terminal(c) {
      EndOnBoundary(fs, end, hb);
    }
    forall fs, t {:trigger Records(fs) + t} | AllGood(fs) && s == Records(fs) + t && t != [] && Truncated(t)
      ensures end == AppClose(c) ==> RunOn(s, end, hb).error == ClosedInFrame(c)
    {
      StopsAre(t);
      RunOverRecords(fs, t, end, hb);
      RunStops(t, end, LastHeartbeat(fs, hb));
    }
  }

  /** A run over whole good records ends with the source's own end; a transport failure reads as a bad frame. */
  lemma EndOnBoundary(fs: seq<seq<Byte>>, end: SourceEnd, hb: Option<HeartbeatState>)
    requires AllGood(fs)
    ensures var run := RunOn(Records(fs), end, hb);
            && run.seen == Expected(fs, hb) && run.rest == [] && run.heartbeat == LastHeartbeat(fs, hb)
            && run.error == if end.AppClose? then Terminal(end.close)
                            else if end == CleanEnd then EndOfFeed else BadFrame
  {
    hide AllGood, RunOn, Expected, LastHeartbeat;
    assert Records(fs) + [] == Records(fs);
    RunOverRecords(fs, [], end, hb);
    RunStops([], end, LastHeartbeat(fs, hb));
    assert Expected(fs, hb) + [] == Expected(fs, hb);
  }

  /** A run stops at an excessive length exactly when good records are followed by a prefix naming it. */
  lemma TooLargeIff(s: seq<Byte>, end: SourceEnd, hb: Option<HeartbeatState>, n: nat)
    ensures RunOn(s, end, hb).error == FrameTooLarge(n) <==>
            n > 196614 && exists fs, t {:trigger Records(fs) + t} ::
              AllGood(fs) && s == Records(fs) + t && |t| >= 4 && n == High4(t)
  {
    hide RunOn, AllGood, Truncated, Undecodable, FromBigEndian, High4;
    var gs, u := EveryRun(s, end, hb);
    FourBytes(u, 0);
    assert s == Records(gs) + u;
    forall fs, t {:trigger Records(fs) + t} | AllGood(fs) && s == Records(fs) + t && |t| >= 4 && n == High4(t)
      ensures n > 196614 ==> RunOn(s, end, hb).error == FrameTooLarge(n)
    {
      if n > 196614 {
        FourBytes(t, 0);
        RunOverRecords(fs, t, end, hb);
        RunStops(t, end, LastHeartbeat(fs, hb));
      }
    }
  }

  ghost predicate StopsBadly(t: seq<Byte>, end: SourceEnd) {
    Undecodable(t) || (Truncated(t) && (end == Failure || (end == CleanEnd && t != [])))
  }

  /** The three ways to stop exclude one another. */
  lemma StopsAre(t: seq<Byte>)
    ensures Truncated(t) ==> !Oversized(t) && !Undecodable(t)
    ensures Oversized(t) ==> !Undecodable(t)
  {
  }

  // ---------- end to end ----------

  /** What a peer asks to be sent. */
  datatype Sent = Sent(ft: FullTx, altIncomplete: bool, loadedWritable: seq<Key>, loadedReadonly: seq<Key>)

  function FrameBytesOf(x: Sent): seq<Byte> {
    EncodeFrame(x.ft, x.altIncomplete, x.loadedWritable, x.loadedReadonly)
  }

  function Delivered(x: Sent): Frame {
    FullTxV2(x.ft, x.altIncomplete, x.loadedWritable, x.loadedReadonly)
  }

  predicate Sendable(x: Sent) {
    BytesFit(x.ft) && |FrameBytesOf(x)| - 2 <= MAX_FULL_TX_BODY
  }

  function FramesOf(xs: seq<Sent>): seq<seq<Byte>> {
    if xs == [] then [] else FramesOf(xs[..|xs| - 1]) + [FrameBytesOf(xs[|xs| - 1])]
  }

  function DeliveredOf(xs: seq<Sent>, hb: Option<HeartbeatState>): seq<(Frame, Option<HeartbeatState>)> {
    if xs == [] then [] else DeliveredOf(xs[..|xs| - 1], hb) + [(Delivered(xs[|xs| - 1]), hb)]
  }

  lemma SentIsGood(x: Sent)
    requires Sendable(x)
    ensures Good(FrameBytesOf(x)) && FrameOf(FrameBytesOf(x)) == Ok(Delivered(x))
  {
    hide FrameOf, EncodeFrame;
    FrameRoundTrip(x.ft, x.altIncomplete, x.loadedWritable, x.loadedReadonly);
  }

  lemma {:induction false} ExpectedOfSent(xs: seq<Sent>, hb: Option<HeartbeatState>)
    requires forall x <- xs :: Sendable(x)
    ensures AllGood(FramesOf(xs)) && LastHeartbeat(FramesOf(xs), hb) == hb
    ensures Expected(FramesOf(xs), hb) == DeliveredOf(xs, hb)
  {
    if xs != [] {
      hide FrameOf, FrameBytesOf, Sendable, Good;
      var front, x := xs[..|xs| - 1], xs[|xs| - 1];
      ExpectedOfSent(front, hb);
      SentIsGood(x);
      assert FramesOf(xs)[..|FramesOf(front)|] == FramesOf(front);
    }
  }

  /** Sendable transactions, encoded, framed and read back until the end, arrive complete, unchanged and in order. */
  lemma EndToEnd(xs: seq<Sent>, end: SourceEnd, hb: Option<HeartbeatState>)
    requires forall x <- xs :: Sendable(x)
    ensures var run := RunOn(Records(FramesOf(xs)), end, hb);
            && run.seen == DeliveredOf(xs, hb) && run.rest == [] && run.heartbeat == hb
            && run.error == if end.AppClose? then Terminal(end.close)
                            else if end == CleanEnd then EndOfFeed else BadFrame
  {
    hide AllGood, RunOn;
    ExpectedOfSent(xs, hb);
    EndOnBoundary(FramesOf(xs), end, hb);
  }

  lemma {:induction false} DeliveredAt(xs: seq<Sent>, hb: Option<HeartbeatState>, i: nat)
    requires i < |xs|
    ensures |DeliveredOf(xs, hb)| == |xs| && DeliveredOf(xs, hb)[i] == (Delivered(xs[i]), hb)
  {
    if i < |xs| - 1 {
      DeliveredAt(xs[..|xs| - 1], hb, i);
    } else if i > 0 {
      DeliveredAt(xs[..|xs| - 1], hb, 0);
    }
  }

  /** The bytes a serving peer writes: the preamble, then the records of what it sends. */
  function SessionBytes(xs: seq<Sent>): seq<Byte> {
    PREAMBLE + Records(FramesOf(xs))
  }

  lemma SessionRun(xs: seq<Sent>, end: SourceEnd)
    requires forall x <- xs :: Sendable(x)
    ensures [0x50, 0x4C, 0x53, 0x32, 0x02, 0x00] <= SessionBytes(xs)
    ensures var run := RunOn(SessionBytes(xs)[6..], end, None);
            && |run.seen| == |xs| && (forall i :: 0 <= i < |xs| ==> run.seen[i].0 == Delivered(xs[i]))
            && run.error == if end.AppClose? then Terminal(end.close)
                            else if end == CleanEnd then EndOfFeed else BadFrame
  {
    hide RunOn, FramesOf, Records, Sendable, Delivered;
    EndToEnd(xs, end, None);
    assert SessionBytes(xs)[6..] == Records(FramesOf(xs));
    forall i | 0 <= i < |xs| ensures |DeliveredOf(xs, None)| == |xs| && DeliveredOf(xs, None)[i].0 == Delivered(xs[i]) {
      DeliveredAt(xs, None, i);
    }
    if xs == [] {
      assert DeliveredOf(xs, None) == [];
    }
  }

  /**
   A whole session: check the preamble, then collect until the end. Whatever
   list of sendable transactions the peer wrote, in whatever chunks the bytes
   arrive, exactly those transactions are returned, in order.
   */
  method Session(rs: Source) returns (setup: Result<()>, txs: seq<Frame>, error: Error)
    modifies rs`chunks
    ensures setup.Ok? <==> [0x50, 0x4C, 0x53, 0x32, 0x02, 0x00] <= old(rs.Remaining())
    ensures setup.Err? ==> txs == [] && error == setup.error
    ensures forall xs: seq<Sent> ::
              (forall x <- xs :: Sendable(x)) && old(rs.Remaining()) == SessionBytes(xs) ==>
                && setup.Ok? && |txs| == |xs| && (forall i :: 0 <= i < |xs| ==> txs[i] == Delivered(xs[i]))
                && error == if rs.end.AppClose? then Terminal(rs.end.close)
                            else if rs.end == CleanEnd then EndOfFeed else BadFrame
  {
    hide JoinChunks, RunOn, SessionBytes, Sendable, Delivered;
    ghost var s := rs.Remaining();
    setup := VerifyPreamble(rs);
    forall xs: seq<Sent> | (forall x <- xs :: Sendable(x)) && s == SessionBytes(xs)
      ensures [0x50, 0x4C, 0x53, 0x32, 0x02, 0x00] <= s
      ensures var run := RunOn(s[6..], rs.end, None);
              && |run.seen| == |xs| && (forall i :: 0 <= i < |xs| ==> run.seen[i].0 == Delivered(xs[i]))
              && run.error == if rs.end.AppClose? then Terminal(rs.end.close)
                              else if rs.end == CleanEnd then EndOfFeed else BadFrame
    {
      SessionRun(xs, rs.end);
    }
    if setup.Err? {
      return setup, [], setup.error;
    }
    var sub := new FullSub(rs);
    txs, error := sub.Collect();
  }
}
