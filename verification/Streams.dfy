/**
 The full-transaction stream: u32 big-endian length-prefixed frames read from
 a byte source that delivers in arbitrary chunks, behind a six-byte preamble.
 */
module Streams {
  import opened Bytes
  import opened Outcomes
  import opened Frames

  /** Room for the 64 KiB remainder, two maximal records, and the type and flags bytes. */
  const MAX_FULL_TX_FRAME := 0x1_0000 + 2 * (65535 + 3) + 2

  /** "PLS2", the version, a reserved flags byte. */
  const PREAMBLE: seq<Byte> := [0x50, 0x4C, 0x53, 0x32, 0x02, 0x00]

  /** How the peer's bytes end. */
  datatype SourceEnd = CleanEnd | AppClose(close: Close) | Failure

  /** The error of a read: the source's own end, or io.ErrUnexpectedEOF. */
  datatype ReadError = Ended(end: SourceEnd) | UnexpectedEnd

  function JoinChunks(chunks: seq<seq<Byte>>): seq<Byte> {
    if chunks == [] then [] else chunks[0] + JoinChunks(chunks[1..])
  }

  /**
   A byte source. Each chunk is what one delivery makes available, possibly
   nothing; eager says whether the end may be reported together with the last bytes.
   */
  class Source {
    const end: SourceEnd
    const eager: bool
    var chunks: seq<seq<Byte>>

    constructor (chunks: seq<seq<Byte>>, end: SourceEnd, eager: bool)
      ensures this.chunks == chunks && this.end == end && this.eager == eager
    {
      this.chunks := chunks;
      this.end := end;
      this.eager := eager;
    }

    ghost function Remaining(): seq<Byte>
      reads this
    {
      JoinChunks(chunks)
    }

    /** Up to max bytes, and the end once nothing is left. */
    method Read(max: nat) returns (data: seq<Byte>, ended: bool)
      requires max > 0
      modifies this`chunks
      ensures |data| <= max && old(Remaining()) == data + Remaining()
      ensures ended ==> Remaining() == []
      ensures |chunks| < old(|chunks|) || |data| == max || ended
    {
      if chunks == [] {
        return [], true;
      }
      var c := chunks[0];
      if |c| <= max {
        data := c;
        chunks := chunks[1..];
        ended := eager && chunks == [];
      } else {
        data := c[..max];
        chunks := [c[max..]] + chunks[1..];
        ended := false;
        assert chunks[1..] == old(chunks)[1..];
        assert c == c[..max] + c[max..];
      }
    }

    /** io.ReadFull: n bytes, or what there was and why it fell short. */
    method ReadFull(n: nat) returns (data: seq<Byte>, err: Option<ReadError>)
      modifies this`chunks
      ensures old(Remaining()) == data + Remaining()
      ensures if |old(Remaining())| >= n
              then err == None && |data| == n
              else err == Some(ShortRead(|data|, end)) && Remaining() == []
      ensures err.Some? ==> err.value == if |data| > 0 && end == CleanEnd then UnexpectedEnd else Ended(end)
    {
      hide JoinChunks;
      ghost var total := Remaining();
      data := [];
      while |data| < n
        invariant total == data + Remaining()
        invariant |data| <= n
        decreases n - |data|, |chunks|
      {
        var more, ended := Read(n - |data|);
        assert data + (more + Remaining()) == (data + more) + Remaining();
        data := data + more;
        if ended && |data| < n {
          assert |total| == |data|;
          return data, Some(ShortRead(|data|, end));
        }
      }
      assert |total| >= n;
      err := None;
    }
  }

  /** A clean end after some bytes is io.ErrUnexpectedEOF; every other end is reported as it is. */
  function ShortRead(read: nat, end: SourceEnd): ReadError {
    if read > 0 && end == CleanEnd then UnexpectedEnd else Ended(end)
  }

  // ---------- one call of Next ----------

  datatype HeartbeatState = HeartbeatState(serverTsMs: U64, highestSeq: U64)

  /** What a call returns, what it leaves unread, and the heartbeat it leaves stored. */
  datatype NextResult = NextResult(result: Result<Frame>, rest: seq<Byte>, heartbeat: Option<HeartbeatState>)

  /** The error when the source ends after read bytes of a length prefix. */
  function HeaderError(read: nat, end: SourceEnd): Error {
    match end
    case AppClose(c) => if read != 0 then ClosedInFrame(c) else Terminal(c)
    case CleanEnd => if read == 0 then EndOfFeed else BadFrame
    case Failure => BadFrame
  }

  /** The error when the source ends inside a body. */
  function BodyError(end: SourceEnd): Error {
    if end.AppClose? then ClosedInFrame(end.close) else BadFrame
  }

  /** One call of Next, on the bytes still to come. */
  ghost function NextOn(s: seq<Byte>, end: SourceEnd, hb: Option<HeartbeatState>): (r: NextResult)
    ensures |r.rest| <= |s|
    ensures r.result.Ok? ==> |r.rest| < |s| && r.result.value.FullTxV2?
    decreases |s|
  {
    if |s| < 4 then NextResult(Err(HeaderError(|s|, end)), [], hb) else
    var n := FromBigEndian(s[..4]);
    if n > MAX_FULL_TX_FRAME then NextResult(Err(FrameTooLarge(n)), s[4..], hb)
    else if |s| - 4 < n then NextResult(Err(BodyError(end)), [], hb)
    else
      var rest := s[4 + n..];
      match FrameOf(s[4..4 + n])
      case Err(e) => NextResult(Err(e), rest, hb)
      case Ok(UnknownFrame(_)) => NextOn(rest, end, hb)
      case Ok(FrameHeartbeat(t, h)) => NextOn(rest, end, Some(HeartbeatState(t, h)))
      case Ok(FullTxV2(tx, alt, w, ro)) => NextResult(Ok(FullTxV2(tx, alt, w, ro)), rest, hb)
  }

  /** All calls of Next until the first error. */
  datatype RunResult = RunResult(
    seen: seq<(Frame, Option<HeartbeatState>)>, error: Error, rest: seq<Byte>, heartbeat: Option<HeartbeatState>)

  /** Each delivered transaction with the heartbeat stored when it is returned, then the error that ends the run. */
  ghost function RunOn(s: seq<Byte>, end: SourceEnd, hb: Option<HeartbeatState>): RunResult
    decreases |s|
  {
    var n := NextOn(s, end, hb);
    match n.result
    case Err(e) => RunResult([], e, n.rest, n.heartbeat)
    case Ok(f) =>
      var r := RunOn(n.rest, end, n.heartbeat);
      RunResult([(f, n.heartbeat)] + r.seen, r.error, r.rest, r.heartbeat)
  }

  /** A live full-transaction subscription. */
  class FullSub {
    const rs: Source
    var heartbeat: Option<HeartbeatState>

    constructor (rs: Source)
      ensures this.rs == rs && heartbeat == None
    {
      this.rs := rs;
      this.heartbeat := None;
    }

    method Next() returns (r: Result<Frame>)
      modifies this`heartbeat, rs`chunks
      ensures NextResult(r, rs.Remaining(), heartbeat) == NextOn(old(rs.Remaining()), rs.end, old(heartbeat))
    {
      hide FrameOf, FromBigEndian, JoinChunks;
      while true
        invariant NextOn(rs.Remaining(), rs.end, heartbeat) == NextOn(old(rs.Remaining()), rs.end, old(heartbeat))
        decreases |rs.Remaining()|
      {
        ghost var s := rs.Remaining();
        var hdr, err := rs.ReadFull(4);
        if err.Some? {
          return Err(HeaderFailure(|hdr|, err.value));
        }
        assert s[..4] == hdr && s[4..] == rs.Remaining();
        var n := FromBigEndian(hdr);
        if n > MAX_FULL_TX_FRAME {
          return Err(FrameTooLarge(n));
        }
        var body, bodyErr := rs.ReadFull(n);
        if bodyErr.Some? {
          return Err(BodyFailure(bodyErr.value));
        }
        assert s[4..4 + n] == body && s[4 + n..] == rs.Remaining();
        var frame :- DecodeFrame(body);
        match frame {
          case UnknownFrame(_) =>
          case FrameHeartbeat(t, h) => heartbeat := Some(HeartbeatState(t, h));
          case FullTxV2(_, _, _, _) => return Ok(frame);
        }
      }
    }

    /** The consumer's loop: Next until it fails. */
    method Collect() returns (txs: seq<Frame>, error: Error)
      modifies this`heartbeat, rs`chunks
      ensures var run := RunOn(old(rs.Remaining()), rs.end, old(heartbeat));
              && |txs| == |run.seen| && (forall i :: 0 <= i < |txs| ==> txs[i] == run.seen[i].0)
              && error == run.error && rs.Remaining() == run.rest && heartbeat == run.heartbeat
    {
      hide NextOn, JoinChunks;
      txs := [];
      ghost var run := RunOn(rs.Remaining(), rs.end, heartbeat);
      while true
        invariant var more := RunOn(rs.Remaining(), rs.end, heartbeat);
                  && |txs| + |more.seen| == |run.seen|
                  && (forall i :: 0 <= i < |txs| ==> txs[i] == run.seen[i].0)
                  && run.seen[|txs|..] == more.seen
                  && more.error == run.error && more.rest == run.rest && more.heartbeat == run.heartbeat
        decreases |rs.Remaining()|
      {
        ghost var more := RunOn(rs.Remaining(), rs.end, heartbeat);
        var r := Next();
        if r.Err? {
          return txs, r.error;
        }
        assert more.seen[0] == run.seen[|txs|];
        assert more.seen[1..] == run.seen[|txs| + 1..];
        txs := txs + [r.value];
      }
    }
  }

  /** The header branch, as the code tests it: application close, then io.EOF, then anything else. */
  function HeaderFailure(read: nat, err: ReadError): Error {
    if err.Ended? && err.end.AppClose? then
      if read != 0 then ClosedInFrame(err.end.close) else Terminal(err.end.close)
    else if err == Ended(CleanEnd) then EndOfFeed
    else BadFrame
  }

  function BodyFailure(err: ReadError): Error {
    if err.Ended? && err.end.AppClose? then ClosedInFrame(err.end.close) else BadFrame
  }

  /** Accepts exactly the preamble; consumes exactly its length when that much is there. */
  method VerifyPreamble(rs: Source) returns (r: Result<()>)
    modifies rs`chunks
    ensures r.Ok? <==> [0x50, 0x4C, 0x53, 0x32, 0x02, 0x00] <= old(rs.Remaining())
    ensures |old(rs.Remaining())| >= 6 ==>
              old(rs.Remaining())[6..] == rs.Remaining() && (r.Ok? || r.error == BadPreamble)
    ensures |old(rs.Remaining())| < 6 ==>
              r == Err(match rs.end
                       case AppClose(c) => if old(rs.Remaining()) != [] then ClosedInPreamble(c) else Terminal(c)
                       case CleanEnd => BadPreamble
                       case Failure => ReadFailed)
  {
    var buf, err := rs.ReadFull(6);
    if err.Some? {
      if err.value.Ended? && err.value.end.AppClose? {
        return Err(if |buf| != 0 then ClosedInPreamble(err.value.end.close) else Terminal(err.value.end.close));
      }
      if err.value != Ended(CleanEnd) && err.value != UnexpectedEnd {
        return Err(ReadFailed);
      }
      return Err(BadPreamble);
    }
    if buf != PREAMBLE {
      return Err(BadPreamble);
    }
    r := Ok(());
  }
}
