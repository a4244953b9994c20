/**
 The sig-first subscription object: drain, push, the two counters and Next,
 written as the code is, with consumers free to interfere between any two
 channel operations of push. Each operation is proved to be steps of the
 machine in SigPipeline, so every law of its schedules holds of the object.
 */
module SigFirst {
  import opened Bytes
  import opened Outcomes
  import opened Datagrams
  import opened Gaps
  import opened Streams
  import opened SigPipeline
  import opened SigPipelineLaws

  /** Nothing differs but what consumers may move. */
  ghost predicate SameProducerSide(s: State, t: State) {
    t.(queue := s.queue, departed := s.departed, calls := s.calls) == s
  }

  class SigFirstSub {
    // what the datagram source will deliver
    const script: seq<seq<Byte>>
    const end: SourceEnd

    // the channel, the counters and the stored error
    const queueCapacity: nat
    var ch: seq<SigFirstItem>
    var closed: bool
    var dropped: U64
    var gaps: U64
    var err: Option<Error>

    // drain's locals, which the two note operations update in place
    var lastSeq: U64
    var haveLast: bool

    // the steps taken so far and the machine state they lead to
    ghost var schedule: seq<Step>
    ghost var model: State

    ghost function Cfg(): Config {
      Config(queueCapacity, script, end)
    }

    ghost predicate Valid()
      reads this
    {
      && queueCapacity > 0
      && Exec(Cfg(), schedule) == Some(model)
      && model.queue == ch
      && model.closed == closed
      && model.dropped == dropped
      && model.tracker == Tracker(lastSeq, haveLast, gaps)
      && model.err == err
    }

    constructor (queueLen: nat, script: seq<seq<Byte>>, end: SourceEnd)
      requires queueLen > 0
      ensures Valid() && model == INIT && schedule == []
      ensures this.script == script && this.end == end && queueCapacity == queueLen
    {
      this.script := script;
      this.end := end;
      this.queueCapacity := queueLen;
      this.ch := [];
      this.closed := false;
      this.dropped := 0;
      this.gaps := 0;
      this.err := None;
      this.lastSeq := 0;
      this.haveLast := false;
      this.schedule := [];
      this.model := INIT;
    }

    /** Records one step of the machine. */
    ghost method Advance(step: Step)
      requires Exec(Cfg(), schedule) == Some(model) && Apply(Cfg(), model, step).Some?
      modifies this`schedule, this`model
      ensures schedule == old(schedule) + [step]
      ensures Some(model) == Apply(Cfg(), old(model), step) == Exec(Cfg(), schedule)
    {
      hide Exec;
      ExecSnoc(Cfg(), schedule, step);
      model := Apply(Cfg(), model, step).value;
      schedule := schedule + [step];
    }

    method NoteItemSeq(s: U64)
      modifies this`lastSeq, this`haveLast, this`gaps
      ensures Tracker(lastSeq, haveLast, gaps) == NoteItem(old(Tracker(lastSeq, haveLast, gaps)), s)
    {
      if haveLast {
        var last := lastSeq;
        gaps := AddU64(gaps, SatSub(s, SatAdd1(last)));
        if s > last {
          lastSeq := s;
        }
      } else {
        lastSeq := s;
        haveLast := true;
      }
    }

    method NoteHeartbeatSeq(highestSeq: U64)
      modifies this`lastSeq, this`haveLast, this`gaps
      ensures Tracker(lastSeq, haveLast, gaps) == NoteHeartbeat(old(Tracker(lastSeq, haveLast, gaps)), highestSeq)
    {
      if highestSeq == NO_SEQ_ASSIGNED {
        return;
      }
      if haveLast {
        if highestSeq > lastSeq {
          gaps := AddU64(gaps, highestSeq - lastSeq);
          lastSeq := highestSeq;
        }
      } else {
        lastSeq := highestSeq;
        haveLast := true;
      }
    }

    /** One consumer call. With both an item or the end and a finished context ready, either may be chosen. */
    method Next(contextEnded: bool, preferContext: bool) returns (r: CallResult)
      requires Valid()
      requires |ch| > 0 || closed || contextEnded  // otherwise the call is still blocked
      modifies this`ch, this`schedule, this`model
      ensures Valid()
      ensures model.calls == old(model.calls) + [r]
      ensures Apply(Cfg(), old(model), if r.Cancelled? then Cancel else Receive) == Some(model)
      ensures schedule == old(schedule) + [if r.Cancelled? then Cancel else Receive]
      ensures SameProducerSide(old(model), model)
      ensures r.Cancelled? ==> contextEnded && ch == old(ch)
      ensures r.Got? ==> old(ch) == [r.item] + ch
      ensures r.Finished? ==> closed && old(ch) == ch == [] && r.error == err
    {
      hide Exec;
      if contextEnded && (preferContext || (|ch| == 0 && !closed)) {
        Advance(Cancel);
        return Cancelled;
      }
      Advance(Receive);
      if |ch| > 0 {
        r := Got(ch[0]);
        ch := ch[1..];
      } else {
        r := Finished(err);
      }
    }

    /** Any number of consumer calls, by any number of consumers. */
    method Interfere()
      requires Valid()
      modifies this`ch, this`schedule, this`model
      ensures Valid()
      ensures |ch| <= |old(ch)|
      ensures SameProducerSide(old(model), model)
      ensures Evictions(model.departed) == Evictions(old(model.departed))
    {
      hide Exec, Evictions;
      var calls: int :| 0 <= calls;
      for i := 0 to calls
        invariant Valid() && |ch| <= |old(ch)|
        invariant SameProducerSide(old(model), model)
        invariant Evictions(model.departed) == Evictions(old(model.departed))
      {
        var contextEnded, preferContext := *, *;
        if |ch| > 0 || closed || contextEnded {
          ghost var before := model;
          var r := Next(contextEnded, preferContext);
          TakingIsNoEviction(Cfg(), before, if r.Cancelled? then Cancel else Receive);
        }
      }
    }

    /** The first, non-blocking send. */
    method TrySendItem(it: SigFirstItem) returns (sent: bool)
      requires Valid() && model.producer == Sending(it)
      modifies this`ch, this`schedule, this`model
      ensures Valid()
      ensures sent <==> |old(ch)| < queueCapacity
      ensures model == if sent then Enqueue(old(model), it) else old(model).(producer := Evicting(it))
    {
      hide Exec;
      Advance(TrySend);
      sent := |ch| < queueCapacity;
      if sent {
        ch := ch + [it];
      }
    }

    /** The non-blocking receive that makes room, and its count. */
    method EvictOldest(it: SigFirstItem)
      requires Valid() && model.producer == Evicting(it)
      modifies this`ch, this`dropped, this`schedule, this`model
      ensures Valid()
      ensures Apply(Cfg(), old(model), Evict) == Some(model)
    {
      hide Exec;
      Advance(Evict);
      if |ch| > 0 {
        ch := ch[1..];
        dropped := AddU64(dropped, 1);
      }
    }

    /** The second non-blocking send, which always finds room. */
    method RetrySend(it: SigFirstItem)
      requires Valid() && model.producer == Retrying(it)
      modifies this`ch, this`schedule, this`model
      ensures Valid()
      ensures model == Enqueue(old(model), it)
    {
      hide Exec;
      Bounds();
      Advance(Retry);
      if |ch| < queueCapacity {
        ch := ch + [it];
      } else {
        assert false;  // the code counts a drop here; with one producer the retry cannot fail
      }
    }

    /** Offers it to the queue, evicting the oldest item when the first try finds the queue full. */
    method Push(it: SigFirstItem)
      requires Valid() && model.producer == Sending(it)
      modifies this`ch, this`dropped, this`schedule, this`model
      ensures Valid() && model.producer == Receiving
      ensures model.sent == old(model.sent) + [it] && model.lost == []
      ensures model.pos == old(model.pos) && model.tracker == old(model.tracker) && model.begun == old(model.begun)
      ensures Evictions(model.departed) <= Evictions(old(model.departed)) + 1
      ensures Evictions(model.departed) > Evictions(old(model.departed)) ==> |old(ch)| == queueCapacity
      ensures dropped == if Evictions(model.departed) > Evictions(old(model.departed)) then AddU64(old(dropped), 1)
                         else old(dropped)
    {
      hide Exec, Evictions;
      Bounds();
      var sent := TrySendItem(it);
      if !sent {
        Interfere();
        EvictionStep(Cfg(), model);
        EvictOldest(it);
        Interfere();
        RetrySend(it);
      }
      Bounds();
    }

    /** The laws of the machine at this moment. */
    lemma Bounds()
      requires Valid()
      ensures |ch| <= queueCapacity && model.lost == []
      ensures model.producer.Retrying? ==> |ch| < queueCapacity
    {
      hide Exec, ScriptInv, EndInv;
      Invariant(Cfg(), schedule);
    }

    /** One datagram: count it, push it, or skip it. */
    method Handle(dg: seq<Byte>)
      requires Valid() && model.producer == Receiving
      requires model.pos < |script| && script[model.pos] == dg
      modifies this
      ensures Valid() && model.producer == Receiving && model.pos == old(model.pos) + 1
    {
      hide Exec, DecodeDatagram, NoteItem, NoteHeartbeat;
      Advance(Recv);
      var d := DecodeDatagram(dg);
      if d.Err? {
        return;
      }
      match d.value {
        case SigFirst(slot, seqNo, signature) =>
          NoteItemSeq(seqNo);
          Interfere();
          Push(SigFirstItem(slot, seqNo, signature));
        case DatagramHeartbeat(_, highestSeq) =>
          NoteHeartbeatSeq(highestSeq);
        case UnknownDatagram(_) =>
      }
    }

    /** The source has ended: store its error, then close the queue. */
    method Finish()
      requires Valid() && model.producer == Receiving && model.pos >= |script|
      modifies this
      ensures Valid() && closed
      ensures end.AppClose? ==> err == Some(Terminal(end.close))
      ensures end == CleanEnd ==> err == Some(EndOfFeed)
      ensures end == Failure ==> err == Some(ReadFailed)
    {
      hide Exec, ApplyRecv;
      Advance(SetErr);
      err := Some(DrainError(end));
      Interfere();
      Advance(CloseQueue);
      closed := true;
    }

    /** The producer goroutine, from subscription to the closing of the queue. */
    method Drain()
      requires Valid() && model == INIT
      modifies this
      ensures Valid() && closed
      ensures end.AppClose? ==> err == Some(Terminal(end.close))
      ensures end == CleanEnd ==> err == Some(EndOfFeed)
      ensures end == Failure ==> err == Some(ReadFailed)
      ensures model.sent == ItemsOf(script)
      ensures Tracker(lastSeq, haveLast, gaps) == Track(ObservationsOf(script))
    {
      hide Exec, ItemsOf, ObservationsOf, Track, Apply;
      for i := 0 to |script|
        invariant Valid() && model.producer == Receiving && model.pos == i
      {
        Interfere();
        Handle(script[i]);
      }
      Interfere();
      Finish();
      DrainIsAFold(Cfg(), schedule);
    }
  }

  lemma TakingIsNoEviction(c: Config, s: State, step: Step)
    requires IsConsumer(step) && Apply(c, s, step).Some?
    ensures Evictions(Apply(c, s, step).value.departed) == Evictions(s.departed)
  {
    hide Evictions, TakenIn, ItemsIn;
    if |s.queue| > 0 {
      DepartureStep(s, Taken(s.queue[0]));
    }
  }

  lemma EvictionStep(c: Config, s: State)
    requires s.producer.Evicting?
    ensures var t := Apply(c, s, Evict).value;
            Evictions(t.departed) == Evictions(s.departed) + if |s.queue| > 0 then 1 else 0
  {
    hide Evictions, TakenIn, ItemsIn;
    if |s.queue| > 0 {
      DepartureStep(s, Evicted(s.queue[0]));
    }
  }
}
