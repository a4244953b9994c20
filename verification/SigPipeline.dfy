/**
 The sig-first pipeline as a state machine over atomic steps. One producer
 drains datagrams and pushes items into a bounded queue with three separate
 non-blocking channel operations; any number of consumers take items, see the
 end, or give up, between any two of its steps. A schedule is a sequence of
 steps; everything below holds for every schedule.
 */
module SigPipeline {
  import opened Bytes
  import opened Outcomes
  import opened Datagrams
  import opened Gaps
  import opened Streams

  datatype SigFirstItem = SigFirstItem(slot: U64, seqNo: U64, signature: Signature)

  /** Where the producer stands: outside push, or before one of push's channel operations. */
  datatype Producer =
    | Receiving
    | Sending(item: SigFirstItem)
    | Evicting(item: SigFirstItem)
    | Retrying(item: SigFirstItem)
    | Closing
    | Closed

  /** An item leaves the queue to a consumer or by eviction. */
  datatype Departure = Taken(item: SigFirstItem) | Evicted(item: SigFirstItem)

  /** What one consumer call returned; Finished carries the stored error, which may be unset. */
  datatype CallResult = Got(item: SigFirstItem) | Finished(error: Option<Error>) | Cancelled

  datatype Config = Config(capacity: nat, script: seq<seq<Byte>>, end: SourceEnd)

  /** The shared state, the producer's locals, and a history of what was begun, sent, taken out and returned. */
  datatype State = State(
    pos: nat, tracker: Tracker, producer: Producer,
    queue: seq<SigFirstItem>, dropped: U64, closed: bool, err: Option<Error>,
    begun: seq<SigFirstItem>, sent: seq<SigFirstItem>, departed: seq<Departure>, lost: seq<SigFirstItem>,
    calls: seq<CallResult>)

  datatype Step = Recv | TrySend | Evict | Retry | SetErr | CloseQueue | Receive | Cancel

  const INIT := State(0, START, Receiving, [], 0, false, None, [], [], [], [], [])

  /** The error drain stores when its source ends. */
  function DrainError(end: SourceEnd): Error {
    match end
    case CleanEnd => EndOfFeed
    case AppClose(c) => Terminal(c)
    case Failure => ReadFailed
  }

  // ---------- steps ----------

  /** One turn of drain's loop up to its call of push. */
  function ApplyRecv(s: State, dg: seq<Byte>): State {
    var t := s.(pos := s.pos + 1);
    match DecodeDatagram(dg)
    case Err(_) => t
    case Ok(SigFirst(slot, seqNo, sig)) =>
      var it := SigFirstItem(slot, seqNo, sig);
      t.(tracker := NoteItem(s.tracker, seqNo), producer := Sending(it), begun := s.begun + [it])
    case Ok(DatagramHeartbeat(_, highest)) => t.(tracker := NoteHeartbeat(s.tracker, highest))
    case Ok(UnknownDatagram(_)) => t
  }

  function Enqueue(s: State, it: SigFirstItem): State {
    s.(queue := s.queue + [it], sent := s.sent + [it], producer := Receiving)
  }

  function Dequeue(s: State, d: Departure): State
    requires |s.queue| > 0
  {
    s.(queue := s.queue[1..], departed := s.departed + [d])
  }

  /** A producer step; None when the producer is elsewhere. */
  function ApplyProducer(c: Config, s: State, step: Step): Option<State> {
    match (step, s.producer)
    case (Recv, Receiving) =>
      if s.pos < |c.script| then Some(ApplyRecv(s, c.script[s.pos])) else None
    case (TrySend, Sending(it)) =>
      Some(if |s.queue| < c.capacity then Enqueue(s, it) else s.(producer := Evicting(it)))
    case (Evict, Evicting(it)) =>
      Some(if |s.queue| > 0
           then Dequeue(s, Evicted(s.queue[0])).(dropped := AddU64(s.dropped, 1), producer := Retrying(it))
           else s.(producer := Retrying(it)))
    case (Retry, Retrying(it)) =>
      Some(if |s.queue| < c.capacity then Enqueue(s, it)
           else s.(dropped := AddU64(s.dropped, 1), lost := s.lost + [it], producer := Receiving))
    case (SetErr, Receiving) =>
      if s.pos >= |c.script| then Some(s.(err := Some(DrainError(c.end)), producer := Closing)) else None
    case (CloseQueue, Closing) => Some(s.(closed := true, producer := Closed))
    case _ => None
  }

  /** A consumer call; None when it would still be blocked. */
  function ApplyConsumer(s: State, step: Step): Option<State> {
    match step
    case Receive =>
      if |s.queue| > 0 then
        Some(Dequeue(s, Taken(s.queue[0])).(calls := s.calls + [Got(s.queue[0])]))
      else if s.closed then Some(s.(calls := s.calls + [Finished(s.err)]))
      else None
    case Cancel => Some(s.(calls := s.calls + [Cancelled]))
    case _ => None
  }

  predicate IsConsumer(step: Step) {
    step.Receive? || step.Cancel?
  }

  function Apply(c: Config, s: State, step: Step): Option<State> {
    if IsConsumer(step) then ApplyConsumer(s, step) else ApplyProducer(c, s, step)
  }

  /** The state a schedule leads to; None when one of its steps was not possible. */
  function Exec(c: Config, steps: seq<Step>): Option<State> {
    if steps == [] then Some(INIT) else
    var before := Exec(c, steps[..|steps| - 1]);
    if before.None? then None else Apply(c, before.value, steps[|steps| - 1])
  }

  // ---------- histories ----------

  function ItemsIn(ds: seq<Departure>): seq<SigFirstItem> {
    if ds == [] then [] else ItemsIn(ds[..|ds| - 1]) + [ds[|ds| - 1].item]
  }

  /** The items handed to consumers, in order. */
  function TakenIn(ds: seq<Departure>): seq<SigFirstItem> {
    if ds == [] then [] else
    TakenIn(ds[..|ds| - 1]) + if ds[|ds| - 1].Taken? then [ds[|ds| - 1].item] else []
  }

  function Evictions(ds: seq<Departure>): nat {
    if ds == [] then 0 else Evictions(ds[..|ds| - 1]) + if ds[|ds| - 1].Evicted? then 1 else 0
  }

  /** The items consumer calls returned, in order. */
  function GotIn(rs: seq<CallResult>): seq<SigFirstItem> {
    if rs == [] then [] else
    GotIn(rs[..|rs| - 1]) + if rs[|rs| - 1].Got? then [rs[|rs| - 1].item] else []
  }

  function Pending(p: Producer): seq<SigFirstItem> {
    match p
    case Sending(it) => [it]
    case Evicting(it) => [it]
    case Retrying(it) => [it]
    case _ => []
  }

  /** The sig-first items of a script, in arrival order. */
  function ItemsOf(script: seq<seq<Byte>>): seq<SigFirstItem> {
    if script == [] then [] else
    ItemsOf(script[..|script| - 1]) +
    match DecodeDatagram(script[|script| - 1])
    case Ok(SigFirst(slot, seqNo, sig)) => [SigFirstItem(slot, seqNo, sig)]
    case _ => []
  }

  /** What the gap counter is told by a script. */
  function ObservationsOf(script: seq<seq<Byte>>): seq<Observation> {
    if script == [] then [] else
    ObservationsOf(script[..|script| - 1]) +
    match DecodeDatagram(script[|script| - 1])
    case Ok(SigFirst(_, seqNo, _)) => [Item(seqNo)]
    case Ok(DatagramHeartbeat(_, highest)) => [Observation.Heartbeat(highest)]
    case _ => []
  }

  // ---------- the invariant ----------

  /** Items are conserved and stay in order; the retry always finds room. */
  ghost predicate QueueInv(c: Config, s: State) {
    && ItemsIn(s.departed) + s.queue == s.sent
    && |s.queue| <= c.capacity
    && s.begun == s.sent + Pending(s.producer)
    && s.lost == []
    && (s.producer.Retrying? ==> |s.queue| < c.capacity)
    && s.dropped == Evictions(s.departed) % TWO_64
    && GotIn(s.calls) == TakenIn(s.departed)
  }

  /** What was begun and counted is a function of the script read so far. */
  ghost predicate ScriptInv(c: Config, s: State) {
    && s.pos <= |c.script|
    && s.tracker == Track(ObservationsOf(c.script[..s.pos]))
    && s.begun == ItemsOf(c.script[..s.pos])
  }

  /** The end is stored before the queue closes, and reported only when nothing is queued any more. */
  ghost predicate EndInv(c: Config, s: State) {
    && (s.producer.Closing? || s.producer.Closed? ==> s.pos == |c.script|)
    && s.err == (if s.producer.Closing? || s.producer.Closed? then Some(DrainError(c.end)) else None)
    && s.closed == s.producer.Closed?
    && (forall i :: 0 <= i < |s.calls| && s.calls[i].Finished? ==>
          s.closed && |s.queue| == 0 && s.calls[i].error == s.err)
    && (forall i, j :: 0 <= i < j < |s.calls| && s.calls[i].Finished? ==> !s.calls[j].Got?)
  }

  /** An item leaves the front of the queue. */
  lemma Leaves(c: Config, s: State, t: State, d: Departure)
    requires QueueInv(c, s) && |s.queue| > 0 && d.item == s.queue[0]
    requires t.queue == s.queue[1..] && t.departed == s.departed + [d] && t.sent == s.sent
    requires t.begun == s.begun && t.lost == s.lost && Pending(t.producer) == Pending(s.producer)
    requires t.dropped == if d.Evicted? then AddU64(s.dropped, 1) else s.dropped
    requires t.calls == if d.Taken? then s.calls + [Got(d.item)] else s.calls
    ensures QueueInv(c, t)
  {
    hide ItemsIn, TakenIn, Evictions, GotIn;
    DepartureStep(s, d);
    CallStep(s.calls, Got(d.item));
  }

  /** The pending item enters the queue. */
  lemma Enters(c: Config, s: State, it: SigFirstItem)
    requires QueueInv(c, s) && |s.queue| < c.capacity && Pending(s.producer) == [it]
    ensures QueueInv(c, Enqueue(s, it))
  {
    hide ItemsIn, TakenIn, Evictions, GotIn;
    assert ItemsIn(s.departed) + (s.queue + [it]) == (ItemsIn(s.departed) + s.queue) + [it];
    assert s.sent + [it] == (s.sent + [it]) + [];
  }

  lemma QueueStep(c: Config, s: State, step: Step)
    requires c.capacity > 0 && QueueInv(c, s) && Apply(c, s, step).Some?
    ensures QueueInv(c, Apply(c, s, step).value)
  {
    hide DecodeDatagram, ItemsIn, TakenIn, Evictions, GotIn;
    var t := Apply(c, s, step).value;
    match step
    case Receive =>
      if |s.queue| > 0 {
        Leaves(c, s, t, Taken(s.queue[0]));
      } else {
        CallStep(s.calls, Finished(s.err));
      }
    case Cancel => CallStep(s.calls, Cancelled);
    case Evict =>
      if |s.queue| > 0 {
        Leaves(c, s, t, Evicted(s.queue[0]));
      }
    case TrySend =>
      if |s.queue| < c.capacity {
        Enters(c, s, s.producer.item);
      }
    case Retry => Enters(c, s, s.producer.item);
    case Recv => assert s.begun == s.sent;
    case SetErr =>
    case CloseQueue =>
  }

  lemma DepartureStep(s: State, d: Departure)
    requires |s.queue| > 0 && d.item == s.queue[0]
    ensures ItemsIn(s.departed + [d]) + s.queue[1..] == ItemsIn(s.departed) + s.queue
    ensures TakenIn(s.departed + [d]) == TakenIn(s.departed) + if d.Taken? then [d.item] else []
    ensures Evictions(s.departed + [d]) == Evictions(s.departed) + if d.Evicted? then 1 else 0
  {
    assert (s.departed + [d])[..|s.departed|] == s.departed;
  }

  lemma CallStep(rs: seq<CallResult>, r: CallResult)
    ensures GotIn(rs + [r]) == GotIn(rs) + if r.Got? then [r.item] else []
  {
    assert (rs + [r])[..|rs|] == rs;
  }

  /** Reading one more datagram extends the items and the observations by its own. */
  lemma ScriptSnoc(script: seq<seq<Byte>>, p: nat)
    requires p < |script|
    ensures ItemsOf(script[..p + 1]) == ItemsOf(script[..p]) + ItemsOf([script[p]])
    ensures ObservationsOf(script[..p + 1]) == ObservationsOf(script[..p]) + ObservationsOf([script[p]])
  {
    hide DecodeDatagram;
    assert script[..p + 1][..p] == script[..p];
    var last := [script[p]];
    assert last[..0] == [];
  }

  lemma RecvStep(s: State, dg: seq<Byte>)
    requires s.producer.Receiving?
    ensures var t := ApplyRecv(s, dg);
            && t.begun == s.begun + ItemsOf([dg])
            && t.tracker == (if ObservationsOf([dg]) == [] then s.tracker else Note(s.tracker, ObservationsOf([dg])[0]))
            && |ObservationsOf([dg])| <= 1
  {
    hide DecodeDatagram, NoteItem, NoteHeartbeat;
    var last := [dg];
    assert last[..0] == [];
    assert s.begun + [] == s.begun;
  }

  lemma ScriptStep(c: Config, s: State, step: Step)
    requires ScriptInv(c, s) && Apply(c, s, step).Some?
    ensures ScriptInv(c, Apply(c, s, step).value)
  {
    hide DecodeDatagram, Note, Track, ItemsOf, ObservationsOf;
    if step.Recv? {
      var dg := c.script[s.pos];
      hide ApplyRecv;
      ScriptSnoc(c.script, s.pos);
      RecvStep(s, dg);
      RecvAdvances(s, dg);
      TrackSnoc(ObservationsOf(c.script[..s.pos]));
      assert |ObservationsOf([dg])| == 1 ==> ObservationsOf([dg]) == [ObservationsOf([dg])[0]];
    }
  }

  lemma RecvAdvances(s: State, dg: seq<Byte>)
    ensures ApplyRecv(s, dg).pos == s.pos + 1
  {
  }

  lemma TrackSnoc(es: seq<Observation>)
    ensures forall e :: Track(es + [e]) == Note(Track(es), e)
    ensures es + [] == es
  {
    forall e ensures Track(es + [e]) == Note(Track(es), e) {
      assert (es + [e])[..|es|] == es;
    }
  }

  lemma EndStep(c: Config, s: State, step: Step)
    requires EndInv(c, s) && s.pos <= |c.script| && Apply(c, s, step).Some?
    ensures EndInv(c, Apply(c, s, step).value)
  {
    hide DecodeDatagram, Note, NoteItem, NoteHeartbeat;
  }

  ghost predicate Inv(c: Config, s: State) {
    QueueInv(c, s) && ScriptInv(c, s) && EndInv(c, s)
  }

  /** Every reachable state, under every interleaving, satisfies the invariant. */
  lemma {:induction false} Invariant(c: Config, steps: seq<Step>)
    requires c.capacity > 0
    ensures Exec(c, steps).Some? ==> Inv(c, Exec(c, steps).value)
  {
    if steps != [] && Exec(c, steps).Some? {
      hide Apply, QueueInv, EndInv;
      var before, step := steps[..|steps| - 1], steps[|steps| - 1];
      Invariant(c, before);
      var s := Exec(c, before).value;
      QueueStep(c, s, step);
      ScriptStep(c, s, step);
      EndStep(c, s, step);
    }
  }
}
