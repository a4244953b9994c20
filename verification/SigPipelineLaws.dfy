/** What every schedule of the sig-first pipeline keeps, and what a stalled consumer leaves. */
module SigPipelineLaws {
  import opened Bytes
  import opened Outcomes
  import opened Datagrams
  import opened Gaps
  import opened Streams
  import opened SigPipeline

  /**
   Conservation under every interleaving: what was sent is what left, in order,
   followed by what is queued; consumers received exactly what left otherwise
   than by eviction; only the item in mid-push is begun and not yet sent; nothing
   else is ever lost.
   */
  lemma QueueSafety(c: Config, steps: seq<Step>)
    requires c.capacity > 0 && Exec(c, steps).Some?
    ensures var s := Exec(c, steps).value;
            && ItemsIn(s.departed) + s.queue == s.sent
            && s.begun == s.sent + Pending(s.producer)
            && |s.queue| <= c.capacity
            && GotIn(s.calls) == TakenIn(s.departed)
            && |s.sent| == |GotIn(s.calls)| + Evictions(s.departed) + |s.queue|
            && s.dropped == Evictions(s.departed) % TWO_64
            && s.lost == []
  {
    hide ScriptInv, EndInv, ItemsIn, GotIn, TakenIn, Evictions;
    Invariant(c, steps);
    DeparturesBalance(Exec(c, steps).value.departed);
  }

  lemma {:induction false} DeparturesBalance(ds: seq<Departure>)
    ensures |ItemsIn(ds)| == |ds| == |TakenIn(ds)| + Evictions(ds)
  {
    if ds != [] {
      DeparturesBalance(ds[..|ds| - 1]);
    }
  }

  /** a can be obtained from b by leaving elements out. */
  ghost predicate Subsequence<T>(a: seq<T>, b: seq<T>) {
    if |a| == 0 then true
    else if |b| == 0 then false
    else (a[|a| - 1] == b[|b| - 1] && Subsequence(a[..|a| - 1], b[..|b| - 1])) || Subsequence(a, b[..|b| - 1])
  }

  lemma {:induction false} TakenIsSubsequence(ds: seq<Departure>)
    ensures Subsequence(TakenIn(ds), ItemsIn(ds))
  {
    if ds != [] {
      var front, d := ds[..|ds| - 1], ds[|ds| - 1];
      TakenIsSubsequence(front);
      assert ItemsIn(ds)[..|ItemsIn(ds)| - 1] == ItemsIn(front);
      if d.Taken? {
        assert TakenIn(ds)[..|TakenIn(ds)| - 1] == TakenIn(front);
      } else {
        assert TakenIn(ds) == TakenIn(front);
      }
    }
  }

  lemma {:induction false} SubsequenceOfLonger<T>(a: seq<T>, b: seq<T>, more: seq<T>)
    requires Subsequence(a, b)
    ensures Subsequence(a, b + more)
  {
    if more == [] {
      assert b + more == b;
    } else {
      SubsequenceOfLonger(a, b, more[..|more| - 1]);
      assert (b + more)[..|b + more| - 1] == b + more[..|more| - 1];
    }
  }

  lemma {:induction false} ItemsOfPrefix(script: seq<seq<Byte>>, p: nat) returns (more: seq<SigFirstItem>)
    requires p <= |script|
    ensures ItemsOf(script) == ItemsOf(script[..p]) + more
    decreases |script|
  {
    hide DecodeDatagram;
    if p == |script| {
      assert script[..p] == script;
      more := [];
    } else {
      var front := script[..|script| - 1];
      var m := ItemsOfPrefix(front, p);
      assert front[..p] == script[..p];
      more := m + ItemsOf(script)[|ItemsOf(front)|..];
    }
  }

  /** What consumers receive is, in order, some of the script's items: none twice, none out of order, none invented. */
  lemma DeliveredInOrder(c: Config, steps: seq<Step>)
    requires c.capacity > 0 && Exec(c, steps).Some?
    ensures Subsequence(GotIn(Exec(c, steps).value.calls), ItemsOf(c.script))
  {
    hide Exec, EndInv, ItemsIn, GotIn, TakenIn, Evictions, Subsequence, ItemsOf, ObservationsOf;
    Invariant(c, steps);
    var s := Exec(c, steps).value;
    TakenIsSubsequence(s.departed);
    SubsequenceOfLonger(TakenIn(s.departed), ItemsIn(s.departed), s.queue);
    SubsequenceOfLonger(TakenIn(s.departed), s.sent, Pending(s.producer));
    var more := ItemsOfPrefix(c.script, s.pos);
    SubsequenceOfLonger(TakenIn(s.departed), s.begun, more);
  }

  /** Whenever the retry is reached it succeeds: its last branch is dead code. */
  lemma RetrySucceeds(c: Config, steps: seq<Step>)
    requires c.capacity > 0 && Exec(c, steps).Some? && Exec(c, steps).value.producer.Retrying?
    ensures var s := Exec(c, steps).value; Apply(c, s, Retry) == Some(Enqueue(s, s.producer.item))
  {
    hide ScriptInv, EndInv, ItemsIn, GotIn, TakenIn, Evictions;
    Invariant(c, steps);
  }

  /** An earlier part of a possible schedule is possible. */
  lemma {:induction false} ExecPrefix(c: Config, steps: seq<Step>, k: nat)
    requires k <= |steps| && Exec(c, steps).Some?
    ensures Exec(c, steps[..k]).Some?
    decreases |steps|
  {
    if k == |steps| {
      assert steps[..k] == steps;
    } else {
      var before := steps[..|steps| - 1];
      ExecPrefix(c, before, k);
      assert before[..k] == steps[..k];
    }
  }

  /** How many items consumers receive in a stretch of a schedule. */
  function Receives(w: seq<Step>): nat {
    if w == [] then 0 else Receives(w[..|w| - 1]) + if w[|w| - 1] == Receive then 1 else 0
  }

  lemma {:induction false} ReceivesNone(w: seq<Step>)
    ensures Receives(w) == 0 <==> Receive !in w
  {
    if w != [] {
      ReceivesNone(w[..|w| - 1]);
      assert w == w[..|w| - 1] + [w[|w| - 1]];
    }
  }

  /** The stretch holds the push's eviction step, with fewer than capacity receives before it. */
  ghost predicate EvictsWithin(w: seq<Step>, capacity: nat) {
    exists k: nat :: k < |w| && w[k] == Evict && Receives(w[..k]) < capacity
  }

  /** Where a push stands, and what it has evicted, after its first operation at start and the steps w. */
  ghost predicate PushWindow(c: Config, start: State, w: seq<Step>, s: State) {
    && (s.producer.Evicting? <==> |start.queue| == c.capacity && Evict !in w)
    && (s.producer.Evicting? ==> |s.queue| == c.capacity - Receives(w))
    && Evictions(s.departed) == Evictions(start.departed) +
       if |start.queue| == c.capacity && EvictsWithin(w, c.capacity) then 1 else 0
  }

  lemma WindowSnoc(w: seq<Step>, step: Step, capacity: nat)
    ensures Receives(w + [step]) == Receives(w) + if step == Receive then 1 else 0
    ensures EvictsWithin(w + [step], capacity) <==>
            EvictsWithin(w, capacity) || (step == Evict && Receives(w) < capacity)
  {
    var v := w + [step];
    assert v[..|w|] == w;
    forall k: nat | k < |w| ensures v[k] == w[k] && v[..k] == w[..k] {}
    if EvictsWithin(w, capacity) {
      var k: nat :| k < |w| && w[k] == Evict && Receives(w[..k]) < capacity;
      assert v[k] == Evict && Receives(v[..k]) < capacity;
    } else if step == Evict && Receives(w) < capacity {
      assert v[|w|] == Evict && Receives(v[..|w|]) < capacity;
    }
  }

  lemma PushProgress(c: Config, start: State, w: seq<Step>, s: State, step: Step)
    requires PushWindow(c, start, w, s) && Apply(c, s, step).Some? && step != TrySend
    requires s.closed ==> s.producer.Closed?
    ensures PushWindow(c, start, w + [step], Apply(c, s, step).value)
  {
    hide DecodeDatagram, NoteItem, NoteHeartbeat, ItemsIn, TakenIn, Evictions, EvictsWithin, Receives;
    WindowSnoc(w, step, c.capacity);
    if EvictsWithin(w, c.capacity) {
      EvictsWithinHasEvict(w, c.capacity);
    }
    if |s.queue| > 0 {
      DepartureStep(s, Evicted(s.queue[0]));
      DepartureStep(s, Taken(s.queue[0]));
    }
  }

  lemma EvictsWithinHasEvict(w: seq<Step>, capacity: nat)
    requires EvictsWithin(w, capacity)
    ensures Evict in w
  {
  }

  lemma PushBegins(c: Config, s: State)
    requires |s.queue| <= c.capacity && Apply(c, s, TrySend).Some?
    ensures PushWindow(c, s, [], Apply(c, s, TrySend).value)
  {
  }

  lemma {:induction false} PushInvariant(c: Config, steps: seq<Step>, i: nat, j: nat)
    requires c.capacity > 0 && i < j <= |steps| && Exec(c, steps).Some?
    requires steps[i] == TrySend && TrySend !in steps[i + 1..j]
    ensures Exec(c, steps[..i]).Some? && Exec(c, steps[..j]).Some?
    ensures PushWindow(c, Exec(c, steps[..i]).value, steps[i + 1..j], Exec(c, steps[..j]).value)
    decreases j
  {
    hide Exec, PushWindow, Apply;
    ExecPrefix(c, steps, i);
    ExecPrefix(c, steps, j);
    LastStep(c, steps, j);
    var start := Exec(c, steps[..i]).value;
    if j == i + 1 {
      WithinCapacity(c, steps[..i]);
      PushBegins(c, start);
      assert steps[i + 1..j] == [];
    } else {
      var w, step := steps[i + 1..j - 1], steps[j - 1];
      assert steps[i + 1..j] == w + [step];
      PushInvariant(c, steps, i, j - 1);
      ClosedAtTheEnd(c, steps[..j - 1]);
      PushProgress(c, start, w, Exec(c, steps[..j - 1]).value, step);
    }
  }

  lemma ClosedAtTheEnd(c: Config, steps: seq<Step>)
    requires c.capacity > 0 && Exec(c, steps).Some?
    ensures Exec(c, steps).value.closed ==> Exec(c, steps).value.producer.Closed?
  {
    hide Exec, QueueInv, ScriptInv;
    Invariant(c, steps);
  }

  /**
   One push, from its first operation up to any point before the next one's:
   an item has been evicted exactly when the queue was full at that operation
   and the eviction step came with fewer than capacity receives in between;
   and never more than one.
   */
  lemma OnePush(c: Config, steps: seq<Step>, i: nat, j: nat)
    requires c.capacity > 0 && i < j <= |steps| && Exec(c, steps).Some?
    requires steps[i] == TrySend && TrySend !in steps[i + 1..j]
    ensures Exec(c, steps[..i]).Some? && Exec(c, steps[..j]).Some?
    ensures var start, s := Exec(c, steps[..i]).value, Exec(c, steps[..j]).value;
            Evictions(s.departed) == Evictions(start.departed) +
            if |start.queue| == c.capacity && EvictsWithin(steps[i + 1..j], c.capacity) then 1 else 0
  {
    hide Exec;
    PushInvariant(c, steps, i, j);
  }

  /**
   The queue between a full first try and the push's eviction: capacity less the
   receives so far. So the eviction takes its item from a full queue exactly when
   nobody received in between, and takes none exactly when capacity receives came.
   */
  lemma EvictionAtCapacity(c: Config, steps: seq<Step>, i: nat, j: nat)
    requires c.capacity > 0 && i < j <= |steps| && Exec(c, steps).Some?
    requires steps[i] == TrySend && TrySend !in steps[i + 1..j] && Evict !in steps[i + 1..j]
    ensures Exec(c, steps[..i]).Some? && Exec(c, steps[..j]).Some?
    ensures |Exec(c, steps[..i]).value.queue| == c.capacity ==>
              var s := Exec(c, steps[..j]).value;
              && s.producer.Evicting?
              && |s.queue| == c.capacity - Receives(steps[i + 1..j])
              && (|s.queue| == c.capacity <==> Receive !in steps[i + 1..j])
  {
    hide Exec;
    PushInvariant(c, steps, i, j);
    ReceivesNone(steps[i + 1..j]);
  }

  lemma WithinCapacity(c: Config, steps: seq<Step>)
    requires c.capacity > 0 && Exec(c, steps).Some?
    ensures |Exec(c, steps).value.queue| <= c.capacity
  {
    hide Exec, ScriptInv, EndInv;
    Invariant(c, steps);
  }

  lemma LastStep(c: Config, steps: seq<Step>, j: nat)
    requires 0 < j <= |steps| && Exec(c, steps[..j]).Some?
    ensures Exec(c, steps[..j - 1]).Some?
    ensures Apply(c, Exec(c, steps[..j - 1]).value, steps[j - 1]) == Exec(c, steps[..j])
  {
    assert steps[..j][..j - 1] == steps[..j - 1];
  }

  // ---------- stalled consumers ----------

  /** With nobody receiving, the queue fills and stays full; every departure is an eviction. */
  ghost predicate Stalled(c: Config, s: State) {
    && Evictions(s.departed) == |s.departed|
    && (s.producer.Evicting? ==> |s.queue| == c.capacity)
    && (s.producer.Retrying? ==> |s.queue| == c.capacity - 1 && |s.sent| >= c.capacity)
    && (!s.producer.Retrying? ==> |s.queue| == if |s.sent| < c.capacity then |s.sent| else c.capacity)
  }

  lemma StalledStep(c: Config, s: State, step: Step)
    requires c.capacity > 0 && |s.queue| <= c.capacity && Stalled(c, s) && step != Receive && Apply(c, s, step).Some?
    ensures Stalled(c, Apply(c, s, step).value)
  {
    hide DecodeDatagram, NoteItem, NoteHeartbeat, ItemsIn, TakenIn, Evictions;
    if |s.queue| > 0 {
      DepartureStep(s, Evicted(s.queue[0]));
    }
  }

  lemma {:induction false} StallInvariant(c: Config, steps: seq<Step>)
    requires c.capacity > 0 && Receive !in steps && Exec(c, steps).Some?
    ensures Stalled(c, Exec(c, steps).value)
  {
    if steps != [] {
      hide Stalled, Apply;
      var before := steps[..|steps| - 1];
      assert steps == before + [steps[|steps| - 1]];
      StallInvariant(c, before);
      WithinCapacity(c, before);
      StalledStep(c, Exec(c, before).value, steps[|steps| - 1]);
    } else {
      assert Stalled(c, INIT);
    }
  }

  /** With stalled consumers the survivors are exactly the last capacity items, and the rest are counted as dropped. */
  lemma StalledSurvivors(c: Config, steps: seq<Step>)
    requires c.capacity > 0 && Receive !in steps && Exec(c, steps).Some?
    requires !Exec(c, steps).value.producer.Retrying?
    ensures var s := Exec(c, steps).value;
            var evicted := if |s.sent| < c.capacity then 0 else |s.sent| - c.capacity;
            s.queue == s.sent[evicted..] && s.dropped == evicted % TWO_64
  {
    hide Exec, ScriptInv, EndInv, ItemsIn, GotIn, TakenIn, Evictions;
    StallInvariant(c, steps);
    Invariant(c, steps);
    var s := Exec(c, steps).value;
    DeparturesBalance(s.departed);
  }

  // ---------- the script alone decides ----------

  /**
   Two runs over the same script, with any capacities, ends, consumers and
   schedules, agree on the gap counter and on the items pushed whenever they
   have read equally far.
   */
  lemma ScheduleIsImmaterial(c: Config, a: seq<Step>, d: Config, b: seq<Step>)
    requires c.capacity > 0 && d.capacity > 0 && c.script == d.script
    requires Exec(c, a).Some? && Exec(d, b).Some? && Exec(c, a).value.pos == Exec(d, b).value.pos
    ensures Exec(c, a).value.tracker == Exec(d, b).value.tracker
    ensures Exec(c, a).value.begun == Exec(d, b).value.begun
  {
    hide QueueInv, EndInv, Exec;
    Invariant(c, a);
    Invariant(d, b);
  }

  /**
   What one more datagram adds, by its bytes: a heartbeat's bytes in front add
   one observation and no item, an item's bytes in front add both, and every
   other datagram adds nothing. With the empty script this settles every script.
   */
  lemma ScriptMeaning(script: seq<seq<Byte>>, dg: seq<Byte>)
    ensures ItemsOf([]) == [] && ObservationsOf([]) == []
    ensures forall ts: U64, h: U64 :: HeartbeatBytes(ts, h) <= dg ==>
              && ObservationsOf(script + [dg]) == ObservationsOf(script) + [Observation.Heartbeat(h)]
              && ItemsOf(script + [dg]) == ItemsOf(script)
    ensures forall slot: U64, n: U64, sig: Signature :: SigFirstBytes(slot, n, sig) <= dg ==>
              && ObservationsOf(script + [dg]) == ObservationsOf(script) + [Item(n)]
              && ItemsOf(script + [dg]) == ItemsOf(script) + [SigFirstItem(slot, n, sig)]
    ensures || (exists ts: U64, h: U64 :: HeartbeatBytes(ts, h) <= dg)
            || (exists slot: U64, n: U64, sig: Signature :: SigFirstBytes(slot, n, sig) <= dg)
            || (ObservationsOf(script + [dg]) == ObservationsOf(script) && ItemsOf(script + [dg]) == ItemsOf(script))
  {
    hide DecodeDatagram, HeartbeatBytes, SigFirstBytes;
    assert (script + [dg])[..|script|] == script;
    forall ts, h { HeartbeatAccepted(dg, ts, h); }
    forall slot, n, sig { SigFirstAccepted(dg, slot, n, sig); }
    match DecodeDatagram(dg)
    case Ok(DatagramHeartbeat(ts, h)) => assert HeartbeatBytes(ts, h) <= dg;
    case Ok(SigFirst(slot, n, sig)) => assert SigFirstBytes(slot, n, sig) <= dg;
    case _ =>
  }

  /** Once drained, exactly the script's sig-first items were pushed, in arrival order, and the counter is its fold. */
  lemma DrainIsAFold(c: Config, steps: seq<Step>)
    requires c.capacity > 0 && Exec(c, steps).Some? && Exec(c, steps).value.closed
    ensures Exec(c, steps).value.sent == ItemsOf(c.script)
    ensures Exec(c, steps).value.tracker == Track(ObservationsOf(c.script))
  {
    hide Exec, ItemsIn, GotIn, TakenIn, Evictions;
    Invariant(c, steps);
    assert c.script[..|c.script|] == c.script;
    var s := Exec(c, steps).value;
    assert s.sent + [] == s.sent;
  }

  /** Hence the counter of any finished run is the exact account of the script's observations. */
  lemma GapsOfAFinishedRun(c: Config, steps: seq<Step>)
    requires c.capacity > 0 && Exec(c, steps).Some? && Exec(c, steps).value.closed
    requires Started(ObservationsOf(c.script))
    ensures var es := ObservationsOf(c.script);
            Exec(c, steps).value.tracker.gaps == |Missing(es)| + |Late(es)|
  {
    hide Exec;
    DrainIsAFold(c, steps);
    GapsAreExact(ObservationsOf(c.script));
  }

  /**
   Trailing loss: when the last datagram is a heartbeat above everything seen
   before, a finished run has counted every number up to the one it names.
   */
  lemma TrailingLoss(c: Config, steps: seq<Step>, front: seq<seq<Byte>>, dg: seq<Byte>, ts: U64, h: U64)
    requires c.capacity > 0 && Exec(c, steps).Some? && Exec(c, steps).value.closed
    requires c.script == front + [dg] && HeartbeatBytes(ts, h) <= dg && h < 0xFFFF_FFFF_FFFF_FFFF
    requires Started(ObservationsOf(front))
    ensures var before := Track(ObservationsOf(front));
            Exec(c, steps).value.tracker.gaps == before.gaps + if h > before.last then h - before.last else 0
  {
    hide Exec, HeartbeatBytes, ObservationsOf, Started, RaiseCount;
    DrainIsAFold(c, steps);
    ScriptMeaning(front, dg);
    Watermark(ObservationsOf(front));
    GapsNeverWrap(ObservationsOf(front), Observation.Heartbeat(h));
    Conservation(ObservationsOf(front));
  }

  // ---------- the end ----------

  /**
   A call reports the end only after the error was stored and every queued item
   has left; it is the source's own error; and no later call returns an item or
   another error.
   */
  lemma TerminalOrder(c: Config, steps: seq<Step>, i: nat)
    requires c.capacity > 0 && Exec(c, steps).Some?
    requires i < |Exec(c, steps).value.calls| && Exec(c, steps).value.calls[i].Finished?
    ensures var s := Exec(c, steps).value;
            && s.calls[i] == Finished(s.err)
            && (c.end.AppClose? ==> s.err == Some(Terminal(c.end.close)))
            && (c.end == CleanEnd ==> s.err == Some(EndOfFeed))
            && (c.end == Failure ==> s.err == Some(ReadFailed))
            && s.queue == [] && ItemsIn(s.departed) == ItemsOf(c.script) && GotIn(s.calls) == TakenIn(s.departed)
            && forall j :: i < j < |s.calls| ==> s.calls[j] == s.calls[i] || s.calls[j] == Cancelled
  {
    hide Exec, ScriptInv, ItemsIn, GotIn, TakenIn, Evictions, ItemsOf, ObservationsOf;
    Invariant(c, steps);
    DrainIsAFold(c, steps);
    var s := Exec(c, steps).value;
    assert ItemsIn(s.departed) + [] == ItemsIn(s.departed);
  }

  /** A consumer call hands over exactly the queue's head, or the stored error, or moves nothing but the call record. */
  lemma ConsumersLeaveTheProducerAlone(c: Config, s: State, step: Step)
    requires IsConsumer(step) && Apply(c, s, step).Some?
    ensures var t := Apply(c, s, step).value;
            if step == Receive && |s.queue| > 0 then
              && s.queue == [s.queue[0]] + t.queue
              && t == s.(queue := t.queue, departed := s.departed + [Taken(s.queue[0])],
                         calls := s.calls + [Got(s.queue[0])])
            else
              && (step == Receive ==> s.closed)
              && t == s.(calls := s.calls + [if step == Receive then Finished(s.err) else Cancelled])
  {
  }

  // ---------- a drop with room to spare ----------

  /**
   An eviction can take an item although a slot is free at that moment: a
   consumer may have received between the full first try and the eviction.
   */
  lemma EvictionBelowCapacity()
    ensures exists c: Config, steps ::
              && c.capacity > 0 && Exec(c, steps + [Evict]).Some?
              && |Exec(c, steps).value.queue| < c.capacity
              && Evictions(Exec(c, steps + [Evict]).value.departed) == 1
  {
    hide SigFirstBytes, DecodeDatagram, Exec, NoteItem;
    var sig: Signature := seq(64, _ => 0);
    var dg := SigFirstBytes(0, 0, sig);
    SigFirstAccepted(dg, 0, 0, sig);
    var it := SigFirstItem(0, 0, sig);
    var c := Config(2, [dg, dg, dg], CleanEnd);
    EmptySchedule(c);
    var s := PushOne(c, [], INIT, it);
    assert [] + [Recv, TrySend] == [Recv, TrySend];
    s := PushOne(c, [Recv, TrySend], s, it);
    var full := [Recv, TrySend] + [Recv, TrySend];
    ExecSnoc(c, full, Recv);
    ExecSnoc(c, full + [Recv], TrySend);
    ExecSnoc(c, full + [Recv] + [TrySend], Receive);
    ExecSnoc(c, full + [Recv] + [TrySend] + [Receive], Evict);
    var steps := full + [Recv] + [TrySend] + [Receive];
    var t := Exec(c, steps).value;
    assert t.departed == [Taken(it)] && t.queue == [it];
    OneEviction(it);
    assert Exec(c, steps + [Evict]).value.departed == [Taken(it)] + [Evicted(it)];
  }

  lemma OneEviction(it: SigFirstItem)
    ensures Evictions([Taken(it)] + [Evicted(it)]) == 1
  {
    var ds := [Taken(it)] + [Evicted(it)];
    var first := [Taken(it)];
    assert ds[..1] == first && first[..0] == [];
    assert Evictions(first) == 0;
  }

  lemma EmptySchedule(c: Config)
    ensures Exec(c, []) == Some(INIT)
  {
  }

  lemma ExecSnoc(c: Config, steps: seq<Step>, step: Step)
    requires Exec(c, steps).Some?
    ensures Exec(c, steps + [step]) == Apply(c, Exec(c, steps).value, step)
  {
    assert (steps + [step])[..|steps|] == steps;
  }

  /** Receiving and sending one item into a queue with room. */
  lemma PushOne(c: Config, steps: seq<Step>, s: State, it: SigFirstItem) returns (t: State)
    requires Exec(c, steps) == Some(s) && s.producer.Receiving? && |s.queue| < c.capacity
    requires s.pos < |c.script| && DecodeDatagram(c.script[s.pos]) == Ok(SigFirst(it.slot, it.seqNo, it.signature))
    ensures Exec(c, steps + [Recv, TrySend]) == Some(t)
    ensures t.producer.Receiving? && t.pos == s.pos + 1 && t.queue == s.queue + [it] && t.departed == s.departed
  {
    hide Exec, DecodeDatagram, NoteItem;
    ExecSnoc(c, steps, Recv);
    ExecSnoc(c, steps + [Recv], TrySend);
    assert steps + [Recv] + [TrySend] == steps + [Recv, TrySend];
    t := Exec(c, steps + [Recv, TrySend]).value;
  }
}
