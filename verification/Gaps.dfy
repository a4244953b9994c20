/**
 The sig-first gap counter: a high watermark over sequence numbers that arrive
 reordered, duplicated or not at all, and a u64 count of the numbers the
 watermark jumped over.
 */
module Gaps {
  import opened Bytes
  import opened Counting

  /** The heartbeat sentinel "nothing assigned yet". */
  const NO_SEQ_ASSIGNED: U64 := TWO_64 - 1

  datatype Observation = Item(seqNo: U64) | Heartbeat(seqNo: U64)

  datatype Tracker = Tracker(last: U64, have: bool, gaps: U64)

  function SatAdd1(x: U64): U64 {
    if x == NO_SEQ_ASSIGNED then x else x + 1
  }

  function SatSub(a: U64, b: U64): U64 {
    if a < b then 0 else a - b
  }

  function NoteItem(t: Tracker, s: U64): Tracker {
    if t.have then
      Tracker(if s > t.last then s else t.last, true, AddU64(t.gaps, SatSub(s, SatAdd1(t.last))))
    else
      Tracker(s, true, t.gaps)
  }

  function NoteHeartbeat(t: Tracker, h: U64): Tracker {
    if h == NO_SEQ_ASSIGNED then t
    else if t.have then
      if h > t.last then Tracker(h, true, AddU64(t.gaps, h - t.last)) else t
    else
      Tracker(h, true, t.gaps)
  }

  function Note(t: Tracker, e: Observation): Tracker {
    match e
    case Item(s) => NoteItem(t, s)
    case Heartbeat(h) => NoteHeartbeat(t, h)
  }

  const START := Tracker(0, false, 0)

  /** The counter's state after a sequence of observations. */
  function Track(es: seq<Observation>): Tracker {
    if es == [] then START else Note(Track(es[..|es| - 1]), es[|es| - 1])
  }

  // ---------- what the counter is measured against ----------

  /** Everything but a sentinel heartbeat carries information. */
  predicate Informs(e: Observation) {
    e.Item? || e.seqNo != NO_SEQ_ASSIGNED
  }

  ghost predicate Started(es: seq<Observation>) {
    exists e <- es :: Informs(e)
  }

  ghost function FirstInforming(es: seq<Observation>): (i: nat)
    requires Started(es)
    ensures i < |es| && Informs(es[i])
    ensures forall j :: 0 <= j < i ==> !Informs(es[j])
  {
    if Informs(es[0]) then 0 else
    assert Started(es[1..]) by {
      var e :| e in es && Informs(e);
      assert es == [es[0]] + es[1..];
    }
    1 + FirstInforming(es[1..])
  }

  /** B: the first number observed. */
  ghost function Baseline(es: seq<Observation>): U64
    requires Started(es)
  {
    es[FirstInforming(es)].seqNo
  }

  ghost predicate Arrived(es: seq<Observation>, x: int) {
    exists i :: 0 <= i < |es| && es[i].Item? && es[i].seqNo == x
  }

  /** The first time x arrives as an item. */
  ghost function FirstArrival(es: seq<Observation>, x: int): (i: nat)
    requires Arrived(es, x)
    ensures i < |es| && es[i].Item? && es[i].seqNo == x
    ensures forall j :: 0 <= j < i ==> !(es[j].Item? && es[j].seqNo == x)
  {
    if es[0].Item? && es[0].seqNo == x then 0 else
    assert Arrived(es[1..], x) by {
      var i :| 0 <= i < |es| && es[i].Item? && es[i].seqNo == x;
      assert es[1..][i - 1] == es[i];
    }
    1 + FirstArrival(es[1..], x)
  }

  /** Observation i lifted a watermark that was already set. */
  ghost predicate RaisedAt(es: seq<Observation>, i: nat)
    requires i < |es|
  {
    Track(es[..i]).have && Track(es[..i]).last < Track(es[..i + 1]).last
  }

  /** Numbers in (B, W] that never arrived as an item. */
  ghost function Missing(es: seq<Observation>): set<int>
    requires Started(es)
  {
    set x <- Above(Baseline(es), Track(es).last) | !Arrived(es, x)
  }

  /** Numbers in (B, W] whose first arrival as an item did not raise the watermark. */
  ghost function Late(es: seq<Observation>): set<int>
    requires Started(es)
  {
    set x <- Above(Baseline(es), Track(es).last) | Arrived(es, x) && !RaisedAt(es, FirstArrival(es, x))
  }

  /** The numbers of the items that raised the watermark after the first observation. */
  ghost function Raisers(es: seq<Observation>): set<int> {
    if es == [] then {} else
    var before, e := es[..|es| - 1], es[|es| - 1];
    if e.Item? && Track(before).have && e.seqNo > Track(before).last
    then Raisers(before) + {e.seqNo} else Raisers(before)
  }

  /** How many items after the first observation strictly raised the watermark. */
  ghost function RaiseCount(es: seq<Observation>): nat {
    if es == [] then 0 else
    var before, e := es[..|es| - 1], es[|es| - 1];
    RaiseCount(before) + if e.Item? && Track(before).have && e.seqNo > Track(before).last then 1 else 0
  }

  // ---------- the watermark ----------

  lemma StartedSnoc(es: seq<Observation>)
    requires es != []
    ensures var before, e := es[..|es| - 1], es[|es| - 1];
            && (Started(es) <==> Started(before) || Informs(e))
            && (Started(before) ==> Baseline(es) == Baseline(before))
            && (!Started(before) && Informs(e) ==> Baseline(es) == e.seqNo)
  {
    var before, e := es[..|es| - 1], es[|es| - 1];
    assert es == before + [e];
    if Started(before) {
      assert es[FirstInforming(before)] == before[FirstInforming(before)];
    } else if Informs(e) {
      assert e in es;
      assert forall k :: 0 <= k < |before| ==> es[k] == before[k] && before[k] in before;
    }
  }

  /** The watermark is set once something informed, and is then the largest number observed. */
  lemma {:induction false} Watermark(es: seq<Observation>)
    ensures Track(es).have <==> Started(es)
    ensures forall e <- es | Informs(e) :: e.seqNo <= Track(es).last
    ensures Started(es) ==> exists e <- es :: Informs(e) && e.seqNo == Track(es).last
  {
    if es != [] {
      var before, e := es[..|es| - 1], es[|es| - 1];
      Watermark(before);
      StartedSnoc(es);
      assert es == before + [e];
      if Started(es) {
        if Informs(e) && e.seqNo == Track(es).last {
          assert e in es;
        } else {
          var m :| m in before && Informs(m) && m.seqNo == Track(before).last;
          assert m in es;
        }
      }
    }
  }

  /**
   What informs: every item, and every heartbeat but the sentinel 2^64 - 1, sets
   the watermark at its number or above; the sentinel changes nothing.
   */
  lemma SentinelSaysNothing(es: seq<Observation>, n: U64)
    ensures var t := Track(es + [Item(n)]); t.have && n <= t.last
    ensures var t := Track(es + [Heartbeat(n)]);
            if n == 0xFFFF_FFFF_FFFF_FFFF then t == Track(es) else t.have && n <= t.last
    ensures Informs(Item(n)) && (Informs(Heartbeat(n)) <==> n != 0xFFFF_FFFF_FFFF_FFFF)
  {
    assert (es + [Item(n)])[..|es|] == es && (es + [Heartbeat(n)])[..|es|] == es;
  }

  // ---------- conservation ----------

  /** One step: what the watermark gains is what is charged, plus one for the item that raised it. */
  lemma NoteConserves(t: Tracker, e: Observation)
    requires t.have && t.gaps <= t.last
    ensures Note(t, e).last - t.last ==
            Note(t, e).gaps - t.gaps + if e.Item? && e.seqNo > t.last then 1 else 0
  {
  }

  /**
   The distance the watermark has travelled is what was charged plus the items
   that raised it; so the u64 counter cannot wrap.
   */
  lemma {:induction false} Conservation(es: seq<Observation>)
    ensures Started(es) ==> Track(es).last - Baseline(es) == Track(es).gaps + RaiseCount(es)
    ensures !Started(es) ==> Track(es) == START && RaiseCount(es) == 0
  {
    if es != [] {
      var before, e := es[..|es| - 1], es[|es| - 1];
      Conservation(before);
      Watermark(before);
      StartedSnoc(es);
      if Started(before) {
        NoteConserves(Track(before), e);
      }
    }
  }

  /** No step of the counter ever wraps: it grows by exactly the amount added. */
  lemma GapsNeverWrap(es: seq<Observation>, e: Observation)
    ensures Track(es + [e]) == Note(Track(es), e)
    ensures Track(es).gaps <= Track(es + [e]).gaps
    ensures Started(es) ==>
              Track(es + [e]).gaps - Track(es).gaps + (RaiseCount(es + [e]) - RaiseCount(es))
              == Track(es + [e]).last - Track(es).last
  {
    Conservation(es);
    Conservation(es + [e]);
    Watermark(es);
    StartedSnoc(es + [e]);
    assert (es + [e])[..|es|] == es;
  }

  // ---------- exactness ----------

  lemma {:induction false} RaisersInRange(es: seq<Observation>)
    ensures Started(es) ==> forall x <- Raisers(es) :: Baseline(es) < x <= Track(es).last
    ensures !Started(es) ==> Raisers(es) == {}
    ensures |Raisers(es)| == RaiseCount(es)
  {
    if es != [] {
      RaisersInRange(es[..|es| - 1]);
      Watermark(es[..|es| - 1]);
      StartedSnoc(es);
      Conservation(es[..|es| - 1]);
    }
  }

  lemma RaisedAtPrefix(es: seq<Observation>, i: nat)
    requires es != [] && i < |es| - 1
    ensures RaisedAt(es, i) <==> RaisedAt(es[..|es| - 1], i)
  {
    var before := es[..|es| - 1];
    assert before[..i] == es[..i] && before[..i + 1] == es[..i + 1];
  }

  lemma ArrivedSnoc(es: seq<Observation>, x: int)
    requires es != []
    ensures var before, e := es[..|es| - 1], es[|es| - 1];
            && (Arrived(es, x) <==> Arrived(before, x) || (e.Item? && e.seqNo == x))
            && (Arrived(before, x) ==> FirstArrival(es, x) == FirstArrival(before, x))
            && (!Arrived(before, x) && Arrived(es, x) ==> FirstArrival(es, x) == |es| - 1)
  {
    var before, e := es[..|es| - 1], es[|es| - 1];
    if Arrived(before, x) {
      assert es[FirstArrival(before, x)] == before[FirstArrival(before, x)];
    }
    assert forall k :: 0 <= k < |before| ==> es[k] == before[k];
  }

  /** The raisers are exactly the numbers whose first arrival raised the watermark. */
  lemma {:induction false} RaisersAreFirstRaises(es: seq<Observation>, x: int)
    ensures x in Raisers(es) <==> Arrived(es, x) && RaisedAt(es, FirstArrival(es, x))
  {
    if es != [] {
      var before, e := es[..|es| - 1], es[|es| - 1];
      RaisersAreFirstRaises(before, x);
      ArrivedSnoc(es, x);
      Watermark(before);
      assert es[..|es|] == es;
      if Arrived(before, x) {
        RaisedAtPrefix(es, FirstArrival(before, x));
        assert before[FirstArrival(before, x)] in before;
      }
    }
  }

  /**
   Exact accounting. The counter equals the numbers in (B, W] that never arrived
   plus those that first arrived without raising the watermark; the two sets are
   disjoint, so no number is charged twice.
   */
  lemma GapsAreExact(es: seq<Observation>)
    requires Started(es)
    ensures Missing(es) !! Late(es)
    ensures Track(es).gaps == |Missing(es)| + |Late(es)|
  {
    hide Track, Note, RaisedAt, Baseline, Arrived, FirstArrival, RaiseCount;
    var range := Above(Baseline(es), Track(es).last);
    Conservation(es);
    RaisersInRange(es);
    forall x ensures x in Raisers(es) <==> Arrived(es, x) && RaisedAt(es, FirstArrival(es, x)) {
      RaisersAreFirstRaises(es, x);
    }
    assert range == Raisers(es) + (Missing(es) + Late(es));
    assert Raisers(es) !! (Missing(es) + Late(es));
    assert |Missing(es) + Late(es)| == |Missing(es)| + |Late(es)|;
  }

  /** Before x first arrived, an item or a heartbeat had already named a number as large. */
  ghost predicate Overtaken(es: seq<Observation>, x: int) {
    Arrived(es, x) && exists k: nat :: k < FirstArrival(es, x) && Informs(es[k]) && es[k].seqNo >= x
  }

  /** What a late number is, without the counter: one above the baseline that was overtaken. */
  lemma LateMeansOvertaken(es: seq<Observation>, x: int)
    requires Started(es)
    ensures x in Late(es) <==> Baseline(es) < x && Overtaken(es, x)
  {
    hide Note, Track;
    if Arrived(es, x) && Baseline(es) < x {
      var i := FirstArrival(es, x);
      var before := es[..i];
      Watermark(es);
      Watermark(before);
      assert es[i] in es;
      ArrivalStep(es, i);
      if FirstInforming(es) < i {
        assert before[FirstInforming(es)] in before;
      }
      if !RaisedAt(es, i) {
        var m :| m in before && Informs(m) && m.seqNo == Track(before).last;
        var k :| 0 <= k < i && before[k] == m;
        assert es[k].seqNo >= x;
      }
      forall k: nat | k < i && Informs(es[k]) && es[k].seqNo >= x ensures !RaisedAt(es, i) {
        assert before[k] in before;
      }
    }
  }

  /** An item raises a set watermark exactly when its number is above it. */
  lemma ArrivalStep(es: seq<Observation>, i: nat)
    requires i < |es| && es[i].Item?
    ensures RaisedAt(es, i) <==> Track(es[..i]).have && es[i].seqNo > Track(es[..i]).last
  {
    assert es[..i + 1][..i] == es[..i];
  }

  /** What a missing number is, without the counter: above the baseline, not above all observed, never arrived. */
  lemma MissingMeansSkipped(es: seq<Observation>, x: int)
    requires Started(es)
    ensures x in Missing(es) <==>
            Baseline(es) < x && !Arrived(es, x) && exists e <- es :: Informs(e) && e.seqNo >= x
  {
    hide Track;
    Watermark(es);
  }

  /**
   The counter never under-reports the missing numbers, and is exact precisely
   when no number above the baseline was overtaken, by an item or by a heartbeat.
   */
  lemma GapsNeverUnderReport(es: seq<Observation>)
    requires Started(es)
    ensures |Missing(es)| <= Track(es).gaps
    ensures Track(es).gaps == |Missing(es)| <==> forall x :: Baseline(es) < x ==> !Overtaken(es, x)
  {
    hide Missing, Baseline, Overtaken, Track;
    GapsAreExact(es);
    forall x ensures x in Late(es) <==> Baseline(es) < x && Overtaken(es, x) {
      LateMeansOvertaken(es, x);
    }
    if x :| x in Late(es) {
      assert Overtaken(es, x);
    }
  }

  /** Reordering alone can be charged: nothing is missing here, yet the counter is 1. */
  lemma ReorderingIsCharged()
    ensures var es := [Item(0), Item(2), Item(1), Item(3)];
            Started(es) && Missing(es) == {} && Track(es).gaps == 1
  {
    var e1, e2, e3 := [Item(0)], [Item(0), Item(2)], [Item(0), Item(2), Item(1)];
    var es := [Item(0), Item(2), Item(1), Item(3)];
    assert e1[..0] == [] && e2[..1] == e1 && e3[..2] == e2 && es[..3] == e3;
    assert Track(e1) == Tracker(0, true, 0);
    assert Track(e2) == Tracker(2, true, 1);
    assert Track(e3) == Tracker(2, true, 1);
    assert Track(es) == Tracker(3, true, 1);
    assert es[0] in es;
    assert es[1].seqNo == 2 && es[2].seqNo == 1 && es[3].seqNo == 3;
  }

  /** So can a heartbeat that overtakes an item. */
  lemma OvertakingHeartbeatIsCharged()
    ensures var es := [Item(0), Heartbeat(1), Item(1)];
            Started(es) && Missing(es) == {} && Track(es).gaps == 1
  {
    var e1, e2 := [Item(0)], [Item(0), Heartbeat(1)];
    var es := [Item(0), Heartbeat(1), Item(1)];
    assert e1[..0] == [] && e2[..1] == e1 && es[..2] == e2;
    assert Track(e1) == Tracker(0, true, 0);
    assert Track(e2) == Tracker(1, true, 1);
    assert Track(es) == Tracker(1, true, 1);
    assert es[0] in es;
    assert es[2].seqNo == 1;
  }
}
