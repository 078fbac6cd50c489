/** Fragmentation and reassembly undo each other. */
module CanRoundTrip {
  import opened Wire
  import opened CanFrame
  import opened CanSpool
  import opened CanSession
  import opened CanLanes
  import Crc16

  datatype Transfer = Transfer(tid: TransferId, mtu: nat, payload: seq<Byte>)

  /** Who publishes what: the priority, the address and the node-ID of the publisher. */
  datatype Origin = Origin(priority: Prio, address: Address, node: NodeId)
  {
    predicate Valid() { address.Valid() && address.Emittable(node) }

    function Frame(tid: TransferId, start: bool, end: bool, toggle: bool, payload: seq<Byte>): Parsed {
      Sent(priority, address, node, tid, start, end, toggle, payload)
    }
  }

  predicate Serves(sub: Subscription, o: Origin) {
    sub.Valid() && sub.kind == o.address.Kind()
  }

  predicate Framable(t: Transfer) { t.mtu == MTU_CLASSIC || t.mtu == MTU_FD }

  // ---------------------------------------------------------------- the chain as the parser sees it

  function ParsedChunks(
      o: Origin, tid: TransferId, stream: seq<Byte>, cap: nat, first: bool, toggle: bool): (r: seq<Parsed>)
    requires cap >= 1
    ensures |r| >= 1
    decreases |stream|
  {
    if |stream| <= cap then [o.Frame(tid, first, true, toggle, stream)]
    else [o.Frame(tid, first, false, toggle, stream[..cap])] + ParsedChunks(o, tid, stream[cap..], cap, false, !toggle)
  }

  function ParsedChain(o: Origin, seed: bv16, t: Transfer): (r: seq<Parsed>)
    requires Framable(t)
    ensures |r| >= 1
  {
    var v1 := o.address.IsV1();
    if |t.payload| < t.mtu then [o.Frame(t.tid, true, true, v1, t.payload)]
    else ParsedChunks(o, t.tid, Stream(v1, seed, t.payload), t.mtu - 1, true, v1)
  }

  /** Every raw frame reads as the parsed frame at the same place of the chain. */
  ghost predicate ReadsAs(o: Origin, raw: seq<seq<Byte>>, parsed: seq<Parsed>) {
    && |raw| == |parsed|
    && forall k :: 0 <= k < |raw| ==>
         Reading(Parse(WireId(o.priority, o.address, o.node), raw[k]), o.address.IsV1()) == Some(parsed[k])
  }

  lemma ReadsAsMore(o: Origin, first: seq<Byte>, reading: Parsed, raw: seq<seq<Byte>>, parsed: seq<Parsed>)
    requires ReadsAs(o, raw, parsed)
    requires Reading(Parse(WireId(o.priority, o.address, o.node), first), o.address.IsV1()) == Some(reading)
    ensures ReadsAs(o, [first] + raw, [reading] + parsed)
  {
    hide Parse, WireId, Reading;
  }

  lemma {:induction false} ChunksParse(
      o: Origin, tid: TransferId, stream: seq<Byte>, cap: nat, first: bool, toggle: bool)
    requires o.Valid() && cap >= MTU_CLASSIC - 1 && stream != []
    requires first ==> toggle == o.address.IsV1() && |stream| > cap
    ensures ReadsAs(o, Chunks(stream, cap, first, toggle, tid), ParsedChunks(o, tid, stream, cap, first, toggle))
    decreases |stream|
  {
    hide Parse, WireId, MakeTail, Reading;
    if |stream| <= cap {
      FrameRoundTrip(o.priority, o.address, o.node, tid, first, true, toggle, stream);
    } else {
      FrameRoundTrip(o.priority, o.address, o.node, tid, first, false, toggle, stream[..cap]);
      ChunksParse(o, tid, stream[cap..], cap, false, !toggle);
      ReadsAsMore(o, stream[..cap] + [MakeTail(first, false, toggle, tid)],
                  o.Frame(tid, first, false, toggle, stream[..cap]), Chunks(stream[cap..], cap, false, !toggle, tid),
                  ParsedChunks(o, tid, stream[cap..], cap, false, !toggle));
      hide ReadsAs;
    }
  }

  /** The spooled chain of a transfer, put on the bus by its publisher, is parsed frame by frame as it was meant. */
  lemma ChainParses(o: Origin, seed: bv16, t: Transfer)
    requires o.Valid() && Framable(t)
    ensures ReadsAs(o, Chain(o.address.IsV1(), seed, t.mtu, t.tid, t.payload), ParsedChain(o, seed, t))
  {
    hide Parse, WireId, MakeTail, Crc16.Add;
    var v1 := o.address.IsV1();
    if |t.payload| < t.mtu {
      FrameRoundTrip(o.priority, o.address, o.node, t.tid, true, true, v1, t.payload);
    } else {
      ChunksParse(o, t.tid, Stream(v1, seed, t.payload), t.mtu - 1, true, v1);
    }
  }

  // ---------------------------------------------------------------- one transfer in its lane

  /** The slot has taken in exactly the given prefix of a transfer's stream. */
  ghost predicate Holds(sub: Subscription, slot: Slot, got: seq<Byte>)
  {
    && slot.total == |got|
    && |slot.buffer| == sub.BufferSize()
    && slot.buffer[..Min(|got|, |slot.buffer|)] == got[..Min(|got|, |slot.buffer|)]
    && slot.crc == Crc16.Add(sub.crcSeed, CrcPart(sub, got))
  }

  /** The part of a stream prefix that enters the transfer CRC. */
  function CrcPart(sub: Subscription, got: seq<Byte>): seq<Byte> {
    if sub.kind.IsV1() then got else got[Min(Crc16.CRC_BYTES, |got|)..]
  }

  lemma NewSlotHoldsNothing(sub: Subscription, ts: int, tid: TransferId, iface: nat)
    ensures Holds(sub, NewSlot(sub, ts, tid, iface), [])
  {
    assert CrcPart(sub, []) == [];
  }

  lemma {:induction false} AdvanceExtends(slot: Slot, payload: seq<Byte>, got: seq<Byte>)
    requires slot.total == |got|
    requires slot.buffer[..Min(|got|, |slot.buffer|)] == got[..Min(|got|, |slot.buffer|)]
    ensures var r, all := Advance(slot, payload).buffer, got + payload;
      |r| == |slot.buffer| && r[..Min(|all|, |r|)] == all[..Min(|all|, |r|)]
  {
    var r, all, n := Advance(slot, payload).buffer, got + payload, |slot.buffer|;
    if |got| < n {
      assert slot.buffer[..|got|] == got;
      var k := Min(|payload|, n - |got|);
      assert r[..|got| + k] == got + payload[..k];
      assert all[..|got| + k] == got + payload[..k];
    } else {
      assert all[..n] == got[..n];
    }
  }

  /** Accepting a frame extends what the slot holds by the payload of the frame. */
  lemma {:induction false} AcceptExtends(sub: Subscription, slot: Slot, fr: Parsed, got: seq<Byte>)
    requires Holds(sub, slot, got) && WellFormed(fr) && !(fr.start && fr.end)
    requires fr.start <==> got == []
    requires got != [] ==> |got| >= Crc16.CRC_BYTES
    ensures var advanced := Advance(slot, fr.payload);
      Holds(sub, advanced.(crc := Crc16.Add(advanced.crc, CrcInput(sub, fr))), got + fr.payload)
  {
    AdvanceExtends(slot, fr.payload, got);
    Crc16.AddConcat(sub.crcSeed, CrcPart(sub, got), CrcInput(sub, fr));
    assert CrcPart(sub, got) + CrcInput(sub, fr) == CrcPart(sub, got + fr.payload);
    hide Crc16.Add, Overlay;
  }

  /** What the receiver hands over of a payload: single frames whole, longer transfers up to the extent. */
  function Clip(sub: Subscription, t: Transfer): seq<Byte> {
    if |t.payload| < t.mtu then t.payload else t.payload[..Min(|t.payload|, sub.extent)]
  }

  lemma LittleEndianInverse(crc: bv16)
    ensures LittleEndian16(Crc16.Low(crc), Crc16.High(crc)) == crc
  {
  }

  lemma PrefixOfPrefix(a: seq<Byte>, b: seq<Byte>, n: nat, k: nat, m: nat)
    requires k <= m <= n <= |a| && n <= |b| && a[..n] == b[..n]
    ensures a[k..m] == b[k..m]
  {
    forall i | k <= i < m ensures a[i] == b[i] {
      assert a[i] == a[..n][i] && b[i] == b[..n][i];
    }
  }

  lemma {:induction false} WholeStreamCompletesV1(sub: Subscription, slot: Slot, fr: Parsed, t: Transfer)
    requires sub.Valid() && Framable(t) && |t.payload| >= t.mtu && sub.kind.IsV1()
    requires Holds(sub, slot, StreamV1(sub.crcSeed, t.payload))
    ensures CompleteSlot(sub, slot, fr) == Delivered(fr.priority, slot.startTs, fr.src, fr.tid, Clip(sub, t))
  {
    hide Crc16.Add, Crc16.High, Crc16.Low, LittleEndian16;
    var stream, view := StreamV1(sub.crcSeed, t.payload), Min(|t.payload|, |slot.buffer|);
    Crc16.Residue(sub.crcSeed, t.payload);
    PrefixOfPrefix(slot.buffer, stream, Min(|stream|, |slot.buffer|), 0, view);
    assert slot.buffer[..view] == stream[..view] == t.payload[..view];
  }

  lemma {:induction false} WholeStreamCompletesV0(sub: Subscription, slot: Slot, fr: Parsed, t: Transfer)
    requires sub.Valid() && Framable(t) && |t.payload| >= t.mtu && !sub.kind.IsV1()
    requires Holds(sub, slot, StreamV0(sub.crcSeed, t.payload))
    ensures CompleteSlot(sub, slot, fr) == Delivered(fr.priority, slot.startTs, fr.src, fr.tid, Clip(sub, t))
  {
    hide Crc16.Add, Crc16.High, Crc16.Low, LittleEndian16;
    var stream, view := StreamV0(sub.crcSeed, t.payload), Min(|t.payload|, |slot.buffer| - 2);
    var n := Min(|stream|, |slot.buffer|);
    LittleEndianInverse(Crc16.Add(sub.crcSeed, t.payload));
    assert CrcPart(sub, stream) == t.payload;
    assert slot.buffer[0] == slot.buffer[..n][0] == stream[0];
    assert slot.buffer[1] == slot.buffer[..n][1] == stream[1];
    PrefixOfPrefix(slot.buffer, stream, n, 2, 2 + view);
    assert slot.buffer[2..2 + view] == stream[2..2 + view] == t.payload[..view];
  }

  /** A slot that holds the whole stream of a transfer completes with its payload. */
  lemma {:induction false} WholeStreamCompletes(sub: Subscription, slot: Slot, fr: Parsed, t: Transfer)
    requires sub.Valid() && Framable(t) && |t.payload| >= t.mtu
    requires Holds(sub, slot, Stream(sub.kind.IsV1(), sub.crcSeed, t.payload))
    ensures CompleteSlot(sub, slot, fr) == Delivered(fr.priority, slot.startTs, fr.src, fr.tid, Clip(sub, t))
  {
    hide CompleteSlot, Holds, StreamV1, StreamV0, Clip;
    if sub.kind.IsV1() {
      WholeStreamCompletesV1(sub, slot, fr, t);
    } else {
      WholeStreamCompletesV0(sub, slot, fr, t);
    }
  }

  function FramesOf(events: seq<Event>): (r: seq<Parsed>)
    ensures |r| == |events| && forall i :: 0 <= i < |r| ==> r[i] == events[i].frame
  {
    seq(|events|, i requires 0 <= i < |events| => events[i].frame)
  }

  lemma LaneRunSnoc(sub: Subscription, iface: nat, before: seq<Event>, e: Event)
    requires Ingestible(before) && WellFormed(e.frame)
    ensures Ingestible(before + [e])
    ensures LaneRun(sub, iface, before + [e]) == LaneStep(sub, iface, LaneRun(sub, iface, before), e)
  {
    assert (before + [e])[..|before + [e]| - 1] == before;
  }

  lemma SentIsWellFormed(o: Origin, tid: TransferId, start: bool, end: bool, toggle: bool, payload: seq<Byte>)
    requires start ==> toggle == o.address.IsV1()
    requires end || |payload| >= MTU_CLASSIC - 1
    requires (start && end) || |payload| > 0
    ensures WellFormed(o.Frame(tid, start, end, toggle, payload))
  {
  }

  /** The slot of a lane holds the beginning of a transfer and waits for the frame with the given toggle. */
  ghost predicate Awaits(sub: Subscription, iface: nat, lane: Accepted, tid: TransferId, got: seq<Byte>, toggle: bool) {
    && lane.slot.Some? && Holds(sub, lane.slot.value, got)
    && lane.slot.value.tid == tid && lane.slot.value.iface == iface && lane.slot.value.toggle == toggle
    && ValidSlot(sub, lane.slot.value)
  }

  lemma {:induction false} NextPiece(
      sub: Subscription, o: Origin, iface: nat, tid: TransferId, lane: Accepted, e: Event, got: seq<Byte>,
      piece: seq<Byte>, toggle: bool)
    requires Awaits(sub, iface, lane, tid, got, toggle) && |got| >= MTU_CLASSIC - 1
    requires |piece| >= MTU_CLASSIC - 1 && e.frame == o.Frame(tid, false, false, toggle, piece)
    ensures WellFormed(e.frame)
    ensures var next := LaneStep(sub, iface, lane, e);
            Awaits(sub, iface, next, tid, got + piece, !toggle)
            && next.slot.value.startTs == lane.slot.value.startTs && next.out == lane.out
  {
    SentIsWellFormed(o, tid, false, false, toggle, piece);
    AcceptExtends(sub, lane.slot.value, e.frame, got);
    hide Holds, Crc16.Add, Overlay;
  }

  lemma {:induction false} LastPiece(
      sub: Subscription, o: Origin, iface: nat, t: Transfer, lane: Accepted, e: Event, got: seq<Byte>, piece: seq<Byte>,
      toggle: bool)
    requires Serves(sub, o) && Framable(t) && |t.payload| >= t.mtu
    requires Awaits(sub, iface, lane, t.tid, got, toggle) && |got| >= MTU_CLASSIC - 1
    requires piece != [] && e.frame == o.Frame(t.tid, false, true, toggle, piece)
    requires got + piece == Stream(sub.kind.IsV1(), sub.crcSeed, t.payload)
    ensures WellFormed(e.frame)
    ensures LaneStep(sub, iface, lane, e) ==
            Accepted(None, lane.out + [Delivered(o.priority, lane.slot.value.startTs, o.node, t.tid, Clip(sub, t))])
  {
    SentIsWellFormed(o, t.tid, false, true, toggle, piece);
    AcceptExtends(sub, lane.slot.value, e.frame, got);
    var advanced := Advance(lane.slot.value, e.frame.payload);
    hide Holds, Crc16.Add, Overlay, CompleteSlot, Clip, Stream;
    WholeStreamCompletes(sub, advanced.(crc := Crc16.Add(advanced.crc, CrcInput(sub, e.frame))), e.frame, t);
  }

  /** The rest of a transfer, arriving at the slot that holds its beginning. */
  lemma {:induction false} ContinuationsComplete(
      sub: Subscription, o: Origin, iface: nat, t: Transfer,
      before: seq<Event>, events: seq<Event>, got: seq<Byte>, rest: seq<Byte>, toggle: bool)
    requires Serves(sub, o) && o.Valid() && Framable(t) && |t.payload| >= t.mtu
    requires Ingestible(before)
    requires got + rest == Stream(sub.kind.IsV1(), sub.crcSeed, t.payload)
    requires |got| >= MTU_CLASSIC - 1 && rest != []
    requires FramesOf(events) == ParsedChunks(o, t.tid, rest, t.mtu - 1, false, toggle)
    requires Awaits(sub, iface, LaneRun(sub, iface, before), t.tid, got, toggle)
    ensures Ingestible(before + events)
    ensures var lane := LaneRun(sub, iface, before);
      LaneRun(sub, iface, before + events) == Accepted(None,
        lane.out + [Delivered(o.priority, lane.slot.value.startTs, o.node, t.tid, Clip(sub, t))])
    decreases |rest|
  {
    hide LaneRun, LaneStep, Clip, Stream, Holds, Serves, WellFormed, ValidSlot, Ingestible;
    var lane, e := LaneRun(sub, iface, before), events[0];
    var cap := t.mtu - 1;
    assert e.frame == FramesOf(events)[0];
    assert before + events == before + [e] + events[1..];
    if |rest| <= cap {
      LastPiece(sub, o, iface, t, lane, e, got, rest, toggle);
      LaneRunSnoc(sub, iface, before, e);
      assert events == [e];
    } else {
      NextPiece(sub, o, iface, t.tid, lane, e, got, rest[..cap], toggle);
      LaneRunSnoc(sub, iface, before, e);
      assert (got + rest[..cap]) + rest[cap..] == got + rest;
      assert FramesOf(events[1..]) == FramesOf(events)[1..];
      ContinuationsComplete(sub, o, iface, t, before + [e], events[1..], got + rest[..cap], rest[cap..], !toggle);
    }
  }

  lemma {:induction false} SingleDelivered(
      sub: Subscription, o: Origin, iface: nat, t: Transfer, before: seq<Event>, e: Event)
    requires Serves(sub, o) && Ingestible(before)
    requires e.frame == o.Frame(t.tid, true, true, o.address.IsV1(), t.payload)
    ensures WellFormed(e.frame) && Ingestible(before + [e])
    ensures LaneRun(sub, iface, before + [e]) == Accepted(None,
      LaneRun(sub, iface, before).out + [Delivered(o.priority, e.ts, o.node, t.tid, t.payload)])
  {
    hide LaneRun;
    SentIsWellFormed(o, t.tid, true, true, o.address.IsV1(), t.payload);
    LaneRunSnoc(sub, iface, before, e);
  }

  /** A start frame opens a slot that holds its payload, whatever occupied the lane before. */
  lemma {:induction false} StartHolds(
      sub: Subscription, o: Origin, iface: nat, tid: TransferId, before: seq<Event>, e: Event)
    requires Serves(sub, o) && Ingestible(before)
    requires |e.frame.payload| >= MTU_CLASSIC - 1
    requires e.frame == o.Frame(tid, true, false, o.address.IsV1(), e.frame.payload)
    ensures WellFormed(e.frame) && Ingestible(before + [e])
    ensures var lane := LaneRun(sub, iface, before + [e]);
      && lane.out == LaneRun(sub, iface, before).out
      && lane.slot.Some? && Holds(sub, lane.slot.value, e.frame.payload)
      && lane.slot.value.startTs == e.ts && lane.slot.value.tid == tid
      && lane.slot.value.iface == iface && lane.slot.value.toggle == !o.address.IsV1()
  {
    hide LaneRun, Holds, Crc16.Add;
    SentIsWellFormed(o, tid, true, false, o.address.IsV1(), e.frame.payload);
    LaneRunSnoc(sub, iface, before, e);
    NewSlotHoldsNothing(sub, e.ts, tid, iface);
    AcceptExtends(sub, NewSlot(sub, e.ts, tid, iface), e.frame, []);
    assert [] + e.frame.payload == e.frame.payload;
  }

  /** A transfer whose frames arrive at a lane in order leaves exactly one delivery, whatever came before. */
  lemma {:induction false} TransferDelivered(
      sub: Subscription, o: Origin, iface: nat, t: Transfer, before: seq<Event>, events: seq<Event>)
    requires Serves(sub, o) && o.Valid() && Framable(t)
    requires Ingestible(before)
    requires FramesOf(events) == ParsedChain(o, sub.crcSeed, t)
    ensures Ingestible(before + events)
    ensures LaneRun(sub, iface, before + events) == Accepted(None,
      LaneRun(sub, iface, before).out + [Delivered(o.priority, events[0].ts, o.node, t.tid, Clip(sub, t))])
  {
    hide LaneRun, Stream, Holds;
    var e := events[0];
    assert e.frame == FramesOf(events)[0];
    assert before + events == before + [e] + events[1..];
    if |t.payload| < t.mtu {
      SingleDelivered(sub, o, iface, t, before, e);
      assert events == [e];
    } else {
      var stream, cap := Stream(sub.kind.IsV1(), sub.crcSeed, t.payload), t.mtu - 1;
      StreamLength(sub, sub.kind.IsV1(), t.payload);
      StartHolds(sub, o, iface, t.tid, before, e);
      assert stream[..cap] + stream[cap..] == stream;
      assert FramesOf(events[1..]) == FramesOf(events)[1..];
      ContinuationsComplete(sub, o, iface, t, before + [e], events[1..], stream[..cap], stream[cap..],
                            !sub.kind.IsV1());
    }
  }

  lemma StreamLength(sub: Subscription, v1: bool, payload: seq<Byte>)
    ensures |Stream(v1, sub.crcSeed, payload)| == |payload| + Crc16.CRC_BYTES
  {
  }

  // ---------------------------------------------------------------- any number of transfers, any interleaving

  function PlannedFrames(o: Origin, seed: bv16, plan: seq<Transfer>): seq<Parsed>
    requires forall t :: t in plan ==> Framable(t)
  {
    if plan == [] then [] else ParsedChain(o, seed, plan[0]) + PlannedFrames(o, seed, plan[1..])
  }

  /** One delivery per transfer, in publishing order, stamped with the arrival of its first frame. */
  function Expected(sub: Subscription, o: Origin, plan: seq<Transfer>, events: seq<Event>): seq<Outcome>
    requires forall t :: t in plan ==> Framable(t)
    requires |events| == |PlannedFrames(o, sub.crcSeed, plan)|
  {
    if plan == [] then []
    else
      [Delivered(o.priority, events[0].ts, o.node, plan[0].tid, Clip(sub, plan[0]))]
      + Expected(sub, o, plan[1..], events[|ParsedChain(o, sub.crcSeed, plan[0])|..])
  }

  lemma {:induction false} PlanDelivered(
      sub: Subscription, o: Origin, iface: nat, plan: seq<Transfer>, before: seq<Event>, events: seq<Event>)
    requires Serves(sub, o) && o.Valid() && forall t :: t in plan ==> Framable(t)
    requires Ingestible(before) && LaneRun(sub, iface, before).slot == None
    requires FramesOf(events) == PlannedFrames(o, sub.crcSeed, plan)
    ensures Ingestible(before + events)
    ensures LaneRun(sub, iface, before + events)
      == Accepted(None, LaneRun(sub, iface, before).out + Expected(sub, o, plan, events))
    decreases |plan|
  {
    hide LaneRun, ParsedChain, Clip, Serves, Framable, Ingestible;
    if plan == [] {
      assert before + events == before;
    } else {
      var k := |ParsedChain(o, sub.crcSeed, plan[0])|;
      assert FramesOf(events[..k]) == FramesOf(events)[..k];
      assert FramesOf(events[k..]) == FramesOf(events)[k..];
      assert before + events == before + events[..k] + events[k..];
      TransferDelivered(sub, o, iface, plan[0], before, events[..k]);
      PlanDelivered(sub, o, iface, plan[1..], before + events[..k], events[k..]);
    }
  }

  /** Any number of transfers per priority, from one node on one interface, with their frames
      interleaved in any way: every transfer is delivered intact, exactly once and in order. */
  lemma {:induction false} InterleavedTransfersIntact(
      sub: Subscription, iface: nat, address: Address, node: NodeId, plans: map<Prio, seq<Transfer>>,
      events: seq<Event>, p: Prio)
    requires Serves(sub, Origin(p, address, node)) && Origin(p, address, node).Valid()
    requires p in plans && forall t :: t in plans[p] ==> Framable(t)
    requires Ingestible(events) && NovelStarts(events) && Timely(sub, iface, events)
    requires FramesOf(Project(events, p)) == PlannedFrames(Origin(p, address, node), sub.crcSeed, plans[p])
    ensures OutcomesAt(Run(sub, iface, events).out, p)
      == Expected(sub, Origin(p, address, node), plans[p], Project(events, p))
    ensures p !in Run(sub, iface, events).session.slots
  {
    hide PlannedFrames, Expected, Run, Project;
    LanesAreIndependent(sub, iface, events, p);
    assert LaneRun(sub, iface, []) == Accepted(None, []);
    PlanDelivered(sub, Origin(p, address, node), iface, plans[p], [], Project(events, p));
    assert [] + Project(events, p) == Project(events, p);
  }

  lemma {:induction false} LaneSlotStarted(sub: Subscription, iface: nat, events: seq<Event>)
    requires Ingestible(events) && LaneRun(sub, iface, events).slot.Some?
    ensures exists i :: 0 <= i < |events| && events[i].ts == LaneRun(sub, iface, events).slot.value.startTs
    decreases |events|
  {
    var before, e := events[..|events| - 1], events[|events| - 1];
    assert events[|events| - 1].ts == e.ts;
    if !e.frame.start {
      LaneSlotStarted(sub, iface, before);
      var i :| 0 <= i < |before| && before[i].ts == LaneRun(sub, iface, before).slot.value.startTs;
      assert events[i].ts == before[i].ts;
    }
  }

  lemma {:induction false} ProjectedTs(events: seq<Event>, p: Prio, i: nat)
    requires Ingestible(events) && i < |Project(events, p)|
    ensures exists j :: 0 <= j < |events| && events[j].ts == Project(events, p)[i].ts
    decreases |events|
  {
    var before := events[..|events| - 1];
    if i < |Project(before, p)| {
      ProjectedTs(before, p, i);
      var j :| 0 <= j < |before| && before[j].ts == Project(before, p)[i].ts;
      assert events[j].ts == before[j].ts;
    } else {
      assert events[|events| - 1].ts == Project(events, p)[i].ts;
    }
  }

  /** Frames that all arrive within the cleanup window of each other never lose a slot. */
  lemma {:induction false} ShortRunIsTimely(sub: Subscription, iface: nat, events: seq<Event>)
    requires Ingestible(events)
    requires forall i, j :: 0 <= i < |events| && 0 <= j < |events| ==> events[j].ts - events[i].ts <= sub.Patience()
    ensures Timely(sub, iface, events)
  {
    forall i: nat, p: Prio | i < |events| && events[i].frame.start && !events[i].frame.end
      ensures var slot := LaneRun(sub, iface, Project(events[..i], p)).slot;
        slot.Some? ==> slot.value.startTs >= events[i].ts - sub.Patience()
    {
      var lane := Project(events[..i], p);
      if LaneRun(sub, iface, lane).slot.Some? {
        LaneSlotStarted(sub, iface, lane);
        var k: nat :| k < |lane| && lane[k].ts == LaneRun(sub, iface, lane).slot.value.startTs;
        ProjectedTs(events[..i], p, k);
        var j :| 0 <= j < |events[..i]| && events[..i][j].ts == lane[k].ts;
        assert events[j].ts == lane[k].ts;
      }
    }
  }

  lemma {:induction false} ChainStartsOnceOnly(o: Origin, seed: bv16, t: Transfer, events: seq<Event>)
    requires Framable(t) && FramesOf(events) == ParsedChain(o, seed, t)
    ensures Starts(events, o.priority) <= 1
  {
    forall k | 0 <= k < |events| ensures events[k].frame.start == (k == 0) {
      assert events[k].frame == FramesOf(events)[k];
      ChainStartsOnce(o, seed, t, k);
    }
    OnlyFirstStarts(events, o.priority);
    hide ParsedChain;
  }

  lemma {:induction false} OnlyFirstStarts(events: seq<Event>, p: Prio)
    requires forall k :: 0 <= k < |events| ==> events[k].frame.start ==> k == 0
    ensures Starts(events, p) <= if events == [] then 0 else 1
  {
    if events != [] {
      OnlyFirstStarts(events[..|events| - 1], p);
    }
  }

  /** The priorities of one node carry at most one transfer each. */
  ghost predicate OneEach(
      sub: Subscription, address: Address, node: NodeId, plans: map<Prio, seq<Transfer>>, events: seq<Event>)
    requires Ingestible(events)
  {
    forall p: Prio ::
      && p in plans && |plans[p]| <= 1 && (forall t :: t in plans[p] ==> Framable(t))
      && FramesOf(Project(events, p)) == PlannedFrames(Origin(p, address, node), sub.crcSeed, plans[p])
  }

  /** With one transfer per priority, whose frames arrive within the cleanup window, nothing else is asked. */
  lemma {:induction false} OneTransferPerPriority(
      sub: Subscription, iface: nat, address: Address, node: NodeId, plans: map<Prio, seq<Transfer>>,
      events: seq<Event>, p: Prio)
    requires Serves(sub, Origin(p, address, node)) && Origin(p, address, node).Valid()
    requires Ingestible(events) && OneEach(sub, address, node, plans, events)
    requires forall i, j :: 0 <= i < |events| && 0 <= j < |events| ==> events[j].ts - events[i].ts <= sub.Patience()
    ensures OutcomesAt(Run(sub, iface, events).out, p)
      == Expected(sub, Origin(p, address, node), plans[p], Project(events, p))
  {
    hide Run, Expected, ParsedChain, Timely;
    forall q: Prio ensures Starts(events, q) <= 1 {
      var o, mine := Origin(q, address, node), Project(events, q);
      StartsOfProjection(events, q);
      assert FramesOf(mine) == PlannedFrames(o, sub.crcSeed, plans[q]);
      if plans[q] == [] {
        assert mine == [];
      } else {
        assert plans[q][1..] == [];
        assert PlannedFrames(o, sub.crcSeed, plans[q][1..]) == [];
        assert PlannedFrames(o, sub.crcSeed, plans[q]) == ParsedChain(o, sub.crcSeed, plans[q][0]);
        ChainStartsOnceOnly(o, sub.crcSeed, plans[q][0], mine);
      }
    }
    SingleStartsAreNovel(events);
    ShortRunIsTimely(sub, iface, events);
    InterleavedTransfersIntact(sub, iface, address, node, plans, events, p);
  }

  // ---------------------------------------------------------------- polling between frames

  /** A frame arrives, or the periodic poll cleans the session up. */
  datatype Activity = Arrives(event: Event) | Polls(now: int)

  function Arrived(acts: seq<Activity>): seq<Event> {
    if acts == [] then []
    else
      var last := acts[|acts| - 1];
      Arrived(acts[..|acts| - 1]) + if last.Arrives? then [last.event] else []
  }

  function PolledRun(sub: Subscription, iface: nat, acts: seq<Activity>): (r: Updated)
    requires Ingestible(Arrived(acts))
    ensures Valid(sub, r.session)
  {
    if acts == [] then Updated(NewSession(iface), [])
    else
      ArrivedPrefix(acts);
      var before := PolledRun(sub, iface, acts[..|acts| - 1]);
      match acts[|acts| - 1]
      case Arrives(e) =>
        assert e == Arrived(acts)[|Arrived(acts)| - 1];
        var step := Update(sub, before.session, e.ts, e.frame, iface);
        Updated(step.session, before.out + step.out)
      case Polls(now) => before.(session := before.session.(slots := Cleanup(sub, before.session.slots, now)))
  }

  lemma ArrivedPrefix(acts: seq<Activity>)
    requires acts != [] && Ingestible(Arrived(acts))
    ensures Ingestible(Arrived(acts[..|acts| - 1]))
  {
    var before := Arrived(acts[..|acts| - 1]);
    assert forall i :: 0 <= i < |before| ==> before[i] == Arrived(acts)[i];
  }

  /** Every poll comes within the cleanup window of the frames before it. */
  ghost predicate PolledInTime(sub: Subscription, acts: seq<Activity>) {
    forall i, k :: 0 <= i < |acts| && acts[i].Polls? && 0 <= k < |Arrived(acts[..i])| ==>
      acts[i].now - Arrived(acts[..i])[k].ts <= sub.Patience()
  }

  lemma UpdateStarts(sub: Subscription, ses: Session, e: Event, iface: nat, p: Prio)
    requires Valid(sub, ses) && WellFormed(e.frame)
    ensures var slots := Update(sub, ses, e.ts, e.frame, iface).session.slots;
            p in slots ==> slots[p].startTs == e.ts || (p in ses.slots && slots[p].startTs == ses.slots[p].startTs)
  {
    hide Crc16.Add, CompleteSlot, Overlay;
  }

  /** A slot in progress was started by one of the frames. */
  lemma {:induction false} SlotStarted(sub: Subscription, iface: nat, events: seq<Event>, p: Prio)
    requires Ingestible(events) && p in Run(sub, iface, events).session.slots
    ensures exists i :: 0 <= i < |events| && events[i].ts == Run(sub, iface, events).session.slots[p].startTs
    decreases |events|
  {
    var before, e := events[..|events| - 1], events[|events| - 1];
    UpdateStarts(sub, Run(sub, iface, before).session, e, iface, p);
    hide Update;
    if Run(sub, iface, events).session.slots[p].startTs == e.ts {
      assert events[|events| - 1].ts == e.ts;
    } else {
      SlotStarted(sub, iface, before, p);
      var i :| 0 <= i < |before| && before[i].ts == Run(sub, iface, before).session.slots[p].startTs;
      assert events[i].ts == before[i].ts;
    }
  }

  lemma {:induction false} CleanupDropsNothing(sub: Subscription, iface: nat, events: seq<Event>, now: int)
    requires Ingestible(events) && forall k :: 0 <= k < |events| ==> now - events[k].ts <= sub.Patience()
    ensures Cleanup(sub, Run(sub, iface, events).session.slots, now) == Run(sub, iface, events).session.slots
  {
    var slots := Run(sub, iface, events).session.slots;
    hide Run;
    forall p | p in slots ensures slots[p].startTs >= now - sub.Patience() {
      SlotStarted(sub, iface, events, p);
      var i :| 0 <= i < |events| && events[i].ts == slots[p].startTs;
    }
  }

  /** Polls in time change nothing, so that what is proved of runs without them holds between polls too. */
  lemma {:induction false} PollsChangeNothing(sub: Subscription, iface: nat, acts: seq<Activity>)
    requires Ingestible(Arrived(acts)) && PolledInTime(sub, acts)
    ensures PolledRun(sub, iface, acts) == Run(sub, iface, Arrived(acts))
  {
    if acts != [] {
      var before, last := acts[..|acts| - 1], acts[|acts| - 1];
      ArrivedPrefix(acts);
      assert PolledInTime(sub, before) by {
        assert forall i :: 0 <= i < |before| ==> before[..i] == acts[..i] && before[i] == acts[i];
      }
      PollsChangeNothing(sub, iface, before);
      hide Update, Cleanup, Ingestible;
      if last.Arrives? {
        assert Arrived(acts)[..|Arrived(acts)| - 1] == Arrived(before);
      } else {
        assert Arrived(acts) == Arrived(before);
        assert before == acts[..|acts| - 1];
        CleanupDropsNothing(sub, iface, Arrived(before), last.now);
      }
    }
  }

  // ---------------------------------------------------------------- the round trip of one transfer

  /** The events a receiver makes of raw frames it reads as v1, or as v0. */
  ghost predicate Ingested(o: Origin, raw: seq<seq<Byte>>, events: seq<Event>) {
    && |raw| == |events|
    && forall k :: 0 <= k < |raw| ==>
         Reading(Parse(WireId(o.priority, o.address, o.node), raw[k]), o.address.IsV1()) == Some(events[k].frame)
  }

  lemma {:induction false} ChunksStartOnce(
      o: Origin, tid: TransferId, stream: seq<Byte>, cap: nat, first: bool, toggle: bool, k: nat)
    requires cap >= 1 && k < |ParsedChunks(o, tid, stream, cap, first, toggle)|
    ensures ParsedChunks(o, tid, stream, cap, first, toggle)[k].start == (first && k == 0)
    ensures ParsedChunks(o, tid, stream, cap, first, toggle)[k].priority == o.priority
    decreases |stream|
  {
    if |stream| > cap && k > 0 {
      ChunksStartOnce(o, tid, stream[cap..], cap, false, !toggle, k - 1);
    }
  }

  lemma {:induction false} ProjectAll(events: seq<Event>, p: Prio)
    requires Ingestible(events) && forall i :: 0 <= i < |events| ==> events[i].frame.priority == p
    ensures Project(events, p) == events
    decreases |events|
  {
    if events != [] {
      ProjectAll(events[..|events| - 1], p);
    }
  }

  lemma {:induction false} OutcomesAll(out: seq<Outcome>, p: Prio)
    requires forall i :: 0 <= i < |out| ==> out[i].priority == p
    ensures OutcomesAt(out, p) == out
    decreases |out|
  {
    if out != [] {
      OutcomesAll(out[..|out| - 1], p);
    }
  }

  lemma {:induction false} RunOutcomesFrom(sub: Subscription, iface: nat, events: seq<Event>, p: Prio)
    requires Ingestible(events) && forall i :: 0 <= i < |events| ==> events[i].frame.priority == p
    ensures var out := Run(sub, iface, events).out; forall i :: 0 <= i < |out| ==> out[i].priority == p
    decreases |events|
  {
    if events != [] {
      var before, e := events[..|events| - 1], events[|events| - 1];
      RunOutcomesFrom(sub, iface, before, p);
      var step := Update(sub, Run(sub, iface, before).session, e.ts, e.frame, iface);
      assert Run(sub, iface, events).out == Run(sub, iface, before).out + step.out;
    }
  }

  /** Only the first frame of a chain starts a transfer, and all frames share its priority. */
  lemma {:induction false} ChainStartsOnce(o: Origin, seed: bv16, t: Transfer, k: nat)
    requires Framable(t) && k < |ParsedChain(o, seed, t)|
    ensures ParsedChain(o, seed, t)[k].start == (k == 0)
    ensures ParsedChain(o, seed, t)[k].priority == o.priority
  {
    if |t.payload| >= t.mtu {
      ChunksStartOnce(o, t.tid, Stream(o.address.IsV1(), seed, t.payload), t.mtu - 1, true, o.address.IsV1(), k);
    }
  }

  /** A new session that sees the frames of one transfer only behaves as their lane does. */
  lemma {:induction false} SoloRun(sub: Subscription, o: Origin, iface: nat, events: seq<Event>)
    requires sub.Valid() && Ingestible(events)
    requires forall k :: 0 <= k < |events| ==>
             events[k].frame.start == (k == 0) && events[k].frame.priority == o.priority
    ensures Run(sub, iface, events).out == LaneRun(sub, iface, events).out
  {
    hide Run, LaneRun;
    assert events[..0] == [];
    ProjectAll(events, o.priority);
    EmptyLaneTimely(sub, iface, events);
    LanesAreIndependent(sub, iface, events, o.priority);
    RunOutcomesFrom(sub, iface, events, o.priority);
    OutcomesAll(Run(sub, iface, events).out, o.priority);
  }

  /** The chain either spooler builds for a transfer, put on the bus and fed to a new session, makes
      the application see that transfer, and nothing else. */
  lemma {:induction false} RoundTrip(sub: Subscription, o: Origin, iface: nat, t: Transfer, events: seq<Event>)
    requires Serves(sub, o) && o.Valid() && Framable(t)
    requires Ingested(o, Chain(o.address.IsV1(), sub.crcSeed, t.mtu, t.tid, t.payload), events)
    ensures Ingestible(events)
    ensures |events| == PredictFrameCount(|t.payload|, t.mtu)
    ensures Run(sub, iface, events).out == [Delivered(o.priority, events[0].ts, o.node, t.tid, Clip(sub, t))]
  {
    hide Run, Parse, WireId, ParsedChain, LaneRun, Clip, Chain, PredictFrameCount;
    ChainParses(o, sub.crcSeed, t);
    PredictionIsExact(o.address.IsV1(), sub.crcSeed, t.mtu, t.tid, t.payload);
    assert FramesOf(events) == ParsedChain(o, sub.crcSeed, t);
    EmptyLane(sub, iface);
    TransferDelivered(sub, o, iface, t, [], events);
    assert [] + events == events;
    forall k | 0 <= k < |events|
      ensures events[k].frame.start == (k == 0) && events[k].frame.priority == o.priority
    {
      assert events[k].frame == FramesOf(events)[k];
      ChainStartsOnce(o, sub.crcSeed, t, k);
    }
    SoloRun(sub, o, iface, events);
  }

  lemma EmptyLane(sub: Subscription, iface: nat)
    ensures LaneRun(sub, iface, []) == Accepted(None, [])
  {
  }

  lemma {:induction false} EmptyLaneTimely(sub: Subscription, iface: nat, events: seq<Event>)
    requires Ingestible(events) && forall k :: 0 <= k < |events| && events[k].frame.start ==> k == 0
    ensures Timely(sub, iface, events)
  {
    forall i: nat, p: Prio | i < |events| && events[i].frame.start && !events[i].frame.end
      ensures LaneRun(sub, iface, Project(events[..i], p)).slot == None
    {
      assert events[..i] == [];
    }
  }
}
