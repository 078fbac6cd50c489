/** From a publisher's queue to a receiver's application: what left whole is delivered, and nothing else. */
module CanEndToEnd {
  import opened Wire
  import opened CanFrame
  import opened CanSpool
  import opened CanSession
  import opened CanLanes
  import opened CanRoundTrip
  import opened CanBus
  import opened CanAliases
  import P = TxPipeline
  import O = TxOrder

  // ---------------------------------------------------------------- what the receiver hears

  /** A session: the node with node-ID `me` has subscribed to the address and reassembles what `node` sends to it. */
  datatype Receiver = Receiver(me: NodeId, address: Address, node: NodeId)
  {
    predicate Valid() { address.Valid() && address.Emittable(node) && Listens(address, me) }

    function From(p: Prio): Origin { Origin(p, address, node) }
  }

  /** The receiver reads the frame as one for this session. */
  ghost predicate Reaches(sent: map<nat, Message>, r: Receiver, f: P.FrameId) {
    && f.t in sent && sent[f.t].Valid() && f.k < |sent[f.t].Raw()|
    && var m := sent[f.t];
       RoutedReading(WireId(m.priority, m.address, r.node), m.Raw()[f.k], r.address, r.me, r.node)
  }

  /** What leaves an interface under the node-ID and reaches the session, whatever it was sent to. */
  ghost function Heard(log: seq<P.Emission>, sent: map<nat, Message>, i: nat, r: Receiver): seq<P.FrameId> {
    if log == [] then []
    else
      var e := log[|log| - 1];
      Heard(log[..|log| - 1], sent, i, r)
      + if e.iface == i && e.node == r.node as nat && Reaches(sent, r, e.frame) then [e.frame] else []
  }

  ghost function Lane(heard: seq<P.FrameId>, sent: map<nat, Message>, p: Prio): seq<P.FrameId> {
    if heard == [] then []
    else
      var f := heard[|heard| - 1];
      Lane(heard[..|heard| - 1], sent, p) + if f.t in sent && sent[f.t].priority == p then [f] else []
  }

  /** The frames among them that were sent to the address. */
  ghost function Own(heard: seq<P.FrameId>, sent: map<nat, Message>, a: Address): seq<P.FrameId> {
    if heard == [] then []
    else
      var f := heard[|heard| - 1];
      Own(heard[..|heard| - 1], sent, a) + if f.t in sent && sent[f.t].address == a then [f] else []
  }

  /** Their arrivals. */
  ghost function OwnEvents(
      heard: seq<P.FrameId>, events: seq<Event>, sent: map<nat, Message>, a: Address): (own: seq<Event>)
    requires |heard| == |events|
    ensures |own| == |Own(heard, sent, a)|
  {
    if heard == [] then []
    else
      var z := |heard| - 1;
      OwnEvents(heard[..z], events[..z], sent, a)
      + if heard[z].t in sent && sent[heard[z].t].address == a then [events[z]] else []
  }

  /** What is sent to the address reaches the session. */
  lemma {:induction false} OwnReaches(sent: map<nat, Message>, r: Receiver, f: P.FrameId)
    requires r.Valid() && f.t in sent && sent[f.t].Valid() && f.k < |sent[f.t].Raw()| && sent[f.t].address == r.address
    ensures Reaches(sent, r, f)
  {
    var m := sent[f.t];
    OwnRouted(m.priority, m.address, r.me, r.node, m.crcSeed, m.content.mtu, m.content.tid, m.content.payload, f.k);
    hide Chain, WireId, RoutedReading;
  }

  /** One more frame is heard, or none. */
  lemma OwnLaneSnoc(heard: seq<P.FrameId>, f: P.FrameId, more: bool, sent: map<nat, Message>, p: Prio, a: Address)
    requires f.t in sent
    ensures Own(Lane(heard + if more then [f] else [], sent, p), sent, a)
            == Own(Lane(heard, sent, p), sent, a)
              + if more && sent[f.t].priority == p && sent[f.t].address == a then [f] else []
  {
    var lane := Lane(heard, sent, p);
    if more {
      assert (heard + [f])[..|heard|] == heard;
      assert (lane + [f])[..|lane|] == lane;
      assert lane + [] == lane;
    } else {
      assert heard + [] == heard;
    }
  }

  /** Of one priority, the session hears all that leaves for its address, in the order of the log. */
  lemma {:induction false} LaneOfHeard(log: seq<P.Emission>, sent: map<nat, Message>, i: nat, r: Receiver, p: Prio)
    requires Sound(log, sent) && r.Valid()
    ensures Own(Lane(Heard(log, sent, i, r), sent, p), sent, r.address) == LaneOf(log, sent, i, r.node, r.address, p)
  {
    if log != [] {
      var was, e := log[..|log| - 1], log[|log| - 1];
      assert IsOf(e, sent);
      SoundPrefix(log, sent);
      hide Sound, Reaches, Message.Raw, Message.Valid, Receiver.Valid, Own, Lane;
      LaneOfHeard(was, sent, i, r, p);
      if sent[e.frame.t].address == r.address {
        OwnReaches(sent, r, e.frame);
      }
      var more := e.iface == i && e.node == r.node as nat && Reaches(sent, r, e.frame);
      OwnLaneSnoc(Heard(was, sent, i, r), e.frame, more, sent, p, r.address);
    }
  }

  /** The event is what the session makes of a frame. The parser lets only proper frames through. */
  ghost predicate Reads(sent: map<nat, Message>, r: Receiver, f: P.FrameId, e: Event)
    ensures Reads(sent, r, f, e) ==> WellFormed(e.frame)
  {
    && Reaches(sent, r, f)
    && var m := sent[f.t];
       ParsedIsWellFormed(WireId(m.priority, m.address, r.node), m.Raw()[f.k]);
       Reading(Parse(WireId(m.priority, m.address, r.node), m.Raw()[f.k]), r.address.IsV1()) == Some(e.frame)
  }

  ghost predicate Hears(sent: map<nat, Message>, r: Receiver, heard: seq<P.FrameId>, events: seq<Event>)
    ensures Hears(sent, r, heard, events) ==> Ingestible(events)
  {
    |heard| == |events| && forall j :: 0 <= j < |heard| ==> Reads(sent, r, heard[j], events[j])
  }

  /** The place of a frame in its chain, as the session reads it. */
  ghost predicate Places(sent: map<nat, Message>, f: P.FrameId, fr: Parsed) {
    && f.t in sent && sent[f.t].Valid() && f.k < |sent[f.t].Raw()|
    && var m := sent[f.t];
       && fr.priority == m.priority && fr.tid == m.content.tid && fr.start == (f.k == 0)
       && fr.end == (f.k == |m.Raw()| - 1) && fr.toggle == (m.address.IsV1() == (f.k % 2 == 0))
       && |fr.payload| < m.content.mtu
  }

  lemma {:induction false} ReadPlace(sent: map<nat, Message>, r: Receiver, f: P.FrameId, e: Event)
    requires Reads(sent, r, f, e)
    ensures Places(sent, f, e.frame) && WellFormed(e.frame)
  {
    var m := sent[f.t];
    ChainReading(r.address.IsV1(), m.priority, m.address, r.node, m.crcSeed, m.content.mtu, m.content.tid,
                 m.content.payload, f.k);
    hide Chain, WireId, Parse, RoutedReading, WellFormed;
  }

  /** What was sent elsewhere is of the other generation and not the first frame of its message. */
  lemma {:induction false} ForeignFrame(sent: map<nat, Message>, r: Receiver, f: P.FrameId)
    requires Reaches(sent, r, f) && r.Valid() && sent[f.t].address != r.address
    ensures var m := sent[f.t];
            f.k > 0 && m.address.IsV1() != r.address.IsV1() && Aliases(m.priority, r.address, m.address, r.me, r.node)
  {
    hide Chain, WireId, RoutedReading, Aliases;
    var m := sent[f.t];
    if m.address.IsV1() == r.address.IsV1() {
      OwnGeneration(m.priority, r.address, m.address, r.me, r.node, m.Raw()[f.k]);
    } else {
      OtherGeneration(m.priority, r.address, m.address, r.me, r.node, m.crcSeed, m.content.mtu, m.content.tid,
                      m.content.payload, f.k);
    }
  }

  lemma {:induction false} ChunksEndOnce(
      o: Origin, tid: TransferId, stream: seq<Byte>, cap: nat, first: bool, toggle: bool, k: nat)
    requires cap >= 1 && k < |ParsedChunks(o, tid, stream, cap, first, toggle)|
    ensures ParsedChunks(o, tid, stream, cap, first, toggle)[k].end
            == (k == |ParsedChunks(o, tid, stream, cap, first, toggle)| - 1)
    decreases |stream|
  {
    if |stream| > cap && k > 0 {
      ChunksEndOnce(o, tid, stream[cap..], cap, false, !toggle, k - 1);
    }
  }

  lemma {:induction false} ChainEndsOnce(o: Origin, seed: bv16, t: Transfer, k: nat)
    requires Framable(t) && k < |ParsedChain(o, seed, t)|
    ensures ParsedChain(o, seed, t)[k].end == (k == |ParsedChain(o, seed, t)| - 1)
  {
    if |t.payload| >= t.mtu {
      ChunksEndOnce(o, t.tid, Stream(o.address.IsV1(), seed, t.payload), t.mtu - 1, true, o.address.IsV1(), k);
    }
  }

  /** What is heard of the address is the chain as its sender meant it. */
  lemma {:induction false} ReadFrame(sent: map<nat, Message>, r: Receiver, f: P.FrameId, e: Event)
    requires Reads(sent, r, f, e) && r.Valid() && sent[f.t].address == r.address
    ensures var m := sent[f.t];
            var chain := ParsedChain(m.From(r.node), m.crcSeed, m.content);
            && |chain| == |m.Raw()| && e.frame == chain[f.k] && e.frame.end == (f.k == |chain| - 1)
  {
    var m := sent[f.t];
    ChainParses(m.From(r.node), m.crcSeed, m.content);
    ChainStartsOnce(m.From(r.node), m.crcSeed, m.content, f.k);
    ChainEndsOnce(m.From(r.node), m.crcSeed, m.content, f.k);
    hide ParsedChain, Chain, Parse, WireId, WellFormed, RoutedReading;
  }

  /** Both ends sort by priority in the same way. */
  lemma {:induction false} HearsLane(
      sent: map<nat, Message>, r: Receiver, heard: seq<P.FrameId>, events: seq<Event>, p: Prio)
    requires Hears(sent, r, heard, events)
    ensures Hears(sent, r, Lane(heard, sent, p), Project(events, p))
    ensures forall f :: f in Lane(heard, sent, p) ==> f.t in sent && sent[f.t].priority == p
  {
    hide Reads;
    if heard != [] {
      var z := |heard| - 1;
      assert Reads(sent, r, heard[z], events[z]);
      ReadPlace(sent, r, heard[z], events[z]);
      HearsLane(sent, r, heard[..z], events[..z], p);
      hide Ingestible;
    }
  }

  lemma {:induction false} HearsOwn(
      sent: map<nat, Message>, r: Receiver, heard: seq<P.FrameId>, events: seq<Event>)
    requires Hears(sent, r, heard, events)
    ensures Hears(sent, r, Own(heard, sent, r.address), OwnEvents(heard, events, sent, r.address))
  {
    hide Reads;
    if heard != [] {
      var z := |heard| - 1;
      assert Reads(sent, r, heard[z], events[z]);
      HearsOwn(sent, r, heard[..z], events[..z]);
      hide Ingestible;
    }
  }

  // ---------------------------------------------------------------- frames of the other generation

  /**
   * Continuation frames carry nothing that tells the generations apart. A frame of y is taken for the next one of x
   * when the address of y is read as that of x and one of them is long enough for the toggles to meet.
   */
  ghost predicate Clash(x: Message, y: Message, r: Receiver, p: Prio) {
    && x.Valid() && y.Valid() && x.address == r.address && x.priority == p && y.priority == p
    && x.content.tid == y.content.tid && Aliases(p, r.address, y.address, r.me, r.node)
    && |x.Raw()| > 1 && |y.Raw()| > 1 && |x.Raw()| + |y.Raw()| > 4
  }

  ghost predicate ClashFree(messages: set<Message>, r: Receiver, p: Prio) {
    forall x, y :: x in messages && y in messages ==> !Clash(x, y, r, p)
  }

  /** An open slot waits for the frame after the last one of the address. */
  ghost predicate Waits(slot: Option<Slot>, iface: nat, sent: map<nat, Message>, own: seq<P.FrameId>) {
    slot.Some? ==>
      && own != []
      && var f := own[|own| - 1];
         && f.t in sent && sent[f.t].Valid() && f.k + 1 < |sent[f.t].Raw()|
         && slot.value.iface == iface && slot.value.tid == sent[f.t].content.tid
         && slot.value.toggle == (sent[f.t].address.IsV1() == (f.k % 2 != 0))
  }

  lemma {:induction false} OwnFrameStep(
      sub: Subscription, iface: nat, lane: Accepted, e: Event, sent: map<nat, Message>, own: seq<P.FrameId>,
      f: P.FrameId)
    requires lane.slot.Some? ==> ValidSlot(sub, lane.slot.value)
    requires Waits(lane.slot, iface, sent, own) && Places(sent, f, e.frame) && WellFormed(e.frame)
    requires sub.kind.IsV1() == sent[f.t].address.IsV1()
    requires f.k > 0 ==> own != [] && own[|own| - 1] == P.FrameId(f.t, f.k - 1)
    ensures Waits(LaneStep(sub, iface, lane, e).slot, iface, sent, own + [f])
  {
    hide Message.Raw, Message.Valid, CompleteSlot, Overlay, WellFormed;
  }

  /** Without a clash the slot refuses a frame of the other generation. */
  lemma {:induction false} ForeignFrameStep(
      sub: Subscription, iface: nat, lane: Accepted, e: Event, sent: map<nat, Message>, own: seq<P.FrameId>,
      f: P.FrameId, r: Receiver, p: Prio)
    requires lane.slot.Some? ==> ValidSlot(sub, lane.slot.value)
    requires Waits(lane.slot, iface, sent, own) && Places(sent, f, e.frame) && WellFormed(e.frame)
    requires own != [] ==> (
      var g := own[|own| - 1]; g.t in sent && sent[g.t].address == r.address && sent[g.t].priority == p)
    requires f.k > 0 && sent[f.t].address.IsV1() != r.address.IsV1() && sent[f.t].priority == p
    requires Aliases(p, r.address, sent[f.t].address, r.me, r.node)
    requires ClashFree(sent.Values, r, p)
    ensures LaneStep(sub, iface, lane, e) == lane
  {
    hide Message.Raw, Message.Valid, Accept, Aliases, WellFormed;
    if lane.slot.Some? {
      assert !Clash(sent[own[|own| - 1].t], sent[f.t], r, p);
    }
  }

  lemma OwnIsOf(heard: seq<P.FrameId>, sent: map<nat, Message>, a: Address)
    ensures forall f :: f in Own(heard, sent, a) ==> f in heard && f.t in sent && sent[f.t].address == a
  {
  }

  lemma ConsecutivePrefix(lane: seq<P.FrameId>, f: P.FrameId)
    requires Consecutive(lane + [f])
    ensures Consecutive(lane)
    ensures f.k > 0 ==> lane != [] && lane[|lane| - 1] == P.FrameId(f.t, f.k - 1)
  {
    var all := lane + [f];
    assert all[|lane|] == f;
    assert forall j :: 0 <= j < |lane| ==> all[j] == lane[j];
  }

  lemma NoneWaits(sub: Subscription, iface: nat, sent: map<nat, Message>, a: Address)
    ensures Waits(LaneRun(sub, iface, []).slot, iface, sent, Own([], sent, a))
  {
  }

  /** The next frame of a priority, of the address or foreign. */
  lemma {:induction false} NextFrame(
      sub: Subscription, iface: nat, lane: Accepted, e: Event, sent: map<nat, Message>, own: seq<P.FrameId>,
      f: P.FrameId, r: Receiver, p: Prio)
    requires Serves(sub, r.From(p)) && r.Valid() && (lane.slot.Some? ==> ValidSlot(sub, lane.slot.value))
    requires Waits(lane.slot, iface, sent, own) && Reads(sent, r, f, e) && f.t in sent && sent[f.t].priority == p
    requires forall g :: g in own ==> g.t in sent && sent[g.t].address == r.address && sent[g.t].priority == p
    requires sent[f.t].address == r.address ==> Consecutive(own + [f])
    requires ClashFree(sent.Values, r, p)
    ensures WellFormed(e.frame)
    ensures var next := LaneStep(sub, iface, lane, e);
            if sent[f.t].address == r.address then Waits(next.slot, iface, sent, own + [f]) else next == lane
  {
    hide Reads, Reaches, LaneStep, ClashFree, Waits, Places, Message.Raw, Message.Valid, WellFormed, Aliases,
      Consecutive, Receiver.Valid;
    ReadPlace(sent, r, f, e);
    if sent[f.t].address == r.address {
      ConsecutivePrefix(own, f);
      Destinations(r.address) by {
        ReceiverIsOrigin(r, p);
      }
      OwnFrameStep(sub, iface, lane, e, sent, own, f);
    } else {
      ReadReaches(sent, r, f, e);
      ForeignFrame(sent, r, f);
      ForeignFrameStep(sub, iface, lane, e, sent, own, f, r, p);
    }
  }

  lemma ReadReaches(sent: map<nat, Message>, r: Receiver, f: P.FrameId, e: Event)
    requires Reads(sent, r, f, e)
    ensures Reaches(sent, r, f)
  {
  }

  lemma ReceiverIsOrigin(r: Receiver, p: Prio)
    requires r.Valid()
    ensures r.address.Valid() && r.From(p).Valid()
  {
  }

  lemma OwnUnfold(lane: seq<P.FrameId>, events: seq<Event>, sent: map<nat, Message>, a: Address)
    requires |lane| == |events| && lane != []
    ensures var z := |lane| - 1;
            var own, came := Own(lane[..z], sent, a), OwnEvents(lane[..z], events[..z], sent, a);
            if lane[z].t in sent && sent[lane[z].t].address == a
            then Own(lane, sent, a) == own + [lane[z]] && OwnEvents(lane, events, sent, a) == came + [events[z]]
            else Own(lane, sent, a) == own && OwnEvents(lane, events, sent, a) == came
  {
  }

  /** Without a clash the frames of the other generation leave no trace. */
  lemma {:induction false} ForeignFramesAreRefused(
      sub: Subscription, iface: nat, sent: map<nat, Message>, r: Receiver, p: Prio, lane: seq<P.FrameId>,
      events: seq<Event>)
    requires Serves(sub, r.From(p)) && r.Valid() && Hears(sent, r, lane, events)
    requires forall f :: f in lane ==> f.t in sent && sent[f.t].priority == p
    requires Consecutive(Own(lane, sent, r.address)) && ClashFree(sent.Values, r, p)
    ensures Ingestible(OwnEvents(lane, events, sent, r.address))
    ensures LaneRun(sub, iface, events) == LaneRun(sub, iface, OwnEvents(lane, events, sent, r.address))
    ensures Waits(LaneRun(sub, iface, events).slot, iface, sent, Own(lane, sent, r.address))
    decreases |lane|
  {
    hide Reads, Reaches, LaneStep, ClashFree, Waits, Serves, Receiver.Valid, Message.Raw, Message.Valid,
      WellFormed, Consecutive, Own, OwnEvents;
    if lane == [] {
      NoneWaits(sub, iface, sent, r.address);
      OwnEventsOfNone(sent, r.address);
    } else {
      var z := |lane| - 1;
      var f, e, own := lane[z], events[z], Own(lane[..z], sent, r.address);
      assert Reads(sent, r, f, e);
      OwnIsOf(lane[..z], sent, r.address);
      OwnUnfold(lane, events, sent, r.address);
      if sent[f.t].address == r.address {
        ConsecutivePrefix(own, f);
      }
      ForeignFramesAreRefused(sub, iface, sent, r, p, lane[..z], events[..z]);
      NextFrame(sub, iface, LaneRun(sub, iface, events[..z]), e, sent, own, f, r, p);
      if sent[f.t].address == r.address {
        LaneRunSnoc(sub, iface, OwnEvents(lane[..z], events[..z], sent, r.address), e);
      }
    }
  }

  lemma OwnEventsOfNone(sent: map<nat, Message>, a: Address)
    ensures OwnEvents([], [], sent, a) == []
  {
  }

  // ---------------------------------------------------------------- what the application sees

  /** One delivery for every message whose last frame is there, stamped with the arrival of its first. */
  ghost function Deliveries(
      sub: Subscription, o: Origin, sent: map<nat, Message>, lane: seq<P.FrameId>, events: seq<Event>): seq<Outcome>
    requires |lane| == |events| && forall j :: 0 <= j < |lane| ==> lane[j].t in sent && sent[lane[j].t].Valid()
  {
    if lane == [] then []
    else
      var z := |lane| - 1;
      var f, m := lane[z], sent[lane[z].t];
      Deliveries(sub, o, sent, lane[..z], events[..z])
      + if f.k == |m.Raw()| - 1 && f.k <= z
        then [Delivered(o.priority, events[z - f.k].ts, o.node, m.content.tid, Clip(sub, m.content))]
        else []
  }

  /** Frames that do not end a message deliver nothing. */
  lemma {:induction false} NoEndNoDelivery(
      sub: Subscription, o: Origin, sent: map<nat, Message>, lane: seq<P.FrameId>, events: seq<Event>, m: nat)
    requires |lane| == |events| && forall j :: 0 <= j < |lane| ==> lane[j].t in sent && sent[lane[j].t].Valid()
    requires m <= |lane| && forall j :: m <= j < |lane| ==> lane[j].k < |sent[lane[j].t].Raw()| - 1
    ensures Deliveries(sub, o, sent, lane, events) == Deliveries(sub, o, sent, lane[..m], events[..m])
    decreases |lane|
  {
    hide Message.Raw, Message.Valid, Clip;
    var z := |lane| - 1;
    if m <= z {
      NoEndNoDelivery(sub, o, sent, lane[..z], events[..z], m);
      assert lane[..z][..m] == lane[..m] && events[..z][..m] == events[..m];
    } else {
      assert lane[..m] == lane && events[..m] == events;
    }
  }

  /** A frame that does not end a transfer lets the application see nothing. */
  lemma {:induction false} QuietStep(sub: Subscription, iface: nat, lane: Accepted, e: Event)
    requires WellFormed(e.frame) && !e.frame.end
    requires lane.slot.Some? ==> ValidSlot(sub, lane.slot.value)
    ensures LaneStep(sub, iface, lane, e).out == lane.out
  {
    hide NewSlot, Advance, CompleteSlot, WellFormed;
  }

  /** The frames and events of one lane fit each other. */
  ghost predicate Carries(
      sub: Subscription, o: Origin, sent: map<nat, Message>, lane: seq<P.FrameId>, events: seq<Event>) {
    && |lane| == |events| && Ingestible(events) && Consecutive(lane)
    && forall j :: 0 <= j < |lane| ==> CarriesAt(sub, o, sent, lane[j], events[j])
  }

  ghost predicate CarriesAt(sub: Subscription, o: Origin, sent: map<nat, Message>, f: P.FrameId, e: Event) {
    && f.t in sent && sent[f.t].Valid() && sent[f.t].From(o.node) == o && sent[f.t].crcSeed == sub.crcSeed
    && var chain := ParsedChain(o, sub.crcSeed, sent[f.t].content);
       |chain| == |sent[f.t].Raw()| && f.k < |chain| && e.frame == chain[f.k] && e.frame.end == (f.k == |chain| - 1)
  }

  lemma CarriesPrefix(
      sub: Subscription, o: Origin, sent: map<nat, Message>, lane: seq<P.FrameId>, events: seq<Event>, m: nat)
    requires Carries(sub, o, sent, lane, events) && m <= |lane|
    ensures Carries(sub, o, sent, lane[..m], events[..m])
  {
    hide CarriesAt, WellFormed;
  }

  lemma {:induction false} ChainBefore(lane: seq<P.FrameId>)
    requires Consecutive(lane) && lane != []
    ensures var z, f := |lane| - 1, lane[|lane| - 1];
            f.k <= z && forall j :: z - f.k <= j <= z ==> lane[j] == P.FrameId(f.t, j - (z - f.k))
  {
    var z, f := |lane| - 1, lane[|lane| - 1];
    WholeChain(lane, z, 0);
    forall j | z - f.k <= j <= z ensures lane[j] == P.FrameId(f.t, j - (z - f.k)) {
      WholeChain(lane, z, j - (z - f.k));
    }
  }

  /** When the last frame ends its message, the message stands whole at the end of the lane. */
  lemma {:induction false} EndsWithChain(
      sub: Subscription, o: Origin, sent: map<nat, Message>, lane: seq<P.FrameId>, events: seq<Event>, m: nat)
    requires Carries(sub, o, sent, lane, events) && lane != []
    requires var z, f := |lane| - 1, lane[|lane| - 1];
             m + f.k == z && CarriesAt(sub, o, sent, f, events[z]) && events[z].frame.end
    requires var z, f := |lane| - 1, lane[|lane| - 1]; forall j :: m <= j <= z ==> lane[j] == P.FrameId(f.t, j - m)
    ensures FramesOf(events[m..]) == ParsedChain(o, sub.crcSeed, sent[lane[|lane| - 1].t].content)
  {
    var z, f := |lane| - 1, lane[|lane| - 1];
    var chain := ParsedChain(o, sub.crcSeed, sent[f.t].content);
    hide Message.Raw, ParsedChain, Ingestible, Consecutive;
    assert |events[m..]| == |chain|;
    forall k | 0 <= k < |chain| ensures events[m..][k].frame == chain[k] {
      assert CarriesAt(sub, o, sent, lane[m + k], events[m + k]);
    }
  }

  /** The last message of a lane adds its delivery to those before it. */
  lemma {:induction false} EndAdds(
      sub: Subscription, o: Origin, sent: map<nat, Message>, lane: seq<P.FrameId>, events: seq<Event>, m: nat)
    requires |lane| == |events| && forall j :: 0 <= j < |lane| ==> lane[j].t in sent && sent[lane[j].t].Valid()
    requires lane != [] && m + lane[|lane| - 1].k == |lane| - 1
    requires forall j :: m <= j < |lane| ==> lane[j].t == lane[|lane| - 1].t && lane[j].k == j - m
    requires lane[|lane| - 1].k == |sent[lane[|lane| - 1].t].Raw()| - 1
    ensures var c := sent[lane[|lane| - 1].t].content;
            Deliveries(sub, o, sent, lane, events)
            == Deliveries(sub, o, sent, lane[..m], events[..m])
              + [Delivered(o.priority, events[m].ts, o.node, c.tid, Clip(sub, c))]
  {
    hide Message.Raw, Message.Valid, Clip;
    var z := |lane| - 1;
    NoEndNoDelivery(sub, o, sent, lane[..z], events[..z], m);
    assert lane[..z][..m] == lane[..m] && events[..z][..m] == events[..m];
  }

  /** A message that ends the lane is delivered, whatever came before. */
  lemma {:induction false} EndDelivers(
      sub: Subscription, o: Origin, iface: nat, sent: map<nat, Message>, lane: seq<P.FrameId>, events: seq<Event>,
      m: nat)
    requires Serves(sub, o) && o.Valid() && Carries(sub, o, sent, lane, events) && lane != []
    requires var f := lane[|lane| - 1];
             m + f.k == |lane| - 1 && f.t in sent && sent[f.t].Valid() && f.k == |sent[f.t].Raw()| - 1
    requires forall j :: 0 <= j < |lane| ==> lane[j].t in sent && sent[lane[j].t].Valid()
    requires Ingestible(events[..m])
             && LaneRun(sub, iface, events[..m]).out == Deliveries(sub, o, sent, lane[..m], events[..m])
    ensures LaneRun(sub, iface, events).out == Deliveries(sub, o, sent, lane, events)
  {
    hide CarriesAt, Message.Raw, ParsedChain, Clip, Serves, LaneRun, Ingestible, WellFormed, Message.Valid,
      Consecutive, Framable, Deliveries;
    var z, f := |lane| - 1, lane[|lane| - 1];
    assert CarriesAt(sub, o, sent, f, events[z]);
    CarriedFrame(sub, o, sent, f, events[z]);
    ChainBefore(lane);
    EndsWithChain(sub, o, sent, lane, events, m);
    TransferDelivered(sub, o, iface, sent[f.t].content, events[..m], events[m..]);
    assert events[..m] + events[m..] == events;
    EndAdds(sub, o, sent, lane, events, m);
  }

  lemma {:induction false} CarriedFrames(
      sub: Subscription, o: Origin, sent: map<nat, Message>, lane: seq<P.FrameId>, events: seq<Event>)
    requires Carries(sub, o, sent, lane, events)
    ensures forall j :: 0 <= j < |lane| ==> lane[j].t in sent && sent[lane[j].t].Valid()
    ensures forall j :: 0 <= j < |lane| ==> events[j].frame.end == (lane[j].k == |sent[lane[j].t].Raw()| - 1)
  {
    forall j | 0 <= j < |lane|
      ensures lane[j].t in sent && sent[lane[j].t].Valid()
      ensures events[j].frame.end == (lane[j].k == |sent[lane[j].t].Raw()| - 1)
    {
      assert CarriesAt(sub, o, sent, lane[j], events[j]);
    }
  }

  /** A lane on its own delivers every message that stands whole in it, in order, and nothing else. */
  lemma {:induction false} LaneDelivers(
      sub: Subscription, o: Origin, iface: nat, sent: map<nat, Message>, lane: seq<P.FrameId>, events: seq<Event>)
    requires Serves(sub, o) && o.Valid() && Carries(sub, o, sent, lane, events)
    ensures forall j :: 0 <= j < |lane| ==> lane[j].t in sent && sent[lane[j].t].Valid()
    ensures LaneRun(sub, iface, events).out == Deliveries(sub, o, sent, lane, events)
    decreases |lane|
  {
    hide Message.Raw, Message.Valid, Serves, LaneStep, CarriesAt, Clip, WellFormed;
    CarriedFrames(sub, o, sent, lane, events);
    if lane != [] {
      var z, f := |lane| - 1, lane[|lane| - 1];
      ChainBefore(lane);
      var m := if f.k == |sent[f.t].Raw()| - 1 then z - f.k else z;
      CarriesPrefix(sub, o, sent, lane, events, m);
      LaneDelivers(sub, o, iface, sent, lane[..m], events[..m]);
      hide Consecutive;
      if f.k == |sent[f.t].Raw()| - 1 {
        EndDelivers(sub, o, iface, sent, lane, events, m);
      } else {
        QuietStep(sub, iface, LaneRun(sub, iface, events[..z]), events[z]);
      }
    }
  }

  lemma CarriedFrame(sub: Subscription, o: Origin, sent: map<nat, Message>, f: P.FrameId, e: Event)
    requires CarriesAt(sub, o, sent, f, e)
    ensures f.t in sent && sent[f.t].Valid() && Framable(sent[f.t].content)
    ensures f.k < |sent[f.t].Raw()| && e.frame.end == (f.k == |sent[f.t].Raw()| - 1)
  {
  }

  /** In a lane the last frame of a message is there exactly if all its frames are. */
  lemma {:induction false} EndsIffWhole(lane: seq<P.FrameId>, t: nat, frames: nat)
    requires Consecutive(lane) && frames > 0
    ensures P.FrameId(t, frames - 1) in lane <==> forall k: nat :: k < frames ==> P.FrameId(t, k) in lane
  {
    if P.FrameId(t, frames - 1) in lane {
      var j: nat :| j < |lane| && lane[j] == P.FrameId(t, frames - 1);
      forall k: nat | k < frames ensures P.FrameId(t, k) in lane {
        WholeChain(lane, j, k);
      }
    }
  }

  /** What a receiver's session makes of the frames of its address fits the lane. */
  lemma {:induction false} LaneIsCarried(
      sub: Subscription, sent: map<nat, Message>, r: Receiver, p: Prio, lane: seq<P.FrameId>, events: seq<Event>)
    requires Hears(sent, r, lane, events) && Consecutive(lane) && r.Valid()
    requires forall j :: 0 <= j < |lane| ==> Belongs(lane[j], sent, r.address, p)
    requires forall t :: t in sent && sent[t].address == r.address ==> sent[t].crcSeed == sub.crcSeed
    ensures Carries(sub, r.From(p), sent, lane, events)
  {
    hide Reads, Message.Raw, ParsedChain, Ingestible, Consecutive, Address.Valid, Address.Emittable, WellFormed,
      Receiver.Valid;
    forall j | 0 <= j < |lane| ensures CarriesAt(sub, r.From(p), sent, lane[j], events[j]) {
      assert Reads(sent, r, lane[j], events[j]) && Belongs(lane[j], sent, r.address, p);
      ReadFrame(sent, r, lane[j], events[j]);
    }
  }

  /** The arrivals of a session that belong to one lane of the log. */
  ghost function Arrivals(
      log: seq<P.Emission>, sent: map<nat, Message>, i: nat, r: Receiver, p: Prio, events: seq<Event>): seq<Event>
    requires Hears(sent, r, Heard(log, sent, i, r), events)
  {
    HearsLane(sent, r, Heard(log, sent, i, r), events, p);
    OwnEvents(Lane(Heard(log, sent, i, r), sent, p), Project(events, p), sent, r.address)
  }

  /** One lane of what was heard, on its own. */
  lemma {:induction false} HeardLaneDelivers(
      log: seq<P.Emission>, sent: map<nat, Message>, i: nat, r: Receiver, p: Prio,
      sub: Subscription, iface: nat, events: seq<Event>)
    requires Sound(log, sent) && Serves(sub, r.From(p)) && r.Valid()
    requires forall t :: t in sent && sent[t].address == r.address ==> sent[t].crcSeed == sub.crcSeed
    requires Hears(sent, r, Heard(log, sent, i, r), events) && ClashFree(sent.Values, r, p)
    ensures var lane := LaneOf(log, sent, i, r.node, r.address, p);
            && |lane| == |Arrivals(log, sent, i, r, p, events)| && Consecutive(lane) && Rising(lane)
            && (forall j :: 0 <= j < |lane| ==> lane[j].t in sent && sent[lane[j].t].Valid())
            && LaneRun(sub, iface, Project(events, p)).out
               == Deliveries(sub, r.From(p), sent, lane, Arrivals(log, sent, i, r, p, events))
  {
    hide Sound, Ingestible, LaneRun, Project, Heard, Hears, Serves, Belongs, Consecutive, Rising, Carries,
      Message.Valid, ClashFree, Receiver.Valid, Own, OwnEvents, Lane;
    var heard, lane := Lane(Heard(log, sent, i, r), sent, p), LaneOf(log, sent, i, r.node, r.address, p);
    var arrivals := Arrivals(log, sent, i, r, p, events);
    LaneOfHeard(log, sent, i, r, p);
    LaneIsChains(log, sent, i, r.node, r.address, p);
    HearsLane(sent, r, Heard(log, sent, i, r), events, p);
    HearsOwn(sent, r, heard, Project(events, p));
    ForeignFramesAreRefused(sub, iface, sent, r, p, heard, Project(events, p));
    LaneIsCarried(sub, sent, r, p, lane, arrivals);
    ReceiverIsOrigin(r, p);
    LaneDelivers(sub, r.From(p), iface, sent, lane, arrivals);
    CarriedLength(sub, r.From(p), sent, lane, arrivals);
  }

  lemma RanIsSound(
      capacity: nat, ifaces: nat, node: nat, calls: seq<Call>, last: P.Pipeline, sent: map<nat, Message>)
    requires Ran(O.Initial(capacity, ifaces, node), calls, last, sent)
    ensures Sound(last.log, sent)
  {
    RanIsTold(capacity, ifaces, node, calls, last, sent);
    hide Ran, P.Inv;
  }

  /** The application sees, at one priority, exactly the messages to the address that left whole. */
  ghost predicate Intact(
      log: seq<P.Emission>, sent: map<nat, Message>, i: nat, r: Receiver, p: Prio,
      sub: Subscription, iface: nat, events: seq<Event>)
    requires Hears(sent, r, Heard(log, sent, i, r), events)
  {
    var lane, arrivals := LaneOf(log, sent, i, r.node, r.address, p), Arrivals(log, sent, i, r, p, events);
    && |lane| == |arrivals| && Consecutive(lane) && Rising(lane)
    && (forall j :: 0 <= j < |lane| ==> lane[j].t in sent && sent[lane[j].t].Valid())
    && OutcomesAt(Run(sub, iface, events).out, p) == Deliveries(sub, r.From(p), sent, lane, arrivals)
  }

  /**
   * From publishing to delivery. A node publishes messages in any run of its queue. A session hears, on one
   * interface, whatever the receiver reads as coming from the node to its address, and unless two of the messages
   * clash lets the application see, priority by priority, exactly the messages that left whole, each once, in
   * publishing order and up to the extent.
   */
  lemma {:induction false} WhatLeftWholeIsDelivered(
      capacity: nat, ifaces: nat, node: nat, calls: seq<Call>, last: P.Pipeline, sent: map<nat, Message>,
      i: nat, r: Receiver, p: Prio, sub: Subscription, iface: nat, events: seq<Event>)
    requires Ran(O.Initial(capacity, ifaces, node), calls, last, sent)
    requires Serves(sub, r.From(p)) && r.Valid()
    requires forall t :: t in sent && sent[t].address == r.address ==> sent[t].crcSeed == sub.crcSeed
    requires Hears(sent, r, Heard(last.log, sent, i, r), events)
    requires NovelStarts(events) && Timely(sub, iface, events)
    requires ClashFree(sent.Values, r, p)
    ensures Intact(last.log, sent, i, r, p, sub, iface, events)
  {
    hide Ran, Sound, Ingestible, NovelStarts, Timely, Run, LaneRun, Project, Heard, Hears, Serves, Consecutive, Rising,
      Message.Valid, ClashFree, Arrivals, Receiver.Valid;
    RanIsSound(capacity, ifaces, node, calls, last, sent);
    HeardLaneDelivers(last.log, sent, i, r, p, sub, iface, events);
    LanesAreIndependent(sub, iface, events, p) by {
      ServesIsValid(sub, r.From(p));
    }
  }

  lemma CarriedLength(sub: Subscription, o: Origin, sent: map<nat, Message>, lane: seq<P.FrameId>, events: seq<Event>)
    requires Carries(sub, o, sent, lane, events)
    ensures |lane| == |events|
  {
  }

  lemma ServesIsValid(sub: Subscription, o: Origin)
    requires Serves(sub, o)
    ensures sub.Valid()
  {
  }
}
