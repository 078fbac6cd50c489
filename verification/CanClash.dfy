/** Where messages of the two generations clash: a session takes frames of one for those of the other. */
module CanClash {
  import opened Wire
  import opened CanFrame
  import opened CanSpool
  import opened CanSession
  import opened CanLanes
  import opened CanRoundTrip
  import opened CanBus
  import opened CanAliases
  import opened CanEndToEnd
  import opened TxDrain
  import Crc16
  import P = TxPipeline
  import O = TxOrder

  // ---------------------------------------------------------------- runs of one interface

  lemma RanSnoc(
      first: P.Pipeline, calls: seq<Call>, c: P.Pipeline, told: map<nat, Message>, call: Call, d: P.Pipeline,
      sent: map<nat, Message>)
    requires Ran(first, calls, c, told) && P.Inv(c) && call.Valid() && O.Allowed(c, call.Op())
    requires d == O.Step(c, call.Op()) && sent == if call.Send? then told[c.seqno := call.message] else told
    ensures Ran(first, calls + [call], d, sent)
  {
    var all := calls + [call];
    assert all[..|all| - 1] == calls;
    assert Follows(c, told, all, d, sent);
    hide P.Inv, O.Step, Follows;
  }

  /** Publishing into a queue with room. */
  lemma {:induction false} RanSends(
      first: P.Pipeline, calls: seq<Call>, c: P.Pipeline, told: map<nat, Message>, now: int, deadline: int, m: Message)
    returns (d: P.Pipeline)
    requires Ran(first, calls, c, told) && P.Inv(c) && |c.pending| == 1 && c.holds == map[] && m.Valid()
    requires 2 <= |m.Raw()| <= c.capacity - c.queueSize
    requires forall u :: u in c.transfers ==> now <= c.transfers[u].deadline && m.Msb() < c.transfers[u].msb
    ensures Ran(first, calls + [Send(now, deadline, m, [true])], d, told[c.seqno := m])
    ensures Leads(d, c.seqno, 0) && d.seqno == c.seqno + 1 && d.capacity == c.capacity && d.log == c.log
    ensures d.queueSize == c.queueSize + |m.Raw()| && d.node == c.node
    ensures d.transfers == c.transfers[c.seqno := P.Transfer(deadline, m.Msb(), |m.Raw()|, false, [0])]
  {
    hide P.Inv, P.Publish, Message.Raw, Message.Msb, Ran, Leads;
    var call := Send(now, deadline, m, [true]);
    d := O.Step(c, call.Op());
    PublishedLeads(c, now, m.Msb(), deadline, |m.Raw()|);
    RanSnoc(first, calls, c, told, call, d, told[c.seqno := m]);
  }

  /** The driver takes frames of the transfer that goes first. */
  lemma {:induction false} RanDrains(
      first: P.Pipeline, calls: seq<Call>, c: P.Pipeline, sent: map<nat, Message>, t: nat, k: nat, n: nat)
    returns (d: P.Pipeline)
    requires Ran(first, calls, c, sent) && Leads(c, t, k) && 1 <= n <= c.transfers[t].frames - k
    ensures Ran(first, calls + [Does(O.Eject(0, Takes(n)))], d, sent)
    ensures Left(c, d, t, k + n) && d.log == c.log + Emissions(t, k, n, c.transfers[t].msb, c.node)
  {
    hide P.Inv, P.Eject, Ran;
    var call := Does(O.Eject(0, Takes(n)));
    d := O.Step(c, call.Op());
    Drains(c, t, k, n);
    RanSnoc(first, calls, c, sent, call, d, sent);
  }

  lemma InitialIsEmpty(capacity: nat, node: nat)
    ensures var c := O.Initial(capacity, 1, node);
            P.Inv(c) && |c.pending| == 1 && Ran(c, [], c, map[])
  {
    O.InitialIsSound(capacity, 1, node);
  }

  /** A message runs out of time in the middle, and another one leaves whole. */
  lemma {:induction false} InterruptedRun(x: Message, y: Message, node: nat, n: nat)
    returns (calls: seq<Call>, last: P.Pipeline)
    requires x.Valid() && y.Valid() && 1 <= n < |x.Raw()| && |y.Raw()| >= 2
    ensures Ran(O.Initial(|x.Raw()| + |y.Raw()|, 1, node), calls, last, map[0 := x, 1 := y])
    ensures last.log == Emissions(0, 0, n, x.Msb(), node) + Emissions(1, 0, |y.Raw()|, y.Msb(), node)
  {
    hide P.Inv, Message.Raw, Message.Msb, Message.Valid, Ran, P.Expire;
    var first := O.Initial(|x.Raw()| + |y.Raw()|, 1, node);
    InitialIsEmpty(|x.Raw()| + |y.Raw()|, node);
    var queued := RanSends(first, [], first, map[], 0, 0, x);
    var begun := RanDrains(first, [] + [Send(0, 0, x, [true])], queued, map[][0 := x], 0, 0, n);
    calls := [] + [Send(0, 0, x, [true])] + [Does(O.Eject(0, Takes(n)))];
    ExpiresEmpty(begun, 1);
    var empty := P.Expire(begun, 1);
    RanSnoc(first, calls, begun, map[][0 := x], Does(O.Expire(1)), empty, map[][0 := x]);
    calls := calls + [Does(O.Expire(1))];
    var next := RanSends(first, calls, empty, map[][0 := x], 1, 1, y);
    calls := calls + [Send(1, 1, y, [true])];
    last := RanDrains(first, calls, next, map[][0 := x][1 := y], 1, 0, |y.Raw()|);
    calls := calls + [Does(O.Eject(0, Takes(|y.Raw()|)))];
    assert map[][0 := x][1 := y] == map[0 := x, 1 := y];
  }

  /** A message is overtaken after its first frame by a more urgent one, and leaves whole after it. */
  lemma {:induction false} OvertakenRun(x: Message, y: Message, node: nat)
    returns (calls: seq<Call>, last: P.Pipeline)
    requires x.Valid() && y.Valid() && |x.Raw()| >= 2 && |y.Raw()| >= 2 && y.Msb() < x.Msb()
    ensures Ran(O.Initial(|x.Raw()| + |y.Raw()|, 1, node), calls, last, map[0 := x, 1 := y])
    ensures last.log == Emissions(0, 0, 1, x.Msb(), node) + Emissions(1, 0, |y.Raw()|, y.Msb(), node)
                        + Emissions(0, 1, |x.Raw()| - 1, x.Msb(), node)
  {
    hide P.Inv, Message.Raw, Message.Msb, Message.Valid, Ran;
    var first := O.Initial(|x.Raw()| + |y.Raw()|, 1, node);
    InitialIsEmpty(|x.Raw()| + |y.Raw()|, node);
    var queued := RanSends(first, [], first, map[], 0, 0, x);
    calls := [] + [Send(0, 0, x, [true])];
    var begun := RanDrains(first, calls, queued, map[][0 := x], 0, 0, 1);
    calls := calls + [Does(O.Eject(0, Takes(1)))];
    var both := RanSends(first, calls, begun, map[][0 := x], 0, 0, y);
    calls := calls + [Send(0, 0, y, [true])];
    var rest := RanDrains(first, calls, both, map[][0 := x][1 := y], 1, 0, |y.Raw()|);
    calls := calls + [Does(O.Eject(0, Takes(|y.Raw()|)))];
    last := RanDrains(first, calls, rest, map[][0 := x][1 := y], 0, 1, |x.Raw()| - 1);
    calls := calls + [Does(O.Eject(0, Takes(|x.Raw()| - 1)))];
    assert map[][0 := x][1 := y] == map[0 := x, 1 := y];
  }

  // ---------------------------------------------------------------- what the session hears of such a run

  function Frames(t: nat, from: nat, n: nat): (frames: seq<P.FrameId>)
    ensures |frames| == n && forall k :: 0 <= k < n ==> frames[k] == P.FrameId(t, from + k)
  {
    seq(n, k requires 0 <= k < n => P.FrameId(t, from + k))
  }

  lemma {:induction false} ClashReaches(x: Message, y: Message, r: Receiver, p: Prio, sent: map<nat, Message>)
    requires Clash(x, y, r, p) && r.Valid() && sent == map[0 := x, 1 := y]
    ensures forall k: nat :: k < |x.Raw()| ==> Reaches(sent, r, P.FrameId(0, k))
    ensures forall k: nat :: 0 < k < |y.Raw()| ==> Reaches(sent, r, P.FrameId(1, k))
    ensures !Reaches(sent, r, P.FrameId(1, 0))
  {
    hide Aliases, RoutedReading, WireId;
    forall k: nat | k < |x.Raw()| ensures Reaches(sent, r, P.FrameId(0, k)) {
      OwnReaches(sent, r, P.FrameId(0, k));
    }
    forall k: nat | k < |y.Raw()| ensures Reaches(sent, r, P.FrameId(1, k)) <==> k > 0 {
      OtherGeneration(p, r.address, y.address, r.me, r.node, y.crcSeed, y.content.mtu, y.content.tid, y.content.payload,
                      k);
    }
  }

  ghost predicate AllReach(sent: map<nat, Message>, r: Receiver, frames: seq<P.FrameId>) {
    forall f :: f in frames ==> Reaches(sent, r, f)
  }

  lemma HeardNext(log: seq<P.Emission>, e: P.Emission, sent: map<nat, Message>, r: Receiver)
    requires e.iface == 0 && e.node == r.node as nat
    ensures Heard(log + [e], sent, 0, r)
            == Heard(log, sent, 0, r) + if Reaches(sent, r, e.frame) then [e.frame] else []
  {
    assert (log + [e])[..|log + [e]| - 1] == log;
    hide Reaches;
  }

  /** Frames that all reach the session are all heard. */
  lemma {:induction false} HeardAll(
      log: seq<P.Emission>, sent: map<nat, Message>, r: Receiver, t: nat, from: nat, n: nat, msb: nat)
    requires AllReach(sent, r, Frames(t, from, n))
    ensures Heard(log + Emissions(t, from, n, msb, r.node as nat), sent, 0, r)
            == Heard(log, sent, 0, r) + Frames(t, from, n)
  {
    hide Reaches, Heard;
    var more := Emissions(t, from, n, msb, r.node as nat);
    if n == 0 {
      assert log + more == log;
    } else {
      var f := P.FrameId(t, from + n - 1);
      assert Frames(t, from, n) == Frames(t, from, n - 1) + [f];
      HeardAll(log, sent, r, t, from, n - 1, msb);
      var before, e := log + Emissions(t, from, n - 1, msb, r.node as nat), P.Emission(0, f, msb, r.node as nat, true);
      HeardNext(before, e, sent, r);
      assert log + more == before + [e];
    }
  }

  /** A first frame of the other generation is not. */
  lemma {:induction false} HeardRest(
      log: seq<P.Emission>, sent: map<nat, Message>, r: Receiver, t: nat, n: nat, msb: nat)
    requires n > 0 && !Reaches(sent, r, P.FrameId(t, 0)) && AllReach(sent, r, Frames(t, 1, n - 1))
    ensures Heard(log + Emissions(t, 0, n, msb, r.node as nat), sent, 0, r)
            == Heard(log, sent, 0, r) + Frames(t, 1, n - 1)
  {
    hide Reaches, Heard, AllReach;
    var e := P.Emission(0, P.FrameId(t, 0), msb, r.node as nat, true);
    HeardNext(log, e, sent, r);
    HeardAll(log + [e], sent, r, t, 1, n - 1, msb);
    assert log + [e] + Emissions(t, 1, n - 1, msb, r.node as nat) == log + Emissions(t, 0, n, msb, r.node as nat);
  }

  /** The arrival of a frame, at time 0. */
  ghost function Arrival(sent: map<nat, Message>, r: Receiver, f: P.FrameId): (e: Event)
    requires Reaches(sent, r, f)
    ensures Reads(sent, r, f, e) && e.ts == 0
  {
    var m := sent[f.t];
    Event(0, Reading(Parse(WireId(m.priority, m.address, r.node), m.Raw()[f.k]), r.address.IsV1()).value)
  }

  ghost function Arrive(sent: map<nat, Message>, r: Receiver, heard: seq<P.FrameId>): (events: seq<Event>)
    requires AllReach(sent, r, heard)
    ensures |events| == |heard|
  {
    seq(|heard|, j requires 0 <= j < |heard| =>
      assert heard[j] in heard;
      Arrival(sent, r, heard[j]))
  }

  lemma {:induction false} ArriveHears(sent: map<nat, Message>, r: Receiver, heard: seq<P.FrameId>)
    requires AllReach(sent, r, heard)
    ensures Hears(sent, r, heard, Arrive(sent, r, heard))
    ensures forall j :: 0 <= j < |heard| ==> Arrive(sent, r, heard)[j].ts == 0
  {
    hide Reads, Reaches, Ingestible;
    forall j | 0 <= j < |heard|
      ensures Reads(sent, r, heard[j], Arrive(sent, r, heard)[j]) && Arrive(sent, r, heard)[j].ts == 0
    {
      assert heard[j] in heard;
      assert Arrive(sent, r, heard)[j] == Arrival(sent, r, heard[j]);
    }
  }

  // ---------------------------------------------------------------- what the session makes of it

  /** The slot takes the frame k of the message for its next one. */
  ghost predicate Expects(lane: Accepted, iface: nat, m: Message, k: nat) {
    && lane.slot.Some? && lane.slot.value.iface == iface && lane.slot.value.tid == m.content.tid
    && lane.slot.value.toggle == (m.address.IsV1() == (k % 2 == 0))
  }

  /** In a message of the other generation the toggles are the other way round. */
  lemma ExpectsOther(lane: Accepted, iface: nat, x: Message, y: Message, k: nat)
    requires Expects(lane, iface, x, k) && x.content.tid == y.content.tid && x.address.IsV1() != y.address.IsV1()
    ensures Expects(lane, iface, y, k + 1) && (k > 0 ==> Expects(lane, iface, y, k - 1))
  {
  }

  lemma {:induction false} FirstStep(
      sub: Subscription, iface: nat, lane: Accepted, e: Event, sent: map<nat, Message>, f: P.FrameId)
    requires (lane.slot.Some? ==> ValidSlot(sub, lane.slot.value)) && Places(sent, f, e.frame) && WellFormed(e.frame)
    requires f.k == 0 && |sent[f.t].Raw()| > 1 && sub.kind.IsV1() == sent[f.t].address.IsV1()
    ensures var next := LaneStep(sub, iface, lane, e);
            && Expects(next, iface, sent[f.t], 1) && next.out == lane.out
            && next.slot.value.total < sent[f.t].content.mtu
  {
    hide Message.Raw, Message.Valid, CompleteSlot, Overlay, WellFormed;
  }

  lemma CompleteIsShort(sub: Subscription, slot: Slot, fr: Parsed)
    requires slot.total >= 2 && |slot.buffer| == sub.BufferSize()
    ensures var o := CompleteSlot(sub, slot, fr); o.Delivered? ==> |o.payload| <= slot.total - 2
  {
    hide LittleEndian16;
  }

  /** An expected frame is taken in, and the last one ends the transfer of the slot. */
  lemma {:induction false} ExpectedStep(
      sub: Subscription, iface: nat, lane: Accepted, e: Event, sent: map<nat, Message>, f: P.FrameId)
    requires (lane.slot.Some? ==> ValidSlot(sub, lane.slot.value)) && Places(sent, f, e.frame) && WellFormed(e.frame)
    requires f.k > 0 && Expects(lane, iface, sent[f.t], f.k)
    ensures var next := LaneStep(sub, iface, lane, e);
            if f.k + 1 < |sent[f.t].Raw()| then Expects(next, iface, sent[f.t], f.k + 1) && next.out == lane.out
            else
              && next.slot == None && |next.out| == |lane.out| + 1
              && var o := next.out[|lane.out|];
                 o.Delivered? ==> |o.payload| < lane.slot.value.total + sent[f.t].content.mtu - 2
  {
    hide Message.Raw, Message.Valid, CompleteSlot, Overlay, WellFormed, Crc16.Add;
    var advanced := Advance(lane.slot.value, e.frame.payload);
    CompleteIsShort(sub, advanced.(crc := Crc16.Add(advanced.crc, CrcInput(sub, e.frame))), e.frame);
  }

  /** A frame in the middle of a message is refused by a slot that expects another toggle, or that is not there. */
  lemma {:induction false} RefusedStep(
      sub: Subscription, iface: nat, lane: Accepted, e: Event, sent: map<nat, Message>, f: P.FrameId)
    requires (lane.slot.Some? ==> ValidSlot(sub, lane.slot.value)) && Places(sent, f, e.frame) && WellFormed(e.frame)
    requires f.k > 0 && (lane.slot == None || Expects(lane, iface, sent[f.t], f.k + 1))
    ensures LaneStep(sub, iface, lane, e) == lane
  {
    hide Message.Raw, Message.Valid, Accept, WellFormed;
  }

  /** The lane of a session after the frames. */
  ghost function After(sub: Subscription, iface: nat, sent: map<nat, Message>, r: Receiver, heard: seq<P.FrameId>): (
      lane: Accepted)
    requires AllReach(sent, r, heard)
    ensures lane.slot.Some? ==> ValidSlot(sub, lane.slot.value)
  {
    ArriveHears(sent, r, heard);
    LaneRun(sub, iface, Arrive(sent, r, heard))
  }

  lemma AllReachSnoc(sent: map<nat, Message>, r: Receiver, heard: seq<P.FrameId>, f: P.FrameId)
    requires AllReach(sent, r, heard) && Reaches(sent, r, f)
    ensures AllReach(sent, r, heard + [f])
  {
    hide Reaches;
  }

  lemma AllReachRest(sent: map<nat, Message>, r: Receiver, t: nat, k: nat, n: nat)
    requires AllReach(sent, r, Frames(t, k, n)) && n > 0
    ensures Frames(t, k, n) == [P.FrameId(t, k)] + Frames(t, k + 1, n - 1)
    ensures Reaches(sent, r, P.FrameId(t, k)) && AllReach(sent, r, Frames(t, k + 1, n - 1))
  {
    hide Reaches;
    assert Frames(t, k, n) == [P.FrameId(t, k)] + Frames(t, k + 1, n - 1);
    assert P.FrameId(t, k) in Frames(t, k, n);
  }

  lemma {:induction false} AfterNext(
      sub: Subscription, iface: nat, sent: map<nat, Message>, r: Receiver, heard: seq<P.FrameId>, f: P.FrameId)
    requires AllReach(sent, r, heard) && Reaches(sent, r, f)
    ensures AllReach(sent, r, heard + [f])
    ensures var e := Arrival(sent, r, f);
            && Places(sent, f, e.frame) && WellFormed(e.frame)
            && After(sub, iface, sent, r, heard + [f]) == LaneStep(sub, iface, After(sub, iface, sent, r, heard), e)
  {
    hide Reads, Reaches, Places, WellFormed, LaneStep, LaneRun, Arrival, AllReach, Ingestible;
    var e := Arrival(sent, r, f);
    ReadPlace(sent, r, f, e);
    AllReachSnoc(sent, r, heard, f);
    ArriveHears(sent, r, heard);
    assert Arrive(sent, r, heard + [f]) == Arrive(sent, r, heard) + [e];
    LaneRunSnoc(sub, iface, Arrive(sent, r, heard), e);
  }

  /** The rest of an expected message ends in one outcome. */
  lemma {:induction false} RestCompletes(
      sub: Subscription, iface: nat, sent: map<nat, Message>, r: Receiver, heard: seq<P.FrameId>, t: nat, k: nat,
      n: nat)
    requires AllReach(sent, r, heard) && AllReach(sent, r, Frames(t, k, n)) && t in sent && sent[t].Valid()
    requires 0 < k && 0 < n && k + n == |sent[t].Raw()|
    requires Expects(After(sub, iface, sent, r, heard), iface, sent[t], k)
    ensures AllReach(sent, r, heard + Frames(t, k, n))
    ensures var was, lane := After(sub, iface, sent, r, heard), After(sub, iface, sent, r, heard + Frames(t, k, n));
            lane.slot == None && |lane.out| == |was.out| + 1
    decreases n
  {
    hide Reaches, After, LaneStep, Message.Raw, Message.Valid, Expects, Places, WellFormed, Arrival;
    var f := P.FrameId(t, k);
    AllReachRest(sent, r, t, k, n);
    AfterNext(sub, iface, sent, r, heard, f);
    ExpectedStep(sub, iface, After(sub, iface, sent, r, heard), Arrival(sent, r, f), sent, f);
    assert heard + Frames(t, k, n) == heard + [f] + Frames(t, k + 1, n - 1);
    if n > 1 {
      RestCompletes(sub, iface, sent, r, heard + [f], t, k + 1, n - 1);
    } else {
      assert heard + [f] + Frames(t, k + 1, n - 1) == heard + [f];
    }
  }

  /** Without its first frame a message leaves no trace. */
  lemma {:induction false} RestRefused(
      sub: Subscription, iface: nat, sent: map<nat, Message>, r: Receiver, heard: seq<P.FrameId>, t: nat, k: nat,
      n: nat)
    requires AllReach(sent, r, heard) && AllReach(sent, r, Frames(t, k, n)) && t in sent && 0 < k
    requires After(sub, iface, sent, r, heard).slot == None
    ensures AllReach(sent, r, heard + Frames(t, k, n))
    ensures After(sub, iface, sent, r, heard + Frames(t, k, n)) == After(sub, iface, sent, r, heard)
    decreases n
  {
    hide Reaches, After, LaneStep, Expects, Places, WellFormed, Arrival;
    if n == 0 {
      assert heard + Frames(t, k, n) == heard;
    } else {
      var f := P.FrameId(t, k);
      AllReachRest(sent, r, t, k, n);
      AfterNext(sub, iface, sent, r, heard, f);
      RefusedStep(sub, iface, After(sub, iface, sent, r, heard), Arrival(sent, r, f), sent, f);
      RestRefused(sub, iface, sent, r, heard + [f], t, k + 1, n - 1);
      assert heard + Frames(t, k, n) == heard + [f] + Frames(t, k + 1, n - 1);
    }
  }

  /** What all frames that reach a session at one priority and at once amount to. */
  lemma {:induction false} SceneOutcome(
      sub: Subscription, iface: nat, sent: map<nat, Message>, r: Receiver, p: Prio, heard: seq<P.FrameId>)
    requires sub.Valid() && AllReach(sent, r, heard)
    requires forall j :: 0 <= j < |heard| ==>
                           heard[j].t in sent && sent[heard[j].t].priority == p && (heard[j].k == 0 ==> j == 0)
    ensures var events := Arrive(sent, r, heard);
            && Hears(sent, r, heard, events) && NovelStarts(events) && Timely(sub, iface, events)
            && OutcomesAt(Run(sub, iface, events).out, p) == After(sub, iface, sent, r, heard).out
  {
    hide Reads, Reaches, Run, LaneRun, NovelStarts, Timely, WellFormed, Arrival, Ingestible;
    var events := Arrive(sent, r, heard);
    ArriveHears(sent, r, heard);
    forall j | 0 <= j < |heard|
      ensures events[j].frame.priority == p && (events[j].frame.start ==> j == 0)
    {
      assert Reads(sent, r, heard[j], events[j]);
      ReadPlace(sent, r, heard[j], events[j]);
    }
    forall q: Prio ensures Starts(events, q) <= 1 {
      OnlyFirstStarts(events, q);
    }
    SingleStartsAreNovel(events);
    EmptyLaneTimely(sub, iface, events);
    ProjectAll(events, p);
    LanesAreIndependent(sub, iface, events, p);
  }

  lemma ClashShape(x: Message, y: Message, r: Receiver, p: Prio)
    requires Clash(x, y, r, p)
    ensures x.Valid() && y.Valid() && |x.Raw()| > 1 && |y.Raw()| > 1 && |x.Raw()| + |y.Raw()| > 4
    ensures x.priority == p && y.priority == p && x.address == r.address && x.content.tid == y.content.tid
    ensures x.address.IsV1() != y.address.IsV1()
  {
    hide Message.Raw, Message.Valid, Aliases;
  }

  // ---------------------------------------------------------------- an interrupted message

  /** The slot of an interrupted message is completed by frames of the other generation. */
  lemma {:induction false} InterruptedOutcome(
      sub: Subscription, iface: nat, x: Message, y: Message, r: Receiver, p: Prio, n: nat)
    requires Serves(sub, r.From(p)) && r.Valid() && Clash(x, y, r, p)
    requires n == if |y.Raw()| > 2 then 1 else 2
    ensures var sent, heard := map[0 := x, 1 := y], Frames(0, 0, n) + Frames(1, 1, |y.Raw()| - 1);
            AllReach(sent, r, heard) && |After(sub, iface, sent, r, heard).out| == 1
  {
    hide Reaches, After, LaneStep, Message.Raw, Message.Valid, Expects, Places, WellFormed, Arrival, Serves, Aliases,
      Receiver.Valid;
    var sent := map[0 := x, 1 := y];
    ClashReaches(x, y, r, p, sent);
    ServesGeneration(sub, r, p);
    var begun := Begins(sub, iface, sent, r);
    if |y.Raw()| > 2 {
      ExpectsOther(begun, iface, x, y, 1);
      var f := P.FrameId(1, 1);
      AfterNext(sub, iface, sent, r, Frames(0, 0, 1), f);
      RefusedStep(sub, iface, begun, Arrival(sent, r, f), sent, f);
      RestCompletes(sub, iface, sent, r, Frames(0, 0, 1) + [f], 1, 2, |y.Raw()| - 2);
      assert Frames(0, 0, 1) + Frames(1, 1, |y.Raw()| - 1) == Frames(0, 0, 1) + [f] + Frames(1, 2, |y.Raw()| - 2);
    } else {
      var f := P.FrameId(0, 1);
      AfterNext(sub, iface, sent, r, Frames(0, 0, 1), f);
      ExpectedStep(sub, iface, begun, Arrival(sent, r, f), sent, f);
      assert Frames(0, 0, 2) == Frames(0, 0, 1) + [f];
      ExpectsOther(After(sub, iface, sent, r, Frames(0, 0, 2)), iface, x, y, 2);
      RestCompletes(sub, iface, sent, r, Frames(0, 0, 2), 1, 1, |y.Raw()| - 1);
    }
  }

  lemma ServesGeneration(sub: Subscription, r: Receiver, p: Prio)
    requires Serves(sub, r.From(p)) && r.Valid()
    ensures sub.Valid() && sub.kind.IsV1() == r.address.IsV1()
  {
    Destinations(r.address);
  }

  /** The first frame of a longer message opens the slot. */
  lemma {:induction false} Begins(sub: Subscription, iface: nat, sent: map<nat, Message>, r: Receiver)
    returns (lane: Accepted)
    requires 0 in sent && sent[0].Valid() && |sent[0].Raw()| > 1 && Reaches(sent, r, P.FrameId(0, 0))
    requires sub.kind.IsV1() == sent[0].address.IsV1()
    ensures AllReach(sent, r, Frames(0, 0, 1)) && lane == After(sub, iface, sent, r, Frames(0, 0, 1))
    ensures Expects(lane, iface, sent[0], 1) && lane.out == [] && lane.slot.value.total < sent[0].content.mtu
  {
    hide Reaches, LaneStep, Message.Raw, Message.Valid, Expects, Places, WellFormed, Arrival;
    var f := P.FrameId(0, 0);
    assert Frames(0, 0, 1) == [] + [f];
    assert Arrive(sent, r, []) == [];
    AfterNext(sub, iface, sent, r, [], f);
    FirstStep(sub, iface, After(sub, iface, sent, r, []), Arrival(sent, r, f), sent, f);
    lane := After(sub, iface, sent, r, Frames(0, 0, 1));
  }

  /** No frame of the lane is the last one of its message. */
  ghost predicate NoneEnds(lane: seq<P.FrameId>, sent: map<nat, Message>) {
    forall f :: f in lane ==> f.t in sent && sent[f.t].Valid() && f.k < |sent[f.t].Raw()| - 1
  }

  lemma InterruptedFrames(n: nat, m: nat, a: nat, b: nat, node: nat)
    ensures var log := Emissions(0, 0, n, a, node) + Emissions(1, 0, m, b, node);
            forall c :: 0 <= c < |log| ==> log[c].frame == if c < n then P.FrameId(0, c) else P.FrameId(1, c - n)
  {
  }

  /** What of it was sent to the address ends no message. */
  lemma {:induction false} InterruptedLane(
      log: seq<P.Emission>, x: Message, y: Message, r: Receiver, p: Prio, n: nat, m: nat, a: nat, b: nat)
    requires Clash(x, y, r, p) && n < |x.Raw()|
    requires log == Emissions(0, 0, n, a, r.node as nat) + Emissions(1, 0, m, b, r.node as nat)
    ensures NoneEnds(LaneOf(log, map[0 := x, 1 := y], 0, r.node, r.address, p), map[0 := x, 1 := y])
  {
    hide Aliases, Message.Raw, Message.Valid;
    var sent := map[0 := x, 1 := y];
    var lane := LaneOf(log, sent, 0, r.node, r.address, p);
    InterruptedFrames(n, m, a, b, r.node as nat);
    forall j | 0 <= j < |lane| ensures lane[j].t == 0 && x.Valid() && lane[j].k < n {
      LaneMember(log, sent, 0, r.node, r.address, p, j);
      var c :| 0 <= c < |log| && log[c].frame == lane[j] && In(log[c], sent, 0, r.node, r.address, p);
    }
  }

  /** A run of a node's queue, and what arrived of it at a session. */
  datatype Scene = Scene(
    capacity: nat, ifaces: nat, node: nat, calls: seq<Call>, last: P.Pipeline, sent: map<nat, Message>,
    i: nat, iface: nat, events: seq<Event>)

  ghost predicate Happens(s: Scene, r: Receiver, sub: Subscription) {
    && Ran(O.Initial(s.capacity, s.ifaces, s.node), s.calls, s.last, s.sent)
    && Hears(s.sent, r, Heard(s.last.log, s.sent, s.i, r), s.events)
    && NovelStarts(s.events) && Timely(sub, s.iface, s.events)
  }

  /** The application sees something else than the messages that left whole. */
  ghost predicate Garbled(s: Scene, r: Receiver, p: Prio, sub: Subscription) {
    Happens(s, r, sub) && !Intact(s.last.log, s.sent, s.i, r, p, sub, s.iface, s.events)
  }

  /** Whatever of these messages a node publishes, and however they leave, what leaves whole is delivered. */
  ghost predicate AlwaysIntact(messages: set<Message>, r: Receiver, p: Prio, sub: Subscription) {
    forall s: Scene :: s.sent.Values <= messages ==> !Garbled(s, r, p, sub)
  }

  lemma {:induction false} NoEndNothing(
      sub: Subscription, o: Origin, sent: map<nat, Message>, lane: seq<P.FrameId>, events: seq<Event>)
    requires |lane| == |events| && forall j :: 0 <= j < |lane| ==> lane[j].t in sent && sent[lane[j].t].Valid()
    requires forall j :: 0 <= j < |lane| ==> lane[j].k < |sent[lane[j].t].Raw()| - 1
    ensures Deliveries(sub, o, sent, lane, events) == []
  {
    hide Message.Raw, Message.Valid, Clip;
    NoEndNoDelivery(sub, o, sent, lane, events, 0);
  }

  /** With no message whole, an outcome is one too many. */
  lemma {:induction false} NothingWhole(
      log: seq<P.Emission>, sent: map<nat, Message>, i: nat, r: Receiver, p: Prio,
      sub: Subscription, iface: nat, events: seq<Event>)
    requires Hears(sent, r, Heard(log, sent, i, r), events)
    requires NoneEnds(LaneOf(log, sent, i, r.node, r.address, p), sent)
    requires |OutcomesAt(Run(sub, iface, events).out, p)| > 0
    ensures !Intact(log, sent, i, r, p, sub, iface, events)
  {
    hide Message.Raw, Message.Valid, Clip, Hears, Heard, LaneOf, Arrivals, Run, OutcomesAt, Consecutive, Rising,
      Deliveries;
    var lane, arrivals := LaneOf(log, sent, i, r.node, r.address, p), Arrivals(log, sent, i, r, p, events);
    if |lane| == |arrivals| {
      NoEndNothing(sub, r.From(p), sent, lane, arrivals);
    }
  }

  lemma {:induction false} InterruptedHeard(
      log: seq<P.Emission>, x: Message, y: Message, r: Receiver, p: Prio, n: nat)
    requires Clash(x, y, r, p) && r.Valid() && n < |x.Raw()|
    requires log == Emissions(0, 0, n, x.Msb(), r.node as nat) + Emissions(1, 0, |y.Raw()|, y.Msb(), r.node as nat)
    ensures Heard(log, map[0 := x, 1 := y], 0, r) == Frames(0, 0, n) + Frames(1, 1, |y.Raw()| - 1)
  {
    hide Reaches, Heard, Message.Raw, Message.Valid, Message.Msb, Receiver.Valid, Aliases;
    var sent, first := map[0 := x, 1 := y], Emissions(0, 0, n, x.Msb(), r.node as nat);
    ClashReaches(x, y, r, p, sent);
    HeardNone(sent, r);
    HeardAll([], sent, r, 0, 0, n, x.Msb());
    assert [] + first == first && [] + Frames(0, 0, n) == Frames(0, 0, n);
    HeardRest(first, sent, r, 1, |y.Raw()|, y.Msb());
  }

  lemma HeardNone(sent: map<nat, Message>, r: Receiver)
    ensures Heard([], sent, 0, r) == []
  {
  }

  lemma GarbledScene(s: Scene, r: Receiver, p: Prio, sub: Subscription)
    requires Ran(O.Initial(s.capacity, s.ifaces, s.node), s.calls, s.last, s.sent)
    requires Hears(s.sent, r, Heard(s.last.log, s.sent, s.i, r), s.events)
    requires NovelStarts(s.events) && Timely(sub, s.iface, s.events)
    requires !Intact(s.last.log, s.sent, s.i, r, p, sub, s.iface, s.events)
    ensures Garbled(s, r, p, sub)
  {
    hide Ran, Heard, Hears, NovelStarts, Timely, Intact;
  }

  /** Frames that come first are the only first ones, and all are of one priority. */
  ghost predicate OneStart(heard: seq<P.FrameId>, sent: map<nat, Message>, p: Prio) {
    forall j :: 0 <= j < |heard| ==>
                  heard[j].t in sent && sent[heard[j].t].priority == p && (heard[j].k == 0 ==> j == 0)
  }

  /** A run that lets no message out whole, and something to be seen of it. */
  lemma {:induction false} TooMuchIsSeen(s: Scene, r: Receiver, p: Prio, sub: Subscription, heard: seq<P.FrameId>)
    requires sub.Valid() && Ran(O.Initial(s.capacity, s.ifaces, s.node), s.calls, s.last, s.sent)
    requires Heard(s.last.log, s.sent, s.i, r) == heard && AllReach(s.sent, r, heard) && OneStart(heard, s.sent, p)
    requires s.events == Arrive(s.sent, r, heard)
    requires NoneEnds(LaneOf(s.last.log, s.sent, s.i, r.node, r.address, p), s.sent)
    requires |After(sub, s.iface, s.sent, r, heard).out| > 0
    ensures Garbled(s, r, p, sub)
  {
    hide Reaches, After, Heard, Hears, Ran, Run, NovelStarts, Timely, Arrive, LaneOf, AllReach, Intact, OutcomesAt,
      NoneEnds, Garbled;
    SceneOutcome(sub, s.iface, s.sent, r, p, heard);
    NothingWhole(s.last.log, s.sent, s.i, r, p, sub, s.iface, s.events);
    GarbledScene(s, r, p, sub);
  }

  lemma InterruptedOrder(n: nat, m: nat, x: Message, y: Message, p: Prio)
    requires x.priority == p && y.priority == p
    ensures OneStart(Frames(0, 0, n) + Frames(1, 1, m), map[0 := x, 1 := y], p)
  {
  }

  /** The run in which x is interrupted, and what the receiver hears of it. */
  lemma {:induction false} InterruptedBus(x: Message, y: Message, r: Receiver, p: Prio, n: nat)
    returns (calls: seq<Call>, last: P.Pipeline)
    requires r.Valid() && Clash(x, y, r, p) && 1 <= n < |x.Raw()|
    ensures Ran(O.Initial(|x.Raw()| + |y.Raw()|, 1, r.node as nat), calls, last, map[0 := x, 1 := y])
    ensures Heard(last.log, map[0 := x, 1 := y], 0, r) == Frames(0, 0, n) + Frames(1, 1, |y.Raw()| - 1)
    ensures NoneEnds(LaneOf(last.log, map[0 := x, 1 := y], 0, r.node, r.address, p), map[0 := x, 1 := y])
  {
    hide Heard, Message.Raw, Message.Valid, Message.Msb, Receiver.Valid, Clash, Ran, LaneOf, NoneEnds, Frames,
      Emissions;
    ClashShape(x, y, r, p);
    calls, last := InterruptedRun(x, y, r.node as nat, n);
    InterruptedHeard(last.log, x, y, r, p, n);
    InterruptedLane(last.log, x, y, r, p, n, |y.Raw()|, x.Msb(), y.Msb());
  }

  /** Of two messages that clash, the session completes the one with the frames of the other in some run. */
  lemma {:induction false} ClashGarbles(x: Message, y: Message, r: Receiver, p: Prio, sub: Subscription)
    returns (s: Scene)
    requires Serves(sub, r.From(p)) && r.Valid() && Clash(x, y, r, p)
    ensures s.sent == map[0 := x, 1 := y] && Garbled(s, r, p, sub)
  {
    hide Heard, Message.Raw, Message.Valid, Receiver.Valid, Clash, Serves, Ran, LaneOf, NoneEnds, Frames, Garbled,
      OneStart, AllReach, After, Arrive, O.Initial, P.Inv;
    ClashShape(x, y, r, p);
    var n, m := if |y.Raw()| > 2 then 1 else 2, |y.Raw()| - 1;
    var calls, last := InterruptedBus(x, y, r, p, n);
    InterruptedOutcome(sub, 0, x, y, r, p, n);
    InterruptedOrder(n, m, x, y, p);
    ServesGeneration(sub, r, p);
    var sent, heard := map[0 := x, 1 := y], Frames(0, 0, n) + Frames(1, 1, m);
    s := Scene(|x.Raw()| + |y.Raw()|, 1, r.node as nat, calls, last, sent, 0, 0, Arrive(sent, r, heard));
    TooMuchIsSeen(s, r, p, sub, heard);
  }

  /** Messages are always delivered when they leave whole exactly if no two of them clash. */
  lemma {:induction false} IntactIffClashFree(messages: set<Message>, r: Receiver, p: Prio, sub: Subscription)
    requires Serves(sub, r.From(p)) && r.Valid()
    requires forall m :: m in messages && m.address == r.address ==> m.crcSeed == sub.crcSeed
    ensures AlwaysIntact(messages, r, p, sub) <==> ClashFree(messages, r, p)
  {
    hide Clash, Serves, Receiver.Valid, Ran, Heard, Hears, NovelStarts, Timely, Intact;
    if ClashFree(messages, r, p) {
      forall s: Scene | s.sent.Values <= messages && Happens(s, r, sub) ensures !Garbled(s, r, p, sub) {
        assert forall t :: t in s.sent ==> s.sent[t] in s.sent.Values;
        WhatLeftWholeIsDelivered(s.capacity, s.ifaces, s.node, s.calls, s.last, s.sent, s.i, r, p, sub, s.iface,
                                 s.events);
      }
    } else {
      var x, y :| x in messages && y in messages && Clash(x, y, r, p);
      var s := ClashGarbles(x, y, r, p, sub);
      assert s.sent.Values <= messages;
    }
  }

  // ---------------------------------------------------------------- a message that leaves whole and is lost

  lemma {:induction false} OvertakenHeard(
      log: seq<P.Emission>, x: Message, y: Message, r: Receiver, p: Prio)
    requires Clash(x, y, r, p) && r.Valid()
    requires log == Emissions(0, 0, 1, x.Msb(), r.node as nat) + Emissions(1, 0, |y.Raw()|, y.Msb(), r.node as nat)
                    + Emissions(0, 1, |x.Raw()| - 1, x.Msb(), r.node as nat)
    ensures Heard(log, map[0 := x, 1 := y], 0, r)
            == Frames(0, 0, 1) + Frames(1, 1, |y.Raw()| - 1) + Frames(0, 1, |x.Raw()| - 1)
  {
    hide Reaches, Heard, Clash, Message.Raw, Message.Valid, Message.Msb, Receiver.Valid, Aliases;
    ClashShape(x, y, r, p);
    var sent, first := map[0 := x, 1 := y], Emissions(0, 0, 1, x.Msb(), r.node as nat);
    var head := first + Emissions(1, 0, |y.Raw()|, y.Msb(), r.node as nat);
    ClashReaches(x, y, r, p, sent);
    InterruptedHeard(head, x, y, r, p, 1);
    HeardAll(head, sent, r, 0, 1, |x.Raw()| - 1, x.Msb());
  }

  /** Of a legacy message of three frames the last one completes the slot, and the rest of the message is refused. */
  lemma {:induction false} OvertakenOutcome(
      sub: Subscription, iface: nat, x: Message, y: Message, r: Receiver, p: Prio)
    requires Serves(sub, r.From(p)) && r.Valid() && Clash(x, y, r, p) && |y.Raw()| == 3
    ensures var sent, heard := map[0 := x, 1 := y], Frames(0, 0, 1) + Frames(1, 1, 2) + Frames(0, 1, |x.Raw()| - 1);
            && AllReach(sent, r, heard)
            && var out := After(sub, iface, sent, r, heard).out;
               |out| == 1 && (out[0].Delivered? ==> |out[0].payload| <= x.content.mtu + y.content.mtu - 4)
  {
    hide Reaches, After, LaneStep, Message.Raw, Message.Valid, Expects, Places, WellFormed, Arrival, Serves, Clash,
      Receiver.Valid;
    var sent := map[0 := x, 1 := y];
    ClashShape(x, y, r, p);
    ClashReaches(x, y, r, p, sent);
    ServesGeneration(sub, r, p);
    var begun := Begins(sub, iface, sent, r);
    var f, g := P.FrameId(1, 1), P.FrameId(1, 2);
    ExpectsOther(begun, iface, x, y, 1);
    AfterNext(sub, iface, sent, r, Frames(0, 0, 1), f);
    RefusedStep(sub, iface, begun, Arrival(sent, r, f), sent, f);
    AfterNext(sub, iface, sent, r, Frames(0, 0, 1) + [f], g);
    ExpectedStep(sub, iface, begun, Arrival(sent, r, g), sent, g);
    var heard := Frames(0, 0, 1) + [f] + [g];
    assert Frames(0, 0, 1) + Frames(1, 1, 2) == heard;
    RestRefused(sub, iface, sent, r, heard, 0, 1, |x.Raw()| - 1);
  }

  /** The last frame of x ends its lane. */
  lemma {:induction false} OvertakenLane(
      log: seq<P.Emission>, before: seq<P.Emission>, x: Message, y: Message, r: Receiver, p: Prio, n: nat, msb: nat)
    requires log == before + Emissions(0, 1, n, msb, r.node as nat) && n > 0
    requires x.address == r.address && x.priority == p
    ensures P.FrameId(0, n) in LaneOf(log, map[0 := x, 1 := y], 0, r.node, r.address, p)
  {
    assert log[|log| - 1] == P.Emission(0, P.FrameId(0, n), msb, r.node as nat, true);
    assert In(log[|log| - 1], map[0 := x, 1 := y], 0, r.node, r.address, p);
    hide In;
  }

  /** The message has left whole, and nothing the application sees has its payload. */
  ghost predicate Lost(s: Scene, r: Receiver, p: Prio, sub: Subscription, t: nat) {
    && Happens(s, r, sub) && t in s.sent && s.sent[t].Valid()
    && (forall k: nat :: k < |s.sent[t].Raw()| ==>
                           P.FrameId(t, k) in LaneOf(s.last.log, s.sent, s.i, r.node, r.address, p))
    && var out := OutcomesAt(Run(sub, s.iface, s.events).out, p);
       forall o :: o in out && o.Delivered? ==> o.payload != Clip(sub, s.sent[t].content)
  }

  lemma OvertakenOrder(n: nat, m: nat, x: Message, y: Message, p: Prio)
    requires x.priority == p && y.priority == p
    ensures OneStart(Frames(0, 0, 1) + Frames(1, 1, m) + Frames(0, 1, n), map[0 := x, 1 := y], p)
  {
  }

  /** The run in which x is overtaken, and what the receiver hears of it. */
  lemma {:induction false} OvertakenBus(x: Message, y: Message, r: Receiver, p: Prio)
    returns (calls: seq<Call>, last: P.Pipeline)
    requires r.Valid() && Clash(x, y, r, p) && y.Msb() < x.Msb()
    ensures Ran(O.Initial(|x.Raw()| + |y.Raw()|, 1, r.node as nat), calls, last, map[0 := x, 1 := y])
    ensures Heard(last.log, map[0 := x, 1 := y], 0, r)
            == Frames(0, 0, 1) + Frames(1, 1, |y.Raw()| - 1) + Frames(0, 1, |x.Raw()| - 1)
    ensures forall k: nat :: k < |x.Raw()| ==>
                               P.FrameId(0, k) in LaneOf(last.log, map[0 := x, 1 := y], 0, r.node, r.address, p)
  {
    hide Heard, Message.Raw, Message.Valid, Message.Msb, Receiver.Valid, Clash, Ran, LaneOf, Frames, Emissions,
      O.Initial, Consecutive, Rising, Belongs, Sound;
    ClashShape(x, y, r, p);
    var sent, n := map[0 := x, 1 := y], |x.Raw()| - 1;
    calls, last := OvertakenRun(x, y, r.node as nat);
    OvertakenHeard(last.log, x, y, r, p);
    var before := Emissions(0, 0, 1, x.Msb(), r.node as nat) + Emissions(1, 0, |y.Raw()|, y.Msb(), r.node as nat);
    OvertakenLane(last.log, before, x, y, r, p, n, x.Msb());
    RanIsSound(|x.Raw()| + |y.Raw()|, 1, r.node as nat, calls, last, sent);
    LaneIsChains(last.log, sent, 0, r.node, r.address, p);
    EndsIffWhole(LaneOf(last.log, sent, 0, r.node, r.address, p), 0, |x.Raw()|);
  }

  lemma {:induction false} LostBy(s: Scene, r: Receiver, p: Prio, sub: Subscription, t: nat, heard: seq<P.FrameId>)
    requires sub.Valid() && Ran(O.Initial(s.capacity, s.ifaces, s.node), s.calls, s.last, s.sent)
    requires Heard(s.last.log, s.sent, s.i, r) == heard && AllReach(s.sent, r, heard) && OneStart(heard, s.sent, p)
    requires s.events == Arrive(s.sent, r, heard) && t in s.sent && s.sent[t].Valid()
    requires forall k: nat :: k < |s.sent[t].Raw()| ==>
                                P.FrameId(t, k) in LaneOf(s.last.log, s.sent, s.i, r.node, r.address, p)
    requires var out := After(sub, s.iface, s.sent, r, heard).out;
             |out| == 1 && (out[0].Delivered? ==> |out[0].payload| < |Clip(sub, s.sent[t].content)|)
    ensures Lost(s, r, p, sub, t)
  {
    hide Reaches, After, Heard, Hears, Ran, Run, NovelStarts, Timely, Arrive, LaneOf, AllReach, OutcomesAt, O.Initial,
      Clip, Message.Raw;
    SceneOutcome(sub, s.iface, s.sent, r, p, heard);
  }

  lemma ClipLength(sub: Subscription, t: CanRoundTrip.Transfer, bound: nat)
    requires |t.payload| > bound && sub.extent > bound
    ensures |Clip(sub, t)| > bound
  {
  }

  /**
   * A message of the other generation that goes first on the bus, and has three frames, takes the slot of a longer
   * message with it: all frames of that leave, and it is not delivered.
   */
  lemma {:induction false} MessageIsLost(x: Message, y: Message, r: Receiver, p: Prio, sub: Subscription)
    returns (s: Scene)
    requires Serves(sub, r.From(p)) && r.Valid() && Clash(x, y, r, p) && |y.Raw()| == 3 && y.Msb() < x.Msb()
    requires |x.content.payload| > x.content.mtu + y.content.mtu - 4 && sub.extent > x.content.mtu + y.content.mtu - 4
    ensures s.sent == map[0 := x, 1 := y] && Lost(s, r, p, sub, 0)
  {
    hide Heard, Message.Raw, Message.Valid, Message.Msb, Receiver.Valid, Clash, Serves, Ran, LaneOf, Frames, Lost,
      OneStart, AllReach, After, Arrive, O.Initial, Clip;
    ClashShape(x, y, r, p);
    var calls, last := OvertakenBus(x, y, r, p);
    OvertakenOutcome(sub, 0, x, y, r, p);
    OvertakenOrder(|x.Raw()| - 1, 2, x, y, p);
    ServesGeneration(sub, r, p);
    ClipLength(sub, x.content, x.content.mtu + y.content.mtu - 4) by {
      MtuIsPositive(x);
      MtuIsPositive(y);
    }
    var sent, heard := map[0 := x, 1 := y], Frames(0, 0, 1) + Frames(1, 1, 2) + Frames(0, 1, |x.Raw()| - 1);
    s := Scene(|x.Raw()| + |y.Raw()|, 1, r.node as nat, calls, last, sent, 0, 0, Arrive(sent, r, heard));
    LostBy(s, r, p, sub, 0, heard);
  }

  lemma MtuIsPositive(m: Message)
    requires m.Valid()
    ensures m.content.mtu >= MTU_CLASSIC
  {
  }

  // ---------------------------------------------------------------- a subject and the legacy data type of its number

  const NODE_STATUS: bv16 := 341

  lemma LegacyIsMoreUrgent(p: Prio)
    ensures MsbOf(Template(p, V0Subject(NODE_STATUS))) as nat == p * 0x80000 + 682
    ensures MsbOf(Template(p, Subject13b(NODE_STATUS))) as nat == p * 0x80000 + 0xC000 + 682
  {
    match p
    case 0 =>
    case 1 =>
    case 2 =>
    case 3 =>
    case 4 =>
    case 5 =>
    case 6 =>
    case 7 =>
  }

  lemma {:induction false} FramesOfClassic(m: Message)
    requires m.Valid() && m.content.mtu == MTU_CLASSIC && |m.content.payload| >= MTU_CLASSIC
    ensures |m.Raw()| == (|m.content.payload| + 8) / 7 && |m.Raw()| > 1
  {
    hide Chain;
    PredictionIsExact(m.address.IsV1(), m.crcSeed, m.content.mtu, m.content.tid, m.content.payload);
  }

  /**
   * A node publishes on subject 341 and as the legacy data type 341: of 13 to 19 bytes of the one, sent after the
   * first frame of more than 12 bytes of the other, the other is lost.
   */
  lemma {:induction false} SubjectIsSwallowed(
      v0seed: bv16, tid: TransferId, r: Receiver, p: Prio, sub: Subscription, payload: seq<Byte>, legacy: seq<Byte>)
    returns (x: Message, y: Message, run: Scene)
    requires r.address == Subject13b(NODE_STATUS) && Serves(sub, r.From(p))
    requires |payload| > 12 && sub.extent > 12 && 13 <= |legacy| <= 19
    ensures x == Message(p, Subject13b(NODE_STATUS), sub.crcSeed, CanRoundTrip.Transfer(tid, MTU_CLASSIC, payload))
    ensures y == Message(p, V0Subject(NODE_STATUS), v0seed, CanRoundTrip.Transfer(tid, MTU_CLASSIC, legacy))
    ensures run.sent == map[0 := x, 1 := y] && Lost(run, r, p, sub, 0)
  {
    hide Lost, Template, MsbOf, Aliases, Serves, Message.Raw;
    x := Message(p, Subject13b(NODE_STATUS), sub.crcSeed, CanRoundTrip.Transfer(tid, MTU_CLASSIC, payload));
    y := Message(p, V0Subject(NODE_STATUS), v0seed, CanRoundTrip.Transfer(tid, MTU_CLASSIC, legacy));
    FramesOfClassic(x);
    FramesOfClassic(y);
    LegacyOntoSubject(p, NODE_STATUS, NODE_STATUS, r.me, r.node);
    LegacyIsMoreUrgent(p);
    run := MessageIsLost(x, y, r, p, sub);
  }
}
