/** What the log of a transmission queue says of the messages published: per address and priority, chains one by one. */
module CanBus {
  import opened Wire
  import opened CanFrame
  import opened CanSpool
  import opened CanRoundTrip
  import opened TxPipeline
  import O = TxOrder

  datatype Message = Message(priority: Prio, address: Address, crcSeed: bv16, content: CanRoundTrip.Transfer)
  {
    predicate Valid() { address.Valid() && Framable(content) && (!address.IsV1() ==> content.mtu == MTU_CLASSIC) }

    function From(node: NodeId): Origin { Origin(priority, address, node) }

    /** The frames the spooler makes of it. */
    function Raw(): seq<seq<Byte>>
      requires Valid()
    {
      Chain(address.IsV1(), crcSeed, content.mtu, content.tid, content.payload)
    }

    /** The bits of the CAN ID that the queue keeps. */
    function Msb(): nat { MsbOf(Template(priority, address)) as nat }
  }

  // ---------------------------------------------------------------- runs that publish messages

  datatype Call =
    | Send(now: int, deadline: int, message: Message, enabled: seq<bool>)
    | Does(op: O.Op)
  {
    predicate Valid() {
      match this
      case Send(_, _, m, _) => m.Valid()
      case Does(op) => !op.Publish?
    }

    function Op(): O.Op
      requires Valid()
    {
      match this
      case Send(now, deadline, m, enabled) => O.Publish(now, m.Msb(), deadline, |m.Raw()|, enabled)
      case Does(op) => op
    }
  }

  /** The last of the calls, and what it adds to the messages published so far. */
  ghost predicate Follows(c: Pipeline, told: map<nat, Message>, calls: seq<Call>, d: Pipeline, sent: map<nat, Message>)
    requires calls != []
  {
    var call := calls[|calls| - 1];
    && Inv(c) && call.Valid() && O.Allowed(c, call.Op())
    && d == O.Step(c, call.Op())
    && sent == if call.Send? then told[c.seqno := call.message] else told
  }

  /** The calls lead from a queue to another; `sent` says what was published under each number. */
  ghost predicate Ran(first: Pipeline, calls: seq<Call>, last: Pipeline, sent: map<nat, Message>)
    decreases |calls|
  {
    if calls == [] then last == first && sent == map[]
    else
      exists before: Pipeline, told: map<nat, Message> ::
        Ran(first, calls[..|calls| - 1], before, told) && Follows(before, told, calls, last, sent)
  }

  /** An emission is a frame of a message that was sent. */
  ghost predicate IsOf(e: Emission, sent: map<nat, Message>) {
    && e.frame.t in sent
    && var m := sent[e.frame.t];
       && m.Valid() && e.msb == m.Msb() && e.frame.k < |m.Raw()| && e.multiFrame == (|m.Raw()| > 1)
  }

  ghost predicate QueuedIsOf(c: Pipeline, t: nat, sent: map<nat, Message>)
    requires t in c.transfers
  {
    && t in sent && sent[t].Valid()
    && c.transfers[t].msb == sent[t].Msb() && c.transfers[t].frames == |sent[t].Raw()|
  }

  ghost predicate Told(c: Pipeline, sent: map<nat, Message>) {
    && (forall t :: t in sent ==> t < c.seqno)
    && (forall t :: t in c.transfers ==> QueuedIsOf(c, t, sent))
    && (forall a :: 0 <= a < |c.log| ==> IsOf(c.log[a], sent))
  }

  lemma {:induction false} ToldOfFewer(c: Pipeline, d: Pipeline, sent: map<nat, Message>)
    requires Told(c, sent) && O.Fewer(c, d)
    ensures Told(d, sent)
  {
    hide IsOf;
    forall t | t in d.transfers ensures QueuedIsOf(d, t, sent) {
      assert QueuedIsOf(c, t, sent);
    }
  }

  lemma {:induction false} EnqueueTold(
      c: Pipeline, deadline: int, m: Message, enabled: seq<bool>, sent: map<nat, Message>)
    requires Told(c, sent) && m.Valid() && |enabled| == |c.pending|
    ensures Told(Enqueue(c, m.Msb(), deadline, |m.Raw()|, enabled), sent[c.seqno := m])
  {
    hide ChainRefs, CountTrue, Message.Raw, Message.Msb;
    var d, told := Enqueue(c, m.Msb(), deadline, |m.Raw()|, enabled), sent[c.seqno := m];
    forall t | t in d.transfers ensures QueuedIsOf(d, t, told) {
      assert t != c.seqno ==> QueuedIsOf(c, t, sent);
    }
    forall a | 0 <= a < |d.log| ensures IsOf(d.log[a], told) {
      assert IsOf(c.log[a], sent);
    }
  }

  /** Not queued, a message leaves no trace but its number. */
  lemma {:induction false} DropTold(c: Pipeline, m: Message, sent: map<nat, Message>)
    requires Told(c, sent)
    ensures Told(c.(seqno := c.seqno + 1), sent[c.seqno := m])
  {
    var d, told := c.(seqno := c.seqno + 1), sent[c.seqno := m];
    forall t | t in d.transfers ensures QueuedIsOf(d, t, told) {
      assert QueuedIsOf(c, t, sent);
    }
    forall a | 0 <= a < |d.log| ensures IsOf(d.log[a], told) {
      assert IsOf(c.log[a], sent);
    }
  }

  lemma {:induction false} PublishTold(
      c: Pipeline, now: int, deadline: int, m: Message, enabled: seq<bool>, sent: map<nat, Message>)
    requires Inv(c) && Told(c, sent) && m.Valid() && |enabled| == |c.pending| && |m.Raw()| >= 1
    ensures Told(Publish(c, now, m.Msb(), deadline, |m.Raw()|, enabled), sent[c.seqno := m])
  {
    hide Inv, Told, Enqueue, Expire, Sacrifice, CountTrue, Message.Raw, Message.Msb, O.Fewer;
    if CountTrue(enabled) == 0 {
      DropTold(c, m, sent);
    } else {
      var frames := |m.Raw()|;
      ExpireKeepsInv(c, now);
      ExpireShape(c, now);
      O.ExpireFewer(c, now);
      var d := Expire(c, now);
      ToldOfFewer(c, d, sent);
      SacrificeFits(d, frames);
      O.SacrificeFewer(d, frames);
      var e := Sacrifice(d, frames);
      ToldOfFewer(d, e, sent);
      if frames > d.capacity {
        DropTold(d, m, sent);
      } else if frames <= e.capacity - e.queueSize {
        EnqueueTold(e, deadline, m, enabled, sent);
      } else {
        DropTold(e, m, sent);
      }
    }
  }

  lemma {:induction false} DepartTold(c: Pipeline, i: nat, t: nat, sent: map<nat, Message>)
    requires Told(c, sent) && O.IsNextPending(c, i, t)
    ensures Told(Depart(c, i, t), sent)
  {
    hide DecRef, Message.Raw, Message.Msb;
    var d := Depart(c, i, t);
    assert QueuedIsOf(c, t, sent);
    forall u | u in d.transfers ensures QueuedIsOf(d, u, sent) {
      assert QueuedIsOf(c, u, sent);
    }
    forall a | 0 <= a < |d.log| ensures IsOf(d.log[a], sent) {
      assert a < |c.log| ==> IsOf(c.log[a], sent);
    }
  }

  lemma RetainTold(c: Pipeline, f: FrameId, sent: map<nat, Message>)
    requires Told(c, sent)
    ensures Told(Retain(c, f), sent)
  {
    ToldOfFewer(c, Retain(c, f), sent);
  }

  lemma {:induction false} EjectTold(c: Pipeline, i: nat, answers: seq<Answer>, sent: map<nat, Message>)
    requires Inv(c) && Told(c, sent) && i < |c.pending|
    ensures Told(Eject(c, i, answers), sent)
    decreases |answers|
  {
    PendingIsQueued(c, i);
    if !(answers == [] || c.pending[i] == {}) {
      O.MostUrgentIsFirst(c, i);
      var t := MostUrgent(c, i);
      hide Retain, Depart, Finish, Inv, Told, MostUrgent, O.Fewer;
      var f := FrameId(t, c.transfers[t].cursors[i]);
      var offered := if answers[0].retained then Retain(c, f) else c;
      OfferKeepsInv(c, i, t, answers[0].retained);
      OfferShape(c, f);
      RetainTold(c, f, sent);
      if answers[0].accepted {
        assert O.IsNextPending(offered, i, t);
        DepartTold(offered, i, t, sent);
        DepartKeepsInv(offered, i, t);
        DepartQueued(offered, i, t);
        FinishShape(offered, i, t);
        O.FinishFewer(Depart(offered, i, t), t);
        ToldOfFewer(Depart(offered, i, t), Finish(Depart(offered, i, t), t), sent);
        EjectTold(Finish(Depart(offered, i, t), t), i, answers[1..], sent);
      }
    }
  }

  lemma {:induction false} SetNodeTold(c: Pipeline, node: nat, sent: map<nat, Message>)
    requires Inv(c) && Told(c, sent)
    ensures Told(SetNode(c, node), sent)
  {
    var renamed := c.(node := node);
    NodeKeepsInv(c, node);
    assert Told(renamed, sent) by {
      forall t | t in renamed.transfers ensures QueuedIsOf(renamed, t, sent) {
        assert QueuedIsOf(c, t, sent);
      }
      hide IsOf;
    }
    forall t | t in c.transfers ensures t in c.agewise {
      assert IndexedAt(c, t);
    }
    O.PurgeIsComplete(renamed, c.agewise);
    hide Inv, Told, PurgeFrom;
    ToldOfFewer(renamed, PurgeFrom(renamed, c.agewise), sent);
  }

  lemma {:induction false} StepTold(c: Pipeline, call: Call, sent: map<nat, Message>)
    requires Inv(c) && Told(c, sent) && call.Valid() && O.Allowed(c, call.Op())
    ensures Told(O.Step(c, call.Op()), if call.Send? then sent[c.seqno := call.message] else sent)
  {
    hide Inv, Told, Message.Raw, Message.Msb;
    match call {
      case Send(now, deadline, m, enabled) =>
        PublishTold(c, now, deadline, m, enabled, sent);
      case Does(op) =>
        match op {
          case Expire(now) =>
            O.ExpireFewer(c, now);
            ToldOfFewer(c, Expire(c, now), sent);
          case Eject(i, answers) => EjectTold(c, i, answers, sent);
          case SetNode(node) => SetNodeTold(c, node, sent);
          case Retain(f) => RetainTold(c, f, sent);
          case LetGo(f) => ToldOfFewer(c, LetGo(c, f), sent);
          case Publish(_, _, _, _, _) =>
        }
    }
  }

  /** In every run, whatever left is a frame of a message that was sent, and the claims about the log hold. */
  lemma {:induction false} RanIsTold(
      capacity: nat, ifaces: nat, node: nat, calls: seq<Call>, last: Pipeline, sent: map<nat, Message>)
    requires Ran(O.Initial(capacity, ifaces, node), calls, last, sent)
    ensures Inv(last) && O.Linked(last) && Told(last, sent)
    decreases |calls|
  {
    var first := O.Initial(capacity, ifaces, node);
    if calls == [] {
      O.InitialIsSound(capacity, ifaces, node);
    } else {
      var call := calls[|calls| - 1];
      var before, told :| Ran(first, calls[..|calls| - 1], before, told) && Follows(before, told, calls, last, sent);
      RanIsTold(capacity, ifaces, node, calls[..|calls| - 1], before, told);
      hide Inv, Told, O.Linked, O.Step, O.Allowed;
      O.StepKeeps(before, call.Op());
      StepTold(before, call, told);
    }
  }

  // ---------------------------------------------------------------- the frames of one lane

  /** The emission goes out on this interface, under this node-ID, to this address and with this priority. */
  ghost predicate In(e: Emission, sent: map<nat, Message>, i: nat, n: NodeId, a: Address, p: Prio) {
    e.iface == i && e.node == n as nat && e.frame.t in sent && sent[e.frame.t].address == a
      && sent[e.frame.t].priority == p
  }

  ghost function LaneOf(
      log: seq<Emission>, sent: map<nat, Message>, i: nat, n: NodeId, a: Address, p: Prio): seq<FrameId> {
    if log == [] then []
    else
      var e := log[|log| - 1];
      LaneOf(log[..|log| - 1], sent, i, n, a, p) + if In(e, sent, i, n, a, p) then [e.frame] else []
  }

  /** Every frame but a first one follows its predecessor. */
  ghost predicate Consecutive(lane: seq<FrameId>) {
    forall j :: 0 <= j < |lane| && lane[j].k > 0 ==> j > 0 && lane[j - 1] == FrameId(lane[j].t, lane[j].k - 1)
  }

  /** Frames leave in publishing order, and within a transfer in chain order. */
  ghost predicate Rising(lane: seq<FrameId>) {
    forall j, l :: 0 <= j < l < |lane| ==> Precedes(lane[j], lane[l])
  }

  predicate Precedes(f: FrameId, g: FrameId) { f.t < g.t || (f.t == g.t && f.k < g.k) }

  ghost predicate Sound(log: seq<Emission>, sent: map<nat, Message>) {
    && O.OneSource(log) && O.ChainOrder(log) && O.NoGaps(log) && O.PublishOrder(log)
    && forall a :: 0 <= a < |log| ==> IsOf(log[a], sent)
  }

  lemma {:induction false} SoundPrefix(log: seq<Emission>, sent: map<nat, Message>)
    requires Sound(log, sent) && log != []
    ensures Sound(log[..|log| - 1], sent)
  {
    var was := log[..|log| - 1];
    hide IsOf;
    forall b | 0 <= b < |was| && was[b].frame.k > 0
      ensures exists a ::
        0 <= a < b && was[a].iface == was[b].iface && was[a].frame == FrameId(was[b].frame.t, was[b].frame.k - 1)
    {
      var a :| 0 <= a < b && log[a].iface == log[b].iface
        && log[a].frame == FrameId(log[b].frame.t, log[b].frame.k - 1);
      assert was[a] == log[a];
    }
  }

  lemma {:induction false} LaneMember(
      log: seq<Emission>, sent: map<nat, Message>, i: nat, n: NodeId, a: Address, p: Prio, j: nat)
    requires j < |LaneOf(log, sent, i, n, a, p)|
    ensures exists b ::
      0 <= b < |log| && log[b].frame == LaneOf(log, sent, i, n, a, p)[j] && In(log[b], sent, i, n, a, p)
  {
    var was := log[..|log| - 1];
    if j < |LaneOf(was, sent, i, n, a, p)| {
      LaneMember(was, sent, i, n, a, p, j);
      var b :| 0 <= b < |was| && was[b].frame == LaneOf(was, sent, i, n, a, p)[j] && In(was[b], sent, i, n, a, p);
      assert log[b] == was[b];
    } else {
      assert log[|log| - 1].frame == LaneOf(log, sent, i, n, a, p)[j];
    }
  }

  lemma {:induction false} NothingAfter(
      log: seq<Emission>, sent: map<nat, Message>, i: nat, n: NodeId, a: Address, p: Prio, m: nat)
    requires m <= |log| && forall c :: m <= c < |log| ==> !In(log[c], sent, i, n, a, p)
    ensures LaneOf(log, sent, i, n, a, p) == LaneOf(log[..m], sent, i, n, a, p)
    decreases |log|
  {
    if m < |log| {
      var was := log[..|log| - 1];
      assert was[..m] == log[..m];
      NothingAfter(was, sent, i, n, a, p, m);
    } else {
      assert log[..m] == log;
    }
  }

  /** Two emissions of one lane are in order. */
  lemma {:induction false} LaneOrder(
      log: seq<Emission>, sent: map<nat, Message>, i: nat, n: NodeId, a: Address, p: Prio, b: nat, c: nat)
    requires Sound(log, sent) && b < c < |log| && In(log[b], sent, i, n, a, p) && In(log[c], sent, i, n, a, p)
    ensures Precedes(log[b].frame, log[c].frame)
  {
    assert IsOf(log[b], sent) && IsOf(log[c], sent);
    hide Message.Raw;
  }

  /** The predecessor of a frame in its chain is in the same lane. */
  lemma {:induction false} Predecessor(
      log: seq<Emission>, sent: map<nat, Message>, i: nat, n: NodeId, a: Address, p: Prio, z: nat)
      returns (b: nat)
    requires Sound(log, sent) && z < |log| && In(log[z], sent, i, n, a, p) && log[z].frame.k > 0
    ensures b < z && log[b].frame == FrameId(log[z].frame.t, log[z].frame.k - 1) && In(log[b], sent, i, n, a, p)
  {
    var e := log[z];
    b :| 0 <= b < z && log[b].iface == e.iface && log[b].frame == FrameId(e.frame.t, e.frame.k - 1);
    assert IsOf(log[b], sent) && IsOf(e, sent);
    assert log[b].multiFrame;
    hide Message.Raw, O.NoGaps, O.ChainOrder, O.PublishOrder;
  }

  /** The frame before the last one of a lane is its predecessor in the chain. */
  lemma {:induction false} LastFollows(
      log: seq<Emission>, sent: map<nat, Message>, i: nat, n: NodeId, a: Address, p: Prio)
    requires Sound(log, sent) && log != []
    requires var e := log[|log| - 1]; In(e, sent, i, n, a, p) && e.frame.k > 0
    ensures var e, was := log[|log| - 1].frame, LaneOf(log[..|log| - 1], sent, i, n, a, p);
            was != [] && was[|was| - 1] == FrameId(e.t, e.k - 1)
  {
    hide Sound, In;
    var z := |log| - 1;
    var b := Predecessor(log, sent, i, n, a, p, z);
    var was := log[..z];
    forall c | b + 1 <= c < |was| ensures !In(was[c], sent, i, n, a, p) {
      if In(log[c], sent, i, n, a, p) {
        LaneOrder(log, sent, i, n, a, p, b, c);
        LaneOrder(log, sent, i, n, a, p, c, z);
      }
    }
    NothingAfter(was, sent, i, n, a, p, b + 1);
    assert was[..b + 1][..b] == was[..b] && was[..b + 1][b] == log[b];
  }

  lemma {:induction false} LaneIsConsecutive(
      log: seq<Emission>, sent: map<nat, Message>, i: nat, n: NodeId, a: Address, p: Prio)
    requires Sound(log, sent)
    ensures Consecutive(LaneOf(log, sent, i, n, a, p))
  {
    hide Sound, In;
    if log != [] {
      var before, e := LaneOf(log[..|log| - 1], sent, i, n, a, p), log[|log| - 1];
      SoundPrefix(log, sent);
      LaneIsConsecutive(log[..|log| - 1], sent, i, n, a, p);
      hide Consecutive;
      if In(e, sent, i, n, a, p) {
        if e.frame.k > 0 {
          LastFollows(log, sent, i, n, a, p);
        }
        ConsecutiveSnoc(before, e.frame);
      } else {
        assert before + [] == before;
      }
    }
  }

  lemma ConsecutiveSnoc(lane: seq<FrameId>, f: FrameId)
    requires Consecutive(lane)
    requires f.k > 0 ==> lane != [] && lane[|lane| - 1] == FrameId(f.t, f.k - 1)
    ensures Consecutive(lane + [f])
  {
  }

  lemma {:induction false} LaneRises(
      log: seq<Emission>, sent: map<nat, Message>, i: nat, n: NodeId, a: Address, p: Prio)
    requires Sound(log, sent)
    ensures Rising(LaneOf(log, sent, i, n, a, p))
  {
    hide Sound, In, Precedes;
    if log != [] {
      var was, z := log[..|log| - 1], |log| - 1;
      SoundPrefix(log, sent);
      LaneRises(was, sent, i, n, a, p);
      if In(log[z], sent, i, n, a, p) {
        var before := LaneOf(was, sent, i, n, a, p);
        forall j | 0 <= j < |before| ensures Precedes(before[j], log[z].frame) {
          LaneMember(was, sent, i, n, a, p, j);
          var b :| 0 <= b < |was| && was[b].frame == before[j] && In(was[b], sent, i, n, a, p);
          assert log[b] == was[b];
          LaneOrder(log, sent, i, n, a, p, b, z);
        }
      }
    }
  }

  /** A frame of a message sent to an address with a priority. */
  ghost predicate Belongs(f: FrameId, sent: map<nat, Message>, a: Address, p: Prio) {
    && f.t in sent && sent[f.t].Valid() && f.k < |sent[f.t].Raw()|
    && sent[f.t].address == a && sent[f.t].priority == p
  }

  /** The lane of an interface, node-ID, address and priority is a row of chains, each broken off at most at its end. */
  lemma {:induction false} LaneIsChains(
      log: seq<Emission>, sent: map<nat, Message>, i: nat, n: NodeId, a: Address, p: Prio)
    requires Sound(log, sent)
    ensures var lane := LaneOf(log, sent, i, n, a, p);
            Consecutive(lane) && Rising(lane) && forall j :: 0 <= j < |lane| ==> Belongs(lane[j], sent, a, p)
  {
    LaneIsConsecutive(log, sent, i, n, a, p);
    LaneRises(log, sent, i, n, a, p);
    var lane := LaneOf(log, sent, i, n, a, p);
    hide Message.Raw, LaneOf, Consecutive, Rising;
    forall j | 0 <= j < |lane| ensures Belongs(lane[j], sent, a, p) {
      LaneMember(log, sent, i, n, a, p, j);
      var b :| 0 <= b < |log| && log[b].frame == lane[j] && In(log[b], sent, i, n, a, p);
      assert IsOf(log[b], sent);
    }
  }

  /** In a lane the last frame of a message stands for all of them. */
  lemma {:induction false} WholeChain(lane: seq<FrameId>, j: nat, k: nat)
    requires Consecutive(lane) && j < |lane| && k <= lane[j].k
    ensures lane[j].k <= j && lane[j - (lane[j].k - k)] == FrameId(lane[j].t, k)
    decreases lane[j].k
  {
    if lane[j].k > 0 {
      if k < lane[j].k {
        WholeChain(lane, j - 1, k);
      } else {
        WholeChain(lane, j - 1, k - 1);
      }
    }
  }
}
