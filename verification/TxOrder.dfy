/** What leaves the interfaces over a whole run: no mixed sources, no reordering, no interleaving. */
module TxOrder {
  import opened TxPipeline

  datatype Op =
    | Publish(now: int, msb: nat, deadline: int, frames: nat, enabled: seq<bool>)
    | Expire(now: int)
    | Eject(iface: nat, answers: seq<Answer>)
    | SetNode(node: nat)
    | Retain(frame: FrameId)
    | LetGo(frame: FrameId)

  /** The calls a user of the library can make in the given state. */
  predicate Allowed(c: Pipeline, op: Op) {
    match op
    case Publish(_, _, _, frames, enabled) => |enabled| == |c.pending| && frames >= 1
    case Expire(_) => true
    case Eject(i, _) => i < |c.pending|
    case SetNode(_) => true
    case Retain(_) => true
    case LetGo(f) => Held(c, f) > 0
  }

  ghost function Step(c: Pipeline, op: Op): Pipeline
    requires Inv(c) && Allowed(c, op)
  {
    match op
    case Publish(now, msb, deadline, frames, enabled) => TxPipeline.Publish(c, now, msb, deadline, frames, enabled)
    case Expire(now) => TxPipeline.Expire(c, now)
    case Eject(i, answers) => TxPipeline.Eject(c, i, answers)
    case SetNode(node) => TxPipeline.SetNode(c, node)
    case Retain(f) => TxPipeline.Retain(c, f)
    case LetGo(f) => TxPipeline.LetGo(c, f)
  }

  /** The state of a new instance. */
  function Initial(capacity: nat, ifaces: nat, node: nat): Pipeline {
    Pipeline(capacity, 0, 0, map[], [], {}, seq(ifaces, _ => {}), map[], node, map[], [])
  }

  // ---------------------------------------------------------------- claims about the log

  /** All frames of a multi-frame transfer carry the same source node-ID. */
  ghost predicate OneSource(log: seq<Emission>) {
    forall a, b :: 0 <= a < |log| && 0 <= b < |log| && log[a].frame.t == log[b].frame.t && log[a].multiFrame ==>
      log[a].node == log[b].node
  }

  /** On every interface the frames of a transfer leave once each, and in chain order. */
  ghost predicate ChainOrder(log: seq<Emission>) {
    forall a, b :: 0 <= a < b < |log| && log[a].iface == log[b].iface && log[a].frame.t == log[b].frame.t ==>
      log[a].frame.k < log[b].frame.k
  }

  /** On every interface, no frame leaves before its predecessors in the chain. */
  ghost predicate NoGaps(log: seq<Emission>) {
    forall b :: 0 <= b < |log| && log[b].frame.k > 0 ==>
      exists a ::
        0 <= a < b && log[a].iface == log[b].iface && log[a].frame == FrameId(log[b].frame.t, log[b].frame.k - 1)
  }

  /** On every interface, transfers under one CAN ID leave in publishing order, one after the other. */
  ghost predicate PublishOrder(log: seq<Emission>) {
    forall a, b :: 0 <= a < b < |log| && log[a].iface == log[b].iface && log[a].msb == log[b].msb ==>
      log[a].frame.t <= log[b].frame.t
  }

  // ---------------------------------------------------------------- how the log and the queue hang together

  /** What one emission implies for the transfer it belongs to, while that is still queued. */
  ghost predicate LinkedAt(c: Pipeline, a: nat)
    requires a < |c.log|
  {
    var e := c.log[a];
    && e.frame.t < c.seqno && e.iface < |c.pending|
    && (e.frame.t in c.transfers ==>
          var tr := c.transfers[e.frame.t];
          && tr.departed && tr.msb == e.msb && tr.MultiFrame() == e.multiFrame
          && (tr.MultiFrame() ==> e.node == c.node)
          && |tr.cursors| == |c.pending| && e.frame.k < tr.cursors[e.iface])
    && (forall t :: t in c.pending[e.iface] && t in c.transfers && c.transfers[t].msb == e.msb ==> e.frame.t <= t)
  }

  /** The frame before an unfinished cursor is in the log. */
  ghost predicate CursorAt(c: Pipeline, t: nat, i: nat) {
    t in c.transfers && i < |c.transfers[t].cursors| && 0 < c.transfers[t].cursors[i] < c.transfers[t].frames ==>
      exists a :: 0 <= a < |c.log| && c.log[a].iface == i && c.log[a].frame == FrameId(t, c.transfers[t].cursors[i] - 1)
  }

  ghost predicate Linked(c: Pipeline) {
    && (forall a: nat :: a < |c.log| ==> LinkedAt(c, a))
    && (forall t: nat, i: nat :: CursorAt(c, t, i))
    && OneSource(c.log) && ChainOrder(c.log) && NoGaps(c.log) && PublishOrder(c.log)
  }

  /** A state in which fewer transfers are queued, and the remaining ones unchanged, keeps the links. */
  ghost predicate Fewer(c: Pipeline, d: Pipeline) {
    && d.log == c.log && d.node == c.node && d.seqno >= c.seqno && |d.pending| == |c.pending|
    && (forall t :: t in d.transfers ==> t in c.transfers && d.transfers[t] == c.transfers[t])
    && (forall i :: 0 <= i < |c.pending| ==> d.pending[i] <= c.pending[i])
  }

  lemma {:induction false} FewerKeepsLinks(c: Pipeline, d: Pipeline)
    requires Linked(c) && Fewer(c, d)
    ensures Linked(d)
  {
    hide OneSource, ChainOrder, NoGaps, PublishOrder;
    forall a: nat | a < |d.log| ensures LinkedAt(d, a) {
      assert LinkedAt(c, a);
    }
    forall t: nat, i: nat ensures CursorAt(d, t, i) {
      assert CursorAt(c, t, i);
    }
  }

  lemma FewerTransitive(c: Pipeline, d: Pipeline, e: Pipeline)
    requires Fewer(c, d) && Fewer(d, e)
    ensures Fewer(c, e)
  {
  }

  lemma FewerReflexive(c: Pipeline)
    ensures Fewer(c, c)
  {
  }

  lemma RetireFewer(c: Pipeline, t: nat)
    requires t in c.transfers
    ensures Fewer(c, TxPipeline.Retire(c, t))
  {
    hide Release, Without;
  }

  lemma {:induction false} ExpireFewer(c: Pipeline, now: int)
    requires Inv(c)
    ensures Fewer(c, TxPipeline.Expire(c, now))
    decreases |c.deadlines|
  {
    hide Retire, Fewer;
    FewerReflexive(c);
    if c.deadlines != {} {
      var t := EarliestDeadline(c);
      if now > c.transfers[t].deadline {
        RetireKeepsInv(c, t);
        RetireShape(c, t);
        RetireFewer(c, t);
        ExpireFewer(Retire(c, t), now);
        FewerTransitive(c, Retire(c, t), TxPipeline.Expire(Retire(c, t), now));
      }
    }
  }

  lemma {:induction false} SacrificeFewer(c: Pipeline, needed: nat)
    requires Inv(c)
    ensures Fewer(c, Sacrifice(c, needed))
    decreases |c.agewise|
  {
    hide Retire, Fewer;
    FewerReflexive(c);
    if !(needed <= c.capacity - c.queueSize || c.agewise == []) {
      HeadIsQueued(c);
      RetireKeepsInv(c, c.agewise[0]);
      RetireShape(c, c.agewise[0]);
      RetireFewer(c, c.agewise[0]);
      WithoutShrinks(c.agewise, c.agewise[0]);
      SacrificeFewer(Retire(c, c.agewise[0]), needed);
      FewerTransitive(c, Retire(c, c.agewise[0]), Sacrifice(Retire(c, c.agewise[0]), needed));
    }
  }

  // ---------------------------------------------------------------- publishing

  lemma {:induction false} EnqueueKeepsLinks(c: Pipeline, msb: nat, deadline: int, frames: nat, enabled: seq<bool>)
    requires Linked(c) && |enabled| == |c.pending| && c.seqno !in c.transfers
    ensures Linked(Enqueue(c, msb, deadline, frames, enabled))
  {
    hide OneSource, ChainOrder, NoGaps, PublishOrder, ChainRefs, CountTrue;
    var e := Enqueue(c, msb, deadline, frames, enabled);
    forall a: nat | a < |e.log| ensures LinkedAt(e, a) {
      assert LinkedAt(c, a);
    }
    forall t: nat, i: nat ensures CursorAt(e, t, i) {
      assert CursorAt(c, t, i);
    }
  }

  lemma {:induction false} PublishKeepsLinks(
      c: Pipeline, now: int, msb: nat, deadline: int, frames: nat, enabled: seq<bool>)
    requires Inv(c) && Linked(c) && |enabled| == |c.pending| && frames >= 1
    ensures Linked(TxPipeline.Publish(c, now, msb, deadline, frames, enabled))
  {
    hide Linked, Enqueue, TxPipeline.Expire, Sacrifice, CountTrue;
    if CountTrue(enabled) == 0 {
      FewerKeepsLinks(c, c.(seqno := c.seqno + 1));
    } else {
      ExpireKeepsInv(c, now);
      ExpireShape(c, now);
      ExpireFewer(c, now);
      var d := TxPipeline.Expire(c, now);
      FewerKeepsLinks(c, d);
      SacrificeFits(d, frames);
      SacrificeFewer(d, frames);
      var e := Sacrifice(d, frames);
      FewerKeepsLinks(d, e);
      assert IndexedAt(e, e.seqno);
      if frames > d.capacity {
        FewerKeepsLinks(d, d.(seqno := d.seqno + 1));
      } else if frames <= e.capacity - e.queueSize {
        EnqueueKeepsLinks(e, msb, deadline, frames, enabled);
      } else {
        FewerKeepsLinks(e, e.(seqno := e.seqno + 1));
      }
    }
  }

  // ---------------------------------------------------------------- emission

  lemma {:induction false} LogKeepsClaims(c: Pipeline, i: nat, t: nat)
    requires Inv(c) && Linked(c) && i < |c.pending| && IsNextPending(c, i, t)
    ensures var log := c.log + [Emission(i, FrameId(t, c.transfers[t].cursors[i]), c.transfers[t].msb, c.node,
                                         c.transfers[t].MultiFrame())];
      OneSource(log) && ChainOrder(log) && NoGaps(log) && PublishOrder(log)
  {
    var tr := c.transfers[t];
    var e := Emission(i, FrameId(t, tr.cursors[i]), tr.msb, c.node, tr.MultiFrame());
    var log := c.log + [e];
    forall a: nat | a < |c.log|
      ensures c.log[a].frame.t == t ==>
              (c.log[a].multiFrame == e.multiFrame && (e.multiFrame ==> c.log[a].node == e.node))
      ensures c.log[a].frame.t == t && c.log[a].iface == i ==> c.log[a].frame.k < e.frame.k
      ensures c.log[a].iface == i && c.log[a].msb == e.msb ==> c.log[a].frame.t <= t
    {
      assert LinkedAt(c, a);
    }
    assert CursorAt(c, t, i);
    SourceSnoc(c.log, e);
    OrderSnoc(c.log, e);
    GapsSnoc(c.log, e);
    PublishSnoc(c.log, e);
  }

  ghost predicate IsNextPending(c: Pipeline, i: nat, t: nat) {
    && i < |c.pending| && t in c.pending[i] && t in c.transfers && i < |c.transfers[t].cursors|
    && c.transfers[t].cursors[i] < c.transfers[t].frames
    && (forall u :: u in c.pending[i] && u in c.transfers ==> PendingBefore(c, t, u))
  }

  lemma SourceSnoc(log: seq<Emission>, e: Emission)
    requires OneSource(log)
    requires forall a :: 0 <= a < |log| && log[a].frame.t == e.frame.t ==> log[a].multiFrame == e.multiFrame
    requires forall a :: 0 <= a < |log| && log[a].frame.t == e.frame.t && e.multiFrame ==> log[a].node == e.node
    ensures OneSource(log + [e])
  {
  }

  lemma OrderSnoc(log: seq<Emission>, e: Emission)
    requires ChainOrder(log)
    requires forall a :: 0 <= a < |log| && log[a].iface == e.iface && log[a].frame.t == e.frame.t ==>
             log[a].frame.k < e.frame.k
    ensures ChainOrder(log + [e])
  {
  }

  lemma GapsSnoc(log: seq<Emission>, e: Emission)
    requires NoGaps(log)
    requires e.frame.k > 0 ==>
      exists a :: 0 <= a < |log| && log[a].iface == e.iface && log[a].frame == FrameId(e.frame.t, e.frame.k - 1)
    ensures NoGaps(log + [e])
  {
    var next := log + [e];
    forall b | 0 <= b < |next| && next[b].frame.k > 0
      ensures exists a ::
        0 <= a < b && next[a].iface == next[b].iface && next[a].frame == FrameId(next[b].frame.t, next[b].frame.k - 1)
    {
      if b < |log| {
        var a :| 0 <= a < b && log[a].iface == log[b].iface
          && log[a].frame == FrameId(log[b].frame.t, log[b].frame.k - 1);
        assert next[a] == log[a];
      } else {
        var a :| 0 <= a < |log| && log[a].iface == e.iface && log[a].frame == FrameId(e.frame.t, e.frame.k - 1);
        assert next[a] == log[a];
      }
    }
  }

  lemma PublishSnoc(log: seq<Emission>, e: Emission)
    requires PublishOrder(log)
    requires forall a :: 0 <= a < |log| && log[a].iface == e.iface && log[a].msb == e.msb ==>
             log[a].frame.t <= e.frame.t
    ensures PublishOrder(log + [e])
  {
  }

  lemma {:induction false} DepartLinkedAt(c: Pipeline, i: nat, t: nat, a: nat)
    requires IsNextPending(c, i, t) && IndexedAt(c, t) && a <= |c.log|
    requires a < |c.log| ==> LinkedAt(c, a)
    ensures LinkedAt(Depart(c, i, t), a)
  {
    hide DecRef;
  }

  lemma {:induction false} DepartCursorAt(c: Pipeline, i: nat, t: nat, u: nat, j: nat)
    requires IsNextPending(c, i, t) && CursorAt(c, u, j)
    ensures CursorAt(Depart(c, i, t), u, j)
  {
    hide DecRef;
    var d := Depart(c, i, t);
    if u == t && j == i {
      assert d.log[|c.log|].frame == FrameId(t, c.transfers[t].cursors[i]);
    } else if u in c.transfers && j < |c.transfers[u].cursors|
              && 0 < c.transfers[u].cursors[j] < c.transfers[u].frames {
      var a :| 0 <= a < |c.log| && c.log[a].iface == j && c.log[a].frame == FrameId(u, c.transfers[u].cursors[j] - 1);
      assert d.log[a] == c.log[a];
    }
  }

  lemma {:induction false} DepartKeepsLinks(c: Pipeline, i: nat, t: nat)
    requires Inv(c) && Linked(c) && IsNextPending(c, i, t)
    ensures Linked(Depart(c, i, t))
  {
    LogKeepsClaims(c, i, t);
    assert IndexedAt(c, t);
    var d := Depart(c, i, t);
    hide OneSource, ChainOrder, NoGaps, PublishOrder, LinkedAt, CursorAt, IndexedAt, Inv, DecRef, IsNextPending;
    forall a: nat | a < |d.log| ensures LinkedAt(d, a) {
      if a < |c.log| {
        assert LinkedAt(c, a);
      }
      DepartLinkedAt(c, i, t, a);
    }
    forall u: nat, j: nat ensures CursorAt(d, u, j) {
      assert CursorAt(c, u, j);
      DepartCursorAt(c, i, t, u, j);
    }
  }

  lemma FinishFewer(c: Pipeline, t: nat)
    requires t in c.transfers
    ensures Fewer(c, Finish(c, t))
  {
    hide Retire;
    FewerReflexive(c);
    RetireFewer(c, t);
  }

  lemma RetainKeepsLinks(c: Pipeline, f: FrameId)
    requires Linked(c)
    ensures Linked(TxPipeline.Retain(c, f))
  {
    FewerKeepsLinks(c, TxPipeline.Retain(c, f));
  }

  lemma {:induction false} MostUrgentIsFirst(c: Pipeline, i: nat)
    requires Inv(c) && i < |c.pending| && c.pending[i] != {} && c.pending[i] <= c.transfers.Keys
    ensures IsNextPending(c, i, MostUrgent(c, i))
  {
    PendingIsQueued(c, i);
    hide Inv;
  }

  lemma {:induction false} EjectKeepsLinks(c: Pipeline, i: nat, answers: seq<Answer>)
    requires Inv(c) && Linked(c) && i < |c.pending|
    ensures Linked(TxPipeline.Eject(c, i, answers))
    decreases |answers|
  {
    PendingIsQueued(c, i);
    if !(answers == [] || c.pending[i] == {}) {
      MostUrgentIsFirst(c, i);
      var t := MostUrgent(c, i);
      hide TxPipeline.Retain, Depart, Retire, Inv, Linked, MostUrgent;
      var f := FrameId(t, c.transfers[t].cursors[i]);
      var offered := if answers[0].retained then TxPipeline.Retain(c, f) else c;
      OfferKeepsInv(c, i, t, answers[0].retained);
      OfferShape(c, f);
      RetainKeepsLinks(c, f);
      if answers[0].accepted {
        assert IsNextPending(offered, i, t);
        DepartKeepsLinks(offered, i, t);
        DepartKeepsInv(offered, i, t);
        DepartQueued(offered, i, t);
        FinishShape(offered, i, t);
        FinishFewer(Depart(offered, i, t), t);
        FewerKeepsLinks(Depart(offered, i, t), Finish(Depart(offered, i, t), t));
        EjectKeepsLinks(Finish(Depart(offered, i, t), t), i, answers[1..]);
      }
    }
  }

  // ---------------------------------------------------------------- node-ID change

  /** Once the continuations are purged, no queued multi-frame transfer has begun to leave. */
  ghost predicate NoneBegun(c: Pipeline) {
    forall t :: t in c.transfers ==> !(c.transfers[t].MultiFrame() && c.transfers[t].departed)
  }

  lemma {:induction false} PurgeIsComplete(c: Pipeline, ages: seq<nat>)
    requires Inv(c)
    requires forall t :: t in c.transfers && t !in ages ==> !(c.transfers[t].MultiFrame() && c.transfers[t].departed)
    ensures NoneBegun(PurgeFrom(c, ages)) && Fewer(c, PurgeFrom(c, ages))
    decreases |ages|
  {
    hide TxPipeline.Retire, Inv, Fewer;
    FewerReflexive(c);
    if ages != [] {
      var t := ages[0];
      if t in c.transfers && c.transfers[t].MultiFrame() && c.transfers[t].departed {
        TakeApart(c, t);
        RetireShape(c, t);
        RetireFewer(c, t);
        PurgeIsComplete(Retire(c, t), ages[1..]);
        FewerTransitive(c, Retire(c, t), PurgeFrom(Retire(c, t), ages[1..]));
      } else {
        PurgeIsComplete(c, ages[1..]);
      }
    }
  }

  lemma TakeApart(c: Pipeline, t: nat)
    requires Inv(c) && t in c.transfers
    ensures Inv(TxPipeline.Retire(c, t))
  {
    RetireKeepsInv(c, t);
  }

  /** With no transfer under way, the links do not depend on the node-ID. */
  lemma {:induction false} RenumberKeepsLinks(c: Pipeline, d: Pipeline, node: nat)
    requires Linked(c) && NoneBegun(d) && Fewer(c, d.(node := c.node)) && d.node == node
    ensures Linked(d)
  {
    hide OneSource, ChainOrder, NoGaps, PublishOrder;
    forall a: nat | a < |d.log| ensures LinkedAt(d, a) {
      assert LinkedAt(c, a);
    }
    forall t: nat, i: nat ensures CursorAt(d, t, i) {
      assert CursorAt(c, t, i);
    }
  }

  lemma {:induction false} SetNodeKeepsLinks(c: Pipeline, node: nat)
    requires Inv(c) && Linked(c)
    ensures Linked(TxPipeline.SetNode(c, node))
  {
    hide Linked;
    if node != c.node {
      var renamed := c.(node := node);
      NodeKeepsInv(c, node);
      forall t | t in c.transfers ensures t in c.agewise {
        assert IndexedAt(c, t);
      }
      PurgeIsComplete(renamed, c.agewise);
      var d := PurgeFrom(renamed, c.agewise);
      PurgeKeepsInv(renamed, c.agewise);
      assert Fewer(c, d.(node := c.node));
      RenumberKeepsLinks(c, d, node);
    }
  }

  // ---------------------------------------------------------------- runs

  lemma {:induction false} StepKeeps(c: Pipeline, op: Op)
    requires Inv(c) && Linked(c) && Allowed(c, op)
    ensures Inv(Step(c, op)) && Linked(Step(c, op))
  {
    hide Inv, Linked;
    match op
    case Publish(now, msb, deadline, frames, enabled) =>
      PublishKeepsInv(c, now, msb, deadline, frames, enabled);
      PublishKeepsLinks(c, now, msb, deadline, frames, enabled);
    case Expire(now) =>
      ExpireKeepsInv(c, now);
      ExpireFewer(c, now);
      FewerKeepsLinks(c, TxPipeline.Expire(c, now));
    case Eject(i, answers) =>
      EjectKeepsInv(c, i, answers);
      EjectKeepsLinks(c, i, answers);
    case SetNode(node) =>
      NodeKeepsInv(c, node);
      PurgeKeepsInv(c.(node := node), c.agewise);
      SetNodeKeepsLinks(c, node);
    case Retain(f) =>
      RetainKeepsInv(c, f);
      RetainKeepsLinks(c, f);
    case LetGo(f) =>
      LetGoKeepsInv(c, f);
      FewerKeepsLinks(c, TxPipeline.LetGo(c, f));
  }

  /** The states a sequence of calls leads to; a run stops where a call is not allowed. */
  ghost predicate Reachable(first: Pipeline, ops: seq<Op>, last: Pipeline)
    decreases |ops|
  {
    if ops == [] then last == first
    else
      exists before: Pipeline ::
        && Reachable(first, ops[..|ops| - 1], before)
        && Inv(before) && Allowed(before, ops[|ops| - 1])
        && last == Step(before, ops[|ops| - 1])
  }

  lemma InitialIsSound(capacity: nat, ifaces: nat, node: nat)
    ensures Inv(Initial(capacity, ifaces, node)) && Linked(Initial(capacity, ifaces, node))
  {
  }

  /** In every reachable state the queue is consistent and within its capacity, and nothing that left
      the interfaces mixes sources, breaks a chain, or lets transfers under one CAN ID overtake or interleave. */
  lemma {:induction false} RunsAreSound(capacity: nat, ifaces: nat, node: nat, ops: seq<Op>, last: Pipeline)
    requires Reachable(Initial(capacity, ifaces, node), ops, last)
    ensures Inv(last)
    ensures OneSource(last.log) && ChainOrder(last.log) && NoGaps(last.log) && PublishOrder(last.log)
    ensures Linked(last)
    decreases |ops|
  {
    if ops == [] {
      InitialIsSound(capacity, ifaces, node);
    } else {
      var before :| Reachable(Initial(capacity, ifaces, node), ops[..|ops| - 1], before)
        && Inv(before) && Allowed(before, ops[|ops| - 1])
        && last == Step(before, ops[|ops| - 1]);
      RunsAreSound(capacity, ifaces, node, ops[..|ops| - 1], before);
      StepKeeps(before, ops[|ops| - 1]);
    }
  }

  /** No call is ever refused for lack of a consistent state: every allowed call of a run can be made. */
  lemma {:induction false} RunsContinue(capacity: nat, ifaces: nat, node: nat, ops: seq<Op>, last: Pipeline, op: Op)
    requires Reachable(Initial(capacity, ifaces, node), ops, last) && Allowed(last, op)
    ensures exists next :: Reachable(Initial(capacity, ifaces, node), ops + [op], next)
  {
    RunsAreSound(capacity, ifaces, node, ops, last);
    var all := ops + [op];
    assert all[..|all| - 1] == ops && all[|all| - 1] == op;
    assert Reachable(Initial(capacity, ifaces, node), all, Step(last, op));
  }
}
