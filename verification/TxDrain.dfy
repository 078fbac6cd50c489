/** How the most urgent transfer leaves a queue with one interface, frame by frame. */
module TxDrain {
  import opened TxPipeline
  import opened TxUrgency

  const TAKEN := Answer(true, false)

  /** The driver takes so many frames and keeps none of them. */
  function Takes(n: nat): (answers: seq<Answer>)
    ensures |answers| == n
  {
    seq(n, _ => TAKEN)
  }

  /** Consecutive frames of a transfer on their way out. */
  function Emissions(t: nat, from: nat, n: nat, msb: nat, node: nat): (log: seq<Emission>)
    ensures |log| == n
  {
    seq(n, k requires 0 <= k < n => Emission(0, FrameId(t, from + k), msb, node, true))
  }

  /** Before all other transfers of its queue the transfer is to send its frame k. */
  ghost predicate Leads(c: Pipeline, t: nat, k: nat) {
    && Inv(c) && |c.pending| == 1 && c.holds == map[] && t in c.transfers
    && c.transfers[t].MultiFrame() && c.transfers[t].cursors == [k] && k < c.transfers[t].frames
    && forall u :: u in c.transfers && u != t ==> c.transfers[t].msb < c.transfers[u].msb
  }

  /** The queue once the transfer has sent its frames up to k. */
  ghost predicate Left(c: Pipeline, d: Pipeline, t: nat, k: nat)
    requires t in c.transfers
  {
    && Inv(d) && |d.pending| == 1 && d.holds == map[] && d.node == c.node && d.seqno == c.seqno
    && d.capacity == c.capacity && d.queueSize <= c.queueSize
    && d.transfers == if k < c.transfers[t].frames
                      then c.transfers[t := c.transfers[t].(departed := true, cursors := [k])]
                      else c.transfers - {t}
  }

  lemma LeadsIsQueued(c: Pipeline, t: nat, k: nat)
    requires Leads(c, t, k)
    ensures Inv(c) && |c.pending| == 1 && t in c.transfers && k < c.transfers[t].frames
    ensures |c.transfers[t].cursors| == 1 && c.holds == map[]
  {
    hide Inv;
  }

  lemma {:induction false} LeaderIsMostUrgent(c: Pipeline, t: nat, k: nat)
    requires Leads(c, t, k)
    ensures c.pending[0] != {} && t in c.pending[0] && c.pending[0] <= c.transfers.Keys && MostUrgent(c, 0) == t
  {
    assert IndexedAt(c, t);
    PendingIsQueued(c, 0);
    hide Inv;
  }

  lemma {:induction false} DepartSizes(c: Pipeline, t: nat, k: nat)
    requires Leads(c, t, k)
    ensures var d := Depart(c, 0, t);
            && d.queueSize <= c.queueSize && t in d.transfers
            && d.transfers == c.transfers[t := c.transfers[t].(departed := true, cursors := [k + 1])]
            && |d.pending| == 1 && d.holds == c.holds && d.node == c.node && d.seqno == c.seqno
            && d.capacity == c.capacity
            && Retire(d, t).queueSize <= d.queueSize
  {
    DecRefShrinks(c.refs, FrameId(t, k));
    var d := Depart(c, 0, t);
    ReleaseShrinks(d.refs, t, d.transfers[t]);
    assert [k][0 := k + 1] == [k + 1];
    hide DecRef, Release, Inv;
  }

  lemma {:induction false} FinishLeader(c: Pipeline, t: nat, k: nat)
    requires Leads(c, t, k) && t in c.pending[0] && t in Depart(c, 0, t).transfers
    ensures IsPending(Depart(c, 0, t), t) <==> k + 1 < c.transfers[t].frames
  {
    var d := Depart(c, 0, t);
    hide DecRef, Inv;
    if k + 1 < c.transfers[t].frames {
      assert t in d.pending[0];
    }
  }

  lemma {:induction false} SentIs(c: Pipeline, t: nat, k: nat)
    requires Leads(c, t, k)
    ensures c.pending[0] != {} && t in Depart(c, 0, t).transfers
    ensures Sent(c, 0, TAKEN) == Finish(Depart(c, 0, t), t)
  {
    LeaderIsMostUrgent(c, t, k);
    hide Inv, Depart, Finish, MostUrgent;
    DepartQueued(c, 0, t);
  }

  lemma WithoutUpdated(transfers: map<nat, Transfer>, t: nat, tr: Transfer)
    ensures transfers[t := tr] - {t} == transfers - {t}
  {
  }

  /** What a departure leaves, with the transfer retired once all of it has left. */
  lemma {:induction false} FinishLeft(c: Pipeline, t: nat, k: nat)
    requires Leads(c, t, k) && |c.pending| == 1 && t in c.transfers && |c.transfers[t].cursors| == 1 && c.holds == map[]
    requires t in c.pending[0] && t in Depart(c, 0, t).transfers && Inv(Finish(Depart(c, 0, t), t))
    ensures Left(c, Finish(Depart(c, 0, t), t), t, k + 1)
  {
    hide Inv, Leads, Retire, Depart, IsPending;
    DepartSizes(c, t, k);
    FinishLeader(c, t, k);
    RetireShape(Depart(c, 0, t), t);
    WithoutUpdated(c.transfers, t, c.transfers[t].(departed := true, cursors := [k + 1]));
  }

  lemma {:induction false} SentLog(c: Pipeline, t: nat, k: nat)
    requires Leads(c, t, k) && t in Depart(c, 0, t).transfers
    ensures Finish(Depart(c, 0, t), t).log == c.log + Emissions(t, k, 1, c.transfers[t].msb, c.node)
  {
    FinishKeepsLog(Depart(c, 0, t), t);
    var e := Emission(0, FrameId(t, k), c.transfers[t].msb, c.node, true);
    assert Emissions(t, k, 1, c.transfers[t].msb, c.node) == [e];
    hide Inv, Finish, DecRef;
  }

  lemma LeftLeads(c: Pipeline, d: Pipeline, t: nat, k: nat)
    requires Leads(c, t, k) && Left(c, d, t, k + 1) && k + 1 < c.transfers[t].frames
    ensures Leads(d, t, k + 1)
  {
    hide Inv;
  }

  lemma {:induction false} SentLeader(c: Pipeline, t: nat, k: nat)
    requires Leads(c, t, k)
    ensures c.pending[0] != {}
    ensures var d := Sent(c, 0, TAKEN);
            && Left(c, d, t, k + 1)
            && d.log == c.log + Emissions(t, k, 1, c.transfers[t].msb, c.node)
            && (k + 1 < c.transfers[t].frames ==> Leads(d, t, k + 1))
  {
    hide Leads, Left, Depart, Finish, Sent, Inv, Emissions, MostUrgent;
    LeadsIsQueued(c, t, k);
    LeaderIsMostUrgent(c, t, k);
    SentIs(c, t, k);
    FinishLeft(c, t, k);
    SentLog(c, t, k);
    if k + 1 < c.transfers[t].frames {
      LeftLeads(c, Sent(c, 0, TAKEN), t, k);
    }
  }

  /** The most urgent transfer leaves as fast as the driver takes its frames, and the others wait. */
  lemma {:induction false} Drains(c: Pipeline, t: nat, k: nat, n: nat)
    requires Leads(c, t, k) && 1 <= n <= c.transfers[t].frames - k
    ensures var d := Eject(c, 0, Takes(n));
            && Left(c, d, t, k + n)
            && d.log == c.log + Emissions(t, k, n, c.transfers[t].msb, c.node)
            && (k + n < c.transfers[t].frames ==> Leads(d, t, k + n))
    decreases n
  {
    hide Inv, Eject, Sent;
    SentLeader(c, t, k);
    var d := Sent(c, 0, TAKEN);
    EjectUnfold(c, 0, Takes(n));
    assert Takes(n)[1..] == Takes(n - 1);
    if n == 1 {
      EjectStops(d, 0, []);
    } else {
      Drains(d, t, k + 1, n - 1);
      assert Emissions(t, k, 1, c.transfers[t].msb, c.node) + Emissions(t, k + 1, n - 1, c.transfers[t].msb, c.node)
             == Emissions(t, k, n, c.transfers[t].msb, c.node);
    }
  }

  // ---------------------------------------------------------------- publishing into a queue with room

  lemma {:induction false} NothingOverdue(c: Pipeline, now: int)
    requires Inv(c) && forall u :: u in c.transfers ==> now <= c.transfers[u].deadline
    ensures Expire(c, now) == c
  {
  }

  lemma {:induction false} PublishFits(c: Pipeline, now: int, msb: nat, deadline: int, frames: nat)
    requires Inv(c) && |c.pending| == 1 && 1 <= frames <= c.capacity - c.queueSize
    requires forall u :: u in c.transfers ==> now <= c.transfers[u].deadline
    ensures Publish(c, now, msb, deadline, frames, [true]) == Enqueue(c, msb, deadline, frames, [true])
    ensures Inv(Enqueue(c, msb, deadline, frames, [true]))
  {
    NothingOverdue(c, now);
    assert CountTrue([true]) == 1;
    EnqueueKeepsInv(c, msb, deadline, frames, [true]);
    hide Inv, Enqueue;
  }

  lemma {:induction false} EnqueuedShape(c: Pipeline, msb: nat, deadline: int, frames: nat)
    requires |c.pending| == 1
    ensures var d := Enqueue(c, msb, deadline, frames, [true]);
            && |d.pending| == 1 && d.holds == c.holds && d.seqno == c.seqno + 1 && d.capacity == c.capacity
            && d.queueSize == c.queueSize + frames && d.node == c.node && d.log == c.log
            && d.transfers == c.transfers[c.seqno := Transfer(deadline, msb, frames, false, [0])]
  {
    assert StartCursors([true], frames) == [0];
    hide ChainRefs, CountTrue;
  }

  /** What is published into a queue with room, and is more urgent than all that waits there, goes first. */
  lemma {:induction false} PublishedLeads(c: Pipeline, now: int, msb: nat, deadline: int, frames: nat)
    requires Inv(c) && |c.pending| == 1 && c.holds == map[] && 2 <= frames <= c.capacity - c.queueSize
    requires forall u :: u in c.transfers ==> now <= c.transfers[u].deadline && msb < c.transfers[u].msb
    ensures var d := Publish(c, now, msb, deadline, frames, [true]);
            && Leads(d, c.seqno, 0) && d.seqno == c.seqno + 1 && d.capacity == c.capacity
            && d.queueSize == c.queueSize + frames && d.node == c.node && d.log == c.log
            && d.transfers == c.transfers[c.seqno := Transfer(deadline, msb, frames, false, [0])]
  {
    hide Inv, Publish, Enqueue;
    PublishFits(c, now, msb, deadline, frames);
    EnqueuedShape(c, msb, deadline, frames);
  }

  /** Once its transfers have run out of time a queue is empty again. */
  lemma {:induction false} ExpiresEmpty(c: Pipeline, now: int)
    requires Inv(c) && c.holds == map[] && forall u :: u in c.transfers ==> c.transfers[u].deadline < now
    ensures var d := Expire(c, now);
            && Inv(d) && d.transfers == map[] && d.holds == map[] && d.queueSize == 0
            && |d.pending| == |c.pending| && d.capacity == c.capacity && d.node == c.node && d.log == c.log
            && d.seqno == c.seqno
  {
    hide Inv, Expire;
    var d := Expire(c, now);
    ExpireKeepsInv(c, now);
    ExpireShape(c, now);
    ExpireKeepsHolds(c, now);
    forall t ensures t !in d.transfers {
      ExpireIsExact(c, now, t);
    }
    assert d.transfers == map[];
    NothingInList(d);
    NothingQueued(d);
  }

  lemma NothingInList(c: Pipeline)
    requires Inv(c) && c.transfers == map[]
    ensures c.agewise == []
  {
    if c.agewise != [] {
      HeadIsQueued(c);
    }
  }
}
