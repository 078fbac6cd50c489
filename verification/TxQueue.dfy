/** The transmission queue as it is run, updated in place and proved against TxPipeline. */
module TxQueue {
  import opened TxPipeline
  import opened Wire
  import CanFrame
  import CanSpool

  class Queue {
    const queueCapacity: nat
    var queueSize: int
    var seqno: nat
    var transfers: map<nat, Transfer>
    var agewise: seq<nat>
    var deadlines: set<nat>
    var pending: seq<set<nat>>
    var refs: map<FrameId, nat>
    var nodeId: nat

    // Error counters.
    var capacityErrors: nat
    var sacrifices: nat
    var expirations: nat

    /** References held outside the queue, and the frames handed to the drivers. */
    ghost var holds: map<FrameId, nat>
    ghost var log: seq<Emission>

    /** The frames that were spooled for each transfer. */
    ghost var spooled: map<nat, seq<seq<Byte>>>

    ghost function Model(): Pipeline
      reads this
    {
      Pipeline(queueCapacity, queueSize, seqno, transfers, agewise, deadlines, pending, refs, nodeId, holds, log)
    }

    ghost predicate Valid()
      reads this
    {
      Inv(Model())
    }

    constructor (capacity: nat, ifaces: nat, node: nat)
      ensures Valid() && |pending| == ifaces
      ensures Model().log == [] && Model().transfers == map[] && Model().holds == map[] && spooled == map[]
    {
      queueCapacity := capacity;
      queueSize, seqno, transfers, agewise, deadlines := 0, 0, map[], [], {};
      pending := seq(ifaces, _ => {});
      refs, nodeId, holds, log, spooled := map[], node, map[], [], map[];
      capacityErrors, sacrifices, expirations := 0, 0, 0;
    }

    /** Releases one reference to a frame; the frame leaves the queue with its last reference. */
    method RefCountDec(f: FrameId)
      requires forall g :: g in refs ==> refs[g] > 0
      modifies this`refs, this`queueSize
      ensures refs == DecRef(old(refs), f)
      ensures queueSize - |refs| == old(queueSize - |refs|)
      ensures forall g :: g in refs ==> refs[g] > 0
    {
      if f in refs {
        var count := refs[f] - 1;
        if count == 0 {
          assert |refs.Keys - {f}| == |refs.Keys| - 1;
          queueSize := queueSize - 1;
          assert (refs - {f}).Keys == refs.Keys - {f};
          refs := refs - {f};
        } else {
          assert refs[f := count].Keys == refs.Keys;
          refs := refs[f := count];
        }
      }
    }

    /** How many of the references to f the cleanup loops have dropped: all of the first i cursors,
        and those of cursor i up to frame k. */
    static ghost function Dropped(t: nat, tr: Transfer, i: nat, k: nat, f: FrameId): nat
      requires i <= |tr.cursors|
    {
      if f.t == t && f.k < tr.frames then
        CountReach(tr.cursors[..i], f.k) + (if i < |tr.cursors| && tr.cursors[i] <= f.k < k then 1 else 0)
      else 0
    }

    static ghost predicate Remains(before: map<FrameId, nat>, after: map<FrameId, nat>, f: FrameId, dropped: nat) {
      && (f in after <==> f in before && before[f] > dropped)
      && (f in after ==> after[f] == before[f] - dropped)
    }

    static lemma {:induction false} CountReachSnoc(cursors: seq<nat>, i: nat, k: nat)
      requires i < |cursors|
      ensures CountReach(cursors[..i + 1], k) == CountReach(cursors[..i], k) + (if cursors[i] <= k then 1 else 0)
      decreases i
    {
      if i > 0 {
        CountReachSnoc(cursors[1..], i - 1, k);
        assert cursors[..i + 1][1..] == cursors[1..][..i];
        assert cursors[..i][1..] == cursors[1..][..i - 1];
      } else {
        assert cursors[..1][1..] == [];
      }
    }

    static lemma DropNext(
        before: map<FrameId, nat>, after: map<FrameId, nat>, t: nat, tr: Transfer, i: nat, k: nat, f: FrameId)
      requires i < |tr.cursors| && tr.cursors[i] <= k < tr.frames
      requires Remains(before, after, f, Dropped(t, tr, i, k, f))
      requires forall g :: g in after ==> after[g] > 0
      ensures Remains(before, DecRef(after, FrameId(t, k)), f, Dropped(t, tr, i, k + 1, f))
    {
    }

    /** Drops the references the cursors of a transfer still hold. */
    method FreePayload(t: nat, tr: Transfer)
      requires forall g :: g in refs ==> refs[g] > 0
      modifies this`refs, this`queueSize
      ensures refs == Release(old(refs), t, tr)
      ensures queueSize - |refs| == old(queueSize - |refs|)
      ensures forall g :: g in refs ==> refs[g] > 0
    {
      hide DecRef;
      ghost var before := refs;
      assert tr.cursors[..0] == [];
      for i := 0 to |tr.cursors|
        invariant forall g :: g in refs ==> refs[g] > 0
        invariant queueSize - |refs| == old(queueSize - |refs|)
        invariant forall f: FrameId :: Remains(before, refs, f, Dropped(t, tr, i, 0, f))
      {
        var frame := tr.cursors[i];
        forall f: FrameId ensures Remains(before, refs, f, Dropped(t, tr, i, frame, f)) {
          assert Remains(before, refs, f, Dropped(t, tr, i, 0, f));
        }
        while frame < tr.frames
          invariant tr.cursors[i] <= frame
          invariant forall g :: g in refs ==> refs[g] > 0
          invariant queueSize - |refs| == old(queueSize - |refs|)
          invariant forall f: FrameId :: Remains(before, refs, f, Dropped(t, tr, i, frame, f))
        {
          ghost var was, k := refs, frame;
          RefCountDec(FrameId(t, frame));
          frame := frame + 1;
          forall f: FrameId ensures Remains(before, refs, f, Dropped(t, tr, i, frame, f)) {
            DropNext(before, was, t, tr, i, k, f);
          }
        }
        ghost var next := i + 1;
        forall f: FrameId ensures Remains(before, refs, f, Dropped(t, tr, next, 0, f)) {
          assert Remains(before, refs, f, Dropped(t, tr, i, frame, f));
          CountReachSnoc(tr.cursors, i, f.k);
        }
      }
      assert tr.cursors[..|tr.cursors|] == tr.cursors;
      forall f: FrameId
        ensures f in refs <==> f in Release(before, t, tr)
        ensures f in refs ==> refs[f] == Release(before, t, tr)[f]
      {
        assert Remains(before, refs, f, Dropped(t, tr, |tr.cursors|, 0, f));
      }
    }

    lemma RefsArePositive()
      requires Counted(Model())
      ensures forall g :: g in refs ==> refs[g] > 0
    {
      forall g | g in refs ensures refs[g] > 0 {
        assert CountedAt(Model(), g);
      }
    }

    /** Takes a transfer out of every index and frees what is left of its chain. */
    method RetireTransfer(t: nat)
      requires Counted(Model()) && t in transfers
      modifies this`transfers, this`agewise, this`deadlines, this`pending, this`refs, this`queueSize
      ensures Model() == Retire(old(Model()), t)
    {
      hide Release;
      RefsArePositive();
      hide Counted;
      var tr := transfers[t];
      var updated := pending;
      for i := 0 to |pending|
        invariant |updated| == |pending|
        invariant forall j :: 0 <= j < |pending| ==> updated[j] == if j < i then pending[j] - {t} else pending[j]
      {
        updated := updated[i := updated[i] - {t}];
      }
      assert updated == Unlist(pending, t);
      pending := updated;
      deadlines := deadlines - {t};
      agewise := Without(agewise, t);
      FreePayload(t, tr);
      transfers := transfers - {t};
    }

    /** Sacrifices the oldest transfers until the frames fit or nothing is left. */
    method EnsureQueueSpace(needed: nat) returns (ok: bool)
      requires Valid()
      modifies this
      ensures spooled == old(spooled)
      ensures Valid()
      ensures needed > queueCapacity ==> !ok && Model() == old(Model())
      ensures needed <= queueCapacity ==> (
        Model() == Sacrifice(old(Model()), needed) && ok == (needed <= queueCapacity - queueSize))
    {
      hide Retire, Inv;
      if needed > queueCapacity {
        return false;
      }
      while needed > queueCapacity - queueSize && agewise != []
        invariant Valid() && spooled == old(spooled)
        invariant Sacrifice(Model(), needed) == Sacrifice(old(Model()), needed)
        decreases |agewise|
      {
        ghost var was := Model();
        HeadIsQueued(was);
        RetireKeepsInv(was, agewise[0]);
        WithoutShrinks(agewise, agewise[0]);
        RetireShape(was, agewise[0]);
        CountedOf(was);
        RetireTransfer(agewise[0]);
        sacrifices := sacrifices + 1;
      }
      ok := needed <= queueCapacity - queueSize;
    }

    static lemma CountedOf(c: Pipeline)
      requires Inv(c)
      ensures Counted(c)
    {
    }

    /** The leftmost node of the deadline index. */
    method MinDeadline() returns (t: nat)
      requires deadlines == transfers.Keys && deadlines != {}
      ensures FirstDeadline(Model(), t)
    {
      t :| t in deadlines;
      var rest := deadlines - {t};
      while rest != {}
        invariant t in deadlines && rest <= deadlines
        invariant forall u :: u in deadlines && u !in rest ==> DeadlineBefore(Model(), t, u)
        decreases |rest|
      {
        var u :| u in rest;
        if transfers[u].deadline < transfers[t].deadline || (transfers[u].deadline == transfers[t].deadline && u < t) {
          t := u;
        }
        rest := rest - {u};
      }
    }

    /** The leftmost node of the pending index of an interface. */
    method MinPending(i: nat) returns (t: nat)
      requires i < |pending| && pending[i] <= transfers.Keys && pending[i] != {}
      ensures FirstPending(Model(), i, t)
    {
      t :| t in pending[i];
      var rest := pending[i] - {t};
      while rest != {}
        invariant t in pending[i] && rest <= pending[i]
        invariant forall u :: u in pending[i] && u !in rest ==> PendingBefore(Model(), t, u)
        decreases |rest|
      {
        var u :| u in rest;
        if transfers[u].msb < transfers[t].msb || (transfers[u].msb == transfers[t].msb && u < t) {
          t := u;
        }
        rest := rest - {u};
      }
    }

    static lemma QueuedDeadlines(c: Pipeline)
      requires Inv(c)
      ensures c.deadlines == c.transfers.Keys && Counted(c)
    {
    }

    static lemma FirstDeadlineUnique(c: Pipeline, a: nat, b: nat)
      requires c.deadlines <= c.transfers.Keys && FirstDeadline(c, a) && FirstDeadline(c, b)
      ensures a == b
    {
    }

    static lemma FirstPendingUnique(c: Pipeline, i: nat, a: nat, b: nat)
      requires i < |c.pending| && c.pending[i] <= c.transfers.Keys && FirstPending(c, i, a) && FirstPending(c, i, b)
      ensures a == b
    {
    }

    /** Retires the transfers whose deadline has passed. */
    method ExpireBefore(now: int)
      requires Valid()
      modifies this
      ensures spooled == old(spooled)
      ensures Valid() && Model() == Expire(old(Model()), now)
    {
      hide Retire, Inv, Counted, InvBut, FirstDeadline;
      ghost var first := Model();
      while deadlines != {}
        invariant Valid() && spooled == old(spooled)
        invariant Expire(Model(), now) == Expire(first, now)
        decreases |deadlines|
      {
        ghost var was := Model();
        QueuedDeadlines(was);
        var t := MinDeadline();
        FirstDeadlineUnique(was, t, EarliestDeadline(was));
        if now <= transfers[t].deadline {
          break;
        }
        InvButOf(was, t);
        RetireKeepsInv(was, t);
        RetireShape(was, t);
        RetireTransfer(t);
        expirations := expirations + 1;
      }
    }

    static lemma InvButOf(c: Pipeline, t: nat)
      requires Inv(c)
      ensures InvBut(c, t)
    {
    }

    /** Spools and queues a transfer on the enabled interfaces. The room was made for a predicted number of frames. */
    method Push(now: int, msb: nat, deadline: int, v0: bool, fd: bool, crcSeed: bv16, tid: CanFrame.TransferId,
                payload: seq<Byte>, enabled: seq<bool>)
      returns (ok: bool)
      requires Valid() && |enabled| == |pending| && (v0 ==> !fd)
      modifies this
      ensures Valid()
      ensures var chain := CanSpool.Chain(!v0, crcSeed, Mtu(fd), tid, payload);
              && |chain| >= 1
              && Model() == Publish(old(Model()), now, msb, deadline, |chain|, enabled)
              && spooled == if ok then old(spooled)[old(seqno) := chain] else old(spooled)
      ensures ok <==> old(seqno) in transfers
    {
      hide Inv, Expire, Sacrifice, Enqueue, CountTrue, CountReach, CanSpool.Chain;
      ghost var was := Model();
      var frames := CanSpool.PredictFrameCount(|payload|, Mtu(fd));
      ChainIsPredicted(!v0, crcSeed, Mtu(fd), tid, payload);
      PublishKeepsInv(was, now, msb, deadline, frames, enabled);
      hide CanSpool.PredictFrameCount;
      SeqnoIsNew(was);
      if CountTrue(enabled) == 0 {
        seqno := seqno + 1;
        return false;
      }
      ExpireShape(was, now);
      ExpireBefore(now);
      SacrificeFits(Model(), frames);
      ok := EnsureQueueSpace(frames);
      SeqnoIsNew(Model());
      if !ok {
        capacityErrors := capacityErrors + 1;
        seqno := seqno + 1;
        return;
      }
      var chain;
      if v0 {
        chain := CanSpool.SpoolV0(crcSeed, tid, payload);
      } else {
        chain := CanSpool.Spool(crcSeed, Mtu(fd), tid, payload);
      }
      EnqueueSpool(msb, deadline, chain, enabled);
    }

    static function Mtu(fd: bool): nat { if fd then CanFrame.MTU_FD else CanFrame.MTU_CLASSIC }

    static lemma ChainIsPredicted(v1: bool, crcSeed: bv16, mtu: nat, tid: CanFrame.TransferId, payload: seq<Byte>)
      requires mtu >= 2
      ensures |CanSpool.Chain(v1, crcSeed, mtu, tid, payload)| == CanSpool.PredictFrameCount(|payload|, mtu) >= 1
    {
      CanSpool.PredictionIsExact(v1, crcSeed, mtu, tid, payload);
    }

    static lemma SeqnoIsNew(c: Pipeline)
      requires Inv(c)
      ensures c.seqno !in c.transfers
    {
      assert IndexedAt(c, c.seqno);
    }

    static method MakePending(pending: seq<set<nat>>, t: nat, enabled: seq<bool>) returns (updated: seq<set<nat>>)
      requires |enabled| == |pending|
      ensures updated == Enlist(pending, t, enabled)
    {
      updated := pending;
      for i := 0 to |pending|
        invariant |updated| == |pending|
        invariant forall j :: 0 <= j < |pending| ==>
          updated[j] == if j < i && enabled[j] then pending[j] + {t} else pending[j]
      {
        if enabled[i] {
          updated := updated[i := updated[i] + {t}];
        }
      }
    }

    /** The end of a successful push: frames, cursors and indices of the new transfer. */
    method EnqueueSpool(msb: nat, deadline: int, chain: seq<seq<Byte>>, enabled: seq<bool>)
      requires |enabled| == |pending|
      modifies this`refs, this`queueSize, this`transfers, this`deadlines, this`agewise, this`pending, this`seqno,
               this`spooled
      ensures Model() == Enqueue(old(Model()), msb, deadline, |chain|, enabled)
      ensures spooled == old(spooled)[old(seqno) := chain] && old(seqno) in transfers
    {
      hide ChainRefs, CountTrue, StartCursors, Enlist;
      var t := seqno;
      var frames, count := |chain|, CountTrue(enabled);
      var updated := MakePending(pending, t, enabled);
      refs, queueSize := refs + ChainRefs(t, frames, count), queueSize + frames;
      transfers := transfers[t := Transfer(deadline, msb, frames, false, StartCursors(enabled, frames))];
      deadlines, agewise := deadlines + {t}, agewise + [t];
      pending, seqno := updated, seqno + 1;
      spooled := spooled[t := chain];
    }

    /** Offers frames to the driver of an interface until it refuses one. */
    method EjectPending(i: nat, answers: seq<Answer>)
      requires Valid() && i < |pending|
      modifies this
      ensures spooled == old(spooled)
      ensures Valid() && Model() == Eject(old(Model()), i, answers)
    {
      hide Retain, Depart, Retire, Inv;
      ghost var first := Model();
      var n := 0;
      assert answers[0..] == answers;
      while n < |answers| && pending[i] != {}
        invariant n <= |answers| && i < |pending|
        invariant Valid() && spooled == old(spooled)
        invariant Eject(Model(), i, answers[n..]) == Eject(first, i, answers)
        decreases |answers| - n
      {
        ghost var was := Model();
        PendingOf(was, i);
        var t := MinPending(i);
        FirstPendingUnique(was, i, t, MostUrgent(was, i));
        assert answers[n..][1..] == answers[n + 1..];
        OfferKeepsInv(was, i, t, answers[n].retained);
        OfferShape(was, FrameId(t, transfers[t].cursors[i]));
        Offer(i, t, answers[n]);
        if !answers[n].accepted {
          return;
        }
        FinishShape(Model(), i, t);
        LeaveQueue(i, t);
        n := n + 1;
      }
    }

    /** An accepted frame leaves, and its transfer with the last one. */
    method LeaveQueue(i: nat, t: nat)
      requires Valid() && i < |pending| && t in pending[i] && t in transfers && i < |transfers[t].cursors|
      modifies this`log, this`transfers, this`agewise, this`deadlines, this`pending, this`refs, this`queueSize
      ensures t in Depart(old(Model()), i, t).transfers
      ensures Valid() && Model() == Finish(Depart(old(Model()), i, t), t)
    {
      hide Inv, Counted, Depart, Finish;
      PendingOf(Model(), i);
      DepartQueued(Model(), i, t);
      DepartKeepsInv(Model(), i, t);
      CountedOf(Model());
      DepartCounted(Model(), i, t);
      DepartFrame(i, t);
      FinishTransfer(t);
    }

    static lemma PendingOf(c: Pipeline, i: nat)
      requires Inv(c) && i < |c.pending|
      ensures c.pending[i] <= c.transfers.Keys
      ensures forall t :: t in c.pending[i] ==> (
        |c.transfers[t].cursors| == |c.pending| && c.transfers[t].cursors[i] < c.transfers[t].frames)
    {
      PendingIsQueued(c, i);
    }

    /** The driver sees a frame, and may keep a reference to it. */
    method Offer(i: nat, t: nat, answer: Answer)
      requires i < |pending| && t in transfers && i < |transfers[t].cursors|
      modifies this`refs, this`holds
      ensures Model() == if answer.retained then Retain(old(Model()), FrameId(t, old(transfers[t].cursors[i])))
              else old(Model())
    {
      var f := FrameId(t, transfers[t].cursors[i]);
      if answer.retained && f in refs {
        refs := refs[f := refs[f] + 1];
        holds := holds[f := Held(Model(), f) + 1];
      }
    }

    method DepartFrame(i: nat, t: nat)
      requires Counted(Model()) && i < |pending| && t in transfers && i < |transfers[t].cursors|
      modifies this`log, this`transfers, this`refs, this`queueSize, this`pending
      ensures Model() == Depart(old(Model()), i, t)
    {
      hide DecRef;
      RefsArePositive();
      hide Counted;
      var tr := transfers[t];
      var k := tr.cursors[i];
      log := log + [Emission(i, FrameId(t, k), tr.msb, nodeId, tr.MultiFrame())];
      transfers := transfers[t := tr.(departed := true, cursors := tr.cursors[i := k + 1])];
      RefCountDec(FrameId(t, k));
      if k + 1 == tr.frames {
        pending := pending[i := pending[i] - {t}];
      }
    }

    method FinishTransfer(t: nat)
      requires Counted(Model()) && t in transfers
      modifies this`transfers, this`agewise, this`deadlines, this`pending, this`refs, this`queueSize
      ensures Model() == Finish(old(Model()), t)
    {
      hide Retire;
      var isPending := exists i :: 0 <= i < |pending| && t in pending[i];
      if !isPending {
        RetireTransfer(t);
      }
    }

    /** Retires the multi-frame transfers that have begun to leave. */
    method PurgeContinuations()
      requires Valid()
      modifies this
      ensures spooled == old(spooled)
      ensures Valid() && Model() == PurgeFrom(old(Model()), old(agewise))
    {
      hide Retire, Inv, Counted, Retain, Depart, Finish, FirstPending;
      var ages := agewise;
      ghost var first := Model();
      assert ages[0..] == ages;
      for n := 0 to |ages|
        invariant Valid() && spooled == old(spooled)
        invariant PurgeFrom(Model(), ages[n..]) == PurgeFrom(first, ages)
      {
        var t := ages[n];
        assert ages[n..][1..] == ages[n + 1..];
        if t in transfers && transfers[t].MultiFrame() && transfers[t].departed {
          InvButOf(Model(), t);
          RetireKeepsInv(Model(), t);
          CountedOf(Model());
          RetireTransfer(t);
        }
      }
    }

    /** Adopts another node-ID; transfers under way must not continue under it. */
    method SetNodeId(node: nat)
      requires Valid()
      modifies this
      ensures spooled == old(spooled)
      ensures Valid() && Model() == SetNode(old(Model()), node)
    {
      hide Inv, PurgeFrom;
      if node != nodeId {
        NodeKeepsInv(Model(), node);
        nodeId := node;
        PurgeContinuations();
      }
    }
  }
}
