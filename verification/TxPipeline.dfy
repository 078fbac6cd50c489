/** The transmission queue: transfers, cursors, reference-counted frames and the three indices over them. */
module TxPipeline {
  import opened Sets

  /** A queued transfer. Its identity is its sequence number; cursor i is the first frame that interface i
      has not sent yet, and the chain length when there is none. */
  datatype Transfer = Transfer(deadline: int, msb: nat, frames: nat, departed: bool, cursors: seq<nat>)
  {
    predicate MultiFrame() { frames > 1 }
  }

  /** Frame k of the chain of transfer t. */
  datatype FrameId = FrameId(t: nat, k: nat)

  /** A frame handed to the driver, under the CAN ID made of the kept bits and the node-ID of the moment. */
  datatype Emission = Emission(iface: nat, frame: FrameId, msb: nat, node: nat, multiFrame: bool)

  /** What the driver answers to an offered frame, and whether it keeps a reference to it. */
  datatype Answer = Answer(accepted: bool, retained: bool)

  datatype Pipeline = Pipeline(
    capacity: nat,
    queueSize: int,
    seqno: nat,
    transfers: map<nat, Transfer>,
    agewise: seq<nat>,
    deadlines: set<nat>,
    pending: seq<set<nat>>,
    refs: map<FrameId, nat>,
    node: nat,
    holds: map<FrameId, nat>,
    log: seq<Emission>)

  // ---------------------------------------------------------------- reference counting

  /** How many cursors still reach frame k. */
  function CountReach(cursors: seq<nat>, k: nat): nat {
    if cursors == [] then 0 else (if cursors[0] <= k then 1 else 0) + CountReach(cursors[1..], k)
  }

  function Reach(c: Pipeline, f: FrameId): nat {
    if f.t in c.transfers && f.k < c.transfers[f.t].frames then CountReach(c.transfers[f.t].cursors, f.k) else 0
  }

  function Held(c: Pipeline, f: FrameId): nat { if f in c.holds then c.holds[f] else 0 }

  function DecRef(refs: map<FrameId, nat>, f: FrameId): map<FrameId, nat> {
    if f !in refs then refs else if refs[f] <= 1 then refs - {f} else refs[f := refs[f] - 1]
  }

  /** Drops the references every cursor of a transfer still holds. */
  function Release(refs: map<FrameId, nat>, t: nat, tr: Transfer): map<FrameId, nat> {
    map f | f in refs && !(f.t == t && f.k < tr.frames && refs[f] <= CountReach(tr.cursors, f.k)) ::
      if f.t == t && f.k < tr.frames then refs[f] - CountReach(tr.cursors, f.k) else refs[f]
  }

  // ---------------------------------------------------------------- operations

  function Without(s: seq<nat>, t: nat): seq<nat> {
    if s == [] then [] else (if s[0] == t then [] else [s[0]]) + Without(s[1..], t)
  }

  function Unlist(pending: seq<set<nat>>, t: nat): (r: seq<set<nat>>)
    ensures |r| == |pending|
  {
    seq(|pending|, i requires 0 <= i < |pending| => pending[i] - {t})
  }

  function WithRefs(c: Pipeline, refs: map<FrameId, nat>): Pipeline {
    c.(refs := refs, queueSize := c.queueSize - |c.refs| + |refs|)
  }

  function Retire(c: Pipeline, t: nat): Pipeline
    requires t in c.transfers
  {
    WithRefs(c, Release(c.refs, t, c.transfers[t])).(
      pending := Unlist(c.pending, t),
      deadlines := c.deadlines - {t},
      agewise := Without(c.agewise, t),
      transfers := c.transfers - {t})
  }

  /** Sacrifices the oldest transfers until the frames fit or nothing is left. */
  ghost function Sacrifice(c: Pipeline, needed: nat): Pipeline
    requires Inv(c)
    decreases |c.agewise|
  {
    if needed <= c.capacity - c.queueSize || c.agewise == [] then c
    else
      HeadIsQueued(c);
      RetireKeepsInv(c, c.agewise[0]);
      WithoutShrinks(c.agewise, c.agewise[0]);
      Sacrifice(Retire(c, c.agewise[0]), needed)
  }

  predicate DeadlineBefore(c: Pipeline, a: nat, b: nat)
    requires a in c.transfers && b in c.transfers
  {
    c.transfers[a].deadline < c.transfers[b].deadline || (c.transfers[a].deadline == c.transfers[b].deadline && a <= b)
  }

  predicate PendingBefore(c: Pipeline, a: nat, b: nat)
    requires a in c.transfers && b in c.transfers
  {
    c.transfers[a].msb < c.transfers[b].msb || (c.transfers[a].msb == c.transfers[b].msb && a <= b)
  }

  /** The leftmost node of the deadline index. */
  ghost predicate FirstDeadline(c: Pipeline, t: nat)
    requires c.deadlines <= c.transfers.Keys
  {
    t in c.deadlines && forall u :: u in c.deadlines ==> DeadlineBefore(c, t, u)
  }

  /** The leftmost node of a pending index. */
  ghost predicate FirstPending(c: Pipeline, i: nat, t: nat)
    requires i < |c.pending| && c.pending[i] <= c.transfers.Keys
  {
    t in c.pending[i] && forall u :: u in c.pending[i] ==> PendingBefore(c, t, u)
  }

  // ---------------------------------------------------------------- the invariant

  ghost predicate Distinct(s: seq<nat>) {
    forall i, j :: 0 <= i < j < |s| ==> s[i] != s[j]
  }

  /** A queued transfer is in the deadline index and the age list, and in exactly the pending indices
      of its unfinished cursors; a transfer that is not queued is in none of them. */
  ghost predicate IndexedAt(c: Pipeline, t: nat) {
    && (t in c.agewise <==> t in c.transfers)
    && (t in c.transfers ==> |c.transfers[t].cursors| == |c.pending| && t < c.seqno)
    && (forall i :: 0 <= i < |c.pending| ==>
          (t in c.pending[i] <==> t in c.transfers && c.transfers[t].cursors[i] < c.transfers[t].frames))
  }

  ghost predicate Indexed(c: Pipeline) {
    Distinct(c.agewise) && c.deadlines == c.transfers.Keys && forall t: nat :: IndexedAt(c, t)
  }

  ghost predicate Unfinished(tr: Transfer) {
    exists i :: 0 <= i < |tr.cursors| && tr.cursors[i] < tr.frames
  }

  /** A frame lives exactly as long as a cursor or an outside holder needs it. */
  ghost predicate CountedAt(c: Pipeline, f: FrameId) {
    && (f in c.refs <==> Reach(c, f) + Held(c, f) > 0)
    && (f in c.refs ==> c.refs[f] == Reach(c, f) + Held(c, f) && f.t < c.seqno)
  }

  ghost predicate Counted(c: Pipeline) {
    (forall f: FrameId :: CountedAt(c, f)) && c.queueSize == |c.refs|
  }

  ghost predicate Inv(c: Pipeline) {
    && Indexed(c)
    && Counted(c)
    && c.queueSize <= c.capacity
    && (forall t :: t in c.transfers ==> Unfinished(c.transfers[t]))
  }

  // ---------------------------------------------------------------- list lemmas

  lemma {:induction false} WithoutMembers(s: seq<nat>, t: nat)
    ensures forall x :: x in Without(s, t) <==> x in s && x != t
    ensures |Without(s, t)| <= |s|
  {
    if s != [] {
      WithoutMembers(s[1..], t);
    }
  }

  lemma {:induction false} WithoutShrinks(s: seq<nat>, t: nat)
    requires t in s
    ensures |Without(s, t)| < |s|
  {
    WithoutMembers(s[1..], t);
    if s[0] != t {
      WithoutShrinks(s[1..], t);
    }
  }

  lemma {:induction false} WithoutDistinct(s: seq<nat>, t: nat)
    requires Distinct(s)
    ensures Distinct(Without(s, t))
  {
    if s != [] {
      WithoutDistinct(s[1..], t);
      WithoutMembers(s[1..], t);
      var rest := Without(s[1..], t);
      forall i, j | 0 <= i < j < |Without(s, t)| ensures Without(s, t)[i] != Without(s, t)[j] {
        if s[0] != t && i == 0 {
          assert Without(s, t)[j] == rest[j - 1];
          assert rest[j - 1] in rest;
        }
      }
    }
  }

  // ---------------------------------------------------------------- retiring

  lemma {:induction false} RetireIndexed(c: Pipeline, t: nat)
    requires Indexed(c) && t in c.transfers
    ensures Indexed(Retire(c, t))
  {
    hide Release;
    WithoutMembers(c.agewise, t);
    WithoutDistinct(c.agewise, t);
    forall u: nat ensures IndexedAt(Retire(c, t), u) {
      assert IndexedAt(c, u);
    }
  }

  lemma {:induction false} RetireCountedAt(c: Pipeline, t: nat, f: FrameId)
    requires CountedAt(c, f) && t in c.transfers
    ensures CountedAt(Retire(c, t), f)
  {
    hide Without, Unlist, CountReach;
  }

  lemma {:induction false} RetireCounted(c: Pipeline, t: nat)
    requires Counted(c) && t in c.transfers
    ensures Counted(Retire(c, t))
  {
    forall f: FrameId ensures CountedAt(Retire(c, t), f) {
      assert CountedAt(c, f);
      RetireCountedAt(c, t, f);
    }
    hide CountedAt, Release, Without, Unlist;
  }

  lemma {:induction false} ReleaseShrinks(refs: map<FrameId, nat>, t: nat, tr: Transfer)
    ensures |Release(refs, t, tr)| <= |refs|
  {
    SubsetSize(Release(refs, t, tr).Keys, refs.Keys);
  }

  /** The invariant with one transfer exempt from having anything left to send. */
  ghost predicate InvBut(c: Pipeline, t: nat) {
    && Indexed(c)
    && Counted(c)
    && c.queueSize <= c.capacity
    && (forall u :: u in c.transfers && u != t ==> Unfinished(c.transfers[u]))
  }

  lemma {:induction false} RetireKeepsInv(c: Pipeline, t: nat)
    requires InvBut(c, t) && t in c.transfers
    ensures Inv(Retire(c, t))
    ensures Retire(c, t).queueSize <= c.queueSize
  {
    RetireIndexed(c, t);
    RetireCounted(c, t);
    ReleaseShrinks(c.refs, t, c.transfers[t]);
    hide Indexed, Counted, Release, Without, Unlist;
  }

  // ---------------------------------------------------------------- expiration

  lemma HasFirstDeadline(c: Pipeline)
    requires c.deadlines <= c.transfers.Keys && c.deadlines != {}
    ensures exists t :: FirstDeadline(c, t)
  {
    var before := (a: nat, b: nat) => a in c.transfers && b in c.transfers && DeadlineBefore(c, a, b);
    var t := FirstBy(c.deadlines, before);
    forall u | u in c.deadlines ensures DeadlineBefore(c, t, u) {
      assert before(t, u);
    }
    assert FirstDeadline(c, t);
  }

  lemma HasFirstPending(c: Pipeline, i: nat)
    requires i < |c.pending| && c.pending[i] <= c.transfers.Keys && c.pending[i] != {}
    ensures exists t :: FirstPending(c, i, t)
  {
    var before := (a: nat, b: nat) => a in c.transfers && b in c.transfers && PendingBefore(c, a, b);
    var t := FirstBy(c.pending[i], before);
    forall u | u in c.pending[i] ensures PendingBefore(c, t, u) {
      assert before(t, u);
    }
    assert FirstPending(c, i, t);
  }

  ghost function EarliestDeadline(c: Pipeline): (t: nat)
    requires c.deadlines <= c.transfers.Keys && c.deadlines != {}
    ensures FirstDeadline(c, t)
  {
    HasFirstDeadline(c);
    var t :| FirstDeadline(c, t);
    t
  }

  ghost function MostUrgent(c: Pipeline, i: nat): (t: nat)
    requires i < |c.pending| && c.pending[i] <= c.transfers.Keys && c.pending[i] != {}
    ensures FirstPending(c, i, t)
  {
    HasFirstPending(c, i);
    var t :| FirstPending(c, i, t);
    t
  }

  /** Retires the transfers whose deadline has passed, earliest first. */
  ghost function Expire(c: Pipeline, now: int): Pipeline
    requires Inv(c)
    decreases |c.deadlines|
  {
    if c.deadlines == {} then c
    else
      var t := EarliestDeadline(c);
      if now <= c.transfers[t].deadline then c
      else
        RetireKeepsInv(c, t);
        Expire(Retire(c, t), now)
  }

  // ---------------------------------------------------------------- publishing

  /** The frames of the chain of a transfer, each with the same number of references. */
  function ChainRefs(t: nat, frames: nat, count: nat): map<FrameId, nat> {
    map k: nat | k < frames :: FrameId(t, k) := count
  }

  function CountTrue(enabled: seq<bool>): nat {
    if enabled == [] then 0 else (if enabled[0] then 1 else 0) + CountTrue(enabled[1..])
  }

  function StartCursors(enabled: seq<bool>, frames: nat): (r: seq<nat>)
    ensures |r| == |enabled| && forall i :: 0 <= i < |r| ==> r[i] == if enabled[i] then 0 else frames
  {
    seq(|enabled|, i requires 0 <= i < |enabled| => if enabled[i] then 0 else frames)
  }

  function Enlist(pending: seq<set<nat>>, t: nat, enabled: seq<bool>): (r: seq<set<nat>>)
    requires |enabled| == |pending|
    ensures |r| == |pending|
    ensures forall i :: 0 <= i < |pending| ==> r[i] == if enabled[i] then pending[i] + {t} else pending[i]
  {
    seq(|pending|, i requires 0 <= i < |pending| => if enabled[i] then pending[i] + {t} else pending[i])
  }

  /** Queues a spooled chain on the enabled interfaces. */
  function Enqueue(c: Pipeline, msb: nat, deadline: int, frames: nat, enabled: seq<bool>): Pipeline
    requires |enabled| == |c.pending|
  {
    var t := c.seqno;
    c.(seqno := t + 1,
       queueSize := c.queueSize + frames,
       refs := c.refs + ChainRefs(t, frames, CountTrue(enabled)),
       transfers := c.transfers[t := Transfer(deadline, msb, frames, false, StartCursors(enabled, frames))],
       agewise := c.agewise + [t],
       deadlines := c.deadlines + {t},
       pending := Enlist(c.pending, t, enabled))
  }

  /** The whole publishing call; the sequence number is spent whether or not it succeeds. */
  ghost function Publish(c: Pipeline, now: int, msb: nat, deadline: int, frames: nat, enabled: seq<bool>): Pipeline
    requires Inv(c) && |enabled| == |c.pending| && frames >= 1
  {
    if CountTrue(enabled) == 0 then c.(seqno := c.seqno + 1)
    else
      ExpireKeepsInv(c, now);
      var d := Expire(c, now);
      if frames > d.capacity then d.(seqno := d.seqno + 1)
      else
        var e := Sacrifice(d, frames);
        SacrificeFits(d, frames);
        ExpireShape(c, now);
        if frames <= e.capacity - e.queueSize then Enqueue(e, msb, deadline, frames, enabled)
        else e.(seqno := e.seqno + 1)
  }

  // ---------------------------------------------------------------- emission

  function Retain(c: Pipeline, f: FrameId): Pipeline {
    if f !in c.refs then c
    else c.(refs := c.refs[f := c.refs[f] + 1], holds := c.holds[f := Held(c, f) + 1])
  }

  /** The holder of a retained frame lets it go. */
  function LetGo(c: Pipeline, f: FrameId): Pipeline
    requires Held(c, f) > 0
  {
    WithRefs(c, DecRef(c.refs, f)).(holds := if c.holds[f] == 1 then c.holds - {f} else c.holds[f := c.holds[f] - 1])
  }

  /** An accepted frame leaves: the cursor moves on and its reference is dropped. */
  function Depart(c: Pipeline, i: nat, t: nat): Pipeline
    requires i < |c.pending| && t in c.transfers && i < |c.transfers[t].cursors|
  {
    var tr := c.transfers[t];
    var k := tr.cursors[i];
    var moved := tr.(departed := true, cursors := tr.cursors[i := k + 1]);
    WithRefs(c, DecRef(c.refs, FrameId(t, k))).(
      transfers := c.transfers[t := moved],
      pending := if k + 1 == tr.frames then c.pending[i := c.pending[i] - {t}] else c.pending,
      log := c.log + [Emission(i, FrameId(t, k), tr.msb, c.node, tr.MultiFrame())])
  }

  predicate IsPending(c: Pipeline, t: nat) {
    exists i :: 0 <= i < |c.pending| && t in c.pending[i]
  }

  /** Retires a transfer once no interface has frames of it left. */
  function Finish(c: Pipeline, t: nat): Pipeline
    requires t in c.transfers
  {
    if IsPending(c, t) then c else Retire(c, t)
  }

  /** Offers frames to the driver of one interface until it refuses one. */
  ghost function Eject(c: Pipeline, i: nat, answers: seq<Answer>): Pipeline
    requires Inv(c) && i < |c.pending|
    decreases |answers|
  {
    PendingIsQueued(c, i);
    if answers == [] || c.pending[i] == {} then c
    else
      var t := MostUrgent(c, i);
      var f := FrameId(t, c.transfers[t].cursors[i]);
      var offered := if answers[0].retained then Retain(c, f) else c;
      OfferKeepsInv(c, i, t, answers[0].retained);
      OfferShape(c, f);
      if !answers[0].accepted then offered
      else
        DepartKeepsInv(offered, i, t);
        Eject(Finish(Depart(offered, i, t), t), i, answers[1..])
  }

  // ---------------------------------------------------------------- node-ID change

  /** Retires the multi-frame transfers that have begun to leave, in age order. */
  ghost function PurgeFrom(c: Pipeline, ages: seq<nat>): Pipeline
    requires Inv(c)
    decreases |ages|
  {
    if ages == [] then c
    else if ages[0] in c.transfers && c.transfers[ages[0]].MultiFrame() && c.transfers[ages[0]].departed then
      RetireKeepsInv(c, ages[0]);
      PurgeFrom(Retire(c, ages[0]), ages[1..])
    else PurgeFrom(c, ages[1..])
  }

  ghost function SetNode(c: Pipeline, node: nat): Pipeline
    requires Inv(c)
  {
    NodeKeepsInv(c, node);
    if node == c.node then c else PurgeFrom(c.(node := node), c.agewise)
  }

  // ---------------------------------------------------------------- what every operation keeps

  lemma {:induction false} SacrificeFits(c: Pipeline, needed: nat)
    requires Inv(c)
    ensures var e := Sacrifice(c, needed);
            Inv(e) && |e.pending| == |c.pending| && e.capacity == c.capacity && e.seqno == c.seqno
    decreases |c.agewise|
  {
    hide Inv, Retire;
    if !(needed <= c.capacity - c.queueSize || c.agewise == []) {
      HeadIsQueued(c);
      RetireKeepsInv(c, c.agewise[0]);
      WithoutShrinks(c.agewise, c.agewise[0]);
      RetireShape(c, c.agewise[0]);
      SacrificeFits(Retire(c, c.agewise[0]), needed);
    }
  }

  lemma HeadIsQueued(c: Pipeline)
    requires Inv(c) && c.agewise != []
    ensures c.agewise[0] in c.transfers && InvBut(c, c.agewise[0])
  {
    assert IndexedAt(c, c.agewise[0]);
  }

  lemma PendingIsQueued(c: Pipeline, i: nat)
    requires Indexed(c) && i < |c.pending|
    ensures c.pending[i] <= c.transfers.Keys
    ensures forall t :: t in c.pending[i] ==> (
      |c.transfers[t].cursors| == |c.pending| && c.transfers[t].cursors[i] < c.transfers[t].frames)
  {
    forall t | t in c.pending[i]
      ensures t in c.transfers && |c.transfers[t].cursors| == |c.pending|
      ensures c.transfers[t].cursors[i] < c.transfers[t].frames
    {
      assert IndexedAt(c, t);
    }
  }

  lemma RetireShape(c: Pipeline, t: nat)
    requires t in c.transfers
    ensures var r := Retire(c, t);
      && |r.pending| == |c.pending| && r.capacity == c.capacity && r.seqno == c.seqno && r.node == c.node
      && r.log == c.log && r.holds == c.holds && r.agewise == Without(c.agewise, t)
      && r.transfers == c.transfers - {t} && r.deadlines == c.deadlines - {t}
  {
  }

  lemma {:induction false} ExpireKeepsInv(c: Pipeline, now: int)
    requires Inv(c)
    ensures Inv(Expire(c, now))
    decreases |c.deadlines|
  {
    hide Retire;
    if c.deadlines != {} {
      var t := EarliestDeadline(c);
      if now > c.transfers[t].deadline {
        RetireKeepsInv(c, t);
        RetireShape(c, t);
        ExpireKeepsInv(Retire(c, t), now);
      }
    }
  }

  lemma {:induction false} ExpireShape(c: Pipeline, now: int)
    requires Inv(c)
    ensures var e := Expire(c, now);
            |e.pending| == |c.pending| && e.capacity == c.capacity && e.node == c.node && e.log == c.log
              && e.seqno == c.seqno
    decreases |c.deadlines|
  {
    hide Retire;
    if c.deadlines != {} {
      var t := EarliestDeadline(c);
      if now > c.transfers[t].deadline {
        RetireKeepsInv(c, t);
        RetireShape(c, t);
        ExpireShape(Retire(c, t), now);
      }
    }
  }

  /** Exactly the transfers past their deadline are gone. */
  lemma {:induction false} ExpireIsExact(c: Pipeline, now: int, t: nat)
    requires Inv(c)
    ensures t in Expire(c, now).transfers <==> t in c.transfers && now <= c.transfers[t].deadline
    ensures t in Expire(c, now).transfers ==> Expire(c, now).transfers[t] == c.transfers[t]
    decreases |c.deadlines|
  {
    hide Retire;
    if c.deadlines != {} {
      var first := EarliestDeadline(c);
      if now > c.transfers[first].deadline {
        RetireKeepsInv(c, first);
        RetireShape(c, first);
        ExpireIsExact(Retire(c, first), now, t);
      }
    }
  }

  lemma {:induction false} CountStart(enabled: seq<bool>, frames: nat, k: nat)
    requires k < frames
    ensures CountReach(StartCursors(enabled, frames), k) == CountTrue(enabled)
    decreases |enabled|
  {
    if enabled != [] {
      CountStart(enabled[1..], frames, k);
      assert StartCursors(enabled, frames)[1..] == StartCursors(enabled[1..], frames);
    }
  }

  lemma {:induction false} SomeEnabled(enabled: seq<bool>)
    requires CountTrue(enabled) > 0
    ensures exists i :: 0 <= i < |enabled| && enabled[i]
  {
    if !enabled[0] {
      SomeEnabled(enabled[1..]);
      var i :| 0 <= i < |enabled[1..]| && enabled[1..][i];
      assert enabled[i + 1];
    }
  }

  lemma {:induction false} ChainRefsSize(t: nat, frames: nat, count: nat)
    ensures |ChainRefs(t, frames, count)| == frames
  {
    if frames > 0 {
      ChainRefsSize(t, frames - 1, count);
      assert ChainRefs(t, frames, count) == ChainRefs(t, frames - 1, count)[FrameId(t, frames - 1) := count];
    }
  }

  lemma {:induction false} UnionSize(a: map<FrameId, nat>, b: map<FrameId, nat>)
    requires a.Keys !! b.Keys
    ensures |a + b| == |a| + |b|
  {
    assert (a + b).Keys == a.Keys + b.Keys;
  }

  lemma {:induction false} EnqueueIndexed(c: Pipeline, msb: nat, deadline: int, frames: nat, enabled: seq<bool>)
    requires Indexed(c) && |enabled| == |c.pending| && frames >= 1
    ensures Indexed(Enqueue(c, msb, deadline, frames, enabled))
  {
    hide CountTrue, ChainRefs;
    var e := Enqueue(c, msb, deadline, frames, enabled);
    assert IndexedAt(c, c.seqno);
    forall u: nat ensures IndexedAt(e, u) {
      assert IndexedAt(c, u);
    }
    assert e.deadlines == e.transfers.Keys;
  }

  lemma {:induction false} EnqueueCountedAt(
      c: Pipeline, msb: nat, deadline: int, frames: nat, enabled: seq<bool>, f: FrameId)
    requires CountedAt(c, f) && c.seqno !in c.transfers && |enabled| == |c.pending| && CountTrue(enabled) > 0
    ensures CountedAt(Enqueue(c, msb, deadline, frames, enabled), f)
  {
    hide CountTrue, CountReach;
    if f.t == c.seqno && f.k < frames {
      CountStart(enabled, frames, f.k);
    }
  }

  lemma {:induction false} EnqueueCounted(c: Pipeline, msb: nat, deadline: int, frames: nat, enabled: seq<bool>)
    requires Counted(c) && c.seqno !in c.transfers && |enabled| == |c.pending| && CountTrue(enabled) > 0
    ensures Counted(Enqueue(c, msb, deadline, frames, enabled))
  {
    var chain := ChainRefs(c.seqno, frames, CountTrue(enabled));
    forall f: FrameId | f in c.refs ensures f.t < c.seqno {
      assert CountedAt(c, f);
    }
    ChainRefsSize(c.seqno, frames, CountTrue(enabled));
    UnionSize(c.refs, chain);
    forall f: FrameId ensures CountedAt(Enqueue(c, msb, deadline, frames, enabled), f) {
      assert CountedAt(c, f);
      EnqueueCountedAt(c, msb, deadline, frames, enabled, f);
    }
    hide CountTrue, ChainRefs, CountedAt;
  }

  lemma {:induction false} EnqueueUnfinished(c: Pipeline, msb: nat, deadline: int, frames: nat, enabled: seq<bool>)
    requires |enabled| == |c.pending| && CountTrue(enabled) > 0 && frames >= 1
    requires forall t :: t in c.transfers ==> Unfinished(c.transfers[t])
    ensures forall t :: t in Enqueue(c, msb, deadline, frames, enabled).transfers ==>
                          Unfinished(Enqueue(c, msb, deadline, frames, enabled).transfers[t])
  {
    SomeEnabled(enabled);
    var i :| 0 <= i < |enabled| && enabled[i];
    var tr := Transfer(deadline, msb, frames, false, StartCursors(enabled, frames));
    assert tr.cursors[i] < tr.frames;
    assert Unfinished(tr);
    hide CountTrue, ChainRefs, Enlist, StartCursors, Unfinished;
  }

  lemma {:induction false} EnqueueKeepsInv(c: Pipeline, msb: nat, deadline: int, frames: nat, enabled: seq<bool>)
    requires Inv(c) && |enabled| == |c.pending| && CountTrue(enabled) > 0 && frames >= 1
    requires frames <= c.capacity - c.queueSize
    ensures Inv(Enqueue(c, msb, deadline, frames, enabled))
  {
    assert IndexedAt(c, c.seqno);
    hide IndexedAt, CountedAt, CountTrue, ChainRefs, Enlist, StartCursors, Unfinished;
    EnqueueIndexed(c, msb, deadline, frames, enabled);
    EnqueueCounted(c, msb, deadline, frames, enabled);
    EnqueueUnfinished(c, msb, deadline, frames, enabled);
    hide Indexed, Counted;
  }

  lemma {:induction false} SpendSeqnoKeepsInv(c: Pipeline)
    requires Inv(c)
    ensures Inv(c.(seqno := c.seqno + 1))
  {
    var d := c.(seqno := c.seqno + 1);
    forall t: nat ensures IndexedAt(d, t) {
      assert IndexedAt(c, t);
    }
    forall f: FrameId ensures CountedAt(d, f) {
      assert CountedAt(c, f);
    }
    hide IndexedAt, CountedAt, Unfinished;
  }

  lemma {:induction false} PublishKeepsInv(
      c: Pipeline, now: int, msb: nat, deadline: int, frames: nat, enabled: seq<bool>)
    requires Inv(c) && |enabled| == |c.pending| && frames >= 1
    ensures Inv(Publish(c, now, msb, deadline, frames, enabled))
  {
    hide Inv, Enqueue, Expire, Sacrifice, CountTrue;
    SpendSeqnoKeepsInv(c);
    if CountTrue(enabled) > 0 {
      ExpireKeepsInv(c, now);
      ExpireShape(c, now);
      var d := Expire(c, now);
      SpendSeqnoKeepsInv(d);
      if frames <= d.capacity {
        SacrificeFits(d, frames);
        var e := Sacrifice(d, frames);
        SpendSeqnoKeepsInv(e);
        if frames <= e.capacity - e.queueSize {
          EnqueueKeepsInv(e, msb, deadline, frames, enabled);
        }
      }
    }
  }

  /** Only the references and the outside holds change, and they change together. */
  lemma {:induction false} RefsKeepInv(c: Pipeline, d: Pipeline)
    requires Inv(c) && (forall f: FrameId :: CountedAt(d, f)) && d.queueSize == |d.refs| <= c.queueSize
    requires d == c.(refs := d.refs, holds := d.holds, queueSize := d.queueSize)
    ensures Inv(d)
  {
    hide CountedAt, Unfinished;
    forall t: nat ensures IndexedAt(d, t) {
      assert IndexedAt(c, t);
    }
    hide IndexedAt;
  }

  lemma {:induction false} RetainKeepsInv(c: Pipeline, f: FrameId)
    requires Inv(c)
    ensures Inv(Retain(c, f))
  {
    var r := Retain(c, f);
    if f in c.refs {
      assert r.refs.Keys == c.refs.Keys;
      assert |r.refs| == |r.refs.Keys| == |c.refs|;
      forall g: FrameId ensures CountedAt(r, g) {
        assert CountedAt(c, g);
      }
      RefsKeepInv(c, r);
    }
    hide Inv, CountedAt;
  }

  lemma {:induction false} LetGoCountedAt(c: Pipeline, f: FrameId, g: FrameId)
    requires CountedAt(c, f) && CountedAt(c, g) && Held(c, f) > 0
    ensures CountedAt(LetGo(c, f), g)
  {
  }

  lemma {:induction false} LetGoKeepsInv(c: Pipeline, f: FrameId)
    requires Inv(c) && Held(c, f) > 0
    ensures Inv(LetGo(c, f))
  {
    assert CountedAt(c, f);
    forall g: FrameId ensures CountedAt(LetGo(c, f), g) {
      assert CountedAt(c, g);
      LetGoCountedAt(c, f, g);
    }
    DecRefShrinks(c.refs, f);
    hide CountedAt, DecRef;
    RefsKeepInv(c, LetGo(c, f));
  }

  lemma {:induction false} DecRefShrinks(refs: map<FrameId, nat>, f: FrameId)
    ensures |DecRef(refs, f)| <= |refs|
  {
    SubsetSize(DecRef(refs, f).Keys, refs.Keys);
  }

  lemma {:induction false} CountReachMoved(cursors: seq<nat>, i: nat, k: nat)
    requires i < |cursors|
    ensures CountReach(cursors[i := cursors[i] + 1], k) == CountReach(cursors, k) - (if k == cursors[i] then 1 else 0)
    ensures k >= cursors[i] ==> CountReach(cursors, k) >= 1
  {
    if i > 0 {
      CountReachMoved(cursors[1..], i - 1, k);
      assert cursors[i := cursors[i] + 1][1..] == cursors[1..][i - 1 := cursors[1..][i - 1] + 1];
    } else {
      assert cursors[0 := cursors[0] + 1][1..] == cursors[1..];
    }
  }

  lemma {:induction false} DepartIndexed(c: Pipeline, i: nat, t: nat)
    requires Indexed(c) && i < |c.pending| && t in c.pending[i] && t in c.transfers && i < |c.transfers[t].cursors|
    ensures Indexed(Depart(c, i, t))
  {
    hide DecRef;
    forall u: nat ensures IndexedAt(Depart(c, i, t), u) {
      assert IndexedAt(c, u);
    }
  }

  lemma {:induction false} DepartCountedAt(c: Pipeline, i: nat, t: nat, f: FrameId, g: FrameId)
    requires i < |c.pending| && t in c.transfers && i < |c.transfers[t].cursors|
    requires f == FrameId(t, c.transfers[t].cursors[i]) && f.k < c.transfers[t].frames
    requires CountedAt(c, f) && CountedAt(c, g)
    ensures CountedAt(Depart(c, i, t), g)
  {
    hide CountReach;
    CountReachMoved(c.transfers[t].cursors, i, f.k);
    CountReachMoved(c.transfers[t].cursors, i, g.k);
  }

  lemma {:induction false} DepartCounted(c: Pipeline, i: nat, t: nat)
    requires Counted(c) && i < |c.pending| && t in c.transfers && i < |c.transfers[t].cursors|
    requires c.transfers[t].cursors[i] < c.transfers[t].frames
    ensures Counted(Depart(c, i, t)) && Depart(c, i, t).queueSize <= c.queueSize
  {
    var f := FrameId(t, c.transfers[t].cursors[i]);
    assert CountedAt(c, f);
    DecRefShrinks(c.refs, f);
    forall g: FrameId ensures CountedAt(Depart(c, i, t), g) {
      assert CountedAt(c, g);
      DepartCountedAt(c, i, t, f, g);
    }
    hide CountedAt, DecRef;
  }

  /** Sending one frame, with the retirement it may bring about. */
  lemma {:induction false} DepartKeepsInv(c: Pipeline, i: nat, t: nat)
    requires Inv(c) && i < |c.pending| && t in c.pending[i] && t in c.transfers && i < |c.transfers[t].cursors|
    ensures Inv(Finish(Depart(c, i, t), t))
  {
    PendingIsQueued(c, i);
    DepartIndexed(c, i, t);
    DepartCounted(c, i, t);
    var d := Depart(c, i, t);
    forall u | u in d.transfers && u != t ensures Unfinished(d.transfers[u]) {
      assert d.transfers[u] == c.transfers[u];
    }
    if IsPending(d, t) {
      var j :| 0 <= j < |d.pending| && t in d.pending[j];
      assert IndexedAt(d, t);
      assert d.transfers[t].cursors[j] < d.transfers[t].frames;
    } else {
      hide Indexed, Counted, Depart, Unfinished;
      RetireKeepsInv(d, t);
    }
  }

  /** The most urgent transfer of an interface still has a live frame to offer there. */
  lemma {:induction false} OfferKeepsInv(c: Pipeline, i: nat, t: nat, retained: bool)
    requires Inv(c) && i < |c.pending| && t in c.pending[i] && t in c.transfers && i < |c.transfers[t].cursors|
    ensures var f := FrameId(t, c.transfers[t].cursors[i]);
      f in c.refs && Inv(if retained then Retain(c, f) else c)
  {
    PendingIsQueued(c, i);
    var f := FrameId(t, c.transfers[t].cursors[i]);
    CountReachMoved(c.transfers[t].cursors, i, f.k);
    assert CountedAt(c, f);
    RetainKeepsInv(c, f);
  }

  lemma {:induction false} EjectKeepsInv(c: Pipeline, i: nat, answers: seq<Answer>)
    requires Inv(c) && i < |c.pending|
    ensures Inv(Eject(c, i, answers))
    decreases |answers|
  {
    PendingIsQueued(c, i);
    hide Retain, Depart, Retire, Inv;
    if !(answers == [] || c.pending[i] == {}) {
      var t := MostUrgent(c, i);
      var f := FrameId(t, c.transfers[t].cursors[i]);
      var offered := if answers[0].retained then Retain(c, f) else c;
      OfferKeepsInv(c, i, t, answers[0].retained);
      if answers[0].accepted {
        OfferShape(c, f);
        DepartKeepsInv(offered, i, t);
        FinishShape(offered, i, t);
        DepartQueued(offered, i, t);
        EjectKeepsInv(Finish(Depart(offered, i, t), t), i, answers[1..]);
      }
    }
  }

  lemma OfferShape(c: Pipeline, f: FrameId)
    ensures var r := Retain(c, f);
      r.pending == c.pending && r.transfers == c.transfers && r.log == c.log && r.node == c.node && r.seqno == c.seqno
  {
  }

  lemma DepartQueued(c: Pipeline, i: nat, t: nat)
    requires i < |c.pending| && t in c.transfers && i < |c.transfers[t].cursors|
    ensures t in Depart(c, i, t).transfers
  {
  }

  lemma FinishShape(c: Pipeline, i: nat, t: nat)
    requires i < |c.pending| && t in c.transfers && i < |c.transfers[t].cursors|
    ensures var r := Finish(Depart(c, i, t), t); |r.pending| == |c.pending| && r.node == c.node && r.seqno == c.seqno
  {
  }

  lemma {:induction false} NodeKeepsInv(c: Pipeline, node: nat)
    requires Inv(c)
    ensures Inv(c.(node := node))
  {
    var d := c.(node := node);
    forall t: nat ensures IndexedAt(d, t) {
      assert IndexedAt(c, t);
    }
    forall f: FrameId ensures CountedAt(d, f) {
      assert CountedAt(c, f);
    }
    hide IndexedAt, CountedAt, Unfinished;
  }

  lemma {:induction false} PurgeKeepsInv(c: Pipeline, ages: seq<nat>)
    requires Inv(c)
    ensures Inv(PurgeFrom(c, ages)) && |PurgeFrom(c, ages).pending| == |c.pending| && PurgeFrom(c, ages).node == c.node
    decreases |ages|
  {
    hide Retire;
    if ages != [] {
      if ages[0] in c.transfers && c.transfers[ages[0]].MultiFrame() && c.transfers[ages[0]].departed {
        RetireKeepsInv(c, ages[0]);
        RetireShape(c, ages[0]);
        PurgeKeepsInv(Retire(c, ages[0]), ages[1..]);
      } else {
        PurgeKeepsInv(c, ages[1..]);
      }
    }
  }

  /** A purge takes exactly the multi-frame transfers that have begun to leave. */
  lemma {:induction false} PurgeIsExact(c: Pipeline, ages: seq<nat>, t: nat)
    requires Inv(c)
    ensures var d := PurgeFrom(c, ages);
            && (t in d.transfers <==>
                t in c.transfers && !(t in ages && c.transfers[t].frames > 1 && c.transfers[t].departed))
            && (t in d.transfers ==> d.transfers[t] == c.transfers[t])
    decreases |ages|
  {
    hide Retire, Inv;
    if ages != [] {
      if ages[0] in c.transfers && c.transfers[ages[0]].MultiFrame() && c.transfers[ages[0]].departed {
        InvIsInvBut(c, ages[0]);
        RetireKeepsInv(c, ages[0]);
        RetireShape(c, ages[0]);
        PurgeIsExact(Retire(c, ages[0]), ages[1..], t);
      } else {
        PurgeIsExact(c, ages[1..], t);
      }
    }
  }

  lemma InvIsInvBut(c: Pipeline, t: nat)
    requires Inv(c)
    ensures InvBut(c, t)
  {
  }

  /** A new node-ID is taken over, at the expense of exactly the transfers under way; the old one changes nothing. */
  lemma {:induction false} SetNodeIsExact(c: Pipeline, node: nat, t: nat)
    requires Inv(c)
    ensures var d := SetNode(c, node);
            && d.node == node && d.log == c.log && d.seqno == c.seqno
            && (t in d.transfers <==>
                t in c.transfers && (node == c.node || c.transfers[t].frames == 1 || !c.transfers[t].departed))
            && (t in d.transfers ==> d.transfers[t] == c.transfers[t])
  {
    NodeKeepsInv(c, node);
    PurgeKeepsInv(c.(node := node), c.agewise);
    PurgeKeepsLog(c.(node := node), c.agewise);
    PurgeIsExact(c.(node := node), c.agewise, t);
    assert IndexedAt(c, t);
    assert t in c.transfers ==> c.transfers[t].frames > 0;
  }

  lemma {:induction false} PurgeKeepsLog(c: Pipeline, ages: seq<nat>)
    requires Inv(c)
    ensures PurgeFrom(c, ages).log == c.log && PurgeFrom(c, ages).seqno == c.seqno
    decreases |ages|
  {
    hide Retire, Inv;
    if ages != [] {
      if ages[0] in c.transfers && c.transfers[ages[0]].MultiFrame() && c.transfers[ages[0]].departed {
        InvIsInvBut(c, ages[0]);
        RetireKeepsInv(c, ages[0]);
        RetireShape(c, ages[0]);
        PurgeKeepsLog(Retire(c, ages[0]), ages[1..]);
      } else {
        PurgeKeepsLog(c, ages[1..]);
      }
    }
  }

  /** A frame that is held from outside lives, and each hold is one more reference. */
  lemma {:induction false} HeldFramesLive(c: Pipeline, f: FrameId)
    requires Inv(c)
    ensures Held(c, f) > 0 ==> f in c.refs
    ensures f in c.refs ==> Held(Retain(c, f), f) == Held(c, f) + 1 && Retain(c, f).refs[f] == c.refs[f] + 1
    ensures f !in c.refs ==> Retain(c, f) == c
    ensures Held(c, f) > 0 ==> Held(LetGo(c, f), f) == Held(c, f) - 1
  {
    assert CountedAt(c, f);
  }

  // ---------------------------------------------------------------- making room

  lemma {:induction false} WithoutAbsent(s: seq<nat>, t: nat)
    requires t !in s
    ensures Without(s, t) == s
  {
    if s != [] {
      WithoutAbsent(s[1..], t);
    }
  }

  lemma {:induction false} HeadRetired(c: Pipeline)
    requires Inv(c) && c.agewise != []
    ensures c.agewise[0] in c.transfers
    ensures var d := Retire(c, c.agewise[0]);
            && Inv(d) && d.agewise == c.agewise[1..] && d.transfers == c.transfers - {c.agewise[0]}
            && d.capacity == c.capacity && d.seqno == c.seqno && d.node == c.node && d.log == c.log
            && d.holds == c.holds && |d.pending| == |c.pending|
  {
    hide Retire;
    HeadIsQueued(c);
    RetireKeepsInv(c, c.agewise[0]);
    RetireShape(c, c.agewise[0]);
    WithoutAbsent(c.agewise[1..], c.agewise[0]);
  }

  /** The queue without its k oldest transfers. */
  ghost function WithoutOldest(c: Pipeline, k: nat): (d: Pipeline)
    requires Inv(c) && k <= |c.agewise|
    ensures Inv(d) && d.agewise == c.agewise[k..]
    decreases k
  {
    if k == 0 then c
    else
      HeadRetired(c);
      WithoutOldest(Retire(c, c.agewise[0]), k - 1)
  }

  /** The transfers that stay are as they were. */
  lemma {:induction false} OthersUntouched(c: Pipeline, k: nat, t: nat)
    requires Inv(c) && k <= |c.agewise|
    ensures var d := WithoutOldest(c, k);
            && (t in d.transfers <==> t in c.transfers && t !in c.agewise[..k])
            && (t in d.transfers ==> d.transfers[t] == c.transfers[t])
            && d.capacity == c.capacity && d.seqno == c.seqno && d.node == c.node && d.log == c.log
            && d.holds == c.holds && |d.pending| == |c.pending|
    decreases k
  {
    hide Retire, Inv;
    if k > 0 {
      HeadRetired(c);
      OthersUntouched(Retire(c, c.agewise[0]), k - 1, t);
      assert c.agewise[..k] == [c.agewise[0]] + c.agewise[1..][..k - 1];
    }
  }

  predicate Fits(c: Pipeline, needed: nat) { needed <= c.capacity - c.queueSize }

  /** Room is made at the expense of the oldest transfers only, and of no more of them than it takes. */
  lemma {:induction false} SacrificeTakesTheOldest(c: Pipeline, needed: nat) returns (k: nat)
    requires Inv(c)
    ensures k <= |c.agewise| && Sacrifice(c, needed) == WithoutOldest(c, k)
    ensures Sacrifice(c, needed).agewise == c.agewise[k..]
    ensures forall j: nat :: j < k ==> !Fits(WithoutOldest(c, j), needed)
    ensures k < |c.agewise| ==> Fits(WithoutOldest(c, k), needed)
    decreases |c.agewise|
  {
    hide Retire, Inv;
    k := 0;
    if !(Fits(c, needed) || c.agewise == []) {
      HeadRetired(c);
      var d := Retire(c, c.agewise[0]);
      var rest := SacrificeTakesTheOldest(d, needed);
      k := rest + 1;
      forall j: nat | j < k ensures !Fits(WithoutOldest(c, j), needed) {
        if j > 0 {
          assert WithoutOldest(c, j) == WithoutOldest(d, j - 1);
        }
      }
    }
  }

  /** The frames that somebody outside the queue has kept: no sacrifice frees them. */
  ghost function Kept(c: Pipeline): set<FrameId> { set f | f in c.holds && c.holds[f] > 0 }

  lemma {:induction false} KeptTakeRoom(c: Pipeline)
    requires Inv(c)
    ensures |Kept(c)| <= c.queueSize && (c.agewise == [] ==> |Kept(c)| == c.queueSize)
  {
    forall f: FrameId ensures f in Kept(c) ==> f in c.refs.Keys {
      assert CountedAt(c, f);
    }
    forall f: FrameId ensures c.agewise == [] && f in c.refs.Keys ==> f in Kept(c) {
      assert CountedAt(c, f);
      assert IndexedAt(c, f.t);
    }
    SubsetSize(Kept(c), c.refs.Keys);
    if c.agewise == [] {
      assert c.refs.Keys == Kept(c);
    }
  }

  /** Room is made for as much as the capacity leaves beside the frames kept outside, and for no more. */
  lemma {:induction false} RoomCanBeMade(c: Pipeline, needed: nat)
    requires Inv(c)
    ensures var e := Sacrifice(c, needed);
            needed <= e.capacity - e.queueSize <==> needed + |Kept(c)| <= c.capacity
    decreases |c.agewise|
  {
    hide Retire, Inv;
    KeptTakeRoom(c);
    if needed > c.capacity - c.queueSize && c.agewise != [] {
      HeadIsQueued(c);
      RetireKeepsInv(c, c.agewise[0]);
      RetireShape(c, c.agewise[0]);
      WithoutShrinks(c.agewise, c.agewise[0]);
      RoomCanBeMade(Retire(c, c.agewise[0]), needed);
    }
  }

  /** A message is queued exactly if its frames fit the capacity beside those that are kept outside. */
  lemma {:induction false} PublishQueuesIff(
      c: Pipeline, now: int, msb: nat, deadline: int, frames: nat, enabled: seq<bool>)
    requires Inv(c) && |enabled| == |c.pending| && frames >= 1
    ensures var d, t := Publish(c, now, msb, deadline, frames, enabled), c.seqno;
            && d.seqno == t + 1
            && (t in d.transfers <==>
                frames + |Kept(c)| <= c.capacity && exists i :: 0 <= i < |enabled| && enabled[i])
            && (t in d.transfers ==>
                  && d.transfers[t].deadline == deadline && d.transfers[t].msb == msb && d.transfers[t].frames == frames
                  && !d.transfers[t].departed && |d.transfers[t].cursors| == |enabled|
                  && forall i :: 0 <= i < |enabled| ==> d.transfers[t].cursors[i] == if enabled[i] then 0 else frames)
  {
    hide Inv, Expire, Sacrifice, CountTrue, ChainRefs;
    SeqnoIsNew(c);
    SomeCounted(enabled);
    if CountTrue(enabled) > 0 {
      ExpireKeepsInv(c, now);
      ExpireShape(c, now);
      ExpireKeepsHolds(c, now);
      var d := Expire(c, now);
      SeqnoIsNew(d);
      if frames <= d.capacity {
        SacrificeFits(d, frames);
        SeqnoIsNew(Sacrifice(d, frames));
        RoomCanBeMade(d, frames);
      }
    }
  }

  lemma {:induction false} SomeCounted(enabled: seq<bool>)
    ensures CountTrue(enabled) > 0 <==> exists i :: 0 <= i < |enabled| && enabled[i]
  {
    if enabled != [] {
      SomeCounted(enabled[1..]);
      if enabled[0] {
        assert enabled[0];
      } else {
        if i :| 0 <= i < |enabled[1..]| && enabled[1..][i] {
          assert enabled[i + 1];
        }
        if i :| 0 <= i < |enabled| && enabled[i] {
          assert enabled[1..][i - 1];
        }
      }
    }
  }

  lemma SeqnoIsNew(c: Pipeline)
    requires Inv(c)
    ensures c.seqno !in c.transfers
  {
    assert IndexedAt(c, c.seqno);
  }

  lemma {:induction false} ExpireKeepsHolds(c: Pipeline, now: int)
    requires Inv(c)
    ensures Expire(c, now).holds == c.holds
    decreases |c.deadlines|
  {
    hide Retire;
    if c.deadlines != {} {
      var t := EarliestDeadline(c);
      if now > c.transfers[t].deadline {
        RetireKeepsInv(c, t);
        RetireShape(c, t);
        ExpireKeepsHolds(Retire(c, t), now);
      }
    }
  }

  lemma NothingQueued(c: Pipeline)
    requires Inv(c) && c.holds == map[] && c.agewise == []
    ensures c.queueSize == 0
  {
    forall f: FrameId ensures f !in c.refs {
      assert CountedAt(c, f);
      assert IndexedAt(c, f.t);
    }
    assert c.refs == map[];
  }
}
