/** Transfers over UDP: fragments may come in any order and repeatedly. */
module UdpReassembly {
  import opened Sets
  import opened Arith
  import opened Crc32
  import opened UdpFrame
  import opened Wire
  import opened Wrapping

  const TID_MOD: nat := 0x1_0000_0000_0000

  // ---------------------------------------------------------------- sending

  function Count(n: nat): nat { (n + MTU - 1) / MTU }

  function Offset(k: nat): nat { MTU * k }

  function Chunk(data: seq<Byte>, k: nat): (c: seq<Byte>)
    requires k < Count(|data|)
    ensures |c| > 0
  {
    data[Offset(k)..Min(Offset(k + 1), |data|)]
  }

  function HeaderAt(meta: Header, data: seq<Byte>, k: nat): Header
    requires k < Count(|data|)
  {
    meta.(offset := Offset(k), prefixCRC := Crc32c(data[..Offset(k) + |Chunk(data, k)|]))
  }

  function Datagram(meta: Header, data: seq<Byte>, k: nat): seq<Byte>
    requires k < Count(|data|)
  {
    Serialized(HeaderAt(meta, data, k)) + Chunk(data, k)
  }

  method SendTransfer(meta: Header, data: seq<Byte>) returns (sent: seq<seq<Byte>>)
    ensures |sent| == Count(|data|) && forall k :: 0 <= k < |sent| ==> sent[k] == Datagram(meta, data, k)
  {
    hide Crc32c, Serialized;
    sent := [];
    var n, offset := |data|, 0;
    while offset < n
      invariant 0 <= offset <= n && |sent| <= Count(n)
      invariant offset == Min(Offset(|sent|), n)
      invariant forall k :: 0 <= k < |sent| ==> sent[k] == Datagram(meta, data, k)
    {
      var chunk := Min(n - offset, MTU);
      var prefix := Compute(data[..offset + chunk]);
      var buf := new Byte[HEADER_SIZE];
      SerializeHeader(buf, meta.(offset := offset, prefixCRC := prefix));
      sent := sent + [buf[..] + data[offset..offset + chunk]];
      offset := offset + chunk;
    }
  }

  ghost predicate Sendable(meta: Header, data: seq<Byte>) {
    Fits(meta) && 0 < |data| < 0x1_0000_0000 && meta.transferSize == |data|
  }

  function FrameAt(meta: Header, data: seq<Byte>, k: nat): Frame
    requires k < Count(|data|)
  {
    Frame(HeaderAt(meta, data, k), Chunk(data, k))
  }

  /** Every datagram of a transfer passes the receiver's checks. */
  lemma {:induction false} DatagramsParse(meta: Header, data: seq<Byte>, k: nat)
    requires Sendable(meta, data) && k < Count(|data|)
    ensures Deserialize(Datagram(meta, data, k)) == Some(FrameAt(meta, data, k))
  {
    hide Deserialize, Serialized, Crc32c;
    if k == 0 {
      assert data[..Offset(k) + |Chunk(data, k)|] == Chunk(data, k);
    }
    FrameRoundTrip(HeaderAt(meta, data, k), Chunk(data, k));
  }

  // ---------------------------------------------------------------- receiving

  datatype Slot = Slot(tid: nat, total: nat, received: nat, frags: map<nat, seq<Byte>>)

  datatype Session = Session(inited: bool, lastTID: nat, slot: Option<Slot>)

  datatype Delivery = Delivery(tid: nat, payload: seq<Byte>)

  datatype Accepted = Accepted(session: Session, delivered: seq<Delivery>)

  /** a is ahead of b by less than half of the 48-bit range. */
  predicate TidGreater(a: nat, b: nat) { 0 < (a - b) % TID_MOD < TID_MOD / 2 }

  ghost predicate IsLeast(s: set<nat>, k: nat) { k in s && forall j :: j in s ==> k <= j }

  lemma {:induction false} HasLeast(s: set<nat>)
    requires s != {}
    ensures exists k: nat :: IsLeast(s, k)
  {
    var k := LeastOf(s);
    assert IsLeast(s, k);
  }

  ghost function Least(s: set<nat>): (k: nat)
    requires s != {}
    ensures IsLeast(s, k)
  {
    HasLeast(s);
    var k: nat :| IsLeast(s, k);
    k
  }

  /** The fragments in the order of their offsets. */
  ghost function Joined(frags: map<nat, seq<Byte>>): seq<Byte>
    decreases |frags|
  {
    if frags == map[] then []
    else
      var k := Least(frags.Keys);
      frags[k] + Joined(frags - {k})
  }

  ghost function Store(slot: Slot, f: Frame): Slot {
    if f.header.offset in slot.frags then slot
    else slot.(frags := slot.frags[f.header.offset := f.payload], received := slot.received + |f.payload|)
  }

  ghost function Continue(s: Session, slot: Slot, f: Frame): Accepted {
    var stored := Store(slot, f);
    if stored.received >= stored.total then
      Accepted(Session(true, f.header.transferID, None), [Delivery(f.header.transferID, Joined(stored.frags))])
    else Accepted(Session(true, s.lastTID, Some(stored)), [])
  }

  /** One less, in 64 bits. */
  function Before(tid: nat): nat { if tid == 0 then MOD - 1 else tid - 1 }

  ghost function Accept(s: Session, f: Frame): Accepted {
    var tid := f.header.transferID;
    var last := if s.inited then s.lastTID else Before(tid);
    var t := Session(true, last, s.slot);
    if s.slot.Some? && s.slot.value.tid == tid then Continue(t, s.slot.value, f)
    else if !TidGreater(tid, last) then Accepted(t, [])
    else Continue(t, Slot(tid, f.header.transferSize, 0, map[]), f)
  }

  ghost function Feed(s: Session, frames: seq<Frame>): Accepted {
    if frames == [] then Accepted(s, [])
    else
      var was := Feed(s, frames[..|frames| - 1]);
      var now := Accept(was.session, frames[|frames| - 1]);
      Accepted(now.session, was.delivered + now.delivered)
  }

  // ---------------------------------------------------------------- deliveries move forward

  lemma {:induction false} JustBefore(tid: nat)
    requires tid < TID_MOD
    ensures TidGreater(tid, Before(tid)) && !TidGreater(tid, tid)
  {
    if tid == 0 {
      DivUnique(0 - (MOD - 1), TID_MOD, -0x1_0000, 1);
    } else {
      DivSmall(1, TID_MOD);
    }
    DivSmall(0, TID_MOD);
  }

  /** A transfer in progress is ahead of the last delivered one. */
  ghost predicate Ahead(s: Session) {
    s.slot.Some? ==> s.inited && TidGreater(s.slot.value.tid, s.lastTID)
  }

  lemma {:induction false} AcceptKeepsAhead(s: Session, f: Frame)
    requires Ahead(s) && f.header.transferID < TID_MOD
    ensures var a := Accept(s, f);
            && Ahead(a.session) && a.session.inited
            && (a.delivered == [] ==> s.inited ==> a.session.lastTID == s.lastTID)
            && (a.delivered != [] ==>
                  && |a.delivered| == 1 && a.session.lastTID == a.delivered[0].tid == f.header.transferID
                  && (s.inited ==> TidGreater(a.delivered[0].tid, s.lastTID)))
  {
    JustBefore(f.header.transferID);
    hide TidGreater, Before, Joined;
  }

  lemma {:induction false} DeliveriesAdvance(s: Session, frames: seq<Frame>)
    requires Ahead(s) && forall i :: 0 <= i < |frames| ==> frames[i].header.transferID < TID_MOD
    ensures var a := Feed(s, frames);
            && Ahead(a.session) && (s.inited || frames != [] ==> a.session.inited)
            && (a.delivered != [] ==> a.session.lastTID == a.delivered[|a.delivered| - 1].tid)
            && (a.delivered == [] ==> s.inited ==> a.session.lastTID == s.lastTID)
            && (a.delivered != [] ==> s.inited ==> TidGreater(a.delivered[0].tid, s.lastTID))
            && forall i :: 0 < i < |a.delivered| ==> TidGreater(a.delivered[i].tid, a.delivered[i - 1].tid)
  {
    if frames != [] {
      var was := Feed(s, frames[..|frames| - 1]);
      DeliveriesAdvance(s, frames[..|frames| - 1]);
      AcceptKeepsAhead(was.session, frames[|frames| - 1]);
      hide Accept, TidGreater, Ahead;
    }
  }

  /** a is some steps ahead of b, fewer than half of the numbers there are. */
  ghost predicate StepsAhead(a: nat, b: nat) {
    exists k: nat :: 0 < k < 0x8000_0000_0000 && a == Advanced(b, k)
  }

  function Advanced(tid: nat, k: nat): nat { (tid + k) % 0x1_0000_0000_0000 }

  lemma {:induction false} GreaterIsSteps(a: nat, b: nat)
    requires a < TID_MOD
    ensures TidGreater(a, b) <==> StepsAhead(a, b)
  {
    var k: nat := (a - b) % TID_MOD;
    AdvanceBack(a, b);
    if TidGreater(a, b) {
      assert a == Advanced(b, k);
    }
    if StepsAhead(a, b) {
      var j: nat :| 0 < j < 0x8000_0000_0000 && a == Advanced(b, j);
      BackAdvanced(b, j);
    }
  }

  lemma {:induction false} AdvanceBack(a: nat, b: nat)
    requires a < TID_MOD
    ensures Advanced(b, (a - b) % TID_MOD) == a
  {
    var q, k := (a - b) / TID_MOD, (a - b) % TID_MOD;
    DivUnique(b + k, TID_MOD, -q, a);
  }

  lemma {:induction false} BackAdvanced(b: nat, k: nat)
    requires k < TID_MOD
    ensures (Advanced(b, k) - b) % TID_MOD == k
  {
    var q := (b + k) / TID_MOD;
    DivUnique(Advanced(b, k) - b, TID_MOD, -q, k);
  }

  /** Whatever arrives, the numbers of the transfers delivered from one sender only move forward. */
  lemma {:induction false} DeliveriesMoveForward(s: Session, frames: seq<Frame>)
    requires Ahead(s) && forall i :: 0 <= i < |frames| ==> frames[i].header.transferID < TID_MOD
    ensures var a := Feed(s, frames);
            && Ahead(a.session) && (s.inited || frames != [] ==> a.session.inited)
            && (a.delivered != [] ==> a.session.lastTID == a.delivered[|a.delivered| - 1].tid)
            && (a.delivered == [] ==> s.inited ==> a.session.lastTID == s.lastTID)
            && (a.delivered != [] ==> s.inited ==> StepsAhead(a.delivered[0].tid, s.lastTID))
            && forall i :: 0 < i < |a.delivered| ==> StepsAhead(a.delivered[i].tid, a.delivered[i - 1].tid)
  {
    DeliveriesAdvance(s, frames);
    DeliveredNumbers(s, frames);
    var out := Feed(s, frames).delivered;
    hide Feed, TidGreater, StepsAhead, Ahead;
    forall i | 0 < i < |out| ensures StepsAhead(out[i].tid, out[i - 1].tid) {
      GreaterIsSteps(out[i].tid, out[i - 1].tid);
    }
    if out != [] && s.inited {
      GreaterIsSteps(out[0].tid, s.lastTID);
    }
  }

  lemma {:induction false} DeliveredNumbers(s: Session, frames: seq<Frame>)
    requires forall i :: 0 <= i < |frames| ==> frames[i].header.transferID < TID_MOD
    ensures forall i :: 0 <= i < |Feed(s, frames).delivered| ==> Feed(s, frames).delivered[i].tid < TID_MOD
  {
    if frames != [] {
      DeliveredNumbers(s, frames[..|frames| - 1]);
      hide Joined, TidGreater, Before;
    }
  }

  // ---------------------------------------------------------------- one transfer, any order

  /** The bytes of the chunks below n that have been seen. */
  ghost function Got(size: nat, seen: set<nat>, n: nat): nat {
    if n == 0 then 0
    else Got(size, seen, n - 1) + if n - 1 in seen then Min(Offset(n), size) - Min(Offset(n - 1), size) else 0
  }

  lemma {:induction false} GotOfMore(size: nat, seen: set<nat>, k: nat, n: nat)
    requires k !in seen
    ensures Got(size, seen + {k}, n) ==
            Got(size, seen, n) + if k < n then Min(Offset(k + 1), size) - Min(Offset(k), size) else 0
  {
    if n > 0 {
      GotOfMore(size, seen, k, n - 1);
    }
  }

  /** All bytes are there exactly when all chunks are. */
  lemma {:induction false} GotAll(size: nat, seen: set<nat>, n: nat)
    requires n <= Count(size)
    ensures Got(size, seen, n) <= Min(Offset(n), size)
    ensures Got(size, seen, n) == Min(Offset(n), size) <==> forall k :: 0 <= k < n ==> k in seen
  {
    if n > 0 {
      GotAll(size, seen, n - 1);
    }
  }

  ghost predicate Filled(data: seq<Byte>, frags: map<nat, seq<Byte>>, seen: set<nat>) {
    && (forall k :: k in seen ==> k < Count(|data|) && Offset(k) in frags && frags[Offset(k)] == Chunk(data, k))
    && (forall o :: o in frags ==> exists k: nat :: k in seen && o == Offset(k))
  }

  ghost predicate Complete(data: seq<Byte>, seen: set<nat>) { forall k :: 0 <= k < Count(|data|) ==> k in seen }

  lemma {:induction false} LeastIsFirst(data: seq<Byte>, frags: map<nat, seq<Byte>>, seen: set<nat>, j: nat)
    requires Filled(data, frags, seen) && j in seen && forall k :: k in seen ==> j <= k
    ensures Offset(j) in frags && frags[Offset(j)] == Chunk(data, j) && Least(frags.Keys) == Offset(j)
  {
    var o := Least(frags.Keys);
    var k: nat :| k in seen && o == Offset(k);
    assert IsLeast(frags.Keys, o);
    assert Offset(j) in frags.Keys;
  }

  lemma {:induction false} FilledLess(data: seq<Byte>, frags: map<nat, seq<Byte>>, seen: set<nat>, j: nat)
    requires Filled(data, frags, seen) && j in seen
    ensures Filled(data, frags - {Offset(j)}, seen - {j})
  {
    hide Chunk;
    var less := frags - {Offset(j)};
    forall o | o in less ensures exists k: nat :: k in seen - {j} && o == Offset(k) {
      var k: nat :| k in seen && o == Offset(k);
      assert k in seen - {j};
    }
  }

  lemma {:induction false} ChunkAndRest(data: seq<Byte>, j: nat)
    requires j < Count(|data|)
    ensures data[Min(Offset(j), |data|)..] == Chunk(data, j) + data[Min(Offset(j + 1), |data|)..]
  {
  }

  /** The first fragment is chunk j, and the others are joined after it. */
  lemma {:induction false} JoinedStep(data: seq<Byte>, frags: map<nat, seq<Byte>>, seen: set<nat>, j: nat)
    requires Filled(data, frags, seen) && j in seen && forall k :: k in seen ==> j <= k
    ensures Joined(frags) == Chunk(data, j) + Joined(frags - {Offset(j)})
  {
    LeastIsFirst(data, frags, seen, j);
    hide Chunk, Filled, Offset, Least;
  }

  lemma {:induction false} JoinedNone(data: seq<Byte>, frags: map<nat, seq<Byte>>, seen: set<nat>)
    requires Filled(data, frags, seen) && seen == {}
    ensures Joined(frags) == [] == data[Min(Offset(Count(|data|)), |data|)..]
  {
    assert frags.Keys == {};
  }

  /** What is left of the fragments from chunk j on. */
  lemma {:induction false} JoinedFrom(data: seq<Byte>, frags: map<nat, seq<Byte>>, seen: set<nat>, j: nat)
    requires Filled(data, frags, seen) && j <= Count(|data|)
    requires forall k :: k in seen <==> j <= k < Count(|data|)
    ensures Joined(frags) == data[Min(Offset(j), |data|)..]
    decreases Count(|data|) - j
  {
    hide Joined, Offset, Chunk, Filled, Count;
    if j == Count(|data|) {
      JoinedNone(data, frags, seen);
    } else {
      JoinedStep(data, frags, seen, j);
      FilledLess(data, frags, seen, j);
      ChunkAndRest(data, j);
      JoinedFrom(data, frags - {Offset(j)}, seen - {j}, j + 1);
    }
  }

  lemma {:induction false} JoinedIsData(data: seq<Byte>, frags: map<nat, seq<Byte>>, seen: set<nat>)
    requires Filled(data, frags, seen) && Complete(data, seen)
    ensures Joined(frags) == data
  {
    JoinedFrom(data, frags, seen, 0);
    assert data[0..] == data;
  }

  lemma {:induction false} FilledMore(data: seq<Byte>, frags: map<nat, seq<Byte>>, seen: set<nat>, k: nat)
    requires Filled(data, frags, seen) && k < Count(|data|)
    ensures Offset(k) in frags <==> k in seen
    ensures k !in seen ==> Filled(data, frags[Offset(k) := Chunk(data, k)], seen + {k})
  {
    var more := frags[Offset(k) := Chunk(data, k)];
    forall o | o in more ensures exists j: nat :: j in seen + {k} && o == Offset(j) {
      if o in frags {
        var j: nat :| j in seen && o == Offset(j);
        assert j in seen + {k};
      } else {
        assert k in seen + {k};
      }
    }
  }

  /** The session while some chunks of the transfer are in. */
  ghost predicate Partial(s: Session, tid: nat, data: seq<Byte>, seen: set<nat>) {
    && s.inited && TidGreater(tid, s.lastTID) && s.slot.Some?
    && var slot := s.slot.value;
       slot.tid == tid && slot.total == |data| && Filled(data, slot.frags, seen)
       && slot.received == Got(|data|, seen, Count(|data|))
  }

  ghost predicate Ready(s: Session, tid: nat) {
    && (s.inited ==> 0 < (tid - s.lastTID) % 0x1_0000_0000_0000 < 0x8000_0000_0000)
    && (s.slot.Some? ==> s.slot.value.tid != tid)
  }

  /** Storing a chunk, or a copy of one, keeps the count exact. */
  lemma {:induction false} StoreStep(meta: Header, data: seq<Byte>, slot: Slot, seen: set<nat>, k: nat)
    requires k < Count(|data|) && Filled(data, slot.frags, seen) && slot.received == Got(|data|, seen, Count(|data|))
    ensures var stored := Store(slot, FrameAt(meta, data, k));
            && stored.tid == slot.tid && stored.total == slot.total
            && Filled(data, stored.frags, seen + {k}) && stored.received == Got(|data|, seen + {k}, Count(|data|))
  {
    hide Crc32c;
    FilledMore(data, slot.frags, seen, k);
    if k !in seen {
      GotOfMore(|data|, seen, k, Count(|data|));
    } else {
      assert seen + {k} == seen;
    }
    hide Filled, Got;
  }

  lemma {:induction false} GotWhole(data: seq<Byte>, seen: set<nat>)
    ensures Got(|data|, seen, Count(|data|)) >= |data| <==> Complete(data, seen)
  {
    GotAll(|data|, seen, Count(|data|));
    assert Min(Offset(Count(|data|)), |data|) == |data|;
    hide Got;
  }

  lemma {:induction false} ContinueStep(s: Session, meta: Header, data: seq<Byte>, slot: Slot, seen: set<nat>, k: nat)
    requires Sendable(meta, data) && k < Count(|data|) && s.inited && TidGreater(meta.transferID, s.lastTID)
    requires slot.tid == meta.transferID && slot.total == |data| && Filled(data, slot.frags, seen)
    requires slot.received == Got(|data|, seen, Count(|data|)) && !Complete(data, seen)
    ensures var a := Continue(s, slot, FrameAt(meta, data, k));
            if Complete(data, seen + {k}) then
              a == Accepted(Session(true, meta.transferID, None), [Delivery(meta.transferID, data)])
            else a.delivered == [] && Partial(a.session, meta.transferID, data, seen + {k})
  {
    hide Crc32c, TidGreater, Joined, Store, Filled, Got, Complete;
    StoreStep(meta, data, slot, seen, k);
    GotWhole(data, seen + {k});
    if Complete(data, seen + {k}) {
      JoinedIsData(data, Store(slot, FrameAt(meta, data, k)).frags, seen + {k});
    }
  }

  lemma {:induction false} FirstFrame(s: Session, meta: Header, data: seq<Byte>, k: nat)
    requires Sendable(meta, data) && Ready(s, meta.transferID) && k < Count(|data|)
    ensures var a := Accept(s, FrameAt(meta, data, k));
            if Complete(data, {k}) then
              a == Accepted(Session(true, meta.transferID, None), [Delivery(meta.transferID, data)])
            else a.delivered == [] && Partial(a.session, meta.transferID, data, {k})
  {
    JustBefore(meta.transferID);
    var tid := meta.transferID;
    var t := Session(true, if s.inited then s.lastTID else Before(tid), s.slot);
    var slot := Slot(tid, |data|, 0, map[]);
    GotAll(|data|, {}, Count(|data|));
    GotNone(|data|, Count(|data|));
    assert Filled(data, map[], {});
    assert 0 !in {};
    assert !Complete(data, {});
    hide Crc32c, TidGreater, Before, Continue;
    assert {} + {k} == {k};
    ContinueStep(t, meta, data, slot, {}, k);
  }

  lemma {:induction false} GotNone(size: nat, n: nat)
    ensures Got(size, {}, n) == 0
  {
    if n > 0 {
      GotNone(size, n - 1);
    }
  }

  lemma {:induction false} LaterFrame(s: Session, meta: Header, data: seq<Byte>, seen: set<nat>, k: nat)
    requires Sendable(meta, data) && k < Count(|data|)
    requires Partial(s, meta.transferID, data, seen) && !Complete(data, seen)
    ensures var a := Accept(s, FrameAt(meta, data, k));
            if Complete(data, seen + {k}) then
              a == Accepted(Session(true, meta.transferID, None), [Delivery(meta.transferID, data)])
            else a.delivered == [] && Partial(a.session, meta.transferID, data, seen + {k})
  {
    hide Crc32c, TidGreater, Continue, Filled, Got, Complete;
    ContinueStep(s, meta, data, s.slot.value, seen, k);
  }

  lemma {:induction false} LateFrame(s: Session, meta: Header, data: seq<Byte>, k: nat)
    requires Sendable(meta, data) && k < Count(|data|) && s == Session(true, meta.transferID, None)
    ensures Accept(s, FrameAt(meta, data, k)) == Accepted(s, [])
  {
    JustBefore(meta.transferID);
  }

  ghost function Frames(meta: Header, data: seq<Byte>, order: seq<nat>): seq<Frame>
    requires forall i :: 0 <= i < |order| ==> order[i] < Count(|data|)
  {
    seq(|order|, i requires 0 <= i < |order| => FrameAt(meta, data, order[i]))
  }

  ghost function Seen(order: seq<nat>): set<nat> { set k | k in order }

  /** After some datagrams of one transfer: nothing yet, a part of it, or all of it delivered once. */
  ghost predicate Progress(s: Session, a: Accepted, meta: Header, data: seq<Byte>, seen: set<nat>) {
    if seen == {} then a == Accepted(s, [])
    else if Complete(data, seen) then
      a == Accepted(Session(true, meta.transferID, None), [Delivery(meta.transferID, data)])
    else a.delivered == [] && Partial(a.session, meta.transferID, data, seen)
  }

  lemma {:induction false} ProgressStep(s: Session, a: Accepted, meta: Header, data: seq<Byte>, seen: set<nat>, k: nat)
    requires Sendable(meta, data) && Ready(s, meta.transferID) && k < Count(|data|) && Progress(s, a, meta, data, seen)
    ensures var next := Accept(a.session, FrameAt(meta, data, k));
            Progress(s, Accepted(next.session, a.delivered + next.delivered), meta, data, seen + {k})
  {
    hide Accept, Partial, FrameAt, Ready, Sendable;
    if seen == {} {
      FirstFrame(s, meta, data, k);
      assert seen + {k} == {k};
    } else if Complete(data, seen) {
      LateFrame(a.session, meta, data, k);
      assert Complete(data, seen + {k});
    } else {
      LaterFrame(a.session, meta, data, seen, k);
    }
    assert k in seen + {k};
    hide Complete;
  }

  lemma {:induction false} AnyOrder(s: Session, meta: Header, data: seq<Byte>, order: seq<nat>)
    requires Sendable(meta, data) && Ready(s, meta.transferID)
    requires forall i :: 0 <= i < |order| ==> order[i] < Count(|data|)
    ensures Progress(s, Feed(s, Frames(meta, data, order)), meta, data, Seen(order))
  {
    hide Accept, FrameAt, Ready, Sendable, Count;
    if order != [] {
      var was, k := order[..|order| - 1], order[|order| - 1];
      AnyOrder(s, meta, data, was);
      assert Frames(meta, data, order)[..|order| - 1] == Frames(meta, data, was);
      assert Seen(order) == Seen(was) + {k};
      ProgressStep(s, Feed(s, Frames(meta, data, was)), meta, data, Seen(was), k);
      hide Progress, Seen;
    }
  }

  /** Any order with any repetitions delivers the transfer once, whole, as soon as every datagram came. */
  lemma {:induction false} DeliveredOnce(s: Session, meta: Header, data: seq<Byte>, order: seq<nat>)
    requires Sendable(meta, data) && Ready(s, meta.transferID)
    requires forall i :: 0 <= i < |order| ==> order[i] < Count(|data|)
    ensures Feed(s, Frames(meta, data, order)).delivered ==
            if forall k :: 0 <= k < Count(|data|) ==> k in order then [Delivery(meta.transferID, data)] else []
  {
    AnyOrder(s, meta, data, order);
    forall k: nat ensures k in Seen(order) <==> k in order {
    }
    if order == [] {
      assert Seen(order) == {};
      assert 0 < Count(|data|) && 0 !in order;
    } else {
      assert order[0] in Seen(order);
    }
    hide Feed, Partial, Frames, Seen, Count;
  }

  // ---------------------------------------------------------------- corrupted transfers

  /** A datagram of the transfer that arrives with the payload of another one behind its header. */
  function Mixed(meta: Header, data: seq<Byte>, wrong: seq<Byte>, k: nat): seq<Byte>
    requires |wrong| == |data| && k < Count(|data|)
  {
    Serialized(HeaderAt(meta, data, k)) + Chunk(wrong, k)
  }

  /** What the receiver makes of a row of datagrams. */
  ghost function Receive(s: Session, datagrams: seq<seq<Byte>>): Accepted {
    if datagrams == [] then Accepted(s, [])
    else
      var was := Receive(s, datagrams[..|datagrams| - 1]);
      match Deserialize(datagrams[|datagrams| - 1])
      case None => was
      case Some(f) =>
        var now := Accept(was.session, f);
        Accepted(now.session, was.delivered + now.delivered)
  }

  ghost function MixedAll(meta: Header, data: seq<Byte>, wrong: seq<Byte>, order: seq<nat>): seq<seq<Byte>>
    requires |wrong| == |data| && forall i :: 0 <= i < |order| ==> order[i] < Count(|data|)
  {
    seq(|order|, i requires 0 <= i < |order| => Mixed(meta, data, wrong, order[i]))
  }

  /** The chunks that get past the receiver's checks: all of them, or all but the first. */
  function Passed(order: seq<nat>, all: bool): (passed: seq<nat>)
    ensures forall k :: k in passed <==> k in order && (all || k > 0)
  {
    if order == [] then []
    else
      var k := order[|order| - 1];
      Passed(order[..|order| - 1], all) + if all || k > 0 then [k] else []
  }

  lemma {:induction false} MixedParses(meta: Header, data: seq<Byte>, wrong: seq<Byte>, k: nat)
    requires Sendable(meta, data) && |wrong| == |data| && k < Count(|data|)
    ensures Deserialize(Mixed(meta, data, wrong, k))
            == if k == 0 && Crc32c(Chunk(wrong, 0)) != Crc32c(Chunk(data, 0)) then None
               else Some(Frame(HeaderAt(meta, data, k), Chunk(wrong, k)))
  {
    hide Deserialize, Serialized, Crc32c;
    if k == 0 {
      assert data[..Offset(k) + |Chunk(data, k)|] == Chunk(data, k);
    }
    PayloadCheck(HeaderAt(meta, data, k), Chunk(wrong, k));
  }

  /** The session does not look at the checksum. */
  lemma {:induction false} AcceptIgnoresChecksum(s: Session, meta: Header, data: seq<Byte>, wrong: seq<Byte>, k: nat)
    requires |wrong| == |data| && k < Count(|data|)
    ensures Accept(s, Frame(HeaderAt(meta, data, k), Chunk(wrong, k))) == Accept(s, FrameAt(meta, wrong, k))
  {
    hide Crc32c, Joined, TidGreater, Before;
  }

  lemma {:induction false} ReceiveNext(s: Session, datagrams: seq<seq<Byte>>, x: seq<Byte>)
    ensures var was := Receive(s, datagrams);
            Receive(s, datagrams + [x])
            == match Deserialize(x)
               case None => was
               case Some(f) =>
                 var now := Accept(was.session, f);
                 Accepted(now.session, was.delivered + now.delivered)
  {
    hide Accept, Deserialize;
    assert (datagrams + [x])[..|datagrams|] == datagrams;
  }

  lemma {:induction false} FeedNext(s: Session, frames: seq<Frame>, f: Frame)
    ensures var was := Feed(s, frames);
            var now := Accept(was.session, f);
            Feed(s, frames + [f]) == Accepted(now.session, was.delivered + now.delivered)
  {
    hide Accept;
    assert (frames + [f])[..|frames|] == frames;
  }

  /** One more datagram that gets past the checks, or not. */
  lemma {:induction false} PassedNext(
      s: Session, meta: Header, data: seq<Byte>, wrong: seq<Byte>, datagrams: seq<seq<Byte>>, frames: seq<Frame>,
      k: nat, all: bool)
    requires Sendable(meta, data) && |wrong| == |data| && k < Count(|data|)
    requires all <==> Crc32c(Chunk(wrong, 0)) == Crc32c(Chunk(data, 0))
    requires Receive(s, datagrams) == Feed(s, frames)
    ensures Receive(s, datagrams + [Mixed(meta, data, wrong, k)])
            == Feed(s, if all || k > 0 then frames + [FrameAt(meta, wrong, k)] else frames)
  {
    hide Accept, Deserialize, Mixed, FrameAt, HeaderAt, Crc32c, Chunk, Sendable, Count, Receive, Feed;
    ReceiveNext(s, datagrams, Mixed(meta, data, wrong, k));
    MixedParses(meta, data, wrong, k);
    AcceptIgnoresChecksum(Receive(s, datagrams).session, meta, data, wrong, k);
    FeedNext(s, frames, FrameAt(meta, wrong, k));
  }

  lemma {:induction false} ReceivesPassed(
      s: Session, meta: Header, data: seq<Byte>, wrong: seq<Byte>, order: seq<nat>, all: bool)
    requires Sendable(meta, data) && |wrong| == |data|
    requires forall i :: 0 <= i < |order| ==> order[i] < Count(|data|)
    requires all <==> Crc32c(Chunk(wrong, 0)) == Crc32c(Chunk(data, 0))
    ensures forall i :: 0 <= i < |Passed(order, all)| ==> Passed(order, all)[i] < Count(|data|)
    ensures Receive(s, MixedAll(meta, data, wrong, order)) == Feed(s, Frames(meta, wrong, Passed(order, all)))
  {
    hide Mixed, FrameAt, Crc32c, Chunk, Sendable, Count, Receive, Feed;
    if order == [] {
      ReceiveNone(s);
    } else {
      var was, k := order[..|order| - 1], order[|order| - 1];
      ReceivesPassed(s, meta, data, wrong, was, all);
      var datagrams, frames := MixedAll(meta, data, wrong, was), Frames(meta, wrong, Passed(was, all));
      PassedNext(s, meta, data, wrong, datagrams, frames, k, all);
      assert MixedAll(meta, data, wrong, order) == datagrams + [Mixed(meta, data, wrong, k)];
      assert Frames(meta, wrong, Passed(order, all))
             == if all || k > 0 then frames + [FrameAt(meta, wrong, k)] else frames;
    }
  }

  lemma ReceiveNone(s: Session)
    ensures Receive(s, []) == Accepted(s, []) && Feed(s, []) == Accepted(s, [])
  {
  }

  /**
   * A transfer whose payload is changed on the way is delivered as it came exactly if its datagrams all came and the
   * checksum of the first one still holds. What is behind the first datagram is not checked.
   */
  lemma {:induction false} CorruptedTransfer(
      s: Session, meta: Header, data: seq<Byte>, wrong: seq<Byte>, order: seq<nat>)
    requires Sendable(meta, data) && Ready(s, meta.transferID) && |wrong| == |data|
    requires forall i :: 0 <= i < |order| ==> order[i] < Count(|data|)
    ensures Receive(s, MixedAll(meta, data, wrong, order)).delivered ==
            if (forall k :: 0 <= k < Count(|data|) ==> k in order) && Crc32c(Chunk(wrong, 0)) == Crc32c(Chunk(data, 0))
            then [Delivery(meta.transferID, wrong)] else []
  {
    var all := Crc32c(Chunk(wrong, 0)) == Crc32c(Chunk(data, 0));
    var passed := Passed(order, all);
    ReceivesPassed(s, meta, data, wrong, order, all);
    DeliveredOnce(s, meta, wrong, passed);
    assert 0 !in Passed(order, false);
    hide Crc32c, Chunk, Receive, Feed, Ready, Count;
  }

  /** Any byte behind the first datagram can be changed unnoticed. */
  lemma {:induction false} LaterByteUnchecked(s: Session, meta: Header, data: seq<Byte>, at: nat, b: Byte)
    requires Sendable(meta, data) && Ready(s, meta.transferID) && MTU <= at < |data|
    ensures var wrong, order := data[at := b], seq(Count(|data|), k => k);
            Receive(s, MixedAll(meta, data, wrong, order)).delivered == [Delivery(meta.transferID, wrong)]
  {
    hide Crc32c, Receive, Ready, Sendable, MixedAll;
    var wrong, order := data[at := b], seq(Count(|data|), k => k);
    forall k | 0 <= k < Count(|data|) ensures k in order {
      assert order[k] == k;
    }
    assert Chunk(wrong, 0) == Chunk(data, 0);
    CorruptedTransfer(s, meta, data, wrong, order);
  }

  // ---------------------------------------------------------------- overlapping fragments

  lemma {:induction false} OverlapJoined(a: Byte, b: Byte, c: Byte, d: Byte)
    ensures Joined(map[0 := [a, b]][1 := [c, d]]) == [a, b, c, d]
  {
    var frags := map[0 := [a, b]][1 := [c, d]];
    assert 0 in frags.Keys && IsLeast(frags.Keys, 0) && Least(frags.Keys) == 0;
    assert frags - {0} == map[1 := [c, d]];
    assert 1 in map[1 := [c, d]].Keys && Least(map[1 := [c, d]].Keys) == 1;
    assert map[1 := [c, d]] - {1} == map[];
    assert Joined(map[1 := [c, d]]) == [c, d] + Joined(map[]);
  }

  lemma {:induction false} OverlapFirst(s: Session, meta: Header, f: Frame, a: Byte, b: Byte)
    requires Fits(meta) && meta.transferSize == 4 && Ready(s, meta.transferID)
    requires f.header == meta.(offset := 0, prefixCRC := f.header.prefixCRC) && f.payload == [a, b]
    ensures var last := if s.inited then s.lastTID else Before(meta.transferID);
            Accept(s, f) == Accepted(Session(true, last, Some(Slot(meta.transferID, 4, 2, map[0 := [a, b]]))), [])
  {
    JustBefore(meta.transferID);
    hide Joined, TidGreater, Before;
  }

  lemma {:induction false} OverlapSecond(last: nat, meta: Header, f: Frame, a: Byte, b: Byte, c: Byte, d: Byte)
    requires f.header == meta.(offset := 1) && f.payload == [c, d]
    ensures Accept(Session(true, last, Some(Slot(meta.transferID, 4, 2, map[0 := [a, b]]))), f).delivered
            == [Delivery(meta.transferID, [a, b, c, d])]
  {
    hide Joined, TidGreater, Before;
    OverlapJoined(a, b, c, d);
  }

  lemma {:induction false} ReceiveTwo(s: Session, x: seq<Byte>, y: seq<Byte>)
    requires Deserialize(x).Some? && Deserialize(y).Some?
    ensures var first := Accept(s, Deserialize(x).value);
            Receive(s, [x, y]).delivered
            == first.delivered + Accept(first.session, Deserialize(y).value).delivered
  {
    hide Accept, Deserialize;
    assert [x, y][..1] == [x] && [x][..0] == [];
    assert Receive(s, []) == Accepted(s, []);
    assert Receive(s, [x]).delivered == [] + Accept(s, Deserialize(x).value).delivered;
  }

  /** Fragments that overlap count twice: four bytes are delivered although the last one never came. */
  lemma {:induction false} OverlapCompletes(s: Session, meta: Header, a: Byte, b: Byte, c: Byte, d: Byte)
    requires Fits(meta) && meta.transferSize == 4 && Ready(s, meta.transferID)
    ensures var first, second := meta.(offset := 0, prefixCRC := Crc32c([a, b])), meta.(offset := 1);
            Receive(s, [Serialized(first) + [a, b], Serialized(second) + [c, d]]).delivered
            == [Delivery(meta.transferID, [a, b, c, d])]
  {
    hide Deserialize, Serialized, Crc32c, Accept, Receive, Ready;
    var first, second := meta.(offset := 0, prefixCRC := Crc32c([a, b])), meta.(offset := 1);
    PayloadCheck(first, [a, b]);
    PayloadCheck(second, [c, d]);
    ReceiveTwo(s, Serialized(first) + [a, b], Serialized(second) + [c, d]);
    OverlapFirst(s, meta, Frame(first, [a, b]), a, b);
    OverlapSecond(if s.inited then s.lastTID else Before(meta.transferID), meta, Frame(second, [c, d]), a, b, c, d);
  }
}
