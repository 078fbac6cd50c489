/** Where a delivered transfer came from, whatever frames a node, or the noise, puts on the bus. */
module CanProvenance {
  import opened Wire
  import opened CanFrame
  import opened CanSession
  import opened CanRoundTrip
  import CanSpool
  import Crc16

  /** A frame of one remote node, at any time, on any interface. */
  datatype Arrival = Arrival(ts: nat, iface: nat, frame: Parsed)

  ghost predicate Plausible(sub: Subscription, arrivals: seq<Arrival>) {
    forall i :: 0 <= i < |arrivals| ==> WellFormed(arrivals[i].frame) && arrivals[i].frame.kind == sub.kind
  }

  function Run(sub: Subscription, iface: nat, arrivals: seq<Arrival>): (r: Updated)
    requires Plausible(sub, arrivals)
    ensures Valid(sub, r.session)
  {
    if arrivals == [] then Updated(NewSession(iface), [])
    else
      var last := arrivals[|arrivals| - 1];
      var before := Run(sub, iface, arrivals[..|arrivals| - 1]);
      var step := Update(sub, before.session, last.ts, last.frame, last.iface);
      Updated(step.session, before.out + step.out)
  }

  /** The arrivals a slot is made of: the start frame, then the continuations that were let in. */
  ghost function Trail(sub: Subscription, iface: nat, arrivals: seq<Arrival>, p: Prio): seq<nat>
    requires Plausible(sub, arrivals)
  {
    if arrivals == [] then []
    else
      var n := |arrivals| - 1;
      var last := arrivals[n];
      var before := Trail(sub, iface, arrivals[..n], p);
      var ses := Run(sub, iface, arrivals[..n]).session;
      if !Admit(sub, ses, last.ts, last.frame, last.iface) || last.frame.priority != p then before
      else if last.frame.start then [n] else before + [n]
  }

  function Payloads(arrivals: seq<Arrival>, trail: seq<nat>): seq<Byte>
    requires forall k :: 0 <= k < |trail| ==> trail[k] < |arrivals|
  {
    if trail == [] then []
    else Payloads(arrivals, trail[..|trail| - 1]) + arrivals[trail[|trail| - 1]].frame.payload
  }

  /** The trail is one transfer cut into frames: in order, one start, one priority, transfer-ID and
      interface throughout, toggles alternating from the value that marks the protocol generation. */
  ghost predicate Coherent(sub: Subscription, arrivals: seq<Arrival>, trail: seq<nat>) {
    && trail != []
    && (forall k :: 0 <= k < |trail| ==> trail[k] < |arrivals|)
    && (forall k :: 1 <= k < |trail| ==> trail[k - 1] < trail[k])
    && (var head := arrivals[trail[0]];
        forall k :: 0 <= k < |trail| ==>
          var a := arrivals[trail[k]];
          && a.frame.start == (k == 0)
          && a.frame.priority == head.frame.priority
          && a.frame.tid == head.frame.tid
          && a.iface == head.iface
          && a.frame.toggle == (sub.kind.IsV1() == (k % 2 == 0)))
  }

  ghost predicate NoEnd(arrivals: seq<Arrival>, trail: seq<nat>)
    requires forall k :: 0 <= k < |trail| ==> trail[k] < |arrivals|
  {
    forall k :: 0 <= k < |trail| ==> !arrivals[trail[k]].frame.end
  }

  /** The slot is exactly what its trail accounts for. */
  ghost predicate Explains(sub: Subscription, arrivals: seq<Arrival>, trail: seq<nat>, p: Prio, slot: Slot) {
    && Coherent(sub, arrivals, trail) && NoEnd(arrivals, trail)
    && arrivals[trail[0]].frame.priority == p
    && slot.startTs == arrivals[trail[0]].ts
    && slot.tid == arrivals[trail[0]].frame.tid
    && slot.iface == arrivals[trail[0]].iface
    && slot.toggle == (sub.kind.IsV1() == (|trail| % 2 == 0))
    && Holds(sub, slot, Payloads(arrivals, trail))
  }

  lemma {:induction false} PayloadsOfPrefix(a: seq<Arrival>, b: seq<Arrival>, trail: seq<nat>)
    requires a <= b && forall k :: 0 <= k < |trail| ==> trail[k] < |a|
    ensures Payloads(b, trail) == Payloads(a, trail)
    decreases |trail|
  {
    if trail != [] {
      PayloadsOfPrefix(a, b, trail[..|trail| - 1]);
    }
  }

  lemma {:induction false} ExplainsLater(
      sub: Subscription, a: seq<Arrival>, b: seq<Arrival>, trail: seq<nat>, p: Prio, slot: Slot)
    requires a <= b && Explains(sub, a, trail, p, slot)
    ensures Explains(sub, b, trail, p, slot)
  {
    hide Holds;
    PayloadsOfPrefix(a, b, trail);
    assert forall k :: 0 <= k < |trail| ==> a[trail[k]] == b[trail[k]];
  }

  lemma PayloadsSnoc(arrivals: seq<Arrival>, trail: seq<nat>, n: nat)
    requires n < |arrivals| && forall k :: 0 <= k < |trail| ==> trail[k] < |arrivals|
    ensures Payloads(arrivals, trail + [n]) == Payloads(arrivals, trail) + arrivals[n].frame.payload
  {
    assert (trail + [n])[..|trail + [n]| - 1] == trail;
  }

  lemma {:induction false} CoherentMore(sub: Subscription, arrivals: seq<Arrival>, trail: seq<nat>, n: nat)
    requires Coherent(sub, arrivals, trail) && n < |arrivals| && trail[|trail| - 1] < n
    requires var head, last := arrivals[trail[0]], arrivals[n];
             && !last.frame.start && last.frame.priority == head.frame.priority && last.frame.tid == head.frame.tid
             && last.iface == head.iface && last.frame.toggle == (sub.kind.IsV1() == (|trail| % 2 == 0))
    ensures Coherent(sub, arrivals, trail + [n])
  {
    var more := trail + [n];
    assert more[0] == trail[0] && forall k :: 0 <= k < |trail| ==> more[k] == trail[k];
  }

  /** Extending a coherent trail by the frame its slot lets in. */
  lemma {:induction false} CoherentSnoc(sub: Subscription, arrivals: seq<Arrival>, trail: seq<nat>, p: Prio, slot: Slot)
    requires arrivals != [] && Explains(sub, arrivals[..|arrivals| - 1], trail, p, slot)
    requires var last := arrivals[|arrivals| - 1];
      !last.frame.start && last.frame.priority == p && Continues(Some(slot), last.frame, last.iface)
    ensures Coherent(sub, arrivals, trail + [|arrivals| - 1])
    ensures Payloads(arrivals, trail + [|arrivals| - 1])
            == Payloads(arrivals[..|arrivals| - 1], trail) + arrivals[|arrivals| - 1].frame.payload
  {
    hide Holds;
    var n := |arrivals| - 1;
    assert trail[|trail| - 1] < n;
    assert forall k :: 0 <= k < |trail| ==> trail[k] < n;
    ExplainsLater(sub, arrivals[..n], arrivals, trail, p, slot);
    hide Coherent;
    CoherentMore(sub, arrivals, trail, n);
    PayloadsOfPrefix(arrivals[..n], arrivals, trail);
    PayloadsSnoc(arrivals, trail, n);
  }

  lemma {:induction false} CoherentStart(sub: Subscription, arrivals: seq<Arrival>)
    requires arrivals != [] && Plausible(sub, arrivals) && arrivals[|arrivals| - 1].frame.start
    ensures Coherent(sub, arrivals, [|arrivals| - 1])
    ensures Payloads(arrivals, [|arrivals| - 1]) == arrivals[|arrivals| - 1].frame.payload
  {
    var n := |arrivals| - 1;
    PayloadsSnoc(arrivals, [], n);
    assert [] + [n] == [n];
    assert [] + arrivals[n].frame.payload == arrivals[n].frame.payload;
  }

  /** The slot of a priority after an update, when it is occupied. */
  lemma {:induction false} SlotAfter(sub: Subscription, ses: Session, a: Arrival, p: Prio)
    requires Valid(sub, ses) && WellFormed(a.frame)
    ensures var u := Update(sub, ses, a.ts, a.frame, a.iface);
      p in u.session.slots ==>
        if !Admit(sub, ses, a.ts, a.frame, a.iface) || a.frame.priority != p then
          p in ses.slots && u.session.slots[p] == ses.slots[p]
        else if a.frame.start then
          && !a.frame.end
          && var s := Advance(NewSlot(sub, a.ts, a.frame.tid, a.iface), a.frame.payload);
             u.session.slots[p] == s.(crc := Crc16.Add(s.crc, CrcInput(sub, a.frame)))
        else
          && !a.frame.end && Continues(SlotAt(ses, p), a.frame, a.iface)
          && var s := Advance(ses.slots[p], a.frame.payload);
             u.session.slots[p] == s.(crc := Crc16.Add(s.crc, CrcInput(sub, a.frame)))
  {
    hide Advance, CompleteSlot, NewSlot, Crc16.Add;
  }

  /** In every reachable state every slot is explained by its trail. */
  lemma {:induction false} SlotsAreExplained(sub: Subscription, iface: nat, arrivals: seq<Arrival>, p: Prio)
    requires sub.Valid() && Plausible(sub, arrivals)
    requires p in Run(sub, iface, arrivals).session.slots
    ensures Explains(sub, arrivals, Trail(sub, iface, arrivals, p), p, Run(sub, iface, arrivals).session.slots[p])
    decreases |arrivals|
  {
    hide Holds, Advance, CompleteSlot, NewSlot, Crc16.Add, Update, Coherent;
    var n := |arrivals| - 1;
    var before, a := arrivals[..n], arrivals[n];
    var ses := Run(sub, iface, before).session;
    SlotAfter(sub, ses, a, p);
    if !Admit(sub, ses, a.ts, a.frame, a.iface) || a.frame.priority != p {
      SlotsAreExplained(sub, iface, before, p);
      ExplainsLater(sub, before, arrivals, Trail(sub, iface, before, p), p, ses.slots[p]);
    } else if a.frame.start {
      CoherentStart(sub, arrivals);
      StartExplained(sub, arrivals, a);
    } else {
      SlotsAreExplained(sub, iface, before, p);
      CoherentSnoc(sub, arrivals, Trail(sub, iface, before, p), p, ses.slots[p]);
      NextExplained(sub, arrivals, Trail(sub, iface, before, p), p, ses.slots[p]);
    }
  }

  lemma {:induction false} StartExplained(sub: Subscription, arrivals: seq<Arrival>, a: Arrival)
    requires arrivals != [] && Plausible(sub, arrivals) && a == arrivals[|arrivals| - 1]
    requires a.frame.start && !a.frame.end
    ensures var s := Advance(NewSlot(sub, a.ts, a.frame.tid, a.iface), a.frame.payload);
      Explains(sub, arrivals, [|arrivals| - 1], a.frame.priority, s.(crc := Crc16.Add(s.crc, CrcInput(sub, a.frame))))
  {
    hide Holds, Crc16.Add;
    CoherentStart(sub, arrivals);
    NewSlotHoldsNothing(sub, a.ts, a.frame.tid, a.iface);
    AcceptExtends(sub, NewSlot(sub, a.ts, a.frame.tid, a.iface), a.frame, []);
    assert [] + a.frame.payload == a.frame.payload;
  }

  lemma {:induction false} ExplainsSnoc(
      sub: Subscription, arrivals: seq<Arrival>, trail: seq<nat>, p: Prio, slot: Slot, next: Slot)
    requires arrivals != [] && Explains(sub, arrivals[..|arrivals| - 1], trail, p, slot)
    requires Coherent(sub, arrivals, trail + [|arrivals| - 1]) && !arrivals[|arrivals| - 1].frame.end
    requires next.startTs == slot.startTs && next.tid == slot.tid && next.iface == slot.iface
             && next.toggle == !slot.toggle
    requires Holds(sub, next, Payloads(arrivals, trail + [|arrivals| - 1]))
    ensures Explains(sub, arrivals, trail + [|arrivals| - 1], p, next)
  {
    hide Holds, Payloads;
    var n, all := |arrivals| - 1, trail + [|arrivals| - 1];
    assert arrivals[all[0]] == arrivals[..n][trail[0]];
    forall k | 0 <= k < |all| ensures !arrivals[all[k]].frame.end {
      if k < |trail| {
        assert arrivals[all[k]] == arrivals[..n][trail[k]];
      }
    }
    hide Coherent;
  }

  lemma {:induction false} NextExplained(
      sub: Subscription, arrivals: seq<Arrival>, trail: seq<nat>, p: Prio, slot: Slot)
    requires arrivals != [] && Plausible(sub, arrivals) && Explains(sub, arrivals[..|arrivals| - 1], trail, p, slot)
    requires ValidSlot(sub, slot)
    requires var last := arrivals[|arrivals| - 1];
      !last.frame.start && !last.frame.end && last.frame.priority == p && Continues(Some(slot), last.frame, last.iface)
    ensures var a := arrivals[|arrivals| - 1];
      var s := Advance(slot, a.frame.payload);
      Explains(sub, arrivals, trail + [|arrivals| - 1], p, s.(crc := Crc16.Add(s.crc, CrcInput(sub, a.frame))))
  {
    var n := |arrivals| - 1;
    assert |Payloads(arrivals[..n], trail)| >= Crc16.CRC_BYTES;
    hide Coherent, Crc16.Add, Overlay, Holds;
    CoherentSnoc(sub, arrivals, trail, p, slot);
    AcceptExtends(sub, slot, arrivals[n].frame, Payloads(arrivals[..n], trail));
    var s := Advance(slot, arrivals[n].frame.payload);
    ExplainsSnoc(sub, arrivals, trail, p, slot, s.(crc := Crc16.Add(s.crc, CrcInput(sub, arrivals[n].frame))));
  }

  // ---------------------------------------------------------------- deliveries

  /** Whether a complete stream passes the transfer CRC check. */
  predicate CrcOk(sub: Subscription, stream: seq<Byte>)
    requires |stream| >= Crc16.CRC_BYTES
  {
    if sub.kind.IsV1() then Crc16.Add(sub.crcSeed, stream) == Crc16.CRC_RESIDUE
    else Crc16.Add(sub.crcSeed, stream[Crc16.CRC_BYTES..]) == LittleEndian16(stream[0], stream[1])
  }

  /** The payload inside a complete stream, up to the extent. */
  function Extract(sub: Subscription, stream: seq<Byte>): seq<Byte>
    requires |stream| >= Crc16.CRC_BYTES
  {
    var size := Min(|stream| - Crc16.CRC_BYTES, sub.extent);
    if sub.kind.IsV1() then stream[..size] else stream[Crc16.CRC_BYTES..Crc16.CRC_BYTES + size]
  }

  function Verdict(sub: Subscription, p: Prio, ts: int, fr: Parsed, stream: seq<Byte>): Outcome
    requires |stream| >= Crc16.CRC_BYTES
  {
    if CrcOk(sub, stream) then Delivered(p, ts, fr.src, fr.tid, Extract(sub, stream)) else Rejected(p)
  }

  lemma {:induction false} CompletionIsVerdict(sub: Subscription, slot: Slot, fr: Parsed, stream: seq<Byte>)
    requires Holds(sub, slot, stream) && |stream| >= Crc16.CRC_BYTES
    ensures CompleteSlot(sub, slot, fr) == Verdict(sub, fr.priority, slot.startTs, fr, stream)
  {
    hide Crc16.Add, LittleEndian16;
    var n := Min(|stream|, |slot.buffer|);
    if sub.kind.IsV1() {
      var view := Min(|stream| - 2, |slot.buffer|);
      assert slot.buffer[..view] == slot.buffer[..n][..view] == stream[..view];
    } else {
      assert slot.buffer[0] == slot.buffer[..n][0] == stream[0];
      assert slot.buffer[1] == slot.buffer[..n][1] == stream[1];
      var view := Min(|stream| - 2, |slot.buffer| - 2);
      assert slot.buffer[2..2 + view] == slot.buffer[..n][2..2 + view] == stream[2..2 + view];
    }
  }

  /** Every outcome of a multi-frame transfer is the verdict on one coherent trail that ends with the
      frame at hand: a prefix of its own payloads when the CRC agrees, a rejection when it does not. */
  lemma {:induction false} OutcomeHasProvenance(sub: Subscription, iface: nat, arrivals: seq<Arrival>)
    requires sub.Valid() && Plausible(sub, arrivals) && arrivals != []
    requires var a := arrivals[|arrivals| - 1];
      && Update(sub, Run(sub, iface, arrivals[..|arrivals| - 1]).session, a.ts, a.frame, a.iface).out != []
      && !(a.frame.start && a.frame.end)
    ensures var n := |arrivals| - 1;
      var a := arrivals[n];
      var trail := Trail(sub, iface, arrivals, a.frame.priority);
      && Coherent(sub, arrivals, trail) && trail[|trail| - 1] == n && a.frame.end
      && NoEnd(arrivals, trail[..|trail| - 1])
      && |Payloads(arrivals, trail)| >= Crc16.CRC_BYTES
      && Update(sub, Run(sub, iface, arrivals[..n]).session, a.ts, a.frame, a.iface).out
         == [Verdict(sub, a.frame.priority, arrivals[trail[0]].ts, a.frame, Payloads(arrivals, trail))]
  {
    var n := |arrivals| - 1;
    var before, a := arrivals[..n], arrivals[n];
    var p := a.frame.priority;
    var ses := Run(sub, iface, before).session;
    var trail := Trail(sub, iface, before, p);
    CompletedBy(sub, ses, a);
    SlotsAreExplained(sub, iface, before, p);
    CompletionExplained(sub, arrivals, trail, p, ses.slots[p]);
  }

  lemma {:induction false} CompletedBy(sub: Subscription, ses: Session, a: Arrival)
    requires Valid(sub, ses) && WellFormed(a.frame) && !(a.frame.start && a.frame.end)
    requires Update(sub, ses, a.ts, a.frame, a.iface).out != []
    ensures !a.frame.start && a.frame.end && Admit(sub, ses, a.ts, a.frame, a.iface)
    ensures a.frame.priority in ses.slots && Continues(Some(ses.slots[a.frame.priority]), a.frame, a.iface)
    ensures var s := Advance(ses.slots[a.frame.priority], a.frame.payload);
      Update(sub, ses, a.ts, a.frame, a.iface).out
        == [CompleteSlot(sub, s.(crc := Crc16.Add(s.crc, CrcInput(sub, a.frame))), a.frame)]
  {
    hide Advance, CompleteSlot, NewSlot, Crc16.Add;
  }

  lemma {:induction false} CompletionExplained(
      sub: Subscription, arrivals: seq<Arrival>, trail: seq<nat>, p: Prio, slot: Slot)
    requires arrivals != [] && Plausible(sub, arrivals) && Explains(sub, arrivals[..|arrivals| - 1], trail, p, slot)
    requires ValidSlot(sub, slot)
    requires var last := arrivals[|arrivals| - 1];
      !last.frame.start && last.frame.end && last.frame.priority == p && Continues(Some(slot), last.frame, last.iface)
    ensures var n, a, all := |arrivals| - 1, arrivals[|arrivals| - 1], trail + [|arrivals| - 1];
      var s := Advance(slot, a.frame.payload);
      && Coherent(sub, arrivals, all) && NoEnd(arrivals, trail)
      && |Payloads(arrivals, all)| >= Crc16.CRC_BYTES
      && CompleteSlot(sub, s.(crc := Crc16.Add(s.crc, CrcInput(sub, a.frame))), a.frame)
         == Verdict(sub, p, arrivals[all[0]].ts, a.frame, Payloads(arrivals, all))
  {
    hide CompleteSlot, Verdict, Crc16.Add;
    var n := |arrivals| - 1;
    CoherentSnoc(sub, arrivals, trail, p, slot);
    AcceptExtends(sub, slot, arrivals[n].frame, Payloads(arrivals[..n], trail));
    ExplainsLater(sub, arrivals[..n], arrivals, trail, p, slot);
    var s := Advance(slot, arrivals[n].frame.payload);
    CompletionIsVerdict(sub, s.(crc := Crc16.Add(s.crc, CrcInput(sub, arrivals[n].frame))), arrivals[n].frame,
                        Payloads(arrivals, trail + [n]));
  }

  // ---------------------------------------------------------------- corruption

  lemma {:induction false} ValidPairIsEqual(sub: Subscription, a: seq<Byte>, b: seq<Byte>, k: nat)
    requires |a| >= Crc16.CRC_BYTES && Crc16.DifferOnlyInPair(a, b, k)
    requires CrcOk(sub, a) && CrcOk(sub, b)
    requires sub.kind.IsV1() || k != 1
    ensures a == b
  {
    hide Crc16.Add, LittleEndian16;
    if sub.kind.IsV1() {
      Crc16.BurstDetected(sub.crcSeed, a, b, k);
    } else if k == 0 {
      LittleEndianInjective(a[0], a[1], b[0], b[1]);
      assert a == [a[0], a[1]] + a[2..];
      assert b == [b[0], b[1]] + b[2..];
    } else {
      assert a[..2] == a[..k][..2] == b[..k][..2] == b[..2];
      assert a[2..][..k - 2] == a[..k][2..] == b[..k][2..] == b[2..][..k - 2];
      assert a[2..][k..] == a[k + 2..] == b[k + 2..] == b[2..][k..];
      assert a[..2][0] == b[..2][0] && a[..2][1] == b[..2][1];
      Crc16.BurstDetected(sub.crcSeed, a[2..], b[2..], k - 2);
      assert a == a[..2] + a[2..];
      assert b == b[..2] + b[2..];
    }
  }

  /**
   * The pair straddles the end of a leading CRC, and the change of the payload byte changes the CRC by just the change
   * of its high byte. That depends on the changes and on the length alone.
   */
  predicate Slips(sub: Subscription, a: seq<Byte>, b: seq<Byte>, k: nat)
    requires |a| == |b| && k + 2 <= |a|
  {
    && !sub.kind.IsV1() && k == 1
    && Crc16.Add(0, [Crc16.XorByte(a[2], b[2])] + Crc16.Zeros(|a| - 3)) == Crc16.Pair(Crc16.XorByte(a[1], b[1]), 0)
  }

  lemma XorIsDifference(a: Byte, b: Byte)
    ensures Crc16.IsByteXor(b, a, Crc16.XorByte(a, b)) && Crc16.IsByteXor(a, a, 0)
  {
  }

  lemma LittleEndianIsPair(lo: Byte, hi: Byte)
    ensures LittleEndian16(lo, hi) == Crc16.Pair(hi, lo)
  {
  }

  lemma {:induction false} StraddlingPair(sub: Subscription, a: seq<Byte>, b: seq<Byte>)
    requires !sub.kind.IsV1() && Crc16.DifferOnlyInPair(a, b, 1) && CrcOk(sub, a)
    ensures CrcOk(sub, b) <==> Slips(sub, a, b, 1)
  {
    hide Crc16.Add, Crc16.Pair, Crc16.XorByte, Crc16.IsXor, Crc16.IsByteXor, LittleEndian16;
    var d, e := Crc16.XorByte(a[2], b[2]), Crc16.XorByte(a[1], b[1]);
    assert a[..1][0] == b[..1][0];
    assert a[2..][1..] == a[3..] == b[3..] == b[2..][1..];
    XorIsDifference(a[0], b[0]);
    XorIsDifference(a[1], b[1]);
    XorIsDifference(a[2], b[2]);
    Crc16.AddOfFirstDifference(sub.crcSeed, a[2..], b[2..], d);
    Crc16.PairOfXors(a[1], e, b[1], a[0], 0, b[0]);
    LittleEndianIsPair(a[0], a[1]);
    LittleEndianIsPair(b[0], b[1]);
    Crc16.SameDifference(Crc16.Add(sub.crcSeed, a[2..]), Crc16.Add(sub.crcSeed, b[2..]),
                         Crc16.Add(0, [d] + Crc16.Zeros(|a| - 3)), LittleEndian16(b[0], b[1]), Crc16.Pair(e, 0));
  }

  /**
   * A stream that differs from a valid one in one byte, or in two adjacent ones, is rejected, unless it is a legacy one
   * whose straddling pair slips.
   */
  lemma {:induction false} CorruptionRejected(
      sub: Subscription, valid: seq<Byte>, corrupt: seq<Byte>, k: nat, p: Prio, ts: int, fr: Parsed)
    requires |valid| >= Crc16.CRC_BYTES && Crc16.DifferOnlyInPair(valid, corrupt, k) && valid != corrupt
    requires CrcOk(sub, valid)
    ensures Verdict(sub, p, ts, fr, corrupt) == Rejected(p) <==> !Slips(sub, valid, corrupt, k)
  {
    if !sub.kind.IsV1() && k == 1 {
      StraddlingPair(sub, valid, corrupt);
    } else if CrcOk(sub, corrupt) {
      ValidPairIsEqual(sub, valid, corrupt, k);
    }
    hide CrcOk;
  }

  /** What 93 in the first of eight bytes becomes: a CRC whose low byte is zero. */
  lemma EightBytes()
    ensures Crc16.Add(0, [93] + Crc16.Zeros(7)) == Crc16.Pair(157, 0)
  {
    Steps();
    hide Crc16.AddByte, Crc16.Pair;
    var z := Crc16.Zeros(7);
    assert z == [0, 0, 0, 0, 0, 0, 0] by { SevenZeros(); }
    assert ([93] + z)[1..] == z;
    assert Crc16.Add(0, [93] + z) == Crc16.Add(0x8B58, z);
    assert z[1..] == [0, 0, 0, 0, 0, 0] && z[2..] == [0, 0, 0, 0, 0] && z[3..] == [0, 0, 0, 0];
    assert z[1..][1..] == z[2..] && z[2..][1..] == z[3..];
    assert Crc16.Add(0x8B58, z) == Crc16.Add(0x78E3, z[1..]) == Crc16.Add(0x1C9F, z[2..]) == Crc16.Add(0x4CBD, z[3..]);
    var y := z[3..];
    assert y[1..][1..] == y[2..] && y[2..][1..] == y[3..] && y[3..][1..] == [];
    assert Crc16.Add(0x4CBD, y) == Crc16.Add(0x3448, y[1..]) == Crc16.Add(0x3ED7, y[2..]) == Crc16.Add(0x009D, y[3..]);
    assert Crc16.Add(0x009D, y[3..]) == Crc16.Add(0x9D00, []);
  }

  lemma SevenZeros()
    ensures Crc16.Zeros(7) == [0, 0, 0, 0, 0, 0, 0]
  {
    assert Crc16.Zeros(3) == [0, 0, 0];
    assert Crc16.Zeros(5) == [0, 0, 0, 0, 0];
  }

  lemma Steps()
    ensures Crc16.AddByte(0, 93) == 0x8B58 && Crc16.AddByte(0x8B58, 0) == 0x78E3
    ensures Crc16.AddByte(0x78E3, 0) == 0x1C9F && Crc16.AddByte(0x1C9F, 0) == 0x4CBD
    ensures Crc16.AddByte(0x4CBD, 0) == 0x3448 && Crc16.AddByte(0x3448, 0) == 0x3ED7
    ensures Crc16.AddByte(0x3ED7, 0) == 0x009D && Crc16.AddByte(0x009D, 0) == 0x9D00 && Crc16.Pair(157, 0) == 0x9D00
  {
  }

  /** Every legacy transfer of eight payload bytes has such a pair: it is delivered although two bytes are wrong. */
  lemma {:induction false} SlippingPair(sub: Subscription, payload: seq<Byte>, p: Prio, ts: int, fr: Parsed)
    returns (corrupt: seq<Byte>)
    requires !sub.kind.IsV1() && |payload| == 8
    ensures var valid := CanSpool.StreamV0(sub.crcSeed, payload);
            && CrcOk(sub, valid) && Crc16.DifferOnlyInPair(valid, corrupt, 1) && corrupt[2..] != payload
            && Verdict(sub, p, ts, fr, corrupt) == Delivered(p, ts, fr.src, fr.tid, Extract(sub, corrupt))
  {
    hide Crc16.Add, Crc16.Pair, Crc16.High, Crc16.Low, LittleEndian16;
    var valid := CanSpool.StreamV0(sub.crcSeed, payload);
    LittleEndianInverse(Crc16.Add(sub.crcSeed, payload));
    assert valid[2..] == payload;
    Differences(valid[1], valid[2]);
    corrupt := valid[1 := Crc16.XorByte(valid[1], 157)][2 := Crc16.XorByte(valid[2], 93)];
    assert corrupt[2..][0] == corrupt[2];
    EightBytes();
    StraddlingPair(sub, valid, corrupt);
    hide Crc16.XorByte;
  }

  lemma Differences(a: Byte, b: Byte)
    ensures Crc16.XorByte(a, Crc16.XorByte(a, 157)) == 157
    ensures Crc16.XorByte(b, Crc16.XorByte(b, 93)) == 93 && Crc16.XorByte(b, 93) != b
  {
  }

  lemma LittleEndianInjective(a: Byte, b: Byte, c: Byte, d: Byte)
    requires LittleEndian16(a, b) == LittleEndian16(c, d)
    ensures a == c && b == d
  {
  }
}
