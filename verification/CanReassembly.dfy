/** The reassembler as it is run: slots and sessions updated in place, proved against CanSession. */
module CanReassembly {
  import opened Wire
  import opened CanFrame
  import opened CanSession
  import Crc16

  /** The slot an admitted frame finds is one it can be accepted into. */
  lemma PreparedIsAcceptable(sub: Subscription, ses: Session, ts: int, fr: Parsed, iface: nat)
    requires CanSession.Valid(sub, ses) && WellFormed(fr) && Admit(sub, ses, ts, fr, iface)
    ensures Acceptable(sub, SlotAt(ses.(slots := Prepared(sub, ses, ts, fr, iface)), fr.priority), fr)
  {
  }

  lemma PreparedStart(sub: Subscription, ses: Session, ts: int, fr: Parsed, iface: nat)
    requires fr.start
    ensures fr.end ==> Prepared(sub, ses, ts, fr, iface) == ses.slots - {fr.priority}
    ensures !fr.end ==> (Prepared(sub, ses, ts, fr, iface)
      == Cleanup(sub, ses.slots - {fr.priority}, ts)[fr.priority := NewSlot(sub, ts, fr.tid, iface)])
  {
  }

  lemma PreparedContinuation(sub: Subscription, ses: Session, ts: int, fr: Parsed, iface: nat)
    requires !fr.start
    ensures Prepared(sub, ses, ts, fr, iface) == ses.slots
  {
  }

  class RxSlot {
    var startTs: int
    var totalSize: nat
    var crc: bv16
    var transferId: TransferId
    var ifaceIndex: nat
    var expectedToggle: bool
    const payload: array<Byte>

    ghost function Model(): Slot
      reads this, payload
    {
      Slot(startTs, totalSize, crc, transferId, ifaceIndex, expectedToggle, payload[..])
    }

    constructor (sub: Subscription, ts: int, tid: TransferId, iface: nat)
      ensures Model() == NewSlot(sub, ts, tid, iface)
      ensures fresh(payload)
    {
      startTs, totalSize, crc, transferId, ifaceIndex := ts, 0, sub.crcSeed, tid, iface;
      expectedToggle := sub.kind.IsV1();
      payload := new Byte[sub.BufferSize()](_ => 0);
      new;
      assert payload[..] == Zeros(sub.BufferSize());
    }

    /** Copies what still fits into the buffer; counts and toggles regardless. */
    method AdvanceBy(data: seq<Byte>)
      modifies this, payload
      ensures Model() == Advance(old(Model()), data)
    {
      ghost var was := payload[..];
      if totalSize < payload.Length {
        var copySize := Min(|data|, payload.Length - totalSize);
        forall i | 0 <= i < copySize { payload[totalSize + i] := data[i]; }
        assert payload[..] == Overlay(was, totalSize, data[..copySize]);
      }
      totalSize := totalSize + |data|;
      expectedToggle := !expectedToggle;
    }
  }

  class RxSession {
    const sub: Subscription
    const slots: array<RxSlot?>
    var lastAdmissionTs: int
    var lastAdmittedTransferId: TransferId
    var lastAdmittedPriority: Prio
    var ifaceIndex: nat

    /** The messages handed to the application and the transfers counted as broken, in order. */
    var outcomes: seq<Outcome>

    ghost var Repr: set<object>

    /** The objects of the session: nothing is shared between priorities. */
    ghost predicate Shape()
      reads this`Repr, Repr
      ensures Shape() ==> this !in Repr && slots in Repr
    {
      && this !in Repr && slots in Repr && slots.Length == 8
      && (forall p: Prio :: slots[p] != null ==>
          slots[p] in Repr && slots[p].payload in Repr && slots[p].payload as object != slots)
      && (forall p: Prio, q: Prio :: p != q && slots[p] != null && slots[q] != null ==>
            slots[p] != slots[q] && slots[p].payload != slots[q].payload)
    }

    ghost function SlotOf(p: Prio): Option<Slot>
      reads this`Repr, Repr
      requires Shape()
    {
      if slots[p] == null then None else Some(slots[p].Model())
    }

    ghost predicate Valid()
      reads this`Repr, Repr
      ensures Valid() ==> this !in Repr && slots in Repr
    {
      Shape() && sub.Valid() && forall p: Prio :: SlotOf(p).Some? ==> ValidSlot(sub, SlotOf(p).value)
    }

    ghost function Slots(): map<Prio, Slot>
      reads this`Repr, Repr
      requires Shape()
    {
      map p: Prio | p < 8 && SlotOf(p).Some? :: SlotOf(p).value
    }

    lemma SlotsOf()
      requires Shape()
      ensures forall p: Prio :: SlotOf(p) == if p in Slots() then Some(Slots()[p]) else None
    {
    }

    ghost function Model(): Session
      reads this, Repr
      requires Shape()
      ensures Valid() ==> CanSession.Valid(sub, Model())
    {
      SlotsOf();
      Session(Slots(), lastAdmissionTs, lastAdmittedTransferId, lastAdmittedPriority, ifaceIndex)
    }

    /** The session factory. */
    constructor (sub: Subscription, iface: nat)
      requires sub.Valid()
      ensures Valid() && fresh(Repr)
      ensures this.sub == sub && Model() == NewSession(iface) && outcomes == []
    {
      this.sub := sub;
      var table := new RxSlot?[8](_ => null);
      slots := table;
      lastAdmissionTs, lastAdmittedTransferId, lastAdmittedPriority, ifaceIndex := BIG_BANG, 0, 0, iface;
      outcomes := [];
      Repr := {table};
      new;
      assert Slots() == map[];
    }

    /** Whether a frame is let in. */
    method SolveAdmission(ts: int, fr: Parsed, iface: nat) returns (admit: bool)
      requires Valid()
      ensures admit == Admit(sub, Model(), ts, fr, iface)
    {
      if !fr.start {
        var slot := slots[fr.priority];
        SlotsOf();
        return slot != null && slot.transferId == fr.tid && slot.ifaceIndex == iface
          && slot.expectedToggle == fr.toggle;
      }
      var novel := fr.tid != lastAdmittedTransferId || fr.priority != lastAdmittedPriority;
      var affine := ifaceIndex == iface;
      var stale := ts - sub.tidTimeout > lastAdmissionTs;
      return (novel && affine) || (affine && stale) || (stale && novel);
    }

    /** The loop of the cleanup: keeps the slots that started in time and counts them. */
    method DropStale(deadline: int) returns (inProgress: nat)
      requires Shape()
      modifies slots
      ensures forall p: Prio ::
        slots[p] == if old(slots[p]) != null && old(slots[p].startTs) >= deadline then old(slots[p]) else null
      ensures inProgress == |set p: Prio | p < 8 && slots[p] != null|
    {
      inProgress := 0;
      ghost var kept: set<Prio> := {};
      for i := 0 to 8
        invariant forall p: Prio :: p >= i ==> slots[p] == old(slots[p])
        invariant forall p: Prio :: p < i ==>
          slots[p] == if old(slots[p]) != null && old(slots[p].startTs) >= deadline then old(slots[p]) else null
        invariant forall p: Prio :: p in kept <==> p < i && slots[p] != null
        invariant inProgress == |kept|
      {
        var slot := slots[i];
        if slot != null {
          if slot.startTs < deadline {
            slots[i] := null;
          } else {
            inProgress := inProgress + 1;
            kept := kept + {i};
          }
        }
      }
      assert kept == set p: Prio | p < 8 && slots[p] != null;
    }

    /** What the loop means for the values of the slots. */
    method KeepTimely(deadline: int) returns (inProgress: nat)
      requires Shape()
      modifies slots
      ensures Shape() && inProgress == |Slots()|
      ensures forall p: Prio ::
        SlotOf(p) == if old(SlotOf(p)).Some? && old(SlotOf(p)).value.startTs >= deadline then old(SlotOf(p)) else None
    {
      inProgress := DropStale(deadline);
      SlotCount();
    }

    /** Drops the slots that have waited for too long; returns how many are left. */
    method CleanUp(now: int) returns (inProgress: nat)
      requires Shape()
      modifies slots
      ensures Shape() && Slots() == Cleanup(sub, old(Slots()), now)
      ensures inProgress == |Slots()|
    {
      hide SlotOf, Shape;
      ghost var was := Slots();
      SlotsOf();
      inProgress := KeepTimely(now - sub.Patience());
      SlotsOf();
      assert Slots() == Cleanup(sub, was, now);
    }

    lemma SlotCount()
      requires Shape()
      ensures |Slots()| == |set p: Prio | p < 8 && slots[p] != null|
    {
      assert Slots().Keys == set p: Prio | p < 8 && slots[p] != null;
    }

    /** Takes an admitted frame into the slot of its priority, or straight to the application. */
    method AcceptFrame(ts: int, fr: Parsed)
      requires Shape() && Acceptable(sub, SlotOf(fr.priority), fr)
      modifies this, Repr
      ensures Shape() && Repr == old(Repr)
      ensures forall q: Prio :: q != fr.priority ==> SlotOf(q) == old(SlotOf(q))
      ensures lastAdmissionTs == old(lastAdmissionTs) && lastAdmittedTransferId == old(lastAdmittedTransferId)
      ensures lastAdmittedPriority == old(lastAdmittedPriority) && ifaceIndex == old(ifaceIndex)
      ensures var a := Accept(sub, old(SlotOf(fr.priority)), ts, fr);
        outcomes == old(outcomes) + a.out && SlotOf(fr.priority) == a.slot
    {
      hide Advance, CompleteSlot, Crc16.Add;
      var slot := slots[fr.priority];
      if slot != null {
        TakeIn(slot, fr);
        if fr.end {
          CompleteSlotAt(fr);
        }
      } else {
        outcomes := outcomes + [Delivered(fr.priority, ts, fr.src, fr.tid, fr.payload)];
      }
    }

    /** Extends a slot by the payload of a frame. */
    method TakeIn(slot: RxSlot, fr: Parsed)
      requires Shape() && slots[fr.priority] == slot
      requires fr.start ==> |fr.payload| >= Crc16.CRC_BYTES
      modifies slot, slot.payload
      ensures Shape()
      ensures forall q: Prio :: q != fr.priority ==> SlotOf(q) == old(SlotOf(q))
      ensures var advanced := Advance(old(slot.Model()), fr.payload);
        slot.Model() == advanced.(crc := Crc16.Add(advanced.crc, CrcInput(sub, fr)))
    {
      slot.AdvanceBy(fr.payload);
      var crc := Crc16.AddLoop(slot.crc, CrcInput(sub, fr));
      slot.crc := crc;
    }

    /** Hands over, or counts as broken, the transfer in the slot of the frame that ends it. */
    method CompleteSlotAt(fr: Parsed)
      requires Shape() && slots[fr.priority] != null
      requires ValidSlot(sub, slots[fr.priority].Model())
      modifies this`outcomes, slots
      ensures Shape() && slots[fr.priority] == null
      ensures forall q: Prio :: q != fr.priority ==> slots[q] == old(slots[q])
      ensures outcomes == old(outcomes) + [CompleteSlot(sub, old(slots[fr.priority].Model()), fr)]
    {
      hide LittleEndian16;
      var slot := slots[fr.priority];
      ghost var buffer := slot.payload[..];
      slots[fr.priority] := null;
      var v1 := sub.kind.IsV1();
      var crcRef := if v1 then Crc16.CRC_RESIDUE else LittleEndian16(slot.payload[0], slot.payload[1]);
      assert !v1 ==> slot.payload[0] == buffer[0] && slot.payload[1] == buffer[1];
      if slot.crc == crcRef {
        var view;
        if v1 {
          var size := Min(slot.totalSize - Crc16.CRC_BYTES, slot.payload.Length);
          view := slot.payload[..size];
          assert view == buffer[..size];
        } else {
          var size := Min(slot.totalSize - Crc16.CRC_BYTES, slot.payload.Length - Crc16.CRC_BYTES);
          view := slot.payload[Crc16.CRC_BYTES..Crc16.CRC_BYTES + size];
          assert view == buffer[Crc16.CRC_BYTES..Crc16.CRC_BYTES + size];
        }
        outcomes := outcomes + [Delivered(fr.priority, slot.startTs, fr.src, fr.tid, view)];
      } else {
        outcomes := outcomes + [Rejected(fr.priority)];
      }
    }

    method Evict(p: Prio)
      requires Shape()
      modifies slots
      ensures Shape() && Slots() == old(Slots()) - {p}
    {
      ghost var was := Slots();
      SlotsOf();
      slots[p] := null;
      forall q: Prio ensures SlotOf(q) == if q != p && q in was then Some(was[q]) else None {
        assert old(SlotOf(q)) == if q in was then Some(was[q]) else None;
      }
    }

    method Open(p: Prio, ts: int, tid: TransferId, iface: nat)
      requires Shape()
      modifies this`Repr, slots
      ensures Shape() && fresh(Repr - old(Repr))
      ensures Slots() == old(Slots())[p := NewSlot(sub, ts, tid, iface)]
    {
      hide NewSlot;
      ghost var was := Slots();
      SlotsOf();
      var slot := new RxSlot(sub, ts, tid, iface);
      slots[p] := slot;
      Repr := Repr + {slot, slot.payload};
      forall q: Prio
        ensures SlotOf(q)
                == if q == p then Some(NewSlot(sub, ts, tid, iface)) else if q in was then Some(was[q]) else None
      {
        assert old(SlotOf(q)) == if q in was then Some(was[q]) else None;
      }
    }

    /** Clears the way for the start of a longer transfer. */
    method Reopen(p: Prio, ts: int, tid: TransferId, iface: nat)
      requires Shape()
      modifies this`Repr, slots
      ensures Shape() && fresh(Repr - old(Repr))
      ensures Slots() == Cleanup(sub, old(Slots()) - {p}, ts)[p := NewSlot(sub, ts, tid, iface)]
    {
      hide NewSlot, Cleanup, Shape, SlotOf, Slots;
      Evict(p);
      var n := CleanUp(ts);
      Open(p, ts, tid, iface);
    }

    method Record(ts: int, fr: Parsed, iface: nat)
      requires Shape() && fr.start
      modifies this`lastAdmissionTs, this`lastAdmittedTransferId, this`lastAdmittedPriority, this`ifaceIndex
      ensures Shape() && Model() == Recorded(old(Model()), ts, fr, iface)
    {
      lastAdmissionTs, lastAdmittedTransferId, lastAdmittedPriority, ifaceIndex := ts, fr.tid, fr.priority, iface;
      hide Shape, Slots;
    }

    /** What an admitted start frame does before its payload is looked at. */
    method Prepare(ts: int, fr: Parsed, iface: nat)
      requires Shape() && fr.start
      modifies this, Repr
      ensures Shape() && fresh(Repr - old(Repr)) && outcomes == old(outcomes)
      ensures Model() == Recorded(old(Model()), ts, fr, iface).(slots := Prepared(sub, old(Model()), ts, fr, iface))
    {
      hide NewSlot, Cleanup, Prepared, Shape, SlotOf, Slots;
      PreparedStart(sub, Model(), ts, fr, iface);
      if fr.end {
        Evict(fr.priority);
      } else {
        Reopen(fr.priority, ts, fr.tid, iface);
      }
      Record(ts, fr, iface);
    }

    /** Takes an admitted frame in, stated on the slots as a whole. */
    method TakeAdmitted(ts: int, fr: Parsed)
      requires Shape() && Acceptable(sub, SlotAt(Model(), fr.priority), fr)
      modifies this, Repr
      ensures Shape() && Repr == old(Repr)
      ensures var a := Accept(sub, SlotAt(old(Model()), fr.priority), ts, fr);
        outcomes == old(outcomes) + a.out
        && Model() == old(Model()).(slots := match a.slot
             case None => old(Slots()) - {fr.priority}
             case Some(s) => old(Slots())[fr.priority := s])
    {
      hide Advance, CompleteSlot, NewSlot, Crc16.Add, Shape, SlotOf, Slots;
      ghost var prepared := Slots();
      SlotsOf();
      ghost var a := Accept(sub, SlotOf(fr.priority), ts, fr);
      AcceptFrame(ts, fr);
      SlotsOf();
      ghost var after := match a.slot case None => prepared - {fr.priority} case Some(s) => prepared[fr.priority := s];
      assert forall q: Prio :: q != fr.priority ==>
             (q in after <==> q in prepared) && (q in after ==> after[q] == prepared[q]);
      assert Slots() == after;
    }

    lemma ValidFromModel()
      requires Shape() && sub.Valid() && CanSession.Valid(sub, Model())
      ensures Valid()
    {
      SlotsOf();
    }

    /** The reaction of the session to a frame, in place. */
    method UpdateWith(ts: int, fr: Parsed, iface: nat)
      requires Valid() && WellFormed(fr)
      modifies this, Repr
      ensures Valid() && fresh(Repr - old(Repr))
      ensures var u := Update(sub, old(Model()), ts, fr, iface);
        Model() == u.session && outcomes == old(outcomes) + u.out
    {
      hide Accept, Admit, Shape, SlotOf, Slots, Prepared;
      ghost var was := Model();
      var admit := SolveAdmission(ts, fr, iface);
      if !admit {
        return;
      }
      PreparedIsAcceptable(sub, was, ts, fr, iface);
      if fr.start {
        Prepare(ts, fr, iface);
      } else {
        PreparedContinuation(sub, was, ts, fr, iface);
      }
      TakeAdmitted(ts, fr);
      assert Model() == Update(sub, was, ts, fr, iface).session;
      ValidFromModel();
    }
  }
}
