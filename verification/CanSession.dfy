/** Reassembly state of one remote node under one subscription, as functions on values. */
module CanSession {
  import opened Wire
  import opened CanFrame
  import Crc16

  const RX_SESSION_TIMEOUT := 30 * 1000 * 1000
  const BIG_BANG := -0x8000_0000_0000_0000

  datatype Subscription = Subscription(kind: Kind, extent: nat, crcSeed: bv16, tidTimeout: nat)
  {
    /** A zero extent leaves a v1 slot without a buffer to hand over, which faults on completion. */
    predicate Valid() { (kind.IsV1() ==> extent >= 1) && tidTimeout < 0x8000_0000_0000_0000 }

    /** The size of a slot's buffer: the legacy CRC prefix is stored along with the payload. */
    function BufferSize(): nat { if kind.IsV1() then extent else extent + Crc16.CRC_BYTES }

    /** How long an unfinished slot may wait before a cleanup drops it. */
    function Patience(): nat { if RX_SESSION_TIMEOUT > tidTimeout then RX_SESSION_TIMEOUT else tidTimeout }
  }

  datatype Slot = Slot(
    startTs: int, total: nat, crc: bv16, tid: TransferId, iface: nat, toggle: bool, buffer: seq<Byte>)

  datatype Session = Session(
    slots: map<Prio, Slot>, lastTs: int, lastTid: TransferId, lastPrio: Prio, iface: nat)

  /** What the application, or the error counter, gets to see. */
  datatype Outcome =
    | Delivered(priority: Prio, ts: int, src: Byte, tid: TransferId, payload: seq<Byte>)
    | Rejected(priority: Prio)

  datatype Accepted = Accepted(slot: Option<Slot>, out: seq<Outcome>)
  datatype Updated = Updated(session: Session, out: seq<Outcome>)

  function Zeros(n: nat): (z: seq<Byte>)
    ensures |z| == n
  {
    seq(n, _ => 0)
  }

  /** The state in which the session factory leaves a session. */
  function NewSession(iface: nat): Session {
    Session(map[], BIG_BANG, 0, 0, iface)
  }

  function NewSlot(sub: Subscription, ts: int, tid: TransferId, iface: nat): Slot {
    Slot(ts, 0, sub.crcSeed, tid, iface, sub.kind.IsV1(), Zeros(sub.BufferSize()))
  }

  function Overlay(buffer: seq<Byte>, at: nat, data: seq<Byte>): (r: seq<Byte>)
    requires at + |data| <= |buffer|
    ensures |r| == |buffer|
  {
    buffer[..at] + data + buffer[at + |data|..]
  }

  /** Copies what still fits into the buffer; counts and toggles regardless. */
  function Advance(slot: Slot, payload: seq<Byte>): (r: Slot)
    ensures |r.buffer| == |slot.buffer| && r.total == slot.total + |payload|
  {
    var buffer :=
      if slot.total < |slot.buffer| then
        Overlay(slot.buffer, slot.total, payload[..Min(|payload|, |slot.buffer| - slot.total)])
      else slot.buffer;
    slot.(buffer := buffer, total := slot.total + |payload|, toggle := !slot.toggle)
  }

  /** The part of a frame that enters the transfer CRC: the legacy CRC prefix does not. */
  function CrcInput(sub: Subscription, fr: Parsed): seq<Byte>
    requires fr.start ==> |fr.payload| >= Crc16.CRC_BYTES
  {
    if !sub.kind.IsV1() && fr.start then fr.payload[Crc16.CRC_BYTES..] else fr.payload
  }

  function LittleEndian16(lo: Byte, hi: Byte): bv16 { (lo as bv16) | ((hi as bv16) << 8) }

  function CompleteSlot(sub: Subscription, slot: Slot, fr: Parsed): Outcome
    requires slot.total >= Crc16.CRC_BYTES
    requires |slot.buffer| == sub.BufferSize()
  {
    var v1 := sub.kind.IsV1();
    var reference := if v1 then Crc16.CRC_RESIDUE else LittleEndian16(slot.buffer[0], slot.buffer[1]);
    if slot.crc != reference then Rejected(fr.priority)
    else
      var view :=
        if v1 then slot.buffer[..Min(slot.total - Crc16.CRC_BYTES, |slot.buffer|)]
        else
          var size := Min(slot.total - Crc16.CRC_BYTES, |slot.buffer| - Crc16.CRC_BYTES);
          slot.buffer[Crc16.CRC_BYTES..Crc16.CRC_BYTES + size];
      Delivered(fr.priority, slot.startTs, fr.src, fr.tid, view)
  }

  predicate ValidSlot(sub: Subscription, slot: Slot) {
    slot.total >= MTU_CLASSIC - 1 && |slot.buffer| == sub.BufferSize()
  }

  ghost predicate Valid(sub: Subscription, ses: Session) {
    forall p :: p in ses.slots ==> ValidSlot(sub, ses.slots[p])
  }

  /** The slot a frame is about to be accepted into: as the admission leaves it. */
  predicate Acceptable(sub: Subscription, slot: Option<Slot>, fr: Parsed) {
    && WellFormed(fr)
    && (fr.start && fr.end ==> slot.None?)
    && (slot.Some? ==> |slot.value.buffer| == sub.BufferSize())
    && (slot.Some? && !fr.start ==> slot.value.total >= MTU_CLASSIC - 1)
  }

  /** Accepts an admitted frame into the slot of its priority. */
  function Accept(sub: Subscription, slot: Option<Slot>, ts: int, fr: Parsed): (r: Accepted)
    requires Acceptable(sub, slot, fr)
    ensures r.slot.Some? ==> ValidSlot(sub, r.slot.value)
    ensures r.out == [] || (|r.out| == 1 && r.out[0].priority == fr.priority)
  {
    match slot
    case None => Accepted(None, [Delivered(fr.priority, ts, fr.src, fr.tid, fr.payload)])
    case Some(s) =>
      var advanced := Advance(s, fr.payload);
      var next := advanced.(crc := Crc16.Add(advanced.crc, CrcInput(sub, fr)));
      if fr.end then Accepted(None, [CompleteSlot(sub, next, fr)]) else Accepted(Some(next), [])
  }

  /** Drops the slots that have waited for too long. */
  function Cleanup(sub: Subscription, slots: map<Prio, Slot>, now: int): map<Prio, Slot> {
    map p | p in slots && slots[p].startTs >= now - sub.Patience() :: slots[p]
  }

  /** A slot outlives a cleanup for half a minute, or for the transfer-ID timeout if that is longer. */
  lemma CleanupIsExact(sub: Subscription, slots: map<Prio, Slot>, now: int, p: Prio)
    ensures p in Cleanup(sub, slots, now) <==>
            p in slots && (now - slots[p].startTs <= 30_000_000 || now - slots[p].startTs <= sub.tidTimeout)
    ensures p in Cleanup(sub, slots, now) ==> Cleanup(sub, slots, now)[p] == slots[p]
  {
  }

  predicate Admit(sub: Subscription, ses: Session, ts: int, fr: Parsed, iface: nat) {
    if !fr.start then Continues(SlotAt(ses, fr.priority), fr, iface)
    else
      var novel := fr.tid != ses.lastTid || fr.priority != ses.lastPrio;
      var affine := ses.iface == iface;
      var stale := ts - sub.tidTimeout > ses.lastTs;
      (novel && affine) || (affine && stale) || (stale && novel)
  }

  function SlotAt(ses: Session, p: Prio): Option<Slot> {
    if p in ses.slots then Some(ses.slots[p]) else None
  }

  /** Whether a continuation frame is the next one of the transfer in the slot. */
  predicate Continues(slot: Option<Slot>, fr: Parsed, iface: nat) {
    slot.Some? && slot.value.tid == fr.tid && slot.value.iface == iface && slot.value.toggle == fr.toggle
  }

  /** The slot a start frame opens at its own priority. */
  function Opened(sub: Subscription, ts: int, fr: Parsed, iface: nat): Option<Slot> {
    if fr.end then None else Some(NewSlot(sub, ts, fr.tid, iface))
  }

  /** The slots as an admitted frame finds them: a start frame evicts its predecessor and,
      when it opens a slot, the stale slots of every priority. */
  function Prepared(sub: Subscription, ses: Session, ts: int, fr: Parsed, iface: nat): map<Prio, Slot> {
    if !fr.start then ses.slots
    else
      var others := ses.slots - {fr.priority};
      match Opened(sub, ts, fr, iface)
      case None => others
      case Some(slot) => Cleanup(sub, others, ts)[fr.priority := slot]
  }

  function Recorded(ses: Session, ts: int, fr: Parsed, iface: nat): Session {
    if fr.start then ses.(lastTs := ts, lastTid := fr.tid, lastPrio := fr.priority, iface := iface) else ses
  }

  /** The whole reaction of a session to a frame. */
  function Update(sub: Subscription, ses: Session, ts: int, fr: Parsed, iface: nat): (r: Updated)
    requires Valid(sub, ses) && WellFormed(fr)
    ensures Valid(sub, r.session)
    ensures r.out == [] || (|r.out| == 1 && r.out[0].priority == fr.priority)
  {
    if !Admit(sub, ses, ts, fr, iface) then Updated(ses, [])
    else
      var slots := Prepared(sub, ses, ts, fr, iface);
      var accepted := Accept(sub, SlotAt(ses.(slots := slots), fr.priority), ts, fr);
      var after := match accepted.slot
        case None => slots - {fr.priority}
        case Some(s) => slots[fr.priority := s];
      Updated(Recorded(ses, ts, fr, iface).(slots := after), accepted.out)
  }
}
