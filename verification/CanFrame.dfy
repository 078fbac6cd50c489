/** CAN frames: the tail byte, the layouts of the 29-bit CAN ID, and the frame parser. */
module CanFrame {
  import opened Wire

  const TAIL_SOT: Byte := 128
  const TAIL_EOT: Byte := 64
  const TAIL_TOGGLE: Byte := 32
  const TRANSFER_ID_MAX: Byte := 31
  const CAN_EXT_ID_MASK: bv32 := 0x1FFFFFFF
  const NODE_ID_ANONYMOUS: Byte := 0xFF
  const MTU_CLASSIC := 8
  const MTU_FD := 64

  /** Priority level: 0 is the most urgent. */
  type Prio = p: nat | p < 8

  /** A 29-bit extended CAN ID. */
  type CanId = id: bv32 | id <= CAN_EXT_ID_MASK

  /** A 7-bit node-ID. */
  type NodeId = n: Byte | n <= 127

  /** A 5-bit transfer-ID. */
  type TransferId = t: Byte | t <= 31

  datatype Kind =
    | Message16b | Message13b | Response | Request
    | V0Message | V0Response | V0Request
  {
    predicate IsV1() { Message16b? || Message13b? || Response? || Request? }
  }

  datatype Parsed = Parsed(
    priority: Prio, kind: Kind, port: bv16, dst: Byte, src: Byte,
    tid: TransferId, start: bool, end: bool, toggle: bool, payload: seq<Byte>)

  /** The two readings of a raw frame: as a legacy v0 frame and as a v1 frame. */
  datatype Readings = Readings(v0: Option<Parsed>, v1: Option<Parsed>)

  function MakeTail(sot: bool, eot: bool, toggle: bool, tid: Byte): Byte {
    (if sot then TAIL_SOT else 0) | (if eot then TAIL_EOT else 0) |
    (if toggle then TAIL_TOGGLE else 0) | (tid & TRANSFER_ID_MAX)
  }

  function PriorityOf(id: CanId): Prio { ((id >> 26) as bv3) as int }

  /** Whether the length of the frame and its position in the transfer go together. */
  predicate PayloadOk(raw: seq<Byte>, start: bool, end: bool)
    requires |raw| >= 1
  {
    (end || |raw| >= MTU_CLASSIC) && ((start && end) || |raw| > 1)
  }

  function ParseV1(id: CanId, fr: Parsed): Option<Parsed> {
    var bit23 := id & (1 << 23) != 0;
    var bit24 := id & (1 << 24) != 0;
    if id & (1 << 25) != 0 then
      var dst := ((id >> 7) & 127) as Byte;
      if bit23 || fr.src == dst then None
      else Some(fr.(kind := if bit24 then Request else Response, dst := dst, port := ((id >> 14) & 511) as bv16))
    else if id & (1 << 7) != 0 then
      if bit24 then None
      else Some(fr.(kind := Message16b, dst := NODE_ID_ANONYMOUS, port := ((id >> 8) & 0xFFFF) as bv16))
    else if bit23 || (bit24 && !(fr.start && fr.end)) then None
    else Some(fr.(kind := Message13b, dst := NODE_ID_ANONYMOUS, port := ((id >> 8) & 8191) as bv16,
                  src := if bit24 then NODE_ID_ANONYMOUS else fr.src))
  }

  function ParseV0(id: CanId, fr: Parsed): Option<Parsed> {
    if id & (1 << 7) != 0 then
      var dst := ((id >> 8) & 127) as Byte;
      if dst == 0 || fr.src == 0 || fr.src == dst then None
      else Some(fr.(kind := if id & (1 << 15) != 0 then V0Request else V0Response,
                    dst := dst, port := ((id >> 16) & 0xFF) as bv16))
    else if fr.src == 0 then
      if !(fr.start && fr.end) then None
      else Some(fr.(kind := V0Message, dst := NODE_ID_ANONYMOUS, src := NODE_ID_ANONYMOUS,
                    port := ((id >> 8) & 3) as bv16))
    else Some(fr.(kind := V0Message, dst := NODE_ID_ANONYMOUS, port := ((id >> 8) & 0xFFFF) as bv16))
  }

  /** The fields every reading shares; kind, port and destination are filled in later. */
  function Common(id: CanId, raw: seq<Byte>): Parsed
    requires |raw| >= 1
  {
    var tail := raw[|raw| - 1];
    Parsed(PriorityOf(id), Message16b, 0, 0, (id & 127) as Byte, tail & TRANSFER_ID_MAX,
           tail & TAIL_SOT != 0, tail & TAIL_EOT != 0, tail & TAIL_TOGGLE != 0, raw[..|raw| - 1])
  }

  function Parse(id: CanId, raw: seq<Byte>): Readings {
    if |raw| < 1 then Readings(None, None)
    else
      var fr := Common(id, raw);
      if !PayloadOk(raw, fr.start, fr.end) then Readings(None, None)
      else Readings(
        if fr.start && fr.toggle then None else ParseV0(id, fr),
        if fr.start && !fr.toggle then None else ParseV1(id, fr))
  }

  /** What every frame that leaves the parser satisfies. */
  predicate WellFormed(fr: Parsed) {
    && (fr.start ==> fr.toggle == fr.kind.IsV1())
    && (!fr.end ==> |fr.payload| >= MTU_CLASSIC - 1)
    && (!(fr.start && fr.end) ==> |fr.payload| > 0 && fr.src != NODE_ID_ANONYMOUS)
  }

  lemma SourceIsNodeId(id: CanId)
    ensures (id & 127) as Byte <= 127
  {
  }

  lemma ParsedIsWellFormed(id: CanId, raw: seq<Byte>)
    ensures var r := Parse(id, raw);
      && (r.v0.Some? ==> WellFormed(r.v0.value) && !r.v0.value.kind.IsV1())
      && (r.v1.Some? ==> WellFormed(r.v1.value) && r.v1.value.kind.IsV1())
  {
    SourceIsNodeId(id);
  }

  // ---------------------------------------------------------------- the tail byte

  lemma TailRoundTrip(sot: bool, eot: bool, toggle: bool, tid: TransferId)
    ensures var b := MakeTail(sot, eot, toggle, tid);
      && (b & TAIL_SOT != 0 <==> sot) && (b & TAIL_EOT != 0 <==> eot)
      && (b & TAIL_TOGGLE != 0 <==> toggle) && b & TRANSFER_ID_MAX == tid
  {
  }

  // ---------------------------------------------------------------- CAN IDs of the publishing calls

  /** What a publishing call addresses: the kind, the port and, for services, the peer. */
  datatype Address =
    | Subject16b(subject16: bv16)
    | Subject13b(subject13: bv16)
    | Service(service: bv16, peer: Byte, request: bool)
    | V0Subject(dataType: bv16)
    | V0Service(v0Type: Byte, v0Peer: Byte, v0Request: bool)
  {
    /** The argument checks of the publishing calls. */
    predicate Valid() {
      match this
      case Subject16b(_) => true
      case Subject13b(s) => s <= 8191
      case Service(s, d, _) => s <= 511 && d <= 127
      case V0Subject(_) => true
      case V0Service(_, d, _) => 0 < d <= 127
    }

    predicate IsV1() { Subject16b? || Subject13b? || Service? }

    function Kind(): Kind {
      match this
      case Subject16b(_) => Message16b
      case Subject13b(_) => Message13b
      case Service(_, _, request) => if request then Request else Response
      case V0Subject(_) => V0Message
      case V0Service(_, _, request) => if request then V0Request else V0Response
    }

    function Port(): bv16 {
      match this
      case Subject16b(s) => s
      case Subject13b(s) => s
      case Service(s, _, _) => s
      case V0Subject(t) => t
      case V0Service(t, _, _) => t as bv16
    }

    function Destination(): Byte {
      match this
      case Service(_, d, _) => d
      case V0Service(_, d, _) => d
      case _ => NODE_ID_ANONYMOUS
    }

    /** The source address a receiver can tell from this destination and from an anonymous node. */
    predicate Emittable(node: NodeId) {
      (IsV1() || node != 0) && Destination() != node
    }
  }

  function Prio32(p: Prio): bv32 { (p as bv3) as bv32 }

  /** The CAN ID a publishing call builds, node-ID field still empty. */
  function Template(p: Prio, a: Address): bv32 {
    match a
    case Subject16b(s) => (Prio32(p) << 26) | ((s as bv32) << 8) | (1 << 7)
    case Subject13b(s) => (Prio32(p) << 26) | (3 << 21) | ((s as bv32) << 8)
    case Service(s, d, request) =>
      (Prio32(p) << 26) | (1 << 25) | ((if request then 1 else 0) << 24) | ((s as bv32) << 14) | ((d as bv32) << 7)
    case V0Subject(t) => (Prio32(p) << 26) | ((t as bv32) << 8)
    case V0Service(t, d, request) =>
      (Prio32(p) << 26) | ((t as bv32) << 16) | ((if request then 1 else 0) << 15) | ((d as bv32) << 8) | (1 << 7)
  }

  /** The 22 most significant bits, all that a queued transfer keeps of its template. */
  function MsbOf(template: bv32): bv32 { (template >> 7) & 0x3FFFFF }

  /** The CAN ID put on the bus: the kept bits with the node-ID of the moment below them. */
  function OnWire(msb: bv32, node: NodeId): bv32 { (msb << 7) | (node as bv32) }

  lemma OnWireIsCanId(template: bv32, node: NodeId)
    ensures OnWire(MsbOf(template), node) <= CAN_EXT_ID_MASK
    ensures (OnWire(MsbOf(template), node) & 127) as Byte == node
  {
  }

  /** The CAN ID a publishing call makes the given node emit. */
  function WireId(p: Prio, a: Address, node: NodeId): (id: CanId)
  {
    OnWireIsCanId(Template(p, a), node);
    OnWire(MsbOf(Template(p, a)), node)
  }

  lemma WireIdSource(p: Prio, a: Address, node: NodeId)
    requires a.Valid()
    ensures (WireId(p, a, node) & 127) as Byte == node
    ensures PriorityOf(WireId(p, a, node)) == p
  {
    OnWireIsCanId(Template(p, a), node);
    var three := p as bv3;
    assert ((OnWire(MsbOf(Template(p, a)), node) >> 26) as bv3) == three;
  }

  // The address bits of a CAN ID, layout by layout.

  predicate Carries16b(id: bv32, s: bv16) {
    id & (1 << 25) == 0 && id & (1 << 7) != 0 && id & (1 << 24) == 0 && ((id >> 8) & 0xFFFF) as bv16 == s
  }

  predicate Carries13b(id: bv32, s: bv16) {
    id & (1 << 25) == 0 && id & (1 << 7) == 0 && id & (1 << 24) == 0 && id & (1 << 23) == 0
    && ((id >> 8) & 8191) as bv16 == s
  }

  predicate CarriesService(id: bv32, s: bv16, d: Byte, request: bool) {
    id & (1 << 25) != 0 && id & (1 << 23) == 0 && (id & (1 << 24) != 0 <==> request)
    && ((id >> 14) & 511) as bv16 == s && ((id >> 7) & 127) as Byte == d
  }

  predicate CarriesV0(id: bv32, t: bv16) {
    id & (1 << 7) == 0 && ((id >> 8) & 0xFFFF) as bv16 == t
  }

  predicate CarriesV0Service(id: bv32, t: Byte, d: Byte, request: bool) {
    id & (1 << 7) != 0 && (id & (1 << 15) != 0 <==> request)
    && ((id >> 16) & 0xFF) as bv16 == t as bv16 && ((id >> 8) & 127) as Byte == d
  }

  predicate Carries(id: bv32, a: Address) {
    match a
    case Subject16b(s) => Carries16b(id, s)
    case Subject13b(s) => Carries13b(id, s)
    case Service(s, d, request) => CarriesService(id, s, d, request)
    case V0Subject(t) => CarriesV0(id, t)
    case V0Service(t, d, request) => CarriesV0Service(id, t, d, request)
  }

  lemma Fields16b(p: Prio, s: bv16, node: NodeId)
    ensures Carries16b(OnWire(MsbOf(Template(p, Subject16b(s))), node), s)
  {
  }

  lemma Fields13b(p: Prio, s: bv16, node: NodeId)
    requires s <= 8191
    ensures Carries13b(OnWire(MsbOf(Template(p, Subject13b(s))), node), s)
  {
  }

  lemma FieldsService(p: Prio, s: bv16, d: Byte, request: bool, node: NodeId)
    requires s <= 511 && d <= 127
    ensures CarriesService(OnWire(MsbOf(Template(p, Service(s, d, request))), node), s, d, request)
  {
  }

  lemma FieldsV0(p: Prio, t: bv16, node: NodeId)
    ensures CarriesV0(OnWire(MsbOf(Template(p, V0Subject(t))), node), t)
  {
  }

  lemma FieldsV0Service(p: Prio, t: Byte, d: Byte, request: bool, node: NodeId)
    requires d <= 127
    ensures CarriesV0Service(OnWire(MsbOf(Template(p, V0Service(t, d, request))), node), t, d, request)
  {
  }

  lemma WireIdCarries(p: Prio, a: Address, node: NodeId)
    requires a.Valid()
    ensures Carries(WireId(p, a, node), a)
  {
    hide Template, OnWire, MsbOf, Carries16b, Carries13b, CarriesService, CarriesV0, CarriesV0Service;
    match a
    case Subject16b(s) => Fields16b(p, s, node);
    case Subject13b(s) => Fields13b(p, s, node);
    case Service(s, d, request) => FieldsService(p, s, d, request, node);
    case V0Subject(t) => FieldsV0(p, t, node);
    case V0Service(t, d, request) => FieldsV0Service(p, t, d, request, node);
  }

  /** The reading of the address fields that fits the generation of the address. */
  function ReadAs(v1: bool, id: CanId, fr: Parsed): Option<Parsed> {
    if v1 then ParseV1(id, fr) else ParseV0(id, fr)
  }

  function Addressed(fr: Parsed, a: Address): Parsed {
    fr.(kind := a.Kind(), port := a.Port(), dst := a.Destination())
  }

  /** The parser reads back the kind, port and destination the CAN ID carries. */
  lemma ReadCarried(a: Address, node: NodeId, id: CanId, fr: Parsed)
    requires a.Valid() && a.Emittable(node) && fr.src == node
    requires Carries(id, a)
    ensures ReadAs(a.IsV1(), id, fr) == Some(Addressed(fr, a))
  {
    match a
    case Subject16b(_) => assert ParseV1(id, fr) == Some(Addressed(fr, a));
    case Subject13b(_) => assert ParseV1(id, fr) == Some(Addressed(fr, a));
    case Service(_, _, _) => assert ParseV1(id, fr) == Some(Addressed(fr, a));
    case V0Subject(_) => assert ParseV0(id, fr) == Some(Addressed(fr, a));
    case V0Service(_, _, _) => assert ParseV0(id, fr) == Some(Addressed(fr, a));
  }

  /** The address of a frame that is not anonymous. */
  function AddressOf(r: Parsed): Address
    requires r.kind.V0Response? || r.kind.V0Request? ==> r.port <= 255
  {
    match r.kind
    case Message16b => Subject16b(r.port)
    case Message13b => Subject13b(r.port)
    case Response => Service(r.port, r.dst, false)
    case Request => Service(r.port, r.dst, true)
    case V0Message => V0Subject(r.port)
    case V0Response => V0Service(r.port as Byte, r.dst, false)
    case V0Request => V0Service(r.port as Byte, r.dst, true)
  }

  lemma V1IsCarried(id: CanId, fr: Parsed)
    requires ParseV1(id, fr).Some? && ParseV1(id, fr).value.src == fr.src <= 127
    ensures var r := ParseV1(id, fr).value;
            && r.kind.IsV1() && AddressOf(r).Valid() && AddressOf(r).Emittable(fr.src) && Carries(id, AddressOf(r))
            && AddressOf(r).Destination() == r.dst
  {
  }

  lemma V0IsCarried(id: CanId, fr: Parsed)
    requires ParseV0(id, fr).Some? && ParseV0(id, fr).value.src == fr.src <= 127
    ensures var r := ParseV0(id, fr).value;
            && !r.kind.IsV1() && (r.kind.V0Response? || r.kind.V0Request? ==> r.port <= 255)
            && AddressOf(r).Valid() && AddressOf(r).Emittable(fr.src) && Carries(id, AddressOf(r))
            && AddressOf(r).Destination() == r.dst
  {
  }

  /** The CAN ID carries the address of a frame, and its source can use that. */
  predicate IsCarried(id: CanId, r: Parsed) {
    && (r.kind.V0Response? || r.kind.V0Request? ==> r.port <= 255)
    && AddressOf(r).Valid() && Carries(id, AddressOf(r)) && AddressOf(r).Destination() == r.dst
    && r.src <= 127 && AddressOf(r).Emittable(r.src) && r.src == (id & 127) as Byte
  }

  lemma SourceStays(v1: bool, id: CanId, fr: Parsed)
    requires ReadAs(v1, id, fr).Some?
    ensures ReadAs(v1, id, fr).value.src == fr.src || ReadAs(v1, id, fr).value.src == NODE_ID_ANONYMOUS
  {
  }

  /** Whatever the parser reads, and is not anonymous, is an address that a node with that ID can publish to. */
  lemma ParsedIsCarried(id: CanId, raw: seq<Byte>)
    ensures var p := Parse(id, raw);
            && (p.v1.Some? && p.v1.value.src != NODE_ID_ANONYMOUS ==>
                  p.v1.value.kind.IsV1() && IsCarried(id, p.v1.value))
            && (p.v0.Some? && p.v0.value.src != NODE_ID_ANONYMOUS ==>
                  !p.v0.value.kind.IsV1() && IsCarried(id, p.v0.value))
  {
    hide ParseV1, ParseV0, Carries, AddressOf, Address.Valid, Address.Emittable, Address.Destination;
    SourceIsNodeId(id);
    if |raw| >= 1 {
      var fr := Common(id, raw);
      if ParseV1(id, fr).Some? {
        SourceStays(true, id, fr);
        if ParseV1(id, fr).value.src == fr.src {
          V1IsCarried(id, fr);
        }
      }
      if ParseV0(id, fr).Some? {
        SourceStays(false, id, fr);
        if ParseV0(id, fr).value.src == fr.src {
          V0IsCarried(id, fr);
        }
      }
    }
  }

  /** The reading of a frame that belongs to the given protocol generation. */
  function Reading(r: Readings, v1: bool): Option<Parsed> { if v1 then r.v1 else r.v0 }

  /** A frame as its sender means it. */
  function Sent(p: Prio, a: Address, node: NodeId, tid: TransferId,
                start: bool, end: bool, toggle: bool, payload: seq<Byte>): Parsed
  {
    Parsed(p, a.Kind(), a.Port(), a.Destination(), node, tid, start, end, toggle, payload)
  }

  lemma CommonOfSent(
      p: Prio, a: Address, node: NodeId, tid: TransferId, start: bool, end: bool, toggle: bool, payload: seq<Byte>)
    requires a.Valid()
    ensures Common(WireId(p, a, node), payload + [MakeTail(start, end, toggle, tid)])
            == Parsed(p, Message16b, 0, 0, node, tid, start, end, toggle, payload)
  {
    hide WireId, PriorityOf, MakeTail;
    var raw := payload + [MakeTail(start, end, toggle, tid)];
    assert raw[..|raw| - 1] == payload;
    TailRoundTrip(start, end, toggle, tid);
    WireIdSource(p, a, node);
  }

  /** A data field followed by its tail byte, under a published CAN ID, is parsed as it was meant. */
  lemma FrameRoundTrip(p: Prio, a: Address, node: NodeId, tid: TransferId,
                       start: bool, end: bool, toggle: bool, payload: seq<Byte>)
    requires a.Valid() && a.Emittable(node)
    requires start ==> toggle == a.IsV1()
    requires end || |payload| >= MTU_CLASSIC - 1
    requires (start && end) || |payload| > 0
    ensures Reading(Parse(WireId(p, a, node), payload + [MakeTail(start, end, toggle, tid)]), a.IsV1())
         == Some(Sent(p, a, node, tid, start, end, toggle, payload))
  {
    hide WireId, Carries, ParseV1, ParseV0, MakeTail, Common;
    var raw := payload + [MakeTail(start, end, toggle, tid)];
    var id := WireId(p, a, node);
    CommonOfSent(p, a, node, tid, start, end, toggle, payload);
    WireIdCarries(p, a, node);
    ReadCarried(a, node, id, Common(id, raw));
  }
}
