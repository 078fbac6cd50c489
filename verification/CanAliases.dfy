/** Which frames reach a session: what the parser makes of a CAN ID in each protocol generation. */
module CanAliases {
  import opened Wire
  import opened CanFrame
  import opened CanSpool

  /** A receiver with this node-ID listens to the address. */
  predicate Listens(a: Address, me: NodeId) { a.Destination() == NODE_ID_ANONYMOUS || a.Destination() == me }

  /** The receiver hands the frame to the session of the node under its subscription to the address. */
  predicate Routed(fr: Parsed, a: Address, me: NodeId, n: NodeId) {
    && fr.kind == a.Kind() && fr.port == a.Port() && fr.src == n
    && (fr.dst == NODE_ID_ANONYMOUS || fr.dst == me)
  }

  predicate RoutedReading(id: CanId, raw: seq<Byte>, a: Address, me: NodeId, n: NodeId) {
    var r := Reading(Parse(id, raw), a.IsV1());
    r.Some? && Routed(r.value, a, me, n)
  }

  // ---------------------------------------------------------------- one generation

  lemma WidePorts(t: Byte, u: Byte)
    requires t as bv16 == u as bv16
    ensures t == u
  {
  }

  /** Within a generation kind, port and destination name the address. */
  lemma SameAddress(a: Address, b: Address)
    requires a.Valid() && b.Valid()
    requires a.Kind() == b.Kind() && a.Port() == b.Port() && a.Destination() == b.Destination()
    ensures a == b
  {
    if a.V0Service? {
      WidePorts(a.v0Type, b.v0Type);
    }
  }

  /** A node whose frames are read as its own can use the address. */
  lemma ReadIsEmittable(b: Address, n: NodeId, id: CanId, fr: Parsed)
    requires b.Valid() && Carries(id, b) && fr.src == n
    requires ReadAs(b.IsV1(), id, fr).Some? && ReadAs(b.IsV1(), id, fr).value.src == n
    ensures b.Emittable(n)
  {
    match b
    case Subject16b(_) =>
    case Subject13b(_) =>
    case Service(_, _, _) => assert ParseV1(id, fr).Some?;
    case V0Subject(_) => assert ParseV0(id, fr).Some?;
    case V0Service(_, _, _) => assert ParseV0(id, fr).Some?;
  }

  lemma Destinations(a: Address)
    requires a.Valid()
    ensures a.Destination() == NODE_ID_ANONYMOUS <==> a.Kind() in {Message16b, Message13b, V0Message}
    ensures a.Kind().IsV1() == a.IsV1()
  {
  }

  /** What is read is read from the fields both readings share. */
  lemma ReadingIsCommon(p: Prio, b: Address, n: NodeId, raw: seq<Byte>, v1: bool)
    requires b.Valid() && Reading(Parse(WireId(p, b, n), raw), v1).Some?
    ensures |raw| >= 1 && Common(WireId(p, b, n), raw).src == n
    ensures Reading(Parse(WireId(p, b, n), raw), v1) == ReadAs(v1, WireId(p, b, n), Common(WireId(p, b, n), raw))
  {
    hide WireId, ParseV1, ParseV0;
    WireIdSource(p, b, n);
  }

  /** A frame read in its own generation goes to the sessions of its address alone. */
  lemma OwnGeneration(p: Prio, a: Address, b: Address, me: NodeId, n: NodeId, raw: seq<Byte>)
    requires a.Valid() && b.Valid() && a.IsV1() == b.IsV1() && Listens(a, me)
    requires RoutedReading(WireId(p, b, n), raw, a, me, n)
    ensures a == b
  {
    hide WireId, Carries, Parse, Common, ReadAs, Reading;
    var id := WireId(p, b, n);
    ReadingIsCommon(p, b, n, raw, b.IsV1());
    WireIdCarries(p, b, n);
    ReadIsEmittable(b, n, id, Common(id, raw));
    ReadCarried(b, n, id, Common(id, raw));
    Destinations(a);
    Destinations(b);
    SameAddress(a, b);
  }

  // ---------------------------------------------------------------- the frames of a chain

  /** Data and tail byte of a frame of a chain. */
  lemma {:induction false} ChunkFrame(stream: seq<Byte>, cap: nat, first: bool, toggle: bool, tid: TransferId, k: nat)
    returns (data: seq<Byte>)
    requires cap >= 1 && stream != [] && k < |Chunks(stream, cap, first, toggle, tid)|
    ensures var z := |Chunks(stream, cap, first, toggle, tid)| - 1;
            && Chunks(stream, cap, first, toggle, tid)[k]
               == data + [MakeTail(first && k == 0, k == z, toggle == (k % 2 == 0), tid)]
            && data != [] && |data| <= cap && (k < z ==> |data| == cap)
    decreases |stream|
  {
    hide MakeTail;
    if |stream| <= cap {
      data := stream;
    } else if k == 0 {
      data := stream[..cap];
    } else {
      data := ChunkFrame(stream[cap..], cap, false, !toggle, tid, k - 1);
    }
  }

  lemma {:induction false} ChainFrame(v1: bool, seed: bv16, mtu: nat, tid: TransferId, payload: seq<Byte>, k: nat)
    returns (data: seq<Byte>)
    requires mtu >= MTU_CLASSIC && k < |Chain(v1, seed, mtu, tid, payload)|
    ensures var z := |Chain(v1, seed, mtu, tid, payload)| - 1;
            && Chain(v1, seed, mtu, tid, payload)[k] == data + [MakeTail(k == 0, k == z, v1 == (k % 2 == 0), tid)]
            && |data| < mtu && (k < z ==> |data| == mtu - 1) && (z > 0 ==> data != [])
  {
    hide MakeTail, Chunks;
    if |payload| < mtu {
      data := payload;
    } else {
      var stream := Stream(v1, seed, payload);
      assert |stream| > mtu - 1;
      data := ChunkFrame(stream, mtu - 1, true, v1, tid, k);
    }
  }

  /** What both readings share, and that the lengths are right. */
  lemma {:induction false} CommonOfChain(
      p: Prio, b: Address, n: NodeId, seed: bv16, mtu: nat, tid: TransferId, payload: seq<Byte>, k: nat)
    requires b.Valid() && mtu >= MTU_CLASSIC && k < |Chain(b.IsV1(), seed, mtu, tid, payload)|
    ensures var chain := Chain(b.IsV1(), seed, mtu, tid, payload);
            var raw, z := chain[k], |chain| - 1;
            && |raw| >= 1 && PayloadOk(raw, k == 0, k == z)
            && var fr := Common(WireId(p, b, n), raw);
               && fr.priority == p && fr.src == n && fr.tid == tid && |fr.payload| < mtu
               && fr.start == (k == 0) && fr.end == (k == z) && fr.toggle == (b.IsV1() == (k % 2 == 0))
  {
    hide MakeTail, Chain, WireId;
    var z := |Chain(b.IsV1(), seed, mtu, tid, payload)| - 1;
    var data := ChainFrame(b.IsV1(), seed, mtu, tid, payload, k);
    CommonOfSent(p, b, n, tid, k == 0, k == z, b.IsV1() == (k % 2 == 0), data);
    hide Common;
  }

  /** A first frame has one reading only, the other frames have both. */
  lemma ReadingOfCommon(id: CanId, raw: seq<Byte>, v1: bool)
    requires |raw| >= 1 && PayloadOk(raw, Common(id, raw).start, Common(id, raw).end)
    ensures var fr := Common(id, raw);
            Reading(Parse(id, raw), v1) == if fr.start && fr.toggle != v1 then None else ReadAs(v1, id, fr)
  {
    hide ParseV1, ParseV0, PayloadOk, Common;
  }

  lemma ReadAsKeeps(v1: bool, id: CanId, fr: Parsed)
    ensures ReadAs(v1, id, fr).Some? ==>
              var r := ReadAs(v1, id, fr).value;
              && r.priority == fr.priority && r.tid == fr.tid && r.start == fr.start && r.end == fr.end
              && r.toggle == fr.toggle && r.payload == fr.payload
  {
  }

  /** Whoever reads a frame of a chain, and in whichever generation, reads its place in the chain. */
  lemma {:induction false} ChainReading(
      v1: bool, p: Prio, b: Address, n: NodeId, seed: bv16, mtu: nat, tid: TransferId, payload: seq<Byte>, k: nat)
    requires b.Valid() && mtu >= MTU_CLASSIC && k < |Chain(b.IsV1(), seed, mtu, tid, payload)|
    ensures var chain := Chain(b.IsV1(), seed, mtu, tid, payload);
            var r := Reading(Parse(WireId(p, b, n), chain[k]), v1);
            r.Some? ==>
              && r.value.priority == p && r.value.tid == tid && r.value.start == (k == 0)
              && r.value.end == (k == |chain| - 1) && r.value.toggle == (b.IsV1() == (k % 2 == 0))
              && |r.value.payload| < mtu
  {
    hide Chain, WireId, Parse, Common, ReadAs, Reading, PayloadOk;
    var id, raw := WireId(p, b, n), Chain(b.IsV1(), seed, mtu, tid, payload)[k];
    CommonOfChain(p, b, n, seed, mtu, tid, payload, k);
    ReadingOfCommon(id, raw, v1);
    ReadAsKeeps(v1, id, Common(id, raw));
  }

  /** The frames of a chain reach the sessions of its own address. */
  lemma {:induction false} OwnRouted(
      p: Prio, a: Address, me: NodeId, n: NodeId, seed: bv16, mtu: nat, tid: TransferId, payload: seq<Byte>, k: nat)
    requires a.Valid() && a.Emittable(n) && Listens(a, me)
    requires mtu >= MTU_CLASSIC && k < |Chain(a.IsV1(), seed, mtu, tid, payload)|
    ensures RoutedReading(WireId(p, a, n), Chain(a.IsV1(), seed, mtu, tid, payload)[k], a, me, n)
  {
    hide Chain, WireId, Parse, Common, ReadAs, Reading, PayloadOk, Carries;
    var id, raw := WireId(p, a, n), Chain(a.IsV1(), seed, mtu, tid, payload)[k];
    CommonOfChain(p, a, n, seed, mtu, tid, payload, k);
    ReadingOfCommon(id, raw, a.IsV1());
    WireIdCarries(p, a, n);
    ReadCarried(a, n, id, Common(id, raw));
  }

  // ---------------------------------------------------------------- the other generation

  /** A frame in the middle of a transfer, before its address is read. */
  function Middle(p: Prio, n: NodeId): Parsed {
    Parsed(p, Message16b, 0, 0, n, 0, false, false, false, [])
  }

  /** Frames in the middle of a transfer to b, sent by n, are routed to the sessions of a. */
  predicate Aliases(p: Prio, a: Address, b: Address, me: NodeId, n: NodeId)
    ensures Aliases(p, a, b, me, n) ==> a.IsV1() != b.IsV1()
  {
    var r := ReadAs(a.IsV1(), WireId(p, b, n), Middle(p, n));
    a.IsV1() != b.IsV1() && r.Some? && Routed(r.value, a, me, n)
  }

  /** Of a frame that does not start a transfer only the source decides where it goes. */
  lemma MiddlesAlike(v1: bool, id: CanId, x: Parsed, y: Parsed)
    requires x.src == y.src && !x.start && !y.start
    ensures var r, s := ReadAs(v1, id, x), ReadAs(v1, id, y);
            && r.Some? == s.Some?
            && (r.Some? ==>
                  var t := s.value;
                  r.value == x.(kind := t.kind, port := t.port, dst := t.dst, src := t.src))
  {
  }

  lemma {:induction false} MiddleReading(v1: bool, id: CanId, fr: Parsed, p: Prio, n: NodeId, a: Address, me: NodeId)
    requires fr.src == n && !fr.start
    ensures var r, s := ReadAs(v1, id, fr), ReadAs(v1, id, Middle(p, n));
            r.Some? && Routed(r.value, a, me, n) <==> s.Some? && Routed(s.value, a, me, n)
  {
    hide ReadAs;
    MiddlesAlike(v1, id, fr, Middle(p, n));
  }

  /** A frame goes to a session of the other generation exactly if it is not the first one, and its address aliases. */
  lemma {:induction false} OtherGeneration(
      p: Prio, a: Address, b: Address, me: NodeId, n: NodeId, seed: bv16, mtu: nat, tid: TransferId, payload: seq<Byte>,
      k: nat)
    requires b.Valid() && a.IsV1() != b.IsV1() && mtu >= MTU_CLASSIC && k < |Chain(b.IsV1(), seed, mtu, tid, payload)|
    ensures RoutedReading(WireId(p, b, n), Chain(b.IsV1(), seed, mtu, tid, payload)[k], a, me, n)
            <==> k > 0 && Aliases(p, a, b, me, n)
  {
    hide Chain, WireId, Parse, Common, ReadAs, Reading, Routed, PayloadOk;
    var id, raw := WireId(p, b, n), Chain(b.IsV1(), seed, mtu, tid, payload)[k];
    CommonOfChain(p, b, n, seed, mtu, tid, payload, k);
    ReadingOfCommon(id, raw, a.IsV1());
    if k > 0 {
      MiddleReading(a.IsV1(), id, Common(id, raw), p, n, a, me);
    }
  }

  // ---------------------------------------------------------------- which subjects alias

  lemma V0SubjectBits(id: bv32, t: bv16)
    requires CarriesV0(id, t)
    ensures id & (1 << 7) == 0 && (id & (1 << 23) == 0) == (t & 0x8000 == 0)
    ensures ((id >> 8) & 8191) as bv16 == t & 8191
  {
  }

  lemma WideBits(p: Prio, t: bv16, node: NodeId)
    ensures var id := OnWire(MsbOf(Template(p, V0Subject(t))), node); id & (1 << 25) == 0 && id & (1 << 24) == 0
  {
  }

  /** A legacy message continues the v1 messages on the subject of its low 13 bits, unless its top bit is set. */
  lemma LegacyOntoSubject(p: Prio, s: bv16, t: bv16, me: NodeId, n: NodeId)
    requires s <= 8191
    ensures Aliases(p, Subject13b(s), V0Subject(t), me, n) <==> t & 0x8000 == 0 && t & 8191 == s
  {
    hide Template, OnWire, MsbOf, CarriesV0;
    var id := WireId(p, V0Subject(t), n);
    WireIdCarries(p, V0Subject(t), n);
    V0SubjectBits(id, t);
    WideBits(p, t, n);
  }

  lemma NarrowBits(p: Prio, s: bv16, node: NodeId)
    requires s <= 8191
    ensures var id := OnWire(MsbOf(Template(p, Subject13b(s))), node);
            id & (1 << 7) == 0 && ((id >> 8) & 0xFFFF) as bv16 == s | 0x6000
  {
  }

  /** A v1 message on a 13-bit subject continues the legacy messages of one data type, 0x6000 above it. */
  lemma SubjectOntoLegacy(p: Prio, s: bv16, t: bv16, me: NodeId, n: NodeId)
    requires s <= 8191
    ensures Aliases(p, V0Subject(t), Subject13b(s), me, n) <==> t == s | 0x6000 && n != 0
  {
    hide Template, OnWire, MsbOf;
    NarrowBits(p, s, n);
  }
}
