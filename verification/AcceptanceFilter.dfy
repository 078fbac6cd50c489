/** Hardware acceptance filters: one per subscription, fused when the controller has too few. */
module AcceptanceFilter {
  import opened CanFrame
  import opened Wire

  datatype Filter = Filter(id: bv32, mask: bv32)

  predicate Matches(fid: bv32, fmask: bv32, id: bv32) { id & fmask == fid }

  predicate Inside(fid: bv32, fmask: bv32, gid: bv32, gmask: bv32) { fmask & !gmask == 0 && gid & fmask == fid }

  /** What the controller lets through. */
  predicate Accepts(f: Filter, id: bv32) { Matches(f.id, f.mask, id) }

  /** f compares fewer bits than g, and those agree. */
  predicate Covers(f: Filter, g: Filter) { Inside(f.id, f.mask, g.id, g.mask) }

  function ForSubscription(kind: Kind, port: bv16, node: Byte): Filter {
    var p, id := port as bv32, (node & 127) as bv32;
    match kind
    case Message16b => Filter((p << 8) | (1 << 7), 0x03FFFF80)
    case Message13b => Filter(p << 8, 0x029FFF80)
    case Response => Filter((1 << 25) | (p << 14) | (id << 7), 0x03FFFF80)
    case Request => Filter((1 << 25) | (1 << 24) | (p << 14) | (id << 7), 0x03FFFF80)
    case V0Message => Filter(p << 8, if port <= 3 then 0x00000380 else 0x00FFFF80)
    case V0Response => Filter(((p & 0xFF) << 16) | (id << 8) | (1 << 7), 0x00FFFF80)
    case V0Request => Filter(((p & 0xFF) << 16) | (1 << 15) | (id << 8) | (1 << 7), 0x00FFFF80)
  }

  // ---------------------------------------------------------------- a subscription's filter accepts its frames

  lemma {:induction false} Message16bPasses(id: bv32, node: Byte)
    requires id & (1 << 25) == 0 && id & (1 << 24) == 0 && id & (1 << 7) != 0
    ensures Accepts(ForSubscription(Message16b, ((id >> 8) & 0xFFFF) as bv16, node), id)
  {
  }

  lemma {:induction false} Message13bPasses(id: bv32, node: Byte)
    requires id & (1 << 25) == 0 && id & (1 << 23) == 0 && id & (1 << 7) == 0
    ensures Accepts(ForSubscription(Message13b, ((id >> 8) & 8191) as bv16, node), id)
  {
  }

  lemma {:induction false} ServicePasses(id: bv32)
    requires id & (1 << 25) != 0 && id & (1 << 23) == 0
    ensures id & (1 << 24) != 0 ==>
              Accepts(ForSubscription(Request, ((id >> 14) & 511) as bv16, ((id >> 7) & 127) as Byte), id)
    ensures id & (1 << 24) == 0 ==>
              Accepts(ForSubscription(Response, ((id >> 14) & 511) as bv16, ((id >> 7) & 127) as Byte), id)
    ensures ((id >> 7) & 127) as Byte != 0xFF
  {
  }

  lemma {:induction false} V0ServicePasses(id: bv32)
    requires id & (1 << 7) != 0
    ensures id & (1 << 15) != 0 ==>
              Accepts(ForSubscription(V0Request, ((id >> 16) & 0xFF) as bv16, ((id >> 8) & 127) as Byte), id)
    ensures id & (1 << 15) == 0 ==>
              Accepts(ForSubscription(V0Response, ((id >> 16) & 0xFF) as bv16, ((id >> 8) & 127) as Byte), id)
    ensures ((id >> 8) & 127) as Byte != 0xFF
  {
  }

  lemma {:induction false} V0MessagePasses(id: bv32, node: Byte)
    requires id & (1 << 7) == 0
    ensures Accepts(ForSubscription(V0Message, ((id >> 8) & 0xFFFF) as bv16, node), id)
    ensures Accepts(ForSubscription(V0Message, ((id >> 8) & 3) as bv16, node), id)
  {
  }

  ghost predicate ForUs(fr: Parsed, node: Byte) { fr.dst == NODE_ID_ANONYMOUS || fr.dst == node }

  lemma {:induction false} V1Accepted(id: CanId, fr: Parsed, node: Byte)
    requires ParseV1(id, fr).Some? && ForUs(ParseV1(id, fr).value, node)
    ensures var p := ParseV1(id, fr).value; Accepts(ForSubscription(p.kind, p.port, node), id)
  {
    hide Accepts, ForSubscription;
    if id & (1 << 25) != 0 {
      ServicePasses(id);
    } else if id & (1 << 7) != 0 {
      Message16bPasses(id, node);
    } else {
      Message13bPasses(id, node);
    }
  }

  lemma {:induction false} V0Accepted(id: CanId, fr: Parsed, node: Byte)
    requires ParseV0(id, fr).Some? && ForUs(ParseV0(id, fr).value, node)
    ensures var p := ParseV0(id, fr).value; Accepts(ForSubscription(p.kind, p.port, node), id)
  {
    hide Accepts, ForSubscription;
    if id & (1 << 7) != 0 {
      V0ServicePasses(id);
    } else {
      V0MessagePasses(id, node);
    }
  }

  /** A frame read as the kind and port of a subscription, for everyone or for this node, passes its filter. */
  lemma {:induction false} OwnFramesAccepted(id: CanId, raw: seq<Byte>, node: Byte)
    ensures var r := Parse(id, raw);
            && (r.v1.Some? && ForUs(r.v1.value, node) ==>
                Accepts(ForSubscription(r.v1.value.kind, r.v1.value.port, node), id))
            && (r.v0.Some? && ForUs(r.v0.value, node) ==>
                Accepts(ForSubscription(r.v0.value.kind, r.v0.value.port, node), id))
  {
    hide ParseV0, ParseV1, Accepts, ForSubscription, ForUs;
    if |raw| >= 1 {
      var fr := Common(id, raw);
      if ParseV1(id, fr).Some? && ForUs(ParseV1(id, fr).value, node) {
        V1Accepted(id, fr, node);
      }
      if ParseV0(id, fr).Some? && ForUs(ParseV0(id, fr).value, node) {
        V0Accepted(id, fr, node);
      }
    }
  }

  // ---------------------------------------------------------------- and refuses those of other ports

  // Each layout of the CAN ID meets its filter exactly if its fields are those of the filter.

  lemma Only16b(id: bv32, s: bv16, port: bv16, node: Byte)
    requires Carries16b(id, s) && Accepts(ForSubscription(Message16b, port, node), id)
    ensures port == s
  {
  }

  lemma Just16b(id: bv32, s: bv16, port: bv16, node: Byte)
    requires Carries16b(id, s) && port == s
    ensures Accepts(ForSubscription(Message16b, port, node), id)
  {
  }

  lemma Only13b(id: bv32, s: bv16, port: bv16, node: Byte)
    requires Carries13b(id, s) && port <= 8191 && Accepts(ForSubscription(Message13b, port, node), id)
    ensures port == s
  {
  }

  lemma Just13b(id: bv32, s: bv16, port: bv16, node: Byte)
    requires Carries13b(id, s) && port <= 8191 && port == s
    ensures Accepts(ForSubscription(Message13b, port, node), id)
  {
  }

  lemma OnlyRequest(id: bv32, s: bv16, d: Byte, port: bv16, node: Byte)
    requires CarriesService(id, s, d, true) && port <= 511 && node <= 127
    requires Accepts(ForSubscription(Request, port, node), id)
    ensures port == s && node == d
  {
  }

  lemma JustRequest(id: bv32, s: bv16, d: Byte, port: bv16, node: Byte)
    requires CarriesService(id, s, d, true) && port <= 511 && node <= 127 && port == s && node == d
    ensures Accepts(ForSubscription(Request, port, node), id)
  {
  }

  lemma OnlyResponse(id: bv32, s: bv16, d: Byte, port: bv16, node: Byte)
    requires CarriesService(id, s, d, false) && port <= 511 && node <= 127
    requires Accepts(ForSubscription(Response, port, node), id)
    ensures port == s && node == d
  {
  }

  lemma JustResponse(id: bv32, s: bv16, d: Byte, port: bv16, node: Byte)
    requires CarriesService(id, s, d, false) && port <= 511 && node <= 127 && port == s && node == d
    ensures Accepts(ForSubscription(Response, port, node), id)
  {
  }

  lemma OnlyV0(id: bv32, t: bv16, port: bv16, node: Byte)
    requires CarriesV0(id, t) && port > 3 && Accepts(ForSubscription(V0Message, port, node), id)
    ensures port == t
  {
  }

  lemma JustV0(id: bv32, t: bv16, port: bv16, node: Byte)
    requires CarriesV0(id, t) && port > 3 && port == t
    ensures Accepts(ForSubscription(V0Message, port, node), id)
  {
    V0MessagePasses(id, node);
    hide Accepts, ForSubscription;
  }

  lemma OnlyV0Low(id: bv32, t: bv16, port: bv16, node: Byte)
    requires CarriesV0(id, t) && port <= 3 && Accepts(ForSubscription(V0Message, port, node), id)
    ensures port == t & 3
  {
  }

  lemma JustV0Low(id: bv32, t: bv16, port: bv16, node: Byte)
    requires CarriesV0(id, t) && port <= 3 && port == t & 3
    ensures Accepts(ForSubscription(V0Message, port, node), id)
  {
  }

  lemma OnlyV0Request(id: bv32, t: Byte, d: Byte, port: bv16, node: Byte)
    requires CarriesV0Service(id, t, d, true) && node <= 127 && Accepts(ForSubscription(V0Request, port, node), id)
    ensures port & 0xFF == t as bv16 && node == d
  {
  }

  lemma JustV0Request(id: bv32, t: Byte, d: Byte, port: bv16, node: Byte)
    requires CarriesV0Service(id, t, d, true) && node <= 127 && port & 0xFF == t as bv16 && node == d
    ensures Accepts(ForSubscription(V0Request, port, node), id)
  {
  }

  lemma OnlyV0Response(id: bv32, t: Byte, d: Byte, port: bv16, node: Byte)
    requires CarriesV0Service(id, t, d, false) && node <= 127 && Accepts(ForSubscription(V0Response, port, node), id)
    ensures port & 0xFF == t as bv16 && node == d
  {
  }

  lemma JustV0Response(id: bv32, t: Byte, d: Byte, port: bv16, node: Byte)
    requires CarriesV0Service(id, t, d, false) && node <= 127 && port & 0xFF == t as bv16 && node == d
    ensures Accepts(ForSubscription(V0Response, port, node), id)
  {
  }

  /** The argument checks of the subscribing calls. */
  predicate ValidPort(kind: Kind, port: bv16) {
    match kind
    case Message13b => port <= 8191
    case Response => port <= 511
    case Request => port <= 511
    case _ => true
  }

  /** A subscription takes a port of its kind; the shortest legacy data types stand for all with their low two bits. */
  predicate TakesPort(kind: Kind, port: bv16, other: bv16) {
    match kind
    case V0Message => if port <= 3 then port == other & 3 else port == other
    case V0Response => port & 0xFF == other
    case V0Request => port & 0xFF == other
    case _ => port == other
  }

  /** What the address must be for the filter to let it through. */
  predicate Wanted(a: Address, port: bv16, node: NodeId) {
    TakesPort(a.Kind(), port, a.Port()) && (a.Destination() == NODE_ID_ANONYMOUS || a.Destination() == node)
  }

  lemma MessageMeetsFilter(id: bv32, a: Address, port: bv16, node: NodeId)
    requires a.Valid() && ValidPort(a.Kind(), port) && Carries(id, a) && (a.Subject16b? || a.Subject13b?)
    ensures Accepts(ForSubscription(a.Kind(), port, node), id) <==> port == a.Port()
  {
    hide Accepts, ForSubscription, Carries16b, Carries13b;
    match a {
      case Subject16b(s) =>
        if port == s {
          Just16b(id, s, port, node);
        } else if Accepts(ForSubscription(Message16b, port, node), id) {
          Only16b(id, s, port, node);
        }
      case Subject13b(s) =>
        if port == s {
          Just13b(id, s, port, node);
        } else if Accepts(ForSubscription(Message13b, port, node), id) {
          Only13b(id, s, port, node);
        }
      case _ =>
    }
  }

  lemma V0MeetsFilter(id: bv32, t: bv16, port: bv16, node: NodeId)
    requires CarriesV0(id, t)
    ensures Accepts(ForSubscription(V0Message, port, node), id) <==> TakesPort(V0Message, port, t)
  {
    hide Accepts, ForSubscription, CarriesV0;
    if TakesPort(V0Message, port, t) {
      if port <= 3 {
        JustV0Low(id, t, port, node);
      } else {
        JustV0(id, t, port, node);
      }
    } else if Accepts(ForSubscription(V0Message, port, node), id) {
      if port <= 3 {
        OnlyV0Low(id, t, port, node);
      } else {
        OnlyV0(id, t, port, node);
      }
    }
  }

  lemma ServiceMeetsFilter(id: bv32, s: bv16, d: Byte, request: bool, port: bv16, node: NodeId)
    requires CarriesService(id, s, d, request) && port <= 511
    ensures Accepts(ForSubscription(if request then Request else Response, port, node), id) <==> port == s && node == d
  {
    hide Accepts, ForSubscription, CarriesService;
    if port == s && node == d {
      if request {
        JustRequest(id, s, d, port, node);
      } else {
        JustResponse(id, s, d, port, node);
      }
    } else if request && Accepts(ForSubscription(Request, port, node), id) {
      OnlyRequest(id, s, d, port, node);
    } else if !request && Accepts(ForSubscription(Response, port, node), id) {
      OnlyResponse(id, s, d, port, node);
    }
  }

  lemma V0ServiceMeetsFilter(id: bv32, t: Byte, d: Byte, request: bool, port: bv16, node: NodeId)
    requires CarriesV0Service(id, t, d, request)
    ensures Accepts(ForSubscription(if request then V0Request else V0Response, port, node), id)
            <==> port & 0xFF == t as bv16 && node == d
  {
    hide Accepts, ForSubscription, CarriesV0Service;
    if port & 0xFF == t as bv16 && node == d {
      if request {
        JustV0Request(id, t, d, port, node);
      } else {
        JustV0Response(id, t, d, port, node);
      }
    } else if request && Accepts(ForSubscription(V0Request, port, node), id) {
      OnlyV0Request(id, t, d, port, node);
    } else if !request && Accepts(ForSubscription(V0Response, port, node), id) {
      OnlyV0Response(id, t, d, port, node);
    }
  }

  lemma WantedMessage(a: Address, port: bv16, node: NodeId)
    requires a.Subject16b? || a.Subject13b?
    ensures Wanted(a, port, node) <==> port == a.Port()
  {
  }

  lemma WantedV0(t: bv16, port: bv16, node: NodeId)
    ensures Wanted(V0Subject(t), port, node) <==> TakesPort(V0Message, port, t)
  {
  }

  lemma WantedService(s: bv16, d: Byte, request: bool, port: bv16, node: NodeId)
    requires d <= 127
    ensures Wanted(Service(s, d, request), port, node) <==> port == s && node == d
  {
  }

  lemma WantedV0Service(t: Byte, d: Byte, request: bool, port: bv16, node: NodeId)
    requires d <= 127
    ensures Wanted(V0Service(t, d, request), port, node) <==> port & 0xFF == t as bv16 && node == d
  {
  }

  /** Of what nodes publish of its kind, a subscription's filter lets through exactly its port, sent to this node. */
  lemma {:induction false} OwnFilterIsExact(p: Prio, a: Address, n: NodeId, port: bv16, node: NodeId)
    requires a.Valid() && ValidPort(a.Kind(), port)
    ensures Accepts(ForSubscription(a.Kind(), port, node), WireId(p, a, n)) <==> Wanted(a, port, node)
  {
    hide Accepts, ForSubscription, WireId, Carries16b, Carries13b, CarriesService, CarriesV0, CarriesV0Service, Wanted,
      TakesPort;
    WireIdCarries(p, a, n);
    var id := WireId(p, a, n);
    match a {
      case Subject16b(_) =>
        MessageMeetsFilter(id, a, port, node);
        WantedMessage(a, port, node);
      case Subject13b(_) =>
        MessageMeetsFilter(id, a, port, node);
        WantedMessage(a, port, node);
      case Service(s, d, request) =>
        ServiceMeetsFilter(id, s, d, request, port, node);
        WantedService(s, d, request, port, node);
      case V0Subject(t) =>
        V0MeetsFilter(id, t, port, node);
        WantedV0(t, port, node);
      case V0Service(t, d, request) =>
        V0ServiceMeetsFilter(id, t, d, request, port, node);
        WantedV0Service(t, d, request, port, node);
    }
  }

  // ---------------------------------------------------------------- fusing

  function FusedMask(aid: bv32, amask: bv32, bid: bv32, bmask: bv32): bv32 { amask & bmask & !(aid ^ bid) }

  function Fuse(a: Filter, b: Filter): Filter {
    var mask := FusedMask(a.id, a.mask, b.id, b.mask);
    Filter(a.id & mask, mask)
  }

  lemma {:induction false} InsideMeansMatches(fi: bv32, fm: bv32, gi: bv32, gm: bv32, x: bv32)
    requires Inside(fi, fm, gi, gm) && Matches(gi, gm, x)
    ensures Matches(fi, fm, x)
  {
  }

  /** A covering filter lets through everything the other does. */
  lemma {:induction false} CoversMeansAccepts(f: Filter, g: Filter, id: bv32)
    requires Covers(f, g) && Accepts(g, id)
    ensures Accepts(f, id)
  {
    hide Inside, Matches;
    InsideMeansMatches(f.id, f.mask, g.id, g.mask, id);
  }

  lemma {:induction false} InsideTransitive(fi: bv32, fm: bv32, gi: bv32, gm: bv32, hi: bv32, hm: bv32)
    requires Inside(fi, fm, gi, gm) && Inside(gi, gm, hi, hm)
    ensures Inside(fi, fm, hi, hm)
  {
  }

  lemma {:induction false} CoversTransitive(f: Filter, g: Filter, h: Filter)
    requires Covers(f, g) && Covers(g, h)
    ensures Covers(f, h)
  {
    hide Inside;
    InsideTransitive(f.id, f.mask, g.id, g.mask, h.id, h.mask);
  }

  lemma {:induction false} FusedInside(ai: bv32, am: bv32, bi: bv32, bm: bv32)
    ensures var m := FusedMask(ai, am, bi, bm); Inside(ai & m, m, ai, am) && Inside(ai & m, m, bi, bm)
  {
  }

  /** A fused filter lets through what either did. */
  lemma {:induction false} FuseCoversBoth(a: Filter, b: Filter)
    ensures Covers(Fuse(a, b), a) && Covers(Fuse(a, b), b)
  {
    hide Inside, FusedMask;
    FusedInside(a.id, a.mask, b.id, b.mask);
  }

  lemma FusedIsLeast(fi: bv32, fm: bv32, ai: bv32, am: bv32, bi: bv32, bm: bv32)
    requires Inside(fi, fm, ai, am) && Inside(fi, fm, bi, bm)
    ensures var m := FusedMask(ai, am, bi, bm); Inside(fi, fm, ai & m, m)
  {
  }

  /** And no more than it must: a filter covers the fused one exactly if it covers both. */
  lemma {:induction false} FuseIsLeast(a: Filter, b: Filter, f: Filter)
    ensures Covers(f, Fuse(a, b)) <==> Covers(f, a) && Covers(f, b)
  {
    hide Inside, FusedMask;
    if Covers(f, a) && Covers(f, b) {
      FusedIsLeast(f.id, f.mask, a.id, a.mask, b.id, b.mask);
    }
    if Covers(f, Fuse(a, b)) {
      FuseCoversBoth(a, b);
      CoversTransitive(f, Fuse(a, b), a);
      CoversTransitive(f, Fuse(a, b), b);
    }
  }

  // ---------------------------------------------------------------- bit by bit

  /** Bit k of a word, from the lowest. */
  predicate BitOf(x: bv32, k: nat) { if k == 0 then x & 1 == 1 else BitOf(x >> 1, k - 1) }

  lemma FusedLowBit(ai: bv32, am: bv32, bi: bv32, bm: bv32)
    ensures FusedMask(ai, am, bi, bm) & 1 == 1 <==> am & 1 == 1 && bm & 1 == 1 && (ai & 1 == 1 <==> bi & 1 == 1)
  {
  }

  lemma FusedShifted(ai: bv32, am: bv32, bi: bv32, bm: bv32)
    ensures FusedMask(ai, am, bi, bm) >> 1 == FusedMask(ai >> 1, am >> 1, bi >> 1, bm >> 1)
  {
  }

  lemma {:induction false} FusedBit(ai: bv32, am: bv32, bi: bv32, bm: bv32, k: nat)
    ensures BitOf(FusedMask(ai, am, bi, bm), k)
            <==> BitOf(am, k) && BitOf(bm, k) && (BitOf(ai, k) <==> BitOf(bi, k))
    decreases k
  {
    hide FusedMask;
    if k == 0 {
      FusedLowBit(ai, am, bi, bm);
    } else {
      FusedShifted(ai, am, bi, bm);
      FusedBit(ai >> 1, am >> 1, bi >> 1, bm >> 1, k - 1);
    }
  }

  lemma AndLowBit(a: bv32, m: bv32, c: bv32)
    requires c == a & m
    ensures c & 1 == 1 <==> a & 1 == 1 && m & 1 == 1
    ensures c >> 1 == (a >> 1) & (m >> 1)
  {
  }

  lemma BitUnfold(x: bv32, k: nat)
    ensures BitOf(x, k) <==> if k == 0 then x & 1 == 1 else BitOf(x >> 1, k - 1)
  {
  }

  lemma {:induction false} AndBit(a: bv32, m: bv32, c: bv32, k: nat)
    requires c == a & m
    ensures BitOf(c, k) <==> BitOf(a, k) && BitOf(m, k)
    decreases k
  {
    hide BitOf;
    AndLowBit(a, m, c);
    BitUnfold(a, k);
    BitUnfold(m, k);
    BitUnfold(c, k);
    if k > 0 {
      AndBit(a >> 1, m >> 1, c >> 1, k - 1);
    }
  }

  /** A fused filter compares exactly the bits that both compare and agree on, and asks for what both ask for. */
  lemma {:induction false} FuseBits(a: Filter, b: Filter, k: nat)
    ensures BitOf(Fuse(a, b).mask, k) <==> BitOf(a.mask, k) && BitOf(b.mask, k) && (BitOf(a.id, k) <==> BitOf(b.id, k))
    ensures BitOf(Fuse(a, b).id, k) <==> BitOf(Fuse(a, b).mask, k) && BitOf(a.id, k)
  {
    hide FusedMask, BitOf;
    FusedBit(a.id, a.mask, b.id, b.mask, k);
    var mask := FusedMask(a.id, a.mask, b.id, b.mask);
    AndBit(a.id, mask, a.id & mask, k);
  }

  /** A filter compares no bit that its own identifier leaves undecided. */
  predicate Decided(f: Filter) { f.id & f.mask == f.id }

  lemma {:induction false} MessagesDecided(port: bv16, node: Byte)
    ensures Decided(ForSubscription(Message16b, port, node))
    ensures port <= 8191 ==> Decided(ForSubscription(Message13b, port, node))
  {
  }

  lemma {:induction false} V0MessagesDecided(port: bv16, node: Byte)
    ensures Decided(ForSubscription(V0Message, port, node))
  {
  }

  lemma {:induction false} ServicesDecided(port: bv16, node: Byte)
    requires port <= 511
    ensures Decided(ForSubscription(Response, port, node)) && Decided(ForSubscription(Request, port, node))
  {
  }

  lemma {:induction false} V0ServicesDecided(port: bv16, node: Byte)
    ensures Decided(ForSubscription(V0Response, port, node)) && Decided(ForSubscription(V0Request, port, node))
  {
  }

  lemma DecidedCoversItself(f: Filter)
    requires Decided(f)
    ensures Covers(f, f)
  {
  }

  lemma {:induction false} OwnBits(kind: Kind, port: bv16, node: Byte)
    requires ValidPort(kind, port)
    ensures Covers(ForSubscription(kind, port, node), ForSubscription(kind, port, node))
  {
    hide Covers, ForSubscription, Decided;
    match kind {
      case Message16b | Message13b => MessagesDecided(port, node);
      case V0Message => V0MessagesDecided(port, node);
      case Response | Request => ServicesDecided(port, node);
      case V0Response | V0Request => V0ServicesDecided(port, node);
    }
    DecidedCoversItself(ForSubscription(kind, port, node));
  }

  // ---------------------------------------------------------------- the filter list in place

  function Popcount(x: bv32, n: nat): nat
    requires n <= 32
  {
    if n == 0 then 0 else Popcount(x >> 1, n - 1) + if x & 1 == 1 then 1 else 0
  }

  function Rank(f: Filter): nat { Popcount(f.mask, 32) }

  ghost function BitsOf(x: bv32, n: nat): (bits: set<nat>) { set k: nat | k < n && BitOf(x, k) }

  ghost function Moved(s: set<nat>): (r: set<nat>)
    ensures forall k: nat :: k in r <==> k > 0 && k - 1 in s
  {
    set k | k in s :: k + 1
  }

  lemma {:induction false} MovedSize(s: set<nat>)
    ensures |Moved(s)| == |s|
  {
    if s == {} {
      assert Moved(s) == {};
    } else {
      var x :| x in s;
      MovedSize(s - {x});
      assert Moved(s) == Moved(s - {x}) + {x + 1};
    }
  }

  lemma BitsUnfold(x: bv32, n: nat)
    requires n > 0
    ensures BitsOf(x, n) == Moved(BitsOf(x >> 1, n - 1)) + if x & 1 == 1 then {0} else {}
  {
    forall k: nat ensures k in BitsOf(x, n) <==> k in Moved(BitsOf(x >> 1, n - 1)) || (k == 0 && x & 1 == 1) {
      assert k > 0 ==> (k - 1 in BitsOf(x >> 1, n - 1) <==> k in BitsOf(x, n));
    }
  }

  lemma {:induction false} PopcountCounts(x: bv32, n: nat)
    requires n <= 32
    ensures Popcount(x, n) == |BitsOf(x, n)|
  {
    if n > 0 {
      var rest := BitsOf(x >> 1, n - 1);
      PopcountCounts(x >> 1, n - 1);
      BitsUnfold(x, n);
      MovedSize(rest);
      hide BitsOf, Moved;
      assert 0 !in Moved(rest);
    }
  }

  /** The rank of a filter is the number of bits it compares. */
  lemma RankCounts(f: Filter)
    ensures Rank(f) == |BitsOf(f.mask, 32)|
  {
    PopcountCounts(f.mask, 32);
  }

  ghost predicate Covered(filters: seq<Filter>, g: Filter) { exists i :: 0 <= i < |filters| && Covers(filters[i], g) }

  /** Everything covered before is covered now, and the new filter too. */
  ghost predicate Widens(was: seq<Filter>, now: seq<Filter>, added: Filter) {
    forall g :: (Covered(was, g) ==> Covered(now, g)) && (Covers(added, g) ==> Covered(now, g))
  }

  method IsCovered(count: nat, filters: array<Filter>, inner: Filter) returns (covered: bool)
    requires count <= filters.Length
    ensures covered <==> Covered(filters[..count], inner)
  {
    for i := 0 to count
      invariant !Covered(filters[..i], inner)
    {
      if Covers(filters[i], inner) {
        assert filters[..count][i] == filters[i];
        return true;
      }
      assert filters[..i + 1] == filters[..i] + [filters[i]];
    }
    return false;
  }

  /** The candidate at place j, the new filter standing after the others. */
  function Other(into: seq<Filter>, newF: Filter, j: nat): Filter
    requires j <= |into|
  {
    if j < |into| then into[j] else newF
  }

  function FusedRank(into: seq<Filter>, newF: Filter, i: nat, j: nat): nat
    requires i < |into| && j <= |into|
  {
    Rank(Fuse(into[i], Other(into, newF, j)))
  }

  lemma RankOfPair(into: seq<Filter>, newF: Filter, i: nat, j: nat)
    requires i < |into| && j <= |into|
    ensures FusedRank(into, newF, i, j) == Rank(Fuse(into[i], Other(into, newF, j)))
  {
  }

  /** No pair keeps more mask bits than this one. */
  ghost predicate IsBest(into: seq<Filter>, newF: Filter, i: nat, j: nat) {
    && i < j <= |into|
    && forall p: nat, q: nat :: p < q <= |into| ==> FusedRank(into, newF, p, q) <= FusedRank(into, newF, i, j)
  }

  function Coalesced(into: seq<Filter>, newF: Filter, i: nat, j: nat): (r: seq<Filter>)
    requires i < j <= |into|
    ensures |r| == |into|
  {
    var fused := into[i := Fuse(into[i], Other(into, newF, j))];
    if j < |into| then fused[j := newF] else fused
  }

  lemma {:induction false} CoalescedWidens(into: seq<Filter>, newF: Filter, i: nat, j: nat)
    requires i < j <= |into|
    ensures Widens(into, Coalesced(into, newF, i, j), newF)
  {
    var r := Coalesced(into, newF, i, j);
    FuseCoversBoth(into[i], Other(into, newF, j));
    hide Covers, Fuse, Other;
    forall g | Covered(into, g) || Covers(newF, g) ensures Covered(r, g) {
      if Covers(newF, g) {
        if j < |into| {
          assert r[j] == newF;
        } else {
          CoversTransitive(r[i], newF, g);
        }
      } else {
        var k :| 0 <= k < |into| && Covers(into[k], g);
        if k == i || k == j {
          CoversTransitive(r[i], into[k], g);
        } else {
          assert r[k] == into[k];
        }
      }
    }
  }

  method CoalesceInto(count: nat, into: array<Filter>, newF: Filter) returns (ghost bestI: nat, ghost bestJ: nat)
    requires 0 < count == into.Length
    modifies into
    ensures IsBest(old(into[..]), newF, bestI, bestJ)
    ensures into[..] == Coalesced(old(into[..]), newF, bestI, bestJ)
  {
    hide FusedRank, Fuse, Rank;
    ghost var was := into[..];
    var initialized, bi, bj, bestRank, bestFuse := false, 0, count, 0, newF;
    for i := 0 to count
      invariant into[..] == was
      invariant initialized <==> i > 0
      invariant initialized ==> bi < bj <= count && bi < count
      invariant initialized ==>
                bestFuse == Fuse(was[bi], Other(was, newF, bj)) && bestRank == FusedRank(was, newF, bi, bj)
      invariant forall p: nat, q: nat :: p < i && p < q <= count ==> FusedRank(was, newF, p, q) <= bestRank
    {
      for j := i + 1 to count + 1
        invariant into[..] == was
        invariant initialized <==> i > 0 || j > i + 1
        invariant initialized ==> bi < bj <= count && bi < count
        invariant initialized ==>
                  bestFuse == Fuse(was[bi], Other(was, newF, bj)) && bestRank == FusedRank(was, newF, bi, bj)
        invariant forall p: nat, q: nat :: p < i && p < q <= count ==> FusedRank(was, newF, p, q) <= bestRank
        invariant forall q: nat :: i < q < j ==> FusedRank(was, newF, i, q) <= bestRank
      {
        var f := if j < count then Fuse(into[i], into[j]) else Fuse(into[i], newF);
        var r := Rank(f);
        RankOfPair(was, newF, i, j);
        if !initialized || r >= bestRank {
          initialized, bi, bj, bestRank, bestFuse := true, i, j, r, f;
        }
      }
    }
    into[bi] := bestFuse;
    if bj < count {
      into[bj] := newF;
    }
    bestI, bestJ := bi, bj;
  }

  lemma {:induction false} AppendedWidens(was: seq<Filter>, f: Filter)
    ensures Widens(was, was + [f], f)
  {
    var now := was + [f];
    hide Covers;
    forall g ensures (Covered(was, g) ==> Covered(now, g)) && (Covers(f, g) ==> Covered(now, g)) {
      if Covered(was, g) {
        var i :| 0 <= i < |was| && Covers(was[i], g);
        assert now[i] == was[i];
      }
      if Covers(f, g) {
        assert now[|was|] == f;
      }
    }
  }

  /** f covers all of the filters, and every filter that does covers f. */
  ghost predicate Sums(f: Filter, parts: set<Filter>) {
    parts != {} && forall g :: Covers(g, f) <==> CoversAll(g, parts)
  }

  ghost predicate CoversAll(g: Filter, parts: set<Filter>) { forall w :: w in parts ==> Covers(g, w) }

  /** Every programmed filter is the least one over some of the wanted ones. */
  ghost predicate Honest(filters: seq<Filter>, wanted: set<Filter>) {
    forall i :: 0 <= i < |filters| ==> IsSum(filters[i], wanted)
  }

  ghost predicate IsSum(f: Filter, wanted: set<Filter>) { exists parts :: parts <= wanted && Sums(f, parts) }

  lemma OwnSum(f: Filter, wanted: set<Filter>)
    requires f in wanted
    ensures IsSum(f, wanted)
  {
    hide Covers;
    assert Sums(f, {f});
  }

  lemma MoreWanted(f: Filter, wanted: set<Filter>, more: set<Filter>)
    requires IsSum(f, wanted) && wanted <= more
    ensures IsSum(f, more)
  {
    hide Sums;
    var parts :| parts <= wanted && Sums(f, parts);
    assert parts <= more;
  }

  lemma {:induction false} FuseSums(a: Filter, b: Filter, s: set<Filter>, t: set<Filter>)
    requires Sums(a, s) && Sums(b, t)
    ensures Sums(Fuse(a, b), s + t)
  {
    hide Covers, Fuse;
    forall g ensures Covers(g, Fuse(a, b)) <==> CoversAll(g, s + t) {
      FuseIsLeast(a, b, g);
      assert CoversAll(g, s + t) <==> CoversAll(g, s) && CoversAll(g, t);
    }
  }

  lemma {:induction false} FuseIsSum(a: Filter, b: Filter, wanted: set<Filter>)
    requires IsSum(a, wanted) && IsSum(b, wanted)
    ensures IsSum(Fuse(a, b), wanted)
  {
    hide Sums, Fuse;
    var s :| s <= wanted && Sums(a, s);
    var t :| t <= wanted && Sums(b, t);
    FuseSums(a, b, s, t);
    assert s + t <= wanted;
  }

  lemma {:induction false} HonestMore(was: seq<Filter>, wanted: set<Filter>, f: Filter)
    requires Honest(was, wanted)
    ensures Honest(was, wanted + {f}) && IsSum(f, wanted + {f})
  {
    hide IsSum;
    OwnSum(f, wanted + {f});
    forall i | 0 <= i < |was| ensures IsSum(was[i], wanted + {f}) {
      MoreWanted(was[i], wanted, wanted + {f});
    }
  }

  lemma {:induction false} CoalescedHonest(into: seq<Filter>, newF: Filter, i: nat, j: nat, wanted: set<Filter>)
    requires i < j <= |into| && Honest(into, wanted) && IsSum(newF, wanted)
    ensures Honest(Coalesced(into, newF, i, j), wanted)
  {
    hide IsSum, Fuse;
    FuseIsSum(into[i], Other(into, newF, j), wanted);
  }

  /** A free place takes the filter; without one, the list is coalesced. */
  method Append(into: array<Filter>, n: nat, f: Filter, ghost wanted: set<Filter>) returns (m: nat)
    requires n <= into.Length && into.Length > 0 && Honest(into[..n], wanted)
    modifies into
    ensures n <= m <= into.Length && m > 0
    ensures Widens(old(into[..n]), into[..m], f) && Honest(into[..m], wanted + {f})
    ensures n < into.Length ==> into[..m] == old(into[..n]) + [f]
  {
    hide IsSum, Covered, Covers, Coalesced;
    HonestMore(into[..n], wanted, f);
    if n < into.Length {
      into[n] := f;
      m := n + 1;
      AppendedWidens(old(into[..n]), f);
      assert into[..m] == old(into[..n]) + [f];
    } else {
      assert into[..n] == into[..];
      ghost var i, j := CoalesceInto(n, into, f);
      CoalescedWidens(old(into[..]), f, i, j);
      CoalescedHonest(old(into[..]), f, i, j, wanted + {f});
      m := n;
      assert old(into[..n]) == old(into[..]) && into[..m] == into[..];
    }
  }

  // ---------------------------------------------------------------- configuration

  datatype Interest = Interest(kind: Kind, port: bv16)

  /** Heartbeats of both protocol versions are always wanted, to watch for taken node-IDs. */
  const FORCED: seq<Interest> := [Interest(Message13b, 7509), Interest(V0Message, 341)]

  function FilterOf(i: Interest, node: Byte): Filter { ForSubscription(i.kind, i.port, node) }

  ghost predicate AllCovered(filters: seq<Filter>, wanted: seq<Interest>, node: Byte) {
    forall i :: 0 <= i < |wanted| ==> Covered(filters, FilterOf(wanted[i], node))
  }

  lemma {:induction false} WidensCovered(
      was: seq<Filter>, now: seq<Filter>, wanted: seq<Interest>, next: Interest, node: Byte)
    requires AllCovered(was, wanted, node) && Widens(was, now, FilterOf(next, node)) && ValidPort(next.kind, next.port)
    ensures AllCovered(now, wanted + [next], node)
  {
    OwnBits(next.kind, next.port, node);
    hide Covers, ForSubscription, Covered;
  }

  ghost function WantedFilters(wanted: seq<Interest>, node: Byte): set<Filter> {
    set i | 0 <= i < |wanted| :: FilterOf(wanted[i], node)
  }

  lemma WantedOneMore(wanted: seq<Interest>, next: Interest, node: Byte)
    ensures WantedFilters(wanted + [next], node) == WantedFilters(wanted, node) + {FilterOf(next, node)}
  {
    hide FilterOf;
    var more := wanted + [next];
    forall f ensures f in WantedFilters(more, node) <==> f in WantedFilters(wanted, node) || f == FilterOf(next, node) {
      if f in WantedFilters(wanted, node) {
        var i :| 0 <= i < |wanted| && f == FilterOf(wanted[i], node);
        assert more[i] == wanted[i];
      }
      if f == FilterOf(next, node) {
        assert more[|wanted|] == next;
      }
    }
  }

  lemma {:induction false} HonestFor(filters: seq<Filter>, wanted: set<Filter>, more: set<Filter>)
    requires Honest(filters, wanted) && wanted <= more
    ensures Honest(filters, more)
  {
    hide IsSum;
    forall i | 0 <= i < |filters| ensures IsSum(filters[i], more) {
      MoreWanted(filters[i], wanted, more);
    }
  }

  /** As long as there is room, every programmed filter is a wanted one. */
  ghost predicate Unfused(filters: seq<Filter>, wanted: set<Filter>) {
    forall i :: 0 <= i < |filters| ==> filters[i] in wanted
  }

  method Configure(installed: seq<Interest>, node: Byte, capacity: nat) returns (filters: array<Filter>, n: nat)
    requires capacity > 0 && forall i :: 0 <= i < |installed| ==> ValidPort(installed[i].kind, installed[i].port)
    ensures n <= filters.Length == capacity
    ensures AllCovered(filters[..n], installed + FORCED, node)
    ensures Honest(filters[..n], WantedFilters(installed + FORCED, node))
    ensures capacity >= |installed| + |FORCED| ==> Unfused(filters[..n], WantedFilters(installed + FORCED, node))
  {
    hide ForSubscription, Covered, Widens, IsSum, WantedFilters, FilterOf, AllCovered;
    NothingWanted(node);
    filters := new Filter[capacity](i => Filter(0, 0));
    n := 0;
    assert filters[..n] == [] && installed[..0] == [];
    for k := 0 to |installed|
      invariant n <= capacity && AllCovered(filters[..n], installed[..k], node)
      invariant Honest(filters[..n], WantedFilters(installed[..k], node))
      invariant k <= capacity ==> n <= k && Unfused(filters[..n], WantedFilters(installed[..k], node))
    {
      n := Want(filters, n, installed[..k], installed[k], node);
      assert installed[..k] + [installed[k]] == installed[..k + 1];
    }
    assert installed[..|installed|] == installed + FORCED[..0];
    for k := 0 to |FORCED|
      invariant n <= capacity && AllCovered(filters[..n], installed + FORCED[..k], node)
      invariant Honest(filters[..n], WantedFilters(installed + FORCED[..k], node))
      invariant |installed| + k <= capacity ==>
                  n <= |installed| + k && Unfused(filters[..n], WantedFilters(installed + FORCED[..k], node))
    {
      var covered := IsCovered(n, filters, FilterOf(FORCED[k], node));
      if !covered {
        n := Want(filters, n, installed + FORCED[..k], FORCED[k], node);
      } else {
        AlreadyCovered(filters[..n], installed + FORCED[..k], FORCED[k], node);
      }
      assert installed + FORCED[..k] + [FORCED[k]] == installed + FORCED[..k + 1];
    }
    assert installed + FORCED[..|FORCED|] == installed + FORCED;
  }

  lemma NothingWanted(node: Byte)
    ensures WantedFilters([], node) == {} && AllCovered([], [], node)
  {
  }

  /** One more interest is programmed. */
  method Want(filters: array<Filter>, n: nat, ghost wanted: seq<Interest>, next: Interest, node: Byte)
    returns (m: nat)
    requires n <= filters.Length && filters.Length > 0 && ValidPort(next.kind, next.port)
    requires AllCovered(filters[..n], wanted, node) && Honest(filters[..n], WantedFilters(wanted, node))
    modifies filters
    ensures m <= filters.Length && AllCovered(filters[..m], wanted + [next], node)
    ensures Honest(filters[..m], WantedFilters(wanted + [next], node))
    ensures n < filters.Length && old(Unfused(filters[..n], WantedFilters(wanted, node))) ==>
              m == n + 1 && Unfused(filters[..m], WantedFilters(wanted + [next], node))
  {
    hide Covered, Widens, IsSum, WantedFilters, FilterOf, AllCovered;
    ghost var was := filters[..n];
    m := Append(filters, n, FilterOf(next, node), WantedFilters(wanted, node));
    WidensCovered(was, filters[..m], wanted, next, node);
    WantedOneMore(wanted, next, node);
  }

  lemma {:induction false} AlreadyCovered(filters: seq<Filter>, wanted: seq<Interest>, next: Interest, node: Byte)
    requires AllCovered(filters, wanted, node) && Covered(filters, FilterOf(next, node))
    requires Honest(filters, WantedFilters(wanted, node))
    ensures AllCovered(filters, wanted + [next], node) && Honest(filters, WantedFilters(wanted + [next], node))
    ensures WantedFilters(wanted, node) <= WantedFilters(wanted + [next], node)
  {
    hide Covered, FilterOf, WantedFilters, IsSum;
    WantedOneMore(wanted, next, node);
    HonestFor(filters, WantedFilters(wanted, node), WantedFilters(wanted + [next], node));
  }

  /** Whatever was fused, no frame of an installed subscription and no heartbeat is filtered out. */
  lemma {:induction false} NothingLost(
      filters: seq<Filter>, wanted: seq<Interest>, node: Byte, id: CanId, raw: seq<Byte>, fr: Parsed)
    requires AllCovered(filters, wanted, node) && Interest(fr.kind, fr.port) in wanted && ForUs(fr, node)
    requires Parse(id, raw).v0 == Some(fr) || Parse(id, raw).v1 == Some(fr)
    ensures exists i :: 0 <= i < |filters| && Accepts(filters[i], id)
  {
    hide Parse, Accepts, Covers, ForSubscription, ForUs;
    OwnFramesAccepted(id, raw, node);
    var w :| 0 <= w < |wanted| && wanted[w] == Interest(fr.kind, fr.port);
    var g := FilterOf(wanted[w], node);
    var i :| 0 <= i < |filters| && Covers(filters[i], g);
    CoversMeansAccepts(filters[i], g, id);
  }

  /** With room for all, what is let through is wanted. */
  lemma {:induction false} NothingMore(filters: seq<Filter>, wanted: seq<Interest>, node: Byte, id: CanId, i: nat)
    requires Unfused(filters, WantedFilters(wanted, node)) && i < |filters| && Accepts(filters[i], id)
    ensures exists k :: 0 <= k < |wanted| && Accepts(FilterOf(wanted[k], node), id)
  {
    hide Accepts, FilterOf;
    assert filters[i] in WantedFilters(wanted, node);
    var k :| 0 <= k < |wanted| && filters[i] == FilterOf(wanted[k], node);
  }
}
