/** Which start frames a session lets in: repeated transfers and redundant interfaces. */
module CanAdmission {
  import opened Wire
  import opened CanFrame
  import opened CanSession
  import opened CanRoundTrip
  import opened CanProvenance
  import CanSpool
  import L = CanLanes

  // ---------------------------------------------------------------- what counts as a new transfer

  function Count(a: bool, b: bool, c: bool): nat {
    (if a then 1 else 0) + (if b then 1 else 0) + (if c then 1 else 0)
  }

  /**
   * After the start frame `was` another one is news if two of three things are new or the same: another priority or
   * transfer-ID, the same interface, a time later by more than the timeout. The very first one always is.
   */
  predicate IsNews(sub: Subscription, was: Option<Arrival>, a: Arrival) {
    match was
    case None => true
    case Some(w) =>
      2 <= Count(a.frame.priority != w.frame.priority || a.frame.tid != w.frame.tid,
                 a.iface == w.iface,
                 a.ts - w.ts > sub.tidTimeout)
  }

  /** The last start frame that was news. */
  function LastNews(sub: Subscription, arrivals: seq<Arrival>): (last: Option<Arrival>)
    ensures last.Some? ==> last.value in arrivals && last.value.frame.start
  {
    if arrivals == [] then None
    else
      var was, a := LastNews(sub, arrivals[..|arrivals| - 1]), arrivals[|arrivals| - 1];
      if a.frame.start && IsNews(sub, was, a) then Some(a) else was
  }

  /** The session was founded by the first start frame, on its interface. */
  ghost predicate Founded(iface: nat, arrivals: seq<Arrival>) {
    forall i :: 0 <= i < |arrivals| && arrivals[i].frame.start && NoneStarts(arrivals[..i]) ==>
                  arrivals[i].iface == iface
  }

  ghost predicate NoneStarts(arrivals: seq<Arrival>) {
    forall i :: 0 <= i < |arrivals| ==> !arrivals[i].frame.start
  }

  /** What the session has on record is the last start frame that was news. */
  ghost predicate OnRecord(ses: Session, iface: nat, last: Option<Arrival>) {
    match last
    case None => ses.lastTs == BIG_BANG && ses.iface == iface && ses.slots == map[]
    case Some(w) =>
      ses.lastTs == w.ts && ses.lastTid == w.frame.tid && ses.lastPrio == w.frame.priority && ses.iface == w.iface
  }

  lemma PrefixPlausible(sub: Subscription, iface: nat, arrivals: seq<Arrival>)
    requires arrivals != [] && Plausible(sub, arrivals) && Founded(iface, arrivals)
    ensures Plausible(sub, arrivals[..|arrivals| - 1]) && Founded(iface, arrivals[..|arrivals| - 1])
  {
    var was := arrivals[..|arrivals| - 1];
    assert forall i :: 0 <= i < |was| ==> was[..i] == arrivals[..i] && was[i] == arrivals[i];
    hide NoneStarts, WellFormed;
  }

  lemma {:induction false} NoNewsNoStart(sub: Subscription, arrivals: seq<Arrival>)
    ensures LastNews(sub, arrivals) == None <==> NoneStarts(arrivals)
  {
    if arrivals != [] {
      NoNewsNoStart(sub, arrivals[..|arrivals| - 1]);
    }
  }

  /** One frame, and what it does to the session. */
  lemma {:induction false} NewsStep(sub: Subscription, iface: nat, ses: Session, was: Option<Arrival>, a: Arrival)
    requires sub.Valid() && Valid(sub, ses) && WellFormed(a.frame) && OnRecord(ses, iface, was)
    requires a.frame.start && was == None ==> a.iface == iface
    ensures var u := Update(sub, ses, a.ts, a.frame, a.iface);
            && OnRecord(u.session, iface, if a.frame.start && IsNews(sub, was, a) then Some(a) else was)
            && (a.frame.start ==> (u.session != ses <==> IsNews(sub, was, a)))
            && (a.frame.start && !IsNews(sub, was, a) ==> u.out == [])
  {
    hide Accept, Prepared;
  }

  /** Over any run the session remembers the last start frame that was news. */
  lemma {:induction false} NewsIsRecorded(sub: Subscription, iface: nat, arrivals: seq<Arrival>)
    requires sub.Valid() && Plausible(sub, arrivals) && Founded(iface, arrivals)
    ensures OnRecord(Run(sub, iface, arrivals).session, iface, LastNews(sub, arrivals))
  {
    if arrivals != [] {
      var was, a := arrivals[..|arrivals| - 1], arrivals[|arrivals| - 1];
      PrefixPlausible(sub, iface, arrivals);
      NewsIsRecorded(sub, iface, was);
      NoNewsNoStart(sub, was);
      NewsStep(sub, iface, Run(sub, iface, was).session, LastNews(sub, was), a);
      hide Update, OnRecord, IsNews;
    }
  }

  /**
   * Over any run of frames, on any interfaces and at any times: a start frame changes the session exactly if it is
   * news, and a start frame that is not lets the application see nothing.
   */
  lemma {:induction false} StartsAreTakenIffNews(sub: Subscription, iface: nat, arrivals: seq<Arrival>, a: Arrival)
    requires sub.Valid() && Plausible(sub, arrivals + [a]) && Founded(iface, arrivals + [a]) && a.frame.start
    ensures Plausible(sub, arrivals)
    ensures var was, now := Run(sub, iface, arrivals), Run(sub, iface, arrivals + [a]);
            && (now.session != was.session <==> IsNews(sub, LastNews(sub, arrivals), a))
            && (!IsNews(sub, LastNews(sub, arrivals), a) ==> now == was)
  {
    var all := arrivals + [a];
    assert all[..|all| - 1] == arrivals;
    PrefixPlausible(sub, iface, all);
    NewsIsRecorded(sub, iface, arrivals);
    NoNewsNoStart(sub, arrivals);
    NewsStep(sub, iface, Run(sub, iface, arrivals).session, LastNews(sub, arrivals), a);
    hide Update, OnRecord, IsNews;
  }

  /** A start frame that opens a slot drops the other ones that have waited for more than half a minute. */
  lemma {:induction false} StartDropsTheStale(sub: Subscription, ses: Session, a: Arrival, q: Prio)
    requires Valid(sub, ses) && WellFormed(a.frame) && a.frame.start && q != a.frame.priority
    ensures var next := Update(sub, ses, a.ts, a.frame, a.iface).session;
            && (q in next.slots ==> q in ses.slots && next.slots[q] == ses.slots[q])
            && (next != ses && !a.frame.end && q in ses.slots ==>
                  var age := a.ts - ses.slots[q].startTs;
                  q in next.slots <==> age <= 30_000_000 || age <= sub.tidTimeout)
            && ((next == ses || a.frame.end) && q in ses.slots ==> q in next.slots)
  {
    hide Accept, NewSlot, Cleanup;
    CleanupIsExact(sub, ses.slots - {a.frame.priority}, a.ts, q);
    StartMoves(sub, ses, a);
  }

  /** An admitted start frame always leaves its mark. */
  lemma StartMoves(sub: Subscription, ses: Session, a: Arrival)
    requires Valid(sub, ses) && WellFormed(a.frame) && a.frame.start
    ensures Update(sub, ses, a.ts, a.frame, a.iface).session != ses <==> Admit(sub, ses, a.ts, a.frame, a.iface)
  {
    hide Accept, Prepared;
  }

  // ---------------------------------------------------------------- redundant interfaces

  /** What came in on one interface. */
  function On(arrivals: seq<Arrival>, i: nat): (own: seq<Arrival>)
    ensures forall a :: a in own ==> a in arrivals && a.iface == i
  {
    if arrivals == [] then []
    else
      var a := arrivals[|arrivals| - 1];
      On(arrivals[..|arrivals| - 1], i) + if a.iface == i then [a] else []
  }

  /** The other interfaces are late, by no more than the timeout: what starts there is preceded by news on this one. */
  ghost predicate Redundant(sub: Subscription, i: nat, arrivals: seq<Arrival>) {
    forall k :: 0 <= k < |arrivals| && arrivals[k].frame.start && arrivals[k].iface != i ==>
      var last := LastNews(sub, On(arrivals[..k], i));
      last.Some? && arrivals[k].ts - last.value.ts <= sub.tidTimeout
  }

  lemma OnOne(arrivals: seq<Arrival>, i: nat)
    ensures Founded(i, On(arrivals, i))
  {
    var own := On(arrivals, i);
    forall k | 0 <= k < |own| ensures own[k].iface == i {
      assert own[k] in own;
    }
    hide NoneStarts;
  }

  lemma OnPlausible(sub: Subscription, arrivals: seq<Arrival>, i: nat)
    requires Plausible(sub, arrivals)
    ensures Plausible(sub, On(arrivals, i))
  {
    var own := On(arrivals, i);
    hide WellFormed, On;
    forall k | 0 <= k < |own| ensures WellFormed(own[k].frame) && own[k].frame.kind == sub.kind {
      assert own[k] in own;
      assert own[k] in arrivals;
    }
  }

  /** Slots know the interface their transfer came in on. */
  lemma {:induction false} SlotOn(sub: Subscription, arrivals: seq<Arrival>, i: nat, p: Prio)
    requires sub.Valid() && Plausible(sub, On(arrivals, i))
    requires p in Run(sub, i, On(arrivals, i)).session.slots
    ensures Run(sub, i, On(arrivals, i)).session.slots[p].iface == i
  {
    hide Holds, Run, On;
    var own := On(arrivals, i);
    SlotsAreExplained(sub, i, own, p);
    assert own[Trail(sub, i, own, p)[0]] in own;
  }

  /** A frame on another interface is refused. */
  lemma {:induction false} OtherInterfaceStep(sub: Subscription, i: nat, was: seq<Arrival>, a: Arrival)
    requires sub.Valid() && Plausible(sub, On(was, i)) && WellFormed(a.frame) && a.iface != i
    requires a.frame.start ==>
               var last := LastNews(sub, On(was, i)); last.Some? && a.ts - last.value.ts <= sub.tidTimeout
    ensures var ses := Run(sub, i, On(was, i)).session;
            Update(sub, ses, a.ts, a.frame, a.iface) == Updated(ses, [])
  {
    var ses := Run(sub, i, On(was, i)).session;
    hide Run, On, Accept, Prepared;
    if a.frame.start {
      OnOne(was, i);
      NewsIsRecorded(sub, i, On(was, i));
      NewsStep(sub, i, ses, LastNews(sub, On(was, i)), a);
    } else if a.frame.priority in ses.slots {
      SlotOn(sub, was, i, a.frame.priority);
    }
  }

  lemma PlausiblePrefix(sub: Subscription, was: seq<Arrival>, a: Arrival)
    requires Plausible(sub, was + [a])
    ensures Plausible(sub, was) && WellFormed(a.frame)
  {
    assert forall i :: 0 <= i < |was| ==> (was + [a])[i] == was[i];
    assert (was + [a])[|was|] == a;
    hide WellFormed;
  }

  lemma RunNext(sub: Subscription, iface: nat, was: seq<Arrival>, a: Arrival)
    requires Plausible(sub, was + [a])
    ensures Plausible(sub, was) && WellFormed(a.frame)
    ensures var before := Run(sub, iface, was);
            var step := Update(sub, before.session, a.ts, a.frame, a.iface);
            Run(sub, iface, was + [a]) == Updated(step.session, before.out + step.out)
  {
    PlausiblePrefix(sub, was, a);
    assert (was + [a])[..|was|] == was;
    hide Update, WellFormed, Plausible;
  }

  lemma RunStays(sub: Subscription, iface: nat, was: seq<Arrival>, a: Arrival)
    requires Plausible(sub, was) && Plausible(sub, was + [a]) && WellFormed(a.frame)
    requires var ses := Run(sub, iface, was).session; Update(sub, ses, a.ts, a.frame, a.iface) == Updated(ses, [])
    ensures Run(sub, iface, was + [a]) == Run(sub, iface, was)
  {
    hide Update, Plausible, Run;
    RunNext(sub, iface, was, a);
    assert Run(sub, iface, was).out + [] == Run(sub, iface, was).out;
  }

  /** However the frames of redundant interfaces mix, only those of the first one count. */
  lemma {:induction false} RedundantInterfacesAreIgnored(sub: Subscription, i: nat, arrivals: seq<Arrival>)
    requires sub.Valid() && Plausible(sub, arrivals) && Redundant(sub, i, arrivals)
    ensures Plausible(sub, On(arrivals, i))
    ensures Run(sub, i, arrivals) == Run(sub, i, On(arrivals, i))
  {
    hide On;
    OnPlausible(sub, arrivals, i);
    if arrivals == [] {
      NothingOn(i);
    } else {
      var was, a := arrivals[..|arrivals| - 1], arrivals[|arrivals| - 1];
      assert arrivals == was + [a];
      OnPlausible(sub, was, i);
      RedundantPrefix(sub, i, arrivals);
      RedundantInterfacesAreIgnored(sub, i, was);
      LastRedundant(sub, i, arrivals);
      hide Update, WellFormed, LastNews, Run, Redundant, Plausible, Valid;
      if a.iface == i {
        OnNext(was, a, i);
        RunNext(sub, i, was, a);
        RunNext(sub, i, On(was, i), a);
      } else {
        OnNext(was, a, i);
        PlausiblePrefix(sub, was, a);
        OtherInterfaceStep(sub, i, was, a);
        RunStays(sub, i, was, a);
      }
    }
  }

  lemma OnNext(was: seq<Arrival>, a: Arrival, i: nat)
    ensures On(was + [a], i) == if a.iface == i then On(was, i) + [a] else On(was, i)
  {
    assert (was + [a])[..|was|] == was;
    assert On(was, i) + [] == On(was, i);
  }

  lemma NothingOn(i: nat)
    ensures On([], i) == []
  {
  }

  lemma LastRedundant(sub: Subscription, i: nat, arrivals: seq<Arrival>)
    requires arrivals != [] && Redundant(sub, i, arrivals)
    ensures var z := |arrivals| - 1;
            arrivals[z].frame.start && arrivals[z].iface != i ==>
              var last := LastNews(sub, On(arrivals[..z], i));
              last.Some? && arrivals[z].ts - last.value.ts <= sub.tidTimeout
  {
    hide LastNews, On;
  }

  lemma RedundantPrefix(sub: Subscription, i: nat, arrivals: seq<Arrival>)
    requires arrivals != [] && Redundant(sub, i, arrivals)
    ensures Redundant(sub, i, arrivals[..|arrivals| - 1])
  {
    var was := arrivals[..|arrivals| - 1];
    assert forall k :: 0 <= k < |was| ==> was[..k] == arrivals[..k] && was[k] == arrivals[k];
    hide LastNews, On;
  }

  // ---------------------------------------------------------------- repeated transfers

  /** Once a transfer is through, its frames can come again: without news nothing is let in. */
  lemma {:induction false} RepetitionIsIgnored(
      sub: Subscription, iface: nat, arrivals: seq<Arrival>, again: seq<Arrival>, p: Prio)
    requires sub.Valid() && Plausible(sub, arrivals) && Plausible(sub, arrivals + again) && Founded(iface, arrivals)
    requires LastNews(sub, arrivals).Some? && p !in Run(sub, iface, arrivals).session.slots
    requires forall k :: 0 <= k < |again| ==>
                           && again[k].frame.priority == p
                           && (again[k].frame.start ==> !IsNews(sub, LastNews(sub, arrivals), again[k]))
    ensures Run(sub, iface, arrivals + again) == Run(sub, iface, arrivals)
    decreases |again|
  {
    if again == [] {
      assert arrivals + again == arrivals;
    } else {
      var was, a := again[..|again| - 1], again[|again| - 1];
      assert arrivals + again == (arrivals + was) + [a];
      PlausiblePrefix(sub, arrivals + was, a);
      RepetitionIsIgnored(sub, iface, arrivals, was, p);
      NewsIsRecorded(sub, iface, arrivals);
      var ses := Run(sub, iface, arrivals).session;
      hide Update, OnRecord, IsNews, WellFormed, LastNews, Run, Plausible, Founded;
      if a.frame.start {
        NewsStep(sub, iface, ses, LastNews(sub, arrivals), a);
      } else {
        QuietWithoutSlot(sub, ses, a);
      }
      RunStays(sub, iface, arrivals + was, a);
    }
  }

  lemma QuietWithoutSlot(sub: Subscription, ses: Session, a: Arrival)
    requires Valid(sub, ses) && WellFormed(a.frame) && !a.frame.start && a.frame.priority !in ses.slots
    ensures Update(sub, ses, a.ts, a.frame, a.iface) == Updated(ses, [])
  {
    hide Accept, Prepared;
  }

  // ---------------------------------------------------------------- one transfer, twice on the bus

  function Events(arrivals: seq<Arrival>): (events: seq<L.Event>)
    ensures |events| == |arrivals|
    ensures forall k :: 0 <= k < |events| ==> events[k] == L.Event(arrivals[k].ts, arrivals[k].frame)
  {
    seq(|arrivals|, k requires 0 <= k < |arrivals| => L.Event(arrivals[k].ts, arrivals[k].frame))
  }

  /** The frames are those of the transfer, in order. */
  ghost predicate IsChain(sub: Subscription, o: Origin, t: CanRoundTrip.Transfer, arrivals: seq<Arrival>)
    requires Framable(t)
  {
    FramesOf(Events(arrivals)) == ParsedChain(o, sub.crcSeed, t)
  }

  lemma {:induction false} ChunkKinds(
      o: Origin, tid: TransferId, stream: seq<Byte>, cap: nat, first: bool, toggle: bool, k: nat)
    requires cap >= 1 && k < |ParsedChunks(o, tid, stream, cap, first, toggle)|
    ensures ParsedChunks(o, tid, stream, cap, first, toggle)[k].kind == o.address.Kind()
    ensures ParsedChunks(o, tid, stream, cap, first, toggle)[k].tid == tid
    decreases |stream|
  {
    if |stream| > cap && k > 0 {
      ChunkKinds(o, tid, stream[cap..], cap, false, !toggle, k - 1);
    }
  }

  lemma {:induction false} ChainIngestible(
      sub: Subscription, o: Origin, t: CanRoundTrip.Transfer, events: seq<L.Event>)
    requires Serves(sub, o) && o.Valid() && Framable(t) && FramesOf(events) == ParsedChain(o, sub.crcSeed, t)
    ensures L.Ingestible(events)
  {
    hide ParsedChain, L.LaneRun, Clip, WellFormed, Serves, Origin.Valid;
    TransferDelivered(sub, o, 0, t, [], events);
    assert [] + events == events;
  }

  lemma {:induction false} ChainFact(o: Origin, seed: bv16, t: CanRoundTrip.Transfer, k: nat)
    requires Framable(t) && k < |ParsedChain(o, seed, t)|
    ensures var fr := ParsedChain(o, seed, t)[k];
            && fr.start == (k == 0) && fr.priority == o.priority && fr.tid == t.tid && fr.kind == o.address.Kind()
  {
    hide ParsedChain;
    ChainStartsOnce(o, seed, t, k);
    ChainKind(o, seed, t, k);
  }

  lemma {:induction false} ChainFacts(
      sub: Subscription, o: Origin, t: CanRoundTrip.Transfer, arrivals: seq<Arrival>)
    requires Serves(sub, o) && o.Valid() && Framable(t) && IsChain(sub, o, t, arrivals)
    ensures Plausible(sub, arrivals) && arrivals != []
    ensures forall k :: 0 <= k < |arrivals| ==>
                          && arrivals[k].frame.start == (k == 0) && arrivals[k].frame.priority == o.priority
                          && arrivals[k].frame.tid == t.tid
  {
    hide ParsedChain, WellFormed, Origin.Valid, Framable, Address.Kind;
    var events := Events(arrivals);
    ChainIngestible(sub, o, t, events);
    forall k | 0 <= k < |arrivals|
      ensures WellFormed(arrivals[k].frame) && arrivals[k].frame.kind == sub.kind
      ensures arrivals[k].frame.start == (k == 0) && arrivals[k].frame.priority == o.priority
      ensures arrivals[k].frame.tid == t.tid
    {
      assert events[k].frame == arrivals[k].frame;
      assert arrivals[k].frame == FramesOf(events)[k];
      ChainFact(o, sub.crcSeed, t, k);
    }
  }

  lemma {:induction false} ChainKind(o: Origin, seed: bv16, t: CanRoundTrip.Transfer, k: nat)
    requires Framable(t) && k < |ParsedChain(o, seed, t)|
    ensures ParsedChain(o, seed, t)[k].kind == o.address.Kind() && ParsedChain(o, seed, t)[k].tid == t.tid
  {
    if |t.payload| >= t.mtu {
      ChunkKinds(o, t.tid, CanSpool.Stream(o.address.IsV1(), seed, t.payload), t.mtu - 1, true, o.address.IsV1(), k);
    }
  }

  ghost predicate AllOn(arrivals: seq<Arrival>, i: nat) { forall k :: 0 <= k < |arrivals| ==> arrivals[k].iface == i }

  lemma {:induction false} SameRun(sub: Subscription, i: nat, own: seq<Arrival>)
    requires Plausible(sub, own) && AllOn(own, i)
    ensures L.Ingestible(Events(own)) && Run(sub, i, own) == L.Run(sub, i, Events(own))
  {
    if own != [] {
      var was, a := own[..|own| - 1], own[|own| - 1];
      assert own == was + [a];
      PlausiblePrefix(sub, was, a);
      SameRun(sub, i, was);
      assert Events(own)[..|own| - 1] == Events(was);
      hide Update, WellFormed;
    }
  }

  lemma {:induction false} EventsAlone(
      sub: Subscription, o: Origin, iface: nat, t: CanRoundTrip.Transfer, events: seq<L.Event>)
    requires Serves(sub, o) && o.Valid() && Framable(t) && FramesOf(events) == ParsedChain(o, sub.crcSeed, t)
    requires L.Ingestible(events) && forall k :: 0 <= k < |events| ==>
               events[k].frame.start == (k == 0) && events[k].frame.priority == o.priority
    ensures events != []
    ensures var r := L.Run(sub, iface, events);
            && r.out == [Delivered(o.priority, events[0].ts, o.node, t.tid, Clip(sub, t))]
            && SlotAt(r.session, o.priority) == None
  {
    hide L.Run, L.LaneRun, ParsedChain, Clip, WellFormed, L.Timely, Serves, Valid, Origin.Valid;
    EmptyLane(sub, iface);
    TransferDelivered(sub, o, iface, t, [], events);
    assert [] + events == events;
    ServesValid(sub, o);
    SoloRun(sub, o, iface, events);
    ProjectAll(events, o.priority);
    EmptyLaneTimely(sub, iface, events);
    FirstStartIsNovel(events);
    hide L.NovelStarts;
    L.LanesAreIndependent(sub, iface, events, o.priority);
  }

  lemma ServesValid(sub: Subscription, o: Origin)
    requires Serves(sub, o)
    ensures sub.Valid()
  {
  }

  lemma FirstStartIsNovel(events: seq<L.Event>)
    requires forall k :: 0 <= k < |events| && events[k].frame.start ==> k == 0
    ensures L.NovelStarts(events)
  {
    assert events != [] ==> events[..0] == [];
  }

  /** The frames of one transfer alone. */
  lemma {:induction false} ChainAlone(
      sub: Subscription, o: Origin, iface: nat, t: CanRoundTrip.Transfer, own: seq<Arrival>)
    requires Serves(sub, o) && o.Valid() && Framable(t) && IsChain(sub, o, t, own) && AllOn(own, iface)
    ensures Plausible(sub, own) && own != []
    ensures var r := Run(sub, iface, own);
            && r.out == [Delivered(o.priority, own[0].ts, o.node, t.tid, Clip(sub, t))]
            && o.priority !in r.session.slots
  {
    hide Run, L.Run, ParsedChain, Clip, WellFormed, Plausible, Serves;
    ChainFacts(sub, o, t, own);
    SameRun(sub, iface, own);
    EventsAlone(sub, o, iface, t, Events(own));
  }

  lemma {:induction false} OnlyFirstIsNews(sub: Subscription, arrivals: seq<Arrival>)
    requires arrivals != [] && forall k :: 0 <= k < |arrivals| ==> arrivals[k].frame.start == (k == 0)
    ensures LastNews(sub, arrivals) == Some(arrivals[0])
  {
    if |arrivals| > 1 {
      OnlyFirstIsNews(sub, arrivals[..|arrivals| - 1]);
    }
  }

  /**
   * A transfer that comes in whole and then again, on whatever interfaces, is delivered once if it starts again within
   * the timeout.
   */
  lemma {:induction false} RepeatedTransferDeliveredOnce(
      sub: Subscription, o: Origin, iface: nat, t: CanRoundTrip.Transfer, first: seq<Arrival>, again: seq<Arrival>)
    requires Serves(sub, o) && o.Valid() && Framable(t)
    requires IsChain(sub, o, t, first) && AllOn(first, iface) && IsChain(sub, o, t, again)
    requires again != [] && first != [] ==> again[0].ts - first[0].ts <= sub.tidTimeout
    ensures first != [] && Plausible(sub, first + again)
    ensures Run(sub, iface, first + again).out
            == [Delivered(o.priority, first[0].ts, o.node, t.tid, Clip(sub, t))]
  {
    hide Run, ParsedChain, Clip, WellFormed, IsChain, L.LaneRun;
    ChainFacts(sub, o, t, first);
    ChainFacts(sub, o, t, again);
    ChainAlone(sub, o, iface, t, first);
    OnlyFirstIsNews(sub, first);
    RepetitionIsIgnored(sub, iface, first, again, o.priority);
  }

  lemma {:induction false} OnPrefix(arrivals: seq<Arrival>, k: nat, i: nat)
    requires k <= |arrivals|
    ensures On(arrivals[..k], i) <= On(arrivals, i)
    decreases |arrivals|
  {
    if k < |arrivals| {
      OnPrefix(arrivals[..|arrivals| - 1], k, i);
      assert arrivals[..|arrivals| - 1][..k] == arrivals[..k];
    } else {
      assert arrivals[..k] == arrivals;
    }
  }

  /**
   * A transfer that comes in whole on one interface is delivered once, whatever of it or of other transfers mixes in on
   * the others: nothing starts there before it does, or later than the timeout.
   */
  lemma {:induction false} RedundantTransferDeliveredOnce(
      sub: Subscription, o: Origin, i: nat, t: CanRoundTrip.Transfer, arrivals: seq<Arrival>)
    requires Serves(sub, o) && o.Valid() && Framable(t) && Plausible(sub, arrivals)
    requires IsChain(sub, o, t, On(arrivals, i))
    requires forall k :: 0 <= k < |arrivals| && arrivals[k].frame.start && arrivals[k].iface != i ==>
                           On(arrivals[..k], i) != [] && arrivals[k].ts - On(arrivals, i)[0].ts <= sub.tidTimeout
    ensures On(arrivals, i) != []
    ensures Run(sub, i, arrivals).out
            == [Delivered(o.priority, On(arrivals, i)[0].ts, o.node, t.tid, Clip(sub, t))]
  {
    hide Run, ParsedChain, Clip, WellFormed, IsChain, On, LastNews;
    var own := On(arrivals, i);
    ChainFacts(sub, o, t, own);
    forall k | 0 <= k < |own| ensures own[k].iface == i {
      assert own[k] in own;
    }
    ChainAlone(sub, o, i, t, own);
    forall k | 0 <= k < |arrivals| && arrivals[k].frame.start && arrivals[k].iface != i
      ensures var last := LastNews(sub, On(arrivals[..k], i));
              last.Some? && arrivals[k].ts - last.value.ts <= sub.tidTimeout
    {
      OnPrefix(arrivals, k, i);
      OnlyFirstIsNews(sub, On(arrivals[..k], i));
    }
    RedundantInterfacesAreIgnored(sub, i, arrivals);
  }
}
