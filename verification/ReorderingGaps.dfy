/** How the in-order delivery buffer waits: gaps between deliveries, and tags that arrive out of order. */
module ReorderingGaps {
  import opened Arith
  import opened Reordering
  import opened Wire
  import opened Wrapping

  // ---------------------------------------------------------------- one event

  /** How far a tag is ahead of the last delivered one. */
  function Ahead(b: Buffer, tag: U64): U64 { Sub(tag, Add(b.last, b.baseline)) }

  /** The end of a window, a tag that does not fit the window, and the beginning of a new turn close gaps by force. */
  ghost predicate Forces(b: Buffer, window: int, e: Event) {
    match e
    case Expires => true
    case Arrives(tag, m) =>
      Push(b, window, tag, m).accepted
      && (Ahead(b, tag) > CAPACITY || Push(b, window, tag, m).buffer.turn != b.turn)
  }

  /** c has delivered, after b, only the tags that directly follow, one by one. */
  ghost predicate Follows(b: Buffer, c: Buffer) {
    && c.base == b.base && c.baseline == b.baseline && c.turn == b.turn
    && |b.out| <= |c.out| && c.out[..|b.out|] == b.out && c.last == b.last + (|c.out| - |b.out|)
    && forall i :: |b.out| <= i < |c.out| ==>
                     c.out[i].turn == b.turn && c.out[i].at == b.base + b.last + 1 + (i - |b.out|)
  }

  lemma FollowsItself(b: Buffer)
    ensures Follows(b, b)
  {
  }

  lemma FollowsDelivery(b: Buffer, k: U64, m: Message, c: Buffer)
    requires k == b.last + 1 && Follows(Deliver(b, k, m), c)
    ensures Follows(b, c)
  {
    var d := Deliver(b, k, m);
    assert c.out[..|d.out|] == d.out;
    assert c.out[|b.out|] == d.out[|b.out|];
    assert c.out[..|b.out|] == d.out[..|b.out|] == b.out;
    hide Add;
  }

  lemma {:induction false} ScanFollows(b: Buffer, window: int)
    requires b.last <= INT64_MAX && forall k :: k in b.slots ==> k <= INT64_MAX
    ensures Follows(b, Scan(b, window, false))
    decreases |b.slots|
  {
    if b.slots != map[] && Head(b.slots) == Add(b.last, 1) {
      var k := Head(b.slots);
      var d := b.(slots := b.slots - {k});
      ScanFollows(Eject(b, k), window);
      FollowsDelivery(d, k, b.slots[k], Scan(Eject(b, k), window, false));
    }
  }

  /** Without force nothing is delivered but what follows directly. */
  lemma {:induction false} Unforced(b: Buffer, window: int, tag: U64, m: Message)
    requires Inv(b, window) && !Forces(b, window, Arrives(tag, m))
    ensures Follows(b, Push(b, window, tag, m).buffer)
  {
    var lin := Sub(tag, b.baseline);
    TurnIffWrapped(b, window, tag, m);
    FollowsItself(b);
    if Push(b, window, tag, m).accepted {
      assert b.last < lin <= b.last + CAPACITY;
      assert Slide(b, window, lin) == b;
      hide Slide, Core, Armed, Follows;
      if lin == b.last + 1 {
        FitsInt(b, window);
        ScanFollows(Deliver(b, lin, m), window);
        FollowsDelivery(b, lin, m, Scan(Deliver(b, lin, m), window, false));
      } else {
        InternFollows(b, window, lin, m);
      }
    }
  }

  lemma FitsInt(b: Buffer, window: int)
    requires Inv(b, window)
    ensures b.last <= INT64_MAX && forall k :: k in b.slots ==> k <= INT64_MAX
  {
  }

  lemma InternFollows(b: Buffer, window: int, lin: U64, m: Message)
    ensures Follows(b, Intern(b, window, lin, m))
  {
    hide Armed;
  }

  /** The end of a window closes one gap: the head of the line is delivered, and what follows it directly. */
  lemma {:induction false} ExpiryClosesOneGap(b: Buffer, window: int)
    requires Inv(b, window)
    ensures b.slots == map[] ==> Scan(b, window, true) == b
    ensures b.slots != map[] ==> Follows(Eject(b, Head(b.slots)), Scan(b, window, true))
  {
    if b.slots != map[] {
      ScanFollows(Eject(b, Head(b.slots)), window);
    }
  }

  /** The timer watches the head of the line. */
  lemma TimerWatchesHead(b: Buffer, window: int)
    requires Inv(b, window)
    ensures b.timer == None <==> b.slots == map[]
    ensures forall k :: k in b.slots && (forall j :: j in b.slots ==> k <= j) ==>
                          b.timer == Some(b.slots[k].timestamp + window)
  {
    hide Core;
  }

  /** After so many windows have ended. */
  ghost function Ended(b: Buffer, window: int, n: nat): Buffer
    decreases n
  {
    if n == 0 then b else Ended(Scan(b, window, true), window, n - 1)
  }

  predicate FitsWindow(b: Buffer, lin: U64) { lin <= Add(b.last, CAPACITY) }

  /** A tag that does not fit ends as many windows as it takes to fit it, or all, and no more. */
  lemma {:induction false} SlideIsLeast(b: Buffer, window: int, lin: U64) returns (n: nat)
    ensures Slide(b, window, lin) == Ended(b, window, n)
    ensures forall j: nat :: j < n ==> !FitsWindow(Ended(b, window, j), lin) && Ended(b, window, j).slots != map[]
    ensures FitsWindow(Ended(b, window, n), lin) || Ended(b, window, n).slots == map[]
    decreases |b.slots|
  {
    hide Scan;
    n := 0;
    if b.slots != map[] && !FitsWindow(b, lin) {
      ScanShrinks(b, window, true);
      var rest := SlideIsLeast(Scan(b, window, true), window, lin);
      n := rest + 1;
      forall j: nat | j < n ensures !FitsWindow(Ended(b, window, j), lin) && Ended(b, window, j).slots != map[] {
        if j > 0 {
          assert Ended(b, window, j) == Ended(Scan(b, window, true), window, j - 1);
        }
      }
    }
  }

  lemma {:induction false} EndedKeeps(b: Buffer, window: int, n: nat)
    requires Inv(b, window)
    ensures var e := Ended(b, window, n); Inv(e, window) && e.baseline == b.baseline
    decreases n
  {
    if n > 0 {
      ScanKeepsInv(b, window, true);
      ScanFrame(b, window, true);
      hide Inv, Scan;
      EndedKeeps(Scan(b, window, true), window, n - 1);
    }
  }

  lemma AheadFits(b: Buffer, window: int, tag: U64)
    requires Inv(b, window) && b.last < Sub(tag, b.baseline) <= INT64_MAX
    ensures FitsWindow(b, Sub(tag, b.baseline)) <==> Ahead(b, tag) <= CAPACITY
  {
  }

  lemma {:induction false} EndedAhead(b: Buffer, window: int, tag: U64, j: nat)
    requires Inv(b, window) && Sub(tag, b.baseline) <= INT64_MAX
    requires var e := Ended(b, window, j); e.last < Sub(tag, b.baseline) || !FitsWindow(e, Sub(tag, b.baseline))
    ensures var e := Ended(b, window, j); Ahead(e, tag) <= CAPACITY <==> FitsWindow(e, Sub(tag, b.baseline))
  {
    EndedKeeps(b, window, j);
    hide Ended;
    AheadFits(Ended(b, window, j), window, tag);
  }

  lemma {:induction false} SlideRests(b: Buffer, window: int, lin: U64)
    requires FitsWindow(b, lin) || b.slots == map[]
    ensures Slide(b, window, lin) == b
  {
  }

  /**
   * A tag far ahead in its turn comes in as if windows had ended before: as many as it takes to fit the tag, or all,
   * and no more.
   */
  lemma {:induction false} FarTagsEndWindows(b: Buffer, window: int, tag: U64, m: Message) returns (n: nat)
    requires Inv(b, window) && Push(b, window, tag, m).accepted && Push(b, window, tag, m).buffer.turn == b.turn
    ensures Push(b, window, tag, m) == Push(Ended(b, window, n), window, tag, m)
    ensures Ahead(Ended(b, window, n), tag) <= 16 || Ended(b, window, n).slots == map[]
    ensures forall j: nat :: j < n ==> Ahead(Ended(b, window, j), tag) > 16 && Ended(b, window, j).slots != map[]
  {
    var lin := Sub(tag, b.baseline);
    TurnIffWrapped(b, window, tag, m);
    assert b.last < lin <= INT64_MAX;
    n := SlideIsLeast(b, window, lin);
    SlideKeepsInv(b, window, lin);
    var e := Ended(b, window, n);
    EndedKeeps(b, window, n);
    SlideRests(e, window, lin);
    forall j: nat | j <= n ensures Ahead(Ended(b, window, j), tag) <= CAPACITY <==> FitsWindow(Ended(b, window, j), lin)
    {
      assert j == n || !FitsWindow(Ended(b, window, j), lin);
      EndedAhead(b, window, tag, j);
    }
    hide Slide, Inv, Scan, Ended;
  }

  /** With nothing left to wait for, it waits itself, in the middle of a new window. */
  lemma {:induction false} FarTagWaits(b: Buffer, window: int, tag: U64, m: Message)
    requires Inv(b, window) && Push(b, window, tag, m).accepted && Push(b, window, tag, m).buffer.turn == b.turn
    requires b.slots == map[] && Ahead(b, tag) > 16
    ensures var c := Push(b, window, tag, m).buffer;
            && c.out == b.out && c.slots.Values == {m} && c.timer == Some(m.timestamp + window)
            && Add(c.last, c.baseline) == Sub(tag, 8) && forall k :: k in c.slots ==> Add(k, c.baseline) == tag
  {
    var lin := Sub(tag, b.baseline);
    TurnIffWrapped(b, window, tag, m);
    AheadFits(b, window, tag);
    SlideRests(b, window, lin);
    hide Slide, Core;
    var r := Resequence(b, tag, b.base + lin);
    assert Push(b, window, tag, m).buffer == Intern(r, window, 8, m);
    assert r.slots[8 as U64 := m] == map[8 as U64 := m];
  }

  // ---------------------------------------------------------------- gaps over runs

  lemma {:induction false} EventKeeps(first: U64, window: int, events: seq<Event>)
    requires events != []
    ensures var b, c := After(first, window, events[..|events| - 1]), After(first, window, events);
            && Inv(b, window) && Inv(c, window)
            && (!Forces(b, window, events[|events| - 1]) ==> Follows(b, c))
  {
    var was, e := events[..|events| - 1], events[|events| - 1];
    AlwaysInv(first, window, was);
    AlwaysInv(first, window, events);
    hide Inv, Push, Follows, Scan;
    if e.Arrives? && !Forces(After(first, window, was), window, e) {
      Unforced(After(first, window, was), window, e.tag, e.message);
    }
  }

  /** Event j closes a gap by force, after n deliveries were made and before there are more than n. */
  ghost predicate ForcesAt(first: U64, window: int, events: seq<Event>, j: nat, n: nat) {
    && j < |events| && Forces(After(first, window, events[..j]), window, events[j])
    && |After(first, window, events[..j]).out| <= n <= |After(first, window, events[..j + 1]).out|
  }

  ghost predicate ForcedAfter(first: U64, window: int, events: seq<Event>, n: nat) {
    exists j: nat :: ForcesAt(first, window, events, j, n)
  }

  lemma {:induction false} ForcedEarlier(first: U64, window: int, events: seq<Event>, n: nat)
    requires events != [] && ForcedAfter(first, window, events[..|events| - 1], n)
    ensures ForcedAfter(first, window, events, n)
  {
    var was := events[..|events| - 1];
    hide Forces, After;
    var j: nat :| ForcesAt(first, window, was, j, n);
    assert was[..j] == events[..j] && was[..j + 1] == events[..j + 1] && was[j] == events[j];
    assert ForcesAt(first, window, events, j, n);
  }

  lemma {:induction false} ForcedNow(first: U64, window: int, events: seq<Event>, n: nat)
    requires events != []
    requires Forces(After(first, window, events[..|events| - 1]), window, events[|events| - 1])
    requires |After(first, window, events[..|events| - 1]).out| <= n <= |After(first, window, events).out|
    ensures ForcedAfter(first, window, events, n)
  {
    hide Forces, After;
    assert events[..|events|] == events;
    assert ForcesAt(first, window, events, |events| - 1, n);
  }

  /** The window stands right behind the last delivery of its turn. */
  ghost predicate Tight(b: Buffer) {
    b.out != [] && b.out[|b.out| - 1].turn == b.turn ==> b.base + b.last == b.out[|b.out| - 1].at
  }

  lemma FollowsTight(b: Buffer, c: Buffer)
    requires Follows(b, c) && !Tight(c)
    ensures !Tight(b) && |c.out| == |b.out|
  {
    assert c.out[..|b.out|] == b.out;
  }

  /** If it does not, it has been moved by force since. */
  lemma {:induction false} LooseIsForced(first: U64, window: int, events: seq<Event>)
    requires !Tight(After(first, window, events))
    ensures ForcedAfter(first, window, events, |After(first, window, events).out|)
  {
    var c := After(first, window, events);
    if events != [] {
      var was, e := events[..|events| - 1], events[|events| - 1];
      var b := After(first, window, was);
      EventKeeps(first, window, events);
      hide After, Step, Inv, ForcedAfter, Forces;
      if Forces(b, window, e) {
        OutGrows(first, window, events);
        ForcedNow(first, window, events, |c.out|);
      } else {
        FollowsTight(b, c);
        LooseIsForced(first, window, was);
        ForcedEarlier(first, window, events, |c.out|);
      }
    }
  }

  lemma {:induction false} OutGrows(first: U64, window: int, events: seq<Event>)
    requires events != []
    ensures After(first, window, events[..|events| - 1]).out <= After(first, window, events).out
  {
    var b, e := After(first, window, events[..|events| - 1]), events[|events| - 1];
    hide Push, Scan;
    match e {
      case Arrives(tag, m) => PushGrows(b, window, tag, m);
      case Expires => ScanGrows(b, window, true);
    }
  }

  lemma {:induction false} ScanGrows(b: Buffer, window: int, forceFirst: bool)
    ensures b.out <= Scan(b, window, forceFirst).out
    decreases |b.slots|
  {
    if b.slots != map[] && (forceFirst || Head(b.slots) == Add(b.last, 1)) {
      ScanGrows(Eject(b, Head(b.slots)), window, false);
    }
  }

  lemma {:induction false} SlideGrows(b: Buffer, window: int, lin: U64)
    ensures b.out <= Slide(b, window, lin).out
    decreases |b.slots|
  {
    if b.slots != map[] && lin > Add(b.last, CAPACITY) {
      ScanShrinks(b, window, true);
      ScanGrows(b, window, true);
      hide Scan;
      SlideGrows(Scan(b, window, true), window, lin);
    }
  }

  lemma {:induction false} EjectAllGrows(b: Buffer)
    ensures b.out <= EjectAll(b).out
    decreases |b.slots|
  {
    if b.slots != map[] {
      EjectAllGrows(Eject(b, Head(b.slots)));
    }
  }

  lemma {:induction false} PushAheadGrows(b: Buffer, window: int, lin: U64, tag: U64, m: Message)
    ensures b.out <= PushAhead(b, window, lin, tag, m).out
  {
    SlideGrows(b, window, lin);
    var s := Slide(b, window, lin);
    ScanGrows(Deliver(s, lin, m), window, false);
    hide Slide, Scan;
  }

  lemma {:induction false} PushGrows(b: Buffer, window: int, tag: U64, m: Message)
    ensures b.out <= Push(b, window, tag, m).buffer.out
  {
    PushAheadGrows(b, window, Sub(tag, b.baseline), tag, m);
    PushAheadGrows(Restart(b, tag), window, CAPACITY / 2, tag, m);
    EjectAllGrows(b);
    hide PushAhead, EjectAll;
  }

  /**
   * Over any run: between two deliveries of a turn that do not follow each other directly, a window has ended, or a tag
   * has come that did not fit the window.
   */
  lemma {:induction false} GapsAreForced(first: U64, window: int, events: seq<Event>, i: nat)
    requires var out := After(first, window, events).out;
             0 < i < |out| && out[i - 1].turn == out[i].turn && out[i].at != out[i - 1].at + 1
    ensures ForcedAfter(first, window, events, i)
  {
    var c := After(first, window, events);
    if events != [] {
      var was, e := events[..|events| - 1], events[|events| - 1];
      var b := After(first, window, was);
      OutGrows(first, window, events);
      EventKeeps(first, window, events);
      hide After, Step, Inv, ForcedAfter, Forces;
      if i < |b.out| {
        GapsAreForced(first, window, was, i);
        ForcedEarlier(first, window, events, i);
      } else if Forces(b, window, e) {
        ForcedNow(first, window, events, i);
      } else if i == |b.out| {
        LooseIsForced(first, window, was);
        ForcedEarlier(first, window, events, i);
      }
    }
  }

  // ---------------------------------------------------------------- tags out of order

  /** The tag k places behind the last delivered one arrives. */
  datatype Early = Early(k: nat, message: Message)

  function TagOf(b: Buffer, k: nat): U64
    requires k < MOD
  {
    Add(Add(b.last, b.baseline), k)
  }

  /** What came first for each place. */
  ghost function Came(burst: seq<Early>): map<nat, Message> {
    if burst == [] then map[]
    else
      var was, e := Came(burst[..|burst| - 1]), burst[|burst| - 1];
      if e.k in was then was else was[e.k := e.message]
  }

  ghost predicate Occurs(burst: seq<Early>, k: nat) { exists i :: 0 <= i < |burst| && burst[i].k == k }

  lemma {:induction false} CameKeys(burst: seq<Early>, k: nat)
    ensures k in Came(burst) <==> Occurs(burst, k)
  {
    if burst != [] {
      var was, z := burst[..|burst| - 1], |burst| - 1;
      CameKeys(was, k);
      if k in Came(was) {
        var i :| 0 <= i < |was| && was[i].k == k;
        assert burst[i].k == k;
      }
      if i :| 0 <= i < |burst| && burst[i].k == k {
        assert i < z ==> was[i].k == k;
      }
    }
  }

  /** Where the message k places behind the last delivered one belongs. */
  ghost function Place(b: Buffer, k: nat, m: Message): Delivery
    requires k < MOD
  {
    Delivery(TagOf(b, k), m, b.turn, b.base + b.last + k)
  }

  ghost predicate Placed(b: Buffer, came: map<nat, Message>, d: Delivery)
    requires forall k :: k in came ==> k < MOD
  {
    exists k :: k in came && d == Place(b, k, came[k])
  }

  /** While the tags up to n places behind come in, in any order: only those that follow directly are delivered. */
  ghost predicate Collects(b: Buffer, c: Buffer, window: int, came: map<nat, Message>, n: nat)
    requires n <= CAPACITY
  {
    && Inv(c, window) && Follows(b, c) && (forall k :: k in came ==> 1 <= k <= n)
    && forall d :: Kept(c, d) <==> d in b.out || Placed(b, came, d)
  }

  lemma {:induction false} CollectsFirst(b: Buffer, window: int, n: nat)
    requires Inv(b, window) && b.slots == map[] && n <= CAPACITY
    ensures Collects(b, b, window, map[], n)
  {
    FollowsItself(b);
    hide Inv, Follows;
  }

  /** The delivered ones are among those that came. */
  lemma {:induction false} DeliveredCame(b: Buffer, c: Buffer, window: int, came: map<nat, Message>, n: nat, k: nat)
    requires Inv(b, window) && n <= CAPACITY && Collects(b, c, window, came, n) && 1 <= k <= |c.out| - |b.out|
    ensures k in came && c.out[|b.out| + k - 1] == Place(b, k, came[k])
  {
    var d := c.out[|b.out| + k - 1];
    assert d in c.out;
    assert Kept(c, d);
    NotPast(b, window, d);
    hide Inv, Kept, TagOf;
    var j :| j in came && d == Place(b, j, came[j]);
  }

  lemma {:induction false} NotPast(b: Buffer, window: int, d: Delivery)
    requires Inv(b, window) && d.turn == b.turn && d.at > b.base + b.last
    ensures d !in b.out
  {
    forall i | 0 <= i < |b.out| ensures b.out[i] != d {
      assert Past(b, b.out[i]);
    }
  }

  /** What came and is not delivered waits in its slot, and nothing else does. */
  lemma {:induction false} WaitingCame(b: Buffer, c: Buffer, window: int, came: map<nat, Message>, n: nat, k: nat)
    requires Inv(b, window) && n <= CAPACITY && Collects(b, c, window, came, n)
    requires k > |c.out| - |b.out| && b.last + k < MOD && k < MOD
    ensures k in came <==> b.last + k in c.slots
    ensures k in came ==> k > |c.out| - |b.out| + 1
  {
    hide TagOf, Follows;
    FollowsShape(b, c);
    if k in came {
      var d := Place(b, k, came[k]);
      assert Placed(b, came, d);
      assert Kept(c, d);
      NotPast(c, window, d);
      var j :| j in c.slots && d == Entry(c, j, c.slots[j]);
      assert j == b.last + k && InWindow(c, j);
    }
    if b.last + k in c.slots {
      var j: U64 := b.last + k;
      var d := Entry(c, j, c.slots[j]);
      assert Buffered(c, d);
      assert Kept(c, d);
      NotPast(b, window, d);
      var i :| i in came && d == Place(b, i, came[i]);
    }
  }

  lemma FollowsShape(b: Buffer, c: Buffer)
    requires Follows(b, c)
    ensures c.base == b.base && c.baseline == b.baseline && c.turn == b.turn && |b.out| <= |c.out|
    ensures c.last == b.last + (|c.out| - |b.out|)
  {
  }

  lemma FollowsOn(b: Buffer, c: Buffer, d: Buffer)
    requires Follows(b, c) && Follows(c, d)
    ensures Follows(b, d)
  {
    assert d.out[..|b.out|] == d.out[..|c.out|][..|b.out|];
    forall i | |b.out| <= i < |d.out|
      ensures d.out[i].turn == b.turn && d.out[i].at == b.base + b.last + 1 + (i - |b.out|)
    {
      if i < |c.out| {
        assert d.out[i] == d.out[..|c.out|][i] == c.out[i];
      }
    }
  }

  lemma LinearTag(last: U64, baseline: U64, k: nat)
    requires last + k < MOD
    ensures Sub(Add(Add(last, baseline), k), baseline) == last + k
    ensures Sub(Add(last, baseline), Add(Add(last, baseline), k)) == if k == 0 then 0 else MOD - k
  {
  }

  /** A tag of the burst is never a reason to use force. */
  lemma {:induction false} NoForce(b: Buffer, c: Buffer, window: int, k: nat, m: Message)
    requires Inv(c, window) && Follows(b, c) && 1 <= k <= CAPACITY && b.last + k <= INT64_MAX
    ensures Sub(TagOf(b, k), c.baseline) == b.last + k
    ensures !Forces(c, window, Arrives(TagOf(b, k), m))
    ensures Push(c, window, TagOf(b, k), m).accepted <==> b.last + k > c.last
  {
    LinearTag(b.last, b.baseline, k);
    TurnIffWrapped(c, window, TagOf(b, k), m);
    hide Inv, PushAhead, Restart, Add, TagOf;
    if b.last + k > c.last {
      AheadIs(c, TagOf(b, k));
    }
  }

  lemma AheadIs(c: Buffer, tag: U64)
    requires Sub(tag, c.baseline) > c.last
    ensures Ahead(c, tag) == Sub(tag, c.baseline) - c.last
  {
  }

  lemma {:induction false} PlacedMore(b: Buffer, came: map<nat, Message>, k: nat, m: Message, d: Delivery)
    requires k !in came && k < MOD && forall j :: j in came ==> j < MOD
    ensures Placed(b, came[k := m], d) <==> Placed(b, came, d) || d == Place(b, k, m)
  {
    var more := came[k := m];
    hide TagOf;
    if Placed(b, came, d) {
      var j :| j in came && d == Place(b, j, came[j]);
      assert j in more && more[j] == came[j];
    }
    if d == Place(b, k, m) {
      assert k in more && more[k] == m;
    }
  }

  lemma {:induction false} CollectsNext(
      b: Buffer, c: Buffer, window: int, came: map<nat, Message>, n: nat, k: nat, m: Message)
    requires Inv(b, window) && n <= CAPACITY && Collects(b, c, window, came, n)
    requires 1 <= k <= n && b.last + n <= INT64_MAX
    ensures Collects(b, Push(c, window, TagOf(b, k), m).buffer, window, if k in came then came else came[k := m], n)
  {
    hide Inv, Follows, Kept, Placed, TagOf, Sub, Push, Forces;
    var tag, more := TagOf(b, k), if k in came then came else came[k := m];
    var p := Push(c, window, tag, m);
    FollowsShape(b, c);
    NoForce(b, c, window, k, m);
    PushKeepsInv(c, window, tag, m);
    Unforced(c, window, tag, m);
    FollowsOn(b, c, p.buffer);
    if k > |c.out| - |b.out| {
      WaitingCame(b, c, window, came, n, k);
    } else {
      DeliveredCame(b, c, window, came, n, k);
    }
    forall d ensures Kept(p.buffer, d) <==> d in b.out || Placed(b, more, d) {
      PushKept(c, window, tag, m, d);
      PlaceIs(b, c, k, m);
      if k !in came {
        PlacedMore(b, came, k, m, d);
      }
    }
  }

  lemma PlaceIs(b: Buffer, c: Buffer, k: nat, m: Message)
    requires k < MOD && c.base == b.base && c.baseline == b.baseline && c.turn == b.turn
    requires Sub(TagOf(b, k), c.baseline) == b.last + k <= INT64_MAX
    ensures PlaceOf(c, TagOf(b, k), m) == Place(b, k, m)
  {
    hide Sub, TagOf;
  }

  /** The buffer after the burst. */
  ghost function Burst(b: Buffer, window: int, burst: seq<Early>): Buffer
    requires forall i :: 0 <= i < |burst| ==> burst[i].k < MOD
  {
    if burst == [] then b
    else
      var e := burst[|burst| - 1];
      Push(Burst(b, window, burst[..|burst| - 1]), window, TagOf(b, e.k), e.message).buffer
  }

  lemma {:induction false} BurstCollects(b: Buffer, window: int, burst: seq<Early>, n: nat)
    requires Inv(b, window) && b.slots == map[] && n <= CAPACITY && b.last + n <= INT64_MAX
    requires forall i :: 0 <= i < |burst| ==> 1 <= burst[i].k <= n
    ensures Collects(b, Burst(b, window, burst), window, Came(burst), n)
  {
    hide Collects, Push, TagOf;
    if burst == [] {
      CollectsFirst(b, window, n);
    } else {
      var was, e := burst[..|burst| - 1], burst[|burst| - 1];
      BurstCollects(b, window, was, n);
      CollectsNext(b, Burst(b, window, was), window, Came(was), n, e.k, e.message);
    }
  }

  ghost function InPlace(b: Buffer, came: map<nat, Message>, n: nat): (out: seq<Delivery>)
    requires n < MOD && forall k: nat :: 1 <= k <= n ==> k in came
    ensures |out| == n
  {
    seq(n, i requires 0 <= i < n => Place(b, i + 1, came[i + 1]))
  }

  /**
   * The n tags behind the last delivered one, up to sixteen of them, come in any order and any number of times, while
   * no window ends: each is delivered once, in order, with the message that came first.
   */
  lemma {:induction false} BurstIsDelivered(b: Buffer, window: int, burst: seq<Early>, n: nat)
    requires Inv(b, window) && b.slots == map[] && n <= CAPACITY && b.last + n <= INT64_MAX
    requires forall i :: 0 <= i < |burst| ==> 1 <= burst[i].k <= n
    requires forall k: nat :: 1 <= k <= n ==> Occurs(burst, k)
    ensures forall k: nat :: 1 <= k <= n ==> k in Came(burst)
    ensures var c := Burst(b, window, burst);
            c.out == b.out + InPlace(b, Came(burst), n) && c.slots == map[] && c.last == b.last + n
  {
    hide Came, Burst, Inv, Follows, Kept, Placed, TagOf;
    var c, came := Burst(b, window, burst), Came(burst);
    BurstCollects(b, window, burst, n);
    forall k: nat | 1 <= k <= n ensures k in came {
      CameKeys(burst, k);
    }
    FollowsShape(b, c);
    AllDelivered(b, c, window, came, n);
    forall i | 0 <= i < n ensures c.out[|b.out| + i] == InPlace(b, came, n)[i] {
      DeliveredCame(b, c, window, came, n, i + 1);
    }
    OutPrefix(b, c);
    assert c.out == c.out[..|b.out|] + c.out[|b.out|..];
    assert c.out[|b.out|..] == InPlace(b, came, n);
  }

  lemma OutPrefix(b: Buffer, c: Buffer)
    requires Follows(b, c)
    ensures c.out[..|b.out|] == b.out
  {
  }

  lemma {:induction false} AllDelivered(b: Buffer, c: Buffer, window: int, came: map<nat, Message>, n: nat)
    requires Inv(b, window) && n <= CAPACITY && Collects(b, c, window, came, n) && b.last + n <= INT64_MAX
    requires forall k: nat :: 1 <= k <= n ==> k in came
    ensures |c.out| - |b.out| == n && c.slots == map[]
  {
    hide Kept, Placed, TagOf, Follows;
    FollowsShape(b, c);
    var t := |c.out| - |b.out|;
    if t > n {
      DeliveredCame(b, c, window, came, n, t);
    } else if t < n {
      WaitingCame(b, c, window, came, n, t + 1);
    }
    forall j | j in c.slots ensures false {
      assert InWindow(c, j);
      WaitingCame(b, c, window, came, n, j - b.last);
    }
  }
}
