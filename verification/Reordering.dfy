/** The in-order delivery buffer of one remote: sixteen slots ahead of the last delivered tag. */
module Reordering {
  import opened Arith
  import opened Sets
  import opened Wire
  import opened Wrapping

  const CAPACITY: nat := 16
  const MAX_BACKWARD_LAG: nat := 100_000

  datatype Message = Message(timestamp: int, content: int)

  /** A delivery; `turn` counts backward restarts and `at` is the tag without wrapping. */
  datatype Delivery = Delivery(tag: U64, message: Message, turn: nat, at: int)

  /**
   * Slots are keyed by the distance of the tag from the baseline. The restarts so far, the
   * unwrapped baseline and the deliveries are history.
   */
  datatype Buffer = Buffer(baseline: U64, last: U64, slots: map<U64, Message>, timer: Option<int>,
                           turn: nat, base: int, out: seq<Delivery>)

  // ---------------------------------------------------------------- operations

  ghost predicate IsHead(slots: map<U64, Message>, k: U64) {
    k in slots && forall j :: j in slots ==> k <= j
  }

  lemma {:induction false} HasHead(slots: map<U64, Message>)
    requires slots != map[]
    ensures exists k: U64 :: IsHead(slots, k)
  {
    assert slots.Keys != {};
    var k := LeastOf(slots.Keys);
    assert IsHead(slots, k);
  }

  /** The key of the head-of-line slot. */
  ghost function Head(slots: map<U64, Message>): (k: U64)
    requires slots != map[]
    ensures k in slots && forall j :: j in slots ==> k <= j
  {
    HasHead(slots);
    var k :| IsHead(slots, k);
    k
  }

  ghost function Deliver(b: Buffer, k: U64, m: Message): Buffer {
    b.(last := k, out := b.out + [Delivery(Add(k, b.baseline), m, b.turn, b.base + k)])
  }

  ghost function Eject(b: Buffer, k: U64): Buffer
    requires k in b.slots
  {
    Deliver(b.(slots := b.slots - {k}), k, b.slots[k])
  }

  ghost function Armed(b: Buffer, window: int): Option<int> {
    if b.slots == map[] then None else Some(b.slots[Head(b.slots)].timestamp + window)
  }

  ghost function Scan(b: Buffer, window: int, forceFirst: bool): Buffer
    decreases |b.slots|
  {
    if b.slots != map[] && (forceFirst || Head(b.slots) == Add(b.last, 1)) then
      Scan(Eject(b, Head(b.slots)), window, false)
    else b.(timer := Armed(b, window))
  }

  ghost function EjectAll(b: Buffer): Buffer
    decreases |b.slots|
  {
    if b.slots == map[] then b.(timer := None) else EjectAll(Eject(b, Head(b.slots)))
  }

  lemma {:induction false} ScanShrinks(b: Buffer, window: int, forceFirst: bool)
    ensures |Scan(b, window, forceFirst).slots| <= |b.slots|
    ensures forceFirst && b.slots != map[] ==> |Scan(b, window, forceFirst).slots| < |b.slots|
    decreases |b.slots|
  {
    if b.slots != map[] && (forceFirst || Head(b.slots) == Add(b.last, 1)) {
      ScanShrinks(Eject(b, Head(b.slots)), window, false);
    }
  }

  /** Force out old messages until the tag fits the window or nothing is left. */
  ghost function Slide(b: Buffer, window: int, lin: U64): Buffer
    decreases |b.slots|
  {
    if b.slots != map[] && lin > Add(b.last, CAPACITY) then
      ScanShrinks(b, window, true);
      Slide(Scan(b, window, true), window, lin)
    else b
  }

  /** The tag becomes the middle of an empty window; `at` is where it stands without wrapping. */
  ghost function Resequence(b: Buffer, tag: U64, at: int): Buffer {
    b.(baseline := Sub(tag, CAPACITY / 2), last := 0, base := at - CAPACITY / 2)
  }

  ghost function Create(tag: U64): Buffer {
    Resequence(Buffer(0, 0, map[], None, 0, 0, []), tag, tag)
  }

  ghost function Intern(b: Buffer, window: int, lin: U64, m: Message): Buffer {
    if lin in b.slots then b
    else
      var c := b.(slots := b.slots[lin := m]);
      c.(timer := Armed(c, window))
  }

  /** A tag that is ahead of the last delivered one. */
  ghost function PushAhead(b: Buffer, window: int, lin: U64, tag: U64, m: Message): Buffer {
    var s := Slide(b, window, lin);
    if lin == Add(s.last, 1) then Scan(Deliver(s, lin, m), window, false)
    else if lin > Add(s.last, CAPACITY) then
      Intern(Resequence(s, tag, s.base + lin), window, CAPACITY / 2, m)
    else Intern(s, window, lin, m)
  }

  ghost function Restart(b: Buffer, tag: U64): Buffer {
    var e := EjectAll(b);
    Resequence(e.(turn := e.turn + 1), tag, tag)
  }

  datatype Judged = Judged(buffer: Buffer, accepted: bool)

  ghost function Push(b: Buffer, window: int, tag: U64, m: Message): Judged {
    var lin := Sub(tag, b.baseline);
    if lin <= b.last then Judged(b, false)
    else if lin > INT64_MAX then
      if Sub(b.last, lin) <= MAX_BACKWARD_LAG then Judged(b, false)
      else Judged(PushAhead(Restart(b, tag), window, CAPACITY / 2, tag, m), true)
    else Judged(PushAhead(b, window, lin, tag, m), true)
  }

  // ---------------------------------------------------------------- the invariant

  ghost predicate InWindow(b: Buffer, k: U64) {
    b.last + 1 < k <= b.last + CAPACITY && k <= INT64_MAX
  }

  ghost predicate Before(d: Delivery, e: Delivery) {
    d.turn < e.turn || (d.turn == e.turn && d.at < e.at <= d.at + INT64_MAX + CAPACITY / 2)
  }

  ghost predicate Past(b: Buffer, d: Delivery) {
    d.turn < b.turn || (d.turn == b.turn && d.at <= b.base + b.last)
  }

  /** How far the window may stand from the last delivery: only a restart leaves a gap, and it fills a slot. */
  ghost predicate Close(b: Buffer) {
    b.out != [] && b.out[|b.out| - 1].turn == b.turn ==>
      && b.base + b.last - b.out[|b.out| - 1].at <= INT64_MAX - CAPACITY / 2
      && (b.slots == map[] ==> b.base + b.last == b.out[|b.out| - 1].at)
  }

  ghost predicate Ordered(out: seq<Delivery>) {
    && (forall i :: 0 <= i < |out| ==> out[i].tag == out[i].at % MOD)
    && (forall i :: 0 < i < |out| ==> Before(out[i - 1], out[i]))
  }

  /** What holds between the steps of a push as well. */
  ghost predicate Core(b: Buffer) {
    && b.baseline == b.base % MOD && b.last <= INT64_MAX
    && (forall k :: k in b.slots ==> b.last < k <= b.last + CAPACITY && k <= INT64_MAX)
    && Ordered(b.out)
    && (forall i :: 0 <= i < |b.out| ==> Past(b, b.out[i]))
    && Close(b)
  }

  ghost predicate Inv(b: Buffer, window: int) {
    && Core(b)
    && (forall k :: k in b.slots ==> InWindow(b, k))
    && b.timer == Armed(b, window)
  }

  // ---------------------------------------------------------------- every step keeps it

  lemma {:induction false} UnwrapAdd(k: U64, baseline: U64, base: int)
    requires baseline == base % MOD
    ensures Add(k, baseline) == (base + k) % MOD
  {
    var q := base / MOD;
    if k + baseline < MOD {
      DivUnique(base + k, MOD, q, k + baseline);
    } else {
      DivUnique(base + k, MOD, q + 1, k + baseline - MOD);
    }
  }

  lemma {:induction false} UnwrapSub(tag: U64, at: int)
    requires tag == at % MOD
    ensures Sub(tag, CAPACITY / 2) == (at - CAPACITY / 2) % MOD
  {
    var q := at / MOD;
    if tag >= 8 {
      DivUnique(at - 8, MOD, q, tag - 8);
    } else {
      DivUnique(at - 8, MOD, q - 1, tag - 8 + MOD);
    }
  }

  lemma {:induction false} DeliverOrdered(b: Buffer, k: U64, m: Message)
    requires Core(b) && b.last < k <= b.last + CAPACITY
    ensures Ordered(Deliver(b, k, m).out)
  {
    UnwrapAdd(k, b.baseline, b.base);
    assert b.out != [] ==> Past(b, b.out[|b.out| - 1]);
    hide Add;
  }

  lemma {:induction false} DeliverCore(b: Buffer, k: U64, m: Message)
    requires Core(b) && b.last < k <= b.last + CAPACITY && k <= INT64_MAX
    requires forall j :: j in b.slots ==> k < j
    ensures Core(Deliver(b, k, m))
  {
    DeliverOrdered(b, k, m);
    var d := Deliver(b, k, m);
    forall i | 0 <= i < |d.out| ensures Past(d, d.out[i]) {
      if i < |b.out| {
        assert Past(b, b.out[i]);
      }
    }
    hide Add, Ordered;
  }

  lemma {:induction false} EjectCore(b: Buffer)
    requires Core(b) && b.slots != map[]
    ensures Core(Eject(b, Head(b.slots)))
  {
    var k := Head(b.slots);
    var c := b.(slots := b.slots - {k});
    // Emptying the last slot leaves a gap that the delivery closes.
    DeliverOrdered(b, k, b.slots[k]);
    var d := Eject(b, k);
    assert d.out == Deliver(b, k, b.slots[k]).out;
    forall i | 0 <= i < |d.out| ensures Past(d, d.out[i]) {
      if i < |b.out| {
        assert Past(b, b.out[i]);
      }
    }
    hide Add, Ordered, Head;
  }

  lemma {:induction false} ScanKeepsInv(b: Buffer, window: int, forceFirst: bool)
    requires Core(b)
    ensures Inv(Scan(b, window, forceFirst), window)
    decreases |b.slots|
  {
    if b.slots != map[] && (forceFirst || Head(b.slots) == Add(b.last, 1)) {
      EjectCore(b);
      hide Core;
      ScanKeepsInv(Eject(b, Head(b.slots)), window, false);
    } else {
      var c := b.(timer := Armed(b, window));
      assert Core(c);
      forall k | k in c.slots ensures InWindow(c, k) {
        assert Head(b.slots) <= k;
      }
    }
  }

  /** A scan only moves along the keys it holds, and keeps the frame of reference. */
  lemma {:induction false} ScanFrame(b: Buffer, window: int, forceFirst: bool)
    ensures var c := Scan(b, window, forceFirst);
            && c.baseline == b.baseline && c.base == b.base && c.turn == b.turn
            && c.slots.Keys <= b.slots.Keys
            && (c.last == b.last || c.last in b.slots)
    decreases |b.slots|
  {
    if b.slots != map[] && (forceFirst || Head(b.slots) == Add(b.last, 1)) {
      ScanFrame(Eject(b, Head(b.slots)), window, false);
    }
  }

  lemma {:induction false} SlideKeepsInv(b: Buffer, window: int, lin: U64)
    requires Inv(b, window) && b.last < lin <= INT64_MAX
    ensures var s := Slide(b, window, lin);
            && Inv(s, window) && s.last < lin
            && s.baseline == b.baseline && s.base == b.base && s.turn == b.turn
            && (s.slots == map[] || lin <= s.last + CAPACITY)
    decreases |b.slots|
  {
    if b.slots != map[] && lin > Add(b.last, CAPACITY) {
      ScanKeepsInv(b, window, true);
      ScanFrame(b, window, true);
      ScanShrinks(b, window, true);
      hide Scan, Core, Armed;
      SlideKeepsInv(Scan(b, window, true), window, lin);
    }
  }

  lemma {:induction false} InternKeepsInv(b: Buffer, window: int, lin: U64, m: Message)
    requires Inv(b, window) && InWindow(b, lin)
    ensures Inv(Intern(b, window, lin, m), window)
  {
    hide Ordered;
  }

  lemma {:induction false} RestartForward(s: Buffer, window: int, lin: U64, tag: U64, m: Message)
    requires Inv(s, window) && s.slots == map[] && s.last + CAPACITY < lin <= INT64_MAX && tag == Add(lin, s.baseline)
    ensures Inv(Intern(Resequence(s, tag, s.base + lin), window, CAPACITY / 2, m), window)
  {
    var r := Resequence(s, tag, s.base + lin);
    UnwrapAdd(lin, s.baseline, s.base);
    UnwrapSub(tag, s.base + lin);
    forall i | 0 <= i < |r.out| ensures Past(r, r.out[i]) {
      assert Past(s, s.out[i]);
    }
    hide Ordered, Past, Add, Sub;
  }

  lemma {:induction false} PushAheadKeepsInv(b: Buffer, window: int, lin: U64, tag: U64, m: Message)
    requires Inv(b, window) && b.last < lin <= INT64_MAX && tag == Add(lin, b.baseline)
    ensures Inv(PushAhead(b, window, lin, tag, m), window)
  {
    SlideKeepsInv(b, window, lin);
    var s := Slide(b, window, lin);
    hide Slide, Ordered, Past, Close, Armed;
    if lin == s.last + 1 {
      DeliverCore(s, lin, m);
      hide Core;
      ScanKeepsInv(Deliver(s, lin, m), window, false);
    } else if lin > s.last + CAPACITY {
      RestartForward(s, window, lin, tag, m);
    } else {
      InternKeepsInv(s, window, lin, m);
    }
  }

  lemma {:induction false} EjectAllKeepsCore(b: Buffer)
    requires Core(b)
    ensures Core(EjectAll(b)) && EjectAll(b).slots == map[] && EjectAll(b).timer == None
    ensures EjectAll(b).turn == b.turn
    decreases |b.slots|
  {
    if b.slots != map[] {
      EjectCore(b);
      hide Core;
      EjectAllKeepsCore(Eject(b, Head(b.slots)));
    }
  }

  lemma {:induction false} RestartKeepsInv(b: Buffer, window: int, tag: U64)
    requires Core(b)
    ensures Inv(Restart(b, tag), window) && Restart(b, tag).last == 0 && Restart(b, tag).slots == map[]
    ensures Add(CAPACITY / 2, Restart(b, tag).baseline) == tag
  {
    EjectAllKeepsCore(b);
    var e, r := EjectAll(b), Restart(b, tag);
    DivSmall(tag, MOD);
    UnwrapSub(tag, tag);
    forall i | 0 <= i < |r.out| ensures Past(r, r.out[i]) {
      assert Past(e, e.out[i]);
    }
    hide Ordered, EjectAll;
  }

  lemma {:induction false} PushKeepsInv(b: Buffer, window: int, tag: U64, m: Message)
    requires Inv(b, window)
    ensures Inv(Push(b, window, tag, m).buffer, window)
  {
    var lin := Sub(tag, b.baseline);
    assert tag == Add(lin, b.baseline);
    RestartKeepsInv(b, window, tag);
    hide Inv, PushAhead, Restart;
    if b.last < lin <= INT64_MAX {
      PushAheadKeepsInv(b, window, lin, tag, m);
    } else if b.last < lin && Sub(b.last, lin) > MAX_BACKWARD_LAG {
      PushAheadKeepsInv(Restart(b, tag), window, CAPACITY / 2, tag, m);
    }
  }

  lemma {:induction false} CreateKeepsInv(tag: U64, window: int)
    ensures Inv(Create(tag), window)
  {
    DivSmall(tag, MOD);
    UnwrapSub(tag, tag);
  }

  // ---------------------------------------------------------------- nothing is lost or doubled

  ghost function Entry(b: Buffer, k: U64, m: Message): Delivery { Delivery(Add(k, b.baseline), m, b.turn, b.base + k) }

  ghost predicate Buffered(b: Buffer, d: Delivery) {
    exists k :: k in b.slots && d == Entry(b, k, b.slots[k])
  }

  /** Delivered already, or to be delivered. */
  ghost predicate Kept(b: Buffer, d: Delivery) { d in b.out || Buffered(b, d) }

  lemma {:induction false} DeliverKept(b: Buffer, k: U64, m: Message, d: Delivery)
    ensures Kept(Deliver(b, k, m), d) <==> Kept(b, d) || d == Entry(b, k, m)
  {
    var c := Deliver(b, k, m);
    assert d in c.out <==> d in b.out || d == Entry(b, k, m);
    assert forall j, n :: Entry(c, j, n) == Entry(b, j, n);
    hide Entry;
  }

  lemma {:induction false} EjectKept(b: Buffer, k: U64, d: Delivery)
    requires k in b.slots
    ensures Kept(Eject(b, k), d) <==> Kept(b, d)
  {
    var c := b.(slots := b.slots - {k});
    DeliverKept(c, k, b.slots[k], d);
    assert forall j, n :: Entry(c, j, n) == Entry(b, j, n);
    hide Entry;
    if Buffered(b, d) {
      var j :| j in b.slots && d == Entry(b, j, b.slots[j]);
      assert j == k || (j in c.slots && d == Entry(c, j, c.slots[j]));
    }
    if Buffered(c, d) {
      var j :| j in c.slots && d == Entry(c, j, c.slots[j]);
      assert j in b.slots && d == Entry(b, j, b.slots[j]);
    }
    if d == Entry(c, k, b.slots[k]) {
      assert d == Entry(b, k, b.slots[k]);
    }
  }

  lemma {:induction false} ScanKept(b: Buffer, window: int, forceFirst: bool, d: Delivery)
    ensures Kept(Scan(b, window, forceFirst), d) <==> Kept(b, d)
    decreases |b.slots|
  {
    if b.slots != map[] && (forceFirst || Head(b.slots) == Add(b.last, 1)) {
      EjectKept(b, Head(b.slots), d);
      hide Kept;
      ScanKept(Eject(b, Head(b.slots)), window, false, d);
    } else {
      var c := b.(timer := Armed(b, window));
      assert forall j, n :: Entry(c, j, n) == Entry(b, j, n);
    }
  }

  lemma {:induction false} SlideKept(b: Buffer, window: int, lin: U64, d: Delivery)
    ensures Kept(Slide(b, window, lin), d) <==> Kept(b, d)
    decreases |b.slots|
  {
    hide Kept;
    if b.slots != map[] && lin > Add(b.last, CAPACITY) {
      ScanShrinks(b, window, true);
      ScanKept(b, window, true, d);
      SlideKept(Scan(b, window, true), window, lin, d);
    }
  }

  lemma {:induction false} InternKept(b: Buffer, window: int, lin: U64, m: Message, d: Delivery)
    ensures lin in b.slots ==> Intern(b, window, lin, m) == b
    ensures lin !in b.slots ==> (Kept(Intern(b, window, lin, m), d) <==> Kept(b, d) || d == Entry(b, lin, m))
  {
    var c := Intern(b, window, lin, m);
    assert forall j, n :: Entry(c, j, n) == Entry(b, j, n);
    hide Entry, Armed;
    if lin !in b.slots {
      if Buffered(b, d) {
        var k :| k in b.slots && d == Entry(b, k, b.slots[k]);
        assert k in c.slots && d == Entry(c, k, c.slots[k]);
      }
      if d == Entry(b, lin, m) {
        assert lin in c.slots && d == Entry(c, lin, c.slots[lin]);
      }
      if Buffered(c, d) && d != Entry(b, lin, m) {
        var k :| k in c.slots && d == Entry(c, k, c.slots[k]);
        assert k in b.slots && d == Entry(b, k, b.slots[k]);
      }
    }
  }

  lemma {:induction false} EjectAllKept(b: Buffer, d: Delivery)
    ensures Kept(EjectAll(b), d) <==> Kept(b, d)
    decreases |b.slots|
  {
    if b.slots != map[] {
      EjectKept(b, Head(b.slots), d);
      hide Kept;
      EjectAllKept(Eject(b, Head(b.slots)), d);
    } else {
      var c := b.(timer := None);
      assert forall j, n :: Entry(c, j, n) == Entry(b, j, n);
    }
  }

  /** Where an accepted tag stands without wrapping, in the frame of the buffer. */
  ghost function Placed(b: Buffer, lin: U64, tag: U64, m: Message): Delivery {
    Delivery(tag, m, b.turn, b.base + lin)
  }

  lemma {:induction false} ResequenceKept(s: Buffer, tag: U64, at: int, d: Delivery)
    requires s.slots == map[]
    ensures Kept(Resequence(s, tag, at), d) <==> Kept(s, d)
  {
  }

  /** A tag is refused exactly if it is not ahead of the last delivered one, but not far enough behind for a restart. */
  lemma {:induction false} RefusedIffLate(b: Buffer, window: int, tag: U64, m: Message)
    requires Inv(b, window)
    ensures Push(b, window, tag, m).accepted <==> Sub(Add(b.last, b.baseline), tag) > Max(b.last, 100_000)
  {
    hide PushAhead, Restart;
  }

  /** A buffered tag fits the window already. */
  lemma {:induction false} SlideStill(b: Buffer, window: int, lin: U64)
    requires Inv(b, window)
    ensures lin in Slide(b, window, lin).slots <==> lin in b.slots
  {
    if b.slots != map[] && lin > b.last + CAPACITY {
      SlideShrinks(b, window, lin);
    }
  }

  lemma {:induction false} SlideShrinks(b: Buffer, window: int, lin: U64)
    ensures Slide(b, window, lin).slots.Keys <= b.slots.Keys
    decreases |b.slots|
  {
    if b.slots != map[] && lin > Add(b.last, CAPACITY) {
      ScanShrinks(b, window, true);
      ScanFrame(b, window, true);
      hide Scan, Head;
      SlideShrinks(Scan(b, window, true), window, lin);
    }
  }

  lemma {:induction false} PushAheadKept(b: Buffer, window: int, lin: U64, tag: U64, m: Message, d: Delivery)
    requires Inv(b, window) && b.last < lin <= INT64_MAX && tag == Add(lin, b.baseline)
    ensures Kept(PushAhead(b, window, lin, tag, m), d) <==>
            Kept(b, d) || (lin !in b.slots && d == Placed(b, lin, tag, m))
  {
    var s := Slide(b, window, lin);
    SlideKeepsInv(b, window, lin);
    SlideKept(b, window, lin, d);
    SlideStill(b, window, lin);
    assert Entry(s, lin, m) == Placed(b, lin, tag, m);
    hide Slide, Kept;
    if lin == s.last + 1 {
      DeliverKept(s, lin, m, d);
      hide Core;
      ScanKept(Deliver(s, lin, m), window, false, d);
    } else if lin > s.last + CAPACITY {
      var r := Resequence(s, tag, s.base + lin);
      ResequenceKept(s, tag, s.base + lin, d);
      InternKept(r, window, CAPACITY / 2, m, d);
      assert Add(CAPACITY / 2, r.baseline) == tag;
      assert Entry(r, CAPACITY / 2, m) == Placed(b, lin, tag, m);
    } else {
      InternKept(s, window, lin, m, d);
    }
  }

  /** The new place of the tag of an accepted push; a restart begins a new turn. */
  ghost function PlaceOf(b: Buffer, tag: U64, m: Message): Delivery {
    var lin := Sub(tag, b.baseline);
    if lin <= INT64_MAX then Placed(b, lin, tag, m) else Delivery(tag, m, b.turn + 1, tag)
  }

  /** An accepted tag is kept, once; a refused one changes nothing. */
  lemma {:induction false} PushKept(b: Buffer, window: int, tag: U64, m: Message, d: Delivery)
    requires Inv(b, window)
    ensures !Push(b, window, tag, m).accepted ==> Push(b, window, tag, m).buffer == b
    ensures Push(b, window, tag, m).accepted ==>
              (Kept(Push(b, window, tag, m).buffer, d) <==>
               Kept(b, d) || (Sub(tag, b.baseline) !in b.slots && d == PlaceOf(b, tag, m)))
  {
    var lin := Sub(tag, b.baseline);
    assert tag == Add(lin, b.baseline);
    if b.last < lin <= INT64_MAX {
      hide Inv, PushAhead, Kept, Add, Sub;
      PushAheadKept(b, window, lin, tag, m, d);
    } else if b.last < lin && Sub(b.last, lin) > MAX_BACKWARD_LAG {
      var r, e := Restart(b, tag), EjectAll(b);
      RestartKeepsInv(b, window, tag);
      EjectAllKept(b, d);
      EjectAllKeepsCore(b);
      ResequenceKept(e.(turn := e.turn + 1), tag, tag, d);
      assert Kept(e.(turn := e.turn + 1), d) <==> Kept(e, d);
      hide Kept, PushAhead, EjectAll, Add, Sub;
      PushAheadKept(r, window, CAPACITY / 2, tag, m, d);
    }
  }

  // ---------------------------------------------------------------- runs

  /** A message arrives, or the timer of the head-of-line gap fires. */
  datatype Event = Arrives(tag: U64, message: Message) | Expires

  ghost function Step(b: Buffer, window: int, e: Event): Buffer {
    match e
    case Arrives(tag, m) => Push(b, window, tag, m).buffer
    case Expires => Scan(b, window, true)
  }

  ghost function After(first: U64, window: int, events: seq<Event>): Buffer {
    if events == [] then Create(first)
    else Step(After(first, window, events[..|events| - 1]), window, events[|events| - 1])
  }

  /** Event i is an accepted arrival of a tag that is not buffered, and d is where it belongs. */
  ghost predicate Takes(first: U64, window: int, events: seq<Event>, i: nat, d: Delivery) {
    && i < |events| && events[i].Arrives?
    && var b := After(first, window, events[..i]);
       && Push(b, window, events[i].tag, events[i].message).accepted
       && Sub(events[i].tag, b.baseline) !in b.slots
       && d == PlaceOf(b, events[i].tag, events[i].message)
  }

  ghost predicate Taken(first: U64, window: int, events: seq<Event>, d: Delivery) {
    exists i: nat :: Takes(first, window, events, i, d)
  }

  lemma {:induction false} AlwaysInv(first: U64, window: int, events: seq<Event>)
    ensures Inv(After(first, window, events), window)
  {
    hide Push, Scan;
    if events == [] {
      CreateKeepsInv(first, window);
    } else {
      var b := After(first, window, events[..|events| - 1]);
      AlwaysInv(first, window, events[..|events| - 1]);
      match events[|events| - 1] {
        case Arrives(tag, m) => PushKeepsInv(b, window, tag, m);
        case Expires => ScanKeepsInv(b, window, true);
      }
    }
  }

  lemma {:induction false} TakenStep(first: U64, window: int, events: seq<Event>, d: Delivery)
    requires events != []
    ensures Taken(first, window, events, d) <==>
            || Taken(first, window, events[..|events| - 1], d)
            || Takes(first, window, events, |events| - 1, d)
  {
    var was := events[..|events| - 1];
    forall i: nat | i < |was| ensures Takes(first, window, was, i, d) <==> Takes(first, window, events, i, d) {
      assert was[..i] == events[..i];
    }
    hide Takes;
    if Taken(first, window, was, d) {
      var i: nat :| Takes(first, window, was, i, d);
      TakesInside(first, window, was, i, d);
      assert Takes(first, window, events, i, d);
    }
    if Taken(first, window, events, d) {
      var i: nat :| Takes(first, window, events, i, d);
      TakesInside(first, window, events, i, d);
    }
  }

  lemma {:induction false} TakesInside(first: U64, window: int, events: seq<Event>, i: nat, d: Delivery)
    requires Takes(first, window, events, i, d)
    ensures i < |events|
  {
  }

  /** Over any run: what is delivered or waiting is exactly what was accepted. */
  lemma {:induction false} AcceptedIsKept(first: U64, window: int, events: seq<Event>, d: Delivery)
    ensures Kept(After(first, window, events), d) <==> Taken(first, window, events, d)
  {
    if events == [] {
      assert !Kept(Create(first), d);
    } else {
      var was := events[..|events| - 1];
      var b := After(first, window, was);
      AlwaysInv(first, window, was);
      AcceptedIsKept(first, window, was, d);
      TakenStep(first, window, events, d);
      hide Kept, Taken, Inv, Push, Scan;
      match events[|events| - 1] {
        case Arrives(tag, m) => PushKept(b, window, tag, m, d);
        case Expires => ScanKept(b, window, true, d);
      }
    }
  }

  lemma {:induction false} OrderedStrictly(out: seq<Delivery>, i: nat, j: nat)
    requires Ordered(out) && i < j < |out|
    ensures out[i].turn < out[j].turn || (out[i].turn == out[j].turn && out[i].at < out[j].at)
    decreases j
  {
    assert Before(out[j - 1], out[j]);
    if i < j - 1 {
      OrderedStrictly(out, i, j - 1);
    }
  }

  lemma {:induction false} StepOfTags(a: int, b: int)
    requires a < b < a + MOD
    ensures Sub(b % MOD, a % MOD) == b - a
  {
    var q, r := a / MOD, a % MOD;
    if r + (b - a) < MOD {
      DivUnique(b, MOD, q, r + (b - a));
    } else {
      DivUnique(b, MOD, q + 1, r + (b - a) - MOD);
    }
  }

  lemma {:induction false} NoneWaits(b: Buffer, window: int)
    requires Inv(b, window)
    ensures Ordered(b.out) && forall i :: 0 <= i < |b.out| ==> !Buffered(b, b.out[i])
  {
    hide Ordered;
    forall i, k | 0 <= i < |b.out| && k in b.slots ensures b.out[i] != Entry(b, k, b.slots[k]) {
      assert Past(b, b.out[i]) && InWindow(b, k);
    }
  }

  /**
   * Over any run: no delivery is made twice, none is still waiting, and within a turn the tags move forward in
   * 64-bit serial order.
   */
  lemma {:induction false} DeliveredOnceInOrder(first: U64, window: int, events: seq<Event>)
    ensures var out := After(first, window, events).out;
            && (forall i :: 0 <= i < |out| ==>
                out[i].tag == out[i].at % MOD && !Buffered(After(first, window, events), out[i]))
            && (forall i, j :: 0 <= i < j < |out| ==>
                  out[i].turn < out[j].turn || (out[i].turn == out[j].turn && out[i].at < out[j].at))
            && (forall i :: 0 < i < |out| && out[i - 1].turn == out[i].turn ==>
                  0 < Sub(out[i].tag, out[i - 1].tag) == out[i].at - out[i - 1].at <= INT64_MAX + CAPACITY / 2)
  {
    var b := After(first, window, events);
    hide After, Buffered, Sub, Inv;
    AlwaysInv(first, window, events);
    NoneWaits(b, window);
    OrderedMoves(b.out);
  }

  lemma {:induction false} OrderedMoves(out: seq<Delivery>)
    requires Ordered(out)
    ensures forall i, j :: 0 <= i < j < |out| ==>
                             out[i].turn < out[j].turn || (out[i].turn == out[j].turn && out[i].at < out[j].at)
    ensures forall i :: 0 < i < |out| && out[i - 1].turn == out[i].turn ==>
                          0 < Sub(out[i].tag, out[i - 1].tag) == out[i].at - out[i - 1].at <= INT64_MAX + CAPACITY / 2
  {
    hide Sub;
    forall i, j | 0 <= i < j < |out|
      ensures out[i].turn < out[j].turn || (out[i].turn == out[j].turn && out[i].at < out[j].at)
    {
      OrderedStrictly(out, i, j);
    }
    forall i | 0 < i < |out| && out[i - 1].turn == out[i].turn
      ensures 0 < Sub(out[i].tag, out[i - 1].tag) == out[i].at - out[i - 1].at <= INT64_MAX + CAPACITY / 2
    {
      assert Before(out[i - 1], out[i]);
      StepOfTags(out[i - 1].at, out[i].at);
    }
  }

  // ---------------------------------------------------------------- turns

  lemma {:induction false} ScanKeepsTurn(b: Buffer, window: int, forceFirst: bool)
    ensures Scan(b, window, forceFirst).turn == b.turn
    decreases |b.slots|
  {
    if b.slots != map[] && (forceFirst || Head(b.slots) == Add(b.last, 1)) {
      ScanKeepsTurn(Eject(b, Head(b.slots)), window, false);
    }
  }

  lemma {:induction false} SlideKeepsTurn(b: Buffer, window: int, lin: U64)
    ensures Slide(b, window, lin).turn == b.turn
    decreases |b.slots|
  {
    if b.slots != map[] && lin > Add(b.last, CAPACITY) {
      ScanShrinks(b, window, true);
      ScanKeepsTurn(b, window, true);
      hide Scan;
      SlideKeepsTurn(Scan(b, window, true), window, lin);
    }
  }

  lemma {:induction false} EjectAllKeepsTurn(b: Buffer)
    ensures EjectAll(b).turn == b.turn
    decreases |b.slots|
  {
    if b.slots != map[] {
      EjectAllKeepsTurn(Eject(b, Head(b.slots)));
    }
  }

  lemma {:induction false} PushAheadKeepsTurn(b: Buffer, window: int, lin: U64, tag: U64, m: Message)
    ensures PushAhead(b, window, lin, tag, m).turn == b.turn
  {
    var s := Slide(b, window, lin);
    SlideKeepsTurn(b, window, lin);
    ScanKeepsTurn(Deliver(s, lin, m), window, false);
    hide Slide, Scan;
  }

  /** A push begins a new turn exactly if it is accepted with a distance of 2^63 or more; a timer never does. */
  lemma {:induction false} TurnIffWrapped(b: Buffer, window: int, tag: U64, m: Message)
    ensures var p := Push(b, window, tag, m);
            p.buffer.turn == if p.accepted && Sub(tag, b.baseline) > INT64_MAX then b.turn + 1 else b.turn
    ensures Scan(b, window, true).turn == b.turn
  {
    EjectAllKeepsTurn(b);
    PushAheadKeepsTurn(Restart(b, tag), window, CAPACITY / 2, tag, m);
    PushAheadKeepsTurn(b, window, Sub(tag, b.baseline), tag, m);
    ScanKeepsTurn(b, window, true);
    hide PushAhead, EjectAll, Scan;
  }

  /** The next expected tag begins a new turn exactly if 2^63 - 1 tags have been passed since the baseline. */
  lemma {:induction false} NextRestartsIff(b: Buffer, window: int, m: Message)
    requires Inv(b, window)
    ensures var next := Add(Add(b.last, b.baseline), 1);
            && Push(b, window, next, m).accepted
            && (Push(b, window, next, m).buffer.turn != b.turn <==> b.last == INT64_MAX)
  {
    TurnIffWrapped(b, window, Add(Add(b.last, b.baseline), 1), m);
    hide PushAhead, Restart;
  }

  /** A first message, the end of its window, and n more messages in order. */
  ghost function InOrder(first: U64, m: Message, n: nat): seq<Event>
    requires n < MOD
  {
    if n == 0 then [Arrives(first, m), Expires] else InOrder(first, m, n - 1) + [Arrives(Add(first, n), m)]
  }

  ghost function InOrderBuffer(first: U64, m: Message, n: nat): (b: Buffer)
    requires n <= INT64_MAX - CAPACITY / 2
    ensures b.last == CAPACITY / 2 + n && b.slots == map[] && b.timer == None && b.turn == 0
    ensures b.baseline == Sub(first, CAPACITY / 2) && b.base == first - CAPACITY / 2
  {
    if n == 0 then Deliver(Create(first), CAPACITY / 2, m)
    else Deliver(InOrderBuffer(first, m, n - 1), CAPACITY / 2 + n, m)
  }

  lemma {:induction false} DeliverNext(b: Buffer, window: int, tag: U64, m: Message)
    requires b.slots == map[] && b.timer == None && b.last < INT64_MAX && Sub(tag, b.baseline) == b.last + 1
    ensures Push(b, window, tag, m).buffer == Deliver(b, b.last + 1, m)
  {
  }

  lemma {:induction false} FirstIsDelivered(first: U64, window: int, m: Message)
    ensures After(first, window, [Arrives(first, m), Expires]) == Deliver(Create(first), CAPACITY / 2, m)
  {
    var run, b := [Arrives(first, m), Expires], Create(first);
    assert run[..1] == [Arrives(first, m)] && run[..1][..0] == [];
    var held := Push(b, window, first, m).buffer;
    assert held.slots == map[CAPACITY / 2 := m] && held == b.(slots := held.slots, timer := held.timer);
    assert Head(held.slots) == CAPACITY / 2;
    assert held.slots - {CAPACITY / 2} == map[];
    assert Eject(held, CAPACITY / 2) == Deliver(b, CAPACITY / 2, m).(timer := held.timer);
    assert Scan(held, window, true) == Scan(Eject(held, CAPACITY / 2), window, false) == Deliver(b, CAPACITY / 2, m);
    assert After(first, window, []) == b && After(first, window, run[..1]) == held;
  }

  lemma {:induction false} AfterSnoc(first: U64, window: int, was: seq<Event>, e: Event)
    ensures After(first, window, was + [e]) == Step(After(first, window, was), window, e)
  {
    assert (was + [e])[..|was|] == was;
    hide Step;
  }

  lemma NextIsNext(first: U64, n: nat)
    requires 0 < n <= INT64_MAX - CAPACITY / 2
    ensures Sub(Add(first, n), Sub(first, CAPACITY / 2)) == CAPACITY / 2 + n
  {
  }

  lemma {:induction false} InOrderStep(first: U64, window: int, m: Message, n: nat)
    requires 0 < n <= INT64_MAX - CAPACITY / 2
    ensures Step(InOrderBuffer(first, m, n - 1), window, Arrives(Add(first, n), m)) == InOrderBuffer(first, m, n)
  {
    hide Push, Deliver, Create, Add, Sub;
    NextIsNext(first, n);
    DeliverNext(InOrderBuffer(first, m, n - 1), window, Add(first, n), m);
  }

  lemma {:induction false} InOrderRun(first: U64, window: int, m: Message, n: nat)
    requires n <= INT64_MAX - CAPACITY / 2
    ensures After(first, window, InOrder(first, m, n)) == InOrderBuffer(first, m, n)
  {
    hide After, Step, Push, Deliver, Add, Sub;
    if n == 0 {
      FirstIsDelivered(first, window, m);
    } else {
      InOrderRun(first, window, m, n - 1);
      AfterSnoc(first, window, InOrder(first, m, n - 1), Arrives(Add(first, n), m));
      InOrderStep(first, window, m, n);
    }
  }

  /** A run of 2^63 - 8 arrivals in order, without a gap, after which the next tag in order is taken for a restart. */
  lemma {:induction false} NextTagRestarts(first: U64, window: int, m: Message) returns (n: nat)
    ensures n == INT64_MAX - CAPACITY / 2
    ensures var b := After(first, window, InOrder(first, m, n));
            && Add(Add(b.last, b.baseline), 1) == Add(first, n + 1)
            && Push(b, window, Add(first, n + 1), m).buffer.turn == b.turn + 1
  {
    n := INT64_MAX - CAPACITY / 2;
    InOrderRun(first, window, m, n);
    AlwaysInv(first, window, InOrder(first, m, n));
    TurnIffWrapped(InOrderBuffer(first, m, n), window, Add(first, n + 1), m);
    NextRestartsIff(InOrderBuffer(first, m, n), window, m);
    hide Push, After, InOrder;
  }

  // ---------------------------------------------------------------- how far a run gets

  lemma {:induction false} SlideFrame(b: Buffer, window: int, lin: U64)
    ensures var s := Slide(b, window, lin); s.slots.Keys <= b.slots.Keys && (s.last == b.last || s.last in b.slots)
    decreases |b.slots|
  {
    if b.slots != map[] && lin > Add(b.last, CAPACITY) {
      ScanShrinks(b, window, true);
      ScanFrame(b, window, true);
      hide Scan, Head;
      SlideFrame(Scan(b, window, true), window, lin);
    }
  }

  lemma {:induction false} PushAheadGrows(b: Buffer, window: int, lin: U64, tag: U64, m: Message)
    requires Inv(b, window) && b.last < lin <= INT64_MAX
    ensures PushAhead(b, window, lin, tag, m).last <= b.last + CAPACITY + 1
  {
    var s := Slide(b, window, lin);
    SlideFrame(b, window, lin);
    SlideKeepsInv(b, window, lin);
    ScanFrame(Deliver(s, lin, m), window, false);
    hide Slide, Scan, Armed, Ordered, Close;
  }

  lemma {:induction false} StepGrows(b: Buffer, window: int, e: Event)
    requires Inv(b, window)
    ensures Step(b, window, e).last <= b.last + CAPACITY + 1
  {
    match e {
      case Arrives(tag, m) =>
        RestartKeepsInv(b, window, tag);
        var lin := Sub(tag, b.baseline);
        hide PushAhead, Restart;
        if b.last < lin <= INT64_MAX {
          PushAheadGrows(b, window, lin, tag, m);
        } else if b.last < lin {
          PushAheadGrows(Restart(b, tag), window, CAPACITY / 2, tag, m);
        }
      case Expires =>
        ScanFrame(b, window, true);
        hide Scan, Armed, Ordered, Close;
    }
  }

  /** Each event moves the window by 17 tags at most. */
  lemma {:induction false} RunGrows(first: U64, window: int, events: seq<Event>)
    ensures After(first, window, events).last <= (CAPACITY + 1) * |events|
  {
    hide Inv, Step;
    if events != [] {
      RunGrows(first, window, events[..|events| - 1]);
      AlwaysInv(first, window, events[..|events| - 1]);
      StepGrows(After(first, window, events[..|events| - 1]), window, events[|events| - 1]);
    }
  }

  /** In a run of fewer than 2^58 events the next expected tag is never taken for a restart. */
  lemma {:induction false} ShortRunsGoOn(first: U64, window: int, events: seq<Event>, m: Message)
    requires |events| < 0x400_0000_0000_0000
    ensures var b := After(first, window, events);
            var p := Push(b, window, Add(Add(b.last, b.baseline), 1), m);
            p.accepted && p.buffer.turn == b.turn
  {
    RunGrows(first, window, events);
    AlwaysInv(first, window, events);
    NextRestartsIff(After(first, window, events), window, m);
    hide Push, After, Inv, Add;
  }
}
