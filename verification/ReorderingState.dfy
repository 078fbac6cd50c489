/** The reordering buffer with the fields the subscriber keeps, updated step by step. */
module ReorderingState {
  import opened Wire
  import opened Wrapping
  import opened Reordering

  class State {
    const window: int
    var tagBaseline: U64
    var lastEjectedLinTag: U64
    var slots: map<U64, Message>
    var windowTask: Option<int>
    /** The subscriber no longer takes anything. */
    var disposed: bool
    /** The tags and messages the subscriber was notified of. */
    var notified: seq<(U64, Message)>
    ghost var history: seq<Delivery>
    ghost var turn: nat
    ghost var base: int

    /** Whatever was ejected, the subscriber was notified of, unless it is disposed. */
    ghost predicate Told()
      reads `disposed, `notified, `history
    {
      !disposed ==>
        && |notified| == |history|
        && forall i :: 0 <= i < |history| ==> notified[i] == (history[i].tag, history[i].message)
    }

    ghost function Value(): Buffer
      reads this
    {
      Buffer(tagBaseline, lastEjectedLinTag, slots, windowTask, turn, base, history)
    }

    constructor (tag: U64, window: int)
      ensures this.window == window && !disposed && Told() && Value() == Create(tag) && Inv(Value(), window)
    {
      this.window := window;
      tagBaseline, lastEjectedLinTag := Sub(tag, CAPACITY / 2), 0;
      slots, windowTask, disposed, notified := map[], None, false, [];
      turn, base, history := 0, tag - CAPACITY / 2, [];
      new;
      CreateKeepsInv(tag, window);
      hide Inv;
    }

    method MinSlot() returns (best: Option<U64>)
      ensures best == if slots == map[] then None else Some(Head(slots))
    {
      hide Head;
      best := None;
      var rest := slots.Keys;
      while rest != {}
        invariant rest <= slots.Keys
        invariant best.None? <==> rest == slots.Keys
        invariant best.Some? ==> best.value in slots && forall j :: j in slots && j !in rest ==> best.value <= j
      {
        var k :| k in rest;
        if best.None? || k < best.value {
          best := Some(k);
        }
        rest := rest - {k};
      }
      if slots.Keys != {} {
        assert best.Some? && best.value in slots && forall j :: j in slots ==> best.value <= j;
      }
    }

    method Notify(linTag: U64, tag: U64, message: Message)
      requires Told()
      modifies `notified, `history, `lastEjectedLinTag
      requires tag == Add(linTag, tagBaseline)
      ensures Told() && (disposed ==> notified == old(notified))
      ensures Value() == Deliver(old(Value()), linTag, message)
    {
      lastEjectedLinTag := linTag;
      if !disposed {
        notified := notified + [(tag, message)];
      }
      history := history + [Delivery(tag, message, turn, base + linTag)];
    }

    method EjectSlot(linTag: U64)
      requires linTag in slots
      requires Told()
      modifies `slots, `notified, `history, `lastEjectedLinTag
      ensures Told() && (disposed ==> notified == old(notified))
      ensures Value() == Eject(old(Value()), linTag)
    {
      var message := slots[linTag];
      slots := slots - {linTag};
      Notify(linTag, Add(linTag, tagBaseline), message);
    }

    method ScanSlots(forceFirst: bool)
      requires Told()
      modifies `slots, `windowTask, `notified, `history, `lastEjectedLinTag
      ensures Told() && (disposed ==> notified == old(notified))
      ensures Value() == Scan(old(Value()), window, forceFirst)
    {
      hide Head, Told, Scan, Eject;
      var force := forceFirst;
      while true
        invariant Told() && (disposed ==> notified == old(notified))
        invariant Scan(Value(), window, force) == Scan(old(Value()), window, forceFirst)
        decreases |slots|
      {
        var head := MinSlot();
        ScanStep(Value(), window, force);
        if head.None? {
          windowTask := None;
          break;
        }
        if force || head.value == Add(lastEjectedLinTag, 1) {
          force := false;
          EjectSlot(head.value);
        } else {
          windowTask := Some(slots[head.value].timestamp + window);
          break;
        }
      }
    }

    method EjectAllSlots(silenced: bool)
      requires Told()
      modifies `slots, `windowTask, `notified, `history, `lastEjectedLinTag
      ensures Told() && (disposed ==> notified == old(notified))
      ensures !silenced ==> Value() == EjectAll(old(Value()))
      ensures silenced ==> Value() == old(Value()).(slots := map[], timer := None)
    {
      hide Head, Told;
      while slots != map[]
        invariant Told() && (disposed ==> notified == old(notified))
        invariant !silenced ==> EjectAll(Value()) == EjectAll(old(Value()))
        invariant silenced ==> Value() == old(Value()).(slots := slots)
        decreases |slots|
      {
        var head := MinSlot();
        if head.None? {
          break;
        }
        if silenced {
          slots := slots - {head.value};
        } else {
          EjectSlot(head.value);
        }
      }
      windowTask := None;
    }

    method ResequenceAt(tag: U64, ghost at: int)
      requires Told()
      modifies `tagBaseline, `lastEjectedLinTag, `base
      ensures Told()
      ensures Value() == Resequence(old(Value()), tag, at)
    {
      tagBaseline := Sub(tag, CAPACITY / 2);
      lastEjectedLinTag := 0;
      base := at - CAPACITY / 2;
    }

    method OnWindowExpiration()
      requires Inv(Value(), window)
      requires Told()
      modifies `slots, `windowTask, `notified, `history, `lastEjectedLinTag
      ensures Told() && (disposed ==> notified == old(notified))
      ensures Inv(Value(), window) && Value() == Scan(old(Value()), window, true)
    {
      ScanKeepsInv(Value(), window, true);
      hide Inv, Scan;
      ScanSlots(true);
    }

    method SlideRight(linTag: U64)
      requires Told()
      modifies `slots, `windowTask, `notified, `history, `lastEjectedLinTag
      ensures Told() && (disposed ==> notified == old(notified))
      ensures Value() == Slide(old(Value()), window, linTag)
    {
      hide Scan, Head;
      while slots != map[] && linTag > Add(lastEjectedLinTag, CAPACITY)
        invariant Told() && (disposed ==> notified == old(notified))
        invariant Slide(Value(), window, linTag) == Slide(old(Value()), window, linTag)
        decreases |slots|
      {
        ScanShrinks(Value(), window, true);
        ScanSlots(true);
      }
    }

    method InternSlot(linTag: U64, message: Message)
      requires Told()
      modifies `slots, `windowTask
      ensures Told()
      ensures Value() == Intern(old(Value()), window, linTag, message)
    {
      hide Head;
      if linTag in slots {
        return;
      }
      slots := slots[linTag := message];
      assert linTag in slots;
      var first := MinSlot();
      if first.Some? {
        windowTask := Some(slots[first.value].timestamp + window);
      }
    }

    /** Once the window has slid, a disposed subscriber refuses the message. */
    method PushForward(linTag: U64, tag: U64, message: Message) returns (accepted: bool)
      requires Told() && tag == Add(linTag, tagBaseline)
      requires Inv(Value(), window) && lastEjectedLinTag < linTag <= INT64_MAX
      modifies `slots, `windowTask, `notified, `history, `lastEjectedLinTag, `tagBaseline, `base
      ensures Told() && (disposed ==> notified == old(notified))
      ensures accepted <==> !disposed
      ensures !disposed ==> Value() == PushAhead(old(Value()), window, linTag, tag, message)
      ensures disposed ==> Value() == Slide(old(Value()), window, linTag) && Inv(Value(), window)
    {
      hide Scan, Slide, Intern, Core, Armed;
      SlideKeepsInv(Value(), window, linTag);
      SlideRight(linTag);
      if disposed {
        return false;
      }
      if linTag == Add(lastEjectedLinTag, 1) {
        Notify(linTag, tag, message);
        ScanSlots(false);
      } else if linTag > Add(lastEjectedLinTag, CAPACITY) {
        ResequenceAt(tag, base + linTag);
        InternSlot(Sub(tag, tagBaseline), message);
      } else {
        InternSlot(linTag, message);
      }
      return true;
    }

    method PushMessage(tag: U64, message: Message) returns (accepted: bool)
      requires Told()
      requires Inv(Value(), window)
      modifies `slots, `windowTask, `notified, `history, `lastEjectedLinTag, `tagBaseline, `base, `turn
      ensures Told() && (disposed ==> notified == old(notified))
      ensures Inv(Value(), window)
      ensures !disposed ==> Judged(Value(), accepted) == Push(old(Value()), window, tag, message)
      ensures disposed ==> !accepted
    {
      hide EjectAll, PushAhead, Restart, Inv, Push, Sub, Add;
      PushKeepsInv(Value(), window, tag, message);
      PushCases(Value(), window, tag, message);
      var linTag := Sub(tag, tagBaseline);
      if linTag <= lastEjectedLinTag {
        return false;
      }
      if linTag > INT64_MAX {
        var backwardDistance := Sub(lastEjectedLinTag, linTag);
        if backwardDistance <= MAX_BACKWARD_LAG {
          return false;
        }
        RestartAt(tag);
        linTag := Sub(tag, tagBaseline);
      }
      accepted := PushForward(linTag, tag, message);
    }

    /** The sequence moved backwards: everything is let go and the window starts anew around the tag. */
    method RestartAt(tag: U64)
      requires Told()
      modifies `slots, `windowTask, `notified, `history, `lastEjectedLinTag, `tagBaseline, `base, `turn
      ensures Told() && (disposed ==> notified == old(notified)) && Value() == Restart(old(Value()), tag)
    {
      hide EjectAll;
      EjectAllSlots(false);
      turn := turn + 1;
      ResequenceAt(tag, tag);
    }

    /** Tearing down silently gives up what is buffered. */
    method Destroy(silenced: bool)
      requires Told()
      modifies `slots, `windowTask, `notified, `history, `lastEjectedLinTag
      ensures Told()
      ensures slots == map[] && windowTask == None
      ensures !silenced ==> Value() == EjectAll(old(Value()))
      ensures silenced ==> notified == old(notified)
    {
      EjectAllSlots(silenced);
      EjectAllEmpties(old(Value()));
    }

    /** The subscriber goes: nothing that is buffered reaches it, and nothing stays armed. */
    method Dispose()
      modifies this
      ensures disposed && notified == old(notified) && slots == map[] && windowTask == None
    {
      disposed := true;
      Destroy(true);
    }
  }

  /** One turn of the scanning loop. */
  lemma ScanStep(b: Buffer, window: int, force: bool)
    ensures b.slots == map[] ==> Scan(b, window, force) == b.(timer := None)
    ensures b.slots != map[] && (force || Head(b.slots) == Add(b.last, 1)) ==>
              Scan(b, window, force) == Scan(Eject(b, Head(b.slots)), window, false)
              && |Eject(b, Head(b.slots)).slots| < |b.slots|
    ensures b.slots != map[] && !(force || Head(b.slots) == Add(b.last, 1)) ==>
              Scan(b, window, force) == b.(timer := Some(b.slots[Head(b.slots)].timestamp + window))
  {
  }

  /** The branches of a push, with what the linear tag is in each. */
  lemma {:induction false} PushCases(b: Buffer, window: int, tag: U64, m: Message)
    requires Inv(b, window)
    ensures var lin := Sub(tag, b.baseline);
            var late := lin <= b.last || (lin > INT64_MAX && Sub(b.last, lin) <= MAX_BACKWARD_LAG);
            && (late ==> Push(b, window, tag, m) == Judged(b, false))
            && (!late && lin > INT64_MAX ==>
                  var r := Restart(b, tag);
                  && Inv(r, window) && r.last == 0 && Sub(tag, r.baseline) == CAPACITY / 2
                    && Add(CAPACITY / 2, r.baseline) == tag
                  && Push(b, window, tag, m) == Judged(PushAhead(r, window, CAPACITY / 2, tag, m), true))
            && (!late && lin <= INT64_MAX ==>
                  Add(lin, b.baseline) == tag
                    && Push(b, window, tag, m) == Judged(PushAhead(b, window, lin, tag, m), true))
  {
    RestartKeepsInv(b, window, tag);
    hide PushAhead, Restart, Inv;
  }

  lemma {:induction false} EjectAllEmpties(b: Buffer)
    ensures EjectAll(b).slots == map[] && EjectAll(b).timer == None
    decreases |b.slots|
  {
    if b.slots != map[] {
      EjectAllEmpties(Eject(b, Head(b.slots)));
    }
  }
}
