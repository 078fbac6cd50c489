/** Interleaved reassembly: the priorities of one session do not disturb each other. */
module CanLanes {
  import opened Wire
  import opened CanFrame
  import opened CanSession

  /** A frame of one remote node, as it arrives on one interface. */
  datatype Event = Event(ts: nat, frame: Parsed)

  ghost predicate Ingestible(events: seq<Event>) {
    forall i :: 0 <= i < |events| ==> WellFormed(events[i].frame)
  }

  /** The session after the given frames, and everything it let the application see. */
  function Run(sub: Subscription, iface: nat, events: seq<Event>): (r: Updated)
    requires Ingestible(events)
    ensures Valid(sub, r.session)
  {
    if events == [] then Updated(NewSession(iface), [])
    else
      var last := events[|events| - 1];
      var before := Run(sub, iface, events[..|events| - 1]);
      var step := Update(sub, before.session, last.ts, last.frame, iface);
      Updated(step.session, before.out + step.out)
  }

  /** The frames of one priority, in order. */
  function Project(events: seq<Event>, p: Prio): (r: seq<Event>)
    requires Ingestible(events)
    ensures Ingestible(r) && forall i :: 0 <= i < |r| ==> r[i].frame.priority == p
  {
    if events == [] then []
    else
      var last := events[|events| - 1];
      Project(events[..|events| - 1], p) + (if last.frame.priority == p then [last] else [])
  }

  /** The outcomes of one priority, in order. */
  function OutcomesAt(out: seq<Outcome>, p: Prio): seq<Outcome> {
    if out == [] then []
    else
      var last := out[|out| - 1];
      OutcomesAt(out[..|out| - 1], p) + (if last.priority == p then [last] else [])
  }

  /** A priority level on its own: every start frame opens a transfer, every next frame continues it. */
  function LaneStep(sub: Subscription, iface: nat, lane: Accepted, e: Event): (r: Accepted)
    requires WellFormed(e.frame)
    requires lane.slot.Some? ==> ValidSlot(sub, lane.slot.value)
    ensures r.slot.Some? ==> ValidSlot(sub, r.slot.value)
  {
    if e.frame.start then
      var a := Accept(sub, Opened(sub, e.ts, e.frame, iface), e.ts, e.frame);
      Accepted(a.slot, lane.out + a.out)
    else if Continues(lane.slot, e.frame, iface) then
      var a := Accept(sub, lane.slot, e.ts, e.frame);
      Accepted(a.slot, lane.out + a.out)
    else lane
  }

  function LaneRun(sub: Subscription, iface: nat, events: seq<Event>): (r: Accepted)
    requires Ingestible(events)
    ensures r.slot.Some? ==> ValidSlot(sub, r.slot.value)
  {
    if events == [] then Accepted(None, [])
    else LaneStep(sub, iface, LaneRun(sub, iface, events[..|events| - 1]), events[|events| - 1])
  }

  datatype Start = Start(priority: Prio, tid: TransferId, ts: int)

  function LastStart(events: seq<Event>): Option<Start> {
    if events == [] then None
    else
      var last := events[|events| - 1];
      if last.frame.start then Some(Start(last.frame.priority, last.frame.tid, last.ts))
      else LastStart(events[..|events| - 1])
  }

  predicate Repeats(last: Option<Start>, frame: Parsed) {
    last.Some? && last.value.priority == frame.priority && last.value.tid == frame.tid
  }

  /** No start frame repeats the priority and transfer-ID of the start frame before it. */
  ghost predicate NovelStarts(events: seq<Event>) {
    forall i :: 0 <= i < |events| && events[i].frame.start ==> !Repeats(LastStart(events[..i]), events[i].frame)
  }

  /** Whenever a start frame triggers a cleanup, no transfer in progress has run out of patience. */
  ghost predicate Timely(sub: Subscription, iface: nat, events: seq<Event>)
    requires Ingestible(events)
  {
    forall i: nat, p: Prio :: i < |events| && events[i].frame.start && !events[i].frame.end ==>
      var slot := LaneRun(sub, iface, Project(events[..i], p)).slot;
      slot.Some? ==> slot.value.startTs >= events[i].ts - sub.Patience()
  }

  lemma OutcomesAtConcat(a: seq<Outcome>, b: seq<Outcome>, p: Prio)
    ensures OutcomesAt(a + b, p) == OutcomesAt(a, p) + OutcomesAt(b, p)
    decreases |b|
  {
    if b == [] {
      assert a + b == a;
    } else {
      assert (a + b)[..|a + b| - 1] == a + b[..|b| - 1];
      OutcomesAtConcat(a, b[..|b| - 1], p);
    }
  }

  /** What an admitted frame does to its own priority, and that it leaves the others alone. */
  lemma AdmittedStep(sub: Subscription, iface: nat, ses: Session, lane: Accepted, e: Event, p: Prio)
    requires Valid(sub, ses) && WellFormed(e.frame)
    requires e.frame.start ==> Admit(sub, ses, e.ts, e.frame, iface)
    requires SlotAt(ses, p) == lane.slot
    requires e.frame.start && !e.frame.end && lane.slot.Some? ==> lane.slot.value.startTs >= e.ts - sub.Patience()
    ensures var u := Update(sub, ses, e.ts, e.frame, iface);
      (if e.frame.priority == p then
         var next := LaneStep(sub, iface, lane, e);
         SlotAt(u.session, p) == next.slot && lane.out + OutcomesAt(u.out, p) == next.out
       else SlotAt(u.session, p) == lane.slot && OutcomesAt(u.out, p) == [])
  {
    hide Advance, CompleteSlot, Crc16.Add, NewSlot;
    var u := Update(sub, ses, e.ts, e.frame, iface);
    if u.out == [] {
      assert OutcomesAt(u.out, p) == [];
    } else {
      assert |u.out| == 1 && u.out[..|u.out| - 1] == [];
      assert OutcomesAt(u.out, p) == if u.out[0].priority == p then u.out else [];
    }
  }

  /** What the session remembers of its last admission. */
  ghost predicate Remembers(ses: Session, iface: nat, last: Option<Start>) {
    && ses.iface == iface
    && match last
       case None => ses.lastTs == BIG_BANG
       case Some(start) => ses.lastPrio == start.priority && ses.lastTid == start.tid && ses.lastTs == start.ts
  }

  lemma NovelStartIsAdmitted(sub: Subscription, iface: nat, ses: Session, last: Option<Start>, e: Event)
    requires sub.Valid() && Remembers(ses, iface, last)
    requires e.frame.start && !Repeats(last, e.frame)
    ensures Admit(sub, ses, e.ts, e.frame, iface)
  {
  }

  lemma {:induction false} SessionRemembers(sub: Subscription, iface: nat, events: seq<Event>)
    requires sub.Valid() && Ingestible(events) && NovelStarts(events)
    ensures Remembers(Run(sub, iface, events).session, iface, LastStart(events))
  {
    if events != [] {
      var before, e := events[..|events| - 1], events[|events| - 1];
      PrefixNovel(events);
      SessionRemembers(sub, iface, before);
      if e.frame.start {
        NovelStartIsAdmitted(sub, iface, Run(sub, iface, before).session, LastStart(before), e);
      }
    }
  }

  lemma PrefixNovel(events: seq<Event>)
    requires NovelStarts(events) && events != []
    ensures NovelStarts(events[..|events| - 1])
  {
    var before := events[..|events| - 1];
    forall i | 0 <= i < |before| && before[i].frame.start
      ensures !Repeats(LastStart(before[..i]), before[i].frame)
    {
      assert before[..i] == events[..i];
    }
  }

  lemma PrefixTimely(sub: Subscription, iface: nat, events: seq<Event>)
    requires Ingestible(events) && Timely(sub, iface, events) && events != []
    ensures Timely(sub, iface, events[..|events| - 1])
  {
    var before := events[..|events| - 1];
    forall i: nat, p: Prio | i < |before| && before[i].frame.start && !before[i].frame.end
      ensures var slot := LaneRun(sub, iface, Project(before[..i], p)).slot;
        slot.Some? ==> slot.value.startTs >= before[i].ts - sub.Patience()
    {
      assert before[..i] == events[..i];
    }
  }

  /** For any interleaving the session behaves, priority by priority, as if the frames of that
      priority had arrived alone: same slot, same outcomes in the same order. */
  lemma {:induction false} LanesAreIndependent(sub: Subscription, iface: nat, events: seq<Event>, p: Prio)
    requires sub.Valid() && Ingestible(events)
    requires NovelStarts(events) && Timely(sub, iface, events)
    ensures var r, lane := Run(sub, iface, events), LaneRun(sub, iface, Project(events, p));
      SlotAt(r.session, p) == lane.slot && OutcomesAt(r.out, p) == lane.out
  {
    if events != [] {
      var before, e := events[..|events| - 1], events[|events| - 1];
      PrefixNovel(events);
      PrefixTimely(sub, iface, events);
      LanesAreIndependent(sub, iface, before, p);
      var ses, lane := Run(sub, iface, before).session, LaneRun(sub, iface, Project(before, p));
      if e.frame.start {
        SessionRemembers(sub, iface, before);
        NovelStartIsAdmitted(sub, iface, ses, LastStart(before), e);
      }
      AdmittedStep(sub, iface, ses, lane, e, p);
      OutcomesAtConcat(Run(sub, iface, before).out, Update(sub, ses, e.ts, e.frame, iface).out, p);
      var projected := Project(events, p);
      if e.frame.priority == p {
        assert projected[..|projected| - 1] == Project(before, p);
      } else {
        assert projected == Project(before, p);
      }
    }
  }

  // ---------------------------------------------------------------- one transfer per priority

  /** How many start frames a priority has. */
  function Starts(events: seq<Event>, p: Prio): nat {
    if events == [] then 0
    else
      var last := events[|events| - 1].frame;
      Starts(events[..|events| - 1], p) + (if last.start && last.priority == p then 1 else 0)
  }

  lemma {:induction false} LastStartCounts(events: seq<Event>)
    ensures LastStart(events).Some? ==> Starts(events, LastStart(events).value.priority) > 0
  {
    if events != [] {
      LastStartCounts(events[..|events| - 1]);
    }
  }

  lemma {:induction false} StartsGrow(events: seq<Event>, i: nat, p: Prio)
    requires i <= |events|
    ensures Starts(events[..i], p) <= Starts(events, p)
    decreases |events|
  {
    if i < |events| {
      StartsGrow(events[..|events| - 1], i, p);
      assert events[..|events| - 1][..i] == events[..i];
    } else {
      assert events[..i] == events;
    }
  }

  lemma {:induction false} StartsOfProjection(events: seq<Event>, p: Prio)
    requires Ingestible(events)
    ensures Starts(Project(events, p), p) == Starts(events, p)
    decreases |events|
  {
    if events != [] {
      var last, before := events[|events| - 1], Project(events[..|events| - 1], p);
      StartsOfProjection(events[..|events| - 1], p);
      if last.frame.priority == p {
        assert (before + [last])[..|before|] == before;
      } else {
        assert before + [] == before;
      }
    }
  }

  lemma {:induction false} SingleStartsAreNovel(events: seq<Event>)
    requires forall p: Prio :: Starts(events, p) <= 1
    ensures NovelStarts(events)
  {
    forall i | 0 <= i < |events| && events[i].frame.start ensures !Repeats(LastStart(events[..i]), events[i].frame) {
      var q := events[i].frame.priority;
      LastStartCounts(events[..i]);
      StartsGrow(events, i + 1, q);
      assert events[..i + 1][..i] == events[..i];
      assert Starts(events[..i], q) == 0;
    }
  }
}
