/** Which frames an ejection sends: the most urgent ones first, as many as the driver takes. */
module TxUrgency {
  import opened TxPipeline

  /** How many frames the driver takes before it refuses one. */
  function Taken(answers: seq<Answer>): nat {
    if answers == [] || !answers[0].accepted then 0 else 1 + Taken(answers[1..])
  }

  /** The state once the most urgent frame of an interface has left. */
  ghost function Sent(c: Pipeline, i: nat, a: Answer): (d: Pipeline)
    requires Inv(c) && i < |c.pending| && c.pending[i] != {}
    ensures Inv(d) && |d.pending| == |c.pending|
  {
    PendingIsQueued(c, i);
    var t := MostUrgent(c, i);
    var f := FrameId(t, c.transfers[t].cursors[i]);
    var offered := if a.retained then Retain(c, f) else c;
    OfferKeepsInv(c, i, t, a.retained);
    OfferShape(c, f);
    DepartKeepsInv(offered, i, t);
    FinishShape(offered, i, t);
    DepartQueued(offered, i, t);
    Finish(Depart(offered, i, t), t)
  }

  /** The frame the interface is to send next. */
  ghost predicate IsNext(c: Pipeline, i: nat, e: Emission)
    requires i < |c.pending| && c.pending[i] <= c.transfers.Keys
  {
    && e.frame.t in c.pending[i]
    && var tr := c.transfers[e.frame.t];
       && (forall u :: u in c.pending[i] ==>
                         tr.msb < c.transfers[u].msb || (tr.msb == c.transfers[u].msb && e.frame.t <= u))
       && i < |tr.cursors|
       && e == Emission(i, FrameId(e.frame.t, tr.cursors[i]), tr.msb, c.node, tr.MultiFrame())
  }

  lemma {:induction false} FinishKeepsLog(c: Pipeline, t: nat)
    requires t in c.transfers
    ensures Finish(c, t).log == c.log
  {
  }

  lemma {:induction false} SentIsNext(c: Pipeline, i: nat, a: Answer)
    requires Inv(c) && i < |c.pending| && c.pending[i] != {}
    ensures c.pending[i] <= c.transfers.Keys
    ensures var d := Sent(c, i, a);
            |d.log| == |c.log| + 1 && d.log[..|c.log|] == c.log && IsNext(c, i, d.log[|c.log|])
  {
    PendingIsQueued(c, i);
    var t := MostUrgent(c, i);
    var f := FrameId(t, c.transfers[t].cursors[i]);
    var offered := if a.retained then Retain(c, f) else c;
    OfferShape(c, f);
    DepartQueued(offered, i, t);
    FinishKeepsLog(Depart(offered, i, t), t);
    assert Depart(offered, i, t).log
           == c.log + [Emission(i, f, c.transfers[t].msb, c.node, c.transfers[t].MultiFrame())];
    hide Inv, Depart, Retain, Finish;
  }

  lemma {:induction false} EjectUnfold(c: Pipeline, i: nat, answers: seq<Answer>)
    requires Inv(c) && i < |c.pending| && c.pending[i] != {} && answers != [] && answers[0].accepted
    ensures Eject(c, i, answers) == Eject(Sent(c, i, answers[0]), i, answers[1..])
  {
    hide Inv, Depart, Retain, Finish, MostUrgent;
  }

  lemma {:induction false} EjectStops(c: Pipeline, i: nat, answers: seq<Answer>)
    requires Inv(c) && i < |c.pending| && (c.pending[i] == {} || Taken(answers) == 0)
    ensures Eject(c, i, answers).log == c.log && Eject(c, i, answers).pending == c.pending
    ensures Eject(c, i, []) == c
  {
    hide Inv, Depart, Finish, MostUrgent;
  }

  /** As many frames leave as the driver takes, unless the interface runs out of them. */
  lemma {:induction false} EjectSends(c: Pipeline, i: nat, answers: seq<Answer>)
    requires Inv(c) && i < |c.pending|
    ensures var d := Eject(c, i, answers);
            && i < |d.pending| && |c.log| <= |d.log| <= |c.log| + Taken(answers) && d.log[..|c.log|] == c.log
            && (|d.log| < |c.log| + Taken(answers) ==> d.pending[i] == {})
    decreases |answers|
  {
    hide Inv, Eject, Sent;
    if c.pending[i] == {} || Taken(answers) == 0 {
      EjectStops(c, i, answers);
      assert c.log[..|c.log|] == c.log;
    } else {
      var n := Sent(c, i, answers[0]);
      EjectUnfold(c, i, answers);
      SentIsNext(c, i, answers[0]);
      EjectSends(n, i, answers[1..]);
      assert Eject(c, i, answers).log[..|n.log|][..|c.log|] == Eject(c, i, answers).log[..|c.log|];
    }
  }

  /** Every frame that leaves is, at that moment, the least of its interface by (CAN ID, age), taken at its cursor. */
  lemma {:induction false} MostUrgentFirst(c: Pipeline, i: nat, answers: seq<Answer>, n: nat)
    requires Inv(c) && i < |c.pending| && |c.log| + n < |Eject(c, i, answers).log|
    ensures n < |answers|
    ensures var s := Eject(c, i, answers[..n]);
            && Inv(s) && i < |s.pending| && s.pending[i] <= s.transfers.Keys
            && IsNext(s, i, Eject(c, i, answers).log[|c.log| + n])
    decreases n
  {
    hide Inv, Eject, Sent, IsNext;
    EjectSends(c, i, answers);
    if c.pending[i] == {} || Taken(answers) == 0 {
      EjectStops(c, i, answers);
    } else {
      var d, next := Eject(c, i, answers), Sent(c, i, answers[0]);
      EjectUnfold(c, i, answers);
      SentIsNext(c, i, answers[0]);
      EjectSends(next, i, answers[1..]);
      if n == 0 {
        EjectStops(c, i, []);
        assert answers[..0] == [];
        assert d.log[|c.log|] == d.log[..|next.log|][|c.log|];
      } else {
        MostUrgentFirst(next, i, answers[1..], n - 1);
        EjectUnfold(c, i, answers[..n]);
        assert answers[..n][1..] == answers[1..][..n - 1];
      }
    }
  }

  lemma FinishKeepsHolds(c: Pipeline, t: nat)
    requires t in c.transfers
    ensures Finish(c, t).holds == c.holds
  {
  }

  /** Offers are made one by one, up to the first that is refused. */
  lemma {:induction false} EjectTurns(c: Pipeline, i: nat, answers: seq<Answer>)
    requires Inv(c) && i < |c.pending| && c.pending[i] != {} && answers != []
    ensures var d := Eject(c, i, [answers[0]]);
            && Inv(d) && |d.pending| == |c.pending|
            && Eject(c, i, answers) == if answers[0].accepted then Eject(d, i, answers[1..]) else d
  {
    EjectKeepsInv(c, i, [answers[0]]);
    if answers[0].accepted {
      EjectUnfold(c, i, answers);
      EjectUnfold(c, i, [answers[0]]);
      assert [answers[0]][1..] == [];
      EjectStops(Sent(c, i, answers[0]), i, []);
    }
    hide Inv, Depart, Retain, Finish, MostUrgent, Sent;
  }

  lemma {:induction false} SentHolds(c: Pipeline, i: nat, a: Answer, f: FrameId)
    requires Inv(c) && i < |c.pending| && c.pending[i] != {}
    ensures c.pending[i] <= c.transfers.Keys
    ensures var t := MostUrgent(c, i);
            && i < |c.transfers[t].cursors|
            && Held(Sent(c, i, a), f)
               == Held(c, f) + if a.retained && f == FrameId(t, c.transfers[t].cursors[i]) then 1 else 0
  {
    PendingIsQueued(c, i);
    var t := MostUrgent(c, i);
    var g := FrameId(t, c.transfers[t].cursors[i]);
    var offered := if a.retained then Retain(c, g) else c;
    OfferShape(c, g);
    DepartQueued(offered, i, t);
    FinishKeepsHolds(Depart(offered, i, t), t);
    NextFrameLives(c, i, t);
    hide Inv, Finish, DecRef, MostUrgent;
  }

  lemma {:induction false} RefusedIsOffered(c: Pipeline, i: nat, a: Answer)
    requires Inv(c) && i < |c.pending| && c.pending[i] != {} && !a.accepted
    ensures c.pending[i] <= c.transfers.Keys
    ensures var t := MostUrgent(c, i);
            && i < |c.transfers[t].cursors|
            && FrameId(t, c.transfers[t].cursors[i]) in c.refs
            && Eject(c, i, [a]) == if a.retained then Retain(c, FrameId(t, c.transfers[t].cursors[i])) else c
  {
    PendingIsQueued(c, i);
    NextFrameLives(c, i, MostUrgent(c, i));
    hide Inv, Finish, DecRef, MostUrgent, Depart, Retain;
  }

  /** Of the frame it is offered the driver holds what it keeps, whether or not it takes it. */
  lemma {:induction false} KeptFramesAreHeld(c: Pipeline, i: nat, a: Answer, f: FrameId)
    requires Inv(c) && i < |c.pending| && c.pending[i] != {}
    ensures c.pending[i] <= c.transfers.Keys
    ensures var t := MostUrgent(c, i);
            && i < |c.transfers[t].cursors|
            && Held(Eject(c, i, [a]), f)
               == Held(c, f) + if a.retained && f == FrameId(t, c.transfers[t].cursors[i]) then 1 else 0
  {
    PendingIsQueued(c, i);
    if a.accepted {
      EjectUnfold(c, i, [a]);
      SentHolds(c, i, a, f);
      assert [a][1..] == [];
      EjectStops(Sent(c, i, a), i, []);
    } else {
      RefusedIsOffered(c, i, a);
    }
    hide Inv, Eject, Sent, MostUrgent;
  }

  /** A refused frame stays where it is, in the queue and in its indices. */
  lemma {:induction false} RefusedFrameStays(c: Pipeline, i: nat, a: Answer)
    requires Inv(c) && i < |c.pending| && !a.accepted
    ensures var d := Eject(c, i, [a]);
            && d.transfers == c.transfers && d.pending == c.pending && d.deadlines == c.deadlines
            && d.agewise == c.agewise && d.queueSize == c.queueSize && d.log == c.log && d.node == c.node
            && d.refs.Keys == c.refs.Keys && (!a.retained ==> d == c)
  {
    if c.pending[i] != {} {
      RefusedIsOffered(c, i, a);
    }
    hide Inv, MostUrgent;
  }

  lemma {:induction false} NextFrameLives(c: Pipeline, i: nat, t: nat)
    requires Inv(c) && i < |c.pending| && t in c.pending[i] && t in c.transfers && i < |c.transfers[t].cursors|
    requires c.transfers[t].cursors[i] < c.transfers[t].frames
    ensures FrameId(t, c.transfers[t].cursors[i]) in c.refs
  {
    var f := FrameId(t, c.transfers[t].cursors[i]);
    assert CountedAt(c, f);
    CountReachMoved(c.transfers[t].cursors, i, f.k);
  }
}
