/** Agreement on the allocation state of one topic by exchanging gossip. */
module GossipConvergence {
  import opened Ages
  import opened Wire

  /** The part of the state that travels. */
  datatype Claim = Claim(lage: int, evictions: nat)

  predicate Older(a: Claim, b: Claim) {
    a.lage > b.lage || (a.lage == b.lage && a.evictions > b.evictions)
  }

  function Join(a: Claim, b: Claim): Claim { if Older(b, a) then b else a }

  // ---------------------------------------------------------------- one replica

  /** What the local merge decides: the claim after it, and whether the local topic kept its subject. */
  datatype Merged = Merged(tsOrigin: int, evictions: nat, win: bool)

  /** A remote claim against a local topic whose new subject is free. */
  function UpdateState(tsOrigin: int, evictions: nat, now: int, remote: Claim): Merged {
    var lage := Lage(tsOrigin, now);
    var win := lage > remote.lage || (lage == remote.lage && evictions > remote.evictions);
    Merged(Min(tsOrigin, now - LageToUS(remote.lage)),
           if evictions == remote.evictions || win then evictions else remote.evictions,
           evictions != remote.evictions && win)
  }

  /** The merge of a local topic computes the join of the two claims. */
  lemma {:induction false} MergeIsJoin(tsOrigin: int, evictions: nat, now: int, remote: Claim)
    requires LAGE_MIN <= remote.lage <= LAGE_MAX
    ensures var m := UpdateState(tsOrigin, evictions, now, remote);
            Claim(Lage(m.tsOrigin, now), m.evictions) == Join(Claim(Lage(tsOrigin, now), evictions), remote)
  {
    MergedAgeIsMax(tsOrigin, now, remote.lage);
  }

  /** The stored state of a topic in the replicated table. */
  class TopicState {
    var logAge: int
    var evictions: nat

    constructor (logAge: int, evictions: nat)
      ensures Value() == Claim(logAge, evictions)
    {
      this.logAge, this.evictions := logAge, evictions;
    }

    function Value(): Claim
      reads this
    {
      Claim(logAge, evictions)
    }

    /** Reports whether the remote claim was adopted. */
    method Merge(remoteLogAge: int, remoteEvictions: nat) returns (changed: bool)
      modifies this
      ensures Value() == Join(old(Value()), Claim(remoteLogAge, remoteEvictions))
      ensures changed <==> Value() != old(Value())
    {
      if remoteLogAge < logAge {
        return false;
      } else if remoteLogAge > logAge {
        logAge := remoteLogAge;
        evictions := remoteEvictions;
        return true;
      } else {
        if remoteEvictions > evictions {
          evictions := remoteEvictions;
          return true;
        }
        return false;
      }
    }
  }

  // ---------------------------------------------------------------- many replicas

  /** A claim, and the replicas whose first claims have gone into it. */
  datatype Letter = Letter(claim: Claim, sources: set<nat>)

  /** What every replica holds, and every gossip sent so far: it may arrive late, repeatedly or never. */
  datatype World = World(replicas: seq<Letter>, sent: seq<Letter>)

  datatype Event = Send(from: nat) | Arrive(message: nat, to: nat)

  function Start(claims: seq<Claim>): World {
    World(seq(|claims|, i requires 0 <= i < |claims| => Letter(claims[i], {i})), [])
  }

  function Step(w: World, e: Event): (v: World)
    ensures |v.replicas| == |w.replicas|
  {
    match e
    case Send(from) =>
      if from < |w.replicas| then w.(sent := w.sent + [w.replicas[from]]) else w
    case Arrive(message, to) =>
      if message < |w.sent| && to < |w.replicas| then
        var mine, theirs := w.replicas[to], w.sent[message];
        w.(replicas := w.replicas[to := Letter(Join(mine.claim, theirs.claim), mine.sources + theirs.sources)])
      else w
  }

  function After(claims: seq<Claim>, run: seq<Event>): (w: World)
    ensures |w.replicas| == |claims|
  {
    if run == [] then Start(claims) else Step(After(claims, run[..|run| - 1]), run[|run| - 1])
  }

  /** The letter holds the greatest of the first claims of its sources. */
  ghost predicate Greatest(claims: seq<Claim>, l: Letter) {
    && (exists i :: i in l.sources && i < |claims| && claims[i] == l.claim)
    && (forall i :: i in l.sources && i < |claims| ==> !Older(claims[i], l.claim))
  }

  lemma {:induction false} GreatestIsUnique(claims: seq<Claim>, a: Letter, b: Letter)
    requires Greatest(claims, a) && Greatest(claims, b) && a.sources == b.sources
    ensures a == b
  {
  }

  lemma {:induction false} GreatestOfUnion(claims: seq<Claim>, a: Letter, b: Letter)
    requires Greatest(claims, a) && Greatest(claims, b)
    ensures Greatest(claims, Letter(Join(a.claim, b.claim), a.sources + b.sources))
  {
  }

  ghost predicate AllGreatest(claims: seq<Claim>, w: World) {
    && (forall i :: 0 <= i < |w.replicas| ==> Greatest(claims, w.replicas[i]))
    && (forall i :: 0 <= i < |w.sent| ==> Greatest(claims, w.sent[i]))
  }

  /** In every run each replica holds exactly the greatest claim that has reached it. */
  lemma {:induction false} HoldsGreatest(claims: seq<Claim>, run: seq<Event>)
    ensures AllGreatest(claims, After(claims, run))
  {
    if run == [] {
      forall i | 0 <= i < |claims| ensures Greatest(claims, Start(claims).replicas[i]) {
        assert i in Start(claims).replicas[i].sources;
      }
    } else {
      var was, last := After(claims, run[..|run| - 1]), run[|run| - 1];
      HoldsGreatest(claims, run[..|run| - 1]);
      if last.Arrive? && last.message < |was.sent| && last.to < |was.replicas| {
        GreatestOfUnion(claims, was.replicas[last.to], was.sent[last.message]);
      }
      hide Greatest, Join;
    }
  }

  /** Replicas reached by the same claims agree, whatever the order, the repetitions and the relays. */
  lemma {:induction false} SameGossipSameState(claims: seq<Claim>, run: seq<Event>, other: seq<Event>, i: nat, j: nat)
    requires i < |claims| && j < |claims|
    requires After(claims, run).replicas[i].sources == After(claims, other).replicas[j].sources
    ensures After(claims, run).replicas[i].claim == After(claims, other).replicas[j].claim
  {
    HoldsGreatest(claims, run);
    HoldsGreatest(claims, other);
    GreatestIsUnique(claims, After(claims, run).replicas[i], After(claims, other).replicas[j]);
    hide After, Greatest;
  }
}
