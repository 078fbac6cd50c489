/** One node's topics and their subject index, reallocated in place and merged with gossip. */
module TopicNode {
  import opened Ages
  import opened Wire
  import A = TopicAllocation
  import G = GossipConvergence

  class Topic {
    const hash: nat
    var tsOrigin: int
    var logAge: int
    var evictions: nat
    var pinned: bool
    var subjectID: nat

    /** A pinned topic keeps the subject its name asks for; another one starts at the subject of counter 0. */
    constructor (hash: nat, modulus: nat, pin: nat)
      requires modulus > 0
      ensures this.hash == hash && (pinned <==> pin <= A.SUBJECT_PINNED_MAX)
      ensures pinned ==> subjectID == pin && evictions == A.UINT32_MAX - pin
      ensures !pinned ==> subjectID == A.SubjectID(hash, 0, modulus) && evictions == 0
    {
      this.hash := hash;
      tsOrigin, logAge := 0, LAGE_MIN;
      if pin <= A.SUBJECT_PINNED_MAX {
        pinned, subjectID, evictions := true, pin, A.UINT32_MAX - pin;
      } else {
        pinned, subjectID, evictions := false, A.SubjectID(hash, 0, modulus), 0;
      }
    }

    ghost function Info(now: int): A.Topic
      reads this
    {
      A.Topic(hash, Lage(tsOrigin, now), evictions, pinned, subjectID)
    }

    ghost function Claim(now: int): G.Claim
      reads this
    {
      G.Claim(Lage(tsOrigin, now), evictions)
    }

    /** Initial state from an age and a counter; the age comes back as it was given. */
    method SetOriginAt(now: int, lage: int, evictions: nat)
      requires LAGE_MIN <= lage <= LAGE_MAX
      modifies `tsOrigin, `logAge, `evictions
      ensures Claim(now) == G.Claim(lage, evictions) && logAge == lage
    {
      this.evictions := evictions;
      tsOrigin := now - LageToUS(lage);
      LageRoundTrip(lage);
      logAge := Lage(tsOrigin, now);
    }

    method MergeLageAt(now: int, rLage: int)
      requires LAGE_MIN <= rLage <= LAGE_MAX
      modifies `tsOrigin, `logAge
      ensures tsOrigin == Min(old(tsOrigin), now - LageToUS(rLage))
      ensures logAge == Lage(tsOrigin, now) == Max(Lage(old(tsOrigin), now), rLage)
    {
      MergedAgeIsMax(tsOrigin, now, rLage);
      var otherOrigin := now - LageToUS(rLage);
      if otherOrigin < tsOrigin {
        tsOrigin := otherOrigin;
      }
      logAge := Lage(tsOrigin, now);
    }

    method UpdateState(now: int, otherLogAge: int, otherEvictions: nat) returns (win: bool)
      requires LAGE_MIN <= otherLogAge <= LAGE_MAX
      modifies `tsOrigin, `logAge
      ensures tsOrigin == Min(old(tsOrigin), now - LageToUS(otherLogAge)) && logAge == Lage(tsOrigin, now)
      ensures win == G.UpdateState(old(tsOrigin), evictions, now, G.Claim(otherLogAge, otherEvictions)).win
    {
      var mineLage := Lage(tsOrigin, now);
      MergeLageAt(now, otherLogAge);
      if evictions != otherEvictions {
        return mineLage > otherLogAge || (mineLage == otherLogAge && evictions > otherEvictions);
      }
      return false;
    }
  }

  class Node {
    const modulus: nat
    var topicsBySubjectID: map<nat, Topic>
    ghost var topics: set<Topic>

    constructor (modulus: nat)
      requires modulus > 0
      ensures this.modulus == modulus && topics == {} && topicsBySubjectID == map[]
    {
      this.modulus := modulus;
      topicsBySubjectID, topics := map[], {};
    }

    ghost function Value(now: int): A.State<Topic>
      reads this, topics
    {
      A.State(map t | t in topics :: t.Info(now), topicsBySubjectID)
    }

    method Remove(topic: Topic, now: int)
      requires topic in topics
      modifies `topicsBySubjectID
      ensures Value(now) == A.Unindex(old(Value(now)), topic)
    {
      if !topic.pinned {
        topicsBySubjectID := topicsBySubjectID - {topic.subjectID};
      }
    }

    method Pin(topic: Topic, newEvictions: nat, now: int)
      requires topic in topics && newEvictions <= A.UINT32_MAX
      modifies topic`evictions, topic`pinned, topic`subjectID
      ensures Value(now) == A.Pin(old(Value(now)), topic, newEvictions)
    {
      topic.evictions := newEvictions;
      topic.pinned := true;
      topic.subjectID := A.UINT32_MAX - newEvictions;
    }

    method Settle(topic: Topic, newEvictions: nat, newSid: nat, now: int)
      requires topic in topics
      modifies `topicsBySubjectID, topic`evictions, topic`pinned, topic`subjectID
      ensures Value(now) == A.Settle(old(Value(now)), topic, newEvictions, newSid)
    {
      topic.evictions := newEvictions;
      topic.pinned := false;
      topic.subjectID := newSid;
      topicsBySubjectID := topicsBySubjectID[newSid := topic];
    }

    /** The occupant of a subject, unless it is the topic itself. */
    method Find(topic: Topic, newSid: nat, now: int) returns (that: Topic?)
      requires A.Truthful(Value(now))
      ensures that == null ==> A.Occupant(Value(now), topic, newSid) == None
      ensures that != null ==> that in topics && that.evictions < A.PINNED_MIN
      ensures that != null ==> A.Occupant(Value(now), topic, newSid) == Some(that)
    {
      that := null;
      if newSid in topicsBySubjectID && topicsBySubjectID[newSid] != topic {
        that := topicsBySubjectID[newSid];
        IndexedIsKnown(Value(now), newSid);
      }
    }

    lemma Known(topic: Topic, now: int)
      requires topic in topics
      ensures topic in Value(now).topics && Value(now).topics[topic] == topic.Info(now)
    {
    }

    method Allocate(topic: Topic, newEvictions: nat, now: int)
      requires topic in topics && modulus > 0 && newEvictions <= A.UINT32_MAX && A.Truthful(Value(now))
      modifies `topicsBySubjectID, topics`evictions, topics`pinned, topics`subjectID
      ensures topic in old(Value(now)).topics
      ensures Value(now) == A.Allocate(old(Value(now)), topic, newEvictions, modulus).state
      decreases A.Rank(Value(now).topics, topic), A.PINNED_MIN - newEvictions
    {
      hide A.Truthful, A.Rank, A.SubjectID, A.LeftWins, A.Occupant, Value, A.Settle, A.Pin, A.Unindex;
      Known(topic, now);
      ghost var s := Value(now);
      A.UnindexTruthful(s, topic);
      Remove(topic, now);
      if newEvictions >= A.PINNED_MIN {
        Pin(topic, newEvictions, now);
        return;
      }
      var newSid := A.SubjectID(topic.hash, newEvictions, modulus);
      var that := Find(topic, newSid, now);
      if that == null {
        Settle(topic, newEvictions, newSid, now);
      } else if Wins(topic, that, now) {
        Known(that, now);
        A.Displacing(s, topic, newEvictions, modulus);
        Settle(topic, newEvictions, newSid, now);
        Known(that, now);
        Allocate(that, that.evictions + 1, now);
      } else {
        Known(that, now);
        A.Retrying(s, topic, newEvictions, modulus);
        Allocate(topic, newEvictions + 1, now);
      }
    }

    /** The collisions a new topic meets are those of the model's creation. */
    method CreateTopic(hash: nat, pin: nat, now: int) returns (topic: Topic)
      requires modulus > 0 && A.Truthful(Value(now))
      modifies this, topics
      ensures fresh(topic) && topics == old(topics) + {topic}
      ensures topic !in old(Value(now)).topics && A.Truthful(old(Value(now)))
      ensures Value(now) == A.Create(old(Value(now)), topic, hash, LAGE_MIN, pin, modulus)
    {
      hide A.Truthful, A.SubjectID, A.Allocate;
      ghost var s := Value(now);
      topic := new Topic(hash, modulus, pin);
      topic.SetOriginAt(now, LAGE_MIN, topic.evictions);
      topics := topics + {topic};
      assert Value(now).topics == A.Newborn(s, topic, hash, LAGE_MIN, pin, modulus).topics;
      A.NewbornTruthful(s, topic, hash, LAGE_MIN, pin, modulus);
      Allocate(topic, topic.evictions, now);
    }

    method Refresh(mine: Topic, lage: int, evictions: nat, now: int) returns (win: bool)
      requires mine in topics && LAGE_MIN <= lage <= LAGE_MAX
      modifies mine`tsOrigin, mine`logAge
      ensures Value(now) == Aged(old(Value(now)), mine, lage)
      ensures win == G.UpdateState(old(mine.tsOrigin), mine.evictions, now, G.Claim(lage, evictions)).win
    {
      MergedAgeIsMax(mine.tsOrigin, now, lage);
      win := mine.UpdateState(now, lage, evictions);
    }

    /**
     * Gossip about a topic this node has. The claims are joined unless the remote counter leads to
     * a subject that an older local topic holds.
     */
    method OnGossipKnownTopic(mine: Topic, evictions: nat, lage: int, now: int)
      requires mine in topics && modulus > 0 && evictions <= A.UINT32_MAX && LAGE_MIN <= lage <= LAGE_MAX
      requires A.Truthful(Value(now))
      modifies `topicsBySubjectID, topics
      ensures topics == old(topics) && A.Truthful(Value(now))
      ensures (var claim, joined := old(mine.Claim(now)), G.Join(old(mine.Claim(now)), G.Claim(lage, evictions));
               && mine.Claim(now).lage == joined.lage
               && (joined.evictions == claim.evictions ==> Value(now) == Aged(old(Value(now)), mine, lage))
               && (joined.evictions != claim.evictions ==>
                     Value(now) == A.Allocate(Aged(old(Value(now)), mine, lage), mine, evictions, modulus).state)
               && (mine.Claim(now) == joined <==>
                   joined.evictions == claim.evictions
                   || !A.Retries(Aged(old(Value(now)), mine, lage), mine, evictions, modulus)))
    {
      hide A.Truthful, A.Retries, Value, A.Allocate;
      Known(mine, now);
      ghost var s, aged := Value(now), Aged(Value(now), mine, lage);
      AgedTruthful(s, mine, lage);
      G.MergeIsJoin(mine.tsOrigin, mine.evictions, now, G.Claim(lage, evictions));
      MergedAgeIsMax(mine.tsOrigin, now, lage);
      if mine.evictions != evictions {
        var win := Refresh(mine, lage, evictions, now);
        if !win {
          A.AdoptsUnlessBeaten(aged, mine, evictions, modulus);
          A.AllocateKeepsIndex(aged, mine, evictions, modulus);
          Allocate(mine, evictions, now);
          Known(mine, now);
        }
      } else {
        var win := Refresh(mine, lage, evictions, now);
      }
      Known(mine, now);
    }

    /** Gossip about a topic this node lacks, which may claim a subject in use here. */
    method OnGossipUnknownTopic(hash: nat, evictions: nat, lage: int, now: int)
      requires modulus > 0 && A.Truthful(Value(now))
      modifies `topicsBySubjectID, topics
      ensures topics == old(topics) && A.Truthful(Value(now))
      ensures (var s, subject := old(Value(now)), A.SubjectID(hash, evictions, modulus);
               if subject in s.index && s.index[subject] in s.topics
                  && (s.topics[s.index[subject]].lage < lage
                      || (s.topics[s.index[subject]].lage == lage && s.topics[s.index[subject]].hash >= hash))
               then s.topics[s.index[subject]].evictions < A.PINNED_MIN && A.Truthful(s)
                    && Value(now)
                       == A.Allocate(s, s.index[subject], s.topics[s.index[subject]].evictions + 1, modulus).state
               else Value(now) == s)
    {
      hide A.Truthful, A.Allocate, A.SubjectID;
      var subjectID := A.SubjectID(hash, evictions, modulus);
      if subjectID !in topicsBySubjectID {
        return;
      }
      var mine := topicsBySubjectID[subjectID];
      ghost var s := Value(now);
      IndexedIsKnown(s, subjectID);
      var mineLage := Lage(mine.tsOrigin, now);
      var win := if mineLage != lage then mineLage > lage else mine.hash < hash;
      if !win {
        A.AllocateKeepsIndex(s, mine, mine.evictions + 1, modulus);
        Allocate(mine, mine.evictions + 1, now);
      }
    }
  }

  /** The state once a topic is at least as old as a remote says. */
  ghost function Aged(s: A.State<Topic>, t: Topic, lage: int): A.State<Topic>
    requires t in s.topics
  {
    s.(topics := s.topics[t := s.topics[t].(lage := Max(s.topics[t].lage, lage))])
  }

  lemma {:induction false} AgedTruthful(s: A.State<Topic>, t: Topic, lage: int)
    requires A.Truthful(s) && t in s.topics
    ensures A.Truthful(Aged(s, t, lage))
  {
  }

  function Wins(a: Topic, b: Topic, now: int): (w: bool)
    reads a, b
    ensures w == A.LeftWins(a.Info(now), b.Info(now))
  {
    var l, r := Lage(a.tsOrigin, now), Lage(b.tsOrigin, now);
    if l != r then l > r else a.hash < b.hash
  }

  lemma {:induction false} IndexedIsKnown(s: A.State<Topic>, subject: nat)
    requires A.Truthful(s) && subject in s.index
    ensures s.index[subject] in s.topics && s.topics[s.index[subject]].evictions < A.PINNED_MIN
  {
  }
}
