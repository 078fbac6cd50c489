/** Assignment of subject identifiers to topics: probing, arbitration and recursive eviction. */
module TopicAllocation {
  import opened Arith
  import opened Primes
  import opened Sets
  import opened Wire

  /** Eviction counters from here on name a pinned subject directly. */
  const PINNED_MIN: nat := 0xFFFF_E000

  const UINT32_MAX: nat := 0xFFFF_FFFF

  const SUBJECT_PINNED_MAX: nat := 0x1FFF

  /** The age is the logarithmic one at the moment of the call. */
  datatype Topic = Topic(hash: nat, lage: int, evictions: nat, pinned: bool, subjectID: nat)

  datatype State<T(==)> = State(topics: map<T, Topic>, index: map<nat, T>)

  /** A topic that was given a subject, with the eviction counters it started from and settled at. */
  datatype Move<T> = Move(topic: T, start: nat, end: nat)

  datatype Allocation<T(==)> = Allocation(state: State<T>, moves: seq<Move<T>>)

  /** The older topic wins a collision, then the smaller hash. */
  predicate LeftWins(a: Topic, b: Topic) {
    if a.lage != b.lage then a.lage > b.lage else a.hash < b.hash
  }

  function SubjectID(hash: nat, evictions: nat, modulus: nat): nat
    requires modulus > 0
  {
    var e := evictions % modulus;
    SUBJECT_PINNED_MAX + 1 + (hash % modulus + e * e % modulus) % modulus
  }

  /** What the index promises: its entries are unpinned topics at their own subjects. */
  ghost predicate Truthful<T>(s: State<T>) {
    forall i :: i in s.index ==>
                  && s.index[i] in s.topics
                  && s.topics[s.index[i]].subjectID == i
                  && !s.topics[s.index[i]].pinned
                  && s.topics[s.index[i]].evictions < PINNED_MIN
  }

  function Unindex<T>(s: State<T>, t: T): State<T>
    requires t in s.topics
  {
    if s.topics[t].pinned then s else s.(index := s.index - {s.topics[t].subjectID})
  }

  function Pin<T>(s: State<T>, t: T, evictions: nat): State<T>
    requires t in s.topics && evictions <= UINT32_MAX
  {
    s.(topics := s.topics[t := s.topics[t].(evictions := evictions, pinned := true,
                                            subjectID := UINT32_MAX - evictions)])
  }

  function Settle<T>(s: State<T>, t: T, evictions: nat, subject: nat): State<T>
    requires t in s.topics
  {
    State(s.topics[t := s.topics[t].(evictions := evictions, pinned := false, subjectID := subject)],
          s.index[subject := t])
  }

  /** The other topic at a subject, if there is one. */
  function Occupant<T(==)>(s: State<T>, t: T, subject: nat): Option<T> {
    if subject in s.index && s.index[subject] != t then Some(s.index[subject]) else None
  }

  /** How many topics this one wins against. */
  ghost function Rank<T>(topics: map<T, Topic>, t: T): nat
    requires t in topics
  {
    |Losers(topics, t)|
  }

  ghost function Losers<T>(topics: map<T, Topic>, t: T): set<T>
    requires t in topics
  {
    set u | u in topics && LeftWins(topics[t], topics[u])
  }

  /** Hashes and ages are the same. */
  ghost predicate SameTopics<T>(a: map<T, Topic>, b: map<T, Topic>) {
    a.Keys == b.Keys && forall t :: t in a ==> a[t].hash == b[t].hash && a[t].lage == b[t].lage
  }

  lemma {:induction false} RankFalls<T>(topics: map<T, Topic>, a: T, b: T)
    requires a in topics && b in topics && LeftWins(topics[a], topics[b])
    ensures Rank(topics, b) < Rank(topics, a)
  {
    assert Losers(topics, b) <= Losers(topics, a) - {b};
    SubsetSize(Losers(topics, b), Losers(topics, a) - {b});
  }

  lemma {:induction false} RankIsStable<T>(a: map<T, Topic>, b: map<T, Topic>, t: T)
    requires SameTopics(a, b) && t in a
    ensures Rank(a, t) == Rank(b, t)
  {
    assert Losers(a, t) == Losers(b, t);
  }

  lemma {:induction false} UnindexTruthful<T>(s: State<T>, t: T)
    requires Truthful(s) && t in s.topics
    ensures Unindex(s, t).topics == s.topics
    ensures Truthful(Unindex(s, t)) && forall i :: i in Unindex(s, t).index ==> Unindex(s, t).index[i] != t
  {
  }

  /** The whole allocation. The mover of the last step may be followed by those it displaced. */
  ghost function Allocate<T>(s: State<T>, t: T, evictions: nat, modulus: nat): Allocation<T>
    requires t in s.topics && modulus > 0 && Truthful(s) && evictions <= UINT32_MAX
    decreases Rank(s.topics, t), PINNED_MIN - evictions
  {
    var u := Unindex(s, t);
    UnindexTruthful(s, t);
    if evictions >= PINNED_MIN then Allocation(Pin(u, t, evictions), [Move(t, evictions, evictions)])
    else
      var subject := SubjectID(s.topics[t].hash, evictions, modulus);
      var that := Occupant(u, t, subject);
      if that.None? then Allocation(Settle(u, t, evictions, subject), [Move(t, evictions, evictions)])
      else if LeftWins(s.topics[t], s.topics[that.value]) then
        var v := Settle(u, t, evictions, subject);
        RankFalls(s.topics, t, that.value);
        RankIsStable(s.topics, v.topics, that.value);
        var rest := Allocate(v, that.value, s.topics[that.value].evictions + 1, modulus);
        Allocation(rest.state, [Move(t, evictions, evictions)] + rest.moves)
      else
        var rest := Allocate(u, t, evictions + 1, modulus);
        Allocation(rest.state, StartedAt(rest.moves, evictions))
  }

  function StartedAt<T>(moves: seq<Move<T>>, evictions: nat): seq<Move<T>> {
    if moves == [] then moves else [moves[0].(start := evictions)] + moves[1..]
  }

  // ---------------------------------------------------------------- the two recursive cases

  ghost function Rival<T>(s: State<T>, t: T, evictions: nat, modulus: nat): Option<T>
    requires t in s.topics && modulus > 0
  {
    Occupant(Unindex(s, t), t, SubjectID(s.topics[t].hash, evictions, modulus))
  }

  ghost predicate Displaces<T>(s: State<T>, t: T, evictions: nat, modulus: nat)
    requires t in s.topics && modulus > 0 && Truthful(s)
  {
    && evictions < PINNED_MIN
    && Rival(s, t, evictions, modulus).Some?
    && LeftWins(s.topics[t], s.topics[Rival(s, t, evictions, modulus).value])
  }

  ghost function Loser<T>(s: State<T>, t: T, evictions: nat, modulus: nat): T
    requires t in s.topics && modulus > 0 && Truthful(s) && Displaces(s, t, evictions, modulus)
  {
    Rival(s, t, evictions, modulus).value
  }

  ghost predicate Retries<T>(s: State<T>, t: T, evictions: nat, modulus: nat)
    requires t in s.topics && modulus > 0 && Truthful(s)
  {
    && evictions < PINNED_MIN
    && Rival(s, t, evictions, modulus).Some?
    && !LeftWins(s.topics[t], s.topics[Rival(s, t, evictions, modulus).value])
  }

  ghost function Settled<T>(s: State<T>, t: T, evictions: nat, modulus: nat): State<T>
    requires t in s.topics && modulus > 0
  {
    Settle(Unindex(s, t), t, evictions, SubjectID(s.topics[t].hash, evictions, modulus))
  }

  lemma {:induction false} SettleTruthful<T>(u: State<T>, t: T, evictions: nat, subject: nat)
    requires Truthful(u) && t in u.topics && evictions < PINNED_MIN
    requires forall i :: i in u.index ==> u.index[i] != t
    ensures Truthful(Settle(u, t, evictions, subject))
  {
  }

  lemma {:induction false} Displacing<T>(s: State<T>, t: T, evictions: nat, modulus: nat)
    requires t in s.topics && modulus > 0 && Truthful(s) && Displaces(s, t, evictions, modulus)
    ensures var v, that := Settled(s, t, evictions, modulus), Loser(s, t, evictions, modulus);
            && Truthful(v) && SameTopics(s.topics, v.topics) && that in v.topics && that != t
            && Rank(v.topics, that) < Rank(s.topics, t)
            && v.topics[that] == s.topics[that] && v.topics[that].evictions < PINNED_MIN
            && Unindex(v, that).index == Unindex(s, t).index - {SubjectID(s.topics[t].hash, evictions, modulus)}
            && var a := Allocate(s, t, evictions, modulus);
               var rest := Allocate(v, that, s.topics[that].evictions + 1, modulus);
               a.state == rest.state && a.moves == [Move(t, evictions, evictions)] + rest.moves
  {
    var subject, that := SubjectID(s.topics[t].hash, evictions, modulus), Loser(s, t, evictions, modulus);
    UnindexTruthful(s, t);
    SettleTruthful(Unindex(s, t), t, evictions, subject);
    RankFalls(s.topics, t, that);
    RankIsStable(s.topics, Settled(s, t, evictions, modulus).topics, that);
    hide Rank, SubjectID, LeftWins;
  }

  lemma {:induction false} DisplacedIsBeaten<T>(s: State<T>, t: T, evictions: nat, modulus: nat)
    requires t in s.topics && modulus > 0 && Truthful(s) && Displaces(s, t, evictions, modulus)
    ensures LeftWins(s.topics[t], s.topics[Loser(s, t, evictions, modulus)])
  {
  }

  /** What the loser sees is the index without the entry it lost. */
  lemma {:induction false} SeenByLoser<T>(s: State<T>, t: T, evictions: nat, modulus: nat)
    requires t in s.topics && modulus > 0 && Truthful(s) && Displaces(s, t, evictions, modulus)
    ensures var u, w := Unindex(s, t), Unindex(Settled(s, t, evictions, modulus), Loser(s, t, evictions, modulus));
            && u.topics == s.topics && u.topics.Keys == w.topics.Keys
              && (forall x :: x in u.topics && x != t ==> w.topics[x] == u.topics[x])
            && exists i :: i in u.index && u.index[i] == Loser(s, t, evictions, modulus)
  {
  }

  lemma {:induction false} Retrying<T>(s: State<T>, t: T, evictions: nat, modulus: nat)
    requires t in s.topics && modulus > 0 && Truthful(s) && Retries(s, t, evictions, modulus)
    ensures var u := Unindex(s, t);
            && evictions < PINNED_MIN && Truthful(u) && u.topics == s.topics && Unindex(u, t) == u
            && var a, rest := Allocate(s, t, evictions, modulus), Allocate(u, t, evictions + 1, modulus);
               a.state == rest.state && a.moves == StartedAt(rest.moves, evictions)
  {
    UnindexTruthful(s, t);
    assert Unindex(Unindex(s, t), t).index == Unindex(s, t).index;
    hide Rank, SubjectID, LeftWins;
  }

  /** Otherwise the topic ends up pinned, or at a subject nobody holds. */
  lemma {:induction false} Ending<T>(s: State<T>, t: T, evictions: nat, modulus: nat)
    requires t in s.topics && modulus > 0 && Truthful(s) && evictions <= UINT32_MAX
    requires !Displaces(s, t, evictions, modulus) && !Retries(s, t, evictions, modulus)
    ensures var a, u := Allocate(s, t, evictions, modulus), Unindex(s, t);
            && a.moves == [Move(t, evictions, evictions)] && Truthful(a.state) && SameTopics(s.topics, a.state.topics)
            && if evictions >= PINNED_MIN then a.state.index == u.index
               else a.state.index == u.index[SubjectID(s.topics[t].hash, evictions, modulus) := t]
  {
    UnindexTruthful(s, t);
    if evictions < PINNED_MIN {
      SettleTruthful(Unindex(s, t), t, evictions, SubjectID(s.topics[t].hash, evictions, modulus));
    }
    hide Rank, SubjectID, LeftWins;
  }

  // ---------------------------------------------------------------- the index stays truthful

  /** No call breaks the index, and only movers change. */
  lemma {:induction false} AllocateKeepsIndex<T>(s: State<T>, t: T, evictions: nat, modulus: nat)
    requires t in s.topics && modulus > 0 && Truthful(s) && evictions <= UINT32_MAX
    ensures Truthful(Allocate(s, t, evictions, modulus).state)
    ensures SameTopics(s.topics, Allocate(s, t, evictions, modulus).state.topics)
    decreases Rank(s.topics, t), PINNED_MIN - evictions
  {
    hide Allocate, Truthful, Rank, Displaces, Retries, Settled, Unindex, Loser, SubjectID;
    var u, v := Unindex(s, t), Settled(s, t, evictions, modulus);
    if Displaces(s, t, evictions, modulus) {
      var that := Loser(s, t, evictions, modulus);
      Displacing(s, t, evictions, modulus);
      AllocateKeepsIndex(v, that, v.topics[that].evictions + 1, modulus);
    } else if Retries(s, t, evictions, modulus) {
      Retrying(s, t, evictions, modulus);
      AllocateKeepsIndex(u, t, evictions + 1, modulus);
    } else {
      Ending(s, t, evictions, modulus);
    }
  }

  // ---------------------------------------------------------------- the chain of movers

  ghost predicate Chain<T>(topics: map<T, Topic>, moves: seq<Move<T>>) {
    && moves != []
    && (forall k :: 0 <= k < |moves| ==> moves[k].topic in topics)
    && (forall k :: 0 < k < |moves| ==> LeftWins(topics[moves[k - 1].topic], topics[moves[k].topic]))
  }

  lemma {:induction false} ChainOn<T>(a: map<T, Topic>, b: map<T, Topic>, moves: seq<Move<T>>)
    requires SameTopics(a, b) && Chain(a, moves)
    ensures Chain(b, moves)
  {
  }

  /** The movers fall in the order of the arbitration, each displaced by the one before. */
  lemma {:induction false} MoversFall<T>(s: State<T>, t: T, evictions: nat, modulus: nat)
    requires t in s.topics && modulus > 0 && Truthful(s) && evictions <= UINT32_MAX
    ensures var moves := Allocate(s, t, evictions, modulus).moves;
            Chain(s.topics, moves) && moves[0].topic == t && moves[0].start == evictions
    decreases Rank(s.topics, t), PINNED_MIN - evictions
  {
    hide Allocate, Truthful, Rank, Displaces, Retries, Settled, Unindex, Loser, SubjectID;
    var u, v := Unindex(s, t), Settled(s, t, evictions, modulus);
    if Displaces(s, t, evictions, modulus) {
      var that := Loser(s, t, evictions, modulus);
      Displacing(s, t, evictions, modulus);
      DisplacedIsBeaten(s, t, evictions, modulus);
      MoversFall(v, that, v.topics[that].evictions + 1, modulus);
      ChainOn(v.topics, s.topics, Allocate(v, that, v.topics[that].evictions + 1, modulus).moves);
    } else if Retries(s, t, evictions, modulus) {
      Retrying(s, t, evictions, modulus);
      MoversFall(u, t, evictions + 1, modulus);
    } else {
      Ending(s, t, evictions, modulus);
    }
  }

  lemma {:induction false} ChainIsTransitive<T>(topics: map<T, Topic>, moves: seq<Move<T>>, i: nat, j: nat)
    requires Chain(topics, moves) && i < j < |moves|
    ensures LeftWins(topics[moves[i].topic], topics[moves[j].topic])
    decreases j
  {
    if i < j - 1 {
      ChainIsTransitive(topics, moves, i, j - 1);
      assert LeftWins(topics[moves[j - 1].topic], topics[moves[j].topic]);
    }
  }

  /** Within one call no topic moves twice. */
  lemma {:induction false} NoneMovesTwice<T>(s: State<T>, t: T, evictions: nat, modulus: nat, i: nat, j: nat)
    requires t in s.topics && modulus > 0 && Truthful(s) && evictions <= UINT32_MAX
    requires i < j < |Allocate(s, t, evictions, modulus).moves|
    ensures var moves := Allocate(s, t, evictions, modulus).moves;
            && moves[i].topic in s.topics && moves[j].topic in s.topics
            && (var a, b := s.topics[moves[i].topic], s.topics[moves[j].topic];
                a.lage > b.lage || (a.lage == b.lage && a.hash < b.hash))
            && moves[i].topic != moves[j].topic
  {
    MoversFall(s, t, evictions, modulus);
    ChainIsTransitive(s.topics, Allocate(s, t, evictions, modulus).moves, i, j);
    hide Allocate;
  }

  // ---------------------------------------------------------------- only the movers change

  ghost predicate IsMover<T>(moves: seq<Move<T>>, x: T) {
    exists k :: 0 <= k < |moves| && moves[k].topic == x
  }

  lemma {:induction false} SameMovers<T>(moves: seq<Move<T>>, evictions: nat, x: T)
    ensures IsMover(StartedAt(moves, evictions), x) <==> IsMover(moves, x)
  {
    if moves != [] {
      assert forall k :: 0 <= k < |moves| ==> StartedAt(moves, evictions)[k].topic == moves[k].topic;
    }
  }

  lemma {:induction false} MoverAfter<T>(m: Move<T>, rest: seq<Move<T>>, x: T)
    ensures IsMover([m] + rest, x) <==> m.topic == x || IsMover(rest, x)
  {
    assert ([m] + rest)[0] == m;
    if IsMover(rest, x) {
      var k :| 0 <= k < |rest| && rest[k].topic == x;
      assert ([m] + rest)[k + 1].topic == x;
    }
  }

  lemma {:induction false} OthersStay<T>(s: State<T>, t: T, evictions: nat, modulus: nat, x: T)
    requires t in s.topics && modulus > 0 && Truthful(s) && evictions <= UINT32_MAX && x in s.topics
    ensures var a := Allocate(s, t, evictions, modulus);
            x in a.state.topics && (a.state.topics[x] == s.topics[x] || IsMover(a.moves, x))
    decreases Rank(s.topics, t), PINNED_MIN - evictions
  {
    hide Allocate, Truthful, Rank, Displaces, Retries, Settled, Unindex, Loser, SubjectID, IsMover;
    var u, v := Unindex(s, t), Settled(s, t, evictions, modulus);
    if Displaces(s, t, evictions, modulus) {
      var that := Loser(s, t, evictions, modulus);
      Displacing(s, t, evictions, modulus);
      OthersStay(v, that, v.topics[that].evictions + 1, modulus, x);
      MoverAfter(Move(t, evictions, evictions), Allocate(v, that, v.topics[that].evictions + 1, modulus).moves, x);
      SettledOthers(s, t, evictions, modulus, x);
    } else if Retries(s, t, evictions, modulus) {
      Retrying(s, t, evictions, modulus);
      OthersStay(u, t, evictions + 1, modulus, x);
      SameMovers(Allocate(u, t, evictions + 1, modulus).moves, evictions, x);
    } else {
      EndingTopics(s, t, evictions, modulus, x);
    }
  }

  lemma {:induction false} SettledOthers<T>(s: State<T>, t: T, evictions: nat, modulus: nat, x: T)
    requires t in s.topics && modulus > 0 && x in s.topics
    ensures var v := Settled(s, t, evictions, modulus);
            t in v.topics && v.topics[t].evictions == evictions && x in v.topics
              && (x != t ==> v.topics[x] == s.topics[x])
  {
  }

  lemma {:induction false} EndingTopics<T>(s: State<T>, t: T, evictions: nat, modulus: nat, x: T)
    requires t in s.topics && modulus > 0 && Truthful(s) && evictions <= UINT32_MAX && x in s.topics
    requires !Displaces(s, t, evictions, modulus) && !Retries(s, t, evictions, modulus)
    ensures var a := Allocate(s, t, evictions, modulus);
            && t in a.state.topics && a.state.topics[t].evictions == evictions
            && x in a.state.topics && (a.state.topics[x] == s.topics[x] || IsMover(a.moves, x))
  {
    Ending(s, t, evictions, modulus);
    assert Allocate(s, t, evictions, modulus).moves[0].topic == t;
    hide Rank, SubjectID, LeftWins, Truthful;
  }

  /** The topic named in the call takes the counter asked for exactly when it does not lose that subject. */
  lemma {:induction false} AdoptsUnlessBeaten<T>(s: State<T>, t: T, evictions: nat, modulus: nat)
    requires t in s.topics && modulus > 0 && Truthful(s) && evictions <= UINT32_MAX
    ensures var a := Allocate(s, t, evictions, modulus);
            && t in a.state.topics && a.state.topics[t].evictions >= evictions
            && (a.state.topics[t].evictions == evictions <==> !Retries(s, t, evictions, modulus))
    decreases PINNED_MIN - evictions
  {
    hide Allocate, Truthful, Rank, Displaces, Retries, Settled, Unindex, Loser, SubjectID, IsMover, Chain;
    if Displaces(s, t, evictions, modulus) {
      DisplacesNotRetries(s, t, evictions, modulus);
      var v, that := Settled(s, t, evictions, modulus), Loser(s, t, evictions, modulus);
      Displacing(s, t, evictions, modulus);
      SettledOthers(s, t, evictions, modulus, t);
      var next := v.topics[that].evictions + 1;
      OthersStay(v, that, next, modulus, t);
      MoversFall(s, t, evictions, modulus);
      NotAmongLater(s.topics, Allocate(s, t, evictions, modulus).moves, Allocate(v, that, next, modulus).moves);
    } else if Retries(s, t, evictions, modulus) {
      Retrying(s, t, evictions, modulus);
      AdoptsUnlessBeaten(Unindex(s, t), t, evictions + 1, modulus);
    } else {
      EndingTopics(s, t, evictions, modulus, t);
    }
  }

  lemma {:induction false} DisplacesNotRetries<T>(s: State<T>, t: T, evictions: nat, modulus: nat)
    requires t in s.topics && modulus > 0 && Truthful(s)
    ensures !(Displaces(s, t, evictions, modulus) && Retries(s, t, evictions, modulus))
  {
  }

  lemma {:induction false} NotAmongLater<T>(topics: map<T, Topic>, moves: seq<Move<T>>, rest: seq<Move<T>>)
    requires Chain(topics, moves) && moves == [moves[0]] + rest
    ensures !IsMover(rest, moves[0].topic)
  {
    forall k | 0 <= k < |rest| ensures rest[k].topic != moves[0].topic {
      ChainIsTransitive(topics, moves, 0, k + 1);
    }
  }

  // ---------------------------------------------------------------- the record of moves is true of the result

  /** A topic as the end of a move leaves it. */
  ghost predicate EndedAt(t: Topic, end: nat, modulus: nat)
    requires modulus > 0
  {
    && t.evictions == end
    && (t.pinned <==> end >= PINNED_MIN)
    && (!t.pinned ==> t.subjectID == SubjectID(t.hash, end, modulus))
  }

  lemma {:induction false} EndingEnds<T>(s: State<T>, t: T, evictions: nat, modulus: nat)
    requires t in s.topics && modulus > 0 && Truthful(s) && evictions <= UINT32_MAX
    requires !Displaces(s, t, evictions, modulus) && !Retries(s, t, evictions, modulus)
    ensures var a := Allocate(s, t, evictions, modulus);
            a.moves == [Move(t, evictions, evictions)] && t in a.state.topics
              && EndedAt(a.state.topics[t], evictions, modulus)
  {
    hide SubjectID, Rank, LeftWins, Truthful;
  }

  lemma {:induction false} SettledEnds<T>(s: State<T>, t: T, evictions: nat, modulus: nat)
    requires t in s.topics && modulus > 0 && evictions < PINNED_MIN
    ensures var v := Settled(s, t, evictions, modulus); t in v.topics && EndedAt(v.topics[t], evictions, modulus)
  {
    hide SubjectID;
  }

  lemma {:induction false} DisplacesBelowPinned<T>(s: State<T>, t: T, evictions: nat, modulus: nat)
    requires t in s.topics && modulus > 0 && Truthful(s) && Displaces(s, t, evictions, modulus)
    ensures evictions < PINNED_MIN
  {
  }

  lemma {:induction false} MovesGoUp<T>(s: State<T>, t: T, evictions: nat, modulus: nat)
    requires t in s.topics && modulus > 0 && Truthful(s) && evictions <= UINT32_MAX
    ensures var moves := Allocate(s, t, evictions, modulus).moves;
            forall k :: 0 <= k < |moves| ==> moves[k].start <= moves[k].end
    decreases Rank(s.topics, t), PINNED_MIN - evictions
  {
    hide Allocate, Truthful, Rank, Displaces, Retries, Settled, Unindex, Loser, SubjectID;
    if Displaces(s, t, evictions, modulus) {
      var v, that := Settled(s, t, evictions, modulus), Loser(s, t, evictions, modulus);
      Displacing(s, t, evictions, modulus);
      MovesGoUp(v, that, v.topics[that].evictions + 1, modulus);
    } else if Retries(s, t, evictions, modulus) {
      Retrying(s, t, evictions, modulus);
      MoversFall(Unindex(s, t), t, evictions + 1, modulus);
      MovesGoUp(Unindex(s, t), t, evictions + 1, modulus);
    } else {
      Ending(s, t, evictions, modulus);
    }
  }

  /** Every recorded move is where its topic is after the whole call. */
  lemma {:induction false} MovesAreFinal<T>(s: State<T>, t: T, evictions: nat, modulus: nat)
    requires t in s.topics && modulus > 0 && Truthful(s) && evictions <= UINT32_MAX
    ensures var a := Allocate(s, t, evictions, modulus);
            forall k :: 0 <= k < |a.moves| ==>
                          a.moves[k].topic in a.state.topics
                          && EndedAt(a.state.topics[a.moves[k].topic], a.moves[k].end, modulus)
    decreases Rank(s.topics, t), PINNED_MIN - evictions
  {
    hide Allocate, Truthful, Rank, Displaces, Retries, Settled, Unindex, Loser, SubjectID, EndedAt, IsMover, Chain;
    var u, v := Unindex(s, t), Settled(s, t, evictions, modulus);
    if Displaces(s, t, evictions, modulus) {
      var that := Loser(s, t, evictions, modulus);
      Displacing(s, t, evictions, modulus);
      var next := v.topics[that].evictions + 1;
      MovesAreFinal(v, that, next, modulus);
      DisplacesBelowPinned(s, t, evictions, modulus);
      SettledEnds(s, t, evictions, modulus);
      OthersStay(v, that, next, modulus, t);
      MoversFall(s, t, evictions, modulus);
      NotAmongLater(s.topics, Allocate(s, t, evictions, modulus).moves, Allocate(v, that, next, modulus).moves);
    } else if Retries(s, t, evictions, modulus) {
      Retrying(s, t, evictions, modulus);
      MovesAreFinal(u, t, evictions + 1, modulus);
    } else {
      EndingEnds(s, t, evictions, modulus);
    }
  }

  /** The topic named in the call starts at the counter asked for, and a displaced one at the counter after its own. */
  lemma {:induction false} MovesStart<T>(s: State<T>, t: T, evictions: nat, modulus: nat, k: nat)
    requires t in s.topics && modulus > 0 && Truthful(s) && evictions <= UINT32_MAX
    requires k < |Allocate(s, t, evictions, modulus).moves|
    ensures var m := Allocate(s, t, evictions, modulus).moves[k];
            && m.topic in s.topics && (k == 0 <==> m.topic == t)
            && m.start == if k == 0 then evictions else s.topics[m.topic].evictions + 1
    decreases Rank(s.topics, t), PINNED_MIN - evictions
  {
    hide Allocate, Truthful, Rank, Displaces, Retries, Settled, Unindex, Loser, SubjectID, IsMover, Chain;
    MoversFall(s, t, evictions, modulus);
    if k > 0 {
      NotFirstAgain(s, t, evictions, modulus, k);
      if Displaces(s, t, evictions, modulus) {
        var v, that := Settled(s, t, evictions, modulus), Loser(s, t, evictions, modulus);
        Displacing(s, t, evictions, modulus);
        MoversFall(v, that, v.topics[that].evictions + 1, modulus);
        MovesStart(v, that, v.topics[that].evictions + 1, modulus, k - 1);
        SettledOthers(s, t, evictions, modulus, Allocate(s, t, evictions, modulus).moves[k].topic);
      } else if Retries(s, t, evictions, modulus) {
        Retrying(s, t, evictions, modulus);
        MovesStart(Unindex(s, t), t, evictions + 1, modulus, k);
      } else {
        Ending(s, t, evictions, modulus);
      }
    }
  }

  lemma {:induction false} NotFirstAgain<T>(s: State<T>, t: T, evictions: nat, modulus: nat, k: nat)
    requires t in s.topics && modulus > 0 && Truthful(s) && evictions <= UINT32_MAX
    requires 0 < k < |Allocate(s, t, evictions, modulus).moves|
    ensures var moves := Allocate(s, t, evictions, modulus).moves;
            moves[k].topic in s.topics && moves[k].topic != t
  {
    hide Allocate;
    MoversFall(s, t, evictions, modulus);
    ChainIsTransitive(s.topics, Allocate(s, t, evictions, modulus).moves, 0, k);
  }

  // ---------------------------------------------------------------- who is indexed afterwards

  function Last<T>(moves: seq<Move<T>>): Move<T>
    requires moves != []
  {
    moves[|moves| - 1]
  }

  /** New entries belong to the last mover, which has one unless it ended up pinned. */
  lemma {:induction false} OnlyLastIsNew<T>(s: State<T>, t: T, evictions: nat, modulus: nat)
    requires t in s.topics && modulus > 0 && Truthful(s) && evictions <= UINT32_MAX
    ensures var r, u := Allocate(s, t, evictions, modulus), Unindex(s, t);
            && r.moves != []
            && (forall i :: i in r.state.index ==>
                              r.state.index[i] == Last(r.moves).topic
                                || (i in u.index && u.index[i] == r.state.index[i]))
            && (Last(r.moves).end < PINNED_MIN ==>
                exists i :: i in r.state.index && r.state.index[i] == Last(r.moves).topic)
            && (Last(r.moves).end >= PINNED_MIN ==>
                  forall i :: i in r.state.index ==> i in u.index && u.index[i] == r.state.index[i])
    decreases Rank(s.topics, t), PINNED_MIN - evictions
  {
    hide Allocate, Truthful, Rank, Displaces, Retries, Settled, Unindex, Loser, SubjectID;
    var u, v := Unindex(s, t), Settled(s, t, evictions, modulus);
    if Displaces(s, t, evictions, modulus) {
      var that := Loser(s, t, evictions, modulus);
      Displacing(s, t, evictions, modulus);
      OnlyLastIsNew(v, that, v.topics[that].evictions + 1, modulus);
    } else if Retries(s, t, evictions, modulus) {
      Retrying(s, t, evictions, modulus);
      OnlyLastIsNew(u, t, evictions + 1, modulus);
    } else {
      Ending(s, t, evictions, modulus);
      var subject := SubjectID(s.topics[t].hash, evictions, modulus);
      assert evictions < PINNED_MIN ==> subject in Allocate(s, t, evictions, modulus).state.index;
    }
  }

  /** The counter at which the probing of a topic ends, found by looking at the state before the call. */
  ghost function Stop<T>(s: State<T>, t: T, evictions: nat, modulus: nat): (e: nat)
    requires t in s.topics && modulus > 0 && Truthful(s)
    ensures evictions <= e && !Retries(s, t, e, modulus)
    decreases PINNED_MIN - evictions
  {
    if Retries(s, t, evictions, modulus) then Stop(s, t, evictions + 1, modulus) else evictions
  }

  lemma {:induction false} SameRival<T>(s: State<T>, t: T, evictions: nat, modulus: nat)
    requires t in s.topics && modulus > 0 && Truthful(s)
    ensures Truthful(Unindex(s, t)) && t in Unindex(s, t).topics
    ensures Rival(Unindex(s, t), t, evictions, modulus) == Rival(s, t, evictions, modulus)
    ensures Retries(Unindex(s, t), t, evictions, modulus) <==> Retries(s, t, evictions, modulus)
  {
    UnindexTruthful(s, t);
    assert Unindex(Unindex(s, t), t).index == Unindex(s, t).index;
    hide SubjectID, LeftWins, Truthful;
  }

  lemma {:induction false} SameStop<T>(s: State<T>, t: T, evictions: nat, modulus: nat)
    requires t in s.topics && modulus > 0 && Truthful(s)
    ensures Truthful(Unindex(s, t)) && t in Unindex(s, t).topics
    ensures Stop(Unindex(s, t), t, evictions, modulus) == Stop(s, t, evictions, modulus)
    decreases PINNED_MIN - evictions
  {
    SameRival(s, t, evictions, modulus);
    if Retries(s, t, evictions, modulus) {
      var below := PINNED_MIN - evictions;
      assert below > 0;
      hide Unindex, Rival, Truthful;
      SameStop(s, t, evictions + 1, modulus);
    }
  }

  /** How many move, and where the first ends, by where its probing stops. */
  lemma {:induction false} StopsAt<T>(s: State<T>, t: T, evictions: nat, modulus: nat)
    requires t in s.topics && modulus > 0 && Truthful(s) && evictions <= UINT32_MAX
    ensures var moves, e := Allocate(s, t, evictions, modulus).moves, Stop(s, t, evictions, modulus);
            moves != [] && moves[0].end == e && (|moves| == 1 <==> !Displaces(s, t, e, modulus))
    decreases PINNED_MIN - evictions
  {
    hide Allocate, Truthful, Rank, Displaces, Retries, Settled, Unindex, Loser, SubjectID;
    if Displaces(s, t, evictions, modulus) {
      DisplacesNotRetries(s, t, evictions, modulus);
      var v, that := Settled(s, t, evictions, modulus), Loser(s, t, evictions, modulus);
      Displacing(s, t, evictions, modulus);
      MoversFall(v, that, v.topics[that].evictions + 1, modulus);
    } else if Retries(s, t, evictions, modulus) {
      var u := Unindex(s, t);
      Retrying(s, t, evictions, modulus);
      SameStop(s, t, evictions + 1, modulus);
      StopsAt(u, t, evictions + 1, modulus);
      SameDisplaces(s, t, Stop(s, t, evictions + 1, modulus), modulus);
    } else {
      Ending(s, t, evictions, modulus);
    }
  }

  lemma {:induction false} SameDisplaces<T>(s: State<T>, t: T, evictions: nat, modulus: nat)
    requires t in s.topics && modulus > 0 && Truthful(s)
    ensures Truthful(Unindex(s, t)) && t in Unindex(s, t).topics
    ensures Displaces(Unindex(s, t), t, evictions, modulus) <==> Displaces(s, t, evictions, modulus)
  {
    SameRival(s, t, evictions, modulus);
    assert Unindex(s, t).topics == s.topics;
    hide Rival, Unindex, LeftWins;
  }

  /** A call indexes its topic exactly if the probing stops below the pinned range at a subject nobody holds. */
  lemma {:induction false} IndexedIffUnopposed<T>(s: State<T>, t: T, evictions: nat, modulus: nat)
    requires t in s.topics && modulus > 0 && Truthful(s) && evictions <= UINT32_MAX
    ensures var r, e := Allocate(s, t, evictions, modulus), Stop(s, t, evictions, modulus);
            (exists i :: i in r.state.index && r.state.index[i] == t)
              <==> e < PINNED_MIN && Rival(s, t, e, modulus).None?
  {
    var r, e := Allocate(s, t, evictions, modulus), Stop(s, t, evictions, modulus);
    UnindexTruthful(s, t);
    OnlyLastIsNew(s, t, evictions, modulus);
    MoversFall(s, t, evictions, modulus);
    StopsAt(s, t, evictions, modulus);
    if |r.moves| > 1 {
      NoneMovesTwice(s, t, evictions, modulus, 0, |r.moves| - 1);
    }
    hide Allocate, Truthful, Unindex, Rival, Stop;
  }

  // ---------------------------------------------------------------- creation

  /** Every unpinned topic holds the subject of its counter, and is found there. */
  ghost predicate Tidy<T>(s: State<T>, modulus: nat)
    requires modulus > 0
  {
    && Truthful(s)
    && forall t :: t in s.topics && !s.topics[t].pinned ==>
                     && s.topics[t].subjectID == SubjectID(s.topics[t].hash, s.topics[t].evictions, modulus)
                     && s.topics[t].subjectID in s.index && s.index[s.topics[t].subjectID] == t
  }

  /** No two unpinned topics share a subject. */
  ghost predicate Apart<T>(s: State<T>) {
    forall x, y :: x in s.topics && y in s.topics && x != y && !s.topics[x].pinned && !s.topics[y].pinned ==>
                     s.topics[x].subjectID != s.topics[y].subjectID
  }

  /** Says that a name asks for no subject of its own. */
  const PIN_NONE: nat := 0xFFFF

  /**
   * A topic as it is created: at the subject of counter 0 but not indexed, or pinned to the subject its name asks for.
   */
  function Newborn<T>(s: State<T>, t: T, hash: nat, lage: int, pin: nat, modulus: nat): State<T>
    requires modulus > 0
  {
    var topic := if pin <= SUBJECT_PINNED_MAX then Topic(hash, lage, UINT32_MAX - pin, true, pin)
                 else Topic(hash, lage, 0, false, SubjectID(hash, 0, modulus));
    s.(topics := s.topics[t := topic])
  }

  ghost function Create<T>(s: State<T>, t: T, hash: nat, lage: int, pin: nat, modulus: nat): State<T>
    requires modulus > 0 && Truthful(s) && t !in s.topics
  {
    NewbornTruthful(s, t, hash, lage, pin, modulus);
    var n := Newborn(s, t, hash, lage, pin, modulus);
    Allocate(n, t, n.topics[t].evictions, modulus).state
  }

  lemma {:induction false} NewbornTruthful<T>(s: State<T>, t: T, hash: nat, lage: int, pin: nat, modulus: nat)
    requires modulus > 0 && Truthful(s) && t !in s.topics
    ensures Truthful(Newborn(s, t, hash, lage, pin, modulus))
  {
  }

  /**
   * A pinned topic stays out of the index. For another one the call drops the entry at the newborn's subject before it
   * looks for a rival there. So creation never arbitrates: the topic is indexed, nobody moves, and a holder of the
   * subject keeps it, unindexed.
   */
  lemma {:induction false} CreationIsUnopposed<T>(s: State<T>, t: T, hash: nat, lage: int, pin: nat, modulus: nat)
    requires modulus > 0 && Truthful(s) && t !in s.topics
    ensures var subject := SubjectID(hash, 0, modulus);
            Create(s, t, hash, lage, pin, modulus) ==
            if pin <= SUBJECT_PINNED_MAX
            then s.(topics := s.topics[t := Topic(hash, lage, UINT32_MAX - pin, true, pin)])
            else State(s.topics[t := Topic(hash, lage, 0, false, subject)], s.index[subject := t])
  {
    var n, subject := Newborn(s, t, hash, lage, pin, modulus), SubjectID(hash, 0, modulus);
    NewbornTruthful(s, t, hash, lage, pin, modulus);
    hide SubjectID, Rank, LeftWins, Truthful;
    if pin <= SUBJECT_PINNED_MAX {
      assert Pin(n, t, UINT32_MAX - pin).topics == n.topics;
    } else {
      assert Unindex(n, t).index == s.index - {subject};
      assert Settle(Unindex(n, t), t, 0, subject).topics == n.topics;
      assert Settle(Unindex(n, t), t, 0, subject).index == s.index[subject := t];
    }
  }

  /**
   * From an orderly state, creation keeps subjects apart exactly if the topic is pinned or nobody holds its subject.
   */
  lemma {:induction false} ApartIffFree<T>(s: State<T>, t: T, hash: nat, lage: int, pin: nat, modulus: nat)
    requires modulus > 0 && Tidy(s, modulus) && t !in s.topics
    ensures var r, free := Create(s, t, hash, lage, pin, modulus), SubjectID(hash, 0, modulus) !in s.index;
            (Apart(r) <==> pin <= SUBJECT_PINNED_MAX || free)
              && (Tidy(r, modulus) <==> pin <= SUBJECT_PINNED_MAX || free)
  {
    var r, subject := Create(s, t, hash, lage, pin, modulus), SubjectID(hash, 0, modulus);
    CreationIsUnopposed(s, t, hash, lage, pin, modulus);
    hide Create, SubjectID;
    if subject in s.index && pin > SUBJECT_PINNED_MAX {
      var y := s.index[subject];
      assert y != t && r.topics[y] == s.topics[y] && r.index[subject] == t;
    }
  }

  /** Two topics created one after the other on a new node, for any modulus, whose hashes agree modulo it. */
  lemma {:induction false} NewTopicShares(modulus: nat) returns (s: State<nat>)
    requires modulus > 0
    ensures Tidy(s, modulus) && s == Create(State(map[], map[]), 0, 0, -1, PIN_NONE, modulus)
    ensures !Apart(Create(s, 1, modulus, -1, PIN_NONE, modulus))
  {
    var empty: State<nat> := State(map[], map[]);
    assert Tidy(empty, modulus);
    CreationIsUnopposed(empty, 0, 0, -1, PIN_NONE, modulus);
    ApartIffFree(empty, 0, 0, -1, PIN_NONE, modulus);
    s := Create(empty, 0, 0, -1, PIN_NONE, modulus);
    SubjectsOfResidues(modulus);
    ApartIffFree(s, 1, modulus, -1, PIN_NONE, modulus);
    hide Create, SubjectID, Tidy, Apart;
  }

  lemma {:induction false} SubjectsOfResidues(modulus: nat)
    requires modulus > 0
    ensures SubjectID(modulus, 0, modulus) == SubjectID(0, 0, modulus) == SUBJECT_PINNED_MAX + 1
    ensures modulus > 1 ==>
              SubjectID(modulus + 1, 0, modulus) == SubjectID(0, 1, modulus) == SUBJECT_PINNED_MAX + 2
  {
    DivSmall(0, modulus);
    DivUnique(modulus, modulus, 1, 0);
    if modulus > 1 {
      DivSmall(1, modulus);
      DivUnique(modulus + 1, modulus, 1, 1);
    }
  }

  /**
   * Two topics created without a collision, for any modulus. When gossip then raises the counter of the one that
   * wins to the subject of the other, the winner is no longer found in the index.
   */
  lemma {:induction false} WinnerLosesItsEntry(modulus: nat) returns (s: State<nat>)
    requires modulus > 1
    ensures var one := Create(State(map[], map[]), 0, 0, -1, PIN_NONE, modulus);
            Truthful(one) && 1 !in one.topics && s == Create(one, 1, modulus + 1, -1, PIN_NONE, modulus)
    ensures Tidy(s, modulus) && 0 in s.topics
    ensures var r := Allocate(s, 0, 1, modulus).state; forall i :: i in r.index ==> r.index[i] != 0
  {
    var empty: State<nat> := State(map[], map[]);
    assert Tidy(empty, modulus);
    CreationIsUnopposed(empty, 0, 0, -1, PIN_NONE, modulus);
    ApartIffFree(empty, 0, 0, -1, PIN_NONE, modulus);
    var one := Create(empty, 0, 0, -1, PIN_NONE, modulus);
    SubjectsOfResidues(modulus);
    CreationIsUnopposed(one, 1, modulus + 1, -1, PIN_NONE, modulus);
    ApartIffFree(one, 1, modulus + 1, -1, PIN_NONE, modulus);
    s := Create(one, 1, modulus + 1, -1, PIN_NONE, modulus);
    hide Create, SubjectID;
    assert Displaces(s, 0, 1, modulus);
    DisplacesNotRetries(s, 0, 1, modulus);
    IndexedIffUnopposed(s, 0, 1, modulus);
    hide Allocate, Tidy;
  }

  // ---------------------------------------------------------------- probing

  lemma {:induction false} SubjectsDiffer(hash: nat, r: nat, s: nat, p: nat)
    requires IsPrime(p) && r < s && r + s < p
    ensures SubjectID(hash, r, p) != SubjectID(hash, s, p)
  {
    var h := hash % p;
    DivSmall(r, p);
    DivSmall(s, p);
    ModAdd(p, h, r * r);
    ModAdd(p, h, s * s);
    SquaresDiffer(p, r, s);
    if (h + s * s) % p == (h + r * r) % p {
      EqualResidues(p, h + s * s, h + r * r);
    }
  }

  /** Probing starts at the hash, and moves on by the odd numbers 1, 3, 5 and so on. */
  lemma {:induction false} ProbesMoveByOddSteps(hash: nat, e: nat, p: nat)
    requires p > 0
    ensures SubjectID(hash, 0, p) == 0x2000 + hash % p
    ensures SubjectID(hash, e + 1, p) == 0x2000 + (SubjectID(hash, e, p) - 0x2000 + 2 * e + 1) % p
  {
    SubjectIsSquare(hash, 0, p);
    SubjectIsSquare(hash, e, p);
    SubjectIsSquare(hash, e + 1, p);
    assert hash + (e + 1) * (e + 1) == hash + e * e + (2 * e + 1);
    ModAdd(p, 2 * e + 1, hash + e * e);
    hide SubjectID;
  }

  lemma {:induction false} SubjectIsSquare(hash: nat, e: nat, p: nat)
    requires p > 0
    ensures SubjectID(hash, e, p) == 0x2000 + (hash + e * e) % p
  {
    var r := e % p;
    SquareOfRest(p, e);
    ModAdd(p, (r * r) % p, hash);
    ModAdd(p, hash, r * r);
    ModAdd(p, hash, e * e);
  }

  lemma {:induction false} SquareOfRest(p: nat, e: nat)
    requires p > 0
    ensures (e * e) % p == (e % p * (e % p)) % p
  {
    var q, r := e / p, e % p;
    assert e * e == (q * q * p + 2 * q * r) * p + r * r by {
      assert e == q * p + r;
    }
    var k := (r * r) / p;
    assert e * e == (q * q * p + 2 * q * r + k) * p + (r * r) % p;
    DivUnique(e * e, p, q * q * p + 2 * q * r + k, (r * r) % p);
  }

  /** The subjects of the first n eviction counters. */
  ghost function Subjects(hash: nat, p: nat, n: nat): set<nat>
    requires p > 0
  {
    if n == 0 then {} else Subjects(hash, p, n - 1) + {SubjectID(hash, n - 1, p)}
  }

  lemma {:induction false} InSubjects(hash: nat, p: nat, n: nat, x: nat)
    requires p > 0 && x in Subjects(hash, p, n)
    ensures exists r: nat :: r < n && SubjectID(hash, r, p) == x
  {
    if x != SubjectID(hash, n - 1, p) {
      InSubjects(hash, p, n - 1, x);
    }
  }

  /** Up to half the modulus no two probes meet. */
  lemma {:induction false} SubjectsAreDistinct(hash: nat, p: nat, n: nat)
    requires IsPrime(p) && 2 * n <= p + 1
    ensures |Subjects(hash, p, n)| == n
  {
    if n > 0 {
      SubjectsAreDistinct(hash, p, n - 1);
      var x := SubjectID(hash, n - 1, p);
      if x in Subjects(hash, p, n - 1) {
        InSubjects(hash, p, n - 1, x);
        var r: nat :| r < n - 1 && SubjectID(hash, r, p) == x;
        SubjectsDiffer(hash, r, n - 1, p);
      }
    }
  }

  /** The counter with a given residue among the p counters from `start` on. */
  lemma {:induction false} CounterWithResidue(start: nat, p: nat, r: nat) returns (f: nat)
    requires r < p
    ensures start <= f < start + p && f % p == r
  {
    var q, m := start / p, start % p;
    if r >= m {
      f := start + (r - m);
      DivUnique(f, p, q, r);
    } else {
      f := start + (r - m + p);
      DivUnique(f, p, q + 1, r);
    }
  }

  /** While less than half of the subjects are taken, p probes in a row meet a free one. */
  lemma {:induction false} FreeSubject(taken: set<nat>, hash: nat, p: nat, start: nat) returns (f: nat)
    requires IsPrime(p) && 2 * |taken| < p + 1 - (p + 1) % 2
    ensures start <= f < start + p && SubjectID(hash, f, p) !in taken
  {
    hide IsPrime, SubjectID;
    var n := (p + 1) / 2;
    SubjectsAreDistinct(hash, p, n);
    if Subjects(hash, p, n) <= taken {
      SubsetSize(Subjects(hash, p, n), taken);
    }
    var x :| x in Subjects(hash, p, n) && x !in taken;
    InSubjects(hash, p, n, x);
    var r: nat :| r < n && SubjectID(hash, r, p) == x;
    f := CounterWithResidue(start, p, r);
    SameResidueSameSubject(hash, f, r, p);
  }

  lemma SameResidueSameSubject(hash: nat, f: nat, r: nat, p: nat)
    requires r < p && f % p == r
    ensures SubjectID(hash, f, p) == SubjectID(hash, r, p)
  {
    DivSmall(r, p);
  }

  /** A topic probes no further than the first free subject. */
  lemma {:induction false} SettlesBy<T>(s: State<T>, t: T, evictions: nat, modulus: nat, free: nat)
    requires t in s.topics && modulus > 0 && Truthful(s) && evictions <= free < PINNED_MIN
    requires SubjectID(s.topics[t].hash, free, modulus) !in Unindex(s, t).index
    ensures var moves := Allocate(s, t, evictions, modulus).moves; moves != [] && moves[0].end <= free
    decreases free - evictions
  {
    var u := Unindex(s, t);
    UnindexTruthful(s, t);
    var subject := SubjectID(s.topics[t].hash, evictions, modulus);
    var that := Occupant(u, t, subject);
    if that.Some? && !LeftWins(s.topics[t], s.topics[that.value]) {
      assert Unindex(u, t).index == u.index;
      hide Truthful, SubjectID;
      SettlesBy(u, t, evictions + 1, modulus, free);
    }
  }

  /** Less than half of the subjects are taken, by topics whose counters are far from the pinned range. */
  ghost predicate Roomy<T>(u: State<T>, p: nat) {
    && 2 * |u.index| < p + 1 - (p + 1) % 2
    && forall i :: i in u.index ==> u.index[i] in u.topics && u.topics[u.index[i]].evictions + 1 + p <= PINNED_MIN
  }

  lemma {:induction false} RoomyWithout<T>(u: State<T>, w: State<T>, t: T, subject: nat, p: nat)
    requires Roomy(u, p) && w.index == u.index - {subject}
    requires u.topics.Keys == w.topics.Keys && forall x :: x in u.topics && x != t ==> w.topics[x] == u.topics[x]
    requires forall i :: i in u.index ==> u.index[i] != t
    ensures Roomy(w, p)
  {
    SubsetSize(w.index.Keys, u.index.Keys);
    assert |w.index| == |w.index.Keys| && |u.index| == |u.index.Keys|;
  }

  lemma {:induction false} SettlesInWindow<T>(s: State<T>, t: T, evictions: nat, p: nat)
    requires t in s.topics && IsPrime(p) && Truthful(s) && Roomy(Unindex(s, t), p) && evictions + p <= PINNED_MIN
    ensures var moves := Allocate(s, t, evictions, p).moves; moves != [] && moves[0].end < evictions + p
  {
    assert |Unindex(s, t).index| == |Unindex(s, t).index.Keys|;
    var f := FreeSubject(Unindex(s, t).index.Keys, s.topics[t].hash, p, evictions);
    SettlesBy(s, t, evictions, p, f);
  }

  lemma {:induction false} DisplacedSettle<T>(s: State<T>, t: T, evictions: nat, p: nat)
    requires t in s.topics && IsPrime(p) && Truthful(s) && Roomy(Unindex(s, t), p) && evictions <= UINT32_MAX
    ensures var moves := Allocate(s, t, evictions, p).moves;
            forall k :: 0 < k < |moves| ==> moves[k].end < moves[k].start + p && moves[k].end < PINNED_MIN
    decreases Rank(s.topics, t), PINNED_MIN - evictions
  {
    hide Allocate, Truthful, Rank, Displaces, Retries, Settled, Unindex, Loser, SubjectID, IsPrime;
    var u, v := Unindex(s, t), Settled(s, t, evictions, p);
    if Displaces(s, t, evictions, p) {
      var that := Loser(s, t, evictions, p);
      Displacing(s, t, evictions, p);
      var w := Unindex(v, that);
      SeenByLoser(s, t, evictions, p);
      UnindexTruthful(s, t);
      RoomyWithout(u, w, t, SubjectID(s.topics[t].hash, evictions, p), p);
      var i :| i in u.index && u.index[i] == that;
      hide Roomy;
      MoversFall(v, that, v.topics[that].evictions + 1, p);
      DisplacedSettle(v, that, v.topics[that].evictions + 1, p);
      SettlesInWindow(v, that, v.topics[that].evictions + 1, p);
    } else if Retries(s, t, evictions, p) {
      Retrying(s, t, evictions, p);
      hide Roomy;
      DisplacedSettle(u, t, evictions + 1, p);
    } else {
      Ending(s, t, evictions, p);
    }
  }

  /** While less than half of the subjects are taken, every topic that moves ends within p probes, unpinned. */
  lemma {:induction false} EveryMoverSettles<T>(s: State<T>, t: T, evictions: nat, p: nat)
    requires t in s.topics && IsPrime(p) && Truthful(s) && Roomy(Unindex(s, t), p) && evictions + p <= PINNED_MIN
    ensures var a := Allocate(s, t, evictions, p);
            forall k :: 0 <= k < |a.moves| ==>
                          && a.moves[k].topic in a.state.topics
                          && var end := a.state.topics[a.moves[k].topic];
                             !end.pinned && a.moves[k].start <= end.evictions < a.moves[k].start + p
                             && end.subjectID == SubjectID(end.hash, end.evictions, p)
  {
    MoversFall(s, t, evictions, p);
    SettlesInWindow(s, t, evictions, p);
    DisplacedSettle(s, t, evictions, p);
    MovesAreFinal(s, t, evictions, p);
    MovesGoUp(s, t, evictions, p);
    hide Allocate, Truthful, Roomy, IsPrime, SubjectID;
  }
}
