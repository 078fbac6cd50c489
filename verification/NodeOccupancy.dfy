/** Watching which node-IDs are taken, and picking another one after a collision. */
module NodeOccupancy {
  import opened Bitmaps
  import opened Sets

  const CAPACITY: nat := 128
  const ANONYMOUS: nat := 0xFF

  // ---------------------------------------------------------------- free IDs

  /** How many of the first n IDs are free. */
  function FreeBelow(taken: seq<bool>, n: nat): (c: nat)
    requires n <= |taken|
    ensures c <= n
  {
    if n == 0 then 0 else FreeBelow(taken, n - 1) + if taken[n - 1] then 0 else 1
  }

  function FreeCount(taken: seq<bool>): nat { FreeBelow(taken, |taken|) }

  /** id is free and has exactly z free IDs below it. */
  predicate IsNthFree(taken: seq<bool>, z: nat, id: nat) {
    id < |taken| && !taken[id] && FreeBelow(taken, id) == z
  }

  lemma {:induction false} FreeGrows(taken: seq<bool>, m: nat, n: nat)
    requires m <= n <= |taken|
    ensures FreeBelow(taken, m) <= FreeBelow(taken, n) <= FreeBelow(taken, m) + (n - m)
  {
    if m < n {
      FreeGrows(taken, m, n - 1);
    }
  }

  lemma {:induction false} RankIsNamed(taken: seq<bool>, z: nat, n: nat) returns (id: nat)
    requires n <= |taken| && z < FreeBelow(taken, n)
    ensures IsNthFree(taken, z, id)
  {
    if z < FreeBelow(taken, n - 1) {
      id := RankIsNamed(taken, z, n - 1);
    } else {
      id := n - 1;
    }
  }

  lemma {:induction false} RankIsUnique(taken: seq<bool>, z: nat, a: nat, b: nat)
    requires IsNthFree(taken, z, a) && IsNthFree(taken, z, b)
    ensures z < FreeCount(taken) && a == b
  {
    FreeGrows(taken, a + 1, |taken|);
    if a < b {
      FreeGrows(taken, a + 1, b);
    } else if b < a {
      FreeGrows(taken, b + 1, a);
    }
  }

  /** Exactly the ranks below the count name a free ID, each of them one, and every free ID has a rank. */
  lemma {:induction false} RanksNameFreeIds(taken: seq<bool>, z: nat)
    ensures (exists id: nat :: IsNthFree(taken, z, id)) <==> z < FreeCount(taken)
    ensures forall a: nat, b: nat :: IsNthFree(taken, z, a) && IsNthFree(taken, z, b) ==> a == b
    ensures forall id: nat :: id < |taken| && !taken[id] ==> IsNthFree(taken, FreeBelow(taken, id), id)
  {
    if z < FreeCount(taken) {
      var id := RankIsNamed(taken, z, |taken|);
    }
    forall a: nat, b: nat | IsNthFree(taken, z, a) && IsNthFree(taken, z, b) ensures a == b && z < FreeCount(taken) {
      RankIsUnique(taken, z, a, b);
    }
  }

  lemma {:induction false} FreeAfterTaking(taken: seq<bool>, id: nat, n: nat)
    requires id < |taken| && n <= |taken|
    ensures FreeBelow(taken[id := true], n) == FreeBelow(taken, n) - (if id < n && !taken[id] then 1 else 0)
  {
    if n > 0 {
      FreeAfterTaking(taken, id, n - 1);
    }
  }

  // ---------------------------------------------------------------- one observation

  /** Only the ID reserved for compatibility with v0, and the one just seen, are taken after a purge. */
  function Purged(src: nat): (t: seq<bool>)
    requires src < CAPACITY
    ensures |t| == CAPACITY
  {
    seq(CAPACITY, i requires 0 <= i < CAPACITY => i == 0 || i == src)
  }

  /** At least two IDs stay free, so that one is left after the next observation. */
  predicate Healthy(taken: seq<bool>) { |taken| == CAPACITY && taken[0] && FreeCount(taken) >= 2 }

  /** A draw below a bound, zero if the bound is. */
  function Below(draw: nat, bound: nat): nat { if bound > 0 then draw % bound else 0 }

  function Purges(taken: seq<bool>, draw: nat): bool {
    CAPACITY - FreeCount(taken) > CAPACITY / 2 && Below(draw, FreeCount(taken)) == 0
  }

  function Observed(taken: seq<bool>, src: nat, draw: nat): (t: seq<bool>)
    requires |taken| == CAPACITY && src < CAPACITY
    ensures |t| == CAPACITY
  {
    var t := taken[src := true];
    if Purges(t, draw) then Purged(src) else t
  }

  lemma {:induction false} PurgedFree(src: nat, n: nat)
    requires src < CAPACITY && n <= CAPACITY
    ensures FreeBelow(Purged(src), n) >= n - 2
    ensures n <= src || src == 0 ==> FreeBelow(Purged(src), n) >= n - 1
  {
    if n > 0 {
      PurgedFree(src, n - 1);
    }
  }

  /** Whatever is drawn, at least two IDs stay free: with fewer the purge is certain. */
  lemma {:induction false} StaysHealthy(taken: seq<bool>, src: nat, draw: nat)
    requires Healthy(taken) && src < CAPACITY
    ensures Healthy(Observed(taken, src, draw)) && Observed(taken, src, draw)[src]
    ensures FreeCount(taken[src := true]) >= 1
  {
    FreeAfterTaking(taken, src, CAPACITY);
    PurgedFree(src, CAPACITY);
    hide FreeBelow;
  }

  // ---------------------------------------------------------------- the IDs that are taken

  ghost function TakenIds(taken: seq<bool>): (ids: set<nat>) { set i: nat | i < |taken| && taken[i] }

  lemma {:induction false} TakenAppend(s: seq<bool>, b: bool)
    ensures |TakenIds(s + [b])| == |TakenIds(s)| + if b then 1 else 0
  {
    assert TakenIds(s + [b]) == TakenIds(s) + if b then {|s|} else {};
  }

  lemma {:induction false} TakenBelow(taken: seq<bool>, n: nat)
    requires n <= |taken|
    ensures |TakenIds(taken[..n])| == n - FreeBelow(taken, n)
  {
    hide TakenIds;
    if n > 0 {
      TakenBelow(taken, n - 1);
      assert taken[..n] == taken[..n - 1] + [taken[n - 1]];
      TakenAppend(taken[..n - 1], taken[n - 1]);
    } else {
      NoneTaken();
      assert taken[..0] == [];
    }
  }

  lemma NoneTaken()
    ensures TakenIds([]) == {}
  {
  }

  lemma TakenAndFree(taken: seq<bool>)
    ensures |TakenIds(taken)| == |taken| - FreeCount(taken)
  {
    TakenBelow(taken, |taken|);
    assert taken[..|taken|] == taken;
  }

  /**
   * The IDs that are taken after another one was seen: at most half of them are kept for certain, of more than half
   * all but two are forgotten with a chance of one in the number of free ones, and for certain if none is free.
   */
  ghost function Remembered(ids: set<nat>, src: nat, draw: nat): set<nat>
    requires |ids + {src}| <= CAPACITY
  {
    var all := ids + {src};
    var free := CAPACITY - |all|;
    if |all| > 64 && (free == 0 || draw % free == 0) then {0, src} else all
  }

  lemma {:induction false} ObservedIds(taken: seq<bool>, src: nat, draw: nat)
    requires |taken| == CAPACITY && src < CAPACITY
    ensures |TakenIds(taken) + {src}| <= CAPACITY
    ensures TakenIds(Observed(taken, src, draw)) == Remembered(TakenIds(taken), src, draw)
  {
    var t := taken[src := true];
    assert TakenIds(t) == TakenIds(taken) + {src};
    TakenAndFree(t);
    assert TakenIds(Purged(src)) == {0, src};
    hide FreeBelow;
  }

  // ---------------------------------------------------------------- runs

  datatype Ids = Ids(taken: seq<bool>, node: nat)

  /** A node-ID seen on the bus, and what the random generator returns. */
  datatype Sight = Sight(src: nat, purgeDraw: nat, idDraw: nat)
  {
    predicate Valid() { src == ANONYMOUS || src < CAPACITY }
  }

  ghost function NthFree(taken: seq<bool>, z: nat): (id: nat)
    requires z < FreeCount(taken)
    ensures IsNthFree(taken, z, id)
  {
    RanksNameFreeIds(taken, z);
    var id: nat :| IsNthFree(taken, z, id);
    id
  }

  /** One observation. */
  ghost function Watch(s: Ids, o: Sight): (r: Ids)
    requires Healthy(s.taken) && o.Valid()
    ensures Healthy(r.taken)
  {
    if o.src == ANONYMOUS || (s.taken[o.src] && s.node != o.src) then s
    else
      StaysHealthy(s.taken, o.src, o.purgeDraw);
      var seen := s.taken[o.src := true];
      Ids(Observed(s.taken, o.src, o.purgeDraw),
          if s.node == o.src then NthFree(seen, o.idDraw % FreeCount(seen)) else s.node)
  }

  ghost predicate AllValid(sights: seq<Sight>) { forall i :: 0 <= i < |sights| ==> sights[i].Valid() }

  /** A node that starts with an ID and sees others. */
  ghost function After(node: nat, sights: seq<Sight>): (r: Ids)
    requires AllValid(sights)
    ensures Healthy(r.taken)
  {
    if sights == [] then
      PurgedFree(0, CAPACITY);
      Ids(Purged(0), node)
    else Watch(After(node, sights[..|sights| - 1]), sights[|sights| - 1])
  }

  ghost function SeenIds(sights: seq<Sight>): set<nat> {
    set i | 0 <= i < |sights| && sights[i].src != ANONYMOUS :: sights[i].src
  }

  lemma SeenNext(sights: seq<Sight>)
    requires sights != []
    ensures var o := sights[|sights| - 1];
            SeenIds(sights) == SeenIds(sights[..|sights| - 1]) + if o.src == ANONYMOUS then {} else {o.src}
  {
    var was, z := sights[..|sights| - 1], |sights| - 1;
    forall x ensures x in SeenIds(sights) <==> x in SeenIds(was) || (x == sights[z].src && x != ANONYMOUS) {
      if x in SeenIds(was) {
        var i :| 0 <= i < |was| && was[i].src == x && x != ANONYMOUS;
        assert sights[i] == was[i];
      }
      if x in SeenIds(sights) {
        var i :| 0 <= i < |sights| && sights[i].src == x && x != ANONYMOUS;
        assert i < z ==> was[i] == sights[i];
      }
    }
  }

  lemma WatchIgnores(taken: seq<bool>, node: nat, o: Sight)
    requires Healthy(taken) && o.Valid() && (o.src == ANONYMOUS || (taken[o.src] && node != o.src))
    ensures Watch(Ids(taken, node), o) == Ids(taken, node)
  {
  }

  lemma {:induction false} WatchTakes(taken: seq<bool>, node: nat, o: Sight, next: nat)
    requires Healthy(taken) && o.Valid() && o.src != ANONYMOUS && (taken[o.src] ==> node == o.src)
    requires node != o.src ==> next == node
    requires var seen := taken[o.src := true];
             node == o.src ==> FreeCount(seen) >= 1 && IsNthFree(seen, o.idDraw % FreeCount(seen), next)
    ensures Watch(Ids(taken, node), o) == Ids(Observed(taken, o.src, o.purgeDraw), next)
    ensures |TakenIds(taken) + {o.src}| <= CAPACITY
    ensures TakenIds(Observed(taken, o.src, o.purgeDraw)) == Remembered(TakenIds(taken), o.src, o.purgeDraw)
  {
    hide FreeBelow, Observed, TakenIds, Remembered;
    var seen := taken[o.src := true];
    ObservedIds(taken, o.src, o.purgeDraw);
    StaysHealthy(taken, o.src, o.purgeDraw);
    if node == o.src {
      RanksNameFreeIds(seen, o.idDraw % FreeCount(seen));
    }
  }

  /** What a node with fewer than 64 neighbours knows of them. */
  ghost predicate KnowsAll(s: Ids, seen: set<nat>) { TakenIds(s.taken) == seen + {0} }

  /** Few IDs are all kept. */
  lemma AllRemembered(seen: set<nat>, src: nat, draw: nat)
    requires |seen + {src}| <= 63
    ensures |seen + {0} + {src}| <= CAPACITY && Remembered(seen + {0}, src, draw) == seen + {src} + {0}
  {
    assert seen + {0} + {src} == seen + {src} + ({0} - (seen + {src})) == seen + {src} + {0};
  }

  lemma FreeIsNotTaken(taken: seq<bool>, z: nat, id: nat)
    requires IsNthFree(taken, z, id)
    ensures id !in TakenIds(taken)
  {
  }

  lemma TakenMore(taken: seq<bool>, src: nat)
    requires src < |taken|
    ensures TakenIds(taken[src := true]) == TakenIds(taken) + {src}
    ensures taken[src] <==> src in TakenIds(taken)
  {
  }

  lemma {:induction false} WatchFew(s: Ids, o: Sight, seen: set<nat>)
    requires Healthy(s.taken) && o.Valid() && KnowsAll(s, seen)
    requires o.src != ANONYMOUS && |seen + {o.src}| <= 63
    ensures KnowsAll(Watch(s, o), seen + {o.src})
    ensures s.node == o.src ==> Watch(s, o).node !in seen + {o.src} + {0}
  {
    hide Watch, Observed, FreeBelow, FreeCount, Remembered, TakenIds, IsNthFree;
    TakenMore(s.taken, o.src);
    if s.taken[o.src] && s.node != o.src {
      WatchIgnores(s.taken, s.node, o);
    } else {
      var t := s.taken[o.src := true];
      AllRemembered(seen, o.src, o.purgeDraw);
      StaysHealthy(s.taken, o.src, o.purgeDraw);
      var next := if s.node == o.src then NthFree(t, o.idDraw % FreeCount(t)) else s.node;
      WatchTakes(s.taken, s.node, o, next);
      if s.node == o.src {
        FreeIsNotTaken(t, o.idDraw % FreeCount(t), next);
      }
    }
  }

  /**
   * A node that sees at most 63 different IDs keeps all of them in mind, whatever is drawn, and when it meets its own
   * it moves to one that it has not seen.
   */
  lemma {:induction false} FewAreRemembered(node: nat, sights: seq<Sight>)
    requires AllValid(sights) && |SeenIds(sights)| <= 63
    ensures TakenIds(After(node, sights).taken) == SeenIds(sights) + {0}
    ensures sights != [] && sights[|sights| - 1].src == After(node, sights[..|sights| - 1]).node != ANONYMOUS ==>
              After(node, sights).node !in SeenIds(sights) + {0}
  {
    hide Watch, TakenIds, SeenIds, Healthy;
    if sights == [] {
      NewKnowsItself();
    } else {
      var was, o := sights[..|sights| - 1], sights[|sights| - 1];
      SeenNext(sights);
      SubsetSize(SeenIds(was), SeenIds(sights));
      FewAreRemembered(node, was);
      if o.src != ANONYMOUS {
        WatchFew(After(node, was), o, SeenIds(was));
      } else {
        AnonymousIsNothing(After(node, was), o);
      }
    }
  }

  lemma NewKnowsItself()
    ensures TakenIds(Purged(0)) == {0} && SeenIds([]) == {}
  {
  }

  lemma AnonymousIsNothing(s: Ids, o: Sight)
    requires Healthy(s.taken) && o.src == ANONYMOUS
    ensures Watch(s, o) == s
  {
  }

  // ---------------------------------------------------------------- the bitmap in place

  ghost function Taken(words: seq<Word>): (t: seq<bool>)
    ensures |t| == CAPACITY
  {
    seq(CAPACITY, k => Bit(words, k))
  }

  function Ones(w: Word, n: nat): (c: nat)
    requires n <= 64
    ensures c <= n
  {
    if n == 0 then 0 else Ones(w, n - 1) + if w[n - 1] then 1 else 0
  }

  lemma TakenBit(words: seq<Word>, i: nat, k: nat)
    requires |words| == 2 && i < 2 && k < 64
    ensures Taken(words)[64 * i + k] == words[i][k]
  {
    BitAt(words, i, k);
  }

  lemma {:induction false} OnesAreTakenBelow(words: seq<Word>, n: nat)
    requires |words| == 2 && n <= 64
    ensures n - FreeBelow(Taken(words), n) == Ones(words[0], n)
  {
    if n > 0 {
      OnesAreTakenBelow(words, n - 1);
      TakenBit(words, 0, n - 1);
      hide Taken;
    }
  }

  lemma {:induction false} OnesAreTaken(words: seq<Word>, n: nat)
    requires |words| == 2 && n <= 64
    ensures 64 + n - FreeBelow(Taken(words), 64 + n) == Ones(words[0], 64) + Ones(words[1], n)
  {
    if n > 0 {
      OnesAreTaken(words, n - 1);
      TakenBit(words, 1, n - 1);
      hide Taken;
    } else {
      OnesAreTakenBelow(words, 64);
      hide Ones, Taken, FreeBelow;
    }
  }

  class Identity {
    var nodeID: nat
    const bitmap: array<Word>
    var filtersDirty: bool
    var collisions: nat

    ghost predicate Valid()
      reads this, bitmap
    {
      bitmap.Length == 2 && Healthy(Taken(bitmap[..]))
    }

    constructor (nodeID: nat)
      ensures Valid() && fresh(bitmap) && this.nodeID == nodeID && !filtersDirty && collisions == 0
      ensures Taken(bitmap[..]) == Purged(0)
    {
      this.nodeID, filtersDirty, collisions := nodeID, false, 0;
      bitmap := new Word[2](i => Zero());
      new;
      Reset();
      PurgedFree(0, CAPACITY);
    }

    method Reset()
      requires bitmap.Length == 2
      modifies bitmap
      ensures Taken(bitmap[..]) == Purged(0)
    {
      bitmap[0] := Zero()[0 := true];
      bitmap[1] := Zero();
    }

    method Set(i: nat)
      requires bitmap.Length == 2 && i < CAPACITY
      modifies bitmap
      ensures Taken(bitmap[..]) == old(Taken(bitmap[..]))[i := true]
    {
      bitmap[i / 64] := bitmap[i / 64][i % 64 := true];
    }

    function Test(i: nat): (t: bool)
      requires bitmap.Length == 2 && i < CAPACITY
      reads bitmap
      ensures t == Taken(bitmap[..])[i]
    {
      bitmap[i / 64][i % 64]
    }

    /** A manual change starts the observation afresh. */
    method SetNodeID(id: nat) returns (ok: bool)
      requires Valid()
      modifies this, bitmap
      ensures Valid() && (ok <==> id < CAPACITY)
      ensures nodeID == if ok then id else old(nodeID)
      ensures Taken(bitmap[..]) == if ok && id != old(nodeID) then Purged(0) else old(Taken(bitmap[..]))
      ensures ok && id != old(nodeID) ==> filtersDirty
    {
      hide FreeBelow;
      ok := id < CAPACITY;
      if ok && id != nodeID {
        nodeID := id;
        Reset();
        filtersDirty := true;
        PurgedFree(0, CAPACITY);
        CountsAgree(Purged(0));
      }
    }

    /** Skips z free IDs, then everything taken. */
    method NthFree(skip: nat) returns (id: nat)
      requires bitmap.Length == 2 && skip < FreeCount(Taken(bitmap[..]))
      ensures IsNthFree(Taken(bitmap[..]), skip, id)
    {
      ghost var taken := Taken(bitmap[..]);
      var z := skip;
      id := 0;
      while z > 0
        invariant id <= CAPACITY && 0 <= z <= skip && FreeBelow(taken, id) == skip - z
        decreases CAPACITY - id
      {
        NotAllPassed(taken, id);
        if !Test(id) {
          z := z - 1;
        }
        id := id + 1;
      }
      NotAllPassed(taken, id);
      while Test(id)
        invariant id < CAPACITY && FreeBelow(taken, id) == skip
        decreases CAPACITY - id
      {
        id := id + 1;
        NotAllPassed(taken, id);
      }
    }

    /**
     * A node-ID was seen on the bus. The draws are what the generator returns; `purgeDraw` is used
     * only when more than half of the IDs are taken. Reports whether this node moved to another ID.
     */
    method Observe(src: nat, purgeDraw: nat, idDraw: nat) returns (moved: bool)
      requires Valid() && (src == ANONYMOUS || src < CAPACITY)
      modifies this, bitmap
      ensures Valid()
      ensures Ids(Taken(bitmap[..]), nodeID) == Watch(Ids(old(Taken(bitmap[..])), old(nodeID)),
                                                      Sight(src, purgeDraw, idDraw))
      ensures (var taken := old(Taken(bitmap[..]));
               var ignored := src == ANONYMOUS || (taken[src] && old(nodeID) != src);
               && (ignored ==> Taken(bitmap[..]) == taken && nodeID == old(nodeID) && collisions == old(collisions))
               && (!ignored ==> Taken(bitmap[..]) == Observed(taken, src, purgeDraw)
                                && |TakenIds(taken) + {src}| <= CAPACITY
                                && TakenIds(Taken(bitmap[..])) == Remembered(TakenIds(taken), src, purgeDraw))
               && (moved <==> src == old(nodeID) && src != ANONYMOUS)
               && (moved ==>
                     var seen := taken[src := true];
                     && FreeCount(seen) >= 1 && IsNthFree(seen, idDraw % FreeCount(seen), nodeID)
                     && 1 <= nodeID < CAPACITY && nodeID != src
                     && collisions == old(collisions) + 1 && filtersDirty)
               && (!moved ==> nodeID == old(nodeID)))
    {
      hide FreeBelow, Below, FreeCount, Purged, IsNthFree, Watch, TakenIds, Remembered;
      ghost var taken, node := Taken(bitmap[..]), nodeID;
      if src == ANONYMOUS || (Test(src) && nodeID != src) {
        WatchIgnores(taken, node, Sight(src, purgeDraw, idDraw));
        return false;
      }
      StaysHealthy(taken, src, purgeDraw);
      Set(src);
      ghost var seen := Taken(bitmap[..]);
      var pc := CountTaken();
      var zc := CAPACITY - pc;
      var purge := pc > CAPACITY / 2 && Below(purgeDraw, zc) == 0;
      moved := nodeID == src;
      if moved {
        BelowIs(idDraw, zc);
        nodeID := NthFree(Below(idDraw, zc));
        FreeIdIsAnother(seen, src, idDraw % zc, nodeID);
        filtersDirty := true;
        collisions := collisions + 1;
      }
      if purge {
        Reset();
        Set(src);
        PurgedAndSet(src);
      }
      WatchTakes(taken, node, Sight(src, purgeDraw, idDraw), nodeID);
    }

    /** The two population counts. */
    method CountTaken() returns (pc: nat)
      requires bitmap.Length == 2
      ensures pc == CAPACITY - FreeCount(Taken(bitmap[..])) <= CAPACITY
    {
      OnesAreTaken(bitmap[..], 64);
      CountsAgree(Taken(bitmap[..]));
      pc := Ones(bitmap[0], 64) + Ones(bitmap[1], 64);
    }
  }

  lemma PurgedAndSet(src: nat)
    requires src < CAPACITY
    ensures Purged(0)[src := true] == Purged(src)
  {
  }

  lemma FreeIdIsAnother(seen: seq<bool>, src: nat, z: nat, id: nat)
    requires |seen| == CAPACITY && src < CAPACITY && seen[0] && seen[src] && IsNthFree(seen, z, id)
    ensures 1 <= id < CAPACITY && id != src
  {
  }

  lemma {:induction false} CountsAgree(taken: seq<bool>)
    requires |taken| == CAPACITY
    ensures FreeCount(taken) == FreeBelow(taken, CAPACITY)
  {
  }

  lemma {:induction false} BelowIs(draw: nat, bound: nat)
    requires bound > 0
    ensures Below(draw, bound) == draw % bound < bound
  {
  }

  /** While fewer free IDs were passed than there are, some are ahead. */
  lemma {:induction false} NotAllPassed(taken: seq<bool>, id: nat)
    requires id <= |taken| && FreeBelow(taken, id) < FreeCount(taken)
    ensures id < |taken|
  {
  }
}
