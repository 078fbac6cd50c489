/** Suppression of duplicate reliable messages: a sliding window over wrapping tags. */
module DedupWindow {
  import opened Bitmaps
  import opened Wire
  import opened Wrapping

  const HISTORY: nat := 512

  /** A remote is forgotten after this many microseconds of silence. */
  const LIFETIME: int := 60_000_000

  /** The frontier tag, and for every distance behind it whether that tag was accepted. */
  datatype Window = Window(tag: U64, marks: seq<bool>)

  predicate Proper(w: Window) { |w.marks| == HISTORY }

  predicate Check(w: Window, t: U64)
    requires Proper(w)
  {
    Sub(w.tag, t) < HISTORY && w.marks[Sub(w.tag, t)]
  }

  function Commit(w: Window, t: U64): (r: Window)
    requires Proper(w)
    ensures Proper(r)
  {
    if Sub(w.tag, t) < HISTORY then w.(marks := w.marks[Sub(w.tag, t) := true])
    else
      var fwd := Sub(t, w.tag);
      Window(t, seq(HISTORY, k requires 0 <= k < HISTORY => k == 0 || (fwd <= k && w.marks[k - fwd])))
  }

  /** What committing means for the frontier, which never falls back, and for the set of recognised tags. */
  lemma {:induction false} CommitRecognises(w: Window, t: U64, x: U64)
    requires Proper(w)
    ensures var frontier := if Sub(w.tag, t) < 512 then w.tag else t;
            && Commit(w, t).tag == frontier
            && (Check(Commit(w, t), x) <==> x == t || (Check(w, x) && Sub(frontier, x) < 512))
  {
    var k := Sub(Commit(w, t).tag, x);
    if Sub(w.tag, t) < HISTORY {
      assert k == Sub(w.tag, t) <==> x == t;
    } else {
      var fwd := Sub(t, w.tag);
      assert k == 0 <==> x == t;
      assert fwd <= k < HISTORY ==> k - fwd == Sub(w.tag, x);
      assert Sub(w.tag, x) < HISTORY && k < HISTORY ==> fwd <= k;
    }
  }

  // ---------------------------------------------------------------- one remote over time

  datatype Seen = Seen(window: Window, lastActiveAt: int)

  /** A reliable message: whether anyone is subscribed, and whether a subscriber takes it if it gets to see it. */
  datatype Arrival = Arrival(tag: U64, now: int, subscribed: bool, taken: bool)

  ghost predicate ProperSeen(s: Option<Seen>) { s.Some? ==> Proper(s.value.window) }

  /** A remote that was silent for too long is forgotten. */
  function Find(s: Option<Seen>, now: int): Option<Seen> {
    if s.Some? && now - s.value.lastActiveAt > LIFETIME then None else s
  }

  /** Silence is counted from the last message that was taken, up to a minute. */
  lemma {:induction false} KnownForAMinute(s: Option<Seen>, a: Arrival)
    requires ProperSeen(s)
    ensures Find(s, a.now).Some? <==> s.Some? && a.now - s.value.lastActiveAt <= 60_000_000
    ensures Find(s, a.now).Some? ==> Find(s, a.now) == s
    ensures a.subscribed && a.taken && !IsDuplicate(s, a.tag, a.now) ==> Receive(s, a).value.lastActiveAt == a.now
    ensures a.subscribed && (!a.taken || IsDuplicate(s, a.tag, a.now)) && Find(s, a.now).Some? ==> Receive(s, a) == s
  {
    hide Commit;
    NotInBlank(a.tag);
  }

  function Blank(t: U64): (w: Window)
    ensures Proper(w)
  {
    Window(t, seq(HISTORY, k => false))
  }

  predicate IsDuplicate(s: Option<Seen>, t: U64, now: int)
    requires s.Some? ==> Proper(s.value.window)
  {
    Find(s, now).Some? && Check(s.value.window, t)
  }

  /** The message is shown to the subscribers unless it is a duplicate. */
  predicate Shown(s: Option<Seen>, a: Arrival)
    requires s.Some? ==> Proper(s.value.window)
  {
    a.subscribed && !IsDuplicate(s, a.tag, a.now)
  }

  /** Duplicates are acknowledged again, and so is what a subscriber takes. */
  predicate Acknowledged(s: Option<Seen>, a: Arrival)
    requires s.Some? ==> Proper(s.value.window)
  {
    IsDuplicate(s, a.tag, a.now) || (a.subscribed && a.taken)
  }

  function Receive(s: Option<Seen>, a: Arrival): (r: Option<Seen>)
    requires s.Some? ==> Proper(s.value.window)
    ensures r.Some? ==> Proper(r.value.window)
    ensures a.subscribed ==> r.Some?
  {
    var f := Find(s, a.now);
    if !a.subscribed then f
    else
      var seen := if f.Some? then f.value else Seen(Blank(a.tag), a.now);
      if Check(seen.window, a.tag) || !a.taken then Some(seen)
      else Some(Seen(Commit(seen.window, a.tag), a.now))
  }

  function After(history: seq<Arrival>): (r: Option<Seen>)
    ensures r.Some? ==> Proper(r.value.window)
  {
    if history == [] then None else Receive(After(history[..|history| - 1]), history[|history| - 1])
  }

  ghost predicate Marked(s: Option<Seen>, t: U64)
    requires ProperSeen(s)
  {
    s.Some? && Check(s.value.window, t)
  }

  ghost predicate InWindow(s: Option<Seen>, t: U64) { s.Some? && Sub(s.value.window.tag, t) < HISTORY }

  /** When message j comes in, the remote is still known, and t stays in its window. */
  ghost predicate KeptAt(history: seq<Arrival>, i: nat, j: nat, t: U64)
    requires j < |history|
  {
    && InWindow(After(history[..j + 1]), t)
    && (j > i ==> Find(After(history[..j]), history[j].now).Some?)
  }

  ghost predicate Stays(history: seq<Arrival>, i: nat, t: U64) {
    forall j :: i <= j < |history| ==> KeptAt(history, i, j, t)
  }

  /** Message i had the tag t and was taken, and t has been kept ever since. */
  ghost predicate Source(history: seq<Arrival>, i: nat, t: U64) {
    i < |history| && history[i].tag == t && history[i].subscribed && history[i].taken && Stays(history, i, t)
  }

  ghost predicate Remembered(history: seq<Arrival>, t: U64) {
    exists i: nat :: Source(history, i, t)
  }

  lemma {:induction false} KeptInPrefix(history: seq<Arrival>, a: Arrival, i: nat, j: nat, t: U64)
    requires j < |history|
    ensures KeptAt(history + [a], i, j, t) <==> KeptAt(history, i, j, t)
  {
    assert (history + [a])[..j + 1] == history[..j + 1] && (history + [a])[..j] == history[..j];
  }

  lemma {:induction false} StaysStep(history: seq<Arrival>, a: Arrival, i: nat, t: U64)
    requires i <= |history|
    ensures Stays(history + [a], i, t) <==> Stays(history, i, t) && KeptAt(history + [a], i, |history|, t)
  {
    var h := history + [a];
    forall j | i <= j < |history| ensures KeptAt(h, i, j, t) <==> KeptAt(history, i, j, t) {
      KeptInPrefix(history, a, i, j, t);
    }
    hide KeptAt;
  }

  /** Taking a message brings its tag into the window. */
  lemma {:induction false} TakenIsMarked(s: Option<Seen>, a: Arrival)
    requires ProperSeen(s) && a.subscribed && a.taken
    ensures Marked(Receive(s, a), a.tag) && InWindow(Receive(s, a), a.tag)
  {
    var f := Find(s, a.now);
    CommitRecognises(if f.Some? then f.value.window else Blank(a.tag), a.tag, a.tag);
  }

  /** Remembering, one message later. */
  lemma {:induction false} RememberedStep(history: seq<Arrival>, a: Arrival, t: U64)
    ensures Remembered(history + [a], t) <==>
            || (t == a.tag && a.subscribed && a.taken)
            || (&& Remembered(history, t) && Find(After(history), a.now).Some?
                && InWindow(After(history + [a]), t))
  {
    var h, n := history + [a], |history|;
    assert h[n] == a && h[..n] == history && h[..n + 1] == h && h[..|h| - 1] == history;
    StaysStep(history, a, n, t);
    if a.subscribed && a.taken {
      TakenIsMarked(After(history), a);
      if t == a.tag {
        assert Source(h, n, t);
      }
    }
    forall i: nat | i < n
      ensures Source(h, i, t) <==> Source(history, i, t) && KeptAt(h, i, n, t)
    {
      StaysStep(history, a, i, t);
    }
    hide Stays, After, Sub, InWindow;
  }

  lemma {:induction false} MarkedStep(s: Option<Seen>, a: Arrival, t: U64)
    requires ProperSeen(s)
    ensures Marked(Receive(s, a), t) <==>
            || (t == a.tag && a.subscribed && a.taken)
            || (Find(s, a.now).Some? && Marked(s, t) && InWindow(Receive(s, a), t))
  {
    var f := Find(s, a.now);
    CommitRecognises(if f.Some? then f.value.window else Blank(a.tag), a.tag, t);
    hide Commit;
  }

  lemma {:induction false} MarksAreMemory(history: seq<Arrival>, t: U64)
    ensures Marked(After(history), t) <==> Remembered(history, t)
  {
    if history != [] {
      var was, a := history[..|history| - 1], history[|history| - 1];
      assert history == was + [a];
      MarksAreMemory(was, t);
      RememberedStep(was, a, t);
      MarkedStep(After(was), a, t);
      hide Remembered, Marked, Receive, InWindow;
    }
  }

  /** A retransmission is recognised exactly when its tag is remembered and the remote still known. */
  lemma {:induction false} DuplicatesAreExact(history: seq<Arrival>, t: U64, now: int)
    ensures IsDuplicate(After(history), t, now) <==> Find(After(history), now).Some? && Remembered(history, t)
  {
    MarksAreMemory(history, t);
    hide Remembered, Check, After;
  }

  /** A tag that a subscriber took is not shown again while it stays in the window of a known remote. */
  lemma {:induction false} TakenOnce(history: seq<Arrival>, i: nat, a: Arrival)
    requires i < |history| && history[i].subscribed && history[i].taken && history[i].tag == a.tag
    requires Stays(history, i, a.tag) && Find(After(history), a.now).Some?
    ensures !Shown(After(history), a) && Acknowledged(After(history), a)
  {
    assert Source(history, i, a.tag);
    DuplicatesAreExact(history, a.tag, a.now);
    hide Remembered, After;
  }

  /**
   * A tag that comes in three times, forty seconds apart, and is taken whenever it is shown. The second time it is
   * recognised, which does not renew the memory of the remote, so that the third time it is shown again.
   */
  lemma {:induction false} ForgottenDuplicate() returns (history: seq<Arrival>)
    ensures history == [Arrival(7, 0, true, true), Arrival(7, 40_000_000, true, true),
                        Arrival(7, 80_000_000, true, true)]
    ensures Shown(After(history[..0]), history[0]) && !Shown(After(history[..1]), history[1])
    ensures history[2].now - history[1].now < LIFETIME && Shown(After(history[..2]), history[2])
  {
    history := [Arrival(7, 0, true, true), Arrival(7, 40_000_000, true, true), Arrival(7, 80_000_000, true, true)];
    assert history[..0] == [] && history[..1][..0] == [] && history[..2][..1] == history[..1];
    var first := Receive(None, history[0]);
    assert After(history[..1]) == first && first.value.lastActiveAt == 0;
    TakenIsMarked(None, history[0]);
    assert After(history[..2]) == first;
  }

  // ---------------------------------------------------------------- the bitmap in place

  class DedupState {
    var tag: U64
    var lastActiveAt: int
    const bitmap: array<Word>

    ghost predicate Valid()
      reads this
    {
      bitmap.Length == 8
    }

    ghost function Value(): (w: Window)
      requires Valid()
      reads this, bitmap
      ensures Proper(w)
    {
      Window(tag, Marks(bitmap[..], HISTORY))
    }

    constructor (tag: U64, now: int)
      ensures Valid() && fresh(bitmap)
      ensures Value() == Blank(tag) && lastActiveAt == now
    {
      this.tag, lastActiveAt := tag, now;
      bitmap := new Word[8](i => Zero());
      new;
      ClearedBits(bitmap[..]);
    }

    /** Tests the mark of the tag. */
    method Test(tag: U64) returns (known: bool)
      requires Valid()
      ensures known == Check(Value(), tag)
    {
      var rev := Sub(this.tag, tag);
      if rev < HISTORY {
        return bitmap[rev / 64][rev % 64];
      }
      return false;
    }

    method Record(tag: U64)
      requires Valid()
      modifies `tag, bitmap
      ensures Valid() && Value() == Commit(old(Value()), tag)
    {
      hide IsShift, Bit, Marks;
      ghost var was := bitmap[..];
      var rev := Sub(this.tag, tag);
      if rev < HISTORY {
        bitmap[rev / 64] := bitmap[rev / 64][rev % 64 := true];
        MarkedMarks(was, bitmap[..], rev, HISTORY);
        return;
      }
      var fwd := Sub(tag, this.tag);
      if fwd >= HISTORY {
        Clear(bitmap, 8);
        ClearedBits(bitmap[..]);
      } else {
        BitmapShift(bitmap, HISTORY, fwd);
      }
      ghost var moved := bitmap[..];
      this.tag := tag;
      bitmap[0] := bitmap[0][0 := true];
      AdvancedMarks(was, moved, bitmap[..], old(this.tag), tag);
    }
  }

  /** The marks after the frontier has moved, whether or not any of the old ones are left. */
  lemma {:induction false} AdvancedMarks(was: seq<Word>, moved: seq<Word>, now: seq<Word>, frontier: U64, t: U64)
    requires |was| == |moved| == |now| == 8 && Sub(frontier, t) >= HISTORY
    requires var fwd := Sub(t, frontier);
             if fwd >= HISTORY then forall k :: !Bit(moved, k) else IsShift(was, moved, HISTORY, fwd)
    requires now == moved[0 := moved[0][0 := true]]
    ensures Marks(now, HISTORY) == Commit(Window(frontier, Marks(was, HISTORY)), t).marks
  {
    var fwd, c := Sub(t, frontier), Commit(Window(frontier, Marks(was, HISTORY)), t).marks;
    MarkedBit(moved, now, 0);
    forall k | 0 <= k < HISTORY ensures Marks(now, HISTORY)[k] == c[k] {
      assert fwd < HISTORY ==> (Bit(moved, k) <==> ShiftedBit(was, HISTORY, fwd, k));
    }
  }

  lemma {:induction false} ClearedBits(words: seq<Word>)
    requires forall i :: 0 <= i < |words| ==> words[i] == Zero()
    ensures forall k :: !Bit(words, k)
  {
  }

  /** The gate in front of the subscribers of a topic, for one remote. */
  class Gate {
    var dedup: DedupState?

    ghost predicate Valid()
      reads this, dedup
    {
      dedup != null ==> dedup.Valid()
    }

    ghost function Value(): (s: Option<Seen>)
      requires Valid()
      reads this, dedup, if dedup == null then {} else {dedup.bitmap}
      ensures s.Some? ==> Proper(s.value.window)
    {
      if dedup == null then None else Some(Seen(dedup.Value(), dedup.lastActiveAt))
    }

    constructor ()
      ensures Valid() && Value() == None
    {
      dedup := null;
    }

    method DropStale(now: int)
      requires Valid()
      modifies this
      ensures Valid() && Value() == Find(old(Value()), now)
      ensures dedup == null || dedup == old(dedup)
    {
      if dedup != null && now - dedup.lastActiveAt > LIFETIME {
        dedup := null;
      }
    }

    /** `taken` is what the subscribers answer if the message gets to them. */
    method DeliverReliably(tag: U64, now: int, hasSubs: bool, taken: bool) returns (acknowledge: bool, shown: bool)
      requires Valid()
      modifies this, dedup, if dedup == null then {} else {dedup.bitmap}
      ensures Valid() && Value() == Receive(old(Value()), Arrival(tag, now, hasSubs, taken))
      ensures acknowledge == Acknowledged(old(Value()), Arrival(tag, now, hasSubs, taken))
      ensures shown == Shown(old(Value()), Arrival(tag, now, hasSubs, taken))
      ensures var known := IsDuplicate(old(Value()), tag, now);
              acknowledge == (known || (hasSubs && taken)) && shown == (hasSubs && !known)
    {
      hide Check, Commit, Blank;
      DropStale(now);
      if !hasSubs {
        acknowledge := false;
        if dedup != null {
          acknowledge := dedup.Test(tag);
        }
        return acknowledge, false;
      }
      NotInBlank(tag);
      if dedup == null {
        dedup := new DedupState(tag, now);
      }
      var known := dedup.Test(tag);
      if known {
        return true, false;
      }
      if taken {
        dedup.Record(tag);
        dedup.lastActiveAt := now;
      }
      return taken, true;
    }
  }

  lemma {:induction false} NotInBlank(t: U64)
    ensures !Check(Blank(t), t)
  {
  }
}
