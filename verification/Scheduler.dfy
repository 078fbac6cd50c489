/** The earliest-deadline-first scheduler: keys, pending tasks and what a spin runs. */
module Scheduler {
  import opened Sets
  import opened Wire

  const MAX_INT64: int := 0x7FFF_FFFF_FFFF_FFFF

  /** Every insertion spends a sequence number, so that equal deadlines run in the order of insertion. */
  datatype Key = Key(deadline: int, seqno: int)

  const ZERO: Key := Key(0, 0)

  predicate Before(a: Key, b: Key) {
    a.deadline < b.deadline || (a.deadline == b.deadline && a.seqno < b.seqno)
  }

  datatype Task = Task(deadline: int, seqno: int, active: bool, key: Key)

  /** Tasks are named by the sequence number they were created with. */
  datatype State = State(tree: map<Key, int>, tasks: map<int, Task>, nextSeqno: int)

  function Empty(): State { State(map[], map[], 0) }

  // ---------------------------------------------------------------- operations

  function Schedule(s: State, deadline: int): State {
    var k := Key(deadline, s.nextSeqno);
    State(s.tree[k := s.nextSeqno], s.tasks[s.nextSeqno := Task(deadline, k.seqno, true, k)], s.nextSeqno + 1)
  }

  /** Removes by the stored key, and forgets the key. */
  function Cancel(s: State, t: int): State {
    if t !in s.tasks then s
    else State(s.tree - {s.tasks[t].key}, s.tasks[t := s.tasks[t].(active := false, key := ZERO)], s.nextSeqno)
  }

  function Reschedule(s: State, t: int, deadline: int): State {
    if t !in s.tasks || !s.tasks[t].active then s
    else
      var k := Key(deadline, s.nextSeqno);
      State((s.tree - {s.tasks[t].key})[k := t],
            s.tasks[t := s.tasks[t].(deadline := deadline, seqno := k.seqno, key := k)],
            s.nextSeqno + 1)
  }

  // ---------------------------------------------------------------- the tree and the tasks agree

  /** An entry belongs to the task that carries its key. */
  ghost predicate EntryAt(s: State, k: Key) {
    k in s.tree ==>
      && s.tree[k] in s.tasks
      && var t := s.tasks[s.tree[k]]; t.key == k && t.deadline == k.deadline && t.seqno == k.seqno && t.active
  }

  /** Keys are spent numbers; only forgotten keys can coincide with another. */
  ghost predicate KeyAt(s: State, t: int) {
    t in s.tasks ==>
      && 0 <= t < s.nextSeqno && s.tasks[t].key.seqno < s.nextSeqno
      && (!s.tasks[t].active ==> s.tasks[t].key == ZERO)
  }

  ghost predicate ApartAt(s: State, t: int, u: int) {
    t in s.tasks && u in s.tasks && t != u && s.tasks[t].active && s.tasks[u].active ==>
      s.tasks[t].key.seqno != s.tasks[u].key.seqno
  }

  ghost predicate Inv(s: State) {
    && s.nextSeqno >= 0
    && (forall k :: EntryAt(s, k))
    && (forall t :: KeyAt(s, t))
    && (forall t, u :: ApartAt(s, t, u))
  }

  /** The tasks that wait in the tree. */
  ghost predicate Pending(s: State, t: int) { t in s.tasks && s.tasks[t].key in s.tree && s.tree[s.tasks[t].key] == t }

  lemma {:induction false} ScheduleKeepsInv(s: State, deadline: int)
    requires Inv(s)
    ensures Inv(Schedule(s, deadline))
    ensures forall t :: Pending(Schedule(s, deadline), t) <==> Pending(s, t) || t == s.nextSeqno
    ensures Schedule(s, deadline).tasks[s.nextSeqno].key == Key(deadline, s.nextSeqno)
    ensures forall t :: t in s.tasks ==>
            t in Schedule(s, deadline).tasks && Schedule(s, deadline).tasks[t] == s.tasks[t]
  {
    var r := Schedule(s, deadline);
    assert KeyAt(s, s.nextSeqno);
    forall k ensures EntryAt(r, k) {
      assert EntryAt(s, k);
    }
    forall t ensures KeyAt(r, t) {
      assert KeyAt(s, t);
    }
    forall t, u ensures ApartAt(r, t, u) {
      assert ApartAt(s, t, u) && KeyAt(s, t) && KeyAt(s, u);
    }
    forall t ensures Pending(r, t) <==> Pending(s, t) || t == s.nextSeqno {
      assert KeyAt(s, t);
    }
  }

  /** The key of a cancelled task names the very first task, if that was due at time zero and still waits. */
  predicate Collides(s: State, t: int) {
    t in s.tasks && s.tasks[t].key in s.tree && s.tree[s.tasks[t].key] != t
  }

  lemma {:induction false} CollidesOnlyWithZero(s: State, t: int)
    requires Inv(s)
    ensures Collides(s, t) <==> t in s.tasks && !s.tasks[t].active && ZERO in s.tree
  {
    if t in s.tasks {
      var k := s.tasks[t].key;
      assert EntryAt(s, k) && KeyAt(s, t) && EntryAt(s, ZERO);
      if k in s.tree {
        assert ApartAt(s, t, s.tree[k]);
      }
    }
  }

  lemma {:induction false} CancelKeepsInv(s: State, t: int)
    requires Inv(s)
    ensures Inv(Cancel(s, t))
  {
    var r := Cancel(s, t);
    forall k ensures EntryAt(r, k) {
      assert EntryAt(s, k);
    }
    forall u ensures KeyAt(r, u) {
      assert KeyAt(s, u);
    }
    forall u, v ensures ApartAt(r, u, v) {
      assert ApartAt(s, u, v);
    }
  }

  /** Cancelling removes just its task, unless that was cancelled before and a task with the zero key waits. */
  lemma {:induction false} CancelIsExact(s: State, t: int)
    requires Inv(s)
    ensures (forall u :: Pending(Cancel(s, t), u) <==> Pending(s, u) && u != t) <==>
            !(t in s.tasks && !s.tasks[t].active && ZERO in s.tree)
  {
    var r := Cancel(s, t);
    CollidesOnlyWithZero(s, t);
    if t in s.tasks {
      var k := s.tasks[t].key;
      assert EntryAt(s, k);
      forall u | !Collides(s, t) ensures Pending(r, u) <==> Pending(s, u) && u != t {
        if Pending(s, u) {
          assert EntryAt(s, s.tasks[u].key);
        }
        assert EntryAt(s, ZERO);
      }
      if Collides(s, t) {
        var u := s.tree[k];
        assert Pending(s, u) && u != t && !Pending(r, u);
      }
    }
  }

  /** A second cancellation of one task takes another one out of the tree. */
  lemma {:induction false} SecondCancelHitsAnother() returns (s: State)
    ensures s == Cancel(Schedule(Schedule(Empty(), 0), 5), 1)
    ensures Inv(s) && Pending(s, 0) && !Pending(Cancel(s, 1), 0)
  {
    var a := Schedule(Empty(), 0);
    var b := Schedule(a, 5);
    s := Cancel(b, 1);
    ScheduleKeepsInv(Empty(), 0);
    ScheduleKeepsInv(a, 5);
    CancelKeepsInv(b, 1);
  }

  lemma {:induction false} RescheduleKeepsInv(s: State, t: int, deadline: int)
    requires Inv(s)
    ensures Inv(Reschedule(s, t, deadline))
    ensures t in s.tasks && s.tasks[t].active ==>
              forall u :: Pending(Reschedule(s, t, deadline), u) <==> Pending(s, u) || u == t
    ensures t in s.tasks && s.tasks[t].active ==>
              t in Reschedule(s, t, deadline).tasks
                && Reschedule(s, t, deadline).tasks[t].key == Key(deadline, s.nextSeqno)
    ensures forall u :: u in s.tasks && (u != t || !s.tasks[t].active) ==>
                          u in Reschedule(s, t, deadline).tasks && Reschedule(s, t, deadline).tasks[u] == s.tasks[u]
  {
    var r := Reschedule(s, t, deadline);
    assert KeyAt(s, t);
    if t in s.tasks && s.tasks[t].active {
      CollidesOnlyWithZero(s, t);
      forall k ensures EntryAt(r, k) {
        assert EntryAt(s, k);
      }
      forall u ensures KeyAt(r, u) {
        assert KeyAt(s, u);
      }
      forall u, v ensures ApartAt(r, u, v) {
        assert ApartAt(s, u, v) && KeyAt(s, u) && KeyAt(s, v);
      }
      forall u ensures Pending(r, u) <==> Pending(s, u) || u == t {
        assert KeyAt(s, u) && ApartAt(s, t, u);
        if Pending(s, u) {
          assert EntryAt(s, s.tasks[u].key);
        }
      }
    }
  }

  // ---------------------------------------------------------------- spinning

  ghost predicate IsFirst(tree: map<Key, int>, k: Key) { k in tree && forall j :: j in tree && j != k ==> Before(k, j) }

  lemma {:induction false} HasFirst(tree: map<Key, int>)
    requires tree != map[]
    ensures exists k :: IsFirst(tree, k)
  {
    assert tree.Keys != {};
    var before := (a: Key, b: Key) => a == b || Before(a, b);
    var k := FirstBy(tree.Keys, before);
    forall j | j in tree && j != k ensures Before(k, j) {
      assert before(k, j);
    }
    assert IsFirst(tree, k);
  }

  ghost function First(tree: map<Key, int>): (k: Key)
    requires tree != map[]
    ensures IsFirst(tree, k)
  {
    HasFirst(tree);
    var k :| IsFirst(tree, k);
    k
  }

  /** What a callback may do to the scheduler. */
  datatype Op = DoSchedule(deadline: int) | DoCancel(task: int) | DoReschedule(task: int, newDeadline: int)

  function Apply(s: State, op: Op): State {
    match op
    case DoSchedule(d) => Schedule(s, d)
    case DoCancel(t) => Cancel(s, t)
    case DoReschedule(t, d) => Reschedule(s, t, d)
  }

  function ApplyAll(s: State, ops: seq<Op>): State {
    if ops == [] then s else Apply(ApplyAll(s, ops[..|ops| - 1]), ops[|ops| - 1])
  }

  /** One turn of the loop: the clock it reads, and what the callback does if one runs. */
  datatype Turn = Turn(now: int, script: seq<Op>)

  /** A task that ran, the clock then, and the state it was taken from. */
  datatype Run = Run(task: int, now: int, before: State)

  datatype Spun = Spun(state: State, runs: seq<Run>, finished: bool, nextDeadline: int, now: int)

  predicate Waits(deadline: int, limit: int, checkNow: bool, now: int) {
    (checkNow && deadline > now) || deadline > limit
  }

  /** The loop over the given turns; it is unfinished if they run out. */
  ghost function Spin(s: State, limit: int, checkNow: bool, turns: seq<Turn>, last: int): Spun
    decreases |turns|
  {
    if s.tree == map[] then Spun(s, [], true, MAX_INT64, last)
    else if turns == [] then Spun(s, [], false, MAX_INT64, last)
    else
      var k, now := First(s.tree), turns[0].now;
      if Waits(k.deadline, limit, checkNow, now) then Spun(s, [], true, k.deadline, now)
      else
        var rest := Spin(ApplyAll(s.(tree := s.tree - {k}), turns[0].script), limit, checkNow, turns[1..], now);
        rest.(runs := [Run(s.tree[k], now, s)] + rest.runs)
  }

  function Worst(runs: seq<Run>): int
    requires forall i :: 0 <= i < |runs| ==> runs[i].task in runs[i].before.tasks
  {
    if runs == [] then 0
    else Max(runs[0].now - runs[0].before.tasks[runs[0].task].deadline, Worst(runs[1..]))
  }

  lemma {:induction false} DequeueKeepsInv(s: State, k: Key)
    requires Inv(s)
    ensures Inv(s.(tree := s.tree - {k}))
    ensures forall t :: Pending(s.(tree := s.tree - {k}), t) <==> Pending(s, t) && s.tasks[t].key != k
  {
    var r := s.(tree := s.tree - {k});
    forall j ensures EntryAt(r, j) {
      assert EntryAt(s, j);
    }
    forall t ensures KeyAt(r, t) {
      assert KeyAt(s, t);
    }
    forall t, u ensures ApartAt(r, t, u) {
      assert ApartAt(s, t, u);
    }
  }

  lemma {:induction false} ApplyKeepsInv(s: State, op: Op)
    requires Inv(s)
    ensures Inv(Apply(s, op))
  {
    match op {
      case DoSchedule(d) => ScheduleKeepsInv(s, d);
      case DoCancel(t) => CancelKeepsInv(s, t);
      case DoReschedule(t, d) => RescheduleKeepsInv(s, t, d);
    }
    hide Inv, Schedule, Cancel, Reschedule;
  }

  lemma {:induction false} ScriptKeepsInv(s: State, ops: seq<Op>)
    requires Inv(s)
    ensures Inv(ApplyAll(s, ops))
  {
    hide Inv, Apply;
    if ops != [] {
      ScriptKeepsInv(s, ops[..|ops| - 1]);
      ApplyKeepsInv(ApplyAll(s, ops[..|ops| - 1]), ops[|ops| - 1]);
    }
  }

  /** The task was pending, due, and before every other one pending at that moment. */
  ghost predicate RanInTurn(r: Run, limit: int, checkNow: bool) {
    && Inv(r.before) && Pending(r.before, r.task)
    && r.before.tasks[r.task].deadline <= limit && (checkNow ==> r.before.tasks[r.task].deadline <= r.now)
    && forall u :: Pending(r.before, u) && u != r.task ==>
                     var mine, other := r.before.tasks[r.task], r.before.tasks[u];
                     mine.deadline < other.deadline || (mine.deadline == other.deadline && mine.seqno < other.seqno)
  }

  /** None of the tasks that still wait could run at that clock. */
  ghost predicate NothingDue(s: State, limit: int, checkNow: bool, now: int) {
    forall u :: Pending(s, u) ==> s.tasks[u].deadline > limit || (checkNow && s.tasks[u].deadline > now)
  }

  lemma {:induction false} FirstRuns(s: State, limit: int, checkNow: bool, now: int)
    requires Inv(s) && s.tree != map[]
    ensures var k := First(s.tree);
            && (!Waits(k.deadline, limit, checkNow, now) ==> RanInTurn(Run(s.tree[k], now, s), limit, checkNow))
            && (Waits(k.deadline, limit, checkNow, now) ==> NothingDue(s, limit, checkNow, now))
  {
    var k := First(s.tree);
    assert EntryAt(s, k);
    forall u | Pending(s, u) ensures u == s.tree[k] || Before(k, s.tasks[u].key) {
      assert EntryAt(s, s.tasks[u].key);
    }
    forall u | Pending(s, u)
      ensures s.tasks[u].deadline == s.tasks[u].key.deadline && s.tasks[u].seqno == s.tasks[u].key.seqno
    {
      assert EntryAt(s, s.tasks[u].key);
    }
  }

  /** Whatever the callbacks do: earliest deadline first, first scheduled first, and nothing due is left behind. */
  lemma {:induction false} SpinIsEarliestFirst(s: State, limit: int, checkNow: bool, turns: seq<Turn>, last: int)
    requires Inv(s)
    ensures var r := Spin(s, limit, checkNow, turns, last);
            && Inv(r.state)
            && (forall i :: 0 <= i < |r.runs| ==> RanInTurn(r.runs[i], limit, checkNow))
            && (r.finished ==> NothingDue(r.state, limit, checkNow, r.now))
    decreases |turns|
  {
    hide ApplyAll, Before;
    if s.tree != map[] && turns != [] {
      var k, now := First(s.tree), turns[0].now;
      FirstRuns(s, limit, checkNow, now);
      if !Waits(k.deadline, limit, checkNow, now) {
        DequeueKeepsInv(s, k);
        hide Inv, RanInTurn, NothingDue, Waits;
        ScriptKeepsInv(s.(tree := s.tree - {k}), turns[0].script);
        SpinIsEarliestFirst(ApplyAll(s.(tree := s.tree - {k}), turns[0].script), limit, checkNow, turns[1..], now);
      }
    }
  }

  /**
   * A spin that ends reports the clock it read last. That is the one of its end if a task waits, and the one before
   * the last callback, or none, if the queue is empty.
   */
  lemma {:induction false} SpinClock(s: State, limit: int, checkNow: bool, turns: seq<Turn>, last: int)
    ensures var r := Spin(s, limit, checkNow, turns, last);
            && |r.runs| <= |turns| && (forall i :: 0 <= i < |r.runs| ==> r.runs[i].now == turns[i].now)
            && (r.finished && r.state.tree != map[] ==> |r.runs| < |turns| && r.now == turns[|r.runs|].now)
            && (r.finished && r.state.tree == map[] ==> r.now == if r.runs == [] then last else turns[|r.runs| - 1].now)
    decreases |turns|
  {
    hide ApplyAll, Waits;
    if s.tree != map[] && turns != [] {
      var k, now := First(s.tree), turns[0].now;
      SpinClock(ApplyAll(s.(tree := s.tree - {k}), turns[0].script), limit, checkNow, turns[1..], now);
    }
  }

  /** A task due at 0 runs at 3. The spin ends after it, and reports 3 although the clock has reached 9 by then. */
  lemma {:induction false} SpinClockLags() returns (s: State, turns: seq<Turn>)
    ensures s == Schedule(Empty(), 0) && turns == [Turn(3, []), Turn(9, [])]
    ensures var r := Spin(s, 10, true, turns, 0); r.finished && |r.runs| == 1 && r.state.tree == map[] && r.now == 3
    ensures Spin(Empty(), 10, true, turns, 0).finished && Spin(Empty(), 10, true, turns, 0).now == 0
  {
    s, turns := Schedule(Empty(), 0), [Turn(3, []), Turn(9, [])];
    assert Key(0, 0) in s.tree;
    var k := First(s.tree);
    assert k == Key(0, 0) && s.tree - {k} == map[];
    assert ApplyAll(s.(tree := map[]), []) == s.(tree := map[]);
  }

  /** A spin that ends reports the earliest deadline that is left, or the greatest number if nothing is. */
  lemma {:induction false} SpinReportsTheNext(
      s: State, limit: int, checkNow: bool, turns: seq<Turn>, last: int, u: int)
    requires Inv(s)
    ensures var r := Spin(s, limit, checkNow, turns, last);
            && (r.finished && r.state.tree == map[] ==> r.nextDeadline == MAX_INT64)
            && (r.finished && r.state.tree != map[] ==>
                  && (Pending(r.state, u) ==> r.nextDeadline <= r.state.tasks[u].deadline)
                  && exists v :: Pending(r.state, v) && r.state.tasks[v].deadline == r.nextDeadline)
    decreases |turns|
  {
    hide ApplyAll, Waits, Inv, Pending;
    if s.tree != map[] && turns != [] {
      var k, now := First(s.tree), turns[0].now;
      if Waits(k.deadline, limit, checkNow, now) {
        FirstIsEarliest(s, u);
      } else {
        DequeueKeepsInv(s, k);
        ScriptKeepsInv(s.(tree := s.tree - {k}), turns[0].script);
        SpinReportsTheNext(ApplyAll(s.(tree := s.tree - {k}), turns[0].script), limit, checkNow, turns[1..], now, u);
      }
    }
  }

  lemma {:induction false} FirstIsEarliest(s: State, u: int)
    requires Inv(s) && s.tree != map[]
    ensures Pending(s, u) ==> First(s.tree).deadline <= s.tasks[u].deadline
    ensures exists v :: Pending(s, v) && s.tasks[v].deadline == First(s.tree).deadline
  {
    var k := First(s.tree);
    assert EntryAt(s, k);
    assert Pending(s, s.tree[k]);
    if Pending(s, u) {
      assert EntryAt(s, s.tasks[u].key);
    }
  }

  function Lateness(r: Run): int
    requires r.task in r.before.tasks
  {
    r.now - r.before.tasks[r.task].deadline
  }

  /** The worst lateness is the greatest one, or zero if no task was late. */
  lemma {:induction false} WorstIsGreatest(runs: seq<Run>)
    requires forall i :: 0 <= i < |runs| ==> runs[i].task in runs[i].before.tasks
    ensures forall i :: 0 <= i < |runs| ==> Lateness(runs[i]) <= Worst(runs)
    ensures Worst(runs) == 0 || exists i :: 0 <= i < |runs| && Lateness(runs[i]) == Worst(runs)
    ensures Worst(runs) >= 0
  {
    if runs != [] {
      WorstIsGreatest(runs[1..]);
      forall i | 0 <= i < |runs| ensures Lateness(runs[i]) <= Worst(runs) {
        if i > 0 {
          assert runs[1..][i - 1] == runs[i];
        }
      }
      if Worst(runs) == Lateness(runs[0]) {
        assert Lateness(runs[0]) == Worst(runs);
      } else if Worst(runs) != 0 {
        var i :| 0 <= i < |runs[1..]| && Lateness(runs[1..][i]) == Worst(runs);
        assert Lateness(runs[i + 1]) == Worst(runs);
      }
    }
  }

  ghost predicate Quiet(turns: seq<Turn>, now: int) { forall i :: 0 <= i < |turns| ==> turns[i] == Turn(now, []) }

  ghost predicate RanIn(runs: seq<Run>, t: int) { exists i :: 0 <= i < |runs| && runs[i].task == t }

  lemma {:induction false} RanFirstOrLater(r: Run, rest: seq<Run>, t: int)
    ensures RanIn([r] + rest, t) <==> r.task == t || RanIn(rest, t)
  {
    assert ([r] + rest)[0] == r;
    if RanIn(rest, t) {
      var i :| 0 <= i < |rest| && rest[i].task == t;
      assert ([r] + rest)[i + 1].task == t;
    }
  }

  /** With callbacks that leave the scheduler alone, a spin ends and runs exactly what is due. */
  lemma {:induction false} QuietSpinRunsWhatIsDue(
      s: State, limit: int, checkNow: bool, turns: seq<Turn>, now: int, last: int, t: int)
    requires Inv(s) && Quiet(turns, now) && |turns| > |s.tree|
    ensures var r := Spin(s, limit, checkNow, turns, last);
            && r.finished
            && (RanIn(r.runs, t) <==>
                Pending(s, t) && s.tasks[t].deadline <= limit && (checkNow ==> s.tasks[t].deadline <= now))
    decreases |turns|
  {
    if s.tree != map[] {
      var k := First(s.tree);
      assert EntryAt(s, k);
      FirstRuns(s, limit, checkNow, now);
      if !Waits(k.deadline, limit, checkNow, now) {
        var d := s.(tree := s.tree - {k});
        DequeueKeepsInv(s, k);
        CardinalityFalls(s.tree, k);
        assert ApplyAll(d, []) == d;
        if Pending(s, t) {
          assert EntryAt(s, s.tasks[t].key);
        }
        hide Inv, Waits, Before;
        QuietSpinRunsWhatIsDue(d, limit, checkNow, turns[1..], now, now, t);
        RanFirstOrLater(Run(s.tree[k], now, s), Spin(d, limit, checkNow, turns[1..], now).runs, t);
        hide RanIn;
      }
    }
  }

  lemma {:induction false} CardinalityFalls(tree: map<Key, int>, k: Key)
    requires k in tree
    ensures |tree - {k}| == |tree| - 1
  {
    assert (tree - {k}).Keys == tree.Keys - {k};
    assert |tree - {k}| == |(tree - {k}).Keys| && |tree| == |tree.Keys|;
  }
}
