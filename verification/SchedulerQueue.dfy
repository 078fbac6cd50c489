/** The scheduler with tasks that are updated in place and a loop that runs them. */
module SchedulerQueue {
  import opened Wire
  import S = Scheduler

  class Task {
    const id: int
    var deadline: int
    var seqno: int
    var active: bool
    var key: S.Key

    constructor (id: int, deadline: int, key: S.Key)
      ensures this.id == id && Info() == S.Task(deadline, key.seqno, true, key)
    {
      this.id, this.deadline, this.key := id, deadline, key;
      seqno, active := key.seqno, true;
    }

    ghost function Info(): S.Task
      reads this
    {
      S.Task(deadline, seqno, active, key)
    }
  }

  class Queue {
    var tree: map<S.Key, Task>
    /** Every task ever handed out, by the number it was created with. */
    var tasks: map<int, Task>
    var nextSeqno: int

    ghost var state: S.State
    ghost var Repr: set<Task>

    /** The fields hold what `state` says. */
    ghost predicate Valid()
      reads this, Repr
    {
      && nextSeqno == state.nextSeqno
      && tasks.Keys == state.tasks.Keys
      && (forall i :: i in tasks ==> TaskAt(i))
      && tree.Keys == state.tree.Keys
      && (forall k :: k in tree ==> EntryAt(k))
    }

    ghost predicate TaskAt(i: int)
      requires i in tasks
      reads this, Repr
    {
      tasks[i] in Repr && i in state.tasks && tasks[i].id == i && tasks[i].Info() == state.tasks[i]
    }

    ghost predicate EntryAt(k: S.Key)
      requires k in tree
      reads this
    {
      k in state.tree && state.tree[k] in tasks && tree[k] == tasks[state.tree[k]]
    }

    ghost function Value(): S.State
      reads this
    {
      state
    }

    constructor ()
      ensures Valid() && Value() == S.Empty()
    {
      tree, tasks, nextSeqno := map[], map[], 0;
      state, Repr := S.Empty(), {};
    }

    method Schedule(deadline: int) returns (task: Task)
      requires Valid() && S.Inv(Value())
      modifies this
      ensures Valid() && fresh(Repr - old(Repr))
      ensures Value() == S.Schedule(old(Value()), deadline) && task.id == old(nextSeqno)
    {
      task := new Task(nextSeqno, deadline, S.Key(deadline, nextSeqno));
      Enter(task);
    }

    /** Enters a new task into the tree and the list of tasks. */
    method Enter(task: Task)
      requires Valid() && S.Inv(Value()) && task !in Repr
      requires task.id == nextSeqno
               && task.Info() == S.Task(task.deadline, nextSeqno, true, S.Key(task.deadline, nextSeqno))
      modifies this
      ensures Valid() && Repr == old(Repr) + {task}
      ensures Value() == S.Schedule(old(Value()), task.deadline)
    {
      var k := S.Key(task.deadline, nextSeqno);
      ScheduleShape(state, task.deadline);
      hide S.Inv, S.Schedule;
      tree := tree[k := task];
      tasks := tasks[nextSeqno := task];
      nextSeqno := nextSeqno + 1;
      state := S.Schedule(state, task.deadline);
      Repr := Repr + {task};
      forall i | i in tasks ensures TaskAt(i) {
        assert i != task.id ==> old(i in tasks && TaskAt(i));
      }
      forall j | j in tree ensures EntryAt(j) {
        assert j != k ==> old(j in tree && EntryAt(j));
      }
      hide TaskAt, EntryAt;
    }

    method Cancel(task: Task)
      requires Valid() && task.id in tasks && tasks[task.id] == task
      modifies `tree, `state, task
      ensures Valid() && Value() == S.Cancel(old(Value()), task.id)
    {
      tree := tree - {task.key};
      task.active := false;
      task.key := S.ZERO;
      state := S.Cancel(state, task.id);
    }

    method Reschedule(task: Task, newDeadline: int)
      requires Valid() && task.id in tasks && tasks[task.id] == task
      modifies `tree, `nextSeqno, `state, task
      ensures Valid() && Value() == S.Reschedule(old(Value()), task.id, newDeadline)
    {
      assert TaskAt(task.id);
      RescheduleShape(state, task.id, newDeadline);
      hide S.Reschedule;
      if !task.active {
        return;
      }
      var k := S.Key(newDeadline, nextSeqno);
      tree := tree - {task.key};
      nextSeqno := nextSeqno + 1;
      task.deadline := newDeadline;
      task.seqno := k.seqno;
      task.key := k;
      tree := tree[k := task];
      state := S.Reschedule(state, task.id, newDeadline);
      forall i | i in tasks ensures TaskAt(i) {
        assert old(i in tasks && TaskAt(i));
      }
      forall j | j in tree ensures EntryAt(j) {
        assert j != k ==> old(j in tree && EntryAt(j));
      }
      hide TaskAt, EntryAt;
    }

    method First() returns (k: S.Key)
      requires tree != map[] && Valid()
      ensures k in tree && Value().tree != map[] && k == S.First(Value().tree)
    {
      var rest := tree.Keys;
      k :| k in rest;
      rest := rest - {k};
      while rest != {}
        invariant rest <= tree.Keys && k in tree
        invariant forall j :: j in tree && j !in rest && j != k ==> S.Before(k, j)
        decreases |rest|
      {
        var x :| x in rest;
        if S.Before(x, k) {
          k := x;
        }
        rest := rest - {x};
      }
      ghost var t := Value().tree;
      assert k in t;
      assert S.IsFirst(t, k);
      assert S.IsFirst(t, S.First(t));
    }

    /** What a callback does. */
    method Perform(script: seq<S.Op>)
      requires Valid() && S.Inv(Value())
      modifies this, Repr
      ensures Valid() && fresh(Repr - old(Repr))
      ensures Value() == S.ApplyAll(old(Value()), script) && S.Inv(Value())
    {
      hide S.Inv, S.Schedule, S.Cancel, S.Reschedule;
      ghost var s := Value();
      var i := 0;
      while i < |script|
        invariant 0 <= i <= |script|
        invariant Valid() && fresh(Repr - old(Repr))
        invariant Value() == S.ApplyAll(s, script[..i]) && S.Inv(Value())
      {
        S.ApplyKeepsInv(Value(), script[i]);
        assert script[..i + 1][..i] == script[..i];
        PerformOne(script[i]);
        i := i + 1;
      }
      assert script[..i] == script;
    }

    method PerformOne(op: S.Op)
      requires Valid() && S.Inv(Value())
      modifies this, Repr
      ensures Valid() && fresh(Repr - old(Repr))
      ensures Value() == S.Apply(old(Value()), op)
    {
      match op {
        case DoSchedule(d) =>
          var t := Schedule(d);
        case DoCancel(id) =>
          if id in tasks {
            Cancel(tasks[id]);
          }
        case DoReschedule(id, d) =>
          if id in tasks {
            Reschedule(tasks[id], d);
          }
      }
    }

    /** Takes the first task out of the tree, unless it has to wait. */
    method TakeFirst(limit: int, checkNow: bool, now: int) returns (waits: bool, task: Task)
      requires Valid() && S.Inv(Value()) && tree != map[]
      modifies `tree, `state
      ensures Valid() && old(Value().tree) != map[]
      ensures (var s := old(Value());
               && waits == S.Waits(S.First(s.tree).deadline, limit, checkNow, now)
               && task.id == s.tree[S.First(s.tree)] && task.id in s.tasks
               && task.deadline == s.tasks[task.id].deadline == S.First(s.tree).deadline
               && Value() == if waits then s else s.(tree := s.tree - {S.First(s.tree)}))
    {
      hide S.Inv, S.First;
      var k := First();
      task := tree[k];
      EntryHolds(state, k);
      assert EntryAt(k) && TaskAt(state.tree[k]);
      waits := (checkNow && task.deadline > now) || task.deadline > limit;
      if !waits {
        tree := tree - {task.key};
        state := state.(tree := state.tree - {task.key});
        forall i | i in tasks ensures TaskAt(i) {
          assert old(i in tasks && TaskAt(i));
        }
        forall j | j in tree ensures EntryAt(j) {
          assert old(j in tree && EntryAt(j));
        }
        hide TaskAt, EntryAt;
      }
    }

    /** Runs due tasks over the given turns and reports the next deadline, the worst lateness and the clock. */
    method Spin(limit: int, checkNow: bool, turns: seq<S.Turn>)
      returns (finished: bool, nextDeadline: int, worst: int, now: int, ghost runs: seq<S.Run>)
      requires Valid() && S.Inv(Value())
      modifies this, Repr
      ensures Valid() && S.Inv(Value())
      ensures S.Spun(Value(), runs, finished, nextDeadline, now) == S.Spin(old(Value()), limit, checkNow, turns, 0)
      ensures (forall i :: 0 <= i < |runs| ==> runs[i].task in runs[i].before.tasks) && worst == S.Worst(runs)
    {
      hide S.Inv, S.ApplyAll, S.First, S.Waits, S.Spin, Joined, Valid;
      JoinedNothing(S.Spin(Value(), limit, checkNow, turns, 0));
      assert turns[0..] == turns;
      ghost var s0 := Value();
      var i := 0;
      worst, now, nextDeadline := 0, 0, S.MAX_INT64;
      runs := [];
      TreeIsEmpty();
      while tree != map[] && i < |turns|
        invariant 0 <= i <= |turns| && Valid() && S.Inv(Value()) && nextDeadline == S.MAX_INT64
        invariant fresh(Repr - old(Repr))
        invariant S.Spin(s0, limit, checkNow, turns, 0)
                  == Joined(runs, S.Spin(Value(), limit, checkNow, turns[i..], now))
        invariant (forall j :: 0 <= j < |runs| ==> runs[j].task in runs[j].before.tasks) && worst == S.Worst(runs)
        invariant tree == map[] <==> Value().tree == map[]
        decreases |turns| - i
      {
        ghost var s, last, was := Value(), now, runs;
        now := turns[i].now;
        SpinWaits(s, limit, checkNow, turns[i..], last);
        var waits, task := TakeFirst(limit, checkNow, now);
        if waits {
          JoinedEnd(runs, s, true, task.deadline, now);
          return true, task.deadline, worst, now, runs;
        }
        var lateness := now - task.deadline;
        ghost var run := S.Run(task.id, now, s);
        WorstOfMore(runs, run);
        runs := runs + [run];
        if lateness > worst {
          worst := lateness;
        }
        S.DequeueKeepsInv(s, S.First(s.tree));
        S.ScriptKeepsInv(Value(), turns[i].script);
        SpinOne(s, limit, checkNow, turns[i..], last);
        Perform(turns[i].script);
        JoinedTwice(was, run, S.Spin(Value(), limit, checkNow, turns[i + 1..], now));
        i := i + 1;
        TreeIsEmpty();
      }
      finished := tree == map[];
      SpinStops(Value(), limit, checkNow, turns[i..], now);
      JoinedEnd(runs, Value(), finished, S.MAX_INT64, now);
    }

    lemma TreeIsEmpty()
      requires Valid()
      ensures tree == map[] <==> Value().tree == map[]
    {
      assert tree == map[] <==> tree.Keys == {};
      assert Value().tree == map[] <==> Value().tree.Keys == {};
    }
  }

  ghost function Joined(runs: seq<S.Run>, rest: S.Spun): S.Spun { rest.(runs := runs + rest.runs) }

  lemma {:induction false} JoinedNothing(x: S.Spun)
    ensures Joined([], x) == x
  {
    assert [] + x.runs == x.runs;
  }

  lemma {:induction false} JoinedEnd(runs: seq<S.Run>, s: S.State, finished: bool, next: int, now: int)
    ensures Joined(runs, S.Spun(s, [], finished, next, now)) == S.Spun(s, runs, finished, next, now)
  {
    assert runs + [] == runs;
  }

  lemma {:induction false} JoinedTwice(runs: seq<S.Run>, run: S.Run, x: S.Spun)
    ensures Joined(runs, Joined([run], x)) == Joined(runs + [run], x)
  {
    assert runs + ([run] + x.runs) == (runs + [run]) + x.runs;
  }

  lemma {:induction false} SpinStops(s: S.State, limit: int, checkNow: bool, turns: seq<S.Turn>, last: int)
    requires s.tree == map[] || turns == []
    ensures S.Spin(s, limit, checkNow, turns, last) == S.Spun(s, [], s.tree == map[], S.MAX_INT64, last)
  {
  }

  lemma {:induction false} SpinWaits(s: S.State, limit: int, checkNow: bool, turns: seq<S.Turn>, last: int)
    requires s.tree != map[] && turns != []
    ensures S.Waits(S.First(s.tree).deadline, limit, checkNow, turns[0].now) ==>
              S.Spin(s, limit, checkNow, turns, last) == S.Spun(s, [], true, S.First(s.tree).deadline, turns[0].now)
  {
  }

  lemma {:induction false} SpinOne(s: S.State, limit: int, checkNow: bool, turns: seq<S.Turn>, last: int)
    requires s.tree != map[] && turns != [] && !S.Waits(S.First(s.tree).deadline, limit, checkNow, turns[0].now)
    ensures var k, now := S.First(s.tree), turns[0].now;
            S.Spin(s, limit, checkNow, turns, last) ==
            Joined([S.Run(s.tree[k], now, s)],
                   S.Spin(S.ApplyAll(s.(tree := s.tree - {k}), turns[0].script), limit, checkNow, turns[1..], now))
  {
  }

  lemma {:induction false} ScheduleShape(s: S.State, deadline: int)
    requires S.Inv(s)
    ensures var t, k := S.Schedule(s, deadline), S.Key(deadline, s.nextSeqno);
            && s.nextSeqno !in s.tasks
            && t == S.State(s.tree[k := s.nextSeqno], s.tasks[s.nextSeqno := S.Task(deadline, s.nextSeqno, true, k)],
                            s.nextSeqno + 1)
  {
    assert S.KeyAt(s, s.nextSeqno);
  }

  lemma {:induction false} RescheduleShape(s: S.State, t: int, deadline: int)
    requires t in s.tasks
    ensures !s.tasks[t].active ==> S.Reschedule(s, t, deadline) == s
    ensures var k := S.Key(deadline, s.nextSeqno);
            s.tasks[t].active ==>
              S.Reschedule(s, t, deadline) ==
              S.State((s.tree - {s.tasks[t].key})[k := t], s.tasks[t := S.Task(deadline, s.nextSeqno, true, k)],
                      s.nextSeqno + 1)
  {
  }

  lemma {:induction false} EntryHolds(s: S.State, k: S.Key)
    requires S.Inv(s) && k in s.tree
    ensures s.tree[k] in s.tasks && s.tasks[s.tree[k]].key == k && s.tasks[s.tree[k]].deadline == k.deadline
  {
    assert S.EntryAt(s, k);
  }

  lemma {:induction false} WorstOfMore(runs: seq<S.Run>, r: S.Run)
    requires forall i :: 0 <= i < |runs| ==> runs[i].task in runs[i].before.tasks
    requires r.task in r.before.tasks
    ensures S.Worst(runs + [r]) == Max(S.Worst(runs), r.now - r.before.tasks[r.task].deadline)
  {
    if runs != [] {
      WorstOfMore(runs[1..], r);
      assert (runs + [r])[1..] == runs[1..] + [r];
    } else {
      assert ([] + [r])[1..] == [];
    }
  }
}
