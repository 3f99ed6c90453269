/** HThreadPool: the members that change the pool's fields. */
module ThreadPool {
  import opened Bytes

  /** A committed callable, named by a number. */
  type Task = nat

  datatype Status = Stopped | Running | Paused

  /** The fields all threads share. */
  datatype Shared = Shared(status: Status, cur: int, idle: int, tasks: seq<Task>)

  /** What the locked section of the worker loop decides. */
  datatype Verdict = Leave | Shrink | Again | Run(task: Task)

  /** commit: is another thread wanted? The signed idle count is compared as an unsigned number. */
  predicate Grows(s: Shared, max: int) {
    0 <= s.idle <= |s.tasks| && s.cur < max
  }

  /** The worker's decision once it has waited for a task, for stop(), or for max_idle_time. */
  function Decide(s: Shared, min: int): Verdict {
    if s.status == Stopped then Leave
    else if s.tasks == [] then (if s.cur > min then Shrink else Again)
    else Run(s.tasks[0])
  }

  function Decided(s: Shared, v: Verdict): Shared
    requires v.Run? ==> s.tasks != []
  {
    if v.Run? then s.(idle := s.idle - 1, tasks := s.tasks[1..]) else s
  }

  function Grown(s: Shared): Shared { s.(cur := s.cur + 1, idle := s.idle + 1) }

  function Shrunk(s: Shared): Shared { s.(cur := s.cur - 1, idle := s.idle - 1) }

  function StartCount(asked: int, min: int, max: int): int {
    var n := if asked < min then min else asked;
    if n > max then max else n
  }

  // ----- the members -----

  datatype ThreadData = ThreadData(id: nat, stopped: bool, stopTime: int)

  /** delThread's walk: threads that stopped before `now` are joined, thread `id` is marked with the time `stamp`. */
  function Swept(ts: seq<ThreadData>, id: nat, now: int, stamp: int): (r: seq<ThreadData>)
    ensures |r| <= |ts|
  {
    if ts == [] then []
    else if ts[0].stopped && now > ts[0].stopTime then Swept(ts[1..], id, now, stamp)
    else if ts[0].id == id then [ThreadData(id, true, stamp)] + Swept(ts[1..], id, now, stamp)
    else [ts[0]] + Swept(ts[1..], id, now, stamp)
  }

  /** A running thread stays in the list as running exactly if it is not the one that leaves. */
  lemma {:induction false} SweepKeepsRunning(ts: seq<ThreadData>, id: nat, now: int, stamp: int, t: ThreadData)
    requires !t.stopped
    ensures t in Swept(ts, id, now, stamp) <==> t in ts && t.id != id
  {
    if ts != [] {
      SweepKeepsRunning(ts[1..], id, now, stamp, t);
      assert t in ts <==> t == ts[0] || t in ts[1..];
    }
  }

  /** A stopped thread that is dropped has been stopped since before `now`: it is joined first. */
  lemma {:induction false} SweepKeepsRecent(ts: seq<ThreadData>, id: nat, now: int, stamp: int, t: ThreadData)
    requires t in ts && t.stopped && t.id != id
    ensures t in Swept(ts, id, now, stamp) <==> now <= t.stopTime
  {
    if t in ts[1..] {
      SweepKeepsRecent(ts[1..], id, now, stamp, t);
    } else if now > t.stopTime {
      SweepDropsOld(ts[1..], id, now, stamp, t);
    }
  }

  lemma {:induction false} SweepDropsOld(ts: seq<ThreadData>, id: nat, now: int, stamp: int, t: ThreadData)
    requires t.stopped && t.id != id && now > t.stopTime
    ensures t !in Swept(ts, id, now, stamp)
  {
    if ts != [] {
      SweepDropsOld(ts[1..], id, now, stamp, t);
    }
  }

  class HThreadPool {
    const min: int
    const max: int
    var status: Status
    var cur: int
    var idle: int
    var tasks: seq<Task>
    var threads: seq<ThreadData>

    function Fields(): Shared
      reads this
    {
      Shared(status, cur, idle, tasks)
    }

    constructor (min: int, max: int)
      ensures this.min == min && this.max == max
      ensures Fields() == Shared(Stopped, 0, 0, []) && threads == []
    {
      this.min, this.max := min, max;
      status, cur, idle, tasks, threads := Stopped, 0, 0, [], [];
    }

    method Pause()
      modifies this`status
      ensures status == if old(status) == Running then Paused else old(status)
    {
      if status == Running {
        status := Paused;
      }
    }

    method Resume()
      modifies this`status
      ensures status == if old(status) == Paused then Running else old(status)
    {
      if status == Paused {
        status := Running;
      }
    }

    /** The locked section of commit. */
    method Push(task: Task)
      modifies this`tasks
      ensures Fields() == old(Fields()).(tasks := old(tasks) + [task])
    {
      tasks := tasks + [task];
    }

    /** The locked section of the worker loop, up to the call of delThread. */
    method Take() returns (v: Verdict)
      modifies this`tasks, this`idle
      ensures v == Decide(old(Fields()), min) && Fields() == Decided(old(Fields()), v)
    {
      if status == Stopped {
        return Leave;
      }
      if |tasks| == 0 {
        if cur > min {
          return Shrink;
        }
        return Again;
      }
      idle := idle - 1;
      v := Run(tasks[0]);
      tasks := tasks[1..];
    }

    method AddThread(id: nat)
      modifies this`cur, this`idle, this`threads
      ensures Fields() == Grown(old(Fields()))
      ensures threads == old(threads) + [ThreadData(id, false, 0)]
    {
      cur := cur + 1;
      idle := idle + 1;
      threads := threads + [ThreadData(id, false, 0)];
    }

    /** `now` is the clock on entry, `stamp` the clock when the thread is marked. */
    method DelThread(id: nat, now: int, stamp: int)
      modifies this`cur, this`idle, this`threads
      ensures Fields() == Shrunk(old(Fields()))
      ensures threads == Swept(old(threads), id, now, stamp)
    {
      cur := cur - 1;
      idle := idle - 1;
      assert threads[..0] + Swept(threads[0..], id, now, stamp) == Swept(threads, id, now, stamp);
      var i := 0;
      while i < |threads|
        invariant 0 <= i <= |threads| && Fields() == Shrunk(old(Fields()))
        invariant threads[..i] + Swept(threads[i..], id, now, stamp) == Swept(old(threads), id, now, stamp)
        decreases |threads| - i
      {
        SweptStep(threads, i, id, now, stamp);
        if threads[i].stopped && now > threads[i].stopTime {
          threads := threads[..i] + threads[i + 1..];
        } else {
          if threads[i].id == id {
            threads := threads[i := ThreadData(id, true, stamp)];
          }
          i := i + 1;
        }
      }
      assert threads[..i] == threads && threads[i..] == [] && Swept([], id, now, stamp) == [];
      assert threads + [] == threads;
    }
  }

  lemma SweptStep(ts: seq<ThreadData>, i: nat, id: nat, now: int, stamp: int)
    requires i < |ts|
    ensures var t := ts[i];
      ts[..i] + Swept(ts[i..], id, now, stamp) ==
      if t.stopped && now > t.stopTime then
        (var us := ts[..i] + ts[i + 1..];
         us[..i] + Swept(us[i..], id, now, stamp))
      else
        (var us := if t.id == id then ts[i := ThreadData(id, true, stamp)] else ts;
         us[..i + 1] + Swept(us[i + 1..], id, now, stamp))
  {
    hide Swept;
    var t := ts[i];
    SweptHead(ts[i..], id, now, stamp);
    assert ts[i..][1..] == ts[i + 1..];
    if t.stopped && now > t.stopTime {
      var us := ts[..i] + ts[i + 1..];
      assert us[..i] == ts[..i] && us[i..] == ts[i + 1..];
    } else {
      var us := if t.id == id then ts[i := ThreadData(id, true, stamp)] else ts;
      assert us[i + 1..] == ts[i + 1..] && us[..i + 1] == ts[..i] + [us[i]];
      Assoc(ts[..i], [us[i]], Swept(ts[i + 1..], id, now, stamp));
    }
  }

  lemma SweptHead(ts: seq<ThreadData>, id: nat, now: int, stamp: int)
    requires ts != []
    ensures Swept(ts, id, now, stamp) ==
      if ts[0].stopped && now > ts[0].stopTime then Swept(ts[1..], id, now, stamp)
      else [if ts[0].id == id then ThreadData(id, true, stamp) else ts[0]] + Swept(ts[1..], id, now, stamp)
  {
  }
}
