/** What holds of every state that some interleaving of clients and workers reaches, and where it stops holding. */
module ThreadPoolRuns {
  import opened Counting
  import opened ThreadPool
  import opened ThreadPoolSteps

  ghost predicate Follows(s: State, t: State, lim: Limits) {
    exists step :: Enabled(s, step) && t == Apply(s, step, lim)
  }

  /** The states an interleaving passes, from a fresh pool on. */
  ghost predicate Trace(tr: seq<State>, lim: Limits) {
    |tr| > 0 && Initial(tr[0]) && forall i :: 0 <= i < |tr| - 1 ==> Follows(tr[i], tr[i + 1], lim)
  }

  lemma {:induction false} TraceInv(tr: seq<State>, lim: Limits, i: nat)
    requires Trace(tr, lim) && i < |tr|
    ensures Inv(tr[i], lim)
  {
    hide Initial, Inv, Enabled, Apply;
    if i == 0 {
      InitialInv(tr[0], lim);
    } else {
      TraceInv(tr, lim, i - 1);
      assert Follows(tr[i - 1], tr[i - 1 + 1], lim);
      var step :| Enabled(tr[i - 1], step) && tr[i] == Apply(tr[i - 1], step, lim);
      StepKeepsInv(tr[i - 1], step, lim);
    }
  }

  // ----- what the pool promises, in every state reached by any interleaving -----

  /** Tasks are taken in commit order; each runs at most once, and it is the task committed under that number. */
  lemma TakenInCommitOrder(tr: seq<State>, lim: Limits, i: nat)
    requires Trace(tr, lim) && i < |tr|
    ensures var t := tr[i];
      t.taken <= t.committed && t.committed[|t.taken|..] == t.sh.tasks && |t.ran| == |t.taken| &&
      (forall k :: 0 <= k < |t.ran| ==> t.ran[k] == [] || t.ran[k] == [t.committed[k]]) &&
      (forall k :: 0 <= k < |t.ran| && t.ran[k] == [] ==> HeldBySome(t.workers, k))
  {
    TraceInv(tr, lim, i);
  }

  /** Until stop(), the counters are exact: idle + busy = current, and current counts the registered threads. */
  lemma CountersBalance(tr: seq<State>, lim: Limits, i: nat)
    requires Trace(tr, lim) && i < |tr| && !tr[i].stopping
    ensures var t := tr[i];
      t.sh.idle + Total(t.workers, Working) == t.sh.cur &&
      t.sh.cur == Total(t.workers, Live) - Total(t.clients, Pending) &&
      -Total(t.clients, Pending) <= t.sh.idle
  {
    TraceInv(tr, lim, i);
    WorkingAreLive(tr[i].workers);
  }

  lemma {:induction false} WorkingAreLive(ws: seq<Worker>)
    ensures Total(ws, Working) <= Total(ws, Live)
  {
    if ws != [] {
      WorkingAreLive(ws[1..]);
    }
  }

  /** A worker leaves only while at least the minimum stays. */
  lemma ShrinkingKeepsMinimum(tr: seq<State>, lim: Limits, i: nat, w: nat)
    requires Trace(tr, lim) && i < |tr| && !tr[i].stopping && w < |tr[i].workers| && tr[i].workers[w] == Shrinking
    ensures ApplyWorker(tr[i], w, lim).sh.cur >= lim.min
  {
    TraceInv(tr, lim, i);
    TotalBound(tr[i].workers, Shrinks);
  }

  /** What wait() looks for means, when read at one moment, that every committed task has run. */
  lemma WaitIsRightAtOneMoment(tr: seq<State>, lim: Limits, i: nat)
    requires Trace(tr, lim) && i < |tr| && !tr[i].stopping && tr[i].sh.tasks == [] && tr[i].sh.idle == tr[i].sh.cur
    ensures |tr[i].ran| == |tr[i].committed|
    ensures forall k :: 0 <= k < |tr[i].ran| ==> tr[i].ran[k] == [tr[i].committed[k]]
  {
    var t := tr[i];
    TraceInv(tr, lim, i);
    TotalBound(t.workers, Working);
    assert t.taken == t.committed;
    forall k | 0 <= k < |t.ran| ensures t.ran[k] == [t.committed[k]] {
      NobodyHolds(t.workers, k);
    }
  }

  lemma NobodyHolds(ws: seq<Worker>, k: nat)
    requires forall w :: 0 <= w < |ws| ==> Working(ws[w]) == 0
    ensures !HeldBySome(ws, k)
  {
  }

  // ----- the minimum -----

  /** Some start() has still enough threads to create. */
  ghost predicate Owing(s: State, min: int) {
    exists c :: 0 <= c < |s.clients| && s.sh.cur + Owed(s.clients[c]) >= min
  }

  /** A running pool has the minimum, or a start() in progress will see to it. */
  ghost predicate Enough(s: State, min: int) {
    s.stopping || (0 <= s.sh.cur && (s.sh.status == Stopped || s.sh.cur >= min || Owing(s, min)))
  }

  lemma OwingStays(s: State, t: State, c: nat, min: int)
    requires |s.clients| == |t.clients| && Owing(s, min) && c < |s.clients|
    requires forall d :: 0 <= d < |s.clients| && d != c ==> t.clients[d] == s.clients[d]
    requires t.sh.cur >= s.sh.cur
    requires t.sh.cur >= min || t.sh.cur + Owed(t.clients[c]) >= s.sh.cur + Owed(s.clients[c])
    ensures t.sh.cur >= min || Owing(t, min)
  {
    var d :| 0 <= d < |s.clients| && s.sh.cur + Owed(s.clients[d]) >= min;
    assert d != c ==> t.clients[d] == s.clients[d];
    assert t.sh.cur < min ==> t.sh.cur + Owed(t.clients[d]) >= min;
  }

  lemma ClientKeepsEnough(s: State, c: nat, lim: Limits)
    requires Enabled(s, ClientStep(c)) && Enough(s, lim.min) && lim.min <= lim.max
    requires s.sh.status == Stopped && !s.stopping ==> s.clients[c].Set? || s.clients[c] == Looking
    ensures Enough(ApplyClient(s, c, lim), lim.min)
  {
    hide Owing;
    var t := ApplyClient(s, c, lim);
    assert t.clients == s.clients[c := t.clients[c]];
    if s.stopping {
    } else if s.clients[c].Set? {
      OwesAll(t, c, lim.min);
    } else if Owing(s, lim.min) {
      OwingStays(s, t, c, lim.min);
    }
  }

  lemma OwesAll(t: State, c: nat, min: int)
    requires c < |t.clients| && t.sh.cur + Owed(t.clients[c]) >= min
    ensures Owing(t, min)
  {
  }

  lemma StepKeepsEnough(s: State, step: Step, lim: Limits)
    requires Inv(s, lim) && Enabled(s, step) && Enough(s, lim.min) && 0 <= lim.min <= lim.max
    ensures Enough(Apply(s, step, lim), lim.min)
  {
    hide Accounted, NoneLost, Counted, Guarded, Owing;
    var t := Apply(s, step, lim);
    match step {
      case ClientStep(c) => ClientKeepsEnough(s, c, lim);
      case WorkerStep(w) =>
        WorkerAccounts(s, w, lim);
        WorkerGuard(s, w, lim);
        if Owing(s, lim.min) && t.sh.cur == s.sh.cur {
          SameOwing(s, t, lim.min);
        }
      case CallStart(c, asked) => if Owing(s, lim.min) { OwingStays(s, t, c, lim.min); }
      case CallCommit(c, task) => if Owing(s, lim.min) { OwingStays(s, t, c, lim.min); }
      case CallWait(c) => if Owing(s, lim.min) { OwingStays(s, t, c, lim.min); }
      case CurrentFirst(c) => if Owing(s, lim.min) { OwingStays(s, t, c, lim.min); }
      case _ => if Owing(s, lim.min) && t.sh.cur == s.sh.cur { SameOwing(s, t, lim.min); }
    }
  }

  lemma SameOwing(s: State, t: State, min: int)
    requires Owing(s, min) && t.clients == s.clients && t.sh.cur == s.sh.cur
    ensures Owing(t, min)
  {
    var d :| 0 <= d < |s.clients| && s.sh.cur + Owed(s.clients[d]) >= min;
    assert t.sh.cur + Owed(t.clients[d]) >= min;
  }

  lemma {:induction false} TraceKeepsEnough(tr: seq<State>, lim: Limits, i: nat)
    requires Trace(tr, lim) && i < |tr| && 0 <= lim.min <= lim.max
    ensures Enough(tr[i], lim.min)
  {
    hide Inv, Enabled, Apply;
    if i > 0 {
      TraceKeepsEnough(tr, lim, i - 1);
      TraceInv(tr, lim, i - 1);
      assert Follows(tr[i - 1], tr[i - 1 + 1], lim);
      var step :| Enabled(tr[i - 1], step) && tr[i] == Apply(tr[i - 1], step, lim);
      StepKeepsEnough(tr[i - 1], step, lim);
    }
  }

  /** A running pool has at least the minimum of threads whenever no start() is in progress. */
  lemma MinimumIsKept(tr: seq<State>, lim: Limits, i: nat)
    requires Trace(tr, lim) && i < |tr| && 0 <= lim.min <= lim.max
    requires !tr[i].stopping && tr[i].sh.status != Stopped
    requires forall c :: 0 <= c < |tr[i].clients| ==> Owed(tr[i].clients[c]) == 0
    ensures tr[i].sh.cur >= lim.min
  {
    TraceKeepsEnough(tr, lim, i);
  }

  // ----- the maximum -----

  /** Each client can start one thread more than the test allows. */
  ghost predicate Bounded(s: State, max: int) {
    s.stopping || s.sh.cur + Total(s.clients, Pending) <= max + |s.clients| - 1
  }

  lemma ClientKeepsBound(s: State, c: nat, lim: Limits)
    requires Enabled(s, ClientStep(c)) && Bounded(s, lim.max)
    ensures Bounded(ApplyClient(s, c, lim), lim.max) && |ApplyClient(s, c, lim).clients| == |s.clients|
  {
    hide Total;
    var t := ApplyClient(s, c, lim);
    TotalUpdate(s.clients, c, t.clients[c], Pending);
    TotalUpdate(s.clients, c, Register(FromCommit(0)), Pending);
    TotalBound(s.clients[c := Register(FromCommit(0))], Pending);
  }

  lemma StepKeepsBound(s: State, step: Step, lim: Limits)
    requires Inv(s, lim) && Enabled(s, step) && Bounded(s, lim.max) && 0 <= lim.max && 0 < |s.clients|
    ensures Bounded(Apply(s, step, lim), lim.max) && |Apply(s, step, lim).clients| == |s.clients|
  {
    hide Accounted, NoneLost, Counted, Guarded, Total, ApplyClient;
    match step {
      case ClientStep(c) => ClientKeepsBound(s, c, lim);
      case WorkerStep(w) => WorkerAccounts(s, w, lim);
      case StopEnds => TotalBound(s.clients, Pending);
      case PauseStep =>
      case ResumeStep =>
      case StopBegins =>
      case _ => CallKeepsBound(s, step, lim);
    }
  }

  lemma CallKeepsBound(s: State, step: Step, lim: Limits)
    requires Enabled(s, step) && Bounded(s, lim.max)
    requires step.CallStart? || step.CallCommit? || step.CallWait? || step.CurrentFirst?
    ensures Bounded(Apply(s, step, lim), lim.max) && |Apply(s, step, lim).clients| == |s.clients|
  {
    hide Total;
    var t := Apply(s, step, lim);
    TotalUpdate(s.clients, step.c, t.clients[step.c], Pending);
    assert t.clients == s.clients[step.c := t.clients[step.c]];
  }

  lemma {:induction false} TraceKeepsBound(tr: seq<State>, lim: Limits, i: nat)
    requires Trace(tr, lim) && i < |tr| && 0 <= lim.max && 0 < |tr[0].clients|
    ensures Bounded(tr[i], lim.max) && |tr[i].clients| == |tr[0].clients|
  {
    hide Inv, Enabled, Apply;
    if i == 0 {
      TotalBound(tr[0].clients, Pending);
    } else {
      TraceKeepsBound(tr, lim, i - 1);
      TraceInv(tr, lim, i - 1);
      assert Follows(tr[i - 1], tr[i - 1 + 1], lim);
      var step :| Enabled(tr[i - 1], step) && tr[i] == Apply(tr[i - 1], step, lim);
      StepKeepsBound(tr[i - 1], step, lim);
    }
  }

  /**
   * With n client threads the pool never has more than max + n - 1 threads, counted or not yet counted: one
   * client alone never exceeds the maximum.
   */
  lemma MaximumIsKept(tr: seq<State>, lim: Limits, i: nat)
    requires Trace(tr, lim) && i < |tr| && 0 <= lim.max && 0 < |tr[0].clients| && !tr[i].stopping
    ensures Total(tr[i].workers, Live) <= lim.max + |tr[0].clients| - 1
    ensures tr[i].sh.cur <= lim.max + |tr[0].clients| - 1
  {
    TraceInv(tr, lim, i);
    TraceKeepsBound(tr, lim, i);
    TotalBound(tr[i].clients, Pending);
  }

  // ----- growing -----

  /** Nobody has stopped or shrunk the pool. */
  predicate Steady(s: State) {
    !s.stopping && forall w :: 0 <= w < |s.workers| ==> s.workers[w] != Shrinking
  }

  /** Below the maximum there is an idle thread for every task in the queue, and for the one about to be pushed. */
  predicate Staffed(s: State, max: int) {
    |s.clients| == 1 && (s.sh.cur < max ==> s.sh.idle >= |s.sh.tasks| + if s.clients[0].Pushing? then 1 else 0)
  }

  lemma StepKeepsStaffed(s: State, step: Step, lim: Limits)
    requires Enabled(s, step) && Staffed(s, lim.max) && Steady(s) && Steady(Apply(s, step, lim))
    ensures Staffed(Apply(s, step, lim), lim.max)
  {
    match step {
      case ClientStep(c) => ClientKeepsStaffed(s, lim);
      case _ =>
    }
  }

  lemma ClientKeepsStaffed(s: State, lim: Limits)
    requires |s.clients| == 1 && Enabled(s, ClientStep(0)) && Staffed(s, lim.max)
    ensures Staffed(ApplyClient(s, 0, lim), lim.max)
  {
    hide StartCount;
  }

  lemma {:induction false} TraceKeepsStaffed(tr: seq<State>, lim: Limits, i: nat)
    requires Trace(tr, lim) && i < |tr| && |tr[0].clients| == 1 && forall j :: 0 <= j <= i ==> Steady(tr[j])
    ensures Staffed(tr[i], lim.max)
  {
    hide Enabled, Apply, Steady, Staffed;
    if i == 0 {
      FreshIsStaffed(tr[0], lim.max);
    } else {
      TraceKeepsStaffed(tr, lim, i - 1);
      assert Follows(tr[i - 1], tr[i - 1 + 1], lim);
      var step :| Enabled(tr[i - 1], step) && tr[i] == Apply(tr[i - 1], step, lim);
      StepKeepsStaffed(tr[i - 1], step, lim);
    }
  }

  lemma FreshIsStaffed(s: State, max: int)
    requires Initial(s) && |s.clients| == 1
    ensures Staffed(s, max)
  {
  }

  /**
   * A single client whose pool nobody has stopped or shrunk: while the pool is below its maximum, a finished commit
   * leaves at least as many idle threads as there are tasks in the queue.
   */
  lemma CommitLeavesIdleThreads(tr: seq<State>, lim: Limits, i: nat)
    requires Trace(tr, lim) && i < |tr| && |tr[0].clients| == 1 && forall j :: 0 <= j <= i ==> Steady(tr[j])
    requires tr[i].clients == [Ready] && tr[i].sh.cur < lim.max
    ensures tr[i].sh.idle >= |tr[i].sh.tasks|
  {
    TraceKeepsStaffed(tr, lim, i);
  }

  // ----- where it stops holding -----

  /** Some interleaving leads from a fresh pool to this state. */
  ghost predicate Reaches(s: State, t: State, lim: Limits) {
    exists tr :: Trace(tr, lim) && tr[0] == s && tr[|tr| - 1] == t
  }

  lemma ReachesItself(s: State, lim: Limits)
    requires Initial(s)
    ensures Reaches(s, s, lim)
  {
    assert Trace([s], lim);
  }

  lemma ReachesNext(s: State, t: State, step: Step, lim: Limits)
    requires Reaches(s, t, lim) && Enabled(t, step)
    ensures Reaches(s, Apply(t, step, lim), lim)
  {
    var tr :| Trace(tr, lim) && tr[0] == s && tr[|tr| - 1] == t;
    var u := Apply(t, step, lim);
    hide Enabled, Apply, Initial;
    assert Follows(t, u, lim);
    var more := tr + [u];
    forall i | 0 <= i < |more| - 1 ensures Follows(more[i], more[i + 1], lim) {
      if i < |tr| - 1 {
        assert more[i] == tr[i] && more[i + 1] == tr[i + 1];
      }
    }
    assert Trace(more, lim) && more[|more| - 1] == u;
  }

  /** One round of start()'s loop. */
  lemma CreatesOne(s: State, t: State, c: nat, lim: Limits) returns (u: State)
    requires Reaches(s, t, lim) && !t.stopping && t.sh.status == Running && t.sh.cur < lim.max
    requires c < |t.clients| && t.clients[c].Loop? && t.clients[c].left > 0
    ensures Reaches(s, u, lim)
    ensures u == t.(sh := Grown(t.sh), workers := t.workers + [Top],
                    clients := t.clients[c := Loop(t.clients[c].left - 1, t.clients[c].after)])
  {
    hide Reaches;
    var from := FromStart(t.clients[c].left - 1, t.clients[c].after);
    ReachesNext(s, t, ClientStep(c), lim);
    var a := Apply(t, ClientStep(c), lim);
    ReachesNext(s, a, ClientStep(c), lim);
    var b := Apply(a, ClientStep(c), lim);
    ReachesNext(s, b, ClientStep(c), lim);
    u := Apply(b, ClientStep(c), lim);
    assert u.clients == t.clients[c := Create(from)][c := Register(from)][c := Created(from)];
  }

  lemma {:induction false} CreatesMany(s: State, t: State, c: nat, n: nat, lim: Limits) returns (u: State)
    requires Reaches(s, t, lim) && !t.stopping && t.sh.status == Running && t.sh.cur + n <= lim.max
    requires c < |t.clients| && t.clients[c].Loop? && t.clients[c].left >= n
    ensures Reaches(s, u, lim)
    ensures u == t.(sh := t.sh.(cur := t.sh.cur + n, idle := t.sh.idle + n), workers := t.workers + Tops(n),
                    clients := t.clients[c := Loop(t.clients[c].left - n, t.clients[c].after)])
    decreases n
  {
    hide Reaches;
    if n == 0 {
      u := t;
      assert t.workers + Tops(0) == t.workers;
    } else {
      var v := CreatesOne(s, t, c, lim);
      u := CreatesMany(s, v, c, n - 1, lim);
      assert t.workers + [Top] + Tops(n - 1) == t.workers + Tops(n);
    }
  }

  function Tops(n: nat): (r: seq<Worker>)
    ensures |r| == n && forall w :: 0 <= w < n ==> r[w] == Top
  {
    seq(n, i => Top)
  }

  /** Two clients have read STOP, and both go through start(). */
  lemma BothStart(s: State, lim: Limits) returns (t: State)
    requires Initial(s) && |s.clients| >= 2 && 0 < lim.max
    ensures Reaches(s, t, lim) && !t.stopping && t.sh.status == Running && t.sh.cur == 0
    ensures t.clients == s.clients[0 := Loop(lim.max, Return)][1 := Loop(lim.max, Return)]
  {
    hide Reaches;
    ReachesItself(s, lim);
    ReachesNext(s, s, CallStart(0, lim.max), lim);
    var a := Apply(s, CallStart(0, lim.max), lim);
    ReachesNext(s, a, CallStart(1, lim.max), lim);
    var b := Apply(a, CallStart(1, lim.max), lim);
    ReachesNext(s, b, ClientStep(0), lim);
    var c := Apply(b, ClientStep(0), lim);
    ReachesNext(s, c, ClientStep(1), lim);
    t := Apply(c, ClientStep(1), lim);
  }

  /** Both pass createThread's test when one more thread is allowed, and then both are counted. */
  lemma BothPass(s: State, t: State, lim: Limits) returns (u: State)
    requires Reaches(s, t, lim) && !t.stopping && t.sh.cur == lim.max - 1 && |t.clients| >= 2
    requires t.clients[0].Loop? && t.clients[0].left > 0 && t.clients[1].Loop? && t.clients[1].left > 0
    ensures Reaches(s, u, lim) && !u.stopping && u.sh.cur == lim.max + 1
  {
    hide Reaches;
    ReachesNext(s, t, ClientStep(0), lim);
    var a := Apply(t, ClientStep(0), lim);
    ReachesNext(s, a, ClientStep(1), lim);
    var b := Apply(a, ClientStep(1), lim);
    ReachesNext(s, b, ClientStep(0), lim);
    var c := Apply(b, ClientStep(0), lim);
    ReachesNext(s, c, ClientStep(1), lim);
    var d := Apply(c, ClientStep(1), lim);
    ReachesNext(s, d, ClientStep(0), lim);
    var e := Apply(d, ClientStep(0), lim);
    ReachesNext(s, e, ClientStep(1), lim);
    u := Apply(e, ClientStep(1), lim);
  }

  ghost predicate ExceedsMaximum(t: State, lim: Limits) { !t.stopping && t.sh.cur > lim.max }

  /** Some interleaving exceeds the maximum exactly if there are two clients: test and count are two steps. */
  lemma MaximumHoldsIffOneClient(s: State, lim: Limits)
    requires Initial(s) && 0 < lim.max && 0 < |s.clients|
    ensures (forall t :: Reaches(s, t, lim) ==> !ExceedsMaximum(t, lim)) <==> |s.clients| == 1
  {
    if |s.clients| == 1 {
      forall t | Reaches(s, t, lim) ensures !ExceedsMaximum(t, lim) {
        var tr :| Trace(tr, lim) && tr[0] == s && tr[|tr| - 1] == t;
        if !t.stopping {
          MaximumIsKept(tr, lim, |tr| - 1);
        }
      }
    } else {
      var a := BothStart(s, lim);
      var b := CreatesMany(s, a, 0, lim.max - 1, lim);
      var c := BothPass(s, b, lim);
      assert ExceedsMaximum(c, lim);
    }
  }

  // ----- wait() -----

  /** A client's wait() is about to return although a task is queued or running. */
  predicate ReturnsEarly(s: State, c: nat) {
    !s.stopping && c < |s.clients| && (s.clients[c] == SawIdle(s.sh.cur) || s.clients[c] == SawCurrent(s.sh.idle)) &&
    (s.sh.tasks != [] || exists w :: 0 <= w < |s.workers| && s.workers[w].Busy?)
  }

  /**
   * What a single client has seen in wait() while it commits nothing: the queue stays empty; the idle count it read,
   * with the tasks still running, makes no more threads than the maximum; and fewer threads are left only if the pool
   * has shrunk, which it does down to the minimum at most. There are never more threads than it read there were.
   */
  predicate Seen(s: State, lim: Limits) {
    |s.clients| == 1 &&
    (s.clients[0].SawEmpty? || s.clients[0].SawIdle? || s.clients[0].SawCurrent? ==> s.sh.tasks == []) &&
    (s.clients[0].SawCurrent? && !s.stopping ==> s.sh.cur <= s.clients[0].current) &&
    (s.clients[0].SawIdle? && !s.stopping ==>
      var sum := s.clients[0].idle + Total(s.workers, Working);
      sum <= lim.max && (s.sh.cur >= lim.min || s.sh.cur >= sum))
  }

  lemma WorkerKeepsSeen(s: State, w: nat, lim: Limits)
    requires Inv(s, lim) && Enabled(s, WorkerStep(w)) && Seen(s, lim)
    ensures Seen(ApplyWorker(s, w, lim), lim)
  {
    hide Accounted, NoneLost, Counted, Total;
    var t := ApplyWorker(s, w, lim);
    var x, y := s.workers[w], t.workers[w];
    WorkerGuard(s, w, lim);
    assert t.workers == s.workers[w := y] && t.clients == s.clients;
    TotalUpdate(s.workers, w, y, Working);
    if s.clients[0].SawIdle? {
      assert Working(y) <= Working(x);
    }
  }

  lemma StepKeepsSeen(s: State, step: Step, lim: Limits)
    requires Inv(s, lim) && Enabled(s, step) && Seen(s, lim) && (s.stopping || s.sh.cur <= lim.max)
    ensures Seen(Apply(s, step, lim), lim)
  {
    hide Accounted, NoneLost, Guarded;
    match step {
      case WorkerStep(w) => WorkerKeepsSeen(s, w, lim);
      case _ =>
    }
  }

  lemma {:induction false} TraceKeepsSeen(tr: seq<State>, lim: Limits, i: nat)
    requires Trace(tr, lim) && i < |tr| && 0 <= lim.max && |tr[0].clients| == 1
    ensures Seen(tr[i], lim)
  {
    hide Inv, Enabled, Apply, Seen;
    if i == 0 {
      NothingSeen(tr[0], lim);
    } else {
      TraceKeepsSeen(tr, lim, i - 1);
      TraceInv(tr, lim, i - 1);
      if !tr[i - 1].stopping {
        MaximumIsKept(tr, lim, i - 1);
      }
      assert Follows(tr[i - 1], tr[i - 1 + 1], lim);
      var step :| Enabled(tr[i - 1], step) && tr[i] == Apply(tr[i - 1], step, lim);
      StepKeepsSeen(tr[i - 1], step, lim);
    }
  }

  lemma NothingSeen(s: State, lim: Limits)
    requires Initial(s) && |s.clients| == 1
    ensures Seen(s, lim)
  {
  }

  /** An early return needs room to shrink, and a second thread. */
  lemma EarlyNeedsRoom(tr: seq<State>, lim: Limits, i: nat)
    requires Trace(tr, lim) && i < |tr| && 0 <= lim.max && |tr[0].clients| == 1 && ReturnsEarly(tr[i], 0)
    ensures lim.min < lim.max && lim.max >= 2 && tr[i].clients[0].SawIdle?
  {
    var t := tr[i];
    TraceKeepsSeen(tr, lim, i);
    CountersBalance(tr, lim, i);
    TotalBound(t.workers, Working);
    assert t.clients == [t.clients[0]];
    assert Total(t.clients, Pending) == 0 by { assert t.clients[1..] == []; }
    var w :| 0 <= w < |t.workers| && t.workers[w].Busy?;
    assert Working(t.workers[w]) == 1;
  }

  /**
   * With a single client, a wait() that reads cur_thread_num before idle_thread_num is right: when it is about to
   * return, every task has run.
   */
  lemma CurrentFirstIsRight(tr: seq<State>, lim: Limits, i: nat)
    requires Trace(tr, lim) && i < |tr| && 0 <= lim.max && |tr[0].clients| == 1
    requires var t := tr[i]; |t.clients| == 1 && !t.stopping && t.clients[0] == SawCurrent(t.sh.idle)
    ensures var t := tr[i];
      |t.ran| == |t.committed| && forall k :: 0 <= k < |t.ran| ==> t.ran[k] == [t.committed[k]]
  {
    var t := tr[i];
    TraceKeepsSeen(tr, lim, i);
    CountersBalance(tr, lim, i);
    TotalBound(t.workers, Working);
    WaitIsRightAtOneMoment(tr, lim, i);
  }

  /** A state with one client and one worker that does something, among `max` threads. */
  function Pool(lim: Limits, cur: int, idle: int, tasks: seq<Task>, locked: bool, first: Worker, second: Worker,
                client: Client, taken: seq<Task>, ran: seq<seq<Task>>): State
    requires lim.max >= 2
  {
    State(Shared(Running, cur, idle, tasks), locked, false, [first, second] + Tops(lim.max - 2), [client],
          taken + tasks, taken, ran)
  }

  lemma FreshStart(asked: int, n: nat, lim: Limits) returns (t: State)
    requires n == StartCount(asked, lim.min, lim.max) && n <= lim.max
    ensures Reaches(FreshPool(), t, lim)
    ensures t == State(Shared(Running, n, n, []), false, false, Tops(n), [Ready], [], [], [])
  {
    hide Reaches;
    var s := FreshPool();
    ReachesItself(s, lim);
    ReachesNext(s, s, CallStart(0, asked), lim);
    var a := Apply(s, CallStart(0, asked), lim);
    ReachesNext(s, a, ClientStep(0), lim);
    var b := Apply(a, ClientStep(0), lim);
    assert b == State(Shared(Running, 0, 0, []), false, false, [], [Loop(n, Return)], [], [], []);
    var c := CreatesMany(s, b, 0, n, lim);
    ReachesNext(s, c, ClientStep(0), lim);
    t := Apply(c, ClientStep(0), lim);
    assert [] + Tops(n) == Tops(n);
  }

  /** start() on a fresh pool creates as many threads as asked for, within the limits. */
  lemma StartAlone(asked: int, lim: Limits) returns (t: State)
    requires 0 <= lim.min <= lim.max
    ensures Reaches(FreshPool(), t, lim)
    ensures var n := if asked < lim.min then lim.min else if asked <= lim.max then asked else lim.max;
      t == State(Shared(Running, n, n, []), false, false, Tops(n), [Ready], [], [], [])
  {
    t := FreshStart(asked, if asked < lim.min then lim.min else if asked <= lim.max then asked else lim.max, lim);
  }

  lemma FullPool(lim: Limits) returns (t: State)
    requires lim.max >= 2
    ensures Reaches(FreshPool(), t, lim)
    ensures t == Pool(lim, lim.max, lim.max, [], false, Top, Top, Ready, [], [])
  {
    t := FreshStart(lim.max, lim.max, lim);
    assert [Top, Top] + Tops(lim.max - 2) == Tops(lim.max);
  }

  /**
   * commit() on a running pool while nobody else does anything: it creates a thread exactly if the idle ones are no
   * more than the tasks already in the queue, and the maximum is not reached; then it queues its task.
   */
  lemma CommitAlone(s: State, t: State, c: nat, task: Task, lim: Limits) returns (u: State)
    requires Reaches(s, t, lim) && !t.stopping && !t.locked && t.sh.status == Running
    requires c < |t.clients| && t.clients[c] == Ready
    ensures Reaches(s, u, lim)
    ensures var n := if 0 <= t.sh.idle <= |t.sh.tasks| && t.sh.cur < lim.max then 1 else 0;
      u.sh == Shared(Running, t.sh.cur + n, t.sh.idle + n, t.sh.tasks + [task]) && u.clients == t.clients &&
      u.workers == t.workers + Tops(n)
  {
    hide Reaches;
    ReachesNext(s, t, CallCommit(c, task), lim);
    var v := Apply(t, CallCommit(c, task), lim);
    ReachesNext(s, v, ClientStep(c), lim);
    v := Apply(v, ClientStep(c), lim);
    if v.clients[c].Create? {
      v := CreatesForCommit(s, v, c, task, lim);
    }
    assert v.clients == t.clients[c := Pushing(task)];
    ReachesNext(s, v, ClientStep(c), lim);
    u := Apply(v, ClientStep(c), lim);
    assert u.clients == t.clients;
    assert t.workers + Tops(0) == t.workers && t.workers + Tops(1) == t.workers + [Top];
  }

  lemma CreatesForCommit(s: State, t: State, c: nat, task: Task, lim: Limits) returns (u: State)
    requires Reaches(s, t, lim) && c < |t.clients| && t.clients[c] == Create(FromCommit(task)) && t.sh.cur < lim.max
    ensures Reaches(s, u, lim)
    ensures u == t.(sh := Grown(t.sh), workers := t.workers + [Top], clients := t.clients[c := Pushing(task)])
  {
    hide Reaches;
    ReachesNext(s, t, ClientStep(c), lim);
    var v := Apply(t, ClientStep(c), lim);
    ReachesNext(s, v, ClientStep(c), lim);
    u := Apply(v, ClientStep(c), lim);
    assert u.clients == t.clients[c := Pushing(task)];
  }

  lemma WorkerMoves(s: State, t: State, w: nat, lim: Limits) returns (u: State)
    requires Reaches(s, t, lim) && w < |t.workers| && t.workers[w] == Top && t.sh.status == Running
    ensures Reaches(s, u, lim) && u == t.(workers := t.workers[w := Waiting])
  {
    hide Reaches;
    ReachesNext(s, t, WorkerStep(w), lim);
    var a := Apply(t, WorkerStep(w), lim);
    ReachesNext(s, a, WorkerStep(w), lim);
    u := Apply(a, WorkerStep(w), lim);
    assert t.workers[w := Spin][w := Waiting] == t.workers[w := Waiting];
  }

  /** One thread takes a task, a second is at its locked section. */
  lemma OneBusy(lim: Limits) returns (t: State)
    requires lim.max >= 2
    ensures Reaches(FreshPool(), t, lim)
    ensures t == Pool(lim, lim.max, lim.max - 1, [], false, Busy(0, 0), Waiting, Ready, [0], [[]])
  {
    hide Reaches;
    var s := FreshPool();
    var a := FullPool(lim);
    var b := WorkerMoves(s, a, 0, lim);
    var c := WorkerMoves(s, b, 1, lim);
    assert c.workers == [Waiting, Waiting] + Tops(lim.max - 2);
    t := TaskTaken(s, c, lim);
  }

  lemma TaskTaken(s: State, c: State, lim: Limits) returns (t: State)
    requires lim.max >= 2 && Reaches(s, c, lim)
    requires c == Pool(lim, lim.max, lim.max, [], false, Waiting, Waiting, Ready, [], [])
    ensures Reaches(s, t, lim)
    ensures t == Pool(lim, lim.max, lim.max - 1, [], false, Busy(0, 0), Waiting, Ready, [0], [[]])
  {
    hide Reaches;
    ReachesNext(s, c, CallCommit(0, 0), lim);
    var d := Apply(c, CallCommit(0, 0), lim);
    ReachesNext(s, d, ClientStep(0), lim);
    var e := Apply(d, ClientStep(0), lim);
    assert e.clients == [Pushing(0)];
    ReachesNext(s, e, ClientStep(0), lim);
    var f := Apply(e, ClientStep(0), lim);
    assert f == Pool(lim, lim.max, lim.max, [0], false, Waiting, Waiting, Ready, [], []);
    ReachesNext(s, f, WorkerStep(0), lim);
    t := Apply(f, WorkerStep(0), lim);
    assert t.workers == [Busy(0, 0), Waiting] + Tops(lim.max - 2);
  }

  /** The client reads the idle count; then a thread leaves; then the thread count is what the idle count was. */
  lemma ReadsTooEarly(lim: Limits) returns (t: State)
    requires lim.max >= 2 && lim.min < lim.max
    ensures Reaches(FreshPool(), t, lim) && ReturnsEarly(t, 0)
  {
    hide Reaches;
    var s := FreshPool();
    var a := OneBusy(lim);
    ReachesNext(s, a, CallWait(0), lim);
    var b := Apply(a, CallWait(0), lim);
    ReachesNext(s, b, ClientStep(0), lim);
    var c := Apply(b, ClientStep(0), lim);
    ReachesNext(s, c, ClientStep(0), lim);
    var d := Apply(c, ClientStep(0), lim);
    ReachesNext(s, d, ClientStep(0), lim);
    var e := Apply(d, ClientStep(0), lim);
    assert e == Pool(lim, lim.max, lim.max - 1, [], false, Busy(0, 0), Waiting, SawIdle(lim.max - 1), [0], [[]]);
    t := ThenOneLeaves(s, e, lim);
  }

  lemma ThenOneLeaves(s: State, e: State, lim: Limits) returns (t: State)
    requires lim.max >= 2 && lim.min < lim.max && Reaches(s, e, lim)
    requires e == Pool(lim, lim.max, lim.max - 1, [], false, Busy(0, 0), Waiting, SawIdle(lim.max - 1), [0], [[]])
    ensures Reaches(s, t, lim) && ReturnsEarly(t, 0)
  {
    hide Reaches;
    ReachesNext(s, e, WorkerStep(1), lim);
    var f := Apply(e, WorkerStep(1), lim);
    assert f.workers[1] == Shrinking;
    ReachesNext(s, f, WorkerStep(1), lim);
    t := Apply(f, WorkerStep(1), lim);
    assert t.workers[0].Busy?;
  }

  /**
   * wait() reads the queue and the two counters one after the other, the counters in either order. With a single
   * client, which commits nothing in the meantime, some interleaving makes it return while a task is queued or running
   * exactly if the pool can shrink and have two threads; and then it has read idle_thread_num first.
   */
  lemma WaitReturnsEarlyIff(lim: Limits)
    requires 0 <= lim.max
    ensures (exists t :: Reaches(FreshPool(), t, lim) && ReturnsEarly(t, 0)) <==> lim.min < lim.max && lim.max >= 2
    ensures forall t :: Reaches(FreshPool(), t, lim) && ReturnsEarly(t, 0) ==> t.clients[0].SawIdle?
  {
    forall t | Reaches(FreshPool(), t, lim) && ReturnsEarly(t, 0) ensures t.clients[0].SawIdle? {
      var tr :| Trace(tr, lim) && tr[0] == FreshPool() && tr[|tr| - 1] == t;
      EarlyNeedsRoom(tr, lim, |tr| - 1);
    }
    if lim.min < lim.max && lim.max >= 2 {
      var t := ReadsTooEarly(lim);
    } else {
      forall t | Reaches(FreshPool(), t, lim) ensures !ReturnsEarly(t, 0) {
        var tr :| Trace(tr, lim) && tr[0] == FreshPool() && tr[|tr| - 1] == t;
        if ReturnsEarly(t, 0) {
          EarlyNeedsRoom(tr, lim, |tr| - 1);
        }
      }
    }
  }

  // ----- tasks without a worker -----

  /** A running pool with a task in its queue, nobody creating a thread, and no thread to take the task. */
  predicate Stranded(t: State) {
    !t.stopping && t.sh.status == Running && t.sh.tasks != [] && Quiet(t.clients) &&
    forall w :: 0 <= w < |t.workers| ==> t.workers[w] == Gone
  }

  lemma {:induction false} NobodyLives(ws: seq<Worker>)
    requires forall w :: 0 <= w < |ws| ==> ws[w] == Gone
    ensures Total(ws, Live) == 0
  {
    if ws != [] {
      NobodyLives(ws[1..]);
    }
  }

  lemma MinimumPreventsStranding(tr: seq<State>, lim: Limits, i: nat)
    requires Trace(tr, lim) && i < |tr| && 1 <= lim.min <= lim.max
    ensures !Stranded(tr[i])
  {
    var t := tr[i];
    if Stranded(t) {
      MinimumIsKept(tr, lim, i);
      CountersBalance(tr, lim, i);
      NobodyLives(t.workers);
      TotalBound(t.clients, Pending);
    }
  }

  function FreshPool(): State { State(Shared(Stopped, 0, 0, []), false, false, [], [Ready], [], [], []) }

  /** The first commit starts the pool and creates its only thread. */
  lemma FirstCommit(a: Task, lim: Limits) returns (t: State)
    requires lim.min == 0 < lim.max
    ensures Reaches(FreshPool(), t, lim)
    ensures t == State(Shared(Running, 1, 1, [a]), false, false, [Top], [Ready], [a], [], [])
  {
    hide Reaches;
    var s, step := FreshPool(), ClientStep(0);
    ReachesItself(s, lim);
    ReachesNext(s, s, CallCommit(0, a), lim);
    var p := Apply(s, CallCommit(0, a), lim);
    ReachesNext(s, p, step, lim);
    var q := Apply(p, step, lim);
    ReachesNext(s, q, step, lim);
    var r := Apply(q, step, lim);
    assert r == State(Shared(Running, 0, 0, []), false, false, [], [Test(a)], [], [], []);
    t := TestedCommit(s, r, a, lim);
  }

  lemma TestedCommit(s: State, r: State, a: Task, lim: Limits) returns (t: State)
    requires Reaches(s, r, lim) && lim.max > 0
    requires r == State(Shared(Running, 0, 0, []), false, false, [], [Test(a)], [], [], [])
    ensures Reaches(s, t, lim)
    ensures t == State(Shared(Running, 1, 1, [a]), false, false, [Top], [Ready], [a], [], [])
  {
    hide Reaches;
    var step := ClientStep(0);
    ReachesNext(s, r, step, lim);
    var u := Apply(r, step, lim);
    ReachesNext(s, u, step, lim);
    var v := Apply(u, step, lim);
    ReachesNext(s, v, step, lim);
    var w := Apply(v, step, lim);
    ReachesNext(s, w, step, lim);
    t := Apply(w, step, lim);
  }

  /** The thread runs the task and waits for the next. */
  lemma TaskRuns(s: State, r: State, a: Task, lim: Limits) returns (t: State)
    requires Reaches(s, r, lim)
    requires r == State(Shared(Running, 1, 1, [a]), false, false, [Top], [Ready], [a], [], [])
    ensures Reaches(s, t, lim)
    ensures t == State(Shared(Running, 1, 1, []), false, false, [Waiting], [Ready], [a], [a], [[a]])
  {
    hide Reaches;
    var step := WorkerStep(0);
    ReachesNext(s, r, step, lim);
    var u := Apply(r, step, lim);
    ReachesNext(s, u, step, lim);
    var v := Apply(u, step, lim);
    ReachesNext(s, v, step, lim);
    var w := Apply(v, step, lim);
    assert w == State(Shared(Running, 1, 0, []), false, false, [Busy(0, a)], [Ready], [a], [a], [[]]);
    ReachesNext(s, w, step, lim);
    var x := Apply(w, step, lim);
    assert x == State(Shared(Running, 1, 0, []), false, false, [Done], [Ready], [a], [a], [[a]]);
    t := ThreadWaits(s, x, a, lim);
  }

  lemma ThreadWaits(s: State, x: State, a: Task, lim: Limits) returns (t: State)
    requires Reaches(s, x, lim)
    requires x == State(Shared(Running, 1, 0, []), false, false, [Done], [Ready], [a], [a], [[a]])
    ensures Reaches(s, t, lim)
    ensures t == State(Shared(Running, 1, 1, []), false, false, [Waiting], [Ready], [a], [a], [[a]])
  {
    hide Reaches;
    var step := WorkerStep(0);
    ReachesNext(s, x, step, lim);
    var y := Apply(x, step, lim);
    ReachesNext(s, y, step, lim);
    var z := Apply(y, step, lim);
    ReachesNext(s, z, step, lim);
    t := Apply(z, step, lim);
  }

  /** A second commit sees the idle thread and creates none; the thread leaves before the task is pushed. */
  lemma ThreadLeaves(s: State, r: State, a: Task, b: Task, lim: Limits) returns (t: State)
    requires Reaches(s, r, lim) && lim.min == 0
    requires r == State(Shared(Running, 1, 1, []), false, false, [Waiting], [Ready], [a], [a], [[a]])
    ensures Reaches(s, t, lim) && Stranded(t)
  {
    hide Reaches;
    ReachesNext(s, r, CallCommit(0, b), lim);
    var u := Apply(r, CallCommit(0, b), lim);
    ReachesNext(s, u, ClientStep(0), lim);
    var v := Apply(u, ClientStep(0), lim);
    assert v == State(Shared(Running, 1, 1, []), false, false, [Waiting], [Pushing(b)], [a], [a], [[a]]);
    ReachesNext(s, v, WorkerStep(0), lim);
    var w := Apply(v, WorkerStep(0), lim);
    ReachesNext(s, w, WorkerStep(0), lim);
    var x := Apply(w, WorkerStep(0), lim);
    ReachesNext(s, x, ClientStep(0), lim);
    t := Apply(x, ClientStep(0), lim);
  }

  /** A committed task can be left without any thread to run it exactly if the minimum is zero. */
  lemma NeverStrandedIffMinimum(lim: Limits)
    requires 0 <= lim.min <= lim.max && 0 < lim.max
    ensures (forall s, t :: Reaches(s, t, lim) ==> !Stranded(t)) <==> lim.min >= 1
  {
    if lim.min >= 1 {
      forall s, t | Reaches(s, t, lim) ensures !Stranded(t) {
        var tr :| Trace(tr, lim) && tr[0] == s && tr[|tr| - 1] == t;
        MinimumPreventsStranding(tr, lim, |tr| - 1);
      }
    } else {
      var a := FirstCommit(0, lim);
      var b := TaskRuns(FreshPool(), a, 0, lim);
      var c := ThreadLeaves(FreshPool(), b, 0, 1, lim);
    }
  }
}
