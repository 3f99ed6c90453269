/**
 * HThreadPool under any number of client threads and workers, with each locked section and each update of the two
 * counters taken as one step: the steps, and the invariant they keep.
 */
module ThreadPoolSteps {
  import opened Bytes
  import opened Counting
  import opened ThreadPool

  /** What start() returns to. */
  datatype After = Return | Commit(task: Task)

  /** What createThread returns to. */
  datatype Caller = FromStart(left: nat, after: After) | FromCommit(task: Task)

  /** Where a client thread is inside start() or commit(). */
  datatype Client =
    | Ready
    | Set(asked: int, after: After)       // start() has read STOP
    | Loop(left: nat, after: After)       // start()'s loop
    | Create(caller: Caller)              // createThread, before its test
    | Register(caller: Caller)            // createThread, the thread runs, addThread is to come
    | Test(task: Task)                    // commit, before its test
    | Pushing(task: Task)                 // commit, before its locked section
    | Looking                             // wait(), before it reads the status
    | SawRunning                          // wait(), before it reads the queue
    | SawEmpty                            // wait(), before it reads one of the two counters
    | SawIdle(idle: int)                  // wait(), before it reads cur_thread_num
    | SawCurrent(current: int)            // wait(), before it reads idle_thread_num

  function Started(after: After): Client {
    match after
    case Return => Ready
    case Commit(task) => Test(task)
  }

  function Created(caller: Caller): Client {
    match caller
    case FromStart(left, after) => Loop(left, after)
    case FromCommit(task) => Pushing(task)
  }

  /** Where a worker is in its loop. */
  datatype Worker =
    | Top
    | Spin                                // while (status == PAUSE)
    | Waiting                             // before the locked section
    | Shrinking                           // inside delThread, still holding task_mutex
    | Busy(k: nat, task: Task)            // holds the k-th task taken
    | Done                                // the task has run, ++idle_thread_num is to come
    | Gone

  /**
   * The pool and all threads. Histories: the tasks in the order of their commits, those taken in the order
   * of their taking, and what ran under each of the taken ones.
   */
  datatype State = State(
    sh: Shared,
    locked: bool,                         // a worker holds task_mutex between two steps
    stopping: bool,                       // stop() waits in its joins
    workers: seq<Worker>,
    clients: seq<Client>,
    committed: seq<Task>,
    taken: seq<Task>,
    ran: seq<seq<Task>>)

  datatype Limits = Limits(min: int, max: int)

  datatype Step =
    | CallStart(c: nat, asked: int)
    | CallCommit(c: nat, task: Task)
    | CallWait(c: nat)
    | CurrentFirst(c: nat)                // wait() reads cur_thread_num first: C++ leaves the order open
    | ClientStep(c: nat)
    | WorkerStep(w: nat)
    | PauseStep
    | ResumeStep
    | StopBegins                          // stop() sets the status
    | StopEnds                            // stop() has joined every thread

  predicate Quiet(cs: seq<Client>) { forall c :: 0 <= c < |cs| ==> cs[c] == Ready }

  /** stop() does not overlap with start(), commit() or wait(). */
  predicate Enabled(s: State, step: Step) {
    match step
    case CallStart(c, asked) => c < |s.clients| && s.clients[c] == Ready && !s.stopping
    case CallCommit(c, task) => c < |s.clients| && s.clients[c] == Ready && !s.stopping
    case CallWait(c) => c < |s.clients| && s.clients[c] == Ready && !s.stopping
    case CurrentFirst(c) => c < |s.clients| && s.clients[c] == SawEmpty
    case ClientStep(c) =>
      c < |s.clients| && s.clients[c] != Ready && (s.clients[c].Pushing? ==> !s.locked)
    case WorkerStep(w) =>
      w < |s.workers| && s.workers[w] != Gone &&
      (s.workers[w] == Spin ==> s.sh.status != Paused) && (s.workers[w] == Waiting ==> !s.locked)
    case PauseStep => true
    case ResumeStep => true
    case StopBegins => s.sh.status != Stopped && Quiet(s.clients)
    case StopEnds => s.stopping && forall w :: 0 <= w < |s.workers| ==> s.workers[w] == Gone
  }

  function ApplyClient(s: State, c: nat, lim: Limits): State
    requires Enabled(s, ClientStep(c))
  {
    match s.clients[c]
    case Set(asked, after) =>
      var n := StartCount(asked, lim.min, lim.max);
      s.(sh := s.sh.(status := Running), clients := s.clients[c := Loop(if n < 0 then 0 else n, after)])
    case Loop(left, after) =>
      s.(clients := s.clients[c := if left == 0 then Started(after) else Create(FromStart(left - 1, after))])
    case Create(caller) =>
      if s.sh.cur >= lim.max then s.(clients := s.clients[c := Created(caller)])
      else s.(workers := s.workers + [Top], clients := s.clients[c := Register(caller)])
    case Register(caller) => s.(sh := Grown(s.sh), clients := s.clients[c := Created(caller)])
    case Test(task) =>
      s.(clients := s.clients[c := if Grows(s.sh, lim.max) then Create(FromCommit(task)) else Pushing(task)])
    case Pushing(task) =>
      s.(sh := s.sh.(tasks := s.sh.tasks + [task]), clients := s.clients[c := Ready], committed := s.committed + [task])
    case Looking => s.(clients := s.clients[c := if s.sh.status == Stopped then Ready else SawRunning])
    case SawRunning => s.(clients := s.clients[c := if s.sh.tasks == [] then SawEmpty else Looking])
    case SawEmpty => s.(clients := s.clients[c := SawIdle(s.sh.idle)])
    case SawIdle(idle) => s.(clients := s.clients[c := if idle == s.sh.cur then Ready else Looking])
    case SawCurrent(current) => s.(clients := s.clients[c := if s.sh.idle == current then Ready else Looking])
  }

  /** The task ran under number `k`. */
  function Logged(ran: seq<seq<Task>>, k: nat, task: Task): seq<seq<Task>> {
    if k < |ran| then ran[k := ran[k] + [task]] else ran
  }

  function ApplyWorker(s: State, w: nat, lim: Limits): State
    requires Enabled(s, WorkerStep(w))
  {
    match s.workers[w]
    case Top => s.(workers := s.workers[w := if s.sh.status == Stopped then Gone else Spin])
    case Spin => s.(workers := s.workers[w := Waiting])
    case Waiting =>
      var v := Decide(s.sh, lim.min);
      var t := s.(sh := Decided(s.sh, v));
      (match v
       case Leave => t.(workers := s.workers[w := Gone])
       case Shrink => t.(workers := s.workers[w := Shrinking], locked := true)
       case Again => t.(workers := s.workers[w := Top])
       case Run(task) =>
         t.(workers := s.workers[w := Busy(|s.taken|, task)], taken := s.taken + [task], ran := s.ran + [[]]))
    case Shrinking => s.(sh := Shrunk(s.sh), locked := false, workers := s.workers[w := Gone])
    case Busy(k, task) => s.(workers := s.workers[w := Done], ran := Logged(s.ran, k, task))
    case Done => s.(sh := s.sh.(idle := s.sh.idle + 1), workers := s.workers[w := Top])
  }

  function Apply(s: State, step: Step, lim: Limits): State
    requires Enabled(s, step)
  {
    match step
    case CallStart(c, asked) =>
      if s.sh.status == Stopped then s.(clients := s.clients[c := Set(asked, Return)]) else s
    case CallCommit(c, task) =>
      s.(clients := s.clients[c := if s.sh.status == Stopped then Set(0, Commit(task)) else Test(task)])
    case CallWait(c) => s.(clients := s.clients[c := Looking])
    case CurrentFirst(c) => s.(clients := s.clients[c := SawCurrent(s.sh.cur)])
    case ClientStep(c) => ApplyClient(s, c, lim)
    case WorkerStep(w) => ApplyWorker(s, w, lim)
    case PauseStep => s.(sh := s.sh.(status := if s.sh.status == Running then Paused else s.sh.status))
    case ResumeStep => s.(sh := s.sh.(status := if s.sh.status == Paused then Running else s.sh.status))
    case StopBegins => s.(sh := s.sh.(status := Stopped), stopping := true)
    case StopEnds => s.(sh := s.sh.(cur := 0, idle := 0), workers := [], stopping := false)
  }

  // ----- tasks -----

  /** What became of the tasks: taken in commit order; under each number taken, at most its own task ran, once. */
  predicate Accounted(s: State) {
    s.taken + s.sh.tasks == s.committed && |s.ran| == |s.taken| &&
    (forall k :: 0 <= k < |s.ran| ==> s.ran[k] == [] || s.ran[k] == [s.taken[k]]) &&
    (forall w :: 0 <= w < |s.workers| && s.workers[w].Busy? ==> Owns(s, w)) &&
    (forall v, w :: 0 <= v < w < |s.workers| && s.workers[v].Busy? && s.workers[w].Busy?
      ==> s.workers[v].k != s.workers[w].k)
  }

  predicate Owns(s: State, w: nat)
    requires w < |s.workers| && s.workers[w].Busy?
  {
    s.workers[w].k < |s.ran| == |s.taken| && s.ran[s.workers[w].k] == [] &&
    s.workers[w].task == s.taken[s.workers[w].k]
  }

  /** No task taken is lost: it has run, or a worker holds it. */
  ghost predicate NoneLost(s: State)
    requires |s.ran| == |s.taken|
  {
    forall k :: 0 <= k < |s.ran| && s.ran[k] == [] ==> HeldBySome(s.workers, k)
  }

  ghost predicate HeldBySome(ws: seq<Worker>, k: nat) {
    exists w :: 0 <= w < |ws| && ws[w].Busy? && ws[w].k == k
  }

  // ----- counting -----

  function Live(w: Worker): int { if w == Gone then 0 else 1 }

  /** Between --idle_thread_num and ++idle_thread_num. */
  function Working(w: Worker): int { if w.Busy? || w == Done then 1 else 0 }

  /** A thread this client has started but not yet entered in the counters. */
  function Pending(c: Client): int { if c.Register? then 1 else 0 }

  /** Threads a start() in progress has still to create. */
  function Owed(c: Client): nat {
    match c
    case Loop(left, _) => left
    case Create(FromStart(left, _)) => left + 1
    case Register(FromStart(left, _)) => left + 1
    case _ => 0
  }

  // ----- the invariant -----

  /** The counters: pending threads run but are not counted; a thread with a task is counted but not idle. */
  predicate Counted(s: State) {
    s.sh.cur + Total(s.clients, Pending) == Total(s.workers, Live) &&
    s.sh.idle + Total(s.workers, Working) == s.sh.cur
  }

  /** A stopped pool has no threads, and nobody is creating any. */
  predicate Asleep(s: State) {
    s.workers == [] && forall c :: 0 <= c < |s.clients| ==> s.clients[c] in {Ready, Looking} || s.clients[c].Set?
  }

  /** task_mutex is held between steps exactly by the one worker that is shrinking the pool. */
  predicate Guarded(s: State) {
    Total(s.workers, Shrinks) == if s.locked then 1 else 0
  }

  function Shrinks(w: Worker): int { if w == Shrinking then 1 else 0 }

  ghost predicate Inv(s: State, lim: Limits) {
    Accounted(s) && NoneLost(s) && Guarded(s) &&
    (s.stopping ==> Quiet(s.clients) && s.sh.status == Stopped) &&
    (!s.stopping ==> Counted(s) && (s.locked ==> s.sh.cur > lim.min)) &&
    (!s.stopping && s.sh.status == Stopped ==> Asleep(s))
  }

  predicate Initial(s: State) {
    s.sh == Shared(Stopped, 0, 0, []) && !s.locked && !s.stopping && s.workers == [] && Quiet(s.clients) &&
    s.committed == [] && s.taken == [] && s.ran == []
  }

  lemma InitialInv(s: State, lim: Limits)
    requires Initial(s)
    ensures Inv(s, lim)
  {
    TotalBound(s.clients, Pending);
  }

  // ----- every step keeps it -----

  lemma ClientCounts(s: State, c: nat, lim: Limits)
    requires Enabled(s, ClientStep(c)) && Counted(s)
    ensures Counted(ApplyClient(s, c, lim))
  {
    hide Total;
    var t := ApplyClient(s, c, lim);
    TotalUpdate(s.clients, c, t.clients[c], Pending);
    if t.workers != s.workers {
      TotalAppend(s.workers, Top, Live);
      TotalAppend(s.workers, Top, Working);
    }
  }

  lemma ClientGuard(s: State, c: nat, lim: Limits)
    requires Enabled(s, ClientStep(c)) && Guarded(s) && (s.locked ==> s.sh.cur > lim.min)
    ensures var t := ApplyClient(s, c, lim);
      Guarded(t) && (t.locked ==> t.sh.cur > lim.min)
  {
    TotalAppend(s.workers, Top, Shrinks);
  }

  lemma WorkerCounts(s: State, w: nat, lim: Limits)
    requires Enabled(s, WorkerStep(w)) && Counted(s) && s.sh.status != Stopped
    ensures Counted(ApplyWorker(s, w, lim))
  {
    hide Total;
    var t := ApplyWorker(s, w, lim);
    var x, y := s.workers[w], t.workers[w];
    assert t.workers == s.workers[w := y] && t.clients == s.clients;
    assert t.sh.cur - s.sh.cur == Live(y) - Live(x);
    assert t.sh.idle + Working(y) - t.sh.cur == s.sh.idle + Working(x) - s.sh.cur;
    TotalUpdate(s.workers, w, y, Live);
    TotalUpdate(s.workers, w, y, Working);
  }

  lemma WorkerGuard(s: State, w: nat, lim: Limits)
    requires Enabled(s, WorkerStep(w)) && Guarded(s)
    ensures Guarded(ApplyWorker(s, w, lim))
    ensures s.workers[w] == Shrinking ==> s.locked
    ensures var t := ApplyWorker(s, w, lim);
      t.locked ==> (s.locked && t.sh.cur == s.sh.cur) || t.sh.cur > lim.min
  {
    hide Total;
    var t := ApplyWorker(s, w, lim);
    var x, y := s.workers[w], t.workers[w];
    assert t.workers == s.workers[w := y];
    TotalUpdate(s.workers, w, y, Shrinks);
    TotalBound(s.workers, Shrinks);
  }

  /** A client step runs nothing: it adds at most an idle thread, or one task to both queues. */
  lemma ClientKeepsRuns(s: State, c: nat, lim: Limits)
    requires Enabled(s, ClientStep(c))
    ensures var t, more := ApplyClient(s, c, lim), if s.clients[c].Pushing? then [s.clients[c].task] else [];
      && t.taken == s.taken && t.ran == s.ran && (t.workers == s.workers || t.workers == s.workers + [Top])
      && t.sh.tasks == s.sh.tasks + more && t.committed == s.committed + more
  {
    assert s.sh.tasks + [] == s.sh.tasks && s.committed + [] == s.committed;
  }

  lemma ClientAccounts(s: State, c: nat, lim: Limits)
    requires Enabled(s, ClientStep(c)) && Accounted(s)
    ensures Accounted(ApplyClient(s, c, lim))
  {
    hide ApplyClient;
    var t := ApplyClient(s, c, lim);
    ClientKeepsRuns(s, c, lim);
    Assoc(s.taken, s.sh.tasks, if s.clients[c].Pushing? then [s.clients[c].task] else []);
    forall w | 0 <= w < |t.workers| && t.workers[w].Busy? ensures Owns(t, w) {
      assert t.workers[w] == s.workers[w] && Owns(s, w);
    }
  }

  lemma WorkerAccounts(s: State, w: nat, lim: Limits)
    requires Enabled(s, WorkerStep(w)) && Accounted(s)
    ensures Accounted(ApplyWorker(s, w, lim))
  {
    if s.workers[w].Busy? {
      assert Owns(s, w);
      RunAccounts(s, w, lim);
    } else if s.workers[w] == Waiting && Decide(s.sh, lim.min).Run? {
      TakeAccounts(s, w, lim);
    } else {
      hide Decide, Decided, Owns;
      var t := ApplyWorker(s, w, lim);
      MoveAccounts(s, t, w);
    }
  }

  lemma MoveAccounts(s: State, t: State, w: nat)
    requires Accounted(s) && w < |s.workers| == |t.workers| && !t.workers[w].Busy?
    requires t.workers == s.workers[w := t.workers[w]] && t.taken == s.taken && t.sh.tasks == s.sh.tasks
    requires t.committed == s.committed && t.ran == s.ran
    ensures Accounted(t)
  {
    forall v | 0 <= v < |t.workers| && t.workers[v].Busy? ensures Owns(t, v) {
      assert t.workers[v] == s.workers[v] && Owns(s, v);
    }
  }

  lemma RunAccounts(s: State, w: nat, lim: Limits)
    requires Enabled(s, WorkerStep(w)) && Accounted(s) && s.workers[w].Busy? && s.workers[w].k < |s.ran|
    ensures Accounted(ApplyWorker(s, w, lim))
  {
    var t := ApplyWorker(s, w, lim);
    assert Owns(s, w);
    forall v | 0 <= v < |t.workers| && t.workers[v].Busy? ensures Owns(t, v) {
      assert t.workers[v] == s.workers[v] && Owns(s, v);
      assert v < w || w < v;
    }
  }

  lemma TakeAccounts(s: State, w: nat, lim: Limits)
    requires Enabled(s, WorkerStep(w)) && Accounted(s) && s.workers[w] == Waiting && Decide(s.sh, lim.min).Run?
    ensures Accounted(ApplyWorker(s, w, lim))
  {
    var t := ApplyWorker(s, w, lim);
    assert s.sh.tasks == [s.sh.tasks[0]] + s.sh.tasks[1..];
    Assoc(s.taken, [s.sh.tasks[0]], s.sh.tasks[1..]);
    forall v | 0 <= v < |t.workers| && t.workers[v].Busy? ensures Owns(t, v) && (v != w ==> t.workers[v].k < |s.ran|) {
      if v != w {
        assert t.workers[v] == s.workers[v] && Owns(s, v);
      }
    }
  }

  /** A task held in one state is held in the next, or has run. */
  lemma StillHeld(s: State, t: State, k: nat)
    requires HeldBySome(s.workers, k)
    requires forall w ::
      0 <= w < |s.workers| && s.workers[w].Busy? && s.workers[w].k == k ==>
      w < |t.workers| && t.workers[w] == s.workers[w]
    ensures HeldBySome(t.workers, k)
  {
    var w :| 0 <= w < |s.workers| && s.workers[w].Busy? && s.workers[w].k == k;
    assert t.workers[w].Busy? && t.workers[w].k == k;
  }

  lemma ClientLosesNone(s: State, c: nat, lim: Limits)
    requires Enabled(s, ClientStep(c)) && |s.ran| == |s.taken| && NoneLost(s)
    ensures NoneLost(ApplyClient(s, c, lim))
  {
    hide HeldBySome;
    var t := ApplyClient(s, c, lim);
    forall k | 0 <= k < |t.ran| && t.ran[k] == [] ensures HeldBySome(t.workers, k) {
      StillHeld(s, t, k);
    }
  }

  lemma WorkerLosesNone(s: State, w: nat, lim: Limits)
    requires Enabled(s, WorkerStep(w)) && Accounted(s) && NoneLost(s)
    ensures var t := ApplyWorker(s, w, lim);
      |t.ran| == |t.taken| && NoneLost(t)
  {
    hide HeldBySome, Accounted;
    assert |s.ran| == |s.taken| by { Lengths(s); }
    var t := ApplyWorker(s, w, lim);
    forall k | 0 <= k < |t.ran| && t.ran[k] == [] ensures HeldBySome(t.workers, k) {
      if k == |s.ran| {
        Holds(t.workers, w, k);
      } else {
        StillHeld(s, t, k);
      }
    }
  }

  lemma Lengths(s: State)
    requires Accounted(s)
    ensures |s.ran| == |s.taken| && |s.taken| + |s.sh.tasks| == |s.committed|
  {
  }

  lemma Holds(ws: seq<Worker>, w: nat, k: nat)
    requires w < |ws| && ws[w].Busy? && ws[w].k == k
    ensures HeldBySome(ws, k)
  {
  }

  lemma CallKeepsInv(s: State, step: Step, lim: Limits)
    requires Inv(s, lim) && Enabled(s, step)
    requires step.CallStart? || step.CallCommit? || step.CallWait? || step.CurrentFirst?
    ensures Inv(Apply(s, step, lim), lim)
  {
    var t := Apply(s, step, lim);
    TotalUpdate(s.clients, step.c, t.clients[step.c], Pending);
    assert t.clients == s.clients[step.c := t.clients[step.c]];
    assert NoneLost(t) by {
      hide HeldBySome;
    }
    forall w | 0 <= w < |t.workers| && t.workers[w].Busy? ensures Owns(t, w) {
      assert Owns(s, w);
    }
  }

  lemma StopKeepsInv(s: State, step: Step, lim: Limits)
    requires Inv(s, lim) && Enabled(s, step)
    requires step.PauseStep? || step.ResumeStep? || step.StopBegins? || step.StopEnds?
    ensures Inv(Apply(s, step, lim), lim)
  {
    var t := Apply(s, step, lim);
    forall w | 0 <= w < |t.workers| && t.workers[w].Busy? ensures Owns(t, w) {
      assert Owns(s, w);
    }
    if step.StopEnds? {
      TotalBound(s.workers, Shrinks);
      TotalBound(s.clients, Pending);
    }
  }

  lemma ClientKeepsInv(s: State, c: nat, lim: Limits)
    requires Inv(s, lim) && Enabled(s, ClientStep(c))
    ensures Inv(ApplyClient(s, c, lim), lim)
  {
    hide Accounted, Counted, Guarded, NoneLost;
    Lengths(s);
    ClientAccounts(s, c, lim);
    ClientLosesNone(s, c, lim);
    assert !s.stopping;
    ClientCounts(s, c, lim);
    ClientGuard(s, c, lim);
  }

  lemma WorkerKeepsInv(s: State, w: nat, lim: Limits)
    requires Inv(s, lim) && Enabled(s, WorkerStep(w))
    ensures Inv(ApplyWorker(s, w, lim), lim)
  {
    hide Accounted, Counted, Guarded, NoneLost;
    WorkerAccounts(s, w, lim);
    WorkerLosesNone(s, w, lim);
    WorkerGuard(s, w, lim);
    if !s.stopping {
      WorkerCounts(s, w, lim);
    }
  }

  /** Every step of every thread keeps the invariant. */
  lemma StepKeepsInv(s: State, step: Step, lim: Limits)
    requires Inv(s, lim) && Enabled(s, step)
    ensures Inv(Apply(s, step, lim), lim)
  {
    hide Accounted, Counted, Guarded, Asleep, ApplyClient, ApplyWorker;
    match step {
      case ClientStep(c) => ClientKeepsInv(s, c, lim);
      case WorkerStep(w) => WorkerKeepsInv(s, w, lim);
      case CallStart(_, _) => CallKeepsInv(s, step, lim);
      case CallCommit(_, _) => CallKeepsInv(s, step, lim);
      case CallWait(_) => CallKeepsInv(s, step, lim);
      case CurrentFirst(_) => CallKeepsInv(s, step, lim);
      case PauseStep => StopKeepsInv(s, step, lim);
      case ResumeStep => StopKeepsInv(s, step, lim);
      case StopBegins => StopKeepsInv(s, step, lim);
      case StopEnds => StopKeepsInv(s, step, lim);
    }
  }
}
