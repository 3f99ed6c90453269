/** What the calls of HThreadPool do, over whole runs: commit(), pause() and resume(), a second start(), and wait(). */
module ThreadPoolCalls {
  import opened Counting
  import opened ThreadPool
  import opened ThreadPoolSteps
  import opened ThreadPoolRuns

  // ----- commit() -----

  function Asked(after: After): multiset<Task> {
    match after
    case Return => multiset{}
    case Commit(task) => multiset{task}
  }

  function Behind(caller: Caller): multiset<Task> {
    match caller
    case FromStart(_, after) => Asked(after)
    case FromCommit(task) => multiset{task}
  }

  /** The task of a commit() in progress, from the call until it is in the queue. */
  function Carried(c: Client): multiset<Task> {
    match c
    case Set(_, after) => Asked(after)
    case Loop(_, after) => Asked(after)
    case Create(caller) => Behind(caller)
    case Register(caller) => Behind(caller)
    case Test(task) => multiset{task}
    case Pushing(task) => multiset{task}
    case _ => multiset{}
  }

  function AllCarried(cs: seq<Client>): multiset<Task> {
    if cs == [] then multiset{} else Carried(cs[0]) + AllCarried(cs[1..])
  }

  lemma {:induction false} CarriedUpdate(cs: seq<Client>, i: nat, c: Client)
    requires i < |cs|
    ensures AllCarried(cs[i := c]) + Carried(cs[i]) == AllCarried(cs) + Carried(c)
  {
    hide Carried;
    if i == 0 {
      assert cs[i := c][1..] == cs[1..];
    } else {
      var rest := cs[1..];
      assert cs[i := c][1..] == rest[i - 1 := c];
      CarriedUpdate(rest, i - 1, c);
      assert AllCarried(cs[i := c]) + Carried(cs[i]) ==
        Carried(cs[0]) + (AllCarried(rest[i - 1 := c]) + Carried(cs[i]));
    }
  }

  lemma {:induction false} QuietCarryNothing(cs: seq<Client>)
    requires Quiet(cs)
    ensures AllCarried(cs) == multiset{}
  {
    if cs != [] { QuietCarryNothing(cs[1..]); }
  }

  /** What has been queued, and what is still to be. */
  function Promised(s: State): multiset<Task> { multiset(s.committed) + AllCarried(s.clients) }

  function CommittedBy(step: Step): multiset<Task> {
    if step.CallCommit? then multiset{step.task} else multiset{}
  }

  /** Client `c` goes on with what it carries, or with one task more. */
  lemma CarriedGrows(s: State, t: State, c: nat, more: multiset<Task>)
    requires c < |s.clients| == |t.clients| && t.clients == s.clients[c := t.clients[c]] && t.committed == s.committed
    requires Carried(t.clients[c]) == Carried(s.clients[c]) + more
    ensures Promised(t) == Promised(s) + more
  {
    hide Carried, AllCarried;
    var x, y, k := AllCarried(s.clients), AllCarried(t.clients), Carried(s.clients[c]);
    CarriedUpdate(s.clients, c, t.clients[c]);
    assert y + k == x + (k + more);
    assert y == (y + k) - k == (x + more + k) - k == x + more;
  }

  lemma TaskIsQueued(s: State, t: State, c: nat)
    requires c < |s.clients| && t.clients == s.clients[c := Ready]
    requires s.clients[c].Pushing? && t.committed == s.committed + [s.clients[c].task]
    ensures Promised(t) == Promised(s)
  {
    hide AllCarried;
    var x, y, k := AllCarried(s.clients), AllCarried(t.clients), Carried(s.clients[c]);
    CarriedUpdate(s.clients, c, Ready);
    assert y + k == x;
    assert multiset(t.committed) == multiset(s.committed) + k;
  }

  lemma CarriedStays(s: State, t: State, c: nat)
    requires c < |s.clients| == |t.clients| && t.clients == s.clients[c := t.clients[c]] && t.committed == s.committed
    requires Carried(t.clients[c]) == Carried(s.clients[c])
    ensures Promised(t) == Promised(s)
  {
    hide Carried, AllCarried, Promised;
    CarriedGrows(s, t, c, multiset{});
    assert Promised(s) + multiset{} == Promised(s);
  }

  /** Until it is queued the task is handed on. */
  lemma ClientCarries(s: State, c: nat, lim: Limits)
    requires Enabled(s, ClientStep(c)) && !s.clients[c].Pushing?
    ensures var t := ApplyClient(s, c, lim);
      |t.clients| == |s.clients| && t.clients == s.clients[c := t.clients[c]] && t.committed == s.committed &&
      Carried(t.clients[c]) == Carried(s.clients[c])
  {
    hide Carried, Grows, StartCount, Started, Created, Grown;
    HandsOn(s, c, lim);
  }

  lemma HandsOn(s: State, c: nat, lim: Limits)
    requires Enabled(s, ClientStep(c)) && !s.clients[c].Pushing?
    ensures c < |ApplyClient(s, c, lim).clients|
    ensures Carried(ApplyClient(s, c, lim).clients[c]) == Carried(s.clients[c])
  {
    hide Carried, Asked, Behind, Started, Created, Grows, StartCount, Grown;
    var x := s.clients[c];
    if x.Set? || x.Loop? || x.Test? {
      StartHandsOn(s, c, lim);
    } else if x.Create? || x.Register? {
      CreateHandsOn(s, c, lim);
    } else {
      WaitCarriesNothing(s, c, lim);
    }
  }

  lemma StartHandsOn(s: State, c: nat, lim: Limits)
    requires Enabled(s, ClientStep(c)) && (s.clients[c].Set? || s.clients[c].Loop? || s.clients[c].Test?)
    ensures Carried(ApplyClient(s, c, lim).clients[c]) == Carried(s.clients[c])
  {
    hide Asked, Behind, Started, Created, Grows, StartCount, Grown;
    match s.clients[c] {
      case Loop(left, after) => StartedCarries(after);
      case Test(task) => FromCommitCarries(task);
      case _ =>
    }
  }

  lemma CreateHandsOn(s: State, c: nat, lim: Limits)
    requires Enabled(s, ClientStep(c)) && (s.clients[c].Create? || s.clients[c].Register?)
    ensures Carried(ApplyClient(s, c, lim).clients[c]) == Carried(s.clients[c])
  {
    hide Asked, Behind, Started, Created, Grows, StartCount, Grown;
    CreatedCarries(s.clients[c].caller);
  }

  lemma WaitCarriesNothing(s: State, c: nat, lim: Limits)
    requires Enabled(s, ClientStep(c)) && s.clients[c] != Ready
    requires s.clients[c] in {Looking, SawRunning, SawEmpty} || s.clients[c].SawIdle? || s.clients[c].SawCurrent?
    ensures Carried(ApplyClient(s, c, lim).clients[c]) == Carried(s.clients[c])
  {
    hide Asked, Behind;
  }

  lemma StartedCarries(after: After)
    ensures Carried(Started(after)) == Asked(after)
    ensures forall left :: Behind(FromStart(left, after)) == Asked(after)
  {
  }

  lemma CreatedCarries(caller: Caller)
    ensures Carried(Created(caller)) == Behind(caller)
  {
  }

  lemma FromCommitCarries(task: Task)
    ensures Behind(FromCommit(task)) == multiset{task}
  {
  }

  lemma ClientKeepsPromises(s: State, c: nat, lim: Limits)
    requires Enabled(s, ClientStep(c))
    ensures Promised(ApplyClient(s, c, lim)) == Promised(s)
  {
    hide Grows, AllCarried, Promised, Carried;
    var t := ApplyClient(s, c, lim);
    if s.clients[c].Pushing? {
      TaskIsQueued(s, t, c);
    } else {
      ClientCarries(s, c, lim);
      CarriedStays(s, t, c);
    }
  }

  lemma SamePromises(s: State, t: State)
    requires t.clients == s.clients && t.committed == s.committed
    ensures Promised(t) == Promised(s)
  {
  }

  lemma CommitPromises(s: State, c: nat, task: Task, lim: Limits)
    requires Enabled(s, CallCommit(c, task))
    ensures Promised(Apply(s, CallCommit(c, task), lim)) == Promised(s) + multiset{task}
  {
    hide ApplyClient, ApplyWorker, AllCarried, Promised;
    CarriedGrows(s, Apply(s, CallCommit(c, task), lim), c, multiset{task});
  }

  lemma CallPromises(s: State, step: Step, lim: Limits)
    requires Enabled(s, step) && (step.CallStart? || step.CallWait? || step.CurrentFirst?)
    ensures Promised(Apply(s, step, lim)) == Promised(s)
  {
    hide ApplyClient, ApplyWorker, AllCarried, Promised;
    CarriedStays(s, Apply(s, step, lim), step.c);
  }

  lemma StepKeepsPromises(s: State, step: Step, lim: Limits)
    requires Enabled(s, step)
    ensures Promised(Apply(s, step, lim)) == Promised(s) + CommittedBy(step)
  {
    hide ApplyClient, AllCarried, Promised, Carried;
    var t := Apply(s, step, lim);
    assert Promised(s) + multiset{} == Promised(s);
    if step.CallCommit? {
      CommitPromises(s, step.c, step.task, lim);
    } else if step.CallStart? || step.CallWait? || step.CurrentFirst? {
      CallPromises(s, step, lim);
    } else if step.ClientStep? {
      ClientKeepsPromises(s, step.c, lim);
    } else {
      SamePromises(s, t);
    }
  }

  /** A run together with its steps. */
  ghost predicate Run(tr: seq<State>, steps: seq<Step>, lim: Limits) {
    |tr| == |steps| + 1 && Initial(tr[0]) &&
    forall i :: 0 <= i < |steps| ==> Enabled(tr[i], steps[i]) && tr[i + 1] == Apply(tr[i], steps[i], lim)
  }

  /** The tasks handed to commit(), each as often as it was. */
  function Commits(steps: seq<Step>): multiset<Task> {
    if steps == [] then multiset{} else Commits(steps[..|steps| - 1]) + CommittedBy(steps[|steps| - 1])
  }

  /**
   * No commit() loses its task or queues it twice: what has been queued and what is still in the hands of a call is
   * what was committed, and when no call is in progress everything is in the queue or has been.
   */
  lemma {:induction false} EveryCommitIsQueued(tr: seq<State>, steps: seq<Step>, lim: Limits)
    requires Run(tr, steps, lim)
    ensures var t := tr[|steps|];
      multiset(t.committed) + AllCarried(t.clients) == Commits(steps) &&
      (Quiet(t.clients) ==> multiset(t.committed) == Commits(steps))
    decreases |steps|
  {
    hide Enabled, Apply, AllCarried, CommittedBy;
    var t, n := tr[|steps|], |steps|;
    if n == 0 {
      QuietCarryNothing(t.clients);
    } else {
      EveryCommitIsQueued(tr[..n], steps[..n - 1], lim);
      StepKeepsPromises(tr[n - 1], steps[n - 1], lim);
    }
    if Quiet(t.clients) { QuietCarryNothing(t.clients); }
  }

  // ----- pause() and resume() -----

  /** resume() undoes pause(), and pause() undoes resume(). */
  lemma ResumeUndoesPause(s: State, lim: Limits)
    ensures s.sh.status == Running ==>
      Apply(s, PauseStep, lim) != s && Apply(Apply(s, PauseStep, lim), ResumeStep, lim) == s
    ensures s.sh.status == Paused ==>
      Apply(s, ResumeStep, lim) != s && Apply(Apply(s, ResumeStep, lim), PauseStep, lim) == s
    ensures s.sh.status == Stopped ==> Apply(s, PauseStep, lim) == s == Apply(s, ResumeStep, lim)
  {
  }

  /** A worker that is past the test for a pause. */
  function Past(w: Worker): int { if w == Waiting then 1 else 0 }

  /** No start() has read that the pool is stopped and is still to set the status. */
  predicate NobodyStarts(cs: seq<Client>) { forall c :: 0 <= c < |cs| ==> !cs[c].Set? }

  predicate Pausing(s: State) { s.sh.status == Paused && !s.stopping && NobodyStarts(s.clients) }

  ghost predicate Holds(s: State, t: State, lim: Limits) {
    exists step :: Enabled(s, step) && step != ResumeStep && step != StopBegins && t == Apply(s, step, lim)
  }

  lemma WorkerHeldBack(s: State, w: nat, lim: Limits)
    requires Pausing(s) && Enabled(s, WorkerStep(w))
    ensures var t := ApplyWorker(s, w, lim);
      Pausing(t) && |t.taken| + Total(t.workers, Past) <= |s.taken| + Total(s.workers, Past)
  {
    hide Total;
    var t := ApplyWorker(s, w, lim);
    assert t.workers == s.workers[w := t.workers[w]];
    TotalUpdate(s.workers, w, t.workers[w], Past);
  }

  lemma ClientHeldBack(s: State, c: nat, lim: Limits)
    requires Pausing(s) && Enabled(s, ClientStep(c))
    ensures var t := ApplyClient(s, c, lim);
      Pausing(t) && |t.taken| + Total(t.workers, Past) <= |s.taken| + Total(s.workers, Past)
  {
    hide Total, Grows;
    var t := ApplyClient(s, c, lim);
    assert t.clients == s.clients[c := t.clients[c]];
    TotalAppend(s.workers, Top, Past);
  }

  lemma StepHeldBack(s: State, step: Step, lim: Limits)
    requires Pausing(s) && Enabled(s, step) && step != ResumeStep && step != StopBegins
    ensures var t := Apply(s, step, lim);
      Pausing(t) && |t.taken| + Total(t.workers, Past) <= |s.taken| + Total(s.workers, Past)
  {
    hide ApplyClient, ApplyWorker, Total;
    match step {
      case ClientStep(c) => ClientHeldBack(s, c, lim);
      case WorkerStep(w) => WorkerHeldBack(s, w, lim);
      case _ =>
    }
  }

  lemma {:induction false} RunHeldBack(tr: seq<State>, lim: Limits, i: nat)
    requires i < |tr| && Pausing(tr[0]) && forall k :: 0 <= k < |tr| - 1 ==> Holds(tr[k], tr[k + 1], lim)
    ensures Pausing(tr[i]) && |tr[i].taken| + Total(tr[i].workers, Past) <= |tr[0].taken| + Total(tr[0].workers, Past)
  {
    hide Pausing, Enabled, Apply, Total;
    if i > 0 {
      RunHeldBack(tr, lim, i - 1);
      assert Holds(tr[i - 1], tr[i - 1 + 1], lim);
      var step :| Enabled(tr[i - 1], step) && step != ResumeStep && step != StopBegins &&
        tr[i] == Apply(tr[i - 1], step, lim);
      StepHeldBack(tr[i - 1], step, lim);
    }
  }

  /**
   * After pause(), and until resume() or stop(), no more tasks are taken than there were threads past the test when it
   * was called; none at all if there were none.
   */
  lemma PauseHoldsBack(s: State, tr: seq<State>, lim: Limits, i: nat)
    requires s.sh.status == Running && !s.stopping && NobodyStarts(s.clients)
    requires i < |tr| && tr[0] == Apply(s, PauseStep, lim)
    requires forall k :: 0 <= k < |tr| - 1 ==> Holds(tr[k], tr[k + 1], lim)
    ensures |tr[i].taken| <= |s.taken| + Total(s.workers, Past)
    ensures (forall w :: 0 <= w < |s.workers| ==> s.workers[w] != Waiting) ==> |tr[i].taken| <= |s.taken|
  {
    hide Holds;
    RunHeldBack(tr, lim, i);
    TotalBound(tr[i].workers, Past);
    TotalBound(s.workers, Past);
  }

  // ----- start() -----

  /** start() does something exactly if the pool is stopped. */
  lemma StartIsIgnoredIff(s: State, c: nat, asked: int, lim: Limits)
    requires Enabled(s, CallStart(c, asked))
    ensures Apply(s, CallStart(c, asked), lim) == s <==> s.sh.status != Stopped
  {
    assert Apply(s, CallStart(c, asked), lim) == s ==> Apply(s, CallStart(c, asked), lim).clients[c] == Ready;
  }

  // ----- wait() -----

  lemma OwnStep(s: State, t: State, c: nat, lim: Limits)
    requires c < |s.clients| && c < |t.clients| && Follows(s, t, lim)
    requires s.clients[c] != Ready && t.clients[c] != s.clients[c]
    ensures t.clients == ApplyClient(s, c, lim).clients ||
      (s.clients[c] == SawEmpty && t.clients[c] == SawCurrent(s.sh.cur))
  {
    hide ApplyClient, ApplyWorker;
    var step :| Enabled(s, step) && t == Apply(s, step, lim);
    match step {
      case ClientStep(d) => OthersStay(s, c, d, lim);
      case WorkerStep(w) => ClientsStay(s, w, lim);
      case _ =>
    }
  }

  lemma OthersStay(s: State, c: nat, d: nat, lim: Limits)
    requires c < |s.clients| && Enabled(s, ClientStep(d))
    ensures c != d ==> ApplyClient(s, d, lim).clients[c] == s.clients[c]
  {
    hide Grows;
  }

  lemma ClientsStay(s: State, w: nat, lim: Limits)
    requires Enabled(s, WorkerStep(w))
    ensures ApplyWorker(s, w, lim).clients == s.clients
  {
  }

  /**
   * A turn of wait() reads one counter at moment `j` and the other at moment `i`, in any run with any number of
   * threads: it ends the loop exactly if both readings are the same number, and goes round again otherwise.
   */
  lemma WaitReturnsIffReadingsAgree(tr: seq<State>, lim: Limits, c: nat, j: nat, i: nat)
    requires j < i < |tr| - 1 && forall k :: 0 <= k < |tr| - 1 ==> Follows(tr[k], tr[k + 1], lim)
    requires forall k :: 0 <= k < |tr| ==> c < |tr[k].clients|
    requires tr[j].clients[c] == SawEmpty != tr[j + 1].clients[c]
    requires forall k :: j < k <= i ==> tr[k].clients[c] == tr[j + 1].clients[c]
    requires tr[i + 1].clients[c] != tr[i].clients[c]
    ensures var idleFirst := tr[i].clients[c].SawIdle?;
      var first, second := if idleFirst then tr[j].sh.idle else tr[j].sh.cur,
                           if idleFirst then tr[i].sh.cur else tr[i].sh.idle;
      tr[i + 1].clients[c] == if first == second then Ready else Looking
  {
    hide Follows;
    OwnStep(tr[j], tr[j + 1], c, lim);
    OwnStep(tr[i], tr[i + 1], c, lim);
  }
}
