/** HObjectPool: its locked sections, and every interleaving of any number of clients. */
module ObjectPool {
  import opened Counting

  /** An object behind a shared_ptr, named by a number. */
  type Obj = nat

  /** A shared_ptr. */
  datatype Ptr = Null | Ref(obj: Obj)

  /** The fields under mutex_: how many objects the pool accounts for, and the idle ones. */
  datatype Pool<T> = Pool(num: int, idle: seq<T>)

  datatype Limits = Limits(max: int, timeout: int)

  /** The object at the front of the list, if any. */
  function Front(p: Pool<Obj>): Ptr { if p.idle == [] then Null else Ref(p.idle[0]) }

  function Popped<T>(p: Pool<T>): Pool<T> { if |p.idle| == 0 then p else p.(idle := p.idle[1..]) }

  function Pushed<T>(p: Pool<T>, o: T): Pool<T> { p.(idle := p.idle + [o]) }

  /** A place is taken before the factory is called, and given back if it fails. */
  function Reserved<T>(p: Pool<T>): Pool<T> { p.(num := p.num + 1) }

  function Unreserved<T>(p: Pool<T>): Pool<T> { p.(num := p.num - 1) }

  function Added<T>(p: Pool<T>, o: T): Pool<T> { Reserved(Pushed(p, o)) }

  /** The list without the first occurrence of an object. */
  function Without<T(==)>(s: seq<T>, o: T): (r: seq<T>)
    ensures |r| == |s| - (if o in s then 1 else 0)
  {
    if s == [] then [] else if s[0] == o then s[1..] else [s[0]] + Without(s[1..], o)
  }

  /** One occurrence goes, the others stay. */
  lemma {:induction false} WithoutTakesOne<T>(s: seq<T>, o: T)
    ensures multiset(Without(s, o)) == multiset(s) - multiset{o}
  {
    if s != [] {
      assert s == [s[0]] + s[1..];
      WithoutTakesOne(s[1..], o);
    }
  }

  function Removed<T(==)>(p: Pool<T>, o: T): Pool<T> {
    if o in p.idle then Pool(p.num - 1, Without(p.idle, o)) else p
  }

  /** Several objects are returned, one after the other. */
  function AllPushed<T>(p: Pool<T>, os: seq<T>): Pool<T>
    decreases |os|
  {
    if os == [] then p else AllPushed(Pushed(p, os[0]), os[1..])
  }

  /** What the next `n` clients borrow. */
  function Borrowed(p: Pool<Obj>, n: nat): seq<Ptr>
    decreases n
  {
    if n == 0 then [] else [Front(p)] + Borrowed(Popped(p), n - 1)
  }

  /** The objects are lent in the order in which they became idle; a client that comes too late gets nothing. */
  lemma {:induction false} OldestFirst(p: Pool<Obj>, os: seq<Obj>, n: nat, k: nat)
    requires k < n
    ensures var all := p.idle + os;
      |Borrowed(AllPushed(p, os), n)| == n &&
      Borrowed(AllPushed(p, os), n)[k] == if k < |all| then Ref(all[k]) else Null
  {
    hide Front, Popped, Pushed;
    AllBehind(p, os);
    InTurn(AllPushed(p, os), n, k);
  }

  lemma {:induction false} AllBehind<T>(p: Pool<T>, os: seq<T>)
    ensures AllPushed(p, os) == p.(idle := p.idle + os)
    decreases |os|
  {
    if os == [] {
      assert p.idle + os == p.idle;
    } else {
      AllBehind(Pushed(p, os[0]), os[1..]);
      assert p.idle + [os[0]] + os[1..] == p.idle + os;
    }
  }

  lemma {:induction false} InTurn(p: Pool<Obj>, n: nat, k: nat)
    requires k < n
    ensures |Borrowed(p, n)| == n && Borrowed(p, n)[k] == if k < |p.idle| then Ref(p.idle[k]) else Null
    decreases n
  {
    if n > 1 {
      InTurn(Popped(p), n - 1, if k == 0 then 0 else k - 1);
    }
  }

  // ----- the members -----

  function First(p: Pool<Ptr>): Ptr { if p.idle == [] then Null else p.idle[0] }

  class HObjectPool {
    var num: int
    const max: int
    var objects: seq<Ptr>

    function Fields(): Pool<Ptr>
      reads this
    {
      Pool(num, objects)
    }

    /** `made` are the objects the factory produced: it is called init_num times and may fail. */
    constructor (max: int, made: seq<Ptr>)
      ensures this.max == max && Fields() == Pool(|made|, made)
    {
      this.max, num, objects := max, |made|, made;
    }

    method TryBorrow() returns (r: Ptr)
      modifies this
      ensures r == First(old(Fields())) && Fields() == Popped(old(Fields()))
    {
      r := Null;
      if objects != [] {
        r := objects[0];
        objects := objects[1..];
      }
    }

    /** Borrow's second locked section, up to the call of the factory. */
    method Reserve() returns (create: bool)
      modifies this`num
      ensures create == (old(num) < max)
      ensures Fields() == if create then Reserved(old(Fields())) else old(Fields())
    {
      create := num < max;
      if create {
        num := num + 1;
      }
    }

    /** Borrow after the call of the factory, which has returned `p`. */
    method Made(p: Ptr) returns (r: Ptr)
      modifies this`num
      ensures r == p && Fields() == if p == Null then Unreserved(old(Fields())) else old(Fields())
    {
      if p == Null {
        num := num - 1;
      }
      r := p;
    }

    /** Borrow after its wait. */
    method Woken(timedOut: bool) returns (r: Ptr)
      modifies this
      ensures r == if timedOut then Null else First(old(Fields()))
      ensures Fields() == if timedOut then old(Fields()) else Popped(old(Fields()))
    {
      r := Null;
      if timedOut {
        return;
      }
      if objects != [] {
        r := objects[0];
        objects := objects[1..];
      }
    }

    method Return(p: Ptr)
      modifies this
      ensures Fields() == if p == Null then old(Fields()) else Pushed(old(Fields()), p)
    {
      if p == Null {
        return;
      }
      objects := objects + [p];
    }

    /** Unlike Return, it stores a null pointer too. */
    method Add(p: Ptr) returns (ok: bool)
      modifies this
      ensures ok == (old(num) < max)
      ensures Fields() == if ok then Added(old(Fields()), p) else old(Fields())
    {
      if num >= max {
        return false;
      }
      objects := objects + [p];
      num := num + 1;
      return true;
    }

    method Remove(p: Ptr) returns (ok: bool)
      modifies this
      ensures ok == (p in old(objects)) && Fields() == Removed(old(Fields()), p)
    {
      var i := 0;
      while i < |objects|
        invariant 0 <= i <= |objects| && Fields() == old(Fields())
        invariant p !in objects[..i]
      {
        if objects[i] == p {
          WithoutAt(objects, i, p);
          objects := objects[..i] + objects[i + 1..];
          num := num - 1;
          return true;
        }
        i := i + 1;
      }
      return false;
    }
  }

  lemma {:induction false} WithoutAt<T>(s: seq<T>, i: nat, o: T)
    requires i < |s| && s[i] == o && o !in s[..i]
    ensures Without(s, o) == s[..i] + s[i + 1..]
  {
    if i > 0 {
      var rest := s[1..];
      assert s[..i] == [s[0]] + rest[..i - 1] && s[0] != o;
      WithoutAt(rest, i - 1, o);
      assert rest[i..] == s[i + 1..];
      assert [s[0]] + (rest[..i - 1] + rest[i..]) == s[..i] + s[i + 1..];
    }
  }

  // ----- interleavings -----

  /** Where a client is inside Borrow. */
  datatype Pc =
    | Ready
    | Missed      // TryBorrow found no idle object
    | Creating    // the factory is working, the mutex is free
    | Waiting     // on the condition variable

  /** `lent` are the objects the client has borrowed and not returned. */
  datatype Client = Client(pc: Pc, lent: set<Obj>)

  /** Objects numbered below `next` exist. */
  datatype State = State(pool: Pool<Obj>, clients: seq<Client>, next: nat)

  datatype Step =
    | TryBorrowStep(c: nat)
    | BorrowStep(c: nat)
    | ReserveStep(c: nat)
    | MadeStep(c: nat, ok: bool)
    | WokenStep(c: nat, timedOut: bool)
    | ReturnStep(c: nat, o: Obj)
    | NewObjectStep                       // a client makes an object of its own
    | AddStep(c: nat, o: Obj)
    | RemoveStep(o: Obj)

  /** Clients return only what they borrowed, and add only objects that are not the pool's. */
  predicate Enabled(s: State, step: Step) {
    match step
    case TryBorrowStep(c) => c < |s.clients| && s.clients[c].pc == Ready
    case BorrowStep(c) => c < |s.clients| && s.clients[c].pc == Ready
    case ReserveStep(c) => c < |s.clients| && s.clients[c].pc == Missed
    case MadeStep(c, ok) => c < |s.clients| && s.clients[c].pc == Creating
    case WokenStep(c, timedOut) => c < |s.clients| && s.clients[c].pc == Waiting
    case ReturnStep(c, o) => c < |s.clients| && s.clients[c].pc == Ready && o in s.clients[c].lent
    case NewObjectStep => true
    case AddStep(c, o) =>
      c < |s.clients| && s.clients[c].pc == Ready && o < s.next && o !in s.pool.idle &&
      forall d :: 0 <= d < |s.clients| ==> o !in s.clients[d].lent
    case RemoveStep(o) => true
  }

  function Got(cl: Client, r: Ptr): Client {
    Client(Ready, if r == Null then cl.lent else cl.lent + {r.obj})
  }

  function Apply(s: State, step: Step, lim: Limits): State
    requires Enabled(s, step)
  {
    match step
    case TryBorrowStep(c) => State(Popped(s.pool), s.clients[c := Got(s.clients[c], Front(s.pool))], s.next)
    case BorrowStep(c) =>
      State(Popped(s.pool),
            s.clients[c := if Front(s.pool) == Null then s.clients[c].(pc := Missed)
                           else Got(s.clients[c], Front(s.pool))],
            s.next)
    case ReserveStep(c) =>
      if s.pool.num < lim.max then
        State(Reserved(s.pool), s.clients[c := s.clients[c].(pc := Creating)], s.next)
      else
        s.(clients := s.clients[c := s.clients[c].(pc := if lim.timeout > 0 then Waiting else Ready)])
    case MadeStep(c, ok) =>
      if ok then State(s.pool, s.clients[c := Got(s.clients[c], Ref(s.next))], s.next + 1)
      else State(Unreserved(s.pool), s.clients[c := s.clients[c].(pc := Ready)], s.next)
    case WokenStep(c, timedOut) =>
      if timedOut then s.(clients := s.clients[c := s.clients[c].(pc := Ready)])
      else State(Popped(s.pool), s.clients[c := Got(s.clients[c], Front(s.pool))], s.next)
    case ReturnStep(c, o) =>
      State(Pushed(s.pool, o), s.clients[c := s.clients[c].(lent := s.clients[c].lent - {o})], s.next)
    case NewObjectStep => s.(next := s.next + 1)
    case AddStep(c, o) => if s.pool.num >= lim.max then s else s.(pool := Added(s.pool, o))
    case RemoveStep(o) => s.(pool := Removed(s.pool, o))
  }

  function Lent(c: Client): int { |c.lent| }

  function BeingMade(c: Client): int { if c.pc == Creating then 1 else 0 }

  /** The count: idle, lent and being created. */
  predicate Counted(s: State) {
    s.pool.num == |s.pool.idle| + Total(s.clients, Lent) + Total(s.clients, BeingMade)
  }

  predicate Distinct(s: seq<Obj>) { forall i, j :: 0 <= i < j < |s| ==> s[i] != s[j] }

  /** No object is in two places. */
  predicate Apart(s: State) {
    Distinct(s.pool.idle) &&
    (forall c, o :: 0 <= c < |s.clients| && o in s.clients[c].lent ==> o !in s.pool.idle) &&
    (forall c, d, o :: 0 <= c < d < |s.clients| && o in s.clients[c].lent ==> o !in s.clients[d].lent)
  }

  predicate Known(s: State) {
    (forall o :: o in s.pool.idle ==> o < s.next) &&
    (forall c, o :: 0 <= c < |s.clients| && o in s.clients[c].lent ==> o < s.next)
  }

  predicate Inv(s: State) { Counted(s) && Apart(s) && Known(s) }

  predicate Initial(s: State) {
    s.pool.num == |s.pool.idle| && Distinct(s.pool.idle) && (forall o :: o in s.pool.idle ==> o < s.next) &&
    forall c :: 0 <= c < |s.clients| ==> s.clients[c] == Client(Ready, {})
  }

  lemma InitialInv(s: State)
    requires Initial(s)
    ensures Inv(s)
  {
    AllZero(s.clients);
  }

  lemma {:induction false} AllZero(cs: seq<Client>)
    requires forall c :: 0 <= c < |cs| ==> cs[c] == Client(Ready, {})
    ensures Total(cs, Lent) == 0 && Total(cs, BeingMade) == 0
  {
    if cs != [] {
      AllZero(cs[1..]);
    }
  }

  lemma PopFacts(s: seq<Obj>)
    requires Distinct(s) && s != []
    ensures Distinct(s[1..]) && s[0] !in s[1..]
    ensures forall x :: x in s <==> x == s[0] || x in s[1..]
  {
    assert s == [s[0]] + s[1..];
    forall i, j | 0 <= i < j < |s[1..]| ensures s[1..][i] != s[1..][j] {
      assert s[1..][i] == s[i + 1] && s[1..][j] == s[j + 1];
    }
  }

  lemma PushFacts(s: seq<Obj>, o: Obj)
    requires Distinct(s) && o !in s
    ensures Distinct(s + [o]) && forall x :: x in s + [o] <==> x in s || x == o
  {
  }

  lemma {:induction false} RemoveFacts(s: seq<Obj>, o: Obj)
    requires Distinct(s)
    ensures Distinct(Without(s, o)) && forall x :: x in Without(s, o) <==> x in s && x != o
  {
    if s != [] {
      PopFacts(s);
      RemoveFacts(s[1..], o);
    }
  }

  predicate ByClient(step: Step) { !(step.NewObjectStep? || step.AddStep? || step.RemoveStep?) }

  /** What one client's step changes in the count is what it changes in its own share. */
  predicate Balanced(s: State, t: State, c: nat) {
    c < |s.clients| == |t.clients| && t.clients == s.clients[c := t.clients[c]] &&
    t.pool.num - |t.pool.idle| - Lent(t.clients[c]) - BeingMade(t.clients[c])
    == s.pool.num - |s.pool.idle| - Lent(s.clients[c]) - BeingMade(s.clients[c])
  }

  lemma LendBalance(s: State, c: nat)
    requires Apart(s) && c < |s.clients| && s.pool.idle != [] && s.clients[c].pc != Creating
    ensures Balanced(s, State(Popped(s.pool), s.clients[c := Got(s.clients[c], Front(s.pool))], s.next), c)
  {
    assert s.pool.idle[0] in s.pool.idle && s.pool.idle[0] !in s.clients[c].lent;
  }

  lemma OwnBalance(s: State, step: Step, lim: Limits)
    requires Known(s) && Enabled(s, step) && (step.ReserveStep? || step.MadeStep? || step.ReturnStep?)
    ensures Balanced(s, Apply(s, step, lim), step.c)
  {
    assert s.next !in s.clients[step.c].lent;
  }

  lemma StepBalance(s: State, step: Step, lim: Limits)
    requires Apart(s) && Known(s) && Enabled(s, step) && ByClient(step)
    ensures Balanced(s, Apply(s, step, lim), step.c)
  {
    if step.ReserveStep? || step.MadeStep? || step.ReturnStep? {
      OwnBalance(s, step, lim);
    } else if s.pool.idle != [] {
      LendBalance(s, step.c);
    }
  }

  lemma StepCounts(s: State, step: Step, lim: Limits)
    requires Inv(s) && Enabled(s, step)
    ensures Counted(Apply(s, step, lim))
  {
    hide Total;
    if !ByClient(step) {
      assert Apply(s, step, lim).clients == s.clients;
    } else {
      hide Apply, Apart, Known, Lent, BeingMade;
      var t := Apply(s, step, lim);
      StepBalance(s, step, lim);
      TotalUpdate(s.clients, step.c, t.clients[step.c], Lent);
      TotalUpdate(s.clients, step.c, t.clients[step.c], BeingMade);
    }
  }

  /** An object moves from the pool to a client. */
  lemma LendKeepsApart(s: State, c: nat)
    requires Apart(s) && Known(s) && c < |s.clients| && s.pool.idle != []
    ensures var t := State(Popped(s.pool), s.clients[c := Got(s.clients[c], Front(s.pool))], s.next);
      Apart(t) && Known(t)
  {
    hide Distinct;
    PopFacts(s.pool.idle);
  }

  lemma ReturnKeepsApart(s: State, c: nat, o: Obj)
    requires Apart(s) && Known(s) && c < |s.clients| && o in s.clients[c].lent
    ensures var t := State(Pushed(s.pool, o), s.clients[c := s.clients[c].(lent := s.clients[c].lent - {o})], s.next);
      Apart(t) && Known(t)
  {
    hide Distinct;
    PushFacts(s.pool.idle, o);
  }

  /** An object the factory has just made. */
  lemma MakeKeepsApart(s: State, c: nat)
    requires Apart(s) && Known(s) && c < |s.clients|
    ensures var t := State(s.pool, s.clients[c := Got(s.clients[c], Ref(s.next))], s.next + 1);
      Apart(t) && Known(t)
  {
    hide Distinct;
  }

  lemma PoolStepKeepsApart(s: State, step: Step, lim: Limits)
    requires Apart(s) && Known(s) && Enabled(s, step) && (step.AddStep? || step.RemoveStep? || step.NewObjectStep?)
    ensures Apart(Apply(s, step, lim)) && Known(Apply(s, step, lim))
  {
    hide Distinct, Without;
    if step.AddStep? {
      PushFacts(s.pool.idle, step.o);
    } else if step.RemoveStep? {
      RemoveFacts(s.pool.idle, step.o);
    }
  }

  /** Steps that move no object. */
  lemma SamePlaces(s: State, t: State)
    requires Apart(s) && Known(s) && t.pool.idle == s.pool.idle && t.next == s.next && |t.clients| == |s.clients|
    requires forall c :: 0 <= c < |s.clients| ==> t.clients[c].lent == s.clients[c].lent
    ensures Apart(t) && Known(t)
  {
  }

  lemma StepKeepsApart(s: State, step: Step, lim: Limits)
    requires Apart(s) && Known(s) && Enabled(s, step)
    ensures Apart(Apply(s, step, lim)) && Known(Apply(s, step, lim))
  {
    hide Apart, Known;
    var t := Apply(s, step, lim);
    match step {
      case TryBorrowStep(c) => if s.pool.idle != [] { LendKeepsApart(s, c); } else { SamePlaces(s, t); }
      case BorrowStep(c) => if s.pool.idle != [] { LendKeepsApart(s, c); } else { SamePlaces(s, t); }
      case ReserveStep(c) => SamePlaces(s, t);
      case MadeStep(c, ok) => if ok { MakeKeepsApart(s, c); } else { SamePlaces(s, t); }
      case WokenStep(c, timedOut) =>
        if s.pool.idle != [] && !timedOut { LendKeepsApart(s, c); } else { SamePlaces(s, t); }
      case ReturnStep(c, o) => ReturnKeepsApart(s, c, o);
      case _ => PoolStepKeepsApart(s, step, lim);
    }
  }

  // ----- runs -----

  ghost predicate Follows(s: State, t: State, lim: Limits) {
    exists step :: Enabled(s, step) && t == Apply(s, step, lim)
  }

  /** The states an interleaving passes, from the first. */
  ghost predicate Trace(tr: seq<State>, lim: Limits) {
    |tr| > 0 && Initial(tr[0]) && forall i :: 0 <= i < |tr| - 1 ==> Follows(tr[i], tr[i + 1], lim)
  }

  lemma {:induction false} TraceKeeps(tr: seq<State>, lim: Limits, i: nat)
    requires Trace(tr, lim) && i < |tr|
    ensures Inv(tr[i])
    ensures tr[i].pool.num <= if tr[0].pool.num > lim.max then tr[0].pool.num else lim.max
  {
    hide Initial, Inv, Enabled, Apply;
    if i == 0 {
      InitialInv(tr[0]);
    } else {
      TraceKeeps(tr, lim, i - 1);
      assert Follows(tr[i - 1], tr[i - 1 + 1], lim);
      var step :| Enabled(tr[i - 1], step) && tr[i] == Apply(tr[i - 1], step, lim);
      StepKeepsInv(tr[i - 1], step, lim);
    }
  }

  lemma StepKeepsInv(s: State, step: Step, lim: Limits)
    requires Inv(s) && Enabled(s, step)
    ensures Inv(Apply(s, step, lim))
    ensures Apply(s, step, lim).pool.num <= s.pool.num || Apply(s, step, lim).pool.num <= lim.max
  {
    StepCounts(s, step, lim);
    StepKeepsApart(s, step, lim);
  }

  /**
   * In every reachable state the pool's count is the number of idle, lent and unfinished objects, and it stays
   * within the maximum unless the pool was made with more.
   */
  lemma CountIsExact(tr: seq<State>, lim: Limits, i: nat)
    requires Trace(tr, lim) && i < |tr|
    ensures tr[i].pool.num == |tr[i].pool.idle| + Total(tr[i].clients, Lent) + Total(tr[i].clients, BeingMade)
    ensures tr[0].pool.num <= lim.max ==> tr[i].pool.num <= lim.max
  {
    TraceKeeps(tr, lim, i);
  }

  /** BorrowNum() is never negative: it is what is lent or being created. */
  lemma BorrowNumIsLent(tr: seq<State>, lim: Limits, i: nat)
    requires Trace(tr, lim) && i < |tr|
    ensures 0 <= tr[i].pool.num - |tr[i].pool.idle| == Total(tr[i].clients, Lent) + Total(tr[i].clients, BeingMade)
  {
    TraceKeeps(tr, lim, i);
    NotNegative(tr[i].clients);
  }

  lemma {:induction false} NotNegative(cs: seq<Client>)
    ensures Total(cs, Lent) >= 0 && Total(cs, BeingMade) >= 0
  {
    if cs != [] {
      NotNegative(cs[1..]);
    }
  }

  /** No object is lent to two clients, or lent and idle, or idle twice. */
  lemma NoObjectInTwoPlaces(tr: seq<State>, lim: Limits, i: nat, c: nat, o: Obj)
    requires Trace(tr, lim) && i < |tr| && c < |tr[i].clients| && o in tr[i].clients[c].lent
    ensures o !in tr[i].pool.idle
    ensures forall d :: 0 <= d < |tr[i].clients| && d != c ==> o !in tr[i].clients[d].lent
    ensures forall j, k :: 0 <= j < k < |tr[i].pool.idle| ==> tr[i].pool.idle[j] != tr[i].pool.idle[k]
  {
    TraceKeeps(tr, lim, i);
    forall d | 0 <= d < |tr[i].clients| && d != c ensures o !in tr[i].clients[d].lent {
      assert d < c || c < d;
    }
  }

  /** Without a time to wait nobody waits: at a full pool Borrow ends at once. */
  lemma {:induction false} NobodyWaits(tr: seq<State>, lim: Limits, i: nat)
    requires Trace(tr, lim) && i < |tr| && lim.timeout <= 0
    ensures forall c :: 0 <= c < |tr[i].clients| ==> tr[i].clients[c].pc != Waiting
  {
    if i > 0 {
      NobodyWaits(tr, lim, i - 1);
      assert Follows(tr[i - 1], tr[i - 1 + 1], lim);
    }
  }

  /** Borrow() while nobody else does anything, on a pool without idle objects that may make another. */
  function LoneBorrow(s: State, c: nat, ok: bool, lim: Limits): State
    requires c < |s.clients| && s.clients[c].pc == Ready && s.pool.idle == [] && s.pool.num < lim.max
  {
    var missed := Apply(s, BorrowStep(c), lim);
    Apply(Apply(missed, ReserveStep(c), lim), MadeStep(c, ok), lim)
  }

  /** It lends a new object, which from now on counts; if the factory fails, everything is as before the call. */
  lemma BorrowAlone(s: State, c: nat, ok: bool, lim: Limits)
    requires c < |s.clients| && s.clients[c].pc == Ready && s.pool.idle == [] && s.pool.num < lim.max
    ensures var lent := s.clients[c].lent;
      LoneBorrow(s, c, ok, lim) ==
        if ok then State(Pool(s.pool.num + 1, []), s.clients[c := Client(Ready, lent + {s.next})], s.next + 1) else s
  {
    var lent := s.clients[c].lent;
    var t := s.clients[c := Client(Missed, lent)][c := Client(Creating, lent)];
    assert t == s.clients[c := Client(Creating, lent)];
    assert t[c := s.clients[c]] == s.clients;
    assert t[c := Client(Ready, lent + {s.next})] == s.clients[c := Client(Ready, lent + {s.next})];
  }

  /**
   * An object returned between Borrow's two locked sections is not seen by the second: the client waits out
   * its time and gets nothing although the object is idle.
   */
  lemma BorrowCanMissAnIdleObject() returns (tr: seq<State>)
    ensures var lim := Limits(1, 3000);
      Trace(tr, lim) && |tr| == 6
    ensures tr[3].clients == [Client(Ready, {}), Client(Missed, {})] && tr[3].pool.idle == [0]
    ensures tr[4].clients == [Client(Ready, {}), Client(Waiting, {})]
    ensures tr[5].clients == [Client(Ready, {}), Client(Ready, {})] && tr[5].pool.idle == [0]
  {
    var lim := Limits(1, 3000);
    var idle, holder := Client(Ready, {}), Client(Ready, {0});
    var s0 := State(Pool(1, [0]), [idle, idle], 1);
    var s1 := State(Pool(1, []), [holder, idle], 1);
    var s2 := State(Pool(1, []), [holder, Client(Missed, {})], 1);
    var s3 := State(Pool(1, [0]), [idle, Client(Missed, {})], 1);
    var s4 := State(Pool(1, [0]), [idle, Client(Waiting, {})], 1);
    tr := [s0, s1, s2, s3, s4, s0];
    hide Follows;
    OneBorrowsOneMisses(lim);
    ReturnedTooLate(lim);
  }

  lemma OneBorrowsOneMisses(lim: Limits)
    ensures var idle, holder := Client(Ready, {}), Client(Ready, {0});
      Follows(State(Pool(1, [0]), [idle, idle], 1), State(Pool(1, []), [holder, idle], 1), lim) &&
      Follows(State(Pool(1, []), [holder, idle], 1), State(Pool(1, []), [holder, Client(Missed, {})], 1), lim)
  {
    hide Follows;
    var idle, holder := Client(Ready, {}), Client(Ready, {0});
    assert idle.lent + {0} == {0};
    var s1 := State(Pool(1, []), [holder, idle], 1);
    Leads(State(Pool(1, [0]), [idle, idle], 1), BorrowStep(0), holder, idle, s1, lim);
    Leads(s1, BorrowStep(1), holder, Client(Missed, {}), State(Pool(1, []), [holder, Client(Missed, {})], 1), lim);
  }

  lemma ReturnedTooLate(lim: Limits)
    requires lim.max == 1 && lim.timeout > 0
    ensures var idle, holder := Client(Ready, {}), Client(Ready, {0});
      var s3 := State(Pool(1, [0]), [idle, Client(Missed, {})], 1);
      var s4 := State(Pool(1, [0]), [idle, Client(Waiting, {})], 1);
      Follows(State(Pool(1, []), [holder, Client(Missed, {})], 1), s3, lim) && Follows(s3, s4, lim) &&
      Follows(s4, State(Pool(1, [0]), [idle, idle], 1), lim)
  {
    hide Follows;
    var idle, holder := Client(Ready, {}), Client(Ready, {0});
    var s3 := State(Pool(1, [0]), [idle, Client(Missed, {})], 1);
    var s4 := State(Pool(1, [0]), [idle, Client(Waiting, {})], 1);
    assert holder.lent - {0} == {};
    Leads(State(Pool(1, []), [holder, Client(Missed, {})], 1), ReturnStep(0, 0), idle, Client(Missed, {}), s3, lim);
    Leads(s3, ReserveStep(1), idle, Client(Waiting, {}), s4, lim);
    Leads(s4, WokenStep(1, true), idle, idle, State(Pool(1, [0]), [idle, idle], 1), lim);
  }

  /** One step between states with two clients. */
  lemma Leads(s: State, step: Step, a: Client, b: Client, t: State, lim: Limits)
    requires |s.clients| == 2 && Enabled(s, step) && ByClient(step) && t.clients == [a, b]
    requires var u := Apply(s, step, lim);
      u.pool.num == t.pool.num && u.pool.idle == t.pool.idle && u.next == t.next
    requires Apply(s, step, lim).clients[0] == a && Apply(s, step, lim).clients[1] == b
    ensures Follows(s, t, lim)
  {
    assert Apply(s, step, lim).clients == [a, b];
  }

  // ----- when Borrow misses an idle object -----

  /** The step ends Borrow with a null pointer. */
  predicate EmptyHanded(s: State, step: Step, lim: Limits) {
    Enabled(s, step) &&
    match step
    case ReserveStep(c) => s.pool.num >= lim.max && lim.timeout <= 0
    case MadeStep(c, ok) => !ok
    case WokenStep(c, timedOut) => timedOut || s.pool.idle == []
    case _ => false
  }

  /** The factory fails only if it may. */
  predicate Allowed(step: Step, mayFail: bool) { step.MadeStep? && !step.ok ==> mayFail }

  /** Some client's Borrow is about to end with nothing while an object is idle. */
  ghost predicate Misses(s: State, lim: Limits, mayFail: bool) {
    s.pool.idle != [] && exists step :: EmptyHanded(s, step, lim) && Allowed(step, mayFail)
  }

  ghost predicate Goes(s: State, t: State, lim: Limits, mayFail: bool) {
    exists step :: Enabled(s, step) && Allowed(step, mayFail) && t == Apply(s, step, lim)
  }

  /** The states an interleaving passes, with a factory that fails only if it may. */
  ghost predicate Path(tr: seq<State>, lim: Limits, mayFail: bool) {
    |tr| > 0 && Initial(tr[0]) && forall i :: 0 <= i < |tr| - 1 ==> Goes(tr[i], tr[i + 1], lim, mayFail)
  }

  lemma PathIsTrace(tr: seq<State>, lim: Limits, mayFail: bool)
    requires Path(tr, lim, mayFail)
    ensures Trace(tr, lim)
  {
    hide Enabled, Apply, Initial, Allowed;
    forall i | 0 <= i < |tr| - 1 ensures Follows(tr[i], tr[i + 1], lim) {
      assert Goes(tr[i], tr[i + 1], lim, mayFail);
    }
  }

  ghost predicate Reaches(s: State, t: State, lim: Limits, mayFail: bool) {
    exists tr :: Path(tr, lim, mayFail) && tr[0] == s && tr[|tr| - 1] == t
  }

  lemma ReachesItself(s: State, lim: Limits, mayFail: bool)
    requires Initial(s)
    ensures Reaches(s, s, lim, mayFail)
  {
    assert Path([s], lim, mayFail);
  }

  lemma ReachesNext(s: State, t: State, step: Step, lim: Limits, mayFail: bool)
    requires Reaches(s, t, lim, mayFail) && Enabled(t, step) && Allowed(step, mayFail)
    ensures Reaches(s, Apply(t, step, lim), lim, mayFail)
  {
    var tr :| Path(tr, lim, mayFail) && tr[0] == s && tr[|tr| - 1] == t;
    var u := Apply(t, step, lim);
    hide Enabled, Apply, Initial;
    assert Goes(t, u, lim, mayFail);
    var more := tr + [u];
    forall i | 0 <= i < |more| - 1 ensures Goes(more[i], more[i + 1], lim, mayFail) {
      if i < |tr| - 1 {
        assert more[i] == tr[i] && more[i + 1] == tr[i + 1];
      }
    }
    assert Path(more, lim, mayFail) && more[|more| - 1] == u;
  }

  /** A single client inside Borrow has seen an empty list, and nobody else can fill it. */
  predicate Lone(s: State) {
    |s.clients| <= 1 && (|s.clients| == 1 && s.clients[0].pc != Ready ==> s.pool.idle == [])
  }

  /** A pool without places and without objects stays so. */
  predicate Barren(s: State, lim: Limits) {
    lim.max <= 0 && s.pool == Pool(0, []) &&
    forall c :: 0 <= c < |s.clients| ==> s.clients[c].pc != Creating && s.clients[c].lent == {}
  }

  lemma StepKeepsLone(s: State, step: Step, lim: Limits)
    requires Lone(s) && Enabled(s, step)
    ensures Lone(Apply(s, step, lim))
  {
  }

  lemma StepKeepsBarren(s: State, step: Step, lim: Limits)
    requires Barren(s, lim) && Enabled(s, step)
    ensures Barren(Apply(s, step, lim), lim)
  {
  }

  lemma {:induction false} NeverMisses(tr: seq<State>, lim: Limits, i: nat)
    requires Trace(tr, lim) && i < |tr| && (|tr[0].clients| < 2 || (lim.max < 1 && tr[0].pool.idle == []))
    ensures if |tr[0].clients| < 2 then Lone(tr[i]) else Barren(tr[i], lim)
  {
    hide Enabled, Apply, Lone, Barren;
    if i == 0 {
      StartsQuiet(tr[0], lim);
    } else {
      NeverMisses(tr, lim, i - 1);
      assert Follows(tr[i - 1], tr[i - 1 + 1], lim);
      var step :| Enabled(tr[i - 1], step) && tr[i] == Apply(tr[i - 1], step, lim);
      if |tr[0].clients| < 2 {
        StepKeepsLone(tr[i - 1], step, lim);
      } else {
        StepKeepsBarren(tr[i - 1], step, lim);
      }
    }
  }

  lemma StartsQuiet(s: State, lim: Limits)
    requires Initial(s)
    ensures |s.clients| < 2 ==> Lone(s)
    ensures lim.max < 1 && s.pool.idle == [] ==> Barren(s, lim)
  {
  }

  /** The first client borrows until nothing is idle. */
  lemma {:induction false} BorrowsAll(s: State, t: State, lim: Limits) returns (u: State)
    requires Reaches(s, t, lim, false) && |t.clients| >= 2 && t.clients[0].pc == Ready
    ensures Reaches(s, u, lim, false) && u.pool.idle == []
    ensures |u.clients| == |t.clients| && u.clients == t.clients[0 := u.clients[0]] && u.clients[0].pc == Ready
    ensures t.pool.idle != [] || t.clients[0].lent != {} ==> u.clients[0].lent != {}
    ensures t.pool.idle == [] ==> u == t
    decreases |t.pool.idle|
  {
    hide Reaches;
    if t.pool.idle == [] {
      u := t;
    } else {
      var step := TryBorrowStep(0);
      ReachesNext(s, t, step, lim, false);
      var v := Apply(t, step, lim);
      assert t.pool.idle[0] in v.clients[0].lent;
      u := BorrowsAll(s, v, lim);
    }
  }

  /** Then it has objects made until the pool is full. */
  lemma {:induction false} FillsUp(s: State, t: State, lim: Limits) returns (u: State)
    requires Reaches(s, t, lim, false) && |t.clients| >= 2 && t.clients[0].pc == Ready && t.pool.idle == []
    ensures Reaches(s, u, lim, false) && u.pool.idle == [] && u.pool.num >= lim.max
    ensures |u.clients| == |t.clients| && u.clients == t.clients[0 := u.clients[0]] && u.clients[0].pc == Ready
    ensures t.pool.num < lim.max || t.clients[0].lent != {} ==> u.clients[0].lent != {}
    decreases lim.max - t.pool.num
  {
    hide Reaches;
    if t.pool.num >= lim.max {
      u := t;
    } else {
      var v := HasOneMade(s, t, lim);
      u := FillsUp(s, v, lim);
    }
  }

  lemma HasOneMade(s: State, t: State, lim: Limits) returns (u: State)
    requires Reaches(s, t, lim, false) && |t.clients| >= 2 && t.clients[0].pc == Ready && t.pool.idle == []
    requires t.pool.num < lim.max
    ensures Reaches(s, u, lim, false) && u.pool.idle == [] && u.pool.num == t.pool.num + 1
    ensures |u.clients| == |t.clients| && u.clients == t.clients[0 := u.clients[0]] && u.clients[0].pc == Ready
    ensures u.clients[0].lent != {}
  {
    hide Reaches;
    ReachesNext(s, t, BorrowStep(0), lim, false);
    var a := Apply(t, BorrowStep(0), lim);
    ReachesNext(s, a, ReserveStep(0), lim, false);
    var b := Apply(a, ReserveStep(0), lim);
    ReachesNext(s, b, MadeStep(0, true), lim, false);
    u := Apply(b, MadeStep(0, true), lim);
    assert t.next in u.clients[0].lent;
  }

  /** The second client finds nothing; then the first returns an object; then the second gives up. */
  lemma SecondMisses(s: State, t: State, lim: Limits) returns (u: State)
    requires Reaches(s, t, lim, false) && |t.clients| >= 2 && t.pool.idle == [] && t.clients[1].pc == Ready
    requires t.clients[0].pc == Ready && t.clients[0].lent != {} && t.pool.num >= lim.max
    ensures Reaches(s, u, lim, false) && Misses(u, lim, false)
  {
    hide Reaches;
    var o :| o in t.clients[0].lent;
    ReachesNext(s, t, BorrowStep(1), lim, false);
    var a := Apply(t, BorrowStep(1), lim);
    ReachesNext(s, a, ReturnStep(0, o), lim, false);
    var b := Apply(a, ReturnStep(0, o), lim);
    if lim.timeout <= 0 {
      u := b;
      assert EmptyHanded(u, ReserveStep(1), lim);
    } else {
      ReachesNext(s, b, ReserveStep(1), lim, false);
      u := Apply(b, ReserveStep(1), lim);
      assert EmptyHanded(u, WokenStep(1, true), lim);
    }
  }

  lemma MoreIsAllowed(s: State, t: State, lim: Limits, mayFail: bool)
    requires Reaches(s, t, lim, false) && Misses(t, lim, false)
    ensures Reaches(s, t, lim, mayFail) && Misses(t, lim, mayFail)
  {
    hide Enabled, Apply, Initial, EmptyHanded;
    var tr :| Path(tr, lim, false) && tr[0] == s && tr[|tr| - 1] == t;
    forall i | 0 <= i < |tr| - 1 ensures Goes(tr[i], tr[i + 1], lim, mayFail) {
      assert Goes(tr[i], tr[i + 1], lim, false);
    }
    assert Path(tr, lim, mayFail);
  }

  /**
   * Some interleaving ends Borrow with nothing while an object is idle exactly if there are two clients and the pool
   * can have an object at all, whether or not the factory may fail.
   */
  lemma BorrowMissesIffTwoClients(s: State, lim: Limits, mayFail: bool)
    requires Initial(s)
    ensures (exists t :: Reaches(s, t, lim, mayFail) && Misses(t, lim, mayFail)) <==>
            |s.clients| >= 2 && (lim.max >= 1 || s.pool.idle != [])
  {
    hide Misses;
    if |s.clients| >= 2 && (lim.max >= 1 || s.pool.idle != []) {
      ReachesItself(s, lim, false);
      var a := BorrowsAll(s, s, lim);
      var b := FillsUp(s, a, lim);
      assert b.clients[1] == s.clients[1];
      var c := SecondMisses(s, b, lim);
      MoreIsAllowed(s, c, lim, mayFail);
    } else {
      forall t | Reaches(s, t, lim, mayFail) ensures !Misses(t, lim, mayFail) {
        var tr :| Path(tr, lim, mayFail) && tr[0] == s && tr[|tr| - 1] == t;
        PathIsTrace(tr, lim, mayFail);
        NeverMisses(tr, lim, |tr| - 1);
        QuietDoesNotMiss(t, lim, mayFail);
      }
    }
  }

  lemma QuietDoesNotMiss(s: State, lim: Limits, mayFail: bool)
    requires Lone(s) || Barren(s, lim)
    ensures !Misses(s, lim, mayFail)
  {
  }
}
