/** The single-producer single-consumer frame queue of the driver: q_write in interrupts, q_read in the poll loop. */
module FrameQueue {
  import opened Bytes
  import opened Modulo

  const WORD := 8   // sizeof(size_t)

  // ----- sizes as bytes -----

  /** A size_t as memcpy sees it on a little-endian machine. */
  function Word(n: nat): Str { WordBytes(n, WORD) }

  function WordBytes(n: nat, k: nat): (t: Str)
    ensures |t| == k
  {
    if k == 0 then [] else [n % 0x100] + WordBytes(n / 0x100, k - 1)
  }

  function FromWord(t: Str): nat {
    if t == [] then 0 else t[0] + 0x100 * FromWord(t[1..])
  }

  function Pow256(k: nat): nat { if k == 0 then 1 else 0x100 * Pow256(k - 1) }

  lemma {:induction false} WordRoundTrip(n: nat, k: nat)
    requires n < Pow256(k)
    ensures FromWord(WordBytes(n, k)) == n
  {
    if k > 0 {
      WordRoundTrip(n / 0x100, k - 1);
      assert WordBytes(n, k)[1..] == WordBytes(n / 0x100, k - 1);
    }
  }

  /** The lowest byte comes first, and a byte is worth 256 times the one before it. */
  lemma WordIsLittleEndian(low: Byte, high: nat, k: nat)
    requires k > 0
    ensures WordBytes(0x100 * high + low, k) == [low] + WordBytes(high, k - 1)
  {
    var n := 0x100 * high + low;
    assert n % 0x100 == low && n / 0x100 == high;
    assert WordBytes(n, k) == [n % 0x100] + WordBytes(n / 0x100, k - 1);
  }

  lemma WordExample()
    ensures Word(0x1_0203) == [0x03, 0x02, 0x01, 0, 0, 0, 0, 0]
  {
    hide WordBytes;
    WordIsLittleEndian(3, 0x102, 8);
    WordIsLittleEndian(2, 1, 7);
    WordIsLittleEndian(1, 0, 6);
    FiveZeros();
  }

  lemma FiveZeros()
    ensures WordBytes(0, 5) == [0, 0, 0, 0, 0]
  {
    assert WordBytes(0, 3) == [0, 0, 0];
  }

  // ----- the ring -----

  /** The ring with `bytes` written from index `at` on, wrapping at the end. */
  function RingPut(b: Str, at: nat, bytes: Str): (r: Str)
    requires at < |b| && |bytes| <= |b|
    ensures |r| == |b|
  {
    seq(|b|, k requires 0 <= k < |b| =>
      var i := if k >= at then k - at else k + |b| - at;
      if i < |bytes| then bytes[i] else b[k])
  }

  /** The `n` bytes from index `at` on, wrapping at the end. */
  function RingGet(b: Str, at: nat, n: nat): (r: Str)
    requires at < |b| && n <= |b|
    ensures |r| == n
  {
    seq(n, i requires 0 <= i < n => b[if at + i < |b| then at + i else at + i - |b|])
  }

  /** (N - head + tail - 1) mod N: one byte less than the free space. */
  function Left(n: nat, head: nat, tail: nat): nat
    requires head < n
  {
    (n - head + tail - 1) % n
  }

  // ----- the code, run by one thread -----

  class Queue {
    const buf: array<Byte>
    var tail: nat
    var head: nat

    ghost predicate Valid()
      reads this
    {
      head < buf.Length && tail < buf.Length && buf.Length < Pow256(WORD)
    }

    constructor (len: nat)
      requires 0 < len < Pow256(WORD)
      ensures Valid() && fresh(buf) && buf.Length == len && head == tail == 0
    {
      buf := new Byte[len];
      head, tail := 0, 0;
    }

    method Copy(bytes: Str, at: nat)
      requires at + |bytes| <= buf.Length
      modifies buf
      ensures forall k :: 0 <= k < buf.Length ==>
        buf[k] == if at <= k < at + |bytes| then bytes[k - at] else old(buf[k])
    {
      forall i | 0 <= i < |bytes| {
        buf[at + i] := bytes[i];
      }
    }

    /** q_copyin */
    method CopyIn(bytes: Str, at: nat)
      requires at < buf.Length && |bytes| <= buf.Length
      modifies buf
      ensures buf[..] == RingPut(old(buf[..]), at, bytes)
    {
      var left := buf.Length - at;
      Copy(if left < |bytes| then bytes[..left] else bytes, at);
      if left < |bytes| {
        Copy(bytes[left..], 0);
      }
    }

    /** q_copyout */
    method CopyOut(n: nat, at: nat) returns (bytes: Str)
      requires at < buf.Length && n <= buf.Length
      ensures bytes == RingGet(buf[..], at, n)
    {
      var left := buf.Length - at;
      bytes := buf[at..at + if left < n then left else n];
      if left < n {
        bytes := bytes + buf[..n - left];
      }
    }

    method Write(msg: Str) returns (success: bool)
      requires Valid()
      modifies this`head, buf
      ensures Valid() && success == (|msg| + WORD <= Left(buf.Length, old(head), tail))
      ensures if success then
          head == (old(head) + WORD + |msg|) % buf.Length &&
          buf[..] == RingPut(RingPut(old(buf[..]), old(head), Word(|msg|)), (old(head) + WORD) % buf.Length, msg)
        else head == old(head) && buf[..] == old(buf[..])
    {
      success := false;
      var left := (buf.Length - head + tail - 1) % buf.Length;
      if |msg| + WORD <= left {
        CopyIn(Word(|msg|), head);
        CopyIn(msg, (head + WORD) % buf.Length);
        head := (head + WORD + |msg|) % buf.Length;
        success := true;
      }
    }

    /** q_avail: 0 for an empty queue, else the size stored at the tail. */
    method Avail() returns (n: nat)
      requires Valid() && buf.Length >= WORD
      ensures n == if tail == head then 0 else FromWord(RingGet(buf[..], tail, WORD))
    {
      n := 0;
      if tail != head {
        var t := CopyOut(WORD, tail);
        n := FromWord(t);
      }
    }

    /** q_read; the stored size must be that of a frame. */
    method Read() returns (msg: Str)
      requires Valid() && buf.Length >= WORD
      requires tail != head ==> FromWord(RingGet(buf[..], tail, WORD)) <= buf.Length
      modifies this`tail
      ensures var n := if old(tail) == head then 0 else FromWord(RingGet(buf[..], old(tail), WORD));
        if n == 0 then msg == [] && tail == old(tail)
        else msg == RingGet(buf[..], (old(tail) + WORD) % buf.Length, n) && tail == (old(tail) + WORD + n) % buf.Length
    {
      var n := Avail();
      msg := [];
      if n > 0 {
        msg := CopyOut(n, (tail + WORD) % buf.Length);
        tail := (tail + WORD + n) % buf.Length;
      }
    }
  }

  // ----- producer and consumer interleaved -----

  /** Where q_write stands: it has read the tail; stored the size; stored the payload. */
  datatype Producer = Idle | Loaded(msg: Str, left: nat) | Sized(msg: Str) | Filled(msg: Str)

  /** Where q_read stands: it has seen the head move; read the size; copied the payload. */
  datatype Consumer = Waiting | Ready | Measured(n: nat) | Copied(msg: Str)

  /** Shared memory and both program counters; `accepted` and `delivered` record what has been published and read. */
  datatype State = State(buf: Str, head: nat, tail: nat, producer: Producer, consumer: Consumer,
                         accepted: seq<Str>, delivered: seq<Str>)

  ghost predicate Init(s: State) {
    0 < |s.buf| < Pow256(WORD) && s.head == s.tail == 0 && s.producer == Idle && s.consumer == Waiting &&
    s.accepted == s.delivered == []
  }

  ghost predicate ProducerStep(s: State, t: State) {
    var n := |s.buf|;
    s.head < n && match s.producer
    case Idle => exists msg :: t == s.(producer := Loaded(msg, Left(n, s.head, s.tail)))
    case Loaded(msg, left) =>
      if |msg| + WORD > left then t == s.(producer := Idle)
      else WORD <= n && t == s.(buf := RingPut(s.buf, s.head, Word(|msg|)), producer := Sized(msg))
    case Sized(msg) =>
      |msg| <= n && t == s.(buf := RingPut(s.buf, (s.head + WORD) % n, msg), producer := Filled(msg))
    case Filled(msg) =>
      t == s.(head := (s.head + WORD + |msg|) % n, accepted := s.accepted + [msg], producer := Idle)
  }

  ghost predicate ConsumerStep(s: State, t: State) {
    var n := |s.buf|;
    s.tail < n && match s.consumer
    case Waiting => t == if s.tail != s.head then s.(consumer := Ready) else s
    case Ready => WORD <= n && t == s.(consumer := Measured(FromWord(RingGet(s.buf, s.tail, WORD))))
    case Measured(size) =>
      if size == 0 then t == s.(consumer := Waiting)
      else size <= n && t == s.(consumer := Copied(RingGet(s.buf, (s.tail + WORD) % n, size)))
    case Copied(msg) =>
      t == s.(tail := (s.tail + WORD + |msg|) % n, delivered := s.delivered + [msg], consumer := Waiting)
  }

  ghost predicate Step(s: State, t: State) { ProducerStep(s, t) || ConsumerStep(s, t) }

  ghost predicate Run(ss: seq<State>) {
    ss != [] && Init(ss[0]) && forall i :: 0 <= i < |ss| - 1 ==> Step(ss[i], ss[i + 1])
  }

  // ----- the invariant, in bytes counted from the start of time -----

  function Frame(msg: Str): Str { Word(|msg|) + msg }

  /** All bytes ever published for these messages. */
  function Stream(ms: seq<Str>): Str {
    if ms == [] then [] else Stream(ms[..|ms| - 1]) + Frame(ms[|ms| - 1])
  }

  /** The ring holds `bytes` at absolute positions from `from` on. */
  ghost predicate Holds(b: Str, from: nat, bytes: Str)
    requires b != []
  {
    forall k :: from <= k < from + |bytes| ==> b[k % |b|] == bytes[k - from]
  }

  /** The ring holds the unread part of the stream. */
  ghost predicate HoldsUnread(b: Str, stream: Str, from: nat)
    requires b != []
  {
    forall k :: from <= k < |stream| ==> b[k % |b|] == stream[k]
  }

  ghost predicate ProducerInv(s: State)
    requires s.buf != []
  {
    var n, used := |s.buf|, |Stream(s.accepted)| - |Stream(s.delivered)|;
    match s.producer
    case Idle => true
    case Loaded(msg, left) => left + used <= n - 1
    case Sized(msg) => |msg| + WORD + used <= n - 1 && Holds(s.buf, |Stream(s.accepted)|, Word(|msg|))
    case Filled(msg) => |msg| + WORD + used <= n - 1 && Holds(s.buf, |Stream(s.accepted)|, Frame(msg))
  }

  ghost predicate ConsumerInv(s: State) {
    match s.consumer
    case Waiting => true
    case Ready => |s.delivered| < |s.accepted|
    case Measured(n) => |s.delivered| < |s.accepted| && n == |s.accepted[|s.delivered|]|
    case Copied(msg) => |s.delivered| < |s.accepted| && msg == s.accepted[|s.delivered|] && msg != []
  }

  ghost predicate Inv(s: State) {
    && 0 < |s.buf| < Pow256(WORD)
    && s.delivered <= s.accepted
    && s.head == |Stream(s.accepted)| % |s.buf|
    && s.tail == |Stream(s.delivered)| % |s.buf|
    && |Stream(s.accepted)| - |Stream(s.delivered)| <= |s.buf| - 1
    && HoldsUnread(s.buf, Stream(s.accepted), |Stream(s.delivered)|)
    && ProducerInv(s)
    && ConsumerInv(s)
  }

  // ----- positions in the ring -----

  lemma PutAt(b: Str, h: nat, bytes: Str, k: nat)
    requires b != [] && |bytes| <= |b| && h <= k < h + |b|
    ensures RingPut(b, h % |b|, bytes)[k % |b|] == if k - h < |bytes| then bytes[k - h] else b[k % |b|]
  {
    ModAdd(h, k - h, |b|);
  }

  lemma GetAt(b: Str, t: nat, n: nat, i: nat)
    requires b != [] && n <= |b| && i < n
    ensures RingGet(b, t % |b|, n)[i] == b[(t + i) % |b|]
  {
    ModAdd(t, i, |b|);
  }

  /** Bytes written at the head are there, and everything less than a ring behind the end of the write is untouched. */
  lemma PutHolds(b: Str, h: nat, bytes: Str)
    requires b != [] && |bytes| <= |b|
    ensures Holds(RingPut(b, h % |b|, bytes), h, bytes)
  {
    hide RingPut;
    var r := RingPut(b, h % |b|, bytes);
    forall k | h <= k < h + |bytes| ensures r[k % |b|] == bytes[k - h] {
      PutAt(b, h, bytes, k);
    }
  }

  lemma PutKeeps(b: Str, h: nat, bytes: Str, k: nat)
    requires b != [] && |bytes| <= |b| && k < h && h + |bytes| <= k + |b|
    ensures RingPut(b, h % |b|, bytes)[k % |b|] == b[k % |b|]
  {
    ModUnique(k + |b|, |b|, k / |b| + 1, k % |b|);
    PutAt(b, h, bytes, k + |b|);
  }

  lemma PutKeepsUnread(b: Str, h: nat, bytes: Str, stream: Str, from: nat)
    requires b != [] && |bytes| <= |b| && |stream| <= h && h + |bytes| <= from + |b|
    requires HoldsUnread(b, stream, from)
    ensures HoldsUnread(RingPut(b, h % |b|, bytes), stream, from)
  {
    hide RingPut;
    forall k | from <= k < |stream| ensures RingPut(b, h % |b|, bytes)[k % |b|] == stream[k] {
      PutKeeps(b, h, bytes, k);
    }
  }

  lemma HeldIsRead(b: Str, t: nat, bytes: Str)
    requires b != [] && |bytes| <= |b| && Holds(b, t, bytes)
    ensures RingGet(b, t % |b|, |bytes|) == bytes
  {
    hide RingGet;
    forall i | 0 <= i < |bytes| ensures RingGet(b, t % |b|, |bytes|)[i] == bytes[i] {
      GetAt(b, t, |bytes|, i);
    }
  }

  // ----- streams -----

  lemma StreamAppend(ms: seq<Str>, m: Str)
    ensures Stream(ms + [m]) == Stream(ms) + Frame(m)
  {
    assert (ms + [m])[..|ms|] == ms;
  }

  /** The stream of a prefix is a prefix, and the next frame follows it. */
  lemma {:induction false} StreamPrefix(d: seq<Str>, a: seq<Str>)
    requires d <= a
    ensures Stream(d) <= Stream(a)
    ensures |d| < |a| ==> Stream(d) + Frame(a[|d|]) <= Stream(a)
    decreases |a|
  {
    if d == a {
    } else {
      var u := a[..|a| - 1];
      assert a == u + [a[|a| - 1]];
      StreamAppend(u, a[|a| - 1]);
      StreamPrefix(d, u);
      if d == u {
        assert a[|d|] == a[|a| - 1];
      } else {
        assert u[|d|] == a[|d|];
      }
    }
  }

  /** The next unread frame lies in the ring from the tail on. */
  lemma NextFrameIsHeld(s: State)
    requires Inv(s) && |s.delivered| < |s.accepted|
    ensures var f, t := Frame(s.accepted[|s.delivered|]), |Stream(s.delivered)|;
      Holds(s.buf, t, f) && t + |f| <= |Stream(s.accepted)|
  {
    hide ProducerInv, ConsumerInv;
    StreamPrefix(s.delivered, s.accepted);
    var f, st, t := Frame(s.accepted[|s.delivered|]), Stream(s.accepted), |Stream(s.delivered)|;
    forall k | t <= k < t + |f| ensures s.buf[k % |s.buf|] == f[k - t] {
      assert st[k] == (Stream(s.delivered) + f)[k] == f[k - t];
    }
  }

  lemma HoldsSplit(b: Str, t: nat, x: Str, y: Str)
    requires b != []
    ensures Holds(b, t, x + y) <==> Holds(b, t, x) && Holds(b, t + |x|, y)
  {
    if Holds(b, t, x + y) {
      forall k | t <= k < t + |x| ensures b[k % |b|] == x[k - t] {
        assert (x + y)[k - t] == x[k - t];
      }
      forall k | t + |x| <= k < t + |x| + |y| ensures b[k % |b|] == y[k - (t + |x|)] {
        assert (x + y)[k - t] == y[k - (t + |x|)];
      }
    }
  }

  // ----- every step keeps the invariant -----

  lemma InitInv(s: State)
    requires Init(s)
    ensures Inv(s)
  {
  }

  /** A load of a tail that the consumer may move on at any time: the space seen is never more than there is. */
  lemma LeftIsSafe(n: nat, h: nat, t: nat)
    requires n > 0 && t <= h <= t + n - 1
    ensures Left(n, h % n, t % n) + (h - t) == n - 1
  {
    ModAdd(t, h - t, n);
    var u := h - t;
    if t % n + u < n {
      ModUnique(n - u - 1, n, 0, n - u - 1);
    } else {
      ModUnique(n - h % n + t % n - 1, n, 1, n - 1 - u);
    }
  }

  lemma ProducerKeepsInv(s: State, t: State)
    requires Inv(s) && ProducerStep(s, t)
    ensures Inv(t)
  {
    hide Word, RingPut, Left;
    var n, h, d := |s.buf|, |Stream(s.accepted)|, |Stream(s.delivered)|;
    StreamPrefix(s.delivered, s.accepted);
    match s.producer {
      case Idle =>
        LeftIsSafe(n, h, d);
      case Loaded(msg, left) =>
        if |msg| + WORD <= left { SizeIsStored(s, t, msg); }
      case Sized(msg) => PayloadIsStored(s, t, msg);
      case Filled(msg) => FrameIsPublished(s, t, msg);
    }
  }

  lemma WordLength(n: nat)
    ensures |Word(n)| == WORD
  {
  }

  lemma SizeIsStored(s: State, t: State, msg: Str)
    requires Inv(s) && |msg| + WORD + |Stream(s.accepted)| - |Stream(s.delivered)| <= |s.buf| - 1
    requires |Stream(s.delivered)| <= |Stream(s.accepted)|
    requires t == s.(buf := RingPut(s.buf, s.head, Word(|msg|)), producer := Sized(msg))
    ensures Inv(t)
  {
    hide Word, RingPut, ConsumerInv, Stream;
    WordLength(|msg|);
    PutHolds(s.buf, |Stream(s.accepted)|, Word(|msg|));
    PutKeepsUnread(s.buf, |Stream(s.accepted)|, Word(|msg|), Stream(s.accepted), |Stream(s.delivered)|);
    ConsumerUnmoved(s, t);
  }

  lemma ConsumerUnmoved(s: State, t: State)
    requires ConsumerInv(s) && t.consumer == s.consumer && t.accepted == s.accepted && t.delivered == s.delivered
    ensures ConsumerInv(t)
  {
  }

  lemma PayloadIsStored(s: State, t: State, msg: Str)
    requires Inv(s) && s.producer == Sized(msg) && |Stream(s.delivered)| <= |Stream(s.accepted)|
    requires |msg| <= |s.buf| && s.head < |s.buf|
    requires t == s.(buf := RingPut(s.buf, (s.head + WORD) % |s.buf|, msg), producer := Filled(msg))
    ensures Inv(t)
  {
    hide Word, RingPut, ConsumerInv, Stream;
    var n, h, d := |s.buf|, |Stream(s.accepted)|, |Stream(s.delivered)|;
    WordLength(|msg|);
    ModShift(h, WORD, n);
    PutHolds(s.buf, h + WORD, msg);
    PutKeepsUnread(s.buf, h + WORD, msg, Stream(s.accepted), d);
    forall k | h <= k < h + WORD ensures t.buf[k % n] == Word(|msg|)[k - h] {
      PutKeeps(s.buf, h + WORD, msg, k);
    }
    HoldsSplit(t.buf, h, Word(|msg|), msg);
    ConsumerUnmoved(s, t);
  }

  lemma FrameIsPublished(s: State, t: State, msg: Str)
    requires Inv(s) && s.producer == Filled(msg) && |Stream(s.delivered)| <= |Stream(s.accepted)|
    requires t == s.(head := (s.head + WORD + |msg|) % |s.buf|, accepted := s.accepted + [msg], producer := Idle)
    ensures Inv(t)
  {
    hide Word, Stream;
    var n, h, d := |s.buf|, |Stream(s.accepted)|, |Stream(s.delivered)|;
    WordLength(|msg|);
    StreamAppend(s.accepted, msg);
    ModShift(h, WORD + |msg|, n);
    var st := Stream(t.accepted);
    forall k | d <= k < |st| ensures t.buf[k % n] == st[k] {
      if k < h {
        assert st[k] == Stream(s.accepted)[k];
      } else {
        assert st[k] == Frame(msg)[k - h];
      }
    }
    assert t.delivered <= t.accepted;
    assert |s.delivered| < |s.accepted| ==> t.accepted[|s.delivered|] == s.accepted[|s.delivered|];
  }

  lemma ConsumerKeepsInv(s: State, t: State)
    requires Inv(s) && ConsumerStep(s, t)
    ensures Inv(t)
  {
    hide Word, RingGet, Stream, HoldsUnread;
    StreamPrefix(s.delivered, s.accepted);
    match s.consumer {
      case Waiting =>
        if s.delivered == s.accepted { assert s.tail == s.head; }
      case Ready => SizeIsRead(s);
      case Measured(size) =>
        if size > 0 { PayloadIsRead(s); }
      case Copied(msg) => FrameIsConsumed(s, t, msg);
    }
  }

  lemma SizeIsRead(s: State)
    requires Inv(s) && s.consumer == Ready && WORD <= |s.buf|
    ensures FromWord(RingGet(s.buf, s.tail, WORD)) == |s.accepted[|s.delivered|]|
  {
    hide Word, RingGet, Stream, HoldsUnread, ProducerInv, FromWord;
    var m, t := s.accepted[|s.delivered|], |Stream(s.delivered)|;
    NextFrameIsHeld(s);
    HoldsSplit(s.buf, t, Word(|m|), m);
    WordLength(|m|);
    HeldIsRead(s.buf, t, Word(|m|));
    WordIsExact(|m|);
  }

  lemma WordIsExact(n: nat)
    requires n < Pow256(WORD)
    ensures FromWord(Word(n)) == n
  {
    WordRoundTrip(n, WORD);
  }

  lemma PayloadIsRead(s: State)
    requires Inv(s) && s.consumer.Measured? && s.consumer.n <= |s.buf|
    ensures RingGet(s.buf, (s.tail + WORD) % |s.buf|, s.consumer.n) == s.accepted[|s.delivered|]
  {
    hide Word, RingGet, Stream, HoldsUnread, ProducerInv;
    var m, t := s.accepted[|s.delivered|], |Stream(s.delivered)|;
    NextFrameIsHeld(s);
    HoldsSplit(s.buf, t, Word(|m|), m);
    WordLength(|m|);
    ModShift(t, WORD, |s.buf|);
    HeldIsRead(s.buf, t + WORD, m);
  }

  lemma FrameIsConsumed(s: State, t: State, msg: Str)
    requires Inv(s) && s.consumer == Copied(msg)
    requires t == s.(tail := (s.tail + WORD + |msg|) % |s.buf|, delivered := s.delivered + [msg], consumer := Waiting)
    ensures Inv(t)
  {
    hide Word, Stream;
    WordLength(|msg|);
    StreamAppend(s.delivered, msg);
    StreamPrefix(s.delivered, s.accepted);
    ModShift(|Stream(s.delivered)|, WORD + |msg|, |s.buf|);
    assert t.delivered == s.accepted[..|t.delivered|];
  }

  // ----- the results -----

  lemma StepKeepsInv(s: State, t: State)
    requires Inv(s) && Step(s, t)
    ensures Inv(t)
  {
    hide Inv, ProducerStep, ConsumerStep;
    if ProducerStep(s, t) { ProducerKeepsInv(s, t); } else { ConsumerKeepsInv(s, t); }
  }

  /** In every interleaving the frames read are a prefix of the frames accepted, byte for byte. */
  lemma {:induction false} DeliveredIsPrefix(ss: seq<State>, i: nat)
    requires Run(ss) && i < |ss|
    ensures Inv(ss[i]) && ss[i].delivered <= ss[i].accepted
  {
    hide Step;
    if i == 0 {
      InitInv(ss[0]);
    } else {
      DeliveredIsPrefix(ss, i - 1);
      assert Step(ss[i - 1], ss[i - 1 + 1]);
      StepKeepsInv(ss[i - 1], ss[i]);
    }
  }

  /** No step writes into bytes that are published and unread, even when the producer works with a stale tail. */
  lemma UnreadBytesAreStable(s: State, t: State)
    requires Inv(s) && Step(s, t)
    ensures forall k :: |Stream(s.delivered)| <= k < |Stream(s.accepted)| ==> t.buf[k % |t.buf|] == s.buf[k % |s.buf|]
  {
    hide Step, Stream, ProducerInv, ConsumerInv;
    StepKeepsInv(s, t);
    AcceptedGrows(s, t);
    StreamPrefix(s.accepted, t.accepted);
    DeliveredStays(s, t);
  }

  lemma AcceptedGrows(s: State, t: State)
    requires Inv(s) && Step(s, t)
    ensures s.accepted <= t.accepted && |t.buf| == |s.buf|
  {
    hide RingPut, RingGet, Left, Word, Stream;
  }

  lemma DeliveredStays(s: State, t: State)
    requires Inv(s) && Inv(t) && Step(s, t) && Stream(s.accepted) <= Stream(t.accepted)
    ensures forall k :: |Stream(s.delivered)| <= k < |Stream(s.accepted)| ==> t.buf[k % |t.buf|] == s.buf[k % |s.buf|]
  {
    hide RingPut, RingGet, Left, Word, Stream, ProducerInv, ConsumerInv;
    if t.buf != s.buf {
      assert t.delivered == s.delivered && t.accepted == s.accepted;
    }
  }

  /** The copies never leave the ring: what the steps need is always so when they are due. */
  lemma CopiesStayInside(s: State)
    requires Inv(s)
    ensures s.head < |s.buf| && s.tail < |s.buf|
    ensures s.producer.Loaded? && |s.producer.msg| + WORD <= s.producer.left ==> WORD + |s.producer.msg| <= |s.buf|
    ensures s.producer.Sized? ==> |s.producer.msg| <= |s.buf|
    ensures s.consumer.Ready? ==> WORD <= |s.buf|
    ensures s.consumer.Measured? ==> s.consumer.n <= |s.buf|
  {
    hide Stream, Word;
    StreamPrefix(s.delivered, s.accepted);
    if |s.delivered| < |s.accepted| {
      NextFrameIsHeld(s);
      WordLength(|s.accepted[|s.delivered|]|);
    }
  }

  /**
   * An empty frame at the tail jams the reader: q_read takes its size for an empty queue, so no later step
   * delivers anything. With a non-empty frame there the reader's next four steps deliver exactly it.
   */
  lemma EmptyFrameJams(s: State, t: State)
    requires Inv(s) && Step(s, t) && |s.delivered| < |s.accepted| && s.accepted[|s.delivered|] == []
    ensures t.delivered == s.delivered && |t.delivered| < |t.accepted| && t.accepted[|t.delivered|] == []
  {
    hide RingPut, RingGet, Left, Word, Stream, HoldsUnread;
  }

  /** And an empty frame is accepted, by any ring of nine bytes or more: then nothing is ever delivered. */
  lemma EmptyFrameIsAccepted(b: Str) returns (ss: seq<State>)
    requires 9 <= |b| < Pow256(WORD)
    ensures Run(ss) && ss[|ss| - 1].accepted == [[]] && ss[|ss| - 1].delivered == []
  {
    var n := |b|;
    var c := RingPut(b, 0, Word(0));
    var d := RingPut(c, WORD % n, []);
    var s0 := State(b, 0, 0, Idle, Waiting, [], []);
    var s1, s2 := s0.(producer := Loaded([], Left(n, 0, 0))), s0.(buf := c, producer := Sized([]));
    var s3, s4 := s0.(buf := d, producer := Filled([])), s0.(buf := d, head := WORD % n, accepted := [[]]);
    ss := [s0, s1, s2, s3, s4];
    assert Left(n, 0, 0) == n - 1 by { ModAdd(0, n - 1, n); }
    assert ProducerStep(s0, s1) && ProducerStep(s1, s2) && ProducerStep(s2, s3);
    assert s3.accepted + [[]] == s4.accepted;
    assert ProducerStep(s3, s4);
  }

  lemma NonEmptyFrameIsDelivered(s: State)
    requires Inv(s) && s.consumer == Waiting && |s.delivered| < |s.accepted| && s.accepted[|s.delivered|] != []
    ensures exists a, b, c, t ::
      ConsumerStep(s, a) && ConsumerStep(a, b) && ConsumerStep(b, c) && ConsumerStep(c, t) &&
      t.delivered == s.delivered + [s.accepted[|s.delivered|]]
  {
    hide RingGet, Word, Stream, HoldsUnread, FromWord, ProducerInv;
    var m := s.accepted[|s.delivered|];
    CopiesStayInside(s);
    HeadIsAhead(s);
    var a := s.(consumer := Ready);
    ConsumerKeepsInv(s, a);
    CopiesStayInside(a);
    SizeIsRead(a);
    var b := a.(consumer := Measured(|m|));
    ConsumerKeepsInv(a, b);
    CopiesStayInside(b);
    PayloadIsRead(b);
    var c := b.(consumer := Copied(m));
    var t := c.(tail := (c.tail + WORD + |m|) % |c.buf|, delivered := c.delivered + [m], consumer := Waiting);
    assert ConsumerStep(s, a) && ConsumerStep(a, b) && ConsumerStep(b, c) && ConsumerStep(c, t);
  }

  /** What is published and not yet read, and what a frame takes, in bytes. */
  function Unread(s: State): int { |Stream(s.accepted)| - |Stream(s.delivered)| }

  /**
   * q_write, while the reader stands still, accepts a frame exactly if the frame and its size of eight bytes fit beside
   * what is unread, with one byte to spare: then its four steps publish it, else its second step gives up.
   */
  lemma FrameIsAcceptedIffItFits(s: State, msg: Str)
    requires Inv(s) && s.producer == Idle
    ensures Unread(s) + 8 + |msg| <= |s.buf| - 1 ==> exists a, b, c, t ::
      ProducerStep(s, a) && ProducerStep(a, b) && ProducerStep(b, c) && ProducerStep(c, t) &&
      t.accepted == s.accepted + [msg] && t.producer == Idle
    ensures Unread(s) + 8 + |msg| > |s.buf| - 1 ==> forall a, t ::
      ProducerStep(s, a) && a.producer.Loaded? && a.producer.msg == msg && ProducerStep(a, t) ==>
      t == s
  {
    hide Stream, RingPut, Word, Inv;
    SpaceIsSeen(s);
    if Unread(s) + 8 + |msg| <= |s.buf| - 1 {
      FittingFrame(s, msg);
    }
  }

  lemma SpaceIsSeen(s: State)
    requires Inv(s) && s.producer == Idle
    ensures 0 < |s.buf| && s.head < |s.buf| && Unread(s) >= 0
    ensures Left(|s.buf|, s.head, s.tail) == |s.buf| - 1 - Unread(s)
  {
    hide Left, Word, HoldsUnread, ConsumerInv, Stream;
    StreamPrefix(s.delivered, s.accepted);
    LeftIsSafe(|s.buf|, |Stream(s.accepted)|, |Stream(s.delivered)|);
  }

  lemma FittingFrame(s: State, msg: Str)
    requires s.head < |s.buf| && Left(|s.buf|, s.head, s.tail) >= |msg| + 8 && s.producer == Idle && |s.buf| > |msg| + 8
    ensures exists a, b, c, t ::
      ProducerStep(s, a) && ProducerStep(a, b) && ProducerStep(b, c) && ProducerStep(c, t) &&
      t.accepted == s.accepted + [msg] && t.producer == Idle
  {
    hide RingPut, Left, Stream;
    WordLength(|msg|);
    var n := |s.buf|;
    var a := s.(producer := Loaded(msg, Left(n, s.head, s.tail)));
    var b := s.(buf := RingPut(s.buf, s.head, Word(|msg|)), producer := Sized(msg));
    var c := s.(buf := RingPut(b.buf, (s.head + WORD) % n, msg), producer := Filled(msg));
    var t := c.(head := (s.head + WORD + |msg|) % n, accepted := s.accepted + [msg], producer := Idle);
    hide Word;
    assert ProducerStep(s, a) && ProducerStep(a, b) && ProducerStep(b, c) && ProducerStep(c, t);
  }

  lemma HeadIsAhead(s: State)
    requires Inv(s) && |s.delivered| < |s.accepted|
    ensures s.tail != s.head
  {
    hide Word, HoldsUnread, ProducerInv, ConsumerInv, Stream;
    StreamPrefix(s.delivered, s.accepted);
    WordLength(|s.accepted[|s.delivered|]|);
    ModAdd(|Stream(s.delivered)|, |Stream(s.accepted)| - |Stream(s.delivered)|, |s.buf|);
  }
}
