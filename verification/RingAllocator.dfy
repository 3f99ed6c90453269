/** HRingBuf: contiguous blocks from a ring, freed in the order they were taken. */
module RingAllocator {
  import opened Modulo
  import opened Wrappers

  const TWO64 := 0x1_0000_0000_0000_0000

  /** A live block. `at` counts bytes since the start, gaps left at the wrap included; `at % cap` is its offset. */
  datatype Block = Block(at: nat, len: nat)

  /** A block lies directly behind `end`, or at the start of the ring because it did not fit before the wrap. */
  ghost predicate Follows(cap: nat, end: nat, b: Block)
    requires cap > 0
  {
    b.at == end || (b.at == end + (cap - end % cap) && b.len > cap - end % cap)
  }

  /** Live blocks in order from the head, each contiguous in the ring. */
  ghost predicate Chain(cap: nat, end: nat, live: seq<Block>)
    requires cap > 0
    decreases |live|
  {
    live == [] ||
    (Follows(cap, end, live[0]) && live[0].len > 0 && live[0].at % cap + live[0].len <= cap &&
     Chain(cap, live[0].at + live[0].len, live[1..]))
  }

  function ChainEnd(end: nat, live: seq<Block>): nat {
    if live == [] then end else live[|live| - 1].at + live[|live| - 1].len
  }

  function TotalSize(live: seq<Block>): nat {
    if live == [] then 0 else live[0].len + TotalSize(live[1..])
  }

  lemma {:induction false} ChainAppend(cap: nat, end: nat, live: seq<Block>, b: Block)
    requires cap > 0 && Chain(cap, end, live)
    requires Follows(cap, ChainEnd(end, live), b) && b.len > 0 && b.at % cap + b.len <= cap
    ensures Chain(cap, end, live + [b]) && TotalSize(live + [b]) == TotalSize(live) + b.len
    decreases |live|
  {
    if live == [] {
      assert live + [b] == [b];
    } else {
      assert (live + [b])[1..] == live[1..] + [b];
      ChainAppend(cap, live[0].at + live[0].len, live[1..], b);
    }
  }

  /** Blocks follow one another in time: every block ends where or before every later one starts. */
  lemma {:induction false} ChainIsOrdered(cap: nat, end: nat, live: seq<Block>, j: nat)
    requires cap > 0 && Chain(cap, end, live) && j < |live|
    ensures end <= live[j].at && live[j].at + live[j].len <= ChainEnd(end, live)
    ensures live[j].len > 0 && live[j].at % cap + live[j].len <= cap
    ensures forall i :: 0 <= i < j ==> live[i].at + live[i].len <= live[j].at
    decreases |live|
  {
    var e := live[0].at + live[0].len;
    if j > 0 {
      ChainIsOrdered(cap, e, live[1..], j - 1);
      forall i | 0 <= i < j ensures live[i].at + live[i].len <= live[j].at {
        if i > 0 { assert live[1..][i - 1] == live[i]; }
      }
    } else if |live| > 1 {
      ChainIsOrdered(cap, e, live[1..], |live| - 2);
    }
  }

  ghost predicate Disjoint(a: nat, n: nat, b: nat, m: nat) { a + n <= b || b + m <= a }

  /** Two contiguous ranges within one turn of the ring that do not meet in time do not meet in space. */
  lemma RangesDisjoint(cap: nat, x: Block, y: Block)
    requires cap > 0 && x.at + x.len <= y.at && y.at + y.len <= x.at + cap && y.len > 0
    requires x.at % cap + x.len <= cap && y.at % cap + y.len <= cap
    ensures Disjoint(x.at % cap, x.len, y.at % cap, y.len)
  {
    ModAdd(x.at, y.at - x.at, cap);
  }

  /** Where an end stands after a block that fits before the wrap. */
  lemma EndAfter(cap: nat, end: nat, len: nat)
    requires cap > 0 && end % cap + len <= cap
    ensures (end + len) % cap == if end % cap + len == cap then 0 else end % cap + len
  {
    var q, r := end / cap, end % cap;
    assert end == cap * q + r;
    if r + len == cap {
      assert cap * (q + 1) == cap * q + cap;
      ModUnique(end + len, cap, q + 1, 0);
    } else {
      ModUnique(end + len, cap, q, r + len);
    }
  }

  /** The start of the ring, as a position in time. */
  lemma WrapStart(cap: nat, end: nat)
    requires cap > 0
    ensures (end + (cap - end % cap)) % cap == 0
  {
    EndAfter(cap, end, cap - end % cap);
  }

  /** A new block behind a chain: the chain goes on, and within one turn it meets no other block. */
  lemma Placed(cap: nat, end: nat, live: seq<Block>, b: Block)
    requires cap > 0 && Chain(cap, end, live)
    requires Follows(cap, ChainEnd(end, live), b) && b.len > 0 && b.at % cap + b.len <= cap
    requires b.at + b.len <= end + cap
    ensures Chain(cap, end, live + [b]) && TotalSize(live + [b]) == TotalSize(live) + b.len
    ensures ChainEnd(end, live + [b]) == b.at + b.len
    ensures forall i :: 0 <= i < |live| ==> Disjoint(live[i].at % cap, live[i].len, b.at % cap, b.len)
  {
    ChainAppend(cap, end, live, b);
    forall i | 0 <= i < |live| ensures Disjoint(live[i].at % cap, live[i].len, b.at % cap, b.len) {
      ChainIsOrdered(cap, end, live, i);
      RangesDisjoint(cap, live[i], b);
    }
  }

  /** `b` may follow the chain: it starts at `offset`, stays inside the turn, and leaves the tail at `tail`. */
  ghost predicate Fits(cap: nat, end: nat, live: seq<Block>, b: Block, offset: nat, tail: nat)
    requires cap > 0
  {
    Follows(cap, ChainEnd(end, live), b) && b.at + b.len <= end + cap &&
    b.at % cap == offset && offset + b.len <= cap && (b.at + b.len) % cap == tail
  }

  /** Some block of this length may follow the chain: behind the youngest, or at the start where that does not fit. */
  ghost predicate HasRoom(cap: nat, end: nat, live: seq<Block>, len: nat)
    requires cap > 0
  {
    exists at :: MayStand(cap, end, live, Block(at, len))
  }

  ghost predicate MayStand(cap: nat, end: nat, live: seq<Block>, b: Block)
    requires cap > 0
  {
    Follows(cap, ChainEnd(end, live), b) && b.at % cap + b.len <= cap && b.at + b.len <= end + cap
  }

  lemma FitIsPlaced(cap: nat, end: nat, live: seq<Block>, b: Block, offset: nat, tail: nat)
    requires cap > 0 && Chain(cap, end, live) && b.len > 0 && Fits(cap, end, live, b, offset, tail)
    ensures Chain(cap, end, live + [b]) && TotalSize(live + [b]) == TotalSize(live) + b.len
    ensures ChainEnd(end, live + [b]) <= end + cap && ChainEnd(end, live + [b]) % cap == tail
    ensures b.at % cap == offset && offset + b.len <= cap
    ensures forall i :: 0 <= i < |live| ==> Disjoint(live[i].at % cap, live[i].len, offset, b.len)
  {
    hide Disjoint;
    Placed(cap, end, live, b);
  }

  /** All live blocks of a chain within one turn are inside the buffer and pairwise disjoint. */
  lemma LiveBlocksAreDisjoint(cap: nat, end: nat, live: seq<Block>, i: nat, j: nat)
    requires cap > 0 && Chain(cap, end, live) && ChainEnd(end, live) <= end + cap && i < j < |live|
    ensures live[i].at % cap + live[i].len <= cap && live[j].at % cap + live[j].len <= cap
    ensures Disjoint(live[i].at % cap, live[i].len, live[j].at % cap, live[j].len)
  {
    ChainIsOrdered(cap, end, live, i);
    ChainIsOrdered(cap, end, live, j);
    RangesDisjoint(cap, live[i], live[j]);
  }

  class HRingBuf {
    const cap: nat            // HBuf::len
    var head: nat
    var tail: nat
    var size: nat
    ghost var freed: nat      // where the last freed block ended
    ghost var live: seq<Block>

    ghost predicate Valid()
      reads this
    {
      if cap == 0 then head == tail == size == 0 && live == [] else
      && Chain(cap, freed, live)
      && head == freed % cap
      && tail == ChainEnd(freed, live) % cap
      && ChainEnd(freed, live) <= freed + cap
      && size == TotalSize(live)
    }

    /** Offset and length of the blocks handed out and not yet freed, oldest first. */
    ghost function Offset(i: nat): nat
      reads this
      requires cap > 0 && i < |live|
    {
      live[i].at % cap
    }

    constructor (cap: nat)
      ensures Valid() && this.cap == cap && live == [] && head == tail == size == 0
    {
      this.cap := cap;
      head, tail, size := 0, 0, 0;
      freed, live := 0, [];
    }

    /** The offset of a new block, or None for NULL. */
    method Alloc(len: nat) returns (ret: Option<nat>)
      requires Valid()
      modifies this
      ensures Valid()
      // nothing is asked for: an address, unless there is no buffer, and no change
      ensures len == 0 ==> ret == (if cap == 0 then None else Some(old(tail))) && freed == old(freed)
      // a block is handed out whenever one may follow the youngest
      ensures len > 0 ==> (ret.Some? <==> cap > 0 && old(HasRoom(cap, freed, live, len)))
      ensures len == 0 || ret.None? ==> live == old(live) && size == old(size) && head == old(head) && tail == old(tail)
      ensures len > 0 && ret.Some? ==>
        |live| == |old(live)| + 1 && live[..|old(live)|] == old(live) && freed == old(freed)
      // the new block is the youngest, lies inside the buffer, and meets no live block
      ensures len > 0 && ret.Some? ==>
        cap > 0 && live[|old(live)|].len == len && Offset(|old(live)|) == ret.value && ret.value + len <= cap
      ensures len > 0 && ret.Some? ==> forall i :: 0 <= i < |old(live)| ==>
        Disjoint(live[i].at % cap, live[i].len, ret.value, len)
      // what an empty ring can give depends on where it stopped
      ensures old(live) == [] && (cap > 0 || len > 0) ==> (ret.Some? <==> len <= cap - old(tail) || len <= old(tail))
    {
      hide Chain, ChainEnd, TotalSize, Disjoint, Fits, Follows, HasRoom;
      ret := None;
      ghost var b := Block(0, len);
      if cap > 0 {
        TailFacts();
      }
      if cap > 0 && len > 0 {
        RoomFacts(len);
      }
      if head < tail || size == 0 {
        if cap - tail >= len {
          if len > 0 { b := FitsBehind(len); }
          ret := if cap == 0 then None else Some(tail);   // a ring without capacity has no base
          tail := tail + len;
          if tail == cap { tail := 0; }
        } else if head >= len {
          b := FitsAtStart(len);
          ret := Some(0);
          tail := len;
        }
      } else {
        if head - tail >= len {
          if len > 0 { b := FitsBehind(len); }
          ret := Some(tail);
          tail := tail + len;
        }
      }
      size := size + if ret.Some? then len else 0;
      if len > 0 && ret.Some? {
        FitIsPlaced(cap, freed, live, b, ret.value, tail);
        live := live + [b];
      }
    }

    lemma RoomFacts(len: nat)
      requires Valid() && cap > 0 && len > 0
      ensures HasRoom(cap, freed, live, len) <==>
        if head < tail || size == 0 then cap - tail >= len || head >= len else head - tail >= len
    {
      hide Chain, TotalSize;
      TailFacts();
      var end := ChainEnd(freed, live);
      WrapStart(cap, end);
      assert MayStand(cap, freed, live, Block(end, len)) ==> HasRoom(cap, freed, live, len);
      assert MayStand(cap, freed, live, Block(end + (cap - tail), len)) ==> HasRoom(cap, freed, live, len);
    }

    lemma FitsBehind(len: nat) returns (b: Block)
      requires Valid() && cap > 0 && len > 0 && cap - tail >= len
      requires head < tail || size == 0 || head - tail >= len
      ensures b.len == len && Fits(cap, freed, live, b, tail, if tail + len == cap then 0 else tail + len)
    {
      hide Chain, TotalSize;
      TailFacts();
      b := Block(ChainEnd(freed, live), len);
      EndAfter(cap, b.at, len);
    }

    lemma FitsAtStart(len: nat) returns (b: Block)
      requires Valid() && cap > 0 && len > 0 && cap - tail < len <= head
      requires head < tail || size == 0
      ensures b.len == len && Fits(cap, freed, live, b, 0, len)
    {
      hide Chain, TotalSize;
      TailFacts();
      WrapStart(cap, ChainEnd(freed, live));
      b := Block(ChainEnd(freed, live) + (cap - tail), len);
      EndAfter(cap, b.at, len);
    }

    /**
     * Any length moves the fields. The length of the oldest block frees it, and the head passes the gap that was left
     * at the wrap, if any; with another length the ring no longer knows its blocks.
     */
    method Free(len: nat)
      requires Valid() && len < TWO64
      modifies this
      ensures size == (if len <= old(size) then old(size) - len else old(size) + TWO64 - len) && tail == old(tail)
      ensures head == if len > cap - old(head) then len else if old(head) + len == cap then 0 else old(head) + len
      // the oldest block is freed: the head stands behind it, wherever that was
      ensures old(live) != [] && len == old(live)[0].len ==>
        Valid() && live == old(live)[1..] && size == old(size) - len
      ensures old(live) != [] && len == old(live)[0].len ==>
        cap > 0 && head == if old(Offset(0)) + len == cap then 0 else old(Offset(0)) + len
    {
      hide Chain, ChainEnd, TotalSize;
      if live != [] {
        HeadFacts();
      }
      size := if len <= size then size - len else size + TWO64 - len;
      if len <= cap - head {
        head := head + len;
        if head == cap { head := 0; }
      } else {
        head := len;
      }
      if live != [] && len == live[0].len {
        freed := live[0].at + live[0].len;
        live := live[1..];
      }
    }

    /** Where tail and head stand relative to each other. */
    lemma TailFacts()
      requires Valid() && cap > 0
      ensures freed <= ChainEnd(freed, live)
      ensures size == 0 <==> live == []
      ensures live == [] ==> tail == head
      ensures live != [] ==> freed < ChainEnd(freed, live)
      ensures head < tail ==> ChainEnd(freed, live) - freed == tail - head
      ensures tail <= head && live != [] ==> ChainEnd(freed, live) - freed == cap + tail - head
    {
      if live != [] {
        ChainIsOrdered(cap, freed, live, |live| - 1);
        var d := ChainEnd(freed, live) - freed;
        if d < cap {
          ModAdd(freed, d, cap);
        } else {
          ModPlus(freed, cap);
        }
      }
    }

    lemma HeadFacts()
      requires Valid() && live != []
      ensures cap > 0 && size >= live[0].len && freed <= live[0].at + live[0].len
      ensures live[0].len <= cap - head <==> live[0].at == freed
      ensures Chain(cap, live[0].at + live[0].len, live[1..]) && size == live[0].len + TotalSize(live[1..])
      ensures (live[0].at + live[0].len) % cap == if Offset(0) + live[0].len == cap then 0 else Offset(0) + live[0].len
      ensures (live[0].at + live[0].len) % cap ==
        if live[0].len > cap - head then live[0].len else if head + live[0].len == cap then 0 else head + live[0].len
      ensures ChainEnd(live[0].at + live[0].len, live[1..]) == ChainEnd(freed, live)
    {
      WrapStart(cap, freed);
      EndAfter(cap, live[0].at, live[0].len);
      ChainIsOrdered(cap, freed, live, 0);
    }
  }

  /** Ten bytes, six taken and given back: seven are refused although nothing is in use. */
  method EmptyRingRefuses() returns (first: Option<nat>, second: Option<nat>, inUse: nat)
    ensures first == Some(0) && inUse == 0 && second == None
  {
    var ring := new HRingBuf(10);
    first := ring.Alloc(6);
    ring.Free(6);
    inUse := ring.size;
    second := ring.Alloc(7);
  }
}
