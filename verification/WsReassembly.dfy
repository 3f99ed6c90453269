/** mg_ws_cb: reassembling fragmented WebSocket messages in place, over any division of the stream into reads. */
module WsReassembly {
  import opened Bytes
  import opened IoBuffer
  import opened WsFrame

  /** What the connection does: MG_EV_WS_MSG, MG_EV_WS_CTL, a reply frame, or mg_error. */
  datatype Event =
    | Msg(flags: Byte, data: Str)
    | Ctl(flags: Byte, data: Str)
    | Reply(op: Byte, data: Str)
    | UnknownOp(op: Byte)
    | NoFirstFragment   // a message of 2^64 - 1 bytes: the length ofs - 1 has wrapped

  const CONTINUE := 0
  const TEXT := 1
  const BINARY := 2
  const CLOSE := 8
  const PING := 9
  const PONG := 10

  function Final(flags: Byte): bool { flags >= 0x80 }

  function Op(flags: Byte): Byte { flags % 16 }

  /** The switch on the opcode. */
  function FrameEvents(flags: Byte, data: Str): seq<Event> {
    var op := Op(flags);
    if op == CONTINUE || op == PONG then [Ctl(flags, data)]
    else if op == PING then [Reply(PONG, data), Ctl(flags, data)]
    else if op == TEXT || op == BINARY then (if Final(flags) then [Msg(flags, data)] else [])
    else if op == CLOSE then [Ctl(flags, data), Reply(CLOSE, data)]
    else [UnknownOp(op)]
  }

  /** The receive buffer, c->pfn_data, and the events of a stretch of the callback. */
  datatype Outcome = Outcome(buf: Str, ofs: nat, events: seq<Event>)

  /** The end of the loop body: what happens to the buffer, with the payload already unmasked in it. */
  function Advance(whole: Str, ofs: nat, msg: WsMsg, data: Str): (r: Outcome)
    requires ofs + msg.headerLen + msg.dataLen <= |whole| && msg.headerLen >= 2
    ensures r.ofs <= |r.buf| && |r.buf| - r.ofs == |whole| - ofs - (msg.headerLen + msg.dataLen)
  {
    var events := FrameEvents(msg.flags, data);
    var final, op := Final(msg.flags), Op(msg.flags);
    if final && op != 0 then Outcome(Deleted(whole, ofs, msg.headerLen + msg.dataLen), ofs, events) else
    var at := if op != 0 then ofs + 1 else ofs;
    var kept := Deleted(whole, at, if op != 0 then msg.headerLen - 1 else msg.headerLen);
    var end := at + msg.dataLen;
    if !final then Outcome(kept, end, events) else Outcome(Deleted(kept, 0, end), 0, events + [WholeMessage(kept, end)])
  }

  /** The assembled message at the front of the buffer. */
  function WholeMessage(kept: Str, end: nat): Event
    requires end <= |kept|
  {
    if end == 0 then NoFirstFragment else Msg(kept[0], kept[1..end])
  }

  /** One turn of the loop of mg_ws_cb over a complete frame at `ofs`. */
  function Turn(buf: Str, ofs: nat): (r: Outcome)
    requires ofs <= |buf| && Consumed(buf[ofs..]) > 0
    ensures r.ofs <= |r.buf| && |r.buf| - r.ofs < |buf| - ofs
  {
    var b := buf[ofs..];
    ConsumedHasHeader(b);
    Advance(buf[..ofs] + Unmasked(b), ofs, ParsedHeader(b), Payload(b))
  }

  /** The whole loop. */
  function Run(buf: Str, ofs: nat): (r: Outcome)
    requires ofs <= |buf|
    ensures r.ofs <= |r.buf|
    decreases |buf| - ofs
  {
    if Consumed(buf[ofs..]) == 0 then Outcome(buf, ofs, []) else
    var t := Turn(buf, ofs);
    var r := Run(t.buf, t.ofs);
    Outcome(r.buf, r.ofs, t.events + r.events)
  }

  predicate IsClose(e: Event) { e.Reply? && e.op == CLOSE }

  /** mg_error sets is_closing: the connection is closed before it is read again. */
  predicate Fails(es: seq<Event>) { exists i :: 0 <= i < |es| && es[i].UnknownOp? }

  /** A CLOSE frame sets is_draining: the connection is closed as soon as everything is sent. */
  predicate Drains(es: seq<Event>) { exists i :: 0 <= i < |es| && IsClose(es[i]) }

  /**
   * A sequence of reads, each followed by the callback, while the connection is open. Once it is draining, it is read
   * `late` times more: that depends on when the reply is flushed.
   */
  function Reads(buf: Str, ofs: nat, chunks: seq<Str>, draining: bool, late: nat): (r: Outcome)
    requires ofs <= |buf|
    ensures r.ofs <= |r.buf|
    decreases |chunks|
  {
    if chunks == [] then Outcome(buf, ofs, []) else
    var t := Run(buf + chunks[0], ofs);
    var d := draining || Drains(t.events);
    if Fails(t.events) || (d && late == 0) then t else
    var r := Reads(t.buf, t.ofs, chunks[1..], d, if d then late - 1 else late);
    Outcome(r.buf, r.ofs, t.events + r.events)
  }

  lemma EndsJoined(a: seq<Event>, b: seq<Event>)
    ensures Fails(a + b) <==> Fails(a) || Fails(b)
    ensures Drains(a + b) <==> Drains(a) || Drains(b)
  {
    var c := a + b;
    assert forall i :: 0 <= i < |a| ==> c[i] == a[i];
    assert forall i :: 0 <= i < |b| ==> c[|a| + i] == b[i];
    if Fails(b) {
      var i :| 0 <= i < |b| && b[i].UnknownOp?;
      assert c[|a| + i].UnknownOp?;
    }
    if Drains(b) {
      var i :| 0 <= i < |b| && IsClose(b[i]);
      assert IsClose(c[|a| + i]);
    }
  }

  predicate KnownOp(op: Byte) { op in {CONTINUE, TEXT, BINARY, CLOSE, PING, PONG} }

  lemma FrameEnds(flags: Byte, data: Str)
    ensures Fails(FrameEvents(flags, data)) <==> !KnownOp(Op(flags))
    ensures Drains(FrameEvents(flags, data)) <==> Op(flags) == CLOSE
  {
    var es := FrameEvents(flags, data);
    if Op(flags) == CLOSE {
      assert IsClose(es[1]);
    }
    if !KnownOp(Op(flags)) {
      assert es[0].UnknownOp?;
    }
  }

  lemma AdvanceEnds(whole: Str, ofs: nat, msg: WsMsg, data: Str)
    requires ofs + msg.headerLen + msg.dataLen <= |whole| && msg.headerLen >= 2
    ensures var es := Advance(whole, ofs, msg, data).events;
      (Fails(es) <==> !KnownOp(Op(msg.flags))) && (Drains(es) <==> Op(msg.flags) == CLOSE)
  {
    hide FrameEvents, Final, Op, KnownOp, Deleted;
    FrameEnds(msg.flags, data);
    var es, all := FrameEvents(msg.flags, data), Advance(whole, ofs, msg, data).events;
    var rest := all[|es|..];
    assert all == es + rest;
    EndsJoined(es, rest);
  }

  // ----- the code -----

  class WsConnection {
    const recv: IoBuf
    var pfnData: nat
    var isClosing: bool
    var isDraining: bool
    var events: seq<Event>

    ghost predicate Valid()
      reads this, recv, recv.buf
    {
      recv.Valid() && pfnData <= recv.len
    }

    constructor ()
      ensures Valid() && fresh(recv) && fresh(recv.buf)
      ensures recv.Contents() == [] && pfnData == 0 && !isClosing && !isDraining && events == []
    {
      recv := new IoBuf(2048, 2048);
      pfnData, isClosing, isDraining := 0, false, false;
      events := [];
    }

    /** Bytes arrive from the socket and the READ event fires. */
    method Read(chunk: Str)
      requires Valid() && !isClosing
      modifies this, recv, recv.buf
      ensures Valid() && (recv.buf == old(recv.buf) || fresh(recv.buf))
      ensures var r := Run(old(recv.Contents()) + chunk, old(pfnData));
        recv.Contents() == r.buf && pfnData == r.ofs && events == old(events) + r.events &&
        isClosing == Fails(r.events) && isDraining == (old(isDraining) || Drains(r.events))
    {
      ghost var s := recv.Contents();
      recv.Add(recv.len, chunk);
      assert recv.Contents() == s + chunk;
      WsCb();
    }

    method WsCb()
      requires Valid()
      modifies this, recv, recv.buf
      ensures Valid() && recv.buf == old(recv.buf)
      ensures var r := Run(old(recv.Contents()), old(pfnData));
        recv.Contents() == r.buf && pfnData == r.ofs && events == old(events) + r.events &&
        isClosing == (old(isClosing) || Fails(r.events)) && isDraining == (old(isDraining) || Drains(r.events))
    {
      hide Consumed, Turn, Fails, Drains;
      NothingEnds();
      ghost var goal := Run(recv.Contents(), pfnData);
      ghost var emitted: seq<Event> := [];
      var more := true;
      while more
        invariant Valid() && recv.buf == old(recv.buf)
        invariant events == old(events) + emitted
        invariant isClosing == (old(isClosing) || Fails(emitted)) && isDraining == (old(isDraining) || Drains(emitted))
        invariant var r := Run(recv.Contents(), pfnData);
          goal == Outcome(r.buf, r.ofs, emitted + r.events)
        invariant !more ==> Run(recv.Contents(), pfnData) == Outcome(recv.Contents(), pfnData, [])
        decreases more, recv.len - pfnData
      {
        ghost var s, o := recv.Contents(), pfnData;
        more := FrameTurn();
        if more {
          ghost var t := Turn(s, o);
          ghost var r := Run(t.buf, t.ofs);
          EndsJoined(emitted, t.events);
          assert emitted + (t.events + r.events) == (emitted + t.events) + r.events;
          assert old(events) + (emitted + t.events) == (old(events) + emitted) + t.events;
          emitted := emitted + t.events;
        }
      }
      assert emitted + [] == emitted;
    }

    /** One evaluation of the loop condition and, when a frame is complete, the loop body. */
    method FrameTurn() returns (more: bool)
      requires Valid()
      modifies this, recv, recv.buf
      ensures Valid() && recv.buf == old(recv.buf)
      ensures more == (Consumed(old(recv.Contents())[old(pfnData)..]) > 0)
      ensures more ==>
        var t := Turn(old(recv.Contents()), old(pfnData));
        recv.Contents() == t.buf && pfnData == t.ofs && events == old(events) + t.events &&
        isClosing == (old(isClosing) || Fails(t.events)) && isDraining == (old(isDraining) || Drains(t.events))
      ensures !more ==>
        recv.Contents() == old(recv.Contents()) && pfnData == old(pfnData) && events == old(events) &&
        isClosing == old(isClosing) && isDraining == old(isDraining)
    {
      hide Fails, Drains, ParsedHeader, Consumed, Unmasked, Payload, Advance;
      ghost var b := recv.Contents()[pfnData..];
      ghost var before := recv.Contents();
      var n, msg := WsProcess(recv, pfnData);
      if n == 0 {
        NothingUnmasked(b);
        assert before[..pfnData] + b == before;
        return false;
      }
      ConsumedHasHeader(b);
      PayloadPlace(before, pfnData, b);
      ApplyFrame(msg, Payload(b));
      return true;
    }

    /** The loop body after ws_process. */
    method ApplyFrame(msg: WsMsg, ghost payload: Str)
      requires Valid() && pfnData + msg.headerLen + msg.dataLen <= recv.len && msg.headerLen >= 2
      requires recv.Contents()[pfnData + msg.headerLen..pfnData + msg.headerLen + msg.dataLen] == payload
      modifies this, recv, recv.buf
      ensures Valid() && recv.buf == old(recv.buf)
      ensures var t := Advance(old(recv.Contents()), old(pfnData), msg, payload);
        recv.Contents() == t.buf && pfnData == t.ofs && events == old(events) + t.events &&
        isClosing == (old(isClosing) || Fails(t.events)) && isDraining == (old(isDraining) || Drains(t.events))
    {
      hide Final, Op, FrameEvents, Deleted, WholeMessage, Fails, Drains, KnownOp;
      AdvanceEnds(recv.Contents(), pfnData, msg, payload);
      ShowFrame(msg, payload);
      if Final(msg.flags) && Op(msg.flags) != 0 {
        DeletedLength(recv.Contents(), pfnData, msg.headerLen + msg.dataLen);
        recv.Del(pfnData, msg.headerLen + msg.dataLen);
      } else {
        StripHeader(msg, Op(msg.flags) != 0);
        if Final(msg.flags) {
          Assoc(old(events), FrameEvents(msg.flags, payload), [WholeMessage(recv.Contents(), pfnData)]);
          DeliverWhole();
        }
      }
    }

    /** The switch over the opcode. */
    method ShowFrame(msg: WsMsg, ghost payload: Str)
      requires Valid() && pfnData + msg.headerLen + msg.dataLen <= recv.len
      requires recv.Contents()[pfnData + msg.headerLen..pfnData + msg.headerLen + msg.dataLen] == payload
      modifies this`events, this`isClosing, this`isDraining
      ensures events == old(events) + FrameEvents(msg.flags, payload)
      ensures isClosing == (old(isClosing) || !KnownOp(Op(msg.flags)))
      ensures isDraining == (old(isDraining) || Op(msg.flags) == CLOSE)
    {
      hide FrameEvents, KnownOp;
      var data := recv.buf[pfnData + msg.headerLen..pfnData + msg.headerLen + msg.dataLen];
      assert data == payload;
      events := events + FrameEvents(msg.flags, data);
      if Op(msg.flags) == CLOSE {
        isDraining := true;
      }
      if !KnownOp(Op(msg.flags)) {
        isClosing := true;
      }
    }

    /** A fragment: its header goes, except that the first frame's flags stay. */
    method StripHeader(msg: WsMsg, first: bool)
      requires Valid() && pfnData + msg.headerLen + msg.dataLen <= recv.len && msg.headerLen >= 2
      modifies this`pfnData, recv, recv.buf
      ensures Valid() && recv.buf == old(recv.buf)
      ensures var at := if first then old(pfnData) + 1 else old(pfnData);
        recv.Contents() == Deleted(old(recv.Contents()), at, if first then msg.headerLen - 1 else msg.headerLen) &&
        pfnData == at + msg.dataLen
    {
      if first {
        pfnData := pfnData + 1;
        recv.Del(pfnData, msg.headerLen - 1);
      } else {
        recv.Del(pfnData, msg.headerLen);
      }
      pfnData := pfnData + msg.dataLen;
    }

    /** The last fragment: the message is delivered and removed. */
    method DeliverWhole()
      requires Valid()
      modifies this`pfnData, this`events, recv, recv.buf
      ensures Valid() && recv.buf == old(recv.buf) && pfnData == 0
      ensures recv.Contents() == Deleted(old(recv.Contents()), 0, old(pfnData))
      ensures events == old(events) + [WholeMessage(old(recv.Contents()), old(pfnData))]
    {
      ghost var kept := recv.Contents();
      if pfnData == 0 {
        events := events + [NoFirstFragment];
      } else {
        var m := recv.buf[1..pfnData];
        assert m == kept[1..pfnData];
        events := events + [Msg(recv.buf[0], m)];
      }
      recv.Del(0, pfnData);
      pfnData := 0;
    }
  }

  lemma NothingEnds()
    ensures !Fails([]) && !Drains([])
  {
  }

  lemma NothingUnmasked(b: Str)
    requires Consumed(b) == 0
    ensures Unmasked(b) == b
  {
  }

  lemma PayloadPlace(s: Str, ofs: nat, b: Str)
    requires ofs <= |s| && b == s[ofs..] && Consumed(b) > 0
    ensures var h, d := ParsedHeader(b).headerLen, ParsedHeader(b).dataLen;
      (s[..ofs] + Unmasked(b))[ofs + h..ofs + h + d] == Payload(b)
  {
    ConsumedHasHeader(b);
    hide ParsedHeader;
    var whole := s[..ofs] + Unmasked(b);
    var h, d := ParsedHeader(b).headerLen, ParsedHeader(b).dataLen;
    assert Unmasked(b)[h..h + d] == Payload(b);
  }

  lemma DeletedLength(s: Str, ofs: nat, n: nat)
    requires ofs + n <= |s|
    ensures |Deleted(s, ofs, n)| == |s| - n
  {
  }

  // ----- a message that never began -----

  /** The length of the assembled message wraps exactly for an empty final continuation with nothing before it. */
  lemma LengthWrapsIff(buf: Str, ofs: nat)
    requires ofs <= |buf| && Consumed(buf[ofs..]) > 0
    ensures var msg := ParsedHeader(buf[ofs..]);
      NoFirstFragment in Turn(buf, ofs).events <==>
        ofs == 0 && Final(msg.flags) && Op(msg.flags) == CONTINUE && msg.dataLen == 0
  {
    hide ParsedHeader, Consumed, Unmasked, Payload;
    var b := buf[ofs..];
    ConsumedHasHeader(b);
    AdvanceWrapsIff(buf[..ofs] + Unmasked(b), ofs, ParsedHeader(b), Payload(b));
  }

  lemma AdvanceWrapsIff(whole: Str, ofs: nat, msg: WsMsg, data: Str)
    requires ofs + msg.headerLen + msg.dataLen <= |whole| && msg.headerLen >= 2
    ensures NoFirstFragment in Advance(whole, ofs, msg, data).events <==>
            ofs == 0 && Final(msg.flags) && Op(msg.flags) == CONTINUE && msg.dataLen == 0
  {
    hide Final, Op, Deleted;
    var es := FrameEvents(msg.flags, data);
    assert NoFirstFragment !in es;
    hide FrameEvents;
    if Final(msg.flags) && Op(msg.flags) == CONTINUE {
      var kept := Deleted(whole, ofs, msg.headerLen);
      DeletedLength(whole, ofs, msg.headerLen);
      var m := WholeMessage(kept, ofs + msg.dataLen);
      assert Advance(whole, ofs, msg, data).events == es + [m];
    }
  }

  /** Two bytes are enough: the handler is given 2^64 - 1 bytes. */
  lemma EmptyContinuationWraps()
    ensures Run([0x80, 0], 0).events == [Ctl(0x80, []), NoFirstFragment]
  {
    hide Run;
    var b: Str := [0x80, 0];
    assert ParsedHeader(b) == WsMsg(0x80, 2, 0) && Consumed(b) == 2 && Payload(b) == [];
    assert b[0..] == b && b[..0] + Unmasked(b) == b;
    assert Turn(b, 0) == Outcome([], 0, [Ctl(0x80, []), NoFirstFragment]);
    OneTurn(b, 0);
  }

  /** A frame behind which nothing is left. */
  lemma OneTurn(buf: Str, ofs: nat)
    requires ofs <= |buf| && Consumed(buf[ofs..]) > 0 && |Turn(buf, ofs).buf| == Turn(buf, ofs).ofs
    ensures Run(buf, ofs) == Turn(buf, ofs)
  {
    hide Consumed, Turn;
    var t := Turn(buf, ofs);
    NothingToConsume();
    assert t.buf[t.ofs..] == [] && t.events + [] == t.events;
  }

  // ----- frames -----

  /** The message being assembled: its first frame's flags and the fragments so far. */
  datatype Progress = Idle | Fragments(flags: Byte, data: Str)

  /** Byte 0 of the buffer holds the first frame's flags, bytes [1, ofs) the fragments. */
  function Stored(a: Progress): Str {
    if a.Idle? then [] else [a.flags] + a.data
  }

  /** Section 5.4 of RFC 6455: control frames are whole, fragments follow a first frame, messages do not interleave. */
  ghost predicate Conforms(a: Progress, f: Frame) {
    && FrameOk(f)
    && f.op in {CONTINUE, TEXT, BINARY, CLOSE, PING, PONG}
    && (f.op >= CLOSE ==> f.fin)
    && (f.op == TEXT || f.op == BINARY ==> a.Idle?)
    && (f.op == CONTINUE ==> a.Fragments?)
  }

  /** What a frame means for the message in progress. */
  function After(a: Progress, f: Frame): Progress {
    if f.op == CONTINUE && a.Fragments? then (if f.fin then Idle else Fragments(a.flags, a.data + f.payload))
    else if (f.op == TEXT || f.op == BINARY) && !f.fin then Fragments(f.op, f.payload)
    else a
  }

  function Emitted(a: Progress, f: Frame): seq<Event>
    requires f.op < 16
  {
    FrameEvents(Flags(f), f.payload) +
    if f.op == CONTINUE && f.fin && a.Fragments? then [Msg(a.flags, a.data + f.payload)] else []
  }

  lemma FlagsDecode(f: Frame)
    requires f.op < 16
    ensures Final(Flags(f)) == f.fin && Op(Flags(f)) == f.op
  {
  }

  /** The three reserved bits change neither the opcode nor whether a frame is final. */
  lemma ReservedBitsAreIgnored(fin: bool, reserved: nat, op: Byte)
    requires reserved < 8 && op < 16
    ensures var flags := (if fin then 0x80 else 0) + 0x10 * reserved + op; Final(flags) == fin && Op(flags) == op
  {
  }

  /** The loop body on one frame of a conforming stream. */
  lemma FrameTurnMeans(a: Progress, f: Frame, rest: Str)
    requires Conforms(a, f)
    ensures var buf, ofs := Stored(a) + (FrameBytes(f) + rest), |Stored(a)|;
      Consumed(buf[ofs..]) > 0 &&
      Turn(buf, ofs) == Outcome(Stored(After(a, f)) + rest, |Stored(After(a, f))|, Emitted(a, f))
  {
    hide Consumed, ParsedHeader, Payload, Unmasked, FrameBytes, Flags, HeaderBytes, Advance, Emitted, After, Stored;
    var s := Stored(a);
    var buf, ofs := s + (FrameBytes(f) + rest), |s|;
    assert buf[ofs..] == FrameBytes(f) + rest && buf[..ofs] == s;
    FrameParses(f, rest);
    ConsumedHasHeader(buf[ofs..]);
    AdvanceMeans(a, f, HeaderBytes(Flags(f), |f.payload|, f.mask), rest);
  }

  lemma AdvanceMeans(a: Progress, f: Frame, h: Str, rest: Str)
    requires Conforms(a, f) && h == HeaderBytes(Flags(f), |f.payload|, f.mask)
    ensures |h| >= 2
    ensures Advance(Stored(a) + (h + f.payload + rest), |Stored(a)|, WsMsg(Flags(f), |h|, |f.payload|), f.payload)
         == Outcome(Stored(After(a, f)) + rest, |Stored(After(a, f))|, Emitted(a, f))
  {
    hide HeaderBytes, Advance, Emitted, After, Stored;
    HeaderStartsWithFlags(f);
    if f.fin && f.op != CONTINUE {
      WholeFrameMeans(a, f, h, rest);
    } else if f.op != CONTINUE {
      FirstFragmentMeans(a, f, h, rest);
    } else {
      FragmentMeans(a, f, h, rest);
    }
  }

  lemma WholeFrameMeans(a: Progress, f: Frame, h: Str, rest: Str)
    requires Conforms(a, f) && f.fin && f.op != CONTINUE && |h| >= 2
    ensures Advance(Stored(a) + (h + f.payload + rest), |Stored(a)|, WsMsg(Flags(f), |h|, |f.payload|), f.payload)
         == Outcome(Stored(After(a, f)) + rest, |Stored(After(a, f))|, Emitted(a, f))
  {
    hide Flags, FrameEvents, Final, Op;
    FlagsDecode(f);
    DeleteFrame(Stored(a), h, f.payload, rest);
    assert FrameEvents(Flags(f), f.payload) + [] == FrameEvents(Flags(f), f.payload);
  }

  lemma FirstFragmentMeans(a: Progress, f: Frame, h: Str, rest: Str)
    requires Conforms(a, f) && !f.fin && f.op != CONTINUE && |h| >= 2 && h[0] == Flags(f) == f.op
    ensures Advance(Stored(a) + (h + f.payload + rest), |Stored(a)|, WsMsg(Flags(f), |h|, |f.payload|), f.payload)
         == Outcome(Stored(After(a, f)) + rest, |Stored(After(a, f))|, Emitted(a, f))
  {
    hide Flags, FrameEvents, Final, Op;
    FlagsDecode(f);
    DeleteHeader([Flags(f)], h[1..], f.payload, rest);
    assert h == [Flags(f)] + h[1..];
    assert Stored(a) + (h + f.payload + rest) == [Flags(f)] + (h[1..] + f.payload + rest);
    assert FrameEvents(Flags(f), f.payload) + [] == FrameEvents(Flags(f), f.payload);
  }

  lemma FragmentMeans(a: Progress, f: Frame, h: Str, rest: Str)
    requires Conforms(a, f) && f.op == CONTINUE && |h| >= 2
    ensures Advance(Stored(a) + (h + f.payload + rest), |Stored(a)|, WsMsg(Flags(f), |h|, |f.payload|), f.payload)
         == Outcome(Stored(After(a, f)) + rest, |Stored(After(a, f))|, Emitted(a, f))
  {
    hide Flags, FrameEvents, Final, Op;
    FlagsDecode(f);
    DeleteHeader(Stored(a), h, f.payload, rest);
    Assoc([a.flags], a.data, f.payload);
    var kept := Stored(a) + f.payload + rest;
    var end := |Stored(a)| + |f.payload|;
    assert kept[1..end] == a.data + f.payload;
    assert f.fin ==> Deleted(kept, 0, end) == rest;
    assert !f.fin ==> FrameEvents(Flags(f), f.payload) + [] == FrameEvents(Flags(f), f.payload);
  }

  lemma DeleteFrame(s: Str, h: Str, p: Str, rest: Str)
    ensures Deleted(s + (h + p + rest), |s|, |h| + |p|) == s + rest
  {
    assert s + (h + p + rest) == s + (h + p) + rest;
  }

  lemma DeleteHeader(s: Str, h: Str, p: Str, rest: Str)
    ensures Deleted(s + (h + p + rest), |s|, |h|) == s + p + rest
  {
    assert s + (h + p + rest) == s + h + (p + rest);
    Assoc(s, p, rest);
  }

  lemma HeaderStartsWithFlags(f: Frame)
    requires f.op < 16
    ensures var h := HeaderBytes(Flags(f), |f.payload|, f.mask); |h| >= 2 && h[0] == Flags(f)
    ensures !f.fin ==> Flags(f) == f.op
  {
  }

  // ----- streams of frames -----

  /** A stream before its CLOSE frame, after which the connection is drained. */
  ghost predicate AllConform(a: Progress, fs: seq<Frame>)
    decreases |fs|
  {
    fs == [] || (Conforms(a, fs[0]) && fs[0].op != CLOSE && AllConform(After(a, fs[0]), fs[1..]))
  }

  function Wire(fs: seq<Frame>): Str
    requires forall f :: f in fs ==> f.op < 16
  {
    if fs == [] then [] else FrameBytes(fs[0]) + Wire(fs[1..])
  }

  lemma {:induction false} ConformingOps(a: Progress, fs: seq<Frame>)
    requires AllConform(a, fs)
    ensures forall f :: f in fs ==> f.op < 16
    decreases |fs|
  {
    if fs != [] { ConformingOps(After(a, fs[0]), fs[1..]); }
  }

  /** What a receiver that has got `t` knows: the frames complete in it, and the bytes of the next one. */
  datatype Fed = Fed(progress: Progress, rest: Str, events: seq<Event>, left: seq<Frame>)

  function Feed(a: Progress, fs: seq<Frame>, t: Str): Fed
    requires forall f :: f in fs ==> f.op < 16
    decreases |fs|
  {
    if fs == [] || |t| < |FrameBytes(fs[0])| then Fed(a, t, [], fs) else
    var r := Feed(After(a, fs[0]), fs[1..], t[|FrameBytes(fs[0])|..]);
    r.(events := Emitted(a, fs[0]) + r.events)
  }

  /** Receiving `t` and then `u` is receiving both at once. */
  lemma {:induction false} FeedTwice(a: Progress, fs: seq<Frame>, t: Str, u: Str)
    requires forall f :: f in fs ==> f.op < 16
    ensures var r := Feed(a, fs, t);
      (forall f :: f in r.left ==> f.op < 16) &&
      var q := Feed(r.progress, r.left, r.rest + u);
      Feed(a, fs, t + u) == q.(events := r.events + q.events)
    decreases |fs|
  {
    hide FrameBytes, Emitted, After;
    if fs == [] || |t| < |FrameBytes(fs[0])| {
      var q := Feed(a, fs, t + u);
      assert [] + q.events == q.events;
    } else {
      var n := |FrameBytes(fs[0])|;
      assert (t + u)[n..] == t[n..] + u;
      FeedTwice(After(a, fs[0]), fs[1..], t[n..], u);
      var r := Feed(After(a, fs[0]), fs[1..], t[n..]);
      Assoc(Emitted(a, fs[0]), r.events, Feed(r.progress, r.left, r.rest + u).events);
    }
  }

  /** What is left still conforms, and its bytes are the ones still to come. */
  lemma {:induction false} FeedLeft(a: Progress, fs: seq<Frame>, t: Str, u: Str)
    requires AllConform(a, fs) && (forall f :: f in fs ==> f.op < 16) && t + u <= Wire(fs)
    ensures var r := Feed(a, fs, t);
      AllConform(r.progress, r.left) && (forall f :: f in r.left ==> f.op < 16) && r.rest + u <= Wire(r.left)
    decreases |fs|
  {
    hide FrameBytes, Emitted, After, Conforms;
    if fs != [] && |t| >= |FrameBytes(fs[0])| {
      var n := |FrameBytes(fs[0])|;
      assert (t + u)[n..] == t[n..] + u;
      assert Wire(fs)[n..] == Wire(fs[1..]);
      PrefixDrop(t + u, Wire(fs), n);
      FeedLeft(After(a, fs[0]), fs[1..], t[n..], u);
    }
  }

  /** The loop stops exactly at the end of the last complete frame. */
  lemma {:induction false} RunFeeds(a: Progress, fs: seq<Frame>, t: Str)
    requires AllConform(a, fs) && (forall f :: f in fs ==> f.op < 16) && t <= Wire(fs)
    ensures var r := Feed(a, fs, t);
      Run(Stored(a) + t, |Stored(a)|) == Outcome(Stored(r.progress) + r.rest, |Stored(r.progress)|, r.events)
    decreases |fs|
  {
    hide FrameBytes, Emitted, After, Consumed, Turn, Stored;
    var buf, ofs := Stored(a) + t, |Stored(a)|;
    assert buf[ofs..] == t;
    if fs == [] || |t| < |FrameBytes(fs[0])| {
      StrictPrefix(fs, t);
    } else {
      var f, n := fs[0], |FrameBytes(fs[0])|;
      assert Wire(fs)[n..] == Wire(fs[1..]) && Wire(fs)[..n] == FrameBytes(f);
      PrefixDrop(t, Wire(fs), n);
      assert t == FrameBytes(f) + t[n..];
      FrameTurnMeans(a, f, t[n..]);
      RunFeeds(After(a, f), fs[1..], t[n..]);
    }
  }

  lemma StrictPrefix(fs: seq<Frame>, t: Str)
    requires (forall f :: f in fs ==> f.op < 16) && t <= Wire(fs)
    requires fs == [] || (FrameOk(fs[0]) && |t| < |FrameBytes(fs[0])|)
    ensures Consumed(t) == 0
  {
    hide FrameBytes, Consumed;
    if fs == [] {
      NothingToConsume();
    } else {
      assert t == FrameBytes(fs[0])[..|t|];
      PrefixIsIncomplete(fs[0], |t|);
    }
  }

  lemma NothingToConsume()
    ensures Consumed([]) == 0
  {
  }

  /**
   * Between reads, for any division of a conforming stream: byte 0 holds the first frame's flags, bytes
   * [1, ofs) the fragments so far, the rest is an incomplete frame, and the events are those of the frames.
   */
  lemma {:induction false} ReadsFeed(a: Progress, fs: seq<Frame>, r: Str, chunks: seq<Str>, late: nat)
    requires AllConform(a, fs) && (forall f :: f in fs ==> f.op < 16)
    requires r + Concat(chunks) <= Wire(fs) && Feed(a, fs, r) == Fed(a, r, [], fs)
    ensures var q := Feed(a, fs, r + Concat(chunks));
      Reads(Stored(a) + r, |Stored(a)|, chunks, false, late) ==
        Outcome(Stored(q.progress) + q.rest, |Stored(q.progress)|, q.events)
    decreases |chunks|
  {
    hide Feed, Run, Stored, AllConform, Wire, Plain;
    if chunks == [] {
      assert r + [] == r;
    } else {
      var t, u := r + chunks[0], Concat(chunks[1..]);
      Assoc(r, chunks[0], u);
      PrefixOfPrefix(t, u, Wire(fs));
      RunFeeds(a, fs, t);
      Assoc(Stored(a), r, chunks[0]);
      FeedLeft(a, fs, t, u);
      FeedTwice(a, fs, t, u);
      var q := Feed(a, fs, t);
      FeedStops(a, fs, t);
      FeedIsPlain(a, fs, t);
      PlainGoesOn(q.events);
      ReadsFeed(q.progress, q.left, q.rest, chunks[1..], late);
    }
  }

  /** Events after which the connection is read again, and whose data is what was received. */
  predicate Plain(es: seq<Event>) {
    forall i :: 0 <= i < |es| ==> !es[i].UnknownOp? && !IsClose(es[i]) && es[i] != NoFirstFragment
  }

  lemma PlainGoesOn(es: seq<Event>)
    requires Plain(es)
    ensures !Fails(es) && !Drains(es)
  {
  }

  /** A conforming stream ends no connection before its CLOSE frame, and has no message that is too short. */
  lemma {:induction false} FeedIsPlain(a: Progress, fs: seq<Frame>, t: Str)
    requires AllConform(a, fs) && forall f :: f in fs ==> f.op < 16
    ensures Plain(Feed(a, fs, t).events)
    decreases |fs|
  {
    hide FrameBytes, Emitted, After, Conforms;
    if fs != [] && |t| >= |FrameBytes(fs[0])| {
      EmittedIsPlain(a, fs[0]);
      FeedIsPlain(After(a, fs[0]), fs[1..], t[|FrameBytes(fs[0])|..]);
    }
  }

  lemma EmittedIsPlain(a: Progress, f: Frame)
    requires Conforms(a, f) && f.op != CLOSE
    ensures Plain(Emitted(a, f))
  {
    FlagsDecode(f);
    hide Flags, Op, Final;
  }

  /** In no read of a conforming stream is the handler given a message of length 2^64 - 1. */
  lemma ConformingNeverWraps(fs: seq<Frame>, chunks: seq<Str>, late: nat)
    requires AllConform(Idle, fs) && (forall f :: f in fs ==> f.op < 16) && Concat(chunks) <= Wire(fs)
    ensures NoFirstFragment !in Reads([], 0, chunks, false, late).events
  {
    hide Feed, Reads, AllConform, Wire;
    FeedNothing(Idle, fs);
    assert [] + Concat(chunks) == Concat(chunks) && Stored(Idle) + [] == [];
    ReadsFeed(Idle, fs, [], chunks, late);
    FeedIsPlain(Idle, fs, Concat(chunks));
  }

  lemma {:induction false} FeedStops(a: Progress, fs: seq<Frame>, t: Str)
    requires forall f :: f in fs ==> f.op < 16
    ensures var q := Feed(a, fs, t);
      (forall f :: f in q.left ==> f.op < 16) && Feed(q.progress, q.left, q.rest) == Fed(q.progress, q.rest, [], q.left)
    decreases |fs|
  {
    hide FrameBytes, Emitted, After;
    if fs != [] && |t| >= |FrameBytes(fs[0])| {
      FeedStops(After(a, fs[0]), fs[1..], t[|FrameBytes(fs[0])|..]);
    }
  }

  // ----- messages -----

  datatype Control = Control(op: Byte, mask: MaskKey, payload: Str)

  /** One fragment, and the control frames sent after it. */
  datatype Piece = Piece(payload: Str, mask: MaskKey, controls: seq<Control>)

  datatype Message = Message(op: Byte, pieces: seq<Piece>)

  ghost predicate PieceOk(p: Piece) {
    |p.payload| <= MAX_PAYLOAD &&
    forall c :: c in p.controls ==> c.op in {PING, PONG} && |c.payload| <= MAX_PAYLOAD
  }

  ghost predicate MessageOk(m: Message) {
    (m.op == TEXT || m.op == BINARY) && m.pieces != [] && forall p :: p in m.pieces ==> PieceOk(p)
  }

  function ControlFrames(cs: seq<Control>): seq<Frame> {
    if cs == [] then [] else [Frame(true, cs[0].op, cs[0].mask, cs[0].payload)] + ControlFrames(cs[1..])
  }

  /** The frames of a message's pieces; only the first carries the opcode, only the last is final. */
  function PieceFrames(op: Byte, ps: seq<Piece>): seq<Frame> {
    if ps == [] then []
    else
      [Frame(|ps| == 1, op, ps[0].mask, ps[0].payload)] +
      (ControlFrames(ps[0].controls) + PieceFrames(CONTINUE, ps[1..]))
  }

  function MessageFrames(ms: seq<Message>): seq<Frame> {
    if ms == [] then [] else PieceFrames(ms[0].op, ms[0].pieces) + MessageFrames(ms[1..])
  }

  function Joined(ps: seq<Piece>): Str {
    if ps == [] then [] else ps[0].payload + Joined(ps[1..])
  }

  /** The MSG events the user must see: one per message, with the first frame's flags and the whole payload. */
  function Delivered(ms: seq<Message>): seq<Event> {
    if ms == [] then [] else [Whole(ms[0])] + Delivered(ms[1..])
  }

  function Whole(m: Message): Event {
    Msg(if |m.pieces| == 1 then (m.op + 0x80) % 0x100 else m.op, Joined(m.pieces))
  }

  function MsgEvents(es: seq<Event>): seq<Event> {
    if es == [] then [] else (if es[0].Msg? then [es[0]] else []) + MsgEvents(es[1..])
  }

  lemma {:induction false} MsgEventsAppend(es: seq<Event>, fs: seq<Event>)
    ensures MsgEvents(es + fs) == MsgEvents(es) + MsgEvents(fs)
  {
    if es == [] {
      assert es + fs == fs;
    } else {
      assert (es + fs)[1..] == es[1..] + fs;
      MsgEventsAppend(es[1..], fs);
      Assoc(if es[0].Msg? then [es[0]] else [], MsgEvents(es[1..]), MsgEvents(fs));
    }
  }

  // ----- every event of such a stream -----

  /** A PING is answered with its payload and shown, a PONG is only shown. */
  function ControlEvents(cs: seq<Control>): seq<Event> {
    if cs == [] then []
    else
      var p := cs[0].payload;
      (if cs[0].op == 9 then [Reply(10, p), Ctl(0x89, p)] else [Ctl(0x8a, p)]) + ControlEvents(cs[1..])
  }

  /** The fragments behind `data`: each is shown by itself, and the last one completes the message. */
  function FragmentEvents(flags: Byte, data: Str, ps: seq<Piece>): seq<Event>
    decreases |ps|
  {
    if ps == [] then []
    else
      var d := data + ps[0].payload;
      (if |ps| == 1 then [Ctl(0x80, ps[0].payload), Msg(flags, d)] else [Ctl(0x00, ps[0].payload)]) +
      (ControlEvents(ps[0].controls) + FragmentEvents(flags, d, ps[1..]))
  }

  function MessageEvents(m: Message): seq<Event>
    requires m.pieces != []
  {
    var p := m.pieces[0];
    (if |m.pieces| == 1 then [Msg((m.op + 0x80) % 0x100, p.payload)] else []) +
    (ControlEvents(p.controls) + FragmentEvents(m.op, p.payload, m.pieces[1..]))
  }

  function StreamEvents(ms: seq<Message>): seq<Event>
    requires forall m :: m in ms ==> m.pieces != []
  {
    if ms == [] then [] else MessageEvents(ms[0]) + StreamEvents(ms[1..])
  }

  lemma {:induction false} ControlsShowNoMessage(cs: seq<Control>)
    ensures MsgEvents(ControlEvents(cs)) == []
    decreases |cs|
  {
    if cs != [] {
      var p := cs[0].payload;
      var first := if cs[0].op == 9 then [Reply(10, p), Ctl(0x89, p)] else [Ctl(0x8a, p)];
      ControlsShowNoMessage(cs[1..]);
      MsgEventsAppend(first, ControlEvents(cs[1..]));
      NoMessageIn(first);
    }
  }

  lemma {:induction false} NoMessageIn(es: seq<Event>)
    requires forall e :: e in es ==> !e.Msg?
    ensures MsgEvents(es) == []
    decreases |es|
  {
    if es != [] {
      assert es[0] in es && forall e :: e in es[1..] ==> e in es;
      NoMessageIn(es[1..]);
    }
  }

  lemma {:induction false} FragmentsShowOne(flags: Byte, data: Str, ps: seq<Piece>)
    ensures MsgEvents(FragmentEvents(flags, data, ps)) == if ps == [] then [] else [Msg(flags, data + Joined(ps))]
    decreases |ps|
  {
    hide MsgEvents, ControlEvents;
    if ps == [] {
      NoMessageIn([]);
    } else {
      var p, d := ps[0], data + ps[0].payload;
      var first := if |ps| == 1 then [Ctl(0x80, p.payload), Msg(flags, d)] else [Ctl(0x00, p.payload)];
      FragmentsShowOne(flags, d, ps[1..]);
      ControlsShowNoMessage(p.controls);
      MsgEventsAppend(ControlEvents(p.controls), FragmentEvents(flags, d, ps[1..]));
      MsgEventsAppend(first, ControlEvents(p.controls) + FragmentEvents(flags, d, ps[1..]));
      if |ps| == 1 {
        MsgEventsAppend([Ctl(0x80, p.payload)], [Msg(flags, d)]);
        NoMessageIn([Ctl(0x80, p.payload)]);
        OneMessage(flags, d);
        assert first == [Ctl(0x80, p.payload)] + [Msg(flags, d)] && Joined(ps) == p.payload;
      } else {
        NoMessageIn(first);
        Assoc(data, p.payload, Joined(ps[1..]));
      }
    }
  }

  lemma OneMessage(flags: Byte, data: Str)
    ensures MsgEvents([Msg(flags, data)]) == [Msg(flags, data)]
  {
    assert MsgEvents([]) == [];
  }

  lemma MessageShowsOne(m: Message)
    requires m.pieces != []
    ensures MsgEvents(MessageEvents(m)) == [Whole(m)]
  {
    hide MsgEvents, ControlEvents, FragmentEvents;
    var ps, p := m.pieces, m.pieces[0];
    var first := if |ps| == 1 then [Msg((m.op + 0x80) % 0x100, p.payload)] else [];
    FragmentsShowOne(m.op, p.payload, ps[1..]);
    ControlsShowNoMessage(p.controls);
    MsgEventsAppend(ControlEvents(p.controls), FragmentEvents(m.op, p.payload, ps[1..]));
    MsgEventsAppend(first, ControlEvents(p.controls) + FragmentEvents(m.op, p.payload, ps[1..]));
    if |ps| == 1 {
      OneMessage((m.op + 0x80) % 0x100, p.payload);
      assert ps[1..] == [] && Joined(ps) == p.payload;
    } else {
      NoMessageIn([]);
    }
  }

  /** The messages among these events are those to be delivered. */
  lemma {:induction false} StreamShowsMessages(ms: seq<Message>)
    requires forall m :: m in ms ==> m.pieces != []
    ensures MsgEvents(StreamEvents(ms)) == Delivered(ms)
    decreases |ms|
  {
    hide MessageEvents;
    if ms != [] {
      StreamShowsMessages(ms[1..]);
      MessageShowsOne(ms[0]);
      MsgEventsAppend(MessageEvents(ms[0]), StreamEvents(ms[1..]));
    }
  }

  /** A stretch of frames leads from one state to another with these events. */
  ghost predicate Leads(a: Progress, fs: seq<Frame>, b: Progress, es: seq<Event>)
    decreases |fs|
  {
    if fs == [] then a == b && es == []
    else Conforms(a, fs[0]) && fs[0].op != CLOSE && exists rest ::
      es == Emitted(a, fs[0]) + rest && Leads(After(a, fs[0]), fs[1..], b, rest)
  }

  lemma {:induction false} LeadsAppend(a: Progress, fs: seq<Frame>, b: Progress, m: seq<Event>,
                                       gs: seq<Frame>, c: Progress, n: seq<Event>)
    requires Leads(a, fs, b, m) && Leads(b, gs, c, n)
    ensures Leads(a, fs + gs, c, m + n)
    decreases |fs|
  {
    hide Emitted, After, Leads;
    if fs == [] {
      LeadsNowhere(a, b, m);
      assert fs + gs == gs && m + n == n;
    } else {
      var rest := LeadsFirst(a, fs, b, m);
      LeadsAppend(After(a, fs[0]), fs[1..], b, rest, gs, c, n);
      assert fs + gs == [fs[0]] + (fs[1..] + gs);
      LeadsMore(a, fs[0], fs[1..] + gs, c, rest + n);
      Assoc(Emitted(a, fs[0]), rest, n);
    }
  }

  lemma LeadsNowhere(a: Progress, b: Progress, m: seq<Event>)
    requires Leads(a, [], b, m)
    ensures a == b && m == []
  {
  }

  lemma LeadsFirst(a: Progress, fs: seq<Frame>, b: Progress, m: seq<Event>) returns (rest: seq<Event>)
    requires fs != [] && Leads(a, fs, b, m)
    ensures Conforms(a, fs[0]) && fs[0].op != CLOSE
    ensures m == Emitted(a, fs[0]) + rest && Leads(After(a, fs[0]), fs[1..], b, rest)
  {
    hide Emitted, After;
    rest :| m == Emitted(a, fs[0]) + rest && Leads(After(a, fs[0]), fs[1..], b, rest);
  }

  lemma LeadsMore(a: Progress, f: Frame, fs: seq<Frame>, b: Progress, rest: seq<Event>)
    requires Conforms(a, f) && f.op != CLOSE && Leads(After(a, f), fs, b, rest)
    ensures Leads(a, [f] + fs, b, Emitted(a, f) + rest)
  {
    hide Emitted, After, Conforms;
    assert ([f] + fs)[0] == f && ([f] + fs)[1..] == fs;
  }

  ghost predicate ControlsOk(cs: seq<Control>) {
    forall c :: c in cs ==> c.op in {PING, PONG} && |c.payload| <= MAX_PAYLOAD
  }

  lemma {:induction false} ControlsLead(a: Progress, cs: seq<Control>)
    requires ControlsOk(cs)
    ensures Leads(a, ControlFrames(cs), a, ControlEvents(cs))
    decreases |cs|
  {
    if cs == [] {
      NoFramesLead(a);
    } else {
      hide Leads, Emitted, After;
      var c := cs[0];
      var f := Frame(true, c.op, c.mask, c.payload);
      assert c in cs && forall d :: d in cs[1..] ==> d in cs;
      ControlsLead(a, cs[1..]);
      FlagsDecode(f);
      ControlShows(a, f);
      LeadsMore(a, f, ControlFrames(cs[1..]), a, ControlEvents(cs[1..]));
    }
  }

  lemma ControlShows(a: Progress, f: Frame)
    requires f.fin && (f.op == 9 || f.op == 10)
    ensures After(a, f) == a
    ensures Emitted(a, f) ==
      if f.op == 9 then [Reply(10, f.payload), Ctl(0x89, f.payload)] else [Ctl(0x8a, f.payload)]
  {
    assert Flags(f) == 0x80 + f.op;
    FlagsDecode(f);
    hide Flags, Op, Final;
    assert FrameEvents(Flags(f), f.payload) + [] == FrameEvents(Flags(f), f.payload);
  }

  lemma FragmentShows(a: Progress, f: Frame)
    requires f.op == 0 && a.Fragments?
    ensures After(a, f) == if f.fin then Idle else Fragments(a.flags, a.data + f.payload)
    ensures Emitted(a, f) ==
      if f.fin then [Ctl(0x80, f.payload), Msg(a.flags, a.data + f.payload)] else [Ctl(0x00, f.payload)]
  {
    assert Flags(f) == if f.fin then 0x80 else 0;
    FlagsDecode(f);
    hide Flags, Op, Final;
    if f.fin {
      assert [Ctl(0x80, f.payload)] + [Msg(a.flags, a.data + f.payload)]
          == [Ctl(0x80, f.payload), Msg(a.flags, a.data + f.payload)];
    }
  }

  lemma FirstShows(f: Frame)
    requires f.op == 1 || f.op == 2
    ensures After(Idle, f) == if f.fin then Idle else Fragments(f.op, f.payload)
    ensures Emitted(Idle, f) == if f.fin then [Msg((f.op + 0x80) % 0x100, f.payload)] else []
  {
    FlagsDecode(f);
    assert f.fin ==> Flags(f) == (f.op + 0x80) % 0x100;
    hide Flags, Op, Final;
  }

  /** A CLOSE frame is shown, and answered with its payload. */
  lemma CloseIsAnswered(a: Progress, mask: MaskKey, data: Str)
    ensures var f := Frame(true, 8, mask, data);
      After(a, f) == a && Emitted(a, f) == [Ctl(0x88, data), Reply(8, data)]
  {
    var f := Frame(true, 8, mask, data);
    assert Flags(f) == 0x88;
    FlagsDecode(f);
    hide Flags, Op, Final;
  }

  /** The opcodes 3 to 7 and 11 to 15 end the connection. */
  lemma OthersEnd(flags: Byte, data: Str)
    ensures Fails(FrameEvents(flags, data)) <==> flags % 16 in {3, 4, 5, 6, 7, 11, 12, 13, 14, 15}
    ensures Drains(FrameEvents(flags, data)) <==> flags % 16 == 8
  {
    hide Fails, Drains, FrameEvents;
    FrameEnds(flags, data);
  }

  /** One frame, its control frames, and whatever follows. */
  lemma LeadsOn(a: Progress, f: Frame, cs: seq<Control>, gs: seq<Frame>, c: Progress, n: seq<Event>)
    requires Conforms(a, f) && f.op != CLOSE && Leads(After(a, f), gs, c, n) && ControlsOk(cs)
    ensures Leads(a, [f] + (ControlFrames(cs) + gs), c, Emitted(a, f) + (ControlEvents(cs) + n))
  {
    hide Conforms, Emitted, After, Leads;
    ControlsLead(After(a, f), cs);
    LeadsAppend(After(a, f), ControlFrames(cs), After(a, f), ControlEvents(cs), gs, c, n);
    LeadsMore(a, f, ControlFrames(cs) + gs, c, ControlEvents(cs) + n);
  }

  lemma {:induction false} FragmentsLead(a: Progress, ps: seq<Piece>)
    requires a.Fragments? && ps != [] && forall p :: p in ps ==> PieceOk(p)
    ensures Leads(a, PieceFrames(CONTINUE, ps), Idle, FragmentEvents(a.flags, a.data, ps))
    decreases |ps|
  {
    hide Emitted, After, Leads;
    var p := ps[0];
    assert p in ps;
    var f := Frame(|ps| == 1, CONTINUE, p.mask, p.payload);
    FragmentShows(a, f);
    if |ps| == 1 {
      NoFramesLead(Idle);
      assert PieceFrames(CONTINUE, ps[1..]) == [];
      LeadsOn(a, f, p.controls, [], Idle, []);
    } else {
      var b := Fragments(a.flags, a.data + p.payload);
      FragmentsLead(b, ps[1..]);
      LeadsOn(a, f, p.controls, PieceFrames(CONTINUE, ps[1..]), Idle, FragmentEvents(b.flags, b.data, ps[1..]));
    }
  }

  lemma NoFramesLead(a: Progress)
    ensures Leads(a, [], a, [])
  {
  }

  /** The frames of a message lead from idle to idle with exactly these events. */
  lemma MessageLeads(m: Message)
    requires MessageOk(m)
    ensures Leads(Idle, PieceFrames(m.op, m.pieces), Idle, MessageEvents(m))
  {
    hide Emitted, After, Leads;
    var ps, p := m.pieces, m.pieces[0];
    assert p in ps;
    var f := Frame(|ps| == 1, m.op, p.mask, p.payload);
    FirstShows(f);
    if |ps| == 1 {
      NoFramesLead(Idle);
      assert PieceFrames(CONTINUE, ps[1..]) == [];
      LeadsOn(Idle, f, p.controls, [], Idle, []);
    } else {
      FragmentsLead(Fragments(m.op, p.payload), ps[1..]);
      LeadsOn(Idle, f, p.controls, PieceFrames(CONTINUE, ps[1..]), Idle, FragmentEvents(m.op, p.payload, ps[1..]));
    }
  }

  lemma {:induction false} MessagesLead(ms: seq<Message>)
    requires forall m :: m in ms ==> MessageOk(m)
    ensures forall m :: m in ms ==> m.pieces != []
    ensures Leads(Idle, MessageFrames(ms), Idle, StreamEvents(ms))
    decreases |ms|
  {
    hide Leads, MessageOk, PieceFrames, MessageEvents;
    if ms == [] {
      NoFramesLead(Idle);
    } else {
      assert ms[0] in ms && forall m :: m in ms[1..] ==> m in ms;
      SomePieces(ms[0]);
      MessageLeads(ms[0]);
      MessagesLead(ms[1..]);
      LeadsAppend(Idle, PieceFrames(ms[0].op, ms[0].pieces), Idle, MessageEvents(ms[0]),
                  MessageFrames(ms[1..]), Idle, StreamEvents(ms[1..]));
    }
  }

  lemma SomePieces(m: Message)
    requires MessageOk(m)
    ensures m.pieces != []
  {
  }

  /** A stretch of frames received whole. */
  lemma {:induction false} LeadsFeeds(a: Progress, fs: seq<Frame>, b: Progress, m: seq<Event>)
    requires Leads(a, fs, b, m)
    ensures AllConform(a, fs) && forall f :: f in fs ==> f.op < 16
    ensures Feed(a, fs, Wire(fs)) == Fed(b, [], m, [])
    decreases |fs|
  {
    if fs != [] {
      var rest :| m == Emitted(a, fs[0]) + rest && Leads(After(a, fs[0]), fs[1..], b, rest);
      LeadsFeeds(After(a, fs[0]), fs[1..], b, rest);
      hide Emitted, After, FrameBytes;
      assert Wire(fs)[|FrameBytes(fs[0])|..] == Wire(fs[1..]);
    }
  }

  /**
   * Any run of messages, cut into fragments with control frames between them, masked or not, and read in
   * any pieces: one MSG per message, in order, with the whole payload; every PING is answered with its payload, every
   * fragment and control frame shown once, in the order of the stream; the buffer ends empty.
   */
  lemma MessagesAreReassembled(ms: seq<Message>, chunks: seq<Str>, late: nat)
    requires forall m :: m in ms ==> MessageOk(m)
    requires (forall f :: f in MessageFrames(ms) ==> f.op < 16) && Concat(chunks) == Wire(MessageFrames(ms))
    ensures var r := Reads([], 0, chunks, false, late);
      r.buf == [] && r.ofs == 0 && MsgEvents(r.events) == Delivered(ms)
    ensures forall m :: m in ms ==> m.pieces != []
    ensures Reads([], 0, chunks, false, late).events == StreamEvents(ms)
  {
    hide Feed, Reads, MessageOk, Leads, Wire, AllConform, StreamEvents;
    var fs := MessageFrames(ms);
    MessagesLead(ms);
    StreamShowsMessages(ms);
    LeadsFeeds(Idle, fs, Idle, StreamEvents(ms));
    FeedNothing(Idle, fs);
    assert [] + Concat(chunks) == Concat(chunks);
    ReadsFeed(Idle, fs, [], chunks, late);
    assert Stored(Idle) + [] == [];
  }

  lemma FeedNothing(a: Progress, fs: seq<Frame>)
    requires forall f :: f in fs ==> f.op < 16
    ensures Feed(a, fs, []) == Fed(a, [], [], fs)
  {
    if fs != [] { HeaderStartsWithFlags(fs[0]); }
  }

  /** What a stretch of reads does behind the events before it. */
  function Behind(events: seq<Event>, r: Outcome): Outcome { Outcome(r.buf, r.ofs, events + r.events) }

  /** One turn of the poll loop. */
  lemma ReadsOne(events: seq<Event>, buf: Str, ofs: nat, chunks: seq<Str>, i: nat, draining: bool, late: nat)
    requires ofs <= |buf| && i < |chunks|
    ensures var t := Run(buf + chunks[i], ofs);
      var d := draining || Drains(t.events);
      Behind(events, Reads(buf, ofs, chunks[i..], draining, late)) ==
        if Fails(t.events) || (d && late == 0) then Outcome(t.buf, t.ofs, events + t.events)
        else Behind(events + t.events, Reads(t.buf, t.ofs, chunks[i + 1..], d, if d then late - 1 else late))
  {
    hide Run, Fails, Drains;
    var t := Run(buf + chunks[i], ofs);
    var d := draining || Drains(t.events);
    assert chunks[i..][0] == chunks[i] && chunks[i..][1..] == chunks[i + 1..];
    if !Fails(t.events) && !(d && late == 0) {
      Assoc(events, t.events, Reads(t.buf, t.ofs, chunks[i + 1..], d, if d then late - 1 else late).events);
    }
  }

  lemma NoMoreReads(events: seq<Event>, buf: Str, ofs: nat, draining: bool, late: nat)
    requires ofs <= |buf|
    ensures Behind(events, Reads(buf, ofs, [], draining, late)) == Outcome(buf, ofs, events)
  {
    assert events + [] == events;
  }

  /** The poll loop, for any bytes: the connection is read while it is open, and `late` times while it is draining. */
  method Receive(c: WsConnection, chunks: seq<Str>, late: nat)
    requires c.Valid() && !c.isClosing && !c.isDraining
    modifies c, c.recv, c.recv.buf
    ensures c.Valid()
    ensures var r := Reads(old(c.recv.Contents()), old(c.pfnData), chunks, false, late);
      c.recv.Contents() == r.buf && c.pfnData == r.ofs && c.events == old(c.events) + r.events
  {
    hide Run, Fails, Drains, Reads;
    ghost var goal := Behind(c.events, Reads(c.recv.Contents(), c.pfnData, chunks, false, late));
    var i, left, open := 0, late, true;
    assert chunks[0..] == chunks;
    while open && i < |chunks|
      invariant 0 <= i <= |chunks| && c.Valid() && (c.recv.buf == old(c.recv.buf) || fresh(c.recv.buf))
      invariant open ==> !c.isClosing
      invariant goal ==
        if open then Behind(c.events, Reads(c.recv.Contents(), c.pfnData, chunks[i..], c.isDraining, left))
        else Outcome(c.recv.Contents(), c.pfnData, c.events)
    {
      ReadsOne(c.events, c.recv.Contents(), c.pfnData, chunks, i, c.isDraining, left);
      c.Read(chunks[i]);
      i := i + 1;
      if c.isClosing || (c.isDraining && left == 0) {
        open := false;
      } else if c.isDraining {
        left := left - 1;
      }
    }
    if open {
      assert chunks[i..] == [];
      NoMoreReads(c.events, c.recv.Contents(), c.pfnData, c.isDraining, left);
    }
  }

  /** A run of messages, received by the connection object. */
  method ReceiveAll(c: WsConnection, chunks: seq<Str>, late: nat, ghost ms: seq<Message>)
    requires c.Valid() && c.recv.Contents() == [] && c.pfnData == 0 && c.events == []
    requires !c.isClosing && !c.isDraining && forall m :: m in ms ==> MessageOk(m)
    requires (forall f :: f in MessageFrames(ms) ==> f.op < 16) && Concat(chunks) == Wire(MessageFrames(ms))
    modifies c, c.recv, c.recv.buf
    ensures c.Valid() && c.recv.Contents() == [] && c.pfnData == 0
    ensures MsgEvents(c.events) == Delivered(ms)
    ensures (forall m :: m in ms ==> m.pieces != []) && c.events == StreamEvents(ms)
  {
    hide Reads, MessageOk, Wire, StreamEvents;
    MessagesAreReassembled(ms, chunks, late);
    ghost var r := Reads([], 0, chunks, false, late);
    assert [] + r.events == r.events;
    Receive(c, chunks, late);
  }
}
