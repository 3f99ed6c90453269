/** mg_ws_cb on arbitrary bytes: when what it does depends on how they are cut into reads. */
module WsCuts {
  import opened Bytes
  import opened IoBuffer
  import opened WsFrame
  import opened WsReassembly

  // ----- more bytes -----

  /** A frame complete in `b` is the same frame when more bytes have arrived. */
  lemma HeaderAppend(b: Str, more: Str)
    requires Consumed(b) > 0
    ensures ParsedHeader(b + more) == ParsedHeader(b) && Consumed(b + more) == Consumed(b)
    ensures MaskLength(b + more) == MaskLength(b)
  {
  }

  lemma UnmaskedAppend(b: Str, more: Str)
    requires Consumed(b) > 0
    ensures Consumed(b + more) == Consumed(b) && ParsedHeader(b + more) == ParsedHeader(b)
    ensures Payload(b + more) == Payload(b) && Unmasked(b + more) == Unmasked(b) + more
  {
    hide ParsedHeader, Masked, Consumed, MaskLength;
    HeaderAppend(b, more);
    ConsumedHasHeader(b);
    var h, n, all := ParsedHeader(b).headerLen, ParsedHeader(b).dataLen, b + more;
    assert all[..h] == b[..h] && all[h..h + n] == b[h..h + n] && all[h + n..] == b[h + n..] + more;
    Assoc(b[..h] + Payload(b), b[h + n..], more);
  }

  lemma DeletedAppend(s: Str, ofs: nat, n: nat, more: Str)
    requires ofs + n <= |s|
    ensures Deleted(s + more, ofs, n) == Deleted(s, ofs, n) + more
  {
    var t := s + more;
    assert t[..ofs] == s[..ofs] && t[ofs + n..] == s[ofs + n..] + more;
    Assoc(s[..ofs], s[ofs + n..], more);
  }

  /** The end of the loop body does not look beyond its frame. */
  lemma AdvanceAppend(whole: Str, ofs: nat, msg: WsMsg, data: Str, more: Str)
    requires ofs + msg.headerLen + msg.dataLen <= |whole| && msg.headerLen >= 2
    ensures var r := Advance(whole, ofs, msg, data);
      Advance(whole + more, ofs, msg, data) == Outcome(r.buf + more, r.ofs, r.events)
  {
    hide FrameEvents, Final, Op, Deleted;
    var final, op := Final(msg.flags), Op(msg.flags);
    if final && op != 0 {
      DeletedAppend(whole, ofs, msg.headerLen + msg.dataLen, more);
    } else {
      var at := if op != 0 then ofs + 1 else ofs;
      var n := if op != 0 then msg.headerLen - 1 else msg.headerLen;
      var kept := Deleted(whole, at, n);
      DeletedAppend(whole, at, n, more);
      DeletedLength(whole, at, n);
      DeletedAppend(kept, 0, at + msg.dataLen, more);
      WholeAppend(kept, at + msg.dataLen, more);
    }
  }

  lemma WholeAppend(kept: Str, end: nat, more: Str)
    requires end <= |kept|
    ensures WholeMessage(kept + more, end) == WholeMessage(kept, end)
  {
    if end > 0 {
      assert (kept + more)[1..end] == kept[1..end];
    }
  }

  lemma TurnAppend(buf: Str, ofs: nat, more: Str)
    requires ofs <= |buf| && Consumed(buf[ofs..]) > 0
    ensures Consumed((buf + more)[ofs..]) > 0
    ensures var r := Turn(buf, ofs);
      Turn(buf + more, ofs) == Outcome(r.buf + more, r.ofs, r.events)
  {
    hide Advance, ParsedHeader, Consumed, Payload, Unmasked;
    var b := buf[ofs..];
    assert (buf + more)[ofs..] == b + more && (buf + more)[..ofs] == buf[..ofs];
    UnmaskedAppend(b, more);
    ConsumedHasHeader(b);
    Assoc(buf[..ofs], Unmasked(b), more);
    AdvanceAppend(buf[..ofs] + Unmasked(b), ofs, ParsedHeader(b), Payload(b), more);
  }

  /** Bytes that arrive later are processed as if they had been there. */
  lemma {:induction false} RunAppend(buf: Str, ofs: nat, more: Str)
    requires ofs <= |buf|
    ensures var r := Run(buf, ofs);
      var q := Run(r.buf + more, r.ofs);
      Run(buf + more, ofs) == Outcome(q.buf, q.ofs, r.events + q.events)
    ensures Run(Run(buf, ofs).buf, Run(buf, ofs).ofs) == Outcome(Run(buf, ofs).buf, Run(buf, ofs).ofs, [])
    decreases |buf| - ofs
  {
    hide Turn, Consumed;
    if Consumed(buf[ofs..]) == 0 {
      assert [] + Run(buf + more, ofs).events == Run(buf + more, ofs).events;
    } else {
      TurnAppend(buf, ofs, more);
      var t := Turn(buf, ofs);
      RunAppend(t.buf, t.ofs, more);
      var r := Run(t.buf, t.ofs);
      Assoc(t.events, r.events, Run(r.buf + more, r.ofs).events);
    }
  }

  // ----- cuts -----

  /** The event closes the connection at once, or as soon as everything is sent. */
  predicate Ends(e: Event) { e.UnknownOp? || IsClose(e) }

  /** No event stands behind one that ends the connection. */
  predicate EndIsLast(es: seq<Event>) {
    forall i :: 0 <= i < |es| - 1 ==> !Ends(es[i])
  }

  lemma EndIsLastJoined(a: seq<Event>, b: seq<Event>)
    requires EndIsLast(a + b)
    ensures Fails(a) || Drains(a) ==> b == []
    ensures EndIsLast(b)
  {
    var c := a + b;
    assert forall i :: 0 <= i < |a| ==> c[i] == a[i];
    assert forall i :: 0 <= i < |b| ==> c[|a| + i] == b[i];
    if b != [] && Fails(a) {
      var i :| 0 <= i < |a| && a[i].UnknownOp?;
      assert Ends(c[i]);
    }
    if b != [] && Drains(a) {
      var i :| 0 <= i < |a| && IsClose(a[i]);
      assert Ends(c[i]);
    }
    forall i | 0 <= i < |b| - 1 ensures !Ends(b[i]) {
      assert !Ends(c[|a| + i]);
    }
  }

  /**
   * If nothing is emitted behind the end of the connection, the events of any reads, however late the connection is
   * closed, are those of a single read; and so are buffer and position unless it ends.
   */
  lemma {:induction false} CuttingDoesNotMatter(buf: Str, ofs: nat, chunks: seq<Str>, draining: bool, late: nat)
    requires ofs <= |buf| && Run(buf, ofs) == Outcome(buf, ofs, [])
    requires var es := Run(buf + Concat(chunks), ofs).events; if draining then es == [] else EndIsLast(es)
    ensures var r, whole := Reads(buf, ofs, chunks, draining, late), Run(buf + Concat(chunks), ofs);
      r.events == whole.events && (!draining && !Fails(whole.events) && !Drains(whole.events) ==> r == whole)
    decreases |chunks|
  {
    hide Run, Fails, Drains, EndIsLast;
    NothingEnds();
    if chunks == [] {
      assert buf + [] == buf;
    } else {
      var all := buf + chunks[0];
      var r := Run(all, ofs);
      Assoc(buf, chunks[0], Concat(chunks[1..]));
      RunAppend(all, ofs, Concat(chunks[1..]));
      var more := Run(r.buf + Concat(chunks[1..]), r.ofs);
      EndsJoined(r.events, more.events);
      if !draining {
        EndIsLastJoined(r.events, more.events);
      }
      var d := draining || Drains(r.events);
      if Fails(r.events) || (d && late == 0) {
        assert r.events + [] == r.events;
      } else {
        CuttingDoesNotMatter(r.buf, r.ofs, chunks[1..], d, if d then late - 1 else late);
      }
    }
  }

  /** The loop takes a frame for complete in its own bytes. */
  lemma FrameAlone(b: Str)
    requires Consumed(b) > 0
    ensures Consumed(b[..Consumed(b)]) == Consumed(b)
  {
    var t := b[..Consumed(b)];
    assert forall k :: 0 <= k < |t| ==> t[k] == b[k];
  }

  /** The bytes up to the end of the first frame, on their own. */
  lemma TurnAlone(buf: Str, ofs: nat)
    requires ofs <= |buf| && Consumed(buf[ofs..]) > 0
    ensures var k := ofs + Consumed(buf[ofs..]);
      Consumed(buf[..k][ofs..]) > 0 &&
      var t := Turn(buf[..k], ofs);
      Turn(buf, ofs) == Outcome(t.buf + buf[k..], t.ofs, t.events) && |t.buf| == t.ofs
  {
    hide Consumed, Turn, ParsedHeader;
    var b := buf[ofs..];
    var k := ofs + Consumed(b);
    FrameAlone(b);
    assert buf[..k][ofs..] == b[..Consumed(b)] && buf == buf[..k] + buf[k..];
    TurnAppend(buf[..k], ofs, buf[k..]);
    TurnTakes(buf[..k], ofs);
  }

  lemma TurnTakes(buf: Str, ofs: nat)
    requires ofs <= |buf| && Consumed(buf[ofs..]) > 0
    ensures var t := Turn(buf, ofs); |t.buf| - t.ofs == |buf| - ofs - Consumed(buf[ofs..])
  {
    hide ParsedHeader, Payload, Unmasked, Advance;
    ConsumedHasHeader(buf[ofs..]);
  }

  /** An event that ends the connection is the last of its frame. */
  lemma EndOfTurn(buf: Str, ofs: nat, i: nat)
    requires ofs <= |buf| && Consumed(buf[ofs..]) > 0 && i < |Turn(buf, ofs).events| && Ends(Turn(buf, ofs).events[i])
    ensures i == |Turn(buf, ofs).events| - 1
  {
    hide ParsedHeader, Consumed, Payload, Unmasked, Deleted;
    ConsumedHasHeader(buf[ofs..]);
  }

  /** The bytes up to the frame of an event that ends the connection emit the events up to this one. */
  lemma {:induction false} CutBehind(buf: Str, ofs: nat, i: nat) returns (k: nat)
    requires ofs <= |buf| && i < |Run(buf, ofs).events| && Ends(Run(buf, ofs).events[i])
    ensures ofs <= k <= |buf| && Run(buf[..k], ofs).events == Run(buf, ofs).events[..i + 1]
    decreases |buf| - ofs
  {
    hide Turn, Consumed;
    var n := ofs + Consumed(buf[ofs..]);
    TurnAlone(buf, ofs);
    var t, u := Turn(buf, ofs), Turn(buf[..n], ofs);
    var more := Run(t.buf, t.ofs);
    if i < |t.events| {
      k := n;
      assert t.events[i] == Run(buf, ofs).events[i];
      EndOfTurn(buf, ofs, i);
      OneTurn(buf[..n], ofs);
      assert Run(buf, ofs).events[..i + 1] == t.events;
    } else {
      var j := i - |t.events|;
      assert more.events[j] == Run(buf, ofs).events[i];
      var m := CutBehind(t.buf, t.ofs, j);
      k := n + (m - t.ofs);
      var rest := buf[n..k];
      assert buf[..k] == buf[..n] + rest && t.buf[..m] == u.buf + rest;
      TurnAppend(buf[..n], ofs, rest);
      assert Run(buf, ofs).events[..i + 1] == t.events + more.events[..j + 1];
    }
  }

  /** Cut there, and closed at once, the connection emits nothing else. */
  lemma CutHides(buf: Str, i: nat) returns (chunks: seq<Str>)
    requires i < |Run(buf, 0).events| && Ends(Run(buf, 0).events[i])
    ensures Concat(chunks) == buf && Reads([], 0, chunks, false, 0).events == Run(buf, 0).events[..i + 1]
  {
    hide Run, Fails, Drains;
    var k := CutBehind(buf, 0, i);
    chunks := [buf[..k], buf[k..]];
    assert chunks[1..] == [buf[k..]] && chunks[1..][1..] == [];
    assert Concat(chunks[1..][1..]) == [] && Concat(chunks[1..]) == buf[k..] + [];
    assert Concat(chunks) == buf[..k] + Concat(chunks[1..]);
    assert [] + buf[..k] == buf[..k];
    var es := Run(buf[..k], 0).events;
    assert Ends(es[i]);
    EndStops(es, i);
  }

  lemma EndStops(es: seq<Event>, i: nat)
    requires i < |es| && Ends(es[i])
    ensures Fails(es) || Drains(es)
  {
  }

  /**
   * For every byte string: the events are the same for all ways of cutting it into reads, and for all times at which
   * a draining connection is closed, exactly if no event stands behind an unknown opcode or a CLOSE frame.
   */
  lemma CuttingDoesNotMatterIff(buf: Str)
    ensures (forall chunks, late :: Concat(chunks) == buf ==>
               Reads([], 0, chunks, false, late).events == Run(buf, 0).events) <==>
            EndIsLast(Run(buf, 0).events)
  {
    hide Run, Reads;
    var es := Run(buf, 0).events;
    if EndIsLast(es) {
      forall chunks, late | Concat(chunks) == buf ensures Reads([], 0, chunks, false, late).events == es {
        assert [] + buf == buf;
        NothingRuns();
        CuttingDoesNotMatter([], 0, chunks, false, late);
      }
    } else {
      var i :| 0 <= i < |es| - 1 && Ends(es[i]);
      var chunks := CutHides(buf, i);
      assert |Reads([], 0, chunks, false, 0).events| != |es|;
    }
  }

  lemma NothingRuns()
    ensures Run([], 0) == Outcome([], 0, [])
  {
    NothingToConsume();
    var none: Str := [];
    assert none[0..] == none;
  }

  /** A frame with an unknown opcode and an empty text: in one read the text is shown, cut between them it is not. */
  lemma UnknownOpIsCutDependent()
    ensures var unknown: Str, text: Str := [0x83, 0], [0x81, 0];
      && Reads([], 0, [unknown + text], false, 0).events == [UnknownOp(3), Msg(0x81, [])]
      && Reads([], 0, [unknown, text], false, 0).events == [UnknownOp(3)]
  {
    hide Run, Fails;
    var unknown: Str, text: Str := [0x83, 0], [0x81, 0];
    EmptyFrameRuns(0x83, text);
    EmptyFrameRuns(0x83, []);
    EmptyFrameRuns(0x81, []);
    NothingRuns();
    assert unknown + [] == unknown && text + [] == text;
    assert [] + (unknown + text) == unknown + text && [] + unknown == unknown;
    assert FrameEvents(0x83, []) == [UnknownOp(3)] && FrameEvents(0x81, []) == [Msg(0x81, [])];
    assert Run(unknown, 0).events == [UnknownOp(3)];
    assert Run(unknown + text, 0).events == [UnknownOp(3), Msg(0x81, [])];
    FrameEnds(0x83, []);
    EndsJoined([UnknownOp(3)], [Msg(0x81, [])]);
    assert [UnknownOp(3)] + [Msg(0x81, [])] == [UnknownOp(3), Msg(0x81, [])];
  }

  /** A whole frame without a payload at the front of the buffer. */
  lemma EmptyFrameRuns(flags: Byte, rest: Str)
    requires Final(flags) && Op(flags) != CONTINUE
    ensures var r := Run(rest, 0);
      Run([flags, 0] + rest, 0) == Outcome(r.buf, r.ofs, FrameEvents(flags, []) + r.events)
  {
    hide FrameEvents, Final, Op;
    var b: Str := [flags, 0] + rest;
    assert ParsedHeader(b) == WsMsg(flags, 2, 0) && Consumed(b) == 2 && Payload(b) == [];
    hide Payload, ParsedHeader, Consumed;
    assert b[0..] == b && b[..0] + Unmasked(b) == b by { EmptyUnmask(b); }
    assert Deleted(b, 0, 2) == rest;
    assert Turn(b, 0) == Outcome(rest, 0, FrameEvents(flags, []));
  }
}
