/** MQTT: publishing, parsing, and the receive loop, which depends on nothing but the bytes received. */
module Mqtt {
  import opened Bytes
  import opened Modulo
  import opened Septets
  import opened Wrappers

  const CONNACK := 2
  const PUBLISH := 3

  /** Commands whose body begins with a packet identifier. */
  predicate HasId(cmd: nat) { 4 <= cmd <= 11 }

  const MAX_REMAINING := 0x1000_0000   // four length bytes hold 28 bits

  // ----- sending -----

  function U16(v: nat): (r: Str)
    ensures |r| == 2
  {
    [v / 0x100 % 0x100, v % 0x100]
  }

  function LengthByte(len: nat): Byte { len % 0x80 + if len / 0x80 > 0 then 0x80 else 0 }

  /** The length bytes, seven bits each from the low end, at most `room` of them. */
  function LengthBytes(len: nat, room: nat): (r: Str)
    requires room > 0
    ensures 1 <= |r| <= room
    decreases room
  {
    if len < 0x80 then [len]
    else if room == 1 then [len % 0x80 + 0x80]
    else [len % 0x80 + 0x80] + LengthBytes(len / 0x80, room - 1)
  }

  function Header(cmd: nat, flags: nat, len: nat): (r: Str)
    requires cmd < 16 && flags < 16
    ensures 2 <= |r| <= 5
  {
    [cmd * 16 + flags] + LengthBytes(len, 4)
  }

  /** The identifier after `id`; zero is skipped. */
  function NextId(id: nat): (r: nat)
    requires id < 0x1_0000
    ensures 0 < r < 0x1_0000
  {
    if id == 0xffff then 1 else id + 1
  }

  function Flags(qos: int, retain: bool): (r: nat)
    ensures r < 8
  {
    qos % 4 * 2 + if retain then 1 else 0
  }

  /** What follows the fixed header: topic, identifier, empty properties, payload. */
  function PublishBody(topic: Str, data: Str, qos: int, id: nat, v5: bool): Str {
    U16(|topic|) + topic + (if qos > 0 then U16(id) else []) + (if v5 then [0] else []) + data
  }

  function Published(topic: Str, data: Str, qos: int, retain: bool, id: nat, v5: bool): Str {
    Header(PUBLISH, Flags(qos, retain), |PublishBody(topic, data, qos, id, v5)| % 0x1_0000_0000)
    + PublishBody(topic, data, qos, id, v5)
  }

  class Manager {
    var mqttId: nat

    constructor ()
      ensures mqttId == 0
    {
      mqttId := 0;
    }
  }

  class Connection {
    const mgr: Manager
    const v5: bool
    var send: Str

    constructor (mgr: Manager, v5: bool)
      ensures this.mgr == mgr && this.v5 == v5 && send == []
    {
      this.mgr, this.v5, send := mgr, v5, [];
    }

    /** mg_mqtt_send_header: the bytes are set up in a buffer of five. */
    method SendHeader(cmd: nat, flags: nat, length: nat)
      requires cmd < 16 && flags < 16
      modifies this`send
      ensures send == old(send) + Header(cmd, flags, length)
    {
      hide LengthBytes, LengthByte;
      var buf := new Byte[5](i => 0);
      buf[0] := cmd * 16 + flags;
      var vlen, len: nat := 1, length;
      assert buf[..1] == [buf[0]];
      var more := true;
      while more
        invariant 1 <= vlen <= 5 && buf.Length == 5 && send == old(send)
        invariant if more then vlen < 5 && buf[..vlen] + LengthBytes(len, 5 - vlen) == Header(cmd, flags, length)
                  else buf[..vlen] == Header(cmd, flags, length)
        decreases more, 5 - vlen
      {
        LengthStep(len, 5 - vlen);
        Assoc(buf[..vlen], [LengthByte(len)], if vlen < 4 then LengthBytes(len / 0x80, 4 - vlen) else []);
        PutLength(buf, vlen, len);
        len := len / 0x80;
        vlen := vlen + 1;
        more := len > 0 && vlen < 5;
      }
      send := send + buf[..vlen];
    }

    /** One turn of the loop: seven bits, and the continuation bit while some are left. */
    method PutLength(buf: array<Byte>, vlen: nat, len: nat)
      requires vlen < buf.Length
      modifies buf
      ensures buf[..vlen + 1] == old(buf[..vlen]) + [LengthByte(len)]
    {
      buf[vlen] := len % 0x80;
      if len / 0x80 > 0 {
        buf[vlen] := buf[vlen] + 0x80;
      }
    }

    method SendU16(v: nat)
      modifies this`send
      ensures send == old(send) + U16(v)
    {
      send := send + U16(v);
    }

    /** The remaining length of mg_mqtt_pub: every term is cut to 32 bits, and so is every sum. */
    method RemainingLength(t: nat, d: nat, qos: int) returns (len: nat)
      ensures len == (2 + t + d + (if qos > 0 then 2 else 0) + (if v5 then 1 else 0)) % 0x1_0000_0000
    {
      len := (2 + t % 0x1_0000_0000 + d % 0x1_0000_0000) % 0x1_0000_0000;
      ModShift(t, 2 + d % 0x1_0000_0000, 0x1_0000_0000);
      ModShift(d, 2 + t, 0x1_0000_0000);
      assert len == (2 + t + d) % 0x1_0000_0000;
      if qos > 0 {
        ModShift(2 + t + d, 2, 0x1_0000_0000);
        len := (len + 2) % 0x1_0000_0000;
      }
      if v5 {
        ModShift(2 + t + d + if qos > 0 then 2 else 0, 1, 0x1_0000_0000);
        len := (len + 1) % 0x1_0000_0000;
      }
    }

    /** mg_mqtt_pub */
    method Pub(topic: Str, data: Str, qos: int, retain: bool)
      requires mgr.mqttId < 0x1_0000
      modifies this`send, mgr
      ensures mgr.mqttId == if qos > 0 then NextId(old(mgr.mqttId)) else old(mgr.mqttId)
      ensures send == old(send) + Published(topic, data, qos, retain, mgr.mqttId, v5)
    {
      hide Header, U16, Flags;
      var len := RemainingLength(|topic|, |data|, qos);
      var flags := Flags(qos, retain);
      SendHeader(PUBLISH, flags, len);
      SendU16(|topic|);
      send := send + topic;
      if qos > 0 {
        mgr.mqttId := (mgr.mqttId + 1) % 0x1_0000;
        if mgr.mqttId == 0 {
          mgr.mqttId := mgr.mqttId + 1;
        }
        SendU16(mgr.mqttId);
      }
      if v5 {
        send := send + [0];
      }
      send := send + data;
      SixParts(old(send), Header(PUBLISH, flags, len), U16(|topic|), topic,
               if qos > 0 then U16(mgr.mqttId) else [], if v5 then [0] else [], data);
    }
  }

  lemma LengthStep(len: nat, room: nat)
    requires room > 0
    ensures LengthBytes(len, room) ==
      if len / 0x80 > 0 && room > 1 then [LengthByte(len)] + LengthBytes(len / 0x80, room - 1) else [LengthByte(len)]
  {
  }

  lemma SixParts(s: Str, a: Str, b: Str, c: Str, d: Str, e: Str, f: Str)
    ensures s + (a + (b + c + d + e + f)) == s + a + b + c + d + e + f
    ensures d == [] ==> s + a + b + c + d + e + f == s + a + b + c + e + f
    ensures e == [] ==> s + a + b + c + d + e + f == s + a + b + c + d + f
    ensures d == [] && e == [] ==> s + a + b + c + d + e + f == s + a + b + c + f
  {
  }

  // ----- parsing -----

  datatype Message = Message(cmd: nat, qos: nat, topic: Str, data: Str, id: nat, ack: nat, dgram: nat)

  datatype Outcome = Incomplete | Malformed | Parsed(m: Message)

  datatype Length = More | Bad | Is(n: nat, next: nat)

  /** The length bytes from `p` on; `k` of them were read before and gave `acc`. */
  function LengthAt(buf: Str, p: nat, k: nat, acc: nat): (r: Length)
    requires k < 4
    ensures r.Is? ==> p < r.next <= |buf| && r.next <= p + 4 - k
    decreases 4 - k
  {
    if p >= |buf| then More
    else
      var n := acc + buf[p] % 0x80 * Power128(k);
      if buf[p] < 0x80 then Is(n, p + 1)
      else if k + 1 >= 4 then Bad
      else LengthAt(buf, p + 1, k + 1, n)
  }

  function Read16(d: Str, p: nat): nat
    requires p + 2 <= |d|
  {
    d[p] as nat * 0x100 + d[p + 1]
  }

  /** Where the payload begins: version 5 skips the properties, but only before two more bytes. */
  function AfterProperties(d: Str, r: nat, version: nat): (s: nat)
    requires r <= |d|
    ensures r <= s
  {
    if version == 5 && r + 2 < |d| then r + 1 + d[r] else r
  }

  /** A PUBLISH datagram whose variable header begins at `p`. */
  function PublishAt(d: Str, p: nat, version: nat): Outcome
    requires 0 < p <= |d|
  {
    var qos := d[0] / 2 % 4;
    if p + 2 > |d| then Malformed
    else
      var t := Read16(d, p);
      var q := p + 2 + t;
      if q > |d| || (qos > 0 && q + 2 > |d|) then Malformed
      else
        var id := if qos > 0 then Read16(d, q) else 0;
        var r := if qos > 0 then q + 2 else q;
        var s := AfterProperties(d, r, version);
        if s > |d| then Malformed
        else Parsed(Message(PUBLISH, qos, d[p + 2..q], d[s..], id, 0, |d|))
  }

  function BodyAt(d: Str, p: nat, version: nat): (r: Outcome)
    requires 0 < p <= |d|
    ensures r != Incomplete && (r.Parsed? ==> r.m.dgram == |d|)
  {
    var cmd, qos := d[0] / 16, d[0] / 2 % 4;
    if cmd == CONNACK then
      if |d| - p < 2 then Malformed else Parsed(Message(cmd, qos, [], [], 0, d[p + 1], |d|))
    else if HasId(cmd) then
      if p + 2 > |d| then Malformed else Parsed(Message(cmd, qos, [], [], Read16(d, p), 0, |d|))
    else if cmd == PUBLISH then PublishAt(d, p, version)
    else Parsed(Message(cmd, qos, [], [], 0, 0, |d|))
  }

  function Parse(buf: Str, version: nat): (r: Outcome)
    ensures r.Parsed? ==> 2 <= r.m.dgram <= |buf|
  {
    if |buf| < 2 then Incomplete
    else
      match LengthAt(buf, 1, 0, 0)
      case More => Incomplete
      case Bad => Malformed
      case Is(n, p) => if p + n > |buf| then Incomplete else BodyAt(buf[..p + n], p, version)
  }

  /** mg_mqtt_parse */
  method MqttParse(buf: Str, version: nat) returns (r: Outcome)
    ensures r == Parse(buf, version)
  {
    hide BodyAt, LengthAt;
    if |buf| < 2 {
      return Incomplete;
    }
    var malformed, lc, n, p := LengthLoop(buf);
    if malformed {
      return Malformed;
    }
    var end := p + n;
    if lc >= 0x80 || end > |buf| {
      return Incomplete;
    }
    r := ParseBody(buf, p, end, version);
  }

  /** The loop of mg_mqtt_parse: the last length byte, the length, and the position after it. */
  method LengthLoop(buf: Str) returns (malformed: bool, lc: nat, n: nat, p: nat)
    requires |buf| >= 2
    ensures if malformed then LengthAt(buf, 1, 0, 0) == Bad
            else if lc >= 0x80 then LengthAt(buf, 1, 0, 0) == More
            else LengthAt(buf, 1, 0, 0) == Is(n, p)
  {
    hide Power128, LengthAt;
    var lenLen: nat := 0;
    malformed, lc, n, p := false, 0, 0, 1;
    while p < |buf|
      invariant 1 <= p <= |buf| && lenLen < 4 && (p > 1 ==> lc >= 0x80)
      invariant LengthAt(buf, p, lenLen, n) == LengthAt(buf, 1, 0, 0)
      decreases |buf| - p
    {
      LengthAtStep(buf, p, lenLen, n);
      lc := buf[p];
      p := p + 1;
      n := n + lc % 0x80 * Power128(lenLen);
      lenLen := lenLen + 1;
      if lc < 0x80 {
        return;
      }
      if lenLen >= 4 {
        return true, lc, n, p;
      }
    }
    LengthEnds(buf, p, lenLen, n);
  }

  /** The switch of mg_mqtt_parse. */
  method ParseBody(buf: Str, start: nat, end: nat, version: nat) returns (r: Outcome)
    requires 0 < start <= end <= |buf|
    ensures r == BodyAt(buf[..end], start, version)
  {
    hide PublishAt;
    var p := start;
    var cmd, qos := buf[0] / 16, buf[0] / 2 % 4;
    if cmd == CONNACK {
      if end - p < 2 {
        return Malformed;
      }
      return Parsed(Message(cmd, qos, [], [], 0, buf[p + 1], end));
    } else if HasId(cmd) {
      if p + 2 > end {
        return Malformed;
      }
      return Parsed(Message(cmd, qos, [], [], buf[p] as nat * 0x100 + buf[p + 1], 0, end));
    } else if cmd == PUBLISH {
      r := ParsePublish(buf, p, end, version);
      return;
    }
    return Parsed(Message(cmd, qos, [], [], 0, 0, end));
  }

  /** The PUBLISH case of mg_mqtt_parse. */
  method ParsePublish(buf: Str, start: nat, end: nat, version: nat) returns (r: Outcome)
    requires 0 < start <= end <= |buf|
    ensures r == PublishAt(buf[..end], start, version)
  {
    ghost var d := buf[..end];
    var p, qos := start, buf[0] / 2 % 4;
    if p + 2 > end {
      return Malformed;
    }
    var t, id := buf[p] as nat * 0x100 + buf[p + 1], 0;
    var topic := p + 2;
    p := p + 2 + t;
    if p > end {
      return Malformed;
    }
    assert d[topic..p] == buf[topic..p];
    if qos > 0 {
      if p + 2 > end {
        return Malformed;
      }
      id := buf[p] as nat * 0x100 + buf[p + 1];
      p := p + 2;
    }
    if p > end {
      return Malformed;
    }
    if version == 5 && p + 2 < end {
      p := p + 1 + buf[p];
    }
    if p > end {
      return Malformed;
    }
    assert d[p..] == buf[p..end];
    return Parsed(Message(PUBLISH, qos, buf[topic..topic + t], buf[p..end], id, 0, end));
  }

  // ----- more bytes change no verdict -----

  lemma {:induction false} LengthStable(a: Str, b: Str, p: nat, k: nat, acc: nat)
    requires k < 4 && LengthAt(a, p, k, acc) != More
    ensures LengthAt(a + b, p, k, acc) == LengthAt(a, p, k, acc)
    decreases 4 - k
  {
    hide Power128;
    if a[p] >= 0x80 && k + 1 < 4 {
      LengthStable(a, b, p + 1, k + 1, acc + a[p] % 0x80 * Power128(k));
    }
  }

  /** Once there is a verdict other than INCOMPLETE, further bytes do not change it. */
  lemma ParseStable(a: Str, b: Str, version: nat)
    requires Parse(a, version) != Incomplete
    ensures Parse(a + b, version) == Parse(a, version)
  {
    hide LengthAt, BodyAt;
    LengthStable(a, b, 1, 0, 0);
    var l := LengthAt(a, 1, 0, 0);
    if l.Is? {
      assert (a + b)[..l.next + l.n] == a[..l.next + l.n];
    }
  }

  // ----- what mg_mqtt_pub sends is parsed -----

  lemma {:induction false} LengthReads(len: nat, pre: Str, rest: Str, k: nat, acc: nat)
    requires k < 4 && len * Power128(k) < MAX_REMAINING
    ensures var bytes := LengthBytes(len, 4 - k);
      LengthAt(pre + bytes + rest, |pre|, k, acc) == Is(acc + len * Power128(k), |pre| + |bytes|)
    decreases 4 - k
  {
    hide *;
    var bytes := LengthBytes(len, 4 - k);
    var buf := pre + bytes + rest;
    LengthStep(len, 4 - k);
    LengthAtStep(buf, |pre|, k, acc);
    assert buf[|pre|] == bytes[0] == LengthByte(len);
    LengthByteParts(len);
    if len >= 0x80 {
      RoomForMore(len, k);
      OneDigit(len, k);
      var q, more := len / 0x80, LengthBytes(len / 0x80, 3 - k);
      assert pre + [bytes[0]] + more + rest == buf;
      LengthReads(q, pre + [bytes[0]], rest, k + 1, acc + len % 0x80 * Power128(k));
    }
  }

  lemma OneDigit(len: nat, k: nat)
    ensures len * Power128(k) == len % 0x80 * Power128(k) + len / 0x80 * Power128(k + 1)
  {
    Recombine(len, len / 0x80, len % 0x80, Power128(k));
  }

  lemma LengthByteParts(len: nat)
    ensures LengthByte(len) % 0x80 == len % 0x80 && (LengthByte(len) < 0x80 <==> len < 0x80)
  {
  }

  lemma LengthAtStep(buf: Str, p: nat, k: nat, acc: nat)
    requires k < 4 && p < |buf|
    ensures LengthAt(buf, p, k, acc) ==
      var n := acc + buf[p] % 0x80 * Power128(k);
      if buf[p] < 0x80 then Is(n, p + 1) else if k + 1 >= 4 then Bad else LengthAt(buf, p + 1, k + 1, n)
  {
  }

  lemma LengthEnds(buf: Str, p: nat, k: nat, acc: nat)
    requires k < 4 && p >= |buf|
    ensures LengthAt(buf, p, k, acc) == More
  {
  }

  lemma RoomForMore(len: nat, k: nat)
    requires k < 4 && len >= 0x80 && len * Power128(k) < MAX_REMAINING
    ensures k < 3 && Power128(k + 1) == 0x80 * Power128(k) && len / 0x80 * Power128(k + 1) < MAX_REMAINING
  {
    var p := Power128(k);
    assert len * p >= 0x80 * p;
    assert Power128(1) == 0x80 && Power128(2) == 0x4000 && Power128(3) == 0x20_0000;
    Recombine(len, len / 0x80, len % 0x80, p);
  }

  /** A datagram with its header, and anything after it. */
  lemma DatagramParses(cmd: nat, flags: nat, body: Str, rest: Str, version: nat)
    requires cmd < 16 && flags < 16 && |body| < MAX_REMAINING
    ensures var h := Header(cmd, flags, |body|);
      Parse(h + body + rest, version) == BodyAt(h + body, |h|, version)
  {
    hide LengthAt, BodyAt, LengthBytes;
    var h := Header(cmd, flags, |body|);
    var l := LengthBytes(|body|, 4);
    LengthReads(|body|, [cmd * 16 + flags], body + rest, 0, 0);
    assert h + body + rest == [cmd * 16 + flags] + l + (body + rest);
    assert (h + body + rest)[..|h| + |body|] == h + body;
  }

  lemma U16Reads(v: nat, d: Str, p: nat)
    requires v < 0x1_0000 && At(d, p, U16(v))
    ensures p + 2 <= |d| && Read16(d, p) == v
  {
    AtIndex(d, p, U16(v), 0);
    AtIndex(d, p, U16(v), 1);
  }

  /** What the receiver makes of the bytes after the identifier: version 5 skips the length only before two more. */
  function Seen(data: Str, v5: bool): Str {
    if v5 && |data| < 2 then [0] + data else data
  }

  /** Topic and identifier of a PUBLISH. */
  function PublishStart(topic: Str, qos: int, id: nat): Str {
    U16(|topic|) + topic + if qos > 0 then U16(id) else []
  }

  /** Where the parts of a datagram stand. */
  lemma Layout(topic: Str, qos: int, id: nat, tail: Str, h: Str)
    ensures var d := h + PublishStart(topic, qos, id) + tail;
      var q := |h| + 2 + |topic|;
      var r := if qos > 0 then q + 2 else q;
      r + |tail| == |d| && At(d, |h|, U16(|topic|)) && d[|h| + 2..q] == topic && (qos > 0 ==> At(d, q, U16(id))) &&
      d[r..] == tail
  {
    hide U16;
  }

  /** What is made of the bytes behind topic and identifier: version 5 skips as many as the first one says, and it. */
  function TailData(tail: Str, version: nat): Option<Str> {
    if version != 5 || |tail| <= 2 then Some(tail)
    else if 1 + tail[0] > |tail| then None
    else Some(tail[1 + tail[0]..])
  }

  lemma PublishReads(topic: Str, qos: int, id: nat, tail: Str, h: Str, version: nat)
    requires 0 <= qos <= 3 && |topic| < 0x1_0000 && id < 0x1_0000 && |h| >= 1 && h[0] / 2 % 4 == qos
    ensures var d := h + PublishStart(topic, qos, id) + tail;
      PublishAt(d, |h|, version) ==
        match TailData(tail, version)
        case None => Malformed
        case Some(data) => Parsed(Message(PUBLISH, qos, topic, data, if qos > 0 then id else 0, 0, |d|))
  {
    hide U16, Read16, PublishStart, At, AfterProperties, TailData;
    var d := h + PublishStart(topic, qos, id) + tail;
    var q := |h| + 2 + |topic|;
    var r := if qos > 0 then q + 2 else q;
    Layout(topic, qos, id, tail, h);
    assert d[0] == h[0];
    U16Reads(|topic|, d, |h|);
    if qos > 0 {
      U16Reads(id, d, q);
    }
    TailBehind(d, r, tail, version);
  }

  lemma TailBehind(d: Str, r: nat, tail: Str, version: nat)
    requires r <= |d| && d[r..] == tail
    ensures var s, data := AfterProperties(d, r, version), TailData(tail, version);
      if s > |d| then data.None? else data == Some(d[s..])
  {
    if version == 5 && |tail| > 2 {
      assert tail[0] == d[r] && (r + 1 + d[r] <= |d| ==> d[r + 1 + d[r]..] == tail[1 + tail[0]..]);
    }
  }

  lemma PublishBodyParts(topic: Str, data: Str, qos: int, id: nat, v5: bool)
    ensures var tail := (if v5 then [0] else []) + data;
      PublishBody(topic, data, qos, id, v5) == PublishStart(topic, qos, id) + tail &&
      TailData(tail, if v5 then 5 else 4) == Some(Seen(data, v5))
  {
    hide U16;
    var tail := (if v5 then [0] else []) + data;
    var start := PublishStart(topic, qos, id);
    assert start == U16(|topic|) + topic + (if qos > 0 then U16(id) else []);
    Assoc(start, if v5 then [0] else [], data);
    if v5 { assert tail[0] == 0 && tail[1..] == data; } else { assert tail == data; }
  }

  lemma BodyReads(topic: Str, data: Str, qos: int, retain: bool, id: nat, v5: bool, h: Str)
    requires 0 <= qos <= 3 && |topic| < 0x1_0000 && id < 0x1_0000 && |h| >= 1
    requires h[0] == PUBLISH * 16 + Flags(qos, retain)
    ensures BodyAt(h + PublishBody(topic, data, qos, id, v5), |h|, if v5 then 5 else 4) ==
      Parsed(Message(PUBLISH, qos, topic, Seen(data, v5), if qos > 0 then id else 0, 0,
                     |h| + |PublishBody(topic, data, qos, id, v5)|))
  {
    hide PublishStart, PublishBody, PublishAt, TailData, Seen;
    var d := h + PublishBody(topic, data, qos, id, v5);
    assert d[0] == h[0] && d[0] / 16 == PUBLISH && d[0] / 2 % 4 == qos;
    var tail := (if v5 then [0] else []) + data;
    PublishBodyParts(topic, data, qos, id, v5);
    Assoc(h, PublishStart(topic, qos, id), tail);
    PublishReads(topic, qos, id, tail, h, if v5 then 5 else 4);
  }

  // ----- every other datagram, from its bytes -----

  /** Section 2.2.3 of MQTT 3.1.1: where the number of length bytes changes, and an example in between. */
  lemma LengthTable()
    ensures LengthBytes(0, 4) == [0x00] && LengthBytes(127, 4) == [0x7f]
    ensures LengthBytes(128, 4) == [0x80, 0x01] && LengthBytes(16383, 4) == [0xff, 0x7f]
    ensures LengthBytes(321, 4) == [0xc1, 0x02]
    ensures LengthBytes(16384, 4) == [0x80, 0x80, 0x01] && LengthBytes(2097151, 4) == [0xff, 0xff, 0x7f]
    ensures LengthBytes(2097152, 4) == [0x80, 0x80, 0x80, 0x01]
    ensures LengthBytes(268435455, 4) == [0xff, 0xff, 0xff, 0x7f]
  {
    var one: Str, full: Str := [0x01], [0x7f];
    assert LengthBytes(1, 3) == LengthBytes(1, 2) == LengthBytes(1, 1) == one;
    assert LengthBytes(127, 3) == LengthBytes(127, 2) == LengthBytes(127, 1) == full;
    assert LengthBytes(128, 3) == [0x80] + one && LengthBytes(16383, 3) == [0xff] + full;
    assert LengthBytes(128, 2) == [0x80] + one && LengthBytes(16383, 2) == [0xff] + full;
    assert LengthBytes(16384, 3) == [0x80] + LengthBytes(128, 2);
    assert LengthBytes(2097151, 3) == [0xff] + LengthBytes(16383, 2);
  }

  /** The high byte is sent first. */
  lemma HighByteFirst(v: nat)
    requires v < 0x1_0000
    ensures U16(v)[0] as nat * 0x100 + U16(v)[1] == v
  {
  }

  /** The example of section 3.3.2: topic a/b, identifier 10, and quality of service 1 in the first byte. */
  lemma PublishExample(data: Str, retain: bool)
    requires |data| <= 120
    ensures Published([0x61, 0x2f, 0x62], data, 1, retain, 10, false) ==
      [if retain then 0x33 else 0x32, 7 + |data|] + [0x00, 0x03, 0x61, 0x2f, 0x62, 0x00, 0x0a] + data
  {
    var n := 7 + |data|;
    assert LengthBytes(n, 4) == [n];
    hide LengthBytes;
    assert PublishBody([0x61, 0x2f, 0x62], data, 1, 10, false) == [0x00, 0x03, 0x61, 0x2f, 0x62, 0x00, 0x0a] + data;
  }

  function IdAfter(id: nat, n: nat): (r: nat)
    requires id < 0x1_0000
    ensures r < 0x1_0000
  {
    if n == 0 then id else NextId(IdAfter(id, n - 1))
  }

  /** The identifiers go through 1 to 65535 in a circle. */
  lemma {:induction false} IdentifiersCircle(id: nat, n: nat)
    requires 0 < id < 0x1_0000
    ensures IdAfter(id, n) == (id - 1 + n) % 65535 + 1
  {
    if n > 0 {
      IdentifiersCircle(id, n - 1);
      ModAdd(id - 1 + (n - 1), 1, 65535);
    }
  }

  lemma FirstByte(cmd: nat, flags: nat, body: Str)
    requires cmd < 16 && flags < 16
    ensures var d := Header(cmd, flags, |body|) + body; d[0] / 16 == cmd && d[0] / 2 % 4 == flags / 2 % 4
  {
    hide LengthBytes;
  }

  /** The commands with a packet identifier: it is in the first two bytes of the body, the high one first. */
  lemma IdParses(cmd: nat, flags: nat, hi: Byte, lo: Byte, more: Str, rest: Str, version: nat)
    requires 4 <= cmd <= 11 && flags < 16 && 2 + |more| < MAX_REMAINING
    ensures var body := [hi, lo] + more;
      var h := Header(cmd, flags, |body|);
      Parse(h + body + rest, version) ==
        Parsed(Message(cmd, flags / 2 % 4, [], [], 0x100 * hi as nat + lo, 0, |h| + |body|))
  {
    hide Parse, Header;
    var body := [hi, lo] + more;
    var h := Header(cmd, flags, |body|);
    DatagramParses(cmd, flags, body, rest, version);
    FirstByte(cmd, flags, body);
    assert (h + body)[|h|] == hi && (h + body)[|h| + 1] == lo;
  }

  /** The answer of a CONNACK is the second byte of its body. */
  lemma ConnackAnswers(flags: nat, session: Byte, ack: Byte, more: Str, rest: Str, version: nat)
    requires flags < 16 && 2 + |more| < MAX_REMAINING
    ensures var body := [session, ack] + more;
      var h := Header(2, flags, |body|);
      Parse(h + body + rest, version) == Parsed(Message(2, flags / 2 % 4, [], [], 0, ack, |h| + |body|))
  {
    hide Parse, Header;
    var body := [session, ack] + more;
    var h := Header(2, flags, |body|);
    DatagramParses(2, flags, body, rest, version);
    FirstByte(2, flags, body);
    assert (h + body)[|h| + 1] == ack;
  }

  /** All of them are malformed with fewer than two bytes; the commands 0, 1 and from 12 on are not looked into. */
  lemma OthersParse(cmd: nat, flags: nat, body: Str, rest: Str, version: nat)
    requires cmd < 16 && cmd != 3 && flags < 16 && |body| < MAX_REMAINING
    requires 2 <= cmd <= 11 ==> |body| < 2
    ensures var h := Header(cmd, flags, |body|);
      Parse(h + body + rest, version) ==
        if 2 <= cmd <= 11 then Malformed else Parsed(Message(cmd, flags / 2 % 4, [], [], 0, 0, |h| + |body|))
  {
    hide Parse, Header;
    DatagramParses(cmd, flags, body, rest, version);
    FirstByte(cmd, flags, body);
  }

  /**
   * Any PUBLISH, whoever sent it: in version 5 the byte behind the identifier is taken for the length of the
   * properties, but only where two more bytes follow it.
   */
  lemma PublishParses(flags: nat, topic: Str, id: nat, tail: Str, rest: Str, version: nat)
    requires flags < 16 && |topic| < 0x1_0000 && id < 0x1_0000
    requires |PublishStart(topic, flags / 2 % 4, id) + tail| < MAX_REMAINING
    ensures var body, qos := PublishStart(topic, flags / 2 % 4, id) + tail, flags / 2 % 4;
      var h := Header(3, flags, |body|);
      Parse(h + body + rest, version) ==
        if version == 5 && |tail| > 2 && 1 + tail[0] > |tail| then Malformed
        else Parsed(Message(3, qos, topic, if version == 5 && |tail| > 2 then tail[1 + tail[0]..] else tail,
                            if qos > 0 then id else 0, 0, |h| + |body|))
  {
    hide Parse, PublishStart, PublishAt;
    var body, qos := PublishStart(topic, flags / 2 % 4, id) + tail, flags / 2 % 4;
    var h := Header(3, flags, |body|);
    DatagramParses(3, flags, body, rest, version);
    FirstByte(3, flags, body);
    hide Header;
    assert (h + body)[0] == h[0];
    Assoc(h, PublishStart(topic, qos, id), tail);
    PublishReads(topic, qos, id, tail, h, version);
  }

  /**
   * The properties of version 5 have a length of one to four bytes; the payload comes back exactly if it is one byte,
   * and two bytes or more follow it.
   */
  lemma PropertiesAreSkippedIff(flags: nat, topic: Str, id: nat, props: Str, data: Str, rest: Str)
    requires flags < 16 && |topic| < 0x1_0000 && id < 0x1_0000 && |props| < MAX_REMAINING
    requires var tail := LengthBytes(|props|, 4) + props + data;
      |PublishStart(topic, flags / 2 % 4, id) + tail| < MAX_REMAINING
    ensures var tail := LengthBytes(|props|, 4) + props + data;
      var body := PublishStart(topic, flags / 2 % 4, id) + tail;
      var o := Parse(Header(3, flags, |body|) + body + rest, 5);
      o.Parsed? && (o.m.data == data <==> |props| < 128 && |props| + |data| >= 2)
  {
    hide Parse, PublishStart, Header;
    var l := LengthBytes(|props|, 4);
    var tail := l + props + data;
    PublishParses(flags, topic, id, tail, rest, 5);
    assert tail[0] == l[0];
    if |props| < 128 {
      assert l == [|props|] && tail[1 + |props|..] == data;
    } else {
      assert |l| >= 2 && l[0] == |props| % 0x80 + 0x80;
    }
  }

  /**
   * A PUBLISH is parsed back with any bytes after it: topic, identifier, QoS and length for both versions, and
   * the payload as `Seen`.
   */
  lemma PublishedParses(topic: Str, data: Str, qos: int, retain: bool, id: nat, v5: bool, rest: Str)
    requires 0 <= qos <= 3 && |topic| < 0x1_0000 && id < 0x1_0000
    requires |PublishBody(topic, data, qos, id, v5)| < MAX_REMAINING
    ensures var sent := Published(topic, data, qos, retain, id, v5);
      Parse(sent + rest, if v5 then 5 else 4) ==
      Parsed(Message(PUBLISH, qos, topic, Seen(data, v5), if qos > 0 then id else 0, 0, |sent|))
  {
    hide PublishBody, Parse, BodyAt;
    var body := PublishBody(topic, data, qos, id, v5);
    var flags := Flags(qos, retain);
    ModUnique(|body|, 0x1_0000_0000, 0, |body|);
    DatagramParses(PUBLISH, flags, body, rest, if v5 then 5 else 4);
    BodyReads(topic, data, qos, retain, id, v5, Header(PUBLISH, flags, |body|));
  }

  /** The payload comes back exactly for version 4 always, and for version 5 if it has two bytes or more. */
  lemma PayloadReturnsIff(topic: Str, data: Str, qos: int, retain: bool, id: nat, v5: bool, rest: Str)
    requires 0 <= qos <= 3 && |topic| < 0x1_0000 && id < 0x1_0000
    requires |PublishBody(topic, data, qos, id, v5)| < MAX_REMAINING
    ensures var o := Parse(Published(topic, data, qos, retain, id, v5) + rest, if v5 then 5 else 4);
      o.Parsed? && (o.m.data == data <==> !v5 || |data| >= 2)
  {
    hide Parse, Published, PublishBody;
    PublishedParses(topic, data, qos, retain, id, v5, rest);
    assert v5 && |data| < 2 ==> |Seen(data, v5)| == |data| + 1;
  }

  /** Every strict prefix is incomplete. */
  lemma PrefixIsIncomplete(topic: Str, data: Str, qos: int, retain: bool, id: nat, v5: bool, n: nat)
    requires 0 <= qos <= 3 && |topic| < 0x1_0000 && id < 0x1_0000
    requires |PublishBody(topic, data, qos, id, v5)| < MAX_REMAINING
    requires n < |Published(topic, data, qos, retain, id, v5)|
    ensures Parse(Published(topic, data, qos, retain, id, v5)[..n], if v5 then 5 else 4) == Incomplete
  {
    hide Parse, Published, PublishBody;
    var sent, version := Published(topic, data, qos, retain, id, v5), if v5 then 5 else 4;
    PublishedParses(topic, data, qos, retain, id, v5, []);
    assert sent + [] == sent && sent[..n] + sent[n..] == sent;
    if Parse(sent[..n], version) != Incomplete {
      ParseStable(sent[..n], sent[n..], version);
    }
  }

  // ----- the receive loop -----

  /** A CONNACK with a return code other than 0: mqtt_cb sets is_closing and goes on with the loop. */
  predicate Refused(m: Message) { m.cmd == CONNACK && m.ack != 0 }

  /** What mqtt_cb makes of a buffer: the messages, the bytes kept, and whether it stopped at a malformed datagram. */
  datatype Drained = Drained(msgs: seq<Message>, rest: Str, malformed: bool)

  /** is_closing after the loop: the connection is closed before it is read again. */
  predicate Closes(d: Drained) { d.malformed || exists i :: 0 <= i < |d.msgs| && Refused(d.msgs[i]) }

  function Drain(buf: Str, version: nat): (r: Drained)
    decreases |buf|
  {
    match Parse(buf, version)
    case Incomplete => Drained([], buf, false)
    case Malformed => Drained([], buf, true)
    case Parsed(m) =>
      var more := Drain(buf[m.dgram..], version);
      more.(msgs := [m] + more.msgs)
  }

  /** A CONNACK alone closes the connection exactly if its code is not 0. */
  lemma ConnackClosesIff(flags: nat, session: Byte, ack: Byte, more: Str, version: nat)
    requires flags < 16 && 2 + |more| < MAX_REMAINING
    ensures var body := [session, ack] + more;
      Closes(Drain(Header(2, flags, |body|) + body, version)) <==> ack != 0
  {
    hide Parse, Header;
    var body := [session, ack] + more;
    var d := Header(2, flags, |body|) + body;
    ConnackAnswers(flags, session, ack, more, [], version);
    assert d + [] == d && d[|d|..] == [];
    TooShort(version);
    var m := Message(2, flags / 2 % 4, [], [], 0, ack, |d|);
    assert Drain(d, version).msgs == [m] && !Drain(d, version).malformed;
    if ack != 0 { assert Refused(Drain(d, version).msgs[0]); }
  }

  class Receiver {
    const version: nat
    var recv: Str
    var closing: bool
    var msgs: seq<Message>

    constructor (version: nat)
      ensures this.version == version && recv == [] && !closing && msgs == []
    {
      this.version, recv, closing, msgs := version, [], false, [];
    }

    /** MG_EV_READ with new bytes at the end of the buffer: the loop of mqtt_cb. A closing connection is not read. */
    method Read(bytes: Str)
      requires !closing
      modifies this
      ensures var d := Drain(old(recv) + bytes, version);
        msgs == old(msgs) + d.msgs && recv == d.rest && closing == Closes(d)
    {
      hide Parse;
      recv := recv + bytes;
      ghost var all := recv;
      ghost var done: seq<Message> := [];
      assert done + Drain(recv, version).msgs == Drain(all, version).msgs;
      while true
        invariant msgs == old(msgs) + done && (closing <==> exists i :: 0 <= i < |done| && Refused(done[i]))
        invariant done + Drain(recv, version).msgs == Drain(all, version).msgs
        invariant Drain(recv, version).rest == Drain(all, version).rest
        invariant Drain(recv, version).malformed == Drain(all, version).malformed
        decreases |recv|
      {
        var o := MqttParse(recv, version);
        if o == Malformed {
          assert done == Drain(all, version).msgs;
          closing := true;
          return;
        } else if o == Incomplete {
          assert done == Drain(all, version).msgs;
          return;
        }
        closing := closing || (o.m.cmd == CONNACK && o.m.ack != 0);
        OneMoreMessage(done, o.m);
        Assoc(done, [o.m], Drain(recv[o.m.dgram..], version).msgs);
        Assoc(old(msgs), done, [o.m]);
        done := done + [o.m];
        msgs := msgs + [o.m];
        recv := recv[o.m.dgram..];
      }
    }
  }

  lemma OneMoreMessage(ms: seq<Message>, m: Message)
    ensures (exists i :: 0 <= i < |ms + [m]| && Refused((ms + [m])[i])) <==>
            (exists i :: 0 <= i < |ms| && Refused(ms[i])) || Refused(m)
  {
    if exists i :: 0 <= i < |ms| && Refused(ms[i]) {
      var i :| 0 <= i < |ms| && Refused(ms[i]);
      assert Refused((ms + [m])[i]);
    }
    if Refused(m) {
      assert Refused((ms + [m])[|ms|]);
    }
  }

  /** Bytes that arrive later are drained as if they had been there. */
  lemma {:induction false} DrainAppend(a: Str, b: Str, version: nat)
    ensures var d := Drain(a, version);
      Drain(a + b, version) ==
        if d.malformed then Drained(d.msgs, d.rest + b, true)
        else (var more := Drain(d.rest + b, version);
              more.(msgs := d.msgs + more.msgs))
    decreases |a|
  {
    hide Parse;
    var o := Parse(a, version);
    if o != Incomplete {
      ParseStable(a, b, version);
      if o.Parsed? {
        DgramInside(a, version);
        var tail := a[o.m.dgram..];
        assert (a + b)[o.m.dgram..] == tail + b;
        DrainAppend(tail, b, version);
        var d := Drain(tail, version);
        Assoc([o.m], d.msgs, if d.malformed then [] else Drain(d.rest + b, version).msgs);
      }
    } else {
      assert [] + Drain(a + b, version).msgs == Drain(a + b, version).msgs;
    }
  }

  lemma DgramInside(buf: Str, version: nat)
    requires Parse(buf, version).Parsed?
    ensures 2 <= Parse(buf, version).m.dgram <= |buf|
  {
  }

  /** The reads, one after the other, until one closes the connection. */
  function Reads(rest: Str, parts: seq<Str>, version: nat): Drained
    decreases |parts|
  {
    if parts == [] then Drained([], rest, false)
    else
      var d := Drain(rest + parts[0], version);
      if Closes(d) then d
      else
        var more := Reads(d.rest, parts[1..], version);
        more.(msgs := d.msgs + more.msgs)
  }

  /** Nothing complete stands behind a refused CONNACK. */
  predicate RefusalIsLast(ms: seq<Message>) {
    forall i :: 0 <= i < |ms| - 1 ==> !Refused(ms[i])
  }

  /** The same messages, the same closing, and the same bytes kept while the connection is open. */
  predicate Agrees(r: Drained, whole: Drained) {
    r.msgs == whole.msgs && (Closes(r) <==> Closes(whole)) && (!Closes(r) ==> r.rest == whole.rest)
  }

  lemma NothingBehind(ms: seq<Message>, more: seq<Message>)
    requires RefusalIsLast(ms + more) && exists i :: 0 <= i < |ms| && Refused(ms[i])
    ensures more == []
  {
    var i :| 0 <= i < |ms| && Refused(ms[i]);
    assert Refused((ms + more)[i]);
  }

  lemma ClosesJoined(ms: seq<Message>, d: Drained)
    requires !exists i :: 0 <= i < |ms| && Refused(ms[i])
    ensures Closes(d.(msgs := ms + d.msgs)) <==> Closes(d)
    ensures RefusalIsLast(ms + d.msgs) ==> RefusalIsLast(d.msgs)
  {
    var e := d.(msgs := ms + d.msgs);
    if exists i :: 0 <= i < |d.msgs| && Refused(d.msgs[i]) {
      var i :| 0 <= i < |d.msgs| && Refused(d.msgs[i]);
      assert Refused(e.msgs[|ms| + i]);
    }
    if RefusalIsLast(e.msgs) {
      forall i | 0 <= i < |d.msgs| - 1 ensures !Refused(d.msgs[i]) {
        assert e.msgs[|ms| + i] == d.msgs[i];
      }
    }
  }

  /** Then the messages delivered, and whether the connection is closed, do not depend on the cuts. */
  lemma {:induction false} CuttingDoesNotMatter(rest: Str, parts: seq<Str>, version: nat)
    requires Drain(rest, version) == Drained([], rest, false)
    requires RefusalIsLast(Drain(rest + Concat(parts), version).msgs)
    ensures Agrees(Reads(rest, parts, version), Drain(rest + Concat(parts), version))
    decreases |parts|
  {
    hide Drain, RefusalIsLast;
    if parts == [] {
      assert rest + [] == rest;
    } else {
      var d := Drain(rest + parts[0], version);
      Assoc(rest, parts[0], Concat(parts[1..]));
      DrainAppend(rest + parts[0], Concat(parts[1..]), version);
      if !d.malformed {
        var more := Drain(d.rest + Concat(parts[1..]), version);
        if Closes(d) {
          NothingBehind(d.msgs, more.msgs);
          assert d.msgs + [] == d.msgs;
        } else {
          ClosesJoined(d.msgs, more);
          DrainedIsStable(rest + parts[0], version);
          CuttingDoesNotMatter(d.rest, parts[1..], version);
          ClosesJoined(d.msgs, Reads(d.rest, parts[1..], version));
        }
      }
    }
  }

  /** What a drain leaves is an incomplete datagram. */
  lemma {:induction false} DrainedIsStable(buf: Str, version: nat)
    requires !Drain(buf, version).malformed
    ensures Drain(Drain(buf, version).rest, version) == Drained([], Drain(buf, version).rest, false)
    decreases |buf|
  {
    hide Parse;
    var o := Parse(buf, version);
    if o.Parsed? {
      DgramInside(buf, version);
      DrainedIsStable(buf[o.m.dgram..], version);
    }
  }

  /** The bytes up to and including the `i`-th message. */
  lemma {:induction false} CutBehind(buf: Str, version: nat, i: nat) returns (k: nat)
    requires i < |Drain(buf, version).msgs|
    ensures k <= |buf| && Drain(buf[..k], version) == Drained(Drain(buf, version).msgs[..i + 1], [], false)
    decreases i
  {
    hide Parse;
    var m := Parse(buf, version).m;
    DgramInside(buf, version);
    DatagramAlone(buf, version);
    var tail := buf[m.dgram..];
    if i == 0 {
      k := m.dgram;
      assert buf[..k][m.dgram..] == [];
      TooShort(version);
    } else {
      k := CutBehind(tail, version, i - 1);
      k := k + m.dgram;
      assert buf[..k] == buf[..m.dgram] + tail[..k - m.dgram];
      ParseStable(buf[..m.dgram], tail[..k - m.dgram], version);
      assert buf[..k][m.dgram..] == tail[..k - m.dgram];
    }
  }

  /** The verdict on a datagram is that on its own bytes. */
  lemma DatagramAlone(buf: Str, version: nat)
    requires Parse(buf, version).Parsed?
    ensures var n := Parse(buf, version).m.dgram;
      n <= |buf| && Parse(buf[..n], version) == Parse(buf, version)
  {
    hide BodyAt;
    var n := Parse(buf, version).m.dgram;
    LengthInside(buf, n, 1, 0, 0);
    assert buf[..n][..n] == buf[..n];
  }

  lemma {:induction false} LengthInside(buf: Str, n: nat, p: nat, k: nat, acc: nat)
    requires k < 4 && LengthAt(buf, p, k, acc).Is? && LengthAt(buf, p, k, acc).next <= n <= |buf|
    ensures LengthAt(buf[..n], p, k, acc) == LengthAt(buf, p, k, acc)
    decreases 4 - k
  {
    hide Power128;
    if buf[p] >= 0x80 && k + 1 < 4 {
      LengthInside(buf, n, p + 1, k + 1, acc + buf[p] % 0x80 * Power128(k));
    }
  }

  lemma Empty(version: nat)
    ensures Drain([], version) == Drained([], [], false)
  {
    TooShort(version);
  }

  /** A cut behind a refused CONNACK hides what stands behind it. */
  lemma CutHides(buf: Str, version: nat, i: nat) returns (parts: seq<Str>)
    requires i < |Drain(buf, version).msgs| - 1 && Refused(Drain(buf, version).msgs[i])
    ensures Concat(parts) == buf && Reads([], parts, version).msgs == Drain(buf, version).msgs[..i + 1]
  {
    hide Drain, Parse;
    var k := CutBehind(buf, version, i);
    parts := [buf[..k], buf[k..]];
    assert parts[1..] == [buf[k..]] && parts[1..][1..] == [];
    assert Concat(parts[1..][1..]) == [] && Concat(parts[1..]) == buf[k..] + [];
    assert Concat(parts) == buf[..k] + Concat(parts[1..]);
    var d := Drain(buf[..k], version);
    assert [] + buf[..k] == buf[..k];
    assert Refused(d.msgs[i]);
  }

  /**
   * For every byte string: the messages and the closing are the same for all ways of cutting it into reads exactly
   * if nothing complete stands behind a refused CONNACK.
   */
  lemma CuttingDoesNotMatterIff(buf: Str, version: nat)
    ensures (forall parts :: Concat(parts) == buf ==> Agrees(Reads([], parts, version), Drain(buf, version))) <==>
            RefusalIsLast(Drain(buf, version).msgs)
  {
    hide Drain;
    Empty(version);
    if RefusalIsLast(Drain(buf, version).msgs) {
      forall parts | Concat(parts) == buf ensures Agrees(Reads([], parts, version), Drain(buf, version)) {
        assert [] + buf == buf;
        CuttingDoesNotMatter([], parts, version);
      }
    } else {
      var i :| 0 <= i < |Drain(buf, version).msgs| - 1 && Refused(Drain(buf, version).msgs[i]);
      var parts := CutHides(buf, version, i);
      assert !Agrees(Reads([], parts, version), Drain(buf, version));
    }
  }

  /** A refused CONNACK and an empty PUBLISH: in one read both are delivered, cut between them only the first. */
  lemma RefusalIsCutDependent()
    ensures var connack: Str, publish: Str := [0x20, 2, 0, 5], [0x30, 2, 0, 0];
      |Reads([], [connack + publish], 4).msgs| == 2 && |Reads([], [connack, publish], 4).msgs| == 1
  {
    hide Drain;
    var connack: Str, publish: Str := [0x20, 2, 0, 5], [0x30, 2, 0, 0];
    var both := connack + publish;
    TwoDatagrams();
    var m := Message(CONNACK, 0, [], [], 0, 5, 4);
    assert Refused(m) && Drain(both, 4).msgs[0] == m && Drain(connack, 4).msgs[0] == m;
    assert [] + both == both && [] + connack == connack;
  }

  lemma TwoDatagrams()
    ensures var connack: Str, publish: Str := [0x20, 2, 0, 5], [0x30, 2, 0, 0];
      var m, e := Message(CONNACK, 0, [], [], 0, 5, 4), Message(PUBLISH, 0, [], [], 0, 0, 4);
      Drain(connack + publish, 4) == Drained([m, e], [], false) && Drain(connack, 4) == Drained([m], [], false)
  {
    hide Parse;
    var connack: Str, publish: Str := [0x20, 2, 0, 5], [0x30, 2, 0, 0];
    ConnackParses(publish);
    ConnackParses([]);
    EmptyPublishParses();
    assert connack + [] == connack && (connack + publish)[4..] == publish;
    assert connack[4..] == [] && publish[4..] == [];
    Empty(4);
  }

  lemma ConnackParses(rest: Str)
    ensures Parse([0x20, 2, 0, 5] + rest, 4) == Parsed(Message(CONNACK, 0, [], [], 0, 5, 4))
  {
    hide LengthAt;
    var buf: Str := [0x20, 2, 0, 5] + rest;
    ShortLength(buf);
    assert buf[..4] == [0x20, 2, 0, 5];
  }

  lemma EmptyPublishParses()
    ensures Parse([0x30, 2, 0, 0], 4) == Parsed(Message(PUBLISH, 0, [], [], 0, 0, 4))
  {
    hide LengthAt;
    var buf: Str := [0x30, 2, 0, 0];
    ShortLength(buf);
    assert buf[..4] == buf && buf[4..4] == [] && buf[4..] == [];
  }

  lemma ShortLength(buf: Str)
    requires |buf| >= 2 && buf[1] < 0x80
    ensures LengthAt(buf, 1, 0, 0) == Is(buf[1], 2)
  {
    assert Power128(0) == 1;
  }

  // ----- a run of publications -----

  /** One call of mg_mqtt_pub, with the identifier it drew. */
  datatype Publication = Publication(topic: Str, data: Str, qos: int, retain: bool, id: nat)

  predicate Sendable(p: Publication, v5: bool) {
    0 <= p.qos <= 3 && |p.topic| < 0x1_0000 && p.id < 0x1_0000 &&
    |PublishBody(p.topic, p.data, p.qos, p.id, v5)| < MAX_REMAINING
  }

  function Wire(ps: seq<Publication>, v5: bool): Str {
    if ps == [] then []
    else Published(ps[0].topic, ps[0].data, ps[0].qos, ps[0].retain, ps[0].id, v5) + Wire(ps[1..], v5)
  }

  function Received(p: Publication, v5: bool): Message {
    Message(PUBLISH, if 0 <= p.qos then p.qos else 0, p.topic, Seen(p.data, v5), if p.qos > 0 then p.id else 0, 0,
            |Published(p.topic, p.data, p.qos, p.retain, p.id, v5)|)
  }

  function AllReceived(ps: seq<Publication>, v5: bool): seq<Message> {
    if ps == [] then [] else [Received(ps[0], v5)] + AllReceived(ps[1..], v5)
  }

  lemma {:induction false} WireIsDrained(ps: seq<Publication>, v5: bool)
    requires forall i :: 0 <= i < |ps| ==> Sendable(ps[i], v5)
    ensures Drain(Wire(ps, v5), if v5 then 5 else 4) == Drained(AllReceived(ps, v5), [], false)
    decreases |ps|
  {
    hide Parse, Published, Seen, PublishBody;
    var version := if v5 then 5 else 4;
    if ps == [] {
      TooShort(version);
    } else {
      var p, rest := ps[0], Wire(ps[1..], v5);
      var sent := Published(p.topic, p.data, p.qos, p.retain, p.id, v5);
      PublishedParses(p.topic, p.data, p.qos, p.retain, p.id, v5, rest);
      DgramInside(sent + rest, version);
      assert (sent + rest)[|sent|..] == rest;
      WireIsDrained(ps[1..], v5);
    }
  }

  lemma TooShort(version: nat)
    ensures Parse([], version) == Incomplete
  {
  }

  /** However a run of publications is cut into reads, each arrives once, in order, and nothing is left. */
  lemma PublicationsArrive(ps: seq<Publication>, v5: bool, parts: seq<Str>)
    requires forall i :: 0 <= i < |ps| ==> Sendable(ps[i], v5)
    requires Concat(parts) == Wire(ps, v5)
    ensures Reads([], parts, if v5 then 5 else 4) == Drained(AllReceived(ps, v5), [], false)
  {
    hide Parse, Wire, AllReceived;
    var version := if v5 then 5 else 4;
    assert [] + Concat(parts) == Concat(parts);
    Empty(version);
    WireIsDrained(ps, v5);
    NoneIsRefused(ps, v5);
    CuttingDoesNotMatter([], parts, version);
  }

  lemma {:induction false} NoneIsRefused(ps: seq<Publication>, v5: bool)
    ensures forall i :: 0 <= i < |AllReceived(ps, v5)| ==> !Refused(AllReceived(ps, v5)[i])
    decreases |ps|
  {
    hide Published, Seen;
    if ps != [] {
      NoneIsRefused(ps[1..], v5);
    }
  }
}
