/** WebSocket frames: mkhdr, masking, ws_process, and the two ways of sending. */
module WsFrame {
  import opened Bytes
  import opened Bits
  import opened Digits
  import opened IoBuffer

  const MAX_PAYLOAD := 0x4000_0000   // ws_process ignores anything longer
  const TWO32 := 0x1_0000_0000

  /** The four masking bytes a client sends, or none. */
  datatype MaskKey = NoMask | Mask(k0: Byte, k1: Byte, k2: Byte, k3: Byte)

  function KeyBytes(m: MaskKey): Str {
    match m
    case NoMask => []
    case Mask(a, b, c, d) => [a, b, c, d]
  }

  /** Payload byte i is combined with key byte i mod 4. */
  function Masked(p: Str, m: MaskKey): (r: Str)
    ensures |r| == |p|
  {
    if m.NoMask? then p else seq(|p|, i requires 0 <= i < |p| => Xor(p[i], KeyBytes(m)[i % 4]))
  }

  lemma MaskedTwice(p: Str, m: MaskKey)
    ensures Masked(Masked(p, m), m) == p
  {
    if m.Mask? {
      var q := Masked(Masked(p, m), m);
      forall i | 0 <= i < |p| ensures q[i] == p[i] {
        XorTwice(p[i], KeyBytes(m)[i % 4]);
      }
    }
  }

  function Be32(n: nat): Str {
    [n / 0x100_0000 % 0x100, n / 0x1_0000 % 0x100, n / 0x100 % 0x100, n % 0x100]
  }

  /** be32 */
  function FromBe32(b: Str, i: nat): (n: nat)
    requires i + 4 <= |b|
  {
    b[i + 3] as nat + b[i + 2] as nat * 0x100 + b[i + 1] as nat * 0x1_0000 + b[i] as nat * 0x100_0000
  }

  lemma Be32RoundTrip(n: nat, b: Str, i: nat)
    requires n < TWO32 && i + 4 <= |b| && b[i..i + 4] == Be32(n)
    ensures FromBe32(b, i) == n
  {
    var t := b[i..i + 4];
    assert t[0] == b[i] && t[1] == b[i + 1] && t[2] == b[i + 2] && t[3] == b[i + 3];
    assert n / 0x100 == n / 0x1_0000 * 0x100 + n / 0x100 % 0x100;
    assert n / 0x1_0000 == n / 0x100_0000 * 0x100 + n / 0x1_0000 % 0x100;
  }

  // ----- the frame on the wire -----

  datatype Frame = Frame(fin: bool, op: Byte, mask: MaskKey, payload: Str)

  ghost predicate FrameOk(f: Frame) { f.op < 16 && |f.payload| <= MAX_PAYLOAD }

  function Flags(f: Frame): Byte
    requires f.op < 16
  {
    if f.fin then 0x80 + f.op else f.op
  }

  /** The 7-bit length field and the extended length that follows it. */
  function LengthField(len: nat): Byte { if len < 126 then len else if len < 65536 then 126 else 127 }

  function ExtendedLength(len: nat): Str {
    if len < 126 then []
    else if len < 65536 then [len / 0x100, len % 0x100]
    else Be32(len / TWO32 % TWO32) + Be32(len % TWO32)
  }

  /** A header with the given first byte. */
  function HeaderBytes(flags: Byte, len: nat, mask: MaskKey): Str {
    [flags, LengthField(len) + if mask.Mask? then 0x80 else 0] + ExtendedLength(len) + KeyBytes(mask)
  }

  /** Section 5.2 of RFC 6455, with reserved bits zero and the shortest length form. */
  function FrameBytes(f: Frame): Str
    requires f.op < 16
  {
    HeaderBytes(Flags(f), |f.payload|, f.mask) + Masked(f.payload, f.mask)
  }

  // ----- what section 5 of RFC 6455 says about it -----

  /** The seven bits, or the two or eight bytes behind them, are the length with its highest byte first. */
  lemma LengthIsBigEndian(len: nat)
    requires len < 0x1_0000_0000_0000_0000
    ensures LengthField(len) == (if len <= 125 then len else if len <= 0xffff then 126 else 127)
    ensures |ExtendedLength(len)| == (if len <= 125 then 0 else if len <= 0xffff then 2 else 8)
    ensures len > 125 ==> Positional(ExtendedLength(len), 0x100) == len
  {
    if 125 < len < 65536 {
      PositionalPair(len / 0x100, len % 0x100);
    } else if len >= 65536 {
      hide Be32, Positional;
      Be32Length(len / TWO32 % TWO32);
      Be32Length(len % TWO32);
      LongIsBigEndian(len);
    }
  }

  lemma LongIsBigEndian(len: nat)
    requires len < 0x1_0000_0000_0000_0000
    ensures Positional(Be32(len / TWO32 % TWO32) + Be32(len % TWO32), 0x100) == len
  {
    hide Be32, Positional;
    var hi, lo := len / TWO32 % TWO32, len % TWO32;
    NoDigits(0x100);
    PositionalBe32([], hi);
    PositionalBe32(Be32(hi), lo);
    assert [] + Be32(hi) == Be32(hi);
    assert len / TWO32 < TWO32 && len == hi * TWO32 + lo;
  }

  lemma PositionalPair(a: nat, b: nat)
    ensures Positional([a, b], 0x100) == a * 0x100 + b
  {
    NoDigits(0x100);
    OneMoreDigit([], a, 0x100);
    OneMoreDigit([a], b, 0x100);
    assert [] + [a] == [a] && [a] + [b] == [a, b];
  }

  lemma FourDigits(ds: seq<nat>, a: nat, b: nat, c: nat, d: nat)
    ensures Positional(ds + [a, b, c, d], 0x100) ==
      (((Positional(ds, 0x100) * 0x100 + a) * 0x100 + b) * 0x100 + c) * 0x100 + d
  {
    hide Positional;
    OneMoreDigit(ds, a, 0x100);
    OneMoreDigit(ds + [a], b, 0x100);
    OneMoreDigit(ds + [a] + [b], c, 0x100);
    OneMoreDigit(ds + [a] + [b] + [c], d, 0x100);
    assert ds + [a, b, c, d] == ds + [a] + [b] + [c] + [d];
  }

  lemma PositionalBe32(ds: seq<nat>, n: nat)
    requires n < TWO32
    ensures Positional(ds + Be32(n), 0x100) == Positional(ds, 0x100) * TWO32 + n
  {
    hide Positional;
    var a, b, c, d := n / 0x100_0000 % 0x100, n / 0x1_0000 % 0x100, n / 0x100 % 0x100, n % 0x100;
    FourDigits(ds, a, b, c, d);
    assert n / 0x100 == n / 0x1_0000 * 0x100 + c && n / 0x1_0000 == a * 0x100 + b;
  }

  /** The key of four zeros changes nothing. */
  lemma ZeroKey(p: Str)
    ensures Masked(p, Mask(0, 0, 0, 0)) == p
  {
    var m := Mask(0, 0, 0, 0);
    forall i | 0 <= i < |p| ensures Masked(p, m)[i] == p[i] {
      assert KeyBytes(m)[i % 4] == 0;
      XorZero(p[i]);
    }
  }

  function KeyXor(k: MaskKey, j: MaskKey): MaskKey
    requires k.Mask? && j.Mask?
  {
    Mask(Xor(k.k0, j.k0), Xor(k.k1, j.k1), Xor(k.k2, j.k2), Xor(k.k3, j.k3))
  }

  /** Masking under one key and then another is masking under the exclusive or of the keys. */
  lemma MaskedBoth(p: Str, k: MaskKey, j: MaskKey)
    requires k.Mask? && j.Mask?
    ensures Masked(Masked(p, k), j) == Masked(p, KeyXor(k, j))
  {
    var both := KeyXor(k, j);
    hide Xor;
    forall i | 0 <= i < |p| ensures Masked(Masked(p, k), j)[i] == Masked(p, both)[i] {
      XorAssoc(p[i], KeyBytes(k)[i % 4], KeyBytes(j)[i % 4]);
      assert KeyBytes(both)[i % 4] == Xor(KeyBytes(k)[i % 4], KeyBytes(j)[i % 4]);
    }
  }

  /** Section 5.3: bit j of byte i is the sum of bit j of the payload byte and of key byte i mod 4, modulo 2. */
  lemma MaskedBit(p: Str, k: MaskKey, i: nat, j: nat)
    requires k.Mask? && i < |p| && j < 8
    ensures Bit(Masked(p, k)[i], j) == (Bit(p[i], j) + Bit([k.k0, k.k1, k.k2, k.k3][i % 4], j)) % 2
  {
    hide Bit, Xor;
    XorIsBitwise(p[i], KeyBytes(k)[i % 4], j);
  }

  const HELLO: Str := [0x48, 0x65, 0x6c, 0x6c, 0x6f]

  /** The examples of section 5.7. */
  lemma RfcExamples()
    ensures FrameBytes(Frame(true, 1, NoMask, HELLO)) == [0x81, 0x05] + HELLO
    ensures FrameBytes(Frame(true, 1, Mask(0x37, 0xfa, 0x21, 0x3d), HELLO))
         == [0x81, 0x85, 0x37, 0xfa, 0x21, 0x3d, 0x7f, 0x9f, 0x4d, 0x51, 0x58]
    ensures FrameBytes(Frame(false, 1, NoMask, HELLO[..3])) == [0x01, 0x03] + HELLO[..3]
    ensures FrameBytes(Frame(true, 0, NoMask, HELLO[3..])) == [0x80, 0x02] + HELLO[3..]
    ensures FrameBytes(Frame(true, 10, Mask(0x37, 0xfa, 0x21, 0x3d), HELLO))
         == [0x8a, 0x85, 0x37, 0xfa, 0x21, 0x3d, 0x7f, 0x9f, 0x4d, 0x51, 0x58]
    ensures HeaderBytes(0x82, 256, NoMask) == [0x82, 0x7e, 0x01, 0x00]
    ensures HeaderBytes(0x82, 65536, NoMask) == [0x82, 0x7f, 0, 0, 0, 0, 0, 1, 0, 0]
  {
    MaskedHello();
    hide Xor, Masked;
    NoKeyNoMask(HELLO, NoMask);
    NoKeyNoMask(HELLO[..3], NoMask);
    NoKeyNoMask(HELLO[3..], NoMask);
  }

  lemma MaskedHello()
    ensures Masked(HELLO, Mask(0x37, 0xfa, 0x21, 0x3d)) == [0x7f, 0x9f, 0x4d, 0x51, 0x58]
  {
    HelloBytes();
    hide Xor;
    var m := Mask(0x37, 0xfa, 0x21, 0x3d);
    assert KeyBytes(m) == [0x37, 0xfa, 0x21, 0x3d];
    hide KeyBytes;
    var r := Masked(HELLO, m);
    assert r == [r[0], r[1], r[2], r[3], r[4]];
  }

  lemma HelloBytes()
    ensures Xor(0x48, 0x37) == 0x7f && Xor(0x65, 0xfa) == 0x9f && Xor(0x6c, 0x21) == 0x4d
    ensures Xor(0x6c, 0x3d) == 0x51 && Xor(0x6f, 0x37) == 0x58
  {
  }

  // ----- ws_process -----

  datatype WsMsg = WsMsg(flags: Byte, headerLen: nat, dataLen: nat)

  function MaskLength(b: Str): (n: nat)
    requires |b| >= 2
    ensures n == 0 || n == 4
  {
    if b[1] >= 0x80 then 4 else 0
  }

  /** What ws_process fills into the message before its sanity checks. */
  function ParsedHeader(b: Str): WsMsg {
    if |b| < 2 then WsMsg(0, 0, 0) else
    var n, maskLen := b[1] % 0x80, MaskLength(b);
    if n < 126 && |b| >= maskLen then WsMsg(b[0], 2 + maskLen, n)
    else if n == 126 && |b| >= 4 + maskLen then WsMsg(b[0], 4 + maskLen, b[2] as nat * 0x100 + b[3])
    else if |b| >= 10 + maskLen then WsMsg(b[0], 10 + maskLen, FromBe32(b, 2) * TWO32 + FromBe32(b, 6))
    else WsMsg(b[0], 0, 0)
  }

  /** The bytes consumed: 0 when the frame is incomplete or too long. */
  function Consumed(b: Str): (n: nat)
    ensures n <= |b|
  {
    var msg := ParsedHeader(b);
    if msg.dataLen > MAX_PAYLOAD || msg.headerLen + msg.dataLen > |b| then 0 else msg.headerLen + msg.dataLen
  }

  lemma ConsumedHasHeader(b: Str)
    requires Consumed(b) > 0
    ensures |b| >= 2 && ParsedHeader(b).headerLen >= 2 + MaskLength(b)
    ensures Consumed(b) == ParsedHeader(b).headerLen + ParsedHeader(b).dataLen
  {
  }

  function KeyAt(b: Str, i: nat): MaskKey
    requires i + 4 <= |b|
  {
    Mask(b[i], b[i + 1], b[i + 2], b[i + 3])
  }

  /** The payload as the handlers see it. */
  function Payload(b: Str): Str
    requires Consumed(b) > 0
  {
    ConsumedHasHeader(b);
    var msg := ParsedHeader(b);
    var data := b[msg.headerLen..msg.headerLen + msg.dataLen];
    if MaskLength(b) == 0 then data else Masked(data, KeyAt(b, msg.headerLen - 4))
  }

  /** The buffer after ws_process: a complete payload is unmasked in place. */
  function Unmasked(b: Str): (r: Str)
    ensures |r| == |b|
  {
    if Consumed(b) == 0 then b else
    ConsumedHasHeader(b);
    b[..ParsedHeader(b).headerLen] + Payload(b) + b[Consumed(b)..]
  }

  // ----- inversion -----

  lemma HeaderLength(flags: Byte, len: nat, mask: MaskKey)
    ensures |HeaderBytes(flags, len, mask)|
         == (if len < 126 then 2 else if len < 65536 then 4 else 10) + |KeyBytes(mask)|
  {
  }

  /** Any string starting with a header parses as that header. */
  lemma HeaderParses(b: Str, flags: Byte, len: nat, mask: MaskKey)
    requires len < TWO32 * TWO32 && HeaderBytes(flags, len, mask) <= b
    ensures ParsedHeader(b) == WsMsg(flags, |HeaderBytes(flags, len, mask)|, len)
    ensures MaskLength(b) == |KeyBytes(mask)|
    ensures mask.Mask? ==> KeyAt(b, |HeaderBytes(flags, len, mask)| - 4) == mask
  {
    hide KeyBytes, KeyAt, Be32, FromBe32;
    var h := HeaderBytes(flags, len, mask);
    HeaderLength(flags, len, mask);
    NoKeyNoMask([], mask);
    assert forall k :: 0 <= k < |h| ==> b[k] == h[k];
    assert h[0] == flags && h[1] == LengthField(len) + if mask.Mask? then 0x80 else 0;
    if 126 <= len < 65536 {
      assert b[2] == len / 0x100 && b[3] == len % 0x100;
    } else if len >= 65536 {
      LongLengthParses(b, flags, len, mask);
    }
    if mask.Mask? { KeyParses(b, flags, len, mask); }
  }

  lemma KeyParses(b: Str, flags: Byte, len: nat, mask: MaskKey)
    requires HeaderBytes(flags, len, mask) <= b && mask.Mask?
    ensures |HeaderBytes(flags, len, mask)| >= 4 && KeyAt(b, |HeaderBytes(flags, len, mask)| - 4) == mask
  {
    var h := HeaderBytes(flags, len, mask);
    hide ExtendedLength, LengthField;
    var i := |h| - 4;
    assert h[i..] == KeyBytes(mask);
    assert h[i] == h[i..][0] && h[i + 1] == h[i..][1] && h[i + 2] == h[i..][2] && h[i + 3] == h[i..][3];
  }

  lemma LongLengthParses(b: Str, flags: Byte, len: nat, mask: MaskKey)
    requires 65536 <= len < TWO32 * TWO32 && HeaderBytes(flags, len, mask) <= b
    ensures |b| >= 10 && FromBe32(b, 2) * TWO32 + FromBe32(b, 6) == len
  {
    hide Be32, KeyBytes, LengthField;
    var h := HeaderBytes(flags, len, mask);
    var hi, lo := len / TWO32 % TWO32, len % TWO32;
    assert len / TWO32 < TWO32;
    Be32Length(hi);
    Be32Length(lo);
    var head := [flags, LengthField(len) + if mask.Mask? then 0x80 else 0];
    assert h == head + (Be32(hi) + Be32(lo)) + KeyBytes(mask);
    assert h[2..6] == Be32(hi) && h[6..10] == Be32(lo);
    assert b[2..6] == h[2..6] && b[6..10] == h[6..10];
    Be32RoundTrip(hi, b, 2);
    Be32RoundTrip(lo, b, 6);
  }

  lemma Be32Length(n: nat)
    ensures |Be32(n)| == 4
  {
  }

  /** ws_process inverts framing and masking, whatever follows the frame. */
  lemma FrameParses(f: Frame, rest: Str)
    requires FrameOk(f)
    ensures var b, h := FrameBytes(f) + rest, |HeaderBytes(Flags(f), |f.payload|, f.mask)|;
      Consumed(b) == |FrameBytes(f)| > 0 &&
      ParsedHeader(b) == WsMsg(Flags(f), h, |f.payload|) && h + |f.payload| == |FrameBytes(f)| &&
      Payload(b) == f.payload &&
      Unmasked(b) == HeaderBytes(Flags(f), |f.payload|, f.mask) + f.payload + rest
  {
    hide ParsedHeader, MaskLength, Masked, HeaderBytes, KeyBytes, KeyAt;
    var h := HeaderBytes(Flags(f), |f.payload|, f.mask);
    var b := FrameBytes(f) + rest;
    HeaderLength(Flags(f), |f.payload|, f.mask);
    assert h <= b;
    HeaderParses(b, Flags(f), |f.payload|, f.mask);
    MaskedTwice(f.payload, f.mask);
    assert b[|h|..|h| + |f.payload|] == Masked(f.payload, f.mask);
    NoKeyNoMask(f.payload, f.mask);
    assert b[|FrameBytes(f)|..] == rest;
    assert b[..|h|] == h;
  }

  /** The example of section 5.7 as a client sends it, with anything behind it. */
  lemma HelloIsUnmasked(rest: Str)
    ensures var b := [0x81, 0x85, 0x37, 0xfa, 0x21, 0x3d, 0x7f, 0x9f, 0x4d, 0x51, 0x58] + rest;
      Consumed(b) == 11 && ParsedHeader(b) == WsMsg(0x81, 6, 5) &&
      Payload(b) == [0x48, 0x65, 0x6c, 0x6c, 0x6f]
  {
    hide Consumed, ParsedHeader, Payload, Unmasked, FrameBytes, HeaderBytes;
    var f := Frame(true, 1, Mask(0x37, 0xfa, 0x21, 0x3d), HELLO);
    RfcExamples();
    HeaderLength(Flags(f), 5, f.mask);
    FrameParses(f, rest);
  }

  /** A frame of more than 2^30 bytes is never taken. */
  lemma HugeIsIgnored(flags: Byte, len: nat, mask: MaskKey, rest: Str)
    requires 0x4000_0000 < len < 0x1_0000_0000_0000_0000
    ensures var b := HeaderBytes(flags, len, mask) + rest; Consumed(b) == 0 && Unmasked(b) == b
  {
    hide HeaderBytes, ParsedHeader;
    HeaderParses(HeaderBytes(flags, len, mask) + rest, flags, len, mask);
  }

  lemma NoKeyNoMask(p: Str, m: MaskKey)
    ensures |KeyBytes(m)| == if m.Mask? then 4 else 0
    ensures m.NoMask? ==> Masked(p, m) == p
  {
  }

  /** On every strict prefix of a frame ws_process returns 0 and changes nothing. */
  lemma PrefixIsIncomplete(f: Frame, k: nat)
    requires FrameOk(f) && k < |FrameBytes(f)|
    ensures Consumed(FrameBytes(f)[..k]) == 0 && Unmasked(FrameBytes(f)[..k]) == FrameBytes(f)[..k]
  {
    hide Masked, KeyBytes, Be32, KeyAt, FromBe32, ExtendedLength;
    var t := FrameBytes(f)[..k];
    var h := HeaderBytes(Flags(f), |f.payload|, f.mask);
    HeaderLength(Flags(f), |f.payload|, f.mask);
    NoKeyNoMask(f.payload, f.mask);
    if k >= |h| {
      assert h <= t;
      HeaderParses(t, Flags(f), |f.payload|, f.mask);
    } else if k >= 2 {
      assert t[1] == FrameBytes(f)[1] == h[1];
      ShortPrefix(t, |f.payload|, f.mask.Mask?, |h|);
    }
  }

  lemma ShortPrefix(t: Str, len: nat, masked: bool, h: nat)
    requires 2 <= |t| < h && len <= MAX_PAYLOAD
    requires t[1] == LengthField(len) + if masked then 0x80 else 0
    requires h == (if len < 126 then 2 else if len < 65536 then 4 else 10) + if masked then 4 else 0
    ensures Consumed(t) == 0
  {
    hide FromBe32;
    assert t[1] % 0x80 == LengthField(len);
  }

  // ----- the code -----

  /** ws_process on the received bytes from `ofs` on: decides, and unmasks the payload in place. */
  method WsProcess(recv: IoBuf, ofs: nat) returns (n: nat, msg: WsMsg)
    requires recv.Valid() && ofs <= recv.len
    modifies recv.buf
    ensures recv.Valid() && |recv.Contents()| == |old(recv.Contents())|
    ensures var b := old(recv.Contents())[ofs..];
      n == Consumed(b) && msg == ParsedHeader(b) && recv.Contents() == old(recv.Contents())[..ofs] + Unmasked(b)
  {
    hide ParsedHeader, MaskLength, Unmasked;
    var len := recv.len - ofs;
    ghost var s, b := recv.Contents(), recv.Contents()[ofs..];
    assert s == s[..ofs] + b;
    var maskLen := 0;
    msg := WsMsg(0, 0, 0);
    if len >= 2 {
      msg, maskLen := ReadHeader(recv, ofs, len, b);
    } else {
      ShortHeader(b);
    }
    if msg.dataLen > MAX_PAYLOAD || msg.headerLen + msg.dataLen > len {
      NothingToUnmask(b);
      return 0, msg;
    }
    if maskLen > 0 {
      UnmaskInPlace(recv, ofs, msg, b);
    } else {
      NothingToUnmask(b);
    }
    n := msg.headerLen + msg.dataLen;
  }

  lemma ShortHeader(b: Str)
    requires |b| < 2
    ensures ParsedHeader(b) == WsMsg(0, 0, 0) && Consumed(b) == 0
  {
  }

  lemma NothingToUnmask(b: Str)
    requires Consumed(b) == 0 || |b| < 2 || MaskLength(b) == 0
    ensures Unmasked(b) == b
  {
    hide ParsedHeader, MaskLength;
    if Consumed(b) > 0 {
      ConsumedHasHeader(b);
      InThree(b, ParsedHeader(b).headerLen, Consumed(b));
    }
  }

  lemma InThree(s: Str, i: nat, j: nat)
    requires i <= j <= |s|
    ensures s == s[..i] + s[i..j] + s[j..]
  {
  }

  method ReadHeader(recv: IoBuf, ofs: nat, len: nat, ghost b: Str) returns (msg: WsMsg, maskLen: nat)
    requires recv.Valid() && ofs + len == recv.len && len >= 2
    requires b == recv.Contents()[ofs..]
    ensures msg == ParsedHeader(b) && maskLen == MaskLength(b)
  {
    assert forall k :: 0 <= k < len ==> b[k] == recv.buf[ofs + k];
    var n := recv.buf[ofs + 1] % 0x80;
    maskLen := if recv.buf[ofs + 1] >= 0x80 then 4 else 0;
    msg := WsMsg(recv.buf[ofs], 0, 0);
    if n < 126 && len >= maskLen {
      msg := msg.(dataLen := n, headerLen := 2 + maskLen);
    } else if n == 126 && len >= 4 + maskLen {
      msg := msg.(headerLen := 4 + maskLen, dataLen := recv.buf[ofs + 2] as nat * 0x100 + recv.buf[ofs + 3]);
    } else if len >= 10 + maskLen {
      var hi := FromBe32(recv.buf[..recv.len], ofs + 2);
      var lo := FromBe32(recv.buf[..recv.len], ofs + 6);
      msg := msg.(headerLen := 10 + maskLen, dataLen := hi * TWO32 + lo);
    }
  }

  method UnmaskInPlace(recv: IoBuf, ofs: nat, msg: WsMsg, ghost b: Str)
    requires recv.Valid() && ofs <= recv.len && b == recv.Contents()[ofs..]
    requires |b| >= 2 && MaskLength(b) == 4 && msg == ParsedHeader(b)
    requires msg.dataLen <= MAX_PAYLOAD && msg.headerLen + msg.dataLen <= |b|
    modifies recv.buf
    ensures recv.Valid() && recv.Contents() == old(recv.Contents())[..ofs] + Unmasked(b)
  {
    hide ParsedHeader, MaskLength, Masked, KeyAt, Unmasked, Payload;
    ghost var before := recv.Contents();
    if msg.dataLen > 0 {
      ConsumedHasHeader(b);
      MaskRange(recv, ofs + msg.headerLen, msg.dataLen);
      UnmaskedSplice(before, ofs, b);
    } else {
      EmptyUnmask(b);
      assert before == before[..ofs] + b;
    }
  }

  lemma EmptyUnmask(b: Str)
    requires ParsedHeader(b).dataLen == 0
    ensures Unmasked(b) == b
  {
    hide ParsedHeader, MaskLength, KeyAt;
    if Consumed(b) > 0 {
      ConsumedHasHeader(b);
      assert Payload(b) == [] == b[Consumed(b)..Consumed(b)];
      InThree(b, Consumed(b), Consumed(b));
    }
  }

  /** Editing the payload in the whole buffer is editing it in the part from `ofs` on. */
  lemma UnmaskedSplice(s: Str, ofs: nat, b: Str)
    requires ofs <= |s| && b == s[ofs..] && Consumed(b) > 0 && MaskLength(b) == 4
    ensures ParsedHeader(b).headerLen >= 4
    ensures var p, q := ofs + ParsedHeader(b).headerLen, ofs + Consumed(b);
      s[..p] + Masked(s[p..q], KeyAt(s, p - 4)) + s[q..] == s[..ofs] + Unmasked(b)
  {
    hide ParsedHeader, Masked;
    ConsumedHasHeader(b);
    var p, q := ofs + ParsedHeader(b).headerLen, ofs + Consumed(b);
    assert KeyAt(s, p - 4) == KeyAt(b, p - ofs - 4);
    assert s[p..q] == b[p - ofs..q - ofs];
    assert s[..p] == s[..ofs] + b[..p - ofs] && s[q..] == b[q - ofs..];
    Assoc(s[..ofs], b[..p - ofs], Payload(b));
    Assoc(s[..ofs], b[..p - ofs] + Payload(b), b[q - ofs..]);
  }

  /** p[i] ^= mask[i & 3], with the key in the four bytes before `p`. */
  method MaskRange(io: IoBuf, p: nat, n: nat)
    requires io.Valid() && 4 <= p && p + n <= io.len
    modifies io.buf
    ensures io.Valid()
    ensures io.Contents() == old(io.Contents())[..p]
      + Masked(old(io.Contents())[p..p + n], KeyAt(old(io.Contents()), p - 4)) + old(io.Contents())[p + n..]
  {
    hide Masked, Overwritten;
    ghost var s := io.buf[..];
    Taken(io.buf, io.len);
    ghost var key, data := KeyAt(io.Contents(), p - 4), io.Contents()[p..p + n];
    ghost var masked := Masked(data, key);
    OverwrittenNothing(s, p, masked[..0]);
    var i := 0;
    while i < n
      invariant 0 <= i <= n && io.Valid() && io.buf[..] == Overwritten(s, p, masked[..i])
    {
      OverwrittenStep(s, p, masked, i);
      MaskedAt(s, p, n, i, io.len);
      assert io.buf[..][p + i] == io.buf[p + i] && io.buf[..][p - 4 + i % 4] == io.buf[p - 4 + i % 4];
      io.buf[p + i] := Xor(io.buf[p + i], io.buf[p - 4 + i % 4]);
      i := i + 1;
    }
    assert masked[..n] == masked;
    Taken(io.buf, io.len);
    OverwrittenTake(s, p, masked, io.len);
    OverwrittenIs(s[..io.len], p, masked);
  }

  lemma OverwrittenIs(s: Str, p: nat, bytes: Str)
    requires p + |bytes| <= |s|
    ensures Overwritten(s, p, bytes) == s[..p] + bytes + s[p + |bytes|..]
  {
  }

  lemma OverwrittenStep(s: Str, p: nat, bytes: Str, i: nat)
    requires p + |bytes| <= |s| && i < |bytes|
    ensures var r := Overwritten(s, p, bytes[..i]);
      && r[p + i := bytes[i]] == Overwritten(s, p, bytes[..i + 1])
      && r[p + i] == s[p + i] && forall k :: 0 <= k < p ==> r[k] == s[k]
  {
  }

  lemma MaskedAt(s: Str, p: nat, n: nat, i: nat, len: nat)
    requires 4 <= p && i < n && p + n <= len <= |s|
    ensures Masked(s[..len][p..p + n], KeyAt(s[..len], p - 4))[i] == Xor(s[p + i], s[p - 4 + i % 4])
  {
    hide KeyBytes;
    var data := s[..len][p..p + n];
    assert data[i] == s[p + i];
    KeyByte(s[..len], p - 4, i % 4);
    hide KeyAt;
  }

  lemma KeyByte(s: Str, p: nat, j: nat)
    requires j < 4 && p + 4 <= |s|
    ensures |KeyBytes(KeyAt(s, p))| == 4 && KeyBytes(KeyAt(s, p))[j] == s[p + j]
  {
  }

  /** mkhdr, with the random key as a parameter. */
  method MkHdr(len: nat, op: Byte, key: MaskKey, buf: array<Byte>) returns (n: nat)
    requires buf.Length == 14 && op < 0x80 && len < TWO32 * TWO32
    modifies buf
    ensures n <= 14 && buf[..n] == HeaderBytes(op + 0x80, len, key)
  {
    n := WriteLength(len, op + 0x80, buf);
    if key.Mask? {
      KeyedHeader(op + 0x80, len, key);
      WriteKey(key, buf, n);
      n := n + 4;
    }
  }

  method WriteLength(len: nat, flags: Byte, buf: array<Byte>) returns (n: nat)
    requires buf.Length == 14 && len < TWO32 * TWO32
    modifies buf
    ensures 2 <= n <= 10 && buf[..n] == HeaderBytes(flags, len, NoMask)
  {
    buf[0] := flags;
    if len < 126 {
      buf[1] := len;
      n := 2;
    } else if len < 65536 {
      buf[1] := 126;
      buf[2], buf[3] := len / 0x100, len % 0x100;
      n := 4;
    } else {
      hide Be32;
      buf[1] := 127;
      Be32Length(len / TWO32 % TWO32);
      Be32Length(len % TWO32);
      assert buf[..2] == [flags, 127];
      Store(buf, 2, Be32(len / TWO32 % TWO32));
      Store(buf, 6, Be32(len % TWO32));
      n := 10;
    }
  }

  /** memcpy behind what is already in the buffer. */
  method Store(buf: array<Byte>, at: nat, bytes: Str)
    requires at + |bytes| <= buf.Length
    modifies buf
    ensures buf[..at + |bytes|] == old(buf[..at]) + bytes
  {
    forall k | 0 <= k < |bytes| {
      buf[at + k] := bytes[k];
    }
  }

  method WriteKey(key: MaskKey, buf: array<Byte>, n: nat)
    requires 2 <= n && n + 4 <= buf.Length && buf[1] < 0x80 && key.Mask?
    modifies buf
    ensures buf[..n + 4] == old(buf[..n])[1 := old(buf[1]) + 0x80] + KeyBytes(key)
  {
    buf[1] := buf[1] + 0x80;
    buf[n], buf[n + 1], buf[n + 2], buf[n + 3] := key.k0, key.k1, key.k2, key.k3;
  }

  lemma KeyedHeader(flags: Byte, len: nat, key: MaskKey)
    requires key.Mask?
    ensures var plain := HeaderBytes(flags, len, NoMask);
      |plain| >= 2 && plain[1] < 0x80 && HeaderBytes(flags, len, key) == plain[1 := plain[1] + 0x80] + KeyBytes(key)
  {
    hide ExtendedLength;
    assert ExtendedLength(len) + [] == ExtendedLength(len);
  }

  /** mg_ws_mask */
  method WsMask(send: IoBuf, len: nat, isClient: bool)
    requires send.Valid() && len <= send.len && (isClient ==> len + 4 <= send.len)
    modifies send.buf
    ensures send.Valid()
    ensures var s, p := old(send.Contents()), old(send.len) - len;
      send.Contents() == if isClient then s[..p] + Masked(s[p..], KeyAt(s, p - 4)) else s
  {
    if isClient {
      MaskRange(send, send.len - len, len);
      ghost var s := old(send.Contents());
      assert s[send.len - len..send.len] == s[send.len - len..];
      assert s[send.len..] == [];
    }
  }

  /** mg_ws_send: header, payload, then masking in the send buffer. */
  method WsSend(send: IoBuf, data: Str, op: Byte, key: MaskKey) returns (sent: nat)
    requires send.Valid() && op < 16 && |data| < TWO32 * TWO32
    modifies send, send.buf
    ensures send.Valid() && (send.buf == old(send.buf) || fresh(send.buf))
    ensures send.Contents() == old(send.Contents()) + FrameBytes(Frame(true, op, key, data))
    ensures sent == |FrameBytes(Frame(true, op, key, data))|
  {
    hide HeaderBytes, Masked;
    var header := new Byte[14];
    var n := MkHdr(|data|, op, key, header);
    ghost var s, h := send.Contents(), header[..n];
    send.Add(send.len, header[..n]);
    assert send.Contents() == s + h;
    send.Add(send.len, data);
    assert send.Contents() == s + h + data;
    FinishFrame(send, s, h, data, key, |data|);
    return n + |data|;
  }

  /** mg_ws_wrap: shifts a payload already in the send buffer and prepends its header. */
  method WsWrap(send: IoBuf, len: nat, op: Byte, key: MaskKey)
    requires send.Valid() && op < 16 && len <= send.len && len < TWO32 * TWO32
    modifies send, send.buf
    ensures send.Valid() && (send.buf == old(send.buf) || fresh(send.buf))
    ensures var s, p := old(send.Contents()), old(send.len) - len;
      send.Contents() == s[..p] + FrameBytes(Frame(true, op, key, s[p..]))
  {
    hide HeaderBytes, Masked;
    var header := new Byte[14];
    var n := MkHdr(len, op, key, header);
    ghost var s, h := send.Contents(), header[..n];
    ghost var at := send.len - len;
    ghost var data := s[at..];
    send.Reserve(send.len, n);
    assert send.Contents()[..|s|] == s;
    ShiftAndPrepend(send, len, header[..n], s);
    assert s[..at] + (h + Masked(data, key)) == s[..at] + FrameBytes(Frame(true, op, key, data));
    FinishFrame(send, s[..at], h, data, key, len);
  }

  /** memmove(p, p - header_len, len); memcpy(p - header_len, header, header_len) */
  method ShiftAndPrepend(send: IoBuf, len: nat, header: Str, ghost s: Str)
    requires send.Valid() && len <= |s| && send.len == |s| + |header| && send.Contents()[..|s|] == s
    modifies send.buf
    ensures send.Valid() && send.Contents() == s[..|s| - len] + header + s[|s| - len..]
  {
    hide Overwritten;
    ghost var w := send.buf[..];
    Taken(send.buf, send.len);
    var p := send.len - len;
    Shifted(w, |s| - len, len, header, s);
    send.Move(p, p - |header|, len);
    send.Copy(p - |header|, header);
    Taken(send.buf, send.len);
  }

  lemma Shifted(w: Str, at: nat, len: nat, header: Str, s: Str)
    requires at + len == |s| && |s| + |header| <= |w| && w[..|s| + |header|][..|s|] == s
    ensures var moved := Overwritten(w, at + |header|, w[at..at + len]);
      Overwritten(moved, at, header)[..|s| + |header|] == s[..at] + header + s[at..]
  {
    var moved := Overwritten(w, at + |header|, w[at..at + len]);
    assert w[..|s|] == s && w[at..at + len] == s[at..];
    assert moved[..at] == s[..at] && moved[at + |header|..|s| + |header|] == s[at..];
  }

  /** mg_ws_mask on the frame just assembled at the end of the buffer. */
  method FinishFrame(send: IoBuf, ghost s: Str, ghost h: Str, ghost data: Str, key: MaskKey, len: nat)
    requires send.Valid() && send.Contents() == s + h + data && len == |data|
    requires exists flags :: h == HeaderBytes(flags, |data|, key)
    modifies send.buf
    ensures send.Valid() && send.Contents() == s + (h + Masked(data, key))
  {
    ghost var total := send.Contents();
    ghost var flags :| h == HeaderBytes(flags, |data|, key);
    if key.Mask? {
      KeyParses(h, flags, |data|, key);
      assert KeyAt(total, |s| + |h| - 4) == KeyAt(h, |h| - 4);
      assert total[|s| + |h|..] == data && total[..|s| + |h|] == s + h;
    }
    WsMask(send, len, key.Mask?);
    Assoc(s, h, Masked(data, key));
  }
}
