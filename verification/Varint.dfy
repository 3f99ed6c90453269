/** varint_encode and varint_decode of hmath.h. */
module Varint {
  import opened Bytes
  import opened Septets

  const TWO63 := 0x8000_0000_0000_0000
  const MAX_BYTES := 10

  /** Seven bits a byte from the low end; the last byte is below 0x80. */
  function Varint(value: nat): (r: Str)
    ensures |r| >= 1
  {
    if value < 0x80 then [value] else [value % 0x80 + 0x80] + Varint(value / 0x80)
  }

  /** Only the last byte is below 0x80. */
  lemma {:induction false} LastByteEnds(value: nat, k: nat)
    requires k < |Varint(value)|
    ensures Varint(value)[k] < 0x80 <==> k == |Varint(value)| - 1
  {
    if value >= 0x80 && k > 0 {
      LastByteEnds(value / 0x80, k - 1);
    }
  }

  /** `k` bytes hold what is below 128^k. */
  lemma {:induction false} VarintLength(value: nat, k: nat)
    requires 0 < k
    ensures |Varint(value)| <= k <==> value < Power128(k)
  {
    if k == 1 {
      assert Power128(1) == 0x80;
    } else if value >= 0x80 {
      VarintLength(value / 0x80, k - 1);
      Quotient(value, Power128(k - 1));
    } else {
      Grows(k);
    }
  }

  lemma Quotient(value: nat, p: nat)
    ensures value / 0x80 < p <==> value < 0x80 * p
  {
  }

  lemma {:induction false} Grows(k: nat)
    requires 0 < k
    ensures Power128(k) >= 0x80
  {
    if k > 1 {
      Grows(k - 1);
    } else {
      assert Power128(1) == 0x80;
    }
  }

  lemma NineBytes()
    ensures Power128(9) == TWO63
  {
    assert Power128(3) == 0x20_0000;
    assert Power128(6) == 0x80 * 0x80 * 0x80 * Power128(3);
    assert Power128(9) == 0x80 * 0x80 * 0x80 * Power128(6);
  }

  /** Values that are not negative take at most nine bytes. */
  lemma AtMostNineBytes(value: nat)
    requires value < TWO63
    ensures |Varint(value)| <= 9
  {
    NineBytes();
    VarintLength(value, 9);
  }

  lemma VarintStep(value: nat)
    ensures Varint(value) ==
      if value / 0x80 == 0 then [value % 0x80] else [value % 0x80 + 0x80] + Varint(value / 0x80)
  {
  }

  /** The value after `n` arithmetic shifts by seven: each rounds towards minus infinity. */
  function Shifted(value: int, n: nat): int {
    if n == 0 then value else Shifted(value, n - 1) / 0x80
  }

  lemma {:induction false} NegativeStays(value: int, n: nat)
    requires value < 0
    ensures Shifted(value, n) < 0
  {
    if n > 0 {
      NegativeStays(value, n - 1);
    }
  }

  lemma {:induction false} ShiftedOnce(value: int, n: nat)
    ensures Shifted(value, n + 1) == Shifted(value / 0x80, n)
  {
    if n > 0 {
      ShiftedOnce(value, n - 1);
    }
  }

  lemma {:induction false} ReachesZero(value: nat) returns (n: nat)
    ensures n > 0 && Shifted(value, n) == 0
  {
    if value < 0x80 {
      n := 1;
      assert Shifted(value, 0) == value;
    } else {
      n := ReachesZero(value / 0x80);
      ShiftedOnce(value, n);
      n := n + 1;
    }
  }

  /** The loop of varint_encode ends once the shifted value is zero: exactly for values that are not negative. */
  lemma EncoderEndsIff(value: int)
    ensures (exists n: nat :: n > 0 && Shifted(value, n) == 0) <==> value >= 0
  {
    if value >= 0 {
      var n := ReachesZero(value);
    } else {
      forall n: nat ensures Shifted(value, n) != 0 {
        NegativeStays(value, n);
      }
    }
  }

  /** varint_encode, for the values its loop ends for: at most nine bytes are written. */
  method Encode(value: nat, buf: array<Byte>) returns (bytes: nat)
    requires value < TWO63 && buf.Length >= 9
    modifies buf
    ensures bytes == |Varint(value)| <= 9 && buf[..bytes] == Varint(value) && buf[bytes..] == old(buf[bytes..])
  {
    hide Varint;
    AtMostNineBytes(value);
    ghost var was := buf[..];
    var v: nat := value;
    bytes := 0;
    assert buf[..0] + Varint(value) == Varint(value);
    var more := true;
    while more
      invariant 0 <= bytes <= 9 && buf[bytes..] == was[bytes..]
      invariant if more then buf[..bytes] + Varint(v) == Varint(value) else buf[..bytes] == Varint(value)
      decreases more, v
    {
      ghost var done, w := buf[..bytes], v;
      NextByte(value, done, v);
      var ch: Byte := v % 0x80;
      v := v / 0x80;
      buf[bytes] := if v == 0 then ch else ch + 0x80;
      assert buf[..bytes + 1] == done + [buf[bytes]];
      bytes := bytes + 1;
      more := v != 0;
    }
  }

  lemma NextByte(value: nat, done: Str, v: nat)
    requires done + Varint(v) == Varint(value) && |Varint(value)| <= 9
    ensures |done| < 9
    ensures v / 0x80 == 0 ==> done + [v % 0x80] == Varint(value)
    ensures v / 0x80 != 0 ==> done + [v % 0x80 + 0x80] + Varint(v / 0x80) == Varint(value)
  {
    hide Varint;
    VarintStep(v);
    if v / 0x80 != 0 {
      Assoc(done, [v % 0x80 + 0x80], Varint(v / 0x80));
    }
  }

  /**
   * The outcomes of varint_decode: not enough bytes (len becomes 0), no end in ten bytes (len becomes -1), or a
   * value and its length.
   */
  datatype Outcome = NotEnough | NoEnd | Value(value: int, bytes: nat)

  /** What byte `k` adds: of a tenth byte only the lowest bit is kept, as the sign. */
  function Share(b: Byte, k: nat): int {
    if k < 9 then b % 0x80 * Power128(k) else -(b % 2 * TWO63)
  }

  /** The bytes from `k` on, the ones before having given `acc`. */
  function DecodeFrom(buf: Str, k: nat, acc: int): (r: Outcome)
    decreases MAX_BYTES - k
  {
    if k >= MAX_BYTES then NoEnd
    else if k >= |buf| then NotEnough
    else if buf[k] < 0x80 then Value(acc + Share(buf[k], k), k + 1)
    else DecodeFrom(buf, k + 1, acc + Share(buf[k], k))
  }

  /** A byte below 0x80 stands among the first ten. */
  predicate Ends(buf: Str) { exists k :: 0 <= k < |buf| && k < MAX_BYTES && buf[k] < 0x80 }

  /** varint_decode; with `len` zero or below there is no limit, and the buffer must hold an end or ten bytes. */
  method Decode(buf: Str, len: int) returns (r: Outcome)
    requires if len > 0 then len <= |buf| else Ends(buf) || |buf| >= MAX_BYTES
    ensures r == DecodeFrom(if len > 0 then buf[..len] else buf, 0, 0)
  {
    hide Share, DecodeFrom;
    ghost var all := if len > 0 then buf[..len] else buf;
    var ret, bytes := 0, 0;
    while bytes < MAX_BYTES
      invariant 0 <= bytes <= MAX_BYTES && bytes <= |all|
      invariant DecodeFrom(all, bytes, ret) == DecodeFrom(all, 0, 0)
      invariant forall k :: 0 <= k < bytes ==> all[k] >= 0x80
    {
      if len != 0 && bytes == len {
        DecodeRunsOut(all, ret);
        return NotEnough;
      }
      DecodeStep(all, bytes, ret);
      ret := ret + Share(buf[bytes], bytes);
      bytes := bytes + 1;
      if buf[bytes - 1] < 0x80 {
        return Value(ret, bytes);
      }
    }
    DecodeEnds(all, bytes, ret);
    return NoEnd;
  }

  lemma DecodeRunsOut(buf: Str, acc: int)
    requires |buf| < MAX_BYTES
    ensures DecodeFrom(buf, |buf|, acc) == NotEnough
  {
  }

  lemma DecodeStep(buf: Str, k: nat, acc: int)
    requires k < |buf| && k < MAX_BYTES
    ensures DecodeFrom(buf, k, acc)
      == if buf[k] < 0x80 then Value(acc + Share(buf[k], k), k + 1) else DecodeFrom(buf, k + 1, acc + Share(buf[k], k))
  {
  }

  lemma DecodeEnds(buf: Str, k: nat, acc: int)
    requires k >= MAX_BYTES
    ensures DecodeFrom(buf, k, acc) == NoEnd
  {
  }

  lemma ShareOf(b: Byte, k: nat, v: nat)
    requires k < 9 && b == (if v < 0x80 then v else v % 0x80 + 0x80)
    ensures Share(b, k) == v % 0x80 * Power128(k) && Power128(k + 1) == 0x80 * Power128(k)
  {
    assert b % 0x80 == v % 0x80;
  }

  /** varint_decode inverts varint_encode, with any bytes after it. */
  lemma {:induction false} DecodesEncoded(value: nat, pre: Str, rest: Str, acc: int)
    requires |pre| + |Varint(value)| <= 9
    ensures DecodeFrom(pre + Varint(value) + rest, |pre|, acc)
      == Value(acc + value * Power128(|pre|), |pre| + |Varint(value)|)
    decreases value
  {
    hide Varint, DecodeFrom, Share, Power128;
    VarintStep(value);
    var bytes, k := Varint(value), |pre|;
    var buf := pre + bytes + rest;
    assert buf[k] == bytes[0];
    DecodeStep(buf, k, acc);
    ShareOf(bytes[0], k, value);
    if value >= 0x80 {
      var q := value / 0x80;
      assert pre + [bytes[0]] + Varint(q) + rest == buf;
      DecodesEncoded(q, pre + [bytes[0]], rest, acc + Share(bytes[0], k));
      Recombine(value, q, value % 0x80, Power128(k));
    }
  }

  lemma RoundTrip(value: nat, rest: Str)
    requires value < TWO63
    ensures DecodeFrom(Varint(value) + rest, 0, 0) == Value(value, |Varint(value)|)
  {
    hide Varint;
    AtMostNineBytes(value);
    hide DecodeFrom;
    DecodesEncoded(value, [], rest, 0);
    assert [] + Varint(value) == Varint(value);
  }

  /** A strict prefix is not enough. */
  lemma {:induction false} PrefixIsNotEnough(value: nat, n: nat, k: nat, acc: int)
    requires value < TWO63 && k <= n < |Varint(value)|
    ensures DecodeFrom(Varint(value)[..n], k, acc) == NotEnough
    decreases n - k
  {
    hide Varint, Share, DecodeFrom;
    AtMostNineBytes(value);
    var buf := Varint(value)[..n];
    if k == n {
      DecodeRunsOut(buf, acc);
    } else {
      DecodeStep(buf, k, acc);
      LastByteEnds(value, k);
      PrefixIsNotEnough(value, n, k + 1, acc + Share(Varint(value)[k], k));
    }
  }

  // ----- any bytes -----

  /** The lowest seven bits of the first `n` bytes, by position, the first byte lowest. */
  function LowBits(buf: Str, n: nat): nat
    requires n <= |buf|
  {
    if n == 0 then 0 else LowBits(buf, n - 1) + buf[n - 1] % 0x80 * Power128(n - 1)
  }

  lemma {:induction false} LowBitsBound(buf: Str, n: nat)
    requires n <= |buf|
    ensures LowBits(buf, n) < Power128(n)
  {
    if n > 0 {
      LowBitsBound(buf, n - 1);
      OneMoreSeptet(LowBits(buf, n - 1), buf[n - 1] % 0x80, Power128(n - 1));
    }
  }

  lemma OneMoreSeptet(low: nat, b: nat, p: nat)
    requires low < p && b < 0x80
    ensures low + b * p < 0x80 * p
  {
    assert (0x80 - 1 - b) * p >= 0;
    assert (0x80 - 1 - b) * p == 0x80 * p - p - b * p;
  }

  lemma {:induction false} DecodeGoesOn(buf: Str, n: nat)
    requires n <= 9 && n <= |buf| && forall k :: 0 <= k < n ==> buf[k] >= 0x80
    ensures DecodeFrom(buf, 0, 0) == DecodeFrom(buf, n, LowBits(buf, n))
  {
    hide DecodeFrom;
    if n > 0 {
      DecodeGoesOn(buf, n - 1);
      DecodeStep(buf, n - 1, LowBits(buf, n - 1));
    }
  }

  /** A number of 64 bits with sign, equal to the other one modulo 2^64. */
  predicate Signed64(v: int, sum: nat) {
    -0x8000_0000_0000_0000 <= v < 0x8000_0000_0000_0000 && (sum - v) % 0x1_0000_0000_0000_0000 == 0
  }

  /**
   * Bytes that end at index `n`: the value is the number in two's complement whose bits they hold, of up to 64, and
   * what is behind them does not matter.
   */
  lemma DecodeIsTwosComplement(buf: Str, n: nat)
    requires n < 10 && n < |buf| && buf[n] < 0x80 && forall k :: 0 <= k < n ==> buf[k] >= 0x80
    ensures var r := DecodeFrom(buf, 0, 0); r.Value? && r.bytes == n + 1 && Signed64(r.value, LowBits(buf, n + 1))
  {
    hide DecodeFrom, LowBits;
    DecodeGoesOn(buf, n);
    DecodeStep(buf, n, LowBits(buf, n));
    LowBitsBound(buf, n);
    NineBytes();
    LastSeptet(buf, n);
    if n < 9 {
      LowBitsBound(buf, n + 1);
      PowersGrow(n + 1, 9);
    } else {
      TenthByte(LowBits(buf, 9), buf[9]);
    }
  }

  lemma LastSeptet(buf: Str, n: nat)
    requires n < |buf|
    ensures LowBits(buf, n + 1) == LowBits(buf, n) + buf[n] % 0x80 * Power128(n)
  {
  }

  lemma {:induction false} PowersGrow(m: nat, n: nat)
    requires m <= n
    ensures Power128(m) <= Power128(n)
    decreases n
  {
    if m < n { PowersGrow(m, n - 1); }
  }

  lemma TenthByte(low: nat, b: Byte)
    requires low < TWO63 && b < 0x80
    ensures Signed64(low - b % 2 * TWO63, low + b % 0x80 * TWO63)
  {
    var v, sum := low - b % 2 * TWO63, low + b % 0x80 * TWO63;
    assert sum - v == (b / 2 + b % 2) * 0x1_0000_0000_0000_0000;
  }

  /** Otherwise: fewer than ten bytes that all go on, or ten of them. */
  lemma DecodeFailsIff(buf: Str)
    ensures DecodeFrom(buf, 0, 0) == NotEnough <==> |buf| < 10 && forall k :: 0 <= k < |buf| ==> buf[k] >= 0x80
    ensures DecodeFrom(buf, 0, 0) == NoEnd <==> |buf| >= 10 && forall k :: 0 <= k < 10 ==> buf[k] >= 0x80
  {
    hide DecodeFrom;
    var n := FirstEnd(buf, 0);
    if n < |buf| && n < 10 {
      DecodeIsTwosComplement(buf, n);
    } else if |buf| < 10 {
      DecodeGoesOn(buf, |buf|);
      DecodeRunsOut(buf, LowBits(buf, |buf|));
    } else {
      DecodeGoesOn(buf, 9);
      DecodeStep(buf, 9, LowBits(buf, 9));
      DecodeEnds(buf, 10, LowBits(buf, 9) + Share(buf[9], 9));
    }
  }

  lemma FirstEnd(buf: Str, k: nat) returns (n: nat)
    requires k <= |buf|
    ensures k <= n <= |buf| && (forall i :: k <= i < n ==> buf[i] >= 0x80) && (n < |buf| ==> buf[n] < 0x80)
    decreases |buf| - k
  {
    if k < |buf| && buf[k] >= 0x80 {
      n := FirstEnd(buf, k + 1);
    } else {
      n := k;
    }
  }

  /** Examples of the encoding of protocol buffers. */
  lemma Examples()
    ensures Varint(1) == [0x01] && Varint(150) == [0x96, 0x01] && Varint(300) == [0xac, 0x02]
    ensures Varint(16384) == [0x80, 0x80, 0x01]
  {
    assert Varint(128) == [0x80, 0x01];
  }
}
