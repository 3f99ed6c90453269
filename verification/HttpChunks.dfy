/** HTTP chunked transfer: mg_http_write_chunk, getchunk, and in-place delivery by deliver_chunked_chunks. */
module HttpChunks {
  import opened Bytes
  import opened Bits
  import opened Digits
  import opened Wrappers
  import opened IoBuffer

  const CR: Byte := 0x0d
  const LF: Byte := 0x0a
  const CRLF: Str := [CR, LF]
  const TWO64 := 0x1_0000_0000_0000_0000

  // ----- hexadecimal sizes -----

  /** Lower-case hexadecimal without leading zeros. */
  function HexText(n: nat): (t: Str)
    ensures t != []
  {
    if n < 16 then [HexDigit(n)] else HexText(n / 16) + [HexDigit(n % 16)]
  }

  predicate IsHex(c: Byte) { 0x30 <= c <= 0x39 || 0x61 <= c <= 0x66 || 0x41 <= c <= 0x46 }

  predicate AllHex(t: Str) { forall k :: 0 <= k < |t| ==> IsHex(t[k]) }

  /** mg_unhex_nimble: subtractions of '0', '7' or 'W' modulo 256. */
  function Nibble(c: Byte): Byte {
    if 0x30 <= c <= 0x39 then c - 0x30
    else if 0x41 <= c <= 0x46 then c - 0x37
    else (c + 0x100 - 0x57) % 0x100
  }

  /** mg_unhexn: shift by four, then or, in 64 bits, whatever the bytes are. */
  function Unhex(t: Str): (v: nat)
    ensures v < TWO64
  {
    if t == [] then 0
    else
      SixtyFourBits();
      OrBits(Unhex(t[..|t| - 1]) * 16 % TWO64, Nibble(t[|t| - 1]), 64)
  }

  /** The number the digits stand for. */
  function Value(t: Str): nat {
    if t == [] then 0 else Value(t[..|t| - 1]) * 16 + Nibble(t[|t| - 1])
  }

  lemma HexNibble(c: Byte)
    requires IsHex(c)
    ensures Nibble(c) < 16
  {
  }

  /** Below 2^64 no digit is lost. */
  lemma {:induction false} UnhexIsValue(t: Str)
    requires AllHex(t) && Value(t) < TWO64
    ensures Unhex(t) == Value(t)
  {
    hide Pow2, OrBits, Nibble;
    if t != [] {
      var v, d := Value(t[..|t| - 1]), Nibble(t[|t| - 1]);
      HexNibble(t[|t| - 1]);
      UnhexIsValue(t[..|t| - 1]);
      SixtyFourBits();
      OrIsSum(v, d, 4, 64);
    }
  }

  lemma {:induction false} ValueOfPrefix(t: Str, k: nat)
    requires k <= |t|
    ensures Value(t[..k]) <= Value(t)
  {
    if k == |t| {
      assert t[..k] == t;
    } else {
      assert t[..|t| - 1][..k] == t[..k];
      ValueOfPrefix(t[..|t| - 1], k);
    }
  }

  lemma SixtyFourBits()
    ensures Pow2(64) == TWO64 && Pow2(4) == 16
  {
    assert Pow2(8) == 0x100 by { assert Pow2(6) == 64; }
    Pow2Double(8);
    Pow2Double(16);
    Pow2Double(32);
  }

  lemma {:induction false} Pow2Sum(a: nat, b: nat)
    ensures Pow2(a + b) == Pow2(a) * Pow2(b)
  {
    if a > 0 {
      Pow2Sum(a - 1, b);
      Twice(Pow2(a - 1), Pow2(b));
    } else {
      assert 1 * Pow2(b) == Pow2(b);
    }
  }

  lemma Twice(x: nat, y: nat)
    ensures 2 * (x * y) == 2 * x * y
  {
  }

  lemma Pow2Double(n: nat)
    ensures Pow2(2 * n) == Pow2(n) * Pow2(n)
  {
    Pow2Sum(n, n);
  }

  lemma {:induction false} ValueOfHexText(n: nat)
    ensures AllHex(HexText(n)) && Value(HexText(n)) == n
  {
    var t := HexText(n);
    if n < 16 {
      assert t[..0] == [] && Value([]) == 0;
    } else {
      ValueOfHexText(n / 16);
      assert t[..|t| - 1] == HexText(n / 16);
    }
  }

  /** `t` is `n` in hexadecimal digits of any letter case, with any zeros in front. */
  ghost predicate Denotes(t: Str, n: nat) {
    exists ds: seq<Digit> :: DigitBytes(ds) == t && Positional(Numbers(ds), 16) == n
  }

  lemma DigitNibble(d: Digit)
    ensures IsHex(DigitByte(d)) && Nibble(DigitByte(d)) == d.n
  {
    DigitRanges(d);
  }

  lemma {:induction false} DigitsValue(ds: seq<Digit>)
    ensures AllHex(DigitBytes(ds)) && Value(DigitBytes(ds)) == Positional(Numbers(ds), 16)
    decreases |ds|
  {
    hide IsHex, Nibble, DigitByte;
    if ds != [] {
      var n := |ds| - 1;
      DigitsValue(ds[..n]);
      DigitNibble(ds[n]);
      assert DigitBytes(ds)[..n] == DigitBytes(ds[..n]) && Numbers(ds)[..n] == Numbers(ds[..n]);
      forall k | 0 <= k < |ds| ensures IsHex(DigitBytes(ds)[k]) {
        DigitNibble(ds[k]);
      }
    }
  }

  function DigitOf(c: Byte): Digit
    requires IsHex(c)
  {
    HexNibble(c);
    Digit(Nibble(c), c < 0x61)
  }

  lemma DigitOfByte(c: Byte)
    requires IsHex(c)
    ensures DigitByte(DigitOf(c)) == c
  {
    DigitRanges(DigitOf(c));
  }

  lemma DenotesIff(t: Str, n: nat)
    ensures Denotes(t, n) <==> AllHex(t) && Value(t) == n
  {
    hide Value, Positional, IsHex, DigitByte;
    if Denotes(t, n) {
      var ds: seq<Digit> :| DigitBytes(ds) == t && Positional(Numbers(ds), 16) == n;
      DigitsValue(ds);
    }
    if AllHex(t) && Value(t) == n {
      var ds := seq(|t|, i requires 0 <= i < |t| && IsHex(t[i]) => DigitOf(t[i]));
      forall k | 0 <= k < |t| ensures DigitByte(ds[k]) == t[k] { DigitOfByte(t[k]); }
      assert DigitBytes(ds) == t;
      DigitsValue(ds);
    }
  }

  lemma SameNibble(a: Byte, b: Byte)
    requires SameDigit(a, b)
    ensures Nibble(a) == Nibble(b) && IsHex(a) == IsHex(b)
  {
  }

  /** The letter case of a to f in a size does not matter, whatever the other bytes are. */
  lemma {:induction false} SizeCaseDoesNotMatter(a: Str, b: Str)
    requires |a| == |b| && forall k :: 0 <= k < |a| ==> SameDigit(a[k], b[k])
    ensures Unhex(a) == Unhex(b) && Value(a) == Value(b)
    decreases |a|
  {
    hide OrBits, Nibble, SameDigit;
    if a != [] {
      var n := |a| - 1;
      SameNibble(a[n], b[n]);
      SizeCaseDoesNotMatter(a[..n], b[..n]);
    }
  }

  lemma {:induction false} ZerosDenote(t: Str, z: nat)
    requires z <= |t| && forall k :: 0 <= k < z ==> t[k] == 0x30
    ensures Value(t) == Value(t[z..])
    decreases |t|
  {
    if |t| == z {
      if z > 0 { ZerosDenote(t[..z - 1], z - 1); assert t[..z - 1][z - 1..] == []; }
      assert t[z..] == [];
    } else {
      var n := |t| - 1;
      ZerosDenote(t[..n], z);
      assert t[z..][..n - z] == t[..n][z..];
    }
  }

  /** What the printer writes denotes its number, also with letters in upper case and zeros in front. */
  lemma HexTextDenotes(n: nat, t: Str, z: nat)
    requires |t| == z + |HexText(n)| && forall k :: 0 <= k < z ==> t[k] == 0x30
    requires forall k :: 0 <= k < |HexText(n)| ==> SameDigit(HexText(n)[k], t[z + k])
    ensures Denotes(t, n)
  {
    hide HexText, Value, Denotes, Unhex, Nibble, IsHex, SameDigit;
    var s := HexText(n);
    ValueOfHexText(n);
    SizeCaseDoesNotMatter(s, t[z..]);
    ZerosDenote(t, z);
    forall k | 0 <= k < |t| ensures IsHex(t[k]) {
      if k < z { ZeroIsHex(); } else { SameNibble(s[k - z], t[k]); }
    }
    DenotesIff(t, n);
  }

  lemma ZeroIsHex()
    ensures IsHex(0x30)
  {
  }

  /** mg_unhexn inverts the printer below 2^64. */
  lemma UnhexHexText(n: nat)
    requires n < TWO64
    ensures AllHex(HexText(n)) && Unhex(HexText(n)) == n
  {
    hide Unhex, Value, HexText;
    ValueOfHexText(n);
    UnhexIsValue(HexText(n));
  }

  /** mg_lld for an unsigned hexadecimal: digits low end first, then reversed in place. */
  method PrintHex(val: nat) returns (text: Str)
    requires val < TWO64
    ensures text == HexText(val)
  {
    var buf := new Byte[40];
    var v, n := val, 0;
    ghost var tail: Str := [];
    SixtyFourBits();
    HexLength(val, 16);
    while v > 0
      invariant 0 <= v && n == |tail| <= 16
      invariant val > 0 ==> HexText(val) == if v == 0 then tail else HexText(v) + tail
      invariant val == 0 ==> v == 0 && n == 0
      invariant forall k :: 0 <= k < n ==> buf[k] == tail[n - 1 - k]
    {
      assert |HexText(v)| >= 1 && n < 16;
      HexStep(v, tail);
      buf[n] := HexDigit(v % 16);
      tail := [HexDigit(v % 16)] + tail;
      n := n + 1;
      v := v / 16;
    }
    Reverse(buf, n, tail);
    if val == 0 {
      buf[n] := 0x30;
      n := n + 1;
    }
    text := buf[..n];
  }

  /** Reverse a string */
  method Reverse(buf: array<Byte>, n: nat, ghost tail: Str)
    requires n <= buf.Length && n == |tail| && forall k :: 0 <= k < n ==> buf[k] == tail[n - 1 - k]
    modifies buf
    ensures buf[..n] == tail
  {
    var i := 0;
    while i < n / 2
      invariant 0 <= i <= n / 2
      invariant forall k :: 0 <= k < i || n - i <= k < n ==> buf[k] == tail[k]
      invariant forall k :: i <= k < n - i ==> buf[k] == tail[n - 1 - k]
    {
      buf[i], buf[n - i - 1] := buf[n - i - 1], buf[i];
      i := i + 1;
    }
  }

  lemma HexStep(v: nat, tail: Str)
    requires v > 0
    ensures HexText(v) + tail ==
      if v / 16 == 0 then [HexDigit(v % 16)] + tail else HexText(v / 16) + ([HexDigit(v % 16)] + tail)
  {
    if v >= 16 { Assoc(HexText(v / 16), [HexDigit(v % 16)], tail); }
  }

  lemma {:induction false} HexLength(v: nat, k: nat)
    requires k >= 1 && v < Pow2(4 * k)
    ensures |HexText(v)| <= k
  {
    if v >= 16 {
      SixtyFourBits();
      if k > 1 {
        Pow2Sum(4 * (k - 1), 4);
        HexLength(v / 16, k - 1);
      }
    }
  }

  // ----- chunks on the wire -----

  /** A chunk as sent: its size in hexadecimal and its data. */
  datatype Chunk = Chunk(size: Str, data: Str)

  /** The size is the number of data bytes, and the whole chunk fits into memory. */
  ghost predicate ChunkOk(c: Chunk) {
    Denotes(c.size, |c.data|) && |c.size| + |c.data| + 4 < TWO64
  }

  /** Section 7.1 of RFC 9112. */
  function ChunkBytes(c: Chunk): Str { c.size + CRLF + c.data + CRLF }

  /** mg_http_write_chunk */
  method WriteChunk(send: IoBuf, data: Str)
    requires send.Valid() && |data| + 20 < TWO64
    modifies send, send.buf
    ensures send.Valid() && (send.buf == old(send.buf) || fresh(send.buf))
    ensures var c := Chunk(HexText(|data|), data);
      ChunkOk(c) && send.Contents() == old(send.Contents()) + ChunkBytes(c)
  {
    hide AllHex, Value, HexText, Denotes;
    ValueOfHexText(|data|);
    DenotesIff(HexText(|data|), |data|);
    SixtyFourBits();
    HexLength(|data|, 16);
    ghost var s := send.Contents();
    var size := PrintHex(|data|);
    ghost var head := size + CRLF;
    Append(send, size + CRLF);
    Append(send, data);
    Append(send, CRLF);
    Assoc(s, head, data);
    Assoc(s, head + data, CRLF);
  }

  /** mg_send */
  method Append(send: IoBuf, bytes: Str)
    requires send.Valid()
    modifies send, send.buf
    ensures send.Valid() && (send.buf == old(send.buf) || fresh(send.buf))
    ensures send.Contents() == old(send.Contents()) + bytes
  {
    send.Add(send.len, bytes);
  }

  // ----- getchunk -----

  function LineEnd(s: Str, i: nat): (e: nat)
    requires i <= |s|
    ensures i <= e <= |s|
    decreases |s| - i
  {
    if i < |s| && s[i] != CR && s[i] != LF then LineEnd(s, i + 1) else i
  }

  /** No chunk yet, or a read outside of the bytes received, or a chunk. */
  datatype Verdict = Missing | Astray | Found(prefixLen: nat, dataLen: nat)

  /** The byte at a size_t index is read: does it differ from the one wanted, or lie outside? */
  datatype Reading = Same | Different | Outside

  function ReadAt(s: Str, k: nat, want: Byte): Reading {
    if k >= |s| then Outside else if s[k] == want then Same else Different
  }

  /** A carriage return and a line feed at `k` and `l`, read in this order. */
  function LineBreakAt(s: Str, k: nat, l: nat): Reading {
    if ReadAt(s, k, CR) != Same then ReadAt(s, k, CR) else ReadAt(s, l, LF)
  }

  /** getchunk for a size line of `i` bytes that stand for `n`, with all sums taken modulo 2^64 as the code does. */
  function Judged(s: Str, i: nat, n: nat): Verdict {
    if |s| < (i + n + 4) % TWO64 then Missing
    else
      match LineBreakAt(s, i, (i + 1) % TWO64)
      case Outside => Astray
      case Different => Missing
      case Same =>
        match LineBreakAt(s, (i + n + 2) % TWO64, (i + n + 3) % TWO64)
        case Outside => Astray
        case Different => Missing
        case Same => Found((i + 2) % TWO64, n)
  }

  /** getchunk */
  function GetChunk(s: Str): Verdict {
    var i := LineEnd(s, 0);
    Judged(s, i, Unhex(s[..i]))
  }

  lemma JudgedInFull(s: Str, i: nat, n: nat)
    requires i + n + 4 < TWO64 && i + n + 4 <= |s|
    requires s[i] == s[i + n + 2] == CR && s[i + 1] == s[i + n + 3] == LF
    ensures Judged(s, i, n) == Found(i + 2, n)
  {
  }

  /** The chunk found lies inside the bytes. */
  predicate Inside(s: Str, g: Verdict) {
    g.Missing? || (g.Found? && g.prefixLen + g.dataLen + 2 <= |s|)
  }

  /** The sum of size and framing stays below 2^64. */
  predicate Unwrapped(s: Str) {
    LineEnd(s, 0) + Unhex(s[..LineEnd(s, 0)]) + 4 < TWO64
  }

  /** A chunk accepted lies inside the bytes received exactly if the sum did not wrap. */
  lemma FoundInsideIff(s: Str)
    requires |s| < TWO64 && GetChunk(s).Found?
    ensures Inside(s, GetChunk(s)) <==> Unwrapped(s)
  {
    hide Unhex;
  }

  /** Without the wrap getchunk never leaves the bytes. */
  lemma UnwrappedStaysInside(s: Str)
    requires Unwrapped(s)
    ensures Inside(s, GetChunk(s))
    ensures GetChunk(s).Found? ==> GetChunk(s).prefixLen >= 2
  {
    hide Unhex;
  }

  /** Sizes of at most fifteen digits do not wrap. */
  lemma ShortSizeIsUnwrapped(s: Str)
    requires LineEnd(s, 0) <= 15 && AllHex(s[..LineEnd(s, 0)])
    ensures Unwrapped(s)
  {
    hide Unhex;
    ValueBound(s[..LineEnd(s, 0)]);
    UnhexIsValue(s[..LineEnd(s, 0)]);
  }

  lemma ValueBound(t: Str)
    requires AllHex(t) && |t| <= 15
    ensures Value(t) < 0x1000_0000_0000_0000
  {
    SixteenToThe(t);
    assert Sixteens(5) == 0x10_0000;
    assert Sixteens(10) == 0x10_0000 * Sixteens(5);
    assert Sixteens(15) == 0x10_0000 * Sixteens(10);
    SixteensGrow(|t|, 15);
  }

  function Sixteens(n: nat): (r: nat)
    ensures r > 0
  {
    if n == 0 then 1 else 16 * Sixteens(n - 1)
  }

  lemma {:induction false} SixteensGrow(m: nat, n: nat)
    requires m <= n
    ensures Sixteens(m) <= Sixteens(n)
    decreases n
  {
    if m < n {
      SixteensGrow(m, n - 1);
    }
  }

  lemma {:induction false} SixteenToThe(t: Str)
    requires AllHex(t)
    ensures Value(t) < Sixteens(|t|)
  {
    hide Nibble;
    if t != [] {
      SixteenToThe(t[..|t| - 1]);
      HexNibble(t[|t| - 1]);
    }
  }

  /** fifteen times f, and e */
  const HUGE_SIZE_LINE: Str :=
    [0x66, 0x66, 0x66, 0x66, 0x66, 0x66, 0x66, 0x66, 0x66, 0x66, 0x66, 0x66, 0x66, 0x66, 0x66, 0x65, CR, LF]

  /** Eighteen bytes that announce a chunk of 2^64 - 2: the sum wraps to eighteen, and the chunk is accepted. */
  lemma HugeChunkIsAccepted()
    ensures var s := HUGE_SIZE_LINE;
      GetChunk(s) == Found(18, TWO64 - 2) && !Inside(s, GetChunk(s))
  {
    hide Unhex, Value, LineEnd;
    var t := Fs(15) + [0x65];
    var s := HUGE_SIZE_LINE;
    assert s == t + [CR, LF];
    HugeSize();
    UnhexIsValue(t);
    assert AllHex(t) && s[..16] == t;
    LineEndScans(s, 0, t);
    HugeIsJudged(s);
  }

  lemma HugeIsJudged(s: Str)
    requires |s| == 18 && s[16] == CR && s[17] == LF
    ensures Judged(s, 16, TWO64 - 2) == Found(18, TWO64 - 2)
  {
  }

  lemma HugeSize()
    ensures Value(Fs(15) + [0x65]) == TWO64 - 2
  {
    var f, t := Fs(15), Fs(15) + [0x65];
    FsValue(15);
    assert Sixteens(5) == 0x10_0000;
    assert Sixteens(10) == 0x10_0000 * Sixteens(5);
    assert Sixteens(15) == 0x10_0000 * Sixteens(10);
    assert t[..15] == f;
  }

  function Fs(n: nat): (r: Str)
    ensures |r| == n && forall k :: 0 <= k < n ==> r[k] == 0x66
  {
    seq(n, i => 0x66)
  }

  lemma {:induction false} FsValue(n: nat)
    ensures Value(Fs(n)) == Sixteens(n) - 1
  {
    if n > 0 {
      assert Fs(n)[..n - 1] == Fs(n - 1);
      FsValue(n - 1);
    }
  }

  lemma {:induction false} LineEndScans(s: Str, i: nat, t: Str)
    requires i <= |t| <= |s| && t <= s && AllHex(t) && (|t| < |s| ==> s[|t|] == CR)
    ensures LineEnd(s, i) == |t|
    decreases |t| - i
  {
    if i < |t| { LineEndScans(s, i + 1, t); }
  }

  lemma ChunkIsFound(c: Chunk, rest: Str)
    requires ChunkOk(c)
    ensures GetChunk(ChunkBytes(c) + rest) == Found(|c.size| + 2, |c.data|)
    ensures (ChunkBytes(c) + rest)[|c.size| + 2..|c.size| + 2 + |c.data|] == c.data
  {
    hide Unhex, Value, Judged, Denotes;
    var s, i, n := ChunkBytes(c) + rest, |c.size|, |c.data|;
    DenotesIff(c.size, n);
    JudgedInFull(s, i, n);
    UnhexIsValue(c.size);
    assert s[..i] == c.size && s[i] == CR && s[i + 1] == LF;
    assert s[i + n + 2] == CR && s[i + n + 3] == LF;
    LineEndScans(s, 0, c.size);
  }

  /** Without CRLF behind the data nothing is found, whatever stands there. */
  lemma OpenChunkIsNotFound(size: Str, data: Str, x: Byte, y: Byte, rest: Str)
    requires Denotes(size, |data|) && |size| + |data| + 4 < TWO64 && [x, y] != [0x0d, 0x0a]
    ensures GetChunk(size + [0x0d, 0x0a] + data + [x, y] + rest) == Missing
  {
    hide Unhex, Value, Judged, Denotes;
    var s, i, n := size + [0x0d, 0x0a] + data + [x, y] + rest, |size|, |data|;
    DenotesIff(size, n);
    UnhexIsValue(size);
    assert s[..i] == size && s[i] == CR && s[i + 1] == LF && s[i + n + 2] == x && s[i + n + 3] == y;
    LineEndScans(s, 0, size);
    JudgedOpen(s, i, n);
  }

  lemma JudgedOpen(s: Str, i: nat, n: nat)
    requires i + n + 4 < TWO64 && i + n + 4 <= |s| && !(s[i + n + 2] == CR && s[i + n + 3] == LF)
    ensures Judged(s, i, n) == Missing
  {
  }

  /** Neither is anything found behind a size line that a carriage return or a line feed alone ends. */
  lemma BadSizeLineIsNotFound(size: Str, n: nat, x: Byte, y: Byte, rest: Str)
    requires Denotes(size, n) && |size| + n + 4 < TWO64
    requires (x == 0x0d || x == 0x0a) && [x, y] != [0x0d, 0x0a]
    ensures GetChunk(size + [x, y] + rest) == Missing
  {
    hide Unhex, Value, Judged, Denotes;
    var s, i := size + [x, y] + rest, |size|;
    DenotesIff(size, n);
    UnhexIsValue(size);
    assert s[..i] == size && s[i] == x && s[i + 1] == y;
    LineStops(s, 0, size);
    JudgedBroken(s, i, n);
  }

  lemma JudgedBroken(s: Str, i: nat, n: nat)
    requires i + n + 4 < TWO64 && i + 2 <= |s| && !(s[i] == CR && s[i + 1] == LF)
    ensures Judged(s, i, n) == Missing
  {
  }

  lemma {:induction false} LineStops(s: Str, i: nat, t: Str)
    requires i <= |t| < |s| && t <= s && AllHex(t) && (s[|t|] == 0x0d || s[|t|] == 0x0a)
    ensures LineEnd(s, i) == |t|
    decreases |t| - i
  {
    if i < |t| { LineStops(s, i + 1, t); }
  }

  /** No strict prefix of a chunk is taken for a chunk. */
  lemma PrefixIsNotFound(c: Chunk, k: nat)
    requires ChunkOk(c) && k < |ChunkBytes(c)|
    ensures GetChunk(ChunkBytes(c)[..k]) == Missing
  {
    hide Unhex, Value, Judged, LineEnd, Denotes;
    var s := ChunkBytes(c)[..k];
    DenotesIff(c.size, |c.data|);
    if k <= |c.size| {
      assert s == c.size[..k] && s[..k] == s;
      LineEndScans(s, 0, s);
      ValueOfPrefix(c.size, k);
      UnhexIsValue(s);
      TooFewForChunk(s, k, Value(s));
    } else {
      assert s[..|c.size|] == c.size && s[|c.size|] == CR;
      LineEndScans(s, 0, c.size);
      UnhexIsValue(c.size);
      TooFewForChunk(s, |c.size|, |c.data|);
    }
  }

  lemma TooFewForChunk(s: Str, i: nat, n: nat)
    requires |s| < i + n + 4 < TWO64
    ensures Judged(s, i, n) == Missing
  {
  }

  // ----- delivery -----

  /**
   * The chunks found in `raw`, the raw bytes they take, whether the empty one was among them, and whether all stayed
   * inside the bytes received; where the code leaves them, what it does next is undefined.
   */
  datatype Taken = Taken(chunks: seq<Str>, consumed: nat, last: bool, inside: bool)

  function Take(raw: Str): (r: Taken)
    ensures r.consumed <= |raw|
  {
    var g := GetChunk(raw);
    if !Inside(raw, g) then Taken([], 0, false, false)
    else if g.Missing? then Taken([], 0, false, true)
    else
      var p, n := g.prefixLen, g.dataLen;
      var data := raw[p..p + n];
      if n == 0 then Taken([data], p + 2, true, true)
      else
        var r := Take(raw[p + n + 2..]);
        Taken([data] + r.chunks, p + n + 2 + r.consumed, r.last, r.inside)
  }

  class ChunkedMessage {
    const recv: IoBuf
    var pfnData: nat                 // bytes of body already in place; the deleted mark is never set
    var events: seq<Str>             // the MG_EV_HTTP_CHUNK events
    var bodyLen: Option<nat>         // hm->body.len once the last chunk has been seen

    ghost predicate Valid(hlen: nat)
      reads this, recv, recv.buf
    {
      recv.Valid() && hlen + pfnData <= recv.len
    }

    /** Head and body so far, at the front of the buffer. */
    ghost function Settled(hlen: nat): Str
      reads this, recv, recv.buf
      requires Valid(hlen)
    {
      recv.Contents()[..hlen + pfnData]
    }

    /** Bytes not yet looked at. */
    ghost function Raw(hlen: nat): Str
      reads this, recv, recv.buf
      requires Valid(hlen)
    {
      recv.Contents()[hlen + pfnData..]
    }

    constructor ()
      ensures fresh(recv) && fresh(recv.buf) && Valid(0) && recv.Contents() == [] && pfnData == 0
      ensures events == [] && bodyLen == None
    {
      recv := new IoBuf(2048, 2048);
      pfnData, events, bodyLen := 0, [], None;
    }

    /**
     * deliver_chunked_chunks with a handler that deletes nothing: every complete chunk is moved down onto
     * the end of the body, and the bytes freed by the framing are removed once at the end. Where the code would
     * read or copy outside of the bytes received, the model stops with `inside` false.
     */
    method DeliverChunkedChunks(hlen: nat) returns (last: bool, inside: bool)
      requires Valid(hlen)
      modifies this, recv, recv.buf
      ensures recv.Valid() && recv.buf == old(recv.buf) && inside == Take(old(Raw(hlen))).inside
      ensures var t := Take(old(Raw(hlen)));
        var body := Concat(t.chunks);
        last == t.last && events == old(events) + t.chunks
      ensures var t := Take(old(Raw(hlen)));
        var body := Concat(t.chunks);
        inside ==>
        recv.Contents() == old(Settled(hlen)) + body + old(Raw(hlen))[t.consumed..] &&
        (if last then pfnData == 0 && bodyLen == Some(old(pfnData) + |body|)
         else pfnData == old(pfnData) + |body| && bodyLen == old(bodyLen))
    {
      hide Take, GetChunk, Concat, Joined;
      ghost var settled, raw := Settled(hlen), Raw(hlen);
      assert recv.Contents() == settled + raw;
      var processed: nat := pfnData;
      var del: nat, ofs: nat := 0, 0;
      var start := hlen + processed;     // buf
      last, inside := false, true;
      ghost var taken: seq<Str> := [];
      NothingTaken(settled, raw);
      var more := true;
      while more
        invariant InPlace(start, ofs, settled, raw, taken)
        invariant recv.buf == old(recv.buf) && recv.len == old(recv.len)
        invariant hlen + processed == start + |Concat(taken)| && hlen + processed + del == start + ofs
        invariant events == old(events) + taken
        invariant pfnData == old(pfnData) && bodyLen == old(bodyLen)
        invariant if more then !last && inside && Take(raw) == Joined(taken, ofs, Take(raw[ofs..]))
                  else Take(raw) == Taken(taken, ofs, last, inside)
        decreases more, |raw| - ofs
      {
        ghost var data;
        ghost var o := ofs;
        more, last, inside, ofs, processed, del, data :=
          DeliverOne(hlen, start, ofs, processed, del, settled, raw, taken);
        if ofs != o {
          TakeStep(taken, data, raw, o, ofs, last);
          taken := taken + [data];
        } else {
          TakeStops(taken, raw, ofs, inside);
        }
      }
      if inside {
        Finish(hlen, start, ofs, processed, del, last, settled, raw, taken);
      }
    }

    /** The end of the function: the framing bytes are removed and the progress is recorded. */
    method Finish(hlen: nat, start: nat, ofs: nat, processed: nat, del: nat, last: bool,
                  ghost settled: Str, ghost raw: Str, ghost taken: seq<Str>)
      requires InPlace(start, ofs, settled, raw, taken)
      requires hlen + processed == start + |Concat(taken)| && hlen + processed + del == start + ofs
      modifies this, recv, recv.buf
      ensures recv.Valid() && recv.buf == old(recv.buf) && events == old(events)
      ensures recv.Contents() == settled + Concat(taken) + raw[ofs..]
      ensures last ==> pfnData == 0 && bodyLen == Some(processed)
      ensures !last ==> pfnData == processed && bodyLen == old(bodyLen)
    {
      hide Concat;
      CloseGap(recv.Contents(), settled + Concat(taken), raw, start, ofs, del);
      recv.Del(hlen + processed, del);
      pfnData := processed;
      if last {
        bodyLen := Some(processed);
        pfnData := 0;
      }
    }

    /** The chunks taken so far lie compacted behind `settled`; the raw bytes from `ofs` on are untouched. */
    ghost predicate InPlace(start: nat, ofs: nat, settled: Str, raw: Str, taken: seq<Str>)
      reads this, recv, recv.buf
    {
      recv.Valid() && Compacted(recv.Contents(), start, ofs, settled, raw, taken)
    }

    /** One evaluation of the loop condition, and the loop body when a chunk is complete. */
    method DeliverOne(hlen: nat, start: nat, ofs: nat, processed: nat, del: nat,
                      ghost settled: Str, ghost raw: Str, ghost taken: seq<Str>)
      returns (more: bool, last: bool, inside: bool, ofs': nat, processed': nat, del': nat, ghost data: Str)
      requires InPlace(start, ofs, settled, raw, taken)
      requires hlen + processed == start + |Concat(taken)| && hlen + processed + del == start + ofs
      modifies this`events, recv.buf
      ensures more ==> ofs' > ofs
      ensures if ofs' == ofs then
          !last && !more && StopsAt(raw, ofs, inside) &&
          events == old(events) && recv.Contents() == old(recv.Contents()) &&
          recv.Valid() && processed' == processed && del' == del
        else
          inside && InPlace(start, ofs', settled, raw, taken + [data]) && Next(raw, ofs, data, ofs') && more == !last &&
          last == (data == []) && events == old(events) + [data] &&
          hlen + processed' == start + |Concat(taken + [data])| && hlen + processed' + del' == start + ofs'
    {
      hide GetChunk, Concat;
      more, last, inside, ofs', processed', del', data := false, false, true, ofs, processed, del, [];
      var pending := recv.buf[start + ofs..recv.len];
      assert pending == raw[ofs..];
      var g := GetChunk(pending);
      if !Inside(pending, g) {
        inside := false;
        return;
      }
      if g.Missing? {
        return;
      }
      var pl, dl := g.prefixLen, g.dataLen;
      data := pending[pl..pl + dl];
      PlaceChunk(hlen + processed, start, ofs, pl, dl, settled, raw, taken);
      var chunk := recv.buf[hlen + processed..hlen + processed + dl];
      events := events + [chunk];
      ofs', del', processed' := ofs + pl + dl + 2, del + pl + 2, processed + dl;
      last := dl == 0;
      more := !last;
      ConcatOne(taken, data, settled);
    }

    /** memmove(p + processed, buf + ofs + pl, dl) */
    method PlaceChunk(dst: nat, start: nat, ofs: nat, pl: nat, dl: nat,
                      ghost settled: Str, ghost raw: Str, ghost taken: seq<Str>)
      requires InPlace(start, ofs, settled, raw, taken) && dst == start + |Concat(taken)|
      requires ofs + pl + dl + 2 <= |raw|
      modifies recv.buf
      ensures var data := raw[ofs..][pl..pl + dl];
        InPlace(start, ofs + pl + dl + 2, settled, raw, taken + [data]) && recv.buf[dst..dst + dl] == data
    {
      hide Concat, Compacted;
      ghost var s, data := recv.Contents(), raw[ofs..][pl..pl + dl];
      ChunkSlice(s, start, ofs, pl, dl, settled, raw, taken);
      recv.MoveDown(dst, start + ofs + pl, dl);
      OneMoreCompacted(s, recv.Contents(), start, ofs, pl, dl, settled, raw, taken);
    }
  }

  /** `data` is the chunk at `ofs`, and the bytes after it start at `next`. */
  ghost predicate Next(raw: Str, ofs: nat, data: Str, next: nat)
    requires ofs <= |raw|
  {
    var g := GetChunk(raw[ofs..]);
    g.Found? && Inside(raw[ofs..], g) && data == raw[ofs..][g.prefixLen..g.prefixLen + g.dataLen] &&
    next == ofs + g.prefixLen + g.dataLen + 2
  }

  /** The loop ends at `ofs`: without a chunk, or by leaving the bytes. */
  ghost predicate StopsAt(raw: Str, ofs: nat, inside: bool)
    requires ofs <= |raw|
  {
    var g := GetChunk(raw[ofs..]);
    if inside then g.Missing? else !Inside(raw[ofs..], g)
  }

  function Joined(taken: seq<Str>, ofs: nat, r: Taken): Taken {
    Taken(taken + r.chunks, ofs + r.consumed, r.last, r.inside)
  }

  lemma TakeStep(taken: seq<Str>, data: Str, raw: Str, ofs: nat, next: nat, last: bool)
    requires ofs <= next <= |raw| && Next(raw, ofs, data, next) && last == (data == [])
    ensures Joined(taken, ofs, Take(raw[ofs..])) ==
      if last then Taken(taken + [data], next, true, true) else Joined(taken + [data], next, Take(raw[next..]))
  {
    hide GetChunk;
    assert raw[ofs..][next - ofs..] == raw[next..];
    Assoc(taken, [data], Take(raw[next..]).chunks);
  }

  lemma TakeStops(taken: seq<Str>, raw: Str, ofs: nat, inside: bool)
    requires ofs <= |raw| && StopsAt(raw, ofs, inside)
    ensures Joined(taken, ofs, Take(raw[ofs..])) == Taken(taken, ofs, false, inside)
  {
    hide GetChunk;
    assert taken + [] == taken;
  }

  /** Bytes that agree from `a` on agree from every later position on. */
  /** The bytes of a buffer whose chunks taken so far are compacted. */
  ghost predicate Compacted(s: Str, start: nat, ofs: nat, settled: Str, raw: Str, taken: seq<Str>) {
    start == |settled| && start + |raw| == |s| && |Concat(taken)| <= ofs <= |raw| &&
    s[..start + |Concat(taken)|] == settled + Concat(taken) && s[start + ofs..] == raw[ofs..]
  }

  /** Where the next chunk stands. */
  lemma ChunkSlice(s: Str, start: nat, ofs: nat, pl: nat, dl: nat, settled: Str, raw: Str, taken: seq<Str>)
    requires Compacted(s, start, ofs, settled, raw, taken) && ofs + pl + dl <= |raw|
    ensures start + |Concat(taken)| <= start + ofs && start + ofs + pl + dl <= |s|
    ensures s[start + ofs + pl..start + ofs + pl + dl] == raw[ofs..][pl..pl + dl]
  {
    hide Concat;
    assert s[start + ofs..][pl..pl + dl] == s[start + ofs + pl..start + ofs + pl + dl];
  }

  /** The next chunk has been moved down. */
  lemma OneMoreCompacted(s: Str, t: Str, start: nat, ofs: nat, pl: nat, dl: nat,
                         settled: Str, raw: Str, taken: seq<Str>)
    requires Compacted(s, start, ofs, settled, raw, taken) && ofs + pl + dl + 2 <= |raw| && |t| == |s|
    requires var dst, data := start + |Concat(taken)|, raw[ofs..][pl..pl + dl];
      dst + dl <= |t| && t[..dst + dl] == s[..dst] + data &&
      t[start + ofs + pl + dl..] == s[start + ofs + pl + dl..]
    ensures Compacted(t, start, ofs + pl + dl + 2, settled, raw, taken + [raw[ofs..][pl..pl + dl]])
  {
    hide Concat;
    ConcatOne(taken, raw[ofs..][pl..pl + dl], settled);
    TailsAgree(s, t, start + ofs, pl + dl, raw, ofs);
  }

  lemma TailsAgree(s: Str, t: Str, at: nat, n: nat, raw: Str, ofs: nat)
    requires ofs <= |raw| && at <= |s| == |t| && s[at..] == raw[ofs..] && at + n + 2 <= |s|
    requires t[at + n..] == s[at + n..]
    ensures t[at + n + 2..] == raw[ofs + n + 2..]
  {
    assert t[at + n + 2..] == t[at + n..][2..] == s[at + n..][2..] == s[at..][n + 2..] == raw[ofs..][n + 2..];
  }

  lemma NothingTaken(settled: Str, raw: Str)
    ensures Concat([]) == [] && settled + Concat([]) == settled && raw[0..] == raw
    ensures Joined([], 0, Take(raw)) == Take(raw)
  {
    hide Take;
    assert [] + Take(raw).chunks == Take(raw).chunks;
  }

  lemma ConcatOne(taken: seq<Str>, data: Str, settled: Str)
    ensures Concat(taken + [data]) == Concat(taken) + data
    ensures settled + Concat(taken + [data]) == (settled + Concat(taken)) + data
  {
    ConcatAppend(taken, [data]);
    assert Concat([data]) == data + Concat([]) == data;
    Assoc(settled, Concat(taken), data);
  }

  /** Deleting the framing bytes behind the compacted body joins it to what follows. */
  lemma CloseGap(s: Str, front: Str, raw: Str, start: nat, ofs: nat, del: nat)
    requires ofs <= |raw| && |front| + del == start + ofs
    requires |s| == start + |raw| && s[..|front|] == front && s[start + ofs..] == raw[ofs..]
    ensures Deleted(s, |front|, del) == front + raw[ofs..]
  {
  }

  // ----- any division into reads -----

  function WireChunks(cs: seq<Chunk>): Str {
    if cs == [] then [] else ChunkBytes(cs[0]) + WireChunks(cs[1..])
  }

  /** Non-empty chunks and the empty terminator, or nothing any more. */
  ghost predicate BodyOk(cs: seq<Chunk>) {
    (forall c :: c in cs ==> ChunkOk(c)) &&
    forall k :: 0 <= k < |cs| ==> (cs[k].data == [] <==> k == |cs| - 1)
  }

  function Datas(cs: seq<Chunk>): seq<Str> {
    if cs == [] then [] else [cs[0].data] + Datas(cs[1..])
  }

  /** The chunks complete in `t`, the bytes after them, and the chunks still to come. */
  datatype Fed = Fed(chunks: seq<Str>, rest: Str, left: seq<Chunk>)

  function Feed(cs: seq<Chunk>, t: Str): (r: Fed)
    ensures |r.rest| <= |t|
  {
    if cs == [] || |t| < |ChunkBytes(cs[0])| then Fed([], t, cs) else
    var r := Feed(cs[1..], t[|ChunkBytes(cs[0])|..]);
    r.(chunks := [cs[0].data] + r.chunks)
  }

  lemma {:induction false} FeedTwice(cs: seq<Chunk>, t: Str, u: Str)
    ensures var r := Feed(cs, t);
      var q := Feed(r.left, r.rest + u);
      Feed(cs, t + u) == q.(chunks := r.chunks + q.chunks)
    decreases |cs|
  {
    hide ChunkBytes;
    if cs == [] || |t| < |ChunkBytes(cs[0])| {
      assert [] + Feed(cs, t + u).chunks == Feed(cs, t + u).chunks;
    } else {
      var n := |ChunkBytes(cs[0])|;
      assert (t + u)[n..] == t[n..] + u;
      FeedTwice(cs[1..], t[n..], u);
      var r := Feed(cs[1..], t[n..]);
      Assoc([cs[0].data], r.chunks, Feed(r.left, r.rest + u).chunks);
    }
  }

  lemma {:induction false} FeedLeft(cs: seq<Chunk>, t: Str, u: Str, rest: Str)
    requires BodyOk(cs) && t + u <= WireChunks(cs) + rest
    ensures var r := Feed(cs, t); BodyOk(r.left) && r.rest + u <= WireChunks(r.left) + rest
    ensures var r := Feed(cs, t); Feed(r.left, r.rest) == Fed([], r.rest, r.left)
    decreases |cs|
  {
    hide ChunkBytes, BodyOk;
    if cs != [] && |t| >= |ChunkBytes(cs[0])| {
      var n := |ChunkBytes(cs[0])|;
      assert (t + u)[n..] == t[n..] + u;
      assert (WireChunks(cs) + rest)[n..] == WireChunks(cs[1..]) + rest;
      PrefixDrop(t + u, WireChunks(cs) + rest, n);
      TailOk(cs);
      FeedLeft(cs[1..], t[n..], u, rest);
    }
  }

  lemma TailOk(cs: seq<Chunk>)
    requires BodyOk(cs) && cs != []
    ensures BodyOk(cs[1..]) && ChunkOk(cs[0]) && (cs[0].data == [] <==> cs[1..] == [])
  {
    hide ChunkOk;
    assert cs[0] in cs && forall c :: c in cs[1..] ==> c in cs;
  }

  /** The delivery loop takes exactly the chunks complete in what has arrived, and stops after the empty one. */
  lemma {:induction false} TakeFeeds(cs: seq<Chunk>, t: Str, rest: Str)
    requires BodyOk(cs) && cs != [] && t <= WireChunks(cs) + rest
    ensures var r := Feed(cs, t);
      Take(t) == Taken(r.chunks, |t| - |r.rest|, r.left == [], true) && t[|t| - |r.rest|..] == r.rest
    decreases |cs|
  {
    hide ChunkBytes, ChunkOk, BodyOk, GetChunk, Take;
    var c, n := cs[0], |ChunkBytes(cs[0])|;
    TailOk(cs);
    assert WireChunks(cs) + rest == ChunkBytes(c) + (WireChunks(cs[1..]) + rest);
    if |t| < n {
      assert t == ChunkBytes(c)[..|t|];
      PrefixIsNotFound(c, |t|);
      TakeUnfolds(t);
    } else {
      PrefixDrop(t, WireChunks(cs) + rest, n);
      assert t == ChunkBytes(c) + t[n..];
      TakeChunk(c, t[n..]);
      if cs[1..] == [] {
        assert Feed(cs, t) == Fed([c.data], t[n..], []);
      } else {
        assert (WireChunks(cs) + rest)[n..] == WireChunks(cs[1..]) + rest;
        TakeFeeds(cs[1..], t[n..], rest);
      }
    }
  }

  /** A whole chunk in front of other bytes. */
  lemma TakeChunk(c: Chunk, u: Str)
    requires ChunkOk(c)
    ensures Take(ChunkBytes(c) + u) ==
      if c.data == [] then Taken([[]], |ChunkBytes(c)|, true, true) else Joined([c.data], |ChunkBytes(c)|, Take(u))
  {
    hide ChunkOk, ChunkBytes, GetChunk;
    ChunkLength(c);
    ChunkIsFound(c, u);
    assert (ChunkBytes(c) + u)[|ChunkBytes(c)|..] == u;
  }

  lemma ChunkLength(c: Chunk)
    ensures |ChunkBytes(c)| == |c.size| + 2 + |c.data| + 2
  {
  }

  /**
   * A message being received: body in place, raw bytes behind it, chunk events, whether it is complete, and whether
   * the code has stayed inside the bytes received.
   */
  datatype Stream = Stream(body: Str, raw: Str, events: seq<Str>, complete: bool, inside: bool)

  const FRESH := Stream([], [], [], false, true)

  /** A read, and the delivery it triggers while the message is incomplete. */
  function OnRead(st: Stream, bytes: Str): Stream {
    var raw := st.raw + bytes;
    if st.complete || !st.inside then st.(raw := raw)
    else
      var t := Take(raw);
      Stream(st.body + Concat(t.chunks), raw[t.consumed..], st.events + t.chunks, t.last, t.inside)
  }

  function OnReads(st: Stream, parts: seq<Str>): Stream
    decreases |parts|
  {
    if parts == [] then st else OnReads(OnRead(st, parts[0]), parts[1..])
  }

  /** After any reads of a prefix of the stream: the complete chunks are in place, in order, and nothing else is. */
  lemma {:induction false} ReadsFeed(cs: seq<Chunk>, st: Stream, parts: seq<Str>, rest: Str)
    requires BodyOk(cs) && st.inside && st.complete == (cs == []) && Feed(cs, st.raw) == Fed([], st.raw, cs)
    requires st.raw + Concat(parts) <= WireChunks(cs) + rest
    ensures var f := Feed(cs, st.raw + Concat(parts));
      OnReads(st, parts) == Stream(st.body + Concat(f.chunks), f.rest, st.events + f.chunks, f.left == [], true)
    decreases |parts|
  {
    hide Feed, Take, WireChunks, BodyOk;
    if parts == [] {
      assert st.raw + [] == st.raw && st.body + [] == st.body && st.events + [] == st.events;
    } else {
      var t, u := st.raw + parts[0], Concat(parts[1..]);
      Assoc(st.raw, parts[0], u);
      PrefixOfPrefix(t, u, WireChunks(cs) + rest);
      FeedLeft(cs, t, u, rest);
      FeedTwice(cs, t, u);
      OneRead(cs, st, parts[0], rest);
      var f := Feed(cs, t);
      ReadsFeed(f.left, OnRead(st, parts[0]), parts[1..], rest);
      var q := Feed(f.left, f.rest + u);
      ConcatAppend(f.chunks, q.chunks);
      Assoc(st.body, Concat(f.chunks), Concat(q.chunks));
      Assoc(st.events, f.chunks, q.chunks);
    }
  }

  lemma OneRead(cs: seq<Chunk>, st: Stream, bytes: Str, rest: Str)
    requires BodyOk(cs) && st.inside && st.complete == (cs == []) && st.raw + bytes <= WireChunks(cs) + rest
    ensures var f := Feed(cs, st.raw + bytes);
      OnRead(st, bytes) == Stream(st.body + Concat(f.chunks), f.rest, st.events + f.chunks, f.left == [], true)
  {
    hide Take, BodyOk, WireChunks;
    if cs == [] {
      assert st.body + [] == st.body && st.events + [] == st.events;
    } else {
      TakeFeeds(cs, st.raw + bytes, rest);
    }
  }

  lemma {:induction false} FeedAll(cs: seq<Chunk>, rest: Str)
    ensures Feed(cs, WireChunks(cs) + rest) == Fed(Datas(cs), rest, [])
    decreases |cs|
  {
    hide ChunkBytes;
    if cs == [] {
      assert [] + rest == rest;
    } else {
      var n := |ChunkBytes(cs[0])|;
      assert (WireChunks(cs) + rest)[n..] == WireChunks(cs[1..]) + rest;
      FeedAll(cs[1..], rest);
    }
  }

  /** For any read boundaries the body ends up as the concatenation of the chunks, followed by the untouched rest. */
  lemma BodyIsReassembled(cs: seq<Chunk>, parts: seq<Str>, rest: Str)
    requires BodyOk(cs) && cs != [] && Concat(parts) == WireChunks(cs) + rest
    ensures OnReads(FRESH, parts) == Stream(Concat(Datas(cs)), rest, Datas(cs), true, true)
  {
    hide Feed, WireChunks, OnReads, BodyOk;
    FeedNothing(cs);
    assert [] + Concat(parts) == Concat(parts);
    ReadsFeed(cs, FRESH, parts, rest);
    FeedAll(cs, rest);
    assert [] + Concat(Datas(cs)) == Concat(Datas(cs)) && [] + Datas(cs) == Datas(cs);
  }

  lemma FeedNothing(cs: seq<Chunk>)
    ensures Feed(cs, []) == Fed([], [], cs)
  {
    if cs != [] { ChunkLength(cs[0]); }
  }

  lemma {:induction false} AstrayForGood(st: Stream, parts: seq<Str>)
    requires !st.inside
    ensures !OnReads(st, parts).inside
    decreases |parts|
  {
    hide Take;
    if parts != [] {
      AstrayForGood(OnRead(st, parts[0]), parts[1..]);
    }
  }

  /** The buffer itself, read by read, for any bytes, with `head` the request already parsed. */
  method ReceiveReads(m: ChunkedMessage, head: Str, parts: seq<Str>) returns (inside: bool)
    requires m.Valid(|head|) && m.recv.Contents() == head && m.pfnData == 0 && m.events == [] && m.bodyLen == None
    modifies m, m.recv, m.recv.buf
    ensures inside == OnReads(FRESH, parts).inside
    ensures inside ==> Reflects(m, head, OnReads(FRESH, parts))
  {
    hide OnRead;
    var i, complete := 0, false;
    inside := true;
    ghost var st := FRESH;
    assert parts[0..] == parts;
    assert m.recv.Contents() == head + [] + [];
    while i < |parts|
      invariant 0 <= i <= |parts| && (m.recv.buf == old(m.recv.buf) || fresh(m.recv.buf))
      invariant Reflects(m, head, st) && complete == st.complete
      invariant inside && st.inside && OnReads(st, parts[i..]) == OnReads(FRESH, parts)
    {
      assert parts[i..][0] == parts[i] && parts[i..][1..] == parts[i + 1..];
      complete, inside := ReceiveRead(m, head, st, complete, parts[i]);
      if !inside {
        AstrayForGood(OnRead(st, parts[i]), parts[i + 1..]);
        return;
      }
      st := OnRead(st, parts[i]);
      i := i + 1;
    }
    assert parts[i..] == [];
  }

  /** The message and its buffer after some reads, with `head` the request already parsed. */
  ghost predicate Reflects(m: ChunkedMessage, head: Str, st: Stream)
    reads m, m.recv, m.recv.buf
  {
    m.recv.Valid() && m.recv.Contents() == head + st.body + st.raw && m.events == st.events &&
    if st.complete then m.bodyLen == Some(|st.body|) else m.pfnData == |st.body| && m.bodyLen == None
  }

  /** One read, appended and delivered. */
  method ReceiveRead(m: ChunkedMessage, head: Str, ghost st: Stream, complete: bool, bytes: Str)
    returns (last: bool, inside: bool)
    requires Reflects(m, head, st) && complete == st.complete && st.inside
    modifies m, m.recv, m.recv.buf
    ensures m.recv.buf == old(m.recv.buf) || fresh(m.recv.buf)
    ensures inside == OnRead(st, bytes).inside
    ensures inside ==> last == OnRead(st, bytes).complete && Reflects(m, head, OnRead(st, bytes))
  {
    hide Take, Concat, OnRead;
    OnReadIs(st, bytes);
    Append(m.recv, bytes);
    Assoc(head + st.body, st.raw, bytes);
    if complete {
      return true, true;
    }
    ghost var raw := st.raw + bytes;
    assert m.Settled(|head|) == head + st.body && m.Raw(|head|) == raw;
    last, inside := m.DeliverChunkedChunks(|head|);
    Assoc(head, st.body, Concat(Take(raw).chunks));
  }

  lemma OnReadIs(st: Stream, bytes: Str)
    requires st.inside
    ensures var raw, t := st.raw + bytes, Take(st.raw + bytes);
      OnRead(st, bytes) == if st.complete then st.(raw := raw)
        else Stream(st.body + Concat(t.chunks), raw[t.consumed..], st.events + t.chunks, t.last, t.inside)
  {
  }

  /** A chunked body in any reads: the buffer holds the head, the joined chunks, and the bytes after the body. */
  method ReceiveBody(m: ChunkedMessage, head: Str, parts: seq<Str>, ghost cs: seq<Chunk>, ghost rest: Str)
    requires m.Valid(|head|) && m.recv.Contents() == head && m.pfnData == 0 && m.events == [] && m.bodyLen == None
    requires BodyOk(cs) && cs != [] && Concat(parts) == WireChunks(cs) + rest
    modifies m, m.recv, m.recv.buf
    ensures m.recv.Valid() && m.recv.Contents() == head + Concat(Datas(cs)) + rest
    ensures m.bodyLen == Some(|Concat(Datas(cs))|) && m.events == Datas(cs)
  {
    hide OnReads, OnRead, WireChunks, BodyOk, Concat;
    BodyIsReassembled(cs, parts, rest);
    var inside := ReceiveReads(m, head, parts);
  }

  // ----- any bytes -----

  lemma {:induction false} LineEndAppend(a: Str, b: Str, i: nat)
    requires i <= |a| && LineEnd(a, i) < |a|
    ensures LineEnd(a + b, i) == LineEnd(a, i)
    decreases |a| - i
  {
    if a[i] != CR && a[i] != LF {
      LineEndAppend(a, b, i + 1);
    }
  }

  /** A chunk found inside the bytes is found again when more have arrived. */
  lemma FoundAppend(a: Str, b: Str)
    requires GetChunk(a).Found? && Inside(a, GetChunk(a))
    ensures GetChunk(a + b) == GetChunk(a) && Inside(a + b, GetChunk(a))
  {
    hide Unhex;
    LineEndAppend(a, b, 0);
    var i := LineEnd(a, 0);
    assert (a + b)[..i] == a[..i];
  }

  /** Bytes that arrive later are taken as if they had been there, as long as the code stays inside. */
  lemma {:induction false} TakeAppend(a: Str, b: Str)
    requires Take(a).inside
    ensures var t := Take(a);
      if t.last then Take(a + b) == t else Take(a + b) == Joined(t.chunks, t.consumed, Take(a[t.consumed..] + b))
    decreases |a|
  {
    hide GetChunk, Take, Inside;
    var g := GetChunk(a);
    TakeUnfolds(a);
    if g.Missing? {
      assert a[0..] == a && [] + Take(a + b).chunks == Take(a + b).chunks;
    } else {
      FoundAppend(a, b);
      TakeUnfolds(a + b);
      var p, n := g.prefixLen, g.dataLen;
      var data, tail := a[p..p + n], a[p + n + 2..];
      assert (a + b)[p..p + n] == data && (a + b)[p + n + 2..] == tail + b;
      if n != 0 {
        TakeAppend(tail, b);
        var t := Take(tail);
        assert a[p + n + 2 + t.consumed..] == tail[t.consumed..];
        Assoc([data], t.chunks, Take(tail[t.consumed..] + b).chunks);
      }
    }
  }

  /** The front of the bytes decides how the loop goes on. */
  lemma TakeUnfolds(s: Str)
    ensures var g := GetChunk(s);
      if !Inside(s, g) then Take(s) == Taken([], 0, false, false)
      else if g.Missing? then Take(s) == Taken([], 0, false, true)
      else
        g.Found? && g.prefixLen + g.dataLen + 2 <= |s| &&
        Take(s) ==
          (var data := s[g.prefixLen..g.prefixLen + g.dataLen];
           if g.dataLen == 0 then Taken([data], g.prefixLen + 2, true, true)
           else Joined([data], g.prefixLen + g.dataLen + 2, Take(s[g.prefixLen + g.dataLen + 2..])))
  {
    hide GetChunk;
  }

  /** Two reads are one read with the bytes joined. */
  lemma ReadTwice(st: Stream, a: Str, b: Str)
    requires OnRead(st, a).inside
    ensures OnRead(OnRead(st, a), b) == OnRead(st, a + b)
  {
    hide Take;
    Assoc(st.raw, a, b);
    if st.inside && !st.complete {
      var raw := st.raw + a;
      TakeAppend(raw, b);
      var t := Take(raw);
      if t.last {
        assert (raw + b)[t.consumed..] == raw[t.consumed..] + b;
      } else {
        var u := Take(raw[t.consumed..] + b);
        ConcatAppend(t.chunks, u.chunks);
        Assoc(st.body, Concat(t.chunks), Concat(u.chunks));
        Assoc(st.events, t.chunks, u.chunks);
        assert (raw + b)[t.consumed + u.consumed..] == (raw[t.consumed..] + b)[u.consumed..];
      }
    }
  }

  /** For any bytes and any cuts, as long as the code stays inside: the outcome is that of a single read of them all. */
  lemma {:induction false} CuttingDoesNotMatter(st: Stream, parts: seq<Str>)
    requires OnReads(st, parts).inside && OnRead(st, []) == st
    ensures OnReads(st, parts) == OnRead(st, Concat(parts))
    decreases |parts|
  {
    hide Take, OnRead;
    if parts != [] {
      var u := OnRead(st, parts[0]);
      if !u.inside {
        AstrayForGood(u, parts[1..]);
      }
      ReadTwice(st, parts[0], []);
      assert parts[0] + [] == parts[0];
      CuttingDoesNotMatter(u, parts[1..]);
      ReadTwice(st, parts[0], Concat(parts[1..]));
    }
  }

  lemma FreshStays()
    ensures OnRead(FRESH, []) == FRESH
  {
    var empty: Str := [];
    assert LineEnd(empty, 0) == 0 && empty[..0] == [] && Unhex([]) == 0;
    assert GetChunk(empty) == Missing;
    hide GetChunk;
    assert Take(empty) == Taken([], 0, false, true) && empty[0..] == empty && empty + empty == empty;
    assert Concat([]) == [];
  }

  /** The code stays inside the bytes whichever part of them has arrived. */
  ghost predicate InsideThroughout(s: Str) {
    forall k :: 0 <= k <= |s| ==> Take(s[..k]).inside
  }

  lemma FirstRead(a: Str)
    ensures OnRead(FRESH, a).inside == Take(a).inside
  {
    assert [] + a == a;
  }

  lemma {:induction false} CutsStayInside(a: Str, parts: seq<Str>)
    requires InsideThroughout(a + Concat(parts))
    ensures OnReads(OnRead(FRESH, a), parts).inside
    decreases |parts|
  {
    hide Take, OnRead;
    var s := a + Concat(parts);
    assert s[..|a|] == a;
    FirstRead(a);
    if parts != [] {
      ReadTwice(FRESH, a, parts[0]);
      Assoc(a, parts[0], Concat(parts[1..]));
      CutsStayInside(a + parts[0], parts[1..]);
    }
  }

  /**
   * For every byte string: all ways of cutting it into reads have the outcome of a single read, and stay inside the
   * bytes, exactly if getchunk stays inside every part of it that can have arrived.
   */
  lemma CuttingDoesNotMatterIff(s: Str)
    ensures (forall parts :: Concat(parts) == s ==>
               OnReads(FRESH, parts).inside && OnReads(FRESH, parts) == OnRead(FRESH, s)) <==>
            InsideThroughout(s)
  {
    hide Take, OnRead, OnReads, InsideThroughout;
    if InsideThroughout(s) {
      forall parts | Concat(parts) == s
        ensures OnReads(FRESH, parts).inside && OnReads(FRESH, parts) == OnRead(FRESH, s)
      {
        assert [] + s == s;
        FreshStays();
        CutsStayInside([], parts);
        CuttingDoesNotMatter(FRESH, parts);
      }
    } else {
      var k := LeavesAt(s);
      var parts := CutLeaves(s, k);
      assert !OnReads(FRESH, parts).inside;
    }
  }

  lemma LeavesAt(s: Str) returns (k: nat)
    requires !InsideThroughout(s)
    ensures k <= |s| && !Take(s[..k]).inside
  {
    hide Take;
    k :| 0 <= k <= |s| && !Take(s[..k]).inside;
  }

  lemma CutLeaves(s: Str, k: nat) returns (parts: seq<Str>)
    requires k <= |s| && !Take(s[..k]).inside
    ensures Concat(parts) == s && !OnReads(FRESH, parts).inside
  {
    hide Take, OnRead;
    parts := [s[..k], s[k..]];
    assert parts[1..] == [s[k..]] && parts[1..][1..] == [];
    assert Concat(parts[1..][1..]) == [] && Concat(parts[1..]) == s[k..] + [];
    assert Concat(parts) == s[..k] + Concat(parts[1..]);
    FirstRead(s[..k]);
    AstrayForGood(OnRead(FRESH, s[..k]), parts[1..]);
  }

  // ----- short size lines -----

  /** Chunk by chunk, the size lines have at most fifteen characters, all hexadecimal digits. */
  ghost predicate ShortSizes(s: Str)
    decreases |s|
  {
    LineEnd(s, 0) <= 15 && AllHex(s[..LineEnd(s, 0)]) &&
    var g := GetChunk(s);
    g.Found? && g.dataLen > 0 && g.prefixLen + g.dataLen + 2 <= |s| ==> ShortSizes(s[g.prefixLen + g.dataLen + 2..])
  }

  lemma {:induction false} LineEndOfPart(s: Str, k: nat, i: nat)
    requires i <= k <= |s|
    ensures LineEnd(s[..k], i) == if k < LineEnd(s, i) then k else LineEnd(s, i)
    decreases |s| - i
  {
    if i < k && s[i] != CR && s[i] != LF {
      LineEndOfPart(s, k, i + 1);
    }
  }

  lemma {:induction false} ShortSizesStayInside(s: Str, k: nat)
    requires ShortSizes(s) && k <= |s|
    ensures Take(s[..k]).inside
    decreases |s|
  {
    hide Take, GetChunk, LineEnd, Unwrapped, Inside;
    var t := s[..k];
    PartIsUnwrapped(s, k);
    UnwrappedStaysInside(t);
    TakeUnfolds(t);
    var g := GetChunk(t);
    if g.Found? {
      FoundAppend(t, s[k..]);
      assert t + s[k..] == s;
      var m := g.prefixLen + g.dataLen + 2;
      if g.dataLen > 0 {
        assert t[m..] == s[m..][..k - m];
        ShortSizesStayInside(s[m..], k - m);
      }
    }
  }

  lemma PartIsUnwrapped(s: Str, k: nat)
    requires LineEnd(s, 0) <= 15 && AllHex(s[..LineEnd(s, 0)]) && k <= |s|
    ensures Unwrapped(s[..k])
  {
    hide LineEnd, Unwrapped;
    LineEndOfPart(s, k, 0);
    var i, j := LineEnd(s, 0), LineEnd(s[..k], 0);
    assert s[..k][..j] == s[..i][..j];
    ShortSizeIsUnwrapped(s[..k]);
  }

  /** A body with such size lines: no cut leaves the bytes, and no cut changes the outcome. */
  lemma ShortSizesMayBeCut(parts: seq<Str>)
    requires ShortSizes(Concat(parts))
    ensures OnReads(FRESH, parts).inside && OnReads(FRESH, parts) == OnRead(FRESH, Concat(parts))
  {
    hide Take, OnRead, OnReads, ShortSizes;
    var s := Concat(parts);
    forall k | 0 <= k <= |s| ensures Take(s[..k]).inside {
      ShortSizesStayInside(s, k);
    }
    CuttingDoesNotMatterIff(s);
  }
}
