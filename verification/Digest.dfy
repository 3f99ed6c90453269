/**
 * The streaming frame around the SHA-1 and MD5 compression functions: block buffering, bit counts and padding.
 * The compression function itself is a parameter. The machine is little-endian.
 */
module Digest {
  import opened Bytes
  import opened Digits
  import opened Modulo

  const BLOCK := 64
  const TWO32 := 0x1_0000_0000
  const TWO64 := 0x1_0000_0000_0000_0000

  type Word = w: int | 0 <= w < 0x1_0000_0000

  // ----- the fold over whole blocks -----

  /** The chaining value after the whole blocks of `s`. */
  function Blocks<H>(f: (H, Str) -> H, h: H, s: Str): H
    decreases |s|
  {
    if |s| < BLOCK then h else Blocks(f, f(h, s[..BLOCK]), s[BLOCK..])
  }

  /** How many of `n` bytes stand in whole blocks. */
  function Whole(n: nat): (r: nat)
    ensures r <= n < r + BLOCK && r % BLOCK == 0 && n - r == n % BLOCK
  {
    n - n % BLOCK
  }

  /** The whole blocks of `s`. */
  function Cut(s: Str): (r: Str)
    ensures |r| % BLOCK == 0
  {
    s[..Whole(|s|)]
  }

  /** What is left of `s` after its whole blocks. */
  function Tail(s: Str): (r: Str)
    ensures |r| == |s| % BLOCK
  {
    s[Whole(|s|)..]
  }

  lemma CutAndTail(s: Str)
    ensures Cut(s) + Tail(s) == s
  {
  }

  lemma {:induction false} BlocksAppend<H>(f: (H, Str) -> H, h: H, a: Str, b: Str)
    requires |a| % BLOCK == 0
    ensures Blocks(f, h, a + b) == Blocks(f, Blocks(f, h, a), b)
    decreases |a|
  {
    if a == [] {
      assert a + b == b;
    } else {
      assert (a + b)[..BLOCK] == a[..BLOCK] && (a + b)[BLOCK..] == a[BLOCK..] + b;
      BlocksAppend(f, f(h, a[..BLOCK]), a[BLOCK..], b);
    }
  }

  lemma OneMoreBlock<H>(f: (H, Str) -> H, h: H, a: Str, b: Str)
    requires |a| % BLOCK == 0 && |b| == BLOCK
    ensures Blocks(f, h, a + b) == f(Blocks(f, h, a), b)
  {
    BlocksAppend(f, h, a, b);
    assert b[..BLOCK] == b && b[BLOCK..] == [];
    assert Blocks(f, f(Blocks(f, h, a), b), []) == f(Blocks(f, h, a), b);
  }

  /** Incomplete last blocks do not count. */
  lemma BlocksIgnoreTail<H>(f: (H, Str) -> H, h: H, s: Str)
    ensures Blocks(f, h, s) == Blocks(f, h, Cut(s))
  {
    hide Cut, Whole;
    CutAndTail(s);
    BlocksAppend(f, h, Cut(s), Tail(s));
  }

  // ----- a context: chaining value, bit count, bytes of the unfinished block -----

  datatype Context<H> = Context(h: H, count: nat, pending: Str)

  /** What an update with `data` means; `bits` is what it adds to the count. */
  function Absorb<H>(f: (H, Str) -> H, c: Context<H>, data: Str, bits: nat): Context<H> {
    Context(Blocks(f, c.h, c.pending + data), (c.count + bits) % TWO64, Tail(c.pending + data))
  }

  lemma WholeAfter(k: nat, n: nat)
    requires k % BLOCK == 0
    ensures Whole(k + n) == k + Whole(n)
  {
  }

  /** Whole blocks in front leave the rest as it is. */
  lemma TailAfter(a: Str, b: Str)
    requires |a| % BLOCK == 0
    ensures Tail(a + b) == Tail(b)
  {
    WholeAfter(|a|, |b|);
    hide Whole;
  }

  lemma TailOfTail(a: Str, b: Str)
    ensures Tail(Tail(a) + b) == Tail(a + b)
  {
    hide Tail, Cut;
    CutAndTail(a);
    Assoc(Cut(a), Tail(a), b);
    TailAfter(Cut(a), Tail(a) + b);
  }

  /** Two updates are one update with the bytes joined. */
  lemma AbsorbTwice<H>(f: (H, Str) -> H, c: Context<H>, a: Str, aBits: nat, b: Str, bBits: nat)
    ensures Absorb(f, Absorb(f, c, a, aBits), b, bBits) == Absorb(f, c, a + b, aBits + bBits)
  {
    hide Tail, Cut, Blocks;
    var e := c.pending + a;
    Assoc(c.pending, a, b);
    TailOfTail(e, b);
    CutAndTail(e);
    Assoc(Cut(e), Tail(e), b);
    BlocksAppend(f, c.h, Cut(e), Tail(e) + b);
    BlocksIgnoreTail(f, c.h, e);
    ModShift(c.count + aBits, bBits, TWO64);
  }

  /** The unfinished block's length can be read off the bit count. */
  predicate InStep<H>(c: Context<H>) { c.count / 8 % BLOCK == |c.pending| && c.count < TWO64 }

  lemma LowBytes(q: nat, r: nat)
    ensures (TWO64 * q + r) / 8 % BLOCK == r / 8 % BLOCK
  {
    assert (TWO64 * q + r) / 8 == 0x2000_0000_0000_0000 * q + r / 8;
    ModUnique(0x2000_0000_0000_0000 * q + r / 8, BLOCK, 0x80_0000_0000_0000 * q + r / 8 / BLOCK, r / 8 % BLOCK);
  }

  lemma BytesOfBits(count: nat, k: nat)
    ensures (count + 8 * k) / 8 == count / 8 + k
  {
  }

  lemma LowWord(len: nat)
    ensures len % TWO32 % BLOCK == len % BLOCK
  {
    var q, r := len / TWO32, len % TWO32;
    ModUnique(len, BLOCK, 0x400_0000 * q + r / BLOCK, r % BLOCK);
  }

  lemma CountStep(count: nat, len: nat, k: nat)
    requires k == len || k == len % TWO32
    ensures (count + 8 * k) % TWO64 / 8 % BLOCK == (count / 8 % BLOCK + len) % BLOCK
  {
    var x := count + 8 * k;
    var q, r := x / TWO64, x % TWO64;
    LowBytes(q, r);
    BytesOfBits(count, k);
    LowWord(len);
    ModShift(count / 8, len, BLOCK);
    ModShift(count / 8, k, BLOCK);
    ModShift(len, count / 8, BLOCK);
    ModShift(k, count / 8, BLOCK);
  }

  lemma AbsorbInStep<H>(f: (H, Str) -> H, c: Context<H>, data: Str, bits: nat)
    requires InStep(c) && (bits == 8 * |data| || bits == 8 * (|data| % TWO32))
    ensures InStep(Absorb(f, c, data, bits))
  {
    hide Blocks, Tail;
    CountStep(c.count, |data|, bits / 8);
    assert |c.pending + data| == |c.pending| + |data|;
  }

  // ----- the two count words -----

  function Joined(low: Word, high: Word): (r: nat)
    ensures r < TWO64
  {
    low + TWO32 * high
  }

  /** Adding eight times `n` to a pair of words, with the carry read off an overflow of the low word. */
  lemma AddBitsLemma(low: Word, high: Word, n: nat)
    ensures var l := (low + n % TWO32 * 8 % TWO32) % TWO32;
      var h := if l < low then (high + 1) % TWO32 else high;
      Joined(l, (h + n / 0x2000_0000 % TWO32) % TWO32) == (Joined(low, high) + 8 * n) % TWO64
  {
    var x, up := n % TWO32 * 8 % TWO32, n / 0x2000_0000;
    EightTimes(n);
    var l := (low + x) % TWO32;
    var carry := if l < low then 1 else 0;
    CarryOut(low, x);
    HighWord(high, carry, up);
    ModJoin(l, high + carry + up);
  }

  lemma CarryOut(low: Word, x: Word)
    ensures var l := (low + x) % TWO32;
      low + x == (if l < low then TWO32 + l else l)
  {
    ModAdd(low, x, TWO32);
  }

  lemma HighWord(high: Word, carry: nat, up: nat)
    requires carry <= 1
    ensures var h := if carry == 1 then (high + 1) % TWO32 else high;
      (h + up % TWO32) % TWO32 == (high + carry + up) % TWO32
  {
    ModShift(high + carry, up % TWO32, TWO32);
    ModShift(up, high + carry, TWO32);
  }

  lemma EightTimes(n: nat)
    ensures 8 * n == TWO32 * (n / 0x2000_0000) + n % TWO32 * 8 % TWO32
  {
    var q, r := n / 0x2000_0000, n % 0x2000_0000;
    assert 8 * n == TWO32 * q + 8 * r;
    ModUnique(8 * n, TWO32, q, 8 * r);
    var q2, r2 := n / TWO32, n % TWO32;
    assert 8 * n == 8 * r2 + TWO32 * (8 * q2);
    var q3, r3 := 8 * r2 / TWO32, 8 * r2 % TWO32;
    ModUnique(8 * n, TWO32, 8 * q2 + q3, r3);
  }

  lemma ModJoin(l: Word, high: nat)
    ensures (l + TWO32 * high) % TWO64 == l + TWO32 * (high % TWO32)
  {
    var q, r := high / TWO32, high % TWO32;
    ModUnique(l + TWO32 * high, TWO64, q, l + TWO32 * r);
  }

  lemma LowGivesPending(low: Word, high: Word)
    ensures Joined(low, high) / 8 % BLOCK == low / 8 % BLOCK
  {
    ModUnique(Joined(low, high) / 8, BLOCK, 0x80_0000 * high + low / 8 / BLOCK, low / 8 % BLOCK);
  }

  // ----- padding -----

  function Zeros(n: nat): (r: Str)
    ensures |r| == n && forall k :: 0 <= k < n ==> r[k] == 0
  {
    seq(n, i => 0)
  }

  /** The least number of zeros that lets the length field end a block. */
  function PadZeros(n: nat): (k: nat)
    ensures k < BLOCK && (n + 1 + k + 8) % BLOCK == 0
  {
    (119 - n % BLOCK) % BLOCK
  }

  function BigEndian(v: nat, n: nat): (r: Str)
    ensures |r| == n
  {
    if n == 0 then [] else BigEndian(v / 0x100, n - 1) + [v % 0x100]
  }

  function LittleEndian(v: nat, n: nat): (r: Str)
    ensures |r| == n
  {
    if n == 0 then [] else [v % 0x100] + LittleEndian(v / 0x100, n - 1)
  }

  /** A message with its end mark, zeros and length field. */
  function Framed(m: Str, length: Str): Str { m + [0x80] + Zeros(PadZeros(|m|)) + length }

  /** The bytes are the base-256 digits of the number, the highest first. */
  lemma {:induction false} BigEndianIsPositional(v: nat, n: nat)
    requires v < Power(0x100, n)
    ensures Positional(BigEndian(v, n), 0x100) == v
    decreases n
  {
    hide Positional;
    if n == 0 {
      NoDigits(0x100);
    } else {
      BigEndianIsPositional(v / 0x100, n - 1);
      OneMoreDigit(BigEndian(v / 0x100, n - 1), v % 0x100, 0x100);
    }
  }

  /** And here the lowest first. */
  lemma {:induction false} LittleIsBigReversed(v: nat, n: nat, k: nat)
    requires k < n
    ensures LittleEndian(v, n)[k] == BigEndian(v, n)[n - 1 - k]
    decreases n
  {
    if k > 0 {
      LittleIsBigReversed(v / 0x100, n - 1, k - 1);
    }
  }

  /** The example of section 5.1.1 of FIPS 180-4, and the same for MD5: the 24 bits of abc. */
  lemma AbcIsPadded()
    ensures Sha1Padded([0x61, 0x62, 0x63]) == [0x61, 0x62, 0x63, 0x80] + Zeros(52) + [0, 0, 0, 0, 0, 0, 0, 0x18]
    ensures Md5Padded([0x61, 0x62, 0x63]) == [0x61, 0x62, 0x63, 0x80] + Zeros(52) + [0x18, 0, 0, 0, 0, 0, 0, 0]
  {
    assert PadZeros(3) == 52;
    TwentyFour(8);
    TwentyFourReversed();
    hide BigEndian, LittleEndian, Zeros, PadZeros;
    assert [0x61, 0x62, 0x63] + [0x80] == [0x61, 0x62, 0x63, 0x80];
  }

  lemma {:induction false} TwentyFour(n: nat)
    requires n >= 1
    ensures BigEndian(24, n) == Zeros(n - 1) + [24]
    ensures n == 8 ==> BigEndian(24, n) == [0, 0, 0, 0, 0, 0, 0, 24]
  {
    NothingLeft(n - 1);
    assert BigEndian(24, n) == BigEndian(0, n - 1) + [24];
  }

  lemma {:induction false} NothingLeft(n: nat)
    ensures BigEndian(0, n) == Zeros(n)
  {
    if n > 0 { NothingLeft(n - 1); }
  }

  lemma TwentyFourReversed()
    ensures LittleEndian(24, 8) == [24, 0, 0, 0, 0, 0, 0, 0]
  {
    hide BigEndian, LittleEndian;
    TwentyFour(8);
    var r := LittleEndian(24, 8);
    forall k | 0 <= k < 8 ensures r[k] == BigEndian(24, 8)[7 - k] { LittleIsBigReversed(24, 8, k); }
    assert r == [r[0], r[1], r[2], r[3], r[4], r[5], r[6], r[7]];
  }

  lemma BehindPrefix(p: Str, data: Str, i: nat, k: nat)
    requires i <= k <= |data|
    ensures (p + data)[|p| + i..|p| + k] == data[i..k] && (p + data)[|p| + i..] == data[i..]
  {
  }

  /** Section 5.1.1 of FIPS 180-4. */
  function Sha1Padded(m: Str): Str { Framed(m, BigEndian(8 * |m| % TWO64, 8)) }

  /** Sections 3.1 and 3.2 of RFC 1321. */
  function Md5Padded(m: Str): Str { Framed(m, LittleEndian(8 * |m| % TWO64, 8)) }

  // ----- SHA-1 -----

  type Hash5 = s: seq<Word> | |s| == 5 witness [0, 0, 0, 0, 0]

  const SHA1_IV: Hash5 := [0x67452301, 0xEFCDAB89, 0x98BADCFE, 0x10325476, 0xC3D2E1F0]

  function Sha1Init(): Context<Hash5> { Context(SHA1_IV, 0, []) }

  class Sha1 {
    const f: (Hash5, Str) -> Hash5
    const buffer: array<Byte>
    var state: Hash5
    var count0: Word
    var count1: Word

    ghost predicate Valid() { buffer.Length == BLOCK }

    ghost function Ctx(): (c: Context<Hash5>)
      reads this, buffer
      requires Valid()
      ensures InStep(c)
    {
      LowGivesPending(count0, count1);
      Context(state, Joined(count0, count1), buffer[..count0 / 8 % BLOCK])
    }

    /** mg_sha1_init */
    constructor (f: (Hash5, Str) -> Hash5)
      ensures Valid() && this.f == f && fresh(buffer) && Ctx() == Sha1Init()
    {
      this.f := f;
      buffer := new Byte[BLOCK](i => 0);
      state := SHA1_IV;
      count0, count1 := 0, 0;
    }

    /** The count part of mg_sha1_update: the bytes buffered so far are returned. */
    method AddBits(len: nat) returns (j: nat)
      requires Valid()
      modifies this`count0, this`count1
      ensures j == old(count0) / 8 % BLOCK
      ensures Joined(count0, count1) == (old(Joined(count0, count1)) + 8 * len) % TWO64
    {
      AddBitsLemma(count0, count1, len);
      j := count0;
      count0 := (count0 + len % TWO32 * 8 % TWO32) % TWO32;
      if count0 < j {
        count1 := (count1 + 1) % TWO32;
      }
      count1 := (count1 + len / 0x2000_0000 % TWO32) % TWO32;
      j := j / 8 % BLOCK;
    }

    method CopyIn(at: nat, s: Str)
      requires Valid() && at + |s| <= BLOCK
      modifies buffer
      ensures buffer[..at + |s|] == old(buffer[..at]) + s
    {
      forall k | 0 <= k < |s| {
        buffer[at + k] := s[k];
      }
    }

    /** The transforms of mg_sha1_update, when the buffer fills up: the first byte not consumed is returned. */
    method Transforms(data: Str, j: nat) returns (i: nat)
      requires Valid() && j < BLOCK <= j + |data|
      modifies this`state, buffer
      ensures var e := old(buffer[..j]) + data;
        i <= |data| && state == Blocks(f, old(state), e) && data[i..] == Tail(e)
    {
      hide Blocks, Tail;
      ghost var p := buffer[..j];
      ghost var h, e := state, p + data;
      i := BLOCK - j;
      CopyIn(j, data[..i]);
      assert buffer[..] == e[..BLOCK];
      FirstBlock(f, h, e);
      state := f(state, buffer[..]);
      while i + 63 < |data|
        invariant BLOCK - j <= i <= |data| && (j + i) % BLOCK == 0
        invariant state == Blocks(f, h, e[..j + i])
      {
        NextBlock(f, h, e, j + i);
        BehindPrefix(p, data, i, i + BLOCK);
        state := f(state, data[i..i + BLOCK]);
        i := i + BLOCK;
      }
      RestIsTail(f, h, e, j + i);
      BehindPrefix(p, data, i, |data|);
    }

    /** mg_sha1_update without the count. */
    method Consume(data: Str, j: nat)
      requires Valid() && j < BLOCK
      modifies this`state, buffer
      ensures var e := old(buffer[..j]) + data;
        state == Blocks(f, old(state), e) && buffer[..|Tail(e)|] == Tail(e)
    {
      hide Blocks, Tail;
      var i, at := 0, j;
      if j + |data| > 63 {
        i := Transforms(data, j);
        at := 0;
      } else {
        NoBlock(f, state, buffer[..j] + data);
        assert data[0..] == data;
      }
      CopyIn(at, data[i..]);
      assert buffer[..0] + data[i..] == data[i..];
    }

    /** mg_sha1_update */
    method Update(data: Str)
      requires Valid()
      modifies this`state, this`count0, this`count1, buffer
      ensures Ctx() == Absorb(f, old(Ctx()), data, 8 * |data|)
    {
      hide Blocks, Tail, Joined;
      AbsorbInStep(f, Ctx(), data, 8 * |data|);
      var j := AddBits(|data|);
      LowGivesPending(count0, count1);
      Consume(data, j);
    }

    /** The length field: finalcount[i] is byte 3 - i % 4 of one of the count words, the high one first. */
    method LengthField() returns (field: Str)
      ensures field == BigEndian(Joined(count0, count1), 8)
    {
      hide BigEndian, Joined;
      var fin := new Byte[8](i => 0);
      var i := 0;
      while i < 8
        invariant 0 <= i <= 8
        invariant forall k :: 0 <= k < i ==> fin[k] == WordByte(if k >= 4 then count0 else count1, k % 4)
      {
        fin[i] := WordByte(if i >= 4 then count0 else count1, i % 4);
        i := i + 1;
      }
      BigEndianWords(count0, count1, fin[..]);
      field := fin[..];
    }

    /** The end mark, and zeros until 56 bytes are buffered. */
    method Pad()
      requires Valid()
      modifies this`state, this`count0, this`count1, buffer
      ensures var pad := [0x80] + Zeros(PadZeros(|old(Ctx()).pending|));
        Ctx() == Absorb(f, old(Ctx()), pad, 8 * |pad|)
    {
      hide Blocks, Tail, Zeros, PadZeros;
      ghost var c := Ctx();
      Update([0x80]);
      ghost var k := 0;
      ghost var pad: Str := [0x80];
      ZerosGrow(0);
      // the code masks count[0] with 504: the bits that number the byte within its block
      while count0 / 8 % BLOCK * 8 != 448
        invariant 0 <= k <= PadZeros(|c.pending|) && pad == [0x80] + Zeros(k)
        invariant Ctx() == Absorb(f, c, pad, 8 * |pad|)
        decreases PadZeros(|c.pending|) - k
      {
        PadEnds(f, c, k);
        ZerosGrow(k);
        AbsorbTwice(f, c, pad, 8 * |pad|, [0], 8);
        Update([0]);
        pad := pad + [0];
        k := k + 1;
      }
      PadEnds(f, c, k);
    }

    /** mg_sha1_final up to the digest. */
    method Finish()
      requires Valid()
      modifies this`state, this`count0, this`count1, buffer
      ensures state == Blocks(f, old(state), Framed(old(Ctx()).pending, BigEndian(old(Ctx()).count, 8)))
    {
      hide Blocks, Tail, BigEndian, Zeros, PadZeros;
      ghost var c := Ctx();
      ghost var pad := [0x80] + Zeros(PadZeros(|c.pending|));
      var field := LengthField();
      Pad();
      AbsorbTwice(f, c, pad, 8 * |pad|, field, 64);
      Update(field);
      assert c.pending + (pad + field) == Framed(c.pending, field);
    }

    /** mg_sha1_final */
    method Final() returns (digest: Str)
      requires Valid()
      modifies this`state, this`count0, this`count1, buffer
      ensures digest == BigWords(Blocks(f, old(state), Framed(old(Ctx()).pending, BigEndian(old(Ctx()).count, 8))))
      ensures state == [0, 0, 0, 0, 0] && count0 == count1 == 0 && buffer[..] == Zeros(BLOCK)
    {
      hide Blocks, BigEndian, BigWords;
      Finish();
      ghost var h := state;
      var out := new Byte[20](i => 0);
      var i := 0;
      while i < 20
        invariant 0 <= i <= 20 && state == h
        invariant forall k :: 0 <= k < i ==> out[k] == WordByte(state[k / 4], k % 4)
      {
        out[i] := WordByte(state[i / 4], i % 4);
        i := i + 1;
      }
      BigWordsBytes(state, out[..]);
      digest := out[..];
      state, count0, count1 := [0, 0, 0, 0, 0], 0, 0;
      forall k | 0 <= k < BLOCK {
        buffer[k] := 0;
      }
    }
  }

  lemma FirstBlock<H>(f: (H, Str) -> H, h: H, e: Str)
    requires |e| >= BLOCK
    ensures Blocks(f, h, e[..BLOCK]) == f(h, e[..BLOCK])
  {
    OneMoreBlock(f, h, [], e[..BLOCK]);
    assert [] + e[..BLOCK] == e[..BLOCK];
  }

  lemma NextBlock<H>(f: (H, Str) -> H, h: H, e: Str, k: nat)
    requires k % BLOCK == 0 && k + BLOCK <= |e|
    ensures Blocks(f, h, e[..k + BLOCK]) == f(Blocks(f, h, e[..k]), e[k..k + BLOCK])
  {
    OneMoreBlock(f, h, e[..k], e[k..k + BLOCK]);
    assert e[..k] + e[k..k + BLOCK] == e[..k + BLOCK];
  }

  lemma RestIsTail<H>(f: (H, Str) -> H, h: H, e: Str, k: nat)
    requires k % BLOCK == 0 && k <= |e| < k + BLOCK
    ensures Blocks(f, h, e) == Blocks(f, h, e[..k]) && Tail(e) == e[k..]
  {
    hide Blocks;
    WholeIs(k, |e| - k);
    BlocksIgnoreTail(f, h, e);
  }

  lemma NoBlock<H>(f: (H, Str) -> H, h: H, e: Str)
    requires |e| < BLOCK
    ensures Blocks(f, h, e) == h && Tail(e) == e
  {
    SmallTail(e);
  }

  lemma SmallTail(e: Str)
    requires |e| < BLOCK
    ensures Tail(e) == e
  {
    var t := Tail(e);
    assert |t| == |e|;
    assert forall k :: 0 <= k < |e| ==> t[k] == e[k];
  }

  lemma WholeIs(k: nat, r: nat)
    requires k % BLOCK == 0 && r < BLOCK
    ensures Whole(k + r) == k
  {
  }

  // ----- the length field and the digest, byte by byte -----

  /** (w >> (3 - i) * 8) & 255 */
  function WordByte(w: Word, i: nat): Byte
    requires i < 4
  {
    if i == 0 then w / 0x100_0000
    else if i == 1 then w / 0x1_0000 % 0x100
    else if i == 2 then w / 0x100 % 0x100
    else w % 0x100
  }

  function BigWords(ws: seq<Word>): (r: Str)
    ensures |r| == 4 * |ws|
  {
    if ws == [] then [] else BigEndian(ws[0], 4) + BigWords(ws[1..])
  }

  /** The digest is the words one after the other, each as four bytes. */
  lemma {:induction false} WordsInOrder(ws: seq<Word>, k: nat)
    requires k < 4 * |ws|
    ensures BigWords(ws)[k] == BigEndian(ws[k / 4], 4)[k % 4]
  {
    hide BigEndian;
    if k >= 4 {
      assert BigWords(ws)[k] == BigWords(ws[1..])[k - 4] && ws[1..][(k - 4) / 4] == ws[k / 4];
      WordsInOrder(ws[1..], k - 4);
    }
  }

  /** Section 5.3.1 of FIPS 180-4: bytes whose halves count up and down again, the lowest of a word first. */
  lemma Sha1StartsWith()
    ensures LittleEndian(SHA1_IV[0], 4) == [0x01, 0x23, 0x45, 0x67]
    ensures LittleEndian(SHA1_IV[1], 4) == [0x89, 0xab, 0xcd, 0xef]
    ensures LittleEndian(SHA1_IV[2], 4) == [0xfe, 0xdc, 0xba, 0x98]
    ensures LittleEndian(SHA1_IV[3], 4) == [0x76, 0x54, 0x32, 0x10]
    ensures LittleEndian(SHA1_IV[4], 4) == [0xf0, 0xe1, 0xd2, 0xc3]
  {
    hide LittleEndian;
    LowestFirst(0x01, 0x23, 0x45, 0x67);
    LowestFirst(0x89, 0xab, 0xcd, 0xef);
    LowestFirst(0xfe, 0xdc, 0xba, 0x98);
    LowestFirst(0x76, 0x54, 0x32, 0x10);
    LowestFirst(0xf0, 0xe1, 0xd2, 0xc3);
  }

  lemma LowestFirst(a: Byte, b: Byte, c: Byte, d: Byte)
    ensures LittleEndian(((d as nat * 0x100 + c) * 0x100 + b) * 0x100 + a, 4) == [a, b, c, d]
  {
    var w: nat := d as nat * 0x100 + c;
    var v: nat := w * 0x100 + b;
    assert LittleEndian(d, 1) == [d] + LittleEndian(0, 0);
    assert LittleEndian(w, 2) == [c] + LittleEndian(d, 1);
    assert LittleEndian(v, 3) == [b] + LittleEndian(w, 2);
    assert LittleEndian(v * 0x100 + a, 4) == [a] + LittleEndian(v, 3);
  }

  lemma {:induction false} BigEndianSplit(v: nat, n: nat)
    ensures BigEndian(v, n + 4) == BigEndian(v / TWO32, n) + BigEndian(v % TWO32, 4)
    decreases n
  {
    var w := v % TWO32;
    FourDigits(v, n);
    FourDigits(w, 0);
    SameLowBytes(v);
  }

  lemma FourDigits(v: nat, n: nat)
    ensures BigEndian(v, n + 4) ==
      BigEndian(v / TWO32, n) + [v / 0x100_0000 % 0x100, v / 0x1_0000 % 0x100, v / 0x100 % 0x100, v % 0x100]
  {
    var a, b, c, d := v / 0x100, v / 0x1_0000, v / 0x100_0000, v / TWO32;
    assert a / 0x100 == b && b / 0x100 == c && c / 0x100 == d;
    assert BigEndian(c, n + 1) == BigEndian(d, n) + [c % 0x100];
    assert BigEndian(b, n + 2) == BigEndian(c, n + 1) + [b % 0x100];
    assert BigEndian(a, n + 3) == BigEndian(b, n + 2) + [a % 0x100];
    assert BigEndian(v, n + 4) == BigEndian(a, n + 3) + [v % 0x100];
  }

  lemma SameLowBytes(v: nat)
    ensures var w := v % TWO32;
      w / TWO32 == 0 && w / 0x100_0000 % 0x100 == v / 0x100_0000 % 0x100 &&
      w / 0x1_0000 % 0x100 == v / 0x1_0000 % 0x100 &&
      w / 0x100 % 0x100 == v / 0x100 % 0x100 && w % 0x100 == v % 0x100
  {
    var q, w := v / TWO32, v % TWO32;
    assert v / 0x100_0000 == 0x100 * q + w / 0x100_0000;
    assert v / 0x1_0000 == 0x1_0000 * q + w / 0x1_0000;
    assert v / 0x100 == 0x100_0000 * q + w / 0x100;
    ModUnique(v / 0x100_0000, 0x100, q + w / 0x100_0000 / 0x100, w / 0x100_0000 % 0x100);
    ModUnique(v / 0x1_0000, 0x100, 0x100 * q + w / 0x1_0000 / 0x100, w / 0x1_0000 % 0x100);
    ModUnique(v / 0x100, 0x100, 0x1_0000 * q + w / 0x100 / 0x100, w / 0x100 % 0x100);
    ModUnique(v, 0x100, 0x100_0000 * q + w / 0x100, w % 0x100);
  }

  lemma BigEndianWord(w: Word)
    ensures BigEndian(w, 4) == [WordByte(w, 0), WordByte(w, 1), WordByte(w, 2), WordByte(w, 3)]
  {
    FourDigits(w, 0);
    assert BigEndian(w / TWO32, 0) == [];
  }

  lemma BigEndianWords(low: Word, high: Word, s: Str)
    requires |s| == 8 && forall k :: 0 <= k < 8 ==> s[k] == WordByte(if k >= 4 then low else high, k % 4)
    ensures s == BigEndian(Joined(low, high), 8)
  {
    hide BigEndian, WordByte;
    BigEndianSplit(Joined(low, high), 4);
    assert Joined(low, high) / TWO32 == high && Joined(low, high) % TWO32 == low;
    BigEndianWord(low);
    BigEndianWord(high);
  }

  lemma {:induction false} BigWordsBytes(ws: seq<Word>, s: Str)
    requires |s| == 4 * |ws| && forall k :: 0 <= k < |s| ==> s[k] == WordByte(ws[k / 4], k % 4)
    ensures s == BigWords(ws)
  {
    hide BigEndian, WordByte;
    if ws != [] {
      BigEndianWord(ws[0]);
      assert s[..4] == BigEndian(ws[0], 4);
      forall k | 0 <= k < |s[4..]| ensures s[4..][k] == WordByte(ws[1..][k / 4], k % 4) {
        assert s[4..][k] == s[k + 4];
      }
      BigWordsBytes(ws[1..], s[4..]);
      assert s == s[..4] + s[4..];
    }
  }

  lemma ZerosGrow(k: nat)
    ensures Zeros(0) == [] && Zeros(k + 1) == Zeros(k) + [0]
  {
  }

  lemma PadStep(p: nat, k: nat)
    requires p < BLOCK && k <= PadZeros(p)
    ensures (p + 1 + k) % BLOCK == 56 <==> k == PadZeros(p)
  {
  }

  /** The loop of mg_sha1_final ends when it has appended the right number of zeros. */
  lemma PadEnds<H>(f: (H, Str) -> H, c: Context<H>, k: nat)
    requires InStep(c) && k <= PadZeros(|c.pending|)
    ensures |Absorb(f, c, [0x80] + Zeros(k), 8 * (k + 1)).pending| == 56 <==> k == PadZeros(|c.pending|)
  {
    hide Blocks, Zeros, PadZeros;
    PadStep(|c.pending|, k);
    assert |c.pending + ([0x80] + Zeros(k))| == |c.pending| + 1 + k;
  }

  // ----- slicing -----

  /** Framing what is pending and going on from the chaining value is framing the message. */
  lemma FramedTail<H>(f: (H, Str) -> H, h: H, m: Str, field: Str)
    requires |field| == 8
    ensures Blocks(f, Blocks(f, h, m), Framed(Tail(m), field)) == Blocks(f, h, Framed(m, field))
  {
    hide Blocks, Tail, Cut;
    CutAndTail(m);
    SamePad(|m|);
    var z := Zeros(PadZeros(|m|));
    assert Framed(m, field) == Cut(m) + Framed(Tail(m), field) by {
      assert Cut(m) + Tail(m) + [0x80] + z + field == Cut(m) + (Tail(m) + [0x80] + z + field);
    }
    BlocksAppend(f, h, Cut(m), Framed(Tail(m), field));
    BlocksIgnoreTail(f, h, m);
  }

  lemma SamePad(n: nat)
    ensures PadZeros(n % BLOCK) == PadZeros(n)
  {
  }

  /** mg_sha1_update for each slice. */
  function Sha1UpdateAll(f: (Hash5, Str) -> Hash5, c: Context<Hash5>, parts: seq<Str>): Context<Hash5>
    decreases |parts|
  {
    if parts == [] then c else Sha1UpdateAll(f, Absorb(f, c, parts[0], 8 * |parts[0]|), parts[1..])
  }

  /** Any slicing is one update with all bytes, and the count is the bit length modulo 2^64. */
  lemma {:induction false} Sha1UpdateAllIsOne(f: (Hash5, Str) -> Hash5, c: Context<Hash5>, parts: seq<Str>)
    requires InStep(c)
    ensures Sha1UpdateAll(f, c, parts) == Absorb(f, c, Concat(parts), 8 * |Concat(parts)|)
    decreases |parts|
  {
    hide Blocks, Tail;
    if parts == [] {
      NoBlock(f, c.h, c.pending + []);
      assert c.pending + [] == c.pending;
    } else {
      var d := Absorb(f, c, parts[0], 8 * |parts[0]|);
      AbsorbInStep(f, c, parts[0], 8 * |parts[0]|);
      Sha1UpdateAllIsOne(f, d, parts[1..]);
      AbsorbTwice(f, c, parts[0], 8 * |parts[0]|, Concat(parts[1..]), 8 * |Concat(parts[1..])|);
    }
  }

  /** Section 6.1 of FIPS 180-4: the chaining value over the padded message, as bytes. */
  function Sha1Of(f: (Hash5, Str) -> Hash5, m: Str): Str {
    BigWords(Blocks(f, SHA1_IV, Sha1Padded(m)))
  }

  lemma Sha1FinalOfSlices(f: (Hash5, Str) -> Hash5, parts: seq<Str>)
    ensures var c := Sha1UpdateAll(f, Sha1Init(), parts);
      BigWords(Blocks(f, c.h, Framed(c.pending, BigEndian(c.count, 8)))) == Sha1Of(f, Concat(parts))
  {
    hide Blocks, Tail, BigWords, BigEndian, Framed;
    Sha1UpdateAllIsOne(f, Sha1Init(), parts);
    assert Sha1Init().pending + Concat(parts) == Concat(parts);
    FramedTail(f, SHA1_IV, Concat(parts), BigEndian(8 * |Concat(parts)| % TWO64, 8));
  }

  /** mg_sha1_init, any updates, mg_sha1_final: the digest does not depend on the slicing. */
  method Sha1Slices(f: (Hash5, Str) -> Hash5, parts: seq<Str>) returns (digest: Str)
    ensures digest == Sha1Of(f, Concat(parts))
  {
    hide Blocks, Tail, BigWords, BigEndian, Framed, Sha1Of;
    var ctx := new Sha1(f);
    var i := 0;
    while i < |parts|
      invariant 0 <= i <= |parts| && ctx.Valid() && ctx.f == f && fresh(ctx) && fresh(ctx.buffer)
      invariant Sha1UpdateAll(f, ctx.Ctx(), parts[i..]) == Sha1UpdateAll(f, Sha1Init(), parts)
    {
      assert parts[i..][1..] == parts[i + 1..];
      ctx.Update(parts[i]);
      i := i + 1;
    }
    Sha1FinalOfSlices(f, parts);
    digest := ctx.Final();
  }
}
