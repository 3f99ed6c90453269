/** The streaming frame around the MD5 compression function, which is a parameter. The machine is little-endian. */
module Md5Digest {
  import opened Bytes
  import opened Modulo
  import opened Digest

  type Hash4 = s: seq<Word> | |s| == 4 witness [0, 0, 0, 0]

  const MD5_IV: Hash4 := [0x67452301, 0xefcdab89, 0x98badcfe, 0x10325476]

  function Md5Init(): Context<Hash4> { Context(MD5_IV, 0, []) }

  /** What an update adds to the count: the length is cut to 32 bits before it is shifted. */
  function Md5Bits(len: nat): nat { 8 * (len % TWO32) }

  function LittleWords(ws: seq<Word>): (r: Str)
    ensures |r| == 4 * |ws|
  {
    if ws == [] then [] else LittleEndian(ws[0], 4) + LittleWords(ws[1..])
  }

  /** The digest is the words one after the other, each as four bytes. */
  lemma {:induction false} LittleWordsInOrder(ws: seq<Word>, k: nat)
    requires k < 4 * |ws|
    ensures LittleWords(ws)[k] == LittleEndian(ws[k / 4], 4)[k % 4]
  {
    hide LittleEndian;
    if k >= 4 {
      assert LittleWords(ws)[k] == LittleWords(ws[1..])[k - 4] && ws[1..][(k - 4) / 4] == ws[k / 4];
      LittleWordsInOrder(ws[1..], k - 4);
    }
  }

  /** Section 3.3 of RFC 1321: bytes whose halves count up and down again. */
  lemma Md5StartsWith()
    ensures LittleWords(MD5_IV) ==
      [0x01, 0x23, 0x45, 0x67, 0x89, 0xab, 0xcd, 0xef, 0xfe, 0xdc, 0xba, 0x98, 0x76, 0x54, 0x32, 0x10]
  {
    hide LittleEndian, LittleWords;
    Sha1StartsWith();
    var r, s := LittleWords(MD5_IV),
      [0x01, 0x23, 0x45, 0x67, 0x89, 0xab, 0xcd, 0xef, 0xfe, 0xdc, 0xba, 0x98, 0x76, 0x54, 0x32, 0x10];
    forall k | 0 <= k < 16 ensures r[k] == s[k] {
      LittleWordsInOrder(MD5_IV, k);
      assert MD5_IV[k / 4] == SHA1_IV[k / 4];
    }
  }

  class Md5 {
    const f: (Hash4, Str) -> Hash4
    const block: array<Byte>   // ctx->in
    var buf: Hash4
    var bits0: Word
    var bits1: Word

    ghost predicate Valid() { block.Length == BLOCK }

    ghost function Ctx(): (c: Context<Hash4>)
      reads this, block
      requires Valid()
      ensures InStep(c)
    {
      LowGivesPending(bits0, bits1);
      Context(buf, Joined(bits0, bits1), block[..bits0 / 8 % BLOCK])
    }

    /** mg_md5_init */
    constructor (f: (Hash4, Str) -> Hash4)
      ensures Valid() && this.f == f && fresh(block) && Ctx() == Md5Init()
    {
      this.f := f;
      block := new Byte[BLOCK](i => 0);
      buf := MD5_IV;
      bits0, bits1 := 0, 0;
    }

    method CopyIn(at: nat, s: Str)
      requires Valid() && at + |s| <= BLOCK
      modifies block
      ensures block[..at + |s|] == old(block[..at]) + s && block[at + |s|..] == old(block[at + |s|..])
    {
      forall k | 0 <= k < |s| {
        block[at + k] := s[k];
      }
    }

    /** The count part of mg_md5_update: the bytes buffered so far are returned. */
    method AddBits(len: nat) returns (t: nat)
      requires Valid()
      modifies this`bits0, this`bits1
      ensures t == old(bits0) / 8 % BLOCK
      ensures Joined(bits0, bits1) == (old(Joined(bits0, bits1)) + Md5Bits(len)) % TWO64
    {
      var low := len % TWO32;
      AddLowBits(bits0, bits1, low);
      hide Joined;
      t := bits0;
      bits0 := (t + low * 8 % TWO32) % TWO32;
      if bits0 < t {
        bits1 := (bits1 + 1) % TWO32;
      }
      bits1 := (bits1 + low / 0x2000_0000) % TWO32;
      t := t / 8 % BLOCK;
    }

    /** The whole blocks of `data` from `at`, each copied in and transformed: the rest begins where it returns. */
    method Transforms(data: Str, at: nat) returns (i: nat)
      requires Valid() && at <= |data|
      modifies this`buf, block
      ensures i <= |data| && buf == Blocks(f, old(buf), data[at..]) && data[i..] == Tail(data[at..])
    {
      hide Blocks, Tail;
      ghost var h, e := buf, data[at..];
      EmptyBlocks(f, h, e);
      i := at;
      while |data| - i >= 64
        invariant at <= i <= |data| && (i - at) % BLOCK == 0
        invariant buf == Blocks(f, h, e[..i - at])
      {
        NextBlock(f, h, e, i - at);
        assert e[i - at..i - at + BLOCK] == data[i..i + BLOCK];
        CopyIn(0, data[i..i + BLOCK]);
        assert block[..] == data[i..i + BLOCK];
        buf := f(buf, block[..]);
        i := i + BLOCK;
      }
      RestIsTail(f, h, e, i - at);
      assert e[i - at..] == data[i..];
    }

    /** mg_md5_update without the count. */
    method Consume(data: Str, t: nat)
      requires Valid() && t < BLOCK
      modifies this`buf, block
      ensures var e := old(block[..t]) + data;
        buf == Blocks(f, old(buf), e) && block[..|Tail(e)|] == Tail(e)
    {
      hide Blocks, Tail;
      ghost var h, e := buf, block[..t] + data;
      var i := 0;
      if t != 0 {
        if |data| < BLOCK - t {
          NoBlock(f, h, e);
          CopyIn(t, data);
          return;
        }
        i := BLOCK - t;
        CopyIn(t, data[..i]);
        assert block[..] == e[..BLOCK] && e[BLOCK..] == data[i..] && e == e[..BLOCK] + e[BLOCK..];
        FirstBlock(f, h, e);
        BlocksAppend(f, h, e[..BLOCK], e[BLOCK..]);
        TailAfter(e[..BLOCK], e[BLOCK..]);
        buf := f(buf, block[..]);
      } else {
        assert e == data[0..];
      }
      i := Transforms(data, i);
      CopyIn(0, data[i..]);
      assert block[..0] + data[i..] == data[i..];
    }

    /** mg_md5_update */
    method Update(data: Str)
      requires Valid()
      modifies this`buf, this`bits0, this`bits1, block
      ensures Ctx() == Absorb(f, old(Ctx()), data, Md5Bits(|data|))
    {
      hide Blocks, Tail, Joined;
      AbsorbInStep(f, Ctx(), data, Md5Bits(|data|));
      var t := AddBits(|data|);
      LowGivesPending(bits0, bits1);
      Consume(data, t);
    }

    method Fill(at: nat, end: nat)
      requires Valid() && at <= end <= BLOCK
      modifies block
      ensures block[..end] == old(block[..at]) + Zeros(end - at)
    {
      CopyIn(at, Zeros(end - at));
    }

    /** mg_md5_final up to the digest. */
    method Finish()
      requires Valid()
      modifies this`buf, block
      ensures buf == Blocks(f, old(buf), Framed(old(Ctx()).pending, LittleEndian(old(Ctx()).count, 8)))
    {
      hide Blocks, LittleEndian, Zeros, Joined;
      ghost var h, m := buf, Ctx().pending;
      var count := bits0 / 8 % BLOCK;
      block[count] := 0x80;
      assert block[..count + 1] == m + [0x80];
      var left := 64 - 1 - count;
      var field := LittleEndian(bits0, 4) + LittleEndian(bits1, 4);
      LittleEndianSplit(bits0, bits1);
      if left < 8 {
        Fill(count + 1, 64);
        ghost var first := block[..];
        assert first == m + [0x80] + Zeros(left);
        buf := f(buf, block[..]);
        Fill(0, 56);
        assert block[..56] == Zeros(56);
        CopyIn(56, field);
        assert block[..] == Zeros(56) + field;
        LongPadding(f, h, m, field);
      } else {
        Fill(count + 1, 56);
        assert block[..56] == m + [0x80] + Zeros(left - 8);
        CopyIn(56, field);
        assert block[..] == m + [0x80] + Zeros(left - 8) + field;
        ShortPadding(f, h, m, field);
      }
      buf := f(buf, block[..]);
    }

    /** mg_md5_final */
    method Final() returns (digest: Str)
      requires Valid()
      modifies this`buf, this`bits0, this`bits1, block
      ensures digest == LittleWords(Blocks(f, old(buf), Framed(old(Ctx()).pending, LittleEndian(old(Ctx()).count, 8))))
      ensures buf == [0, 0, 0, 0] && bits0 == bits1 == 0 && block[..] == Zeros(BLOCK)
    {
      hide Blocks, LittleEndian, LittleWords;
      Finish();
      digest := LittleWords(buf);
      buf, bits0, bits1 := [0, 0, 0, 0], 0, 0;
      Fill(0, BLOCK);
      assert block[..BLOCK] == block[..];
    }
  }

  lemma EmptyBlocks<H>(f: (H, Str) -> H, h: H, e: Str)
    ensures e[..0] == [] && Blocks(f, h, e[..0]) == h
  {
  }

  lemma AddLowBits(low: Word, high: Word, n: Word)
    ensures var l := (low + n * 8 % TWO32) % TWO32;
      var h := if l < low then (high + 1) % TWO32 else high;
      Joined(l, (h + n / 0x2000_0000) % TWO32) == (Joined(low, high) + 8 * n) % TWO64
  {
    hide Joined;
    AddBitsLemma(low, high, n);
    ModUnique(n, TWO32, 0, n);
    ModUnique(n / 0x2000_0000, TWO32, 0, n / 0x2000_0000);
  }

  lemma LittleEndianSplit(low: Word, high: Word)
    ensures LittleEndian(Joined(low, high), 8) == LittleEndian(low, 4) + LittleEndian(high, 4)
  {
    hide LittleEndian;
    var v := Joined(low, high);
    assert v / TWO32 == high && v % TWO32 == low;
    LowDigits(v, 4);
    LowDigits(low, 0);
    SameLowBytes(v);
    assert LittleEndian(low / TWO32, 0) == [] by { NoDigits(low / TWO32); }
  }

  lemma NoDigits(v: nat)
    ensures LittleEndian(v, 0) == []
  {
  }

  lemma LowDigits(v: nat, n: nat)
    ensures LittleEndian(v, n + 4)
      == [v % 0x100, v / 0x100 % 0x100, v / 0x1_0000 % 0x100, v / 0x100_0000 % 0x100] + LittleEndian(v / TWO32, n)
  {
    var a, b, c, d := v / 0x100, v / 0x1_0000, v / 0x100_0000, v / TWO32;
    assert a / 0x100 == b && b / 0x100 == c && c / 0x100 == d;
    assert LittleEndian(c, n + 1) == [c % 0x100] + LittleEndian(d, n);
    assert LittleEndian(b, n + 2) == [b % 0x100] + LittleEndian(c, n + 1);
    assert LittleEndian(a, n + 3) == [a % 0x100] + LittleEndian(b, n + 2);
    assert LittleEndian(v, n + 4) == [v % 0x100] + LittleEndian(a, n + 3);
  }

  lemma ShortPadding(f: (Hash4, Str) -> Hash4, h: Hash4, m: Str, field: Str)
    requires |m| <= 55 && |field| == 8
    ensures Blocks(f, h, Framed(m, field)) == f(h, m + [0x80] + Zeros(55 - |m|) + field)
  {
    hide Blocks;
    assert PadZeros(|m|) == 55 - |m|;
    var e := Framed(m, field);
    FirstBlock(f, h, e);
    assert e[..BLOCK] == e;
  }

  lemma LongPadding(f: (Hash4, Str) -> Hash4, h: Hash4, m: Str, field: Str)
    requires 55 < |m| < 64 && |field| == 8
    ensures Blocks(f, h, Framed(m, field)) == f(f(h, m + [0x80] + Zeros(63 - |m|)), Zeros(56) + field)
  {
    hide Blocks;
    assert PadZeros(|m|) == 119 - |m|;
    var a, b := m + [0x80] + Zeros(63 - |m|), Zeros(56) + field;
    assert Zeros(119 - |m|) == Zeros(63 - |m|) + Zeros(56);
    assert Framed(m, field) == a + b;
    OneMoreBlock(f, h, a, b);
    FirstBlock(f, h, a);
    assert a[..BLOCK] == a;
  }

  // ----- slicing -----

  /** mg_md5_update for each slice. */
  function UpdateAll(f: (Hash4, Str) -> Hash4, c: Context<Hash4>, parts: seq<Str>): Context<Hash4>
    decreases |parts|
  {
    if parts == [] then c else UpdateAll(f, Absorb(f, c, parts[0], Md5Bits(|parts[0]|)), parts[1..])
  }

  /** The bits the slices add to the count. */
  function CountedBits(parts: seq<Str>): nat {
    if parts == [] then 0 else Md5Bits(|parts[0]|) + CountedBits(parts[1..])
  }

  /** How many times 2^32 bytes fit into the slices. */
  function LostUnits(parts: seq<Str>): nat {
    if parts == [] then 0 else |parts[0]| / TWO32 + LostUnits(parts[1..])
  }

  lemma {:induction false} UpdateAllIsOne(f: (Hash4, Str) -> Hash4, c: Context<Hash4>, parts: seq<Str>)
    requires InStep(c)
    ensures UpdateAll(f, c, parts) == Absorb(f, c, Concat(parts), CountedBits(parts))
    decreases |parts|
  {
    hide Md5Bits, Blocks, Tail;
    if parts == [] {
      NoBlock(f, c.h, c.pending + []);
      assert c.pending + [] == c.pending;
    } else {
      var d := Absorb(f, c, parts[0], Md5Bits(|parts[0]|));
      SliceInStep(f, c, parts[0]);
      UpdateAllIsOne(f, d, parts[1..]);
      AbsorbTwice(f, c, parts[0], Md5Bits(|parts[0]|), Concat(parts[1..]), CountedBits(parts[1..]));
    }
  }

  lemma SliceInStep(f: (Hash4, Str) -> Hash4, c: Context<Hash4>, part: Str)
    requires InStep(c)
    ensures InStep(Absorb(f, c, part, Md5Bits(|part|)))
  {
    AbsorbInStep(f, c, part, Md5Bits(|part|));
  }

  lemma {:induction false} CountedAndLost(parts: seq<Str>)
    ensures CountedBits(parts) + 0x8_0000_0000 * LostUnits(parts) == 8 * |Concat(parts)|
  {
    if parts != [] {
      CountedAndLost(parts[1..]);
      var n := |parts[0]|;
      assert n == TWO32 * (n / TWO32) + n % TWO32;
    }
  }

  /** The digest of what was passed in slices: the chaining value over the message framed with the count kept. */
  function Md5OfSlices(f: (Hash4, Str) -> Hash4, parts: seq<Str>): Str {
    LittleWords(Blocks(f, MD5_IV, Framed(Concat(parts), LittleEndian(CountedBits(parts) % TWO64, 8))))
  }

  /** Whatever the slices, mg_md5_final sees the whole message. */
  lemma FinalOfSlices(f: (Hash4, Str) -> Hash4, parts: seq<Str>)
    ensures var c := UpdateAll(f, Md5Init(), parts);
      LittleWords(Blocks(f, c.h, Framed(c.pending, LittleEndian(c.count, 8)))) == Md5OfSlices(f, parts)
  {
    hide Blocks, Tail, LittleWords, LittleEndian, Framed;
    UpdateAllIsOne(f, Md5Init(), parts);
    assert Md5Init().pending + Concat(parts) == Concat(parts);
    FramedTail(f, MD5_IV, Concat(parts), LittleEndian(CountedBits(parts) % TWO64, 8));
  }

  /** mg_md5_init, any updates, mg_md5_final. */
  method Md5Slices(f: (Hash4, Str) -> Hash4, parts: seq<Str>) returns (digest: Str)
    ensures digest == Md5OfSlices(f, parts)
  {
    hide Blocks, Tail, LittleWords, LittleEndian, Framed, Md5OfSlices, Md5Bits;
    var ctx := new Md5(f);
    var i := 0;
    while i < |parts|
      invariant 0 <= i <= |parts| && ctx.Valid() && ctx.f == f && fresh(ctx) && fresh(ctx.block)
      invariant UpdateAll(f, ctx.Ctx(), parts[i..]) == UpdateAll(f, Md5Init(), parts)
    {
      assert parts[i..][1..] == parts[i + 1..];
      ctx.Update(parts[i]);
      i := i + 1;
    }
    FinalOfSlices(f, parts);
    digest := ctx.Final();
  }

  /** The padded message is that of RFC 1321 exactly if the 2^32-byte units not counted are a multiple of 2^29. */
  lemma Md5PaddingRightIff(parts: seq<Str>)
    ensures var m := Concat(parts);
      Framed(m, LittleEndian(CountedBits(parts) % TWO64, 8)) == Md5Padded(m) <==> LostUnits(parts) % 0x2000_0000 == 0
  {
    hide Framed, LittleEndian, Concat, CountedBits, LostUnits;
    var m := Concat(parts);
    var a, b := CountedBits(parts) % TWO64, 8 * |m| % TWO64;
    CountedAndLost(parts);
    LostBits(CountedBits(parts), LostUnits(parts));
    if a != b {
      LittleEndianInjective(a, b, 8);
      FieldCounts(m, LittleEndian(a, 8), LittleEndian(b, 8));
    }
  }

  lemma FieldCounts(m: Str, x: Str, y: Str)
    requires |x| == |y| && x != y
    ensures Framed(m, x) != Framed(m, y)
  {
    var p := m + [0x80] + Zeros(PadZeros(|m|));
    assert (p + x)[|p|..] == x && (p + y)[|p|..] == y;
  }

  lemma LostBits(counted: nat, lost: nat)
    ensures counted % TWO64 == (counted + 0x8_0000_0000 * lost) % TWO64 <==> lost % 0x2000_0000 == 0
  {
    var q, r := lost / 0x2000_0000, lost % 0x2000_0000;
    assert 0x8_0000_0000 * lost == TWO64 * q + 0x8_0000_0000 * r;
    var c := counted % TWO64;
    var k := counted / TWO64;
    var total := counted + 0x8_0000_0000 * lost;
    if c + 0x8_0000_0000 * r < TWO64 {
      ModUnique(total, TWO64, k + q, c + 0x8_0000_0000 * r);
    } else {
      ModUnique(total, TWO64, k + q + 1, c + 0x8_0000_0000 * r - TWO64);
    }
  }

  /** 256^n */
  function Power(n: nat): (r: nat)
    ensures r > 0
  {
    if n == 0 then 1 else 0x100 * Power(n - 1)
  }

  lemma {:induction false} LittleEndianOrdered(a: nat, b: nat, n: nat)
    requires a < Power(n) && b < Power(n) && LittleEndian(a, n) == LittleEndian(b, n)
    ensures a == b
  {
    if n > 0 {
      var x, y := LittleEndian(a, n), LittleEndian(b, n);
      assert x[0] == a % 0x100 && y[0] == b % 0x100;
      assert x[1..] == LittleEndian(a / 0x100, n - 1) && y[1..] == LittleEndian(b / 0x100, n - 1);
      LittleEndianOrdered(a / 0x100, b / 0x100, n - 1);
    }
  }

  lemma LittleEndianInjective(a: nat, b: nat, n: nat)
    requires a < TWO64 && b < TWO64 && a != b && n == 8
    ensures LittleEndian(a, n) != LittleEndian(b, n)
  {
    assert Power(4) == TWO32 && Power(6) == 0x100 * Power(5);
    assert Power(8) == 0x100 * Power(7) && Power(7) == 0x100 * Power(6);
    if LittleEndian(a, n) == LittleEndian(b, n) {
      LittleEndianOrdered(a, b, n);
    }
  }

  /** Slices below 2^32 bytes give the digest of RFC 1321 over the message, however it is cut. */
  lemma SmallSlices(f: (Hash4, Str) -> Hash4, parts: seq<Str>)
    requires forall i :: 0 <= i < |parts| ==> |parts[i]| < TWO32
    ensures Md5OfSlices(f, parts) == LittleWords(Blocks(f, MD5_IV, Md5Padded(Concat(parts))))
  {
    hide Blocks, LittleWords, Framed, LittleEndian, CountedBits, LostUnits, Concat;
    NothingLost(parts);
    Md5PaddingRightIff(parts);
  }

  lemma {:induction false} NothingLost(parts: seq<Str>)
    requires forall i :: 0 <= i < |parts| ==> |parts[i]| < TWO32
    ensures LostUnits(parts) == 0
  {
    if parts != [] {
      NothingLost(parts[1..]);
    }
  }

  /** One slice of 2^32 bytes: the length field holds 0. */
  lemma LongSliceIsMiscounted(part: Str)
    requires |part| == TWO32
    ensures CountedBits([part]) == 0
    ensures Framed(part, LittleEndian(CountedBits([part]) % TWO64, 8)) != Md5Padded(part)
  {
    assert LostUnits([part]) == 1 by {
      assert LostUnits([part][1..]) == 0;
    }
    assert CountedBits([part]) == 0 by {
      assert CountedBits([part][1..]) == 0;
    }
    assert Concat([part]) == part by {
      assert [part][1..] == [] && Concat([]) == [];
    }
    hide Framed, LittleEndian, LostUnits, CountedBits, Concat, Md5Padded;
    Md5PaddingRightIff([part]);
  }
}
