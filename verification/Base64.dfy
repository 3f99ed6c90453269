/** Base64: the streaming encoder and decoder of mongoose, its %V printer, and the encoder and decoder of base64.cpp. */
module Base64 {
  import opened Bytes
  import opened Wrappers
  import opened Modulo

  const NEWLINE: Byte := 10
  const EQUALS: Byte := 61
  const DOT: Byte := 46
  const QUOTE: Byte := 34
  const TWO32 := 0x1_0000_0000
  const INT_MAX := 0x7fff_ffff

  // ----- the encoding of RFC 4648, sections 4 and 5 -----

  /** mg_b64idx; the url alphabet differs in its last two letters. */
  function Letter(k: nat, url: bool): Byte
    requires k < 64
  {
    if k < 26 then k + 65
    else if k < 52 then k - 26 + 97
    else if k < 62 then k - 52 + 48
    else if k == 62 then (if url then 45 else 43)
    else if url then 95 else 47
  }

  function Pad(url: bool): Byte { if url then DOT else EQUALS }

  function Quad(a: Byte, b: Byte, c: Byte, url: bool): (r: Str)
    ensures |r| == 4
  {
    [Letter(a / 4, url), Letter(a % 4 * 16 + b / 16, url), Letter(b % 16 * 4 + c / 64, url), Letter(c % 64, url)]
  }

  /** The last one or two bytes. */
  function Last(s: Str, url: bool): (r: Str)
    requires 1 <= |s| <= 2
    ensures |r| == 4
  {
    if |s| == 1 then [Letter(s[0] / 4, url), Letter(s[0] % 4 * 16, url), Pad(url), Pad(url)]
    else [Letter(s[0] / 4, url), Letter(s[0] % 4 * 16 + s[1] / 16, url), Letter(s[1] % 16 * 4, url), Pad(url)]
  }

  function Encoded(s: Str, url: bool): (r: Str)
    ensures |r| == (|s| + 2) / 3 * 4
    decreases |s|
  {
    if |s| == 0 then []
    else if |s| <= 2 then Last(s, url)
    else Quad(s[0], s[1], s[2], url) + Encoded(s[3..], url)
  }

  lemma {:induction false} EncodedAppend(a: Str, b: Str, url: bool)
    requires |a| % 3 == 0
    ensures Encoded(a + b, url) == Encoded(a, url) + Encoded(b, url)
    decreases |a|
  {
    if a == [] {
      assert a + b == b;
    } else {
      assert (a + b)[3..] == a[3..] + b;
      EncodedAppend(a[3..], b, url);
      Assoc(Quad(a[0], a[1], a[2], url), Encoded(a[3..], url), Encoded(b, url));
    }
  }

  lemma EncodedGroup(a: Str, g: Str, url: bool)
    requires |a| % 3 == 0 && |g| == 3
    ensures Encoded(a + g, url) == Encoded(a, url) + Quad(g[0], g[1], g[2], url)
  {
    EncodedAppend(a, g, url);
    assert g[3..] == [] && Encoded(g[3..], url) == [];
  }

  // ----- mongoose: the streaming encoder -----

  /** The bytes in whole groups of three. */
  function Grouped(s: Str): (r: Str)
    ensures |r| % 3 == 0
  {
    s[..|s| / 3 * 3]
  }

  /** The one or two bytes after them. */
  function Rest(s: Str): (r: Str)
    ensures |r| == |s| % 3
  {
    s[|s| / 3 * 3..]
  }

  /** What stands in the buffer for an unfinished group: finished letters, then the bits left over. */
  function Open(t: Str): (r: Str)
    requires |t| <= 2
    ensures |r| == if |t| == 0 then 0 else |t| + 1
  {
    if |t| == 0 then []
    else if |t| == 1 then [Letter(t[0] / 4, false), t[0] % 4 * 16]
    else [Letter(t[0] / 4, false), Letter(t[0] % 4 * 16 + t[1] / 16, false), t[1] % 16 * 4]
  }

  /** The buffer holds the finished groups `e`, then the open group of the bytes `t`; `n` letters are finished. */
  ghost predicate Holds(to: Str, n: nat, e: Str, t: Str) {
    |e| % 4 == 0 && |t| <= 2 && n == |e| + |t| && |e| + |Open(t)| <= |to| &&
    to[..|e|] == e && to[|e|..|e| + |Open(t)|] == Open(t)
  }

  /** mg_base64_update */
  method Update(ch: Byte, to: array<Byte>, n: nat, ghost e: Str, ghost t: Str) returns (m: nat)
    requires Holds(to[..], n, e, t) && n + 2 <= to.Length
    modifies to
    ensures m == n + if |t| == 2 then 2 else 1
    ensures |t| < 2 ==> Holds(to[..], m, e, t + [ch])
    ensures |t| == 2 ==> Holds(to[..], m, e + Quad(t[0], t[1], ch, false), [])
  {
    hide Letter, Holds, Quad;
    ghost var was := to[..];
    OpenBytes(was, n, e, t);
    var rem := n % 4 % 3;
    if rem == 0 {
      to[n] := Letter(ch / 4, false);
      to[n + 1] := ch % 4 * 16;
      m := n + 1;
      FirstOpens(was, to[..], n, e, t, ch);
    } else if rem == 1 {
      // to[n] | ch >> 4: the bits do not overlap
      to[n] := Letter(to[n] + ch / 16, false);
      to[n + 1] := ch % 16 * 4;
      m := n + 1;
      SecondStaysOpen(was, to[..], n, e, t, ch);
    } else {
      // to[n] | ch >> 6
      to[n] := Letter(to[n] + ch / 64, false);
      to[n + 1] := Letter(ch % 64, false);
      m := n + 2;
      ThirdCloses(was, to[..], n, e, t, ch);
    }
  }

  lemma FirstOpens(was: Str, to: Str, n: nat, e: Str, t: Str, ch: Byte)
    requires Holds(was, n, e, t) && t == [] && n + 2 <= |was|
    requires to == was[n := Letter(ch / 4, false)][n + 1 := ch % 4 * 16]
    ensures Holds(to, n + 1, e, t + [ch])
  {
    hide Letter;
    assert to[n..n + 2] == Open(t + [ch]);
  }

  lemma SecondStaysOpen(was: Str, to: Str, n: nat, e: Str, t: Str, ch: Byte)
    requires Holds(was, n, e, t) && |t| == 1 && n + 2 <= |was|
    requires to == was[n := Letter(t[0] % 4 * 16 + ch / 16, false)][n + 1 := ch % 16 * 4]
    ensures Holds(to, n + 1, e, t + [ch])
  {
    hide Letter;
    OpenBytes(was, n, e, t);
    assert to[n - 1..n + 2] == Open(t + [ch]);
    assert to[..|e|] == was[..|e|];
  }

  lemma ThirdCloses(was: Str, to: Str, n: nat, e: Str, t: Str, ch: Byte)
    requires Holds(was, n, e, t) && |t| == 2 && n + 2 <= |was|
    requires to == was[n := Letter(t[1] % 16 * 4 + ch / 64, false)][n + 1 := Letter(ch % 64, false)]
    ensures Holds(to, n + 2, e + Quad(t[0], t[1], ch, false), [])
  {
    hide Letter;
    OpenBytes(was, n, e, t);
    assert to[n - 2..n + 2] == Quad(t[0], t[1], ch, false);
    assert to[..|e|] == was[..|e|];
    assert to[..n + 2] == to[..|e|] + to[n - 2..n + 2];
  }

  /** What an open group looks like, byte by byte. */
  lemma OpenBytes(to: Str, n: nat, e: Str, t: Str)
    requires Holds(to, n, e, t)
    ensures n % 4 == |t| <= 2 && |e| <= n
    ensures |t| == 1 ==> n < |to| && n == |e| + 1 && to[n - 1] == Letter(t[0] / 4, false) && to[n] == t[0] % 4 * 16
    ensures |t| == 2 ==> n < |to| && n == |e| + 2 && to[n - 2] == Letter(t[0] / 4, false)
    ensures |t| == 2 ==> to[n - 1] == Letter(t[0] % 4 * 16 + t[1] / 16, false) && to[n] == t[1] % 16 * 4
  {
    hide Letter;
    forall k | 0 <= k < |Open(t)| ensures to[|e| + k] == Open(t)[k] {
      OpenByte(to, |e|, Open(t), k);
    }
    if |t| == 1 {
      assert Open(t)[0] == to[|e| + 0] && Open(t)[1] == to[|e| + 1];
    } else if |t| == 2 {
      assert Open(t)[0] == to[|e| + 0] && Open(t)[1] == to[|e| + 1] && Open(t)[2] == to[|e| + 2];
    }
  }

  lemma OpenByte(to: Str, start: nat, o: Str, k: nat)
    requires start + |o| <= |to| && to[start..start + |o|] == o && k < |o|
    ensures to[start + k] == o[k]
  {
    assert to[start..start + |o|][k] == to[start + k];
  }

  /** mg_base64_final */
  method Final(to: array<Byte>, n: nat, ghost e: Str, ghost t: Str) returns (m: nat)
    requires Holds(to[..], n, e, t) && to.Length >= |e| + (|t| + 2) / 3 * 4 + 1
    modifies to
    ensures m < to.Length && to[..m] == e + Encoded(t, false) && to[m] == 0
  {
    hide Encoded, Holds;
    HoldsSizes(to[..], n, e, t);
    m := n;
    if n % 4 != 0 {
      m := Update(0, to, n, e, t);
      if n % 4 == 2 {
        m := m - 1;
      }
      LastLetters(to[..], m, e, t);
    } else {
      AtEnd(to[..], n, e, t);
    }
    m := PadUp(to, m, e, t);
    to[m] := 0;
  }

  /** The loop of mg_base64_final. */
  method PadUp(to: array<Byte>, n: nat, ghost e: Str, ghost t: Str) returns (m: nat)
    requires |e| % 4 == 0 && |t| <= 2 && |e| <= n <= to.Length && to[..|e|] == e
    requires n == (if t == [] then |e| else |e| + |t| + 1) && to.Length >= |e| + (|t| + 2) / 3 * 4
    requires to[|e|..n] == Encoded(t, false)[..n - |e|]
    modifies to
    ensures m == |e| + (|t| + 2) / 3 * 4 && to[..m] == e + Encoded(t, false)
  {
    hide Encoded;
    ghost var last := Encoded(t, false);
    m := n;
    while m % 4 != 0
      invariant n <= m <= |e| + |last| && to[..|e|] == e && to[|e|..m] == last[..m - |e|]
      decreases |e| + 4 - m
    {
      PadAfter(t, m - |e|);
      to[m] := EQUALS;
      m := m + 1;
      assert to[|e|..m] == to[|e|..m - 1] + [EQUALS];
    }
    assert last[..m - |e|] == last;
    assert to[..m] == to[..|e|] + to[|e|..m];
  }

  lemma HoldsSizes(to: Str, n: nat, e: Str, t: Str)
    requires Holds(to, n, e, t)
    ensures |e| % 4 == 0 && |t| <= 2 && n == |e| + |t| && |e| <= |to| && to[..|e|] == e
    ensures |Encoded(t, false)| == (|t| + 2) / 3 * 4
  {
  }

  lemma AtEnd(to: Str, n: nat, e: Str, t: Str)
    requires Holds(to, n, e, t) && n % 4 == 0
    ensures t == [] && Encoded(t, false) == [] && n <= |to|
  {
  }

  lemma EncodedLast(t: Str)
    requires 1 <= |t| <= 2
    ensures Encoded(t, false) == Last(t, false)
  {
  }

  /** After the zero byte that flushes an open group, one letter more than the group has bytes is right. */
  lemma LastLetters(to: Str, m: nat, e: Str, t: Str)
    requires |e| % 4 == 0 && 1 <= |t| <= 2 && m == |e| + |t| + 1
    requires |t| == 1 ==> Holds(to, m, e, t + [0])
    requires |t| == 2 ==> Holds(to, m + 1, e + Quad(t[0], t[1], 0, false), [])
    ensures |Encoded(t, false)| == 4
    ensures m <= |to| && to[..|e|] == e && to[|e|..m] == Encoded(t, false)[..m - |e|]
  {
    hide Letter, Encoded;
    EncodedLast(t);
    if |t| == 1 {
      FlushedOne(to, m, e, t);
    } else {
      FlushedTwo(to, m, e, t);
    }
  }

  lemma FlushedOne(to: Str, m: nat, e: Str, t: Str)
    requires |e| % 4 == 0 && |t| == 1 && Holds(to, m, e, t + [0])
    ensures m == |e| + 2 && m <= |to| && to[..|e|] == e && to[|e|..m] == Last(t, false)[..2]
  {
    hide Letter;
    OpenBytes(to, m, e, t + [0]);
    var o := to[|e|..m];
    assert o[0] == to[m - 2] && o[1] == to[m - 1];
  }

  lemma FlushedTwo(to: Str, m: nat, e: Str, t: Str)
    requires |e| % 4 == 0 && |t| == 2 && m == |e| + 3 && Holds(to, m + 1, e + Quad(t[0], t[1], 0, false), [])
    ensures m <= |to| && to[..|e|] == e && to[|e|..m] == Last(t, false)[..3]
  {
    hide Letter;
    var q := Quad(t[0], t[1], 0, false);
    assert to[..m + 1] == e + q;
    assert to[..|e|] == to[..m + 1][..|e|] && to[|e|..m] == to[..m + 1][|e|..m] == q[..3];
  }

  lemma PadAfter(t: Str, k: nat)
    requires |t| < k < |Encoded(t, false)| && |t| <= 2
    ensures Encoded(t, false)[k] == EQUALS
  {
    hide Letter;
  }

  /** mg_base64_encode: lengths are of type int; `to` must have room for the terminator. */
  method MgEncode(p: Str, to: array<Byte>) returns (len: nat)
    requires (|p| + 2) / 3 * 4 <= INT_MAX && to.Length >= (|p| + 2) / 3 * 4 + 1
    modifies to
    ensures len < to.Length && to[..len] == Encoded(p, false) && to[len] == 0
  {
    hide Encoded, Holds, Quad, Grouped, Rest;
    ghost var e: Str, t: Str := [], [];
    NothingHeld(to[..]);
    len := 0;
    var i := 0;
    while i < |p|
      invariant 0 <= i <= |p| && Holds(to[..], len, e, t) && e == Encoded(Grouped(p[..i]), false) && t == Rest(p[..i])
    {
      GroupStep(p[..i], p[i]);
      assert p[..i + 1] == p[..i] + [p[i]];
      HoldsSizes(to[..], len, e, t);
      GroupRoom(i, |p|);
      GroupSizes(p[..i]);
      len := Update(p[i], to, len, e, t);
      if |t| == 2 {
        EncodedGroup(Grouped(p[..i]), t + [p[i]], false);
        e, t := e + Quad(t[0], t[1], p[i], false), [];
      } else {
        t := t + [p[i]];
      }
      i := i + 1;
    }
    assert p[..i] == p;
    GroupSizes(p);
    GroupedAndRest(p);
    EncodedAppend(Grouped(p), Rest(p), false);
    len := Final(to, len, e, t);
  }

  lemma GroupStep(s: Str, ch: Byte)
    ensures var t := s + [ch];
      if |s| % 3 < 2 then Grouped(t) == Grouped(s) && Rest(t) == Rest(s) + [ch]
      else Grouped(t) == Grouped(s) + (Rest(s) + [ch]) && Rest(t) == []
  {
    var t := s + [ch];
    assert |t| / 3 == if |s| % 3 < 2 then |s| / 3 else |s| / 3 + 1;
  }

  lemma GroupedAndRest(s: Str)
    ensures Grouped(s) + Rest(s) == s
  {
  }

  lemma GroupSizes(s: Str)
    ensures |Encoded(Grouped(s), false)| == |s| / 3 * 4 && |Rest(s)| == |s| % 3
  {
  }

  lemma NothingHeld(to: Str)
    ensures Holds(to, 0, [], []) && Encoded(Grouped([]), false) == [] && Rest([]) == []
  {
  }

  lemma GroupRoom(i: nat, n: nat)
    requires i < n
    ensures i / 3 * 4 + i % 3 + 2 <= (n + 2) / 3 * 4 + 1
  {
  }

  // ----- mongoose: the decoder -----

  /** mg_b64rev, with -1 as None. */
  function MgRev(c: Byte): (r: Option<nat>)
    ensures r.Some? ==> r.value <= 64 && (r.value == 64 <==> c == EQUALS)
  {
    if 65 <= c <= 90 then Some(c - 65)
    else if 97 <= c <= 122 then Some(c + 26 - 97)
    else if 48 <= c <= 57 then Some(c + 52 - 48)
    else if c == 43 then Some(62)
    else if c == 47 then Some(63)
    else if c == EQUALS then Some(64)
    else None
  }

  /** One group of four letters: nothing if it is malformed, else one to three bytes. */
  function MgGroup(g: Str): (r: Option<Str>)
    requires |g| == 4
    ensures r.Some? ==> 1 <= |r.value| <= 3
  {
    var a, b, c, d := MgRev(g[0]), MgRev(g[1]), MgRev(g[2]), MgRev(g[3]);
    if a == None || b == None || c == None || d == None || a.value == 64 || b.value == 64 then None
    else
      var x: Byte := a.value * 4 + b.value / 16;
      if g[2] == EQUALS then Some([x])
      else
        // (char) (b << 4 | c >> 2): the upper bits of b fall off
        var y: Byte := b.value % 16 * 16 + c.value / 4;
        if g[3] == EQUALS then Some([x, y]) else Some([x, y, c.value % 4 * 64 + d.value])
  }

  /** All whole groups; letters after the last are ignored. */
  function MgDecoded(s: Str): Option<Str>
    decreases |s|
  {
    if |s| < 4 then Some([])
    else
      var g := MgGroup(s[..4]);
      if g == None then None
      else
        var rest := MgDecoded(s[4..]);
        if rest == None then None else Some(g.value + rest.value)
  }

  /** mg_base64_decode, the length is of type int: on malformed input 0 is returned, with no terminator written. */
  method MgDecode(src: Str, dst: array<Byte>) returns (len: nat)
    requires |src| <= INT_MAX && dst.Length >= |src| / 4 * 3 + 1
    modifies dst
    ensures match MgDecoded(src)
      case None => len == 0
      case Some(text) => len == |text| < dst.Length && dst[..len] == text && dst[len] == 0
  {
    hide MgGroup, MgDecoded;
    len := 0;
    var at := 0;
    assert src[at..] == src && dst[..len] == [];
    NothingPrefixed(MgDecoded(src));
    while at + 3 < |src|
      invariant 0 <= at <= |src| && at % 4 == 0 && len <= at / 4 * 3
      invariant MgDecoded(src) == Prefixed(dst[..len], MgDecoded(src[at..]))
      decreases |src| - at
    {
      DecodedStep(src[at..]);
      assert src[at..][..4] == src[at..at + 4] && src[at..][4..] == src[at + 4..];
      var g := MgGroup(src[at..at + 4]);
      if g == None {
        return 0;
      }
      ghost var was := dst[..len];
      forall k | 0 <= k < |g.value| {
        dst[len + k] := g.value[k];
      }
      len := len + |g.value|;
      assert dst[..len] == was + g.value;
      PrefixedTwice(was, g.value, MgDecoded(src[at + 4..]));
      at := at + 4;
    }
    EndsDecoded(src[at..]);
    dst[len] := 0;
  }

  function Prefixed(s: Str, o: Option<Str>): Option<Str> { if o == None then None else Some(s + o.value) }

  lemma NothingPrefixed(o: Option<Str>)
    ensures Prefixed([], o) == o
  {
    if o.Some? {
      assert [] + o.value == o.value;
    }
  }

  lemma PrefixedTwice(a: Str, b: Str, o: Option<Str>)
    ensures Prefixed(a, Prefixed(b, o)) == Prefixed(a + b, o)
  {
    if o.Some? {
      Assoc(a, b, o.value);
    }
  }

  lemma DecodedStep(s: Str)
    requires |s| >= 4
    ensures var g := MgGroup(s[..4]);
      MgDecoded(s) == if g == None then None else Prefixed(g.value, MgDecoded(s[4..]))
  {
  }

  lemma EndsDecoded(s: Str)
    requires |s| < 4
    ensures MgDecoded(s) == Some([])
  {
  }

  lemma LetterReads(k: nat)
    requires k < 64
    ensures MgRev(Letter(k, false)) == Some(k) && Letter(k, false) != EQUALS
  {
  }

  /** The decoder inverts the encoder. */
  lemma {:induction false} MgDecodesEncoded(s: Str)
    ensures MgDecoded(Encoded(s, false)) == Some(s)
    decreases |s|
  {
    if |s| == 0 {
    } else if |s| <= 2 {
      MgDecodesLast(s);
    } else {
      var q, rest := Quad(s[0], s[1], s[2], false), Encoded(s[3..], false);
      MgDecodesQuad(s[0], s[1], s[2]);
      MgDecodesEncoded(s[3..]);
      assert (q + rest)[..4] == q && (q + rest)[4..] == rest;
      assert s == [s[0], s[1], s[2]] + s[3..];
    }
  }

  /** The sextets of three bytes put the bytes together again. */
  lemma QuadBits(a: Byte, b: Byte, c: Byte)
    ensures a / 4 * 4 + (a % 4 * 16 + b / 16) / 16 == a
    ensures (a % 4 * 16 + b / 16) % 16 * 16 + (b % 16 * 4 + c / 64) / 4 == b
    ensures (b % 16 * 4 + c / 64) % 4 * 64 + c % 64 == c
  {
  }

  lemma MgDecodesQuad(a: Byte, b: Byte, c: Byte)
    ensures MgGroup(Quad(a, b, c, false)) == Some([a, b, c])
  {
    hide MgRev, Letter;
    var k0, k1, k2, k3: nat := a / 4, a % 4 * 16 + b / 16, b % 16 * 4 + c / 64, c % 64;
    LetterReads(k0);
    LetterReads(k1);
    LetterReads(k2);
    LetterReads(k3);
    QuadBits(a, b, c);
  }

  lemma OneGroup(q: Str)
    requires |q| == 4
    ensures MgDecoded(q) == MgGroup(q)
  {
    hide MgGroup;
    DecodedStep(q);
    assert q[..4] == q && q[4..] == [];
    EndsDecoded(q[4..]);
    if MgGroup(q).Some? {
      assert MgGroup(q).value + [] == MgGroup(q).value;
    }
  }

  lemma MgDecodesLast(s: Str)
    requires 1 <= |s| <= 2
    ensures MgDecoded(Encoded(s, false)) == Some(s)
  {
    hide MgRev, Letter, MgGroup, MgDecoded;
    OneGroup(Last(s, false));
    MgLastGroup(s);
  }

  lemma MgLastGroup(s: Str)
    requires 1 <= |s| <= 2
    ensures MgGroup(Last(s, false)) == Some(s)
  {
    hide MgRev, Letter;
    PadReads();
    LetterReads(s[0] / 4);
    if |s| == 1 {
      QuadBits(s[0], 0, 0);
      LetterReads(s[0] % 4 * 16);
      assert s == [s[0]];
    } else {
      QuadBits(s[0], s[1], 0);
      LetterReads(s[0] % 4 * 16 + s[1] / 16);
      LetterReads(s[1] % 16 * 4);
      assert s == [s[0], s[1]];
    }
  }

  lemma PadReads()
    ensures MgRev(EQUALS) == Some(64)
  {
  }

  // ----- mongoose: the printer -----

  /** The %V format: the encoding between quotes; the letter table of the code lists the alphabet in order. */
  method Bcpy(buf: Str) returns (text: Str, n: nat)
    ensures text == [0x22] + Encoded(buf, false) + [0x22] && n == |text|
  {
    hide GroupLetters, Encoded;
    text, n := [QUOTE], 1;
    var i := 0;
    NothingEncoded(buf[..0], false);
    while i < |buf|
      invariant i <= |buf| + 2 && i % 3 == 0 && n == |text|
      invariant text == [QUOTE] + Encoded(buf[..if i < |buf| then i else |buf|], false)
    {
      var tmp := FourLetters(buf, i);
      NextGroup(buf, i, false);
      Assoc([QUOTE], Encoded(buf[..i], false), tmp);
      text, n := text + tmp, n + |tmp|;
      i := i + 3;
    }
    assert buf[..|buf|] == buf;
    text, n := text + [QUOTE], n + 1;
  }

  /** The body of bcpy's loop. */
  method FourLetters(buf: Str, i: nat) returns (tmp: Str)
    requires i < |buf|
    ensures tmp == GroupLetters(buf[i..], false)
  {
    hide Letter;
    var c1 := buf[i];
    var c2 := if i + 1 < |buf| then buf[i + 1] else 0;
    var c3 := if i + 2 < |buf| then buf[i + 2] else 0;
    tmp := [Letter(c1 / 4, false), Letter(c1 % 4 * 16 + c2 / 16, false), EQUALS, EQUALS];
    if i + 1 < |buf| {
      tmp := tmp[2 := Letter(c2 % 16 * 4 + c3 / 64, false)];
    }
    if i + 2 < |buf| {
      tmp := tmp[3 := Letter(c3 % 64, false)];
    }
  }

  /** The letters of the first group of a non-empty string. */
  function GroupLetters(s: Str, url: bool): (r: Str)
    requires s != []
    ensures |r| == 4
  {
    if |s| <= 2 then Last(s, url) else Quad(s[0], s[1], s[2], url)
  }

  lemma NothingEncoded(s: Str, url: bool)
    requires s == []
    ensures Encoded(s, url) == []
  {
  }

  /** The encoding grows by one group. */
  lemma NextGroup(s: Str, i: nat, url: bool)
    requires i < |s| && i % 3 == 0
    ensures var j := if i + 3 < |s| then i + 3 else |s|;
      Encoded(s[..j], url) == Encoded(s[..i], url) + GroupLetters(s[i..], url)
  {
    hide Letter;
    var j := if i + 3 < |s| then i + 3 else |s|;
    assert s[..j] == s[..i] + s[i..j];
    EncodedAppend(s[..i], s[i..j], url);
    if |s[i..]| <= 2 {
      assert s[i..j] == s[i..];
    } else {
      assert s[i..j][3..] == [];
      NothingEncoded(s[i..j][3..], url);
    }
  }

  // ----- base64.cpp -----

  /** The `unsigned int` position of base64_encode after `n` turns of its loop. */
  function Position(n: nat): (r: nat)
    ensures r < TWO32
  {
    if n == 0 then 0 else (Position(n - 1) + 3) % TWO32
  }

  lemma {:induction false} PositionWraps(n: nat)
    ensures Position(n) == 3 * n % TWO32
  {
    if n > 0 {
      PositionWraps(n - 1);
      ModShift(3 * (n - 1), 3, TWO32);
    }
  }

  /** The loop ends once the position is not below the length: that happens exactly for fewer than 2^32 bytes. */
  lemma EncoderEndsIff(length: nat)
    ensures (exists n: nat :: Position(n) >= length) <==> length < TWO32
  {
    if length < TWO32 {
      var n := (length + 2) / 3;
      PositionWraps(n);
      ModUnique(3 * n, TWO32, 0, 3 * n);
      assert Position(n) >= length;
    }
  }

  /** base64_encode, for the lengths its loop ends for; all sums of the position are modulo 2^32. */
  method Encode(bytes: Str, url: bool) returns (ret: Str)
    requires |bytes| < TWO32
    ensures ret == Encoded(bytes, url)
  {
    hide GroupLetters, Encoded;
    ret := [];
    var pos := 0;
    NothingEncoded(bytes[..0], url);
    while pos < |bytes|
      invariant pos <= |bytes| + 2 && pos % 3 == 0
      invariant ret == Encoded(bytes[..if pos < |bytes| then pos else |bytes|], url)
      decreases |bytes| + 2 - pos
    {
      var group := GroupOf(bytes, pos, url);
      NextGroup(bytes, pos, url);
      ret := ret + group;
      PositionFits(pos, |bytes|);
      pos := (pos + 3) % TWO32;
    }
    assert bytes[..|bytes|] == bytes;
  }

  /** A multiple of three below the length: the next one is still below 2^32. */
  lemma PositionFits(pos: nat, length: nat)
    requires pos < length < TWO32 && pos % 3 == 0
    ensures pos + 3 < TWO32 && (pos + 1) % TWO32 == pos + 1
    ensures (pos + 2) % TWO32 == pos + 2 && (pos + 3) % TWO32 == pos + 3
  {
    ModUnique(pos + 1, TWO32, 0, pos + 1);
    ModUnique(pos + 2, TWO32, 0, pos + 2);
    ModUnique(pos + 3, TWO32, 0, pos + 3);
  }

  /** The body of the loop. */
  method GroupOf(bytes: Str, pos: nat, url: bool) returns (ret: Str)
    requires pos < |bytes| < TWO32 && pos % 3 == 0
    ensures ret == GroupLetters(bytes[pos..], url)
  {
    hide Letter;
    PositionFits(pos, |bytes|);
    ret := [Letter(bytes[pos] / 4, url)];
    if (pos + 1) % TWO32 < |bytes| {
      var b := bytes[(pos + 1) % TWO32];
      ret := ret + [Letter(bytes[pos] % 4 * 16 + b / 16, url)];
      if (pos + 2) % TWO32 < |bytes| {
        var c := bytes[(pos + 2) % TWO32];
        ret := ret + [Letter(b % 16 * 4 + c / 64, url)];
        ret := ret + [Letter(c % 64, url)];
      } else {
        ret := ret + [Letter(b % 16 * 4, url)];
        ret := ret + [Pad(url)];
      }
    } else {
      ret := ret + [Letter(bytes[pos] % 4 * 16, url)];
      ret := ret + [Pad(url)];
      ret := ret + [Pad(url)];
    }
  }

  /** The exceptions of the decoder: a letter outside both alphabets, a lone last letter. */
  datatype Result<T> = Ok(value: T) | NotBase64 | OutOfRange

  /** pos_of_char: both alphabets are read. */
  function PosOf(c: Byte): (r: Option<nat>)
    ensures r.Some? ==> r.value < 64
  {
    if 65 <= c <= 90 then Some(c - 65)
    else if 97 <= c <= 122 then Some(c - 97 + 26)
    else if 48 <= c <= 57 then Some(c - 48 + 52)
    else if c == 43 || c == 45 then Some(62)
    else if c == 47 || c == 95 then Some(63)
    else None
  }

  predicate IsPad(c: Byte) { c == EQUALS || c == DOT }

  /** One group: up to four letters, with padding or without. */
  function GroupDecoded(g: Str): (r: Result<Str>)
    requires 1 <= |g| <= 4
    ensures r.Ok? ==> 1 <= |r.value| <= 3
  {
    if |g| == 1 then OutOfRange
    else
      var a, b := PosOf(g[0]), PosOf(g[1]);
      if a == None || b == None then NotBase64
      else
        var x: Byte := a.value * 4 + b.value / 16;
        if |g| == 2 || IsPad(g[2]) then Ok([x])
        else
          var c := PosOf(g[2]);
          if c == None then NotBase64
          else
            var y: Byte := b.value % 16 * 16 + c.value / 4;
            if |g| == 3 || IsPad(g[3]) then Ok([x, y])
            else
              var d := PosOf(g[3]);
              if d == None then NotBase64 else Ok([x, y, c.value % 4 * 64 + d.value])
  }

  function Head(s: Str): Str { if |s| <= 4 then s else s[..4] }

  function After(s: Str): Str { if |s| <= 4 then [] else s[4..] }

  function Decoded(s: Str): Result<Str>
    decreases |s|
  {
    if s == [] then Ok([])
    else
      match GroupDecoded(Head(s))
      case Ok(v) => Joined(v, Decoded(After(s)))
      case error => error
  }

  function Joined(s: Str, r: Result<Str>): Result<Str> { if r.Ok? then Ok(s + r.value) else r }

  function WithoutBreaks(s: Str): (r: Str)
    ensures |r| <= |s| && NEWLINE !in r
  {
    if s == [] then [] else if s[0] == NEWLINE then WithoutBreaks(s[1..]) else [s[0]] + WithoutBreaks(s[1..])
  }

  /** std::remove of the line breaks, then erase. */
  method RemoveBreaks(s: Str) returns (r: Str)
    ensures r == WithoutBreaks(s)
  {
    r := [];
    var i := 0;
    while i < |s|
      invariant 0 <= i <= |s| && r + WithoutBreaks(s[i..]) == WithoutBreaks(s)
    {
      assert s[i..][1..] == s[i + 1..];
      if s[i] != NEWLINE {
        Assoc(r, [s[i]], WithoutBreaks(s[i + 1..]));
        r := r + [s[i]];
      }
      i := i + 1;
    }
  }

  /** base64_decode */
  method Decode(s: Str, removeBreaks: bool) returns (r: Result<Str>)
    ensures r == Decoded(if removeBreaks then WithoutBreaks(s) else s)
    decreases removeBreaks
  {
    if |s| == 0 {
      return Ok([]);
    }
    if removeBreaks {
      var copy := RemoveBreaks(s);
      r := Decode(copy, false);
      return;
    }
    var ret: Str := [];
    var pos := 0;
    NothingJoined(Decoded(s));
    assert s[0..] == s;
    while pos < |s|
      invariant 0 <= pos && Decoded(s) == Joined(ret, Decoded(s[if pos < |s| then pos else |s|..]))
    {
      hide GroupDecoded;
      var rest := s[pos..];
      assert After(rest) == s[if pos + 4 < |s| then pos + 4 else |s|..];
      var g := GroupDecodedInTurn(s, pos);
      if !g.Ok? {
        return g;
      }
      JoinedTwice(ret, g.value, Decoded(After(rest)));
      ret := ret + g.value;
      pos := pos + 4;
    }
    assert s[|s|..] == [] && ret + [] == ret;
    return Ok(ret);
  }

  /** The body of the decoder's loop, in its order of reading: the second letter first. */
  method GroupDecodedInTurn(s: Str, pos: nat) returns (r: Result<Str>)
    requires pos < |s|
    ensures r == GroupDecoded(Head(s[pos..]))
  {
    hide PosOf;
    ghost var g := Head(s[pos..]);
    assert |g| == (if pos + 4 <= |s| then 4 else |s| - pos) && forall k :: 0 <= k < |g| ==> g[k] == s[pos + k];
    if pos + 1 >= |s| {
      return OutOfRange;
    }
    var b := PosOf(s[pos + 1]);
    if b == None {
      return NotBase64;
    }
    var a := PosOf(s[pos]);
    if a == None {
      return NotBase64;
    }
    var ret: Str := [a.value * 4 + b.value / 16];
    if pos + 2 < |s| && s[pos + 2] != EQUALS && s[pos + 2] != DOT {
      var c := PosOf(s[pos + 2]);
      if c == None {
        return NotBase64;
      }
      ret := ret + [b.value % 16 * 16 + c.value / 4];
      assert ret == [a.value * 4 + b.value / 16, b.value % 16 * 16 + c.value / 4];
      if pos + 3 < |s| && s[pos + 3] != EQUALS && s[pos + 3] != DOT {
        var d := PosOf(s[pos + 3]);
        if d == None {
          return NotBase64;
        }
        ret := ret + [c.value % 4 * 64 + d.value];
        assert ret == [a.value * 4 + b.value / 16, b.value % 16 * 16 + c.value / 4, c.value % 4 * 64 + d.value];
      }
    }
    return Ok(ret);
  }

  lemma NothingJoined(r: Result<Str>)
    ensures Joined([], r) == r
  {
    if r.Ok? {
      assert [] + r.value == r.value;
    }
  }

  lemma JoinedTwice(a: Str, b: Str, r: Result<Str>)
    ensures Joined(a, Joined(b, r)) == Joined(a + b, r)
  {
    if r.Ok? {
      Assoc(a, b, r.value);
    }
  }

  // ----- line breaks -----

  /** A line break after every `distance` letters that are followed by more. */
  function Broken(s: Str, distance: nat): Str
    requires distance > 0
    decreases |s|
  {
    if |s| <= distance then s else s[..distance] + [NEWLINE] + Broken(s[distance..], distance)
  }

  /** str.insert(pos, "\n") */
  function WithBreak(r: Str, pos: nat): (t: Str)
    requires pos <= |r|
    ensures |t| == |r| + 1
  {
    r[..pos] + [NEWLINE] + r[pos..]
  }

  /** insert_linebreaks; PEM calls it with 64, MIME with 76. */
  method InsertLinebreaks(str: Str, distance: nat) returns (r: Str)
    requires distance > 0
    ensures r == Broken(str, distance)
  {
    hide *;
    if |str| == 0 {
      LastLine(str, distance);
      return [];
    }
    r := str;
    var pos := distance;
    assert r[..0] + Broken(r[0..], distance) == Broken(str, distance) by { assert r[0..] == r; }
    while pos < |r|
      invariant distance <= pos <= |r| + distance
      invariant r[..pos - distance] + Broken(r[pos - distance..], distance) == Broken(str, distance)
      decreases |r| - pos
    {
      BreakOnce(r, pos - distance, distance);
      r := WithBreak(r, pos);
      pos := pos + distance + 1;
    }
    LastLine(r[pos - distance..], distance);
    assert r[..pos - distance] + r[pos - distance..] == r;
  }

  lemma LastLine(s: Str, distance: nat)
    requires 0 < distance && |s| <= distance
    ensures Broken(s, distance) == s
  {
  }

  lemma BreakOnce(r: Str, start: nat, distance: nat)
    requires distance > 0 && start + distance < |r|
    ensures var pos := start + distance;
      var t := WithBreak(r, pos);
      r[..start] + Broken(r[start..], distance) == t[..pos + 1] + Broken(t[pos + 1..], distance)
  {
    hide Broken;
    var pos := start + distance;
    var t := WithBreak(r, pos);
    var line, rest := r[start..][..distance], Broken(r[pos..], distance);
    BrokenLine(r[start..], distance);
    assert r[start..][distance..] == r[pos..] && t[pos + 1..] == r[pos..];
    assert t[..pos + 1] == r[..start] + (line + [NEWLINE]);
    Assoc(r[..start], line + [NEWLINE], rest);
  }

  lemma BrokenLine(s: Str, distance: nat)
    requires 0 < distance < |s|
    ensures Broken(s, distance) == s[..distance] + [NEWLINE] + Broken(s[distance..], distance)
  {
  }

  /** Where the breaks stand: after every `distance` letters, and nowhere else. */
  lemma {:induction false} BreaksAt(s: Str, distance: nat, k: nat)
    requires distance > 0 && NEWLINE !in s && k < |Broken(s, distance)|
    ensures Broken(s, distance)[k] == 0x0a <==> k % (distance + 1) == distance
    decreases |s|
  {
    var n := distance + 1;
    if |s| > distance && k >= n {
      BreaksAt(s[distance..], distance, k - n);
      LineFurther(k - n, n);
    } else {
      LineFirst(k, n);
    }
  }

  lemma LineFurther(k: nat, n: nat)
    requires n > 0
    ensures (k + n) % n == k % n
  {
    ModPlus(k, n);
  }

  lemma LineFirst(k: nat, n: nat)
    requires k < n
    ensures k % n == k
  {
  }

  lemma {:induction false} WithoutBreaksAppend(a: Str, b: Str)
    ensures WithoutBreaks(a + b) == WithoutBreaks(a) + WithoutBreaks(b)
  {
    if a == [] {
      assert a + b == b;
    } else {
      assert (a + b)[1..] == a[1..] + b;
      WithoutBreaksAppend(a[1..], b);
    }
  }

  lemma {:induction false} NothingToRemove(s: Str)
    requires NEWLINE !in s
    ensures WithoutBreaks(s) == s
  {
    if s != [] {
      NothingToRemove(s[1..]);
    }
  }

  /** Removing the breaks gives the text back. */
  lemma {:induction false} BreaksAreRemoved(s: Str, distance: nat)
    requires distance > 0 && NEWLINE !in s
    ensures WithoutBreaks(Broken(s, distance)) == s
    decreases |s|
  {
    hide WithoutBreaks;
    if |s| <= distance {
      NothingToRemove(s);
    } else {
      var line, rest := s[..distance], s[distance..];
      BreaksAreRemoved(rest, distance);
      WithoutBreaksAppend(line + [NEWLINE], Broken(rest, distance));
      WithoutBreaksAppend(line, [NEWLINE]);
      NothingToRemove(line);
      OnlyABreak();
      assert line + [] + rest == s;
    }
  }

  lemma OnlyABreak()
    ensures WithoutBreaks([NEWLINE]) == []
  {
  }

  lemma {:induction false} EncodedHasNoBreak(s: Str, url: bool)
    ensures NEWLINE !in Encoded(s, url)
    decreases |s|
  {
    if |s| > 2 {
      EncodedHasNoBreak(s[3..], url);
    }
  }

  // ----- the decoder inverts the encoder -----

  lemma PosOfLetter(k: nat, url: bool)
    requires k < 64
    ensures PosOf(Letter(k, url)) == Some(k) && !IsPad(Letter(k, url))
  {
  }

  lemma DecodesQuad(a: Byte, b: Byte, c: Byte, url: bool)
    ensures GroupDecoded(Quad(a, b, c, url)) == Ok([a, b, c])
  {
    hide PosOf, Letter, IsPad;
    var k0, k1, k2, k3: nat := a / 4, a % 4 * 16 + b / 16, b % 16 * 4 + c / 64, c % 64;
    PosOfLetter(k0, url);
    PosOfLetter(k1, url);
    PosOfLetter(k2, url);
    PosOfLetter(k3, url);
    QuadBits(a, b, c);
  }

  /** With its padding or with only the letters that carry bits. */
  lemma DecodesLast(s: Str, url: bool, n: nat)
    requires 1 <= |s| <= 2 && |s| < n <= 4
    ensures GroupDecoded(Last(s, url)[..n]) == Ok(s)
  {
    hide PosOf, Letter;
    PosOfLetter(s[0] / 4, url);
    if |s| == 1 {
      QuadBits(s[0], 0, 0);
      PosOfLetter(s[0] % 4 * 16, url);
      assert s == [s[0]];
    } else {
      QuadBits(s[0], s[1], 0);
      PosOfLetter(s[0] % 4 * 16 + s[1] / 16, url);
      PosOfLetter(s[1] % 16 * 4, url);
      assert s == [s[0], s[1]];
    }
  }

  lemma LastGroup(g: Str, v: Str)
    requires 1 <= |g| <= 4 && GroupDecoded(g) == Ok(v)
    ensures Decoded(g) == Ok(v)
  {
    hide GroupDecoded;
    assert Head(g) == g && After(g) == [] && v + [] == v;
    assert Decoded([]) == Ok([]);
  }

  lemma NothingDecoded()
    ensures Decoded([]) == Ok([])
  {
  }

  lemma FirstGroup(g: Str, v: Str, rest: Str, w: Str)
    requires |g| == 4 && GroupDecoded(g) == Ok(v) && Decoded(rest) == Ok(w)
    ensures Decoded(g + rest) == Ok(v + w)
  {
    hide GroupDecoded;
    assert Head(g + rest) == g && After(g + rest) == rest;
  }

  /** How many letters of the encoding carry bits. */
  function Significant(n: nat): (r: nat)
    ensures r <= (n + 2) / 3 * 4
  {
    n / 3 * 4 + if n % 3 == 0 then 0 else n % 3 + 1
  }

  /** In both alphabets, and with all, some or none of the padding. */
  lemma {:induction false} DecodesEncoded(s: Str, url: bool, n: nat)
    requires Significant(|s|) <= n <= |Encoded(s, url)|
    ensures Decoded(Encoded(s, url)[..n]) == Ok(s)
    decreases |s|
  {
    hide GroupDecoded, Letter, Quad, Last, Decoded;
    if |s| == 0 {
      NothingDecoded();
    } else if |s| <= 2 {
      DecodesLast(s, url, n);
      LastGroup(Last(s, url)[..n], s);
    } else {
      var q, rest := Quad(s[0], s[1], s[2], url), Encoded(s[3..], url);
      DecodesQuad(s[0], s[1], s[2], url);
      DecodesEncoded(s[3..], url, n - 4);
      assert (q + rest)[..n] == q + rest[..n - 4];
      FirstGroup(q, [s[0], s[1], s[2]], rest[..n - 4], s[3..]);
      assert s == [s[0], s[1], s[2]] + s[3..];
    }
  }

  /** base64_encode, then base64_decode, with either alphabet. */
  lemma RoundTrip(s: Str, url: bool)
    ensures Decoded(Encoded(s, url)) == Ok(s)
  {
    DecodesEncoded(s, url, |Encoded(s, url)|);
    assert Encoded(s, url)[..|Encoded(s, url)|] == Encoded(s, url);
  }

  /** base64_encode_pem and base64_encode_mime, then base64_decode with remove_linebreaks. */
  lemma BrokenRoundTrip(s: Str, distance: nat)
    requires distance > 0
    ensures Decoded(WithoutBreaks(Broken(Encoded(s, false), distance))) == Ok(s)
  {
    EncodedHasNoBreak(s, false);
    BreaksAreRemoved(Encoded(s, false), distance);
    RoundTrip(s, false);
  }

  // ----- the tables and the bits of RFC 4648 -----

  const A_TO_M: Str := [0x41, 0x42, 0x43, 0x44, 0x45, 0x46, 0x47, 0x48, 0x49, 0x4a, 0x4b, 0x4c, 0x4d]
  const N_TO_Z: Str := [0x4e, 0x4f, 0x50, 0x51, 0x52, 0x53, 0x54, 0x55, 0x56, 0x57, 0x58, 0x59, 0x5a]
  const A_TO_M_SMALL: Str := [0x61, 0x62, 0x63, 0x64, 0x65, 0x66, 0x67, 0x68, 0x69, 0x6a, 0x6b, 0x6c, 0x6d]
  const N_TO_Z_SMALL: Str := [0x6e, 0x6f, 0x70, 0x71, 0x72, 0x73, 0x74, 0x75, 0x76, 0x77, 0x78, 0x79, 0x7a]
  const DIGITS: Str := [0x30, 0x31, 0x32, 0x33, 0x34, 0x35, 0x36, 0x37, 0x38, 0x39]

  /** Table 1: A to Z, a to z, 0 to 9, plus and slash. */
  const STANDARD: Str := A_TO_M + N_TO_Z + A_TO_M_SMALL + N_TO_Z_SMALL + DIGITS + [0x2b, 0x2f]

  /** Table 2: minus and underscore in the last two places. */
  const URL_SAFE: Str := STANDARD[62 := 0x2d][63 := 0x5f]

  function Alphabet(url: bool): (r: Str)
    ensures |r| == 64
  {
    if url then URL_SAFE else STANDARD
  }

  lemma LetterIsTabulated(k: nat, url: bool)
    requires k < 64
    ensures Letter(k, url) == Alphabet(url)[k]
  {
    hide A_TO_M, N_TO_Z, A_TO_M_SMALL, N_TO_Z_SMALL, DIGITS;
    Rows();
    if k < 13 {
      CapitalRow(k);
    } else if k < 26 {
      CapitalRow(k - 13);
    } else if k < 39 {
      SmallRow(k - 26);
    } else if k < 52 {
      SmallRow(k - 39);
    } else if k < 62 {
      DigitRow(k - 52);
    }
  }

  lemma Rows()
    ensures |A_TO_M| == |N_TO_Z| == |A_TO_M_SMALL| == |N_TO_Z_SMALL| == 13 && |DIGITS| == 10
  {
  }

  lemma CapitalRow(k: nat)
    requires k < 13
    ensures |A_TO_M| == |N_TO_Z| == 13 && A_TO_M[k] == k + 65 && N_TO_Z[k] == k + 13 + 65
  {
  }

  lemma SmallRow(k: nat)
    requires k < 13
    ensures |A_TO_M_SMALL| == |N_TO_Z_SMALL| == 13 && A_TO_M_SMALL[k] == k + 97 && N_TO_Z_SMALL[k] == k + 13 + 97
  {
  }

  lemma DigitRow(k: nat)
    requires k < 10
    ensures |DIGITS| == 10 && DIGITS[k] == k + 48
  {
  }

  /** base64.cpp reads the letters of both tables, and no others. */
  lemma PosOfIff(c: Byte, k: nat)
    requires k < 64
    ensures PosOf(c) == Some(k) <==> c == STANDARD[k] || c == URL_SAFE[k]
  {
    hide STANDARD, URL_SAFE;
    LetterIsTabulated(k, false);
    LetterIsTabulated(k, true);
  }

  /** mongoose reads those of the first table, and the padding. */
  lemma MgRevIff(c: Byte, k: nat)
    requires k < 64
    ensures MgRev(c) == Some(k) <==> c == STANDARD[k]
    ensures MgRev(c) == Some(64) <==> c == 0x3d
  {
    hide STANDARD, URL_SAFE;
    LetterIsTabulated(k, false);
  }

  /** Section 4: the 24 bits of three bytes are the 24 bits of four letters, the highest first. */
  lemma QuadByPosition(a: Byte, b: Byte, c: Byte, k0: nat, k1: nat, k2: nat, k3: nat, url: bool)
    requires k0 < 64 && k1 < 64 && k2 < 64 && k3 < 64
    requires (a as nat * 0x100 + b) * 0x100 + c == ((k0 * 64 + k1) * 64 + k2) * 64 + k3
    ensures Encoded([a, b, c], url) == [Alphabet(url)[k0], Alphabet(url)[k1], Alphabet(url)[k2], Alphabet(url)[k3]]
  {
    hide STANDARD, URL_SAFE, Letter, Alphabet;
    LetterIsTabulated(k0, url);
    LetterIsTabulated(k1, url);
    LetterIsTabulated(k2, url);
    LetterIsTabulated(k3, url);
    SameBits(a, b, c, k0, k1, k2, k3);
    EncodedGroup([], [a, b, c], url);
    assert [] + [a, b, c] == [a, b, c] && Encoded([], url) == [];
  }

  lemma SameBits(a: Byte, b: Byte, c: Byte, k0: nat, k1: nat, k2: nat, k3: nat)
    requires k0 < 64 && k1 < 64 && k2 < 64 && k3 < 64
    requires (a as nat * 0x100 + b) * 0x100 + c == ((k0 * 64 + k1) * 64 + k2) * 64 + k3
    ensures k0 == a / 4 && k1 == a % 4 * 16 + b / 16 && k2 == b % 16 * 4 + c / 64 && k3 == c % 64
  {
    var d, l := b % 16 * 4 + c / 64, a % 4 * 16 + b / 16;
    assert (a as nat * 0x100 + b) * 0x100 + c == ((a / 4 * 64 + l) * 64 + d) * 64 + c % 64;
    LowestSextet((a / 4 * 64 + l) * 64 + d, c % 64, (k0 * 64 + k1) * 64 + k2, k3);
    LowestSextet(a / 4 * 64 + l, d, k0 * 64 + k1, k2);
    LowestSextet(a / 4, l, k0, k1);
  }

  lemma LowestSextet(x: nat, i: nat, y: nat, j: nat)
    requires i < 64 && j < 64 && x * 64 + i == y * 64 + j
    ensures x == y && i == j
  {
  }

  /** Two bytes are three letters with two zero bits behind, one byte is two letters with four. */
  lemma PairByPosition(a: Byte, b: Byte, k0: nat, k1: nat, k2: nat, url: bool)
    requires k0 < 64 && k1 < 64 && k2 < 64 && (a as nat * 0x100 + b) * 4 == (k0 * 64 + k1) * 64 + k2
    ensures Encoded([a, b], url) ==
      [Alphabet(url)[k0], Alphabet(url)[k1], Alphabet(url)[k2], if url then 0x2e else 0x3d]
  {
    hide STANDARD, URL_SAFE, Letter, Alphabet;
    LetterIsTabulated(k0, url);
    LetterIsTabulated(k1, url);
    LetterIsTabulated(k2, url);
    SameBits(a, b, 0, k0, k1, k2, 0);
  }

  lemma SingleByPosition(a: Byte, k0: nat, k1: nat, url: bool)
    requires k0 < 64 && k1 < 64 && a as nat * 16 == k0 * 64 + k1
    ensures Encoded([a], url) ==
      [Alphabet(url)[k0], Alphabet(url)[k1], if url then 0x2e else 0x3d, if url then 0x2e else 0x3d]
  {
    hide STANDARD, URL_SAFE, Letter, Alphabet;
    LetterIsTabulated(k0, url);
    LetterIsTabulated(k1, url);
    SameBits(a, 0, 0, k0, k1, 0, 0);
  }

  /** The examples of section 10: the beginnings of foobar. */
  lemma RfcExamples()
    ensures Encoded([], false) == []
    ensures Encoded([0x66], false) == [0x5a, 0x67, 0x3d, 0x3d]
    ensures Encoded([0x66, 0x6f], false) == [0x5a, 0x6d, 0x38, 0x3d]
    ensures Encoded([0x66, 0x6f, 0x6f], false) == [0x5a, 0x6d, 0x39, 0x76]
    ensures Encoded([0x66, 0x6f, 0x6f, 0x62], false) == [0x5a, 0x6d, 0x39, 0x76, 0x59, 0x67, 0x3d, 0x3d]
    ensures Encoded([0x66, 0x6f, 0x6f, 0x62, 0x61], false) == [0x5a, 0x6d, 0x39, 0x76, 0x59, 0x6d, 0x45, 0x3d]
    ensures Encoded([0x66, 0x6f, 0x6f, 0x62, 0x61, 0x72], false) == [0x5a, 0x6d, 0x39, 0x76, 0x59, 0x6d, 0x46, 0x79]
  {
    var foo: Str := [0x66, 0x6f, 0x6f];
    ExampleGroups();
    hide Letter, Encoded;
    EncodedAppend(foo, [0x62], false);
    EncodedAppend(foo, [0x62, 0x61], false);
    EncodedAppend(foo, [0x62, 0x61, 0x72], false);
    assert foo + [0x62] == [0x66, 0x6f, 0x6f, 0x62] && foo + [0x62, 0x61] == [0x66, 0x6f, 0x6f, 0x62, 0x61];
    assert foo + [0x62, 0x61, 0x72] == [0x66, 0x6f, 0x6f, 0x62, 0x61, 0x72];
  }

  lemma ExampleGroups()
    ensures Encoded([], false) == []
    ensures Encoded([0x66], false) == [0x5a, 0x67, 0x3d, 0x3d]
    ensures Encoded([0x66, 0x6f], false) == [0x5a, 0x6d, 0x38, 0x3d]
    ensures Encoded([0x66, 0x6f, 0x6f], false) == [0x5a, 0x6d, 0x39, 0x76]
    ensures Encoded([0x62], false) == [0x59, 0x67, 0x3d, 0x3d]
    ensures Encoded([0x62, 0x61], false) == [0x59, 0x6d, 0x45, 0x3d]
    ensures Encoded([0x62, 0x61, 0x72], false) == [0x59, 0x6d, 0x46, 0x79]
  {
    var none: Str := [];
    assert [0x66, 0x6f, 0x6f][3..] == none && [0x62, 0x61, 0x72][3..] == none;
  }

  // ----- which texts the decoder accepts -----

  const PADS: Str := [0x3d, 0x2e]

  /** A letter of either table, or padding in the last two places of a group; what stands behind it is not looked at. */
  predicate GoodAt(s: Str, k: nat)
    requires k < |s|
  {
    s[k] in STANDARD || s[k] in URL_SAFE ||
    (k % 4 == 2 && s[k] in PADS) || (k % 4 == 3 && (s[k] in PADS || s[k - 1] in PADS))
  }

  predicate WellFormed(s: Str) { |s| % 4 != 1 && forall k :: 0 <= k < |s| ==> GoodAt(s, k) }

  lemma LetterOrPad(c: Byte)
    ensures PosOf(c).Some? <==> c in STANDARD || c in URL_SAFE
    ensures IsPad(c) <==> c in PADS
  {
    TablesHave64();
    hide STANDARD, URL_SAFE;
    forall k | 0 <= k < 64 ensures c == STANDARD[k] || c == URL_SAFE[k] ==> PosOf(c) == Some(k) { PosOfIff(c, k); }
    if PosOf(c).Some? { PosOfIff(c, PosOf(c).value); }
  }

  lemma TablesHave64()
    ensures |STANDARD| == 64 && |URL_SAFE| == 64
  {
  }

  lemma GroupAccepted(g: Str)
    requires 1 <= |g| <= 4
    ensures GroupDecoded(g).Ok? <==> WellFormed(g)
  {
    hide PosOf, IsPad, STANDARD, URL_SAFE, PADS;
    if |g| > 1 {
      LetterOrPad(g[0]);
      LetterOrPad(g[1]);
      if |g| > 2 { LetterOrPad(g[2]); }
      if |g| > 3 { LetterOrPad(g[3]); }
      assert GoodAt(g, 0) <==> PosOf(g[0]).Some?;
      assert GoodAt(g, 1) <==> PosOf(g[1]).Some?;
      assert |g| > 2 ==> (GoodAt(g, 2) <==> PosOf(g[2]).Some? || IsPad(g[2]));
      assert |g| > 3 ==> (GoodAt(g, 3) <==> PosOf(g[3]).Some? || IsPad(g[3]) || IsPad(g[2]));
      assert WellFormed(g) ==> GoodAt(g, 0) && GoodAt(g, 1) && (|g| > 2 ==> GoodAt(g, 2)) && (|g| > 3 ==> GoodAt(g, 3));
      assert WellFormed(g) <== GoodAt(g, 0) && GoodAt(g, 1) && (|g| > 2 ==> GoodAt(g, 2)) && (|g| > 3 ==> GoodAt(g, 3));
    }
  }

  lemma WellFormedSplit(s: Str)
    requires s != []
    ensures WellFormed(s) <==> WellFormed(Head(s)) && WellFormed(After(s))
  {
    hide STANDARD, URL_SAFE, PADS;
    if |s| > 4 {
      assert |s| % 4 == |After(s)| % 4;
      forall k | 0 <= k < |s| ensures GoodAt(s, k) <==> if k < 4 then GoodAt(Head(s), k) else GoodAt(After(s), k - 4) {
      }
      forall k | 0 <= k < |s| - 4 ensures GoodAt(After(s), k) <==> GoodAt(s, k + 4) {
      }
    } else {
      assert WellFormed([]);
    }
  }

  /** The decoder accepts exactly these texts: no lone last letter, and padding only where a group may end. */
  lemma {:induction false} AcceptedIffWellFormed(s: Str)
    ensures Decoded(s).Ok? <==> WellFormed(s)
    decreases |s|
  {
    hide GroupDecoded, WellFormed;
    if s == [] {
      NothingWrong();
    } else {
      WellFormedSplit(s);
      GroupAccepted(Head(s));
      AcceptedIffWellFormed(After(s));
    }
  }

  lemma NothingWrong()
    ensures WellFormed([])
  {
  }

  /** The out_of_range exception: a single letter is left over, and what stands before it is accepted. */
  lemma {:induction false} LoneLetterIff(s: Str)
    ensures Decoded(s) == OutOfRange <==> |s| % 4 == 1 && WellFormed(s[..|s| - 1])
    decreases |s|
  {
    hide GroupDecoded, WellFormed;
    if s != [] {
      GroupAccepted(Head(s));
      LoneGroup(Head(s));
      if |s| > 4 {
        LoneLetterIff(After(s));
        assert |s| % 4 == |After(s)| % 4;
        if |s| % 4 == 1 {
          var t := s[..|s| - 1];
          WellFormedSplit(t);
          assert Head(t) == Head(s) && After(t) == After(s)[..|After(s)| - 1];
        }
      } else {
        assert After(s) == [] && Head(s) == s;
        if |s| == 1 {
          assert s[..0] == [];
          NothingWrong();
        }
      }
    }
  }

  lemma LoneGroup(g: Str)
    requires 1 <= |g| <= 4
    ensures GroupDecoded(g) == OutOfRange <==> |g| == 1
  {
  }

  /** In a whole group: a letter of the first table, or padding in the last two places. */
  predicate MgGood(s: Str, k: nat)
    requires k < |s|
  {
    s[k] in STANDARD || (k % 4 >= 2 && s[k] == 0x3d)
  }

  lemma MgReads(c: Byte)
    ensures MgRev(c).Some? && MgRev(c).value < 64 <==> c in STANDARD
    ensures MgRev(c) == Some(64) <==> c == 0x3d
    ensures 0x3d !in STANDARD
  {
    forall k | 0 <= k < 64 ensures STANDARD[k] == c ==> MgRev(c) == Some(k) { MgRevIff(c, k); }
    forall k | 0 <= k < 64 ensures STANDARD[k] != 0x3d { MgRevIff(0x3d, k); }
    if MgRev(c).Some? && MgRev(c).value < 64 { MgRevIff(c, MgRev(c).value); }
    MgRevIff(c, 0);
  }

  lemma MgGroupAccepted(g: Str)
    requires |g| == 4
    ensures MgGroup(g).Some? <==> MgGood(g, 0) && MgGood(g, 1) && MgGood(g, 2) && MgGood(g, 3)
  {
    hide MgRev, STANDARD;
    MgReads(g[0]);
    MgReads(g[1]);
    MgReads(g[2]);
    MgReads(g[3]);
  }

  /** The texts mongoose decodes. */
  lemma {:induction false} MgAcceptedIff(s: Str)
    ensures MgDecoded(s).Some? <==> forall k :: 0 <= k < |s| / 4 * 4 ==> MgGood(s, k)
    decreases |s|
  {
    hide STANDARD, MgGroup;
    if |s| >= 4 {
      var g, t := s[..4], s[4..];
      MgGroupAccepted(g);
      MgAcceptedIff(t);
      assert |s| / 4 * 4 == |t| / 4 * 4 + 4;
      forall k | 0 <= k < |t| / 4 * 4 ensures MgGood(t, k) <==> MgGood(s, k + 4) {
      }
      assert MgGood(g, 0) == MgGood(s, 0) && MgGood(g, 1) == MgGood(s, 1);
      assert MgGood(g, 2) == MgGood(s, 2) && MgGood(g, 3) == MgGood(s, 3);
      if MgDecoded(s).Some? {
        forall k | 0 <= k < |s| / 4 * 4 ensures MgGood(s, k) {
          if k >= 4 { assert MgGood(t, k - 4); }
        }
      }
    }
  }
}
