/** Bytes, byte strings, and what it means for one string to stand inside another. */
module Bytes {

  type Byte = b: int | 0 <= b < 0x100

  type Str = seq<Byte>

  /** The string `t` stands in `text` at position `p`. */
  predicate At(text: Str, p: nat, t: Str): (r: bool)
    ensures r ==> p + |t| <= |text|
  {
    p + |t| <= |text| && text[p..p + |t|] == t
  }

  lemma AtSplit(text: Str, p: nat, a: Str, b: Str)
    ensures At(text, p, a + b) <==> At(text, p, a) && At(text, p + |a|, b)
  {
    if At(text, p, a + b) {
      assert text[p..p + |a|] == text[p..p + |a + b|][..|a|] == (a + b)[..|a|] == a;
      assert text[p + |a|..p + |a| + |b|] == text[p..p + |a + b|][|a|..] == (a + b)[|a|..] == b;
    }
    if At(text, p, a) && At(text, p + |a|, b) {
      assert text[p..p + |a + b|] == text[p..p + |a|] + text[p + |a|..p + |a| + |b|];
    }
  }

  lemma AtIndex(text: Str, p: nat, t: Str, k: nat)
    requires At(text, p, t) && k < |t|
    ensures p + k < |text| && text[p + k] == t[k]
  {
    assert text[p..p + |t|][k] == t[k];
  }

  lemma AtSlice(text: Str, p: nat, t: Str)
    requires At(text, p, t)
    ensures text[p..p + |t|] == t
  {
  }

  lemma Assoc<T>(a: seq<T>, b: seq<T>, c: seq<T>)
    ensures a + (b + c) == (a + b) + c
  {
  }

  lemma PrefixDrop(t: Str, w: Str, n: nat)
    requires t <= w && n <= |t|
    ensures t[n..] <= w[n..] && t[..n] == w[..n]
  {
  }

  lemma PrefixOfPrefix(t: Str, u: Str, w: Str)
    requires t + u <= w
    ensures t <= w
  {
    assert t == (t + u)[..|t|] == w[..|t|];
  }

  /** A lower-case hexadecimal digit. */
  function HexDigit(n: nat): Byte
    requires n < 16
  {
    if n < 10 then 0x30 + n else 0x57 + n
  }

  /** Concatenation of a list of strings. */
  function Concat(parts: seq<Str>): Str {
    if parts == [] then [] else parts[0] + Concat(parts[1..])
  }

  lemma {:induction false} ConcatAppend(a: seq<Str>, b: seq<Str>)
    ensures Concat(a + b) == Concat(a) + Concat(b)
  {
    if a == [] {
      assert a + b == b;
    } else {
      assert (a + b)[0] == a[0] && (a + b)[1..] == a[1..] + b;
      ConcatAppend(a[1..], b);
      assert a[0] + (Concat(a[1..]) + Concat(b)) == (a[0] + Concat(a[1..])) + Concat(b);
    }
  }
}
