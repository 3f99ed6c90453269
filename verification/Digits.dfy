/** Digits of either letter case, and the numbers they stand for by position. */
module Digits {
  import opened Bytes

  type Decimal = n: nat | n < 10

  type Hex = n: nat | n < 16

  const LOWER: Str :=
    [0x30, 0x31, 0x32, 0x33, 0x34, 0x35, 0x36, 0x37, 0x38, 0x39, 0x61, 0x62, 0x63, 0x64, 0x65, 0x66]

  const UPPER: Str :=
    [0x30, 0x31, 0x32, 0x33, 0x34, 0x35, 0x36, 0x37, 0x38, 0x39, 0x41, 0x42, 0x43, 0x44, 0x45, 0x46]

  /** A digit in one of the letter cases. */
  datatype Digit = Digit(n: Hex, upper: bool)

  function DigitByte(d: Digit): Byte {
    if d.upper then UPPER[d.n] else LOWER[d.n]
  }

  function DigitBytes(ds: seq<Digit>): (t: Str)
    ensures |t| == |ds|
  {
    seq(|ds|, i requires 0 <= i < |ds| => DigitByte(ds[i]))
  }

  /** Most significant digit first. */
  function Positional(ds: seq<nat>, base: nat): nat {
    if ds == [] then 0 else base * Positional(ds[..|ds| - 1], base) + ds[|ds| - 1]
  }

  /** The same byte, or the same letter a to f in the other case. */
  predicate SameDigit(a: Byte, b: Byte) {
    a == b || (0x61 <= a <= 0x66 && b == a - 0x20) || (0x41 <= a <= 0x46 && b == a + 0x20)
  }

  function Numbers(ds: seq<Digit>): (ns: seq<nat>)
    ensures |ns| == |ds|
  {
    seq(|ds|, i requires 0 <= i < |ds| => ds[i].n)
  }

  lemma NoDigits(base: nat)
    ensures Positional([], base) == 0
  {
  }

  lemma OneMoreDigit(ds: seq<nat>, d: nat, base: nat)
    ensures Positional(ds + [d], base) == base * Positional(ds, base) + d
  {
    assert (ds + [d])[..|ds|] == ds;
  }

  function Power(base: nat, n: nat): nat { if n == 0 then 1 else base * Power(base, n - 1) }

  lemma DigitRanges(d: Digit)
    ensures DigitByte(d) == if d.n < 10 then 0x30 + d.n else if d.upper then 0x37 + d.n else 0x57 + d.n
  {
  }

  lemma HexDigitIsLower(n: Hex)
    ensures HexDigit(n) == DigitByte(Digit(n, false))
  {
  }
}
