/** JSON strings: the escaping writer, the string tokeniser, and the decoder. */
module JsonString {
  import opened Bytes

  const QUOTE: Byte := 0x22
  const BACKSLASH: Byte := 0x5c
  const SLASH: Byte := 0x2f
  const LETTER_U: Byte := 0x75
  const REPLACEMENT_CHARACTER := 0xFFFD

  // ----- writing -----

  /** utf8ToCodepoint: the code point at `i`, and where it leaves the caller's cursor (its last byte). */
  function CodePoint(s: Str, i: nat): (r: (nat, nat))
    requires i < |s|
    ensures i <= r.1 < |s|
  {
    var b := s[i];
    if b < 0x80 then (b, i)
    else if b < 0xE0 then
      if |s| - i < 2 then (REPLACEMENT_CHARACTER, i) else
      var c := b % 0x20 * 0x40 + s[i + 1] % 0x40;
      (if c < 0x80 then REPLACEMENT_CHARACTER else c, i + 1)
    else if b < 0xF0 then
      if |s| - i < 3 then (REPLACEMENT_CHARACTER, i) else
      var c := b % 0x10 * 0x1000 + s[i + 1] % 0x40 * 0x40 + s[i + 2] % 0x40;
      (if 0xD800 <= c <= 0xDFFF || c < 0x800 then REPLACEMENT_CHARACTER else c, i + 2)
    else if b < 0xF8 then
      if |s| - i < 4 then (REPLACEMENT_CHARACTER, i) else
      var c := b % 8 * 0x40000 + s[i + 1] % 0x40 * 0x1000 + s[i + 2] % 0x40 * 0x40 + s[i + 3] % 0x40;
      (if c < 0x10000 then REPLACEMENT_CHARACTER else c, i + 3)
    else (REPLACEMENT_CHARACTER, i)
  }

  /** appendHex: a \u escape with four lower-case digits (toHex16Bit keeps the low 16 bits). */
  function Hex16(x: nat): Str {
    [BACKSLASH, LETTER_U,
     HexDigit(x / 0x1000 % 16), HexDigit(x / 0x100 % 16), HexDigit(x / 0x10 % 16), HexDigit(x % 16)]
  }

  /** The letter after the backslash for bytes with a two-character escape, else 0. */
  function ShortEscape(c: Byte): Byte {
    match c
    case 0x22 => 0x22
    case 0x5c => 0x5c
    case 0x08 => 0x62
    case 0x0c => 0x66
    case 0x0a => 0x6e
    case 0x0d => 0x72
    case 0x09 => 0x74
    case _ => 0
  }

  /** The text of one code point without a two-character escape. */
  function EscapeUnit(cp: nat): Str {
    if cp < 0x20 then Hex16(cp)
    else if cp < 0x80 then [cp]
    else if cp < 0x10000 then Hex16(cp)
    else Hex16(0xd800 + (cp - 0x10000) / 0x400 % 0x400) + Hex16(0xdc00 + (cp - 0x10000) % 0x400)
  }

  /** Everything the escaping loop appends from cursor `i` on. */
  function EscapeFrom(s: Str, i: nat): Str
    requires i <= |s|
    decreases |s| - i
  {
    if i == |s| then []
    else if ShortEscape(s[i]) != 0 then [BACKSLASH, ShortEscape(s[i])] + EscapeFrom(s, i + 1)
    else var (cp, last) := CodePoint(s, i); EscapeUnit(cp) + EscapeFrom(s, last + 1)
  }

  /** The quoted form of a string. */
  function Quoted(s: Str): Str { [QUOTE] + EscapeFrom(s, 0) + [QUOTE] }

  /** doesAnyCharRequireEscaping */
  predicate RequiresEscaping(s: Str) {
    exists k :: 0 <= k < |s| && (s[k] == BACKSLASH || s[k] == QUOTE || s[k] < 0x20 || s[k] > 0x7F)
  }

  lemma {:induction false} PlainTextIsKept(s: Str, i: nat)
    requires i <= |s| && !RequiresEscaping(s)
    ensures EscapeFrom(s, i) == s[i..]
    decreases |s| - i
  {
    if i < |s| {
      PlainCharacter(s, i);
      hide EscapeFrom, RequiresEscaping;
      PlainTextIsKept(s, i + 1);
      assert s[i..] == [s[i]] + s[i + 1..];
    }
  }

  lemma PlainCharacter(s: Str, i: nat)
    requires i < |s| && !RequiresEscaping(s)
    ensures EscapeFrom(s, i) == [s[i]] + EscapeFrom(s, i + 1)
  {
    assert CodePoint(s, i) == (s[i], i) && EscapeUnit(s[i]) == [s[i]];
    hide CodePoint, EscapeUnit;
  }

  /** One turn of the loop appends what EscapeFrom says. */
  lemma EscapeStep(s: Str, i: nat, before: Str, after: Str, next: nat)
    requires i < |s|
    requires if ShortEscape(s[i]) != 0 then next == i + 1 && after == before + [BACKSLASH, ShortEscape(s[i])]
             else next == CodePoint(s, i).1 + 1 && after == before + EscapeUnit(CodePoint(s, i).0)
    ensures before + EscapeFrom(s, i) == after + EscapeFrom(s, next)
  {
    hide CodePoint, EscapeUnit, ShortEscape;
    var u := if ShortEscape(s[i]) != 0 then [BACKSLASH, ShortEscape(s[i])] else EscapeUnit(CodePoint(s, i).0);
    assert EscapeFrom(s, i) == u + EscapeFrom(s, next);
    assert before + (u + EscapeFrom(s, next)) == (before + u) + EscapeFrom(s, next);
  }

  /** valueToQuotedStringN with emitUTF8 = false. */
  method ValueToQuotedString(value: Str) returns (result: Str)
    ensures result == Quoted(value)
  {
    if !RequiresEscaping(value) {
      PlainTextIsKept(value, 0);
      return [QUOTE] + value + [QUOTE];
    }
    hide CodePoint, ShortEscape, EscapeUnit, EscapeFrom;
    result := [QUOTE];
    var c := 0;
    while c != |value|
      invariant 0 <= c <= |value|
      invariant [QUOTE] + EscapeFrom(value, 0) == result + EscapeFrom(value, c)
      decreases |value| - c
    {
      ghost var before := result;
      ghost var start := c;
      var escape := ShortEscape(value[c]);
      if escape != 0 {
        result := result + [BACKSLASH, escape];
      } else {
        var (codepoint, last) := CodePoint(value, c);
        c := last;
        result := AppendCodePoint(result, codepoint);
      }
      c := c + 1;
      assert escape != 0 ==> c == start + 1;
      EscapeStep(value, start, before, result, c);
    }
    NothingEscaped(value);
    result := result + [QUOTE];
  }

  lemma NothingEscaped(s: Str)
    ensures EscapeFrom(s, |s|) == []
  {
  }

  /** The default case of the switch: the character itself, one escape, or a surrogate pair. */
  method AppendCodePoint(text: Str, cp: nat) returns (result: Str)
    ensures result == text + EscapeUnit(cp)
  {
    hide Hex16;
    var codepoint := cp;
    result := text;
    if codepoint < 0x20 {
      result := result + Hex16(codepoint);
    } else if codepoint < 0x80 {
      result := result + [codepoint];
    } else if codepoint < 0x10000 {
      result := result + Hex16(codepoint);
    } else {
      codepoint := codepoint - 0x10000;
      result := result + Hex16(0xd800 + codepoint / 0x400 % 0x400);
      result := result + Hex16(0xdc00 + codepoint % 0x400);
      assert result == text + EscapeUnit(cp);
    }
  }

  // ----- reading -----

  /** readString: scans from just after the opening quote to just after the closing one. */
  function StringEnd(text: Str, p: nat): (r: (bool, nat))
    requires p <= |text|
    ensures p <= r.1 <= |text|
    ensures r.0 ==> p < r.1 && text[r.1 - 1] == QUOTE
    decreases |text| - p
  {
    if p == |text| then (false, p)
    else if text[p] == BACKSLASH then
      if p + 1 == |text| then (false, p + 1) else StringEnd(text, p + 2)
    else if text[p] == QUOTE then (true, p + 1)
    else StringEnd(text, p + 1)
  }

  /** codePointToUTF8 */
  function CodePointToUtf8(cp: nat): Str {
    if cp <= 0x7f then [cp]
    else if cp <= 0x7FF then [0xC0 + cp / 0x40 % 0x20, 0x80 + cp % 0x40]
    else if cp <= 0xFFFF then [0xE0 + cp / 0x1000 % 0x10, 0x80 + cp / 0x40 % 0x40, 0x80 + cp % 0x40]
    else if cp <= 0x10FFFF then
      [0xF0 + cp / 0x40000 % 8, 0x80 + cp / 0x1000 % 0x40, 0x80 + cp / 0x40 % 0x40, 0x80 + cp % 0x40]
    else []
  }

  datatype Problem =
    | EmptyEscape | BadEscape | FourDigitsExpected | HexDigitExpected | SixCharactersExpected | SecondHalfExpected

  /** Either the decoded text or what was wrong and where the cursor stood. */
  datatype Decoding = Text(s: Str) | Bad(problem: Problem, where: nat)

  datatype Unit = Unit(codepoint: nat, next: nat) | BadUnit(problem: Problem, where: nat)

  /** The value of a hexadecimal digit, 16 for any other byte. */
  function HexValue(c: Byte): (v: nat)
    ensures v <= 16
  {
    if 0x30 <= c <= 0x39 then c - 0x30
    else if 0x61 <= c <= 0x66 then c - 0x57
    else if 0x41 <= c <= 0x46 then c - 0x37
    else 16
  }

  /** decodeUnicodeEscapeSequence, with `digits` of the four digits still to read. */
  function DecodeHex(text: Str, current: nat, digits: nat, acc: nat): (r: Unit)
    requires current + digits <= |text|
    ensures r.Unit? ==> r.next == current + digits
    decreases digits
  {
    if digits == 0 then Unit(acc, current)
    else if HexValue(text[current]) == 16 then BadUnit(HexDigitExpected, current + 1)
    else DecodeHex(text, current + 1, digits - 1, acc * 16 + HexValue(text[current]))
  }

  function DecodeEscapeSequence(text: Str, current: nat, end: nat): (r: Unit)
    requires current <= end <= |text|
    ensures r.Unit? ==> r.next == current + 4 <= end
  {
    if end - current < 4 then BadUnit(FourDigitsExpected, current) else DecodeHex(text, current, 4, 0)
  }

  /** decodeUnicodeCodePoint: joins a surrogate pair; the second half is not checked to be one. */
  function DecodeCodePoint(text: Str, current: nat, end: nat): (r: Unit)
    requires current <= end <= |text|
    ensures r.Unit? ==> current < r.next <= end
  {
    var u := DecodeEscapeSequence(text, current, end);
    if u.BadUnit? || !(0xD800 <= u.codepoint <= 0xDBFF) then u
    else if end - u.next < 6 then BadUnit(SixCharactersExpected, u.next)
    else if text[u.next] != BACKSLASH then BadUnit(SecondHalfExpected, u.next + 1)
    else if text[u.next + 1] != LETTER_U then BadUnit(SecondHalfExpected, u.next + 2)
    else
      var l := DecodeEscapeSequence(text, u.next + 2, end);
      if l.BadUnit? then l else Unit(0x10000 + u.codepoint % 0x400 * 0x400 + l.codepoint % 0x400, l.next)
  }

  /** The byte a two-character escape stands for, 0 for any other letter. */
  function UnescapeShort(c: Byte): Byte {
    match c
    case 0x22 => 0x22
    case 0x2f => 0x2f
    case 0x5c => 0x5c
    case 0x62 => 0x08
    case 0x66 => 0x0c
    case 0x6e => 0x0a
    case 0x72 => 0x0d
    case 0x74 => 0x09
    case _ => 0
  }

  function Prepend(u: Str, d: Decoding): Decoding {
    if d.Text? then Text(u + d.s) else d
  }

  /** decodeString on the characters between the quotes. */
  function Decode(text: Str, current: nat, end: nat): Decoding
    requires current <= end <= |text|
    decreases end - current
  {
    if current == end || text[current] == QUOTE then Text([])
    else if text[current] != BACKSLASH then Prepend([text[current]], Decode(text, current + 1, end))
    else if current + 1 == end then Bad(EmptyEscape, end)
    else if UnescapeShort(text[current + 1]) != 0 then
      Prepend([UnescapeShort(text[current + 1])], Decode(text, current + 2, end))
    else if text[current + 1] == LETTER_U then
      var u := DecodeCodePoint(text, current + 2, end);
      if u.BadUnit? then Bad(u.problem, u.where)
      else Prepend(CodePointToUtf8(u.codepoint), Decode(text, u.next, end))
    else Bad(BadEscape, current + 2)
  }

  lemma PrependTwice(a: Str, b: Str, d: Decoding)
    ensures Prepend(a, Prepend(b, d)) == Prepend(a + b, d)
  {
    if d.Text? { assert a + (b + d.s) == (a + b) + d.s; }
  }

  /** decodeString's loop. */
  method DecodeString(text: Str, start: nat, stop: nat) returns (r: Decoding)
    requires start + 2 <= stop <= |text|
    ensures r == Decode(text, start + 1, stop - 1)
  {
    hide CodePointToUtf8, DecodeCodePoint, UnescapeShort;
    var decoded: Str := [];
    var current := start + 1;
    var end := stop - 1;
    while current != end
      invariant start < current <= end
      invariant Decode(text, start + 1, end) == Prepend(decoded, Decode(text, current, end))
      decreases end - current
    {
      ghost var rest := Decode(text, current, end);
      ghost var sofar := decoded;
      var c := text[current];
      current := current + 1;
      if c == QUOTE {
        break;
      }
      if c == BACKSLASH {
        if current == end {
          return Bad(EmptyEscape, current);
        }
        var escape := text[current];
        current := current + 1;
        if UnescapeShort(escape) != 0 {
          decoded := decoded + [UnescapeShort(escape)];
        } else if escape == LETTER_U {
          var u := DecodeCodePoint(text, current, end);
          if u.BadUnit? {
            return Bad(u.problem, u.where);
          }
          current := u.next;
          decoded := decoded + CodePointToUtf8(u.codepoint);
        } else {
          return Bad(BadEscape, current);
        }
      } else {
        decoded := decoded + [c];
      }
      PrependTwice(sofar, decoded[|sofar|..], Decode(text, current, end));
    }
    r := Text(decoded);
    assert decoded + [] == decoded;
  }

  // ----- what the decoder makes of the writer's text -----

  /** Twenty bits survive the surrogate pair. */
  function Reduced(cp: nat): nat {
    if cp < 0x10000 then cp else 0x10000 + (cp - 0x10000) % 0x100000
  }

  /** The string with every malformed UTF-8 piece replaced by what the reader will see for it. */
  function SanitizedFrom(s: Str, i: nat): Str
    requires i <= |s|
    decreases |s| - i
  {
    if i == |s| then []
    else if ShortEscape(s[i]) != 0 then [s[i]] + SanitizedFrom(s, i + 1)
    else var (cp, last) := CodePoint(s, i); CodePointToUtf8(Reduced(cp)) + SanitizedFrom(s, last + 1)
  }

  function Sanitized(s: Str): Str { SanitizedFrom(s, 0) }

  lemma HexDigitReads(n: nat)
    requires n < 16
    ensures HexValue(HexDigit(n)) == n && HexDigit(n) != QUOTE && HexDigit(n) != BACKSLASH
  {
  }

  lemma HexDecodes(text: Str, p: nat, a: nat, b: nat, c: nat, d: nat)
    requires a < 16 && b < 16 && c < 16 && d < 16 && p + 4 <= |text|
    requires HexValue(text[p]) == a && HexValue(text[p + 1]) == b
    requires HexValue(text[p + 2]) == c && HexValue(text[p + 3]) == d
    ensures DecodeHex(text, p, 4, 0) == Unit(((a * 16 + b) * 16 + c) * 16 + d, p + 4)
  {
    hide HexValue;
    var v2 := a * 16 + b;
    var v3 := v2 * 16 + c;
    assert DecodeHex(text, p + 4, 0, v3 * 16 + d) == Unit(v3 * 16 + d, p + 4);
    assert DecodeHex(text, p + 3, 1, v3) == DecodeHex(text, p + 4, 0, v3 * 16 + d);
    assert DecodeHex(text, p + 2, 2, v2) == DecodeHex(text, p + 3, 1, v3);
    assert DecodeHex(text, p + 1, 3, a) == DecodeHex(text, p + 2, 2, v2);
  }

  lemma PlainScan(text: Str, p: nat, n: nat)
    requires p + n <= |text| && forall k :: p <= k < p + n ==> text[k] != QUOTE && text[k] != BACKSLASH
    ensures StringEnd(text, p) == StringEnd(text, p + n)
    decreases n
  {
    if n > 0 { PlainScan(text, p + 1, n - 1); }
  }

  lemma Nibbles(x: nat)
    requires x < 0x10000
    ensures x == ((x / 0x1000 % 16 * 16 + x / 0x100 % 16) * 16 + x / 0x10 % 16) * 16 + x % 16
  {
    assert x / 0x100 == x / 0x1000 * 16 + x / 0x100 % 16;
    assert x / 0x10 == x / 0x100 * 16 + x / 0x10 % 16;
  }

  /** A \u escape is scanned whole and gives back its 16 bits. */
  lemma Hex16Reads(x: nat, text: Str, p: nat)
    requires x < 0x10000 && At(text, p, Hex16(x))
    ensures StringEnd(text, p) == StringEnd(text, p + 6)
    ensures DecodeHex(text, p + 2, 4, 0) == Unit(x, p + 6)
    ensures text[p] == BACKSLASH && text[p + 1] == LETTER_U
  {
    var a, b, c, d := x / 0x1000 % 16, x / 0x100 % 16, x / 0x10 % 16, x % 16;
    Nibbles(x);
    HexDigitReads(a);
    HexDigitReads(b);
    HexDigitReads(c);
    HexDigitReads(d);
    FourAt(text, p, a, b, c, d);
    hide HexDigit, HexValue, Hex16, DecodeHex;
    HexDecodes(text, p + 2, a, b, c, d);
    PlainScan(text, p + 2, 4);
  }

  lemma FourAt(text: Str, p: nat, a: nat, b: nat, c: nat, d: nat)
    requires a < 16 && b < 16 && c < 16 && d < 16
    requires At(text, p, [BACKSLASH, LETTER_U, HexDigit(a), HexDigit(b), HexDigit(c), HexDigit(d)])
    ensures text[p] == BACKSLASH && text[p + 1] == LETTER_U
    ensures text[p + 2] == HexDigit(a) && text[p + 3] == HexDigit(b)
    ensures text[p + 4] == HexDigit(c) && text[p + 5] == HexDigit(d)
  {
    var t := text[p..p + 6];
    assert t[0] == text[p] && t[1] == text[p + 1] && t[2] == text[p + 2];
    assert t[3] == text[p + 3] && t[4] == text[p + 4] && t[5] == text[p + 5];
  }

  lemma PairJoins(v: nat)
    requires v < 0x1F0000
    ensures 0xd800 + v / 0x400 % 0x400 <= 0xDBFF && 0xdc00 + v % 0x400 <= 0xDFFF
    ensures (0xd800 + v / 0x400 % 0x400) % 0x400 * 0x400 + (0xdc00 + v % 0x400) % 0x400 == v % 0x100000
  {
    var h, l := v / 0x400 % 0x400, v % 0x400;
    assert (0xd800 + h) % 0x400 == h && (0xdc00 + l) % 0x400 == l;
    assert v == v / 0x400 * 0x400 + l && v / 0x400 == v / 0x400 / 0x400 * 0x400 + h;
    assert v / 0x400 / 0x400 * 0x100000 + (h * 0x400 + l) == v;
  }

  lemma HexUnitReads(cp: nat, text: Str, p: nat, end: nat)
    requires cp < 0x10000 && !(0xD800 <= cp <= 0xDBFF)
    requires At(text, p, Hex16(cp)) && p + 6 <= end <= |text|
    ensures StringEnd(text, p) == StringEnd(text, p + 6)
    ensures Decode(text, p, end) == Prepend(CodePointToUtf8(cp), Decode(text, p + 6, end))
  {
    Hex16Reads(cp, text, p);
    hide CodePointToUtf8, Hex16, DecodeHex;
  }

  lemma UnicodeEscapeReads(text: Str, p: nat, end: nat, cp: nat, next: nat)
    requires p + 2 <= end <= |text| && text[p] == BACKSLASH && text[p + 1] == LETTER_U
    requires DecodeCodePoint(text, p + 2, end) == Unit(cp, next)
    ensures Decode(text, p, end) == Prepend(CodePointToUtf8(cp), Decode(text, next, end))
  {
    hide CodePointToUtf8, DecodeCodePoint;
  }

  lemma SurrogatesJoin(hi: nat, lo: nat, text: Str, p: nat, end: nat)
    requires 0xD800 <= hi <= 0xDBFF && p + 12 <= end <= |text|
    requires text[p + 6] == BACKSLASH && text[p + 7] == LETTER_U
    requires DecodeHex(text, p + 2, 4, 0) == Unit(hi, p + 6) && DecodeHex(text, p + 8, 4, 0) == Unit(lo, p + 12)
    ensures DecodeCodePoint(text, p + 2, end) == Unit(0x10000 + hi % 0x400 * 0x400 + lo % 0x400, p + 12)
  {
    hide DecodeHex;
  }

  lemma SurrogatesRead(hi: nat, lo: nat, text: Str, p: nat, end: nat)
    requires 0xD800 <= hi <= 0xDBFF && lo < 0x10000 && p + 12 <= end <= |text|
    requires At(text, p, Hex16(hi)) && At(text, p + 6, Hex16(lo))
    ensures StringEnd(text, p) == StringEnd(text, p + 12)
    ensures Decode(text, p, end) ==
      Prepend(CodePointToUtf8(0x10000 + hi % 0x400 * 0x400 + lo % 0x400), Decode(text, p + 12, end))
  {
    hide CodePointToUtf8, Hex16, DecodeHex, StringEnd, Decode, DecodeCodePoint;
    Hex16Reads(hi, text, p);
    Hex16Reads(lo, text, p + 6);
    SurrogatesJoin(hi, lo, text, p, end);
    UnicodeEscapeReads(text, p, end, 0x10000 + hi % 0x400 * 0x400 + lo % 0x400, p + 12);
  }

  lemma PairReads(cp: nat, text: Str, p: nat, end: nat)
    requires 0x10000 <= cp < 0x200000 && At(text, p, EscapeUnit(cp)) && p + 12 <= end <= |text|
    ensures StringEnd(text, p) == StringEnd(text, p + 12)
    ensures Decode(text, p, end) == Prepend(CodePointToUtf8(Reduced(cp)), Decode(text, p + 12, end))
  {
    hide StringEnd, Decode, CodePointToUtf8;
    var v := cp - 0x10000;
    PairJoins(v);
    var hi, lo := 0xd800 + v / 0x400 % 0x400, 0xdc00 + v % 0x400;
    assert EscapeUnit(cp) == Hex16(hi) + Hex16(lo);
    AtSplit(text, p, Hex16(hi), Hex16(lo));
    assert Reduced(cp) == 0x10000 + hi % 0x400 * 0x400 + lo % 0x400;
    hide EscapeUnit, Reduced, Hex16;
    SurrogatesRead(hi, lo, text, p, end);
  }

  /** One code point written by the loop is scanned whole and decoded. */
  lemma UnitReads(cp: nat, text: Str, p: nat, end: nat)
    requires cp < 0x200000 && !(0xD800 <= cp <= 0xDFFF) && cp != QUOTE && cp != BACKSLASH
    requires At(text, p, EscapeUnit(cp)) && p + |EscapeUnit(cp)| <= end <= |text|
    ensures StringEnd(text, p) == StringEnd(text, p + |EscapeUnit(cp)|)
    ensures Decode(text, p, end) == Prepend(CodePointToUtf8(Reduced(cp)), Decode(text, p + |EscapeUnit(cp)|, end))
  {
    if 0x20 <= cp < 0x80 {
      assert EscapeUnit(cp) == [cp] && CodePointToUtf8(Reduced(cp)) == [cp];
      hide EscapeUnit, CodePointToUtf8, DecodeCodePoint;
      AtIndex(text, p, [cp], 0);
    } else if cp < 0x10000 {
      hide CodePointToUtf8, Decode, StringEnd;
      HexUnitReads(cp, text, p, end);
    } else {
      assert |EscapeUnit(cp)| == 12;
      hide EscapeUnit, CodePointToUtf8, Decode, StringEnd;
      PairReads(cp, text, p, end);
    }
  }

  lemma EmittedCodePoint(s: Str, i: nat)
    requires i < |s| && ShortEscape(s[i]) == 0
    ensures var cp := CodePoint(s, i).0;
      cp < 0x200000 && !(0xD800 <= cp <= 0xDFFF) && cp != QUOTE && cp != BACKSLASH
  {
  }

  /** The piece of text for the byte or code point at `i`, what it decodes to, and where the loop goes on. */
  function PieceAt(s: Str, i: nat): (r: (Str, Str, nat))
    requires i < |s|
    ensures i < r.2 <= |s|
  {
    if ShortEscape(s[i]) != 0 then ([BACKSLASH, ShortEscape(s[i])], [s[i]], i + 1)
    else var (cp, last) := CodePoint(s, i); (EscapeUnit(cp), CodePointToUtf8(Reduced(cp)), last + 1)
  }

  lemma PieceIsFirst(s: Str, i: nat)
    requires i < |s|
    ensures var (u, piece, next) := PieceAt(s, i);
      EscapeFrom(s, i) == u + EscapeFrom(s, next) && SanitizedFrom(s, i) == piece + SanitizedFrom(s, next)
  {
    hide CodePoint, EscapeUnit, CodePointToUtf8, Reduced, ShortEscape;
  }

  lemma PieceReads(s: Str, i: nat, text: Str, p: nat, end: nat)
    requires i < |s| && At(text, p, PieceAt(s, i).0) && p + |PieceAt(s, i).0| <= end <= |text|
    ensures var (u, piece, _) := PieceAt(s, i);
      StringEnd(text, p) == StringEnd(text, p + |u|) &&
      Decode(text, p, end) == Prepend(piece, Decode(text, p + |u|, end))
  {
    hide Decode, StringEnd, EscapeUnit, CodePointToUtf8, Reduced;
    if ShortEscape(s[i]) != 0 {
      ShortReads(s[i], text, p, end);
    } else {
      EmittedCodePoint(s, i);
      hide CodePoint;
      UnitReads(CodePoint(s, i).0, text, p, end);
    }
  }

  lemma ClosingQuoteReads(s: Str, text: Str, p: nat)
    requires At(text, p, EscapeFrom(s, |s|) + [QUOTE])
    ensures EscapeFrom(s, |s|) == SanitizedFrom(s, |s|) == []
    ensures StringEnd(text, p) == (true, p + 1) && Decode(text, p, p) == Text([])
  {
    assert EscapeFrom(s, |s|) + [QUOTE] == [QUOTE];
    AtIndex(text, p, [QUOTE], 0);
  }

  /** The scanner stops at the closing quote, and the decoder yields the sanitized text. */
  lemma {:induction false} EscapedReads(s: Str, i: nat, text: Str, p: nat)
    requires i <= |s| && At(text, p, EscapeFrom(s, i) + [QUOTE])
    ensures var end := p + |EscapeFrom(s, i)|;
      StringEnd(text, p) == (true, end + 1) && Decode(text, p, end) == Text(SanitizedFrom(s, i))
    decreases |s| - i
  {
    hide PieceAt, EscapeFrom, SanitizedFrom, Decode, StringEnd;
    if i == |s| {
      ClosingQuoteReads(s, text, p);
    } else {
      PieceIsFirst(s, i);
      var (u, piece, next) := PieceAt(s, i);
      var rest := EscapeFrom(s, next);
      assert u + rest + [QUOTE] == u + (rest + [QUOTE]);
      AtSplit(text, p, u, rest + [QUOTE]);
      PieceReads(s, i, text, p, p + |EscapeFrom(s, i)|);
      EscapedReads(s, next, text, p + |u|);
    }
  }

  lemma ShortReads(c: Byte, text: Str, p: nat, end: nat)
    requires ShortEscape(c) != 0 && At(text, p, [BACKSLASH, ShortEscape(c)]) && p + 2 <= end <= |text|
    ensures StringEnd(text, p) == StringEnd(text, p + 2)
    ensures Decode(text, p, end) == Prepend([c], Decode(text, p + 2, end))
  {
    var u := [BACKSLASH, ShortEscape(c)];
    AtIndex(text, p, u, 0);
    AtIndex(text, p, u, 1);
    assert UnescapeShort(ShortEscape(c)) == c;
  }

  /** For arbitrary bytes: the text is 7-bit, scanned exactly to its closing quote, and always accepted. */
  lemma QuotedReads(s: Str, text: Str, p: nat)
    requires At(text, p, Quoted(s))
    ensures StringEnd(text, p + 1) == (true, p + |Quoted(s)|)
    ensures Decode(text, p + 1, p + |Quoted(s)| - 1) == Text(Sanitized(s))
    ensures forall c :: c in Quoted(s) ==> c < 0x80
  {
    hide EscapeFrom, Decode, StringEnd, SanitizedFrom;
    assert Quoted(s) == [QUOTE] + (EscapeFrom(s, 0) + [QUOTE]);
    AtSplit(text, p, [QUOTE], EscapeFrom(s, 0) + [QUOTE]);
    EscapedReads(s, 0, text, p + 1);
    EscapedIs7Bit(s, 0);
  }

  lemma {:induction false} EscapedIs7Bit(s: Str, i: nat)
    requires i <= |s|
    ensures forall c :: c in EscapeFrom(s, i) ==> c < 0x80
    decreases |s| - i
  {
    hide *;
    if i == |s| {
      NothingEscaped(s);
    } else {
      var (_, _, next) := PieceAt(s, i);
      PieceIs7Bit(s, i);
      PieceIsFirst(s, i);
      EscapedIs7Bit(s, next);
    }
  }

  lemma PieceIs7Bit(s: Str, i: nat)
    requires i < |s|
    ensures forall c :: c in PieceAt(s, i).0 ==> c < 0x80
  {
    hide CodePoint;
  }

  // ----- well-formed UTF-8 -----

  predicate Tail(c: Byte) { 0x80 <= c <= 0xBF }

  /** Length of the UTF-8 character `s` starts with by the grammar of section 4 of RFC 3629; 0 if there is none. */
  function CharLength(s: Str): (n: nat)
    ensures n <= |s|
  {
    if s == [] then 0
    else if s[0] <= 0x7F then 1
    else if |s| >= 2 && 0xC2 <= s[0] <= 0xDF && Tail(s[1]) then 2
    else if |s| >= 3 && Tail(s[2]) &&
            ((s[0] == 0xE0 && 0xA0 <= s[1] <= 0xBF) || (0xE1 <= s[0] <= 0xEC && Tail(s[1])) ||
             (s[0] == 0xED && 0x80 <= s[1] <= 0x9F) || (0xEE <= s[0] <= 0xEF && Tail(s[1]))) then 3
    else if |s| >= 4 && Tail(s[2]) && Tail(s[3]) &&
            ((s[0] == 0xF0 && 0x90 <= s[1] <= 0xBF) || (0xF1 <= s[0] <= 0xF3 && Tail(s[1])) ||
             (s[0] == 0xF4 && 0x80 <= s[1] <= 0x8F)) then 4
    else 0
  }

  predicate ValidUtf8(s: Str) {
    s == [] || (CharLength(s) > 0 && ValidUtf8(s[CharLength(s)..]))
  }

  lemma TwoByteCharacter(s: Str, i: nat)
    requires i + 2 <= |s| && 0xC2 <= s[i] <= 0xDF && Tail(s[i + 1])
    ensures var (cp, last) := CodePoint(s, i);
      last == i + 1 && cp <= 0x7FF && CodePointToUtf8(cp) == s[i..i + 2]
  {
    var a: nat, b: nat := s[i] - 0xC0, s[i + 1] - 0x80;
    assert s[i] % 0x20 == a && s[i + 1] % 0x40 == b;
    var cp := a * 0x40 + b;
    assert CodePoint(s, i) == (cp, i + 1);
    hide CodePoint;
    assert cp / 0x40 == a && cp % 0x40 == b;
    assert CodePointToUtf8(cp) == [s[i], s[i + 1]];
  }

  lemma ThreeByteDecoding(s: Str, i: nat)
    requires i + 3 <= |s| && 0xE0 <= s[i] <= 0xEF && Tail(s[i + 1]) && Tail(s[i + 2])
    requires (s[i] == 0xE0 ==> 0xA0 <= s[i + 1]) && (s[i] == 0xED ==> s[i + 1] <= 0x9F)
    ensures CodePoint(s, i) ==
      ((s[i] as int - 0xE0) * 0x1000 + (s[i + 1] as int - 0x80) * 0x40 + (s[i + 2] - 0x80), i + 2)
  {
    assert s[i] % 0x10 == s[i] - 0xE0;
    assert s[i + 1] % 0x40 == s[i + 1] - 0x80 && s[i + 2] % 0x40 == s[i + 2] - 0x80;
  }

  lemma ThreeByteEncoding(a: nat, b: nat, c: nat)
    requires a < 0x10 && b < 0x40 && c < 0x40 && (a == 0 ==> b >= 0x20)
    ensures CodePointToUtf8(a * 0x1000 + b * 0x40 + c) == [0xE0 + a, 0x80 + b, 0x80 + c]
  {
    var cp := a * 0x1000 + b * 0x40 + c;
    assert cp / 0x40 == a * 0x40 + b && cp % 0x40 == c;
    assert cp / 0x1000 == a;
  }

  lemma ThreeByteCharacter(s: Str, i: nat)
    requires i + 3 <= |s| && 0xE0 <= s[i] <= 0xEF && Tail(s[i + 1]) && Tail(s[i + 2])
    requires (s[i] == 0xE0 ==> 0xA0 <= s[i + 1]) && (s[i] == 0xED ==> s[i + 1] <= 0x9F)
    ensures var (cp, last) := CodePoint(s, i);
      last == i + 2 && cp <= 0xFFFF && CodePointToUtf8(cp) == s[i..i + 3]
  {
    ThreeByteDecoding(s, i);
    hide CodePoint;
    ThreeByteEncoding(s[i] - 0xE0, s[i + 1] - 0x80, s[i + 2] - 0x80);
    hide CodePointToUtf8;
    assert s[i..i + 3] == [s[i], s[i + 1], s[i + 2]];
  }

  lemma FourByteEncoding(a: nat, b: nat, c: nat, d: nat)
    requires a < 5 && b < 0x40 && c < 0x40 && d < 0x40 && (a == 0 ==> b >= 0x10) && (a == 4 ==> b < 0x10)
    ensures CodePointToUtf8(a * 0x40000 + b * 0x1000 + c * 0x40 + d) == [0xF0 + a, 0x80 + b, 0x80 + c, 0x80 + d]
  {
    var cp := a * 0x40000 + b * 0x1000 + c * 0x40 + d;
    Sextets(cp, (a * 0x40 + b) * 0x40 + c, d);
    Sextets((a * 0x40 + b) * 0x40 + c, a * 0x40 + b, c);
    Sextets(a * 0x40 + b, a, b);
    FourByteForm(cp);
    hide CodePointToUtf8;
  }

  /** Dropping the lowest six bits. */
  lemma Sextets(cp: nat, high: nat, low: nat)
    requires cp == high * 0x40 + low && low < 0x40
    ensures cp / 0x40 == high && cp % 0x40 == low
  {
  }

  lemma FourByteForm(cp: nat)
    requires 0x10000 <= cp <= 0x10FFFF
    ensures var e, f, g := cp / 0x40, cp / 0x40 / 0x40, cp / 0x40 / 0x40 / 0x40;
      CodePointToUtf8(cp) == [0xF0 + g, 0x80 + f % 0x40, 0x80 + e % 0x40, 0x80 + cp % 0x40]
  {
    assert cp / 0x1000 == cp / 0x40 / 0x40;
    assert cp / 0x40000 == cp / 0x40 / 0x40 / 0x40;
  }

  lemma FourByteDecoding(s: Str, i: nat)
    requires i + 4 <= |s| && 0xF0 <= s[i] <= 0xF4 && Tail(s[i + 1]) && Tail(s[i + 2]) && Tail(s[i + 3])
    requires s[i] == 0xF0 ==> 0x90 <= s[i + 1]
    ensures CodePoint(s, i) ==
      ((s[i] as int - 0xF0) * 0x40000 + (s[i + 1] as int - 0x80) * 0x1000 +
       (s[i + 2] as int - 0x80) * 0x40 + (s[i + 3] - 0x80), i + 3)
  {
    assert s[i] % 8 == s[i] - 0xF0 && s[i + 1] % 0x40 == s[i + 1] - 0x80;
    assert s[i + 2] % 0x40 == s[i + 2] - 0x80 && s[i + 3] % 0x40 == s[i + 3] - 0x80;
  }

  lemma FourByteCharacter(s: Str, i: nat)
    requires i + 4 <= |s| && 0xF0 <= s[i] <= 0xF4 && Tail(s[i + 1]) && Tail(s[i + 2]) && Tail(s[i + 3])
    requires (s[i] == 0xF0 ==> 0x90 <= s[i + 1]) && (s[i] == 0xF4 ==> s[i + 1] <= 0x8F)
    ensures var (cp, last) := CodePoint(s, i);
      last == i + 3 && cp <= 0x10FFFF && CodePointToUtf8(cp) == s[i..i + 4]
  {
    FourByteDecoding(s, i);
    hide CodePoint;
    FourByteEncoding(s[i] - 0xF0, s[i + 1] - 0x80, s[i + 2] - 0x80, s[i + 3] - 0x80);
    hide CodePointToUtf8;
    var t := s[i..i + 4];
    assert t[0] == s[i] && t[1] == s[i + 1] && t[2] == s[i + 2] && t[3] == s[i + 3];
    assert t == [s[i], s[i + 1], s[i + 2], s[i + 3]];
  }

  /** On a well-formed character the writer's decoder and the reader's encoder are inverse. */
  lemma CharacterRoundTrip(s: Str, i: nat)
    requires i < |s| && CharLength(s[i..]) > 0
    ensures var (cp, last) := CodePoint(s, i);
      last + 1 == i + CharLength(s[i..]) && cp <= 0x10FFFF && CodePointToUtf8(cp) == s[i..last + 1]
  {
    var n := CharLength(s[i..]);
    if n == 2 {
      TwoByteCharacter(s, i);
    } else if n == 3 {
      ThreeByteCharacter(s, i);
    } else if n == 4 {
      FourByteCharacter(s, i);
    }
  }

  lemma ReducedScalar(cp: nat)
    requires cp <= 0x10FFFF
    ensures Reduced(cp) == cp
  {
  }

  lemma PieceOfCharacter(s: Str, i: nat)
    requires i < |s| && CharLength(s[i..]) > 0
    ensures var (_, piece, next) := PieceAt(s, i);
      next == i + CharLength(s[i..]) && piece == s[i..next]
  {
    CharacterRoundTrip(s, i);
    if ShortEscape(s[i]) != 0 {
      hide CodePointToUtf8, CodePoint, Reduced;
      assert CharLength(s[i..]) == 1;
    } else {
      ReducedScalar(CodePoint(s, i).0);
      hide CharLength, CodePoint, CodePointToUtf8, ShortEscape, Reduced;
    }
  }

  lemma ValidRest(s: Str)
    requires s != [] && ValidUtf8(s)
    ensures CharLength(s) > 0 && ValidUtf8(s[CharLength(s)..])
  {
    hide CharLength;
  }

  lemma {:induction false} ValidTextIsKept(s: Str, i: nat)
    requires i <= |s| && ValidUtf8(s[i..])
    ensures SanitizedFrom(s, i) == s[i..]
    decreases |s| - i
  {
    hide *;
    if i == |s| {
      NothingSanitized(s);
    } else {
      var n := CharLength(s[i..]);
      ValidRest(s[i..]);
      PieceOfCharacter(s, i);
      PieceIsFirst(s, i);
      RestSplits(s, i, n);
      ValidTextIsKept(s, i + n);
    }
  }

  lemma NothingSanitized(s: Str)
    ensures SanitizedFrom(s, |s|) == [] == s[|s|..]
  {
  }

  lemma RestSplits(s: Str, i: nat, n: nat)
    requires i + n <= |s|
    ensures s[i..][n..] == s[i + n..] && s[i..] == s[i..i + n] + s[i + n..]
  {
  }

  /** Every scalar value is encoded as one well-formed character. */
  lemma EncodedIsCharacter(cp: nat, rest: Str)
    requires cp <= 0x10FFFF && !(0xD800 <= cp <= 0xDFFF)
    ensures CharLength(CodePointToUtf8(cp) + rest) == |CodePointToUtf8(cp)|
  {
    var u := CodePointToUtf8(cp);
    var t := u + rest;
    if cp <= 0x7f {
      assert t[0] == cp;
    } else if cp <= 0x7FF {
      assert u == [0xC0 + cp / 0x40, 0x80 + cp % 0x40];
      assert t[0] == u[0] && t[1] == u[1];
    } else if cp <= 0xFFFF {
      ThreeBytes(cp);
      hide CodePointToUtf8;
      assert t[0] == u[0] && t[1] == u[1] && t[2] == u[2];
    } else {
      FourBytes(cp);
      hide CodePointToUtf8;
      assert t[0] == u[0] && t[1] == u[1] && t[2] == u[2] && t[3] == u[3];
    }
  }

  lemma ThreeBytes(cp: nat)
    requires 0x800 <= cp <= 0xFFFF && !(0xD800 <= cp <= 0xDFFF)
    ensures var u := CodePointToUtf8(cp);
      |u| == 3 && 0xE0 <= u[0] <= 0xEF && Tail(u[1]) && Tail(u[2]) &&
      (u[0] == 0xE0 ==> u[1] >= 0xA0) && (u[0] == 0xED ==> u[1] <= 0x9F)
  {
    hide CodePointToUtf8;
    ThreeByteForm(cp);
    var e := cp / 0x40;
    assert cp == e * 0x40 + cp % 0x40 && e == e / 0x40 * 0x40 + e % 0x40;
  }

  lemma ThreeByteForm(cp: nat)
    requires 0x800 <= cp <= 0xFFFF
    ensures var e, f := cp / 0x40, cp / 0x40 / 0x40;
      CodePointToUtf8(cp) == [0xE0 + f, 0x80 + e % 0x40, 0x80 + cp % 0x40]
  {
    assert cp / 0x1000 == cp / 0x40 / 0x40;
  }

  lemma FourBytes(cp: nat)
    requires 0x10000 <= cp <= 0x10FFFF
    ensures var u := CodePointToUtf8(cp);
      |u| == 4 && 0xF0 <= u[0] <= 0xF4 && Tail(u[1]) && Tail(u[2]) && Tail(u[3]) &&
      (u[0] == 0xF0 ==> u[1] >= 0x90) && (u[0] == 0xF4 ==> u[1] <= 0x8F)
  {
    hide CodePointToUtf8;
    FourByteForm(cp);
    var e, f := cp / 0x40, cp / 0x40 / 0x40;
    assert cp == e * 0x40 + cp % 0x40 && e == f * 0x40 + e % 0x40 && f == f / 0x40 * 0x40 + f % 0x40;
  }

  lemma {:induction false} SanitizedIsValid(s: Str, i: nat)
    requires i <= |s|
    ensures ValidUtf8(SanitizedFrom(s, i))
    decreases |s| - i
  {
    if i == |s| {
      NothingSanitized(s);
    } else {
      hide *;
      var (_, piece, next) := PieceAt(s, i);
      PieceIsFirst(s, i);
      SanitizedIsValid(s, next);
      PieceIsCharacter(s, i, SanitizedFrom(s, next));
      ValidMore(piece, SanitizedFrom(s, next));
    }
  }

  lemma PieceIsCharacter(s: Str, i: nat, rest: Str)
    requires i < |s|
    ensures var (_, piece, _) := PieceAt(s, i); piece != [] && CharLength(piece + rest) == |piece|
  {
    if ShortEscape(s[i]) == 0 {
      EmittedCodePoint(s, i);
      hide CodePoint, CodePointToUtf8, CharLength, ShortEscape;
      var cp := Reduced(CodePoint(s, i).0);
      EncodedIsCharacter(cp, rest);
      EncodedIsCharacter(cp, []);
      SomethingEncoded(cp);
    }
  }

  lemma SomethingEncoded(cp: nat)
    requires cp <= 0x10FFFF
    ensures CodePointToUtf8(cp) != []
  {
  }

  lemma ValidMore(u: Str, rest: Str)
    requires u != [] && CharLength(u + rest) == |u| && ValidUtf8(rest)
    ensures ValidUtf8(u + rest)
  {
    hide CharLength;
    assert (u + rest)[|u|..] == rest;
  }

  /** The string comes back exactly when it was well-formed UTF-8. */
  lemma StringRoundTrip(s: Str)
    ensures StringEnd(Quoted(s), 1) == (true, |Quoted(s)|)
    ensures ValidUtf8(Sanitized(s))
    ensures Decode(Quoted(s), 1, |Quoted(s)| - 1) == Text(s) <==> ValidUtf8(s)
  {
    hide EscapeFrom, SanitizedFrom, CharLength, Decode, StringEnd;
    assert At(Quoted(s), 0, Quoted(s)) by { assert Quoted(s)[0..|Quoted(s)|] == Quoted(s); }
    QuotedReads(s, Quoted(s), 0);
    SanitizedIsValid(s, 0);
    if ValidUtf8(s) {
      assert s[0..] == s;
      ValidTextIsKept(s, 0);
    }
  }
}
