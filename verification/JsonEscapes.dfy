/** Laws of the string decoder and the string printer, for arbitrary bytes and from literal tables. */
module JsonEscapes {
  import opened Bytes
  import opened Digits
  import opened JsonString

  // ----- letter case of the digits -----

  /** From `p` on, the texts differ at most in the letter case of the four bytes behind some `\u`. */
  ghost predicate SameButCase(a: Str, b: Str, p: nat, end: nat)
    requires p <= end <= |a| && |a| == |b|
    decreases end - p
  {
    if p == end then true
    else if a[p] == 0x5c && p + 6 <= end && a[p + 1] == 0x75 then
      a[p..p + 2] == b[p..p + 2] && (forall k :: p + 2 <= k < p + 6 ==> SameDigit(a[k], b[k])) &&
      SameButCase(a, b, p + 6, end)
    else if a[p] == 0x5c && p + 2 <= end then
      a[p..p + 2] == b[p..p + 2] && SameButCase(a, b, p + 2, end)
    else a[p] == b[p] && SameButCase(a, b, p + 1, end)
  }

  lemma SameValue(a: Byte, b: Byte)
    requires SameDigit(a, b)
    ensures HexValue(a) == HexValue(b)
  {
  }

  lemma {:induction false} SameHex(a: Str, b: Str, p: nat, digits: nat, acc: nat)
    requires p + digits <= |a| == |b| && forall k :: p <= k < p + digits ==> SameDigit(a[k], b[k])
    ensures DecodeHex(a, p, digits, acc) == DecodeHex(b, p, digits, acc)
    decreases digits
  {
    if digits > 0 {
      hide SameDigit, HexValue;
      SameValue(a[p], b[p]);
      SameHex(a, b, p + 1, digits - 1, acc * 16 + HexValue(a[p]));
    }
  }

  lemma SameStart(a: Str, b: Str, p: nat, n: nat)
    requires p + n <= |a| == |b| && a[p..p + n] == b[p..p + n]
    ensures forall k :: p <= k < p + n ==> a[k] == b[k]
  {
    forall k | p <= k < p + n ensures a[k] == b[k] {
      assert a[p..p + n][k - p] == b[p..p + n][k - p];
    }
  }

  /** Either the escape is cut off, or its digits agree but for their case. */
  lemma SameEscape(a: Str, b: Str, p: nat, end: nat)
    requires p + 2 <= end <= |a| == |b| && a[p] == 0x5c && a[p + 1] == 0x75 && SameButCase(a, b, p, end)
    ensures b[p] == 0x5c && b[p + 1] == 0x75
    ensures DecodeEscapeSequence(a, p + 2, end) == DecodeEscapeSequence(b, p + 2, end)
    ensures p + 6 <= end ==> SameButCase(a, b, p + 6, end)
  {
    hide SameDigit, DecodeHex;
    SameStart(a, b, p, 2);
    if p + 6 <= end {
      SameHex(a, b, p + 2, 4, 0);
    }
  }

  /** The code point, and the texts behind it. */
  lemma SameCodePoint(a: Str, b: Str, p: nat, end: nat)
    requires p + 2 <= end <= |a| == |b| && a[p] == 0x5c && a[p + 1] == 0x75 && SameButCase(a, b, p, end)
    ensures var u := DecodeCodePoint(a, p + 2, end);
      u == DecodeCodePoint(b, p + 2, end) && (u.Unit? ==> SameButCase(a, b, u.next, end))
  {
    hide DecodeEscapeSequence, SameButCase;
    SameEscape(a, b, p, end);
    var u := DecodeEscapeSequence(a, p + 2, end);
    if u.Unit? && end - u.next >= 6 {
      SameTwo(a, b, p + 6, end);
      if a[p + 6] == 0x5c && a[p + 7] == 0x75 {
        SameEscape(a, b, p + 6, end);
      }
    }
  }

  /** The two bytes that are tested in front of the second half. */
  lemma SameTwo(a: Str, b: Str, p: nat, end: nat)
    requires p + 6 <= end <= |a| == |b| && SameButCase(a, b, p, end)
    ensures a[p] == b[p] && (a[p] == 0x5c ==> a[p + 1] == b[p + 1])
  {
    hide SameDigit;
    if a[p] == 0x5c { SameStart(a, b, p, 2); }
  }

  /** The letter case of the digits of an escape never matters, be the text acceptable or not. */
  lemma {:induction false} CaseDoesNotMatter(a: Str, b: Str, p: nat, end: nat)
    requires p <= end <= |a| && |a| == |b| && SameButCase(a, b, p, end)
    ensures Decode(a, p, end) == Decode(b, p, end)
    decreases end - p
  {
    hide UnescapeShort, CodePointToUtf8, DecodeCodePoint, SameDigit;
    if p < end && a[p] == 0x5c && p + 2 <= end {
      if a[p + 1] == 0x75 {
        SameCodePoint(a, b, p, end);
        SameEscape(a, b, p, end);
        var u := DecodeCodePoint(a, p + 2, end);
        if u.Unit? { CaseDoesNotMatter(a, b, u.next, end); }
        NoShortU();
      } else {
        SameStart(a, b, p, 2);
        CaseDoesNotMatter(a, b, p + 2, end);
      }
    } else if p < end {
      CaseDoesNotMatter(a, b, p + 1, end);
    }
  }

  lemma NoShortU()
    ensures UnescapeShort(0x75) == 0
  {
  }

  // ----- UTF-8 -----

  /** Section 3 of RFC 3629: the length follows from the value, and the value from the bits of the bytes. */
  predicate Encodes(u: Str, cp: nat) {
    if cp <= 0x7F then u == [cp]
    else
      (forall k :: 1 <= k < |u| ==> 0x80 <= u[k] <= 0xBF) &&
      if cp <= 0x7FF then |u| == 2 && u[0] >= 0xC0 && cp == (u[0] as int - 0xC0) * 0x40 + (u[1] - 0x80)
      else if cp <= 0xFFFF then
        |u| == 3 && u[0] >= 0xE0 && cp == ((u[0] as int - 0xE0) * 0x40 + (u[1] - 0x80)) * 0x40 + (u[2] - 0x80)
      else
        |u| == 4 && u[0] >= 0xF0 &&
        cp == (((u[0] as int - 0xF0) * 0x40 + (u[1] - 0x80)) * 0x40 + (u[2] - 0x80)) * 0x40 + (u[3] - 0x80)
  }

  lemma Utf8IsPositional(cp: nat)
    requires cp <= 0x10FFFF
    ensures Encodes(CodePointToUtf8(cp), cp)
  {
    if cp <= 0x7FF {
    } else if cp <= 0xFFFF {
      ThreeByteForm(cp);
      hide CodePointToUtf8;
      var e := cp / 0x40;
      assert e == e / 0x40 * 0x40 + e % 0x40 && cp == e * 0x40 + cp % 0x40;
    } else {
      FourByteForm(cp);
      hide CodePointToUtf8;
      var e, f := cp / 0x40, cp / 0x40 / 0x40;
      assert f == f / 0x40 * 0x40 + f % 0x40 && e == f * 0x40 + e % 0x40 && cp == e * 0x40 + cp % 0x40;
    }
  }

  // ----- malformed text -----

  const REPLACED: Str := [0x5c, 0x75, 0x66, 0x66, 0x66, 0x64]

  /** The length the first byte announces; 1 for bytes that cannot start a character. */
  function Announced(c: Byte): nat {
    if 0x80 <= c < 0xE0 then 2 else if 0xE0 <= c < 0xF0 then 3 else if 0xF0 <= c < 0xF8 then 4 else 1
  }

  /** A character that is cut off, and a byte from 0xF8 on, are printed as the replacement character. */
  lemma TruncatedIsReplaced(s: Str, i: nat)
    requires i < |s| && s[i] >= 0x80 && (i + Announced(s[i]) > |s| || s[i] >= 0xF8)
    ensures EscapeFrom(s, i) == REPLACED + EscapeFrom(s, i + 1)
  {
    ReplacementText();
    assert ShortEscape(s[i]) == 0 && CodePoint(s, i) == (0xFFFD, i);
    hide CodePoint, EscapeUnit, ShortEscape;
  }

  lemma ReplacementText()
    ensures EscapeUnit(0xFFFD) == REPLACED
  {
  }

  /** Encodings that are longer than need be, and surrogates, are printed as the replacement character. */
  predicate NotShortest(s: Str, i: nat)
    requires i < |s| && i + Announced(s[i]) <= |s|
  {
    && (forall k :: i < k < i + Announced(s[i]) ==> 0x80 <= s[k] <= 0xBF)
    && (s[i] == 0xC0 || s[i] == 0xC1 || (s[i] == 0xE0 && s[i + 1] < 0xA0) || (s[i] == 0xED && s[i + 1] >= 0xA0) ||
        (s[i] == 0xF0 && s[i + 1] < 0x90))
  }

  lemma NotShortestIsReplaced(s: Str, i: nat)
    requires i < |s| && i + Announced(s[i]) <= |s| && NotShortest(s, i)
    ensures EscapeFrom(s, i) == REPLACED + EscapeFrom(s, i + Announced(s[i]))
  {
    ReplacementText();
    NotShortestDecodes(s, i);
    hide CodePoint, EscapeUnit, NotShortest;
  }

  lemma NotShortestDecodes(s: Str, i: nat)
    requires i < |s| && i + Announced(s[i]) <= |s| && NotShortest(s, i)
    ensures ShortEscape(s[i]) == 0 && CodePoint(s, i) == (0xFFFD, i + Announced(s[i]) - 1)
  {
    assert s[i + 1] % 0x40 == s[i + 1] - 0x80;
    if s[i] >= 0xE0 {
      assert s[i + 2] % 0x40 == s[i + 2] - 0x80;
      if s[i] == 0xF0 {
        assert s[i + 3] % 0x40 == s[i + 3] - 0x80;
      }
    }
  }

  // ----- the printed text, byte by byte -----

  /** From the blank up to 0x7F every byte stands for itself, but for the quotation mark and the backslash. */
  lemma PlainIsKept(s: Str)
    requires forall c :: c in s ==> 0x20 <= c <= 0x7F && c != 0x22 && c != 0x5c
    ensures Quoted(s) == [0x22] + s + [0x22]
  {
    assert forall k :: 0 <= k < |s| ==> s[k] in s;
    PlainTextIsKept(s, 0);
    assert s[0..] == s;
  }

  /** The bytes that have a letter of their own, and the letters. */
  const NAMED: Str := [0x22, 0x5c, 0x08, 0x0c, 0x0a, 0x0d, 0x09]
  const NAMES: Str := [0x22, 0x5c, 0x62, 0x66, 0x6e, 0x72, 0x74]

  lemma NamedIsEscaped(k: nat)
    requires k < 7
    ensures Quoted([NAMED[k]]) == [0x22, 0x5c, NAMES[k], 0x22]
  {
    var c, s := NAMED[k], [NAMED[k]];
    assert ShortEscape(c) == NAMES[k] != 0;
    hide NAMED, NAMES, ShortEscape;
    OneEscape(s);
  }

  lemma OneEscape(s: Str)
    requires |s| == 1
    ensures var e := ShortEscape(s[0]);
      Quoted(s) == if e != 0 then [0x22, 0x5c, e, 0x22] else [0x22] + EscapeUnit(CodePoint(s, 0).0) + [0x22]
  {
    hide ShortEscape, EscapeUnit, CodePoint;
    var e := ShortEscape(s[0]);
    NothingEscaped(s);
    var u := if e != 0 then [BACKSLASH, e] else EscapeUnit(CodePoint(s, 0).0);
    var next := if e != 0 then 1 else CodePoint(s, 0).1 + 1;
    assert next == 1;
    assert EscapeFrom(s, 0) == u + EscapeFrom(s, 1) == u + [] == u;
  }

  /** Every other control character is \u00 and two lower-case digits. */
  lemma ControlIsEscaped(high: Hex, low: Hex)
    requires high < 2 && 0x10 * high + low !in NAMED
    ensures Quoted([0x10 * high + low]) == [0x22, 0x5c, 0x75, 0x30, 0x30, LOWER[high], LOWER[low], 0x22]
  {
    var c: Byte := 0x10 * high + low;
    NotNamed(c);
    assert CodePoint([c], 0) == (c, 0);
    ControlDigits(high, low);
    hide ShortEscape, CodePoint, EscapeUnit, NAMED, LOWER;
    OneEscape([c]);
  }

  lemma NotNamed(c: Byte)
    requires c < 0x20 && c !in NAMED
    ensures ShortEscape(c) == 0
  {
    assert NAMED[0] == 0x22 && NAMED[1] == 0x5c && NAMED[2] == 0x08 && NAMED[3] == 0x0c;
    assert NAMED[4] == 0x0a && NAMED[5] == 0x0d && NAMED[6] == 0x09;
  }

  lemma ControlDigits(high: Hex, low: Hex)
    requires high < 2
    ensures EscapeUnit(0x10 * high + low) == [0x5c, 0x75, 0x30, 0x30, LOWER[high], LOWER[low]]
  {
    HexDigitIsLower(high);
    HexDigitIsLower(low);
    HexDigitIsLower(0);
    hide HexDigit, LOWER;
    ZeroDigit();
  }

  lemma ZeroDigit()
    ensures HexDigit(0) == 0x30
  {
  }
}
