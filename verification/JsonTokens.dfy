/** The tokens of a document: what the tokeniser makes of gaps, numerals, strings, keywords and punctuation. */
module JsonTokens {
  import opened Bytes
  import opened Digits
  import opened Wrappers
  import opened JsonValue
  import opened JsonNumber
  import opened JsonString
  import opened JsonSyntax
  import opened JsonGrammar

  lemma TokenAt(text: Str, p: nat)
    requires p < |text| && !IsSpace(text[p])
    ensures SkipSpaces(text, p) == p
    ensures ReadToken(text, p) == Token(TokenFrom(text, text[p], p + 1).0, p, TokenFrom(text, text[p], p + 1).1)
    ensures ReadToken(text, p).kind != Comment ==> NextToken(text, p) == ReadToken(text, p)
  {
    hide TokenFrom;
  }

  // ----- gaps -----

  lemma {:induction false} BlanksSkipped(text: Str, p: nat, s: Str)
    requires At(text, p, s) && AllBlank(s)
    ensures SkipSpaces(text, p) == SkipSpaces(text, p + |s|)
    decreases |s|
  {
    hide At;
    if s != [] {
      assert s == [s[0]] + s[1..] && s[0] in s;
      AtSplit(text, p, [s[0]], s[1..]);
      AtIndex(text, p, s, 0);
      assert forall c :: c in s[1..] ==> c in s;
      BlanksSkipped(text, p + 1, s[1..]);
    }
  }

  /** Where the spaces end decides about the token. */
  lemma SameSpaces(text: Str, p: nat, q: nat)
    requires p <= |text| && q <= |text| && SkipSpaces(text, p) == SkipSpaces(text, q)
    ensures ReadToken(text, p) == ReadToken(text, q) && NextToken(text, p) == NextToken(text, q)
  {
    hide TokenFrom, SkipSpaces;
    assert ReadToken(text, p) == ReadToken(text, q);
  }

  lemma {:induction false} BlockEnds(text: Str, p: nat, body: Str)
    requires FillerOk(BlockComment(body)) && At(text, p, body + [0x2a, 0x2f])
    ensures StarSlash(text, p) == p + |body| + 1 < |text| && text[p + |body| + 1] == 0x2f
    decreases |body|
  {
    hide At;
    var t := body + [0x2a, 0x2f];
    AtIndex(text, p, t, 0);
    AtIndex(text, p, t, 1);
    if body != [] {
      assert t == [body[0]] + (body[1..] + [0x2a, 0x2f]);
      AtSplit(text, p, [body[0]], body[1..] + [0x2a, 0x2f]);
      BlockEnds(text, p + 1, body[1..]);
    }
  }

  lemma {:induction false} LineEnds(text: Str, p: nat, body: Str, end: Str)
    requires FillerOk(LineComment(body, end)) && At(text, p, body + end)
    ensures SkipSpaces(text, LineEnd(text, p)) == SkipSpaces(text, p + |body| + |end|)
    ensures p + |body| < |text|
    decreases |body|
  {
    hide At;
    AtIndex(text, p, body + end, 0);
    if body == [] {
      assert body + end == end;
      if |end| == 2 { AtIndex(text, p, end, 1); }
    } else {
      assert body + end == [body[0]] + (body[1..] + end) && body[0] in body;
      AtSplit(text, p, [body[0]], body[1..] + end);
      assert forall c :: c in body[1..] ==> c in body;
      LineEnds(text, p + 1, body[1..], end);
    }
  }

  lemma SlashReads(text: Str, p: nat)
    requires p < |text| && text[p] == 0x2f && CommentEnd(text, p + 1).0
    ensures NextToken(text, p) == NextToken(text, CommentEnd(text, p + 1).1)
  {
    hide CommentEnd;
    TokenAt(text, p);
  }

  lemma FillerSkipped(text: Str, p: nat, f: Filler)
    requires FillerOk(f) && At(text, p, FillerText(f))
    ensures NextToken(text, p) == NextToken(text, p + |FillerText(f)|)
  {
    hide At, NextToken, StarSlash, LineEnd, SkipSpaces;
    match f {
      case Blanks(s) =>
        BlanksFill(text, p, s);
      case BlockComment(body) =>
        AtSplit(text, p, [0x2f, 0x2a], body + [0x2a, 0x2f]);
        AtIndex(text, p, [0x2f, 0x2a], 0);
        AtIndex(text, p, [0x2f, 0x2a], 1);
        BlockEnds(text, p + 2, body);
        SlashReads(text, p);
      case LineComment(body, end) =>
        AtSplit(text, p, [0x2f, 0x2f], body + end);
        AtIndex(text, p, [0x2f, 0x2f], 0);
        AtIndex(text, p, [0x2f, 0x2f], 1);
        LineEnds(text, p + 2, body, end);
        SlashReads(text, p);
        SameSpaces(text, LineEnd(text, p + 2), p + 2 + |body| + |end|);
    }
  }

  lemma BlanksFill(text: Str, p: nat, s: Str)
    requires AllBlank(s) && At(text, p, s)
    ensures ReadToken(text, p) == ReadToken(text, p + |s|) && NextToken(text, p) == NextToken(text, p + |s|)
  {
    BlanksSkipped(text, p, s);
    SameSpaces(text, p, p + |s|);
  }

  /** Reading on from a gap is reading on from behind it. */
  lemma {:induction false} GapSkipped(text: Str, p: nat, g: Gap)
    requires GapOk(g) && At(text, p, GapText(g))
    ensures NextToken(text, p) == NextToken(text, p + |GapText(g)|)
    decreases |g|
  {
    hide At, NextToken, FillerOk, FillerText;
    if g != [] {
      AtSplit(text, p, FillerText(g[0]), GapText(g[1..]));
      FillerSkipped(text, p, g[0]);
      GapSkipped(text, p + |FillerText(g[0])|, g[1..]);
    }
  }

  // ----- numerals -----

  /** The next character does not extend a numeral. */
  predicate Delimited(text: Str, p: nat) {
    p < |text| ==> !IsDigit(text[p]) && text[p] != 0x2e && text[p] != 0x65 && text[p] != 0x45
  }

  lemma {:induction false} GapDelimits(text: Str, p: nat, g: Gap)
    requires GapOk(g) && At(text, p, GapText(g)) && Delimited(text, p + |GapText(g)|)
    ensures Delimited(text, p)
    decreases |g|
  {
    hide At, Delimited;
    if g != [] {
      AtSplit(text, p, FillerText(g[0]), GapText(g[1..]));
      GapDelimits(text, p + |FillerText(g[0])|, g[1..]);
      if FillerText(g[0]) != [] {
        FillerDelimits(text, p, g[0]);
      }
    }
  }

  lemma FillerDelimits(text: Str, p: nat, f: Filler)
    requires FillerOk(f) && At(text, p, FillerText(f)) && FillerText(f) != []
    ensures Delimited(text, p)
  {
    hide At;
    AtIndex(text, p, FillerText(f), 0);
    if f.Blanks? { assert f.s[0] in f.s; }
  }

  lemma {:induction false} DigitsScan(text: Str, p: nat, ds: seq<Decimal>)
    requires At(text, p, DecimalText(ds)) && (p + |ds| < |text| ==> !IsDigit(text[p + |ds|]))
    ensures DigitsEnd(text, p) == p + |ds|
    decreases |ds|
  {
    hide At;
    if ds != [] {
      assert DecimalText(ds) == [LOWER[ds[0]]] + DecimalText(ds[1..]);
      AtSplit(text, p, [LOWER[ds[0]]], DecimalText(ds[1..]));
      AtIndex(text, p, DecimalText(ds), 0);
      DigitsScan(text, p + 1, ds[1..]);
    }
  }

  lemma ExponentScan(text: Str, p: nat, n: Numeral)
    requires NumeralOk(n) && At(text, p, ExponentText(n)) && Delimited(text, p + |ExponentText(n)|)
    ensures ExponentEnd(text, p) == p + |ExponentText(n)|
    ensures p < |text| ==> !IsDigit(text[p]) && text[p] != 0x2e
  {
    hide At, DecimalText, DigitsEnd;
    if n.exponent.Some? {
      var e := n.exponent.value;
      var digits := DecimalText(e.digits);
      AtSplit(text, p, [if e.upper then 0x45 else 0x65], e.sign + digits);
      AtIndex(text, p, [if e.upper then 0x45 else 0x65], 0);
      AtSplit(text, p + 1, e.sign, digits);
      DigitsScan(text, p + 1 + |e.sign|, e.digits);
      if e.sign == [] {
        FirstDigit(text, p + 1, e.digits);
      } else {
        AtIndex(text, p + 1, e.sign, 0);
      }
    }
  }

  lemma FirstDigit(text: Str, p: nat, ds: seq<Decimal>)
    requires ds != [] && At(text, p, DecimalText(ds))
    ensures p < |text| && IsDigit(text[p])
  {
    hide At;
    AtIndex(text, p, DecimalText(ds), 0);
  }

  lemma FractionScan(text: Str, p: nat, n: Numeral)
    requires NumeralOk(n) && At(text, p, FractionText(n) + ExponentText(n))
    requires Delimited(text, p + |FractionText(n) + ExponentText(n)|)
    ensures ExponentEnd(text, FractionEnd(text, p)) == p + |FractionText(n) + ExponentText(n)|
    ensures p < |text| ==> !IsDigit(text[p])
  {
    hide At, DecimalText, DigitsEnd, ExponentText, ExponentEnd, NumeralOk;
    AtSplit(text, p, FractionText(n), ExponentText(n));
    ExponentScan(text, p + |FractionText(n)|, n);
    if n.fraction.Some? {
      AtSplit(text, p, [0x2e], DecimalText(n.fraction.value));
      AtIndex(text, p, [0x2e], 0);
      DigitsScan(text, p + 1, n.fraction.value);
    }
  }

  lemma NumeralScan(n: Numeral, text: Str, p: nat)
    requires NumeralOk(n) && At(text, p, NumeralText(n)) && Delimited(text, p + |NumeralText(n)|)
    ensures p < |text| && (IsDigit(text[p]) || text[p] == MINUS)
    ensures NumberEnd(text, p + 1) == p + |NumeralText(n)|
  {
    hide At, DecimalText, DigitsEnd, FractionText, ExponentText, FractionEnd, ExponentEnd;
    var sign := if n.minus then [0x2d] else [];
    var rest := FractionText(n) + ExponentText(n);
    AtSplit(text, p, sign, DecimalText(n.whole) + rest);
    AtSplit(text, p + |sign|, DecimalText(n.whole), rest);
    FractionScan(text, p + |sign| + |n.whole|, n);
    if n.minus {
      AtIndex(text, p, sign, 0);
      DigitsScan(text, p + 1, n.whole);
    } else {
      FirstDigit(text, p, n.whole);
      FirstOff(text, p, n.whole);
      DigitsScan(text, p + 1, n.whole[1..]);
    }
  }

  lemma FirstOff(text: Str, p: nat, ds: seq<Decimal>)
    requires ds != [] && At(text, p, DecimalText(ds))
    ensures At(text, p + 1, DecimalText(ds[1..]))
  {
    hide At;
    assert DecimalText(ds) == [LOWER[ds[0]]] + DecimalText(ds[1..]);
    AtSplit(text, p, [LOWER[ds[0]]], DecimalText(ds[1..]));
  }

  lemma NumeralToken(n: Numeral, text: Str, p: nat)
    requires NumeralOk(n) && At(text, p, NumeralText(n)) && Delimited(text, p + |NumeralText(n)|)
    ensures p < |text| && NextToken(text, p) == Token(Number, p, p + |NumeralText(n)|)
  {
    hide At, NumeralText, NumeralOk, NumberEnd, NextToken, ReadToken, SkipSpaces, Delimited;
    NumeralScan(n, text, p);
    TokenAt(text, p);
  }

  lemma {:induction false} NumOfDigits(ds: seq<Decimal>)
    ensures AllDigits(DecimalText(ds)) && Num(DecimalText(ds)) == Positional(ds, 10)
    decreases |ds|
  {
    if ds != [] {
      var n := |ds| - 1;
      assert DecimalText(ds)[..n] == DecimalText(ds[..n]);
      NumOfDigits(ds[..n]);
    }
  }

  /** A numeral is an integer for decodeNumber exactly if it has 64 bits and neither fraction nor exponent. */
  lemma NumeralDecodes(n: Numeral)
    requires NumeralOk(n)
    ensures DecodeInteger(NumeralText(n)) == if IsInteger(n) then Integer(WholeValue(n)) else HandOver
  {
    hide DecimalText, Num, Positional;
    var t := NumeralText(n);
    var tail := FractionText(n) + ExponentText(n);
    var body := DecimalText(n.whole) + tail;
    NumOfDigits(n.whole);
    assert if n.minus then t[0] == MINUS && t[1..] == body else t == body;
    if !n.minus { NoSign(n.whole, tail); }
    if tail == [] {
      assert body == DecimalText(n.whole);
    } else {
      assert body[|n.whole|] == tail[0] && !IsDigit(tail[0]);
    }
  }

  lemma NoSign(ds: seq<Decimal>, tail: Str)
    requires ds != []
    ensures (DecimalText(ds) + tail)[0] != MINUS
  {
    assert (DecimalText(ds) + tail)[0] == LOWER[ds[0]];
  }

  // ----- strings -----

  lemma DigitReads(d: Digit)
    ensures HexValue(DigitByte(d)) == d.n && DigitByte(d) != QUOTE && DigitByte(d) != BACKSLASH
  {
    DigitRanges(d);
  }

  /** Four digits of either letter case are read as the number they stand for by position. */
  lemma FourDigitsDecode(e: Escape, text: Str, p: nat)
    requires At(text, p, EscapeText(e))
    ensures text[p] == BACKSLASH && text[p + 1] == LETTER_U
    ensures StringEnd(text, p) == StringEnd(text, p + 6)
    ensures DecodeHex(text, p + 2, 4, 0) == JsonString.Unit(CodeUnit(e), p + 6)
  {
    EscapeAt(e, text, p);
    DigitReads(e.d3);
    DigitReads(e.d2);
    DigitReads(e.d1);
    DigitReads(e.d0);
    hide At, DigitByte, HexValue, DecodeHex;
    HexDecodes(text, p + 2, e.d3.n, e.d2.n, e.d1.n, e.d0.n);
    PlainScan(text, p + 2, 4);
  }

  lemma EscapeAt(e: Escape, text: Str, p: nat)
    requires At(text, p, EscapeText(e))
    ensures text[p] == 0x5c && text[p + 1] == 0x75
    ensures text[p + 2] == DigitByte(e.d3) && text[p + 3] == DigitByte(e.d2)
    ensures text[p + 4] == DigitByte(e.d1) && text[p + 5] == DigitByte(e.d0)
  {
    hide DigitByte;
    var t := text[p..p + 6];
    assert t[0] == text[p] && t[1] == text[p + 1] && t[2] == text[p + 2];
    assert t[3] == text[p + 3] && t[4] == text[p + 4] && t[5] == text[p + 5];
  }

  lemma ShortPieceReads(k: ShortIndex, text: Str, p: nat, end: nat)
    requires At(text, p, PieceText(Short(k))) && p + 2 <= end <= |text|
    ensures StringEnd(text, p) == StringEnd(text, p + 2)
    ensures Decode(text, p, end) == JsonString.Prepend([SHORT_BYTES[k]], Decode(text, p + 2, end))
  {
    hide At;
    AtIndex(text, p, PieceText(Short(k)), 0);
    AtIndex(text, p, PieceText(Short(k)), 1);
    assert UnescapeShort(SHORT_LETTERS[k]) == SHORT_BYTES[k] != 0;
  }

  lemma EscapedReads(e: Escape, text: Str, p: nat, end: nat)
    requires PieceOk(Escaped(e)) && At(text, p, EscapeText(e)) && p + 6 <= end <= |text|
    ensures StringEnd(text, p) == StringEnd(text, p + 6)
    ensures Decode(text, p, end) == JsonString.Prepend(CodePointToUtf8(CodeUnit(e)), Decode(text, p + 6, end))
  {
    hide At, EscapeText, StringEnd, Decode, CodePointToUtf8, DecodeHex, CodeUnit;
    FourDigitsDecode(e, text, p);
    UnicodeEscapeReads(text, p, end, CodeUnit(e), p + 6);
  }

  lemma SurrogatesRead(high: Escape, low: Escape, text: Str, p: nat, end: nat)
    requires PieceOk(Surrogates(high, low)) && At(text, p, PieceText(Surrogates(high, low))) && p + 12 <= end <= |text|
    ensures StringEnd(text, p) == StringEnd(text, p + 12)
    ensures Decode(text, p, end) == JsonString.Prepend(PieceBytes(Surrogates(high, low)), Decode(text, p + 12, end))
  {
    hide At, StringEnd, Decode, CodePointToUtf8, DecodeHex, CodeUnit, DecodeCodePoint;
    var hi, lo := CodeUnit(high), CodeUnit(low);
    AtSplit(text, p, EscapeText(high), EscapeText(low));
    FourDigitsDecode(high, text, p);
    FourDigitsDecode(low, text, p + 6);
    SurrogatesJoin(hi, lo, text, p, end);
    UnicodeEscapeReads(text, p, end, 0x10000 + hi % 0x400 * 0x400 + lo % 0x400, p + 12);
  }

  /** A piece of a string is scanned whole and decoded. */
  lemma PieceReads(piece: Piece, text: Str, p: nat, end: nat)
    requires PieceOk(piece) && At(text, p, PieceText(piece)) && p + |PieceText(piece)| <= end <= |text|
    ensures StringEnd(text, p) == StringEnd(text, p + |PieceText(piece)|)
    ensures Decode(text, p, end) == JsonString.Prepend(PieceBytes(piece), Decode(text, p + |PieceText(piece)|, end))
  {
    match piece {
      case Plain(c) =>
        hide At, CodePointToUtf8, DecodeCodePoint, UnescapeShort;
        AtIndex(text, p, [c], 0);
      case Short(k) =>
        ShortPieceReads(k, text, p, end);
      case Escaped(e) =>
        EscapedReads(e, text, p, end);
      case Surrogates(high, low) =>
        SurrogatesRead(high, low, text, p, end);
    }
  }

  /** The beginning of a string, whatever follows it. */
  lemma {:induction false} PiecesPass(ps: seq<Piece>, text: Str, p: nat, end: nat)
    requires PiecesOk(ps) && At(text, p, PiecesText(ps)) && p + |PiecesText(ps)| <= end <= |text|
    ensures var q := p + |PiecesText(ps)|;
      StringEnd(text, p) == StringEnd(text, q) &&
      Decode(text, p, end) == JsonString.Prepend(PiecesBytes(ps), Decode(text, q, end))
    decreases |ps|
  {
    hide At, PieceOk, PieceText, PieceBytes, StringEnd, Decode;
    if ps == [] {
      NothingPrepended(Decode(text, p, end));
    } else {
      var first, rest := PieceText(ps[0]), PiecesText(ps[1..]);
      AtSplit(text, p, first, rest);
      PieceReads(ps[0], text, p, end);
      PiecesPass(ps[1..], text, p + |first|, end);
      PrependTwice(PieceBytes(ps[0]), PiecesBytes(ps[1..]), Decode(text, p + |first + rest|, end));
    }
  }

  lemma NothingPrepended(d: Decoding)
    ensures JsonString.Prepend([], d) == d
  {
    if d.Text? { assert [] + d.s == d.s; }
  }

  lemma PiecesRead(ps: seq<Piece>, text: Str, p: nat)
    requires PiecesOk(ps) && At(text, p, PiecesText(ps) + [QUOTE])
    ensures var end := p + |PiecesText(ps)|;
      StringEnd(text, p) == (true, end + 1) && Decode(text, p, end) == Text(PiecesBytes(ps))
  {
    hide At, PiecesText, PiecesBytes, StringEnd, Decode;
    var end := p + |PiecesText(ps)|;
    AtSplit(text, p, PiecesText(ps), [QUOTE]);
    AtIndex(text, end, [QUOTE], 0);
    PiecesPass(ps, text, p, end);
    StringCloses(text, end);
    assert PiecesBytes(ps) + [] == PiecesBytes(ps);
  }

  lemma StringCloses(text: Str, p: nat)
    requires p < |text| && text[p] == QUOTE
    ensures StringEnd(text, p) == (true, p + 1) && Decode(text, p, p) == Text([])
  {
  }

  lemma QuoteOpensString(text: Str, p: nat)
    requires p <= |text|
    ensures TokenFrom(text, QUOTE, p) == var (ok, q) := StringEnd(text, p); (if ok then StringToken else ErrorToken, q)
  {
  }

  lemma StringTokenReads(ps: seq<Piece>, text: Str, p: nat)
    requires PiecesOk(ps) && At(text, p, StringText(ps))
    ensures p < |text| && text[p] == QUOTE
    ensures ReadToken(text, p) == NextToken(text, p) == Token(StringToken, p, p + |StringText(ps)|)
    ensures TokenText(text, NextToken(text, p)) == Text(PiecesBytes(ps))
  {
    hide At, PiecesOk, PiecesText, PiecesBytes, StringEnd, Decode, TokenFrom;
    AtSplit(text, p, [QUOTE], PiecesText(ps) + [QUOTE]);
    AtIndex(text, p, [QUOTE], 0);
    PiecesRead(ps, text, p + 1);
    QuoteOpensString(text, p + 1);
    TokenAt(text, p);
  }

  // ----- punctuation and keywords -----

  const PUNCTUATION: Str := [0x5b, 0x5d, 0x7b, 0x7d, 0x2c, 0x3a]

  function Punctuation(c: Byte): TokenKind {
    if c == 0x5b then ArrayBegin else if c == 0x5d then ArrayEnd
    else if c == 0x7b then ObjectBegin else if c == 0x7d then ObjectEnd
    else if c == 0x2c then ArraySeparator else MemberSeparator
  }

  lemma PunctuationReads(text: Str, p: nat, c: Byte)
    requires At(text, p, [c]) && c in PUNCTUATION
    ensures p < |text| && text[p] == c && Delimited(text, p) && SkipSpaces(text, p) == p
    ensures ReadToken(text, p) == NextToken(text, p) == Token(Punctuation(c), p, p + 1)
  {
    hide At;
    AtIndex(text, p, [c], 0);
    TokenAt(text, p);
  }

  lemma KeywordReads(text: Str, p: nat, first: Byte, rest: Str, kind: TokenKind)
    requires At(text, p, [first] + rest)
    requires (first == 0x74 && rest == RUE && kind == True) || (first == 0x66 && rest == ALSE && kind == False) ||
             (first == 0x6e && rest == ULL && kind == NullToken)
    ensures p < |text| && NextToken(text, p) == Token(kind, p, p + 1 + |rest|)
  {
    hide At;
    AtSplit(text, p, [first], rest);
    AtIndex(text, p, [first], 0);
    TokenAt(text, p);
  }
}
