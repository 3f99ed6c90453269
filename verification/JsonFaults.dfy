/** Documents that break off from the grammar: which error is reported, at which token, and what has been read. */
module JsonFaults {
  import opened Bytes
  import opened Digits
  import opened Wrappers
  import opened JsonValue
  import opened JsonNumber
  import opened JsonString
  import opened JsonSyntax
  import opened JsonGrammar
  import opened JsonTokens
  import opened JsonDocuments

  // ----- escapes that are not understood -----

  /** The reader's hexadecimal digits are those of the two tables. */
  lemma HexValueIff(c: Byte, d: Digit)
    ensures c == DigitByte(d) ==> HexValue(c) == d.n
    ensures HexValue(c) == 16 <==> c !in LOWER && c !in UPPER
  {
    DigitReads(d);
    if HexValue(c) < 16 {
      var lower, upper := Digit(HexValue(c), false), Digit(HexValue(c), true);
      DigitRanges(lower);
      DigitRanges(upper);
      assert c == DigitByte(lower) || c == DigitByte(upper);
    }
    TabulatedDigit(c, LOWER, false);
    TabulatedDigit(c, UPPER, true);
  }

  lemma TabulatedDigit(c: Byte, table: Str, upper: bool)
    requires table == if upper then UPPER else LOWER
    ensures |table| == 16 && (c in table ==> HexValue(c) < 16)
  {
    if c in table {
      var k :| 0 <= k < |table| && table[k] == c;
      DigitReads(Digit(k, upper));
    }
  }

  /** A backslash at the end of the string, or before a letter that stands for nothing. */
  lemma BadLetterFails(text: Str, p: nat, end: nat)
    requires p < end <= |text| && text[p] == 0x5c
    ensures p + 1 == end ==> Decode(text, p, end) == Bad(EmptyEscape, end)
    ensures p + 1 < end && text[p + 1] !in SHORT_LETTERS && text[p + 1] != 0x75 ==>
      Decode(text, p, end) == Bad(BadEscape, p + 2)
  {
    if p + 1 < end && UnescapeShort(text[p + 1]) != 0 {
      assert text[p + 1] in [0x22, 0x2f, 0x5c, 0x62, 0x66, 0x6e, 0x72, 0x74];
      hide UnescapeShort;
      Eight(text[p + 1]);
    }
  }

  lemma Eight(c: Byte)
    requires c in [0x22, 0x2f, 0x5c, 0x62, 0x66, 0x6e, 0x72, 0x74]
    ensures c in SHORT_LETTERS
  {
    assert SHORT_LETTERS[0] == 0x22 && SHORT_LETTERS[1] == 0x5c && SHORT_LETTERS[2] == 0x2f && SHORT_LETTERS[3] == 0x62;
    assert SHORT_LETTERS[4] == 0x66 && SHORT_LETTERS[5] == 0x6e && SHORT_LETTERS[6] == 0x72 && SHORT_LETTERS[7] == 0x74;
  }

  predicate IsHexByte(c: Byte) { c in LOWER || c in UPPER }

  /** What is wrong with the digits of a \u escape from `p` on: too few characters, or one that is no digit. */
  function DigitFlaw(text: Str, p: nat, end: nat): Option<(Problem, nat)>
    requires p <= end <= |text|
  {
    if end < p + 4 then Some((FourDigitsExpected, p))
    else if !IsHexByte(text[p]) then Some((HexDigitExpected, p + 1))
    else if !IsHexByte(text[p + 1]) then Some((HexDigitExpected, p + 2))
    else if !IsHexByte(text[p + 2]) then Some((HexDigitExpected, p + 3))
    else if !IsHexByte(text[p + 3]) then Some((HexDigitExpected, p + 4))
    else None
  }

  lemma DigitFlawIsFound(text: Str, p: nat, end: nat)
    requires p <= end <= |text|
    ensures var flaw, u := DigitFlaw(text, p, end), DecodeEscapeSequence(text, p, end);
      match flaw
      case Some(f) => u == BadUnit(f.0, f.1)
      case None => u.Unit?
  {
    if p + 4 <= end {
      HexValueIff(text[p], Digit(0, false));
      HexValueIff(text[p + 1], Digit(0, false));
      HexValueIff(text[p + 2], Digit(0, false));
      HexValueIff(text[p + 3], Digit(0, false));
      hide HexValue, LOWER, UPPER;
      HexWalk(text, p);
    }
  }

  /** The first byte that is no digit ends the walk over the four. */
  lemma HexWalk(text: Str, p: nat)
    requires p + 4 <= |text|
    ensures var u := DecodeHex(text, p, 4, 0);
      if HexValue(text[p]) == 16 then u == BadUnit(HexDigitExpected, p + 1)
      else if HexValue(text[p + 1]) == 16 then u == BadUnit(HexDigitExpected, p + 2)
      else if HexValue(text[p + 2]) == 16 then u == BadUnit(HexDigitExpected, p + 3)
      else if HexValue(text[p + 3]) == 16 then u == BadUnit(HexDigitExpected, p + 4)
      else u.Unit?
  {
    hide HexValue;
    var a, b, c := HexValue(text[p]), HexValue(text[p + 1]), HexValue(text[p + 2]);
    if a < 16 && b < 16 && c < 16 {
      HexTurn(text, p + 3, 1, (a * 16 + b) * 16 + c);
    }
    if a < 16 && b < 16 {
      HexTurn(text, p + 2, 2, a * 16 + b);
    }
    if a < 16 {
      HexTurn(text, p + 1, 3, a);
    }
    HexTurn(text, p, 4, 0);
  }

  lemma HexTurn(text: Str, p: nat, digits: nat, acc: nat)
    requires p + digits <= |text| && digits > 0
    ensures DecodeHex(text, p, digits, acc) ==
      if HexValue(text[p]) == 16 then BadUnit(HexDigitExpected, p + 1)
      else DecodeHex(text, p + 1, digits - 1, acc * 16 + HexValue(text[p]))
    ensures digits == 1 && HexValue(text[p]) < 16 ==> DecodeHex(text, p, digits, acc).Unit?
  {
  }

  /** A \u escape fails by its digits. */
  lemma BadDigitsFail(text: Str, p: nat, end: nat)
    requires p + 2 <= end <= |text| && text[p] == 0x5c && text[p + 1] == 0x75 && DigitFlaw(text, p + 2, end).Some?
    ensures var (problem, at) := DigitFlaw(text, p + 2, end).value; Decode(text, p, end) == Bad(problem, at)
  {
    hide DigitFlaw, DecodeEscapeSequence;
    DigitFlawIsFound(text, p + 2, end);
  }

  /** The first half of a surrogate pair fails by what stands behind it, unless that is another escape. */
  lemma LoneHalfFails(e: Escape, text: Str, p: nat, end: nat)
    requires 0xD800 <= CodeUnit(e) <= 0xDBFF && At(text, p, EscapeText(e)) && p + 6 <= end <= |text|
    ensures end < p + 12 ==> Decode(text, p, end) == Bad(SixCharactersExpected, p + 6)
    ensures p + 12 <= end && text[p + 6] != 0x5c ==> Decode(text, p, end) == Bad(SecondHalfExpected, p + 7)
    ensures p + 12 <= end && text[p + 6] == 0x5c && text[p + 7] != 0x75 ==>
      Decode(text, p, end) == Bad(SecondHalfExpected, p + 8)
    ensures p + 12 <= end && text[p + 6] == 0x5c && text[p + 7] == 0x75 && DigitFlaw(text, p + 8, end).Some? ==>
      Decode(text, p, end) == Bad(DigitFlaw(text, p + 8, end).value.0, DigitFlaw(text, p + 8, end).value.1)
  {
    hide At, EscapeText, CodeUnit, DecodeHex, DigitFlaw;
    FourDigitsDecode(e, text, p);
    if p + 12 <= end {
      DigitFlawIsFound(text, p + 8, end);
    }
  }

  /** What stands before the flaw does not matter. */
  lemma FlawedString(ps: seq<Piece>, text: Str, p: nat, end: nat, problem: Problem, at: nat)
    requires PiecesOk(ps) && At(text, p, PiecesText(ps)) && p + |PiecesText(ps)| <= end <= |text|
    requires Decode(text, p + |PiecesText(ps)|, end) == Bad(problem, at)
    ensures Decode(text, p, end) == Bad(problem, at)
  {
    hide At, PiecesOk, PiecesText, PiecesBytes, Decode;
    PiecesPass(ps, text, p, end);
  }

  // ----- tokens that are none -----

  /** The bytes a token or white space can begin with. */
  const BEGINNINGS: Str :=
    [0x20, 0x09, 0x0a, 0x0d, 0x00, 0x22, 0x2c, 0x2d, 0x2f, 0x30, 0x31, 0x32, 0x33, 0x34, 0x35, 0x36, 0x37, 0x38, 0x39,
     0x3a, 0x5b, 0x5d, 0x66, 0x6e, 0x74, 0x7b, 0x7d]

  lemma OtherByteIsError(text: Str, p: nat)
    requires p < |text| && text[p] !in BEGINNINGS
    ensures ReadToken(text, p) == Token(ErrorToken, p, p + 1)
  {
    hide BEGINNINGS;
    NotBeginning(text[p]);
    TokenAt(text, p);
  }

  lemma NotBeginning(c: Byte)
    requires c !in BEGINNINGS
    ensures !IsSpace(c) && !IsDigit(c) && c != MINUS
    ensures forall text: Str, p: nat :: p <= |text| ==> TokenFrom(text, c, p) == (ErrorToken, p)
  {
    assert BEGINNINGS[0] == 0x20 && BEGINNINGS[1] == 0x09 && BEGINNINGS[2] == 0x0a && BEGINNINGS[3] == 0x0d;
    assert BEGINNINGS[4] == 0x00 && BEGINNINGS[5] == 0x22 && BEGINNINGS[6] == 0x2c && BEGINNINGS[7] == 0x2d;
    assert BEGINNINGS[8] == 0x2f && BEGINNINGS[19] == 0x3a && BEGINNINGS[20] == 0x5b && BEGINNINGS[21] == 0x5d;
    assert BEGINNINGS[22] == 0x66 && BEGINNINGS[23] == 0x6e && BEGINNINGS[24] == 0x74 && BEGINNINGS[25] == 0x7b;
    assert BEGINNINGS[26] == 0x7d;
    NotDigit(c);
  }

  lemma NotDigit(c: Byte)
    requires c !in BEGINNINGS
    ensures !IsDigit(c)
  {
    assert BEGINNINGS[9] == 0x30 && BEGINNINGS[10] == 0x31 && BEGINNINGS[11] == 0x32 && BEGINNINGS[12] == 0x33;
    assert BEGINNINGS[13] == 0x34 && BEGINNINGS[14] == 0x35 && BEGINNINGS[15] == 0x36 && BEGINNINGS[16] == 0x37;
    assert BEGINNINGS[17] == 0x38 && BEGINNINGS[18] == 0x39;
  }

  /** A NUL byte reads as the end of the document. */
  lemma NulIsEnd(text: Str, p: nat)
    requires p < |text| && text[p] == 0
    ensures ReadToken(text, p) == Token(EndOfStream, p, p + 1)
  {
    TokenAt(text, p);
  }

  /** A word that is no keyword: the error is its first letter. */
  lemma OtherWordIsError(text: Str, p: nat)
    requires p < |text| && (text[p] == 0x74 || text[p] == 0x66 || text[p] == 0x6e)
    requires !At(text, p, [0x74, 0x72, 0x75, 0x65]) && !At(text, p, [0x66, 0x61, 0x6c, 0x73, 0x65])
    requires !At(text, p, [0x6e, 0x75, 0x6c, 0x6c])
    ensures ReadToken(text, p) == Token(ErrorToken, p, p + 1)
  {
    AtSplit(text, p, [0x74], RUE);
    AtSplit(text, p, [0x66], ALSE);
    AtSplit(text, p, [0x6e], ULL);
    assert [0x74] + RUE == [0x74, 0x72, 0x75, 0x65] && [0x66] + ALSE == [0x66, 0x61, 0x6c, 0x73, 0x65];
    assert [0x6e] + ULL == [0x6e, 0x75, 0x6c, 0x6c] && text[p..p + 1] == [text[p]];
    TokenAt(text, p);
  }

  /** A slash that begins no comment: the byte behind it is part of the error. */
  lemma LoneSlashIsError(text: Str, p: nat)
    requires p < |text| && text[p] == 0x2f
    requires p + 1 < |text| ==> text[p + 1] != 0x2a && text[p + 1] != 0x2f
    ensures ReadToken(text, p) == Token(ErrorToken, p, if p + 1 < |text| then p + 2 else p + 1)
  {
    TokenAt(text, p);
  }

  /** A block comment that is not closed is an error up to the end, unless the last byte happens to be a slash. */
  lemma UnclosedComment(text: Str, p: nat)
    requires p + 2 <= |text| && text[p] == 0x2f && text[p + 1] == 0x2a
    requires forall k :: p + 2 <= k < |text| - 1 ==> !(text[k] == 0x2a && text[k + 1] == 0x2f)
    ensures ReadToken(text, p) ==
      Token(if |text| > p + 2 && text[|text| - 1] == 0x2f then Comment else ErrorToken, p, |text|)
  {
    NoStarSlash(text, p + 2);
    TokenAt(text, p);
  }

  lemma {:induction false} NoStarSlash(text: Str, p: nat)
    requires p <= |text| && forall k :: p <= k < |text| - 1 ==> !(text[k] == 0x2a && text[k + 1] == 0x2f)
    ensures StarSlash(text, p) == if p == |text| then p else |text| - 1
    decreases |text| - p
  {
    if p < |text| { NoStarSlash(text, p + 1); }
  }

  /** A string that is not closed is an error up to the end. */
  lemma UnclosedString(ps: seq<Piece>, text: Str, p: nat)
    requires PiecesOk(ps) && At(text, p, [0x22] + PiecesText(ps)) && p + 1 + |PiecesText(ps)| == |text|
    ensures ReadToken(text, p) == Token(ErrorToken, p, |text|)
  {
    hide At, PiecesOk, PiecesText, TokenFrom, Decode;
    AtSplit(text, p, [0x22], PiecesText(ps));
    AtIndex(text, p, [0x22], 0);
    PiecesPass(ps, text, p + 1, |text|);
    QuoteOpensString(text, p + 1);
    TokenAt(text, p);
  }

  // ----- skipping behind an error -----

  /** The `k`-th token from `p` on, comments and errors among them. */
  function NthToken(text: Str, p: nat, k: nat): (t: Token)
    requires p <= |text|
    ensures t.end <= |text|
    decreases k
  {
    if k == 0 then ReadToken(text, p) else NthToken(text, ReadToken(text, p).end, k - 1)
  }

  /** The cursor stops behind the first token of the kind looked for, or the end of the document. */
  lemma {:induction false} RecoverStopsAtFirst(text: Str, p: nat, until: TokenKind) returns (k: nat)
    requires p <= |text|
    ensures Recover(text, p, until) == NthToken(text, p, k).end
    ensures NthToken(text, p, k).kind == until || NthToken(text, p, k).kind == EndOfStream
    ensures forall j :: 0 <= j < k ==>
      NthToken(text, p, j).kind != until && NthToken(text, p, j).kind != EndOfStream
    decreases |text| - p
  {
    hide ReadToken;
    var t := ReadToken(text, p);
    if t.kind == until || t.kind == EndOfStream {
      k := 0;
    } else {
      var m := RecoverStopsAtFirst(text, t.end, until);
      k := m + 1;
      forall j | 0 <= j < k
        ensures NthToken(text, p, j).kind != until && NthToken(text, p, j).kind != EndOfStream
      {
        if j > 0 { assert NthToken(text, p, j) == NthToken(text, t.end, j - 1); }
      }
    }
  }

  // ----- the way to the fault -----

  /** Complete items, each with a comma behind it. */
  function CommaItems(xs: seq<Item>): Str {
    if xs == [] then [] else ItemText(xs[0]) + ([0x2c] + CommaItems(xs[1..]))
  }

  function CommaFields(fs: seq<Field>): Str {
    if fs == [] then [] else FieldText(fs[0]) + ([0x2c] + CommaFields(fs[1..]))
  }

  /** The open arrays and objects around a place in a document, the outermost first, and what they hold before it. */
  datatype Path =
    | Here(gap: Gap)
    | InArray(before: Gap, items: seq<Item>, inner: Path)
    | InObject(before: Gap, fields: seq<Field>, nameGap: Gap, name: seq<Piece>, colon: Str, inner: Path)

  predicate PathOk(w: Path, toReal: Str -> Option<Str>) {
    match w
    case Here(g) => GapOk(g)
    case InArray(before, items, inner) => GapOk(before) && ItemsOk(items, toReal) && PathOk(inner, toReal)
    case InObject(before, fields, nameGap, name, colon, inner) =>
      GapOk(before) && FieldsOk(fields, toReal) && GapOk(nameGap) && PiecesOk(name) && AllBlank(colon) &&
      PathOk(inner, toReal)
  }

  function PathText(w: Path): Str {
    match w
    case Here(g) => GapText(g)
    case InArray(before, items, inner) => GapText(before) + ([0x5b] + (CommaItems(items) + PathText(inner)))
    case InObject(before, fields, nameGap, name, colon, inner) =>
      GapText(before) + ([0x7b] + (CommaFields(fields) + (NameText(nameGap, name, colon) + PathText(inner))))
  }

  function NameText(gap: Gap, name: seq<Piece>, colon: Str): Str {
    GapText(gap) + (StringText(name) + (colon + [0x3a]))
  }

  /** How many values are open at the place, and the most that were open before it. */
  function PathDepth(w: Path): nat {
    match w
    case Here(_) => 0
    case InArray(_, _, inner) => 1 + PathDepth(inner)
    case InObject(_, _, _, _, _, inner) => 1 + PathDepth(inner)
  }

  function PathHeight(w: Path): nat {
    match w
    case Here(_) => 0
    case InArray(_, items, inner) => 1 + Max(ItemsHeight(items), PathHeight(inner))
    case InObject(_, fields, _, _, _, inner) => 1 + Max(FieldsHeight(fields), PathHeight(inner))
  }

  /** The value that is current at the place: that of a member of the same name before it, or null. */
  function PathSlot(w: Path, slot: Value, toReal: Str -> Option<Str>): Value {
    match w
    case Here(_) => slot
    case InArray(_, _, inner) => PathSlot(inner, Null, toReal)
    case InObject(_, fields, _, name, _, inner) =>
      PathSlot(inner, Find(FieldsMeaning([], fields, toReal), PiecesBytes(name)), toReal)
  }

  /**
   * A failure at the place makes every array and object around it fail with the same error, keep what was read, and
   * skip to its own closing bracket.
   */
  function Around(w: Path, text: Str, toReal: Str -> Option<Str>, r: Outcome): Outcome
    requires r.Done? && r.pos <= |text|
  {
    match w
    case Here(_) => r
    case InArray(_, items, inner) =>
      var v := Around(inner, text, toReal, r);
      if v.Done? && v.pos <= |text| then
        Done(false, Array(ItemsMeaning(items, toReal) + [v.value]), Recover(text, v.pos, ArrayEnd), v.errors)
      else v
    case InObject(_, fields, _, name, _, inner) =>
      var v := Around(inner, text, toReal, r);
      if v.Done? && v.pos <= |text| then
        Done(false, Object(Upsert(FieldsMeaning([], fields, toReal), PiecesBytes(name), v.value)),
             Recover(text, v.pos, ObjectEnd), v.errors)
      else v
  }

  lemma {:induction false} AroundIsDone(w: Path, text: Str, toReal: Str -> Option<Str>, r: Outcome)
    requires r.Done? && r.pos <= |text|
    ensures var v := Around(w, text, toReal, r); v.Done? && v.pos <= |text| && v.errors == r.errors
    ensures w.Here? || !Around(w, text, toReal, r).ok
    decreases w
  {
    hide Recover;
    if !w.Here? { AroundIsDone(w.inner, text, toReal, r); }
  }

  /** Complete items are read on the way. */
  lemma {:induction false} ItemsPass(xs: seq<Item>, d: Document, p: nat, depth: nat, acc: seq<Value>)
    requires ItemsOk(xs, d.toReal) && At(d.text, p, CommaItems(xs)) && depth + ItemsHeight(xs) <= STACK_LIMIT
    ensures ReadElements(d, p, depth, acc) ==
      ReadElements(d, p + |CommaItems(xs)|, depth, acc + ItemsMeaning(xs, d.toReal))
    decreases |xs|
  {
    hide At, ReadElements, ItemOk, ItemText, Meaning, Height;
    if xs == [] {
      assert acc + [] == acc;
    } else {
      var i, v := xs[0], Meaning(xs[0].node, d.toReal);
      AtSplit(d.text, p, ItemText(i), [0x2c] + CommaItems(xs[1..]));
      AtSplit(d.text, p + |ItemText(i)|, [0x2c], CommaItems(xs[1..]));
      ItemReads(i, d, p, depth, acc, 0x2c);
      ItemsPass(xs[1..], d, p + |ItemText(i)| + 1, depth, acc + [v]);
      Assoc(acc, [v], ItemsMeaning(xs[1..], d.toReal));
    }
  }

  function LastName(fs: seq<Field>, name: Str): Str {
    if fs == [] then name else PiecesBytes(fs[|fs| - 1].name)
  }

  /** Complete members are read on the way. */
  lemma {:induction false} FieldsPass(fs: seq<Field>, d: Document, p: nat, depth: nat, acc: seq<Member>, name: Str)
    requires FieldsOk(fs, d.toReal) && At(d.text, p, CommaFields(fs)) && depth + FieldsHeight(fs) <= STACK_LIMIT
    ensures ReadMembers(d, p, depth, acc, name) ==
      ReadMembers(d, p + |CommaFields(fs)|, depth, FieldsMeaning(acc, fs, d.toReal), LastName(fs, name))
    decreases |fs|
  {
    hide At, ReadMembers, FieldOk, FieldText, Meaning, Height, Upsert, PiecesBytes;
    if fs != [] {
      var f, key := fs[0], PiecesBytes(fs[0].name);
      AtSplit(d.text, p, FieldText(f), [0x2c] + CommaFields(fs[1..]));
      AtSplit(d.text, p + |FieldText(f)|, [0x2c], CommaFields(fs[1..]));
      FieldReads(f, d, p, depth, acc, name, 0x2c);
      FieldsPass(fs[1..], d, p + |FieldText(f)| + 1, depth, Upsert(acc, key, Meaning(f.node, d.toReal)), key);
      assert fs[1..] != [] ==> fs[1..][|fs[1..]| - 1] == fs[|fs| - 1];
    }
  }

  /** An array is read from behind its bracket, if it does not end there. */
  lemma ArrayOpens(before: Gap, rest: Str, d: Document, p: nat, depth: nat, slot: Value)
    requires GapOk(before) && At(d.text, p, GapText(before) + ([0x5b] + rest)) && depth <= STACK_LIMIT
    ensures var q := p + |GapText(before)| + 1;
      At(d.text, q, rest) &&
      (NextToken(d.text, q).kind != ArrayEnd ==> ReadValue(d, p, depth, slot) == ReadElements(d, q, depth, []))
  {
    hide At, NextToken, ReadValue, ReadElements, GapText, GapOk;
    AtSplit(d.text, p, GapText(before), [0x5b] + rest);
    var q := p + |GapText(before)|;
    AtSplit(d.text, q, [0x5b], rest);
    GapSkipped(d.text, p, before);
    PunctuationReads(d.text, q, 0x5b);
    SameToken(d, p, q, depth, slot, []);
    if NextToken(d.text, q + 1).kind != ArrayEnd {
      ArrayGoesOn(d, q, depth, slot);
    }
  }

  lemma ObjectOpens(before: Gap, rest: Str, d: Document, p: nat, depth: nat, slot: Value)
    requires GapOk(before) && At(d.text, p, GapText(before) + ([0x7b] + rest)) && depth <= STACK_LIMIT
    ensures var q := p + |GapText(before)| + 1;
      At(d.text, q, rest) && ReadValue(d, p, depth, slot) == ReadMembers(d, q, depth, [], [])
  {
    hide At, NextToken, ReadValue, ReadMembers, GapText, GapOk;
    AtSplit(d.text, p, GapText(before), [0x7b] + rest);
    var q := p + |GapText(before)|;
    AtSplit(d.text, q, [0x7b], rest);
    GapSkipped(d.text, p, before);
    PunctuationReads(d.text, q, 0x7b);
    SameToken(d, p, q, depth, slot, []);
    ObjectStep(d, q, depth, slot);
  }

  /** A name with its colon. */
  lemma NameOpens(gap: Gap, name: seq<Piece>, colon: Str, text: Str, p: nat)
    requires GapOk(gap) && PiecesOk(name) && AllBlank(colon) && At(text, p, NameText(gap, name, colon))
    ensures var t := NextToken(text, p);
      t.kind == StringToken && TokenText(text, t) == Text(PiecesBytes(name)) &&
      ReadToken(text, t.end).kind == MemberSeparator &&
      ReadToken(text, t.end).end == p + |NameText(gap, name, colon)|
  {
    hide At, NextToken, ReadToken, TokenText, GapText, StringText, PiecesOk, PiecesBytes, GapOk, AllBlank;
    var q := p + |GapText(gap)|;
    AtSplit(text, p, GapText(gap), StringText(name) + (colon + [0x3a]));
    AtSplit(text, q, StringText(name), colon + [0x3a]);
    AtSplit(text, q + |StringText(name)|, colon, [0x3a]);
    GapSkipped(text, p, gap);
    StringTokenReads(name, text, q);
    BlanksFill(text, q + |StringText(name)|, colon);
    PunctuationReads(text, q + |StringText(name)| + |colon|, 0x3a);
  }

  /** An element that fails ends its array. */
  lemma ElementFails(d: Document, p: nat, depth: nat, acc: seq<Value>, v: Outcome)
    requires p <= |d.text| && ReadValue(d, p, depth + 1, Null) == v && v.Done? && !v.ok
    ensures ReadElements(d, p, depth, acc) ==
      Done(false, Array(acc + [v.value]), Recover(d.text, v.pos, ArrayEnd), v.errors)
  {
    hide ReadValue, Recover;
  }

  /** A member value that fails ends its object. */
  lemma MemberFails(d: Document, p: nat, depth: nat, acc: seq<Member>, name: Str, key: Str, colon: nat, v: Outcome)
    requires p <= |d.text| && colon <= |d.text|
    requires var t := NextToken(d.text, p);
      t.kind == StringToken && TokenText(d.text, t) == Text(key) &&
      ReadToken(d.text, t.end).kind == MemberSeparator && ReadToken(d.text, t.end).end == colon
    requires ReadValue(d, colon, depth + 1, Find(acc, key)) == v && v.Done? && !v.ok
    ensures ReadMembers(d, p, depth, acc, name) ==
      Done(false, Object(Upsert(acc, key, v.value)), Recover(d.text, v.pos, ObjectEnd), v.errors)
  {
    hide NextToken, ReadToken, TokenText, ReadValue, Recover, Find, Upsert;
  }

  lemma FirstOfItems(xs: seq<Item>, d: Document, p: nat)
    requires xs != [] && ItemsOk(xs, d.toReal) && At(d.text, p, CommaItems(xs))
    ensures NextToken(d.text, p).kind != ArrayEnd
  {
    hide At, NextToken, Delimited, ItemText, NodeText, NodeOk;
    AtSplit(d.text, p, ItemText(xs[0]), [0x2c] + CommaItems(xs[1..]));
    AtSplit(d.text, p + |ItemText(xs[0])|, [0x2c], CommaItems(xs[1..]));
    PunctuationReads(d.text, p + |ItemText(xs[0])|, 0x2c);
    SplitItem(xs[0], d, p);
    NodeBegins(xs[0].node, d, p + |GapText(xs[0].before)|);
  }

  /** The place is the first in its array: there a closing bracket is no fault. */
  predicate AtFirst(w: Path) {
    match w
    case Here(_) => false
    case InArray(_, items, inner) => if inner.Here? then items == [] else AtFirst(inner)
    case InObject(_, _, _, _, _, inner) => AtFirst(inner)
  }

  /** The token the way begins with. */
  lemma PathBegins(w: Path, text: Str, p: nat, toReal: Str -> Option<Str>)
    requires PathOk(w, toReal) && At(text, p, PathText(w))
    ensures w.Here? ==> NextToken(text, p) == NextToken(text, p + |PathText(w)|)
    ensures w.InArray? ==> NextToken(text, p).kind == ArrayBegin
    ensures w.InObject? ==> NextToken(text, p).kind == ObjectBegin
  {
    hide At, NextToken, GapText, GapOk, CommaItems, CommaFields, NameText;
    match w {
      case Here(g) => GapSkipped(text, p, g);
      case InArray(before, items, inner) =>
        BracketBehindGap(text, p, before, 0x5b, CommaItems(items) + PathText(inner));
      case InObject(before, fields, nameGap, name, colon, inner) =>
        BracketBehindGap(text, p, before, 0x7b,
          CommaFields(fields) + (NameText(nameGap, name, colon) + PathText(inner)));
    }
  }

  lemma BracketBehindGap(text: Str, p: nat, g: Gap, c: Byte, rest: Str)
    requires GapOk(g) && At(text, p, GapText(g) + ([c] + rest)) && (c == 0x5b || c == 0x7b)
    ensures NextToken(text, p).kind == if c == 0x5b then ArrayBegin else ObjectBegin
  {
    hide At, NextToken, GapText, GapOk;
    AtSplit(text, p, GapText(g), [c] + rest);
    AtSplit(text, p + |GapText(g)|, [c], rest);
    GapSkipped(text, p, g);
    PunctuationReads(text, p + |GapText(g)|, c);
  }

  /** What reading a value at the end of the way yields, as a failure of everything around it. */
  lemma {:induction false} PathLeads(w: Path, d: Document, p: nat, depth: nat, slot: Value, r: Outcome)
    requires PathOk(w, d.toReal) && At(d.text, p, PathText(w)) && depth + PathHeight(w) <= STACK_LIMIT + 1
    requires AtFirst(w) ==> NextToken(d.text, p + |PathText(w)|).kind != ArrayEnd
    requires ReadValue(d, p + |PathText(w)|, depth + PathDepth(w), PathSlot(w, slot, d.toReal)) == r
    requires r.Done? && !r.ok
    ensures ReadValue(d, p, depth, slot) == Around(w, d.text, d.toReal, r)
    decreases w, 1
  {
    hide At, NextToken, ReadValue, GapText, GapOk, ItemsOk, FieldsOk;
    match w {
      case Here(g) =>
        GapSkipped(d.text, p, g);
        SameToken(d, p, p + |GapText(g)|, depth, slot, []);
      case InArray(before, items, inner) => ArrayLeads(w, d, p, depth, slot, r);
      case InObject(before, fields, nameGap, name, colon, inner) => ObjectLeads(w, d, p, depth, slot, r);
    }
  }

  lemma {:induction false} ArrayLeads(w: Path, d: Document, p: nat, depth: nat, slot: Value, r: Outcome)
    requires w.InArray? && PathOk(w, d.toReal) && At(d.text, p, PathText(w))
    requires depth + PathHeight(w) <= STACK_LIMIT + 1
    requires AtFirst(w) ==> NextToken(d.text, p + |PathText(w)|).kind != ArrayEnd
    requires ReadValue(d, p + |PathText(w)|, depth + PathDepth(w), PathSlot(w, slot, d.toReal)) == r
    requires r.Done? && !r.ok
    ensures ReadValue(d, p, depth, slot) == Around(w, d.text, d.toReal, r)
    decreases w, 0
  {
    hide At, NextToken, ReadValue, ReadElements, GapText, GapOk, ItemsOk, CommaItems;
    hide ItemsMeaning, ItemsHeight, Recover;
    hide PathText;
    var xs, inner := w.items, w.inner;
    var q := p + |GapText(w.before)| + 1;
    var m := q + |CommaItems(xs)|;
    ArrayReached(w, d, p);
    ArrayOpens(w.before, CommaItems(xs) + PathText(inner), d, p, depth, slot);
    ItemsPass(xs, d, q, depth, []);
    PathLeads(inner, d, m, depth + 1, Null, r);
    StillFails(inner, d.text, d.toReal, r);
    AroundIsDone(inner, d.text, d.toReal, r);
    assert [] + ItemsMeaning(xs, d.toReal) == ItemsMeaning(xs, d.toReal);
    ElementFails(d, m, depth, ItemsMeaning(xs, d.toReal), Around(inner, d.text, d.toReal, r));
  }

  /** Where the parts of an open array stand. */
  lemma ArrayParts(w: Path, text: Str, p: nat)
    requires w.InArray? && At(text, p, PathText(w))
    ensures var q := p + |GapText(w.before)| + 1;
      At(text, p, GapText(w.before) + ([0x5b] + (CommaItems(w.items) + PathText(w.inner)))) &&
      At(text, q, CommaItems(w.items)) && At(text, q + |CommaItems(w.items)|, PathText(w.inner))
    ensures |PathText(w)| == |GapText(w.before)| + 1 + |CommaItems(w.items)| + |PathText(w.inner)|
  {
    hide *;
    ArrayPathText(w);
    var before, items, inner := GapText(w.before), CommaItems(w.items), PathText(w.inner);
    var q := p + |before| + 1;
    AtSplit(text, p, before, [0x5b] + (items + inner));
    AtSplit(text, q - 1, [0x5b], items + inner);
    AtSplit(text, q, items, inner);
  }

  lemma ArrayPathText(w: Path)
    requires w.InArray?
    ensures PathText(w) == GapText(w.before) + ([0x5b] + (CommaItems(w.items) + PathText(w.inner)))
  {
    hide GapText, CommaItems;
  }

  /** Where the parts of an open array stand, and that it does not end at once. */
  lemma ArrayReached(w: Path, d: Document, p: nat)
    requires w.InArray? && PathOk(w, d.toReal) && At(d.text, p, PathText(w))
    requires AtFirst(w) ==> NextToken(d.text, p + |PathText(w)|).kind != ArrayEnd
    ensures var q := p + |GapText(w.before)| + 1;
      var m := q + |CommaItems(w.items)|;
      At(d.text, p, GapText(w.before) + ([0x5b] + (CommaItems(w.items) + PathText(w.inner)))) &&
      At(d.text, q, CommaItems(w.items)) && At(d.text, m, PathText(w.inner)) && NextToken(d.text, q).kind != ArrayEnd
    ensures |PathText(w)| == |GapText(w.before)| + 1 + |CommaItems(w.items)| + |PathText(w.inner)|
  {
    hide At, NextToken, GapText, GapOk, ItemsOk, CommaItems, PathText;
    var q := p + |GapText(w.before)| + 1;
    ArrayParts(w, d.text, p);
    PathBegins(w.inner, d.text, q + |CommaItems(w.items)|, d.toReal);
    if w.items == [] {
      NoItems();
    } else {
      FirstOfItems(w.items, d, q);
    }
  }

  lemma NoItems()
    ensures CommaItems([]) == [] && CommaFields([]) == []
  {
  }

  lemma StillFails(w: Path, text: Str, toReal: Str -> Option<Str>, r: Outcome)
    requires r.Done? && !r.ok && r.pos <= |text|
    ensures Around(w, text, toReal, r).Done? && !Around(w, text, toReal, r).ok
  {
    AroundIsDone(w, text, toReal, r);
  }

  lemma {:induction false} ObjectLeads(w: Path, d: Document, p: nat, depth: nat, slot: Value, r: Outcome)
    requires w.InObject? && PathOk(w, d.toReal) && At(d.text, p, PathText(w))
    requires depth + PathHeight(w) <= STACK_LIMIT + 1
    requires AtFirst(w) ==> NextToken(d.text, p + |PathText(w)|).kind != ArrayEnd
    requires ReadValue(d, p + |PathText(w)|, depth + PathDepth(w), PathSlot(w, slot, d.toReal)) == r
    requires r.Done? && !r.ok
    ensures ReadValue(d, p, depth, slot) == Around(w, d.text, d.toReal, r)
    decreases w, 0
  {
    hide At, NextToken, ReadToken, TokenText, ReadValue, ReadMembers, GapText, GapOk;
    hide FieldsOk, CommaFields, FieldsMeaning;
    hide FieldsHeight, Recover, NameText, PiecesOk, PiecesBytes, AllBlank, Find, Upsert, PathText, LastName;
    var fs, inner, key := w.fields, w.inner, PiecesBytes(w.name);
    var acc, name := FieldsMeaning([], fs, d.toReal), NameText(w.nameGap, w.name, w.colon);
    var q := p + |GapText(w.before)| + 1;
    var m := q + |CommaFields(fs)|;
    ObjectParts(w, d.text, p);
    ObjectOpens(w.before, CommaFields(fs) + (name + PathText(inner)), d, p, depth, slot);
    FieldsPass(fs, d, q, depth, [], []);
    NameOpens(w.nameGap, w.name, w.colon, d.text, m);
    PathLeads(inner, d, m + |name|, depth + 1, Find(acc, key), r);
    AroundIsDone(inner, d.text, d.toReal, r);
    StillFails(inner, d.text, d.toReal, r);
    MemberFails(d, m, depth, acc, LastName(fs, []), key, m + |name|, Around(inner, d.text, d.toReal, r));
  }

  /** Where the parts of an open object stand. */
  lemma ObjectParts(w: Path, text: Str, p: nat)
    requires w.InObject? && At(text, p, PathText(w))
    ensures var q, name := p + |GapText(w.before)| + 1, NameText(w.nameGap, w.name, w.colon);
      var m := q + |CommaFields(w.fields)|;
      At(text, p, GapText(w.before) + ([0x7b] + (CommaFields(w.fields) + (name + PathText(w.inner))))) &&
      At(text, q, CommaFields(w.fields)) && At(text, m, name) && At(text, m + |name|, PathText(w.inner)) &&
      p + |PathText(w)| == m + |name| + |PathText(w.inner)|
  {
    hide *;
    ObjectPathText(w);
    var before, fields, inner := GapText(w.before), CommaFields(w.fields), PathText(w.inner);
    var name := NameText(w.nameGap, w.name, w.colon);
    var q := p + |before| + 1;
    AtSplit(text, p, before, [0x7b] + (fields + (name + inner)));
    AtSplit(text, q - 1, [0x7b], fields + (name + inner));
    AtSplit(text, q, fields, name + inner);
    AtSplit(text, q + |fields|, name, inner);
  }

  lemma ObjectPathText(w: Path)
    requires w.InObject?
    ensures PathText(w) ==
      GapText(w.before) +
      ([0x7b] + (CommaFields(w.fields) + (NameText(w.nameGap, w.name, w.colon) + PathText(w.inner))))
  {
    hide GapText, CommaFields, NameText;
  }

  // ----- the faults -----

  /** A token that begins no value. */
  lemma ValueFails(d: Document, q: nat, depth: nat, slot: Value)
    requires q <= |d.text| && depth <= STACK_LIMIT
    requires NextToken(d.text, q).kind in
      {EndOfStream, ObjectEnd, ArrayEnd, ArraySeparator, MemberSeparator, Comment, ErrorToken}
    ensures var t := NextToken(d.text, q);
      ReadValue(d, q, depth, slot) == Done(false, slot, t.end, [ErrorInfo(ValueExpected, t, None)])
  {
    hide NextToken;
  }

  /** A string that cannot be decoded. */
  lemma StringFails(d: Document, q: nat, depth: nat, slot: Value, problem: Problem, at: nat)
    requires q <= |d.text| && depth <= STACK_LIMIT && NextToken(d.text, q).kind == StringToken
    requires var t := NextToken(d.text, q); Decode(d.text, t.start + 1, t.end - 1) == Bad(problem, at)
    ensures var t := NextToken(d.text, q);
      ReadValue(d, q, depth, slot) == Done(false, slot, t.end, [ErrorInfo(StringProblem(problem), t, Some(at))])
  {
    hide NextToken, Decode;
  }

  /** A numeral that is no integer of 64 bits, and that the conversion to a double refuses. */
  lemma NumberFails(n: Numeral, d: Document, q: nat, depth: nat, slot: Value)
    requires depth <= STACK_LIMIT && NumeralOk(n) && !IsInteger(n) && d.toReal(NumeralText(n)).None?
    requires At(d.text, q, NumeralText(n)) && Delimited(d.text, q + |NumeralText(n)|)
    ensures var t := Token(Number, q, q + |NumeralText(n)|);
      ReadValue(d, q, depth, slot) == Done(false, slot, t.end, [ErrorInfo(NotANumber, t, None)])
  {
    hide At, NextToken, NumeralText, DecodeInteger, IsInteger, WholeValue, NumeralOk, ReadValue, Delimited;
    NumeralToken(n, d.text, q);
    AtSlice(d.text, q, NumeralText(n));
    NumeralDecodes(n);
    ScalarStep(d, q, depth, slot, NextToken(d.text, q));
  }

  /** Behind an element stands neither a comma nor the end of the array. */
  lemma ElementSeparatorFails(xs: seq<Item>, i: Item, d: Document, q: nat, depth: nat, slot: Value)
    requires ItemsOk(xs, d.toReal) && ItemOk(i, d.toReal) && At(d.text, q, [0x5b] + (CommaItems(xs) + ItemText(i)))
    requires depth + Max(ItemsHeight(xs), Height(i.node)) <= STACK_LIMIT
    requires var r := q + 1 + |CommaItems(xs)| + |ItemText(i)|;
      Delimited(d.text, r) && NextToken(d.text, r).kind != ArraySeparator && NextToken(d.text, r).kind != ArrayEnd
    ensures var t := NextToken(d.text, q + 1 + |CommaItems(xs)| + |ItemText(i)|);
      ReadValue(d, q, depth, slot) ==
        Done(false, Array(ItemsMeaning(xs, d.toReal) + [Meaning(i.node, d.toReal)]), Recover(d.text, t.end, ArrayEnd),
             [ErrorInfo(MissingCommaOrBracket, t, None)])
  {
    hide At, NextToken, ReadValue, ReadElements, ItemsOk, CommaItems, ItemsMeaning, ItemsHeight, Recover, ItemOk;
    hide ItemText, Meaning, Height, Delimited, NodeOk, NodeText, GapText;
    var acc := ItemsMeaning(xs, d.toReal);
    NothingBefore([0x5b] + (CommaItems(xs) + ItemText(i)));
    ArrayOpens([], CommaItems(xs) + ItemText(i), d, q, depth, slot);
    AtSplit(d.text, q + 1, CommaItems(xs), ItemText(i));
    var m := q + 1 + |CommaItems(xs)|;
    if xs == [] {
      NoItems();
      ItemBegins(i, d, m);
    } else {
      FirstOfItems(xs, d, q + 1);
    }
    ItemsPass(xs, d, q + 1, depth, []);
    assert [] + acc == acc;
    LastElement(i, d, m, depth, acc);
  }

  lemma NothingBefore(t: Str)
    ensures GapText([]) + t == t && GapText([]) == [] && GapOk([])
  {
  }

  lemma ItemBegins(i: Item, d: Document, p: nat)
    requires ItemOk(i, d.toReal) && At(d.text, p, ItemText(i)) && Delimited(d.text, p + |ItemText(i)|)
    ensures NextToken(d.text, p).kind != ArrayEnd
  {
    hide At, NextToken, Delimited, NodeText, NodeOk, ItemText, ItemOk;
    SplitItem(i, d, p);
    NodeBegins(i.node, d, p + |GapText(i.before)|);
  }

  lemma LastElement(i: Item, d: Document, p: nat, depth: nat, acc: seq<Value>)
    requires ItemOk(i, d.toReal) && At(d.text, p, ItemText(i)) && Delimited(d.text, p + |ItemText(i)|)
    requires depth + Height(i.node) <= STACK_LIMIT
    requires NextToken(d.text, p + |ItemText(i)|).kind != ArraySeparator
    requires NextToken(d.text, p + |ItemText(i)|).kind != ArrayEnd
    ensures var t := NextToken(d.text, p + |ItemText(i)|);
      ReadElements(d, p, depth, acc) ==
        Done(false, Array(acc + [Meaning(i.node, d.toReal)]), Recover(d.text, t.end, ArrayEnd),
             [ErrorInfo(MissingCommaOrBracket, t, None)])
  {
    hide At, NextToken, Delimited, ReadValue, NodeText, NodeOk, GapText, Meaning, Height, Recover, ItemOk;
    SplitItem(i, d, p);
    var q := p + |GapText(i.before)|;
    NodeReads(i.node, d, q, depth + 1, Null);
    SameToken(d, p, q, depth + 1, Null, acc);
    SeparatorFails(d, p, depth, acc, Meaning(i.node, d.toReal), q + |NodeText(i.node)|);
  }

  lemma SeparatorFails(d: Document, p: nat, depth: nat, acc: seq<Value>, v: Value, q: nat)
    requires p <= q <= |d.text| && ReadValue(d, p, depth + 1, Null) == Done(true, v, q, [])
    requires NextToken(d.text, q).kind != ArraySeparator && NextToken(d.text, q).kind != ArrayEnd
    ensures var t := NextToken(d.text, q);
      ReadElements(d, p, depth, acc) ==
        Done(false, Array(acc + [v]), Recover(d.text, t.end, ArrayEnd), [ErrorInfo(MissingCommaOrBracket, t, None)])
  {
    hide NextToken, ReadValue, Recover;
  }

  /** An object with complete members, as far as its next name. */
  lemma MembersPassed(fs: seq<Field>, d: Document, q: nat, depth: nat, slot: Value)
    requires FieldsOk(fs, d.toReal) && At(d.text, q, [0x7b] + CommaFields(fs)) && depth <= STACK_LIMIT
    requires depth + FieldsHeight(fs) <= STACK_LIMIT
    ensures ReadValue(d, q, depth, slot) ==
      ReadMembers(d, q + 1 + |CommaFields(fs)|, depth, FieldsMeaning([], fs, d.toReal), LastName(fs, []))
  {
    hide At, ReadValue, ReadMembers, FieldsOk, CommaFields, FieldsMeaning, FieldsHeight, LastName;
    NothingBefore([0x7b] + CommaFields(fs));
    ObjectOpens([], CommaFields(fs), d, q, depth, slot);
    FieldsPass(fs, d, q + 1, depth, [], []);
  }

  /**
   * Where a name should stand: a closing brace ends the object if no member precedes it or the last one has the empty
   * name, even behind a comma; every other token but a string is reported.
   */
  lemma NameFails(fs: seq<Field>, d: Document, q: nat, depth: nat, slot: Value)
    requires FieldsOk(fs, d.toReal) && At(d.text, q, [0x7b] + CommaFields(fs)) && depth <= STACK_LIMIT
    requires depth + FieldsHeight(fs) <= STACK_LIMIT
    requires NextToken(d.text, q + 1 + |CommaFields(fs)|).kind != StringToken
    ensures var t, v := NextToken(d.text, q + 1 + |CommaFields(fs)|), Object(FieldsMeaning([], fs, d.toReal));
      ReadValue(d, q, depth, slot) ==
        if t.kind == ObjectEnd && (fs == [] || PiecesBytes(fs[|fs| - 1].name) == []) then Done(true, v, t.end, [])
        else Done(false, v, Recover(d.text, t.end, ObjectEnd), [ErrorInfo(MissingBraceOrName, t, None)])
  {
    hide At, NextToken, ReadValue, CommaFields, FieldsMeaning, FieldsOk, FieldsHeight, Recover, PiecesBytes;
    MembersPassed(fs, d, q, depth, slot);
  }

  /** A name that cannot be decoded. */
  lemma BadNameFails(fs: seq<Field>, d: Document, q: nat, depth: nat, slot: Value, problem: Problem, at: nat)
    requires FieldsOk(fs, d.toReal) && At(d.text, q, [0x7b] + CommaFields(fs)) && depth <= STACK_LIMIT
    requires depth + FieldsHeight(fs) <= STACK_LIMIT
    requires var t := NextToken(d.text, q + 1 + |CommaFields(fs)|);
      t.kind == StringToken && Decode(d.text, t.start + 1, t.end - 1) == Bad(problem, at)
    ensures var t, v := NextToken(d.text, q + 1 + |CommaFields(fs)|), Object(FieldsMeaning([], fs, d.toReal));
      ReadValue(d, q, depth, slot) ==
        Done(false, v, Recover(d.text, t.end, ObjectEnd), [ErrorInfo(StringProblem(problem), t, Some(at))])
  {
    hide At, NextToken, ReadValue, CommaFields, FieldsMeaning, FieldsOk, FieldsHeight, Recover, PiecesBytes, Decode;
    MembersPassed(fs, d, q, depth, slot);
  }

  /** Behind a name stands something else than a colon; a comment is something else. */
  lemma ColonFails(fs: seq<Field>, gap: Gap, name: seq<Piece>, d: Document, q: nat, depth: nat, slot: Value)
    requires FieldsOk(fs, d.toReal) && GapOk(gap) && PiecesOk(name) && depth <= STACK_LIMIT
    requires At(d.text, q, [0x7b] + (CommaFields(fs) + (GapText(gap) + StringText(name))))
    requires depth + FieldsHeight(fs) <= STACK_LIMIT
    requires var r := q + 1 + |CommaFields(fs)| + |GapText(gap)| + |StringText(name)|;
      ReadToken(d.text, r).kind != MemberSeparator
    ensures var t := ReadToken(d.text, q + 1 + |CommaFields(fs)| + |GapText(gap)| + |StringText(name)|);
      ReadValue(d, q, depth, slot) ==
        Done(false, Object(FieldsMeaning([], fs, d.toReal)), Recover(d.text, t.end, ObjectEnd),
             [ErrorInfo(MissingColon, t, None)])
  {
    hide At, NextToken, ReadToken, TokenText, ReadValue, CommaFields, FieldsMeaning, FieldsOk, FieldsHeight, Recover;
    hide GapText, GapOk, StringText, PiecesOk, PiecesBytes, LastName;
    var m := q + 1 + |CommaFields(fs)|;
    NameReached(fs, gap, name, d.text, q);
    MembersPassed(fs, d, q, depth, slot);
    GapSkipped(d.text, m, gap);
    StringTokenReads(name, d.text, m + |GapText(gap)|);
  }

  lemma NameReached(fs: seq<Field>, gap: Gap, name: seq<Piece>, text: Str, q: nat)
    requires At(text, q, [0x7b] + (CommaFields(fs) + (GapText(gap) + StringText(name))))
    ensures var m := q + 1 + |CommaFields(fs)|;
      At(text, q, [0x7b] + CommaFields(fs)) && At(text, m, GapText(gap)) &&
      At(text, m + |GapText(gap)|, StringText(name))
  {
    hide At, CommaFields, GapText, StringText;
    Assoc([0x7b], CommaFields(fs), GapText(gap) + StringText(name));
    AtSplit(text, q, [0x7b] + CommaFields(fs), GapText(gap) + StringText(name));
    AtSplit(text, q + 1 + |CommaFields(fs)|, GapText(gap), StringText(name));
  }

  /** A member whose value is complete; `after` are the blanks behind it. */
  function BareMember(gap: Gap, name: seq<Piece>, colon: Str, value: Gap, n: Node): Str {
    NameText(gap, name, colon) + (GapText(value) + NodeText(n))
  }

  /**
   * Behind a member stands neither a comma nor the end of the object nor a comment. Behind a comment every token but
   * the closing brace is taken for a comma.
   */
  lemma MemberSeparatorFails(fs: seq<Field>, f: Field, d: Document, q: nat, depth: nat, slot: Value)
    requires FieldsOk(fs, d.toReal) && FieldOk(f, d.toReal) && f.after == [] && depth <= STACK_LIMIT
    requires At(d.text, q, [0x7b] + (CommaFields(fs) + BareMember(f.before, f.name, f.colon, f.gap, f.node)))
    requires depth + Max(FieldsHeight(fs), Height(f.node)) <= STACK_LIMIT
    requires Delimited(d.text, q + 1 + |CommaFields(fs)| + |BareMember(f.before, f.name, f.colon, f.gap, f.node)|)
    ensures var r := q + 1 + |CommaFields(fs)| + |BareMember(f.before, f.name, f.colon, f.gap, f.node)|;
      var acc := Upsert(FieldsMeaning([], fs, d.toReal), PiecesBytes(f.name), Meaning(f.node, d.toReal));
      var t, u := ReadToken(d.text, r), NextToken(d.text, r);
      ReadValue(d, q, depth, slot) ==
        if t.kind !in {ObjectEnd, ArraySeparator, Comment} then
          Done(false, Object(acc), Recover(d.text, t.end, ObjectEnd), [ErrorInfo(MissingCommaOrBrace, t, None)])
        else if u.kind == ObjectEnd then Done(true, Object(acc), u.end, [])
        else ReadMembers(d, u.end, depth, acc, PiecesBytes(f.name))
  {
    hide At, NextToken, ReadToken, TokenText, ReadValue, ReadMembers, CommaFields;
    hide FieldsMeaning, FieldsOk, FieldsHeight;
    hide Recover, GapText, GapOk, PiecesOk, PiecesBytes, LastName, NameText, NodeText, NodeOk, AllBlank, Delimited;
    hide Meaning, Height, Upsert, Find;
    var key, name := PiecesBytes(f.name), NameText(f.before, f.name, f.colon);
    var acc := FieldsMeaning([], fs, d.toReal);
    var m := q + 1 + |CommaFields(fs)|;
    MemberReached(fs, f, d.text, q);
    MembersPassed(fs, d, q, depth, slot);
    NameOpens(f.before, f.name, f.colon, d.text, m);
    var v := m + |name|;
    GapSkipped(d.text, v, f.gap);
    var w := v + |GapText(f.gap)|;
    NodeReads(f.node, d, w, depth + 1, Find(acc, key));
    SameToken(d, v, w, depth + 1, Find(acc, key), []);
    MemberTurn(d, m, depth, acc, LastName(fs, []), key, v, Meaning(f.node, d.toReal), w + |NodeText(f.node)|);
  }

  lemma MemberReached(fs: seq<Field>, f: Field, text: Str, q: nat)
    requires At(text, q, [0x7b] + (CommaFields(fs) + BareMember(f.before, f.name, f.colon, f.gap, f.node)))
    ensures var m, name := q + 1 + |CommaFields(fs)|, NameText(f.before, f.name, f.colon);
      At(text, q, [0x7b] + CommaFields(fs)) && At(text, m, name) && At(text, m + |name|, GapText(f.gap)) &&
      At(text, m + |name| + |GapText(f.gap)|, NodeText(f.node))
  {
    hide At, CommaFields, GapText, NameText, NodeText;
    var m, name := q + 1 + |CommaFields(fs)|, NameText(f.before, f.name, f.colon);
    var member := name + (GapText(f.gap) + NodeText(f.node));
    Assoc([0x7b], CommaFields(fs), member);
    AtSplit(text, q, [0x7b] + CommaFields(fs), member);
    AtSplit(text, m, name, GapText(f.gap) + NodeText(f.node));
    AtSplit(text, m + |name|, GapText(f.gap), NodeText(f.node));
  }

  lemma MemberTurn(d: Document, p: nat, depth: nat, acc: seq<Member>, name: Str, key: Str, colon: nat, c: Value, q: nat)
    requires p <= |d.text| && colon <= q <= |d.text|
    requires var t := NextToken(d.text, p);
      t.kind == StringToken && TokenText(d.text, t) == Text(key) &&
      ReadToken(d.text, t.end).kind == MemberSeparator && ReadToken(d.text, t.end).end == colon
    requires ReadValue(d, colon, depth + 1, Find(acc, key)) == Done(true, c, q, [])
    ensures var t, u, acc' := ReadToken(d.text, q), NextToken(d.text, q), Upsert(acc, key, c);
      ReadMembers(d, p, depth, acc, name) ==
        if t.kind !in {ObjectEnd, ArraySeparator, Comment} then
          Done(false, Object(acc'), Recover(d.text, t.end, ObjectEnd), [ErrorInfo(MissingCommaOrBrace, t, None)])
        else if u.kind == ObjectEnd then Done(true, Object(acc'), u.end, [])
        else ReadMembers(d, u.end, depth, acc', key)
  {
    CommentOrNot(d.text, q);
    hide NextToken, ReadToken, TokenText, ReadValue, Find, Upsert, Recover;
  }

  // ----- documents -----

  /**
   * parse on a document that leads to a fault, whatever follows it: it returns false with the one error of the fault,
   * and the value is what had been read, everywhere around it.
   */
  lemma FaultIsReported(w: Path, d: Document, root: Value, r: Outcome)
    requires PathOk(w, d.toReal) && At(d.text, 0, PathText(w)) && PathHeight(w) <= STACK_LIMIT
    requires AtFirst(w) ==> NextToken(d.text, |PathText(w)|).kind != ArrayEnd
    requires ReadValue(d, |PathText(w)|, 1 + PathDepth(w), PathSlot(w, root, d.toReal)) == r && r.Done? && !r.ok
    ensures var v := Around(w, d.text, d.toReal, r);
      v.Done? && v.pos <= |d.text| && v.errors == r.errors &&
      Parse(d, root) == Done(false, v.value, NextToken(d.text, v.pos).end, r.errors)
  {
    hide At, NextToken, ReadValue, PathText, PathOk, Around;
    PathLeads(w, d, 0, 1, root, r);
    AroundIsDone(w, d.text, d.toReal, r);
    StillFails(w, d.text, d.toReal, r);
  }
}
