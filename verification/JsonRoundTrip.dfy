/** Reading back what FastWriter wrote. */
module JsonRoundTrip {
  import opened Bytes
  import opened Wrappers
  import opened JsonValue
  import opened JsonNumber
  import opened JsonString
  import opened JsonSyntax
  import opened JsonWriter
  import opened JsonGrammar
  import opened JsonTokens
  import opened JsonDocuments
  import opened Digits
  import JsonReader

  // ----- the value that comes back -----

  /** Numbers keep their value and get the reader's tag; strings are sanitized; names are entered one by one. */
  function Canon(v: Value): Value
    decreases v, 0
  {
    match v
    case Int(i) => Tagged(i)
    case UInt(u) => Tagged(u)
    case String(s) => String(Sanitized(s))
    case Array(es) => Array(CanonElems(es))
    case Object(ms) => Object(EnterAll([], ms))
    case _ => v
  }

  function CanonElems(es: seq<Value>): seq<Value>
    decreases es, 1
  {
    if es == [] then [] else [Canon(es[0])] + CanonElems(es[1..])
  }

  function EnterAll(acc: seq<Member>, ms: seq<Member>): seq<Member>
    decreases ms, 1
  {
    if ms == [] then acc
    else EnterAll(Upsert(acc, Sanitized(ms[0].name), Canon(ms[0].value)), ms[1..])
  }

  // ----- the printed text as a document of the grammar -----

  function DecDigits(n: nat): seq<Decimal> {
    if n < 10 then [n] else DecDigits(n / 10) + [n % 10]
  }

  lemma OneMoreDecimal(ds: seq<Decimal>, d: Decimal)
    ensures DecimalText(ds + [d]) == DecimalText(ds) + [ZERO + d]
  {
    assert LOWER[d] == ZERO + d;
  }

  lemma {:induction false} DecIsPositional(n: nat)
    ensures DecDigits(n) != [] && DecimalText(DecDigits(n)) == Dec(n) && Positional(DecDigits(n), 10) == n
  {
    hide DecimalText, Positional, AllDigits;
    if n < 10 {
      NoDigits(10);
      OneMoreDigit([], n, 10);
      OneMoreDecimal([], n);
      NothingDecimal();
      assert [] + [n] == DecDigits(n) && [] + [ZERO + n] == [ZERO + n];
    } else {
      DecIsPositional(n / 10);
      OneMoreDigit(DecDigits(n / 10), n % 10, 10);
      OneMoreDecimal(DecDigits(n / 10), n % 10);
    }
  }

  lemma NothingDecimal()
    ensures DecimalText([]) == []
  {
  }

  function IntNumeral(i: int): Numeral {
    Numeral(i < 0, DecDigits(if i < 0 then -i else i), None, None)
  }

  lemma IntIsNumeral(i: int)
    ensures var n := IntNumeral(i); NumeralOk(n) && NumeralText(n) == IntText(i) && WholeValue(n) == i
  {
    hide DecDigits, DecimalText, Dec, Positional;
    DecIsPositional(if i < 0 then -i else i);
  }

  /** The escape that appendHex writes. */
  function EscapeOf(x: nat): Escape {
    Escape(
      Digit(x / 0x1000 % 16, false), Digit(x / 0x100 % 16, false),
      Digit(x / 0x10 % 16, false), Digit(x % 16, false))
  }

  lemma Hex16IsEscape(x: nat)
    requires x < 0x10000
    ensures EscapeText(EscapeOf(x)) == Hex16(x) && CodeUnit(EscapeOf(x)) == x
  {
    Nibbles(x);
    HexDigitIsLower(x / 0x1000 % 16);
    HexDigitIsLower(x / 0x100 % 16);
    HexDigitIsLower(x / 0x10 % 16);
    HexDigitIsLower(x % 16);
    hide DigitByte, HexDigit;
  }

  function ShortOf(c: Byte): Piece {
    Short(if c == 0x22 then 0 else if c == 0x5c then 1 else if c == 0x08 then 3 else if c == 0x0c then 4
          else if c == 0x0a then 5 else if c == 0x0d then 6 else 7)
  }

  /** The text of one code point without a two-character escape. */
  function UnitPiece(cp: nat): Piece {
    if cp < 0x20 then Escaped(EscapeOf(cp))
    else if cp < 0x80 then Plain(cp)
    else if cp < 0x10000 then Escaped(EscapeOf(cp))
    else Surrogates(EscapeOf(0xd800 + (cp - 0x10000) / 0x400 % 0x400), EscapeOf(0xdc00 + (cp - 0x10000) % 0x400))
  }

  lemma UnitIsPiece(cp: nat)
    requires cp < 0x200000 && !(0xD800 <= cp <= 0xDFFF) && cp != QUOTE && cp != BACKSLASH
    ensures var p := UnitPiece(cp);
      PieceOk(p) && PieceText(p) == EscapeUnit(cp) && PieceBytes(p) == CodePointToUtf8(Reduced(cp))
  {
    hide EscapeText, Hex16, EscapeOf, CodeUnit;
    if cp < 0x10000 {
      Hex16IsEscape(cp);
      if 0x20 <= cp < 0x80 { assert CodePointToUtf8(cp) == [cp]; }
      hide CodePointToUtf8;
    } else {
      var v := cp - 0x10000;
      PairJoins(v);
      Hex16IsEscape(0xd800 + v / 0x400 % 0x400);
      Hex16IsEscape(0xdc00 + v % 0x400);
      hide CodePointToUtf8;
    }
  }

  /** The pieces of the escaped text from `i` on. */
  function Pieces(s: Str, i: nat): seq<Piece>
    requires i <= |s|
    decreases |s| - i
  {
    if i == |s| then []
    else if ShortEscape(s[i]) != 0 then [ShortOf(s[i])] + Pieces(s, i + 1)
    else [UnitPiece(CodePoint(s, i).0)] + Pieces(s, CodePoint(s, i).1 + 1)
  }

  lemma FirstPiece(s: Str, i: nat)
    requires i < |s|
    ensures var (text, bytes, next) := PieceAt(s, i);
      Pieces(s, i) == [Pieces(s, i)[0]] + Pieces(s, next) && PieceOk(Pieces(s, i)[0]) &&
      PieceText(Pieces(s, i)[0]) == text && PieceBytes(Pieces(s, i)[0]) == bytes
  {
    hide CodePoint, EscapeUnit, CodePointToUtf8, Reduced, PieceOk, PieceText, PieceBytes, UnitPiece;
    if ShortEscape(s[i]) == 0 {
      EmittedCodePoint(s, i);
      UnitIsPiece(CodePoint(s, i).0);
    } else {
      ShortIsPiece(s[i]);
    }
  }

  lemma ShortIsPiece(c: Byte)
    requires ShortEscape(c) != 0
    ensures var p := ShortOf(c); PieceOk(p) && PieceText(p) == [BACKSLASH, ShortEscape(c)] && PieceBytes(p) == [c]
  {
  }

  lemma {:induction false} EscapedIsPieces(s: Str, i: nat)
    requires i <= |s|
    ensures var ps := Pieces(s, i);
      PiecesOk(ps) && PiecesText(ps) == EscapeFrom(s, i) && PiecesBytes(ps) == SanitizedFrom(s, i)
    decreases |s| - i
  {
    if i < |s| {
      hide PieceAt, Pieces, EscapeFrom, SanitizedFrom, PieceOk, PieceText, PieceBytes;
      FirstPiece(s, i);
      PieceIsFirst(s, i);
      EscapedIsPieces(s, PieceAt(s, i).2);
      assert Pieces(s, i)[1..] == Pieces(s, PieceAt(s, i).2);
    }
  }

  lemma QuotedIsString(s: Str)
    ensures PiecesOk(Pieces(s, 0)) && StringText(Pieces(s, 0)) == Quoted(s) && PiecesBytes(Pieces(s, 0)) == Sanitized(s)
  {
    hide Pieces, EscapeFrom, SanitizedFrom, PiecesOk, PiecesText, PiecesBytes;
    EscapedIsPieces(s, 0);
    Assoc([QUOTE], EscapeFrom(s, 0), [QUOTE]);
  }

  /** The node FastWriter prints for a value, with nothing between its tokens. */
  ghost function LaidOut(v: Value): Node
    requires Storable(v)
    decreases v, 0
  {
    match v
    case Null => NullNode
    case Boolean(b) => if b then TrueNode else FalseNode
    case Int(i) => NumberNode(IntNumeral(i))
    case UInt(u) => NumberNode(IntNumeral(u))
    case String(s) => StringNode(Pieces(s, 0))
    case Array(es) => if es == [] then EmptyArrayNode([]) else ArrayNode(LaidOutElems(es))
    case Object(ms) => if ms == [] then EmptyObjectNode([]) else ObjectNode(LaidOutMembers(ms))
  }

  ghost function LaidOutElems(es: seq<Value>): (items: seq<Item>)
    requires forall e :: e in es ==> Storable(e)
    ensures |items| == |es|
    decreases es, 1
  {
    if es == [] then [] else [Item([], LaidOut(es[0]), [])] + LaidOutElems(es[1..])
  }

  ghost function LaidOutMembers(ms: seq<Member>): (fields: seq<Field>)
    requires forall m :: m in ms ==> Storable(m.value)
    ensures |fields| == |ms|
    decreases ms, 1
  {
    if ms == [] then []
    else [Field([], Pieces(ms[0].name, 0), [], [], LaidOut(ms[0].value), [])] + LaidOutMembers(ms[1..])
  }

  /** What FastWriter prints is the text of its node, and the node means the canonical value. */
  lemma {:induction false} PrintedIsLaidOut(v: Value, toReal: Str -> Option<Str>)
    requires Storable(v)
    ensures var n := LaidOut(v);
      NodeOk(n, toReal) && NodeText(n) == Printed(v) && Meaning(n, toReal) == Canon(v) && Height(n) == Depth(v)
    decreases v, 1
  {
    match v {
      case Int(i) => IntegerIsLaidOut(i, toReal);
      case UInt(u) => IntegerIsLaidOut(u, toReal);
      case String(s) =>
        hide Pieces, PiecesOk, StringText, Quoted, PiecesBytes, Sanitized;
        QuotedIsString(s);
      case Array(es) => ArrayIsLaidOut(es, toReal);
      case Object(ms) => ObjectIsLaidOut(ms, toReal);
      case _ =>
    }
  }

  lemma IntegerIsLaidOut(i: int, toReal: Str -> Option<Str>)
    requires MIN_LARGEST_INT <= i <= MAX_LARGEST_UINT
    ensures var n := NumberNode(IntNumeral(i));
      NodeOk(n, toReal) && NodeText(n) == IntText(i) && Meaning(n, toReal) == Tagged(i)
  {
    hide NumeralText, NumeralOk, WholeValue, IntText;
    IntIsNumeral(i);
  }

  lemma {:induction false} ArrayIsLaidOut(es: seq<Value>, toReal: Str -> Option<Str>)
    requires Storable(Array(es))
    ensures var n, v := LaidOut(Array(es)), Array(es);
      NodeOk(n, toReal) && NodeText(n) == Printed(v) && Meaning(n, toReal) == Canon(v) && Height(n) == Depth(v)
    decreases Array(es), 0
  {
    hide ItemsText, PrintedElems, ItemsMeaning, CanonElems, ItemsHeight, ElemsDepth, ItemsOk, LaidOutElems;
    ElemsAreLaidOut(es, toReal);
    if es == [] {
      NothingPrinted();
    } else {
      Assoc([OPEN_BRACKET], PrintedElems(es), [CLOSE_BRACKET]);
    }
  }

  lemma NothingPrinted()
    ensures PrintedElems([]) == [] && CanonElems([]) == [] && ElemsDepth([]) == 0
    ensures PrintedMembers([]) == [] && EnterAll([], []) == [] && MembersDepth([]) == 0
  {
  }

  lemma {:induction false} ElemsAreLaidOut(es: seq<Value>, toReal: Str -> Option<Str>)
    requires forall e :: e in es ==> Storable(e)
    ensures var items := LaidOutElems(es);
      ItemsOk(items, toReal) && ItemsText(items) == PrintedElems(es) && ItemsMeaning(items, toReal) == CanonElems(es) &&
      ItemsHeight(items) == ElemsDepth(es)
    decreases es, 0
  {
    if es != [] {
      hide Storable, LaidOut, NodeText, Printed, Meaning, Canon, Height, Depth, NodeOk;
      assert es[0] in es && forall e :: e in es[1..] ==> e in es;
      PrintedIsLaidOut(es[0], toReal);
      ElemsAreLaidOut(es[1..], toReal);
      ItemAlone(LaidOut(es[0]), toReal);
      assert LaidOutElems(es)[1..] == LaidOutElems(es[1..]);
    }
  }

  lemma ItemAlone(n: Node, toReal: Str -> Option<Str>)
    ensures ItemText(Item([], n, [])) == NodeText(n) && ItemOk(Item([], n, []), toReal) == NodeOk(n, toReal)
  {
    hide NodeText, NodeOk;
  }

  lemma {:induction false} ObjectIsLaidOut(ms: seq<Member>, toReal: Str -> Option<Str>)
    requires Storable(Object(ms))
    ensures var n, v := LaidOut(Object(ms)), Object(ms);
      NodeOk(n, toReal) && NodeText(n) == Printed(v) && Meaning(n, toReal) == Canon(v) && Height(n) == Depth(v)
    decreases Object(ms), 0
  {
    hide FieldsText, PrintedMembers, FieldsMeaning, EnterAll, FieldsHeight, MembersDepth, FieldsOk, LaidOutMembers;
    MembersAreLaidOut(ms, [], toReal);
    if ms == [] {
      NothingPrinted();
    } else {
      Assoc([OPEN_BRACE], PrintedMembers(ms), [CLOSE_BRACE]);
    }
  }

  lemma {:induction false} MembersAreLaidOut(ms: seq<Member>, acc: seq<Member>, toReal: Str -> Option<Str>)
    requires forall m :: m in ms ==> Storable(m.value)
    ensures var fields := LaidOutMembers(ms);
      FieldsOk(fields, toReal) && FieldsText(fields) == PrintedMembers(ms) &&
      FieldsMeaning(acc, fields, toReal) == EnterAll(acc, ms) && FieldsHeight(fields) == MembersDepth(ms)
    decreases ms, 0
  {
    if ms != [] {
      hide Storable, LaidOut, NodeText, Printed, Meaning, Canon, Height, Depth;
      hide NodeOk, FieldOk, FieldText, PrintedMember;
      hide Pieces, PiecesOk, PiecesBytes, StringText, Quoted, Sanitized, Upsert;
      var m := ms[0];
      assert m in ms && forall n :: n in ms[1..] ==> n in ms;
      PrintedIsLaidOut(m.value, toReal);
      QuotedIsString(m.name);
      MembersAreLaidOut(ms[1..], Upsert(acc, Sanitized(m.name), Canon(m.value)), toReal);
      FieldAlone(m, LaidOut(m.value), toReal);
      assert LaidOutMembers(ms)[1..] == LaidOutMembers(ms[1..]);
    }
  }

  lemma FieldAlone(m: Member, n: Node, toReal: Str -> Option<Str>)
    requires NodeText(n) == Printed(m.value) && NodeOk(n, toReal)
    ensures var f := Field([], Pieces(m.name, 0), [], [], n, []); FieldText(f) == PrintedMember(m) && FieldOk(f, toReal)
  {
    hide Pieces, NodeText, Printed, NodeOk, Quoted, PiecesOk, StringText;
    QuotedIsString(m.name);
    var f := Field([], Pieces(m.name, 0), [], [], n, []);
    assert GapText([]) == [];
    assert FieldText(f) == [] + (Quoted(m.name) + ([] + ([COLON] + ([] + (Printed(m.value) + [])))));
  }

  // ----- tokens and values -----

  lemma NumeralReads(i: int, text: Str, p: nat)
    requires At(text, p, IntText(i)) && Delimited(text, p + |IntText(i)|)
    ensures p < |text| && NextToken(text, p) == Token(Number, p, p + |IntText(i)|)
  {
    hide IntText, NumeralText, NextToken;
    IntIsNumeral(i);
    NumeralToken(IntNumeral(i), text, p);
  }

  lemma StringReads(s: Str, text: Str, p: nat)
    requires At(text, p, Quoted(s))
    ensures p < |text| && text[p] == QUOTE && |Quoted(s)| >= 2
    ensures ReadToken(text, p) == NextToken(text, p) == Token(StringToken, p, p + |Quoted(s)|)
    ensures TokenText(text, NextToken(text, p)) == Text(Sanitized(s))
  {
    hide NextToken, ReadToken, TokenText, Pieces, PiecesText, EscapeFrom;
    QuotedIsString(s);
    StringTokenReads(Pieces(s, 0), text, p);
  }

  /** The outcome of reading one printed value with `depth` values on the stack. */
  function Expected(v: Value, p: nat, depth: nat): Outcome {
    if depth + Depth(v) - 1 <= STACK_LIMIT then Done(true, Canon(v), p + |Printed(v)|, []) else StackLimitExceeded
  }

  /** A printed value is read whole, or the stack limit is hit: exactly by its depth. */
  lemma ValueReads(v: Value, d: Document, p: nat, depth: nat, slot: Value)
    requires Storable(v) && At(d.text, p, Printed(v)) && Delimited(d.text, p + |Printed(v)|)
    ensures ReadValue(d, p, depth, slot) == Expected(v, p, depth)
  {
    hide ReadValue, NodeText, Printed, Meaning, Canon, Height, Depth, LaidOut, NodeOk;
    PrintedIsLaidOut(v, d.toReal);
    NodeReads(LaidOut(v), d, p, depth, slot);
  }

  function ElementsExpected(es: seq<Value>, p: nat, depth: nat, acc: seq<Value>): Outcome {
    if depth + ElemsDepth(es) <= STACK_LIMIT
    then Done(true, Array(acc + CanonElems(es)), p + |PrintedElems(es)| + 1, [])
    else StackLimitExceeded
  }

  lemma ElementsRead(es: seq<Value>, d: Document, p: nat, depth: nat, acc: seq<Value>)
    requires es != [] && Storable(Array(es)) && At(d.text, p, PrintedElems(es) + [CLOSE_BRACKET])
    ensures ReadElements(d, p, depth, acc) == ElementsExpected(es, p, depth, acc)
  {
    hide ReadElements, PrintedElems, ItemsText, CanonElems, ItemsMeaning, ElemsDepth, ItemsHeight;
    hide ItemsOk, LaidOutElems;
    ElemsAreLaidOut(es, d.toReal);
    ItemsRead(LaidOutElems(es), d, p, depth, acc);
  }

  function MembersExpected(ms: seq<Member>, p: nat, depth: nat, acc: seq<Member>): Outcome {
    if depth + MembersDepth(ms) <= STACK_LIMIT
    then Done(true, Object(EnterAll(acc, ms)), p + |PrintedMembers(ms)| + 1, [])
    else StackLimitExceeded
  }

  lemma MembersRead(ms: seq<Member>, d: Document, p: nat, depth: nat, acc: seq<Member>, name: Str)
    requires ms != [] && (forall m :: m in ms ==> Storable(m.value))
    requires At(d.text, p, PrintedMembers(ms) + [CLOSE_BRACE])
    ensures ReadMembers(d, p, depth, acc, name) == MembersExpected(ms, p, depth, acc)
  {
    hide ReadMembers, PrintedMembers, FieldsText, EnterAll, FieldsMeaning, MembersDepth, FieldsHeight, FieldsOk;
    hide LaidOutMembers;
    MembersAreLaidOut(ms, acc, d.toReal);
    FieldsRead(LaidOutMembers(ms), d, p, depth, acc, name);
  }

  // ----- white space and comments between the tokens -----

  /** The document without its gaps. */
  function Bare(n: Node): Node
    decreases n, 0
  {
    match n
    case EmptyArrayNode(_) => EmptyArrayNode([])
    case ArrayNode(xs) => ArrayNode(BareItems(xs))
    case EmptyObjectNode(_) => EmptyObjectNode([])
    case ObjectNode(fs) => ObjectNode(BareFields(fs))
    case _ => n
  }

  function BareItems(xs: seq<Item>): seq<Item>
    decreases xs, 1
  {
    if xs == [] then [] else [Item([], Bare(xs[0].node), [])] + BareItems(xs[1..])
  }

  function BareFields(fs: seq<Field>): seq<Field>
    decreases fs, 1
  {
    if fs == [] then [] else [Field([], fs[0].name, [], [], Bare(fs[0].node), [])] + BareFields(fs[1..])
  }

  lemma {:induction false} GapsMeanNothing(n: Node, toReal: Str -> Option<Str>)
    ensures Meaning(Bare(n), toReal) == Meaning(n, toReal) && Height(Bare(n)) == Height(n)
    decreases n, 0
  {
    match n {
      case ArrayNode(xs) => GapsOfItems(xs, toReal);
      case ObjectNode(fs) => GapsOfFields(fs, [], toReal);
      case _ =>
    }
  }

  lemma {:induction false} GapsOfItems(xs: seq<Item>, toReal: Str -> Option<Str>)
    ensures ItemsMeaning(BareItems(xs), toReal) == ItemsMeaning(xs, toReal)
    ensures ItemsHeight(BareItems(xs)) == ItemsHeight(xs)
    decreases xs, 1
  {
    if xs != [] {
      hide Bare, Meaning, Height;
      GapsMeanNothing(xs[0].node, toReal);
      GapsOfItems(xs[1..], toReal);
      assert BareItems(xs)[1..] == BareItems(xs[1..]);
    }
  }

  lemma {:induction false} GapsOfFields(fs: seq<Field>, acc: seq<Member>, toReal: Str -> Option<Str>)
    ensures FieldsMeaning(acc, BareFields(fs), toReal) == FieldsMeaning(acc, fs, toReal)
    ensures FieldsHeight(BareFields(fs)) == FieldsHeight(fs)
    decreases fs, 1
  {
    if fs != [] {
      hide Bare, Meaning, Height, Upsert, PiecesBytes;
      var f := fs[0];
      GapsMeanNothing(f.node, toReal);
      GapsOfFields(fs[1..], Upsert(acc, PiecesBytes(f.name), Meaning(f.node, toReal)), toReal);
      assert BareFields(fs)[1..] == BareFields(fs[1..]);
    }
  }

  /**
   * FastWriter's output with white space and comments in any of the places where the grammar has a gap: before and
   * behind every token, but only white space in front of a colon and in an empty array.
   */
  lemma SpacedRoundTrip(v: Value, i: Item, toReal: Str -> Option<Str>, root: Value)
    requires Storable(v) && ItemOk(i, toReal) && Bare(i.node) == LaidOut(v)
    ensures Parse(Document(ItemText(i), toReal), root) ==
      if Depth(v) <= STACK_LIMIT then Done(true, Canon(v), |ItemText(i)|, []) else StackLimitExceeded
  {
    hide ItemText, ItemOk, Parse, Bare, LaidOut, Meaning, Canon, Height, Depth;
    PrintedIsLaidOut(v, toReal);
    GapsMeanNothing(i.node, toReal);
    DocumentReads(i, toReal, root);
  }

  // ----- documents -----

  /**
   * Reader.parse on FastWriter.write's output: the value comes back, canonically tagged, with no
   * error; and the one way to fail is nesting beyond the stack limit.
   */
  lemma DocumentRoundTrip(v: Value, toReal: Str -> Option<Str>, root: Value)
    requires Storable(v)
    ensures var text := Printed(v) + [LF];
      Parse(Document(text, toReal), root) ==
        if Depth(v) <= STACK_LIMIT then Done(true, Canon(v), |text|, []) else StackLimitExceeded
  {
    hide Printed, LaidOut, Parse, Canon, Depth, Storable, NodeText, NodeOk, Bare;
    var i := Item([], LaidOut(v), [Blanks([LF])]);
    PrintedIsLaidOut(v, toReal);
    assert GapText([Blanks([LF])]) == [LF] + GapText([]) == [LF];
    assert ItemText(i) == [] + (Printed(v) + [LF]) == Printed(v) + [LF];
    DocumentReads(i, toReal, root);
  }

  /** Same shape, same strings, numbers equal as integers. */
  ghost predicate Same(v: Value, w: Value)
    decreases v
  {
    match v
    case Int(i) => w == Int(i) || w == UInt(i)
    case UInt(u) => w == Int(u) || w == UInt(u)
    case Array(es) => w.Array? && |w.elems| == |es| && forall k :: 0 <= k < |es| ==> Same(es[k], w.elems[k])
    case Object(ms) => w.Object? && |w.members| == |ms| &&
      forall k :: 0 <= k < |ms| ==> ms[k].name == w.members[k].name && Same(ms[k].value, w.members[k].value)
    case _ => w == v
  }

  /** Every string and every member name is well-formed UTF-8. */
  ghost predicate AllUtf8(v: Value) {
    match v
    case String(s) => ValidUtf8(s)
    case Array(es) => forall e :: e in es ==> AllUtf8(e)
    case Object(ms) => forall m :: m in ms ==> ValidUtf8(m.name) && AllUtf8(m.value)
    case _ => true
  }

  lemma {:induction false} CanonIsSame(v: Value)
    requires Storable(v) && AllUtf8(v)
    ensures Same(v, Canon(v))
    decreases v, 1
  {
    match v
    case String(s) =>
      assert s[0..] == s;
      ValidTextIsKept(s, 0);
    case Array(es) => ElemsAreSame(es);
    case Object(ms) =>
      MembersAreSame(ms);
      EnterInOrder([], ms);
    case _ =>
  }

  lemma {:induction false} ElemsAreSame(es: seq<Value>)
    requires forall e :: e in es ==> Storable(e) && AllUtf8(e)
    ensures |CanonElems(es)| == |es| && forall k :: 0 <= k < |es| ==> Same(es[k], CanonElems(es)[k])
    decreases es, 0
  {
    hide Canon, Same, Storable, AllUtf8;
    if es != [] {
      assert es[0] in es;
      CanonIsSame(es[0]);
      assert forall e :: e in es[1..] ==> e in es;
      ElemsAreSame(es[1..]);
    }
  }

  function CanonMembers(ms: seq<Member>): seq<Member> {
    if ms == [] then [] else [Member(ms[0].name, Canon(ms[0].value))] + CanonMembers(ms[1..])
  }

  lemma {:induction false} MembersAreSame(ms: seq<Member>)
    requires forall m :: m in ms ==> Storable(m.value) && AllUtf8(m.value)
    ensures var r := CanonMembers(ms);
      |r| == |ms| && forall k :: 0 <= k < |ms| ==> ms[k].name == r[k].name && Same(ms[k].value, r[k].value)
    decreases ms, 0
  {
    hide Canon, Same, Storable, AllUtf8;
    if ms != [] {
      assert ms[0] in ms;
      CanonIsSame(ms[0].value);
      assert forall m :: m in ms[1..] ==> m in ms;
      MembersAreSame(ms[1..]);
    }
  }

  /** Names that arrive in order are kept in order. */
  lemma {:induction false} EnterInOrder(acc: seq<Member>, ms: seq<Member>)
    requires forall m :: m in ms ==> ValidUtf8(m.name)
    requires Sorted(ms) && forall a, m :: a in acc && m in ms ==> Less(a.name, m.name)
    ensures EnterAll(acc, ms) == acc + CanonMembers(ms)
    decreases ms
  {
    hide Canon, Less, ValidUtf8, Upsert;
    if ms != [] {
      assert ms[0] in ms;
      EnterFirst(acc, ms);
      StillAbove(acc, ms, Canon(ms[0].value));
      hide Sorted;
      EnterInOrder(acc + [Member(ms[0].name, Canon(ms[0].value))], ms[1..]);
      Assoc(acc, [Member(ms[0].name, Canon(ms[0].value))], CanonMembers(ms[1..]));
    }
  }

  lemma EnterFirst(acc: seq<Member>, ms: seq<Member>)
    requires ms != [] && ValidUtf8(ms[0].name) && forall a :: a in acc ==> Less(a.name, ms[0].name)
    ensures EnterAll(acc, ms) == EnterAll(acc + [Member(ms[0].name, Canon(ms[0].value))], ms[1..])
  {
    hide Canon;
    assert ms[0].name[0..] == ms[0].name;
    ValidTextIsKept(ms[0].name, 0);
    UpsertLast(acc, ms[0].name, Canon(ms[0].value));
  }

  lemma StillAbove(acc: seq<Member>, ms: seq<Member>, v: Value)
    requires ms != [] && Sorted(ms) && forall a, m :: a in acc && m in ms ==> Less(a.name, m.name)
    ensures Sorted(ms[1..]) && forall m :: m in ms[1..] ==> m in ms
    ensures forall a, n :: a in acc + [Member(ms[0].name, v)] && n in ms[1..] ==> Less(a.name, n.name)
  {
    hide Less;
    forall a, n | a in acc + [Member(ms[0].name, v)] && n in ms[1..] ensures Less(a.name, n.name) {
      var k :| 0 <= k < |ms| - 1 && ms[1..][k] == n;
      assert Less(ms[0].name, ms[k + 1].name);
    }
  }

  lemma {:induction false} StorableIsWritable(v: Value)
    requires Storable(v)
    ensures Writable(v)
  {
    match v {
      case Array(es) =>
        forall e | e in es ensures Writable(e) { StorableIsWritable(e); }
      case Object(ms) =>
        forall m | m in ms ensures Writable(m.value) { StorableIsWritable(m.value); }
      case _ =>
    }
  }

  /** Json2String followed by ToJson gives the same value back, for all well-formed text up to 1000 levels. */
  method WriteThenRead(v: Value, toReal: Str -> Option<Str>) returns (accepted: bool, w: Value)
    requires Storable(v) && Depth(v) <= STACK_LIMIT
    ensures accepted && w == Canon(v)
    ensures AllUtf8(v) ==> Same(v, w)
  {
    var writer := new FastWriter();
    StorableIsWritable(v);
    var text := writer.Write(v);
    var reader := new JsonReader.Reader(toReal);
    DocumentRoundTrip(v, toReal, Null);
    var thrown;
    thrown, accepted, w := reader.Parse(text, Null);
    if AllUtf8(v) { CanonIsSame(v); }
  }
}
