/**
 * JSON documents as trees that keep every byte of their text, with any white space and comments between the tokens.
 * Text and meaning are given by literal characters and positions, without the functions the reader is described by.
 */
module JsonGrammar {
  import opened Bytes
  import opened Digits
  import opened Wrappers
  import opened JsonValue
  import JsonString

  // ----- between the tokens -----

  datatype Filler =
    | Blanks(s: Str)
    | BlockComment(body: Str)
    | LineComment(body: Str, end: Str)

  type Gap = seq<Filler>

  predicate AllBlank(s: Str) {
    forall c :: c in s ==> c == 0x20 || c == 0x09 || c == 0x0a || c == 0x0d
  }

  predicate FillerOk(f: Filler) {
    match f
    case Blanks(s) => AllBlank(s)
    case BlockComment(body) => forall k :: 0 <= k < |body| - 1 ==> !(body[k] == 0x2a && body[k + 1] == 0x2f)
    case LineComment(body, end) =>
      0x0a !in body && 0x0d !in body && (end == [0x0a] || end == [0x0d] || end == [0x0d, 0x0a])
  }

  function FillerText(f: Filler): Str {
    match f
    case Blanks(s) => s
    case BlockComment(body) => [0x2f, 0x2a] + (body + [0x2a, 0x2f])
    case LineComment(body, end) => [0x2f, 0x2f] + (body + end)
  }

  predicate GapOk(g: Gap) {
    forall k :: 0 <= k < |g| ==> FillerOk(g[k])
  }

  function GapText(g: Gap): Str {
    if g == [] then [] else FillerText(g[0]) + GapText(g[1..])
  }

  // ----- strings -----

  /** The letter behind the backslash of a two-character escape, and the byte it stands for. */
  const SHORT_LETTERS: Str := [0x22, 0x5c, 0x2f, 0x62, 0x66, 0x6e, 0x72, 0x74]
  const SHORT_BYTES: Str := [0x22, 0x5c, 0x2f, 0x08, 0x0c, 0x0a, 0x0d, 0x09]

  type ShortIndex = k: nat | k < 8

  /** The four digits of a \u escape. */
  datatype Escape = Escape(d3: Digit, d2: Digit, d1: Digit, d0: Digit)

  function EscapeText(e: Escape): Str {
    [0x5c, 0x75, DigitByte(e.d3), DigitByte(e.d2), DigitByte(e.d1), DigitByte(e.d0)]
  }

  function CodeUnit(e: Escape): (n: nat)
    ensures n < 0x10000
  {
    e.d3.n * 0x1000 + e.d2.n * 0x100 + e.d1.n * 0x10 + e.d0.n
  }

  datatype Piece =
    | Plain(c: Byte)
    | Short(k: ShortIndex)
    | Escaped(e: Escape)
    | Surrogates(high: Escape, low: Escape)

  /** The second half of a pair is not checked to be one. */
  predicate PieceOk(p: Piece) {
    match p
    case Plain(c) => c != 0x22 && c != 0x5c
    case Short(_) => true
    case Escaped(e) => !(0xD800 <= CodeUnit(e) <= 0xDBFF)
    case Surrogates(high, _) => 0xD800 <= CodeUnit(high) <= 0xDBFF
  }

  function PieceText(p: Piece): Str {
    match p
    case Plain(c) => [c]
    case Short(k) => [0x5c, SHORT_LETTERS[k]]
    case Escaped(e) => EscapeText(e)
    case Surrogates(high, low) => EscapeText(high) + EscapeText(low)
  }

  function PieceBytes(p: Piece): Str {
    match p
    case Plain(c) => [c]
    case Short(k) => [SHORT_BYTES[k]]
    case Escaped(e) => JsonString.CodePointToUtf8(CodeUnit(e))
    case Surrogates(high, low) =>
      JsonString.CodePointToUtf8(0x10000 + CodeUnit(high) % 0x400 * 0x400 + CodeUnit(low) % 0x400)
  }

  predicate PiecesOk(ps: seq<Piece>) {
    forall k :: 0 <= k < |ps| ==> PieceOk(ps[k])
  }

  function PiecesText(ps: seq<Piece>): Str {
    if ps == [] then [] else PieceText(ps[0]) + PiecesText(ps[1..])
  }

  function PiecesBytes(ps: seq<Piece>): Str {
    if ps == [] then [] else PieceBytes(ps[0]) + PiecesBytes(ps[1..])
  }

  function StringText(ps: seq<Piece>): Str {
    [0x22] + (PiecesText(ps) + [0x22])
  }

  // ----- numbers -----

  datatype Exponent = Exponent(upper: bool, sign: Str, digits: seq<Decimal>)

  datatype Numeral =
    Numeral(minus: bool, whole: seq<Decimal>, fraction: Option<seq<Decimal>>, exponent: Option<Exponent>)

  /** The reader wants no digits behind a sign or a point, and does not mind zeros in front. */
  predicate NumeralOk(n: Numeral) {
    (n.minus || n.whole != []) &&
    (n.exponent.Some? ==> n.exponent.value.digits != [] && n.exponent.value.sign in [[], [0x2b], [0x2d]])
  }

  function DecimalText(ds: seq<Decimal>): (t: Str)
    ensures |t| == |ds|
  {
    seq(|ds|, i requires 0 <= i < |ds| => LOWER[ds[i]])
  }

  function FractionText(n: Numeral): Str {
    if n.fraction.Some? then [0x2e] + DecimalText(n.fraction.value) else []
  }

  function ExponentText(n: Numeral): Str {
    if n.exponent.Some? then
      [if n.exponent.value.upper then 0x45 else 0x65] + (n.exponent.value.sign + DecimalText(n.exponent.value.digits))
    else []
  }

  function NumeralText(n: Numeral): Str {
    (if n.minus then [0x2d] else []) + (DecimalText(n.whole) + (FractionText(n) + ExponentText(n)))
  }

  /** The integer a numeral without fraction and exponent denotes. */
  function WholeValue(n: Numeral): int {
    if n.minus then 0 - Positional(n.whole, 10) else Positional(n.whole, 10)
  }

  /** An integer of 64 bits with or without sign; the reader makes a double of every other number. */
  predicate IsInteger(n: Numeral) {
    n.fraction.None? && n.exponent.None? && -0x8000_0000_0000_0000 <= WholeValue(n) <= 0xffff_ffff_ffff_ffff
  }

  // ----- values -----

  datatype Node =
    | NullNode
    | TrueNode
    | FalseNode
    | NumberNode(n: Numeral)
    | StringNode(pieces: seq<Piece>)
    | EmptyArrayNode(blanks: Str)
    | ArrayNode(items: seq<Item>)
    | EmptyObjectNode(gap: Gap)
    | ObjectNode(fields: seq<Field>)

  datatype Item = Item(before: Gap, node: Node, after: Gap)

  /** Comments may not stand in front of the colon, nor in an empty array. */
  datatype Field = Field(before: Gap, name: seq<Piece>, colon: Str, gap: Gap, node: Node, after: Gap)

  /** What the double conversion yields for the numerals it gets is a parameter, as in JsonSyntax. */
  predicate NodeOk(n: Node, toReal: Str -> Option<Str>)
    decreases n, 0
  {
    match n
    case NumberNode(m) => NumeralOk(m) && (IsInteger(m) || toReal(NumeralText(m)).Some?)
    case StringNode(ps) => PiecesOk(ps)
    case EmptyArrayNode(s) => AllBlank(s)
    case ArrayNode(xs) => xs != [] && ItemsOk(xs, toReal)
    case EmptyObjectNode(g) => GapOk(g)
    case ObjectNode(fs) => fs != [] && FieldsOk(fs, toReal)
    case _ => true
  }

  predicate ItemOk(i: Item, toReal: Str -> Option<Str>)
    decreases i, 1
  {
    GapOk(i.before) && NodeOk(i.node, toReal) && GapOk(i.after)
  }

  predicate ItemsOk(xs: seq<Item>, toReal: Str -> Option<Str>)
    decreases xs, 2
  {
    xs == [] || (ItemOk(xs[0], toReal) && ItemsOk(xs[1..], toReal))
  }

  predicate FieldOk(f: Field, toReal: Str -> Option<Str>)
    decreases f, 1
  {
    GapOk(f.before) && PiecesOk(f.name) && AllBlank(f.colon) && GapOk(f.gap) && NodeOk(f.node, toReal) && GapOk(f.after)
  }

  predicate FieldsOk(fs: seq<Field>, toReal: Str -> Option<Str>)
    decreases fs, 2
  {
    fs == [] || (FieldOk(fs[0], toReal) && FieldsOk(fs[1..], toReal))
  }

  function NodeText(n: Node): Str
    decreases n, 0
  {
    match n
    case NullNode => [0x6e, 0x75, 0x6c, 0x6c]
    case TrueNode => [0x74, 0x72, 0x75, 0x65]
    case FalseNode => [0x66, 0x61, 0x6c, 0x73, 0x65]
    case NumberNode(m) => NumeralText(m)
    case StringNode(ps) => StringText(ps)
    case EmptyArrayNode(s) => [0x5b] + (s + [0x5d])
    case ArrayNode(xs) => [0x5b] + (ItemsText(xs) + [0x5d])
    case EmptyObjectNode(g) => [0x7b] + (GapText(g) + [0x7d])
    case ObjectNode(fs) => [0x7b] + (FieldsText(fs) + [0x7d])
  }

  function ItemText(i: Item): Str
    decreases i, 1
  {
    GapText(i.before) + (NodeText(i.node) + GapText(i.after))
  }

  function ItemsText(xs: seq<Item>): Str
    decreases xs, 2
  {
    if xs == [] then []
    else if |xs| == 1 then ItemText(xs[0])
    else ItemText(xs[0]) + ([0x2c] + ItemsText(xs[1..]))
  }

  function FieldText(f: Field): Str
    decreases f, 1
  {
    GapText(f.before) +
    (StringText(f.name) + (f.colon + ([0x3a] + (GapText(f.gap) + (NodeText(f.node) + GapText(f.after))))))
  }

  function FieldsText(fs: seq<Field>): Str
    decreases fs, 2
  {
    if fs == [] then []
    else if |fs| == 1 then FieldText(fs[0])
    else FieldText(fs[0]) + ([0x2c] + FieldsText(fs[1..]))
  }

  /** The value: integers above 2^31 - 1 are unsigned, and a later member takes the place of one of the same name. */
  function Meaning(n: Node, toReal: Str -> Option<Str>): Value
    decreases n, 0
  {
    match n
    case NullNode => Null
    case TrueNode => Boolean(true)
    case FalseNode => Boolean(false)
    case NumberNode(m) =>
      if IsInteger(m) then (if WholeValue(m) <= 0x7fff_ffff then Int(WholeValue(m)) else UInt(WholeValue(m)))
      else var r := toReal(NumeralText(m)); if r.Some? then Real(r.value) else Null
    case StringNode(ps) => String(PiecesBytes(ps))
    case EmptyArrayNode(_) => Array([])
    case ArrayNode(xs) => Array(ItemsMeaning(xs, toReal))
    case EmptyObjectNode(_) => Object([])
    case ObjectNode(fs) => Object(FieldsMeaning([], fs, toReal))
  }

  function ItemsMeaning(xs: seq<Item>, toReal: Str -> Option<Str>): seq<Value>
    decreases xs, 1
  {
    if xs == [] then [] else [Meaning(xs[0].node, toReal)] + ItemsMeaning(xs[1..], toReal)
  }

  function FieldsMeaning(acc: seq<Member>, fs: seq<Field>, toReal: Str -> Option<Str>): seq<Member>
    decreases fs, 1
  {
    if fs == [] then acc
    else FieldsMeaning(Upsert(acc, PiecesBytes(fs[0].name), Meaning(fs[0].node, toReal)), fs[1..], toReal)
  }

  /** The last member of a name is the one that counts; `k` is its index, or -1 if there is none. */
  lemma {:induction false} LastMemberCounts(
      acc: seq<Member>, fs: seq<Field>, toReal: Str -> Option<Str>, name: Str, k: int)
    requires Sorted(acc) && -1 <= k < |fs| && (k >= 0 ==> PiecesBytes(fs[k].name) == name)
    requires forall j :: k < j < |fs| ==> PiecesBytes(fs[j].name) != name
    ensures Sorted(FieldsMeaning(acc, fs, toReal))
    ensures Find(FieldsMeaning(acc, fs, toReal), name) == if k < 0 then Find(acc, name) else Meaning(fs[k].node, toReal)
    decreases |fs|
  {
    if fs != [] {
      hide Sorted, Find, Upsert, Meaning, PiecesBytes;
      var key, v := PiecesBytes(fs[0].name), Meaning(fs[0].node, toReal);
      UpsertKeepsSorted(acc, key, v);
      FindUpsert(acc, key, v, name);
      LastMemberCounts(Upsert(acc, key, v), fs[1..], toReal, name, if k <= 0 then -1 else k - 1);
    }
  }

  /** How many values are open at once while the node is read. */
  function Height(n: Node): nat
    decreases n, 0
  {
    match n
    case ArrayNode(xs) => 1 + ItemsHeight(xs)
    case ObjectNode(fs) => 1 + FieldsHeight(fs)
    case _ => 1
  }

  function ItemsHeight(xs: seq<Item>): nat
    decreases xs, 1
  {
    if xs == [] then 0 else Max(Height(xs[0].node), ItemsHeight(xs[1..]))
  }

  function FieldsHeight(fs: seq<Field>): nat
    decreases fs, 1
  {
    if fs == [] then 0 else Max(Height(fs[0].node), FieldsHeight(fs[1..]))
  }

  function Max(a: nat, b: nat): nat { if a > b then a else b }
}
