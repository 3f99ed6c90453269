/** Every document of the grammar is read as what it means, whatever stands between its tokens. */
module JsonDocuments {
  import opened Bytes
  import opened Wrappers
  import opened JsonValue
  import opened JsonNumber
  import opened JsonString
  import opened JsonSyntax
  import opened JsonGrammar
  import opened JsonTokens

  /** The outcome of reading one node with `depth` values on the stack. */
  function NodeOutcome(n: Node, toReal: Str -> Option<Str>, p: nat, depth: nat): Outcome {
    if depth + Height(n) - 1 <= STACK_LIMIT then Done(true, Meaning(n, toReal), p + |NodeText(n)|, [])
    else StackLimitExceeded
  }

  // ----- values without parts -----

  lemma ScalarStep(d: Document, p: nat, depth: nat, slot: Value, t: Token)
    requires p <= |d.text| && NextToken(d.text, p) == t && t.kind != ArrayBegin && t.kind != ObjectBegin
    ensures ReadValue(d, p, depth, slot) ==
      if depth > STACK_LIMIT then StackLimitExceeded else ScalarOutcome(d, t, slot)
  {
    hide NextToken, ScalarOutcome;
  }

  predicate IsScalar(n: Node) {
    n.NullNode? || n.TrueNode? || n.FalseNode? || n.NumberNode? || n.StringNode?
  }

  lemma KeywordNodeReads(n: Node, text: Str, p: nat)
    requires (n.NullNode? || n.TrueNode? || n.FalseNode?) && At(text, p, NodeText(n))
    ensures p < |text|
    ensures var kind := if n.NullNode? then NullToken else if n.TrueNode? then True else False;
      NextToken(text, p) == Token(kind, p, p + |NodeText(n)|)
  {
    hide At, NextToken;
    if n.NullNode? {
      assert NodeText(n) == [0x6e] + ULL;
      KeywordReads(text, p, 0x6e, ULL, NullToken);
    } else if n.TrueNode? {
      assert NodeText(n) == [0x74] + RUE;
      KeywordReads(text, p, 0x74, RUE, True);
    } else {
      assert NodeText(n) == [0x66] + ALSE;
      KeywordReads(text, p, 0x66, ALSE, False);
    }
  }

  lemma NumberNodeReads(m: Numeral, d: Document, p: nat, slot: Value)
    requires NodeOk(NumberNode(m), d.toReal)
    requires At(d.text, p, NumeralText(m)) && Delimited(d.text, p + |NumeralText(m)|)
    ensures NextToken(d.text, p) == Token(Number, p, p + |NumeralText(m)|)
    ensures NumberOutcome(d, NextToken(d.text, p), slot) ==
      Done(true, Meaning(NumberNode(m), d.toReal), p + |NumeralText(m)|, [])
  {
    hide At, NextToken, NumeralText, DecodeInteger, IsInteger, WholeValue;
    NumeralToken(m, d.text, p);
    AtSlice(d.text, p, NumeralText(m));
    NumeralDecodes(m);
  }

  lemma ScalarReads(n: Node, d: Document, p: nat, depth: nat, slot: Value)
    requires IsScalar(n) && NodeOk(n, d.toReal)
    requires At(d.text, p, NodeText(n)) && Delimited(d.text, p + |NodeText(n)|)
    ensures ReadValue(d, p, depth, slot) == NodeOutcome(n, d.toReal, p, depth)
  {
    hide At, Delimited, NextToken, TokenText, NumeralText, StringText, NumberOutcome, ReadValue, IsInteger, PiecesBytes;
    if n.NumberNode? {
      NumberNodeReads(n.n, d, p, slot);
    } else if n.StringNode? {
      StringTokenReads(n.pieces, d.text, p);
    } else {
      KeywordNodeReads(n, d.text, p);
    }
    ScalarStep(d, p, depth, slot, NextToken(d.text, p));
  }

  // ----- the steps of the loops -----

  /** Only the next token matters to readValue, and so to the element loop. */
  lemma SameToken(d: Document, p: nat, q: nat, depth: nat, slot: Value, acc: seq<Value>)
    requires p <= |d.text| && q <= |d.text| && NextToken(d.text, p) == NextToken(d.text, q)
    ensures ReadValue(d, p, depth, slot) == ReadValue(d, q, depth, slot)
    ensures ReadElements(d, p, depth, acc) == ReadElements(d, q, depth, acc)
  {
    hide NextToken, SkipSpaces, ScalarOutcome, ReadMembers, Recover;
    assert ReadValue(d, p, depth + 1, Null) == ReadValue(d, q, depth + 1, Null);
    assert ReadValue(d, p, depth, slot) == ReadValue(d, q, depth, slot);
  }

  lemma ArrayStep(d: Document, p: nat, depth: nat, slot: Value)
    requires p < |d.text| && depth <= STACK_LIMIT && NextToken(d.text, p) == Token(ArrayBegin, p, p + 1)
    ensures var q := SkipSpaces(d.text, p + 1);
      ReadValue(d, p, depth, slot) ==
        if q < |d.text| && d.text[q] == 0x5d then Done(true, Array([]), q + 1, [])
        else ReadElements(d, q, depth, [])
  {
    hide NextToken, SkipSpaces, ReadElements;
  }

  /** An array that does not end at once is read from behind its bracket. */
  lemma ArrayGoesOn(d: Document, p: nat, depth: nat, slot: Value)
    requires p < |d.text| && depth <= STACK_LIMIT && NextToken(d.text, p) == Token(ArrayBegin, p, p + 1)
    requires NextToken(d.text, p + 1).kind != ArrayEnd
    ensures ReadValue(d, p, depth, slot) == ReadElements(d, p + 1, depth, [])
  {
    hide NextToken, SkipSpaces, ReadValue, ReadElements;
    var q := SkipSpaces(d.text, p + 1);
    ArrayStep(d, p, depth, slot);
    SpacesSkipped(d.text, p + 1);
    SameSpaces(d.text, p + 1, q);
    SameToken(d, p + 1, q, depth, slot, []);
    if q < |d.text| && d.text[q] == 0x5d { BracketEnds(d.text, q); }
  }

  lemma BracketEnds(text: Str, q: nat)
    requires q < |text| && text[q] == 0x5d
    ensures NextToken(text, q).kind == ArrayEnd
  {
  }

  /** One turn of the array loop over a value and what follows it. */
  lemma ElementStep(d: Document, p: nat, depth: nat, acc: seq<Value>, c: Value, q: nat)
    requires p <= q < |d.text|
    requires NextToken(d.text, q).kind == ArraySeparator || NextToken(d.text, q).kind == ArrayEnd
    ensures ReadValue(d, p, depth + 1, Null) == Done(true, c, q, []) ==>
      var t := NextToken(d.text, q);
      ReadElements(d, p, depth, acc) ==
        if t.kind == ArrayEnd then Done(true, Array(acc + [c]), t.end, []) else ReadElements(d, t.end, depth, acc + [c])
    ensures ReadValue(d, p, depth + 1, Null).StackLimitExceeded? ==>
      ReadElements(d, p, depth, acc).StackLimitExceeded?
  {
    hide NextToken, ReadValue;
  }

  lemma ObjectStep(d: Document, p: nat, depth: nat, slot: Value)
    requires p < |d.text| && depth <= STACK_LIMIT && NextToken(d.text, p) == Token(ObjectBegin, p, p + 1)
    ensures ReadValue(d, p, depth, slot) == ReadMembers(d, p + 1, depth, [], [])
  {
    hide NextToken, ReadMembers;
  }

  lemma NoMembersRead(d: Document, p: nat, depth: nat)
    requires p <= |d.text| && NextToken(d.text, p).kind == ObjectEnd
    ensures ReadMembers(d, p, depth, [], []) == Done(true, Object([]), NextToken(d.text, p).end, [])
  {
    hide NextToken;
  }

  /** One turn of the object loop, from what its tokens and its value are. */
  lemma MemberStep(d: Document, p: nat, depth: nat, acc: seq<Member>, name: Str, next: Str, colon: nat, c: Value,
                   q: nat)
    requires p <= |d.text| && colon <= q < |d.text|
    requires var t := NextToken(d.text, p);
      t.kind == StringToken && TokenText(d.text, t) == Text(next) &&
      ReadToken(d.text, t.end).kind == MemberSeparator && ReadToken(d.text, t.end).end == colon
    requires NextToken(d.text, q).kind == ArraySeparator || NextToken(d.text, q).kind == ObjectEnd
    ensures ReadValue(d, colon, depth + 1, Find(acc, next)) == Done(true, c, q, []) ==>
      var t := NextToken(d.text, q);
      ReadMembers(d, p, depth, acc, name) ==
        if t.kind == ObjectEnd then Done(true, Object(Upsert(acc, next, c)), t.end, [])
        else ReadMembers(d, t.end, depth, Upsert(acc, next, c), next)
    ensures ReadValue(d, colon, depth + 1, Find(acc, next)).StackLimitExceeded? ==>
      ReadMembers(d, p, depth, acc, name).StackLimitExceeded?
  {
    CommentOrNot(d.text, q);
    hide NextToken, ReadToken, TokenText, ReadValue, Find, Upsert;
  }

  lemma CommentOrNot(text: Str, p: nat)
    requires p <= |text|
    ensures var t := ReadToken(text, p);
      NextToken(text, p) == if t.kind == Comment then NextToken(text, t.end) else t
  {
    hide ReadToken;
  }

  // ----- arrays -----

  /** No value starts with the token that ends an array. */
  lemma NodeBegins(n: Node, d: Document, p: nat)
    requires NodeOk(n, d.toReal) && At(d.text, p, NodeText(n)) && Delimited(d.text, p + |NodeText(n)|)
    ensures NextToken(d.text, p).kind != ArrayEnd
  {
    hide At, Delimited, NextToken;
    if n.NumberNode? {
      NumberNodeReads(n.n, d, p, Null);
    } else if n.StringNode? {
      StringTokenReads(n.pieces, d.text, p);
    } else if n.NullNode? || n.TrueNode? || n.FalseNode? {
      KeywordNodeReads(n, d.text, p);
    } else {
      var c := NodeText(n)[0];
      assert c == 0x5b || c == 0x7b;
      AtIndex(d.text, p, NodeText(n), 0);
      BracketBegins(d.text, p);
    }
  }

  lemma BracketBegins(text: Str, p: nat)
    requires p < |text| && (text[p] == 0x5b || text[p] == 0x7b)
    ensures NextToken(text, p) == Token(Punctuation(text[p]), p, p + 1)
  {
  }

  /** Every node is read whole, or the stack limit is hit: exactly by its height. */
  lemma {:induction false} NodeReads(n: Node, d: Document, p: nat, depth: nat, slot: Value)
    requires NodeOk(n, d.toReal) && At(d.text, p, NodeText(n)) && Delimited(d.text, p + |NodeText(n)|)
    ensures ReadValue(d, p, depth, slot) == NodeOutcome(n, d.toReal, p, depth)
    decreases n, 3
  {
    hide At, NodeText, NodeOk, Meaning, Delimited;
    if depth > STACK_LIMIT {
    } else if n.EmptyArrayNode? {
      EmptyArrayReads(n, d, p, depth, slot);
    } else if n.ArrayNode? {
      ArrayReads(n, d, p, depth, slot);
    } else if n.EmptyObjectNode? {
      EmptyObjectReads(n, d, p, depth, slot);
    } else if n.ObjectNode? {
      ObjectReads(n, d, p, depth, slot);
    } else {
      ScalarReads(n, d, p, depth, slot);
    }
  }

  lemma EmptyArrayReads(n: Node, d: Document, p: nat, depth: nat, slot: Value)
    requires n.EmptyArrayNode? && NodeOk(n, d.toReal) && At(d.text, p, NodeText(n)) && depth <= STACK_LIMIT
    ensures ReadValue(d, p, depth, slot) == NodeOutcome(n, d.toReal, p, depth)
  {
    hide At, NextToken, ReadValue, SkipSpaces;
    var s := n.blanks;
    AtSplit(d.text, p, [0x5b], s + [0x5d]);
    PunctuationReads(d.text, p, 0x5b);
    ArrayStep(d, p, depth, slot);
    AtSplit(d.text, p + 1, s, [0x5d]);
    BlanksSkipped(d.text, p + 1, s);
    PunctuationReads(d.text, p + 1 + |s|, 0x5d);
  }

  lemma {:induction false} ArrayReads(n: Node, d: Document, p: nat, depth: nat, slot: Value)
    requires n.ArrayNode? && NodeOk(n, d.toReal) && At(d.text, p, NodeText(n)) && depth <= STACK_LIMIT
    ensures ReadValue(d, p, depth, slot) == NodeOutcome(n, d.toReal, p, depth)
    decreases n, 2
  {
    hide At, NextToken, ReadValue, ReadElements, ItemOk, ItemsText, ItemsMeaning, ItemsHeight;
    var items := n.items;
    AtSplit(d.text, p, [0x5b], ItemsText(items) + [0x5d]);
    PunctuationReads(d.text, p, 0x5b);
    FirstItem(items, d, p + 1);
    ArrayGoesOn(d, p, depth, slot);
    ItemsRead(items, d, p + 1, depth, []);
    assert [] + ItemsMeaning(items, d.toReal) == ItemsMeaning(items, d.toReal);
  }

  /** What stands between the first item and the rest, and the rest. */
  lemma SplitItems(items: seq<Item>, text: Str, p: nat)
    requires items != [] && At(text, p, ItemsText(items) + [0x5d])
    ensures var c := if |items| == 1 then 0x5d else 0x2c;
      At(text, p, ItemText(items[0])) && At(text, p + |ItemText(items[0])|, [c])
    ensures |items| > 1 ==> At(text, p + |ItemText(items[0])| + 1, ItemsText(items[1..]) + [0x5d])
  {
    hide At, ItemText;
    var first := ItemText(items[0]);
    if |items| == 1 {
      AtSplit(text, p, first, [0x5d]);
    } else {
      var rest := ItemsText(items[1..]) + [0x5d];
      assert ItemsText(items) + [0x5d] == first + ([0x2c] + rest);
      AtSplit(text, p, first, [0x2c] + rest);
      AtSplit(text, p + |first|, [0x2c], rest);
    }
  }

  /** The gaps around an item are passed over; its node ends where a numeral may end. */
  lemma SplitItem(i: Item, d: Document, p: nat)
    requires ItemOk(i, d.toReal) && At(d.text, p, ItemText(i)) && Delimited(d.text, p + |ItemText(i)|)
    ensures var q := p + |GapText(i.before)|;
      var r := q + |NodeText(i.node)|;
      At(d.text, q, NodeText(i.node)) && Delimited(d.text, r) && NodeOk(i.node, d.toReal) &&
      NextToken(d.text, p) == NextToken(d.text, q) && NextToken(d.text, r) == NextToken(d.text, p + |ItemText(i)|)
  {
    hide At, NextToken, Delimited, GapText, NodeText, NodeOk, GapOk;
    AtSplit(d.text, p, GapText(i.before), NodeText(i.node) + GapText(i.after));
    var q := p + |GapText(i.before)|;
    AtSplit(d.text, q, NodeText(i.node), GapText(i.after));
    GapSkipped(d.text, p, i.before);
    GapSkipped(d.text, q + |NodeText(i.node)|, i.after);
    GapDelimits(d.text, q + |NodeText(i.node)|, i.after);
  }

  lemma FirstItem(items: seq<Item>, d: Document, p: nat)
    requires items != [] && ItemsOk(items, d.toReal) && At(d.text, p, ItemsText(items) + [0x5d])
    ensures NextToken(d.text, p).kind != ArrayEnd
  {
    hide At, NextToken, Delimited, ItemText, NodeText, NodeOk;
    SplitItems(items, d.text, p);
    PunctuationReads(d.text, p + |ItemText(items[0])|, if |items| == 1 then 0x5d else 0x2c);
    SplitItem(items[0], d, p);
    NodeBegins(items[0].node, d, p + |GapText(items[0].before)|);
  }

  function ItemsOutcome(items: seq<Item>, toReal: Str -> Option<Str>, p: nat, depth: nat, acc: seq<Value>): Outcome {
    if depth + ItemsHeight(items) <= STACK_LIMIT
    then Done(true, Array(acc + ItemsMeaning(items, toReal)), p + |ItemsText(items)| + 1, [])
    else StackLimitExceeded
  }

  /** One turn of the array loop: a value and the separator. */
  lemma {:induction false} ItemReads(i: Item, d: Document, p: nat, depth: nat, acc: seq<Value>, c: Byte)
    requires ItemOk(i, d.toReal) && At(d.text, p, ItemText(i)) && At(d.text, p + |ItemText(i)|, [c])
    requires c == 0x2c || c == 0x5d
    ensures var q, acc' := p + |ItemText(i)|, acc + [Meaning(i.node, d.toReal)];
      ReadElements(d, p, depth, acc) ==
        if depth + Height(i.node) > STACK_LIMIT then StackLimitExceeded
        else if c == 0x5d then Done(true, Array(acc'), q + 1, [])
        else ReadElements(d, q + 1, depth, acc')
    decreases i, 4
  {
    hide At, NextToken, Delimited, ReadValue, ReadElements, NodeText, NodeOk, GapText, GapOk, Meaning, Height;
    var q := p + |GapText(i.before)|;
    PunctuationReads(d.text, p + |ItemText(i)|, c);
    SplitItem(i, d, p);
    NodeReads(i.node, d, q, depth + 1, Null);
    SameToken(d, p, q, depth, Null, acc);
    ElementStep(d, q, depth, acc, Meaning(i.node, d.toReal), q + |NodeText(i.node)|);
  }

  lemma {:induction false} ItemsRead(items: seq<Item>, d: Document, p: nat, depth: nat, acc: seq<Value>)
    requires items != [] && ItemsOk(items, d.toReal) && At(d.text, p, ItemsText(items) + [0x5d])
    ensures ReadElements(d, p, depth, acc) == ItemsOutcome(items, d.toReal, p, depth, acc)
    decreases items, 1
  {
    hide At, ReadElements, ItemOk, ItemText, ItemsText, Meaning, ItemsMeaning, Height, ItemsHeight;
    var i := items[0];
    SplitItems(items, d.text, p);
    ItemReads(i, d, p, depth, acc, if |items| == 1 then 0x5d else 0x2c);
    if |items| > 1 {
      ItemsRead(items[1..], d, p + |ItemText(i)| + 1, depth, acc + [Meaning(i.node, d.toReal)]);
    }
    JoinItems(items, d.toReal, p, depth, acc);
  }

  lemma JoinItems(items: seq<Item>, toReal: Str -> Option<Str>, p: nat, depth: nat, acc: seq<Value>)
    requires items != []
    ensures var v, n := Meaning(items[0].node, toReal), |ItemText(items[0])|;
      ItemsOutcome(items, toReal, p, depth, acc) ==
        if depth + Height(items[0].node) > STACK_LIMIT then StackLimitExceeded
        else if |items| == 1 then Done(true, Array(acc + [v]), p + n + 1, [])
        else ItemsOutcome(items[1..], toReal, p + n + 1, depth, acc + [v])
  {
    hide ItemText, Meaning, Height;
    var v := Meaning(items[0].node, toReal);
    assert acc + ([v] + ItemsMeaning(items[1..], toReal)) == (acc + [v]) + ItemsMeaning(items[1..], toReal);
    if |items| == 1 {
      assert ItemsMeaning(items, toReal) == [v] && ItemsHeight(items) == Height(items[0].node);
    }
  }

  // ----- objects -----

  lemma EmptyObjectReads(n: Node, d: Document, p: nat, depth: nat, slot: Value)
    requires n.EmptyObjectNode? && NodeOk(n, d.toReal) && At(d.text, p, NodeText(n)) && depth <= STACK_LIMIT
    ensures ReadValue(d, p, depth, slot) == NodeOutcome(n, d.toReal, p, depth)
  {
    hide At, NextToken, ReadValue, ReadMembers, GapText, GapOk;
    var g := GapText(n.gap);
    AtSplit(d.text, p, [0x7b], g + [0x7d]);
    PunctuationReads(d.text, p, 0x7b);
    ObjectStep(d, p, depth, slot);
    AtSplit(d.text, p + 1, g, [0x7d]);
    GapSkipped(d.text, p + 1, n.gap);
    PunctuationReads(d.text, p + 1 + |g|, 0x7d);
    NoMembersRead(d, p + 1, depth);
  }

  lemma {:induction false} ObjectReads(n: Node, d: Document, p: nat, depth: nat, slot: Value)
    requires n.ObjectNode? && NodeOk(n, d.toReal) && At(d.text, p, NodeText(n)) && depth <= STACK_LIMIT
    ensures ReadValue(d, p, depth, slot) == NodeOutcome(n, d.toReal, p, depth)
    decreases n, 2
  {
    hide At, NextToken, ReadValue, ReadMembers, FieldOk, FieldsText, FieldsMeaning, FieldsHeight;
    AtSplit(d.text, p, [0x7b], FieldsText(n.fields) + [0x7d]);
    PunctuationReads(d.text, p, 0x7b);
    ObjectStep(d, p, depth, slot);
    FieldsRead(n.fields, d, p + 1, depth, [], []);
  }

  lemma SplitFields(fields: seq<Field>, text: Str, p: nat)
    requires fields != [] && At(text, p, FieldsText(fields) + [0x7d])
    ensures var c := if |fields| == 1 then 0x7d else 0x2c;
      At(text, p, FieldText(fields[0])) && At(text, p + |FieldText(fields[0])|, [c])
    ensures |fields| > 1 ==> At(text, p + |FieldText(fields[0])| + 1, FieldsText(fields[1..]) + [0x7d])
  {
    hide At, FieldText;
    var first := FieldText(fields[0]);
    if |fields| == 1 {
      AtSplit(text, p, first, [0x7d]);
    } else {
      var rest := FieldsText(fields[1..]) + [0x7d];
      assert FieldsText(fields) + [0x7d] == first + ([0x2c] + rest);
      AtSplit(text, p, first, [0x2c] + rest);
      AtSplit(text, p + |first|, [0x2c], rest);
    }
  }

  /** The value of a member with its gaps, and what stands before it. */
  function ValueItem(f: Field): Item { Item(f.gap, f.node, f.after) }

  function NamePart(f: Field): Str { GapText(f.before) + (StringText(f.name) + (f.colon + [0x3a])) }

  lemma FieldParts(f: Field, text: Str, p: nat)
    requires At(text, p, FieldText(f))
    ensures |FieldText(f)| == |NamePart(f)| + |ItemText(ValueItem(f))|
    ensures At(text, p, GapText(f.before)) && At(text, p + |GapText(f.before)|, StringText(f.name))
    ensures At(text, p + |NamePart(f)| - 1 - |f.colon|, f.colon) && At(text, p + |NamePart(f)| - 1, [0x3a])
    ensures At(text, p + |NamePart(f)|, ItemText(ValueItem(f)))
  {
    hide At, GapText, StringText, NodeText;
    var value := ItemText(ValueItem(f));
    var q := p + |GapText(f.before)|;
    AtSplit(text, p, GapText(f.before), StringText(f.name) + (f.colon + ([0x3a] + value)));
    AtSplit(text, q, StringText(f.name), f.colon + ([0x3a] + value));
    AtSplit(text, q + |StringText(f.name)|, f.colon, [0x3a] + value);
    AtSplit(text, q + |StringText(f.name)| + |f.colon|, [0x3a], value);
  }

  /** The name and its colon. */
  lemma NameReads(f: Field, d: Document, p: nat)
    requires FieldOk(f, d.toReal) && At(d.text, p, FieldText(f))
    ensures var t := NextToken(d.text, p);
      t.kind == StringToken && TokenText(d.text, t) == Text(PiecesBytes(f.name)) &&
      ReadToken(d.text, t.end).kind == MemberSeparator && ReadToken(d.text, t.end).end == p + |NamePart(f)|
  {
    hide At, NextToken, ReadToken, TokenText, GapText, StringText, PiecesOk, PiecesBytes, GapOk, AllBlank, FieldText;
    hide NodeOk, NodeText;
    FieldParts(f, d.text, p);
    var q := p + |GapText(f.before)|;
    GapSkipped(d.text, p, f.before);
    StringTokenReads(f.name, d.text, q);
    BlanksFill(d.text, q + |StringText(f.name)|, f.colon);
    PunctuationReads(d.text, p + |NamePart(f)| - 1, 0x3a);
  }

  /** One turn of the object loop: the name, the colon and the value, up to the separator. */
  lemma {:induction false} FieldReads(f: Field, d: Document, p: nat, depth: nat, acc: seq<Member>, name: Str, c: Byte)
    requires FieldOk(f, d.toReal) && At(d.text, p, FieldText(f)) && At(d.text, p + |FieldText(f)|, [c])
    requires c == 0x2c || c == 0x7d
    ensures var key, q := PiecesBytes(f.name), p + |FieldText(f)|;
      var acc' := Upsert(acc, key, Meaning(f.node, d.toReal));
      ReadMembers(d, p, depth, acc, name) ==
        if depth + Height(f.node) > STACK_LIMIT then StackLimitExceeded
        else if c == 0x7d then Done(true, Object(acc'), q + 1, [])
        else ReadMembers(d, q + 1, depth, acc', key)
    decreases f, 4
  {
    hide At, NextToken, ReadToken, TokenText, Delimited, ReadValue, ReadMembers, NodeText, NodeOk, GapText, StringText;
    hide Find, Upsert, Meaning, Height, PiecesBytes, PiecesOk, GapOk, AllBlank, FieldText, NamePart, ItemText;
    var i, key := ValueItem(f), PiecesBytes(f.name);
    var colon := p + |NamePart(f)|;
    NameReads(f, d, p);
    FieldParts(f, d.text, p);
    PunctuationReads(d.text, p + |FieldText(f)|, c);
    SplitItem(i, d, colon);
    var q := colon + |GapText(i.before)|;
    NodeReads(f.node, d, q, depth + 1, Find(acc, key));
    SameToken(d, colon, q, depth + 1, Find(acc, key), []);
    MemberStep(d, p, depth, acc, name, key, colon, Meaning(f.node, d.toReal), q + |NodeText(f.node)|);
  }

  function FieldsOutcome(
      fields: seq<Field>, toReal: Str -> Option<Str>, p: nat, depth: nat, acc: seq<Member>): Outcome
  {
    if depth + FieldsHeight(fields) <= STACK_LIMIT
    then Done(true, Object(FieldsMeaning(acc, fields, toReal)), p + |FieldsText(fields)| + 1, [])
    else StackLimitExceeded
  }

  lemma {:induction false} FieldsRead(fields: seq<Field>, d: Document, p: nat, depth: nat, acc: seq<Member>, name: Str)
    requires fields != [] && FieldsOk(fields, d.toReal) && At(d.text, p, FieldsText(fields) + [0x7d])
    ensures ReadMembers(d, p, depth, acc, name) == FieldsOutcome(fields, d.toReal, p, depth, acc)
    decreases fields, 1
  {
    hide At, ReadMembers, FieldOk, FieldText, FieldsText, Upsert, Meaning, FieldsMeaning;
    hide Height, FieldsHeight, PiecesBytes;
    var f := fields[0];
    var key := PiecesBytes(f.name);
    SplitFields(fields, d.text, p);
    FieldReads(f, d, p, depth, acc, name, if |fields| == 1 then 0x7d else 0x2c);
    if |fields| > 1 {
      FieldsRead(fields[1..], d, p + |FieldText(f)| + 1, depth, Upsert(acc, key, Meaning(f.node, d.toReal)), key);
    }
    JoinFields(fields, d.toReal, p, depth, acc);
  }

  lemma JoinFields(fields: seq<Field>, toReal: Str -> Option<Str>, p: nat, depth: nat, acc: seq<Member>)
    requires fields != []
    ensures var f, n := fields[0], |FieldText(fields[0])|;
      var acc' := Upsert(acc, PiecesBytes(f.name), Meaning(f.node, toReal));
      FieldsOutcome(fields, toReal, p, depth, acc) ==
        if depth + Height(f.node) > STACK_LIMIT then StackLimitExceeded
        else if |fields| == 1 then Done(true, Object(acc'), p + n + 1, [])
        else FieldsOutcome(fields[1..], toReal, p + n + 1, depth, acc')
  {
    hide FieldText, Meaning, Height, Upsert, PiecesBytes;
    if |fields| == 1 {
      var f := fields[0];
      assert FieldsMeaning(Upsert(acc, PiecesBytes(f.name), Meaning(f.node, toReal)), fields[1..], toReal)
          == Upsert(acc, PiecesBytes(f.name), Meaning(f.node, toReal));
      assert FieldsHeight(fields) == Height(f.node);
    }
  }

  // ----- documents -----

  /**
   * parse on any document of the grammar, with any gap in front of its value and behind it: its meaning, no error, and
   * the cursor at the end; or the exception, exactly for nesting beyond the stack limit.
   */
  lemma DocumentReads(i: Item, toReal: Str -> Option<Str>, root: Value)
    requires ItemOk(i, toReal)
    ensures Parse(Document(ItemText(i), toReal), root) ==
      if Height(i.node) <= 1000 then Done(true, Meaning(i.node, toReal), |ItemText(i)|, [])
      else StackLimitExceeded
  {
    hide ItemText, ItemOk, NodeText, GapText, ReadValue, NextToken, Meaning, Height, At;
    var d := Document(ItemText(i), toReal);
    var q := |GapText(i.before)|;
    WholeText(ItemText(i));
    SplitItem(i, d, 0);
    NodeReads(i.node, d, q, 1, root);
    SameToken(d, 0, q, 1, root, []);
    NothingBehind(d.text);
  }

  lemma WholeText(text: Str)
    ensures At(text, 0, text) && Delimited(text, |text|)
  {
    assert text[0..|text|] == text;
  }

  lemma NothingBehind(text: Str)
    ensures NextToken(text, |text|).end == |text|
  {
  }
}
