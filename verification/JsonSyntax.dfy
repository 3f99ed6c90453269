/** What the default Json::Reader computes, as functions of the document and a position in it. */
module JsonSyntax {
  import opened Bytes
  import opened Wrappers
  import opened JsonValue
  import opened JsonNumber
  import opened JsonString

  const STACK_LIMIT := 1000   // stackLimit_g

  datatype TokenKind =
    | EndOfStream | ObjectBegin | ObjectEnd | ArrayBegin | ArrayEnd | StringToken | Number
    | True | False | NullToken | ArraySeparator | MemberSeparator | Comment | ErrorToken

  /** Token start_, end_ and type_; readToken leaves the cursor at `end`. */
  datatype Token = Token(kind: TokenKind, start: nat, end: nat)

  datatype Message =
    | ValueExpected | NotANumber | StringProblem(problem: Problem)
    | MissingColon | MissingCommaOrBrace | MissingBraceOrName | MissingCommaOrBracket

  datatype ErrorInfo = ErrorInfo(message: Message, token: Token, extra: Option<nat>)

  /** A document, with the double that decodeDouble's stream makes of a numeral, if any, left abstract. */
  datatype Document = Document(text: Str, toReal: Str -> Option<Str>)

  // ----- tokens -----

  predicate IsSpace(c: Byte) { c == 0x20 || c == 0x09 || c == 0x0d || c == 0x0a }

  function SkipSpaces(text: Str, p: nat): (q: nat)
    requires p <= |text|
    ensures p <= q <= |text|
    decreases |text| - p
  {
    if p < |text| && IsSpace(text[p]) then SkipSpaces(text, p + 1) else p
  }

  function DigitsEnd(text: Str, p: nat): (q: nat)
    requires p <= |text|
    ensures p <= q <= |text|
    decreases |text| - p
  {
    if p < |text| && IsDigit(text[p]) then DigitsEnd(text, p + 1) else p
  }

  function FractionEnd(text: Str, p: nat): (q: nat)
    requires p <= |text|
    ensures p <= q <= |text|
  {
    if p < |text| && text[p] == 0x2e then DigitsEnd(text, p + 1) else p
  }

  function ExponentEnd(text: Str, p: nat): (q: nat)
    requires p <= |text|
    ensures p <= q <= |text|
  {
    if p < |text| && (text[p] == 0x65 || text[p] == 0x45) then
      if p + 1 < |text| && (text[p + 1] == 0x2b || text[p + 1] == 0x2d) then DigitsEnd(text, p + 2)
      else DigitsEnd(text, p + 1)
    else p
  }

  /** readNumber, from just after the first character. */
  function NumberEnd(text: Str, p: nat): (q: nat)
    requires p <= |text|
    ensures p <= q <= |text|
  {
    ExponentEnd(text, FractionEnd(text, DigitsEnd(text, p)))
  }

  /** readCStyleComment's loop: stops at the last byte, or before the slash of the closing pair. */
  function StarSlash(text: Str, p: nat): (q: nat)
    requires p <= |text|
    ensures p <= q <= |text|
    decreases |text| - p
  {
    if p + 1 < |text| then
      if text[p] == 0x2a && text[p + 1] == SLASH then p + 1 else StarSlash(text, p + 1)
    else p
  }

  /** readCppStyleComment */
  function LineEnd(text: Str, p: nat): (q: nat)
    requires p <= |text|
    ensures p <= q <= |text|
    decreases |text| - p
  {
    if p == |text| then p
    else if text[p] == 0x0a then p + 1
    else if text[p] == 0x0d then (if p + 1 < |text| && text[p + 1] == 0x0a then p + 2 else p + 1)
    else LineEnd(text, p + 1)
  }

  /** readComment, from just after the first slash. */
  function CommentEnd(text: Str, p: nat): (r: (bool, nat))
    requires p <= |text|
    ensures p <= r.1 <= |text|
  {
    if p == |text| then (false, p)
    else if text[p] == 0x2a then
      var q := StarSlash(text, p + 1);
      if q < |text| then (text[q] == SLASH, q + 1) else (false, q)
    else if text[p] == SLASH then (true, LineEnd(text, p + 1))
    else (false, p + 1)
  }

  const RUE: Str := [0x72, 0x75, 0x65]
  const ALSE: Str := [0x61, 0x6c, 0x73, 0x65]
  const ULL: Str := [0x75, 0x6c, 0x6c]

  function Keyword(text: Str, p: nat, rest: Str, kind: TokenKind): (r: (TokenKind, nat))
    requires p <= |text|
    ensures p <= r.1 <= |text|
    ensures kind != EndOfStream ==> r.0 != EndOfStream
  {
    if At(text, p, rest) then (kind, p + |rest|) else (ErrorToken, p)
  }

  /** The kind and end of the token whose first character `c` stands just before `p`. */
  function TokenFrom(text: Str, c: Byte, p: nat): (r: (TokenKind, nat))
    requires p <= |text|
    ensures p <= r.1 <= |text|
    ensures r.0 == StringToken ==> p < r.1
  {
    match c
    case 0x7b => (ObjectBegin, p)
    case 0x7d => (ObjectEnd, p)
    case 0x5b => (ArrayBegin, p)
    case 0x5d => (ArrayEnd, p)
    case 0x22 => var (ok, q) := StringEnd(text, p); (if ok then StringToken else ErrorToken, q)
    case 0x2f => var (ok, q) := CommentEnd(text, p); (if ok then Comment else ErrorToken, q)
    case 0x74 => Keyword(text, p, RUE, True)
    case 0x66 => Keyword(text, p, ALSE, False)
    case 0x6e => Keyword(text, p, ULL, NullToken)
    case 0x2c => (ArraySeparator, p)
    case 0x3a => (MemberSeparator, p)
    case 0 => (EndOfStream, p)
    case _ => if IsDigit(c) || c == MINUS then (Number, NumberEnd(text, p)) else (ErrorToken, p)
  }

  /** readToken. A NUL byte and the end of the document both read as EndOfStream. */
  function ReadToken(text: Str, p: nat): (t: Token)
    requires p <= |text|
    ensures p <= t.start <= t.end <= |text|
    ensures t.kind != EndOfStream ==> p < t.end && t.start < t.end
    ensures t.kind == StringToken ==> t.start + 2 <= t.end
  {
    var start := SkipSpaces(text, p);
    if start == |text| then Token(EndOfStream, start, start)
    else var (kind, end) := TokenFrom(text, text[start], start + 1); Token(kind, start, end)
  }

  /** skipCommentTokens, and every other loop of the reader that reads on past comments. */
  function NextToken(text: Str, p: nat): (t: Token)
    requires p <= |text|
    ensures p <= t.start <= t.end <= |text| && t.kind != Comment
    ensures t.kind != EndOfStream ==> p < t.end && t.start < t.end
    ensures t.kind == StringToken ==> t.start + 2 <= t.end
    decreases |text| - p
  {
    var t := ReadToken(text, p);
    if t.kind == Comment then NextToken(text, t.end) else t
  }

  /** recoverFromError: where the cursor stands after the wanted token or the end of the stream. */
  function Recover(text: Str, p: nat, until: TokenKind): (q: nat)
    requires p <= |text|
    ensures p <= q <= |text|
    decreases |text| - p
  {
    var t := ReadToken(text, p);
    if t.kind == until || t.kind == EndOfStream then t.end else Recover(text, t.end, until)
  }

  // ----- values -----

  /** What reading a value does: `value` is left in the slot, the cursor at `pos`, `errors` are added. */
  datatype Outcome = StackLimitExceeded | Done(ok: bool, value: Value, pos: nat, errors: seq<ErrorInfo>)

  /** decodeString on a token. */
  function TokenText(text: Str, t: Token): Decoding
    requires t.start + 2 <= t.end <= |text|
  {
    Decode(text, t.start + 1, t.end - 1)
  }

  function StringError(t: Token, d: Decoding): ErrorInfo
    requires d.Bad?
  {
    ErrorInfo(StringProblem(d.problem), t, Some(d.where))
  }

  function Scalar(t: Token, v: Value): Outcome { Done(true, v, t.end, []) }

  function Rejected(v: Value, pos: nat, e: ErrorInfo): Outcome { Done(false, v, pos, [e]) }

  /** decodeNumber on a token: an integer, else whatever the double conversion says. */
  function NumberOutcome(d: Document, t: Token, slot: Value): Outcome
    requires t.start <= t.end <= |d.text|
  {
    var numeral := d.text[t.start..t.end];
    match DecodeInteger(numeral)
    case Integer(n) => Scalar(t, Tagged(n))
    case HandOver =>
      match d.toReal(numeral)
      case Some(text) => Scalar(t, Real(text))
      case None => Rejected(slot, t.end, ErrorInfo(NotANumber, t, None))
  }

  /** readValue on every token that does not open an array or an object. */
  function ScalarOutcome(d: Document, t: Token, slot: Value): Outcome
    requires t.start <= t.end <= |d.text| && (t.kind == StringToken ==> t.start + 2 <= t.end)
  {
    match t.kind
    case Number => NumberOutcome(d, t, slot)
    case StringToken =>
      var s := TokenText(d.text, t);
      if s.Text? then Scalar(t, String(s.s)) else Rejected(slot, t.end, StringError(t, s))
    case True => Scalar(t, Boolean(true))
    case False => Scalar(t, Boolean(false))
    case NullToken => Scalar(t, Null)
    case _ => Rejected(slot, t.end, ErrorInfo(ValueExpected, t, None))
  }

  /** readValue with `depth` values on the node stack and `slot` as the current value. */
  function ReadValue(d: Document, p: nat, depth: nat, slot: Value): (r: Outcome)
    requires p <= |d.text|
    ensures r.Done? ==> p <= r.pos <= |d.text|
    decreases |d.text| - p, 0
  {
    if depth > STACK_LIMIT then StackLimitExceeded else
    var t := NextToken(d.text, p);
    if t.kind == ObjectBegin then ReadMembers(d, t.end, depth, [], [])
    else if t.kind == ArrayBegin then
      var q := SkipSpaces(d.text, t.end);
      if q < |d.text| && d.text[q] == 0x5d then Done(true, Array([]), q + 1, []) else ReadElements(d, q, depth, [])
    else ScalarOutcome(d, t, slot)
  }

  /** readArray's loop, with the elements read so far. */
  function ReadElements(d: Document, p: nat, depth: nat, elems: seq<Value>): (r: Outcome)
    requires p <= |d.text|
    ensures r.Done? ==> p <= r.pos <= |d.text|
    decreases |d.text| - p, 1
  {
    var v := ReadValue(d, p, depth + 1, Null);
    if v.StackLimitExceeded? then v else
    var elems' := elems + [v.value];
    if !v.ok then Done(false, Array(elems'), Recover(d.text, v.pos, ArrayEnd), v.errors) else
    var t := NextToken(d.text, v.pos);
    if t.kind == ArrayEnd then Done(true, Array(elems'), t.end, [])
    else if t.kind == ArraySeparator then ReadElements(d, t.end, depth, elems')
    else Rejected(Array(elems'), Recover(d.text, t.end, ArrayEnd), ErrorInfo(MissingCommaOrBracket, t, None))
  }

  /** readObject's loop, with the members read so far and the last name (the variable outlives a turn). */
  function ReadMembers(d: Document, p: nat, depth: nat, members: seq<Member>, name: Str): (r: Outcome)
    requires p <= |d.text|
    ensures r.Done? ==> p <= r.pos <= |d.text|
    decreases |d.text| - p, 1
  {
    var t := NextToken(d.text, p);
    if t.kind == ObjectEnd && name == [] then Done(true, Object(members), t.end, [])
    else if t.kind != StringToken then
      Rejected(Object(members), Recover(d.text, t.end, ObjectEnd), ErrorInfo(MissingBraceOrName, t, None))
    else
    var s := TokenText(d.text, t);
    if s.Bad? then Rejected(Object(members), Recover(d.text, t.end, ObjectEnd), StringError(t, s)) else
    var colon := ReadToken(d.text, t.end);
    if colon.kind != MemberSeparator then
      Rejected(Object(members), Recover(d.text, colon.end, ObjectEnd), ErrorInfo(MissingColon, colon, None)) else
    var v := ReadValue(d, colon.end, depth + 1, Find(members, s.s));
    if v.StackLimitExceeded? then v else
    var members' := Upsert(members, s.s, v.value);
    if !v.ok then Done(false, Object(members'), Recover(d.text, v.pos, ObjectEnd), v.errors) else
    var comma := ReadToken(d.text, v.pos);
    if comma.kind != ObjectEnd && comma.kind != ArraySeparator && comma.kind != Comment then
      Rejected(Object(members'), Recover(d.text, comma.end, ObjectEnd),
               ErrorInfo(MissingCommaOrBrace, comma, None)) else
    var last := if comma.kind == Comment then NextToken(d.text, comma.end) else comma;
    if last.kind == ObjectEnd then Done(true, Object(members'), last.end, [])
    else ReadMembers(d, last.end, depth, members', s.s)
  }

  /** parse: the root value, then one more token, which is ignored. */
  function Parse(d: Document, root: Value): (r: Outcome)
    ensures r.Done? ==> r.pos <= |d.text|
  {
    var r := ReadValue(d, 0, 1, root);
    if r.Done? then Done(r.ok, r.value, NextToken(d.text, r.pos).end, r.errors) else r
  }

  // ----- totality -----

  /** A failure is always reported, and only a failure is; duplicates aside, objects stay ordered. */
  ghost predicate Consistent(r: Outcome) {
    r.Done? ==> (r.ok <==> r.errors == [])
  }

  lemma ScalarErrors(d: Document, t: Token, slot: Value)
    requires t.start <= t.end <= |d.text| && (t.kind == StringToken ==> t.start + 2 <= t.end)
    ensures Consistent(ScalarOutcome(d, t, slot))
  {
    hide TokenText;
  }

  lemma {:induction false} ValueErrors(d: Document, p: nat, depth: nat, slot: Value)
    requires p <= |d.text|
    ensures Consistent(ReadValue(d, p, depth, slot))
    decreases |d.text| - p, 0
  {
    if depth <= STACK_LIMIT {
      hide NextToken, SkipSpaces, ReadMembers, ReadElements, ScalarOutcome;
      var t := NextToken(d.text, p);
      ScalarErrors(d, t, slot);
      if t.kind == ObjectBegin {
        MembersErrors(d, t.end, depth, [], []);
      } else if t.kind == ArrayBegin {
        ElementsErrors(d, SkipSpaces(d.text, t.end), depth, []);
      }
    }
  }

  lemma {:induction false} ElementsErrors(d: Document, p: nat, depth: nat, elems: seq<Value>)
    requires p <= |d.text|
    ensures Consistent(ReadElements(d, p, depth, elems))
    decreases |d.text| - p, 1
  {
    ValueErrors(d, p, depth + 1, Null);
    var v := ReadValue(d, p, depth + 1, Null);
    if v.Done? && v.ok {
      var t := NextToken(d.text, v.pos);
      if t.kind == ArraySeparator {
        ElementsErrors(d, t.end, depth, elems + [v.value]);
      }
    }
  }

  lemma {:induction false} MembersErrors(d: Document, p: nat, depth: nat, members: seq<Member>, name: Str)
    requires p <= |d.text|
    ensures Consistent(ReadMembers(d, p, depth, members, name))
    decreases |d.text| - p, 1
  {
    hide NextToken, ReadToken, TokenText, Recover, Find, Upsert, ReadValue;
    var t := NextToken(d.text, p);
    if t.kind == StringToken {
      var s := TokenText(d.text, t);
      var colon := ReadToken(d.text, t.end);
      if s.Text? && colon.kind == MemberSeparator {
        ValueErrors(d, colon.end, depth + 1, Find(members, s.s));
        var v := ReadValue(d, colon.end, depth + 1, Find(members, s.s));
        if v.Done? && v.ok {
          var comma := ReadToken(d.text, v.pos);
          var last := if comma.kind == Comment then NextToken(d.text, comma.end) else comma;
          if comma.kind == ArraySeparator || comma.kind == Comment {
            MembersErrors(d, last.end, depth, Upsert(members, s.s, v.value), s.s);
          }
        }
      }
    }
  }

  // ----- nesting -----

  /** The brackets still open, the innermost first. */
  datatype Open = Outermost | Within(bracket: TokenKind, outer: Open)

  function Level(o: Open): nat {
    if o.Within? then 1 + Level(o.outer) else 0
  }

  /** A bracket opens a level, and closes the innermost one if it matches it; other tokens change nothing. */
  function Bracketed(kind: TokenKind, o: Open): Open {
    if kind == ArrayBegin || kind == ObjectBegin then Within(kind, o)
    else if o.Within? && o.bracket == ArrayBegin && kind == ArrayEnd then o.outer
    else if o.Within? && o.bracket == ObjectBegin && kind == ObjectEnd then o.outer
    else o
  }

  /** The innermost bracket is closed without a value being looked for; readArray does not look behind comments. */
  predicate ClosesHere(text: Str, p: nat, o: Open)
    requires p <= |text|
  {
    o.Within? &&
    if o.bracket == ArrayBegin then ReadToken(text, p).kind == ArrayEnd else NextToken(text, p).kind == ObjectEnd
  }

  /** How many brackets are open around the next token; a bracket that it closes does not count. */
  function LevelAt(text: Str, p: nat, o: Open): nat
    requires p <= |text|
  {
    if ClosesHere(text, p, o) then 0 else Level(o)
  }

  /** How deep the brackets nest around the tokens from `p` on, inside those of `o`. */
  function Nesting(text: Str, p: nat, o: Open): (n: nat)
    requires p <= |text|
    ensures n >= LevelAt(text, p, o)
    decreases |text| - p
  {
    var t, here := NextToken(text, p), LevelAt(text, p, o);
    if t.end == p then here
    else var n := Nesting(text, t.end, Bracketed(t.kind, o)); if n < here then here else n
  }

  lemma NestingBehind(text: Str, p: nat, o: Open)
    requires p <= |text|
    ensures var t := NextToken(text, p); Nesting(text, t.end, Bracketed(t.kind, o)) <= Nesting(text, p, o)
  {
    hide NextToken;
    var t := NextToken(text, p);
    if t.end == p {
      assert Bracketed(t.kind, o) == o;
    }
  }

  /** The open brackets of `a` are among those of `b`, in the same order. */
  predicate Among(a: Open, b: Open) {
    a.Outermost? || (b.Within? && if a.bracket == b.bracket then Among(a.outer, b.outer) else Among(a, b.outer))
  }

  lemma {:induction false} AmongSame(o: Open)
    ensures Among(o, o)
  {
    if o.Within? { AmongSame(o.outer); }
  }

  lemma {:induction false} AmongMore(a: Open, b: Open, bracket: TokenKind)
    requires Among(a, b)
    ensures Among(a, Within(bracket, b))
    decreases b, 1
  {
    if a.Within? && a.bracket == bracket { AmongFewer(a, b); }
  }

  lemma {:induction false} AmongFewer(a: Open, b: Open)
    requires a.Within? && Among(a, b)
    ensures Among(a.outer, b)
    decreases b, 0
  {
    if a.bracket == b.bracket {
      AmongMore(a.outer, b.outer, b.bracket);
    } else {
      AmongFewer(a, b.outer);
      AmongMore(a.outer, b.outer, b.bracket);
    }
  }

  lemma {:induction false} AmongLevel(a: Open, b: Open)
    requires Among(a, b)
    ensures Level(a) <= Level(b)
  {
    if a.Within? {
      if a.bracket == b.bracket { AmongLevel(a.outer, b.outer); } else { AmongLevel(a, b.outer); }
    }
  }

  lemma AmongBracketed(a: Open, b: Open, kind: TokenKind)
    requires Among(a, b)
    ensures Among(Bracketed(kind, a), Bracketed(kind, b))
  {
    if Bracketed(kind, a) != a && kind != ArrayBegin && kind != ObjectBegin {
      if a.bracket != b.bracket { AmongFewer(a, b); }
    }
  }

  /** A bracket of `b` that `a` does not have is all that can make `a` count more. */
  lemma CountsNoMore(text: Str, p: nat, a: Open, b: Open, n: nat)
    requires p <= |text| && Among(a, b) && Level(b) <= n && LevelAt(text, p, b) < n
    ensures LevelAt(text, p, a) < n
    ensures Level(Bracketed(NextToken(text, p).kind, b)) <= n
  {
    hide NextToken, ReadToken;
    AmongLevel(a, b);
    if ClosesHere(text, p, b) {
      ClosingToken(text, p, b);
      if a.Within? && a.bracket != b.bracket {
        AmongLevel(a, b.outer);
      }
    }
  }

  lemma ClosingToken(text: Str, p: nat, o: Open)
    requires p <= |text| && ClosesHere(text, p, o)
    ensures NextToken(text, p).kind == if o.bracket == ArrayBegin then ArrayEnd else ObjectEnd
  {
    hide ReadToken;
  }

  /** Brackets that are open all along only add to the nesting, within any bound. */
  lemma {:induction false} NestingGrows(text: Str, p: nat, a: Open, b: Open, n: nat)
    requires p <= |text| && Among(a, b) && Level(b) <= n && Nesting(text, p, b) < n
    ensures Nesting(text, p, a) < n
    decreases |text| - p
  {
    hide NextToken, Among, Bracketed, LevelAt;
    var t := NextToken(text, p);
    CountsNoMore(text, p, a, b, n);
    if t.end != p {
      AmongBracketed(a, b, t.kind);
      NestingGrows(text, t.end, Bracketed(t.kind, a), Bracketed(t.kind, b), n);
    }
  }

  lemma {:induction false} SpacesSkipped(text: Str, p: nat)
    requires p <= |text|
    ensures var q := SkipSpaces(text, p); SkipSpaces(text, q) == q
    decreases |text| - p
  {
    if p < |text| && IsSpace(text[p]) { SpacesSkipped(text, p + 1); }
  }

  /** Skipping spaces changes nothing about the tokens to come. */
  lemma NestingBehindSpaces(text: Str, p: nat, o: Open)
    requires p <= |text|
    ensures Nesting(text, SkipSpaces(text, p), o) <= Nesting(text, p, o)
  {
    hide TokenFrom, Bracketed;
    var q := SkipSpaces(text, p);
    SpacesSkipped(text, p);
    assert ReadToken(text, q) == ReadToken(text, p);
    assert NextToken(text, q) == NextToken(text, p);
  }

  /** The tokens that are values on their own change nothing about the open brackets. */
  lemma ScalarIsDone(d: Document, t: Token, slot: Value, o: Open)
    requires t.start <= t.end <= |d.text| && (t.kind == StringToken ==> t.start + 2 <= t.end)
    ensures var r := ScalarOutcome(d, t, slot); r.Done? && (r.ok ==> r.pos == t.end && Bracketed(t.kind, o) == o)
  {
    hide TokenText;
  }

  /**
   * What reading a value, the rest of an array or the rest of an object keeps to: it returns, and a success leaves
   * less nesting than `n` to come, inside the brackets `o` around it.
   */
  ghost predicate Settled(d: Document, r: Outcome, o: Open, n: nat) {
    r.Done? && (r.ok ==> r.pos <= |d.text| && Nesting(d.text, r.pos, o) < n)
  }

  /** The exception needs nesting: nothing that nests less deep than a bound up to the stack limit exceeds it. */
  lemma {:induction false} ValueWithinLimit(d: Document, p: nat, depth: nat, slot: Value, o: Open, n: nat)
    requires p <= |d.text| && depth == 1 + Level(o) && Level(o) < n <= STACK_LIMIT && Nesting(d.text, p, o) < n
    ensures Settled(d, ReadValue(d, p, depth, slot), o, n)
    decreases |d.text| - p, 0
  {
    hide NextToken, Nesting, SkipSpaces, ReadValue, ReadMembers, ReadElements, ScalarOutcome, LevelAt, ClosesHere;
    var t := NextToken(d.text, p);
    NestingBehind(d.text, p, o);
    ValueBegins(d, p, depth, slot);
    if t.kind == ObjectBegin {
      MembersWithinLimit(d, t.end, depth, [], [], o, n);
    } else if t.kind == ArrayBegin {
      ArrayBegins(d.text, t.end, o);
      var q := SkipSpaces(d.text, t.end);
      if !(q < |d.text| && d.text[q] == 0x5d) {
        ElementsWithinLimit(d, q, depth, [], o, n);
      }
    } else {
      ScalarIsDone(d, t, slot, o);
    }
  }

  /** readValue, below the limit. */
  lemma ValueBegins(d: Document, p: nat, depth: nat, slot: Value)
    requires p <= |d.text| && depth <= STACK_LIMIT
    ensures var t := NextToken(d.text, p);
      var q := SkipSpaces(d.text, t.end);
      ReadValue(d, p, depth, slot) ==
        if t.kind == ObjectBegin then ReadMembers(d, t.end, depth, [], [])
        else if t.kind == ArrayBegin && q < |d.text| && d.text[q] == 0x5d then Done(true, Array([]), q + 1, [])
        else if t.kind == ArrayBegin then ReadElements(d, q, depth, [])
        else ScalarOutcome(d, t, slot)
  {
    hide NextToken, SkipSpaces, ReadMembers, ReadElements, ScalarOutcome;
  }

  /** Behind an opening bracket: the end of the array, or what counts as nested in it. */
  lemma ArrayBegins(text: Str, p: nat, o: Open)
    requires p <= |text|
    ensures var q, inner := SkipSpaces(text, p), Within(ArrayBegin, o);
      if q < |text| && text[q] == 0x5d then Nesting(text, q + 1, o) <= Nesting(text, p, inner)
      else Nesting(text, q, inner) <= Nesting(text, p, inner) && Level(inner) <= Nesting(text, p, inner)
  {
    hide Nesting, NextToken, SkipSpaces;
    var q, inner := SkipSpaces(text, p), Within(ArrayBegin, o);
    NestingBehindSpaces(text, p, inner);
    SpacesSkipped(text, p);
    if q < |text| && text[q] == 0x5d {
      EmptyArrayEnds(text, q, o);
    } else {
      assert ReadToken(text, q).kind != ArrayEnd;
    }
  }

  lemma EmptyArrayEnds(text: Str, q: nat, o: Open)
    requires q < |text| && text[q] == 0x5d
    ensures Nesting(text, q + 1, o) <= Nesting(text, q, Within(ArrayBegin, o))
  {
    assert SkipSpaces(text, q) == q;
    assert NextToken(text, q) == Token(ArrayEnd, q, q + 1);
    NestingBehind(text, q, Within(ArrayBegin, o));
  }

  lemma {:induction false} ElementsWithinLimit(d: Document, p: nat, depth: nat, elems: seq<Value>, o: Open, n: nat)
    requires p <= |d.text| && depth == 1 + Level(o) && depth < n <= STACK_LIMIT
    requires Nesting(d.text, p, Within(ArrayBegin, o)) < n
    ensures Settled(d, ReadElements(d, p, depth, elems), o, n)
    decreases |d.text| - p, 1
  {
    hide NextToken, Nesting, ReadValue, Recover, LevelAt, ClosesHere;
    var inner := Within(ArrayBegin, o);
    ValueWithinLimit(d, p, depth + 1, Null, inner, n);
    var v := ReadValue(d, p, depth + 1, Null);
    if v.ok {
      NestingBehind(d.text, v.pos, inner);
      var t := NextToken(d.text, v.pos);
      if t.kind == ArraySeparator {
        ElementsWithinLimit(d, t.end, depth, elems + [v.value], o, n);
      }
    }
  }

  lemma NestingBehindToken(text: Str, p: nat, o: Open)
    requires p <= |text|
    ensures var t := ReadToken(text, p);
      t.kind != Comment ==> Nesting(text, t.end, Bracketed(t.kind, o)) <= Nesting(text, p, o)
  {
    hide ReadToken, Nesting;
    NestingBehind(text, p, o);
  }

  /** Where a member or the end of an object stands, inside the brackets `o`; the member counts as nested. */
  lemma MemberBegins(text: Str, p: nat, o: Open)
    requires p <= |text|
    ensures var t, inner := NextToken(text, p), Within(ObjectBegin, o);
      && (t.kind == ObjectEnd ==> Nesting(text, t.end, o) <= Nesting(text, p, inner))
      && (t.kind == StringToken ==> Level(inner) <= Nesting(text, p, inner))
      && (t.kind == StringToken && ReadToken(text, t.end).kind == MemberSeparator
          ==> Nesting(text, ReadToken(text, t.end).end, inner) <= Nesting(text, p, inner))
  {
    hide ReadToken, NextToken, Nesting;
    NestingBehind(text, p, Within(ObjectBegin, o));
    NestingBehindToken(text, NextToken(text, p).end, Within(ObjectBegin, o));
  }

  /** The last token behind a member: the closing brace, or anything else, which readObject passes over. */
  function BehindMember(text: Str, p: nat): (last: Token)
    requires p <= |text|
    ensures last.end <= |text|
  {
    var comma := ReadToken(text, p);
    if comma.kind == Comment then NextToken(text, comma.end) else comma
  }

  lemma MemberEnds(text: Str, p: nat, o: Open, n: nat)
    requires p <= |text| && 1 + Level(o) < n && Nesting(text, p, Within(ObjectBegin, o)) < n
    ensures var last := BehindMember(text, p);
      Nesting(text, last.end, if last.kind == ObjectEnd then o else Within(ObjectBegin, o)) < n
  {
    hide ReadToken, Nesting, Among;
    var inner := Within(ObjectBegin, o);
    NestingBehind(text, p, inner);
    var last := NextToken(text, p);
    if last.kind == ArrayBegin || last.kind == ObjectBegin {
      AmongSame(inner);
      AmongMore(inner, inner, last.kind);
      NestingGrows(text, last.end, inner, Bracketed(last.kind, inner), n);
    }
  }

  lemma {:induction false} MembersWithinLimit(d: Document, p: nat, depth: nat, members: seq<Member>, name: Str,
                                              o: Open, n: nat)
    requires p <= |d.text| && depth == 1 + Level(o) && n <= STACK_LIMIT
    requires Nesting(d.text, p, Within(ObjectBegin, o)) < n
    ensures Settled(d, ReadMembers(d, p, depth, members, name), o, n)
    decreases |d.text| - p, 1
  {
    hide NextToken, ReadToken, TokenText, Nesting, ReadValue, Recover, Find, Upsert, LevelAt, ClosesHere;
    var inner := Within(ObjectBegin, o);
    MemberBegins(d.text, p, o);
    var t := NextToken(d.text, p);
    if t.kind == StringToken {
      var s := TokenText(d.text, t);
      var colon := ReadToken(d.text, t.end);
      if s.Text? && colon.kind == MemberSeparator {
        ValueWithinLimit(d, colon.end, depth + 1, Find(members, s.s), inner, n);
        var v := ReadValue(d, colon.end, depth + 1, Find(members, s.s));
        if v.ok {
          MemberEnds(d.text, v.pos, o, n);
          var comma := ReadToken(d.text, v.pos);
          var last := BehindMember(d.text, v.pos);
          if (comma.kind == ArraySeparator || comma.kind == Comment) && last.kind != ObjectEnd {
            MembersWithinLimit(d, last.end, depth, Upsert(members, s.s, v.value), s.s, o, n);
          }
        }
      }
    }
  }

  /**
   * parse on any byte string whose brackets nest less than 1000 deep around its tokens, an empty innermost pair not
   * counted, returns normally, and returns true exactly when the error list is empty.
   */
  lemma ParseIsTotal(d: Document, root: Value)
    requires Nesting(d.text, 0, Outermost) < STACK_LIMIT
    ensures var r := Parse(d, root); r.Done? && (r.ok <==> r.errors == []) && r.pos <= |d.text|
  {
    hide ReadValue, NextToken, Nesting;
    ValueWithinLimit(d, 0, 1, root, Outermost, STACK_LIMIT);
    ValueErrors(d, 0, 1, root);
  }

  // ----- the bound is attained -----

  function Brackets(n: nat): (text: Str)
    ensures |text| == 2 * n
  {
    seq(n, i => 0x5b) + seq(n, i => 0x5d)
  }

  function Arrays(k: nat): (o: Open)
    ensures Level(o) == k
  {
    if k == 0 then Outermost else Within(ArrayBegin, Arrays(k - 1))
  }

  lemma BracketReads(n: nat, p: nat)
    requires p < 2 * n
    ensures ReadToken(Brackets(n), p) == NextToken(Brackets(n), p) ==
            Token(if p < n then ArrayBegin else ArrayEnd, p, p + 1)
  {
    var text := Brackets(n);
    assert text[p] == if p < n then 0x5b else 0x5d;
    assert SkipSpaces(text, p) == p;
  }

  lemma {:induction false} ClosingBracketsNest(n: nat, k: nat)
    requires k <= n
    ensures Nesting(Brackets(n), 2 * n - k, Arrays(k)) == 0
    decreases k
  {
    hide NextToken, ReadToken, Brackets, Nesting, LevelAt, ClosesHere;
    if k == 0 {
      NothingBehind(Brackets(n));
    } else {
      BracketReads(n, 2 * n - k);
      NestingOne(Brackets(n), 2 * n - k, Arrays(k));
      ClosingBracketsNest(n, k - 1);
    }
  }

  lemma NestingOne(text: Str, p: nat, o: Open)
    requires p < |text| && ReadToken(text, p) == NextToken(text, p) && NextToken(text, p).end == p + 1
    requires o.Outermost? || o.bracket == ArrayBegin
    ensures var t := NextToken(text, p);
      var here := if o.Within? && t.kind == ArrayEnd then 0 else Level(o);
      var n := Nesting(text, p + 1, Bracketed(t.kind, o));
      Nesting(text, p, o) == if n < here then here else n
  {
    hide NextToken, ReadToken;
  }

  lemma NothingBehind(text: Str)
    ensures Nesting(text, |text|, Outermost) == 0
  {
  }

  lemma {:induction false} BracketsNest(n: nat, k: nat)
    requires k <= n
    ensures Nesting(Brackets(n), k, Arrays(k)) == if k == n then 0 else n - 1
    decreases n - k
  {
    hide NextToken, ReadToken, Brackets, Nesting, LevelAt, ClosesHere;
    if k == n {
      ClosingBracketsNest(n, n);
    } else {
      BracketReads(n, k);
      NestingOne(Brackets(n), k, Arrays(k));
      BracketsNest(n, k + 1);
    }
  }

  /** A thousand brackets, one inside the other, are read. */
  lemma ThousandBracketsAreRead(toReal: Str -> Option<Str>, root: Value)
    ensures Parse(Document(Brackets(STACK_LIMIT), toReal), root).Done?
  {
    hide Parse, Nesting, Brackets;
    BracketsNest(STACK_LIMIT, 0);
    ParseIsTotal(Document(Brackets(STACK_LIMIT), toReal), root);
  }
}
