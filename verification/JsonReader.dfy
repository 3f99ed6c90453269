/** Json::Reader with its default features and comment collection off: a cursor, a node stack, an error list. */
module JsonReader {
  import opened Bytes
  import opened Wrappers
  import opened JsonValue
  import opened JsonNumber
  import opened JsonString
  import opened JsonSyntax

  lemma ClosingBracketReads(text: Str, p: nat)
    requires p < |text| && text[p] == 0x5d
    ensures JsonSyntax.ReadToken(text, p) == Token(ArrayEnd, p, p + 1)
  {
  }

  lemma EndIsEndOfStream(text: Str)
    ensures TokenFrom(text, 0, |text|) == (EndOfStream, |text|)
  {
  }

  class Reader {
    const toReal: Str -> Option<Str>
    var document: Str
    var current: nat
    // The values on the path to the one being read. A Value* into its parent becomes a value here
    // that is stored back into the parent's slot when it is popped.
    var nodes: seq<Value>
    var errors: seq<ErrorInfo>

    ghost predicate Valid()
      reads this
    {
      current <= |document|
    }

    ghost function Doc(): Document
      reads this
    {
      Document(document, toReal)
    }

    constructor (toReal: Str -> Option<Str>)
      ensures Valid() && this.toReal == toReal
    {
      this.toReal := toReal;
      document, current, nodes, errors := [], 0, [], [];
    }

    // ----- the tokeniser -----

    method GetNextChar() returns (c: Byte)
      requires Valid()
      modifies `current
      ensures Valid()
      ensures if old(current) == |document| then c == 0 && current == old(current)
              else c == document[old(current)] && current == old(current) + 1
    {
      if current == |document| {
        return 0;
      }
      c := document[current];
      current := current + 1;
    }

    method SkipSpaces()
      requires Valid()
      modifies `current
      ensures Valid() && current == JsonSyntax.SkipSpaces(document, old(current))
    {
      while current != |document|
        invariant Valid()
        invariant JsonSyntax.SkipSpaces(document, current) == JsonSyntax.SkipSpaces(document, old(current))
        decreases |document| - current
      {
        var c := document[current];
        if c == 0x20 || c == 0x09 || c == 0x0d || c == 0x0a {
          current := current + 1;
        } else {
          break;
        }
      }
    }

    method Match(pattern: Str) returns (ok: bool)
      requires Valid()
      modifies `current
      ensures Valid() && ok == At(document, old(current), pattern)
      ensures current == if ok then old(current) + |pattern| else old(current)
    {
      if |document| - current < |pattern| {
        return false;
      }
      var index := |pattern|;
      while index > 0
        invariant 0 <= index <= |pattern| && current == old(current)
        invariant document[current + index..current + |pattern|] == pattern[index..]
      {
        index := index - 1;
        if document[current + index] != pattern[index] {
          AtDiffers(document, current, pattern, index);
          return false;
        }
        assert document[current + index..current + |pattern|]
            == [document[current + index]] + document[current + index + 1..current + |pattern|];
      }
      current := current + |pattern|;
      return true;
    }

    static lemma AtDiffers(text: Str, p: nat, t: Str, k: nat)
      requires p + |t| <= |text| && k < |t| && text[p + k] != t[k]
      ensures !At(text, p, t)
    {
      assert text[p..p + |t|][k] == text[p + k];
    }

    method ReadCStyleComment() returns (ok: bool)
      requires Valid()
      modifies `current
      ensures Valid()
      ensures var q := StarSlash(document, old(current));
        if q < |document| then ok == (document[q] == SLASH) && current == q + 1 else !ok && current == q
    {
      while current + 1 < |document|
        invariant Valid()
        invariant StarSlash(document, current) == StarSlash(document, old(current))
        decreases |document| - current
      {
        var c := GetNextChar();
        if c == 0x2a && document[current] == SLASH {
          var last := GetNextChar();
          return last == SLASH;
        }
      }
      var c := GetNextChar();
      ok := c == SLASH;
    }

    method ReadCppStyleComment() returns (ok: bool)
      requires Valid()
      modifies `current
      ensures Valid() && ok && current == LineEnd(document, old(current))
    {
      while current != |document|
        invariant Valid()
        invariant LineEnd(document, current) == LineEnd(document, old(current))
        decreases |document| - current
      {
        var c := GetNextChar();
        if c == 0x0a {
          return true;
        }
        if c == 0x0d {
          if current != |document| && document[current] == 0x0a {
            var _ := GetNextChar();
          }
          return true;
        }
      }
      return true;
    }

    method ReadComment() returns (ok: bool)
      requires Valid()
      modifies `current
      ensures Valid() && (ok, current) == CommentEnd(document, old(current))
    {
      var c := GetNextChar();
      ok := false;
      if c == 0x2a {
        ok := ReadCStyleComment();
      } else if c == SLASH {
        ok := ReadCppStyleComment();
      }
    }

    /** One `c = (current_ = p) < end_ ? *p++ : '\0'` of readNumber. */
    method StepNumber(p: nat) returns (c: Byte, p': nat)
      requires p <= |document|
      modifies `current
      ensures current == p
      ensures if p < |document| then c == document[p] && p' == p + 1 else c == 0 && p' == p
    {
      current := p;
      if p < |document| {
        c, p' := document[p], p + 1;
      } else {
        c, p' := 0, p;
      }
    }

    method StepDigits(p: nat) returns (c: Byte, p': nat)
      requires p <= |document|
      modifies `current
      ensures current == DigitsEnd(document, p) <= |document|
      ensures if current < |document| then c == document[current] && p' == current + 1 else c == 0 && p' == current
    {
      c, p' := StepNumber(p);
      while IsDigit(c)
        invariant current <= |document|
        invariant DigitsEnd(document, current) == DigitsEnd(document, p)
        invariant if current < |document| then c == document[current] && p' == current + 1 else c == 0 && p' == current
        decreases |document| - current
      {
        c, p' := StepNumber(p');
      }
    }

    method ReadNumber()
      requires Valid()
      modifies `current
      ensures Valid() && current == NumberEnd(document, old(current))
    {
      var c, p := StepDigits(current);
      if c == 0x2e {
        c, p := StepDigits(p);
      }
      if c == 0x65 || c == 0x45 {
        ReadExponent(p);
      }
    }

    method ReadExponent(p: nat)
      requires 0 < p <= |document| && (document[p - 1] == 0x65 || document[p - 1] == 0x45)
      modifies `current
      ensures current == ExponentEnd(document, p - 1)
    {
      var c, p' := StepNumber(p);
      if c == 0x2b || c == 0x2d {
        c, p' := StepNumber(p');
      }
      if IsDigit(c) {
        c, p' := StepDigits(p');
      }
    }

    method ReadString() returns (ok: bool)
      requires Valid()
      modifies `current
      ensures Valid() && (ok, current) == StringEnd(document, old(current))
    {
      var c: Byte := 0;
      while current != |document|
        invariant Valid()
        invariant c != QUOTE
        invariant StringEnd(document, current) == StringEnd(document, old(current))
        decreases |document| - current
      {
        c := GetNextChar();
        if c == BACKSLASH {
          var _ := GetNextChar();
        } else if c == QUOTE {
          break;
        }
      }
      ok := c == QUOTE;
    }

    method ReadToken() returns (ok: bool, token: Token)
      requires Valid()
      modifies `current
      ensures Valid() && token == JsonSyntax.ReadToken(document, old(current)) && current == token.end
      ensures ok <==> token.kind != ErrorToken
    {
      hide TokenFrom, JsonSyntax.SkipSpaces;
      SkipSpaces();
      var start := current;
      EndIsEndOfStream(document);
      var c := GetNextChar();
      var kind;
      ok, kind := ReadTokenFrom(c);
      token := Token(kind, start, current);
    }

    /** The switch on the first character. */
    method ReadTokenFrom(c: Byte) returns (ok: bool, kind: TokenKind)
      requires Valid()
      modifies `current
      ensures Valid() && (kind, current) == TokenFrom(document, c, old(current))
      ensures ok <==> kind != ErrorToken
    {
      hide StringEnd, CommentEnd, NumberEnd;
      ok := true;
      kind := ErrorToken;
      match c {
      case 0x7b => kind := ObjectBegin;
      case 0x7d => kind := ObjectEnd;
      case 0x5b => kind := ArrayBegin;
      case 0x5d => kind := ArrayEnd;
      case 0x22 => kind := StringToken; ok := ReadString();
      case 0x2f => kind := Comment; ok := ReadComment();
      case 0x74 => kind := True; ok := Match(RUE);
      case 0x66 => kind := False; ok := Match(ALSE);
      case 0x6e => kind := NullToken; ok := Match(ULL);
      case 0x2c => kind := ArraySeparator;
      case 0x3a => kind := MemberSeparator;
      case 0 => kind := EndOfStream;
      case _ =>
        if IsDigit(c) || c == MINUS {
          kind := Number;
          ReadNumber();
        } else {
          ok := false;
        }
      }
      if !ok {
        kind := ErrorToken;
      }
    }

    method SkipCommentTokens() returns (token: Token)
      requires Valid()
      modifies `current
      ensures Valid() && token == NextToken(document, old(current)) && current == token.end
    {
      var _, first := ReadToken();
      token := first;
      while token.kind == Comment
        invariant Valid() && current == token.end
        invariant NextToken(document, old(current)) ==
          if token.kind == Comment then NextToken(document, current) else token
        decreases |document| - current, if token.kind == Comment then 1 else 0
      {
        var _, next := ReadToken();
        token := next;
      }
    }

    // ----- errors -----

    method AddError(message: Message, token: Token, extra: Option<nat>)
      modifies `errors
      ensures errors == old(errors) + [ErrorInfo(message, token, extra)]
    {
      errors := errors + [ErrorInfo(message, token, extra)];
    }

    method RecoverFromError(skipUntilToken: TokenKind)
      requires Valid()
      modifies `current, `errors
      ensures Valid() && current == Recover(document, old(current), skipUntilToken)
      ensures errors == old(errors)
    {
      var errorCount := |errors|;
      while true
        invariant Valid() && errors == old(errors)
        invariant Recover(document, current, skipUntilToken) == Recover(document, old(current), skipUntilToken)
        decreases |document| - current
      {
        var ok, skip := ReadToken();
        if !ok {
          errors := errors[..errorCount];
        }
        if skip.kind == skipUntilToken || skip.kind == EndOfStream {
          break;
        }
      }
      errors := errors[..errorCount];
    }

    method AddErrorAndRecover(message: Message, token: Token, skipUntilToken: TokenKind)
      requires Valid()
      modifies `current, `errors
      ensures Valid() && current == Recover(document, old(current), skipUntilToken)
      ensures errors == old(errors) + [ErrorInfo(message, token, None)]
    {
      AddError(message, token, None);
      RecoverFromError(skipUntilToken);
    }

    // ----- values -----

    /** currentValue().swapPayload(v) */
    method SetCurrentValue(v: Value)
      requires nodes != []
      modifies `nodes
      ensures nodes == old(nodes)[..|old(nodes)| - 1] + [v]
    {
      nodes := nodes[|nodes| - 1 := v];
    }

    /** The effect of a reading method on the stack, the cursor and the errors. */
    twostate predicate Effect(r: Outcome, successful: bool)
      reads this
    {
      && r.Done?
      && Valid() && current == r.pos && successful == r.ok
      && old(nodes) != [] && nodes == old(nodes)[..|old(nodes)| - 1] + [r.value]
      && errors == old(errors) + r.errors
    }

    method DecodeNumberToken(token: Token) returns (successful: bool)
      requires Valid() && nodes != [] && token.start < token.end == current
      modifies `nodes, `errors
      ensures Effect(NumberOutcome(Doc(), token, old(nodes)[|old(nodes)| - 1]), successful)
    {
      hide DecodeInteger, Tagged;
      var numeral := document[token.start..token.end];
      var decoded := DecodeNumber(numeral);
      if decoded.Integer? {
        SetCurrentValue(Tagged(decoded.n));
        return true;
      }
      var converted := toReal(numeral);
      if converted.Some? {
        SetCurrentValue(Real(converted.value));
        return true;
      }
      AddError(NotANumber, token, None);
      return false;
    }

    method DecodeStringToken(token: Token) returns (successful: bool, decoded: Str)
      requires Valid() && token.start + 2 <= token.end <= |document|
      modifies `errors
      ensures var s := TokenText(document, token);
        successful == s.Text? && (s.Text? ==> decoded == s.s) &&
        errors == old(errors) + if s.Text? then [] else [StringError(token, s)]
    {
      decoded := [];
      var s := DecodeString(document, token.start, token.end);
      if s.Bad? {
        AddError(StringProblem(s.problem), token, Some(s.where));
        return false, [];
      }
      return true, s.s;
    }

    /** nodes_.push(&value); readValue(); nodes_.pop(); the caller stores the value in its slot. */
    method ReadChild(slot: Value) returns (thrown: bool, successful: bool, value: Value)
      requires Valid()
      modifies `current, `nodes, `errors
      ensures var r := JsonSyntax.ReadValue(Doc(), old(current), |old(nodes)| + 1, slot);
        thrown == r.StackLimitExceeded? &&
        (!thrown ==> Valid() && current == r.pos && successful == r.ok && value == r.value &&
                     nodes == old(nodes) && errors == old(errors) + r.errors)
      ensures !thrown && successful ==> errors == old(errors)
      decreases |document| - current, 1
    {
      ValueErrors(Doc(), current, |nodes| + 1, slot);
      nodes := nodes + [slot];
      ghost var stack := nodes;
      thrown, successful := ReadValue();
      if thrown {
        return true, false, slot;
      }
      value := nodes[|nodes| - 1];
      nodes := nodes[..|nodes| - 1];
      assert nodes == stack[..|old(nodes)|] == old(nodes);
    }

    /** One array element: Value &value = currentValue()[index++]; and reading into it. */
    method ReadElement(ghost elems: seq<Value>) returns (thrown: bool, successful: bool)
      requires Valid() && nodes != [] && nodes[|nodes| - 1] == Array(elems)
      modifies `current, `nodes, `errors
      ensures var v := JsonSyntax.ReadValue(Doc(), old(current), |old(nodes)| + 1, Null);
        thrown == v.StackLimitExceeded? &&
        (!thrown ==> Valid() && current == v.pos && successful == v.ok && errors == old(errors) + v.errors &&
                     nodes == old(nodes)[..|old(nodes)| - 1] + [Array(elems + [v.value])])
      ensures !thrown && successful ==> errors == old(errors)
      decreases |document| - current, 2
    {
      SetCurrentValue(Array(nodes[|nodes| - 1].elems + [Null]));
      var value;
      thrown, successful, value := ReadChild(Null);
      if !thrown {
        var slots := nodes[|nodes| - 1].elems;
        assert slots[..|slots| - 1] == elems;
        SetCurrentValue(Array(slots[..|slots| - 1] + [value]));
      }
    }

    /** One member: Value &value = currentValue()[name]; and reading into it. */
    method ReadMember(name: Str, ghost members: seq<Member>) returns (thrown: bool, successful: bool)
      requires Valid() && nodes != [] && nodes[|nodes| - 1] == Object(members)
      modifies `current, `nodes, `errors
      ensures var v := JsonSyntax.ReadValue(Doc(), old(current), |old(nodes)| + 1, Find(members, name));
        thrown == v.StackLimitExceeded? &&
        (!thrown ==> Valid() && current == v.pos && successful == v.ok && errors == old(errors) + v.errors &&
                     nodes == old(nodes)[..|old(nodes)| - 1] + [Object(Upsert(members, name, v.value))])
      ensures !thrown && successful ==> errors == old(errors)
      decreases |document| - current, 2
    {
      var slot := Find(nodes[|nodes| - 1].members, name);
      SetCurrentValue(Object(Upsert(nodes[|nodes| - 1].members, name, slot)));
      var value;
      thrown, successful, value := ReadChild(slot);
      if !thrown {
        SetCurrentValue(Object(Upsert(nodes[|nodes| - 1].members, name, value)));
        UpsertTwice(members, name, slot, value);
      }
    }

    /** One turn of readArray's loop; `again` when a separator was read. */
    method ReadArrayTurn(ghost elems: seq<Value>) returns (thrown: bool, again: bool, successful: bool)
      requires Valid() && nodes != [] && nodes[|nodes| - 1] == Array(elems)
      modifies `current, `nodes, `errors
      ensures var r := ReadElements(Doc(), old(current), |old(nodes)|, elems);
        if thrown then !again && r.StackLimitExceeded?
        else if again then
          Valid() && old(current) < current && errors == old(errors) &&
          |nodes| == |old(nodes)| && nodes[..|nodes| - 1] == old(nodes)[..|nodes| - 1] && nodes[|nodes| - 1].Array? &&
          r == ReadElements(Doc(), current, |nodes|, nodes[|nodes| - 1].elems)
        else Effect(r, successful)
      decreases |document| - current, 3
    {
      hide NextToken, Recover, JsonSyntax.ReadToken, JsonSyntax.ReadValue;
      var ok;
      again := false;
      thrown, ok := ReadElement(elems);
      if thrown {
        return true, false, false;
      }
      if !ok {
        RecoverFromError(ArrayEnd);
        return false, false, false;
      }
      var currentToken := SkipCommentTokens();
      if currentToken.kind != ArraySeparator && currentToken.kind != ArrayEnd {
        AddErrorAndRecover(MissingCommaOrBracket, currentToken, ArrayEnd);
        return false, false, false;
      }
      if currentToken.kind == ArrayEnd {
        return false, false, true;
      }
      return false, true, true;
    }

    method ReadArray() returns (thrown: bool, successful: bool)
      requires Valid() && nodes != [] && |nodes| <= STACK_LIMIT
      modifies `current, `nodes, `errors
      ensures var q := JsonSyntax.SkipSpaces(document, old(current));
        var r := if q < |document| && document[q] == 0x5d then Done(true, Array([]), q + 1, [])
                 else ReadElements(Doc(), q, |old(nodes)|, []);
        thrown == r.StackLimitExceeded? && (!thrown ==> Effect(r, successful))
      decreases |document| - current, 4
    {
      hide ReadElements, NextToken, Recover, JsonSyntax.SkipSpaces, JsonSyntax.ReadToken;
      SetCurrentValue(Array([]));
      SkipSpaces();
      if current != |document| && document[current] == 0x5d {
        ClosingBracketReads(document, current);
        var _, _ := ReadToken();
        return false, true;
      }
      ghost var q := current;
      var again := true;
      thrown, successful := false, true;
      while again
        invariant again ==> !thrown && Valid() && q <= current && errors == old(errors)
        invariant again ==> |nodes| == |old(nodes)| && nodes[..|nodes| - 1] == old(nodes)[..|nodes| - 1]
        invariant again ==> nodes[|nodes| - 1].Array?
        invariant var r := ReadElements(Doc(), q, |old(nodes)|, []);
          if again then ReadElements(Doc(), current, |nodes|, nodes[|nodes| - 1].elems) == r
          else thrown == r.StackLimitExceeded? && (!thrown ==> Effect(r, successful))
        decreases again, |document| - current
      {
        thrown, again, successful := ReadArrayTurn(nodes[|nodes| - 1].elems);
      }
    }

    /** One turn of readObject's loop up to the ':'; `again` when a value is due. */
    method ReadMemberName(name: Str, ghost members: seq<Member>) returns (again: bool, successful: bool, name': Str)
      requires Valid() && nodes != [] && nodes[|nodes| - 1] == Object(members)
      modifies `current, `errors
      ensures var t := NextToken(document, old(current));
        if again then
          Valid() && old(current) < current && errors == old(errors) && t.kind == StringToken &&
          TokenText(document, t) == Text(name') &&
          JsonSyntax.ReadToken(document, t.end).kind == MemberSeparator &&
          JsonSyntax.ReadToken(document, t.end).end == current
        else Effect(ReadMembers(Doc(), old(current), |old(nodes)|, members, name), successful)
    {
      hide NextToken, Recover, JsonSyntax.ReadToken, JsonSyntax.ReadValue, Find, Upsert, TokenText;
      again, name' := false, [];
      var tokenName := SkipCommentTokens();
      if tokenName.kind == ObjectEnd && name == [] {
        return false, true, [];
      }
      if tokenName.kind != StringToken {
        AddErrorAndRecover(MissingBraceOrName, tokenName, ObjectEnd);
        return false, false, [];
      }
      var decoded;
      decoded, name' := DecodeStringToken(tokenName);
      if !decoded {
        RecoverFromError(ObjectEnd);
        return false, false, [];
      }
      var _, colon := ReadToken();
      if colon.kind != MemberSeparator {
        AddErrorAndRecover(MissingColon, colon, ObjectEnd);
        return false, false, [];
      }
      return true, true, name';
    }

    /** The rest of the turn: the value and the separator; `again` when another member is due. */
    method ReadMemberValue(name: Str, ghost members: seq<Member>, ghost p: nat, ghost before: Str)
      returns (thrown: bool, again: bool, successful: bool)
      requires Valid() && nodes != [] && nodes[|nodes| - 1] == Object(members) && p < current
      requires var t := NextToken(document, p);
        t.kind == StringToken && TokenText(document, t) == Text(name) &&
        JsonSyntax.ReadToken(document, t.end).kind == MemberSeparator &&
        JsonSyntax.ReadToken(document, t.end).end == current
      modifies `current, `nodes, `errors
      ensures var r := ReadMembers(Doc(), p, |old(nodes)|, members, before);
        if thrown then !again && r.StackLimitExceeded?
        else if again then
          Valid() && old(current) <= current && errors == old(errors) &&
          |nodes| == |old(nodes)| && nodes[..|nodes| - 1] == old(nodes)[..|nodes| - 1] && nodes[|nodes| - 1].Object? &&
          r == ReadMembers(Doc(), current, |nodes|, nodes[|nodes| - 1].members, name)
        else Effect(r, successful)
      decreases |document| - current, 3
    {
      hide NextToken, Recover, JsonSyntax.ReadToken, JsonSyntax.ReadValue, Find, Upsert, TokenText;
      var ok;
      again := false;
      thrown, ok := ReadMember(name, members);
      if thrown {
        return true, false, false;
      }
      if !ok {
        RecoverFromError(ObjectEnd);
        return false, false, false;
      }
      var _, comma := ReadToken();
      if comma.kind != ObjectEnd && comma.kind != ArraySeparator && comma.kind != Comment {
        AddErrorAndRecover(MissingCommaOrBrace, comma, ObjectEnd);
        return false, false, false;
      }
      if comma.kind == Comment {
        comma := SkipCommentTokens();
      }
      return false, comma.kind != ObjectEnd, true;
    }

    method ReadObject() returns (thrown: bool, successful: bool)
      requires Valid() && nodes != [] && |nodes| <= STACK_LIMIT
      modifies `current, `nodes, `errors
      ensures var r := ReadMembers(Doc(), old(current), |old(nodes)|, [], []);
        thrown == r.StackLimitExceeded? && (!thrown ==> Effect(r, successful))
      decreases |document| - current, 4
    {
      hide ReadMembers, NextToken, JsonSyntax.ReadToken, TokenText;
      var name: Str := [];
      SetCurrentValue(Object([]));
      var again := true;
      thrown, successful := false, true;
      while again
        invariant again ==> !thrown && Valid() && old(current) <= current && errors == old(errors)
        invariant again ==> |nodes| == |old(nodes)| && nodes[..|nodes| - 1] == old(nodes)[..|nodes| - 1]
        invariant again ==> nodes[|nodes| - 1].Object?
        invariant var r := ReadMembers(Doc(), old(current), |old(nodes)|, [], []);
          if again then ReadMembers(Doc(), current, |nodes|, nodes[|nodes| - 1].members, name) == r
          else thrown == r.StackLimitExceeded? && (!thrown ==> Effect(r, successful))
        decreases again, |document| - current
      {
        ghost var p, before := current, name;
        again, successful, name := ReadMemberName(name, nodes[|nodes| - 1].members);
        if again {
          thrown, again, successful := ReadMemberValue(name, nodes[|nodes| - 1].members, p, before);
        }
      }
    }

    /** readValue's switch on the tokens that do not open an array or an object. */
    method ReadScalar(token: Token) returns (successful: bool)
      requires Valid() && nodes != [] && token.start <= token.end == current
      requires token.kind != EndOfStream ==> token.start < token.end
      requires token.kind == StringToken ==> token.start + 2 <= token.end
      modifies `nodes, `errors
      ensures Effect(ScalarOutcome(Doc(), token, old(nodes)[|old(nodes)| - 1]), successful)
    {
      hide TokenText, NumberOutcome;
      successful := true;
      if token.kind == Number {
        successful := DecodeNumberToken(token);
      } else if token.kind == StringToken {
        var s;
        successful, s := DecodeStringToken(token);
        if successful { SetCurrentValue(String(s)); }
      } else if token.kind == True {
        SetCurrentValue(Boolean(true));
      } else if token.kind == False {
        SetCurrentValue(Boolean(false));
      } else if token.kind == NullToken {
        SetCurrentValue(Null);
      } else {
        AddError(ValueExpected, token, None);
        successful := false;
      }
    }

    method ReadValue() returns (thrown: bool, successful: bool)
      requires Valid() && nodes != []
      modifies `current, `nodes, `errors
      ensures var r := JsonSyntax.ReadValue(Doc(), old(current), |old(nodes)|, old(nodes)[|old(nodes)| - 1]);
        thrown == r.StackLimitExceeded? && (!thrown ==> Effect(r, successful))
      decreases |document| - current, 0
    {
      if |nodes| > STACK_LIMIT {
        return true, false;
      }
      hide NextToken, ReadElements, ReadMembers, ScalarOutcome, JsonSyntax.SkipSpaces;
      thrown, successful := false, true;
      var token := SkipCommentTokens();
      if token.kind == ObjectBegin {
        thrown, successful := ReadObject();
      } else if token.kind == ArrayBegin {
        thrown, successful := ReadArray();
      } else {
        successful := ReadScalar(token);
      }
    }

    /** parse: true exactly when no error was recorded; the cursor ends inside the document. */
    method Parse(text: Str, root: Value) returns (thrown: bool, successful: bool, value: Value)
      modifies this
      ensures var r := JsonSyntax.Parse(Document(text, toReal), root);
        thrown == r.StackLimitExceeded? &&
        (!thrown ==> Valid() && document == text && successful == r.ok && value == r.value &&
                     current == r.pos && errors == r.errors && nodes == [r.value])
      ensures !thrown ==> (successful <==> errors == [])
    {
      document := text;
      current := 0;
      errors := [];
      nodes := [root];
      ValueErrors(Document(text, toReal), 0, 1, root);
      thrown, successful := ReadValue();
      if thrown {
        return true, false, root;
      }
      var _ := SkipCommentTokens();
      value := nodes[0];
    }
  }
}
