/** Json::FastWriter with its default options. */
module JsonWriter {
  import opened Bytes
  import opened JsonValue
  import opened JsonNumber
  import opened JsonString

  const LF: Byte := 0x0a
  const COMMA: Byte := 0x2c
  const COLON: Byte := 0x3a
  const OPEN_BRACKET: Byte := 0x5b
  const CLOSE_BRACKET: Byte := 0x5d
  const OPEN_BRACE: Byte := 0x7b
  const CLOSE_BRACE: Byte := 0x7d
  const TRUE_TEXT: Str := [0x74, 0x72, 0x75, 0x65]
  const FALSE_TEXT: Str := [0x66, 0x61, 0x6c, 0x73, 0x65]
  const NULL_TEXT: Str := [0x6e, 0x75, 0x6c, 0x6c]

  /** The text of a value. */
  function Printed(v: Value): Str
    decreases v, 0
  {
    match v
    case Null => NULL_TEXT
    case Boolean(b) => if b then TRUE_TEXT else FALSE_TEXT
    case Int(i) => IntText(i)
    case UInt(u) => IntText(u)
    case Real(t) => t
    case String(s) => Quoted(s)
    case Array(es) => [OPEN_BRACKET] + PrintedElems(es) + [CLOSE_BRACKET]
    case Object(ms) => [OPEN_BRACE] + PrintedMembers(ms) + [CLOSE_BRACE]
  }

  function PrintedElems(es: seq<Value>): Str
    decreases es, 1
  {
    if es == [] then []
    else if |es| == 1 then Printed(es[0])
    else Printed(es[0]) + ([COMMA] + PrintedElems(es[1..]))
  }

  function PrintedMember(m: Member): Str
    decreases m, 1
  {
    Quoted(m.name) + ([COLON] + Printed(m.value))
  }

  function PrintedMembers(ms: seq<Member>): Str
    decreases ms, 2
  {
    if ms == [] then []
    else if |ms| == 1 then PrintedMember(ms[0])
    else PrintedMember(ms[0]) + ([COMMA] + PrintedMembers(ms[1..]))
  }

  /** Appending one more element puts a comma before it, unless it is the first. */
  lemma {:induction false} PrintedElemsAppend(es: seq<Value>, v: Value)
    ensures PrintedElems(es + [v]) == PrintedElems(es) + (if es == [] then [] else [COMMA]) + Printed(v)
  {
    hide Printed;
    if es == [] {
      assert es + [v] == [v];
    } else {
      assert (es + [v])[0] == es[0] && (es + [v])[1..] == es[1..] + [v];
      PrintedElemsAppend(es[1..], v);
      if |es| > 1 {
        assert Printed(es[0]) + ([COMMA] + (PrintedElems(es[1..]) + [COMMA] + Printed(v)))
            == Printed(es[0]) + ([COMMA] + PrintedElems(es[1..])) + [COMMA] + Printed(v);
      }
    }
  }

  lemma {:induction false} PrintedMembersAppend(ms: seq<Member>, m: Member)
    ensures PrintedMembers(ms + [m]) == PrintedMembers(ms) + (if ms == [] then [] else [COMMA]) + PrintedMember(m)
  {
    if ms == [] {
      assert ms + [m] == [m];
    } else {
      hide PrintedMember;
      assert (ms + [m])[0] == ms[0] && (ms + [m])[1..] == ms[1..] + [m];
      PrintedMembersAppend(ms[1..], m);
      if |ms| > 1 {
        assert PrintedMember(ms[0]) + ([COMMA] + (PrintedMembers(ms[1..]) + [COMMA] + PrintedMember(m)))
            == PrintedMember(ms[0]) + ([COMMA] + PrintedMembers(ms[1..])) + [COMMA] + PrintedMember(m);
      }
    }
  }

  class FastWriter {
    var document: Str

    constructor ()
      ensures document == []
    {
      document := [];
    }

    method Write(root: Value) returns (text: Str)
      requires Writable(root)
      modifies this
      ensures text == document == Printed(root) + [LF]
    {
      document := [];
      WriteValue(root);
      document := document + [LF];
      text := document;
    }

    method WriteValue(value: Value)
      requires Writable(value)
      modifies this
      ensures document == old(document) + Printed(value)
      decreases value
    {
      match value {
        case Null =>
          document := document + NULL_TEXT;
        case Int(i) =>
          var t := IntToString(i);
          document := document + t;
        case UInt(u) =>
          var t := UIntToString(u);
          document := document + t;
        case Real(t) =>
          document := document + t;
        case String(s) =>
          var t := ValueToQuotedString(s);
          document := document + t;
        case Boolean(b) =>
          document := document + if b then TRUE_TEXT else FALSE_TEXT;
        case Array(elems) =>
          document := document + [OPEN_BRACKET];
          var index := 0;
          while index < |elems|
            invariant 0 <= index <= |elems|
            invariant document == old(document) + ([OPEN_BRACKET] + PrintedElems(elems[..index]))
          {
            ghost var done := PrintedElems(elems[..index]);
            if index > 0 {
              document := document + [COMMA];
            }
            WriteValue(elems[index]);
            PrintedElemsAppend(elems[..index], elems[index]);
            assert elems[..index + 1] == elems[..index] + [elems[index]];
            Regroup(old(document), [OPEN_BRACKET], done, if index > 0 then [COMMA] else [], Printed(elems[index]));
            index := index + 1;
          }
          assert elems[..index] == elems;
          document := document + [CLOSE_BRACKET];
        case Object(members) =>
          document := document + [OPEN_BRACE];
          WriteMembers(members, old(document), value);
          document := document + [CLOSE_BRACE];
      }
    }

    /** The loop of writeValue over the member names in map order. */
    method WriteMembers(members: seq<Member>, ghost before: Str, ghost owner: Value)
      requires owner == Object(members) && Writable(owner)
      requires document == before + [OPEN_BRACE]
      modifies this
      ensures document == before + ([OPEN_BRACE] + PrintedMembers(members))
      decreases owner, 0
    {
      hide PrintedMember, Quoted;
      var it := 0;
      while it < |members|
        invariant 0 <= it <= |members|
        invariant document == before + ([OPEN_BRACE] + PrintedMembers(members[..it]))
      {
        ghost var done := PrintedMembers(members[..it]);
        if it != 0 {
          document := document + [COMMA];
        }
        WriteMember(members[it]);
        PrintedMembersAppend(members[..it], members[it]);
        assert members[..it + 1] == members[..it] + [members[it]];
        Regroup(before, [OPEN_BRACE], done, if it > 0 then [COMMA] else [], PrintedMember(members[it]));
        it := it + 1;
      }
      assert members[..it] == members;
    }

    method WriteMember(m: Member)
      requires Writable(m.value)
      modifies this
      ensures document == old(document) + PrintedMember(m)
      decreases m
    {
      var name := ValueToQuotedString(m.name);
      document := document + name;
      document := document + [COLON];
      WriteValue(m.value);
      assert document == old(document) + (Quoted(m.name) + ([COLON] + Printed(m.value)));
    }
  }

  lemma Regroup(a: Str, b: Str, c: Str, d: Str, e: Str)
    ensures a + (b + c) + d + e == a + (b + (c + d + e))
    ensures a + (b + c) + [] + e == a + (b + c) + e
  {
  }
}
