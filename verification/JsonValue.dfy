/** Json::Value without comments and offsets: a tree whose objects are ordered maps. */
module JsonValue {
  import opened Bytes

  const MAX_INT: int := 0x7fff_ffff                       // Value::maxInt
  const MAX_LARGEST_INT: int := 0x7fff_ffff_ffff_ffff     // Value::maxLargestInt
  const MIN_LARGEST_INT: int := -0x8000_0000_0000_0000    // Value::minLargestInt
  const MAX_LARGEST_UINT: int := 0xffff_ffff_ffff_ffff    // Value::maxLargestUInt

  datatype Member = Member(name: Str, value: Value)

  /** `Real` is a double, named by the text that valueToString gives it. */
  datatype Value =
    | Null
    | Boolean(b: bool)
    | Int(i: int)
    | UInt(u: int)
    | Real(text: Str)
    | String(s: Str)
    | Array(elems: seq<Value>)
    | Object(members: seq<Member>)

  /** CZString::operator<: the first differing byte decides, then the length. */
  predicate Less(a: Str, b: Str) {
    if b == [] then false
    else if a == [] then true
    else if a[0] != b[0] then a[0] < b[0]
    else Less(a[1..], b[1..])
  }

  /** The strings agree in front of `k`; there the first one ends, or has the smaller byte. */
  predicate DiffersAt(a: Str, b: Str, k: nat) {
    k <= |a| && k < |b| && a[..k] == b[..k] && (k == |a| || a[k] < b[k])
  }

  lemma SameHead(a: Str, b: Str, k: nat)
    requires k <= |a| && k <= |b| && a[..k] == b[..k]
    ensures k > 0 ==> a[0] == b[0]
  {
    if k > 0 { assert a[..k][0] == b[..k][0]; }
  }

  lemma {:induction false} LessIff(a: Str, b: Str)
    ensures Less(a, b) <==> exists k: nat :: DiffersAt(a, b, k)
  {
    if a == [] || b == [] {
      if Less(a, b) { assert DiffersAt(a, b, 0); }
    } else if a[0] != b[0] {
      if Less(a, b) { assert DiffersAt(a, b, 0); }
      if k: nat :| DiffersAt(a, b, k) {
        SameHead(a, b, k);
      }
    } else {
      LessIff(a[1..], b[1..]);
      if k: nat :| DiffersAt(a[1..], b[1..], k) {
        assert a[..k + 1] == [a[0]] + a[1..][..k] && b[..k + 1] == [b[0]] + b[1..][..k];
        assert DiffersAt(a, b, k + 1);
      }
      if k: nat :| DiffersAt(a, b, k) {
        assert k > 0;
        assert a[1..][..k - 1] == a[..k][1..] && b[1..][..k - 1] == b[..k][1..];
        assert DiffersAt(a[1..], b[1..], k - 1);
      }
    }
  }

  lemma {:induction false} LessIsTotal(a: Str, b: Str)
    ensures !(Less(a, b) && Less(b, a))
    ensures a != b <==> Less(a, b) || Less(b, a)
  {
    if a != [] && b != [] && a[0] == b[0] {
      assert a == [a[0]] + a[1..] && b == [b[0]] + b[1..];
      LessIsTotal(a[1..], b[1..]);
    }
  }

  lemma {:induction false} LessIsTransitive(a: Str, b: Str, c: Str)
    requires Less(a, b) && Less(b, c)
    ensures Less(a, c)
  {
    if a != [] && a[0] == b[0] == c[0] {
      LessIsTransitive(a[1..], b[1..], c[1..]);
    }
  }

  /** The members of an object as std::map keeps them: strictly increasing names. */
  ghost predicate Sorted(ms: seq<Member>) {
    forall i, j :: 0 <= i < j < |ms| ==> Less(ms[i].name, ms[j].name)
  }

  /** What `object[name]` denotes: the member's value, or null where there is none yet. */
  function Find(ms: seq<Member>, name: Str): Value {
    if ms == [] then Null
    else if ms[0].name == name then ms[0].value
    else Find(ms[1..], name)
  }

  /** The members after `object[name] = v`. */
  function Upsert(ms: seq<Member>, name: Str, v: Value): seq<Member> {
    if ms == [] || Less(name, ms[0].name) then [Member(name, v)] + ms
    else if ms[0].name == name then [Member(name, v)] + ms[1..]
    else [ms[0]] + Upsert(ms[1..], name, v)
  }

  lemma {:induction false} UpsertNames(ms: seq<Member>, name: Str, v: Value)
    ensures forall m :: m in Upsert(ms, name, v) ==> m.name == name || exists n :: n in ms && n.name == m.name
  {
    if ms != [] && !Less(name, ms[0].name) && ms[0].name != name {
      UpsertNames(ms[1..], name, v);
    }
  }

  lemma {:induction false} UpsertKeepsSorted(ms: seq<Member>, name: Str, v: Value)
    requires Sorted(ms)
    ensures Sorted(Upsert(ms, name, v))
  {
    var r := Upsert(ms, name, v);
    if ms == [] {
    } else if Less(name, ms[0].name) {
      forall j | 0 < j < |r| ensures Less(name, r[j].name) {
        if j > 1 { LessIsTransitive(name, ms[0].name, ms[j - 1].name); }
      }
    } else if ms[0].name != name {
      UpsertKeepsSorted(ms[1..], name, v);
      UpsertNames(ms[1..], name, v);
      LessIsTotal(ms[0].name, name);
      forall j | 0 < j < |r| ensures Less(ms[0].name, r[j].name) {
        assert r[j] in Upsert(ms[1..], name, v);
      }
    }
  }

  /** Assignment through `object[name]` reads back, and disturbs no other name. */
  lemma {:induction false} FindUpsert(ms: seq<Member>, name: Str, v: Value, other: Str)
    requires Sorted(ms)
    ensures Find(Upsert(ms, name, v), other) == if other == name then v else Find(ms, other)
  {
    var r := Upsert(ms, name, v);
    if ms == [] {
    } else if Less(name, ms[0].name) {
      assert r[1..] == ms;
    } else if ms[0].name == name {
      assert r[1..] == ms[1..];
    } else {
      assert r[1..] == Upsert(ms[1..], name, v);
      FindUpsert(ms[1..], name, v, other);
    }
  }

  /** Filling a slot twice leaves the second value. */
  lemma {:induction false} UpsertTwice(ms: seq<Member>, name: Str, u: Value, v: Value)
    ensures Upsert(Upsert(ms, name, u), name, v) == Upsert(ms, name, v)
  {
    LessIsTotal(name, name);
    var r := Upsert(ms, name, u);
    if ms == [] || Less(name, ms[0].name) {
      assert r[1..] == ms;
    } else if ms[0].name == name {
      assert r[1..] == ms[1..];
    } else {
      assert r[1..] == Upsert(ms[1..], name, u);
      UpsertTwice(ms[1..], name, u, v);
    }
  }

  /** A name above all others is added at the end. */
  lemma {:induction false} UpsertLast(ms: seq<Member>, name: Str, v: Value)
    requires forall m :: m in ms ==> Less(m.name, name)
    ensures Upsert(ms, name, v) == ms + [Member(name, v)]
  {
    if ms != [] {
      LessIsTotal(ms[0].name, name);
      UpsertLast(ms[1..], name, v);
      assert ms == [ms[0]] + ms[1..];
    }
  }

  /** Every Json::Value: integers have 64 bits, objects are ordered. */
  ghost predicate Writable(v: Value) {
    match v
    case Int(i) => MIN_LARGEST_INT <= i <= MAX_LARGEST_INT
    case UInt(u) => 0 <= u <= MAX_LARGEST_UINT
    case Array(es) => forall e :: e in es ==> Writable(e)
    case Object(ms) => Sorted(ms) && forall m :: m in ms ==> Writable(m.value)
    case _ => true
  }

  /** The values without reals. */
  ghost predicate Storable(v: Value) {
    match v
    case Int(i) => MIN_LARGEST_INT <= i <= MAX_LARGEST_INT
    case UInt(u) => 0 <= u <= MAX_LARGEST_UINT
    case Real(_) => false
    case Array(es) => forall e :: e in es ==> Storable(e)
    case Object(ms) => Sorted(ms) && forall m :: m in ms ==> Storable(m.value)
    case _ => true
  }

  /** Nesting depth: 1 for a scalar. */
  function Depth(v: Value): nat
    decreases v, 0
  {
    match v
    case Array(es) => 1 + ElemsDepth(es)
    case Object(ms) => 1 + MembersDepth(ms)
    case _ => 1
  }

  function ElemsDepth(es: seq<Value>): nat
    decreases es, 1
  {
    if es == [] then 0
    else var d, e := Depth(es[0]), ElemsDepth(es[1..]); if d > e then d else e
  }

  function MembersDepth(ms: seq<Member>): nat
    decreases ms, 1
  {
    if ms == [] then 0
    else var d, e := Depth(ms[0].value), MembersDepth(ms[1..]); if d > e then d else e
  }
}
