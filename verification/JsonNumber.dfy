/** Integers as JSON text: uintToString and valueToString, and both decodeNumber versions. */
module JsonNumber {
  import opened Bytes
  import opened JsonValue

  const ZERO: Byte := 0x30
  const NINE: Byte := 0x39
  const MINUS: Byte := 0x2d
  const BUFFER_SIZE := 25   // uintToStringBufferSize: 3 * sizeof(LargestUInt) + 1
  const TWO64 := 0x1_0000_0000_0000_0000

  predicate IsDigit(c: Byte) { ZERO <= c <= NINE }

  predicate AllDigits(t: Str) { forall k :: 0 <= k < |t| ==> IsDigit(t[k]) }

  /** The number a digit string denotes; the empty string denotes 0. */
  function Num(t: Str): nat
    requires AllDigits(t)
  {
    if t == [] then 0 else 10 * Num(t[..|t| - 1]) + (t[|t| - 1] - ZERO)
  }

  /** Decimal digits, most significant first. */
  function Dec(n: nat): (t: Str)
    ensures t != [] && AllDigits(t)
  {
    if n < 10 then [ZERO + n] else Dec(n / 10) + [ZERO + n % 10]
  }

  /** valueToString(LargestInt) and valueToString(LargestUInt): a sign only where needed. */
  function IntText(i: int): Str {
    if i < 0 then [MINUS] + Dec(-i) else Dec(i)
  }

  lemma {:induction false} NumOfDec(n: nat)
    ensures Num(Dec(n)) == n
  {
    if n >= 10 {
      NumOfDec(n / 10);
      assert Dec(n)[..|Dec(n)| - 1] == Dec(n / 10);
    }
  }

  function Pow10(k: nat): nat { if k == 0 then 1 else 10 * Pow10(k - 1) }

  lemma {:induction false} DecLength(n: nat, k: nat)
    requires n < Pow10(k)
    ensures |Dec(n)| <= if k == 0 then 1 else k
  {
    if n >= 10 {
      DecLength(n / 10, k - 1);
    }
  }

  lemma Dec64Fits(n: nat)
    requires n < TWO64
    ensures |Dec(n)| <= 20
  {
    assert Pow10(4) == 10000;
    assert Pow10(8) == 1_0000_0000 by { assert Pow10(6) == 1000000; }
    assert Pow10(12) == 1_0000_0000_0000 by { assert Pow10(10) == 100_0000_0000; }
    assert Pow10(16) == 1_0000_0000_0000_0000 by { assert Pow10(14) == 100_0000_0000_0000; }
    assert Pow10(20) == 1_0000_0000_0000_0000_0000 by { assert Pow10(18) == 100_0000_0000_0000_0000; }
    DecLength(n, 20);
  }

  /** Writes the digits of `value` and a final NUL downwards from `current`. */
  method UintToString(value: nat, buffer: array<Byte>, current: nat) returns (start: nat)
    requires value < TWO64 && BUFFER_SIZE <= current <= buffer.Length
    modifies buffer
    ensures current - 21 <= start < current
    ensures buffer[start..] == Dec(value) + ([0] + old(buffer[current..]))
    ensures buffer[..start] == old(buffer[..start])
  {
    hide Dec, AllDigits;
    start := Prepend(0, buffer, current);
    start := WriteDigits(value, buffer, start);
  }

  /** The do-while loop. */
  method WriteDigits(value: nat, buffer: array<Byte>, current: nat) returns (start: nat)
    requires value < TWO64 && 20 <= current <= buffer.Length
    modifies buffer
    ensures current - 20 <= start < current
    ensures buffer[start..] == Dec(value) + old(buffer[current..]) && buffer[..start] == old(buffer[..start])
  {
    hide Dec, LastDigit, AllDigits;
    Dec64Fits(value);
    var v := value;
    start := current;
    ghost var end := buffer[current..];
    var more := true;
    while more
      invariant 0 <= start <= current && 0 <= v
      invariant Dec(value) + end == if more then Dec(v) + buffer[start..] else buffer[start..]
      invariant buffer[..start] == old(buffer[..start])
      decreases more, v
    {
      DecStep(v, buffer[start..]);
      RoomLeft(Dec(value), end, Dec(v), buffer[start..]);
      start := Prepend(LastDigit(v), buffer, start);
      v := v / 10;
      more := v != 0;
    }
    assert |Dec(value)| + |end| == buffer.Length - start;
  }

  lemma RoomLeft(a: Str, b: Str, c: Str, d: Str)
    requires a + b == c + d
    ensures |a| + |b| == |c| + |d|
  {
    assert |a + b| == |c + d|;
  }

  function LastDigit(v: nat): Byte { ZERO + v % 10 }

  /** *--current = c */
  method Prepend(c: Byte, buffer: array<Byte>, current: nat) returns (start: nat)
    requires 1 <= current <= buffer.Length
    modifies buffer
    ensures start == current - 1
    ensures buffer[start..] == [c] + old(buffer[current..]) && buffer[..start] == old(buffer[..start])
  {
    start := current - 1;
    buffer[start] := c;
    assert buffer[current..] == old(buffer[current..]);
  }

  lemma DecStep(v: nat, tail: Str)
    ensures Dec(v) + tail ==
      if v / 10 == 0 then [LastDigit(v)] + tail else Dec(v / 10) + ([LastDigit(v)] + tail)
  {
    if v >= 10 {
      assert Dec(v / 10) + [LastDigit(v)] + tail == Dec(v / 10) + ([LastDigit(v)] + tail);
    }
  }

  /** valueToString(LargestInt). The buffer has room for 20 digits, the sign and the NUL. */
  method IntToString(value: int) returns (r: Str)
    requires MIN_LARGEST_INT <= value <= MAX_LARGEST_INT
    ensures r == IntText(value)
  {
    hide Dec;
    var buffer := new Byte[BUFFER_SIZE];
    var current: nat;
    if value == MIN_LARGEST_INT {
      current := UintToString(MAX_LARGEST_INT + 1, buffer, BUFFER_SIZE);
      current := Prepend(MINUS, buffer, current);
    } else if value < 0 {
      current := UintToString(-value, buffer, BUFFER_SIZE);
      current := Prepend(MINUS, buffer, current);
    } else {
      current := UintToString(value, buffer, BUFFER_SIZE);
    }
    r := CString(buffer, current, IntText(value));
  }

  /** valueToString(LargestUInt). */
  method UIntToString(value: int) returns (r: Str)
    requires 0 <= value <= MAX_LARGEST_UINT
    ensures r == IntText(value)
  {
    var buffer := new Byte[BUFFER_SIZE];
    var current := UintToString(value, buffer, BUFFER_SIZE);
    assert buffer[current..] == Dec(value) + [0];
    r := CString(buffer, current, Dec(value));
  }

  /** The String made from a C string: the bytes up to the first NUL. */
  method CString(buffer: array<Byte>, start: nat, ghost text: Str) returns (r: Str)
    requires start <= buffer.Length && buffer[start..] == text + [0]
    requires 0 !in text
    ensures r == text
  {
    assert forall k :: 0 <= k < |text| ==> buffer[start + k] == buffer[start..][k] == text[k];
    assert buffer[start + |text|] == buffer[start..][|text|] == 0;
    var k := 0;
    while buffer[start + k] != 0
      invariant 0 <= k <= |text| && start + |text| < buffer.Length
      decreases |text| - k
    {
      k := k + 1;
    }
    r := buffer[start..start + k];
    assert r == buffer[start..][..k];
  }

  // ----- reading -----

  datatype Decoded = Integer(n: int) | HandOver

  /** What decodeNumber is for: the exact integer where it fits in 64 bits, else the double path. */
  function DecodeInteger(text: Str): Decoded {
    var negative := text != [] && text[0] == MINUS;
    var body := if negative then text[1..] else text;
    if !AllDigits(body) then HandOver
    else if negative then (if Num(body) <= MAX_LARGEST_INT + 1 then Integer(0 - Num(body)) else HandOver)
    else (if Num(body) <= MAX_LARGEST_UINT then Integer(Num(body)) else HandOver)
  }

  /** The tag Reader chooses: uintValue for everything above Value::maxInt. */
  function Tagged(n: int): Value {
    if n <= MAX_INT then Int(n) else UInt(n)
  }

  lemma {:induction false} NumPrefix(t: Str, k: nat)
    requires k <= |t| && AllDigits(t)
    ensures Num(t) >= Num(t[..k])
  {
    if k < |t| {
      var u := t[..|t| - 1];
      NumPrefix(u, k);
      assert u[..k] == t[..k];
    } else {
      assert t[..k] == t;
    }
  }

  /** Once past the threshold, or at it with a digit too many or too large, the text is out of range. */
  lemma TooLarge(body: Str, k: nat, max: nat)
    requires k < |body| && AllDigits(body) && max >= 10
    requires var v, d := Num(body[..k]), body[k] - ZERO;
      v > max / 10 || (v == max / 10 && (k + 1 != |body| || d > max % 10))
    ensures Num(body) > max
  {
    assert body[..k + 1][..k] == body[..k];
    NumPrefix(body, k + 1);
    if Num(body[..k]) == max / 10 && k + 1 != |body| {
      assert body[..k + 2][..k + 1] == body[..k + 1];
      NumPrefix(body, k + 2);
    } else if k + 1 == |body| {
      assert body[..k + 1] == body;
    }
  }

  lemma NumStep(body: Str, k: nat)
    requires k < |body| && AllDigits(body[..k]) && IsDigit(body[k])
    ensures AllDigits(body[..k + 1]) && Num(body[..k + 1]) == 10 * Num(body[..k]) + (body[k] - ZERO)
  {
    assert body[..k + 1][..k] == body[..k];
  }

  /** Reader::decodeNumber: unsigned accumulation modulo 2^64, guarded by a tenth of the maximum. */
  method DecodeNumber(text: Str) returns (r: Decoded)
    requires text != []
    ensures r == DecodeInteger(text)
  {
    var current := 0;
    assert Num([]) == 0;
    hide Num;
    var isNegative := text[current] == MINUS;
    if isNegative {
      current := current + 1;
    }
    ghost var body := if isNegative then text[1..] else text;
    var maxIntegerValue: nat := if isNegative then MAX_LARGEST_INT + 1 else MAX_LARGEST_UINT;
    var threshold := maxIntegerValue / 10;
    var value: int := 0;
    ghost var sign := current;
    while current < |text|
      invariant sign <= current <= |text|
      invariant AllDigits(body[..current - sign]) && value == Num(body[..current - sign])
      invariant value <= maxIntegerValue
    {
      var c := text[current];
      ghost var k := current - sign;
      assert c == body[k];
      current := current + 1;
      if c < ZERO || c > NINE {
        return HandOver;
      }
      var digit := c - ZERO;
      if value >= threshold {
        if value > threshold || current != |text| || digit > maxIntegerValue % 10 {
          if AllDigits(body) { TooLarge(body, k, maxIntegerValue); }
          return HandOver;
        }
      }
      assert value * 10 + digit <= maxIntegerValue;
      value := (value * 10 + digit) % TWO64;
      NumStep(body, k);
    }
    assert body[..current - sign] == body;
    if isNegative && value == maxIntegerValue {
      r := Integer(MIN_LARGEST_INT);
    } else if isNegative {
      r := Integer(-value);
    } else {
      r := Integer(value);
    }
  }

  /** OurReader::decodeNumber: constant thresholds, and a negation split to avoid overflow. */
  method OurDecodeNumber(text: Str) returns (r: Decoded)
    requires text != []
    ensures r == DecodeInteger(text)
  {
    var current := 0;
    assert Num([]) == 0;
    hide Num;
    var isNegative := text[current] == MINUS;
    if isNegative {
      current := current + 1;
    }
    ghost var body := if isNegative then text[1..] else text;
    ghost var max: nat := if isNegative then -MIN_LARGEST_INT else MAX_LARGEST_UINT;
    var positiveThreshold, positiveLastDigit := MAX_LARGEST_UINT / 10, MAX_LARGEST_UINT % 10;
    var negativeThreshold, negativeLastDigit := (-MIN_LARGEST_INT) / 10, (-MIN_LARGEST_INT) % 10;
    var threshold := if isNegative then negativeThreshold else positiveThreshold;
    var maxLastDigit := if isNegative then negativeLastDigit else positiveLastDigit;
    var value: int := 0;
    ghost var sign := current;
    while current < |text|
      invariant sign <= current <= |text|
      invariant AllDigits(body[..current - sign]) && value == Num(body[..current - sign])
      invariant value <= max
    {
      var c := text[current];
      ghost var k := current - sign;
      assert c == body[k];
      current := current + 1;
      if c < ZERO || c > NINE {
        return HandOver;
      }
      var digit := c - ZERO;
      if value >= threshold {
        if value > threshold || current != |text| || digit > maxLastDigit {
          if AllDigits(body) { TooLarge(body, k, max); }
          return HandOver;
        }
      }
      assert value * 10 + digit <= max;
      value := (value * 10 + digit) % TWO64;
      NumStep(body, k);
    }
    assert body[..current - sign] == body;
    if isNegative {
      var lastDigit := value % 10;
      // every intermediate result stays inside LargestInt
      assert MIN_LARGEST_INT <= -(value / 10) * 10 - lastDigit;
      r := Integer(-(value / 10) * 10 - lastDigit);
    } else {
      r := Integer(value);
    }
  }

  /** Both decoders undo both printers on every 64-bit integer. */
  lemma IntegerRoundTrip(i: int)
    requires MIN_LARGEST_INT <= i <= MAX_LARGEST_UINT
    ensures DecodeInteger(IntText(i)) == Integer(i)
  {
    if i < 0 {
      NumOfDec(-i);
      assert IntText(i)[1..] == Dec(-i);
    } else {
      NumOfDec(i);
    }
  }

  /** A sign alone is read as zero, although it is not a JSON number. */
  lemma LoneMinusIsZero()
    ensures DecodeInteger([MINUS]) == Integer(0)
  {
    assert [MINUS][1..] == [];
  }
}
