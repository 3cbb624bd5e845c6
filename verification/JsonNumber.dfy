/**
 * 3rdparty/jsoncpp: integers between text and 64-bit values. A string stands for
 * a byte sequence, one character a byte.
 */
module JsonNumber {
  import opened Numbers

  const MAX_UINT64: int := 0xFFFF_FFFF_FFFF_FFFF
  const MAX_INT64: int := 0x7FFF_FFFF_FFFF_FFFF
  const MAX_INT32: int := 0x7FFF_FFFF
  /** uintToStringBufferSize: three characters a byte and the terminator. */
  const BUFFER_SIZE: nat := 25

  lemma TwentyDigits()
    ensures MAX_UINT64 < Pow10(20)
  {
    assert Pow10(5) == 100000;
    assert Pow10(10) == 100000 * Pow10(5);
    assert Pow10(15) == 100000 * Pow10(10);
    assert Pow10(20) == 100000 * Pow10(15);
  }

  /**
   * uintToString: digits are written backwards from `current`, after a
   * terminator. The result is the position of the first digit.
   */
  method UintToString(value: nat, buffer: array<char>, current: nat) returns (start: nat)
    requires current <= buffer.Length && |Decimal(value)| < current
    modifies buffer
    ensures start == current - 1 - |Decimal(value)|
    ensures buffer[current - 1] == '\0'
    ensures buffer[start..current - 1] == Decimal(value)
    ensures forall i :: 0 <= i < start || current <= i < buffer.Length ==> buffer[i] == old(buffer[i])
  {
    start := current - 1;
    buffer[start] := '\0';
    var rest := value;
    start := start - 1;
    buffer[start] := DigitOf(rest % 10);
    rest := rest / 10;
    while rest != 0
      invariant 0 <= start < current - 1
      invariant buffer[current - 1] == '\0'
      invariant rest != 0 ==> |Decimal(rest)| <= start
      invariant (if rest == 0 then [] else Decimal(rest)) + buffer[start..current - 1] == Decimal(value)
      invariant forall i :: 0 <= i < start || current <= i < buffer.Length ==> buffer[i] == old(buffer[i])
    {
      ghost var tail := buffer[start..current - 1];
      start := start - 1;
      buffer[start] := DigitOf(rest % 10);
      assert buffer[start..current - 1] == [DigitOf(rest % 10)] + tail;
      rest := rest / 10;
    }
  }

  /** valueToString(LargestInt): the text of every 64-bit value fits its buffer. */
  method ValueToString(value: int) returns (text: string)
    requires -MAX_INT64 - 1 <= value <= MAX_INT64
    ensures text == SignedDecimal(value)
  {
    var buffer := new char[BUFFER_SIZE];
    var magnitude: nat := if value < 0 then -value else value;
    TwentyDigits();
    DecimalLength(magnitude, 20);
    var current := UintToString(magnitude, buffer, BUFFER_SIZE);
    if value < 0 {
      ghost var digits := buffer[current..BUFFER_SIZE - 1];
      current := current - 1;
      buffer[current] := '-';
      assert buffer[current + 1..BUFFER_SIZE - 1] == digits;
    }
    text := buffer[current..BUFFER_SIZE - 1];
  }

  /** valueToString(LargestUInt) */
  method UnsignedToString(value: nat) returns (text: string)
    requires value <= MAX_UINT64
    ensures text == Decimal(value)
  {
    var buffer := new char[BUFFER_SIZE];
    TwentyDigits();
    DecimalLength(value, 20);
    var current := UintToString(value, buffer, BUFFER_SIZE);
    text := buffer[current..BUFFER_SIZE - 1];
  }

  /** What a number token decodes to: an integer with its tag, or left to the double conversion. */
  datatype Number = Signed(i: int) | Unsigned(u: nat) | AsDouble

  function IsNegative(token: string): bool {
    token != "" && token[0] == '-'
  }

  function Digits(token: string): string {
    if IsNegative(token) then token[1..] else token
  }

  function Limit(token: string): nat {
    if IsNegative(token) then MAX_INT64 + 1 else MAX_UINT64
  }

  /** The integer a value of that sign is stored as. */
  function Tagged(negative: bool, value: nat): Number {
    if negative then Signed(0 - value) else if value <= MAX_INT32 then Signed(value) else Unsigned(value)
  }

  /** A token is kept as an exact integer if and only if it is all digits and its value fits. */
  ghost function Decoded(token: string): Number {
    var digits := Digits(token);
    if AllDigits(digits) && 0 <= ValueOf(digits) <= Limit(token) then Tagged(IsNegative(token), ValueOf(digits))
    else AsDouble
  }

  lemma {:induction false} ValueGrows(s: string, k: nat)
    requires k <= |s| && AllDigits(s)
    ensures 0 <= ValueOf(s[..k]) <= ValueOf(s)
    ensures k < |s| ==> 10 * ValueOf(s[..k]) <= ValueOf(s)
    ensures k + 1 < |s| ==> 100 * ValueOf(s[..k]) <= ValueOf(s)
  {
    if k == |s| {
      assert s[..k] == s;
      if s != "" {
        ValueGrows(s[..|s| - 1], |s| - 1);
      }
    } else {
      ValueGrows(s[..|s| - 1], k);
      assert s[..|s| - 1][..k] == s[..k];
    }
  }

  /** What the reader's overflow test, made before digit k is added, amounts to. */
  lemma OverLimit(s: string, k: nat, limit: nat)
    requires k < |s| && AllDigits(s) && limit >= 10
    requires ValueOf(s[..k]) >= limit / 10
    requires ValueOf(s[..k]) > limit / 10 || k + 1 < |s| || s[k] as int - '0' as int > limit % 10
    ensures ValueOf(s) > limit
  {
    ValueGrows(s, k);
    if k + 1 == |s| {
      assert s[..|s| - 1] == s[..k];
    }
  }

  /** decodeNumber(token, decoded) */
  method DecodeNumber(token: string) returns (decoded: Number)
    requires token != ""
    ensures decoded == Decoded(token)
  {
    ghost var digits := Digits(token);
    var isNegative := token[0] == '-';
    var current := if isNegative then 1 else 0;
    var base := current;
    var maxIntegerValue := if isNegative then MAX_INT64 + 1 else MAX_UINT64;
    var threshold := maxIntegerValue / 10;
    var value: nat := 0;
    while current < |token|
      invariant base <= current <= |token|
      invariant AllDigits(digits[..current - base]) && value == ValueOf(digits[..current - base])
      invariant value <= maxIntegerValue
    {
      ghost var k := current - base;
      var c := token[current];
      assert digits[k] == c;
      current := current + 1;
      if c < '0' || c > '9' {
        return AsDouble;
      }
      var digit := c as int - '0' as int;
      if value >= threshold {
        if value > threshold || current != |token| || digit > maxIntegerValue % 10 {
          if AllDigits(digits) {
            OverLimit(digits, k, maxIntegerValue);
          }
          return AsDouble;
        }
      }
      assert value * 10 + digit <= maxIntegerValue;
      value := value * 10 + digit;
      assert digits[..k + 1][..k] == digits[..k];
    }
    assert digits[..current - base] == digits;
    if isNegative && value == maxIntegerValue {
      decoded := Signed(-MAX_INT64 - 1);
    } else if isNegative {
      decoded := Signed(0 - value);
    } else if value <= MAX_INT32 {
      decoded := Signed(value);
    } else {
      decoded := Unsigned(value);
    }
  }

  /** Printing and decoding an integer gives it back; a non-negative one gets the tag of its size. */
  lemma IntegerRoundTrip(value: int)
    requires -MAX_INT64 - 1 <= value <= MAX_UINT64
    ensures Decoded(SignedDecimal(value)) == Tagged(value < 0, if value < 0 then -value else value)
  {
    var n := if value < 0 then -value else value;
    DecimalDenotes(n);
    assert Digits(SignedDecimal(value)) == Decimal(n) by {
      assert ("-" + Decimal(n))[1..] == Decimal(n);
      assert IsDigit(Decimal(n)[0]);
    }
  }
}
