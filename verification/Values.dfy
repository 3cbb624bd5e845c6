/** lib/util.c, lib/include/value.h: the values a keyval holds. */
module Values {
  import opened Versions

  datatype ValueType = StringType | IntegerType | FloatType | BooleanType | EnumType

  /** Doubles are modelled as reals: rounding is not part of the model. */
  datatype Value =
    | StringValue(s: string)
    | IntegerValue(i: int)
    | FloatValue(r: real)
    | BooleanValue(b: bool)
    | EnumValue(s: string)
  {
    function Type(): ValueType {
      match this
      case StringValue(_) => StringType
      case IntegerValue(_) => IntegerType
      case FloatValue(_) => FloatType
      case BooleanValue(_) => BooleanType
      case EnumValue(_) => EnumType
    }
  }

  /** A C cast from double to int drops the fraction. */
  function Truncate(r: real): int {
    if r < 0.0 then -((-r).Floor) else r.Floor
  }

  /** memcmp on two strings of the same length */
  function CompareBytes(a: string, b: string): int
    requires |a| == |b|
  {
    if a == "" then 0
    else if a[0] != b[0] then a[0] as int - b[0] as int
    else CompareBytes(a[1..], b[1..])
  }

  lemma {:induction false} CompareBytesZero(a: string, b: string)
    requires |a| == |b|
    ensures CompareBytes(a, b) == 0 <==> a == b
  {
    if a != "" {
      CompareBytesZero(a[1..], b[1..]);
      assert a == [a[0]] + a[1..] && b == [b[0]] + b[1..];
    }
  }

  const INT_MIN := -0x8000_0000

  /** dx_value_compare: zero is taken for equal. */
  function CompareValues(a: Value, b: Value): int {
    if a.Type() != b.Type() then INT_MIN
    else
      match (a, b)
      case (IntegerValue(x), IntegerValue(y)) => Wrap32(x - y)
      case (FloatValue(x), FloatValue(y)) => Truncate(x - y)
      case (BooleanValue(x), BooleanValue(y)) => (if x then 1 else 0) - (if y then 1 else 0)
      case (StringValue(x), StringValue(y)) => if |x| != |y| then |x| - |y| else CompareBytes(x, y)
      case (EnumValue(x), EnumValue(y)) => if |x| != |y| then |x| - |y| else CompareBytes(x, y)
      case _ => INT_MIN
  }

  predicate SameValue(a: Value, b: Value) {
    CompareValues(a, b) == 0
  }

  /**
   * Exactly which values compare as equal: integers that agree in their low 32
   * bits, floats less than one apart, everything else only when identical.
   */
  lemma SameValueIff(a: Value, b: Value)
    ensures SameValue(a, b) <==>
            match (a, b)
            case (IntegerValue(x), IntegerValue(y)) => (x - y) % 0x1_0000_0000 == 0
            case (FloatValue(x), FloatValue(y)) => -1.0 < x - y < 1.0
            case _ => a == b
  {
    match (a, b)
    case (StringValue(x), StringValue(y)) =>
      if |x| == |y| {
        CompareBytesZero(x, y);
      }
    case (EnumValue(x), EnumValue(y)) =>
      if |x| == |y| {
        CompareBytesZero(x, y);
      }
    case (IntegerValue(x), IntegerValue(y)) => Wrap32Zero(x - y);
    case _ =>
  }

  lemma Wrap32Zero(x: int)
    ensures Wrap32(x) == 0 <==> x % 0x1_0000_0000 == 0
  {
  }

  /** The comparison is exact on integers of 32 bits and on all types but floats. */
  lemma SameValueExact(a: Value, b: Value)
    requires !a.FloatValue?
    requires a.IntegerValue? ==> -0x4000_0000 <= a.i < 0x4000_0000
    requires b.IntegerValue? ==> -0x4000_0000 <= b.i < 0x4000_0000
    ensures SameValue(a, b) <==> a == b
  {
    SameValueIff(a, b);
  }

  /** Two different integers, and two different floats, that compare as equal. */
  lemma SameValueFails()
    ensures SameValue(IntegerValue(0x1_0000_0000), IntegerValue(0))
    ensures SameValue(FloatValue(0.25), FloatValue(0.75))
  {
    SameValueIff(FloatValue(0.25), FloatValue(0.75));
  }
}
