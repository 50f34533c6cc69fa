/** The integer paths of JSToLengthNode: ToLength of section 7.1.15 of ECMAScript
    2015 (ECMA-262 6th edition) on values that are already integers, clamping them
    into [0, 2^53 - 1] as a Java `long`. */
module ToLength {

  newtype int32 = x: int | -0x8000_0000 <= x < 0x8000_0000
  newtype int64 = x: int | -0x8000_0000_0000_0000 <= x < 0x8000_0000_0000_0000

  /** 2^53 - 1, the largest integer a double holds exactly and the largest length. */
  const MAX_SAFE_INTEGER: int64 := 9007199254740991

  /** An integer of magnitude at most 2^53 - 1, carried as a `long`. */
  type SafeInteger = x: int64 | -MAX_SAFE_INTEGER <= x <= MAX_SAFE_INTEGER

  /** ToLength as the standard states it, for an argument whose ToInteger value is
      `len`: non-positive lengths become 0, the rest min(len, 2^53 - 1). */
  function SpecToLength(len: int): int {
    if len <= 0 then 0 else if len < MAX_SAFE_INTEGER as int then len else MAX_SAFE_INTEGER as int
  }

  /** `doLong`: the clamp shared by the non-integer paths. */
  function DoLong(value: int64): (r: int64)
    ensures 0 <= r <= MAX_SAFE_INTEGER
    ensures r as int == SpecToLength(value as int)
  {
    if value < 0 then 0
    else if value > MAX_SAFE_INTEGER then MAX_SAFE_INTEGER
    else value
  }

  /** `doInt`: an `int` argument can never exceed the bound, so only its sign matters;
      the answer agrees with the general clamp. */
  function DoInt(value: int32): (r: int64)
    ensures r == DoLong(value as int64)
    ensures value < 0 ==> r == 0
    ensures value >= 0 ==> r as int == value as int
  {
    if value < 0 then 0 else value as int64
  }

  /** `doSafeInteger`: a safe integer is within the bound, so only its sign matters;
      the answer agrees with the general clamp. */
  function DoSafeInteger(value: SafeInteger): (r: int64)
    ensures r == DoLong(value)
    ensures value < 0 ==> r == 0
    ensures value >= 0 ==> r == value
  {
    var longValue := value;
    if longValue < 0 then 0 else longValue
  }

  /** `doUndefined`: undefined has length 0. */
  function DoUndefined(): (r: int64)
    ensures r as int == SpecToLength(0)
  {
    0
  }

  /** The arguments whose ToLength the model covers. */
  datatype LengthArgument =
    | Undefined
    | IntArgument(i: int32)
    | SafeIntegerArgument(si: SafeInteger)

  /** ToInteger of the argument: undefined is NaN, which ToInteger maps to 0. */
  function IntegerValue(v: LengthArgument): int {
    match v
    case Undefined => 0
    case IntArgument(i) => i as int
    case SafeIntegerArgument(si) => si as int
  }

  /** `executeLong` on the covered arguments: each specialization yields the length
      the standard prescribes. */
  function ExecuteLong(v: LengthArgument): (r: int64)
    ensures 0 <= r <= MAX_SAFE_INTEGER
    ensures r as int == SpecToLength(IntegerValue(v))
  {
    match v
    case Undefined => DoUndefined()
    case IntArgument(i) => DoInt(i)
    case SafeIntegerArgument(si) => DoSafeInteger(si)
  }

  /** Lengths already in range are left alone, values above it saturate, negative
      values become 0. */
  lemma DoLongCases(value: int64)
    ensures 0 <= value <= MAX_SAFE_INTEGER ==> DoLong(value) == value
    ensures value > MAX_SAFE_INTEGER ==> DoLong(value) == MAX_SAFE_INTEGER
    ensures value < 0 ==> DoLong(value) == 0
  {
  }

  /** Clamping twice is clamping once. */
  lemma DoLongIdempotent(value: int64)
    ensures DoLong(DoLong(value)) == DoLong(value)
  {
  }

  /** The clamp preserves order. */
  lemma DoLongMonotone(x: int64, y: int64)
    requires x <= y
    ensures DoLong(x) <= DoLong(y)
  {
  }
}
