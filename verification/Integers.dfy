/** The integer value parsers of the command line and the separate classifier
    that words their rejections. */
module Integers {
  import opened Basics
  import opened Decimal

  const UNSIGNED_32_MAX: int := 4294967295
  const SIGNED_64_MIN: int := -9223372036854775808
  const SIGNED_64_MAX: int := 9223372036854775807
  const NATIVE_SIZE_MAX: int := 18446744073709551615
  const MAX_SAFE_INTEGER: int := 9007199254740991

  /** A JavaScript result: a double (`Number`) or an exact BigInt. */
  datatype Numeric = Number(value: int) | Big(value: int)

  datatype ParseError =
    | NotUnsigned32
    | NotAnInteger
    | OutsideSigned64
    | NotUnsigned
    | OutsideNativeSize
    | NotJobs
    | OutsideJobLimit

  /** The scalar kinds that carry an integer. */
  datatype IntegerKind = U32 | U64 | Usize | I64 | Line | Positive | Jobs | JobLimit

  function ParseRemoteRecoveryJobs(value: string): Result<Numeric, ParseError> {
    if !PlusDigits(value) || BigInt(value) < 1 || BigInt(value) > 64 then Err(NotJobs)
    else Ok(Number(BigInt(value)))
  }

  function Unsigned32(value: string): Result<Numeric, ParseError> {
    if !SignedDigits(value) || BigInt(value) < 0 || BigInt(value) > UNSIGNED_32_MAX then Err(NotUnsigned32)
    else Ok(Number(BigInt(value)))
  }

  function Signed64(value: string): Result<Numeric, ParseError> {
    if !SignedDigits(value) then Err(NotAnInteger)
    else
      var integer := BigInt(value);
      if integer < SIGNED_64_MIN || integer > SIGNED_64_MAX then Err(OutsideSigned64)
      else Ok(Big(integer))
  }

  function NativeSize(value: string, minimum: int): Result<Numeric, ParseError> {
    if !PlusDigits(value) then Err(NotUnsigned)
    else
      var integer := BigInt(value);
      if integer < minimum || integer > NATIVE_SIZE_MAX then Err(OutsideNativeSize)
      else if integer <= MAX_SAFE_INTEGER then Ok(Number(integer))
      else Ok(Big(integer))
  }

  function PositiveNativeSize(value: string): Result<Numeric, ParseError> {
    NativeSize(value, 1)
  }

  /** The check that the token pass makes on a value of an integer kind; the
      value itself is kept as text. */
  function ParseInteger(kind: IntegerKind, value: string): Result<string, ParseError> {
    var parsed := match kind
      case U32 => Unsigned32(value)
      case U64 | Usize => NativeSize(value, 0)
      case I64 => Signed64(value)
      case Line | Positive => PositiveNativeSize(value)
      case Jobs => ParseRemoteRecoveryJobs(value)
      case JobLimit => Unsigned32(value);
    if parsed.Err? then Err(parsed.error)
    else if kind == JobLimit && (parsed.value.value < 1 || parsed.value.value > 1000) then Err(OutsideJobLimit)
    else Ok(value)
  }

  /** The conversion that a command handler makes later on the kept text. */
  function Convert(kind: IntegerKind, value: string): Result<Numeric, ParseError> {
    match kind
    case U32 => Unsigned32(value)
    case U64 | Usize => NativeSize(value, 0)
    case I64 => Signed64(value)
    case Line | Positive => PositiveNativeSize(value)
    case Jobs => ParseRemoteRecoveryJobs(value)
    case JobLimit =>
      var limit := Unsigned32(value);
      if limit.Ok? && (limit.value.value < 1 || limit.value.value > 1000) then Err(OutsideJobLimit) else limit
  }

  /** The smallest and largest integer a kind stands for. */
  function Lowest(kind: IntegerKind): int {
    match kind
    case U32 | U64 | Usize => 0
    case I64 => SIGNED_64_MIN
    case Line | Positive | Jobs | JobLimit => 1
  }

  function Highest(kind: IntegerKind): int {
    match kind
    case U32 => UNSIGNED_32_MAX
    case U64 | Usize | Line | Positive => NATIVE_SIZE_MAX
    case I64 => SIGNED_64_MAX
    case Jobs => 64
    case JobLimit => 1000
  }

  /** The kinds whose parser reads a minus sign. */
  predicate ReadsMinus(kind: IntegerKind) {
    kind in {U32, I64, JobLimit}
  }

  /** s writes n the way a kind reads it: zeros and a plus are always allowed,
      a minus (also before zero) only where the kind reads one. */
  ghost predicate Writes(kind: IntegerKind, s: string, n: int) {
    || (n >= 0 && (Spells(s, "", n) || Spells(s, "+", n)))
    || (n <= 0 && ReadsMinus(kind) && Spells(s, "-", -n))
  }

  /** Each kind accepts exactly the texts of the integers in its range, and the
      handler's later conversion of an accepted text gives that same integer. */
  lemma AcceptedExactly(kind: IntegerKind, s: string, n: int)
    ensures ParseInteger(kind, s) == Ok(s) && Convert(kind, s).Ok? && Convert(kind, s).value.value == n
            <==> Lowest(kind) <= n <= Highest(kind) && Writes(kind, s, n)
    ensures ParseInteger(kind, s).Ok? <==> Convert(kind, s).Ok?
  {
    BigIntExact(s, n);
  }

  /** Whatever the token pass accepts, the handler converts, to one integer of
      the kind's range; a Number is only given where doubles are exact. */
  lemma SecondConversionSucceeds(kind: IntegerKind, s: string)
    requires ParseInteger(kind, s).Ok?
    ensures ParseInteger(kind, s).value == s
    ensures Convert(kind, s).Ok?
    ensures var n := Convert(kind, s).value;
            && Lowest(kind) <= n.value <= Highest(kind) && Writes(kind, s, n.value)
            && (n.Number? ==> 0 <= n.value <= MAX_SAFE_INTEGER)
            && (n.Big? ==> kind == I64 || n.value > MAX_SAFE_INTEGER)
  {
    AcceptedExactly(kind, s, Convert(kind, s).value.value);
  }

  /** Printing an integer of the kind's range and parsing it gives it back. */
  lemma ParsesItsOwnText(kind: IntegerKind, n: int)
    requires Lowest(kind) <= n <= Highest(kind)
    ensures ParseInteger(kind, IntText(n)) == Ok(IntText(n))
    ensures Convert(kind, IntText(n)).Ok? && Convert(kind, IntText(n)).value.value == n
  {
    IntTextRoundTrip(n);
  }

  // ----- the rejection classifier

  datatype Reason =
    | JobsMustBeInteger
    | JobsMustBeInRange
    | LimitMustBeInteger
    | LimitMustBeInRange
    | MustBePositiveInteger
    | MustBeOneOrGreater
    | EmptyString
    | InvalidDigit
    | TooSmall
    | TooLarge
    | NotIn32BitRange(integer: int)
    | ParserMessage

  function ScalarErrorReason(kind: IntegerKind, value: string): Reason {
    var unsigned := PlusDigits(value);
    match kind
    case Jobs =>
      if !unsigned || BigInt(value) > NATIVE_SIZE_MAX then JobsMustBeInteger else JobsMustBeInRange
    case JobLimit =>
      if !unsigned || BigInt(value) > UNSIGNED_32_MAX then LimitMustBeInteger else LimitMustBeInRange
    case Line | Positive =>
      if !unsigned || BigInt(value) > NATIVE_SIZE_MAX then MustBePositiveInteger else MustBeOneOrGreater
    case U32 | U64 | Usize | I64 =>
      var signed := kind == I64 || kind == U32;
      if value == "" then EmptyString
      else if !(if signed then SignedDigits(value) else PlusDigits(value)) then InvalidDigit
      else
        var integer := BigInt(value);
        if integer < SIGNED_64_MIN then TooSmall
        else if integer > (if signed then SIGNED_64_MAX else NATIVE_SIZE_MAX) then TooLarge
        else if kind == U32 then NotIn32BitRange(integer)
        else ParserMessage
  }

  /** The widest integers a kind's text may denote before the reason speaks of
      overflow instead of the kind's own range. */
  function WidestHighest(kind: IntegerKind): int {
    match kind
    case U32 | I64 => SIGNED_64_MAX
    case JobLimit => UNSIGNED_32_MAX
    case U64 | Usize | Line | Positive | Jobs => NATIVE_SIZE_MAX
  }

  /** s writes some integer satisfying no further condition than its language. */
  ghost predicate WritesSome(kind: IntegerKind, s: string) {
    exists n: int :: Writes(kind, s, n)
  }

  /** s writes some integer above a bound. */
  ghost predicate WritesAbove(kind: IntegerKind, s: string, bound: int) {
    exists n: int :: Writes(kind, s, n) && n > bound
  }

  lemma WritesItsValue(kind: IntegerKind, s: string)
    ensures WritesSome(kind, s) <==> if ReadsMinus(kind) then SignedDigits(s) else PlusDigits(s)
    ensures forall n :: Writes(kind, s, n) ==> SignedDigits(s) && BigInt(s) == n
  {
    forall n: int | Writes(kind, s, n)
      ensures (if ReadsMinus(kind) then SignedDigits(s) else PlusDigits(s)) && BigInt(s) == n
    {
      BigIntExact(s, n);
    }
    if if ReadsMinus(kind) then SignedDigits(s) else PlusDigits(s) {
      BigIntExact(s, BigInt(s));
      assert Writes(kind, s, BigInt(s));
    }
  }

  lemma WritesAboveMeaning(kind: IntegerKind, s: string, bound: int)
    ensures WritesAbove(kind, s, bound) <==> WritesSome(kind, s) && SignedDigits(s) && BigInt(s) > bound
  {
    WritesItsValue(kind, s);
    if WritesSome(kind, s) {
      BigIntExact(s, BigInt(s));
      assert Writes(kind, s, BigInt(s));
    }
  }

  /** For a rejected 32- or 64-bit value the reason names the one thing that is
      wrong with it, and the raw parser message is never shown. */
  lemma WidthReasonIsTheCause(kind: IntegerKind, s: string)
    requires kind in {U32, U64, Usize, I64}
    requires ParseInteger(kind, s).Err?
    ensures var reason := ScalarErrorReason(kind, s);
            && reason != ParserMessage
            && (reason == EmptyString <==> s == "")
            && (reason == InvalidDigit <==> s != "" && !WritesSome(kind, s))
            && (reason == TooSmall <==> exists n :: Writes(kind, s, n) && n < SIGNED_64_MIN)
            && (reason == TooLarge <==> WritesAbove(kind, s, WidestHighest(kind)))
            && (forall n :: reason == NotIn32BitRange(n) <==>
                  kind == U32 && Writes(kind, s, n) && SIGNED_64_MIN <= n <= SIGNED_64_MAX)
            && (forall n :: reason == NotIn32BitRange(n) ==> !(0 <= n <= UNSIGNED_32_MAX))
  {
    WritesItsValue(kind, s);
    WritesAboveMeaning(kind, s, WidestHighest(kind));
    if WritesSome(kind, s) {
      var n :| Writes(kind, s, n);
    }
  }

  /** Line numbers and positive sizes: "1 or greater" is the reason exactly when
      the text writes zero. */
  lemma PositiveReasonIsTheCause(kind: IntegerKind, s: string)
    requires kind in {Line, Positive}
    requires ParseInteger(kind, s).Err?
    ensures ScalarErrorReason(kind, s) == MustBeOneOrGreater <==> Writes(kind, s, 0)
    ensures ScalarErrorReason(kind, s) == MustBePositiveInteger <==>
            !WritesSome(kind, s) || WritesAbove(kind, s, WidestHighest(kind))
  {
    WritesItsValue(kind, s);
    WritesAboveMeaning(kind, s, WidestHighest(kind));
    BigIntExact(s, 0);
  }

  /** Job counts: the range reason is given exactly for a text that writes an
      out-of-range integer of native size. */
  lemma JobsReasonIsTheCause(s: string)
    requires ParseInteger(Jobs, s).Err?
    ensures ScalarErrorReason(Jobs, s) == JobsMustBeInRange <==>
            exists n :: Writes(Jobs, s, n) && (n < 1 || 64 < n) && n <= NATIVE_SIZE_MAX
    ensures ScalarErrorReason(Jobs, s) in {JobsMustBeInteger, JobsMustBeInRange}
  {
    WritesItsValue(Jobs, s);
    if WritesSome(Jobs, s) {
      var n :| Writes(Jobs, s, n);
    }
  }

  /** Job limits are checked in two stages, and the classifier blames the stage
      that failed except for zero written with a minus: the parser rejects it as
      out of range, the classifier calls it no integer. */
  lemma JobLimitReasonIsTheCause(s: string)
    requires ParseInteger(JobLimit, s).Err?
    ensures ScalarErrorReason(JobLimit, s) in {LimitMustBeInteger, LimitMustBeInRange}
    ensures (ScalarErrorReason(JobLimit, s) == LimitMustBeInRange <==> ParseInteger(JobLimit, s) == Err(OutsideJobLimit))
            <==> !Spells(s, "-", 0)
  {
    WritesItsValue(JobLimit, s);
    SignedSpelling(s, '-', 0);
    if SignedDigits(s) {
      BigIntExact(s, BigInt(s));
    }
  }

  lemma MinusZeroLimitIsMisclassified()
    ensures ParseInteger(JobLimit, "-0") == Err(OutsideJobLimit)
    ensures ScalarErrorReason(JobLimit, "-0") == LimitMustBeInteger
  {
    var s := "-0";
    assert s[1..] == "0" && NatValue("0") == 10 * NatValue("") + 0;
  }
}
