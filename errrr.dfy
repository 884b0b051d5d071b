/** The error-type exercise of errrr/src/lib.rs: the `MyErr` enum with its
    messages, `failer`, which always fails parsing "NaN", and `add`, which adds
    only when its left operand is at most 20. */
module Errrr {
  import opened Wrappers
  import opened Ints
  import opened Decimal

  // ---------------------------------------------------------------------------
  // The part of `str::parse::<u32>` that `failer` relies on

  /** The kinds of std::num::ParseIntError an unsigned parse can produce. */
  datatype IntErrorKind = Empty | InvalidDigit | PosOverflow

  datatype ParseIntError = ParseIntError(kind: IntErrorKind)

  /** An unsigned parse accepts one leading '+'. */
  function UnsignedDigits(s: string): string {
    if |s| > 0 && s[0] == '+' then s[1..] else s
  }

  /** The digit loop of an unsigned decimal parse, left to right: a non-digit
      fails with InvalidDigit, exceeding u32::MAX with PosOverflow. */
  function AccumulateU32(d: string, acc: u32): (r: Result<u32, ParseIntError>)
    ensures r.Success? ==> AllDigits(d) && r.value as int == ValueFrom(acc as nat, d)
    ensures AllDigits(d) && ValueFrom(acc as nat, d) < 0x1_0000_0000 ==> r.Success?
    ensures d != [] && !IsDigit(d[0]) ==> r == Failure(ParseIntError(InvalidDigit))
    ensures r.Failure? ==> r.error.kind != Empty
    decreases |d|
  {
    if d == [] then Success(acc)
    else if !IsDigit(d[0]) then Failure(ParseIntError(InvalidDigit))
    else
      var next := acc as int * 10 + DigitValue(d[0]);
      var rest := d[1..];
      assert d == [d[0]] + rest;
      if next >= 0x1_0000_0000 then
        var overflow := Failure(ParseIntError(PosOverflow));
        if AllDigits(rest) then ValueFromAtLeast(next, rest); overflow else overflow
      else
        AccumulateU32(rest, next as u32)
  }

  /** `"…".parse::<u32>()`, as the standard library defines it. */
  function ParseU32(s: string): (r: Result<u32, ParseIntError>)
    ensures r == Failure(ParseIntError(Empty)) <==> s == []
    ensures var d := UnsignedDigits(s);
      r.Success? <==> d != [] && AllDigits(d) && Value(d) < 0x1_0000_0000
    ensures r.Success? ==> r.value as int == Value(UnsignedDigits(s))
  {
    var d := UnsignedDigits(s);
    if s == [] then Failure(ParseIntError(Empty))
    else if |s| == 1 && (s[0] == '+' || s[0] == '-') then Failure(ParseIntError(InvalidDigit))
    else if AllDigits(d) then ValueFromIsValue(0, d); AccumulateU32(d, 0)
    else AccumulateU32(d, 0)
  }

  /** "NaN" is not a number: its first character is not a digit. */
  lemma ParseNaN()
    ensures ParseU32("NaN") == Failure(ParseIntError(InvalidDigit))
  {
    assert UnsignedDigits("NaN") == "NaN";
    assert !IsDigit("NaN"[0]);
  }

  // ---------------------------------------------------------------------------
  // MyErr

  datatype MyErr =
    | MathHard(source: ParseIntError)
    | OhDear(value: string)
    | DarnIt(expected: string, found: string)
    | Mystery

  /** The `#[error(...)]` message of each variant. */
  function MyErrMessage(e: MyErr): string {
    match e
    case MathHard(_) => "we've all been there"
    case OhDear(s) => "number was invalid `" + s + "`"
    case DarnIt(expected, found) => "go " + found + " expected " + expected
    case Mystery => "raise a ticket"
  }

  /** The message tells the variant (each template opens with its own letter),
      and an `OhDear` message gives back the value between its backticks. */
  lemma MessageIdentifiesVariant(a: MyErr, b: MyErr)
    requires MyErrMessage(a) == MyErrMessage(b)
    ensures a.MathHard? <==> b.MathHard?
    ensures a.OhDear? <==> b.OhDear?
    ensures a.DarnIt? <==> b.DarnIt?
    ensures a.Mystery? <==> b.Mystery?
    ensures a.OhDear? ==> a == b
  {
    var m := MyErrMessage(a);
    assert m[0] == MyErrMessage(b)[0];
    if a.OhDear? && b.OhDear? {
      OhDearMessageValue(a.value);
      OhDearMessageValue(b.value);
    }
  }

  lemma OhDearMessageValue(s: string)
    ensures var m := MyErrMessage(OhDear(s));
      |m| == |s| + 21 && m[..20] == "number was invalid `" && m[20..|m| - 1] == s && m[|m| - 1] == '`'
  {
    var m := MyErrMessage(OhDear(s));
    assert m == "number was invalid `" + s + "`";
  }

  /** `DarnIt` names what was found before what was expected. */
  lemma DarnItMessageOrder(expected: string, found: string)
    ensures var m := MyErrMessage(DarnIt(expected, found));
      && m[..3] == "go "
      && m[3..3 + |found|] == found
      && m[3 + |found|..3 + |found| + 10] == " expected "
      && m[3 + |found| + 10..] == expected
  {
    var m := MyErrMessage(DarnIt(expected, found));
    assert m == "go " + found + " expected " + expected;
  }

  /** `#[from] ParseIntError`. */
  function MyErrFromParseIntError(e: ParseIntError): (m: MyErr)
    ensures m.MathHard? && m.source == e
  {
    MathHard(e)
  }

  /** `failer`: parse "NaN" as a u32 and wrap the parse error. */
  function Failer(): (r: Result<(), MyErr>)
    ensures r.Failure? && r.error.MathHard?
    ensures r.error.source == ParseIntError(InvalidDigit)
  {
    ParseNaN();
    var parsed := ParseU32("NaN");
    if parsed.Failure? then Failure(MyErrFromParseIntError(parsed.error))
    else assert false; Failure(Mystery)
  }

  /** The unit test of `failer` expects `Mystery`; the code gives `MathHard`. */
  lemma FailerIsNotMystery()
    ensures Failer().Failure? && Failer().error != Mystery
  {
  }

  // ---------------------------------------------------------------------------
  // add

  /** The anyhow error that `.context(msg)` makes of a `MyErr`: the context
      message outermost, the `MyErr` as its cause. */
  datatype ContextError = ContextError(context: string, cause: MyErr)

  /** Display of the error shows its outermost message. */
  function ErrorMessage(e: ContextError): string {
    e.context
  }

  /** anyhow's `Context::context` on a `Result`. */
  function Context<T>(r: Result<T, MyErr>, msg: string): Result<T, ContextError> {
    match r
    case Success(v) => Success(v)
    case Failure(e) => Failure(ContextError(msg, e))
  }

  const Two: i32 := 2

  /** `add(left, right)` on i32: above 20 the left operand sends it through
      `failer()?`; otherwise it returns the sum, which must not overflow. */
  function Add(left: i32, right: i32): Result<i32, ContextError>
    requires left > 20 || InI32(left as int + right as int)
  {
    if left > 20 then
      var step := Context(Failer(), "oh dear");
      if step.Failure? then Failure(step.error) else Success(Two)
    else
      Success((left as int + right as int) as i32)
  }

  /** Up to and including 20, `add` is addition. */
  lemma AddUpToThreshold(left: i32, right: i32)
    requires left <= 20 && InI32(left as int + right as int)
    ensures Add(left, right).Success?
    ensures Add(left, right).value as int == left as int + right as int
  {
  }

  /** The threshold is not strict on the left: 20 itself still adds. */
  lemma AddAtThreshold(right: i32)
    requires InI32(20 + right as int)
    ensures Add(20, right) == Success((20 + right as int) as i32)
  {
  }

  /** Above 20, `add` fails whatever `right` is, with "oh dear" outermost and
      the `MathHard` parse failure as its cause. */
  lemma AddAboveThresholdFails(left: i32, right: i32)
    requires left > 20
    ensures Add(left, right).Failure?
    ensures ErrorMessage(Add(left, right).error) == "oh dear"
    ensures Add(left, right).error.cause == MathHard(ParseIntError(InvalidDigit))
  {
  }

  /** `add` succeeds exactly when its left operand is at most 20; so the
      `Ok(2)` after `failer()?` is never returned. */
  lemma AddSucceedsIff(left: i32, right: i32)
    requires left > 20 || InI32(left as int + right as int)
    ensures Add(left, right).Success? <==> left <= 20
    ensures left > 20 ==> Add(left, right) != Success(2)
  {
  }

  /** The unit test `it_works` expects `add(22, 2)` to succeed; it fails. */
  lemma AddTwentyTwoFails()
    ensures Add(22, 2).Failure?
  {
  }
}
