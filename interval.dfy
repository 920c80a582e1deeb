/**
 * The `--interval` option: the validator that the argument parser runs on the
 * raw string (`parse::<u64>()`, then non-zero) and the second parse, as `i64`,
 * whose failure is unwrapped.
 */
module Interval {
  import opened Wrappers
  import opened Text

  const U64_MAX: nat := 0xFFFF_FFFF_FFFF_FFFF
  const I64_MAX: nat := 0x7FFF_FFFF_FFFF_FFFF
  const I64_MIN: int := -0x8000_0000_0000_0000

  /** One or more decimal digits and nothing else. */
  predicate Numeral(s: string) { s != [] && AllDigits(s) }

  /** The string with one leading `c` removed, if it has one. */
  function DropSign(s: string, c: char): string
  {
    if |s| > 0 && s[0] == c then s[1..] else s
  }

  /** `str::parse::<u64>`: an optional '+', then decimal digits whose value is at most `U64_MAX`. */
  function ParseU64(s: string): (r: Option<nat>)
    ensures r.Some? ==> r.value <= U64_MAX
  {
    var digits := DropSign(s, '+');
    if Numeral(digits) && Value(digits) <= U64_MAX then Some(Value(digits)) else None
  }

  /** `str::parse::<i64>`: an optional '+' or '-', then decimal digits whose signed value fits in 64 bits. */
  function ParseI64(s: string): (r: Option<int>)
    ensures r.Some? ==> I64_MIN <= r.value <= I64_MAX
  {
    if |s| > 0 && s[0] == '-' then
      var digits := s[1..];
      if Numeral(digits) && Value(digits) <= -I64_MIN then Some(0 - Value(digits)) else None
    else
      var digits := DropSign(s, '+');
      if Numeral(digits) && Value(digits) <= I64_MAX then Some(Value(digits)) else None
  }

  datatype Validation = Accepted | Rejected(message: string)

  /** The validator closure given to the argument parser. */
  function Validate(s: string): (v: Validation)
    ensures v == Accepted <==> ParseU64(s).Some? && 1 <= ParseU64(s).value <= U64_MAX
  {
    match ParseU64(s)
    case Some(v) => if v == 0 then Rejected("must be greater than 0") else Accepted
    case None => Rejected("must be parsable as u64")
  }

  datatype ConfigError =
    | Usage(message: string)   // the parser reports the validator's message and stops
    | UnwrapFailed             // `parse::<i64>().unwrap()` panics

  /** The interval `main` ends up with: validation first, then the `i64` re-parse. */
  function ReadInterval(s: string): (r: Result<int, ConfigError>)
    ensures r.Err? && r.error.Usage? <==> Validate(s).Rejected?
    ensures r.Ok? ==> 1 <= r.value <= I64_MAX
  {
    match Validate(s)
    case Rejected(m) => Err(Usage(m))
    case Accepted =>
      ParsesAgree(s);
      match ParseI64(s)
      case Some(v) => Ok(v)
      case None => Err(UnwrapFailed)
  }

  /** Every `u64`, printed in decimal with or without a '+', parses back to itself. */
  lemma ParseU64OfShow(n: nat)
    requires n <= U64_MAX
    ensures ParseU64(Show(n)) == Some(n)
    ensures ParseU64("+" + Show(n)) == Some(n)
  {
    ValueOfShow(n);
    assert ("+" + Show(n))[1..] == Show(n);
  }

  /** Numbers beyond 64 bits are refused. */
  lemma ParseU64Overflow(n: nat)
    requires n > U64_MAX
    ensures ParseU64(Show(n)) == None
  {
    ValueOfShow(n);
  }

  /**
   * The validator accepts exactly the strings that parse as a `u64` other than
   * zero: in particular every decimal from 1 to `U64_MAX`, and never "0".
   */
  lemma ValidateAccepts(s: string)
    ensures Validate(s) == Accepted <==> exists n :: 1 <= n <= U64_MAX && ParseU64(s) == Some(n)
    ensures Validate(s) == Accepted ==> ParseU64(s).Some? && 1 <= ParseU64(s).value
    ensures Validate(s).Rejected? ==>
      Validate(s).message == (if ParseU64(s).Some? then "must be greater than 0" else "must be parsable as u64")
  {
    if Validate(s) == Accepted {
      var n := ParseU64(s).value;
      assert 1 <= n <= U64_MAX && ParseU64(s) == Some(n);
    }
  }

  /** Where the two parses both succeed they agree, and the `i64` parse fails on exactly the `u64`s above `I64_MAX`. */
  lemma ParsesAgree(s: string)
    requires ParseU64(s).Some?
    ensures ParseU64(s).value <= I64_MAX ==> ParseI64(s) == ParseU64(s)
    ensures ParseU64(s).value > I64_MAX ==> ParseI64(s) == None
  {
    var digits := DropSign(s, '+');
    assert Numeral(digits);
    assert !(|s| > 0 && s[0] == '-');
  }

  /**
   * `main` gets an interval exactly when the validator accepted the string and
   * its value is at most `I64_MAX`; then the interval is that value.
   */
  lemma ReadIntervalOk(s: string)
    ensures ReadInterval(s).Ok? <==> Validate(s) == Accepted && ParseU64(s).value <= I64_MAX
    ensures ReadInterval(s).Ok? ==> ReadInterval(s).value == ParseU64(s).value && ReadInterval(s).value >= 1
  {
    if Validate(s) == Accepted {
      ParsesAgree(s);
    }
  }

  /**
   * The validator and the re-parse disagree: every value from `I64_MAX + 1` to
   * `U64_MAX` is accepted and then makes `unwrap` fail.
   */
  lemma UnwrapFailsAboveI64Max(n: nat)
    requires I64_MAX < n <= U64_MAX
    ensures Validate(Show(n)) == Accepted
    ensures ReadInterval(Show(n)) == Err(UnwrapFailed)
  {
    ParseU64OfShow(n);
    ParsesAgree(Show(n));
  }

  /** The default value, "5000", passes both parses and gives a five-second interval. */
  lemma DefaultInterval()
    ensures ReadInterval("5000") == Ok(5000)
  {
    assert DropSign("5000", '+') == "5000";
    assert "5000"[..3] == "500" && "500"[..2] == "50" && "50"[..1] == "5" && "5"[..0] == [];
  }

  /** The validator as evidently intended: accept what the later `i64` parse accepts, if it is positive. */
  function ValidateI64(s: string): (v: Validation)
    ensures v == Accepted <==> ParseI64(s).Some? && 1 <= ParseI64(s).value <= I64_MAX
  {
    match ParseI64(s)
    case Some(v) => if v <= 0 then Rejected("must be greater than 0") else Accepted
    case None => Rejected("must be parsable as i64")
  }

  /** The interval `main` would get with that validator. */
  function ReadIntervalCorrected(s: string): (r: Result<int, ConfigError>)
    ensures r != Err(UnwrapFailed)
    ensures r.Ok? ==> 1 <= r.value <= I64_MAX
  {
    match ValidateI64(s)
    case Rejected(m) => Err(Usage(m))
    case Accepted =>
      match ParseI64(s)
      case Some(v) => Ok(v)
      case None => Err(UnwrapFailed)
  }

  /**
   * With the corrected validator the `unwrap` never fails: a string is either
   * rejected with a usage message or yields a positive interval, and on every
   * value up to `I64_MAX` it agrees with the original.
   */
  lemma CorrectedIntervalNeverPanics(s: string)
    ensures ReadIntervalCorrected(s) != Err(UnwrapFailed)
    ensures ReadIntervalCorrected(s).Ok? ==> 1 <= ReadIntervalCorrected(s).value <= I64_MAX
    ensures ReadInterval(s).Ok? ==> ReadIntervalCorrected(s) == ReadInterval(s)
  {
    if ReadInterval(s).Ok? {
      ReadIntervalOk(s);
      ParsesAgree(s);
    }
  }
}
