/**
 * The timestamp formatter (`get_timestamp`): the UTC calendar fields printed
 * zero-padded and run together, year(4) month(2) day(2) hour(2) minute(2)
 * second(2) millisecond(3). The clock read is replaced by a `DateTime` argument.
 */
module Timestamp {
  import opened Text

  /** The fields `get_timestamp` takes from the clock: chrono's `year()` is signed, the rest unsigned. */
  datatype DateTime = DateTime(year: int, month: nat, day: nat, hour: nat, minute: nat, second: nat, millis: nat)

  /** Ordinary calendar readings: four-digit years, no leap-second milliseconds (those reach 1999). */
  predicate InRange(t: DateTime)
  {
    0 <= t.year <= 9999 && 1 <= t.month <= 12 && 1 <= t.day <= 31 &&
    t.hour <= 23 && t.minute <= 59 && t.second <= 59 && t.millis <= 999
  }

  /** Rust's `{:0w}` on an unsigned value: the decimal digits, left-padded with '0' to at least `w` characters. */
  function PadUnsigned(n: nat, w: nat): (s: string)
    ensures |s| >= w && AllDigits(s) && Value(s) == n
  {
    var digits := Show(n);
    ValueOfShow(n);
    ValueZerosPrefix(if |digits| < w then w - |digits| else 0, digits);
    if |digits| < w then Zeros(w - |digits|) + digits else digits
  }

  /** Rust's `{:0w}` on a signed value: the sign counts towards the width and the zeros follow it. */
  function PadSigned(x: int, w: nat): (s: string)
    ensures |s| >= w
    ensures x >= 0 ==> AllDigits(s) && Value(s) == x
    ensures x < 0 ==> |s| >= 1 && s[0] == '-' && AllDigits(s[1..]) && Value(s[1..]) == -x
  {
    if x < 0 then "-" + PadUnsigned(-x, if w == 0 then 0 else w - 1) else PadUnsigned(x, w)
  }

  /** `format!("{:04}{:02}{:02}{:02}{:02}{:02}{:03}", ...)` on the clock fields. */
  function Format(t: DateTime): (s: string)
    ensures |s| >= 17
    ensures t.year >= 0 ==> AllDigits(s)
  {
    PadSigned(t.year, 4) + PadUnsigned(t.month, 2) + PadUnsigned(t.day, 2) +
    PadUnsigned(t.hour, 2) + PadUnsigned(t.minute, 2) + PadUnsigned(t.second, 2) +
    PadUnsigned(t.millis, 3)
  }

  /**
   * `a` is an earlier reading than `b`: the field tuples compared
   * lexicographically, most significant field first.
   */
  predicate Before(a: DateTime, b: DateTime)
  {
    if a.year != b.year then a.year < b.year
    else if a.month != b.month then a.month < b.month
    else if a.day != b.day then a.day < b.day
    else if a.hour != b.hour then a.hour < b.hour
    else if a.minute != b.minute then a.minute < b.minute
    else if a.second != b.second then a.second < b.second
    else a.millis < b.millis
  }

  /** Padding a number that fits its width is printing it at exactly that width. */
  lemma PadIsFixed(n: nat, w: nat)
    requires 1 <= w && n < Pow10(w)
    ensures PadUnsigned(n, w) == Fixed(n, w)
  {
    ShowLength(n, w);
    ShowIsFixed(n);
    FixedWiden(n, |Show(n)|, w);
  }

  /** On in-range readings every field is printed at exactly its width. */
  lemma FormatIsFixed(t: DateTime)
    requires InRange(t)
    ensures Format(t) == Fixed(t.year, 4) + Fixed(t.month, 2) + Fixed(t.day, 2) + Fixed(t.hour, 2) +
                         Fixed(t.minute, 2) + Fixed(t.second, 2) + Fixed(t.millis, 3)
  {
    PadIsFixed(t.year, 4);
    PadIsFixed(t.month, 2);
    PadIsFixed(t.day, 2);
    PadIsFixed(t.hour, 2);
    PadIsFixed(t.minute, 2);
    PadIsFixed(t.second, 2);
    PadIsFixed(t.millis, 3);
  }

  /** An in-range timestamp is exactly 17 ASCII digits. */
  lemma FormatShape(t: DateTime)
    requires InRange(t)
    ensures |Format(t)| == 17 && AllDigits(Format(t))
  {
    FormatIsFixed(t);
  }

  /**
   * Sorting timestamps as strings sorts the readings by time: string order is
   * the order of the field tuples, and two readings print alike only when they
   * are the same reading (to the millisecond).
   */
  lemma FormatOrder(a: DateTime, b: DateTime)
    requires InRange(a) && InRange(b)
    ensures LexLess(Format(a), Format(b)) <==> Before(a, b)
    ensures Format(a) == Format(b) <==> a == b
  {
    FormatIsFixed(a);
    FormatIsFixed(b);
    Pow10Values();
    // Peel the fields off the end, one LexConcat per field.
    var y1, y2 := Fixed(a.year, 4), Fixed(b.year, 4);
    FixedOrder(a.year, b.year, 4);
    var mo1, mo2 := y1 + Fixed(a.month, 2), y2 + Fixed(b.month, 2);
    FixedOrder(a.month, b.month, 2);
    LexConcat(y1, Fixed(a.month, 2), y2, Fixed(b.month, 2));
    var d1, d2 := mo1 + Fixed(a.day, 2), mo2 + Fixed(b.day, 2);
    FixedOrder(a.day, b.day, 2);
    LexConcat(mo1, Fixed(a.day, 2), mo2, Fixed(b.day, 2));
    var h1, h2 := d1 + Fixed(a.hour, 2), d2 + Fixed(b.hour, 2);
    FixedOrder(a.hour, b.hour, 2);
    LexConcat(d1, Fixed(a.hour, 2), d2, Fixed(b.hour, 2));
    var mi1, mi2 := h1 + Fixed(a.minute, 2), h2 + Fixed(b.minute, 2);
    FixedOrder(a.minute, b.minute, 2);
    LexConcat(h1, Fixed(a.minute, 2), h2, Fixed(b.minute, 2));
    var s1, s2 := mi1 + Fixed(a.second, 2), mi2 + Fixed(b.second, 2);
    FixedOrder(a.second, b.second, 2);
    LexConcat(mi1, Fixed(a.second, 2), mi2, Fixed(b.second, 2));
    FixedOrder(a.millis, b.millis, 3);
    LexConcat(s1, Fixed(a.millis, 3), s2, Fixed(b.millis, 3));
  }

  lemma Pow10Values()
    ensures Pow10(2) == 100 && Pow10(3) == 1000 && Pow10(4) == 10000
  {
  }

  /**
   * A leap-second reading, whose millisecond count runs from 1000 to 1999,
   * prints four millisecond digits and makes the timestamp 18 characters long.
   */
  lemma LeapMillisWiden(t: DateTime)
    requires InRange(t.(millis := 0)) && 1000 <= t.millis <= 1999
    ensures |Format(t)| == 18
  {
    PadIsFixed(t.year, 4);
    PadIsFixed(t.month, 2);
    PadIsFixed(t.day, 2);
    PadIsFixed(t.hour, 2);
    PadIsFixed(t.minute, 2);
    PadIsFixed(t.second, 2);
    Pow10Values();
    ShowLength(t.millis, 4);
    ShowLengthAtLeast(t.millis, 3);
  }
}
