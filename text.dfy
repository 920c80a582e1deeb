/**
 * Decimal digit strings and the order Rust uses to compare `String`s.
 * Shared by the timestamp formatter (which prints decimals) and the
 * interval option (which parses them).
 */
module Text {

  predicate IsDigit(c: char) { '0' <= c <= '9' }

  predicate AllDigits(s: string) { forall i :: 0 <= i < |s| ==> IsDigit(s[i]) }

  function DigitValue(c: char): (d: nat)
    requires IsDigit(c)
    ensures d < 10
  {
    c as int - '0' as int
  }

  function DigitChar(d: nat): (c: char)
    requires d < 10
    ensures IsDigit(c) && DigitValue(c) == d
  {
    ('0' as int + d) as char
  }

  function Pow10(k: nat): (p: nat)
    ensures p >= 1
  {
    if k == 0 then 1 else 10 * Pow10(k - 1)
  }

  /** The shortest decimal rendering of `n`, as Rust's `Display` for integers writes it. */
  function Show(n: nat): (s: string)
    ensures 1 <= |s| && AllDigits(s)
    ensures s[0] == '0' <==> n == 0
  {
    if n < 10 then [DigitChar(n)] else Show(n / 10) + [DigitChar(n % 10)]
  }

  /** The number a string of decimal digits denotes (leading zeros allowed). */
  function Value(s: string): nat
    requires AllDigits(s)
  {
    if s == [] then 0 else 10 * Value(s[..|s| - 1]) + DigitValue(s[|s| - 1])
  }

  /** Exactly `w` decimal digits: the lowest `w` digits of `n`, leading zeros included. */
  function Fixed(n: nat, w: nat): (s: string)
    ensures |s| == w && AllDigits(s)
  {
    if w == 0 then [] else Fixed(n / 10, w - 1) + [DigitChar(n % 10)]
  }

  /** Reading back what `Show` printed gives the number again. */
  lemma {:induction false} ValueOfShow(n: nat)
    ensures Value(Show(n)) == n
  {
    if n >= 10 {
      ValueOfShow(n / 10);
      var s := Show(n);
      assert s[..|s| - 1] == Show(n / 10);
    }
  }

  /** `Show` never uses more digits than the smallest power of ten above `n` allows. */
  lemma {:induction false} ShowLength(n: nat, k: nat)
    requires 1 <= k && n < Pow10(k)
    ensures |Show(n)| <= k
  {
    if n >= 10 {
      assert k >= 2;
      ShowLength(n / 10, k - 1);
    }
  }

  /** A number of at least `10^k` needs more than `k` digits. */
  lemma {:induction false} ShowLengthAtLeast(n: nat, k: nat)
    requires n >= Pow10(k)
    ensures |Show(n)| > k
  {
    if k > 0 {
      ShowLengthAtLeast(n / 10, k - 1);
    }
  }

  /** `Show` is `Fixed` at its own length, and that length is enough to hold `n`. */
  lemma {:induction false} ShowIsFixed(n: nat)
    ensures Show(n) == Fixed(n, |Show(n)|)
    ensures n < Pow10(|Show(n)|)
  {
    if n >= 10 {
      ShowIsFixed(n / 10);
    }
  }

  /** Widening a fixed-width rendering of a small enough number only adds leading zeros. */
  lemma {:induction false} FixedWiden(n: nat, k: nat, w: nat)
    requires n < Pow10(k) && k <= w
    ensures Fixed(n, w) == Zeros(w - k) + Fixed(n, k)
    decreases w
  {
    if k == 0 {
      if w > 0 {
        FixedWiden(0, 0, w - 1);
      }
    } else {
      FixedWiden(n / 10, k - 1, w - 1);
    }
  }

  function Zeros(k: nat): (s: string)
    ensures |s| == k && AllDigits(s)
  {
    if k == 0 then [] else Zeros(k - 1) + ['0']
  }

  /** Zeros denote zero. */
  lemma {:induction false} ValueOfZeros(k: nat)
    ensures Value(Zeros(k)) == 0
  {
    if k > 0 {
      ValueOfZeros(k - 1);
      assert Zeros(k)[..k - 1] == Zeros(k - 1);
    }
  }

  /** Leading zeros do not change the number a digit string denotes. */
  lemma {:induction false} ValueZerosPrefix(k: nat, d: string)
    requires AllDigits(d)
    ensures Value(Zeros(k) + d) == Value(d)
    decreases |d|
  {
    if d == [] {
      assert Zeros(k) + d == Zeros(k);
      ValueOfZeros(k);
    } else {
      var z := Zeros(k) + d;
      assert z[..|z| - 1] == Zeros(k) + d[..|d| - 1];
      ValueZerosPrefix(k, d[..|d| - 1]);
    }
  }

  /**
   * Rust's `String` order: byte-wise lexicographic, a proper prefix first.
   * On the ASCII strings used here bytes and characters coincide.
   */
  predicate LexLess(s: string, t: string)
  {
    if s == [] then t != []
    else if t == [] then false
    else s[0] < t[0] || (s[0] == t[0] && LexLess(s[1..], t[1..]))
  }

  lemma {:induction false} LexIrreflexive(s: string)
    ensures !LexLess(s, s)
  {
    if s != [] {
      LexIrreflexive(s[1..]);
    }
  }

  /** Comparing two strings that start with blocks of equal length compares the blocks first. */
  lemma {:induction false} LexConcat(a: string, b: string, c: string, d: string)
    requires |a| == |c|
    ensures LexLess(a + b, c + d) <==> LexLess(a, c) || (a == c && LexLess(b, d))
    ensures a + b == c + d <==> a == c && b == d
  {
    if a == [] {
      assert a + b == b && c + d == d;
    } else {
      LexConcat(a[1..], b, c[1..], d);
      assert (a + b)[1..] == a[1..] + b;
      assert (c + d)[1..] == c[1..] + d;
      assert a == [a[0]] + a[1..];
      assert c == [c[0]] + c[1..];
      if a + b == c + d {
        assert (a + b)[..|a|] == a && (c + d)[..|c|] == c;
      }
    }
  }

  /**
   * On numbers that fit, fixed-width renderings compare as strings exactly as
   * the numbers compare, and render equal exactly when the numbers are equal.
   */
  lemma {:induction false} FixedOrder(x: nat, y: nat, w: nat)
    requires x < Pow10(w) && y < Pow10(w)
    ensures LexLess(Fixed(x, w), Fixed(y, w)) <==> x < y
    ensures Fixed(x, w) == Fixed(y, w) <==> x == y
  {
    if w > 0 {
      FixedOrder(x / 10, y / 10, w - 1);
      LexConcat(Fixed(x / 10, w - 1), [DigitChar(x % 10)], Fixed(y / 10, w - 1), [DigitChar(y % 10)]);
      assert x == 10 * (x / 10) + x % 10;
      assert y == 10 * (y / 10) + y % 10;
      assert LexLess([DigitChar(x % 10)], [DigitChar(y % 10)]) <==> x % 10 < y % 10 by {
        assert [DigitChar(x % 10)][1..] == [];
        assert [DigitChar(y % 10)][1..] == [];
      }
    }
  }
}
