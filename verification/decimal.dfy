/** Base-10 rendering of integers, as done by Go's `strconv.FormatInt(n, 10)`,
    together with the inverse reading used to state round trips. */
module Decimal {
  import opened Wrappers

  function Pow10(k: nat): (p: nat)
    ensures p >= 1
  {
    if k == 0 then 1 else 10 * Pow10(k - 1)
  }

  predicate IsDigit(c: char) {
    '0' <= c <= '9'
  }

  predicate IsDigits(s: string) {
    forall i :: 0 <= i < |s| ==> IsDigit(s[i])
  }

  function DigitChar(d: nat): (c: char)
    requires d < 10
    ensures IsDigit(c)
  {
    (48 + d) as char
  }

  function DigitValue(c: char): (d: nat)
    requires IsDigit(c)
    ensures d < 10
  {
    (c as int) - 48
  }

  /** A string of `n` characters `'0'`. */
  function Zeros(n: nat): (z: string)
    ensures |z| == n
    ensures forall i :: 0 <= i < n ==> z[i] == '0'
  {
    seq(n, _ => '0')
  }

  /** Decimal digits of a natural number, most significant first, no leading zero. */
  function FormatNat(n: nat): (s: string)
    ensures |s| >= 1 && IsDigits(s)
    ensures n >= 10 ==> s[0] != '0'
    decreases n
  {
    if n < 10 then [DigitChar(n)] else FormatNat(n / 10) + [DigitChar(n % 10)]
  }

  /** `strconv.FormatInt(n, 10)`: a minus sign for negative numbers, then the digits. */
  function FormatInt(n: int): (s: string)
    ensures |s| >= 1
    ensures n >= 0 ==> IsDigits(s)
    ensures n < 0 ==> s[0] == '-'
  {
    if n < 0 then "-" + FormatNat(-n) else FormatNat(n)
  }

  /** The number a string of digits denotes (the empty string denotes 0). */
  function ParseNat(s: string): nat
    requires IsDigits(s)
  {
    if s == [] then 0 else ParseNat(s[..|s| - 1]) * 10 + DigitValue(s[|s| - 1])
  }

  /** A digit string as `FormatNat` writes it: at least one digit, and no
      leading zero unless the number is zero itself. */
  predicate Canonical(s: string) {
    |s| >= 1 && IsDigits(s) && (|s| == 1 || s[0] != '0')
  }

  /** Reads back exactly what `FormatInt` writes: canonical digits, or a
      minus sign followed by canonical digits that do not start with `0`. */
  function ParseInt(s: string): Option<int> {
    if |s| >= 2 && s[0] == '-' && Canonical(s[1..]) && s[1] != '0' then Some(0 - ParseNat(s[1..]))
    else if Canonical(s) then Some(ParseNat(s))
    else None
  }

  lemma {:induction false} FormatNatCanonical(n: nat)
    ensures Canonical(FormatNat(n))
    ensures n >= 1 ==> FormatNat(n)[0] != '0'
  {
    if n < 10 {
      assert FormatNat(n) == [DigitChar(n)];
    }
  }

  lemma {:induction false} ParseFormatNat(n: nat)
    ensures ParseNat(FormatNat(n)) == n
    decreases n
  {
    var s := FormatNat(n);
    if n >= 10 {
      ParseFormatNat(n / 10);
      assert s[..|s| - 1] == FormatNat(n / 10);
    }
  }

  /** Reading back the decimal form of any integer gives the integer. */
  lemma {:induction false} ParseFormatInt(n: int)
    ensures ParseInt(FormatInt(n)) == Some(n)
  {
    var s := FormatInt(n);
    if n < 0 {
      var digits := FormatNat(-n);
      assert s == "-" + digits;
      assert s[1..] == digits;
      ParseFormatNat(-n);
      FormatNatCanonical(-n);
    } else {
      ParseFormatNat(n);
      FormatNatCanonical(n);
      assert IsDigit(s[0]);
    }
  }

  /** Two integers with the same decimal form are equal. */
  lemma {:induction false} FormatIntInjective(a: int, b: int)
    ensures FormatInt(a) == FormatInt(b) <==> a == b
  {
    ParseFormatInt(a);
    ParseFormatInt(b);
  }

  /** The number of digits of `n` is the least `k >= 1` with `n < 10^k`. */
  lemma {:induction false} FormatNatLength(n: nat)
    ensures n < Pow10(|FormatNat(n)|)
    ensures n >= 10 ==> Pow10(|FormatNat(n)| - 1) <= n
    decreases n
  {
    if n >= 10 {
      FormatNatLength(n / 10);
    }
  }

  /** `n` fits in `k >= 1` digits exactly when `n < 10^k`. */
  lemma {:induction false} FitsInDigits(n: nat, k: nat)
    requires k >= 1
    ensures |FormatNat(n)| <= k <==> n < Pow10(k)
  {
    FormatNatLength(n);
    var m := |FormatNat(n)|;
    if m <= k {
      Pow10Monotonic(m, k);
    } else {
      Pow10Monotonic(k, m - 1);
    }
  }

  lemma {:induction false} Pow10Monotonic(a: nat, b: nat)
    requires a <= b
    ensures Pow10(a) <= Pow10(b)
    decreases b
  {
    if a < b {
      Pow10Monotonic(a, b - 1);
    }
  }

  lemma {:induction false} ParseNatBound(s: string)
    requires IsDigits(s)
    ensures ParseNat(s) < Pow10(|s|)
    decreases |s|
  {
    if s != [] {
      ParseNatBound(s[..|s| - 1]);
    }
  }

  /** The digits of `a + b` denote `a`'s value shifted by `|b|` places, plus `b`'s value. */
  lemma {:induction false} ParseNatConcat(a: string, b: string)
    requires IsDigits(a) && IsDigits(b)
    ensures IsDigits(a + b)
    ensures ParseNat(a + b) == ParseNat(a) * Pow10(|b|) + ParseNat(b)
    decreases |b|
  {
    if b == [] {
      assert a + b == a;
    } else {
      var b' := b[..|b| - 1];
      assert (a + b)[..|a + b| - 1] == a + b';
      ParseNatConcat(a, b');
      var d := DigitValue(b[|b| - 1]);
      assert ParseNat(a + b) == ParseNat(a + b') * 10 + d;
      assert ParseNat(b) == ParseNat(b') * 10 + d;
      ShiftOneDigit(ParseNat(a), Pow10(|b'|), ParseNat(b'), d);
    }
  }

  /** Appending a digit to `x` shifted by `p` places and followed by `y`:
      a fact about abstract numbers, kept apart so the solver sees it
      without the digit strings around it. */
  lemma ShiftOneDigit(x: int, p: int, y: int, d: int)
    ensures (x * p + y) * 10 + d == x * (10 * p) + (y * 10 + d)
  {
  }

  lemma {:induction false} ParseNatZeros(n: nat)
    ensures IsDigits(Zeros(n)) && ParseNat(Zeros(n)) == 0
    decreases n
  {
    if n > 0 {
      assert Zeros(n)[..n - 1] == Zeros(n - 1);
      ParseNatZeros(n - 1);
    }
  }

  /** The last `k` digits of a digit string denote its value modulo `10^k`. */
  lemma {:induction false} ParseNatSuffix(s: string, k: nat)
    requires IsDigits(s) && k <= |s|
    ensures ParseNat(s[|s| - k..]) == ParseNat(s) % Pow10(k)
  {
    var hi, lo := s[..|s| - k], s[|s| - k..];
    assert s == hi + lo;
    ParseNatConcat(hi, lo);
    ParseNatBound(lo);
    ModOfShifted(ParseNat(hi), ParseNat(lo), Pow10(k));
  }

  lemma {:induction false} ModOfShifted(h: nat, l: nat, p: nat)
    requires 0 <= l < p
    ensures (h * p + l) % p == l
  {
    var x := h * p + l;
    var q, r := x / p, x % p;
    assert (q - h) * p == l - r;
    if q - h >= 1 {
      assert false;
    } else if q - h <= -1 {
      assert false;
    }
  }
}
