/** The compact duration form of `timeit.go` (`getDurationAsSimpleString`),
    meant for copying into computations, and the zero-padded digit field
    (`getAsDecimals`) it uses. Durations are nanosecond counts. `timeit.go`'s
    `exp3`, `exp6` and `exp9` appear below as the literals `1_000`,
    `1_000_000` and `1_000_000_000`. */
module Simple {
  import opened Wrappers
  import opened Decimal

  /** Largest duration shown in plain nanoseconds (`nanoDisplayMax`). */
  const NanoDisplayMax: int := 99999

  // ---------------------------------------------------------------------
  // getAsDecimals

  /** The last `numDigits` characters of `number`'s decimal form, with `'0'`
      filling the front when the form is shorter. */
  function GetAsDecimals(number: int, numDigits: nat): (r: string)
    ensures |r| == numDigits
  {
    var s := FormatInt(number);
    if |s| >= numDigits then s[|s| - numDigits..] else Zeros(numDigits - |s|) + s
  }

  /** The character `timeit.go`'s loop stores at position `k` of the field:
      the digit `numDigits - k` places from the end of the decimal form, or
      `'0'` when the form has no such digit. */
  function FieldChar(s: string, numDigits: nat, k: nat): char
    requires k < numDigits
  {
    var j := |s| - (numDigits - k);
    if j >= 0 then s[j] else '0'
  }

  lemma GetAsDecimalsAt(number: int, numDigits: nat, k: nat)
    requires k < numDigits
    ensures GetAsDecimals(number, numDigits)[k] == FieldChar(FormatInt(number), numDigits, k)
  {
  }

  /** `getAsDecimals` as `timeit.go` writes it: a field of `numDigits` runes
      filled from the right, walking the decimal form backwards and writing
      `'0'` once it is used up. */
  method GetAsDecimalsLoop(number: int, numDigits: nat) returns (r: string)
    ensures r == GetAsDecimals(number, numDigits)
  {
    var numberAsRunes := FormatInt(number);
    var decimals := seq(numDigits, _ => 0 as char);
    var j := |numberAsRunes|;
    var i := numDigits - 1;
    while i >= 0
      invariant -1 <= i < numDigits
      invariant j == |numberAsRunes| - (numDigits - 1 - i)
      invariant |decimals| == numDigits
      invariant forall k :: i < k < numDigits ==> decimals[k] == FieldChar(numberAsRunes, numDigits, k)
      decreases i
    {
      j := j - 1;
      if j >= 0 {
        decimals := decimals[i := numberAsRunes[j]];
      } else {
        decimals := decimals[i := '0'];
      }
      i := i - 1;
    }
    r := decimals;
    forall k | 0 <= k < numDigits
      ensures r[k] == GetAsDecimals(number, numDigits)[k]
    {
      GetAsDecimalsAt(number, numDigits, k);
    }
  }

  /** For a non-negative number the field is all digits and reads back as the
      number modulo `10^numDigits`: only the least significant digits survive. */
  lemma {:induction false} GetAsDecimalsReadsBack(number: nat, numDigits: nat)
    ensures IsDigits(GetAsDecimals(number, numDigits))
    ensures ParseNat(GetAsDecimals(number, numDigits)) == number % Pow10(numDigits)
  {
    if |FormatNat(number)| >= numDigits {
      ReadsBackCut(number, numDigits);
    } else {
      ReadsBackPadded(number, numDigits);
    }
  }

  lemma {:induction false} ReadsBackCut(number: nat, numDigits: nat)
    requires |FormatNat(number)| >= numDigits
    ensures IsDigits(GetAsDecimals(number, numDigits))
    ensures ParseNat(GetAsDecimals(number, numDigits)) == number % Pow10(numDigits)
  {
    var s := FormatNat(number);
    assert GetAsDecimals(number, numDigits) == s[|s| - numDigits..];
    ParseFormatNat(number);
    ParseNatSuffix(s, numDigits);
  }

  lemma {:induction false} ReadsBackPadded(number: nat, numDigits: nat)
    requires |FormatNat(number)| < numDigits
    ensures IsDigits(GetAsDecimals(number, numDigits))
    ensures ParseNat(GetAsDecimals(number, numDigits)) == number % Pow10(numDigits)
  {
    var s := FormatNat(number);
    var z := Zeros(numDigits - |s|);
    assert GetAsDecimals(number, numDigits) == z + s;
    ParseFormatNat(number);
    ParseNatZeros(|z|);
    ParseNatConcat(z, s);
    FormatNatLength(number);
    Pow10Monotonic(|s|, numDigits);
    ModOfShifted(0, number, Pow10(numDigits));
  }

  /** A number that fits in `numDigits >= 1` digits is left-padded with `'0'`. */
  lemma {:induction false} GetAsDecimalsPads(number: nat, numDigits: nat)
    requires numDigits >= 1 && number < Pow10(numDigits)
    ensures |FormatNat(number)| <= numDigits
    ensures GetAsDecimals(number, numDigits)
            == Zeros(numDigits - |FormatNat(number)|) + FormatNat(number)
  {
    FitsInDigits(number, numDigits);
    var s := FormatNat(number);
    assert FormatInt(number) == s;
    if |s| == numDigits {
      calc {
        GetAsDecimals(number, numDigits);
        s[|s| - numDigits..];
        { assert s[0..] == s; }
        s;
        { assert Zeros(0) == []; }
        Zeros(numDigits - |s|) + s;
      }
    }
  }

  // ---------------------------------------------------------------------
  // getDurationAsSimpleString

  /** `getDurationAsSimpleString`: plain nanoseconds up to 99999ns (negative
      durations included), seconds with three truncated millisecond digits
      from one second on, and milliseconds with three truncated microsecond
      digits in between. Both larger branches only see positive durations,
      so Dafny's `/` and `%` agree with Go's there. */
  function SimpleString(nanos: int): string {
    if nanos <= NanoDisplayMax then
      FormatInt(nanos) + "ns"
    else if nanos >= 1_000_000_000 then
      FixedPoint(nanos / 1_000_000_000, nanos % 1_000_000_000 / 1_000_000) + "s"
    else
      FixedPoint(nanos / 1_000_000, nanos % 1_000_000 / 1_000) + "ms"
  }

  /** `<whole>.<frac as 3 digits>`, the number part of the two larger units. */
  function FixedPoint(whole: int, frac: int): string {
    FormatInt(whole) + "." + GetAsDecimals(frac, 3)
  }

  // ---------------------------------------------------------------------
  // Reading the compact form back

  predicate StartsWith(s: string, prefix: string) {
    |s| >= |prefix| && s[..|prefix|] == prefix
  }

  predicate EndsWith(s: string, suffix: string) {
    |s| >= |suffix| && s[|s| - |suffix|..] == suffix
  }

  predicate NoSpace(s: string) {
    forall i :: 0 <= i < |s| ==> s[i] != ' '
  }

  /** Reads `<canonical digits>.<3 digits>` as a count of thousandths. */
  function ParseThousandths(s: string): Option<nat> {
    if |s| >= 5 && s[|s| - 4] == '.' && Canonical(s[..|s| - 4]) && IsDigits(s[|s| - 3..]) then
      Some(ParseNat(s[..|s| - 4]) * 1000 + ParseNat(s[|s| - 3..]))
    else
      None
  }

  /** Reads a compact duration back into nanoseconds; independent of
      `SimpleString`, it looks only at the unit suffix and the digits. */
  function ParseSimple(s: string): Option<int> {
    if EndsWith(s, "ns") then ParseInt(s[..|s| - 2])
    else if EndsWith(s, "ms") then Scaled(ParseThousandths(s[..|s| - 2]), 1_000)
    else if EndsWith(s, "s") then Scaled(ParseThousandths(s[..|s| - 1]), 1_000_000)
    else None
  }

  function Scaled(count: Option<nat>, unit: int): Option<int> {
    match count
    case Some(v) => Some(v * unit)
    case None => None
  }

  /** `v` is `nanos` cut down (never rounded) to a multiple of `unit`. */
  predicate TruncatedTo(v: int, nanos: int, unit: int) {
    v <= nanos < v + unit && v % unit == 0
  }

  /** The compact form denotes the duration truncated (never rounded) to the
      precision of its unit: exact nanoseconds up to 99999ns, whole
      microseconds below one second, whole milliseconds from one second on. */
  lemma {:induction false} SimpleStringRoundTrip(nanos: int)
    ensures ParseSimple(SimpleString(nanos)).Some?
    ensures nanos <= NanoDisplayMax ==> ParseSimple(SimpleString(nanos)).value == nanos
    ensures NanoDisplayMax < nanos < 1_000_000_000
            ==> TruncatedTo(ParseSimple(SimpleString(nanos)).value, nanos, 1_000)
    ensures nanos >= 1_000_000_000
            ==> TruncatedTo(ParseSimple(SimpleString(nanos)).value, nanos, 1_000_000)
  {
    if nanos <= NanoDisplayMax {
      RoundTripNanos(nanos);
    } else if nanos >= 1_000_000_000 {
      RoundTripSeconds(nanos);
    } else {
      RoundTripMillis(nanos);
    }
  }

  lemma {:induction false} RoundTripNanos(nanos: int)
    requires nanos <= NanoDisplayMax
    ensures ParseSimple(SimpleString(nanos)) == Some(nanos)
  {
    var f := FormatInt(nanos);
    assert SimpleString(nanos) == f + "ns";
    ParseNanosForm(f);
    ParseFormatInt(nanos);
  }

  lemma {:induction false} RoundTripMillis(nanos: int)
    requires NanoDisplayMax < nanos < 1_000_000_000
    ensures ParseSimple(SimpleString(nanos)).Some?
    ensures TruncatedTo(ParseSimple(SimpleString(nanos)).value, nanos, 1_000)
  {
    var whole, frac := nanos / 1_000_000, nanos % 1_000_000 / 1_000;
    var body := FixedPoint(whole, frac);
    assert SimpleString(nanos) == body + "ms";
    FixedPointShape(whole, frac);
    ParseMillisForm(body);
    TruncatedToMicros(nanos);
  }

  lemma {:induction false} RoundTripSeconds(nanos: int)
    requires nanos >= 1_000_000_000
    ensures ParseSimple(SimpleString(nanos)).Some?
    ensures TruncatedTo(ParseSimple(SimpleString(nanos)).value, nanos, 1_000_000)
  {
    var whole, frac := nanos / 1_000_000_000, nanos % 1_000_000_000 / 1_000_000;
    var body := FixedPoint(whole, frac);
    assert SimpleString(nanos) == body + "s";
    FixedPointShape(whole, frac);
    ParseSecondsForm(body);
    TruncatedToMillis(nanos);
  }

  lemma {:induction false} TruncatedToMicros(nanos: int)
    requires NanoDisplayMax < nanos < 1_000_000_000
    ensures TruncatedTo((nanos / 1_000_000 * 1000 + nanos % 1_000_000 / 1_000) * 1_000, nanos, 1_000)
  {
    var q, r := nanos / 1_000_000, nanos % 1_000_000;
    var k := q * 1000 + r / 1_000;
    assert k * 1_000 == nanos - r % 1_000;
    ModOfShifted(k, 0, 1_000);
  }

  lemma {:induction false} TruncatedToMillis(nanos: int)
    requires nanos >= 1_000_000_000
    ensures TruncatedTo((nanos / 1_000_000_000 * 1000 + nanos % 1_000_000_000 / 1_000_000) * 1_000_000,
                        nanos, 1_000_000)
  {
    var q, r := nanos / 1_000_000_000, nanos % 1_000_000_000;
    var k := q * 1000 + r / 1_000_000;
    assert k * 1_000_000 == nanos - r % 1_000_000;
    ModOfShifted(k, 0, 1_000_000);
  }

  lemma {:induction false} ParseNanosForm(f: string)
    ensures ParseSimple(f + "ns") == ParseInt(f)
  {
    var s := f + "ns";
    assert s[|s| - 2..] == "ns";
    assert s[..|s| - 2] == f;
  }

  lemma {:induction false} ParseMillisForm(body: string)
    ensures ParseSimple(body + "ms") == Scaled(ParseThousandths(body), 1_000)
  {
    var s := body + "ms";
    MillisSuffix(body);
    assert s[..|s| - 2] == body;
  }

  lemma {:induction false} ParseSecondsForm(body: string)
    requires |body| >= 1 && IsDigit(body[|body| - 1])
    ensures ParseSimple(body + "s") == Scaled(ParseThousandths(body), 1_000_000)
  {
    var s := body + "s";
    SecondsSuffix(body);
    assert s[..|s| - 1] == body;
  }

  /** `<whole>.<frac padded to 3>` ends with a digit, holds no space, and
      reads back as `whole` thousands plus `frac`. */
  lemma {:induction false} FixedPointShape(whole: nat, frac: nat)
    requires frac < 1000
    ensures var body := FixedPoint(whole, frac);
            |body| >= 4 && IsDigit(body[|body| - 1]) && NoSpace(body)
            && ParseThousandths(body) == Some(whole * 1000 + frac)
  {
    var w, f := FormatNat(whole), GetAsDecimals(frac, 3);
    assert FixedPoint(whole, frac) == w + "." + f;
    assert ParseNat(w) == whole && Canonical(w) by {
      ParseFormatNat(whole);
      FormatNatCanonical(whole);
    }
    assert IsDigits(f) && ParseNat(f) == frac by {
      GetAsDecimalsReadsBack(frac, 3);
      assert Pow10(3) == 1000;
    }
    DottedShape(w, f);
  }

  /** Digits, a dot and three digits: a space-free word ending in a digit
      that `ParseThousandths` reads as the two numbers side by side. */
  lemma {:induction false} DottedShape(w: string, f: string)
    requires Canonical(w) && |f| == 3 && IsDigits(f)
    ensures var body := w + "." + f;
            |body| >= 4 && IsDigit(body[|body| - 1]) && NoSpace(body)
            && ParseThousandths(body) == Some(ParseNat(w) * 1000 + ParseNat(f))
  {
    var body := w + "." + f;
    assert body[..|body| - 4] == w;
    assert body[|body| - 3..] == f;
    assert body[|body| - 1] == f[2];
    assert NoSpace(body) by {
      forall i | 0 <= i < |body|
        ensures body[i] != ' '
      {
        if i < |w| {
          assert body[i] == w[i];
        } else if i > |w| {
          assert body[i] == f[i - |w| - 1];
        }
      }
    }
  }

  // ---------------------------------------------------------------------
  // Shape of the compact form

  /** The unit suffix tells the three branches apart: `ns` exactly up to
      99999ns, `ms` exactly strictly between that and one second, and a bare
      `s` after a digit from one second on. */
  lemma {:induction false} SimpleStringUnit(nanos: int)
    ensures EndsWith(SimpleString(nanos), "ns") <==> nanos <= NanoDisplayMax
    ensures EndsWith(SimpleString(nanos), "ms") <==> NanoDisplayMax < nanos < 1_000_000_000
    ensures EndsWith(SimpleString(nanos), "s")
  {
    if nanos <= NanoDisplayMax {
      NanosSuffix(FormatInt(nanos));
    } else if nanos >= 1_000_000_000 {
      var body := FixedPoint(nanos / 1_000_000_000, nanos % 1_000_000_000 / 1_000_000);
      assert SimpleString(nanos) == body + "s";
      FixedPointShape(nanos / 1_000_000_000, nanos % 1_000_000_000 / 1_000_000);
      SecondsSuffix(body);
    } else {
      var body := FixedPoint(nanos / 1_000_000, nanos % 1_000_000 / 1_000);
      assert SimpleString(nanos) == body + "ms";
      MillisSuffix(body);
    }
  }

  lemma {:induction false} NanosSuffix(f: string)
    ensures EndsWith(f + "ns", "ns") && !EndsWith(f + "ns", "ms") && EndsWith(f + "ns", "s")
  {
    var s := f + "ns";
    assert s[|s| - 2..] == "ns";
    assert s[|s| - 1..] == "s";
  }

  lemma {:induction false} MillisSuffix(body: string)
    ensures EndsWith(body + "ms", "ms") && !EndsWith(body + "ms", "ns") && EndsWith(body + "ms", "s")
  {
    var s := body + "ms";
    assert s[|s| - 2..] == "ms";
    assert s[|s| - 1..] == "s";
  }

  lemma {:induction false} SecondsSuffix(body: string)
    requires |body| >= 1 && IsDigit(body[|body| - 1])
    ensures !EndsWith(body + "s", "ns") && !EndsWith(body + "s", "ms") && EndsWith(body + "s", "s")
  {
    var s := body + "s";
    assert s[|s| - 1..] == "s";
    assert s[|s| - 2] == body[|body| - 1];
    assert |s| >= 2 ==> s[|s| - 2..][0] == s[|s| - 2];
  }

  lemma {:induction false} FormatIntNoSpace(n: int)
    ensures NoSpace(FormatInt(n))
  {
    var s := FormatInt(n);
    forall i | 0 <= i < |s|
      ensures s[i] != ' '
    {
      if n < 0 && i >= 1 {
        assert s[i] == FormatNat(-n)[i - 1];
      }
    }
  }

  lemma {:induction false} NoSpaceConcat(a: string, b: string)
    requires NoSpace(a) && NoSpace(b)
    ensures NoSpace(a + b)
  {
    forall i | 0 <= i < |a + b|
      ensures (a + b)[i] != ' '
    {
      if i >= |a| {
        assert (a + b)[i] == b[i - |a|];
      }
    }
  }

  /** The compact form is one non-empty word: it never holds a space. */
  lemma {:induction false} SimpleStringHasNoSpace(nanos: int)
    ensures |SimpleString(nanos)| > 0 && NoSpace(SimpleString(nanos))
  {
    if nanos <= NanoDisplayMax {
      FormatIntNoSpace(nanos);
      NoSpaceConcat(FormatInt(nanos), "ns");
    } else if nanos >= 1_000_000_000 {
      var body := FixedPoint(nanos / 1_000_000_000, nanos % 1_000_000_000 / 1_000_000);
      FixedPointShape(nanos / 1_000_000_000, nanos % 1_000_000_000 / 1_000_000);
      NoSpaceConcat(body, "s");
    } else {
      var body := FixedPoint(nanos / 1_000_000, nanos % 1_000_000 / 1_000);
      FixedPointShape(nanos / 1_000_000, nanos % 1_000_000 / 1_000);
      NoSpaceConcat(body, "ms");
    }
  }

  /** `s` opens with a digit, or with `-` for a negative count. */
  predicate StartsWithNumber(s: string) {
    |s| > 0 && (IsDigit(s[0]) || s[0] == '-')
  }

  lemma {:induction false} SimpleStringStartsWithNumber(nanos: int)
    ensures StartsWithNumber(SimpleString(nanos))
  {
    var f := if nanos <= NanoDisplayMax then FormatInt(nanos)
             else if nanos >= 1_000_000_000 then FormatInt(nanos / 1_000_000_000)
             else FormatInt(nanos / 1_000_000);
    assert SimpleString(nanos)[0] == f[0];
  }
}
