/** The multi-unit duration form of `timeit.go` (`getDurationAsReadableString`
    with `writeReadableTimeUnit`), meant for people: whole days, hours and
    minutes, then the compact form of what is left under a minute. */
module Readable {
  import opened Decimal
  import opened Simple

  // ---------------------------------------------------------------------
  // Go's integer division

  /** Go's `a / b` for a positive `b`: the quotient rounded toward zero
      (Dafny's own `/` rounds toward minus infinity for a negative `a`). */
  function Quot(a: int, b: int): int
    requires b > 0
  {
    if a >= 0 then a / b else -((-a) / b)
  }

  /** Go's `a % b` for a positive `b`: the remainder takes the sign of `a`. */
  function Rem(a: int, b: int): int
    requires b > 0
  {
    if a >= 0 then a % b else -((-a) % b)
  }

  /** Truncating division splits `a` exactly, with a remainder of `a`'s sign
      smaller than `b` in magnitude. */
  lemma {:induction false} QuotRem(a: int, b: int)
    requires b > 0
    ensures a == Quot(a, b) * b + Rem(a, b)
    ensures a >= 0 ==> Quot(a, b) >= 0 && 0 <= Rem(a, b) < b
    ensures a < 0 ==> Quot(a, b) <= 0 && -b < Rem(a, b) <= 0
  {
    if a >= 0 {
      QuotRemNonNegative(a, b);
    } else {
      QuotRemNonNegative(-a, b);
      assert a == -((-a) / b * b + (-a) % b);
      assert Quot(a, b) * b == -((-a) / b * b);
    }
  }

  lemma {:induction false} QuotRemNonNegative(a: int, b: int)
    requires b > 0 && a >= 0
    ensures a == a / b * b + a % b && a / b >= 0 && 0 <= a % b < b
  {
  }

  // ---------------------------------------------------------------------
  // getDurationAsReadableString

  /** Whole days, hours and minutes of a duration and what is left under a minute. */
  datatype Breakdown = Breakdown(days: int, hours: int, minutes: int, remainder: int)
  {
    function TotalMinutes(): int {
      (days * 24 + hours) * 60 + minutes
    }
  }

  /** The division chain of the readable formatter: nanoseconds to seconds,
      minutes, hours and days, each step with Go's truncating `/` and `%`,
      and the seconds put back together with the sub-second nanoseconds.
      The parts add up to the duration and carry its sign. */
  function Split(nanos: int): (b: Breakdown)
    ensures nanos == b.TotalMinutes() * 60_000_000_000 + b.remainder
    ensures nanos >= 0 ==> 0 <= b.days && 0 <= b.hours < 24 && 0 <= b.minutes < 60
                           && 0 <= b.remainder < 60_000_000_000
    ensures nanos < 0 ==> b.days <= 0 && -24 < b.hours <= 0 && -60 < b.minutes <= 0
                          && -60_000_000_000 < b.remainder <= 0
  {
    var allSeconds, subSecond := Quot(nanos, 1_000_000_000), Rem(nanos, 1_000_000_000);
    var allMinutes, seconds := Quot(allSeconds, 60), Rem(allSeconds, 60);
    var allHours, minutes := Quot(allMinutes, 60), Rem(allMinutes, 60);
    var days, hours := Quot(allHours, 24), Rem(allHours, 24);
    QuotRem(nanos, 1_000_000_000);
    QuotRem(allSeconds, 60);
    QuotRem(allMinutes, 60);
    QuotRem(allHours, 24);
    Breakdown(days, hours, minutes, seconds * 1_000_000_000 + subSecond)
  }

  /** The buffer followed by a separating space when it already holds text. */
  function Spaced(buffer: string): (r: string)
    ensures buffer <= r
    ensures |r| == if buffer == [] then 0 else |buffer| + 1
  {
    if |buffer| != 0 then buffer + " " else buffer
  }

  /** `writeReadableTimeUnit`: the buffer is left alone for a non-positive
      count; otherwise it gains a separating space (only when it already
      holds text), the count, and the singular suffix for exactly one unit or
      the plural suffix for more. */
  function WriteReadableTimeUnit(buffer: string, numUnits: int, singular: string, plural: string): (r: string)
    ensures numUnits <= 0 ==> r == buffer
    ensures numUnits > 0 ==> r == Spaced(buffer) + FormatInt(numUnits) + (if numUnits == 1 then singular else plural)
    ensures r == buffer <==> numUnits <= 0
    ensures buffer <= r
  {
    if numUnits <= 0 then buffer
    else Spaced(buffer) + FormatInt(numUnits) + (if numUnits > 1 then plural else singular)
  }

  /** `getDurationAsReadableString`. */
  function ReadableString(nanos: int): string {
    if nanos == 0 then "0ns" else WriteBreakdown(Split(nanos))
  }

  /** The buffer writes of the readable formatter once the division chain is done. */
  function WriteBreakdown(b: Breakdown): string {
    var afterDays := WriteReadableTimeUnit("", b.days, " day", " days");
    var afterHours := WriteReadableTimeUnit(afterDays, b.hours, " hour", " hours");
    var buffer := WriteReadableTimeUnit(afterHours, b.minutes, " minute", " minutes");
    Spaced(buffer) + SimpleString(b.remainder)
  }

  // ---------------------------------------------------------------------
  // A reference description of the readable form

  /** `<n> <unit>`, with an `s` appended to the unit when `n` is not 1. */
  function UnitPhrase(n: int, unit: string): string {
    FormatInt(n) + " " + unit + (if n == 1 then "" else "s")
  }

  /** The phrase for a unit count, or nothing when the count is not positive. */
  function PhraseIfPositive(n: int, unit: string): seq<string> {
    if n > 0 then [UnitPhrase(n, unit)] else []
  }

  /** Parts joined with single spaces. */
  function JoinWithSpaces(parts: seq<string>): string {
    if |parts| == 0 then ""
    else if |parts| == 1 then parts[0]
    else JoinWithSpaces(parts[..|parts| - 1]) + " " + parts[|parts| - 1]
  }

  predicate AllNonEmpty(parts: seq<string>) {
    forall i :: 0 <= i < |parts| ==> parts[i] != []
  }

  /** The non-zero units of a breakdown, largest first. */
  function UnitPhrases(b: Breakdown): seq<string> {
    PhraseIfPositive(b.days, "day") + PhraseIfPositive(b.hours, "hour")
    + PhraseIfPositive(b.minutes, "minute")
  }

  lemma {:induction false} JoinWithSpacesEmpty(parts: seq<string>)
    requires AllNonEmpty(parts)
    ensures JoinWithSpaces(parts) == [] <==> parts == []
  {
    if |parts| > 1 {
      var init := parts[..|parts| - 1];
      assert |JoinWithSpaces(parts)| >= 1 + |parts[|parts| - 1]|;
    }
  }

  /** Appending to the buffer the way the formatter does extends the join by one part. */
  lemma {:induction false} JoinWithSpacesSnoc(parts: seq<string>, p: string)
    requires AllNonEmpty(parts) && p != []
    ensures JoinWithSpaces(parts + [p]) == Spaced(JoinWithSpaces(parts)) + p
  {
    JoinWithSpacesEmpty(parts);
    var ps := parts + [p];
    assert ps[..|ps| - 1] == parts;
    if parts == [] {
      assert JoinWithSpaces(ps) == p;
    }
  }

  /** One call of `WriteReadableTimeUnit` with the suffixes `" <unit>"` and
      `" <unit>s"` adds the unit's phrase as one more space-separated part. */
  lemma {:induction false} WriteUnitAppendsPhrase(parts: seq<string>, n: int, unit: string)
    requires AllNonEmpty(parts)
    ensures AllNonEmpty(parts + PhraseIfPositive(n, unit))
    ensures WriteReadableTimeUnit(JoinWithSpaces(parts), n, " " + unit, " " + unit + "s")
            == JoinWithSpaces(parts + PhraseIfPositive(n, unit))
  {
    if n <= 0 {
      assert parts + PhraseIfPositive(n, unit) == parts;
    } else {
      var p := UnitPhrase(n, unit);
      var front := Spaced(JoinWithSpaces(parts));
      assert PhraseIfPositive(n, unit) == [p];
      assert JoinWithSpaces(parts + [p]) == front + p by {
        assert |FormatInt(n)| >= 1;
        JoinWithSpacesSnoc(parts, p);
      }
      var suffix := if n == 1 then " " + unit else " " + unit + "s";
      assert front + FormatInt(n) + suffix == front + p by {
        UnitPhraseSuffix(n, unit);
        assert front + FormatInt(n) + suffix == front + (FormatInt(n) + suffix);
      }
    }
  }

  /** A positive count followed by the suffix `writeReadableTimeUnit` picks is the unit's phrase. */
  lemma UnitPhraseSuffix(n: int, unit: string)
    requires n > 0
    ensures FormatInt(n) + (if n == 1 then " " + unit else " " + unit + "s") == UnitPhrase(n, unit)
  {
  }

  /** A breakdown reads as its positive day, hour and minute counts, in that
      order and pluralised, followed by the compact form of what is left
      under a minute, all separated by single spaces. */
  lemma {:induction false} WriteBreakdownIsJoinedPhrases(b: Breakdown)
    ensures WriteBreakdown(b) == JoinWithSpaces(UnitPhrases(b) + [SimpleString(b.remainder)])
  {
    var p1 := PhraseIfPositive(b.days, "day");
    var afterDays := WriteReadableTimeUnit("", b.days, " day", " days");
    assert afterDays == JoinWithSpaces(p1) && AllNonEmpty(p1) by {
      assert JoinWithSpaces([]) == "";
      assert " day" == " " + "day" && " days" == " " + "day" + "s";
      WriteUnitAppendsPhrase([], b.days, "day");
      assert [] + p1 == p1;
    }
    var p2 := p1 + PhraseIfPositive(b.hours, "hour");
    var afterHours := WriteReadableTimeUnit(afterDays, b.hours, " hour", " hours");
    assert afterHours == JoinWithSpaces(p2) && AllNonEmpty(p2) by {
      assert " hour" == " " + "hour" && " hours" == " " + "hour" + "s";
      WriteUnitAppendsPhrase(p1, b.hours, "hour");
    }
    var p3 := p2 + PhraseIfPositive(b.minutes, "minute");
    var buffer := WriteReadableTimeUnit(afterHours, b.minutes, " minute", " minutes");
    assert buffer == JoinWithSpaces(p3) && AllNonEmpty(p3) by {
      assert " minute" == " " + "minute" && " minutes" == " " + "minute" + "s";
      WriteUnitAppendsPhrase(p2, b.minutes, "minute");
    }
    assert p3 == UnitPhrases(b);
    var last := SimpleString(b.remainder);
    SimpleStringHasNoSpace(b.remainder);
    JoinWithSpacesSnoc(p3, last);
  }

  /** The readable form is `0ns` for zero; otherwise the positive day, hour
      and minute counts of the truncating division chain, largest first,
      then the compact form of the part under a minute, space-separated. */
  lemma {:induction false} ReadableStringIsJoinedPhrases(nanos: int)
    ensures nanos == 0 ==> ReadableString(nanos) == "0ns"
    ensures nanos != 0 ==>
              ReadableString(nanos)
              == JoinWithSpaces(UnitPhrases(Split(nanos)) + [SimpleString(Split(nanos).remainder)])
  {
    if nanos != 0 {
      WriteBreakdownIsJoinedPhrases(Split(nanos));
    }
  }

  // ---------------------------------------------------------------------
  // When the readable form is the compact form

  /** The readable and compact forms coincide exactly for durations shorter
      than one minute in either direction; this decides between the
      `Real <simple>` and `<readable> (<simple>)` report layouts. */
  lemma {:induction false} ReadableEqualsSimpleIff(nanos: int)
    ensures ReadableString(nanos) == SimpleString(nanos)
            <==> -60_000_000_000 < nanos < 60_000_000_000
  {
    if -60_000_000_000 < nanos < 60_000_000_000 {
      ReadableUnderMinute(nanos);
    } else if nanos > 0 {
      ReadableLongPositive(nanos);
    } else {
      ReadableLongNegative(nanos);
    }
  }

  /** For the durations `timeit` measures (never negative): the two forms
      coincide exactly below one minute. */
  lemma {:induction false} ReadableEqualsSimpleNonNegative(nanos: int)
    requires nanos >= 0
    ensures ReadableString(nanos) == SimpleString(nanos) <==> nanos < 60_000_000_000
  {
    ReadableEqualsSimpleIff(nanos);
  }

  lemma {:induction false} ReadableUnderMinute(nanos: int)
    requires -60_000_000_000 < nanos < 60_000_000_000
    ensures ReadableString(nanos) == SimpleString(nanos)
  {
    if nanos == 0 {
      assert SimpleString(0) == FormatNat(0) + "ns";
    } else {
      SplitUnderMinute(nanos);
      NoUnitsWritten(Split(nanos));
    }
  }

  /** Under a minute in either direction there are no whole units, and the
      remainder is the whole duration. */
  lemma {:induction false} SplitUnderMinute(nanos: int)
    requires -60_000_000_000 < nanos < 60_000_000_000
    ensures Split(nanos) == Breakdown(0, 0, 0, nanos)
  {
    var b := Split(nanos);
    var m := b.TotalMinutes();
    assert m == 0 by {
      assert m * 60_000_000_000 == nanos - b.remainder;
    }
    assert b.days == 0 && b.hours == 0 && b.minutes == 0;
  }

  /** From one minute on, a unit count precedes a space the compact form never holds. */
  lemma {:induction false} ReadableLongPositive(nanos: int)
    requires nanos >= 60_000_000_000
    ensures ReadableString(nanos) != SimpleString(nanos)
  {
    var b := Split(nanos);
    var afterDays := WriteReadableTimeUnit("", b.days, " day", " days");
    var afterHours := WriteReadableTimeUnit(afterDays, b.hours, " hour", " hours");
    var buffer := WriteReadableTimeUnit(afterHours, b.minutes, " minute", " minutes");
    assert b.days > 0 || b.hours > 0 || b.minutes > 0 by {
      assert b.TotalMinutes() >= 1;
    }
    assert buffer != [];
    assert ReadableString(nanos) == buffer + " " + SimpleString(b.remainder);
    SimpleStringHasNoSpace(nanos);
    SpacedDiffers(buffer, SimpleString(b.remainder), SimpleString(nanos));
  }

  lemma {:induction false} SpacedDiffers(front: string, back: string, other: string)
    requires front != [] && NoSpace(other)
    ensures front + " " + back != other
  {
    assert (front + " " + back)[|front|] == ' ';
  }

  /** At minus one minute or below every unit count is non-positive, so only
      the remainder is written, and it differs from the duration itself. */
  lemma {:induction false} ReadableLongNegative(nanos: int)
    requires nanos <= -60_000_000_000
    ensures ReadableString(nanos) != SimpleString(nanos)
  {
    var b := Split(nanos);
    assert WriteBreakdown(b) == SimpleString(b.remainder);
    assert b.remainder != nanos;
    RoundTripNanos(b.remainder);
    RoundTripNanos(nanos);
  }

  // ---------------------------------------------------------------------
  // Leading character of the readable form

  lemma {:induction false} JoinWithSpacesFirst(parts: seq<string>)
    requires |parts| >= 1 && AllNonEmpty(parts)
    ensures |JoinWithSpaces(parts)| > 0 && JoinWithSpaces(parts)[0] == parts[0][0]
    decreases |parts|
  {
    if |parts| > 1 {
      var init := parts[..|parts| - 1];
      JoinWithSpacesFirst(init);
    }
  }

  /** Both forms open with a number (a digit, or `-` for a negative duration). */
  lemma {:induction false} ReadableStringStartsWithNumber(nanos: int)
    ensures StartsWithNumber(ReadableString(nanos))
  {
    if nanos != 0 {
      var b := Split(nanos);
      WriteBreakdownIsJoinedPhrases(b);
      var last := SimpleString(b.remainder);
      SimpleStringStartsWithNumber(b.remainder);
      var units := UnitPhrases(b);
      var parts := units + [last];
      assert AllNonEmpty(parts) by {
        SimpleStringHasNoSpace(b.remainder);
        UnitPhrasesStartWithDigit(b);
      }
      JoinWithSpacesFirst(parts);
      if |units| == 0 {
        assert parts[0] == last;
      } else {
        UnitPhrasesStartWithDigit(b);
        assert parts[0] == units[0];
      }
    }
  }

  lemma {:induction false} UnitPhrasesStartWithDigit(b: Breakdown)
    ensures forall i :: 0 <= i < |UnitPhrases(b)| ==> |UnitPhrases(b)[i]| > 0 && IsDigit(UnitPhrases(b)[i][0])
  {
    var d := PhraseIfPositive(b.days, "day");
    var h := PhraseIfPositive(b.hours, "hour");
    var m := PhraseIfPositive(b.minutes, "minute");
    assert b.days > 0 ==> d[0][0] == FormatInt(b.days)[0];
    assert b.hours > 0 ==> h[0][0] == FormatInt(b.hours)[0];
    assert b.minutes > 0 ==> m[0][0] == FormatInt(b.minutes)[0];
  }

  // ---------------------------------------------------------------------
  // Worked examples

  /** Ninety seconds read as one minute and the compact form of thirty
      seconds, which keeps its three millisecond digits. */
  lemma {:induction false} NinetySecondsExample(nanos: int)
    requires nanos == 90_000_000_000
    ensures ReadableString(nanos) == "1 minute 30.000s"
  {
    var rest := nanos - 60_000_000_000;
    SplitExample(nanos, 0, 1, rest);
    OneMinuteAnd(rest);
    ThirtySeconds(rest);
  }

  /** The division chain on a non-negative duration whose parts are known. */
  lemma {:induction false} SplitExample(nanos: int, hours: int, minutes: int, rest: int)
    requires 0 <= hours < 24 && 0 <= minutes < 60 && 0 <= rest < 60_000_000_000
    requires nanos == (hours * 60 + minutes) * 60_000_000_000 + rest
    ensures Split(nanos) == Breakdown(0, hours, minutes, rest)
  {
    var b := Split(nanos);
    var t := hours * 60 + minutes;
    assert b.TotalMinutes() == t by {
      assert b.TotalMinutes() * 60_000_000_000 + b.remainder == t * 60_000_000_000 + rest;
    }
  }

  lemma {:induction false} OneMinuteAnd(rest: int)
    ensures WriteBreakdown(Breakdown(0, 0, 1, rest)) == "1 minute " + SimpleString(rest)
  {
    assert WriteReadableTimeUnit("", 0, " day", " days") == "";
    assert WriteReadableTimeUnit("", 0, " hour", " hours") == "";
    assert WriteReadableTimeUnit("", 1, " minute", " minutes") == "1 minute" by {
      assert FormatInt(1) == "1";
    }
  }

  lemma {:induction false} ThirtySeconds(nanos: int)
    requires nanos == 30_000_000_000
    ensures SimpleString(nanos) == "30.000s"
  {
    assert SimpleString(nanos) == FixedPoint(30, 0) + "s";
    assert FormatInt(30) == "30";
    assert GetAsDecimals(0, 3) == "000";
  }

  /** A negative duration of 61 seconds: Go's truncating division gives
      minus one minute and minus one second, no unit is written, and only
      the remainder of minus one second is shown in nanoseconds. */
  lemma {:induction false} NegativeExample(nanos: int)
    requires nanos == -61_000_000_000
    ensures ReadableString(nanos) == "-1000000000ns"
  {
    var rest := nanos + 60_000_000_000;
    var b := Split(nanos);
    assert b == Breakdown(0, 0, -1, rest) by {
      assert b.TotalMinutes() == -1;
    }
    NoUnitsWritten(b);
    assert SimpleString(rest) == FormatInt(rest) + "ns";
    MinusOneSecondDigits(rest);
  }

  /** With no positive unit count only the compact remainder is written. */
  lemma NoUnitsWritten(b: Breakdown)
    requires b.days <= 0 && b.hours <= 0 && b.minutes <= 0
    ensures WriteBreakdown(b) == SimpleString(b.remainder)
  {
  }

  lemma {:induction false} MinusOneSecondDigits(n: int)
    requires n == -1_000_000_000
    ensures FormatInt(n) == "-1000000000"
  {
    PowerOfTenDigits(9);
    assert Pow10(9) == 1_000_000_000;
    assert "1" + Zeros(9) == "1000000000";
  }

  /** `10^k` is written as a one followed by `k` zeros. */
  lemma {:induction false} PowerOfTenDigits(k: nat)
    ensures FormatNat(Pow10(k)) == "1" + Zeros(k)
  {
    if k > 0 {
      PowerOfTenDigits(k - 1);
      var p := Pow10(k);
      assert p / 10 == Pow10(k - 1) && p % 10 == 0;
      assert FormatNat(p) == FormatNat(Pow10(k - 1)) + "0";
      assert Zeros(k) == Zeros(k - 1) + "0";
    }
  }
}
