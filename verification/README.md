# timeit — duration formatting, report line and argument handling in Dafny

`timeit` runs a command and then prints one line with its real, user and
system time, for example
`[timeit] 1 minute 30.000s (90.000s), Usr 2.500ms, Sys 0ns (10:00:00-10:01:30)`.
This project models the pure core of `timeit.go` and proves what that core
promises:

- `wrappers.dfy` (`Wrappers`): the `Option` type the readers return.
- `decimal.dfy` (`Decimal`): `strconv.FormatInt(n, 10)` as `FormatInt`.
  It is paired with the reader `ParseInt`, which accepts exactly the
  canonical decimal form.
- `simple.dfy` (`Simple`): `getAsDecimals` and the compact form
  `getDurationAsSimpleString`:
  - plain nanoseconds up to `99999ns`;
  - otherwise a truncated `<ms>.<3 digits>ms`, or from one second on a
    truncated `<s>.<3 digits>s`.

  `GetAsDecimals` is the closed definition. `GetAsDecimalsLoop` is the
  right-to-left loop of the program, proved equal to it. `ParseSimple`
  reads the compact form back independently of how it was written.
- `readable.dfy` (`Readable`): `writeReadableTimeUnit` and
  `getDurationAsReadableString`.
  - The division chain uses Go's truncating `/` and `%` (`Quot`, `Rem`),
    so negative durations behave as they do in Go.
  - The result is compared against a reference description: the positive
    unit phrases joined by single spaces, then the compact remainder.
- `report.dfy` (`Report`): the string assembly of `printTiming`:
  - the `testDuration` override of all three durations;
  - zero CPU times when the command left no process state;
  - the choice between `Real <simple>` and `<readable> (<simple>)`;
  - the order of the fields.
- `arguments.dfy` (`Arguments`): `isOptionString` (a loop with an if-and-only-if
  contract) and the list rewrite of `parseArguments`, which removes a hidden
  `-<digits>` first argument and reads it as the test duration.

Durations are nanosecond counts held in unbounded `int`s. `exp3`, `exp6`
and `exp9` appear as the literals `1_000`, `1_000_000` and `1_000_000_000`.

Two facts about the readable form follow from the code and are proved:

- Ninety seconds render as `1 minute 30.000s`. The remainder under a
  minute goes through the compact form, which always prints three decimals
  for seconds (`Readable.NinetySecondsExample`).
- The readable and compact forms are equal exactly when `-60s < d < 60s`
  (`Readable.ReadableEqualsSimpleIff`). For the non-negative durations
  `timeit` measures, that means below one minute
  (`Readable.ReadableEqualsSimpleNonNegative`). For `d <= -60s`,
  truncating division leaves every unit count non-positive, so only the
  remainder is printed: `-61s` renders as `-1000000000ns`
  (`Readable.NegativeExample`).

## Model

| member | source | states |
|---|---|---|
| Decimal.ParseFormatInt | timeit.go:196 | reading back the decimal form `strconv.FormatInt` writes gives the number again, for every integer |
| Decimal.FormatIntInjective | timeit.go:196 | two integers have the same decimal form exactly when they are equal |
| Simple.GetAsDecimals | timeit.go:119-132 | the field always has exactly `numDigits` characters |
| Simple.GetAsDecimalsLoop | timeit.go:119-132 | the right-to-left rune loop yields the last `numDigits` characters of the decimal form, left-padded with `'0'` |
| Simple.GetAsDecimalsReadsBack | timeit.go:119-132 | for a non-negative number the field is all digits and denotes the number modulo `10^numDigits` |
| Simple.GetAsDecimalsPads | timeit.go:118-132 | a number below `10^numDigits` keeps all its digits, preceded by the missing leading zeros |
| Simple.SimpleStringRoundTrip | timeit.go:192-212 | reading the compact form back gives the exact count up to 99999ns, the count truncated to whole microseconds below one second, and truncated to whole milliseconds from one second on |
| Simple.SimpleStringUnit | timeit.go:195-211 | the text ends in `ns` exactly when the duration is at most 99999ns, in `ms` exactly when it is strictly between that and one second, and always ends in `s` |
| Simple.FixedPointShape | timeit.go:204 | `<whole>.<3-digit fraction>` contains no space, ends in a digit, and reads back as `whole` thousands plus the fraction |
| Simple.SimpleStringHasNoSpace | timeit.go:192-212 | the compact form is a non-empty word with no space |
| Simple.SimpleStringStartsWithNumber | timeit.go:192-212 | the compact form opens with a digit or a minus sign |
| Readable.QuotRem | timeit.go:161-174 | Go's truncating quotient and remainder reassemble the dividend; the remainder has the dividend's sign and is smaller than the divisor in magnitude |
| Readable.Split | timeit.go:158-180 | the days, hours, minutes and sub-minute remainder add back up to the duration; for a non-negative duration `hours < 24`, `minutes < 60` and `0 <= remainder < 60s`, with mirrored bounds for a negative one |
| Readable.WriteReadableTimeUnit | timeit.go:138-151 | a non-positive count leaves the buffer as it was; otherwise the buffer is extended by a space only if it was non-empty, then the count, then the singular suffix exactly for one unit and the plural otherwise |
| Readable.WriteUnitAppendsPhrase | timeit.go:138-151 | appending one unit to a buffer of space-joined phrases adds that unit's `<n> <unit>[s]` phrase as one more part, or nothing when the count is not positive |
| Readable.WriteBreakdownIsJoinedPhrases | timeit.go:176-188 | the output is the positive day, hour and minute phrases in that order, then the compact remainder, joined by single spaces |
| Readable.ReadableStringIsJoinedPhrases | timeit.go:154-189 | zero renders as `0ns`; any other duration renders as its positive unit phrases, largest first, then the compact form of the sub-minute remainder |
| Readable.ReadableEqualsSimpleIff | timeit.go:154-212 | the readable and compact forms are the same text if and only if the duration is strictly between minus one minute and one minute |
| Readable.ReadableEqualsSimpleNonNegative | timeit.go:154-212 | for a non-negative duration the two forms agree if and only if it is shorter than one minute |
| Readable.ReadableStringStartsWithNumber | timeit.go:154-189 | the readable form opens with a digit or a minus sign |
| Readable.NinetySecondsExample | timeit.go:154-189 | ninety seconds render as `1 minute 30.000s` |
| Readable.NegativeExample | timeit.go:158-188 | minus 61 seconds renders as `-1000000000ns` |
| Report.EffectiveTimes | timeit.go:255-269 | a non-negative test duration replaces the real, user and system times; otherwise the measured real time is kept and the CPU times are those of the process state, or zero without one |
| Report.OverrideReplacesMeasurements | timeit.go:264-269 | with a non-negative test duration the line does not depend on the measured time or the CPU times: it is the line for that duration in all three fields |
| Report.MissingCpuTimesReadZero | timeit.go:255-262 | without an override or process state the user and system times are zero, and zero reads `0ns` |
| Report.RealFieldLayout | timeit.go:276-287 | the real time is written `Real <simple>` when it is shorter than a minute in either direction, and `<readable> (<simple>)` otherwise |
| Report.LineStartsWithReal | timeit.go:271-299 | the line begins with `[timeit] Real ` if and only if the real time is strictly between minus one and one minute |
| Arguments.IsOptionString | timeit.go:337-353 | the result is true exactly for a `-` followed by one or more decimal digits and nothing else |
| Arguments.AtoiDigits | timeit.go:360-362 | the test duration is the digits' value, saturated at the largest 64-bit integer |
| Arguments.ParseArguments | timeit.go:355-376 | usage with exit code 1 happens exactly when nothing but the program name remains after the option is dropped. Otherwise the command is a non-empty suffix of the arguments, in order. It is two shorter than the list exactly when `args[1]` is an option, and one shorter otherwise. The test duration is the option's value, or -1 when there is no option |
| Arguments.ParseArgumentsRebuilds | timeit.go:359-375 | the program name, the consumed option (if any) and the command concatenate back to the original argument list |

## Left out

- Process control is not modelled: `execAndTime`, `getExitCode`, the
  signal pass-through goroutine, `main` and `os.Exit`. They run a child
  process and handle signals. `Usage(1)` records only the exit code that
  `parseArguments` asks for.
- Output is not modelled: `ps`, `pl`, `pf`, the Windows/Unix newline
  choice, `printUsage` and the `testDuration = ... nanoseconds` notice. All
  of them write to the terminal, and none affects a returned value.
- The clocks and the child's CPU times come in as parameters. `time.Now`,
  `endTime.Sub(startTime)` and `ProcessState.UserTime/SystemTime` read the
  operating system.
- The two `time.Format("15:04:05")` texts come in as opaque strings.
  Formatting a time of day is library code outside the core.
- `timeme/timeme.go` is not part of this model. It is a separate helper
  program.
- Durations are unbounded `int`s rather than Go's `int64`. No formatter
  step can overflow on an `int64` input:
  - every quotient is smaller in magnitude than the duration;
  - `seconds * exp9 + nanos` rebuilds a value no larger than the
    duration.
- Simple.GetAsDecimals: takes `numDigits` as a `nat`, so Go's `make`
  panic on a negative length is not modelled. Every call passes 3.
- Arguments.IsOptionString: works on characters, while Go checks
  `len(s)` in bytes and iterates by rune. The results agree:
  - a string is accepted only if its first rune is the one-byte `-`;
  - every later rune must be an ASCII digit;
  - any multi-byte or invalid rune is rejected either way.
- Arguments.AtoiDigits: assumes a 64-bit `int`. On a 32-bit platform
  `strconv.Atoi` would saturate at `2^31 - 1` instead.
- Arguments.ParseArguments: requires at least the program name. On an
  empty list Go's `parseArguments` would panic at `args[1:]`, and that
  panic is not modelled. The only caller passes `os.Args`, which always
  holds the program name.
