/** The one-line timing report of `timeit.go` (`printTiming`): which
    durations are shown, the choice between the two layouts of the real
    time, and the order of the fields. Reading the clocks and the child's
    CPU times, and formatting the wall-clock times of day, happen outside
    this model: they arrive as parameters. */
module Report {
  import opened Wrappers
  import opened Decimal
  import opened Simple
  import opened Readable

  /** Every line `timeit` prints starts with this (`printPrefix`). */
  const PrintPrefix: string := "[timeit] "

  /** User and system CPU time of the finished command. */
  datatype CpuTimes = CpuTimes(user: int, system: int)

  /** The three durations a report shows. */
  datatype Times = Times(elapsed: int, user: int, system: int)

  /** The durations `printTiming` reports: the measured wall-clock time and
      the command's CPU times (zero when the command left no process state),
      all three replaced by the injected test duration when it is not
      negative. */
  function EffectiveTimes(elapsed: int, cpu: Option<CpuTimes>, testDuration: int): (t: Times)
    ensures testDuration >= 0 ==> t.elapsed == testDuration && t.user == testDuration && t.system == testDuration
    ensures testDuration < 0 ==> t.elapsed == elapsed
    ensures testDuration < 0 && cpu.None? ==> t.user == 0 && t.system == 0
    ensures testDuration < 0 && cpu.Some? ==> t.user == cpu.value.user && t.system == cpu.value.system
  {
    var measured := match cpu
      case Some(c) => Times(elapsed, c.user, c.system)
      case None => Times(elapsed, 0, 0);
    if testDuration >= 0 then Times(testDuration, testDuration, testDuration) else measured
  }

  /** The real-time field: `Real <simple>` when both renderings agree,
      otherwise `<readable> (<simple>)`. */
  function RealField(elapsed: int): string {
    var longForm := ReadableString(elapsed);
    var shortForm := SimpleString(elapsed);
    if longForm == shortForm then "Real " + shortForm else longForm + " (" + shortForm + ")"
  }

  /** The report line for given durations and start and end times of day
      (already formatted as `15:04:05`). */
  function TimingLine(t: Times, startText: string, endText: string): string {
    PrintPrefix + RealField(t.elapsed) + OtherFields(t, startText, endText)
  }

  /** What follows the real time: the two CPU times and the time-of-day span. */
  function OtherFields(t: Times, startText: string, endText: string): string {
    ", Usr " + SimpleString(t.user)
    + ", Sys " + SimpleString(t.system)
    + " (" + startText + "-" + endText + ")"
  }

  /** `printTiming` without the printing itself. */
  function PrintTiming(elapsed: int, cpu: Option<CpuTimes>, testDuration: int,
                       startText: string, endText: string): string
  {
    TimingLine(EffectiveTimes(elapsed, cpu, testDuration), startText, endText)
  }

  /** The real time is shown as `Real <simple>` exactly when it is shorter
      than a minute in either direction, and as `<readable> (<simple>)`
      from one minute on. */
  lemma {:induction false} RealFieldLayout(elapsed: int)
    ensures -60_000_000_000 < elapsed < 60_000_000_000 ==> RealField(elapsed) == "Real " + SimpleString(elapsed)
    ensures !(-60_000_000_000 < elapsed < 60_000_000_000)
            ==> RealField(elapsed) == ReadableString(elapsed) + " (" + SimpleString(elapsed) + ")"
  {
    ReadableEqualsSimpleIff(elapsed);
  }

  /** A report line opens with `[timeit] Real ` exactly when the real time
      is shorter than a minute in either direction: the readable form that
      leads otherwise starts with a number, never with `R`. */
  lemma {:induction false} LineStartsWithReal(t: Times, startText: string, endText: string)
    ensures StartsWith(TimingLine(t, startText, endText), PrintPrefix + "Real ")
            <==> -60_000_000_000 < t.elapsed < 60_000_000_000
  {
    var rest := OtherFields(t, startText, endText);
    RealFieldLayout(t.elapsed);
    if -60_000_000_000 < t.elapsed < 60_000_000_000 {
      RealLeads(SimpleString(t.elapsed), rest);
    } else {
      var readable := ReadableString(t.elapsed);
      var field := readable + " (" + SimpleString(t.elapsed) + ")";
      assert StartsWithNumber(field) by {
        ReadableStringStartsWithNumber(t.elapsed);
        assert field[0] == readable[0];
      }
      NumberLeads(field, rest);
    }
  }

  lemma {:induction false} RealLeads(shortForm: string, rest: string)
    ensures StartsWith(PrintPrefix + ("Real " + shortForm) + rest, PrintPrefix + "Real ")
  {
    var line := PrintPrefix + ("Real " + shortForm) + rest;
    var lead := PrintPrefix + "Real ";
    assert forall i :: 0 <= i < |lead| ==> line[i] == lead[i];
    assert line[..|lead|] == lead;
  }

  lemma {:induction false} NumberLeads(field: string, rest: string)
    requires StartsWithNumber(field)
    ensures !StartsWith(PrintPrefix + field + rest, PrintPrefix + "Real ")
  {
    var line := PrintPrefix + field + rest;
    var lead := PrintPrefix + "Real ";
    assert line[|PrintPrefix|] == field[0];
    assert lead[|PrintPrefix|] == 'R';
    if |line| >= |lead| {
      assert line[..|lead|][|PrintPrefix|] == line[|PrintPrefix|];
    }
  }

  /** A non-negative test duration stands in for every measurement: the line
      no longer depends on the elapsed time or on the CPU times. */
  lemma OverrideReplacesMeasurements(elapsed: int, cpu: Option<CpuTimes>, testDuration: int,
                                    startText: string, endText: string)
    requires testDuration >= 0
    ensures PrintTiming(elapsed, cpu, testDuration, startText, endText)
            == PrintTiming(0, None, testDuration, startText, endText)
    ensures PrintTiming(elapsed, cpu, testDuration, startText, endText)
            == TimingLine(Times(testDuration, testDuration, testDuration), startText, endText)
  {
  }

  /** Without a test duration and without process state, both CPU fields
      show zero, which reads `0ns`. */
  lemma {:induction false} MissingCpuTimesReadZero(elapsed: int, testDuration: int,
                                                   startText: string, endText: string)
    requires testDuration < 0
    ensures PrintTiming(elapsed, None, testDuration, startText, endText)
            == TimingLine(Times(elapsed, 0, 0), startText, endText)
    ensures SimpleString(0) == "0ns"
  {
    ZeroReadsZeroNanos(0);
  }

  lemma {:induction false} ZeroReadsZeroNanos(n: int)
    requires n == 0
    ensures SimpleString(n) == "0ns"
  {
    assert FormatInt(n) == "0";
  }
}
