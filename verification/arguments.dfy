/** The command-line handling of `timeit.go` (`isOptionString` and
    `parseArguments`): an optional hidden first argument `-<digits>` injects
    a test duration in nanoseconds and is removed; what remains after the
    program name is the command to run. */
module Arguments {
  import opened Decimal

  /** Largest `int` on a 64-bit platform; `strconv.Atoi` saturates to it. */
  const MaxInt64: int := 0x7FFF_FFFF_FFFF_FFFF

  /** `-` followed by at least one decimal digit and nothing else. */
  predicate OptionShaped(s: string) {
    |s| >= 2 && s[0] == '-' && IsDigits(s[1..])
  }

  /** `isOptionString`, walking the characters as the Go loop does. */
  method IsOptionString(s: string) returns (b: bool)
    ensures b <==> OptionShaped(s)
  {
    if |s| <= 1 {
      return false;
    }
    var pos := 0;
    while pos < |s|
      invariant 0 <= pos <= |s|
      invariant pos >= 1 ==> s[0] == '-'
      invariant forall k :: 1 <= k < pos ==> IsDigit(s[k])
    {
      var c := s[pos];
      if pos == 0 {
        if c != '-' {
          return false;
        }
      } else if c < '0' || c > '9' {
        assert s[1..][pos - 1] == c;
        return false;
      }
      pos := pos + 1;
    }
    assert forall k :: 0 <= k < |s| - 1 ==> s[1..][k] == s[k + 1];
    return true;
  }

  /** `strconv.Atoi` on a string of digits: its value, saturated at the
      largest 64-bit integer (the range error it then reports is ignored). */
  function AtoiDigits(digits: string): (n: int)
    requires IsDigits(digits)
    ensures 0 <= n <= MaxInt64
    ensures n == ParseNat(digits) || (n == MaxInt64 && ParseNat(digits) > MaxInt64)
  {
    if ParseNat(digits) > MaxInt64 then MaxInt64 else ParseNat(digits)
  }

  /** What `parseArguments` decides: print the usage and exit with the given
      code, or run a command with the test duration in force (`-1`, the
      initial value, when none was given). */
  datatype Invocation =
    | Usage(exitCode: int)
    | Run(testDuration: int, command: seq<string>)

  /** `parseArguments` on the full argument list, program name first. */
  function ParseArguments(args: seq<string>): (r: Invocation)
    requires |args| >= 1
    ensures r.Usage? <==> |args| == 1 || (|args| == 2 && OptionShaped(args[1]))
    ensures r.Usage? ==> r.exitCode == 1
    ensures r.Run? ==> 1 <= |r.command| < |args| && r.command == args[|args| - |r.command|..]
    ensures r.Run? ==> (|r.command| == |args| - 2 <==> OptionShaped(args[1]))
    ensures r.Run? ==> (|r.command| == |args| - 1 <==> !OptionShaped(args[1]))
    ensures r.Run? && OptionShaped(args[1]) ==> r.testDuration == AtoiDigits(args[1][1..])
    ensures r.Run? && !OptionShaped(args[1]) ==> r.testDuration == -1
  {
    var (testDuration, kept) :=
      if |args| > 1 && OptionShaped(args[1]) then (AtoiDigits(args[1][1..]), args[..1] + args[2..])
      else (-1, args);
    if |kept| == 1 then Usage(1) else Run(testDuration, kept[1..])
  }

  /** Rebuilding the argument list: the program name, the option when one was
      consumed, then the command, in the original order. */
  lemma {:induction false} ParseArgumentsRebuilds(args: seq<string>)
    requires |args| >= 1
    ensures var r := ParseArguments(args);
            r.Run? ==> args == [args[0]] + (if OptionShaped(args[1]) then [args[1]] else []) + r.command
  {
    var r := ParseArguments(args);
    if r.Run? {
      if OptionShaped(args[1]) {
        assert args == [args[0]] + [args[1]] + args[2..];
      } else {
        assert args == [args[0]] + [] + args[1..];
      }
    }
  }
}
