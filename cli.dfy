/**
 * The argument dispatch of `main` and the text of the pidfile. The process
 * lifecycle itself (fork, signals, files) is not modelled; `getenv("HOME")`
 * is reduced to whether it is set.
 */
module Cli {
  import opened Wrappers
  import opened Decimal

  const DEFAULT_INTERVAL: int := 1
  const EXIT_FAILURE: int := 1

  /** What `main` does with its arguments. */
  datatype Action =
    | Usage                          // wrong argument count: print usage, return 1
    | NoHome                         // HOME unset: exit(EXIT_FAILURE)
    | Start(interval: Option<int>)   // `start`, with the `-s` value when one is given
    | Stop                           // `stop`
    | Unknown(command: string)       // any other command: return 1

  /**
   * `atoi`: after the leading white space and an optional sign, the value of
   * the longest run of digits (leading zeros included), negated after `-`;
   * 0 when there is no digit.
   */
  function Atoi(s: string): (n: int)
    ensures var t := SkipSpace(s);
      var negative := |t| > 0 && t[0] == '-';
      var u := if |t| > 0 && (t[0] == '-' || t[0] == '+') then t[1..] else t;
      var k := DigitRun(u);
      n == (if k == 0 then 0 else if negative then -(DigitsValue(u[..k]) as int) else DigitsValue(u[..k]))
  {
    match LeadingInt(s)
    case Some(v) => v
    case None => 0
  }

  /** `atoi` of `%d` text followed by a non-digit is the number written. */
  lemma AtoiOfText(n: int, rest: string)
    requires |rest| > 0 ==> !IsDigit(rest[0])
    ensures Atoi(IntToString(n) + rest) == n
  {
    IntToStringRoundTrip(n, rest);
  }

  /** `atoi` is 0 when no digit follows the leading white space and the optional sign. */
  lemma AtoiNoDigits(s: string)
    requires var t := SkipSpace(s);
      var u := if |t| > 0 && (t[0] == '-' || t[0] == '+') then t[1..] else t;
      |u| == 0 || !IsDigit(u[0])
    ensures Atoi(s) == 0
  {
  }

  /** `main(argc, argv)` with `args` = argv[0..argc). */
  function Dispatch(args: seq<string>, homeSet: bool): (a: Action)
    ensures a == Usage <==> |args| != 2 && |args| != 4
    ensures a == NoHome <==> (|args| == 2 || |args| == 4) && !homeSet
    ensures a.Start? <==> (|args| == 2 || |args| == 4) && homeSet && args[1] == "start"
    ensures a.Start? ==> (a.interval.Some? <==> |args| == 4 && args[2] == "-s")
    ensures a.Start? && a.interval.Some? ==> a.interval.value == Atoi(args[3])
    ensures a == Stop <==> (|args| == 2 || |args| == 4) && homeSet && args[1] == "stop"
    ensures a.Unknown? <==> (|args| == 2 || |args| == 4) && homeSet && args[1] != "start" && args[1] != "stop"
    ensures a.Unknown? ==> a.command == args[1]
  {
    if |args| != 2 && |args| != 4 then Usage
    else if !homeSet then NoHome
    else if args[1] == "start" then
      Start(if |args| == 4 && args[2] == "-s" then Some(Atoi(args[3])) else None)
    else if args[1] == "stop" then Stop
    else Unknown(args[1])
  }

  /**
   * The status `main` ends with for the actions that end in `main` itself;
   * `start` always leaves through `exit` in the parent and loops in the child.
   */
  function ExitStatus(a: Action): (code: Option<int>)
    ensures code == None <==> a.Start?
    ensures code == Some(0) <==> a == Stop
    ensures a == Usage || a.Unknown? ==> code == Some(1)
    ensures a == NoHome ==> code == Some(EXIT_FAILURE)
  {
    match a
    case Usage => Some(1)
    case NoHome => Some(EXIT_FAILURE)
    case Start(_) => None
    case Stop => Some(0)
    case Unknown(_) => Some(1)
  }

  /** `start -s 5` asks for a 5-second interval. */
  lemma StartFiveSeconds()
    ensures Dispatch(["statfile", "start", "-s", "5"], true) == Start(Some(5))
  {
    assert IntToString(5) == "5";
    IntToStringRoundTrip(5, "");
    assert "5" + "" == "5";
  }

  /** A zero-padded interval, as in `start -s 05`, is read as its value. */
  lemma AtoiZeroPadded()
    ensures Atoi("05") == 5
  {
    SkipSpaceNone("05");
    assert "05"[1..] == "5" && "5"[1..] == "";
    assert DigitRun("05") == 2;
    assert "05"[..2] == "05" && "05"[..1] == "0" && "0"[..0] == "";
    assert DigitsValue("05") == 5;
  }

  /** The pidfile holds `"%d\n"` of the pid; `fscanf("%d")` reads the same pid back. */
  function PidfileText(pid: int): (text: string)
    ensures LeadingInt(text) == Some(pid)
    ensures text[|text| - 1] == '\n'
  {
    IntToStringRoundTrip(pid, "\n");
    IntToString(pid) + "\n"
  }

  /** The process-wide settings `main` writes: the sampling interval. */
  class Settings {
    var updateInterval: int

    constructor ()
      ensures updateInterval == DEFAULT_INTERVAL
    {
      updateInterval := DEFAULT_INTERVAL;
    }

    /** `main`'s dispatch, writing `update_interval` for `start -s <n>`. */
    method Run(args: seq<string>, homeSet: bool) returns (a: Action)
      modifies this
      ensures a == Dispatch(args, homeSet)
      ensures a.Start? && a.interval.Some? ==> updateInterval == a.interval.value
      ensures !(a.Start? && a.interval.Some?) ==> updateInterval == old(updateInterval)
    {
      if |args| != 2 && |args| != 4 {
        return Usage;
      }
      if !homeSet {
        return NoHome;
      }
      if args[1] == "start" {
        if |args| == 4 && args[2] == "-s" {
          updateInterval := Atoi(args[3]);
          return Start(Some(updateInterval));
        }
        return Start(None);
      } else if args[1] == "stop" {
        return Stop;
      }
      return Unknown(args[1]);
    }
  }
}
