/**
 * `StrongAssert`: assertions that stay in release builds. A failed check logs
 * an error with the stack trace, notifies the registered listeners, and then,
 * depending on the severity, returns, throws, or exits the process.
 *
 * The effects of a failure are returned as a value: the logged text, the
 * notice the listeners receive, and how the call ends. Listeners are notified
 * before the call ends, whichever way it ends.
 */
module StrongAssert {
  import opened Wrappers
  import opened Clr
  import ClrText
  import StringUtils

  /** The `Severity` enum, as the int32 it holds (a cast can give any int32). */
  const NoException: Int32 := 0
  const ThrowException: Int32 := 1
  const Freeze: Int32 := 2
  const Halt: Int32 := 3

  const FailedPrefix: string := "StrongAssert failed (severity=="

  /** `String.Format("{0}", severity)`: the member name, or the number for an unlisted value. */
  function SeverityName(severity: Int32): (r: string)
    ensures |r| > 0
    ensures 0 <= severity <= 3 ==> 'A' <= r[0] <= 'Z'
    ensures !(0 <= severity <= 3) ==> r == ClrText.IntToString(severity)
  {
    if severity == NoException then "NoException"
    else if severity == ThrowException then "ThrowException"
    else if severity == Freeze then "Freeze"
    else if severity == Halt then "Halt"
    else ClrText.IntToString(severity)
  }

  /** Different severities are reported differently. */
  lemma SeverityNameInjective(a: Int32, b: Int32)
    ensures SeverityName(a) == SeverityName(b) ==> a == b
  {
    if SeverityName(a) == SeverityName(b) && !(0 <= a <= 3) && !(0 <= b <= 3) {
      ClrText.IntToStringParses(a);
      ClrText.IntToStringParses(b);
    } else if SeverityName(a) == SeverityName(b) && !(0 <= a <= 3) {
      NumberNotNamed(a);
    } else if SeverityName(a) == SeverityName(b) && !(0 <= b <= 3) {
      NumberNotNamed(b);
    }
  }

  /** The text of an unlisted severity starts with a sign or a digit, never a capital letter. */
  lemma NumberNotNamed(n: int)
    ensures !('A' <= ClrText.IntToString(n)[0] <= 'Z')
  {
    if n >= 0 {
      assert ClrText.IsAsciiDigit(ClrText.NatToString(n)[0]);
    }
  }

  /** The formatted user message: the format text itself, or what `String.Format` makes of it. */
  function Rendered<A>(o: StringUtils.FormatOutcome<A>, format: (string, seq<A>) -> string): string
  {
    match o
    case Unchanged(text) => text
    case Formatted(f, args) => format(f, args)
  }

  /**
   * The failure message of `Fail_core`: the severity, and the formatted user
   * message after ": " only when both the message and the argument array are
   * non-null. `format` stands for `String.Format` in the invariant culture.
   */
  function FailMessage<A>(severity: Int32, message: Option<string>, args: Option<seq<A>>,
                          format: (string, seq<A>) -> string): (msg: string)
    ensures var head := FailedPrefix + SeverityName(severity) + ")";
      |head| <= |msg| && msg[..|head|] == head
    ensures var head := FailedPrefix + SeverityName(severity) + ")";
      message.None? || args.None? <==> |msg| == |head|
    ensures var head := FailedPrefix + SeverityName(severity) + ")";
      message.Some? && args.Some? && |args.value| == 0 ==> msg == head + (": " + message.value)
  {
    var head := FailedPrefix + SeverityName(severity) + ")";
    if message.None? || args.None? then head
    else
      var tail := ": " + Rendered(StringUtils.FormatInvCult(message, args), format);
      assert (head + tail)[..|head|] == head;
      head + tail
  }

  /** The `StrongAssertMessage` the listeners receive. */
  datatype Notice = Notice(severity: Int32, message: string, stackTrace: string)

  /** How a failed assertion ends. */
  datatype Ending =
    | Returns             // NoException
    | Throws(msg: string) // an Exception with the failure message
    | Exits(code: int)    // Environment.Exit

  /** The effects of `Fail_core`, in the order they happen. */
  datatype Failure = Failure(logged: string, notified: Option<Notice>, ending: Ending)

  /**
   * `Fail_core`: log the message and the stack trace as an error, notify the
   * listeners when there are any, then end according to the severity:
   * `NoException` returns, `Freeze` falls through to `Halt`, which exits with
   * -1, and `ThrowException` and every unlisted value throw.
   */
  function FailCore<A>(severity: Int32, message: Option<string>, args: Option<seq<A>>,
                       format: (string, seq<A>) -> string, stackTrace: string, hasListeners: bool): (r: Failure)
    ensures r.logged == "*** " + FailMessage(severity, message, args, format) + "\nStack trace:\n" + stackTrace
    ensures r.notified.Some? <==> hasListeners
    ensures hasListeners ==> r.notified.value == Notice(severity, FailMessage(severity, message, args, format), stackTrace)
    ensures r.ending.Returns? <==> severity == NoException
    ensures r.ending.Exits? <==> severity == Freeze || severity == Halt
    ensures r.ending.Exits? ==> r.ending.code == -1
    ensures r.ending.Throws? ==> r.ending.msg == FailMessage(severity, message, args, format)
  {
    var msg := FailMessage(severity, message, args, format);
    var ending :=
      if severity == NoException then Returns
      else if severity == Freeze || severity == Halt then Exits(-1)
      else Throws(msg);
    Failure("*** " + msg + "\nStack trace:\n" + stackTrace,
            if hasListeners then Some(Notice(severity, msg, stackTrace)) else None,
            ending)
  }

  /**
   * The `True` overloads with a message and arguments (the severity defaults to
   * `ThrowException` where it is not given; without a message the message is
   * "" and the arguments are null): a failure exactly when the condition is false.
   */
  function True<A>(condition: bool, severity: Int32, message: Option<string>, args: Option<seq<A>>,
                   format: (string, seq<A>) -> string, stackTrace: string, hasListeners: bool): (r: Option<Failure>)
    ensures r.Some? <==> !condition
    ensures r.Some? ==> r.value == FailCore(severity, message, args, format, stackTrace, hasListeners)
  {
    if condition then None else Some(FailCore(severity, message, args, format, stackTrace, hasListeners))
  }

  /** `NotEmpty`: a failure exactly when the string is null or empty. */
  function NotEmpty<A>(str: Option<string>, severity: Int32, message: Option<string>, args: Option<seq<A>>,
                       format: (string, seq<A>) -> string, stackTrace: string, hasListeners: bool): (r: Option<Failure>)
    ensures r.Some? <==> str.None? || |str.value| == 0
    ensures r.Some? ==> r.value == FailCore(severity, message, args, format, stackTrace, hasListeners)
  {
    True(str.Some? && |str.value| > 0, severity, message, args, format, stackTrace, hasListeners)
  }

  /** `Equal` on value types: a failure exactly when the two values differ. */
  function Equal<T(==), A>(a: T, b: T, severity: Int32, message: Option<string>, args: Option<seq<A>>,
                           format: (string, seq<A>) -> string, stackTrace: string, hasListeners: bool): (r: Option<Failure>)
    ensures r.Some? <==> a != b
    ensures r.Some? ==> r.value == FailCore(severity, message, args, format, stackTrace, hasListeners)
  {
    True(a == b, severity, message, args, format, stackTrace, hasListeners)
  }

  /**
   * `True(condition, severity, Func<string>)` as written: the message the
   * function builds (`msg`, or "" for a null function) goes to `Fail_core`
   * with null arguments, so it never reaches the failure message.
   */
  function TrueWithMessageFuncAsWritten(condition: bool, severity: Int32, msg: string,
                                        stackTrace: string, hasListeners: bool): (r: Option<Failure>)
    ensures r.Some? <==> !condition
  {
    True<string>(condition, severity, Some(msg), None, (f, a) => f, stackTrace, hasListeners)
  }

  /** The built message is lost: the failure reads the same whatever the function returns. */
  lemma MessageFuncIgnored(severity: Int32, msg: string, stackTrace: string, hasListeners: bool)
    ensures var r := TrueWithMessageFuncAsWritten(false, severity, msg, stackTrace, hasListeners);
      r.Some? && r.value.notified == (if hasListeners then Some(Notice(severity, FailedPrefix + SeverityName(severity) + ")", stackTrace)) else None)
    ensures TrueWithMessageFuncAsWritten(false, severity, msg, stackTrace, hasListeners)
         == TrueWithMessageFuncAsWritten(false, severity, "", stackTrace, hasListeners)
  {
  }

  /**
   * The same overload passing an empty argument array, as the other overloads
   * do, so that the built message follows ": " in the failure message.
   */
  function TrueWithMessageFunc(condition: bool, severity: Int32, msg: string,
                               stackTrace: string, hasListeners: bool): (r: Option<Failure>)
    ensures r.Some? <==> !condition
    ensures r.Some? && hasListeners ==>
      r.value.notified == Some(Notice(severity, FailedPrefix + SeverityName(severity) + "): " + msg, stackTrace))
  {
    var head := FailedPrefix + SeverityName(severity) + ")";
    assert head + (": " + msg) == FailedPrefix + SeverityName(severity) + "): " + msg;
    True<string>(condition, severity, Some(msg), Some([]), (f, a) => f, stackTrace, hasListeners)
  }
}
