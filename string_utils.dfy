/**
 * The string helpers of the common utilities: digit test, truncation with an
 * ellipsis, splitting that drops empty entries, stack-trace shortening
 * and the invariant-culture formatting shortcut.
 *
 * A C# `string` reference is `Option<string>`: `None` is `null`.
 */
module StringUtils {
  import opened Wrappers
  import Clr

  datatype StringError = ArgumentOutOfRange

  const Ellipsis: string := "..."

  /** `(uint)(c - '0') <= 9u`: the subtraction is an int32 one and the cast reinterprets it. */
  function IsDigit(c: char): (r: bool)
    ensures r <==> '0' <= c <= '9'
  {
    Clr.AsUInt32(Clr.Wrap32(c as int - '0' as int)) <= 9
  }

  /**
   * Returns null, empty and short strings unchanged; a longer one is cut to
   * `max - 3` characters plus "...". `Substring` throws when `max - 3` is negative.
   */
  function TruncateLongString(str: Option<string>, max: Clr.Int32): (r: Result<Option<string>, StringError>)
    ensures (str.None? || |str.value| == 0 || |str.value| <= max) ==> r == Ok(str)
    ensures str.Some? && |str.value| > 0 && |str.value| > max && max < 3 ==> r == Err(ArgumentOutOfRange)
    ensures str.Some? && |str.value| > max >= 3 ==>
      r.Ok? && r.value.Some? && |r.value.value| == max
      && r.value.value[..max - 3] == str.value[..max - 3] && r.value.value[max - 3..] == Ellipsis
  {
    if str.None? || |str.value| == 0 || |str.value| <= max then Ok(str)
    else if max - 3 < 0 then Err(ArgumentOutOfRange)
    else Ok(Some(str.value[..max - 3] + Ellipsis))
  }

  /** Shortens `s` to `max` characters plus "..." when it is longer than `max`. */
  function ShortenString(s: string, max: Clr.Int32): (r: Result<string, StringError>)
    ensures |s| <= max ==> r == Ok(s)
    ensures |s| > max && max < 0 ==> r == Err(ArgumentOutOfRange)
    ensures |s| > max >= 0 ==> r.Ok? && |r.value| == max + 3 && r.value[..max] == s[..max] && r.value[max..] == Ellipsis
  {
    if |s| <= max then Ok(s)
    else if max < 0 then Err(ArgumentOutOfRange)
    else Ok(s[..max] + Ellipsis)
  }

  /** The exception overload: a null exception reads as the empty string. */
  function ShortenException(exceptionText: Option<string>, max: Clr.Int32): (r: Result<string, StringError>)
    ensures exceptionText.None? && max >= 0 ==> r == Ok("")
    ensures exceptionText.Some? ==> r == ShortenString(exceptionText.value, max)
  {
    ShortenString(if exceptionText.None? then "" else exceptionText.value, max)
  }

  /** What `FormatInvCult` does: hand back the format text, or delegate to `String.Format`. */
  datatype FormatOutcome<A> = Unchanged(text: string) | Formatted(format: string, args: seq<A>)

  function FormatInvCult<A>(fmt: Option<string>, args: Option<seq<A>>): (r: FormatOutcome<A>)
    ensures r.Formatted? <==> fmt.Some? && args.Some? && |args.value| > 0
    ensures r.Formatted? ==> r.format == fmt.value && r.args == args.value
    ensures fmt.None? ==> r == Unchanged("")
    ensures fmt.Some? && (args.None? || |args.value| == 0) ==> r == Unchanged(fmt.value)
  {
    if fmt.None? || args.None? || |args.value| == 0 then Unchanged(if fmt.None? then "" else fmt.value)
    else Formatted(fmt.value, args.value)
  }

  /** The number of leading characters of `s` that are not `sep`. */
  function RunLength(s: string, sep: char): (k: nat)
    ensures k <= |s|
    ensures forall i :: 0 <= i < k ==> s[i] != sep
    ensures k < |s| ==> s[k] == sep
  {
    if s == [] || s[0] == sep then 0 else 1 + RunLength(s[1..], sep)
  }

  /** `Split(sep, RemoveEmptyEntries)`: the maximal runs of `s` free of `sep`, in order. */
  function Split(s: string, sep: char): (parts: seq<string>)
    ensures forall j :: 0 <= j < |parts| ==> |parts[j]| > 0 && sep !in parts[j]
    decreases |s|
  {
    if s == [] then []
    else if s[0] == sep then Split(s[1..], sep)
    else
      var k := RunLength(s, sep);
      [s[..k]] + Split(s[k..], sep)
  }

  function Concat(parts: seq<string>): string
  {
    if parts == [] then "" else parts[0] + Concat(parts[1..])
  }

  function Without(s: string, sep: char): string
  {
    if s == [] then "" else (if s[0] == sep then "" else [s[0]]) + Without(s[1..], sep)
  }

  function JoinWith(parts: seq<string>, sep: char): string
  {
    if |parts| == 0 then "" else if |parts| == 1 then parts[0] else parts[0] + [sep] + JoinWith(parts[1..], sep)
  }

  /** No leading or trailing `sep` and no two in a row: nothing for RemoveEmptyEntries to drop. */
  predicate NoEmptyEntries(s: string, sep: char)
  {
    (|s| > 0 ==> s[0] != sep && s[|s| - 1] != sep)
    && forall i :: 0 <= i < |s| - 1 && s[i] == sep ==> s[i + 1] != sep
  }

  lemma {:induction false} WithoutOfRun(s: string, sep: char, k: nat)
    requires k <= |s|
    requires forall i :: 0 <= i < k ==> s[i] != sep
    ensures Without(s, sep) == s[..k] + Without(s[k..], sep)
  {
    if k > 0 {
      var t := s[1..];
      WithoutOfRun(t, sep, k - 1);
      assert Without(s, sep) == [s[0]] + Without(t, sep);
      assert t[k - 1..] == s[k..];
      assert [s[0]] + t[..k - 1] == s[..k];
    }
  }

  /** Splitting loses exactly the separators: the pieces concatenate to `s` with every `sep` removed. */
  lemma {:induction false} SplitKeepsText(s: string, sep: char)
    ensures Concat(Split(s, sep)) == Without(s, sep)
    decreases |s|
  {
    if s == [] {
    } else if s[0] == sep {
      SplitKeepsText(s[1..], sep);
    } else {
      var k := RunLength(s, sep);
      SplitKeepsText(s[k..], sep);
      WithoutOfRun(s, sep, k);
      assert Split(s, sep) == [s[..k]] + Split(s[k..], sep);
      assert ([s[..k]] + Split(s[k..], sep))[1..] == Split(s[k..], sep);
    }
  }

  /** A string that does not start with `sep` splits into at least one piece, the first being its leading run. */
  lemma SplitLeadingRun(t: string, sep: char)
    requires |t| > 0 && t[0] != sep
    ensures Split(t, sep) == [t[..RunLength(t, sep)]] + Split(t[RunLength(t, sep)..], sep)
    ensures |Split(t, sep)| > 0
  {
  }

  lemma SplitSkipsSeparator(t: string, sep: char)
    requires |t| > 0 && t[0] == sep
    ensures Split(t, sep) == Split(t[1..], sep)
  {
  }

  lemma NoEmptyEntriesAfterSeparator(s: string, sep: char, k: nat)
    requires NoEmptyEntries(s, sep)
    requires k + 1 < |s| && s[k] == sep
    ensures NoEmptyEntries(s[k + 1..], sep)
  {
    var tail := s[k + 1..];
    forall i | 0 <= i < |tail| - 1 && tail[i] == sep
      ensures tail[i + 1] != sep
    {
      assert tail[i] == s[k + 1 + i] && tail[i + 1] == s[k + 2 + i];
    }
    assert tail[0] == s[k + 1] && tail[|tail| - 1] == s[|s| - 1];
  }

  lemma CutAround(s: string, k: nat)
    requires k < |s|
    ensures s == s[..k] + [s[k]] + s[k + 1..]
  {
  }

  lemma JoinOfTwoOrMore(first: string, rest: seq<string>, sep: char)
    requires |rest| > 0
    ensures JoinWith([first] + rest, sep) == first + [sep] + JoinWith(rest, sep)
  {
    assert ([first] + rest)[1..] == rest;
  }

  /** With no empty entries, joining the pieces with `sep` gives back the input. */
  lemma {:induction false} SplitRoundTrip(s: string, sep: char)
    requires NoEmptyEntries(s, sep)
    ensures JoinWith(Split(s, sep), sep) == s
    decreases |s|
  {
    if s != [] {
      SplitLeadingRun(s, sep);
      var k := RunLength(s, sep);
      if k == |s| {
        assert s[k..] == [] && s[..k] == s;
      } else {
        assert s[k] == sep;
        assert k + 1 < |s|;
        var tail := s[k + 1..];
        NoEmptyEntriesAfterSeparator(s, sep, k);
        var rest := s[k..];
        assert rest[0] == sep && rest[1..] == tail;
        SplitSkipsSeparator(rest, sep);
        SplitRoundTrip(tail, sep);
        SplitLeadingRun(tail, sep);
        JoinOfTwoOrMore(s[..k], Split(tail, sep), sep);
        CutAround(s, k);
      }
    }
  }

  /** Appending one piece appends its text. */
  lemma {:induction false} ConcatAppend(parts: seq<string>, last: string)
    ensures Concat(parts + [last]) == Concat(parts) + last
  {
    if parts != [] {
      assert (parts + [last])[1..] == parts[1..] + [last];
      ConcatAppend(parts[1..], last);
    }
  }

  /** Joining one more piece adds a separator and the piece. */
  lemma {:induction false} JoinWithAppend(parts: seq<string>, last: string, sep: char)
    requires |parts| > 0
    ensures JoinWith(parts + [last], sep) == JoinWith(parts, sep) + [sep] + last
  {
    if |parts| > 1 {
      assert (parts + [last])[1..] == parts[1..] + [last];
      JoinWithAppend(parts[1..], last, sep);
    }
  }

  /** A separator-free run followed by a separator (or nothing) is exactly the leading run. */
  lemma {:induction false} RunLengthOfRun(run: string, rest: string, sep: char)
    requires sep !in run
    requires rest == [] || rest[0] == sep
    ensures RunLength(run + rest, sep) == |run|
  {
    if run != [] {
      assert (run + rest)[1..] == run[1..] + rest;
      RunLengthOfRun(run[1..], rest, sep);
    }
  }

  /** Splitting what `JoinWith` joined gives back the pieces when none is empty or holds `sep`. */
  lemma {:induction false} JoinSplitRoundTrip(parts: seq<string>, sep: char)
    requires forall j :: 0 <= j < |parts| ==> |parts[j]| > 0 && sep !in parts[j]
    ensures Split(JoinWith(parts, sep), sep) == parts
  {
    if |parts| == 1 {
      RunLengthOfRun(parts[0], [], sep);
      assert parts[0] + [] == parts[0];
      SplitLeadingRun(parts[0], sep);
      assert parts[0][RunLength(parts[0], sep)..] == [];
    } else if |parts| > 1 {
      var first, rest := parts[0], JoinWith(parts[1..], sep);
      var s := first + ([sep] + rest);
      assert JoinWith(parts, sep) == s;
      RunLengthOfRun(first, [sep] + rest, sep);
      SplitLeadingRun(s, sep);
      assert s[..|first|] == first && s[|first|..] == [sep] + rest;
      SplitSkipsSeparator([sep] + rest, sep);
      assert ([sep] + rest)[1..] == rest;
      JoinSplitRoundTrip(parts[1..], sep);
      assert [first] + parts[1..] == parts;
    }
  }
}
