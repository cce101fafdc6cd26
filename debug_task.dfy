/**
 * The developer's debug hooks around the TypeScript watcher
 * (`src/WebServer/SqCoreWeb/preDebugTask_Laci.py` and
 * `postDebugTask_Laci.py`). Before debugging, the process list is read, a
 * detached `tsc --watch` is launched, the list is read again and the last new
 * process whose line mentions "node" is written with a minute time stamp to
 * `watchTaskId.txt`. After debugging, that file is read back; a PID written
 * less than a day ago has its file removed and its process killed.
 *
 * The process lists and the clock are parameters; the file and the shell
 * commands the scripts issue are the fields of `DevHost`.
 */
module DebugTask {
  import opened Wrappers
  import StringUtils
  import ClrText
  import DeployWalk

  // ---------------------------------------------------------------------
  // `str.split()`

  /** A word of `str.split()`: a nonempty run free of Python white space. */
  predicate IsWord(w: string)
  {
    |w| > 0 && forall i :: 0 <= i < |w| ==> !DeployWalk.IsPySpace(w[i])
  }

  /** The length of the run of non-white-space characters `s` starts with. */
  function WordLength(s: string): (k: nat)
    ensures k <= |s|
    ensures forall i :: 0 <= i < k ==> !DeployWalk.IsPySpace(s[i])
    ensures k < |s| ==> DeployWalk.IsPySpace(s[k])
  {
    if s == [] || DeployWalk.IsPySpace(s[0]) then 0 else 1 + WordLength(s[1..])
  }

  /** `s.split()`: the maximal runs of `s` free of white space, in order. */
  function Words(s: string): (w: seq<string>)
    ensures forall j :: 0 <= j < |w| ==> IsWord(w[j])
    decreases |s|
  {
    if s == [] then []
    else if DeployWalk.IsPySpace(s[0]) then Words(s[1..])
    else
      var k := WordLength(s);
      [s[..k]] + Words(s[k..])
  }

  /** A word followed by white space or nothing is read whole. */
  lemma {:induction false} WordLengthOfWord(w: string, rest: string)
    requires IsWord(w)
    requires rest == [] || DeployWalk.IsPySpace(rest[0])
    ensures WordLength(w + rest) == |w|
    decreases |w|
  {
    if |w| > 1 {
      assert (w + rest)[1..] == w[1..] + rest;
      WordLengthOfWord(w[1..], rest);
    }
  }

  /** Words joined by single spaces split back into the same words. */
  lemma {:induction false} WordsOfJoin(ws: seq<string>)
    requires forall j :: 0 <= j < |ws| ==> IsWord(ws[j])
    ensures Words(StringUtils.JoinWith(ws, ' ')) == ws
    decreases |ws|
  {
    if |ws| == 1 {
      WordLengthOfWord(ws[0], "");
      assert ws[0] + "" == ws[0];
      assert ws[0][|ws[0]|..] == [];
    } else if |ws| > 1 {
      var w := ws[0];
      var tail := StringUtils.JoinWith(ws[1..], ' ');
      var s := StringUtils.JoinWith(ws, ' ');
      assert s == w + ([' '] + tail);
      WordLengthOfWord(w, [' '] + tail);
      assert s[..|w|] == w;
      assert s[|w|..] == [' '] + tail;
      assert Words([' '] + tail) == Words(tail) by {
        assert ([' '] + tail)[1..] == tail;
      }
      WordsOfJoin(ws[1..]);
    }
  }

  // ---------------------------------------------------------------------
  // The pre-debug script: PIDs from `tasklist`

  /** `isdigit()` on an ASCII word: nonempty and all decimal digits. */
  predicate IsDigits(w: string)
  {
    |w| > 0 && forall i :: 0 <= i < |w| ==> ClrText.IsAsciiDigit(w[i])
  }

  /** The PID a `tasklist` line names: its second word, when it has one and that is all digits. */
  function LinePid(line: string): Option<nat>
  {
    var words := Words(line);
    if |words| > 1 && IsDigits(words[1]) then Some(ClrText.DigitsValue(words[1])) else None
  }

  /** A `tasklist` row (image name, PID, then white space and the other columns) names its PID. */
  lemma LinePidOfRow(image: string, pid: nat, columns: seq<string>)
    requires IsWord(image) && forall j :: 0 <= j < |columns| ==> IsWord(columns[j])
    ensures LinePid(StringUtils.JoinWith([image, ClrText.NatToString(pid)] + columns, ' ')) == Some(pid)
  {
    var row := [image, ClrText.NatToString(pid)] + columns;
    assert row[1] == ClrText.NatToString(pid);
    WordsOfJoin(row);
    ClrText.NatToStringValue(pid);
  }

  /** The PIDs the lines name, in order: the `preTaskIds` list. */
  function PidsOf(lines: seq<string>): seq<nat>
  {
    if lines == [] then []
    else
      var last := lines[|lines| - 1];
      PidsOf(lines[..|lines| - 1]) + (if LinePid(last).Some? then [LinePid(last).value] else [])
  }

  /** Some line names `p`. */
  predicate NamedBySome(lines: seq<string>, p: nat)
  {
    exists i :: 0 <= i < |lines| && LinePid(lines[i]) == Some(p)
  }

  /** A PID is recorded exactly when some line names it. */
  lemma {:induction false} PidsOfMeaning(lines: seq<string>, p: nat)
    ensures p in PidsOf(lines) <==> NamedBySome(lines, p)
    decreases |lines|
  {
    if lines != [] {
      var front := lines[..|lines| - 1];
      PidsOfMeaning(front, p);
      forall i | 0 <= i < |front| ensures front[i] == lines[i] {
      }
    }
  }

  /** The first loop: every line naming a PID appends it to `preTaskIds`. */
  method CollectPreTaskIds(preTaskList: seq<string>) returns (preTaskIds: seq<nat>)
    ensures preTaskIds == PidsOf(preTaskList)
  {
    preTaskIds := [];
    var i := 0;
    while i < |preTaskList|
      invariant 0 <= i <= |preTaskList|
      invariant preTaskIds == PidsOf(preTaskList[..i])
    {
      DeployWalk.TakeOfTake(preTaskList, i);
      var words := Words(preTaskList[i]);
      if |words| > 1 {
        var idStr := words[1];
        if IsDigits(idStr) {
          preTaskIds := preTaskIds + [ClrText.DigitsValue(idStr)];
        }
      }
      i := i + 1;
    }
    DeployWalk.TakeAll(preTaskList);
  }

  const NodeText: string := "node"

  /** `"node" in line`. */
  predicate MentionsNode(line: string)
  {
    exists k :: 0 <= k <= |line| && ClrText.OccursAt(line, NodeText, k)
  }

  /** A line of the second list that the second loop takes: a new PID on a "node" line. */
  predicate IsCandidate(line: string, preTaskIds: seq<nat>)
  {
    LinePid(line).Some? && LinePid(line).value !in preTaskIds && MentionsNode(line)
  }

  /** The PID the second loop leaves in `watchTaskID`: the last candidate's, or -1. */
  function Chosen(lines: seq<string>, preTaskIds: seq<nat>): (r: int)
    ensures r == -1 || (r >= 0 && r !in preTaskIds)
  {
    if lines == [] then -1
    else
      var last := lines[|lines| - 1];
      if IsCandidate(last, preTaskIds) then LinePid(last).value else Chosen(lines[..|lines| - 1], preTaskIds)
  }

  /** Line `i` is a candidate and no later line is. */
  predicate LastCandidateAt(lines: seq<string>, preTaskIds: seq<nat>, i: int)
  {
    0 <= i < |lines| && IsCandidate(lines[i], preTaskIds)
    && forall j :: i < j < |lines| ==> !IsCandidate(lines[j], preTaskIds)
  }

  /**
   * No candidate leaves -1; otherwise the PID chosen is the one of the last
   * candidate line.
   */
  lemma {:induction false} ChosenMeaning(lines: seq<string>, preTaskIds: seq<nat>)
    ensures Chosen(lines, preTaskIds) == -1 <==> forall i :: 0 <= i < |lines| ==> !IsCandidate(lines[i], preTaskIds)
    ensures Chosen(lines, preTaskIds) != -1 ==>
      exists i :: LastCandidateAt(lines, preTaskIds, i) && LinePid(lines[i]) == Some(Chosen(lines, preTaskIds))
    decreases |lines|
  {
    if lines != [] {
      var n := |lines| - 1;
      var front := lines[..n];
      ChosenMeaning(front, preTaskIds);
      if IsCandidate(lines[n], preTaskIds) {
        assert LastCandidateAt(lines, preTaskIds, n);
      } else {
        forall i | 0 <= i < n ensures front[i] == lines[i] {
        }
        if Chosen(front, preTaskIds) != -1 {
          var i :| LastCandidateAt(front, preTaskIds, i) && LinePid(front[i]) == Some(Chosen(front, preTaskIds));
          assert LastCandidateAt(lines, preTaskIds, i);
        }
      }
    }
  }

  /** The second loop: each candidate line overwrites `watchTaskID`. */
  method ChooseWatchTask(postTaskList: seq<string>, preTaskIds: seq<nat>) returns (watchTaskID: int)
    ensures watchTaskID == Chosen(postTaskList, preTaskIds)
  {
    watchTaskID := -1;
    var i := 0;
    while i < |postTaskList|
      invariant 0 <= i <= |postTaskList|
      invariant watchTaskID == Chosen(postTaskList[..i], preTaskIds)
    {
      DeployWalk.TakeOfTake(postTaskList, i);
      var line := postTaskList[i];
      var words := Words(line);
      if |words| > 1 {
        var idStr := words[1];
        if IsDigits(idStr) {
          if ClrText.DigitsValue(idStr) !in preTaskIds {
            if MentionsNode(line) {
              watchTaskID := ClrText.DigitsValue(idStr);
            }
          }
        }
      }
      i := i + 1;
    }
    DeployWalk.TakeAll(postTaskList);
  }

  // ---------------------------------------------------------------------
  // Time stamps: `strftime("%Y-%m-%d-%H-%M")` and `strptime` of the same format

  /** A naive local `datetime`. */
  datatype Moment = Moment(year: int, month: int, day: int, hour: int, minute: int, second: int, micro: int)

  predicate IsValidMoment(t: Moment)
  {
    ClrText.IsValidDate(ClrText.Date(t.year, t.month, t.day))
    && 0 <= t.hour < 24 && 0 <= t.minute < 60 && 0 <= t.second < 60 && 0 <= t.micro < 1000000
  }

  /** The microseconds from 0001-01-01 00:00 to `t`: the scale `datetime` subtraction works on. */
  function MicrosOf(t: Moment): int
    requires IsValidMoment(t)
  {
    var days := ClrText.DayNumber(ClrText.Date(t.year, t.month, t.day));
    (((days * 24 + t.hour) * 60 + t.minute) * 60 + t.second) * 1000000 + t.micro
  }

  const DaySeconds: int := 3600 * 24

  /** `(now - stamp).total_seconds() < 3600*24`; a stamp in the future passes too. */
  predicate IsFresh(stamp: Moment, now: Moment)
    requires IsValidMoment(stamp) && IsValidMoment(now)
  {
    MicrosOf(now) - MicrosOf(stamp) < DaySeconds * 1000000
  }

  /** `t` cut to the minute: what the stamp keeps. */
  function ToMinute(t: Moment): (r: Moment)
    requires IsValidMoment(t)
    ensures IsValidMoment(r)
    ensures 0 <= MicrosOf(t) - MicrosOf(r) < 60 * 1000000
  {
    Moment(t.year, t.month, t.day, t.hour, t.minute, 0, 0)
  }

  function DigitChar(n: int): char
    requires 0 <= n < 10
  {
    '0' + n as char
  }

  /** A zero-padded two-digit field (`%m`, `%d`, `%H`, `%M`). */
  function TwoDigits(n: int): string
    requires 0 <= n < 100
  {
    [DigitChar(n / 10), DigitChar(n % 10)]
  }

  /** A four-digit year (`%Y`). */
  function FourDigits(n: int): string
    requires 0 <= n < 10000
  {
    TwoDigits(n / 100) + TwoDigits(n % 100)
  }

  /** The year, month, day, hour and minute fields, zero-padded. */
  function StampFields(t: Moment): seq<string>
    requires IsValidMoment(t)
  {
    [FourDigits(t.year), TwoDigits(t.month), TwoDigits(t.day), TwoDigits(t.hour), TwoDigits(t.minute)]
  }

  /** `t.strftime("%Y-%m-%d-%H-%M")`: the fields joined by hyphens. */
  function FormatStamp(t: Moment): string
    requires IsValidMoment(t)
  {
    StringUtils.JoinWith(StampFields(t), '-')
  }

  /** `s.split('-')`: the runs between hyphens, empty ones kept. */
  function DashFields(s: string): (r: seq<string>)
    ensures |r| > 0
    decreases |s|
  {
    var k := StringUtils.RunLength(s, '-');
    if k == |s| then [s] else [s[..k]] + DashFields(s[k + 1..])
  }

  /** The value of a one- or two-digit field, or -1. */
  function ShortField(f: string): (v: int)
    ensures v >= -1
  {
    if (|f| == 1 || |f| == 2) && IsDigits(f) then
      ClrText.DigitsValue(f)
    else -1
  }

  /**
   * `datetime.strptime(s, "%Y-%m-%d-%H-%M")`: four digits for the year, one
   * or two for each other field, the whole text used, naming a valid day; any
   * other text raises `ValueError` (here `None`).
   */
  function ParseStamp(s: string): (r: Option<Moment>)
    ensures r.Some? ==> IsValidMoment(r.value) && r.value.second == 0 && r.value.micro == 0
  {
    var f := DashFields(s);
    if |f| != 5 || |f[0]| != 4 || !IsDigits(f[0]) then None
    else
      var t := Moment(ClrText.DigitsValue(f[0]), ShortField(f[1]), ShortField(f[2]), ShortField(f[3]), ShortField(f[4]), 0, 0);
      if IsValidMoment(t) then Some(t) else None
  }

  /** A field free of hyphens is one run. */
  lemma {:induction false} RunLengthOfField(a: string, rest: string)
    requires '-' !in a
    requires rest == [] || rest[0] == '-'
    ensures StringUtils.RunLength(a + rest, '-') == |a|
    decreases |a|
  {
    if a != [] {
      assert (a + rest)[1..] == a[1..] + rest;
      RunLengthOfField(a[1..], rest);
    }
  }

  /** A field before a hyphen is the first of the fields. */
  lemma DashFieldsCons(a: string, rest: string)
    requires '-' !in a
    ensures DashFields(a + "-" + rest) == [a] + DashFields(rest)
  {
    var s := a + "-" + rest;
    assert s == a + ("-" + rest);
    RunLengthOfField(a, "-" + rest);
    assert s[..|a|] == a;
    assert s[|a| + 1..] == rest;
  }

  /** A field free of hyphens is all the fields. */
  lemma DashFieldsOne(a: string)
    requires '-' !in a
    ensures DashFields(a) == [a]
  {
    RunLengthOfField(a, "");
    assert a + "" == a;
  }

  lemma TwoDigitsValue(n: int)
    requires 0 <= n < 100
    ensures IsDigits(TwoDigits(n)) && '-' !in TwoDigits(n)
    ensures ClrText.DigitsValue(TwoDigits(n)) == n && ShortField(TwoDigits(n)) == n
  {
    var s := TwoDigits(n);
    assert s[..1] == [s[0]];
    assert ClrText.DigitsValue(s[..1]) == n / 10;
  }

  /** One more digit at the end shifts the value by a decimal place. */
  lemma DigitsValueSnoc(s: string, c: char)
    requires forall i :: 0 <= i < |s| ==> ClrText.IsAsciiDigit(s[i])
    requires ClrText.IsAsciiDigit(c)
    ensures ClrText.DigitsValue(s + [c]) == ClrText.DigitsValue(s) * 10 + (c as int - '0' as int)
  {
    assert (s + [c])[..|s|] == s;
  }

  lemma FourDigitsValue(n: int)
    requires 0 <= n < 10000
    ensures |FourDigits(n)| == 4 && IsDigits(FourDigits(n)) && '-' !in FourDigits(n)
    ensures ClrText.DigitsValue(FourDigits(n)) == n
  {
    var hi, lo := TwoDigits(n / 100), TwoDigits(n % 100);
    TwoDigitsValue(n / 100);
    assert hi + [lo[0]] + [lo[1]] == FourDigits(n);
    DigitsValueSnoc(hi, lo[0]);
    DigitsValueSnoc(hi + [lo[0]], lo[1]);
  }

  /** Fields free of hyphens, joined by hyphens, split back into the same fields. */
  lemma {:induction false} DashFieldsOfJoin(fs: seq<string>)
    requires |fs| > 0 && forall j :: 0 <= j < |fs| ==> '-' !in fs[j]
    ensures DashFields(StringUtils.JoinWith(fs, '-')) == fs
    decreases |fs|
  {
    if |fs| == 1 {
      DashFieldsOne(fs[0]);
    } else {
      var tail := StringUtils.JoinWith(fs[1..], '-');
      assert StringUtils.JoinWith(fs, '-') == fs[0] + "-" + tail;
      DashFieldsCons(fs[0], tail);
      DashFieldsOfJoin(fs[1..]);
    }
  }

  /** Reading a written stamp gives back its moment, cut to the minute. */
  lemma ParseStampOfFormat(t: Moment)
    requires IsValidMoment(t) && 1000 <= t.year
    ensures ParseStamp(FormatStamp(t)) == Some(ToMinute(t))
  {
    var f := StampFields(t);
    FourDigitsValue(t.year);
    TwoDigitsValue(t.month);
    TwoDigitsValue(t.day);
    TwoDigitsValue(t.hour);
    TwoDigitsValue(t.minute);
    DashFieldsOfJoin(f);
  }

  // ---------------------------------------------------------------------
  // `int()` of a word

  /** The digits of `s`, underscores dropped. */
  function DigitsOf(s: string): (r: string)
    ensures forall i :: 0 <= i < |r| ==> ClrText.IsAsciiDigit(r[i])
  {
    if s == [] then ""
    else (if ClrText.IsAsciiDigit(s[0]) then [s[0]] else "") + DigitsOf(s[1..])
  }

  /** Decimal digits with single underscores between them, as `int()` accepts. */
  predicate IsUnderscoredDigits(b: string)
  {
    |b| > 0 && ClrText.IsAsciiDigit(b[0]) && ClrText.IsAsciiDigit(b[|b| - 1])
    && (forall i :: 0 <= i < |b| ==> ClrText.IsAsciiDigit(b[i]) || b[i] == '_')
    && (forall i :: 0 <= i < |b| - 1 && b[i] == '_' ==> b[i + 1] != '_')
  }

  /** `int(w)` of a word: an optional sign, then digits with single underscores between them; anything else raises `ValueError` (here `None`). */
  function PyInt(w: string): Option<int>
  {
    var signed := |w| > 0 && (w[0] == '-' || w[0] == '+');
    var body := if signed then w[1..] else w;
    if !IsUnderscoredDigits(body) then None
    else
      var magnitude: int := ClrText.DigitsValue(DigitsOf(body));
      Some(if signed && w[0] == '-' then -magnitude else magnitude)
  }

  /** Digits alone are kept as they are. */
  lemma {:induction false} DigitsOfDigits(s: string)
    requires forall i :: 0 <= i < |s| ==> ClrText.IsAsciiDigit(s[i])
    ensures DigitsOf(s) == s
  {
    if s != [] {
      DigitsOfDigits(s[1..]);
    }
  }

  /** `int(str(n))` is `n`. */
  lemma PyIntOfText(n: int)
    ensures PyInt(ClrText.IntToString(n)) == Some(n)
  {
    var m := if n < 0 then -n else n;
    var ds := ClrText.NatToString(m);
    ClrText.NatToStringValue(m);
    DigitsOfDigits(ds);
    var w := ClrText.IntToString(n);
    if n < 0 {
      assert w[1..] == ds;
    } else {
      assert w == ds && !(w[0] == '-' || w[0] == '+');
    }
  }

  // ---------------------------------------------------------------------
  // `watchTaskId.txt`

  /** The file's text: the stamp, one space and the PID, with no line end. */
  function WatchFileText(now: Moment, watchTaskID: int): string
    requires IsValidMoment(now)
  {
    FormatStamp(now) + " " + ClrText.IntToString(watchTaskID)
  }

  /** Words joined by a character that is not white space make one word. */
  lemma {:induction false} JoinOfWords(ws: seq<string>, sep: char)
    requires |ws| > 0 && forall j :: 0 <= j < |ws| ==> IsWord(ws[j])
    requires !DeployWalk.IsPySpace(sep)
    ensures IsWord(StringUtils.JoinWith(ws, sep))
    decreases |ws|
  {
    if |ws| > 1 {
      JoinOfWords(ws[1..], sep);
      var tail := StringUtils.JoinWith(ws[1..], sep);
      var s := ws[0] + [sep] + tail;
      forall i | 0 <= i < |s| ensures !DeployWalk.IsPySpace(s[i]) {
        if i < |ws[0]| {
          assert s[i] == ws[0][i];
        } else if i > |ws[0]| {
          assert s[i] == tail[i - |ws[0]| - 1];
        }
      }
    }
  }

  /** The stamp and the PID are the file's two words. */
  lemma WatchFileWords(now: Moment, watchTaskID: int)
    requires IsValidMoment(now) && 1000 <= now.year
    ensures Words(WatchFileText(now, watchTaskID)) == [FormatStamp(now), ClrText.IntToString(watchTaskID)]
  {
    var stamp := FormatStamp(now);
    var id := ClrText.IntToString(watchTaskID);
    assert IsWord(stamp) by {
      FourDigitsValue(now.year);
      TwoDigitsValue(now.month);
      TwoDigitsValue(now.day);
      TwoDigitsValue(now.hour);
      TwoDigitsValue(now.minute);
      JoinOfWords(StampFields(now), '-');
    }
    assert IsWord(id) by {
      var m := if watchTaskID < 0 then -watchTaskID else watchTaskID;
      assert forall i :: 0 <= i < |ClrText.NatToString(m)| ==> ClrText.IsAsciiDigit(ClrText.NatToString(m)[i]);
    }
    WordsOfJoin([stamp, id]);
    assert StringUtils.JoinWith([stamp, id], ' ') == stamp + " " + id by {
      assert [stamp, id][1..] == [id];
    }
  }

  datatype PostError = ValueError

  /**
   * The `watchTaskId` the post-debug script reaches from the file's text
   * (`None` when there is no file) at local time `now`: -1 without a file or
   * with fewer than two words, -1 for a stale stamp, else the second word as
   * an integer. A stamp `strptime` refuses, or a fresh second word `int()`
   * refuses, raises.
   */
  function ReadWatchTaskId(content: Option<string>, now: Moment): Result<int, PostError>
    requires IsValidMoment(now)
  {
    if content.None? then Ok(-1)
    else
      var words := Words(content.value);
      if |words| <= 1 then Ok(-1)
      else match ParseStamp(words[0])
        case None => Err(ValueError)
        case Some(stamp) =>
          if !IsFresh(stamp, now) then Ok(-1)
          else match PyInt(words[1])
            case None => Err(ValueError)
            case Some(id) => Ok(id)
  }

  /**
   * What the pre-debug script writes, read back by the post-debug script:
   * the PID when less than a day has passed since the stamp's minute (or the
   * stamp is ahead of the clock), else -1.
   */
  lemma PostReadsPreFile(written: Moment, watchTaskID: int, now: Moment)
    requires IsValidMoment(written) && 1000 <= written.year && IsValidMoment(now)
    ensures ReadWatchTaskId(Some(WatchFileText(written, watchTaskID)), now)
      == Ok(if IsFresh(ToMinute(written), now) then watchTaskID else -1)
  {
    WatchFileWords(written, watchTaskID);
    ParseStampOfFormat(written);
    PyIntOfText(watchTaskID);
  }

  /** A post-debug run within 23 hours 59 minutes of the pre-debug run gets the PID back. */
  lemma PostSoonAfterPre(written: Moment, watchTaskID: int, now: Moment)
    requires IsValidMoment(written) && 1000 <= written.year && IsValidMoment(now)
    requires MicrosOf(now) - MicrosOf(written) < (DaySeconds - 60) * 1000000
    ensures ReadWatchTaskId(Some(WatchFileText(written, watchTaskID)), now) == Ok(watchTaskID)
  {
    PostReadsPreFile(written, watchTaskID, now);
  }

  const TscWatchCommand: string := "tsc --watch -p \"tsconfig.json\""

  /** `'taskkill /f /PID ' + str(pid)`. */
  function KillCommand(pid: int): string
  {
    "taskkill /f /PID " + ClrText.IntToString(pid)
  }

  /** The developer's machine as the two scripts see it. */
  class DevHost {
    /** The text of `watchTaskId.txt`, or `None` when the file does not exist. */
    var watchFile: Option<string>
    /** The shell commands started so far, in order. */
    var commands: seq<string>

    constructor(watchFile: Option<string>)
      ensures this.watchFile == watchFile && commands == []
    {
      this.watchFile := watchFile;
      commands := [];
    }

    /**
     * The pre-debug script: the PIDs of the first process list, the detached
     * `tsc --watch` launch, the choice from the second list and the file
     * write. `now` is the local time at the write.
     */
    method PreDebugTask(preTaskList: seq<string>, postTaskList: seq<string>, now: Moment) returns (watchTaskID: int)
      requires IsValidMoment(now) && 1000 <= now.year
      modifies this
      ensures watchTaskID == Chosen(postTaskList, PidsOf(preTaskList))
      ensures watchFile == Some(WatchFileText(now, watchTaskID))
      ensures commands == old(commands) + [TscWatchCommand]
    {
      var preTaskIds := CollectPreTaskIds(preTaskList);
      commands := commands + [TscWatchCommand];
      watchTaskID := ChooseWatchTask(postTaskList, preTaskIds);
      watchFile := Some(FormatStamp(now) + " " + ClrText.IntToString(watchTaskID));
    }

    /**
     * The post-debug script at local time `now`: a nonnegative PID has its
     * file removed and then `taskkill` run on it; otherwise nothing changes,
     * so a stale file stays. A `ValueError` ends the script before either.
     */
    method PostDebugTask(now: Moment) returns (r: Result<int, PostError>)
      requires IsValidMoment(now)
      modifies this
      ensures r == ReadWatchTaskId(old(watchFile), now)
      ensures r.Ok? && r.value >= 0 ==> watchFile == None && commands == old(commands) + [KillCommand(r.value)]
      ensures !(r.Ok? && r.value >= 0) ==> watchFile == old(watchFile) && commands == old(commands)
    {
      var watchTaskId := -1;
      if watchFile.Some? {
        var words := Words(watchFile.value);
        if |words| > 1 {
          var idStr := words[1];
          var datetimeWatchTask := ParseStamp(words[0]);
          if datetimeWatchTask.None? {
            return Err(ValueError);
          }
          if IsFresh(datetimeWatchTask.value, now) {
            var id := PyInt(idStr);
            if id.None? {
              return Err(ValueError);
            }
            watchTaskId := id.value;
          }
        }
      }
      if watchTaskId >= 0 {
        watchFile := None;
        commands := commands + [KillCommand(watchTaskId)];
      }
      r := Ok(watchTaskId);
    }
  }

  /**
   * The two scripts in a row, with the post-debug one run within 23 hours 59
   * minutes: the chosen task, if any, is killed and its file removed; with
   * none, the file stays and nothing is killed.
   */
  method DebugSession(host: DevHost, preTaskList: seq<string>, postTaskList: seq<string>, started: Moment, ended: Moment)
    returns (watchTaskID: int)
    requires IsValidMoment(started) && 1000 <= started.year && IsValidMoment(ended)
    requires MicrosOf(ended) - MicrosOf(started) < (DaySeconds - 60) * 1000000
    modifies host
    ensures watchTaskID == Chosen(postTaskList, PidsOf(preTaskList))
    ensures watchTaskID >= 0 ==>
      host.watchFile == None && host.commands == old(host.commands) + [TscWatchCommand, KillCommand(watchTaskID)]
    ensures watchTaskID < 0 ==>
      host.watchFile == Some(WatchFileText(started, -1)) && host.commands == old(host.commands) + [TscWatchCommand]
  {
    watchTaskID := host.PreDebugTask(preTaskList, postTaskList, started);
    PostSoonAfterPre(started, watchTaskID, ended);
    var r := host.PostDebugTask(ended);
  }
}
