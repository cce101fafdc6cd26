/**
 * The Yahoo Finance forwarder controller: it checks the query parameters,
 * splits the `yffColumns` command string into column commands, downloads the
 * Yahoo CSV and rewrites it as JSON rows or as CSV lines with the chosen
 * columns, checking every data row on the way.
 *
 * The parsed query is a map from parameter name to its first value. The
 * crumb refresh, the period conversion and the download are one input,
 * `download`: the CSV text, or the message of the exception they raised.
 */
module YahooForwarder {
  import opened Wrappers
  import ClrText
  import StringUtils

  const MaxQueryLength: nat := 8192

  /** Why the controller answers with an error message instead of a script. */
  datatype Failure =
    | QueryTooLong
    | OutFormatMissing
    | NoTarget
    | BothTargets
    | RowNotSevenCells(line: string)
    | BadDate(cell: string)
    | Exception(message: string)

  /** The controller's answer: an error message, or the generated script. */
  datatype Answer = Failed(failure: Failure) | Script(text: string)

  /** A controller result: the content and its content type. */
  datatype Response = Response(content: string, contentType: string)

  const JsonType: string := "application/json"
  const ScriptType: string := "application/javascript"

  /** The text of the `Message` field for a failure. */
  function FailureText(f: Failure, uriQuery: string): string
  {
    match f
    case QueryTooLong => "Error caught by WebApi Get():: uriQuery is longer than 8192: we don't process that. Uri: " + uriQuery
    case OutFormatMissing => "Error: yffOutFormat= was not found. Uri: " + uriQuery
    case NoTarget => "Error: nor yffOutVar= , neiher jsonp= was found. Uri: " + uriQuery
    case BothTargets => "Error: Both yffOutVar= ,  jsonp= were found. Uri: " + uriQuery
    case RowNotSevenCells(line) => "Error: yF row doesn't have 7 cells: " + line
    case BadDate(cell) => "Error: problem with date format: " + cell
    case Exception(message) => "Exception caught by WebApi Get(): " + message
  }

  /** The content and type sent back: a `{ "Message": ... }` JSON object for a failure. */
  function Render(a: Answer, uriQuery: string): (r: Response)
    ensures r.contentType == JsonType <==> a.Failed?
    ensures r.contentType == ScriptType <==> a.Script?
    ensures a.Script? ==> r.content == a.text
  {
    match a
    case Failed(f) => Response("{ \"Message\":  \"" + FailureText(f, uriQuery) + "\" }", JsonType)
    case Script(text) => Response(text, ScriptType)
  }

  /** The message of the `KeyNotFoundException` a missing dictionary key raises. */
  function KeyNotFoundMessage(key: string): string
  {
    "The given key '" + key + "' was not present in the dictionary."
  }

  /** Where the generated script puts the rows: a variable or a JSONP callback. */
  datatype Target = OutVar(name: string) | Jsonp(callback: string)

  datatype Settings = Settings(isOutputJson: bool, columns: seq<string>, target: Target)

  /** `Char.IsLetter`, over ASCII letters. */
  predicate IsLetter(c: char)
  {
    'a' <= c <= 'z' || 'A' <= c <= 'Z'
  }

  /** The last position after the first that holds a letter, or 0 when there is none. */
  function LastStart(s: string): (k: nat)
    ensures k == 0 || (k < |s| && IsLetter(s[k]))
    ensures forall i :: k < i < |s| && i > 0 ==> !IsLetter(s[i])
  {
    if |s| <= 1 then 0
    else if IsLetter(s[|s| - 1]) then |s| - 1
    else LastStart(s[..|s| - 1])
  }

  /** The column commands of `s`: a new command starts at every letter after the first character. */
  function ColumnTokens(s: string): (tokens: seq<string>)
    ensures |tokens| > 0
    decreases |s|
  {
    var k := LastStart(s);
    if k == 0 then [s] else ColumnTokens(s[..k]) + [s[k..]]
  }

  /**
   * The commands concatenate back to `s`; every command but the first starts
   * with a letter, and no command holds a letter after its first character.
   */
  lemma {:induction false} ColumnTokensMeaning(s: string)
    ensures StringUtils.Concat(ColumnTokens(s)) == s
    ensures forall j :: 1 <= j < |ColumnTokens(s)| ==> |ColumnTokens(s)[j]| > 0 && IsLetter(ColumnTokens(s)[j][0])
    ensures forall j, i :: 0 <= j < |ColumnTokens(s)| && 1 <= i < |ColumnTokens(s)[j]| ==> !IsLetter(ColumnTokens(s)[j][i])
    decreases |s|
  {
    var k := LastStart(s);
    var tokens := ColumnTokens(s);
    if k == 0 {
      assert tokens == [s];
    } else {
      var prefix, last := ColumnTokens(s[..k]), s[k..];
      assert tokens == prefix + [last];
      ColumnTokensMeaning(s[..k]);
      StringUtils.ConcatAppend(prefix, last);
      assert s[..k] + last == s;
      forall i | 1 <= i < |last| ensures !IsLetter(last[i]) {
        assert last[i] == s[k + i];
      }
      CommandsAppend(prefix, last);
    }
  }

  /** One more command, starting with a letter and holding no other, keeps the commands' shape. */
  lemma CommandsAppend(prefix: seq<string>, last: string)
    requires forall j :: 1 <= j < |prefix| ==> |prefix[j]| > 0 && IsLetter(prefix[j][0])
    requires forall j, i :: 0 <= j < |prefix| && 1 <= i < |prefix[j]| ==> !IsLetter(prefix[j][i])
    requires |prefix| > 0 && |last| > 0 && IsLetter(last[0])
    requires forall i :: 1 <= i < |last| ==> !IsLetter(last[i])
    ensures var tokens := prefix + [last];
      (forall j :: 1 <= j < |tokens| ==> |tokens[j]| > 0 && IsLetter(tokens[j][0]))
      && (forall j, i :: 0 <= j < |tokens| && 1 <= i < |tokens[j]| ==> !IsLetter(tokens[j][i]))
  {
    var tokens := prefix + [last];
    forall j | 0 <= j < |tokens| ensures tokens[j] == if j < |prefix| then prefix[j] else last { }
  }

  /** The columns when `yffColumns` is absent. */
  const DefaultColumns: seq<string> := ["d", "o", "h", "l", "c", "c1", "v"]

  /** The position of a column command's cell in a Yahoo row, or `None` for an unknown command. */
  function ColumnIndex(command: string): (r: Option<nat>)
    ensures r.Some? <==> command in DefaultColumns
    ensures r.Some? ==> r.value < |DefaultColumns| && DefaultColumns[r.value] == command
  {
    if command == "d" then Some(0)
    else if command == "o" then Some(1)
    else if command == "h" then Some(2)
    else if command == "l" then Some(3)
    else if command == "c" then Some(4)
    else if command == "c1" then Some(5)
    else if command == "v" then Some(6)
    else None
  }

  /**
   * The parameter checks, in the order the controller makes them: the query
   * length, the output format, then exactly one of `jsonp` and `yffOutVar`.
   */
  function Validate(uriQuery: string, params: map<string, string>): (r: Result<Settings, Failure>)
    ensures |uriQuery| > MaxQueryLength ==> r == Err(QueryTooLong)
    ensures |uriQuery| <= MaxQueryLength && "yffOutFormat" !in params ==> r == Err(OutFormatMissing)
    ensures |uriQuery| <= MaxQueryLength && "yffOutFormat" in params ==>
      (r.Ok? <==> ("jsonp" in params) != ("yffOutVar" in params))
      && ("jsonp" !in params && "yffOutVar" !in params ==> r == Err(NoTarget))
      && ("jsonp" in params && "yffOutVar" in params ==> r == Err(BothTargets))
    ensures r.Ok? ==> (r.value.isOutputJson <==> !ClrText.EqualsIgnoreCase(params["yffOutFormat"], "csv"))
    ensures r.Ok? ==> r.value.columns == if "yffColumns" in params then ColumnTokens(params["yffColumns"]) else DefaultColumns
    ensures r.Ok? ==> r.value.target == if "yffOutVar" in params then OutVar(params["yffOutVar"]) else Jsonp(params["jsonp"])
  {
    if |uriQuery| > MaxQueryLength then
      Err(QueryTooLong)
    else if "yffOutFormat" !in params then
      Err(OutFormatMissing)
    else
      var isOutputJson := !ClrText.EqualsIgnoreCase(params["yffOutFormat"], "csv");
      var columns := if "yffColumns" in params then ColumnTokens(params["yffColumns"]) else DefaultColumns;
      if "jsonp" !in params && "yffOutVar" !in params then
        Err(NoTarget)
      else if "jsonp" in params && "yffOutVar" in params then
        Err(BothTargets)
      else
        Ok(Settings(isOutputJson, columns, if "yffOutVar" in params then OutVar(params["yffOutVar"]) else Jsonp(params["jsonp"])))
  }

  /** The selected cells joined with commas; `Err` names the first unknown command. */
  function CellsText(columns: seq<string>, cells: seq<string>): (r: Result<string, string>)
    requires |cells| == 7
  {
    if columns == [] then Ok("")
    else
      var command := columns[|columns| - 1];
      match CellsText(columns[..|columns| - 1], cells)
      case Err(key) => Err(key)
      case Ok(text) =>
        match ColumnIndex(command)
        case None => Err(command)
        case Some(i) => Ok(text + (if |columns| > 1 then "," else "") + cells[i])
  }

  /** The cells the commands select, in command order. */
  function Selected(columns: seq<string>, cells: seq<string>): (r: seq<string>)
    requires |cells| == 7
    requires forall j :: 0 <= j < |columns| ==> ColumnIndex(columns[j]).Some?
    ensures |r| == |columns|
    ensures forall j :: 0 <= j < |columns| ==> r[j] == cells[ColumnIndex(columns[j]).value]
  {
    seq(|columns|, j requires 0 <= j < |columns| => cells[ColumnIndex(columns[j]).value])
  }

  /** With known commands the row text is the selected cells joined with commas. */
  lemma {:induction false} CellsTextJoins(columns: seq<string>, cells: seq<string>)
    requires |cells| == 7
    requires forall j :: 0 <= j < |columns| ==> ColumnIndex(columns[j]).Some?
    ensures CellsText(columns, cells) == Ok(StringUtils.JoinWith(Selected(columns, cells), ','))
  {
    if columns != [] {
      var init := columns[..|columns| - 1];
      CellsTextJoins(init, cells);
      var last := cells[ColumnIndex(columns[|columns| - 1]).value];
      assert Selected(columns, cells) == Selected(init, cells) + [last];
      if |init| > 0 {
        StringUtils.JoinWithAppend(Selected(init, cells), last, ',');
      } else {
        assert Selected(columns, cells) == [last];
        assert CellsText(columns, cells) == Ok("" + "" + last);
        assert "" + "" + last == last;
      }
    }
  }

  /** The cells a row writes can be read back by splitting at the commas, when none is empty or holds a comma. */
  lemma CellsReadBack(columns: seq<string>, cells: seq<string>)
    requires |cells| == 7
    requires forall j :: 0 <= j < |columns| ==> ColumnIndex(columns[j]).Some?
    requires forall i :: 0 <= i < 7 ==> |cells[i]| > 0 && ',' !in cells[i]
    ensures CellsText(columns, cells).Ok?
    ensures StringUtils.Split(CellsText(columns, cells).value, ',') == Selected(columns, cells)
  {
    CellsTextJoins(columns, cells);
    StringUtils.JoinSplitRoundTrip(Selected(columns, cells), ',');
  }

  /** An unknown command fails the row, whatever the cells. */
  lemma {:induction false} UnknownColumnFails(columns: seq<string>, cells: seq<string>, j: nat)
    requires |cells| == 7
    requires j < |columns| && ColumnIndex(columns[j]).None?
    ensures CellsText(columns, cells).Err?
  {
    if j < |columns| - 1 {
      UnknownColumnFails(columns[..|columns| - 1], cells, j);
    }
  }

  /** A JSON row is bracketed. */
  function RowText(isOutputJson: bool, columns: seq<string>, cells: seq<string>): Result<string, string>
    requires |cells| == 7
  {
    match CellsText(columns, cells)
    case Err(key) => Err(key)
    case Ok(text) => Ok(if isOutputJson then "[" + text + "]" else text)
  }

  function RowSeparator(isOutputJson: bool): string
  {
    if isOutputJson then ",\n" else "\n"
  }

  /** Rows written one after another: each is preceded by the separator when a row was written before it. */
  function Joined(written: bool, rows: seq<string>, sep: string): string
  {
    if rows == [] then ""
    else Joined(written, rows[..|rows| - 1], sep) + (if written || |rows| > 1 then sep else "") + rows[|rows| - 1]
  }

  /** One more row: the separator when a row came before it, then the row. */
  lemma JoinedAppend(written: bool, rows: seq<string>, row: string, sep: string)
    ensures Joined(written, rows + [row], sep) == Joined(written, rows, sep) + (if written || |rows| > 0 then sep else "") + row
  {
    assert (rows + [row])[..|rows|] == rows;
  }

  /** With a row already written, the rows are each preceded by the separator. */
  lemma {:induction false} JoinedAfterHeader(rows: seq<string>, sep: string)
    ensures Joined(true, rows, sep) == StringUtils.Concat(seq(|rows|, j requires 0 <= j < |rows| => sep + rows[j]))
  {
    if rows != [] {
      var init := rows[..|rows| - 1];
      JoinedAfterHeader(init, sep);
      var pieces := seq(|rows|, j requires 0 <= j < |rows| => sep + rows[j]);
      assert pieces == seq(|init|, j requires 0 <= j < |init| => sep + init[j]) + [sep + rows[|rows| - 1]];
      StringUtils.ConcatAppend(seq(|init|, j requires 0 <= j < |init| => sep + init[j]), sep + rows[|rows| - 1]);
    }
  }

  /** `String.Format("{0}-{1}-{2}", ...)`: an unpadded date. */
  function CsvDate(d: ClrText.Date): string
  {
    ClrText.IntToString(d.year) + "-" + ClrText.IntToString(d.month) + "-" + ClrText.IntToString(d.day)
  }

  /** The JavaScript `Date.UTC` call, with the month counted from 0. */
  function JsonDate(d: ClrText.Date): string
  {
    "Date.UTC(" + ClrText.IntToString(d.year) + "," + ClrText.IntToString(d.month - 1) + "," + ClrText.IntToString(d.day) + ")"
  }

  /** The unpadded CSV date still reads back as the same year, month and day. */
  lemma CsvDateReadsBack(d: ClrText.Date)
    requires ClrText.IsValidDate(d)
    ensures StringUtils.Split(CsvDate(d), '-') == [ClrText.NatToString(d.year), ClrText.NatToString(d.month), ClrText.NatToString(d.day)]
    ensures ClrText.DigitsValue(ClrText.NatToString(d.year)) == d.year
    ensures ClrText.DigitsValue(ClrText.NatToString(d.month)) == d.month
    ensures ClrText.DigitsValue(ClrText.NatToString(d.day)) == d.day
  {
    var parts := [ClrText.NatToString(d.year), ClrText.NatToString(d.month), ClrText.NatToString(d.day)];
    forall j | 0 <= j < 3
      ensures |parts[j]| > 0 && '-' !in parts[j]
    {
      assert forall i :: 0 <= i < |parts[j]| ==> parts[j][i] != '-';
    }
    StringUtils.JoinOfTwoOrMore(parts[1], parts[2..], '-');
    assert parts[1..] == [parts[1]] + parts[2..];
    StringUtils.JoinOfTwoOrMore(parts[0], parts[1..], '-');
    assert [parts[0]] + parts[1..] == parts;
    assert StringUtils.JoinWith(parts[2..], '-') == parts[2];
    assert StringUtils.JoinWith(parts, '-') == CsvDate(d);
    StringUtils.JoinSplitRoundTrip(parts, '-');
    ClrText.NatToStringValue(d.year);
    ClrText.NatToStringValue(d.month);
    ClrText.NatToStringValue(d.day);
  }

  /**
   * The cells of a data row after the rewrite: the date reformatted, the five
   * prices through `reformatPrice` (the `Double.TryParse` and "0.###"
   * formatting), the volume in its canonical integer form when it parses.
   */
  function ConvertedCells(isOutputJson: bool, cells: seq<string>, reformatPrice: string -> string): (r: Result<seq<string>, Failure>)
    requires |cells| == 7
    ensures r.Err? <==> ClrText.TryParseIsoDate(cells[0]).None?
    ensures r.Err? ==> r.error == BadDate(cells[0])
    ensures r.Ok? ==> (|r.value| == 7
      && r.value[0] == DateCell(isOutputJson, ClrText.TryParseIsoDate(cells[0]).value)
      && (forall j :: 1 <= j < 6 ==> r.value[j] == reformatPrice(cells[j]))
      && r.value[6] == VolumeCell(cells[6]))
  {
    match ClrText.TryParseIsoDate(cells[0])
    case None => Err(BadDate(cells[0]))
    case Some(d) =>
      Ok([DateCell(isOutputJson, d), reformatPrice(cells[1]), reformatPrice(cells[2]), reformatPrice(cells[3]),
        reformatPrice(cells[4]), reformatPrice(cells[5]), VolumeCell(cells[6])])
  }

  function DateCell(isOutputJson: bool, d: ClrText.Date): string
  {
    if isOutputJson then JsonDate(d) else CsvDate(d)
  }

  /** `Int64.TryParse` and `ToString`: a volume such as "000" becomes "0"; one that does not parse is kept. */
  function VolumeCell(cell: string): string
  {
    match ClrText.TryParseInt64(cell)
    case Some(v) => ClrText.IntToString(v)
    case None => cell
  }

  /** A rewritten volume reads back as the number that was parsed. */
  lemma VolumeReadsBack(isOutputJson: bool, cells: seq<string>, reformatPrice: string -> string)
    requires |cells| == 7
    requires ConvertedCells(isOutputJson, cells, reformatPrice).Ok?
    ensures ClrText.TryParseInt64(cells[6]).Some? ==>
      ClrText.ParseInteger(ConvertedCells(isOutputJson, cells, reformatPrice).value[6]) == Some(ClrText.TryParseInt64(cells[6]).value as int)
    ensures ClrText.TryParseInt64(cells[6]).None? ==> ConvertedCells(isOutputJson, cells, reformatPrice).value[6] == cells[6]
  {
    if ClrText.TryParseInt64(cells[6]).Some? {
      ClrText.IntToStringParses(ClrText.TryParseInt64(cells[6]).value);
    }
  }

  /** One data line: seven cells, a valid date, known commands. */
  function LineRow(isOutputJson: bool, columns: seq<string>, line: string, reformatPrice: string -> string): (r: Result<string, Failure>)
    ensures |StringUtils.Split(line, ',')| != 7 ==> r == Err(RowNotSevenCells(line))
  {
    var cells := StringUtils.Split(line, ',');
    if |cells| != 7 then Err(RowNotSevenCells(line))
    else
      match ConvertedCells(isOutputJson, cells, reformatPrice)
      case Err(e) => Err(e)
      case Ok(converted) =>
        match RowText(isOutputJson, columns, converted)
        case Err(key) => Err(Exception(KeyNotFoundMessage(key)))
        case Ok(text) => Ok(text)
  }

  /** The per-line outcomes, in line order. */
  function LineResults(isOutputJson: bool, columns: seq<string>, lines: seq<string>, reformatPrice: string -> string): (r: seq<Result<string, Failure>>)
    ensures |r| == |lines|
    ensures forall j :: 0 <= j < |lines| ==> r[j] == LineRow(isOutputJson, columns, lines[j], reformatPrice)
  {
    if lines == [] then []
    else LineResults(isOutputJson, columns, lines[..|lines| - 1], reformatPrice) + [LineRow(isOutputJson, columns, lines[|lines| - 1], reformatPrice)]
  }

  /** The values of the outcomes in order, or the first failure among them. */
  function Collect(results: seq<Result<string, Failure>>): Result<seq<string>, Failure>
  {
    if results == [] then Ok([])
    else
      match Collect(results[..|results| - 1])
      case Err(e) => Err(e)
      case Ok(values) =>
        match results[|results| - 1]
        case Err(e) => Err(e)
        case Ok(value) => Ok(values + [value])
  }

  /** `Collect` succeeds exactly when every outcome does; otherwise it is the first failure. */
  lemma {:induction false} CollectMeaning(results: seq<Result<string, Failure>>)
    ensures Collect(results).Ok? <==> forall j :: 0 <= j < |results| ==> results[j].Ok?
    ensures Collect(results).Ok? ==> (|Collect(results).value| == |results|
      && forall j :: 0 <= j < |results| ==> Collect(results).value[j] == results[j].value)
    ensures Collect(results).Err? ==> exists j :: (0 <= j < |results| && results[j].Err?
      && Collect(results).error == results[j].error
      && forall i :: 0 <= i < j ==> results[i].Ok?)
  {
    if results != [] {
      var n := |results|;
      var init := results[..n - 1];
      CollectMeaning(init);
      var prefix := Collect(init);
      if prefix.Err? {
        var j :| 0 <= j < |init| && init[j].Err? && prefix.error == init[j].error
          && forall i :: 0 <= i < j ==> init[i].Ok?;
        assert results[j] == init[j];
        assert forall i :: 0 <= i < j ==> results[i] == init[i];
      } else if results[n - 1].Err? {
        assert forall i :: 0 <= i < n - 1 ==> results[i] == init[i];
      } else {
        assert forall i :: 0 <= i < n - 1 ==> results[i] == init[i];
      }
    }
  }

  /** One more outcome: a failure ends the collection, a value is appended. */
  lemma CollectAppend(results: seq<Result<string, Failure>>, last: Result<string, Failure>)
    ensures Collect(results).Err? ==> Collect(results + [last]) == Collect(results)
    ensures Collect(results).Ok? && last.Err? ==> Collect(results + [last]) == Err(last.error)
    ensures Collect(results).Ok? && last.Ok? ==> Collect(results + [last]) == Ok(Collect(results).value + [last.value])
  {
    assert (results + [last])[..|results|] == results;
  }

  /** A failing prefix of the outcomes makes the whole collection fail the same way. */
  lemma {:induction false} CollectPrefixFails(results: seq<Result<string, Failure>>, n: nat)
    requires n <= |results|
    requires Collect(results[..n]).Err?
    ensures Collect(results) == Collect(results[..n])
    decreases |results| - n
  {
    if n < |results| {
      assert results[..n + 1] == results[..n] + [results[n]];
      CollectAppend(results[..n], results[n]);
      CollectPrefixFails(results, n + 1);
    } else {
      assert results[..n] == results;
    }
  }

  /** The rows of the data lines in order; the first failing line ends the response. */
  function Rows(isOutputJson: bool, columns: seq<string>, lines: seq<string>, reformatPrice: string -> string): Result<seq<string>, Failure>
  {
    Collect(LineResults(isOutputJson, columns, lines, reformatPrice))
  }

  /**
   * The rows succeed exactly when every line does, one row per line; otherwise
   * the response is the failure of the first failing line.
   */
  lemma RowsMeaning(isOutputJson: bool, columns: seq<string>, lines: seq<string>, reformatPrice: string -> string)
    ensures Rows(isOutputJson, columns, lines, reformatPrice).Ok? <==>
      forall j :: 0 <= j < |lines| ==> LineRow(isOutputJson, columns, lines[j], reformatPrice).Ok?
    ensures Rows(isOutputJson, columns, lines, reformatPrice).Ok? ==> (
      |Rows(isOutputJson, columns, lines, reformatPrice).value| == |lines|
      && forall j :: 0 <= j < |lines| ==> Rows(isOutputJson, columns, lines, reformatPrice).value[j] == LineRow(isOutputJson, columns, lines[j], reformatPrice).value)
    ensures Rows(isOutputJson, columns, lines, reformatPrice).Err? ==> exists j :: (0 <= j < |lines|
      && LineRow(isOutputJson, columns, lines[j], reformatPrice).Err?
      && Rows(isOutputJson, columns, lines, reformatPrice).error == LineRow(isOutputJson, columns, lines[j], reformatPrice).error
      && forall i :: 0 <= i < j ==> LineRow(isOutputJson, columns, lines[i], reformatPrice).Ok?)
  {
    CollectMeaning(LineResults(isOutputJson, columns, lines, reformatPrice));
  }

  /** One more line: its failure ends the rows, its row is appended. */
  lemma RowsAppend(isOutputJson: bool, columns: seq<string>, lines: seq<string>, line: string, reformatPrice: string -> string)
    ensures var rows := Rows(isOutputJson, columns, lines, reformatPrice);
      var row := LineRow(isOutputJson, columns, line, reformatPrice);
      Rows(isOutputJson, columns, lines + [line], reformatPrice)
        == if rows.Err? then rows else if row.Err? then Err(row.error) else Ok(rows.value + [row.value])
  {
    var results := LineResults(isOutputJson, columns, lines, reformatPrice);
    var row := LineRow(isOutputJson, columns, line, reformatPrice);
    assert LineResults(isOutputJson, columns, lines + [line], reformatPrice) == results + [row];
    CollectAppend(results, row);
  }

  /** A failing prefix of the lines makes all of them fail the same way. */
  lemma RowsPrefixFails(isOutputJson: bool, columns: seq<string>, lines: seq<string>, reformatPrice: string -> string, n: nat)
    requires n <= |lines|
    requires Rows(isOutputJson, columns, lines[..n], reformatPrice).Err?
    ensures Rows(isOutputJson, columns, lines, reformatPrice) == Rows(isOutputJson, columns, lines[..n], reformatPrice)
  {
    var results := LineResults(isOutputJson, columns, lines, reformatPrice);
    assert LineResults(isOutputJson, columns, lines[..n], reformatPrice) == results[..n];
    CollectPrefixFails(results, n);
  }

  /** The data lines of the download: its non-empty lines after the header line. */
  function DataLines(csv: string): seq<string>
  {
    var lines := StringUtils.Split(csv, '\n');
    if lines == [] then [] else lines[1..]
  }

  const HeaderCells: seq<string> := ["Date", "Open", "High", "Low", "Close", "Adj Close", "Volume"]

  /** What comes before the rows: the variable or callback opening for JSON, the header row for CSV. */
  function Header(s: Settings): Result<string, Failure>
  {
    if s.isOutputJson then
      Ok(match s.target
        case OutVar(name) => "var " + name + " = [\n"
        case Jsonp(callback) => callback + "([\n")
    else
      match RowText(false, s.columns, HeaderCells)
      case Err(key) => Err(Exception(KeyNotFoundMessage(key)))
      case Ok(text) => Ok(text)
  }

  /** What closes the script; it is written for CSV output too. */
  function Footer(t: Target): string
  {
    match t
    case OutVar(_) => "];"
    case Jsonp(_) => "]);"
  }

  /** The controller's answer for a query and a download. */
  function YffAnswer(uriQuery: string, params: map<string, string>, download: Result<string, string>, reformatPrice: string -> string): Answer
  {
    match Validate(uriQuery, params)
    case Err(f) => Failed(f)
    case Ok(s) =>
      match download
      case Err(message) => Failed(Exception(message))
      case Ok(csv) =>
        match Header(s)
        case Err(f) => Failed(f)
        case Ok(header) =>
          match Rows(s.isOutputJson, s.columns, DataLines(csv), reformatPrice)
          case Err(f) => Failed(f)
          case Ok(rows) => Script(header + Joined(!s.isOutputJson, rows, RowSeparator(s.isOutputJson)) + Footer(s.target))
  }

  /**
   * A script is answered exactly when the parameters, the download, the header
   * and every data line are good; otherwise the first failure is reported.
   */
  lemma ScriptWhenAllLinesGood(uriQuery: string, params: map<string, string>, download: Result<string, string>, reformatPrice: string -> string)
    ensures YffAnswer(uriQuery, params, download, reformatPrice).Script? <==>
      Validate(uriQuery, params).Ok? && download.Ok? && Header(Validate(uriQuery, params).value).Ok?
      && forall j :: 0 <= j < |DataLines(download.value)| ==>
        LineRow(Validate(uriQuery, params).value.isOutputJson, Validate(uriQuery, params).value.columns, DataLines(download.value)[j], reformatPrice).Ok?
  {
    var v := Validate(uriQuery, params);
    if v.Ok? && download.Ok? {
      RowsMeaning(v.value.isOutputJson, v.value.columns, DataLines(download.value), reformatPrice);
    }
  }

  /** A CSV answer holds the header row and then every data row on a line of its own. */
  lemma CsvScriptLayout(uriQuery: string, params: map<string, string>, csv: string, reformatPrice: string -> string)
    requires Validate(uriQuery, params).Ok? && !Validate(uriQuery, params).value.isOutputJson
    requires YffAnswer(uriQuery, params, Ok(csv), reformatPrice).Script?
    ensures var s := Validate(uriQuery, params).value;
      var rows := Rows(false, s.columns, DataLines(csv), reformatPrice).value;
      YffAnswer(uriQuery, params, Ok(csv), reformatPrice).text
        == Header(s).value + StringUtils.Concat(seq(|rows|, j requires 0 <= j < |rows| => "\n" + rows[j])) + Footer(s.target)
  {
    var s := Validate(uriQuery, params).value;
    JoinedAfterHeader(Rows(false, s.columns, DataLines(csv), reformatPrice).value, "\n");
  }

  // ---------------------------------------------------------------------------
  // The controller's code: a string builder, the tokenizer loop, the row and
  // cell writers sharing the builder and their written flags, the row loop.

  class StringBuilder {
    var text: string

    constructor ()
      ensures text == ""
    {
      text := "";
    }

    method Append(s: string)
      modifies this
      ensures text == old(text) + s
    {
      text := text + s;
    }
  }

  /** The `yffColumns` loop: a command ends before every letter after the first character. */
  method SplitColumns(yffColumns: string) returns (tokens: seq<string>)
    ensures tokens == ColumnTokens(yffColumns)
  {
    tokens := [];
    var columnsFormatStartIdx := 0;
    var k := 1;
    while k < |yffColumns|
      invariant 1 <= k && (k <= |yffColumns| || yffColumns == [])
      invariant columnsFormatStartIdx == LastStart(yffColumns[..if k <= |yffColumns| then k else 0])
      invariant columnsFormatStartIdx == 0 ==> tokens == []
      invariant columnsFormatStartIdx > 0 ==> tokens == ColumnTokens(yffColumns[..columnsFormatStartIdx])
    {
      var prefix := yffColumns[..k + 1];
      assert prefix[..k] == yffColumns[..k];
      if IsLetter(yffColumns[k]) {
        assert LastStart(prefix) == k;
        tokens := tokens + [yffColumns[columnsFormatStartIdx..k]];
        ColumnTokensAt(yffColumns, k, columnsFormatStartIdx);
        columnsFormatStartIdx := k;
      } else {
        assert LastStart(prefix) == LastStart(yffColumns[..k]);
      }
      k := k + 1;
    }
    ColumnTokensAt(yffColumns, |yffColumns|, columnsFormatStartIdx);
    assert yffColumns[..|yffColumns|] == yffColumns;
    tokens := tokens + [yffColumns[columnsFormatStartIdx..]];
  }

  /** The commands of a prefix ending where the last command of a longer prefix starts. */
  lemma ColumnTokensAt(s: string, k: nat, start: nat)
    requires k <= |s| && (k > 0 || s == [])
    requires start == LastStart(s[..k])
    ensures ColumnTokens(s[..k]) == (if start == 0 then [] else ColumnTokens(s[..start])) + [s[start..k]]
  {
    if start > 0 {
      assert s[..k][..start] == s[..start];
    }
  }

  /** `WriteCell`: a comma after a previous cell, then the command's cell; an unknown command throws. */
  method WriteCell(command: string, cells: array<string>, sb: StringBuilder, wasCellWritten: bool) returns (r: Result<bool, string>)
    requires cells.Length == 7
    modifies sb
    ensures ColumnIndex(command).None? ==> r == Err(command)
    ensures ColumnIndex(command).Some? ==> (r == Ok(true)
      && sb.text == old(sb.text) + (if wasCellWritten then "," else "") + cells[ColumnIndex(command).value])
  {
    if wasCellWritten {
      sb.Append(",");
    }
    var index := ColumnIndex(command);
    if index.None? {
      return Err(command);
    }
    sb.Append(cells[index.value]);
    r := Ok(true);
  }

  /** The cells of one row, in column order and comma-separated. `Err` is the unknown command that threw. */
  method WriteCells(columns: seq<string>, cells: array<string>, sb: StringBuilder) returns (r: Result<bool, string>)
    requires cells.Length == 7
    modifies sb
    ensures CellsText(columns, cells[..]).Err? ==> r == Err(CellsText(columns, cells[..]).error)
    ensures CellsText(columns, cells[..]).Ok? ==> (r.Ok? && sb.text == old(sb.text) + CellsText(columns, cells[..]).value)
  {
    var wasCellWritten := false;
    for j := 0 to |columns|
      invariant wasCellWritten <==> j > 0
      invariant CellsText(columns[..j], cells[..]).Ok? && sb.text == old(sb.text) + CellsText(columns[..j], cells[..]).value
    {
      assert columns[..j + 1][..j] == columns[..j];
      var written := WriteCell(columns[j], cells, sb, wasCellWritten);
      if written.Err? {
        CellsPrefixFails(columns, cells[..], j + 1);
        return Err(written.error);
      }
      wasCellWritten := written.value;
    }
    assert columns[..|columns|] == columns;
    r := Ok(true);
  }

  /**
   * `WriteRow`: the separator after a previous row, then the cells in column
   * order, bracketed for JSON. `Err` is the unknown command that threw.
   */
  method WriteRow(isOutputJson: bool, columns: seq<string>, cells: array<string>, sb: StringBuilder, wasDataLineWritten: bool)
    returns (r: Result<bool, string>)
    requires cells.Length == 7
    modifies sb
    ensures RowText(isOutputJson, columns, cells[..]).Err? ==> r == Err(RowText(isOutputJson, columns, cells[..]).error)
    ensures RowText(isOutputJson, columns, cells[..]).Ok? ==> (r == Ok(true)
      && sb.text == old(sb.text) + (if wasDataLineWritten then RowSeparator(isOutputJson) else "") + RowText(isOutputJson, columns, cells[..]).value)
  {
    if wasDataLineWritten {
      sb.Append(RowSeparator(isOutputJson));
    }
    if isOutputJson {
      sb.Append("[");
    }
    var written := WriteCells(columns, cells, sb);
    if written.Err? {
      return Err(written.error);
    }
    if isOutputJson {
      sb.Append("]");
    }
    r := Ok(true);
  }

  /** A prefix whose commands fail makes the whole row fail the same way. */
  lemma {:induction false} CellsPrefixFails(columns: seq<string>, cells: seq<string>, n: nat)
    requires |cells| == 7 && n <= |columns|
    requires CellsText(columns[..n], cells).Err?
    ensures CellsText(columns, cells) == CellsText(columns[..n], cells)
    decreases |columns| - n
  {
    if n < |columns| {
      assert columns[..n + 1][..n] == columns[..n];
      CellsPrefixFails(columns, cells, n + 1);
    } else {
      assert columns[..n] == columns;
    }
  }

  /**
   * The in-place rewrite of a data row's cells: the date first (a bad one
   * ends the response), then the five prices, then the volume.
   */
  method RewriteCells(isOutputJson: bool, cells: array<string>, reformatPrice: string -> string) returns (failure: Option<Failure>)
    requires cells.Length == 7
    modifies cells
    ensures ConvertedCells(isOutputJson, old(cells[..]), reformatPrice).Err? ==>
      failure == Some(ConvertedCells(isOutputJson, old(cells[..]), reformatPrice).error)
    ensures ConvertedCells(isOutputJson, old(cells[..]), reformatPrice).Ok? ==>
      failure.None? && cells[..] == ConvertedCells(isOutputJson, old(cells[..]), reformatPrice).value
  {
    ghost var original := cells[..];
    var date := ClrText.TryParseIsoDate(cells[0]);
    if date.None? {
      return Some(BadDate(cells[0]));
    }
    if isOutputJson {
      cells[0] := JsonDate(date.value);
    } else {
      cells[0] := CsvDate(date.value);
    }
    ReformatPrices(cells, reformatPrice);
    var volume := ClrText.TryParseInt64(cells[6]);
    if volume.Some? {
      cells[6] := ClrText.IntToString(volume.value);
    }
    ghost var expected := ConvertedCells(isOutputJson, original, reformatPrice).value;
    assert cells[1] == expected[1] && cells[2] == expected[2] && cells[3] == expected[3];
    assert cells[4] == expected[4] && cells[5] == expected[5];
    SameSevenCells(cells[..], expected);
    failure := None;
  }

  /** Two rows of seven cells that agree cell by cell are the same row. */
  lemma SameSevenCells(a: seq<string>, b: seq<string>)
    requires |a| == 7 && |b| == 7
    requires a[0] == b[0] && a[1] == b[1] && a[2] == b[2] && a[3] == b[3]
    requires a[4] == b[4] && a[5] == b[5] && a[6] == b[6]
    ensures a == b
  {
    assert forall i :: 0 <= i < 7 ==> a[i] == b[i];
  }

  /** The price cells 1 to 5, each through `reformatPrice`. */
  method ReformatPrices(cells: array<string>, reformatPrice: string -> string)
    requires cells.Length == 7
    modifies cells
    ensures cells[0] == old(cells[0]) && cells[6] == old(cells[6])
    ensures forall i :: 1 <= i < 6 ==> cells[i] == reformatPrice(old(cells[i]))
  {
    for j := 1 to 6
      invariant cells[0] == old(cells[0]) && cells[6] == old(cells[6])
      invariant forall i :: 1 <= i < j ==> cells[i] == reformatPrice(old(cells[i]))
      invariant forall i :: j <= i < 6 ==> cells[i] == old(cells[i])
    {
      cells[j] := reformatPrice(cells[j]);
    }
  }

  /** One data line: split into cells, checked, rewritten and written as a row. */
  method WriteLine(isOutputJson: bool, columns: seq<string>, line: string, reformatPrice: string -> string, sb: StringBuilder, wasDataLineWritten: bool)
    returns (r: Result<bool, Failure>)
    modifies sb
    ensures LineRow(isOutputJson, columns, line, reformatPrice).Err? ==> r == Err(LineRow(isOutputJson, columns, line, reformatPrice).error)
    ensures LineRow(isOutputJson, columns, line, reformatPrice).Ok? ==> (r == Ok(true)
      && sb.text == old(sb.text) + (if wasDataLineWritten then RowSeparator(isOutputJson) else "") + LineRow(isOutputJson, columns, line, reformatPrice).value)
  {
    var parts := StringUtils.Split(line, ',');
    var cells := new string[|parts|](i requires 0 <= i < |parts| => parts[i]);
    if cells.Length != 7 {
      return Err(RowNotSevenCells(line));
    }
    assert cells[..] == parts;
    var failure := RewriteCells(isOutputJson, cells, reformatPrice);
    if failure.Some? {
      return Err(failure.value);
    }
    var written := WriteRow(isOutputJson, columns, cells, sb, wasDataLineWritten);
    if written.Err? {
      return Err(Exception(KeyNotFoundMessage(written.error)));
    }
    r := Ok(true);
  }

  /**
   * One pass of the row loop: the line at `i` written after the rows of the
   * lines before it, or the failure that ends the response.
   */
  method WriteNextLine(isOutputJson: bool, columns: seq<string>, lines: seq<string>, i: nat, reformatPrice: string -> string,
                       sb: StringBuilder, written: bool, ghost prefix: string, ghost wasDataLineWritten: bool, ghost rows: seq<string>)
    returns (r: Result<bool, Failure>)
    requires 1 <= i < |lines|
    requires Rows(isOutputJson, columns, lines[1..i], reformatPrice) == Ok(rows)
    requires written == (wasDataLineWritten || |rows| > 0)
    requires sb.text == prefix + Joined(wasDataLineWritten, rows, RowSeparator(isOutputJson))
    modifies sb
    ensures r.Err? ==> Rows(isOutputJson, columns, lines[1..i + 1], reformatPrice) == Err(r.error)
    ensures r.Ok? ==> (r == Ok(true) && LineRow(isOutputJson, columns, lines[i], reformatPrice).Ok?
      && Rows(isOutputJson, columns, lines[1..i + 1], reformatPrice) == Ok(rows + [LineRow(isOutputJson, columns, lines[i], reformatPrice).value])
      && sb.text == prefix + Joined(wasDataLineWritten, rows + [LineRow(isOutputJson, columns, lines[i], reformatPrice).value], RowSeparator(isOutputJson)))
  {
    SliceStep(lines, 1, i);
    RowsAppend(isOutputJson, columns, lines[1..i], lines[i], reformatPrice);
    r := WriteLine(isOutputJson, columns, lines[i], reformatPrice, sb, written);
    if r.Ok? {
      var row := LineRow(isOutputJson, columns, lines[i], reformatPrice).value;
      JoinedAppend(wasDataLineWritten, rows, row, RowSeparator(isOutputJson));
      AppendAssociates(prefix, Joined(wasDataLineWritten, rows, RowSeparator(isOutputJson)), if written then RowSeparator(isOutputJson) else "", row);
    }
  }

  /** The loop over the downloaded lines, skipping the first (the Yahoo header). */
  method WriteDataRows(isOutputJson: bool, columns: seq<string>, lines: seq<string>, reformatPrice: string -> string, sb: StringBuilder, wasDataLineWritten: bool)
    returns (r: Result<bool, Failure>)
    requires |lines| > 0
    modifies sb
    ensures Rows(isOutputJson, columns, lines[1..], reformatPrice).Err? ==> r == Err(Rows(isOutputJson, columns, lines[1..], reformatPrice).error)
    ensures Rows(isOutputJson, columns, lines[1..], reformatPrice).Ok? ==> (r.Ok?
      && sb.text == old(sb.text) + Joined(wasDataLineWritten, Rows(isOutputJson, columns, lines[1..], reformatPrice).value, RowSeparator(isOutputJson)))
  {
    var written := wasDataLineWritten;
    var i := 1;
    ghost var rows: seq<string> := [];
    while i < |lines|
      invariant 1 <= i <= |lines|
      invariant Rows(isOutputJson, columns, lines[1..i], reformatPrice) == Ok(rows)
      invariant written == (wasDataLineWritten || |rows| > 0)
      invariant sb.text == old(sb.text) + Joined(wasDataLineWritten, rows, RowSeparator(isOutputJson))
    {
      var line := WriteNextLine(isOutputJson, columns, lines, i, reformatPrice, sb, written, old(sb.text), wasDataLineWritten, rows);
      if line.Err? {
        RowsFailAt(isOutputJson, columns, lines, reformatPrice, i);
        return Err(line.error);
      }
      rows := rows + [LineRow(isOutputJson, columns, lines[i], reformatPrice).value];
      written := line.value;
      i := i + 1;
    }
    SliceToEnd(lines, 1);
    r := Ok(written);
  }

  /** A failure at line `i` of the download is the failure of the whole response. */
  lemma RowsFailAt(isOutputJson: bool, columns: seq<string>, lines: seq<string>, reformatPrice: string -> string, i: nat)
    requires 1 <= i < |lines|
    requires Rows(isOutputJson, columns, lines[1..i + 1], reformatPrice).Err?
    ensures Rows(isOutputJson, columns, lines[1..], reformatPrice) == Rows(isOutputJson, columns, lines[1..i + 1], reformatPrice)
  {
    assert lines[1..][..i] == lines[1..i + 1];
    RowsPrefixFails(isOutputJson, columns, lines[1..], reformatPrice, i);
  }

  lemma SliceToEnd<T>(s: seq<T>, from: nat)
    requires from <= |s|
    ensures s[from..|s|] == s[from..]
  {
  }

  lemma SliceStep<T>(s: seq<T>, from: nat, to: nat)
    requires from <= to < |s|
    ensures s[from..to + 1] == s[from..to] + [s[to]]
  {
  }

  lemma AppendAssociates<T>(a: seq<T>, b: seq<T>, c: seq<T>, d: seq<T>)
    ensures a + (b + c + d) == a + b + c + d
  {
  }

  /** The parameter checks and the `yffColumns` tokenizer, in the controller's order. */
  method ReadSettings(uriQuery: string, params: map<string, string>) returns (r: Result<Settings, Failure>)
    ensures r == Validate(uriQuery, params)
  {
    if |uriQuery| > MaxQueryLength {
      return Err(QueryTooLong);
    }
    if "yffOutFormat" !in params {
      return Err(OutFormatMissing);
    }
    var isOutputJson := !ClrText.EqualsIgnoreCase(params["yffOutFormat"], "csv");
    var yffColumnsList: seq<string>;
    if "yffColumns" in params {
      yffColumnsList := SplitColumns(params["yffColumns"]);
    } else {
      yffColumnsList := DefaultColumns;
    }
    var jsonpCallback: Option<string> := if "jsonp" in params then Some(params["jsonp"]) else None;
    var outputVariable: Option<string> := if "yffOutVar" in params then Some(params["yffOutVar"]) else None;
    if jsonpCallback.None? && outputVariable.None? {
      return Err(NoTarget);
    } else if jsonpCallback.Some? && outputVariable.Some? {
      return Err(BothTargets);
    }
    r := Ok(Settings(isOutputJson, yffColumnsList, if outputVariable.Some? then OutVar(outputVariable.value) else Jsonp(jsonpCallback.value)));
  }

  /** The opening of the script: the variable or callback for JSON, the header row for CSV. */
  method WriteHeader(settings: Settings, sb: StringBuilder) returns (r: Result<bool, Failure>)
    modifies sb
    ensures Header(settings).Err? ==> r == Err(Header(settings).error)
    ensures Header(settings).Ok? ==> r == Ok(!settings.isOutputJson) && sb.text == old(sb.text) + Header(settings).value
  {
    if settings.isOutputJson {
      match settings.target {
        case OutVar(name) => sb.Append("var " + name + " = [\n");
        case Jsonp(callback) => sb.Append(callback + "([\n");
      }
      return Ok(false);
    }
    var header := new string[7](i requires 0 <= i < 7 => HeaderCells[i]);
    assert header[..] == HeaderCells;
    var written := WriteRow(false, settings.columns, header, sb, false);
    assert RowText(false, settings.columns, header[..]) == RowText(false, settings.columns, HeaderCells);
    if written.Err? {
      return Err(Exception(KeyNotFoundMessage(written.error)));
    }
    r := Ok(true);
  }

  /** The controller action: the checks, the header, the data rows and the footer, in the controller's order. */
  method GenerateYffResponse(uriQuery: string, params: map<string, string>, download: Result<string, string>, reformatPrice: string -> string)
    returns (r: Response)
    ensures r == Render(YffAnswer(uriQuery, params, download, reformatPrice), uriQuery)
  {
    var settings := ReadSettings(uriQuery, params);
    if settings.Err? {
      return Render(Failed(settings.error), uriQuery);
    }
    if download.Err? {
      return Render(Failed(Exception(download.error)), uriQuery);
    }
    var sb := new StringBuilder();
    var header := WriteHeader(settings.value, sb);
    if header.Err? {
      return Render(Failed(header.error), uriQuery);
    }
    var s := settings.value;
    ghost var dataLines := DataLines(download.value);
    var lines := StringUtils.Split(download.value, '\n');
    assert sb.text == Header(s).value && header.value == !s.isOutputJson;
    if |lines| > 0 {
      assert dataLines == lines[1..];
      var rows := WriteDataRows(s.isOutputJson, s.columns, lines, reformatPrice, sb, header.value);
      if rows.Err? {
        return Render(Failed(rows.error), uriQuery);
      }
    } else {
      assert dataLines == [];
      assert LineResults(s.isOutputJson, s.columns, dataLines, reformatPrice) == [];
    }
    ghost var body := Rows(s.isOutputJson, s.columns, dataLines, reformatPrice).value;
    assert sb.text == Header(s).value + Joined(!s.isOutputJson, body, RowSeparator(s.isOutputJson));
    sb.Append(Footer(s.target));
    assert YffAnswer(uriQuery, params, download, reformatPrice) == Script(sb.text);
    r := Response(sb.text, ScriptType);
  }
}
