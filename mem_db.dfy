/**
 * The in-memory security database: lookup of a security by SecID or by
 * ticker, the per-security history start parsed from `ExpectedHistorySpan`,
 * the reload pass over all securities and the choice of the next reload time.
 *
 * The real-time part of the same class (`MemDbRt.cs`) lives in module
 * `MemDbRealtime`; its state is declared here because both files extend one
 * C# class.
 */
module MemDbModel {
  import opened Wrappers
  import Clr
  import ClrText
  import TimeSeries

  type UInt32 = x: int | 0 <= x < 0x1_0000_0000

  /** A security. SecID, ticker and history span are set once, the prices are updated in place. */
  class Security {
    const secId: UInt32
    const ticker: string
    const expectedHistorySpan: string
    var lastPriceIex: real
    var lastPriceYF: real
    /** The daily split- and dividend-adjusted history. */
    const dailyHistory: TimeSeries.FinTimeSeries

    constructor (secId: UInt32, ticker: string, expectedHistorySpan: string)
      ensures this.secId == secId && this.ticker == ticker && this.expectedHistorySpan == expectedHistorySpan
      ensures lastPriceIex == -100.0 && lastPriceYF == 0.0
      ensures fresh(dailyHistory) && dailyHistory.Valid() && dailyHistory.size == 0
    {
      dailyHistory := new TimeSeries.FinTimeSeries();
      this.secId := secId;
      this.ticker := ticker;
      this.expectedHistorySpan := expectedHistorySpan;
      lastPriceIex := -100.0;
      lastPriceYF := 0.0;
    }
  }

  datatype MemDbError = SecIdMissing(secId: UInt32) | TickerMissing(ticker: string)

  /** The position of the first security with SecID `id`, or -1. */
  function IndexOfSecId(secs: seq<Security>, id: UInt32): (i: int)
    ensures -1 <= i < |secs|
    ensures i >= 0 ==> secs[i].secId == id && forall j :: 0 <= j < i ==> secs[j].secId != id
    ensures i == -1 <==> forall j :: 0 <= j < |secs| ==> secs[j].secId != id
  {
    if secs == [] then -1
    else if secs[|secs| - 1].secId == id && IndexOfSecId(secs[..|secs| - 1], id) == -1 then |secs| - 1
    else IndexOfSecId(secs[..|secs| - 1], id)
  }

  /** The position of the first security with ticker `ticker`, or -1. */
  function IndexOfTicker(secs: seq<Security>, ticker: string): (i: int)
    ensures -1 <= i < |secs|
    ensures i >= 0 ==> secs[i].ticker == ticker && forall j :: 0 <= j < i ==> secs[j].ticker != ticker
    ensures i == -1 <==> forall j :: 0 <= j < |secs| ==> secs[j].ticker != ticker
  {
    if secs == [] then -1
    else if secs[|secs| - 1].ticker == ticker && IndexOfTicker(secs[..|secs| - 1], ticker) == -1 then |secs| - 1
    else IndexOfTicker(secs[..|secs| - 1], ticker)
  }

  /** Where the history download starts, as given by `ExpectedHistorySpan`. */
  datatype HistoryStart =
    | DefaultStart                              // 2018-02-01, when the span has neither form
    | OnDate(year: int, month: int, day: int)   // "Date: yyyy-MM-dd"
    | YearsBack(years: Clr.Int32)               // "<n>y": ET now minus n years

  datatype SpanError = MalformedSpan | YearOutOfRange

  const DatePrefix: string := "Date: "

  predicate IsLeapYear(y: int)
  {
    y % 4 == 0 && (y % 100 != 0 || y % 400 == 0)
  }

  function DaysInMonth(y: int, m: int): int
    requires 1 <= m <= 12
  {
    if m == 2 then (if IsLeapYear(y) then 29 else 28)
    else if m == 4 || m == 6 || m == 9 || m == 11 then 30
    else 31
  }

  function DigitAt(s: string, i: nat): int
    requires i < |s|
  {
    s[i] as int - '0' as int
  }

  /** `DateTime.TryParseExact(s, "yyyy-MM-dd", InvariantCulture, None)`. */
  function TryParseDate(s: string): (r: Option<(int, int, int)>)
    ensures r.Some? ==> var (y, m, d) := r.value; 1 <= y <= 9999 && 1 <= m <= 12 && 1 <= d <= DaysInMonth(y, m)
    ensures r.Some? ==> |s| == 10 && s[4] == '-' && s[7] == '-'
  {
    if |s| != 10 || s[4] != '-' || s[7] != '-' then None
    else if exists i :: 0 <= i < 10 && i != 4 && i != 7 && !ClrText.IsAsciiDigit(s[i]) then None
    else
      var y := DigitAt(s, 0) * 1000 + DigitAt(s, 1) * 100 + DigitAt(s, 2) * 10 + DigitAt(s, 3);
      var m := DigitAt(s, 5) * 10 + DigitAt(s, 6);
      var d := DigitAt(s, 8) * 10 + DigitAt(s, 9);
      if 1 <= y && 1 <= m <= 12 && 1 <= d <= DaysInMonth(y, m) then Some((y, m, d)) else None
  }

  /** The parse of `ExpectedHistorySpan`; a malformed span is an exception in the source. */
  function ParseHistorySpan(span: string): (r: Result<HistoryStart, SpanError>)
    ensures ClrText.StartsWith(span, DatePrefix) ==>
      (r.Ok? <==> TryParseDate(span[|DatePrefix|..]).Some?) && (r.Ok? ==> r.value.OnDate?)
    ensures !ClrText.StartsWith(span, DatePrefix) && ClrText.EndsWith(span, "y") ==>
      (r.Ok? <==> ClrText.TryParseInt32(span[..|span| - 1]).Some?) && (r.Ok? ==> r.value.YearsBack?)
    ensures !ClrText.StartsWith(span, DatePrefix) && !ClrText.EndsWith(span, "y") ==> r == Ok(DefaultStart)
  {
    if ClrText.StartsWith(span, DatePrefix) then
      match TryParseDate(span[|DatePrefix|..])
      case None => Err(MalformedSpan)
      case Some((y, m, d)) => Ok(OnDate(y, m, d))
    else if ClrText.EndsWith(span, "y") then
      match ClrText.TryParseInt32(span[..|span| - 1])
      case None => Err(MalformedSpan)
      case Some(n) => Ok(YearsBack(n))
    else Ok(DefaultStart)
  }

  /**
   * `AddYears(-1 * n)` on ET now: the product wraps in int32, and `AddYears`
   * throws when the offset exceeds 10000 years or leaves years 1..9999.
   */
  function ResolveStart(start: HistoryStart, nowEtYear: int): (r: Result<HistoryStart, SpanError>)
    requires 1 <= nowEtYear <= 9999
    ensures !start.YearsBack? ==> r == Ok(start)
    ensures start.YearsBack? && r.Ok? ==> 1 <= nowEtYear - start.years <= 9999
  {
    match start
    case YearsBack(n) =>
      var offset := Clr.Wrap32(-1 * n);
      if -10000 <= offset <= 10000 && 1 <= nowEtYear + offset <= 9999 then Ok(start) else Err(YearOutOfRange)
    case _ => Ok(start)
  }

  function SecurityStart(sec: Security, nowEtYear: int): Result<HistoryStart, SpanError>
    requires 1 <= nowEtYear <= 9999
  {
    match ParseHistorySpan(sec.expectedHistorySpan)
    case Err(e) => Err(e)
    case Ok(start) => ResolveStart(start, nowEtYear)
  }

  datatype HistoryRequest = HistoryRequest(ticker: string, start: HistoryStart)

  /**
   * The history downloads one reload pass asks for: one per security, in list
   * order, up to the first security whose span fails (its exception leaves the loop).
   */
  function ReloadPlan(secs: seq<Security>, nowEtYear: int): (plan: seq<HistoryRequest>)
    requires 1 <= nowEtYear <= 9999
    ensures |plan| <= |secs|
    ensures forall k :: 0 <= k < |plan| ==> plan[k].ticker == secs[k].ticker && SecurityStart(secs[k], nowEtYear) == Ok(plan[k].start)
  {
    if secs == [] then []
    else
      match SecurityStart(secs[0], nowEtYear)
      case Err(_) => []
      case Ok(start) => [HistoryRequest(secs[0].ticker, start)] + ReloadPlan(secs[1..], nowEtYear)
  }

  lemma ReloadPlanStep(secs: seq<Security>, nowEtYear: int, i: nat)
    requires 1 <= nowEtYear <= 9999
    requires i < |secs|
    ensures ReloadPlan(secs[i..], nowEtYear) ==
      match SecurityStart(secs[i], nowEtYear)
      case Err(_) => []
      case Ok(start) => [HistoryRequest(secs[i].ticker, start)] + ReloadPlan(secs[i + 1..], nowEtYear)
  {
    assert secs[i..][0] == secs[i] && secs[i..][1..] == secs[i + 1..];
  }

  /** The pass covers every security before the first failing span, and stops there. */
  lemma {:induction false} ReloadPlanStopsAtFirstFailure(secs: seq<Security>, nowEtYear: int, k: nat)
    requires 1 <= nowEtYear <= 9999
    requires k < |secs| && SecurityStart(secs[k], nowEtYear).Err?
    requires forall j :: 0 <= j < k ==> SecurityStart(secs[j], nowEtYear).Ok?
    ensures |ReloadPlan(secs, nowEtYear)| == k
  {
    if k > 0 {
      ReloadPlanStopsAtFirstFailure(secs[1..], nowEtYear, k - 1);
    }
  }

  /** With no failing span, every security is reloaded. */
  lemma {:induction false} ReloadPlanCoversAll(secs: seq<Security>, nowEtYear: int)
    requires 1 <= nowEtYear <= 9999
    requires forall j :: 0 <= j < |secs| ==> SecurityStart(secs[j], nowEtYear).Ok?
    ensures |ReloadPlan(secs, nowEtYear)| == |secs|
  {
    if secs != [] {
      ReloadPlanCoversAll(secs[1..], nowEtYear);
    }
  }

  /** The spans of the built-in security list parse as intended. */
  lemma BuiltInSpansParse()
    ensures ParseHistorySpan("5y") == Ok(YearsBack(5))
    ensures ParseHistorySpan("Date: 2010-01-01") == Ok(OnDate(2010, 1, 1))
    ensures ParseHistorySpan("Date: 2018-01-25") == Ok(OnDate(2018, 1, 25))
  {
    assert "5y"[..1] == "5";
    ClrText.TryParseInt32OfDigits("5");
    assert "Date: 2010-01-01"[6..] == "2010-01-01";
    assert "Date: 2018-01-25"[6..] == "2018-01-25";
  }

  /** The reload targets, as ET seconds of day: 04:00, 09:00 and 16:30. */
  const ReloadTimes: set<int> := {14400, 32400, 59400}
  const NextDayFirstReload: int := 86400 + 14400

  /** The next reload target in ET seconds from today's midnight. */
  function NextReloadTarget(nowSec: int): (target: int)
    requires 0 <= nowSec < 86400
    ensures target in ReloadTimes || target == NextDayFirstReload
    ensures nowSec < target <= nowSec + 86400
    ensures forall c :: c in ReloadTimes && nowSec < c ==> target <= c
    ensures target == NextDayFirstReload <==> forall c :: c in ReloadTimes ==> c <= nowSec
  {
    if nowSec < 4 * 60 * 60 then 4 * 60 * 60
    else if nowSec < 9 * 60 * 60 then 9 * 60 * 60
    else if nowSec < 16 * 60 * 60 + 30 * 60 then 16 * 60 * 60 + 30 * 60
    else 24 * 60 * 60 + 4 * 60 * 60
  }

  class MemDb {
    const securities: seq<Security>
    /** UTC ticks of the last reload; `DateTime.MinValue` (0) before the first. */
    var lastHistoricalDataReload: int
    /** The delay, in seconds, the reload timer was last set to; -1 while it is disarmed. */
    var reloadTimerDueSeconds: int

    // The real-time state of MemDbRt.cs.
    var rtTimerRunning: bool
    var rtTimerDueMs: int
    var rtSecIds: seq<UInt32>
    var lastDownloadLastPrice: int
    var lastGetLastRtCall: int
    var nIexDownload: UInt32
    var nYfDownload: UInt32

    constructor (securities: seq<Security>)
      ensures this.securities == securities
      ensures lastHistoricalDataReload == 0 && reloadTimerDueSeconds == -1
      ensures !rtTimerRunning && rtTimerDueMs == -1 && rtSecIds == []
      ensures lastDownloadLastPrice == 0 && lastGetLastRtCall == 0 && nIexDownload == 0 && nYfDownload == 0
    {
      this.securities := securities;
      lastHistoricalDataReload := 0;
      reloadTimerDueSeconds := -1;
      rtTimerRunning := false;
      rtTimerDueMs := -1;
      rtSecIds := [];
      lastDownloadLastPrice := 0;
      lastGetLastRtCall := 0;
      nIexDownload := 0;
      nYfDownload := 0;
    }

    /** The first security with SecID `id`; an exception when there is none. */
    method GetSecurity(id: UInt32) returns (r: Result<Security, MemDbError>)
      ensures IndexOfSecId(securities, id) >= 0 ==> r == Ok(securities[IndexOfSecId(securities, id)])
      ensures IndexOfSecId(securities, id) == -1 ==> r == Err(SecIdMissing(id))
    {
      for i := 0 to |securities|
        invariant forall j :: 0 <= j < i ==> securities[j].secId != id
      {
        if securities[i].secId == id {
          return Ok(securities[i]);
        }
      }
      return Err(SecIdMissing(id));
    }

    /** The first security with ticker `ticker`; an exception when there is none. */
    method GetFirstMatchingSecurity(ticker: string) returns (r: Result<Security, MemDbError>)
      ensures IndexOfTicker(securities, ticker) >= 0 ==> r == Ok(securities[IndexOfTicker(securities, ticker)])
      ensures IndexOfTicker(securities, ticker) == -1 ==> r == Err(TickerMissing(ticker))
    {
      for i := 0 to |securities|
        invariant forall j :: 0 <= j < i ==> securities[j].ticker != ticker
      {
        if securities[i].ticker == ticker {
          return Ok(securities[i]);
        }
      }
      return Err(TickerMissing(ticker));
    }

    /**
     * The download loop of one reload pass: a history request per security in
     * list order, stopping at the first failing span, whose exception the
     * outer handler logs.
     */
    method ReloadRequests(nowEtYear: int) returns (requests: seq<HistoryRequest>)
      requires 1 <= nowEtYear <= 9999
      ensures requests == ReloadPlan(securities, nowEtYear)
    {
      requests := [];
      var i := 0;
      while i < |securities|
        invariant 0 <= i <= |securities|
        invariant ReloadPlan(securities, nowEtYear) == requests + ReloadPlan(securities[i..], nowEtYear)
      {
        var sec := securities[i];
        var start := SecurityStart(sec, nowEtYear);
        ReloadPlanStep(securities, nowEtYear, i);
        if start.Err? {
          break;
        }
        requests := requests + [HistoryRequest(sec.ticker, start.value)];
        i := i + 1;
      }
      if i == |securities| {
        assert securities[i..] == [];
      }
    }

    /** One reload pass, then the reload time stamp and the timer set to the next target. */
    method HistoricalDataReloadAndSetTimer(nowUtc: int, nowEtYear: int, nowEtSecondOfDay: int)
      returns (requests: seq<HistoryRequest>)
      requires 1 <= nowEtYear <= 9999 && 0 <= nowEtSecondOfDay < 86400
      modifies this
      ensures requests == ReloadPlan(securities, nowEtYear)
      ensures lastHistoricalDataReload == nowUtc
      ensures reloadTimerDueSeconds == NextReloadTarget(nowEtSecondOfDay) - nowEtSecondOfDay
      ensures 0 < reloadTimerDueSeconds <= 86400
      ensures rtTimerRunning == old(rtTimerRunning) && rtTimerDueMs == old(rtTimerDueMs) && rtSecIds == old(rtSecIds)
      ensures lastDownloadLastPrice == old(lastDownloadLastPrice) && lastGetLastRtCall == old(lastGetLastRtCall)
      ensures nIexDownload == old(nIexDownload) && nYfDownload == old(nYfDownload)
    {
      requests := ReloadRequests(nowEtYear);
      lastHistoricalDataReload := nowUtc;
      var targetTimeOnlySec := NextReloadTarget(nowEtSecondOfDay);
      reloadTimerDueSeconds := targetTimeOnlySec - nowEtSecondOfDay;
    }
  }
}
