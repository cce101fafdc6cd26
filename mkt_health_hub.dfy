/**
 * The market-health part of the dashboard hub: the summary stocks resolved to
 * SecIDs once the database is loaded, the once-per-connection statistics of
 * each stock (previous close, and the open, high and low of the year to date)
 * computed from its daily history, and the real-time timer that broadcasts the
 * last prices while clients are connected.
 *
 * Today's date and the period start are passed in as `DateOnly` day numbers;
 * the conversion from UTC to Eastern Time is not part of this model.
 */
module MktHealthHub {
  import opened Wrappers
  import opened MemDbModel
  import TimeSeries
  import HubTimer
  import MemDbRealtime
  import TradingHoursRule
  import ClrText
  import DateUtils

  const TimerFrequencyMs: nat := 3000
  const SummaryTickers: seq<string> := ["GLD", "QQQ", "SPY", "TLT", "VXX", "UNG", "USO"]

  /** `float.MinValue` and `float.MaxValue`, the seeds of the running maximum and minimum. */
  const FloatMinValue: real := -340282346638528859811704183484516925440.0
  const FloatMaxValue: real := 340282346638528859811704183484516925440.0

  /** The exceptions the statistics can run into. */
  datatype HubError =
    | NoSuchTicker(ticker: string)      // GetFirstMatchingSecurity throws
    | SeriesMissing                     // no SplitDivAdjClose column
    | IndexOutOfRange                   // an index outside the arrays
    | InvalidPeriodStart                // new DateTime(year - 1, 12, 31) throws

  /** A summary stock: the ticker is fixed, the SecID is filled in once the database is loaded. */
  class RtMktSummaryStock {
    const ticker: string
    var secId: UInt32

    constructor (ticker: string)
      ensures this.ticker == ticker && secId == 0
    {
      this.ticker := ticker;
      secId := 0;
    }
  }

  /** The figures of one stock over the period. */
  datatype PeriodFigures = PeriodFigures(previousClose: real, periodOpen: real, periodHigh: real, periodLow: real)

  /** The statistic sent to the clients once per connection. */
  datatype NonRtStat = NonRtStat(secId: UInt32, ticker: string, periodStart: ClrText.Date, figures: PeriodFigures)

  /** Year to date: the period starts on 31 December of the previous year, which must be a valid `DateTime`. */
  function PeriodStart(todayYear: int): (r: Result<ClrText.Date, HubError>)
    requires 1 <= todayYear <= 9999
    ensures r.Ok? <==> todayYear > 1
    ensures r.Ok? ==> r.value.year == todayYear - 1 && r.value.month == 12 && r.value.day == 31 && ClrText.IsValidDate(r.value)
    ensures r.Err? ==> r.error == InvalidPeriodStart
  {
    if todayYear - 1 < 1 then Err(InvalidPeriodStart) else Ok(ClrText.Date(todayYear - 1, 12, 31))
  }

  /** The running maximum of the source loop: starts at `float.MinValue` and takes any greater close. */
  function HighOf(closes: seq<real>): real
  {
    if closes == [] then FloatMinValue
    else
      var m := HighOf(closes[..|closes| - 1]);
      if closes[|closes| - 1] > m then closes[|closes| - 1] else m
  }

  /** The running minimum: starts at `float.MaxValue` and takes any smaller close. */
  function LowOf(closes: seq<real>): real
  {
    if closes == [] then FloatMaxValue
    else
      var m := LowOf(closes[..|closes| - 1]);
      if closes[|closes| - 1] < m then closes[|closes| - 1] else m
  }

  /**
   * The running maximum bounds every close from above and is one of them or the
   * seed; the running minimum bounds them from below and is one of them or the seed.
   */
  lemma {:induction false} HighLowBounds(closes: seq<real>)
    ensures FloatMinValue <= HighOf(closes) && LowOf(closes) <= FloatMaxValue
    ensures forall i :: 0 <= i < |closes| ==> LowOf(closes) <= closes[i] <= HighOf(closes)
    ensures HighOf(closes) == FloatMinValue || HighOf(closes) in closes
    ensures LowOf(closes) == FloatMaxValue || LowOf(closes) in closes
  {
    if closes != [] {
      var init := closes[..|closes| - 1];
      HighLowBounds(init);
      assert forall i :: 0 <= i < |init| ==> init[i] == closes[i];
    }
  }

  /** One more close moves the running maximum and minimum as the loop body does. */
  lemma HighLowStep(closes: seq<real>, from: int, i: int)
    requires 0 <= from <= i < |closes|
    ensures var high := HighOf(closes[from..i]);
      HighOf(closes[from..i + 1]) == if closes[i] > high then closes[i] else high
    ensures var low := LowOf(closes[from..i]);
      LowOf(closes[from..i + 1]) == if closes[i] < low then closes[i] else low
  {
    assert closes[from..i + 1][..i - from] == closes[from..i];
  }

  /** The closes from index `from` to index `to`, both included; empty when `from` is past `to`. */
  function Span(closes: seq<real>, from: int, to: int): seq<real>
    requires 0 <= from && to < |closes|
  {
    if from <= to then closes[from..to + 1] else []
  }

  /**
   * The figures read from the close array at the period-start index and the
   * previous-day index; IndexOutOfRange when either lies outside the array.
   */
  function StatsAt(closes: seq<real>, iStart: int, iPrev: int): (r: Result<PeriodFigures, HubError>)
    ensures r.Ok? <==> 0 <= iStart < |closes| && 0 <= iPrev < |closes|
    ensures r.Err? ==> r.error == IndexOutOfRange
    ensures r.Ok? ==> r.value.previousClose == closes[iPrev] && r.value.periodOpen == closes[iStart]
    ensures r.Ok? ==> forall i :: iStart <= i <= iPrev ==> r.value.periodLow <= closes[i] <= r.value.periodHigh
    ensures r.Ok? && iStart <= iPrev && closes[iStart] >= FloatMinValue ==> r.value.periodHigh in closes[iStart..iPrev + 1]
    ensures r.Ok? && iStart <= iPrev && closes[iStart] <= FloatMaxValue ==> r.value.periodLow in closes[iStart..iPrev + 1]
  {
    if 0 <= iStart < |closes| && 0 <= iPrev < |closes| then
      var span := Span(closes, iStart, iPrev);
      HighLowBounds(span);
      assert forall i :: iStart <= i <= iPrev ==> closes[i] == span[i - iStart];
      Ok(PeriodFigures(closes[iPrev], closes[iStart], HighOf(span), LowOf(span)))
    else
      Err(IndexOutOfRange)
  }

  /** The loop over the closes from `from` to `to` that keeps the running maximum and minimum. */
  method HighLow(closes: seq<real>, from: int, to: int) returns (max: real, min: real)
    requires 0 <= from && to < |closes|
    ensures max == HighOf(Span(closes, from, to)) && min == LowOf(Span(closes, from, to))
  {
    max, min := FloatMinValue, FloatMaxValue;
    if from <= to {
      for i := from to to + 1
        invariant max == HighOf(closes[from..i]) && min == LowOf(closes[from..i])
      {
        HighLowStep(closes, from, i);
        if closes[i] > max {
          max := closes[i];
        }
        if closes[i] < min {
          min := closes[i];
        }
      }
    }
  }

  /**
   * The previous trading day: the last entry of the key array, or the one before
   * it when the last is already today (the history may carry today's price).
   */
  function PrevDayIndex(dates: seq<int>, today: int): (r: int)
    requires |dates| > 0
    ensures r == |dates| - 1 || r == |dates| - 2
    ensures r == |dates| - 1 <==> dates[|dates| - 1] < today
  {
    if dates[|dates| - 1] >= today then |dates| - 2 else |dates| - 1
  }

  /** The first position of `key`, or -1. */
  function KeyIndex(keys: seq<int>, key: int): (r: int)
    ensures -1 <= r < |keys|
    ensures r >= 0 ==> keys[r] == key
    ensures r == -1 <==> key !in keys
  {
    if keys == [] then -1
    else if keys[0] == key then 0
    else var rest := KeyIndex(keys[1..], key); if rest == -1 then -1 else rest + 1
  }

  /** The last position whose key is at or before `key`, or -1. */
  function AtOrBeforeIndex(keys: seq<int>, key: int): (r: int)
    ensures -1 <= r < |keys|
    ensures r >= 0 ==> keys[r] <= key
    ensures forall j :: r < j < |keys| ==> keys[j] > key
  {
    if keys == [] then -1
    else if keys[|keys| - 1] <= key then |keys| - 1
    else AtOrBeforeIndex(keys[..|keys| - 1], key)
  }

  /** In strictly increasing keys the position of a present key is the only one. */
  lemma KeyIndexOf(keys: seq<int>, key: int, r: int)
    requires TimeSeries.StrictlyIncreasing(keys)
    requires -1 <= r < |keys|
    requires r == -1 <==> key !in keys
    requires 0 <= r ==> keys[r] == key
    ensures KeyIndex(keys, key) == r
  {
  }

  /** The index `IndexOfKeyOrBeforeKey` reports is the last key at or before the one asked for. */
  lemma AtOrBeforeIndexOf(keys: seq<int>, key: int, r: int)
    requires TimeSeries.StrictlyIncreasing(keys)
    requires -1 <= r < |keys|
    requires key in keys ==> 0 <= r && keys[r] == key
    requires key !in keys ==> (forall i :: 0 <= i <= r ==> keys[i] < key) && (forall i :: r < i < |keys| ==> key < keys[i])
    ensures AtOrBeforeIndex(keys, key) == r
  {
  }

  /**
   * The statistics as written: the previous day is looked up in the whole key
   * buffer, the period start must be exactly a stored key.
   */
  function PeriodStatsAsWritten(keyBuffer: seq<int>, used: nat, closes: seq<real>, today: int, start: int): Result<PeriodFigures, HubError>
    requires used <= |keyBuffer|
  {
    if keyBuffer == [] then Err(IndexOutOfRange)
    else StatsAt(closes, KeyIndex(keyBuffer[..used], start), PrevDayIndex(keyBuffer, today))
  }

  /** The statistics as intended: the period opens on the last stored day at or before its start. */
  function PeriodStatsOf(keyBuffer: seq<int>, used: nat, closes: seq<real>, today: int, start: int): Result<PeriodFigures, HubError>
    requires used <= |keyBuffer|
  {
    if keyBuffer == [] then Err(IndexOutOfRange)
    else StatsAt(closes, AtOrBeforeIndex(keyBuffer[..used], start), PrevDayIndex(keyBuffer, today))
  }

  /**
   * For a history whose key buffer is full, sorted and holds no day after today,
   * the statistics exist exactly when some stored day is at or before the period
   * start and some stored day is before today; the previous close is then the
   * close of the last day before today, after which only today may follow, and
   * the period opens on the last day at or before the start.
   */
  lemma {:induction false} PeriodStatsMeaning(keys: seq<int>, closes: seq<real>, today: int, start: int)
    requires TimeSeries.StrictlyIncreasing(keys) && |closes| == |keys|
    requires forall i :: 0 <= i < |keys| ==> keys[i] <= today
    ensures PeriodStatsOf(keys, |keys|, closes, today, start).Ok?
        <==> (exists i :: 0 <= i < |keys| && keys[i] <= start) && (exists i :: 0 <= i < |keys| && keys[i] < today)
    ensures PeriodStatsOf(keys, |keys|, closes, today, start).Ok? ==>
      (exists p :: 0 <= p < |keys| && keys[p] < today
        && (forall j :: p < j < |keys| ==> keys[j] == today)
        && PeriodStatsOf(keys, |keys|, closes, today, start).value.previousClose == closes[p])
    ensures PeriodStatsOf(keys, |keys|, closes, today, start).Ok? ==>
      (exists s :: 0 <= s < |keys| && keys[s] <= start
        && (forall j :: s < j < |keys| ==> keys[j] > start)
        && PeriodStatsOf(keys, |keys|, closes, today, start).value.periodOpen == closes[s])
  {
    assert keys[..|keys|] == keys;
    if keys != [] {
      var n := |keys|;
      var p := PrevDayIndex(keys, today);
      var s := AtOrBeforeIndex(keys, start);
      if keys[n - 1] >= today {
        assert keys[n - 1] == today;
        if n >= 2 {
          assert keys[n - 2] < keys[n - 1];
        } else {
          assert n == 1;
        }
      }
      if p >= 0 {
        forall i | 0 <= i < n && keys[i] < today ensures i <= p {
        }
      } else {
        assert forall i :: 0 <= i < n ==> keys[i] == today;
      }
      if s == -1 {
        assert forall i :: 0 <= i < n ==> keys[i] > start;
      }
    }
  }

  /** The period start that is not a stored trading day (31 December on a weekend) makes the statistics fail. */
  lemma PeriodStartOnWeekendFails()
    ensures PeriodStatsAsWritten([100, 102], 2, [5.0, 6.0], 200, 101) == Err(IndexOutOfRange)
    ensures PeriodStatsOf([100, 102], 2, [5.0, 6.0], 200, 101) == Ok(PeriodFigures(6.0, 5.0, 6.0, 5.0))
  {
    assert KeyIndex([100, 102], 101) == -1;
    assert AtOrBeforeIndex([100, 102], 101) == 0;
    assert Span([5.0, 6.0], 0, 1) == [5.0, 6.0];
    assert HighOf([5.0]) == 5.0;
    assert LowOf([5.0]) == 5.0;
  }

  /** When the period start is a stored day the two readings agree. */
  lemma AsWrittenAgreesOnStoredStart(keyBuffer: seq<int>, used: nat, closes: seq<real>, today: int, start: int)
    requires used <= |keyBuffer| && TimeSeries.StrictlyIncreasing(keyBuffer[..used])
    requires start in keyBuffer[..used]
    ensures PeriodStatsAsWritten(keyBuffer, used, closes, today, start) == PeriodStatsOf(keyBuffer, used, closes, today, start)
  {
    var keys := keyBuffer[..used];
    var k := KeyIndex(keys, start);
    AtOrBeforeIndexOf(keys, start, k);
  }

  /** The figures at two indices of the close array, with the high and low from the loop. */
  method FiguresAt(closes: seq<real>, iStart: int, iPrev: int) returns (r: Result<PeriodFigures, HubError>)
    ensures r == StatsAt(closes, iStart, iPrev)
  {
    if !(0 <= iStart < |closes| && 0 <= iPrev < |closes|) {
      return Err(IndexOutOfRange);
    }
    var max, min := HighLow(closes, iStart, iPrev);
    r := Ok(PeriodFigures(closes[iPrev], closes[iStart], max, min));
  }

  /** The statistics of one history as the hub reads them; SeriesMissing without a close column. */
  ghost function SeriesStatsAsWritten(series: TimeSeries.FinTimeSeries, today: int, start: int): Result<PeriodFigures, HubError>
    requires series.Valid()
    reads series, series.keys
  {
    if TimeSeries.SplitDivAdjClose !in series.values1 then Err(SeriesMissing)
    else PeriodStatsAsWritten(series.keys[..], series.size, series.values1[TimeSeries.SplitDivAdjClose], today, start)
  }

  /** The same with the period opening on the last stored day at or before its start. */
  ghost function SeriesStats(series: TimeSeries.FinTimeSeries, today: int, start: int): Result<PeriodFigures, HubError>
    requires series.Valid()
    reads series, series.keys
  {
    if TimeSeries.SplitDivAdjClose !in series.values1 then Err(SeriesMissing)
    else PeriodStatsOf(series.keys[..], series.size, series.values1[TimeSeries.SplitDivAdjClose], today, start)
  }

  /** The statistics as the hub computes them, with the exact period-start lookup. */
  method PeriodStatsAsWrittenOf(series: TimeSeries.FinTimeSeries, today: int, start: int) returns (r: Result<PeriodFigures, HubError>)
    requires series.Valid() && TimeSeries.StrictlyIncreasing(series.Keys())
    ensures r == SeriesStatsAsWritten(series, today, start)
  {
    var dates := series.keys[..];
    if TimeSeries.SplitDivAdjClose !in series.values1 {
      return Err(SeriesMissing);
    }
    var closes := series.values1[TimeSeries.SplitDivAdjClose];
    if |dates| == 0 {
      return Err(IndexOutOfRange);
    }
    var iPrevDay := if dates[|dates| - 1] >= today then |dates| - 2 else |dates| - 1;
    var iStart := series.IndexOfKey(start);
    KeyIndexOf(series.Keys(), start, iStart);
    assert dates[..series.size] == series.Keys();
    assert iPrevDay == PrevDayIndex(dates, today);
    r := FiguresAt(closes, iStart, iPrevDay);
  }

  /** The statistics with the period start looked up at or before its date. */
  method PeriodStats(series: TimeSeries.FinTimeSeries, today: int, start: int) returns (r: Result<PeriodFigures, HubError>)
    requires series.Valid() && TimeSeries.StrictlyIncreasing(series.Keys())
    ensures r == SeriesStats(series, today, start)
  {
    var dates := series.keys[..];
    if TimeSeries.SplitDivAdjClose !in series.values1 {
      return Err(SeriesMissing);
    }
    var closes := series.values1[TimeSeries.SplitDivAdjClose];
    if |dates| == 0 {
      return Err(IndexOutOfRange);
    }
    var iPrevDay := if dates[|dates| - 1] >= today then |dates| - 2 else |dates| - 1;
    var iStart := series.IndexOfKeyOrBeforeKey(start);
    assert forall i :: 0 <= i < series.size ==> series.Keys()[i] == series.keys[i];
    AtOrBeforeIndexOf(series.Keys(), start, iStart);
    assert dates[..series.size] == series.Keys();
    assert iPrevDay == PrevDayIndex(dates, today);
    r := FiguresAt(closes, iStart, iPrevDay);
  }

  /** Every history the hub reads is well formed, with strictly increasing dates. */
  ghost predicate HistoriesReady(secs: seq<Security>)
    reads set s | s in secs :: s.dailyHistory
    reads set s | s in secs :: s.dailyHistory.keys
  {
    forall s :: s in secs ==> HistoryReady(s.dailyHistory)
  }

  ghost predicate HistoryReady(h: TimeSeries.FinTimeSeries)
    reads h, h.keys
  {
    h.Valid() && TimeSeries.StrictlyIncreasing(h.Keys())
  }

  /**
   * The statistic of one summary stock: its first matching security, that
   * security's close column, and the figures from its history.
   */
  ghost function StockStat(secs: seq<Security>, ticker: string, secId: UInt32, today: int, start: int, periodStart: ClrText.Date): Result<NonRtStat, HubError>
    requires HistoriesReady(secs)
    reads set s | s in secs :: s.dailyHistory
    reads set s | s in secs :: s.dailyHistory.keys
  {
    var i := IndexOfTicker(secs, ticker);
    if i < 0 then Err(NoSuchTicker(ticker))
    else match SeriesStats(secs[i].dailyHistory, today, start)
      case Err(e) => Err(e)
      case Ok(f) => Ok(NonRtStat(secId, ticker, periodStart, f))
  }

  /** The statistic of one stock as the hub computes it. */
  method StatOf(db: MemDb, ticker: string, secId: UInt32, today: int, start: int, periodStart: ClrText.Date) returns (r: Result<NonRtStat, HubError>)
    requires HistoriesReady(db.securities)
    ensures r == StockStat(db.securities, ticker, secId, today, start, periodStart)
  {
    var found := db.GetFirstMatchingSecurity(ticker);
    if found.Err? {
      return Err(NoSuchTicker(ticker));
    }
    var figures := PeriodStats(found.value.dailyHistory, today, start);
    if figures.Err? {
      return Err(figures.error);
    }
    r := Ok(NonRtStat(secId, ticker, periodStart, figures.value));
  }

  /**
   * The statistics of the stocks named by `entries` (ticker and SecID), in
   * order; the first failure is the result.
   */
  method CollectStats(db: MemDb, entries: seq<(string, UInt32)>, today: int, start: int, periodStart: ClrText.Date)
    returns (r: Result<seq<NonRtStat>, HubError>)
    requires HistoriesReady(db.securities)
    ensures r.Ok? <==> forall k :: 0 <= k < |entries| ==> StockStat(db.securities, entries[k].0, entries[k].1, today, start, periodStart).Ok?
    ensures r.Ok? ==> |r.value| == |entries| && forall k :: 0 <= k < |entries| ==>
      StockStat(db.securities, entries[k].0, entries[k].1, today, start, periodStart) == Ok(r.value[k])
    ensures r.Err? ==> exists k :: (0 <= k < |entries|
      && StockStat(db.securities, entries[k].0, entries[k].1, today, start, periodStart) == Err(r.error)
      && forall j :: 0 <= j < k ==> StockStat(db.securities, entries[j].0, entries[j].1, today, start, periodStart).Ok?)
  {
    var stats: seq<NonRtStat> := [];
    for k := 0 to |entries|
      invariant |stats| == k
      invariant forall j :: 0 <= j < k ==> StockStat(db.securities, entries[j].0, entries[j].1, today, start, periodStart) == Ok(stats[j])
    {
      var stat := StatOf(db, entries[k].0, entries[k].1, today, start, periodStart);
      if stat.Err? {
        r := Err(stat.error);
        assert 0 <= k < |entries| && StockStat(db.securities, entries[k].0, entries[k].1, today, start, periodStart) == Err(r.error);
        return;
      }
      stats := stats + [stat.value];
      assert stats[k] == stat.value;
    }
    return Ok(stats);
  }

  /** The position of the first stock whose ticker is not in the database, or the number of stocks. */
  function FirstMissing(secs: seq<Security>, stocks: seq<RtMktSummaryStock>): (m: nat)
    ensures m <= |stocks|
    ensures forall k :: 0 <= k < m ==> IndexOfTicker(secs, stocks[k].ticker) >= 0
    ensures m < |stocks| ==> IndexOfTicker(secs, stocks[m].ticker) == -1
  {
    if stocks == [] || IndexOfTicker(secs, stocks[0].ticker) == -1 then 0
    else 1 + FirstMissing(secs, stocks[1..])
  }

  /** The SecID of the first security with the ticker; 0, the invalid SecID, when there is none. */
  function SecIdOf(secs: seq<Security>, ticker: string): UInt32
  {
    var i := IndexOfTicker(secs, ticker);
    if i >= 0 then secs[i].secId else 0
  }

  /** The SecIDs of the stocks, in order. */
  ghost function SecIds(stocks: seq<RtMktSummaryStock>): (ids: seq<UInt32>)
    reads stocks
    ensures |ids| == |stocks| && forall k :: 0 <= k < |stocks| ==> ids[k] == stocks[k].secId
  {
    if stocks == [] then [] else [stocks[0].secId] + SecIds(stocks[1..])
  }

  /** The market-health state of the hub: the summary stocks and the real-time timer. */
  class MktHealthHubState {
    const stocks: seq<RtMktSummaryStock>
    const timer: HubTimer.TimerFlag

    ghost predicate Valid()
      reads this, timer
    {
      timer.Valid() && timer.frequencyMs == TimerFrequencyMs
      && |stocks| == |SummaryTickers|
      && (forall k :: 0 <= k < |stocks| ==> stocks[k].ticker == SummaryTickers[k])
      && (forall i, j :: 0 <= i < j < |stocks| ==> stocks[i] != stocks[j])
    }

    /** The seven summary stocks with no SecID yet, and the timer stopped. */
    constructor ()
      ensures Valid() && fresh(timer) && !timer.running && timer.dueMs == HubTimer.Disabled
      ensures forall k :: 0 <= k < |stocks| ==> fresh(stocks[k]) && stocks[k].secId == 0
    {
      var gld := new RtMktSummaryStock("GLD");
      var qqq := new RtMktSummaryStock("QQQ");
      var spy := new RtMktSummaryStock("SPY");
      var tlt := new RtMktSummaryStock("TLT");
      var vxx := new RtMktSummaryStock("VXX");
      var ung := new RtMktSummaryStock("UNG");
      var uso := new RtMktSummaryStock("USO");
      stocks := [gld, qqq, spy, tlt, vxx, ung, uso];
      timer := new HubTimer.TimerFlag(TimerFrequencyMs);
    }

    /**
     * Once the database is loaded: each stock takes the SecID of its first
     * matching security, in order, until a ticker is missing.
     */
    method EvMemDbInitialized(db: MemDb) returns (failed: Option<HubError>)
      requires Valid()
      modifies stocks
      ensures var m := FirstMissing(db.securities, stocks);
        (failed.None? <==> m == |stocks|)
        && (m < |stocks| ==> failed == Some(NoSuchTicker(stocks[m].ticker)))
        && (forall k :: 0 <= k < m ==> stocks[k].secId == SecIdOf(db.securities, stocks[k].ticker))
        && (forall k :: m <= k < |stocks| ==> stocks[k].secId == old(stocks[k].secId))
    {
      ghost var secs := db.securities;
      for k := 0 to |stocks|
        invariant FirstMissing(secs, stocks) >= k
        invariant forall j :: 0 <= j < k ==> stocks[j].secId == SecIdOf(secs, stocks[j].ticker)
        invariant forall j :: k <= j < |stocks| ==> stocks[j].secId == old(stocks[j].secId)
      {
        var stock := stocks[k];
        FirstMissingAt(secs, stocks, k);
        var sec := db.GetFirstMatchingSecurity(stock.ticker);
        if sec.Err? {
          return Some(NoSuchTicker(stock.ticker));
        }
        stock.secId := sec.value.secId;
      }
      return None;
    }

    /**
     * A client connected: the timer starts if it was not running, and every
     * stock's statistics over the year to date are computed for the clients.
     * `todayEt` is today's date in Eastern Time; today and the period start
     * (31 December of the year before) are looked up as DateOnly days.
     */
    method OnConnected(db: MemDb, todayEt: ClrText.Date) returns (r: Result<seq<NonRtStat>, HubError>)
      requires Valid() && ClrText.IsValidDate(todayEt) && HistoriesReady(db.securities)
      modifies timer
      ensures Valid() && timer.running
      ensures !old(timer.running) ==> timer.dueMs == 0
      ensures old(timer.running) ==> timer.dueMs == old(timer.dueMs)
      ensures todayEt.year == 1 ==> r == Err(InvalidPeriodStart)
      ensures todayEt.year > 1 ==>
        var periodStart := ClrText.Date(todayEt.year - 1, 12, 31);
        var today, start := DateUtils.OfDate(todayEt).days, DateUtils.OfDate(periodStart).days;
        (r.Ok? <==> forall k :: 0 <= k < |stocks| ==> StockStat(db.securities, stocks[k].ticker, stocks[k].secId, today, start, periodStart).Ok?)
        && (r.Ok? ==> |r.value| == |stocks| && forall k :: 0 <= k < |stocks| ==>
              StockStat(db.securities, stocks[k].ticker, stocks[k].secId, today, start, periodStart) == Ok(r.value[k]))
    {
      timer.OnConnected();
      var periodStart := PeriodStart(todayEt.year);
      if periodStart.Err? {
        return Err(periodStart.error);
      }
      var today := DateUtils.OfDate(todayEt).days;
      var start := DateUtils.OfDate(periodStart.value).days;
      var entries := seq(|stocks|, k requires 0 <= k < |stocks| reads stocks => (stocks[k].ticker, stocks[k].secId));
      assert forall k :: 0 <= k < |stocks| ==> entries[k].0 == stocks[k].ticker && entries[k].1 == stocks[k].secId;
      r := CollectStats(db, entries, today, start, periodStart.value);
    }

    /** A client disconnected: the timer stops when none is left. */
    method OnDisconnected(clientCount: nat)
      requires Valid()
      modifies timer
      ensures Valid()
      ensures clientCount == 0 ==> !timer.running && timer.dueMs == HubTimer.Disabled
      ensures clientCount > 0 ==> timer.running == old(timer.running) && timer.dueMs == old(timer.dueMs)
    {
      timer.OnDisconnected(clientCount);
    }

    /**
     * The timer elapsed: when still running, the last prices of the stocks'
     * SecIDs are read for the clients and the timer is re-armed for 3 s,
     * whether or not every SecID was found.
     */
    method Elapsed(db: MemDb, hours: TradingHoursRule.TradingHours, now: int) returns (r: Option<Result<seq<(UInt32, real)>, MemDbError>>)
      requires Valid()
      modifies db, timer
      ensures Valid() && timer.running == old(timer.running)
      ensures !old(timer.running) ==> r.None? && unchanged(db) && timer.dueMs == old(timer.dueMs)
      ensures old(timer.running) ==> r.Some? && db.lastGetLastRtCall == now && db.rtTimerRunning
      ensures r.Some? ==> (r.value.Ok? <==> MemDbRealtime.AllResolve(db.securities, SecIds(stocks)))
      ensures old(timer.running) ==> timer.dueMs == TimerFrequencyMs
      ensures r.Some? && r.value.Ok? ==> (|r.value.value| == |stocks|
        && forall k :: 0 <= k < |stocks| ==>
          r.value.value[k] == (stocks[k].secId, MemDbRealtime.RtPrice(MemDbRealtime.Lookup(db.securities, stocks[k].secId), hours)))
    {
      if !timer.running {
        return None;
      }
      var secIds := seq(|stocks|, k requires 0 <= k < |stocks| reads stocks => stocks[k].secId);
      assert secIds == SecIds(stocks);
      var lastPrices := MemDbRealtime.GetLastRtPrice(db, secIds, hours, now);
      timer.Rearm();
      return Some(lastPrices);
    }
  }

  /** The loop step of EvMemDbInitialized: below the first missing ticker every ticker is found. */
  lemma FirstMissingAt(secs: seq<Security>, stocks: seq<RtMktSummaryStock>, k: nat)
    requires k < |stocks| && FirstMissing(secs, stocks) >= k
    ensures IndexOfTicker(secs, stocks[k].ticker) >= 0 ==> FirstMissing(secs, stocks) >= k + 1
    ensures IndexOfTicker(secs, stocks[k].ticker) == -1 ==> FirstMissing(secs, stocks) == k
  {
  }
}
