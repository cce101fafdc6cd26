/**
 * The market-summary part of the dashboard hub: seven stocks whose previous
 * close is downloaded about once a day and whose last price is downloaded on
 * every tick of a 2-second timer, both from IEX responses read with the
 * marker scan, and the running flag clients toggle by connecting and leaving.
 *
 * The HTTP responses are inputs (`None` when the request failed), the
 * configured IEX token is an input (`None` when missing), clocks are UTC
 * ticks, and `parse` is the float parse of a value (0 when it fails).
 */
module MktSummaryHub {
  import opened Wrappers
  import ClrText
  import IexScan
  import opened PriceWrites
  import HubTimer

  const TimerFrequencyMs: nat := 2000
  const TicksPerHour: int := 36_000_000_000
  const TicksPerDay: int := 24 * TicksPerHour
  /** The stocks of the summary, in list order. */
  const SummaryTickers: seq<string> := ["QQQ", "SPY", "TLT", "GLD", "VXX", "UNG", "USO"]

  class MktSummaryStock {
    const ticker: string
    var previousClose: real
    var lastPrice: real

    constructor (ticker: string)
      ensures this.ticker == ticker && previousClose == -100.0 && lastPrice == -100.0
    {
      this.ticker := ticker;
      previousClose := -100.0;
      lastPrice := -100.0;
    }
  }

  /** `List.Find` by ticker: the position of the first stock with that ticker, or -1. */
  function FindIndex(stocks: seq<MktSummaryStock>, ticker: string): (i: int)
    ensures -1 <= i < |stocks|
    ensures i >= 0 ==> stocks[i].ticker == ticker && forall j :: 0 <= j < i ==> stocks[j].ticker != ticker
    ensures i == -1 <==> forall j :: 0 <= j < |stocks| ==> stocks[j].ticker != ticker
  {
    if stocks == [] then -1
    else if stocks[|stocks| - 1].ticker == ticker && FindIndex(stocks[..|stocks| - 1], ticker) == -1 then |stocks| - 1
    else FindIndex(stocks[..|stocks| - 1], ticker)
  }

  /** The writes of a scan: one per record whose ticker names a stock, into the first such stock. */
  function StockWrites(stocks: seq<MktSummaryStock>, quotes: seq<IexScan.Quote>, parse: string -> real): (r: seq<Write<MktSummaryStock>>)
    ensures |r| <= |quotes|
    ensures forall k :: 0 <= k < |r| ==> r[k].target in stocks
  {
    if quotes == [] then []
    else
      var q := quotes[|quotes| - 1];
      var i := FindIndex(stocks, q.ticker);
      StockWrites(stocks, quotes[..|quotes| - 1], parse) + if i == -1 then [] else [Write(stocks[i], parse(q.value))]
  }

  /** One more record changes at most the value of the first stock with its ticker. */
  lemma StockWritesStep(stocks: seq<MktSummaryStock>, done: seq<IexScan.Quote>, q: IexScan.Quote, parse: string -> real,
                        s: MktSummaryStock, initial: real)
    ensures LastWritten(StockWrites(stocks, done + [q], parse), s, initial)
      == if FindIndex(stocks, q.ticker) >= 0 && stocks[FindIndex(stocks, q.ticker)] == s then parse(q.value)
         else LastWritten(StockWrites(stocks, done, parse), s, initial)
  {
    var all := done + [q];
    assert all[..|all| - 1] == done && all[|all| - 1] == q;
    var i := FindIndex(stocks, q.ticker);
    var extra := if i == -1 then [] else [Write(stocks[i], parse(q.value))];
    assert StockWrites(stocks, all, parse) == StockWrites(stocks, done, parse) + extra;
    LastWrittenAppend(StockWrites(stocks, done, parse), extra, s, initial);
  }

  /** A stock whose ticker no record names keeps its value. */
  lemma {:induction false} UnnamedStockUntouched(stocks: seq<MktSummaryStock>, quotes: seq<IexScan.Quote>, parse: string -> real,
                                                 s: MktSummaryStock, initial: real)
    requires forall k :: 0 <= k < |quotes| ==> quotes[k].ticker != s.ticker
    ensures LastWritten(StockWrites(stocks, quotes, parse), s, initial) == initial
  {
    if quotes != [] {
      var prefix := quotes[..|quotes| - 1];
      UnnamedStockUntouched(stocks, prefix, parse, s, initial);
      assert quotes == prefix + [quotes[|quotes| - 1]];
      StockWritesStep(stocks, prefix, quotes[|quotes| - 1], parse, s, initial);
    }
  }

  /** The stock fields an attribute sets: "previousClose" and "lastSalePrice"; others set nothing. */
  twostate predicate AttributeWritten(stocks: seq<MktSummaryStock>, attr: string, writes: seq<Write<MktSummaryStock>>)
    reads set s | s in stocks
  {
    forall s :: s in stocks ==>
      s.previousClose == (if attr == "previousClose" then LastWritten(writes, s, old(s.previousClose)) else old(s.previousClose))
      && s.lastPrice == (if attr == "lastSalePrice" then LastWritten(writes, s, old(s.lastPrice)) else old(s.lastPrice))
  }

  /** The body of the scan loop after a record is read: the write into the first stock with its ticker. */
  method WriteStock(stocks: seq<MktSummaryStock>, quote: IexScan.Quote, attr: string, parse: string -> real)
    modifies set s | s in stocks
    ensures forall s :: s in stocks ==>
      var hit := FindIndex(stocks, quote.ticker) >= 0 && stocks[FindIndex(stocks, quote.ticker)] == s;
      s.previousClose == (if attr == "previousClose" && hit then parse(quote.value) else old(s.previousClose))
      && s.lastPrice == (if attr == "lastSalePrice" && hit then parse(quote.value) else old(s.lastPrice))
  {
    var i := FindIndex(stocks, quote.ticker);
    if i != -1 {
      var stock := stocks[i];
      var attribute := parse(quote.value);
      if attr == "previousClose" {
        stock.previousClose := attribute;
      } else if attr == "lastSalePrice" {
        stock.lastPrice := attribute;
      }
    }
  }

  /**
   * Scans an IEX response and writes the parsed value of each record into the
   * first stock with its ticker: the previous close for "previousClose", the
   * last price for "lastSalePrice".
   */
  method ExtractAttribute(responseText: string, attr: string, stocks: seq<MktSummaryStock>, parse: string -> real)
    modifies set s | s in stocks
    ensures AttributeWritten(stocks, attr, StockWrites(stocks, IexScan.Quotes(responseText, attr, 0), parse))
  {
    var iStr := 0;
    ghost var done: seq<IexScan.Quote> := [];
    while iStr < |responseText|
      invariant 0 <= iStr <= |responseText|
      invariant IexScan.Quotes(responseText, attr, 0) == done + IexScan.Quotes(responseText, attr, iStr)
      invariant AttributeWritten(stocks, attr, StockWrites(stocks, done, parse))
      decreases |responseText| - iStr
    {
      var step := IexScan.NextQuote(responseText, attr, iStr);
      if step.None? {
        IexScan.ScanStops(responseText, attr, iStr);
        break;
      }
      var (quote, next) := step.value;
      IexScan.ScanAdvances(responseText, attr, iStr, quote, next, done);
      WriteStock(stocks, quote, attr, parse);
      forall s | s in stocks
        ensures s.previousClose == (if attr == "previousClose" then LastWritten(StockWrites(stocks, done + [quote], parse), s, old(s.previousClose)) else old(s.previousClose))
        ensures s.lastPrice == (if attr == "lastSalePrice" then LastWritten(StockWrites(stocks, done + [quote], parse), s, old(s.lastPrice)) else old(s.lastPrice))
      {
        StockWritesStep(stocks, done, quote, parse, s, old(s.previousClose));
        StockWritesStep(stocks, done, quote, parse, s, old(s.lastPrice));
      }
      done := done + [quote];
      iStr := next;
    }
    assert IexScan.Quotes(responseText, attr, 0) == done;
  }

  /** `DateTime(now.Year, now.Month, now.Day, 8, 0, 0)`: 08:00 UTC on the day of `now`. */
  function MorningCutoff(now: nat): (cutoff: int)
    ensures cutoff - 8 * TicksPerHour <= now < cutoff + 16 * TicksPerHour
    ensures (cutoff - 8 * TicksPerHour) % TicksPerDay == 0
  {
    now / TicksPerDay * TicksPerDay + 8 * TicksPerHour
  }

  /** The previous close is downloaded again when the last check is over a day old, or was before this morning's 08:00 that has now passed. */
  predicate NeedsPreviousClose(now: nat, checked: int)
  {
    var utcMorningCutoffTime := MorningCutoff(now);
    now - checked > TicksPerDay || (now - utcMorningCutoffTime > 0 && checked - utcMorningCutoffTime < 0)
  }

  /** Once past 08:00, a check made after that 08:00 is not repeated within the day. */
  lemma NoRepeatAfterMorningCheck(now: nat, checked: int)
    requires MorningCutoff(now) <= checked <= now
    ensures !NeedsPreviousClose(now, checked)
  {
  }

  /** A check made before this morning's 08:00 is repeated once 08:00 has passed. */
  lemma RefreshOncePastCutoff(now: nat, checked: int)
    requires checked < MorningCutoff(now) < now
    ensures NeedsPreviousClose(now, checked)
  {
  }

  /** The initial check time, `DateTime.MinValue`, makes the first tick download the previous close. */
  lemma FirstTickDownloads(now: nat)
    requires now > TicksPerDay
    ensures NeedsPreviousClose(now, 0)
  {
  }

  /** A download at most once per morning: between two 08:00 cutoffs a fresh check holds until the next one. */
  lemma {:induction false} CheckHoldsUntilNextCutoff(checked: nat, now: nat)
    requires MorningCutoff(checked) <= checked <= now < MorningCutoff(checked) + TicksPerDay
    ensures !NeedsPreviousClose(now, checked)
  {
    var c := MorningCutoff(checked);
    var day := (c - 8 * TicksPerHour) / TicksPerDay;
    assert c - 8 * TicksPerHour == day * TicksPerDay;
    if now < c + 16 * TicksPerHour {
      assert now / TicksPerDay == day;
    } else {
      assert now / TicksPerDay == day + 1;
    }
  }

  /** `String.IsNullOrEmpty` fails for the configured token. */
  predicate HasToken(token: Option<string>)
  {
    token.Some? && token.value != ""
  }

  class MktSummaryHubState {
    const stocks: seq<MktSummaryStock>
    var previousCloseChecked: int
    const timer: HubTimer.TimerFlag

    ghost predicate Valid()
      reads this, timer
    {
      timer.Valid() && timer.frequencyMs == TimerFrequencyMs && previousCloseChecked >= 0
    }

    /** The static initial state: the seven stocks, no check yet, a stopped 2-second timer. */
    constructor ()
      ensures Valid() && !timer.running && previousCloseChecked == 0
      ensures |stocks| == |SummaryTickers| && forall k :: 0 <= k < |stocks| ==> stocks[k].ticker == SummaryTickers[k]
      ensures forall k :: 0 <= k < |stocks| ==> stocks[k].previousClose == -100.0 && stocks[k].lastPrice == -100.0
    {
      var qqq := new MktSummaryStock("QQQ");
      var spy := new MktSummaryStock("SPY");
      var tlt := new MktSummaryStock("TLT");
      var gld := new MktSummaryStock("GLD");
      var vxx := new MktSummaryStock("VXX");
      var ung := new MktSummaryStock("UNG");
      var uso := new MktSummaryStock("USO");
      stocks := [qqq, spy, tlt, gld, vxx, ung, uso];
      previousCloseChecked := 0;
      timer := new HubTimer.TimerFlag(TimerFrequencyMs);
    }

    method OnConnected()
      requires Valid()
      modifies timer
      ensures Valid() && timer.running
      ensures !old(timer.running) ==> timer.dueMs == 0
      ensures old(timer.running) ==> timer.dueMs == old(timer.dueMs)
    {
      timer.OnConnected();
    }

    method OnDisconnected(clientCount: nat)
      requires Valid()
      modifies timer
      ensures Valid()
      ensures clientCount == 0 ==> !timer.running && timer.dueMs == HubTimer.Disabled
      ensures clientCount > 0 ==> timer.running == old(timer.running) && timer.dueMs == old(timer.dueMs)
    {
      timer.OnDisconnected(clientCount);
    }

    /** Downloads the previous closes; without a token or a response nothing changes. */
    method DownloadPreviousClose(token: Option<string>, response: Option<string>, parse: string -> real)
      modifies set s | s in stocks
      ensures HasToken(token) && response.Some? ==>
        AttributeWritten(stocks, "previousClose", StockWrites(stocks, IexScan.Quotes(response.value, "previousClose", 0), parse))
      ensures !HasToken(token) || response.None? ==> forall s :: s in stocks ==> unchanged(s)
    {
      if token.None? || token.value == "" {
        return;
      }
      if response.None? {
        return;
      }
      ExtractAttribute(response.value, "previousClose", stocks, parse);
    }

    /** Downloads the last prices; without a response nothing changes. */
    method DownloadLastPrice(response: Option<string>, parse: string -> real)
      modifies set s | s in stocks
      ensures response.Some? ==>
        AttributeWritten(stocks, "lastSalePrice", StockWrites(stocks, IexScan.Quotes(response.value, "lastSalePrice", 0), parse))
      ensures response.None? ==> forall s :: s in stocks ==> unchanged(s)
    {
      if response.None? {
        return;
      }
      ExtractAttribute(response.value, "lastSalePrice", stocks, parse);
    }

    /**
     * The timer callback: when running, downloads the previous closes if they
     * are due (stamping the check with the clock read after the download), then
     * the last prices, then re-arms the timer.
     */
    method TimerElapsed(now: nat, nowAfterDownload: nat, token: Option<string>,
                        previousCloseResponse: Option<string>, lastPriceResponse: Option<string>, parse: string -> real)
      requires Valid()
      modifies this, timer, set s | s in stocks
      ensures Valid()
      ensures !old(timer.running) ==> unchanged(this) && unchanged(timer) && forall s :: s in stocks ==> unchanged(s)
      ensures old(timer.running) ==> timer.running && timer.dueMs == TimerFrequencyMs
      ensures old(timer.running) ==> (previousCloseChecked ==
        if NeedsPreviousClose(now, old(previousCloseChecked)) then nowAfterDownload else old(previousCloseChecked))
      ensures old(timer.running) ==> forall s :: s in stocks ==>
        s.previousClose == (if NeedsPreviousClose(now, old(previousCloseChecked)) && HasToken(token) && previousCloseResponse.Some?
          then LastWritten(StockWrites(stocks, IexScan.Quotes(previousCloseResponse.value, "previousClose", 0), parse), s, old(s.previousClose))
          else old(s.previousClose))
      ensures old(timer.running) ==> forall s :: s in stocks ==>
        s.lastPrice == (if lastPriceResponse.Some?
          then LastWritten(StockWrites(stocks, IexScan.Quotes(lastPriceResponse.value, "lastSalePrice", 0), parse), s, old(s.lastPrice))
          else old(s.lastPrice))
    {
      if !timer.running {
        return;
      }
      if NeedsPreviousClose(now, previousCloseChecked) {
        DownloadPreviousClose(token, previousCloseResponse, parse);
        previousCloseChecked := nowAfterDownload;
      }
      label AfterPreviousClose:
      DownloadLastPrice(lastPriceResponse, parse);
      assert forall s :: s in stocks ==> s.previousClose == old@AfterPreviousClose(s.previousClose);
      timer.Rearm();
    }
  }
}
