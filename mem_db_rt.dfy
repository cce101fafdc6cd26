/**
 * The real-time prices of the in-memory database: the timer callback that
 * downloads last prices (IEX in regular trading hours, Yahoo otherwise) and
 * re-arms itself while clients keep asking, the extraction of IEX last-sale
 * prices from the response text, the Yahoo field choice, and the price read
 * `GetLastRtPrice` performs.
 *
 * The HTTP requests are inputs: the IEX response text (`None` when the
 * request failed) and the Yahoo quotes (`None` when the query threw). A
 * float parse is the function `parse`. Times are UTC ticks.
 */
module MemDbRealtime {
  import opened Wrappers
  import opened MemDbModel
  import ClrText
  import IexScan
  import TradingHoursRule
  import opened PriceWrites

  const RtTimerFrequencyRegularMs: int := 3000
  const RtTimerFrequencyPrePostMs: int := 60000
  /** Five minutes in ticks: how recent the last price request must be for the timer to re-arm. */
  const RecentRequestTicks: int := 5 * 60 * 10_000_000

  /** A `uint` counter incremented in an unchecked context. */
  function Increment(n: UInt32): (r: UInt32)
    ensures n < 0xFFFF_FFFF ==> r == n + 1
    ensures n == 0xFFFF_FFFF ==> r == 0
  {
    (n + 1) % 0x1_0000_0000
  }

  /** Every SecID in `secIds` names a security; otherwise the request URL cannot be built. */
  predicate AllResolve(secs: seq<Security>, secIds: seq<UInt32>)
  {
    forall k :: 0 <= k < |secIds| ==> IndexOfSecId(secs, secIds[k]) >= 0
  }

  function Lookup(secs: seq<Security>, id: UInt32): Security
    requires IndexOfSecId(secs, id) >= 0
  {
    secs[IndexOfSecId(secs, id)]
  }

  /**
   * The security a response record for `ticker` updates: the first of `secIds`,
   * in order, whose security has that ticker.
   */
  function TargetOf(secs: seq<Security>, secIds: seq<UInt32>, ticker: string): (r: Option<Security>)
    requires AllResolve(secs, secIds)
    ensures r.Some? ==> r.value in secs && r.value.ticker == ticker
  {
    if secIds == [] then None
    else
      var s := Lookup(secs, secIds[0]);
      if s.ticker == ticker then Some(s)
      else TargetOf(secs, secIds[1..], ticker)
  }

  /**
   * `TargetOf` finds the first of `secIds` whose security has the ticker, and
   * finds nothing exactly when none of them has it.
   */
  lemma {:induction false} TargetOfMeaning(secs: seq<Security>, secIds: seq<UInt32>, ticker: string)
    requires AllResolve(secs, secIds)
    ensures TargetOf(secs, secIds, ticker).Some? ==> exists k :: (0 <= k < |secIds|
      && TargetOf(secs, secIds, ticker).value == Lookup(secs, secIds[k])
      && forall j :: 0 <= j < k ==> Lookup(secs, secIds[j]).ticker != ticker)
    ensures TargetOf(secs, secIds, ticker).None? <==> forall k :: 0 <= k < |secIds| ==> Lookup(secs, secIds[k]).ticker != ticker
  {
    if secIds != [] && Lookup(secs, secIds[0]).ticker != ticker {
      var rest := secIds[1..];
      assert AllResolve(secs, rest) by {
        forall k | 0 <= k < |rest| ensures IndexOfSecId(secs, rest[k]) >= 0 {
          assert rest[k] == secIds[k + 1];
        }
      }
      TargetOfMeaning(secs, rest, ticker);
      var r := TargetOf(secs, rest, ticker);
      if r.Some? {
        var k :| 0 <= k < |rest| && r.value == Lookup(secs, rest[k])
          && forall j :: 0 <= j < k ==> Lookup(secs, rest[j]).ticker != ticker;
        assert rest[k] == secIds[k + 1];
        forall j | 0 <= j < k + 1
          ensures Lookup(secs, secIds[j]).ticker != ticker
        {
          if j > 0 {
            assert secIds[j] == rest[j - 1];
          }
        }
      } else {
        forall k | 0 <= k < |secIds|
          ensures Lookup(secs, secIds[k]).ticker != ticker
        {
          if k > 0 {
            assert secIds[k] == rest[k - 1];
          }
        }
      }
    }
  }

  /** The price writes of the IEX extraction: one per record whose ticker has a target. */
  function IexWrites(secs: seq<Security>, secIds: seq<UInt32>, quotes: seq<IexScan.Quote>, parse: string -> real): (r: seq<Write<Security>>)
    requires AllResolve(secs, secIds)
    ensures |r| <= |quotes|
    ensures forall k :: 0 <= k < |r| ==> r[k].target in secs
  {
    if quotes == [] then []
    else
      var q := quotes[|quotes| - 1];
      IexWrites(secs, secIds, quotes[..|quotes| - 1], parse)
      + match TargetOf(secs, secIds, q.ticker)
        case None => []
        case Some(s) => [Write(s, parse(q.value))]
  }

  /** Only records for tickers among `secIds` write a price. */
  lemma {:induction false} IexWritesMatchTickers(secs: seq<Security>, secIds: seq<UInt32>, quotes: seq<IexScan.Quote>, parse: string -> real)
    requires AllResolve(secs, secIds)
    ensures forall a :: a in IexWrites(secs, secIds, quotes, parse) ==>
      exists q :: q in quotes && TargetOf(secs, secIds, q.ticker) == Some(a.target) && a.value == parse(q.value)
  {
    if quotes != [] {
      var prefix := quotes[..|quotes| - 1];
      IexWritesMatchTickers(secs, secIds, prefix, parse);
      forall a | a in IexWrites(secs, secIds, quotes, parse)
        ensures exists q :: q in quotes && TargetOf(secs, secIds, q.ticker) == Some(a.target) && a.value == parse(q.value)
      {
        if a in IexWrites(secs, secIds, prefix, parse) {
          var q :| q in prefix && TargetOf(secs, secIds, q.ticker) == Some(a.target) && a.value == parse(q.value);
          assert q in quotes;
        } else {
          assert quotes[|quotes| - 1] in quotes;
        }
      }
    }
  }

  /** The lookup loop over `secIds`; `GetSecurity` cannot throw once every SecID resolves. */
  method FindAmong(db: MemDb, secIds: seq<UInt32>, ticker: string) returns (sec: Option<Security>)
    requires AllResolve(db.securities, secIds)
    ensures sec == TargetOf(db.securities, secIds, ticker)
  {
    var i := 0;
    while i < |secIds|
      invariant 0 <= i <= |secIds|
      invariant TargetOf(db.securities, secIds, ticker) == TargetOf(db.securities, secIds[i..], ticker)
    {
      var r := db.GetSecurity(secIds[i]);
      assert r.Ok?;
      assert secIds[i..][0] == secIds[i] && secIds[i..][1..] == secIds[i + 1..];
      if r.value.ticker == ticker {
        return Some(r.value);
      }
      i := i + 1;
    }
    return None;
  }

  /** The SecIDs' tickers, as the request URL lists them; an exception when one is missing. */
  method ResolveTickers(db: MemDb, secIds: seq<UInt32>) returns (r: Result<seq<string>, MemDbError>)
    ensures r.Ok? <==> AllResolve(db.securities, secIds)
    ensures r.Ok? ==> |r.value| == |secIds| && forall k :: 0 <= k < |secIds| ==> r.value[k] == Lookup(db.securities, secIds[k]).ticker
  {
    var tickers: seq<string> := [];
    for i := 0 to |secIds|
      invariant |tickers| == i
      invariant forall k :: 0 <= k < i ==> IndexOfSecId(db.securities, secIds[k]) >= 0
      invariant forall k :: 0 <= k < i ==> tickers[k] == Lookup(db.securities, secIds[k]).ticker
    {
      var s := db.GetSecurity(secIds[i]);
      if s.Err? {
        return Err(s.error);
      }
      tickers := tickers + [s.value.ticker];
    }
    return Ok(tickers);
  }

  /** One more IEX record changes at most the price of its ticker's target. */
  lemma IexWritesStep(secs: seq<Security>, secIds: seq<UInt32>, done: seq<IexScan.Quote>, q: IexScan.Quote,
                           parse: string -> real, s: Security, initial: real)
    requires AllResolve(secs, secIds)
    ensures LastWritten(IexWrites(secs, secIds, done + [q], parse), s, initial)
      == if TargetOf(secs, secIds, q.ticker) == Some(s) then parse(q.value)
         else LastWritten(IexWrites(secs, secIds, done, parse), s, initial)
  {
    var all := done + [q];
    assert all[..|all| - 1] == done && all[|all| - 1] == q;
    var extra := match TargetOf(secs, secIds, q.ticker)
      case None => []
      case Some(t) => [Write(t, parse(q.value))];
    assert IexWrites(secs, secIds, all, parse) == IexWrites(secs, secIds, done, parse) + extra;
    LastWrittenAppend(IexWrites(secs, secIds, done, parse), extra, s, initial);
  }

  /** The body of the extraction loop after a record is read: the price write for that record. */
  method WriteIexPrice(db: MemDb, secIds: seq<UInt32>, quote: IexScan.Quote, attr: string, parse: string -> real)
    requires AllResolve(db.securities, secIds)
    modifies set s | s in db.securities
    ensures forall s :: s in db.securities ==> s.lastPriceYF == old(s.lastPriceYF)
    ensures forall s :: s in db.securities ==>
      s.lastPriceIex == (if attr == "lastSalePrice" && TargetOf(db.securities, secIds, quote.ticker) == Some(s)
        then parse(quote.value) else old(s.lastPriceIex))
  {
    var sec := FindAmong(db, secIds, quote.ticker);
    if sec.Some? {
      var attribute := parse(quote.value);
      if attr == "lastSalePrice" {
        sec.value.lastPriceIex := attribute;
      }
    }
  }

  /**
   * Scans the IEX response and writes the parsed value of every "lastSalePrice"
   * record into the first matching security's IEX price; "previousClose"
   * records are read but change nothing.
   */
  method ExtractAttributeIex(db: MemDb, responseText: string, attr: string, secIds: seq<UInt32>, parse: string -> real)
    requires AllResolve(db.securities, secIds)
    modifies set s | s in db.securities
    ensures forall s :: s in db.securities ==>
      s.lastPriceIex == (if attr == "lastSalePrice"
        then LastWritten(IexWrites(db.securities, secIds, IexScan.Quotes(responseText, attr, 0), parse), s, old(s.lastPriceIex))
        else old(s.lastPriceIex))
    ensures forall s :: s in db.securities ==> s.lastPriceYF == old(s.lastPriceYF)
  {
    var iStr := 0;
    ghost var done: seq<IexScan.Quote> := [];
    while iStr < |responseText|
      invariant 0 <= iStr <= |responseText|
      invariant IexScan.Quotes(responseText, attr, 0) == done + IexScan.Quotes(responseText, attr, iStr)
      invariant forall s :: s in db.securities ==> s.lastPriceYF == old(s.lastPriceYF)
      invariant forall s :: s in db.securities ==>
        s.lastPriceIex == (if attr == "lastSalePrice"
          then LastWritten(IexWrites(db.securities, secIds, done, parse), s, old(s.lastPriceIex))
          else old(s.lastPriceIex))
      decreases |responseText| - iStr
    {
      var step := IexScan.NextQuote(responseText, attr, iStr);
      if step.None? {
        IexScan.ScanStops(responseText, attr, iStr);
        break;
      }
      var (quote, next) := step.value;
      IexScan.ScanAdvances(responseText, attr, iStr, quote, next, done);
      label BeforeWrite:
      WriteIexPrice(db, secIds, quote, attr, parse);
      forall s | s in db.securities
        ensures s.lastPriceIex == (if attr == "lastSalePrice"
          then LastWritten(IexWrites(db.securities, secIds, done + [quote], parse), s, old(s.lastPriceIex))
          else old(s.lastPriceIex))
      {
        IexWritesStep(db.securities, secIds, done, quote, parse, s, old(s.lastPriceIex));
      }
      done := done + [quote];
      iStr := next;
    }
    assert IexScan.Quotes(responseText, attr, 0) == done;
  }

  /** The Yahoo field read for the last price: the pre-market price in pre-market, else the post-market price. */
  function YahooField(hours: TradingHoursRule.TradingHours): (field: string)
    ensures hours == TradingHoursRule.PreMarket ==> field == "PreMarketPrice"
    ensures hours != TradingHoursRule.PreMarket ==> field == "PostMarketPrice"
  {
    if hours == TradingHoursRule.PreMarket then "PreMarketPrice" else "PostMarketPrice"
  }

  /** A Yahoo quote: its symbol, the optional fields it carries, and the regular-market price. */
  datatype YahooQuote = YahooQuote(symbol: string, fields: map<string, real>, regularMarketPrice: real)

  /** The chosen field's value, or the regular-market price when the quote lacks that field. */
  function YahooPrice(q: YahooQuote, hours: TradingHoursRule.TradingHours): (price: real)
    ensures YahooField(hours) in q.fields ==> price == q.fields[YahooField(hours)]
    ensures YahooField(hours) !in q.fields ==> price == q.regularMarketPrice
  {
    var fieldStr := YahooField(hours);
    if fieldStr in q.fields then q.fields[fieldStr] else q.regularMarketPrice
  }

  function YahooWrites(secs: seq<Security>, secIds: seq<UInt32>, quotes: seq<YahooQuote>, hours: TradingHoursRule.TradingHours): (r: seq<Write<Security>>)
    requires AllResolve(secs, secIds)
    ensures |r| <= |quotes|
  {
    if quotes == [] then []
    else
      var q := quotes[|quotes| - 1];
      YahooWrites(secs, secIds, quotes[..|quotes| - 1], hours)
      + match TargetOf(secs, secIds, q.symbol)
        case None => []
        case Some(s) => [Write(s, YahooPrice(q, hours))]
  }

  /** One more Yahoo quote changes at most the price of its symbol's target. */
  lemma YahooWritesStep(secs: seq<Security>, secIds: seq<UInt32>, done: seq<YahooQuote>, q: YahooQuote,
                             hours: TradingHoursRule.TradingHours, s: Security, initial: real)
    requires AllResolve(secs, secIds)
    ensures LastWritten(YahooWrites(secs, secIds, done + [q], hours), s, initial)
      == if TargetOf(secs, secIds, q.symbol) == Some(s) then YahooPrice(q, hours)
         else LastWritten(YahooWrites(secs, secIds, done, hours), s, initial)
  {
    var all := done + [q];
    assert all[..|all| - 1] == done && all[|all| - 1] == q;
    var extra := match TargetOf(secs, secIds, q.symbol)
      case None => []
      case Some(t) => [Write(t, YahooPrice(q, hours))];
    assert YahooWrites(secs, secIds, all, hours) == YahooWrites(secs, secIds, done, hours) + extra;
    LastWrittenAppend(YahooWrites(secs, secIds, done, hours), extra, s, initial);
  }

  /** The body of the Yahoo loop: the price write for one quote. */
  method WriteYahooPrice(db: MemDb, secIds: seq<UInt32>, quote: YahooQuote, hours: TradingHoursRule.TradingHours)
    requires AllResolve(db.securities, secIds)
    modifies set s | s in db.securities
    ensures forall s :: s in db.securities ==> s.lastPriceIex == old(s.lastPriceIex)
    ensures forall s :: s in db.securities ==>
      s.lastPriceYF == (if TargetOf(db.securities, secIds, quote.symbol) == Some(s) then YahooPrice(quote, hours) else old(s.lastPriceYF))
  {
    var sec := FindAmong(db, secIds, quote.symbol);
    if sec.Some? {
      sec.value.lastPriceYF := YahooPrice(quote, hours);
    }
  }

  /** Writes each returned quote's price into the first matching security's Yahoo price. */
  method WriteYahooPrices(db: MemDb, secIds: seq<UInt32>, quotes: seq<YahooQuote>, hours: TradingHoursRule.TradingHours)
    requires AllResolve(db.securities, secIds)
    modifies set s | s in db.securities
    ensures forall s :: s in db.securities ==>
      s.lastPriceYF == LastWritten(YahooWrites(db.securities, secIds, quotes, hours), s, old(s.lastPriceYF))
    ensures forall s :: s in db.securities ==> s.lastPriceIex == old(s.lastPriceIex)
  {
    for i := 0 to |quotes|
      invariant forall s :: s in db.securities ==>
        s.lastPriceYF == LastWritten(YahooWrites(db.securities, secIds, quotes[..i], hours), s, old(s.lastPriceYF))
      invariant forall s :: s in db.securities ==> s.lastPriceIex == old(s.lastPriceIex)
    {
      var quote := quotes[i];
      assert quotes[..i + 1] == quotes[..i] + [quote];
      WriteYahooPrice(db, secIds, quote, hours);
      forall s | s in db.securities
        ensures s.lastPriceYF == LastWritten(YahooWrites(db.securities, secIds, quotes[..i + 1], hours), s, old(s.lastPriceYF))
      {
        YahooWritesStep(db.securities, secIds, quotes[..i], quote, hours, s, old(s.lastPriceYF));
      }
    }
    assert quotes[..|quotes|] == quotes;
  }

  /** The Yahoo download: counts the attempt; a missing SecID or a failed query changes no price. */
  method DownloadLastPriceYF(db: MemDb, secIds: seq<UInt32>, quotes: Option<seq<YahooQuote>>, hours: TradingHoursRule.TradingHours)
    modifies db, set s | s in db.securities
    ensures db.nYfDownload == Increment(old(db.nYfDownload))
    ensures db.nIexDownload == old(db.nIexDownload) && db.rtTimerRunning == old(db.rtTimerRunning)
    ensures db.rtTimerDueMs == old(db.rtTimerDueMs) && db.lastDownloadLastPrice == old(db.lastDownloadLastPrice)
    ensures db.lastGetLastRtCall == old(db.lastGetLastRtCall) && db.rtSecIds == old(db.rtSecIds)
    ensures AllResolve(db.securities, secIds) && quotes.Some? ==> forall s :: s in db.securities ==>
      s.lastPriceYF == LastWritten(YahooWrites(db.securities, secIds, quotes.value, hours), s, old(s.lastPriceYF))
    ensures !AllResolve(db.securities, secIds) || quotes.None? ==> forall s :: s in db.securities ==> s.lastPriceYF == old(s.lastPriceYF)
    ensures forall s :: s in db.securities ==> s.lastPriceIex == old(s.lastPriceIex)
  {
    db.nYfDownload := Increment(db.nYfDownload);
    var symbols := ResolveTickers(db, secIds);
    if symbols.Err? || quotes.None? {
      return;
    }
    WriteYahooPrices(db, secIds, quotes.value, hours);
  }

  /** The IEX download: counts the attempt; a missing SecID or a failed request changes no price. */
  method DownloadLastPriceIex(db: MemDb, secIds: seq<UInt32>, responseText: Option<string>, parse: string -> real)
    modifies db, set s | s in db.securities
    ensures db.nIexDownload == Increment(old(db.nIexDownload))
    ensures db.nYfDownload == old(db.nYfDownload) && db.rtTimerRunning == old(db.rtTimerRunning)
    ensures db.rtTimerDueMs == old(db.rtTimerDueMs) && db.lastDownloadLastPrice == old(db.lastDownloadLastPrice)
    ensures db.lastGetLastRtCall == old(db.lastGetLastRtCall) && db.rtSecIds == old(db.rtSecIds)
    ensures AllResolve(db.securities, secIds) && responseText.Some? ==> forall s :: s in db.securities ==>
      s.lastPriceIex == LastWritten(IexWrites(db.securities, secIds, IexScan.Quotes(responseText.value, "lastSalePrice", 0), parse), s, old(s.lastPriceIex))
    ensures !AllResolve(db.securities, secIds) || responseText.None? ==> forall s :: s in db.securities ==> s.lastPriceIex == old(s.lastPriceIex)
    ensures forall s :: s in db.securities ==> s.lastPriceYF == old(s.lastPriceYF)
  {
    db.nIexDownload := Increment(db.nIexDownload);
    var tickers := ResolveTickers(db, secIds);
    if tickers.Err? || responseText.None? {
      return;
    }
    ExtractAttributeIex(db, responseText.value, "lastSalePrice", secIds, parse);
  }

  /** The delay the timer is re-armed with: 3 s in regular trading, 60 s otherwise. */
  function RescheduleMs(hours: TradingHoursRule.TradingHours): (ms: int)
    ensures hours == TradingHoursRule.RegularTrading ==> ms == 3000
    ensures hours != TradingHoursRule.RegularTrading ==> ms == 60000
  {
    if hours == TradingHoursRule.RegularTrading then RtTimerFrequencyRegularMs else RtTimerFrequencyPrePostMs
  }

  /**
   * The timer callback: when running, stamps the download time, downloads from
   * IEX in regular trading and from Yahoo otherwise, then re-arms the timer if
   * a price was requested in the last five minutes and stops it otherwise.
   */
  method RtTimerElapsed(db: MemDb, hours: TradingHoursRule.TradingHours, nowAtDownload: int, nowAtReschedule: int,
                        iexResponse: Option<string>, yahooQuotes: Option<seq<YahooQuote>>, parse: string -> real)
    modifies db, set s | s in db.securities
    ensures !old(db.rtTimerRunning) ==> unchanged(db) && forall s :: s in db.securities ==> unchanged(s)
    ensures old(db.rtTimerRunning) ==> db.lastDownloadLastPrice == nowAtDownload
    ensures old(db.rtTimerRunning) && hours == TradingHoursRule.RegularTrading ==>
      db.nIexDownload == Increment(old(db.nIexDownload)) && db.nYfDownload == old(db.nYfDownload)
      && forall s :: s in db.securities ==> s.lastPriceYF == old(s.lastPriceYF)
    ensures old(db.rtTimerRunning) && hours != TradingHoursRule.RegularTrading ==>
      db.nYfDownload == Increment(old(db.nYfDownload)) && db.nIexDownload == old(db.nIexDownload)
      && forall s :: s in db.securities ==> s.lastPriceIex == old(s.lastPriceIex)
    ensures old(db.rtTimerRunning) && hours == TradingHoursRule.RegularTrading && AllResolve(db.securities, db.rtSecIds) && iexResponse.Some? ==>
      forall s :: s in db.securities ==>
        s.lastPriceIex == LastWritten(IexWrites(db.securities, db.rtSecIds, IexScan.Quotes(iexResponse.value, "lastSalePrice", 0), parse), s, old(s.lastPriceIex))
    ensures old(db.rtTimerRunning) && hours != TradingHoursRule.RegularTrading && AllResolve(db.securities, db.rtSecIds) && yahooQuotes.Some? ==>
      forall s :: s in db.securities ==>
        s.lastPriceYF == LastWritten(YahooWrites(db.securities, db.rtSecIds, yahooQuotes.value, hours), s, old(s.lastPriceYF))
    ensures old(db.rtTimerRunning) && (!AllResolve(db.securities, db.rtSecIds) || (if hours == TradingHoursRule.RegularTrading then iexResponse.None? else yahooQuotes.None?)) ==>
      forall s :: s in db.securities ==> s.lastPriceIex == old(s.lastPriceIex) && s.lastPriceYF == old(s.lastPriceYF)
    ensures old(db.rtTimerRunning) && nowAtReschedule - old(db.lastGetLastRtCall) <= RecentRequestTicks ==>
      db.rtTimerRunning && db.rtTimerDueMs == RescheduleMs(hours)
    ensures old(db.rtTimerRunning) && nowAtReschedule - old(db.lastGetLastRtCall) > RecentRequestTicks ==>
      !db.rtTimerRunning && db.rtTimerDueMs == old(db.rtTimerDueMs)
    ensures db.lastGetLastRtCall == old(db.lastGetLastRtCall) && db.rtSecIds == old(db.rtSecIds)
  {
    if !db.rtTimerRunning {
      return;
    }
    db.lastDownloadLastPrice := nowAtDownload;
    if hours == TradingHoursRule.RegularTrading {
      DownloadLastPriceIex(db, db.rtSecIds, iexResponse, parse);
    } else {
      DownloadLastPriceYF(db, db.rtSecIds, yahooQuotes, hours);
    }
    if db.rtTimerRunning {
      var tsSinceLastRtCall := nowAtReschedule - db.lastGetLastRtCall;
      if tsSinceLastRtCall <= RecentRequestTicks {
        db.rtTimerDueMs := RescheduleMs(hours);
      } else {
        db.rtTimerRunning := false;
      }
    }
  }

  /** The price a request reads: the IEX price in regular trading, the Yahoo price otherwise. */
  function RtPrice(s: Security, hours: TradingHoursRule.TradingHours): real
    reads s
  {
    if hours == TradingHoursRule.RegularTrading then s.lastPriceIex else s.lastPriceYF
  }

  /** The (SecID, price) pairs `GetLastRtPrice` returns, in request order; an exception for a missing SecID. */
  method RtPrices(db: MemDb, secIds: seq<UInt32>, hours: TradingHoursRule.TradingHours) returns (r: Result<seq<(UInt32, real)>, MemDbError>)
    ensures r.Ok? <==> AllResolve(db.securities, secIds)
    ensures r.Ok? ==> |r.value| == |secIds| && forall k :: 0 <= k < |secIds| ==>
      r.value[k] == (secIds[k], RtPrice(Lookup(db.securities, secIds[k]), hours))
  {
    var prices: seq<(UInt32, real)> := [];
    for i := 0 to |secIds|
      invariant |prices| == i
      invariant forall k :: 0 <= k < i ==> IndexOfSecId(db.securities, secIds[k]) >= 0
      invariant forall k :: 0 <= k < i ==> prices[k] == (secIds[k], RtPrice(Lookup(db.securities, secIds[k]), hours))
    {
      var sec := db.GetSecurity(secIds[i]);
      if sec.Err? {
        return Err(sec.error);
      }
      var price := if hours == TradingHoursRule.RegularTrading then sec.value.lastPriceIex else sec.value.lastPriceYF;
      prices := prices + [(sec.value.secId, price)];
    }
    return Ok(prices);
  }

  /**
   * A price request: stamps the request time, starts the timer at once with
   * these SecIDs when it is not running, and reads the prices.
   */
  method GetLastRtPrice(db: MemDb, secIds: seq<UInt32>, hours: TradingHoursRule.TradingHours, now: int)
    returns (r: Result<seq<(UInt32, real)>, MemDbError>)
    modifies db
    ensures db.lastGetLastRtCall == now && db.rtTimerRunning
    ensures !old(db.rtTimerRunning) ==> db.rtSecIds == secIds && db.rtTimerDueMs == 0
    ensures old(db.rtTimerRunning) ==> db.rtSecIds == old(db.rtSecIds) && db.rtTimerDueMs == old(db.rtTimerDueMs)
    ensures db.lastDownloadLastPrice == old(db.lastDownloadLastPrice)
    ensures db.nIexDownload == old(db.nIexDownload) && db.nYfDownload == old(db.nYfDownload)
    ensures r.Ok? <==> AllResolve(db.securities, secIds)
    ensures r.Ok? ==> |r.value| == |secIds| && forall k :: 0 <= k < |secIds| ==>
      r.value[k] == (secIds[k], RtPrice(Lookup(db.securities, secIds[k]), hours))
  {
    db.lastGetLastRtCall := now;
    if !db.rtTimerRunning {
      db.rtSecIds := secIds;
      db.rtTimerRunning := true;
      db.rtTimerDueMs := 0;
    }
    r := RtPrices(db, secIds, hours);
  }
}
