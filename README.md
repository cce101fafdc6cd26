# SqCore core logic in Dafny

This project models the decision logic, data structures and scripts at the core of
SqCore, a market-data web server with a dashboard front end, and proves what that code
promises. Each module follows one source file:

- `TimeSeries`: the array-backed sorted time series `FinTimeSeries`. It has one key
  array and one value buffer per tick type. It covers binary-search insertion with
  duplicate rejection, the shifting inserts and removals, capacity growth and shrinking,
  and exact and at-or-before lookup.
- `DateUtils`: the 16-bit `DateOnly` day count (saturating `+`, `BinaryValue`,
  `IsWeekend`, `WeekdayIndex` and its inverse, the `int` constructor), `Round` on ticks,
  the Easter computus and `DateTimeAsInt.CanBeRepresentedExactly`. `StringUtils` covers
  the string helpers and `TradingHoursRule` the ET trading-session classification.
- `MemDbModel`: security lookup, history-span parsing and the reload schedule.
- `MemDbRealtime`, `IexScan` and `PriceWrites`: the IEX response scanner, the Yahoo
  field choice and the real-time timer.
- `MktSummaryHub` and `HubTimer`: the market-summary hub. `MktHealthHub`: the
  market-health period statistics.
- `YahooForwarder`: the Yahoo Finance forwarder's parameter checks, column tokenizer
  and row writer.
- `HealthMonitor`, with `BinaryIo` and `Utf8` underneath: the HealthMonitor message's
  binary round trip and the send throttle.
- `StrongAssert` and `ColorConsole`: the assertion guards and the console colour codes.
- `FirewallPreAuth`, `FirewallPostAuth`, `SubdomainRewrite`, `WsUtils` and `Startup`:
  the ASP.NET middleware decisions, the client-IP and user helpers, and the static-file
  rewrite and cache rules.
- `QuickfolioNews`: news de-duplication and ordering.
- `JsLogger`: the browser logger's routing. `EtTime`: the browser's UTC to New York time
  heuristic.
- `RemoteFs`, `DeployWalk`, `WebDeploy` and `BenchmarkDeploy`: the two deploy scripts,
  running against an in-memory SFTP server tree.
- `DebugTask`: the pre- and post-debug scripts that start a `tsc --watch` and later kill
  it.

The .NET and Python primitives the code relies on are defined once. `Clr` covers int32
and int64 wrap-around and truncating division. `ClrText` covers `IndexOf`, `TryParse`
and `TryParseExact`. Source objects whose fields are updated in place are classes with
`modifies` frames, for example the time series, the hub states, the request log, the
news memory, the logger, the SFTP session and the binary writer and reader. Pure rules
are functions with lemmas relating them.

Clocks, the network, the file system on the local machine, configuration and
randomness are parameters. A download is a value passed in, and its failure is `None`
or an error case.

## Model

| member | source | states |
|---|---|---|
| Clr.Wrap32 | src/Common/FinTechCommon/Model/MemDb.cs:142 | an unchecked int32 result agrees with the exact one modulo 2^32 and equals it when it fits |
| Clr.TruncDiv | src/Common/SqCommon/Utils/Utils_datetime.cs:230 | C# division truncates toward zero: the remainder is smaller than the divisor and has the sign of the dividend |
| ClrText.IndexOf | src/Common/FinTechCommon/Model/MemDbRt.cs:231-245 | IndexOf returns the first occurrence at or after the start, or -1 when there is none |
| ClrText.IndexOfFindsFirst | src/Common/FinTechCommon/Model/MemDbRt.cs:231-245 | any occurrence bounds what IndexOf finds |
| ClrText.TryParseIsoDate | src/Common/FinTechCommon/Model/MemDb.cs:137 | an accepted "yyyy-MM-dd" text has ten characters with hyphens at 4 and 7 and names a valid day |
| ClrText.TryParseInt32OfDigits | src/Common/FinTechCommon/Model/MemDb.cs:140 | a run of digits that fits in int32 parses to its value |
| ClrText.IntToStringParses | src/Common/SqCommon/Utils/StrongAssert.cs:97 | the number printed for an integer parses back to it |
| StringUtils.IsDigit | src/Common/SqCommon/Utils/Utils_string.cs:10-13 | true exactly for '0'..'9', although the test is an int32 subtraction reinterpreted as unsigned |
| StringUtils.TruncateLongString | src/Common/SqCommon/Utils/Utils_string.cs:15-22 | null, empty or short text comes back unchanged; a longer text with a limit below 3 throws ArgumentOutOfRange; otherwise the first `max - 3` characters followed by "..." |
| StringUtils.Split | src/Common/SqCommon/Utils/Utils_string.cs:24-27 | `Split` with RemoveEmptyEntries yields only nonempty pieces free of the separator |
| StringUtils.SplitKeepsText | src/Common/SqCommon/Utils/Utils_string.cs:24-27 | the pieces, concatenated, are the input with every separator removed: nothing else is lost |
| StringUtils.SplitRoundTrip | src/Common/SqCommon/Utils/Utils_string.cs:24-27 | with no empty entries to drop, joining the pieces with the separator gives back the input |
| StringUtils.JoinSplitRoundTrip | src/Common/SqCommon/Utils/Utils_string.cs:24-27 | splitting what was joined gives back the pieces when none is empty or holds the separator |
| StringUtils.ShortenString | src/Common/SqCommon/Utils/Utils_string.cs:34-40 | text within the limit is unchanged; a longer one is the first `max` characters plus "..." (length `max + 3`); a negative limit throws |
| StringUtils.ShortenException | src/Common/SqCommon/Utils/Utils_string.cs:41-48 | a null exception reads as the empty text; otherwise the same as the string overload |
| StringUtils.FormatInvCult | src/Common/SqCommon/Utils/Utils_string.cs:50-55 | formats exactly when the format and a nonempty argument array are given; otherwise returns the format, or "" for a null format |
| DateUtils.Saturate16 | src/Common/SqCommon/Utils/Utils_datetime.cs:441-445 | the unsigned-compare and sign-shift trick is exactly clamping to 0..65535 |
| DateUtils.Add | src/Common/SqCommon/Utils/Utils_datetime.cs:547-553 | the intended saturating addition: the exact sum inside 0..65535, NO_DATE below, MaxValue above |
| DateUtils.AddAsWrittenSaturates | src/Common/SqCommon/Utils/Utils_datetime.cs:547-551 | the operator as written equals the saturating sum wherever the int32 sum does not overflow |
| DateUtils.AddAsWrittenWraps | src/Common/SqCommon/Utils/Utils_datetime.cs:549-550 | MaxValue + int.MaxValue wraps in int32 and yields NO_DATE instead of MaxValue |
| DateUtils.AddStopsAtTheEnds | src/Common/SqCommon/Utils/Utils_datetime.cs:550-553 | NO_DATE - 1 stays NO_DATE and MaxValue + 1 stays MaxValue, as the comment promises |
| DateUtils.AddMonotonic | src/Common/SqCommon/Utils/Utils_datetime.cs:547-551 | adding more days never gives an earlier date |
| DateUtils.AddAssociates | src/Common/SqCommon/Utils/Utils_datetime.cs:547-551 | two additions whose first stays in range equal one addition of the sum |
| DateUtils.BinaryValue | src/Common/SqCommon/Utils/Utils_datetime.cs:441-445 | instants before the first day give 0; later ones give the whole days since the epoch, clamped to 65535 |
| DateUtils.OfDate | src/Common/SqCommon/Utils/Utils_datetime.cs:418-421 | the DateOnly of a valid calendar date is what `BinaryValue` gives for the start of that day |
| DateUtils.DateTicks | src/Common/SqCommon/Utils/Utils_datetime.cs:447-449 | a nonzero day maps to the start of a day (a whole number of days after the epoch) |
| DateUtils.BinaryValueOfDate | src/Common/SqCommon/Utils/Utils_datetime.cs:441-449 | converting a DateOnly to a DateTime and back gives the same day count |
| DateUtils.BinaryValueDropsTimeOfDay | src/Common/SqCommon/Utils/Utils_datetime.cs:441-449 | within range, the date of an instant starts at or before it and less than a day earlier |
| DateUtils.DayOfWeek | src/Common/SqCommon/Utils/Utils_datetime.cs:457 | the day of week of a day count is in 0..6 |
| DateUtils.IsWeekendOnSaturdayAndSunday | src/Common/SqCommon/Utils/Utils_datetime.cs:457 | `(m_days + 1) % 7 < 2` holds exactly on Saturdays and Sundays |
| DateUtils.WeekdayIndex | src/Common/SqCommon/Utils/Utils_datetime.cs:469-477 | the bit-trick index lies between 0 and the index of MaxValue |
| DateUtils.WeekdayIndexStep | src/Common/SqCommon/Utils/Utils_datetime.cs:469-477 | the next day's index is one higher after a weekday and unchanged after a weekend day |
| DateUtils.WeekdayIndexCountsWeekdays | src/Common/SqCommon/Utils/Utils_datetime.cs:466-477 | the index equals the number of weekdays from 1900-01-01 through the date |
| DateUtils.TargetDayFacts | src/Common/SqCommon/Utils/Utils_datetime.cs:494-496 | the first estimate lies at most two days after the weekday with index p, and two days after only on a weekend day |
| DateUtils.FromWeekdayIndex | src/Common/SqCommon/Utils/Utils_datetime.cs:490-503 | NO_DATE for p <= 0; for a reachable p, a weekday whose index is p; beyond MaxValue's index, an overflow error instead of the endless loop |
| DateUtils.EstimateAsWrittenInRange | src/Common/SqCommon/Utils/Utils_datetime.cs:494 | for every reachable index the int32 estimate as written equals the exact one |
| DateUtils.FromWeekdayIndexAsWrittenHangs | src/Common/SqCommon/Utils/Utils_datetime.cs:490-503 | for p = 613566757 the wrapped estimate is day 1, no date has index p, and MaxValue + 1 stays MaxValue: the loop never ends |
| DateUtils.FromInt | src/Common/SqCommon/Utils/Utils_datetime.cs:427-440 | 0..65535 verbatim; negatives and values above 20491231 as Unix time; yyyymmdd and yymmdd ranges as calendar dates; 65536..70100 and 991232..19000100 throw |
| DateUtils.FromIntCalendarDigits | src/Common/SqCommon/Utils/Utils_datetime.cs:433-437 | a calendar date read from an int gives the int back from its digits, with the 1900/2000 century split at 491231 |
| DateUtils.Round | src/Common/SqCommon/Utils/Utils_datetime.cs:225-231 | the intended rounding: an error exactly for a zero period |
| DateUtils.RoundIsNearest | src/Common/SqCommon/Utils/Utils_datetime.cs:225-231 | the intended rounding picks a multiple of p at most half a period away, and on a tie the one further from zero |
| DateUtils.RoundAsWrittenAgrees | src/Common/SqCommon/Utils/Utils_datetime.cs:225-231 | the code as written rounds to nearest for non-negative ticks or an even period |
| DateUtils.RoundAsWrittenMissesNearest | src/Common/SqCommon/Utils/Utils_datetime.cs:225-231 | Round(-1 tick, 3) as written gives -3 although 0 is nearer |
| DateUtils.EasterSunday | src/Common/SqCommon/Utils/Utils_datetime.cs:74-97 | years outside 1583..4099 throw; otherwise a date between 22 March and 25 April |
| DateUtils.EasterSundayIsSunday | src/Common/SqCommon/Utils/Utils_datetime.cs:74-97 | for every year from 1583 to 4099 the date is a valid day of March or April, falls on a Sunday, and is one of the seven days after the Paschal full moon, so the first Sunday after it |
| DateUtils.EasterSundayExample | src/Common/SqCommon/Utils/Utils_datetime.cs:74-97 | Easter Sunday 2024 comes out as 31 March |
| DateUtils.CanBeRepresentedExactly | src/Common/SqCommon/Utils/Utils_datetime.cs:615-631 | a code exists exactly for the first or last tick of a minute below MaxValueTicks, and the code decodes to the same tick count |
| DateUtils.CanBeRepresentedExactlyInverts | src/Common/SqCommon/Utils/Utils_datetime.cs:570-578 | every code in the encodable range decodes to a DateTime that encodes back to the same code |
| TradingHoursRule.UsaTradingHoursNow | src/Common/SqCommon/Utils/Utils_tradingHours.cs:16-31 | the session of an ET time of day is the session of its seconds since midnight |
| TradingHoursRule.SessionOfSeconds | src/Common/SqCommon/Utils/Utils_tradingHours.cs:15-31 | Closed before 04:00 and from 20:00, PreMarket until 09:30, RegularTrading until 16:00, PostMarket until 20:00, as half-open ranges of seconds |
| TradingHoursRule.SessionsOnTheClock | src/Common/SqCommon/Utils/Utils_tradingHours.cs:15-31 | each session stated on hours and minutes: regular 09:30 to 16:00, pre-market 04:00 to 09:30, post-market 16:00 to 20:00, closed otherwise |
| TradingHoursRule.DetermineUsaMarketTradingHours | src/Common/SqCommon/Utils/Utils_tradingHours.cs:10-13 | every call fails with NotImplemented |
| HubTimer.TimerFlag.constructor | src/WebServer/SqCoreWeb/projects/MarketDashboard/src/app/DashboardPushHub_mktHealth.cs:23-27 | the timer starts disabled with the flag cleared |
| HubTimer.TimerFlag.OnConnected | src/WebServer/SqCoreWeb/projects/MarketDashboard/src/app/DashboardPushHub_mktHealth.cs:41-48 | a connecting client starts a stopped timer at once (due 0) and leaves a running one alone; the flag is then set |
| HubTimer.TimerFlag.OnDisconnected | src/WebServer/SqCoreWeb/projects/MarketDashboard/src/app/DashboardPushHub_mktHealth.cs:53-63 | with no client left a running timer is disabled and the flag cleared; with clients left nothing changes |
| HubTimer.TimerFlag.Rearm | src/WebServer/SqCoreWeb/projects/MarketDashboard/src/app/DashboardPushHub_mktHealth.cs:90-96 | at the end of a callback a running timer is re-armed with the hub's frequency; a stopped one stays as it was |
| MktSummaryHub.MktSummaryStock.constructor | src/WebServer/SqCoreWeb/projects/MarketDashboard/src/app/DashboardPushHub_mktHealth.cs:14-19 | a stock starts with its ticker and -100.0 for the previous close and the last price |
| MktSummaryHub.FindIndex | src/WebServer/SqCoreWeb/projects/MarketDashboard/src/app/DashboardPushHub_mktHealth.cs:157 | `List.Find` by ticker: the first stock with the ticker, or -1 exactly when none has it |
| MktSummaryHub.StockWrites | src/WebServer/SqCoreWeb/projects/MarketDashboard/src/app/DashboardPushHub_mktHealth.cs:139-173 | a scan makes at most one write per record, each into a stock of the list |
| MktSummaryHub.StockWritesStep | src/WebServer/SqCoreWeb/projects/MarketDashboard/src/app/DashboardPushHub_mktHealth.cs:157-171 | one more record changes at most the value of the first stock with its ticker |
| MktSummaryHub.UnnamedStockUntouched | src/WebServer/SqCoreWeb/projects/MarketDashboard/src/app/DashboardPushHub_mktHealth.cs:157-171 | a stock whose ticker no record names keeps its value |
| MktSummaryHub.WriteStock | src/WebServer/SqCoreWeb/projects/MarketDashboard/src/app/DashboardPushHub_mktHealth.cs:157-171 | the loop body after a record is read writes the parsed value into the first stock with the ticker and nothing else |
| MktSummaryHub.ExtractAttribute | src/WebServer/SqCoreWeb/projects/MarketDashboard/src/app/DashboardPushHub_mktHealth.cs:136-174 | after the scan each stock holds the value of the last record naming it (previous close or last price by attribute), others keep theirs |
| MktSummaryHub.MorningCutoff | src/WebServer/SqCoreWeb/projects/MarketDashboard/src/app/DashboardPushHub_mktHealth.cs:77 | 08:00 UTC on the day of `now`: midnight plus 8 hours, at most 8 hours after and less than 16 hours before `now` |
| MktSummaryHub.NoRepeatAfterMorningCheck | src/WebServer/SqCoreWeb/projects/MarketDashboard/src/app/DashboardPushHub_mktHealth.cs:77-84 | once past 08:00, a check made after that 08:00 is not repeated within the day |
| MktSummaryHub.RefreshOncePastCutoff | src/WebServer/SqCoreWeb/projects/MarketDashboard/src/app/DashboardPushHub_mktHealth.cs:77-84 | a check made before this morning's 08:00 is repeated once 08:00 has passed |
| MktSummaryHub.FirstTickDownloads | src/WebServer/SqCoreWeb/projects/MarketDashboard/src/app/DashboardPushHub_mktHealth.cs:80 | the initial check time DateTime.MinValue makes the first tick download the previous close |
| MktSummaryHub.CheckHoldsUntilNextCutoff | src/WebServer/SqCoreWeb/projects/MarketDashboard/src/app/DashboardPushHub_mktHealth.cs:77-84 | a check made after a morning's 08:00 holds until the next day's 08:00: at most one download per morning |
| MktSummaryHub.MktSummaryHubState.constructor | src/WebServer/SqCoreWeb/projects/MarketDashboard/src/app/DashboardPushHub_mktHealth.cs:23-37 | the seven tickers in order with -100.0 values, no check yet, a stopped timer |
| MktSummaryHub.MktSummaryHubState.OnConnected | src/WebServer/SqCoreWeb/projects/MarketDashboard/src/app/DashboardPushHub_mktHealth.cs:39-49 | a connecting client starts a stopped timer at once; a running one is left alone |
| MktSummaryHub.MktSummaryHubState.OnDisconnected | src/WebServer/SqCoreWeb/projects/MarketDashboard/src/app/DashboardPushHub_mktHealth.cs:51-64 | the last client leaving disables a running timer and clears the flag; otherwise nothing changes |
| MktSummaryHub.MktSummaryHubState.DownloadPreviousClose | src/WebServer/SqCoreWeb/projects/MarketDashboard/src/app/DashboardPushHub_mktHealth.cs:105-121 | with a token and a response the previous closes are extracted; without either nothing changes |
| MktSummaryHub.MktSummaryHubState.DownloadLastPrice | src/WebServer/SqCoreWeb/projects/MarketDashboard/src/app/DashboardPushHub_mktHealth.cs:123-134 | with a response the last prices are extracted; without one nothing changes |
| MktSummaryHub.MktSummaryHubState.TimerElapsed | src/WebServer/SqCoreWeb/projects/MarketDashboard/src/app/DashboardPushHub_mktHealth.cs:66-103 | a stopped timer changes nothing; a running one refreshes the previous closes when due (stamping the check with the clock read after the download), then the last prices, then re-arms |
| IexScan.FindMarks | src/Common/FinTechCommon/Model/MemDbRt.cs:231-245 | the four markers one pass finds: the ticker runs up to the first closing quote after `symbol":"`, the value up to the first `,"` after the attribute marker, inside the text |
| IexScan.FindMarksAt | src/Common/FinTechCommon/Model/MemDbRt.cs:231-245 | where the four `IndexOf` calls succeed, the marks are exactly the positions they return, each past its marker |
| IexScan.ScanStep | src/Common/FinTechCommon/Model/MemDbRt.cs:231-246 | one pass reads a ticker free of quotes and a value free of `,"`, and moves on to the position of the `,"` that ended the value |
| IexScan.TickerHasNoQuote | src/Common/FinTechCommon/Model/MemDbRt.cs:235-238 | a ticker cut up to the first closing quote holds no quote |
| IexScan.ValueHasNoEnd | src/Common/FinTechCommon/Model/MemDbRt.cs:243-246 | a value cut up to the first `,"` holds no `,"` of its own |
| IexScan.ScanStepAt | src/Common/FinTechCommon/Model/MemDbRt.cs:231-246 | where all four markers are found, the step reads exactly the text between them and continues at the value's end |
| IexScan.NextQuote | src/Common/FinTechCommon/Model/MemDbRt.cs:231-246 | the body's four `IndexOf` searches and two `Substring`s compute the scan step |
| IexScan.Quotes | src/Common/FinTechCommon/Model/MemDbRt.cs:228-274 | every quote the loop reads from a position on, none with a quote in its ticker |
| IexScan.NoMarkerNoQuotes | src/Common/FinTechCommon/Model/MemDbRt.cs:231-233 | a response without a symbol marker yields no quotes |
| IexScan.QuotesBounded | src/Common/FinTechCommon/Model/MemDbRt.cs:229-273 | each pass consumes at least two characters, so the loop ends: twice the number of quotes is at most the length scanned |
| IexScan.ScanStops | src/Common/FinTechCommon/Model/MemDbRt.cs:232-245 | where a marker is missing the loop breaks and reads nothing more |
| IexScan.ScanAdvances | src/Common/FinTechCommon/Model/MemDbRt.cs:229-273 | a pass that reads a quote appends it to the quotes read so far and continues from the next position |
| PriceWrites.UntargetedKeepsValue | src/Common/FinTechCommon/Model/MemDbRt.cs:259-272 | an object no write targets keeps its value |
| PriceWrites.LastWriteWins | src/Common/FinTechCommon/Model/MemDbRt.cs:259-272 | an object some write targets ends with the value of the last write to it |
| PriceWrites.LastWrittenAppend | src/Common/FinTechCommon/Model/MemDbRt.cs:259-272 | appending at most one write changes only its target's value |
| MemDbRealtime.Increment | src/Common/FinTechCommon/Model/MemDbRt.cs:163 | the unchecked uint download counter adds one and wraps from 4294967295 to 0 |
| MemDbRealtime.TargetOf | src/Common/FinTechCommon/Model/MemDbRt.cs:248-257 | the security a record updates has the record's ticker and is one of the database's securities |
| MemDbRealtime.TargetOfMeaning | src/Common/FinTechCommon/Model/MemDbRt.cs:248-257 | the first of the requested SecIDs, in order, whose security has the ticker; nothing exactly when none has it |
| MemDbRealtime.IexWrites | src/Common/FinTechCommon/Model/MemDbRt.cs:226-275 | at most one price write per record, each into a security of the database |
| MemDbRealtime.IexWritesMatchTickers | src/Common/FinTechCommon/Model/MemDbRt.cs:248-272 | only records whose ticker is among the requested securities write a price, into the matching security |
| MemDbRealtime.FindAmong | src/Common/FinTechCommon/Model/MemDbRt.cs:248-257 | the lookup loop finds the target of the ticker |
| MemDbRealtime.ResolveTickers | src/Common/FinTechCommon/Model/MemDbRt.cs:208 | the tickers of the SecIDs in order, and an exception exactly when a SecID has no security |
| MemDbRealtime.IexWritesStep | src/Common/FinTechCommon/Model/MemDbRt.cs:259-272 | one more record changes at most the price of its ticker's target |
| MemDbRealtime.WriteIexPrice | src/Common/FinTechCommon/Model/MemDbRt.cs:248-272 | the loop body after a record is read writes only that record's target, and never a Yahoo price |
| MemDbRealtime.ExtractAttributeIex | src/Common/FinTechCommon/Model/MemDbRt.cs:226-275 | every security ends with the value of the last "lastSalePrice" record naming it; "previousClose" records change nothing; Yahoo prices untouched |
| MemDbRealtime.YahooField | src/Common/FinTechCommon/Model/MemDbRt.cs:187 | the pre-market price field in pre-market, the post-market one otherwise |
| MemDbRealtime.YahooPrice | src/Common/FinTechCommon/Model/MemDbRt.cs:186-192 | the chosen field's value, or the regular-market price when the quote lacks it |
| MemDbRealtime.YahooWritesStep | src/Common/FinTechCommon/Model/MemDbRt.cs:171-194 | one more quote changes at most the price of its symbol's target |
| MemDbRealtime.WriteYahooPrice | src/Common/FinTechCommon/Model/MemDbRt.cs:173-193 | the body of the quote loop writes only the quote's target, and never an IEX price |
| MemDbRealtime.WriteYahooPrices | src/Common/FinTechCommon/Model/MemDbRt.cs:171-194 | each security ends with the price of the last quote for its ticker; IEX prices untouched |
| MemDbRealtime.DownloadLastPriceYF | src/Common/FinTechCommon/Model/MemDbRt.cs:160-200 | the attempt is counted; a missing SecID or failed query changes no price; otherwise the Yahoo prices are written |
| MemDbRealtime.DownloadLastPriceIex | src/Common/FinTechCommon/Model/MemDbRt.cs:202-224 | the attempt is counted; a missing SecID or failed request changes no price; otherwise the IEX prices are extracted |
| MemDbRealtime.RescheduleMs | src/Common/FinTechCommon/Model/MemDbRt.cs:112 | 3 s in regular trading, 60 s otherwise |
| MemDbRealtime.RtTimerElapsed | src/Common/FinTechCommon/Model/MemDbRt.cs:81-124 | a stopped timer changes nothing; a running one stamps the download time, downloads from IEX in regular trading (each security's IEX price becomes the last `lastSalePrice` written for it, Yahoo prices untouched) and from Yahoo otherwise (the last Yahoo quote written, IEX prices untouched); a missing SecID or a failed download changes no price; the timer is re-armed when a price was asked for within 5 minutes, else the flag is cleared |
| MemDbRealtime.RtPrices | src/Common/FinTechCommon/Model/MemDbRt.cs:152-156 | the (SecID, price) pairs in request order, the IEX price in regular trading and the Yahoo one otherwise; an exception for a missing SecID |
| MemDbRealtime.GetLastRtPrice | src/Common/FinTechCommon/Model/MemDbRt.cs:128-157 | stamps the request time, starts a stopped timer at once with these SecIDs, leaves a running one alone, and returns the prices |
| MemDbModel.Security.constructor | src/Common/FinTechCommon/Model/MemDb.cs:14-23 | a new security carries the given SecID, ticker and history span, a real-time price of -100 and an empty daily history |
| MemDbModel.IndexOfSecId | src/Common/FinTechCommon/Model/MemDb.cs:84-93 | the position of the first security with the SecID, none before it has it; -1 exactly when no security has it |
| MemDbModel.IndexOfTicker | src/Common/FinTechCommon/Model/MemDb.cs:95-107 | the position of the first security with the ticker, none before it has it; -1 exactly when no security has it |
| MemDbModel.TryParseDate | src/Common/FinTechCommon/Model/MemDb.cs:137 | an exact "yyyy-MM-dd" parse accepts only ten characters with dashes at 4 and 7 and yields a valid calendar date |
| MemDbModel.ParseHistorySpan | src/Common/FinTechCommon/Model/MemDb.cs:135-143 | a "Date: " span parses exactly when its date parses; a span ending in "y" gives years back exactly when the rest is an int32; any other span keeps the 2018-02-01 default |
| MemDbModel.ResolveStart | src/Common/FinTechCommon/Model/MemDb.cs:142 | a date or default start is kept; a years-back start succeeds only when the resulting year stays within 1..9999 |
| MemDbModel.ReloadPlan | src/Common/FinTechCommon/Model/MemDb.cs:133-161 | one history request per security, in list order, each for that security's ticker and its resolved start |
| MemDbModel.ReloadPlanStopsAtFirstFailure | src/Common/FinTechCommon/Model/MemDb.cs:123-166 | the first failing span's exception ends the pass: exactly the securities before it are reloaded |
| MemDbModel.ReloadPlanCoversAll | src/Common/FinTechCommon/Model/MemDb.cs:133-161 | with no failing span every security is reloaded |
| MemDbModel.BuiltInSpansParse | src/Common/FinTechCommon/Model/MemDb.cs:35-42 | the built-in spans "5y", "Date: 2010-01-01" and "Date: 2018-01-25" parse as five years back and those two dates |
| MemDbModel.NextReloadTarget | src/Common/FinTechCommon/Model/MemDb.cs:174-184 | the next reload target is the earliest of 4:00, 9:00 and 16:30 ET after now, or 4:00 of the next day when all have passed; it lies after now and within a day |
| MemDbModel.MemDb.constructor | src/Common/FinTechCommon/Model/MemDb.cs:25-67 | a new database holds the given securities, has never reloaded and has its timers off |
| MemDbModel.MemDb.GetSecurity | src/Common/FinTechCommon/Model/MemDb.cs:84-93 | the first security with the SecID, or the missing-SecID exception |
| MemDbModel.MemDb.GetFirstMatchingSecurity | src/Common/FinTechCommon/Model/MemDb.cs:95-107 | the first security with the ticker, or the missing-ticker exception |
| MemDbModel.MemDb.ReloadRequests | src/Common/FinTechCommon/Model/MemDb.cs:123-166 | the download loop asks for exactly the reload plan |
| MemDbModel.MemDb.HistoricalDataReloadAndSetTimer | src/Common/FinTechCommon/Model/MemDb.cs:120-189 | the pass requests the reload plan, stamps the reload time and sets the one-shot timer to the next target, within a day; the real-time state is unchanged |
| MktHealthHub.RtMktSummaryStock.constructor | src/WebServer/SqCoreWeb/projects/MarketDashboard/src/app/market-health/DashboardPushHub_mktHealth.cs:16-20 | a summary stock carries its ticker and the invalid SecID 0 |
| MktHealthHub.PeriodStart | src/WebServer/SqCoreWeb/projects/MarketDashboard/src/app/market-health/DashboardPushHub_mktHealth.cs:86-87 | the year-to-date period starts on 31 December of the previous year; in year 1 that date does not exist and the construction fails |
| MktHealthHub.HighLowBounds | src/WebServer/SqCoreWeb/projects/MarketDashboard/src/app/market-health/DashboardPushHub_mktHealth.cs:100-107 | the running maximum bounds every close from above and is a close or float.MinValue; the running minimum bounds every close from below and is a close or float.MaxValue |
| MktHealthHub.HighLowStep | src/WebServer/SqCoreWeb/projects/MarketDashboard/src/app/market-health/DashboardPushHub_mktHealth.cs:101-107 | one more close moves the running maximum and minimum as one pass of the loop body does |
| MktHealthHub.StatsAt | src/WebServer/SqCoreWeb/projects/MarketDashboard/src/app/market-health/DashboardPushHub_mktHealth.cs:99-118 | the figures exist exactly when both indices lie in the close array (else IndexOutOfRange); previous close and period open are the closes at those indices, and high and low bound every close in between and are among them |
| MktHealthHub.HighLow | src/WebServer/SqCoreWeb/projects/MarketDashboard/src/app/market-health/DashboardPushHub_mktHealth.cs:100-107 | the loop computes the running maximum and minimum of the closes from the period start to the previous day |
| MktHealthHub.PrevDayIndex | src/WebServer/SqCoreWeb/projects/MarketDashboard/src/app/market-health/DashboardPushHub_mktHealth.cs:96 | the previous day is the last key, or the one before it exactly when the last key is already today |
| MktHealthHub.KeyIndex | src/Common/FinTechCommon/Model/FinTimeSeries.cs:622-628 | the exact lookup gives a position holding the key, or -1 exactly when the key is absent |
| MktHealthHub.AtOrBeforeIndex | src/Common/FinTechCommon/Model/FinTimeSeries.cs:630-638 | the at-or-before lookup gives the last position whose key is at or before the one asked for, or -1 |
| MktHealthHub.KeyIndexOf | src/Common/FinTechCommon/Model/FinTimeSeries.cs:622-628 | in strictly increasing keys any index reporting the key's position, or -1 for an absent key, is the exact lookup's |
| MktHealthHub.AtOrBeforeIndexOf | src/Common/FinTechCommon/Model/FinTimeSeries.cs:630-638 | in strictly increasing keys an index with every earlier key below and every later key above the one asked for is the at-or-before lookup's |
| MktHealthHub.PeriodStatsMeaning | src/WebServer/SqCoreWeb/projects/MarketDashboard/src/app/market-health/DashboardPushHub_mktHealth.cs:92-118 | with the intended lookup, statistics exist exactly when some day is at or before the period start and some day is before today; the previous close is the last day before today and the period opens on the last day at or before the start |
| MktHealthHub.PeriodStartOnWeekendFails | src/WebServer/SqCoreWeb/projects/MarketDashboard/src/app/market-health/DashboardPushHub_mktHealth.cs:99 | a period start that is not a stored trading day makes the statistics as written fail, while the intended lookup opens on the day before it |
| MktHealthHub.AsWrittenAgreesOnStoredStart | src/WebServer/SqCoreWeb/projects/MarketDashboard/src/app/market-health/DashboardPushHub_mktHealth.cs:99 | when the period start is a stored day the exact and the at-or-before lookups give the same statistics |
| MktHealthHub.FiguresAt | src/WebServer/SqCoreWeb/projects/MarketDashboard/src/app/market-health/DashboardPushHub_mktHealth.cs:99-118 | the figures read at the two indices with the loop's high and low are the statistics at those indices |
| MktHealthHub.PeriodStatsAsWrittenOf | src/WebServer/SqCoreWeb/projects/MarketDashboard/src/app/market-health/DashboardPushHub_mktHealth.cs:91-118 | the statistics one stock's history gives with the exact period-start lookup, as written |
| MktHealthHub.PeriodStats | src/WebServer/SqCoreWeb/projects/MarketDashboard/src/app/market-health/DashboardPushHub_mktHealth.cs:91-118 | the statistics one stock's history gives with the period opening on the last stored day at or before its start |
| MktHealthHub.StatOf | src/WebServer/SqCoreWeb/projects/MarketDashboard/src/app/market-health/DashboardPushHub_mktHealth.cs:89-120 | the statistic of one stock is that of its first matching security's close history, read from the period start or the last stored day before it, or the missing-ticker or missing-column failure |
| MktHealthHub.CollectStats | src/WebServer/SqCoreWeb/projects/MarketDashboard/src/app/market-health/DashboardPushHub_mktHealth.cs:89-123 | the statistics of all stocks exist exactly when every stock's does (each read from the period start or the last stored day before it), one per stock in order; otherwise the failure is that of the first failing stock |
| MktHealthHub.FirstMissing | src/WebServer/SqCoreWeb/projects/MarketDashboard/src/app/market-health/DashboardPushHub_mktHealth.cs:67-71 | every stock before the reported position has a matching security, and the stock at it has none |
| MktHealthHub.SecIds | src/WebServer/SqCoreWeb/projects/MarketDashboard/src/app/market-health/DashboardPushHub_mktHealth.cs:150 | the SecIDs asked for are those of the stocks, in order |
| MktHealthHub.FirstMissingAt | src/WebServer/SqCoreWeb/projects/MarketDashboard/src/app/market-health/DashboardPushHub_mktHealth.cs:67-71 | a found ticker below the first missing one moves the bound on; a missing one is the first missing |
| MktHealthHub.MktHealthHubState.constructor | src/WebServer/SqCoreWeb/projects/MarketDashboard/src/app/market-health/DashboardPushHub_mktHealth.cs:48-61 | the seven summary stocks start without a SecID and the timer stopped |
| MktHealthHub.MktHealthHubState.EvMemDbInitialized | src/WebServer/SqCoreWeb/projects/MarketDashboard/src/app/market-health/DashboardPushHub_mktHealth.cs:64-72 | each stock takes the SecID of its first matching security, in order, until the first missing ticker, whose exception ends the loop |
| MktHealthHub.MktHealthHubState.OnConnected | src/WebServer/SqCoreWeb/projects/MarketDashboard/src/app/market-health/DashboardPushHub_mktHealth.cs:74-124 | a connecting client starts a stopped timer at once and leaves a running one alone; year 1 has no period start and fails; otherwise today and 31 December of the year before, both taken from today's Eastern date as DateOnly days, give the statistics, which exist exactly when every stock's do, one per stock in order |
| MktHealthHub.MktHealthHubState.OnDisconnected | src/WebServer/SqCoreWeb/projects/MarketDashboard/src/app/market-health/DashboardPushHub_mktHealth.cs:126-139 | with no client left the timer stops; otherwise it is unchanged |
| MktHealthHub.MktHealthHubState.Elapsed | src/WebServer/SqCoreWeb/projects/MarketDashboard/src/app/market-health/DashboardPushHub_mktHealth.cs:141-179 | a stopped timer does nothing; a running one reads the last prices of the stocks' SecIDs, which succeeds exactly when every SecID is in the database and then gives each stock's real-time price in order, and is re-armed for 3000 ms either way |
| TimeSeries.InsertionPoint | src/Common/FinTechCommon/Model/FinTimeSeries.cs:330-333 | the index where a binary search inserts a key: every element before it is below the key and the one at it is not |
| TimeSeries.InsertionPointSplits | src/Common/FinTechCommon/Model/FinTimeSeries.cs:330-333 | in a non-decreasing sequence every element from the insertion point on is at least the key |
| TimeSeries.InsertionPointUnique | src/Common/FinTechCommon/Model/FinTimeSeries.cs:330-333 | the insertion point is the only index splitting the sequence into elements below the key and elements not below it |
| TimeSeries.InsertKeepsStrict | src/Common/FinTechCommon/Model/FinTimeSeries.cs:327-333 | inserting an absent key at its insertion point keeps strictly increasing keys strictly increasing, holds the key and adds one entry |
| TimeSeries.InsertKeepsNonDecreasing | src/Common/FinTechCommon/Model/FinTimeSeries.cs:327-333 | inserting any key at its insertion point keeps non-decreasing keys non-decreasing |
| TimeSeries.ShiftedDuplicateNonDecreasing | src/Common/FinTechCommon/Model/FinTimeSeries.cs:651-657 | the keys a failed insert leaves behind after the shift are still non-decreasing |
| TimeSeries.RemoveKeepsOrder | src/Common/FinTechCommon/Model/FinTimeSeries.cs:707-714 | removing an entry keeps the keys non-decreasing or strictly increasing, and a removed strictly increasing key is gone |
| TimeSeries.NewCapacityGrows | src/Common/FinTechCommon/Model/FinTimeSeries.cs:557-564 | for every array length the runtime allows, the new capacity is 4 for an empty array and otherwise twice the length capped at 0x7FEFFFFF, then raised to the requested minimum; it is positive and at least that minimum |
| TimeSeries.ShiftedRightAt | src/Common/FinTechCommon/Model/FinTimeSeries.cs:656 | the in-array copy one step right keeps the prefix, moves the used part up one and keeps the tail |
| TimeSeries.ShiftedLeftAt | src/Common/FinTechCommon/Model/FinTimeSeries.cs:714 | the in-array copy one step left keeps the prefix, moves the used part down one and keeps the tail |
| TimeSeries.ShiftRightInserts | src/Common/FinTechCommon/Model/FinTimeSeries.cs:653-660 | a right shift followed by a write at the index inserts the element into the used part |
| TimeSeries.InsertedColumnInserts | src/Common/FinTechCommon/Model/FinTimeSeries.cs:653-660 | the effect of an insert on one buffer is an insertion over the first n + 1 entries, leaving the entries past them alone |
| TimeSeries.ShiftRightDuplicates | src/Common/FinTechCommon/Model/FinTimeSeries.cs:653-657 | a right shift alone leaves the element at the index twice in the used part |
| TimeSeries.RemoveUndoesInsert | src/Common/FinTechCommon/Model/FinTimeSeries.cs:707-724 | removing what was inserted at the same place gives the keys back |
| TimeSeries.DropLastRemoves | src/Common/FinTechCommon/Model/FinTimeSeries.cs:711-713 | removing the last used entry only lowers the count |
| TimeSeries.WriteAtEndInserts | src/Common/FinTechCommon/Model/FinTimeSeries.cs:658-661 | a write just past the used part appends |
| TimeSeries.ShiftLeftRemoves | src/Common/FinTechCommon/Model/FinTimeSeries.cs:711-714 | a left shift removes the entry at the index from the used part |
| TimeSeries.CopyToNew | src/Common/FinTechCommon/Model/FinTimeSeries.cs:389-394 | a new buffer of the new capacity holds the old used entries |
| TimeSeries.ShiftRight | src/Common/FinTechCommon/Model/FinTimeSeries.cs:656-657 | the in-place copy moves the used part after the index one step right |
| TimeSeries.ShiftLeft | src/Common/FinTechCommon/Model/FinTimeSeries.cs:714-722 | the in-place copy moves the used part after the index one step left |
| TimeSeries.InsertionPointOfMember | src/Common/FinTechCommon/Model/FinTimeSeries.cs:622-628 | in strictly increasing keys the insertion point of a stored key is its index |
| TimeSeries.BinarySearch | src/Common/FinTechCommon/Model/FinTimeSeries.cs:330 | the binary search over the used keys gives the index of a match, or the bitwise complement of the insertion point exactly when the key is absent |
| TimeSeries.TickTypesOf | src/Common/FinTechCommon/Model/FinTimeSeries.cs:254-264 | the tick types of the bulk constructor's pairs, in order |
| TimeSeries.Resized | src/Common/FinTechCommon/Model/FinTimeSeries.cs:389-412 | a buffer resized to the new capacity keeps its first used entries and the default value after them |
| TimeSeries.FinTimeSeries.constructor | src/Common/FinTechCommon/Model/FinTimeSeries.cs:219-230 | a new series has no keys, no tick types and the version 0 |
| TimeSeries.FinTimeSeries.WithTickTypes | src/Common/FinTechCommon/Model/FinTimeSeries.cs:232-242 | an empty buffer for each tick type given, and the duplicate-key exception exactly when a list names a tick type twice |
| TimeSeries.FinTimeSeries.FromArrays | src/Common/FinTechCommon/Model/FinTimeSeries.cs:245-265 | the bulk constructor adopts the caller's key array and buffers as they are, with one column per tick type, failing exactly when a list names a tick type twice |
| TimeSeries.FinTimeSeries.SetCapacity | src/Common/FinTechCommon/Model/FinTimeSeries.cs:372-424 | the capacity setter leaves an equal capacity alone, refuses one below the count, moves keys and columns into new buffers for a positive one and drops the columns for zero |
| TimeSeries.FinTimeSeries.EnsureCapacity | src/Common/FinTechCommon/Model/FinTimeSeries.cs:557-564 | the capacity becomes the grown capacity, failing only beyond 0x7FEFFFFF |
| TimeSeries.FinTimeSeries.Insert1 | src/Common/FinTechCommon/Model/FinTimeSeries.cs:651-663 | with room made, the key is inserted at its insertion point and the value into its tick type's column; a missing tick type throws after the keys have moved |
| TimeSeries.FinTimeSeries.MakeRoom | src/Common/FinTechCommon/Model/FinTimeSeries.cs:653 | a full buffer grows by one entry at least, failing only when the count is already 0x7FEFFFFF |
| TimeSeries.FinTimeSeries.InsertPresent1 | src/Common/FinTechCommon/Model/FinTimeSeries.cs:651-663 | the insert of a present tick type succeeds unless the buffer cannot grow |
| TimeSeries.FinTimeSeries.InsertMissing | src/Common/FinTechCommon/Model/FinTimeSeries.cs:651-663 | the insert of a missing tick type grows the buffers and moves the keys, then fails on the lookup |
| TimeSeries.FinTimeSeries.InsertWithRoom1 | src/Common/FinTechCommon/Model/FinTimeSeries.cs:655-662 | with room, the keys and the tick type's column both get the new entry at the index, the other columns stay, and count and version go up by one |
| TimeSeries.FinTimeSeries.Insert2 | src/Common/FinTechCommon/Model/FinTimeSeries.cs:665-677 | the same insert for the second value dictionary |
| TimeSeries.FinTimeSeries.InsertPresent2 | src/Common/FinTechCommon/Model/FinTimeSeries.cs:665-677 | the insert of a present tick type in the second dictionary succeeds unless the buffer cannot grow |
| TimeSeries.FinTimeSeries.InsertWithRoom2 | src/Common/FinTechCommon/Model/FinTimeSeries.cs:669-676 | with room, the keys and the second dictionary's column get the new entry; the rest stays |
| TimeSeries.FinTimeSeries.InsertKeyAt | src/Common/FinTechCommon/Model/FinTimeSeries.cs:655-659 | the keys after the index move one step right and the key is written at the index |
| TimeSeries.FinTimeSeries.FailAfterKeyShift | src/Common/FinTechCommon/Model/FinTimeSeries.cs:655-657 | a missing tick type throws after the keys moved, leaving the entry at the index duplicated |
| TimeSeries.FinTimeSeries.Add1 | src/Common/FinTechCommon/Model/FinTimeSeries.cs:327-334 | a key already used is refused with nothing changed; otherwise it is inserted at its insertion point and strictly increasing keys stay strictly increasing with the key among them |
| TimeSeries.FinTimeSeries.Add2 | src/Common/FinTechCommon/Model/FinTimeSeries.cs:336-343 | the same for the second value dictionary |
| TimeSeries.FinTimeSeries.IndexOfKey | src/Common/FinTechCommon/Model/FinTimeSeries.cs:622-628 | the index of a matching used key, or -1 exactly when the key is not in use |
| TimeSeries.FinTimeSeries.ContainsKey | src/Common/FinTechCommon/Model/FinTimeSeries.cs:534-537 | whether the key is among the used keys |
| TimeSeries.FinTimeSeries.IndexOfKeyOrBeforeKey | src/Common/FinTechCommon/Model/FinTimeSeries.cs:630-639 | the index of a matching key, or one before the insertion point: every key up to it is below and every later key above the one asked for |
| TimeSeries.FinTimeSeries.GetItem | src/Common/FinTechCommon/Model/FinTimeSeries.cs:600-607 | the column's entry at the key exactly when the key is in use and the tick type present; KeyNotFound otherwise |
| TimeSeries.FinTimeSeries.TryGetValue1 | src/Common/FinTechCommon/Model/FinTimeSeries.cs:680-691 | no value exactly when the key is not in use; KeyNotFound exactly when the key is in use but the tick type missing; otherwise the column's entry at the key |
| TimeSeries.FinTimeSeries.TryGetValue2 | src/Common/FinTechCommon/Model/FinTimeSeries.cs:693-704 | the same for the second value dictionary |
| TimeSeries.FinTimeSeries.SetItem | src/Common/FinTechCommon/Model/FinTimeSeries.cs:608-619 | a key in use has its entry overwritten (KeyNotFound for a missing tick type); a new key goes through the insert |
| TimeSeries.FinTimeSeries.Overwrite1 | src/Common/FinTechCommon/Model/FinTimeSeries.cs:613-616 | one entry of one column changes and the version goes up; keys and the other columns stay |
| TimeSeries.FinTimeSeries.RemoveAt | src/Common/FinTechCommon/Model/FinTimeSeries.cs:707-746 | an index outside the used range throws and changes nothing; otherwise the entry goes from the keys and from every column |
| TimeSeries.FinTimeSeries.RemoveWithin | src/Common/FinTechCommon/Model/FinTimeSeries.cs:711-745 | the count drops and the keys and every column move one step left over the removed entry |
| TimeSeries.FinTimeSeries.RemoveKeyAt | src/Common/FinTechCommon/Model/FinTimeSeries.cs:711-714 | the used keys lose the entry at the index |
| TimeSeries.FinTimeSeries.Remove | src/Common/FinTechCommon/Model/FinTimeSeries.cs:748-754 | reports whether the key was in use and then removes it; strictly increasing keys stay so and no longer hold the key |
| TimeSeries.FinTimeSeries.Clear | src/Common/FinTechCommon/Model/FinTimeSeries.cs:504-522 | the count drops to zero and the version goes up; capacity and tick types stay |
| TimeSeries.FinTimeSeries.TrimExcess | src/Common/FinTechCommon/Model/FinTimeSeries.cs:765-772 | the capacity drops to the count exactly when the count is below nine tenths of the capacity, truncated; the used keys stay |
| TimeSeries.MoveColumns | src/Common/FinTechCommon/Model/FinTimeSeries.cs:397-412 | every column is replaced by a new buffer of the new capacity holding its used entries |
| TimeSeries.ShiftColumnsLeft | src/Common/FinTechCommon/Model/FinTimeSeries.cs:716-723 | every column moves one step left over the removed index |
| TimeSeries.RemoveColumnsAt | src/Common/FinTechCommon/Model/FinTimeSeries.cs:712-723 | every column loses the entry at the index from its used part and keeps its length |
| TimeSeries.EmptyColumns | src/Common/FinTechCommon/Model/FinTimeSeries.cs:234-241 | an empty buffer per tick type, failing exactly when the list names a tick type twice |
| TimeSeries.ColumnsFromPairs | src/Common/FinTechCommon/Model/FinTimeSeries.cs:254-264 | the bulk constructor's columns are the pairs' buffers, failing exactly when a tick type is named twice |
| YahooForwarder.Render | src/WebServer/SqCoreWeb/Controllers/YahooFinanceForwarder.cs:63-64 | a failure is answered as a JSON message object and a script as JavaScript holding exactly the script text |
| YahooForwarder.LastStart | src/WebServer/SqCoreWeb/Controllers/YahooFinanceForwarder.cs:95-104 | the start of the last command: the last letter after the first character, or 0; no letter follows it |
| YahooForwarder.ColumnTokens | src/WebServer/SqCoreWeb/Controllers/YahooFinanceForwarder.cs:93-106 | the command string always yields at least one command |
| YahooForwarder.ColumnTokensMeaning | src/WebServer/SqCoreWeb/Controllers/YahooFinanceForwarder.cs:93-106 | the commands concatenate back to the command string; every command but the first starts with a letter, and no command holds a letter after its first character |
| YahooForwarder.ColumnIndex | src/WebServer/SqCoreWeb/Controllers/YahooFinanceForwarder.cs:258 | a command has a cell position exactly when it is one of d, o, h, l, c, c1 and v, and that position names it |
| YahooForwarder.Validate | src/WebServer/SqCoreWeb/Controllers/YahooFinanceForwarder.cs:74-131 | the checks come in the controller's order: a query over 8192 characters, a missing output format, then neither or both of jsonp and yffOutVar fail; otherwise JSON unless the format is "csv" in any case, the commands parsed or the default seven, and the variable or the callback as target |
| YahooForwarder.Selected | src/WebServer/SqCoreWeb/Controllers/YahooFinanceForwarder.cs:283-286 | the cells chosen by the commands, one per command, in command order |
| YahooForwarder.CellsTextJoins | src/WebServer/SqCoreWeb/Controllers/YahooFinanceForwarder.cs:260-286 | with known commands the row text is the chosen cells joined with commas |
| YahooForwarder.CellsReadBack | src/WebServer/SqCoreWeb/Controllers/YahooFinanceForwarder.cs:260-286 | chosen cells that are non-empty and hold no comma read back from the row text by splitting at the commas |
| YahooForwarder.UnknownColumnFails | src/WebServer/SqCoreWeb/Controllers/YahooFinanceForwarder.cs:264 | an unknown command makes the dictionary lookup throw, whatever the cells |
| YahooForwarder.JoinedAppend | src/WebServer/SqCoreWeb/Controllers/YahooFinanceForwarder.cs:269-277 | one more row is written after the separator exactly when a row came before it |
| YahooForwarder.JoinedAfterHeader | src/WebServer/SqCoreWeb/Controllers/YahooFinanceForwarder.cs:206-241 | once a row has been written every later row is preceded by the separator |
| YahooForwarder.CsvDateReadsBack | src/WebServer/SqCoreWeb/Controllers/YahooFinanceForwarder.cs:228 | the unpadded CSV date splits at its dashes back into the year, month and day it was written from |
| YahooForwarder.ConvertedCells | src/WebServer/SqCoreWeb/Controllers/YahooFinanceForwarder.cs:220-239 | a data row is refused exactly when its date does not parse as yyyy-MM-dd; otherwise the date is rewritten, the five prices go through the price formatting and the volume through its canonical form |
| YahooForwarder.VolumeReadsBack | src/WebServer/SqCoreWeb/Controllers/YahooFinanceForwarder.cs:238-239 | a volume that parses as Int64 is rewritten to a text that parses as the same number; one that does not parse is kept as it is |
| YahooForwarder.LineRow | src/WebServer/SqCoreWeb/Controllers/YahooFinanceForwarder.cs:214-218 | a line that does not split into seven cells is refused with its text |
| YahooForwarder.LineResults | src/WebServer/SqCoreWeb/Controllers/YahooFinanceForwarder.cs:212-242 | one outcome per data line, in line order |
| YahooForwarder.CollectMeaning | src/WebServer/SqCoreWeb/Controllers/YahooFinanceForwarder.cs:212-242 | the collection succeeds exactly when every outcome does, with one value per outcome in order; otherwise it is the first failure |
| YahooForwarder.CollectAppend | src/WebServer/SqCoreWeb/Controllers/YahooFinanceForwarder.cs:212-242 | a failure ends the collection and a further value is appended |
| YahooForwarder.CollectPrefixFails | src/WebServer/SqCoreWeb/Controllers/YahooFinanceForwarder.cs:212-242 | a failing prefix decides the collection |
| YahooForwarder.RowsMeaning | src/WebServer/SqCoreWeb/Controllers/YahooFinanceForwarder.cs:211-242 | the rows succeed exactly when every data line does, one row per line; otherwise the answer is the failure of the first failing line |
| YahooForwarder.RowsAppend | src/WebServer/SqCoreWeb/Controllers/YahooFinanceForwarder.cs:212-242 | one more line: its failure ends the rows, its row is appended |
| YahooForwarder.RowsPrefixFails | src/WebServer/SqCoreWeb/Controllers/YahooFinanceForwarder.cs:212-242 | a failing prefix of the lines makes the whole answer fail the same way |
| YahooForwarder.ScriptWhenAllLinesGood | src/WebServer/SqCoreWeb/Controllers/YahooFinanceForwarder.cs:68-256 | a script is answered exactly when the parameters, the download, the header and every data line are good |
| YahooForwarder.CsvScriptLayout | src/WebServer/SqCoreWeb/Controllers/YahooFinanceForwarder.cs:204-248 | a CSV answer is the header row followed by each data row on a line of its own |
| YahooForwarder.SplitColumns | src/WebServer/SqCoreWeb/Controllers/YahooFinanceForwarder.cs:89-107 | the command loop yields exactly the command tokens |
| YahooForwarder.ColumnTokensAt | src/WebServer/SqCoreWeb/Controllers/YahooFinanceForwarder.cs:95-106 | the commands of a prefix end where the last command starts, and that command runs to the end of the prefix |
| YahooForwarder.WriteCell | src/WebServer/SqCoreWeb/Controllers/YahooFinanceForwarder.cs:260-267 | a comma after an earlier cell, then the command's cell; an unknown command throws |
| YahooForwarder.WriteCells | src/WebServer/SqCoreWeb/Controllers/YahooFinanceForwarder.cs:282-286 | the cells of one row are appended in command order, comma-separated, or the first unknown command throws |
| YahooForwarder.WriteRow | src/WebServer/SqCoreWeb/Controllers/YahooFinanceForwarder.cs:269-290 | the separator after a previous row, then the cells, bracketed for JSON; an unknown command throws |
| YahooForwarder.CellsPrefixFails | src/WebServer/SqCoreWeb/Controllers/YahooFinanceForwarder.cs:283-286 | a failing command in a prefix decides the whole row |
| YahooForwarder.RewriteCells | src/WebServer/SqCoreWeb/Controllers/YahooFinanceForwarder.cs:220-239 | a bad date ends the answer; otherwise the cells become the converted cells |
| YahooForwarder.ReformatPrices | src/WebServer/SqCoreWeb/Controllers/YahooFinanceForwarder.cs:231-235 | cells 1 to 5 go through the price formatting and the date and volume stay |
| YahooForwarder.WriteLine | src/WebServer/SqCoreWeb/Controllers/YahooFinanceForwarder.cs:214-241 | one data line is refused or appended as the row of its converted cells |
| YahooForwarder.WriteNextLine | src/WebServer/SqCoreWeb/Controllers/YahooFinanceForwarder.cs:212-242 | one pass of the row loop appends the next line's row after the earlier ones, or ends with its failure |
| YahooForwarder.WriteDataRows | src/WebServer/SqCoreWeb/Controllers/YahooFinanceForwarder.cs:211-242 | the data lines after the header line become the rows in order, or the first failing line ends the answer |
| YahooForwarder.ReadSettings | src/WebServer/SqCoreWeb/Controllers/YahooFinanceForwarder.cs:73-131 | the parameter checks and the command tokenizer compute the validated settings |
| YahooForwarder.WriteHeader | src/WebServer/SqCoreWeb/Controllers/YahooFinanceForwarder.cs:190-207 | the opening is the variable or callback for JSON and the header row for CSV |
| YahooForwarder.GenerateYffResponse | src/WebServer/SqCoreWeb/Controllers/YahooFinanceForwarder.cs:68-256 | the controller's answer is the rendering of the checks, header, data rows and footer in the controller's order |
| HealthMonitor.DecodeMessage | src/Common/SqCommon/HealthMonitorMessage.cs:88-94 | a successful read consumes at least the two int32 fields and the string's length prefix, and stays inside the stream |
| HealthMonitor.DecodeOfEncoded | src/Common/SqCommon/HealthMonitorMessage.cs:81-94 | reading back what was serialized, wherever in the stream it lies, restores the id, the parameter string and the response format and ends just after them |
| HealthMonitor.HealthMonitorMessage.constructor | src/Common/SqCommon/HealthMonitorMessage.cs:39-41 | a new message has id Undefined, an empty parameter string and response format None |
| HealthMonitor.HealthMonitorMessage.SerializeTo | src/Common/SqCommon/HealthMonitorMessage.cs:81-86 | the id, the parameter string and the response format are written in order; a parameter string whose UTF-8 byte count does not fit an int32 throws after the id |
| HealthMonitor.HealthMonitorMessage.DeserializeFrom | src/Common/SqCommon/HealthMonitorMessage.cs:88-94 | the three fields are overwritten in order by what was read; a read that throws leaves the earlier fields overwritten and the later ones untouched |
| HealthMonitor.HealthMonitorMessage.SendMessage | src/Common/SqCommon/HealthMonitorMessage.cs:96-136 | the reply is true exactly when the connect succeeded within 10 s, every write to the stream returned and the text fit its length prefix; the peer receives the bytes offered, cut where a write threw; nothing is sent on a failed connect |
| HealthMonitor.ShouldSend | src/Common/SqCommon/HealthMonitorMessage.cs:59-60 | without a minimum gap every message is sent; otherwise exactly when the time since the last message exceeds the gap |
| HealthMonitor.Sender.constructor | src/Common/SqCommon/HealthMonitorMessage.cs:45 | the last message time starts at DateTime.MinValue |
| HealthMonitor.Sender.SendAsync | src/Common/SqCommon/HealthMonitorMessage.cs:56-78 | a message passing the throttle is sent with response format None and the last message time becomes the clock after sending, whatever the reply; the bytes sent are the message's, cut where a write threw; a throttled message sends nothing and changes nothing |
| BinaryIo.Int32Bytes | src/Common/SqCommon/HealthMonitorMessage.cs:83 | an int32 is written as four bytes |
| BinaryIo.Int32RoundTrip | src/Common/SqCommon/HealthMonitorMessage.cs:83-90 | reading the four bytes written for an int32 gives it back |
| BinaryIo.Int32BytesOfValue | src/Common/SqCommon/HealthMonitorMessage.cs:90 | every four bytes are the encoding of the int32 they hold |
| BinaryIo.SevenBitBytes | src/Common/SqCommon/HealthMonitorMessage.cs:84 | the 7-bit length prefix of a string is at least one byte |
| BinaryIo.SevenBitValue | src/Common/SqCommon/HealthMonitorMessage.cs:91 | a successful 7-bit read advances and stays inside the stream |
| BinaryIo.Read7BitAt | src/Common/SqCommon/HealthMonitorMessage.cs:91 | a successful 7-bit read advances and stays inside the stream |
| BinaryIo.ReadInt32At | src/Common/SqCommon/HealthMonitorMessage.cs:90 | reading an int32 succeeds exactly when four bytes are left, and consumes them |
| BinaryIo.ReadStringAt | src/Common/SqCommon/HealthMonitorMessage.cs:91 | a successful string read advances and stays inside the stream |
| BinaryIo.StringBody | src/Common/SqCommon/HealthMonitorMessage.cs:91 | the bytes after the length are read within the stream |
| BinaryIo.ReadInt32OfWritten | src/Common/SqCommon/HealthMonitorMessage.cs:83-90 | an int32 written at a position is read back from there |
| BinaryIo.SevenBitFirst | src/Common/SqCommon/HealthMonitorMessage.cs:84 | the first byte of the 7-bit encoding carries the low seven bits and has its high bit set exactly when more groups follow |
| BinaryIo.SevenBitValueOfWritten | src/Common/SqCommon/HealthMonitorMessage.cs:84-91 | the 7-bit encoding of a number that fits in the bytes left reads back as that number |
| BinaryIo.Read7BitRoundTrip | src/Common/SqCommon/HealthMonitorMessage.cs:84-91 | an int32 written in the 7-bit encoding of its unsigned reinterpretation is read back |
| BinaryIo.AccumulateStep | src/Common/SqCommon/HealthMonitorMessage.cs:91 | one byte read by the 7-bit loop adds its group at weight 128 to the power of the groups read |
| BinaryIo.WrapOfUInt32 | src/Common/SqCommon/HealthMonitorMessage.cs:84-91 | wrapping the unsigned reinterpretation of an int32 gives it back |
| BinaryIo.EncodeEmpty | src/Common/SqCommon/HealthMonitorMessage.cs:84 | only the empty string has no UTF-8 bytes |
| BinaryIo.ReadStringOfWritten | src/Common/SqCommon/HealthMonitorMessage.cs:84-91 | a string written at a position is read back from there |
| BinaryIo.ReadCountedBytes | src/Common/SqCommon/HealthMonitorMessage.cs:91 | bytes written after their 7-bit count are read back and decoded |
| BinaryIo.BinaryWriter.constructor | src/Common/SqCommon/HealthMonitorMessage.cs:118 | a new writer has written nothing |
| BinaryIo.BinaryWriter.WriteByte | src/Common/SqCommon/HealthMonitorMessage.cs:84 | one byte is appended |
| BinaryIo.BinaryWriter.WriteInt32 | src/Common/SqCommon/HealthMonitorMessage.cs:83 | the four bytes of the int32 are appended |
| BinaryIo.BinaryWriter.Write7BitEncodedInt | src/Common/SqCommon/HealthMonitorMessage.cs:84 | the loop appends the 7-bit encoding of the value's unsigned reinterpretation |
| BinaryIo.BinaryWriter.WriteString | src/Common/SqCommon/HealthMonitorMessage.cs:84 | the UTF-8 byte count is appended in the 7-bit encoding, then the bytes |
| BinaryIo.BinaryReader.constructor | src/Common/SqCommon/HealthMonitorMessage.cs:88-89 | a new reader is at the start of its stream |
| BinaryIo.BinaryReader.ReadByte | src/Common/SqCommon/HealthMonitorMessage.cs:90-92 | the byte at the position, which moves on by one; end of stream when none is left |
| BinaryIo.BinaryReader.ReadInt32 | src/Common/SqCommon/HealthMonitorMessage.cs:90 | the int32 at the position and the position after it, or the failure of the read |
| BinaryIo.BinaryReader.Read7BitEncodedInt | src/Common/SqCommon/HealthMonitorMessage.cs:91 | the loop reads the 7-bit number at the position, refusing a sixth byte |
| BinaryIo.BinaryReader.ReadString | src/Common/SqCommon/HealthMonitorMessage.cs:91 | a negative length throws, zero gives the empty string, otherwise that many bytes are decoded |
| Utf8.EncodeChar | src/Common/SqCommon/HealthMonitorMessage.cs:84 | a character takes one to four bytes |
| Utf8.Matched | src/Common/SqCommon/HealthMonitorMessage.cs:91 | the bytes after a lead byte that follow a well-formed sequence are counted up to the first that does not fit |
| Utf8.DecodeStep | src/Common/SqCommon/HealthMonitorMessage.cs:91 | one decoding step consumes at least one byte and no more than there are |
| Utf8.DecodeStepOfEncoded | src/Common/SqCommon/HealthMonitorMessage.cs:84-91 | an encoded character decodes to itself, whatever follows it |
| Utf8.EncodeOfDecodeStep | src/Common/SqCommon/HealthMonitorMessage.cs:84-91 | a decoded character encodes back to the bytes it was read from |
| Utf8.DecodeEncode | src/Common/SqCommon/HealthMonitorMessage.cs:84-91 | decoding undoes encoding, and what the encoder writes is well-formed |
| Utf8.EncodeDecode | src/Common/SqCommon/HealthMonitorMessage.cs:84-91 | encoding undoes decoding on well-formed input |
| Utf8.EncodeAppend | src/Common/SqCommon/HealthMonitorMessage.cs:84 | the encoding of a concatenation is the concatenation of the encodings |
| Utf8.ReplacementExamples | src/Common/SqCommon/HealthMonitorMessage.cs:91 | a lone continuation byte or a truncated sequence in the middle of the input becomes U+FFFD |
| StrongAssert.SeverityName | src/Common/SqCommon/Utils/StrongAssert.cs:96-97 | a listed severity prints as its capitalised member name, any other value as its number |
| StrongAssert.SeverityNameInjective | src/Common/SqCommon/Utils/StrongAssert.cs:96-97 | different severities print differently |
| StrongAssert.NumberNotNamed | src/Common/SqCommon/Utils/StrongAssert.cs:97 | the number of an unlisted severity never starts with a capital letter, so it cannot pass for a member name |
| StrongAssert.FailMessage | src/Common/SqCommon/Utils/StrongAssert.cs:96-98 | the failure message names the severity, and carries ": " and the formatted user message only when both the message and the arguments are non-null |
| StrongAssert.FailCore | src/Common/SqCommon/Utils/StrongAssert.cs:94-135 | the message and the stack trace are logged as an error, listeners are notified exactly when there are any, then NoException returns, Freeze and Halt exit with -1 and every other severity throws the message |
| StrongAssert.True | src/Common/SqCommon/Utils/StrongAssert.cs:36-53 | a failure exactly when the condition is false, reported through the core failure |
| StrongAssert.NotEmpty | src/Common/SqCommon/Utils/StrongAssert.cs:61-65 | a failure exactly when the string is null or empty |
| StrongAssert.Equal | src/Common/SqCommon/Utils/StrongAssert.cs:70-74 | a failure exactly when the two values differ |
| StrongAssert.TrueWithMessageFuncAsWritten | src/Common/SqCommon/Utils/StrongAssert.cs:55-59 | the overload taking a message function fails exactly when the condition is false |
| StrongAssert.MessageFuncIgnored | src/Common/SqCommon/Utils/StrongAssert.cs:55-59 | as written the built message is lost: the failure reads the same whatever the function returns, because the arguments passed on are null |
| StrongAssert.TrueWithMessageFunc | src/Common/SqCommon/Utils/StrongAssert.cs:55-59 | with an empty argument array the built message follows ": " in the failure the listeners receive |
| ColorConsole.VT100ForeColorCode | src/Common/SqCommon/Utils/ColorConsole.cs:22-64 | every colour's sequence starts with ESC |
| ColorConsole.AnsiHue | src/Common/SqCommon/Utils/ColorConsole.cs:22-64 | a console colour's ANSI colour number is one of the eight |
| ColorConsole.CodeStructure | src/Common/SqCommon/Utils/ColorConsole.cs:22-64 | the Dark colours (DarkGray aside) are dim and the bright ones bold in their own ANSI colour; black is bold 30, gray and white bold 37, dark gray dim 37, anything else the reset sequence |
| ColorConsole.DimCode | src/Common/SqCommon/Utils/ColorConsole.cs:31-42 | each Dark colour other than DarkGray is dim in its own ANSI colour |
| ColorConsole.BoldCode | src/Common/SqCommon/Utils/ColorConsole.cs:46-57 | each bright colour is bold in its own ANSI colour |
| ColorConsole.CodesDistinct | src/Common/SqCommon/Utils/ColorConsole.cs:22-64 | two listed colours share a sequence only when they are gray and white |
| ColorConsole.Console.constructor | src/Common/SqCommon/Utils/ColorConsole.cs:19-21 | a console with the given platform and colours, and nothing written |
| ColorConsole.Console.ColorBegin | src/Common/SqCommon/Utils/ColorConsole.cs:67-95 | the colours given are switched to and the ones they replace are returned; on Linux the foreground is written as an escape sequence instead of set |
| ColorConsole.Console.ColorRestore | src/Common/SqCommon/Utils/ColorConsole.cs:97-113 | the returned colours are switched back, the foreground written as an escape sequence on Linux |
| ColorConsole.Console.Write | src/Common/SqCommon/Utils/ColorConsole.cs:140-151 | the time stamp in the original colours, the value in the given colours, then the original colours again; the console's colours end as they began |
| FirewallPreAuth.PrefixIgnoringCaseIsStartsWith | src/WebServer/SqCoreWeb/AspMiddleware/SqFirewallMiddlewarePreAuthLogger.cs:129 | comparing the prefix character by character ignoring case is the same as a case-insensitive starts-with |
| FirewallPreAuth.IsHttpRequestOnBlacklist | src/WebServer/SqCoreWeb/AspMiddleware/SqFirewallMiddlewarePreAuthLogger.cs:124-135 | the loop over the entries reports a path exactly when some entry starts it segment-wise, ignoring case |
| FirewallPreAuth.NotBlacklisted | src/WebServer/SqCoreWeb/AspMiddleware/SqFirewallMiddlewarePreAuthLogger.cs:122-135 | a path that no entry starts is let through |
| FirewallPreAuth.NoSegmentMatchAt | src/WebServer/SqCoreWeb/AspMiddleware/SqFirewallMiddlewarePreAuthLogger.cs:129 | an entry longer than the path does not start it |
| FirewallPreAuth.CorporateSubpathPasses | src/WebServer/SqCoreWeb/AspMiddleware/SqFirewallMiddlewarePreAuthLogger.cs:122-131 | as written the entry "/corporate/" lets through every page under it whose name does not start with another '/' |
| FirewallPreAuth.NoEntryButCorporateStarts | src/WebServer/SqCoreWeb/AspMiddleware/SqFirewallMiddlewarePreAuthLogger.cs:122 | no entry but "/corporate/" starts a path whose second character is 'c' |
| FirewallPreAuth.CorporateDoubleSlashRefused | src/WebServer/SqCoreWeb/AspMiddleware/SqFirewallMiddlewarePreAuthLogger.cs:122-131 | the entry "/corporate/" only refuses a path going on with a second '/' |
| FirewallPreAuth.DoubleSlashPathPasses | src/WebServer/SqCoreWeb/AspMiddleware/SqFirewallMiddlewarePreAuthLogger.cs:122-131 | as written the entry "//" lets through every path starting with two slashes and a name |
| FirewallPreAuth.IntendedRefusesWritten | src/WebServer/SqCoreWeb/AspMiddleware/SqFirewallMiddlewarePreAuthLogger.cs:122-131 | the intended test refuses everything the written one refuses |
| FirewallPreAuth.IntendedRefusesSubpaths | src/WebServer/SqCoreWeb/AspMiddleware/SqFirewallMiddlewarePreAuthLogger.cs:122-131 | the intended test also refuses every path under "/corporate/" and every path starting with "//" |
| FirewallPreAuth.IsHttpRequestOnWhitelist | src/WebServer/SqCoreWeb/AspMiddleware/SqFirewallMiddlewarePreAuthLogger.cs:137-140 | every request is on the whitelist |
| FirewallPreAuth.IsSendableToHealthMonitor | src/WebServer/SqCoreWeb/AspMiddleware/SqFirewallMiddlewarePreAuthLogger.cs:155-171 | every exception except Kestrel's bad-request exception is sent |
| FirewallPreAuth.IsError | src/WebServer/SqCoreWeb/AspMiddleware/SqFirewallMiddlewarePreAuthLogger.cs:83-88 | a request is an error exactly when it raised an exception or its status code is above 499 |
| FirewallPreAuth.Newest | src/WebServer/SqCoreWeb/AspMiddleware/SqFirewallMiddlewarePreAuthLogger.cs:91-93 | the log keeps at most 500 entries, the newest ones, in order, and all of them when there are no more |
| FirewallPreAuth.RequestLogs.constructor | src/WebServer/SqCoreWeb/AspMiddleware/SqFirewallMiddlewarePreAuthLogger.cs:89 | the request log starts empty |
| FirewallPreAuth.RequestLogs.Add | src/WebServer/SqCoreWeb/AspMiddleware/SqFirewallMiddlewarePreAuthLogger.cs:89-94 | the entry is queued and the oldest entries dropped while more than 500 are kept; the new entry is the last one |
| FirewallPreAuth.RequestLogs.Invoke | src/WebServer/SqCoreWeb/AspMiddleware/SqFirewallMiddlewarePreAuthLogger.cs:43-119 | a blacklisted request is terminated and not logged; any other is passed on, logged with its error status, and its exception reported exactly when it is sendable |
| FirewallPostAuth.GetExtension | src/WebServer/SqCoreWeb/AspMiddleware/SqFirewallMiddlewarePostAuth.cs:46 | the extension is the text from the last '.' when no '/' follows it and it is not last |
| FirewallPostAuth.ExtensionBeforeFinds | src/WebServer/SqCoreWeb/AspMiddleware/SqFirewallMiddlewarePostAuth.cs:46 | the backwards scan finds the extension exactly when there is one, and then that one |
| FirewallPostAuth.GetExtensionMeaning | src/WebServer/SqCoreWeb/AspMiddleware/SqFirewallMiddlewarePostAuth.cs:46 | the extension is empty exactly when the path has none, and otherwise is the one it has |
| FirewallPostAuth.NoDotNoExtension | src/WebServer/SqCoreWeb/AspMiddleware/SqFirewallMiddlewarePostAuth.cs:46 | a path without a dot has no extension |
| FirewallPostAuth.IsAllowedRequest | src/WebServer/SqCoreWeb/AspMiddleware/SqFirewallMiddlewarePostAuth.cs:46-62 | for a user who is not known and authorized: an HTML page only when it is "/index.html" on a host starting with "sqcore.net"; an extension-less path only when it is the login API; anything else always |
| FirewallPostAuth.DotsIgnoringCase | src/WebServer/SqCoreWeb/AspMiddleware/SqFirewallMiddlewarePostAuth.cs:58 | texts equal ignoring case have their dots at the same places |
| FirewallPostAuth.LoginAlwaysAllowed | src/WebServer/SqCoreWeb/AspMiddleware/SqFirewallMiddlewarePostAuth.cs:56-59 | the login API is reachable on every host, in any letter case |
| FirewallPostAuth.ResourcesAllowed | src/WebServer/SqCoreWeb/AspMiddleware/SqFirewallMiddlewarePostAuth.cs:61-62 | a path with a non-HTML extension passes whatever the host and the user |
| FirewallPostAuth.HtmlOnlyMainIndex | src/WebServer/SqCoreWeb/AspMiddleware/SqFirewallMiddlewarePostAuth.cs:49-55 | a path ending in ".html" is let through exactly when it is the main domain's "/index.html" |
| FirewallPostAuth.HttpResponse.constructor | src/WebServer/SqCoreWeb/AspMiddleware/SqFirewallMiddlewarePostAuth.cs:66 | a new response has no redirect |
| FirewallPostAuth.Invoke | src/WebServer/SqCoreWeb/AspMiddleware/SqFirewallMiddlewarePostAuth.cs:27-75 | a known, authorized user always goes on; any other request goes on exactly when it is allowed, and is otherwise answered with a permanent redirect to "/UserAccount/login" |
| SubdomainRewrite.Rewritten | src/WebServer/SqCoreWeb/AspMiddleware/SubdomainRewriteOptionsRule.cs:25-65 | a host that does not start with the subdomain, or an exempt path, is left alone; otherwise the subdomain leaves the host (the port stays) and the replacement prefix goes before the path |
| SubdomainRewrite.HttpRequest.constructor | src/WebServer/SqCoreWeb/AspMiddleware/SubdomainRewriteOptionsRule.cs:27-28 | a request with the given host, port and path |
| SubdomainRewrite.ApplyRuleForSubdomain | src/WebServer/SqCoreWeb/AspMiddleware/SubdomainRewriteOptionsRule.cs:25-65 | the request becomes the rewrite of one rule |
| SubdomainRewrite.ApplyRule | src/WebServer/SqCoreWeb/AspMiddleware/SubdomainRewriteOptionsRule.cs:17-23 | the three rules, dashboard, healthmonitor and tools, are applied in order to the same request |
| SubdomainRewrite.OtherHostsUntouched | src/WebServer/SqCoreWeb/AspMiddleware/SubdomainRewriteOptionsRule.cs:17-31 | a host on none of the subdomains is not touched |
| SubdomainRewrite.ExemptPathsUntouched | src/WebServer/SqCoreWeb/AspMiddleware/SubdomainRewriteOptionsRule.cs:37-42 | a sign-in route, a hub or an API path is not touched, whatever the host |
| SubdomainRewrite.DashboardServed | src/WebServer/SqCoreWeb/AspMiddleware/SubdomainRewriteOptionsRule.cs:20-60 | a request on "dashboard." is served from "/webapps/MarketDashboard" on the main host and port |
| WsUtils.FirstEmail | src/WebServer/SqCoreWeb/WsUtils/WsUtils.cs:16-17 | the value of the first e-mail claim, or "" when there is none |
| WsUtils.GetRequestUser | src/WebServer/SqCoreWeb/WsUtils/WsUtils.cs:14-18 | the e-mail claim of the user; "" without a user or without the claim |
| WsUtils.HeaderValue | src/WebServer/SqCoreWeb/WsUtils/WsUtils.cs:47-57 | the header's value, or null exactly when it is absent or empty |
| WsUtils.FirstNonBlank | src/WebServer/SqCoreWeb/WsUtils/WsUtils.cs:25-44 | the first candidate that is neither null nor blank; none exactly when all are |
| WsUtils.FirstNonBlankOfThree | src/WebServer/SqCoreWeb/WsUtils/WsUtils.cs:25-44 | the first usable of three candidates, case by case |
| WsUtils.FirstNonBlankOfOne | src/WebServer/SqCoreWeb/WsUtils/WsUtils.cs:41-44 | one candidate is used exactly when it is not blank |
| WsUtils.GetRequestIP | src/WebServer/SqCoreWeb/WsUtils/WsUtils.cs:22-45 | the IP reported is the first usable of X-Forwarded-For, Forwarded and the remote address, else "<Unknown IP>" |
| WsUtils.RequestIpChoice | src/WebServer/SqCoreWeb/WsUtils/WsUtils.cs:22-45 | the reported IP is never blank; a usable X-Forwarded-For header always wins, and the Forwarded header comes next |
| WsUtils.HeadersIgnored | src/WebServer/SqCoreWeb/WsUtils/WsUtils.cs:22-45 | without the header option the headers play no part |
| WsUtils.LowerIdempotent | src/WebServer/SqCoreWeb/WsUtils/WsUtils.cs:99 | lower-casing twice is lower-casing once |
| WsUtils.Lowered | src/WebServer/SqCoreWeb/WsUtils/WsUtils.cs:81-97 | the configured addresses, each lower-cased |
| WsUtils.AuthorizedUsers.constructor | src/WebServer/SqCoreWeb/WsUtils/WsUtils.cs:75 | the list starts unbuilt |
| WsUtils.AuthorizedUsers.IsAuthorizedGoogleUsers | src/WebServer/SqCoreWeb/WsUtils/WsUtils.cs:77-101 | the list is built once from the configured addresses, lower-cased, and the address is authorized exactly when it equals one of them ignoring case |
| WsUtils.AuthorizedUsers.CheckAuthorizedGoogleEmail | src/WebServer/SqCoreWeb/WsUtils/WsUtils.cs:59-73 | a DEBUG build lets every request through; otherwise no e-mail gives UserUnknown, a configured one UserKnownAuthOK and any other UserKnownAuthNotEnugh |
| Startup.RewriteIndex | src/WebServer/SqCoreWeb/Startup.cs:187-190 | the root path becomes "/index.html" and a folder path ending in '/' gets "index.html" appended; other paths are kept |
| Startup.FilesNotRewritten | src/WebServer/SqCoreWeb/Startup.cs:187-190 | a path naming a file (not ending in '/') passes the rewriter unchanged |
| Startup.DoubleSlashFolded | src/WebServer/SqCoreWeb/Startup.cs:189 | a leading double slash "//a/" is rewritten to "/a/index.html", losing one '/' |
| Startup.MaxBrowserCacheAge | src/WebServer/SqCoreWeb/Startup.cs:240-248 | every extension gets a positive browser cache age |
| Startup.HtmlCacheAges | src/WebServer/SqCoreWeb/Startup.cs:240-248 | ".html" is cached 8 days (the first arm shadows the 8-hour arm), ".htm" 8 hours, and the case-sensitive match sends ".HTML" to the 350-day default |
| Startup.CacheHeader | src/WebServer/SqCoreWeb/Startup.cs:228-258 | a Cache-Control header is set exactly outside development for a path with an extension, public with the extension's max-age |
| Startup.StaticFilesCached | src/WebServer/SqCoreWeb/Startup.cs:228-258 | in production every file with an extension is cached for at least 8 hours |
| QuickfolioNews.FeedNews | src/WebServer/SqCoreWeb/projects/MarketDashboard/src/app/quickfolio-news/QuickfolioNewsDownloader.cs:107-123 | one news item per feed entry, in feed order, carrying the entry's first link, title, summary, date, the ticker and the source name |
| QuickfolioNews.ReadRss | src/WebServer/SqCoreWeb/projects/MarketDashboard/src/app/quickfolio-news/QuickfolioNewsDownloader.cs:93-131 | the feed's items, or an empty list when the download fails or an entry has no link |
| QuickfolioNews.StockNewsTickers | src/WebServer/SqCoreWeb/projects/MarketDashboard/src/app/quickfolio-news/QuickfolioNewsDownloader.cs:58-68 | every collected stock item is a Yahoo item of one of the 13 stocks |
| QuickfolioNews.GetStockNews | src/WebServer/SqCoreWeb/projects/MarketDashboard/src/app/quickfolio-news/QuickfolioNewsDownloader.cs:58-68 | the Yahoo feeds of all stocks concatenated in stock order, every item tagged with its stock and "YahooRSS" |
| QuickfolioNews.LinkCount | src/WebServer/SqCoreWeb/projects/MarketDashboard/src/app/quickfolio-news/QuickfolioNewsDownloader.cs:86 | the count of remembered items with a link is zero exactly when no item has that link |
| QuickfolioNews.NewItemsLinks | src/WebServer/SqCoreWeb/projects/MarketDashboard/src/app/quickfolio-news/QuickfolioNewsDownloader.cs:80-91 | after a batch a link is remembered iff it was before or the batch has it |
| QuickfolioNews.NewItemsDistinct | src/WebServer/SqCoreWeb/projects/MarketDashboard/src/app/quickfolio-news/QuickfolioNewsDownloader.cs:80-91 | remembered news never holds two items with the same link |
| QuickfolioNews.FoundLinksRemembered | src/WebServer/SqCoreWeb/projects/MarketDashboard/src/app/quickfolio-news/QuickfolioNewsDownloader.cs:80-91 | every link of a found batch is remembered afterwards |
| QuickfolioNews.KnownBatchAddsNothing | src/WebServer/SqCoreWeb/projects/MarketDashboard/src/app/quickfolio-news/QuickfolioNewsDownloader.cs:86-90 | a batch whose links are all known adds nothing |
| QuickfolioNews.AddingTwiceIsAddingOnce | src/WebServer/SqCoreWeb/projects/MarketDashboard/src/app/quickfolio-news/QuickfolioNewsDownloader.cs:80-91 | adding the same batch again changes nothing (idempotence) |
| QuickfolioNews.InsertByDate | src/WebServer/SqCoreWeb/projects/MarketDashboard/src/app/quickfolio-news/QuickfolioNewsDownloader.cs:73 | inserting an item into the ordering step keeps exactly the items plus the new one |
| QuickfolioNews.OrderByPublishDate | src/WebServer/SqCoreWeb/projects/MarketDashboard/src/app/quickfolio-news/QuickfolioNewsDownloader.cs:73 | the publish-date ordering keeps the number of items |
| QuickfolioNews.InsertByDateBound | src/WebServer/SqCoreWeb/projects/MarketDashboard/src/app/quickfolio-news/QuickfolioNewsDownloader.cs:73 | a lower bound on the dates survives the insertion step |
| QuickfolioNews.InsertByDateSorted | src/WebServer/SqCoreWeb/projects/MarketDashboard/src/app/quickfolio-news/QuickfolioNewsDownloader.cs:73 | inserting into a date-ordered list keeps it date-ordered |
| QuickfolioNews.InsertByDateKeepsDates | src/WebServer/SqCoreWeb/projects/MarketDashboard/src/app/quickfolio-news/QuickfolioNewsDownloader.cs:73 | insertion keeps the relative order of the items of each date |
| QuickfolioNews.OrderByPublishDateMeaning | src/WebServer/SqCoreWeb/projects/MarketDashboard/src/app/quickfolio-news/QuickfolioNewsDownloader.cs:73 | `OrderBy(x => x.PublishDate)` is sorted, a permutation of its input and stable |
| QuickfolioNews.NewsToString | src/WebServer/SqCoreWeb/projects/MarketDashboard/src/app/quickfolio-news/QuickfolioNewsDownloader.cs:70-77 | the concatenated records of the items in stable publish-date order |
| QuickfolioNews.NewsDownloader.constructor | src/WebServer/SqCoreWeb/projects/MarketDashboard/src/app/quickfolio-news/QuickfolioNewsDownloader.cs:36 | the news memory starts empty |
| QuickfolioNews.NewsDownloader.AddFoundNews | src/WebServer/SqCoreWeb/projects/MarketDashboard/src/app/quickfolio-news/QuickfolioNewsDownloader.cs:80-91 | the id's list (created if missing) gets the not-yet-known items appended in found order; no other id changes |
| QuickfolioNews.NewsDownloader.GetCommonNews | src/WebServer/SqCoreWeb/projects/MarketDashboard/src/app/quickfolio-news/QuickfolioNewsDownloader.cs:39-56 | the CNBC feed is read at most five times, stopping at the first non-empty read; the last read is added under id 0 and id 0's list is returned |
| JsLogger.ConsoleMethodFor | src/WebServer/SqCoreWeb/wwwroot/ts/sq-ngx-logger/logger.service.ts:70-93 | WARN goes to console.warn, ERROR and FATAL to console.error, INFO to console.info and every other level to console.log |
| JsLogger.FalsyMessageIgnored | src/WebServer/SqCoreWeb/wwwroot/ts/sq-ngx-logger/logger.service.ts:105-107 | a falsy message neither posts nor writes |
| JsLogger.PostMeaning | src/WebServer/SqCoreWeb/wwwroot/ts/sq-ngx-logger/logger.service.ts:102-152 | a call posts to "/JsLog" iff the message is truthy and server logging is on for the level, and the post comes first |
| JsLogger.ConsoleMeaning | src/WebServer/SqCoreWeb/wwwroot/ts/sq-ngx-logger/logger.service.ts:103-160 | a call writes to the console iff the message is truthy, the level is enabled and console logging is not disabled, through the level's console method |
| JsLogger.TraceServerLevelPostsNothing | src/WebServer/SqCoreWeb/wwwroot/ts/sq-ngx-logger/logger.service.ts:102 | a server level of TRACE (0, falsy) switches server logging off |
| JsLogger.ErrorsSentAsStack | src/WebServer/SqCoreWeb/wwwroot/ts/sq-ngx-logger/logger.service.ts:133-159 | an Error object posted to the server reaches both the server and the console as its stack |
| JsLogger.ProductionSetting | src/WebServer/SqCoreWeb/wwwroot/ts/sq-ngx-logger/logger.service.ts:23-24 | with console and server at ERROR, a WARN does nothing and an ERROR posts and writes |
| JsLogger.NgxLogger.constructor | src/WebServer/SqCoreWeb/wwwroot/ts/sq-ngx-logger/logger.service.ts:30-33 | the logger keeps its configuration and has done nothing yet |
| JsLogger.NgxLogger.LogModern | src/WebServer/SqCoreWeb/wwwroot/ts/sq-ngx-logger/logger.service.ts:63-94 | exactly one console line, through the level's method |
| JsLogger.NgxLogger.Log | src/WebServer/SqCoreWeb/wwwroot/ts/sq-ngx-logger/logger.service.ts:96-162 | the journal grows by the call's effects: the post, then the console line |
| EtTime.EtOffsetHoursAsWritten | src/WebServer/SqCoreWeb/projects/sq-ng-common/src/lib/sq-ng-common.utils_time.ts:18-20 | the offset as written is always -4 or -5 hours |
| EtTime.EtOffsetHours | src/WebServer/SqCoreWeb/projects/sq-ng-common/src/lib/sq-ng-common.utils_time.ts:18-20 | the intended offset is always -4 or -5 hours |
| EtTime.SundayReachedMeaning | src/WebServer/SqCoreWeb/projects/sq-ng-common/src/lib/sq-ng-common.utils_time.ts:19 | `date - dayOfWeek` is the day of the last Sunday, so comparing it with a bound tells whether the bound's week Sunday has passed |
| EtTime.WholeMonths | src/WebServer/SqCoreWeb/projects/sq-ng-common/src/lib/sq-ng-common.utils_time.ts:18-20 | January, February and December are winter time; April to October summer time |
| EtTime.MarchRule | src/WebServer/SqCoreWeb/projects/sq-ng-common/src/lib/sq-ng-common.utils_time.ts:19 | in March summer time holds exactly from the second Sunday on |
| EtTime.NovemberRule | src/WebServer/SqCoreWeb/projects/sq-ng-common/src/lib/sq-ng-common.utils_time.ts:19 | in November winter time holds exactly from the first Sunday on |
| EtTime.AsWrittenAgrees | src/WebServer/SqCoreWeb/projects/sq-ng-common/src/lib/sq-ng-common.utils_time.ts:19 | the written rule differs from the intended one only in a November whose first Sunday is the 1st, during that first week |
| EtTime.FirstNovemberWeekMissed | src/WebServer/SqCoreWeb/projects/sq-ng-common/src/lib/sq-ng-common.utils_time.ts:19 | when November 1 is a Sunday the written rule keeps summer time for the first week although winter time has begun |
| EtTime.JsDate.constructor | src/WebServer/SqCoreWeb/projects/sq-ng-common/src/lib/sq-ng-common.utils_time.ts:29 | a date holds the time it was made with |
| EtTime.ConvertDateUtcToEt | src/WebServer/SqCoreWeb/projects/sq-ng-common/src/lib/sq-ng-common.utils_time.ts:14-25 | the given date is moved in place by the offset of its fields (under the corrected November rule) and returned; it moves back by between 4 and 5 hours |
| EtTime.ConvertDateLocToEt | src/WebServer/SqCoreWeb/projects/sq-ng-common/src/lib/sq-ng-common.utils_time.ts:28-31 | a new date built from the UTC fields to the minute, converted by its own offset (under the corrected November rule); the given date is left alone |
| RemoteFs.SlashIndex | src/WebServer/SqCoreWeb/Deploy.py:65 | the first '/' of a path text, with no '/' before it |
| RemoteFs.ComponentsOfJoin | src/WebServer/SqCoreWeb/Deploy.py:85 | joining two path texts with '/' joins their lists of names |
| RemoteFs.SlashesNameRoot | src/WebServer/SqCoreWeb/Deploy.py:55-58 | a path of slashes only, such as '/', names the root from any working directory |
| RemoteFs.RStripSlashKeeps | src/WebServer/SqCoreWeb/Deploy.py:65 | stripping the trailing slashes keeps the directory a path names |
| RemoteFs.SplitPathResolves | src/WebServer/SqCoreWeb/Deploy.py:65 | splitting a stripped path gives a shorter head naming the parent and a tail that is one name |
| RemoteFs.AncestorsAreDirs | src/WebServer/SqCoreWeb/Deploy.py:53-69 | on a well-formed server tree every ancestor of a directory is a directory |
| RemoteFs.NoFileOnWayToDir | src/WebServer/SqCoreWeb/Deploy.py:53-69 | no file stands on the way to an existing directory |
| RemoteFs.BelowThroughListed | src/WebServer/SqCoreWeb/Deploy.py:81-91 | everything strictly below a directory is reached through a name its listing returns |
| RemoteFs.Sftp.constructor | src/WebServer/SqCoreWeb/Deploy.py:128-130 | a session opens on a well-formed server tree in a given working directory |
| RemoteFs.Sftp.Chdir | src/WebServer/SqCoreWeb/Deploy.py:63-64 | chdir succeeds exactly when the path names a directory, which becomes the working directory; a failure changes nothing |
| RemoteFs.Sftp.RmRf | src/WebServer/SqCoreWeb/Deploy.py:118-125 | the remote rm -rf removes everything at and below the path, and refuses the root |
| RemoteFs.Sftp.Mkdir | src/WebServer/SqCoreWeb/Deploy.py:67 | mkdir adds exactly the new directory, and only inside an existing one |
| RemoteFs.Sftp.IsDir | src/WebServer/SqCoreWeb/Deploy.py:74-78 | isdir is true exactly for an existing directory; any error reads as false |
| RemoteFs.Sftp.Listdir | src/WebServer/SqCoreWeb/Deploy.py:82 | the listing holds exactly the names of the directory's entries; a missing directory is an error |
| RemoteFs.Sftp.Remove | src/WebServer/SqCoreWeb/Deploy.py:90 | remove deletes exactly that file and fails when there is none |
| RemoteFs.Sftp.Rmdir | src/WebServer/SqCoreWeb/Deploy.py:91 | rmdir deletes exactly an empty directory other than the root |
| RemoteFs.Sftp.Put | src/WebServer/SqCoreWeb/Deploy.py:184 | put adds exactly the file, in an existing directory |
| RemoteFs.Sftp.MkdirP | src/WebServer/SqCoreWeb/Deploy.py:53-69 | after mkdir_p the working directory is the named directory, it and its missing ancestors were created, files are untouched, the result says whether anything was created, and it fails exactly where a file is in the way |
| RemoteFs.Sftp.MkdirBelow | src/WebServer/SqCoreWeb/Deploy.py:63-69 | for a directory that is not there yet: the parent is made first, then the last name is created and entered; the result is true, every missing ancestor and the directory itself were added, and it fails exactly where a file is in the way |
| RemoteFs.Sftp.Rm | src/WebServer/SqCoreWeb/Deploy.py:81-91 | rm deletes the directory and everything below it; at the root the contents go but the final rmdir fails |
| RemoteFs.Sftp.RmOnlySubdirectories | src/WebServer/SqCoreWeb/Deploy.py:94-104 | everything below the directory goes and the directory stays, empty |
| RemoteFs.Sftp.RmChildren | src/WebServer/SqCoreWeb/Deploy.py:83-90 | the loop over the listing empties the directory whichever helper runs it |
| RemoteFs.Sftp.RmEntry | src/WebServer/SqCoreWeb/Deploy.py:86-90 | one listed entry is removed with everything below it |
| DeployWalk.Walk | src/WebServer/SqCoreWeb/Deploy.py:134-137 | the walk visits the top directory first |
| DeployWalk.WalkSound | src/WebServer/SqCoreWeb/Deploy.py:134-137 | every visit is a directory reached through names none of which is excluded, with its own files |
| DeployWalk.WalkComplete | src/WebServer/SqCoreWeb/Deploy.py:134-137 | every directory reached through names that are not excluded is visited, with its files |
| DeployWalk.WalkWellNamed | src/WebServer/SqCoreWeb/Deploy.py:134-137 | the walk of a well-named tree visits only well-named directories and files |
| DeployWalk.RelPathWinDot | src/WebServer/SqCoreWeb/Deploy.py:135-139 | the relative path is "." exactly at the root |
| DeployWalk.ReplaceChar | src/WebServer/SqCoreWeb/Deploy.py:153 | replace swaps exactly the occurrences of the one character |
| DeployWalk.RelPathLinuxJoins | src/WebServer/SqCoreWeb/Deploy.py:153 | the Linux relative path is the names joined by '/' |
| DeployWalk.FilesTraversed | src/WebServer/SqCoreWeb/Deploy.py:139-146 | the files of a directory are taken iff it is the root or its relative path starts with an accepted root |
| DeployWalk.SiblingPrefixAccepted | src/WebServer/SqCoreWeb/Deploy.py:142 | the test is on text: "wwwroot2" is taken because it starts with "wwwroot" |
| DeployWalk.LastDot | src/WebServer/SqCoreWeb/Deploy.py:148 | the index of the last '.' of a name |
| DeployWalk.SplitExtMeaning | src/WebServer/SqCoreWeb/Deploy.py:148 | the extension is empty or starts at the last '.', which is not in leading position, and ends the name |
| DeployWalk.Strip | src/WebServer/SqCoreWeb/Deploy.py:148 | strip leaves no white space at either end |
| DeployWalk.GoodFiles | src/WebServer/SqCoreWeb/Deploy.py:148 | the kept files are exactly the files whose extension is not excluded and whose name does not end in ".lock.json" |
| DeployWalk.DotFilesHaveNoExtension | src/WebServer/SqCoreWeb/Deploy.py:148 | ".md" and "..sh" have no extension, so they are kept |
| DeployWalk.ExtensionTrimmedAndLowered | src/WebServer/SqCoreWeb/Deploy.py:148 | "README.MD " is compared as "md" |
| DeployWalk.LockFilesDropped | src/WebServer/SqCoreWeb/Deploy.py:148 | "project.lock.json" is dropped even with no excluded extension |
| DeployWalk.DeployedOf | src/WebServer/SqCoreWeb/Deploy.py:149-158 | one deployed file per good file of a directory, in order |
| DeployWalk.DeployedFilesMeaning | src/WebServer/SqCoreWeb/Deploy.py:134-158 | a file is deployed iff a visit of a traversed directory lists it and it is good |
| DeployWalk.DeployedFilesStep | src/WebServer/SqCoreWeb/Deploy.py:134-158 | one more visit adds its good files when its directory is traversed |
| DeployWalk.Entries | src/WebServer/SqCoreWeb/Deploy.py:158 | one list entry per deployed file, in order |
| DeployWalk.ListFileRoundTrip | src/WebServer/SqCoreWeb/Deploy.py:164-168 | the list file written with newlines splits back into the entries |
| DeployWalk.DeployedWellNamed | src/WebServer/SqCoreWeb/Deploy.py:134-158 | every deployed file of a well-named tree has well-formed names |
| DeployWalk.ListFileOfTreeRoundTrip | src/WebServer/SqCoreWeb/Deploy.py:164-168 | the list file of a well-named tree splits back into its entries |
| WebDeploy.RemoteNames | src/WebServer/SqCoreWeb/Deploy.py:38-43 | the remote root's text names the remote root and the archive's text the archive inside it |
| WebDeploy.ShippedListReadsBack | src/WebServer/SqCoreWeb/Deploy.py:164-168 | the list file's lines are the entries of the shipped files |
| WebDeploy.ShippedMeaning | src/WebServer/SqCoreWeb/Deploy.py:133-158 | a file is shipped iff a traversed directory the walk reaches holds it and it is good |
| WebDeploy.AppendGoodFiles | src/WebServer/SqCoreWeb/Deploy.py:149-158 | each good file's entry is appended, in order |
| WebDeploy.CollectFileNames | src/WebServer/SqCoreWeb/Deploy.py:133-158 | the collected names are the entries of the deployed files of all visits |
| WebDeploy.UploadArchive | src/WebServer/SqCoreWeb/Deploy.py:180-184 | on an emptied remote root, mkdir_p creates the root and put places the archive there; it fails iff a file is in the way |
| WebDeploy.Deploy | src/WebServer/SqCoreWeb/Deploy.py:118-184 | files outside the remote root are untouched; the list file holds the shipped entries; on success the remote root holds exactly the archive |
| BenchmarkDeploy.RemoteRootNames | src/Tools/BenchmarkDB/Deploy.py:18 | the remote root's text names the remote root |
| BenchmarkDeploy.RemotePaths | src/Tools/BenchmarkDB/Deploy.py:124-127 | a landing place is exactly the remote root, a file's directory names and its name |
| BenchmarkDeploy.ShippedFromTree | src/Tools/BenchmarkDB/Deploy.py:104-127 | every good file of a kept, traversed directory is shipped to its image under the remote root |
| BenchmarkDeploy.ShippedHasSource | src/Tools/BenchmarkDB/Deploy.py:104-127 | every shipped path is the image of such a file |
| BenchmarkDeploy.RemoteTextsResolve | src/Tools/BenchmarkDB/Deploy.py:119-127 | remoteDir names the directory's image under the remote root and remoteDir + f the file's |
| BenchmarkDeploy.RootTextsResolve | src/Tools/BenchmarkDB/Deploy.py:120-124 | at the local root remoteDir names the remote root |
| BenchmarkDeploy.NestedTextsResolve | src/Tools/BenchmarkDB/Deploy.py:122-124 | below the local root remoteDir names the remote root followed by the relative path's names |
| BenchmarkDeploy.WalkVisitsWellNamed | src/Tools/BenchmarkDB/Deploy.py:104-107 | the walk of a well-named tree visits only well-named directories |
| BenchmarkDeploy.UploadFile | src/Tools/BenchmarkDB/Deploy.py:124-127 | mkdir_p then put adds exactly that file's image, or nothing on error |
| BenchmarkDeploy.UploadedOneMore | src/Tools/BenchmarkDB/Deploy.py:119-127 | one more uploaded file adds its image below the root and changes nothing outside it |
| BenchmarkDeploy.UploadGoodFiles | src/Tools/BenchmarkDB/Deploy.py:119-127 | on success the images of a directory's good files are added below the root; nothing outside it changes |
| BenchmarkDeploy.UploadVisits | src/Tools/BenchmarkDB/Deploy.py:104-127 | on success the images of all deployed files are added; nothing outside the root changes |
| BenchmarkDeploy.Deploy | src/Tools/BenchmarkDB/Deploy.py:88-127 | files outside the remote root are untouched; on success the files below it are exactly the images of the deployed files |
| DebugTask.WordLength | src/WebServer/SqCoreWeb/preDebugTask_Laci.py:8 | the length of the leading run without white space |
| DebugTask.Words | src/WebServer/SqCoreWeb/preDebugTask_Laci.py:8 | split() yields words without white space |
| DebugTask.WordsOfJoin | src/WebServer/SqCoreWeb/preDebugTask_Laci.py:8 | words joined by single spaces split back into the same words |
| DebugTask.LinePidOfRow | src/WebServer/SqCoreWeb/preDebugTask_Laci.py:7-12 | a tasklist row (image name, PID, further columns) names its PID |
| DebugTask.PidsOfMeaning | src/WebServer/SqCoreWeb/preDebugTask_Laci.py:7-12 | a PID is recorded exactly when some line names it |
| DebugTask.CollectPreTaskIds | src/WebServer/SqCoreWeb/preDebugTask_Laci.py:5-12 | preTaskIds holds the PIDs of the lines of the first list, in order |
| DebugTask.Chosen | src/WebServer/SqCoreWeb/preDebugTask_Laci.py:19-30 | the chosen PID is -1 or a PID that was not in the first list |
| DebugTask.ChosenMeaning | src/WebServer/SqCoreWeb/preDebugTask_Laci.py:19-30 | -1 exactly when no line is a new "node" PID line; otherwise the PID of the last such line |
| DebugTask.ChooseWatchTask | src/WebServer/SqCoreWeb/preDebugTask_Laci.py:19-30 | the loop leaves watchTaskID at the chosen PID |
| DebugTask.ToMinute | src/WebServer/SqCoreWeb/preDebugTask_Laci.py:34 | cutting to the minute drops less than a minute |
| DebugTask.ParseStamp | src/WebServer/SqCoreWeb/postDebugTask_Laci.py:12 | a parsed stamp is a valid moment to the minute |
| DebugTask.DashFieldsOfJoin | src/WebServer/SqCoreWeb/postDebugTask_Laci.py:12 | fields joined by hyphens split back into the same fields |
| DebugTask.ParseStampOfFormat | src/WebServer/SqCoreWeb/postDebugTask_Laci.py:12 | parsing the stamp the pre-debug script writes gives back its moment, cut to the minute |
| DebugTask.PyIntOfText | src/WebServer/SqCoreWeb/postDebugTask_Laci.py:15 | int(str(n)) is n |
| DebugTask.WatchFileWords | src/WebServer/SqCoreWeb/postDebugTask_Laci.py:9 | the file's two words are the stamp and the PID |
| DebugTask.PostReadsPreFile | src/WebServer/SqCoreWeb/postDebugTask_Laci.py:4-15 | the post-debug script reads the written PID back when less than a day has passed since the stamp, and -1 otherwise |
| DebugTask.PostSoonAfterPre | src/WebServer/SqCoreWeb/postDebugTask_Laci.py:4-15 | run within 23 h 59 min of the pre-debug script, the post-debug script gets the PID back |
| DebugTask.DevHost.constructor | src/WebServer/SqCoreWeb/postDebugTask_Laci.py:5-6 | a host starts with the given watch file and no commands |
| DebugTask.DevHost.PreDebugTask | src/WebServer/SqCoreWeb/preDebugTask_Laci.py:5-34 | the chosen PID from the two process lists, one tsc --watch launch and the file "stamp PID" written |
| DebugTask.DevHost.PostDebugTask | src/WebServer/SqCoreWeb/postDebugTask_Laci.py:4-19 | the result is what the file gives; a nonnegative PID has its file removed and taskkill run on it; otherwise nothing changes |
| DebugTask.DebugSession | src/WebServer/SqCoreWeb/postDebugTask_Laci.py:17-19 | the two scripts within a day kill the chosen task and remove its file, or, with none chosen, leave the file and kill nothing |

## Left out

- I/O and the network: the HTTP downloads (IEX, Yahoo, RSS), SMTP, Redis and the TCP connection to HealthMonitor are inputs or out of scope. A download is the text it returned, or `None`/an error when it threw. `HealthMonitor.HealthMonitorMessage.SendMessage` takes as inputs the outcome of the connect and of the writes: all returned, or the stream threw after taking some number of bytes.
- Concurrency: timers, locks, `ManualResetEventSlim` and thread-pool work items are out of scope. Each callback is modelled as the sequential decision it makes. Interleavings of callbacks are not modelled.
- Floating point: prices are `real`, and a float parse is an opaque function parameter. `TrimExcess`'s `(int)(len * 0.9)` is taken as `len * 9 / 10`, which agrees for every int32 length. Price formatting with `"0.###"` is an opaque parameter.
- Time zones and the calendar: UTC to Eastern Time conversion, `TimeZoneInfo`, `GetNthXDayOfAMonth`, and the Unix-time branch of `DateOnly(int)` are not modelled. Moments are tick counts or day numbers passed in.
- `SplitStringByCommaWithRegex` is not modelled, because it relies on the .NET regex engine. The char-array split is modelled.
- `DateOnly`'s `PrevWeekdayIndex` is not modelled, nor `DateTimeAsInt`'s constructor, `CompareTo` and `AddDays`. Only `CanBeRepresentedExactly` and its inverse are kept.
- Text handling: `ToLower`, `Strip` and digit tests cover ASCII and the white space .NET and Python name. Unicode case mapping and Unicode digits are not modelled.
- FinTimeSeries value buffers are sequences inside a map, not shared arrays. The aliasing of value arrays (`GetValue1ArrayDirect`, the bulk constructor keeping the caller's arrays) is therefore not modelled.
- `TimeSeries.FinTimeSeries`: the enumerators, the `KeyList`/`ValueList` views, `IndexOfValue` and the exception message strings are not modelled.
- `MemDbModel.MemDb.HistoricalDataReloadAndSetTimer`: the reloaded history is a value per security. Replacing `DailyHistory` in place is not modelled, and neither is the timer's due-time arithmetic in `TimeSpan`.
- `YahooForwarder.GenerateYffResponse`: the crumb refresh, the period conversion and the download are one input, the downloaded text or the exception message. The `StringBuilder` is modelled as a text field that is appended to.
- `HealthMonitor`: the HealthMonitor host that receives messages is not part of this model.
- `ColorConsole.Console`: only the colour state and the text written are modelled. The operating-system check is an input.
- `QuickfolioNews.NewsDownloader.GetCommonNews`: the random sleep between tries is not modelled. `GetUnixTimestamp`, which ignores its argument and reads the clock, is not modelled.
- `DateUtils.OfDate` requires a valid calendar date. The `ArgumentOutOfRangeException` that `new DateTime` throws for an invalid one is not modelled.
- `MktHealthHub.StatOf` reads the period from the period start or the last stored day before it, the corrected half of the finding on line 99 of `DashboardPushHub_mktHealth.cs`. When 31 December is not a stored day (a weekend or holiday), the code as written gets -1 from `IndexOfKey` and the statistics throw; the model gives the figures from the day before. `MktHealthHub.PeriodStatsAsWrittenOf` and `MktHealthHub.PeriodStartOnWeekendFails` model the code as written.
- `MktHealthHub.CollectStats` inherits the corrected period-start lookup from `MktHealthHub.StatOf`. Where 31 December is not a stored day it gives statistics where the code as written throws.
- `MktHealthHub.MktHealthHubState.OnConnected` inherits the corrected period-start lookup from `MktHealthHub.StatOf`. The two clock reads (today's Eastern date and, inside the query, the Eastern instant for the previous-close test) are taken to fall on the same day. The query is lazy in the source and runs while `SendAsync` serializes it; the model computes it at once and returns a failure rather than raising it inside the send.
- `MktHealthHub.MktHealthHubState.Elapsed`: `GetLastRtPrice` builds its result with a lazy `Select` (lines 152-156 of `MemDbRt.cs`). A missing SecID therefore throws only while `SendAsync` serializes the prices, after the timer was re-armed, once per connection. The model returns that failure as `Err` from the read.
- `EtTime.OffsetAt` uses the corrected November rule (`date - dayOfWeek >= 1`), the corrected half of the finding on line 19 of `sq-ng-common.utils_time.ts`. For 1-7 November 2026 the code as written keeps the summer offset -4 and the model gives -5. `EtTime.EtOffsetHoursAsWritten` and `EtTime.FirstNovemberWeekMissed` model the code as written.
- `EtTime.ConvertDateUtcToEt` inherits the corrected November rule from `EtTime.OffsetAt`. In the first week of November 2026 it moves the date back 5 hours where the code as written moves it back 4.
- `EtTime.ConvertDateLocToEt` inherits the corrected November rule through `EtTime.ConvertDateUtcToEt`, with the same difference in the first week of November 2026.
- `DateUtils.RoundAsWritten` takes `ticks + (p >> 1)` as an exact sum. The int64 overflow of that sum, for tick counts within half a period of `long.MaxValue`, is not modelled.
- `StrongAssert.FailCore`: the doc comment of the `Freeze` severity says it throws an exception, but the code exits the process with -1, as for `Halt`. The model follows the code.
- `YahooForwarder.IsLetter` is an ASCII letter test. `Char.IsLetter` also accepts the other Unicode letters, which the model does not.
- `ColorConsole.Console.Write` and `StrongAssert.FailCore` end lines with "\n". On Windows `Environment.NewLine` is "\r\n", which is not modelled.
- `FirewallPreAuth` and `FirewallPostAuth`: the NLog and console logging of refused and failed requests is not modelled, nor the informational log line of `StrongAssert.FailCore`.
- `SubdomainRewrite.ApplyRule`: paths are plain text. The escaping `PathString` applies to a rewritten path is not modelled.
- `QuickfolioNews.ToNewsItem`: a feed entry without a title or a summary throws a `NullReferenceException` in the source. The model has no null texts.
- `JsLogger.NgxLogger.Log`: `prepareMessage`'s formatting of non-text messages and the `console.error` after a failed server post are not modelled.
- `WsUtils.AuthorizedUsers.IsAuthorizedGoogleUsers`: a configuration value that is null is not modelled. The configured list is always present.
- `ClrText.IndexOf` is an ordinal search. A call the source makes with the culture-sensitive default comparison is modelled as ordinal.
- `TimeSeries.FinTimeSeries.SetCapacity` copies the buffers as values. The source copies by enumerating the series while it writes the new buffers, which the model does not reproduce.
- `Utf8.Decode` decodes one buffer. An unfinished sequence at its end yields nothing; the decoder's carrying those bytes over into its next call is not modelled.
- `WebDeploy.Deploy` writes the list file with "\n" line ends. Python in text mode on Windows writes "\r\n", which is not modelled.
- `RemoteFs.Sftp.MkdirP` requires that the session's working directory exists. The scripts always start from the login directory.
- `RemoteFs.Sftp.MkdirP` returns `Err` where a file blocks the path. The script raises an uncaught `IOError` there; the model does not say which call raised it.
- `RemoteFs.Sftp.IsDir`: an `IOError` from `stat` reads as false, as in the scripts. Other exceptions are not modelled.
- The local side of the deploy scripts: `os.path.isfile` of each listed file is taken to hold, since the walk just listed it. The archive's contents, the `7z` packing and unpacking, and the `ssh` command output are not modelled. The `rm -rf` runs on the parsed remote root, with the root itself refused, as with `--preserve-root`.
- `DeployWalk`: the local tree is assumed well named (Windows names: no separators, no control characters). A backslash inside a remote path name is not modelled.
- `WebDeploy.Deploy`: `use7zip` is a constant `True`, so the per-file upload branch is dead and not modelled. The remote root's text is the literal from the script, and the model proves that it names the remote root.
- `BenchmarkDeploy.Deploy`: on `Err` the model only says that nothing outside the remote root changed. It does not say which upload failed.
- The `print` calls and the colours of the scripts are not modelled.
- `DebugTask.DevHost.PreDebugTask`: years below 1000 are excluded, because `strftime("%Y")` does not pad them to four digits on every platform.
- `DebugTask`: the `tasklist` output is given as its lines, already split. Printing the PID is not modelled.
- `DebugTask.PostDebugTask`: `total_seconds()` is a float. The model compares exact microsecond counts, which gives the same answer for every pair of moments `datetime` can hold.
- `DebugTask.DebugSession` is not a source function. It composes the pre-debug and post-debug scripts to state their round trip.

## Findings

| source | as written | input that shows it | evidently intended | confidence | as-written member | corrected member |
|---|---|---|---|---|---|---|
| src/Common/SqCommon/Utils/Utils_datetime.cs:549-550 | `DateOnly + int` forms `m_days + n` in int32 before saturating | `MaxValue + int.MaxValue` wraps to a negative sum and gives NO_DATE | saturate to MaxValue | not executed | DateUtils.AddAsWrittenWraps | DateUtils.Add |
| src/Common/SqCommon/Utils/Utils_datetime.cs:490-503 | `FromWeekdayIndex` estimates `((p << 3) + 2 - p) / 5` in int32 | p = 613566757 wraps to day 1; no date has that index, so the loop never ends | report the overflow for an index beyond MaxValue's | not executed | DateUtils.FromWeekdayIndexAsWrittenHangs | DateUtils.FromWeekdayIndex |
| src/Common/SqCommon/Utils/Utils_datetime.cs:225-231 | `Round` negates the period when the signs differ, then divides truncating | Round(-1 tick, 3) gives -3, though 0 is nearer | the nearest multiple, ties away from zero | not executed | DateUtils.RoundAsWrittenMissesNearest | DateUtils.Round |
| src/WebServer/SqCoreWeb/projects/MarketDashboard/src/app/market-health/DashboardPushHub_mktHealth.cs:99 | the period start is looked up with exact `IndexOfKey` | keys [100, 102] with a period start of 101 (a 31 December on a weekend) give -1 and the statistics fail | `IndexOfKeyOrBeforeKey`, as the variable name `iPeriodStartOrBefore` says | not executed | MktHealthHub.PeriodStartOnWeekendFails | MktHealthHub.PeriodStatsMeaning |
| src/Common/SqCommon/Utils/StrongAssert.cs:55-59 | the `True` overload taking a message function passes the built message with null arguments, and `Fail_core` (lines 94-98) appends a message only when the arguments are non-null | any failed check with a message function: the built text never reaches the failure message | pass an empty argument array so that the built text follows ": " | not executed | StrongAssert.MessageFuncIgnored | StrongAssert.TrueWithMessageFunc |
| src/WebServer/SqCoreWeb/AspMiddleware/SqFirewallMiddlewarePreAuthLogger.cs:122-131 | the prefixes "/corporate/" and "//" are compared by path segment | "/corporate/x" and "//x" are not refused | refuse every path starting with these texts | not executed | FirewallPreAuth.CorporateSubpathPasses | FirewallPreAuth.IntendedRefusesSubpaths |
| src/WebServer/SqCoreWeb/projects/sq-ng-common/src/lib/sq-ng-common.utils_time.ts:19 | November is winter time when `date - dayOfWeek > 1` | 1-7 November 2026 (1 November is a Sunday) keep the summer offset -4 | `>= 1`: winter time from the first Sunday | not executed | EtTime.FirstNovemberWeekMissed | EtTime.NovemberRule |
