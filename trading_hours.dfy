/**
 * The US market session of a moment, given as its Eastern-time clock reading
 * (the UTC-to-ET conversion is not part of this model). Holidays are not
 * considered.
 */
module TradingHoursRule {
  import opened Wrappers

  datatype TradingHours = PreMarket | RegularTrading | PostMarket | Closed

  datatype TradingHoursError = NotImplemented

  /** The session for an ET time of day, as the if-chain over seconds since midnight. */
  function UsaTradingHoursNow(hour: nat, minute: nat, second: nat): (r: TradingHours)
    requires hour < 24 && minute < 60 && second < 60
    ensures r == SessionOfSeconds(hour * 3600 + minute * 60 + second)
  {
    var nowTimeOnlySec := hour * 60 * 60 + minute * 60 + second;
    if nowTimeOnlySec < 4 * 60 * 60 then Closed
    else if nowTimeOnlySec < 9 * 60 * 60 + 30 * 60 then PreMarket
    else if nowTimeOnlySec < 16 * 60 * 60 then RegularTrading
    else if nowTimeOnlySec < 20 * 60 * 60 then PostMarket
    else Closed
  }

  /** The session boundaries, stated as ranges of seconds since midnight. */
  function SessionOfSeconds(s: nat): (r: TradingHours)
    ensures r == Closed <==> s < 14400 || 72000 <= s
    ensures r == PreMarket <==> 14400 <= s < 34200
    ensures r == RegularTrading <==> 34200 <= s < 57600
    ensures r == PostMarket <==> 57600 <= s < 72000
  {
    if s < 14400 then Closed
    else if s < 34200 then PreMarket
    else if s < 57600 then RegularTrading
    else if s < 72000 then PostMarket
    else Closed
  }

  /** The sessions read off the clock: 04:00, 09:30, 16:00 and 20:00 ET. */
  lemma SessionsOnTheClock(hour: nat, minute: nat, second: nat)
    requires hour < 24 && minute < 60 && second < 60
    ensures UsaTradingHoursNow(hour, minute, second) == RegularTrading <==> (hour > 9 || (hour == 9 && minute >= 30)) && hour < 16
    ensures UsaTradingHoursNow(hour, minute, second) == PreMarket <==> 4 <= hour && (hour < 9 || (hour == 9 && minute < 30))
    ensures UsaTradingHoursNow(hour, minute, second) == PostMarket <==> 16 <= hour < 20
    ensures UsaTradingHoursNow(hour, minute, second) == Closed <==> hour < 4 || 20 <= hour
  {
  }

  /** The regular-hours check is not implemented in the source: every call fails. */
  function DetermineUsaMarketTradingHours(timeUtcTicks: int): (r: Result<bool, TradingHoursError>)
    ensures r == Err(NotImplemented)
  {
    Err(NotImplemented)
  }
}
