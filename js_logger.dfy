/**
 * The browser-side logger: a message of a level goes to the console and, for
 * the levels configured for it, is posted to the server's "/JsLog" endpoint.
 * The effects of a call are modelled as a journal of what it posts and
 * writes, in order.
 */
module JsLogger {
  import opened Wrappers

  /** The levels, by their position in `Levels`. */
  type Level = l: int | 0 <= l < 8

  const TRACE: Level := 0
  const DEBUG: Level := 1
  const INFO: Level := 2
  const LOG: Level := 3
  const WARN: Level := 4
  const ERROR: Level := 5
  const FATAL: Level := 6
  const OFF: Level := 7

  const Levels: seq<string> := ["TRACE", "DEBUG", "INFO", "LOG", "WARN", "ERROR", "FATAL", "OFF"]

  /** The endpoint every server log is posted to, whatever the configured URL. */
  const JsLogUrl: string := "/JsLog"

  /** The configuration; an unset optional value is `None`. */
  datatype LoggerConfig = LoggerConfig(
    level: Option<Level>,
    serverLogLevel: Option<Level>,
    serverLoggingUrl: Option<string>,
    disableConsoleLogging: bool)

  /** A message: undefined, a text, or an `Error` with its text and stack. */
  datatype Message = Undefined | Text(text: string) | ErrorObject(text: string, stack: string)

  /** JavaScript truthiness of a message: an empty text and `undefined` are false. */
  predicate Truthy(m: Message)
  {
    match m
    case Undefined => false
    case Text(t) => t != ""
    case ErrorObject(_, _) => true
  }

  /** The console methods a log line can go to. */
  datatype ConsoleMethod = ConsoleWarn | ConsoleError | ConsoleInfo | ConsoleLog

  /** What one call does, in order. */
  datatype Effect =
    | Post(url: string, level: Level, message: Message)
    | ConsoleWrite(target: ConsoleMethod, levelName: string, message: Message)

  /**
   * `isLog2Server`: asked for, with a non-empty URL and a truthy server level
   * (so `TRACE`, which is 0, switches it off) that the level reaches.
   */
  predicate IsLog2Server(config: LoggerConfig, level: Level, logOnServer: bool)
  {
    logOnServer
    && config.serverLoggingUrl.Some? && config.serverLoggingUrl.value != ""
    && config.serverLogLevel.Some? && config.serverLogLevel.value != 0
    && level >= config.serverLogLevel.value
  }

  /** `isLogLevelEnabled`: an unset level compares false with everything. */
  predicate IsLogLevelEnabled(config: LoggerConfig, level: Level)
  {
    config.level.Some? && level >= config.level.value
  }

  /** The `_logModern` switch: WARN warns, ERROR and FATAL error, INFO informs, the rest log. */
  function ConsoleMethodFor(level: Level): (r: ConsoleMethod)
    ensures r == ConsoleWarn <==> level == WARN
    ensures r == ConsoleError <==> level == ERROR || level == FATAL
    ensures r == ConsoleInfo <==> level == INFO
    ensures r == ConsoleLog <==> level in {TRACE, DEBUG, LOG, OFF}
  {
    if level == WARN then ConsoleWarn
    else if level == ERROR || level == FATAL then ConsoleError
    else if level == INFO then ConsoleInfo
    else ConsoleLog
  }

  /** The message sent to the server and then to the console: an `Error` becomes its stack. */
  function ServerMessage(m: Message): Message
  {
    if m.ErrorObject? then Text(m.stack) else m
  }

  /** The effects of `_log(level, message, logOnServer)`: the post first, then the console line. */
  function LogEffects(config: LoggerConfig, level: Level, message: Message, logOnServer: bool): seq<Effect>
  {
    var toServer := IsLog2Server(config, level, logOnServer);
    var toConsole := IsLogLevelEnabled(config, level);
    if !(Truthy(message) && (toServer || toConsole)) then []
    else
      var sent := if toServer then ServerMessage(message) else message;
      (if toServer then [Post(JsLogUrl, level, sent)] else [])
      + (if toConsole && !config.disableConsoleLogging then [ConsoleWrite(ConsoleMethodFor(level), Levels[level], sent)] else [])
  }

  /** A falsy message does nothing at any level. */
  lemma {:induction false} FalsyMessageIgnored(config: LoggerConfig, level: Level, message: Message, logOnServer: bool)
    requires !Truthy(message)
    ensures LogEffects(config, level, message, logOnServer) == []
  {
  }

  /**
   * A call posts to the server iff the message is truthy and server logging
   * is on for the level; every post goes to "/JsLog", first.
   */
  lemma PostMeaning(config: LoggerConfig, level: Level, message: Message, logOnServer: bool)
    ensures var r := LogEffects(config, level, message, logOnServer);
      (exists i :: 0 <= i < |r| && r[i].Post?) <==> Truthy(message) && IsLog2Server(config, level, logOnServer)
    ensures var r := LogEffects(config, level, message, logOnServer);
      forall i :: 0 <= i < |r| && r[i].Post? ==> i == 0 && r[i].url == JsLogUrl && r[i].level == level
  {
    var r := LogEffects(config, level, message, logOnServer);
    if Truthy(message) && IsLog2Server(config, level, logOnServer) {
      assert r[0].Post?;
    }
  }

  /**
   * A call writes to the console iff the message is truthy, the level is
   * enabled and console logging is not disabled, and then through the method
   * of its level, as the last effect.
   */
  lemma ConsoleMeaning(config: LoggerConfig, level: Level, message: Message, logOnServer: bool)
    ensures var r := LogEffects(config, level, message, logOnServer);
      (exists i :: 0 <= i < |r| && r[i].ConsoleWrite?) <==>
        Truthy(message) && IsLogLevelEnabled(config, level) && !config.disableConsoleLogging
    ensures var r := LogEffects(config, level, message, logOnServer);
      forall i :: 0 <= i < |r| && r[i].ConsoleWrite? ==>
        i == |r| - 1 && r[i].target == ConsoleMethodFor(level) && r[i].levelName == Levels[level]
  {
    var r := LogEffects(config, level, message, logOnServer);
    if Truthy(message) && IsLogLevelEnabled(config, level) && !config.disableConsoleLogging {
      assert r[|r| - 1].ConsoleWrite?;
    }
  }

  /** With the server level at `TRACE` nothing is ever posted, whatever the level. */
  lemma {:induction false} TraceServerLevelPostsNothing(config: LoggerConfig, level: Level, message: Message, logOnServer: bool)
    requires config.serverLogLevel == Some(TRACE)
    ensures forall i :: 0 <= i < |LogEffects(config, level, message, logOnServer)| ==>
      !LogEffects(config, level, message, logOnServer)[i].Post?
  {
  }

  /** An `Error` posted to the server reaches both the server and the console as its stack. */
  lemma {:induction false} ErrorsSentAsStack(config: LoggerConfig, level: Level, text: string, stack: string)
    requires IsLog2Server(config, level, true) && IsLogLevelEnabled(config, level) && !config.disableConsoleLogging
    ensures LogEffects(config, level, ErrorObject(text, stack), true) ==
      [Post(JsLogUrl, level, Text(stack)), ConsoleWrite(ConsoleMethodFor(level), Levels[level], Text(stack))]
  {
  }

  /** The production setting (console and server at `ERROR`): a `WARN` does nothing, an `ERROR` does both. */
  lemma ProductionSetting(message: string)
    requires message != ""
    ensures LogEffects(LoggerConfig(Some(ERROR), Some(ERROR), Some(JsLogUrl), false), WARN, Text(message), true) == []
    ensures LogEffects(LoggerConfig(Some(ERROR), Some(ERROR), Some(JsLogUrl), false), ERROR, Text(message), true) ==
      [Post(JsLogUrl, ERROR, Text(message)), ConsoleWrite(ConsoleError, "ERROR", Text(message))]
  {
  }

  /** The logger with its configuration; `journal` records what its calls did. */
  class NgxLogger {
    const config: LoggerConfig
    var journal: seq<Effect>

    constructor (config: LoggerConfig)
      ensures this.config == config && journal == []
    {
      this.config := config;
      journal := [];
    }

    /** `_logModern`: the console line through the method of the level. */
    method LogModern(level: Level, levelName: string, message: Message)
      modifies this
      ensures journal == old(journal) + [ConsoleWrite(ConsoleMethodFor(level), levelName, message)]
    {
      var target: ConsoleMethod;
      if level == WARN {
        target := ConsoleWarn;
      } else if level == ERROR || level == FATAL {
        target := ConsoleError;
      } else if level == INFO {
        target := ConsoleInfo;
      } else {
        target := ConsoleLog;
      }
      journal := journal + [ConsoleWrite(target, levelName, message)];
    }

    /** `_log`: decides on the server and the console, posts, then writes. */
    method Log(level: Level, message: Message, logOnServer: bool)
      modifies this
      ensures journal == old(journal) + LogEffects(config, level, message, logOnServer)
    {
      var isLog2Server := IsLog2Server(config, level, logOnServer);
      var isLogLevelEnabled := IsLogLevelEnabled(config, level);
      if !(Truthy(message) && (isLog2Server || isLogLevelEnabled)) {
        return;
      }
      var logLevelString := Levels[level];
      var sent := message;
      if isLog2Server {
        sent := ServerMessage(sent);
        journal := journal + [Post(JsLogUrl, level, sent)];
      }
      if isLogLevelEnabled && !config.disableConsoleLogging {
        LogModern(level, logLevelString, sent);
      }
    }
  }
}
