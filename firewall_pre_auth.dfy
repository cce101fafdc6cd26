/**
 * The first middleware of the web server: it drops requests whose path is on
 * a blacklist, passes the others on, and afterwards records each request in
 * the application-wide log of the most recent 500 requests, flagging errors
 * and reporting raised exceptions to HealthMonitor.
 */
module FirewallPreAuth {
  import opened Wrappers
  import ClrText

  /** The path starts that are refused without further processing. */
  const BlacklistStarts: seq<string> := ["/robots.txt", "/ads.txt", "//", "/index.php", "/user/register",
    "/latest/dynamic", "/ws/stats", "/corporate/", "/imeges", "/remote"]

  /** The request log keeps at most this many entries. */
  const MaxHttpRequestLogs: nat := 500

  /** `other` starts `path`, comparing characters ignoring case. */
  predicate PrefixIgnoringCase(path: string, other: string)
  {
    |other| <= |path|
    && forall k :: 0 <= k < |other| ==> ClrText.ToLowerChar(path[k]) == ClrText.ToLowerChar(other[k])
  }

  /** Character by character is the same as comparing the lower-cased prefix. */
  lemma {:induction false} PrefixIgnoringCaseIsStartsWith(path: string, other: string)
    ensures PrefixIgnoringCase(path, other) <==> ClrText.StartsWithIgnoreCase(path, other)
  {
    if |other| <= |path| {
      var a := ClrText.ToLower(path[..|other|]);
      var b := ClrText.ToLower(other);
      if a == b {
        forall k | 0 <= k < |other|
          ensures ClrText.ToLowerChar(path[k]) == ClrText.ToLowerChar(other[k])
        {
          assert a[k] == b[k];
        }
      }
    }
  }

  /**
   * `PathString.StartsWithSegments(other, OrdinalIgnoreCase)`: `other` is a
   * case-insensitive prefix of the path that ends where the path ends or
   * where a '/' follows.
   */
  predicate StartsWithSegments(path: string, other: string)
  {
    PrefixIgnoringCase(path, other) && (|path| == |other| || path[|other|] == '/')
  }

  /** Some blacklist entry starts the path, segment-wise. */
  predicate Blacklisted(path: string)
  {
    exists i :: 0 <= i < |BlacklistStarts| && StartsWithSegments(path, BlacklistStarts[i])
  }

  /** `IsHttpRequestOnBlacklist`: the loop over the entries, stopping at the first match. */
  method IsHttpRequestOnBlacklist(path: string) returns (r: bool)
    ensures r == Blacklisted(path)
  {
    var i := 0;
    while i < |BlacklistStarts|
      invariant 0 <= i <= |BlacklistStarts|
      invariant forall j :: 0 <= j < i ==> !StartsWithSegments(path, BlacklistStarts[j])
    {
      if StartsWithSegments(path, BlacklistStarts[i]) {
        return true;
      }
      i := i + 1;
    }
    return false;
  }

  /** A path no entry starts, entry by entry, is not on the blacklist. */
  lemma NotBlacklisted(path: string)
    requires !StartsWithSegments(path, BlacklistStarts[0]) && !StartsWithSegments(path, BlacklistStarts[1])
    requires !StartsWithSegments(path, BlacklistStarts[2]) && !StartsWithSegments(path, BlacklistStarts[3])
    requires !StartsWithSegments(path, BlacklistStarts[4]) && !StartsWithSegments(path, BlacklistStarts[5])
    requires !StartsWithSegments(path, BlacklistStarts[6]) && !StartsWithSegments(path, BlacklistStarts[7])
    requires !StartsWithSegments(path, BlacklistStarts[8]) && !StartsWithSegments(path, BlacklistStarts[9])
    ensures !Blacklisted(path)
  {
  }

  /**
   * `other` does not start `path` segment-wise when the path is shorter, when
   * the texts differ at `k` ignoring case, or when the path goes on after
   * `other` with something other than '/'.
   */
  lemma {:induction false} NoSegmentMatchAt(path: string, other: string, k: nat)
    requires |path| < |other|
      || (k < |other| <= |path| && ClrText.ToLowerChar(path[k]) != ClrText.ToLowerChar(other[k]))
      || (k == |other| < |path| && path[k] != '/')
    ensures !StartsWithSegments(path, other)
  {
  }

  /**
   * An entry ending in '/' only matches a path that goes on with a second '/',
   * so "/corporate/" lets every page under it through ("/corporate/about") ...
   */
  lemma {:induction false} CorporateSubpathPasses(rest: string)
    requires |rest| > 0 && rest[0] != '/'
    ensures !Blacklisted(BlacklistStarts[7] + rest)
  {
    var p := BlacklistStarts[7] + rest;
    assert p[1] == 'c';
    NoEntryButCorporateStarts(p);
    NoSegmentMatchAt(p, BlacklistStarts[7], |BlacklistStarts[7]|);
    NotBlacklisted(p);
  }

  /** "/corporate/" is the only entry whose second character is 'c'. */
  lemma {:induction false} NoEntryButCorporateStarts(p: string)
    requires |p| >= 2 && p[1] == 'c'
    ensures !StartsWithSegments(p, BlacklistStarts[0]) && !StartsWithSegments(p, BlacklistStarts[1])
    ensures !StartsWithSegments(p, BlacklistStarts[2]) && !StartsWithSegments(p, BlacklistStarts[3])
    ensures !StartsWithSegments(p, BlacklistStarts[4]) && !StartsWithSegments(p, BlacklistStarts[5])
    ensures !StartsWithSegments(p, BlacklistStarts[6]) && !StartsWithSegments(p, BlacklistStarts[8])
    ensures !StartsWithSegments(p, BlacklistStarts[9])
  {
    NoSegmentMatchAt(p, BlacklistStarts[0], 1);
    NoSegmentMatchAt(p, BlacklistStarts[1], 1);
    NoSegmentMatchAt(p, BlacklistStarts[2], 1);
    NoSegmentMatchAt(p, BlacklistStarts[3], 1);
    NoSegmentMatchAt(p, BlacklistStarts[4], 1);
    NoSegmentMatchAt(p, BlacklistStarts[5], 1);
    NoSegmentMatchAt(p, BlacklistStarts[6], 1);
    NoSegmentMatchAt(p, BlacklistStarts[8], 1);
    NoSegmentMatchAt(p, BlacklistStarts[9], 1);
  }

  /** A second '/' after "/corporate/" is what the entry needs to refuse a path. */
  lemma {:induction false} CorporateDoubleSlashRefused(rest: string)
    ensures Blacklisted(BlacklistStarts[7] + "/" + rest)
  {
    var s := BlacklistStarts[7] + "/" + rest;
    assert StartsWithSegments(s, BlacklistStarts[7]);
  }

  /** ... and "//" lets through every path that starts with two slashes and a name ("//etc/passwd"). */
  lemma {:induction false} DoubleSlashPathPasses(rest: string)
    requires |rest| > 0 && rest[0] != '/'
    ensures !Blacklisted(BlacklistStarts[2] + rest)
  {
    var p := BlacklistStarts[2] + rest;
    assert p[1] == '/';
    NoSegmentMatchAt(p, BlacklistStarts[0], 1);
    NoSegmentMatchAt(p, BlacklistStarts[1], 1);
    NoSegmentMatchAt(p, BlacklistStarts[2], 2);
    NoSegmentMatchAt(p, BlacklistStarts[3], 1);
    NoSegmentMatchAt(p, BlacklistStarts[4], 1);
    NoSegmentMatchAt(p, BlacklistStarts[5], 1);
    NoSegmentMatchAt(p, BlacklistStarts[6], 1);
    NoSegmentMatchAt(p, BlacklistStarts[7], 1);
    NoSegmentMatchAt(p, BlacklistStarts[8], 1);
    NoSegmentMatchAt(p, BlacklistStarts[9], 1);
    NotBlacklisted(p);
  }

  /**
   * The evidently intended blacklist test: an entry ending in '/' is a plain
   * case-insensitive prefix (the rest of the path follows the '/'); the other
   * entries keep the segment-wise test.
   */
  predicate EntryMatches(path: string, entry: string)
  {
    if |entry| > 0 && entry[|entry| - 1] == '/' then PrefixIgnoringCase(path, entry)
    else StartsWithSegments(path, entry)
  }

  predicate BlacklistedIntended(path: string)
  {
    exists i :: 0 <= i < |BlacklistStarts| && EntryMatches(path, BlacklistStarts[i])
  }

  /** The intended test refuses everything the written one refuses ... */
  lemma IntendedRefusesWritten(path: string)
    ensures Blacklisted(path) ==> BlacklistedIntended(path)
  {
    if Blacklisted(path) {
      var i :| 0 <= i < |BlacklistStarts| && StartsWithSegments(path, BlacklistStarts[i]);
      assert EntryMatches(path, BlacklistStarts[i]);
    }
  }

  /** ... and also every path under "/corporate/" and every path starting with "//". */
  lemma {:induction false} IntendedRefusesSubpaths(rest: string)
    ensures BlacklistedIntended("/corporate/" + rest)
    ensures BlacklistedIntended("//" + rest)
  {
    var p := "/corporate/" + rest;
    assert p[..11] == BlacklistStarts[7];
    assert EntryMatches(p, BlacklistStarts[7]);
    var q := "//" + rest;
    assert q[..2] == BlacklistStarts[2];
    assert EntryMatches(q, BlacklistStarts[2]);
  }

  /** `IsHttpRequestOnWhitelist`: every request is on the whitelist. */
  function IsHttpRequestOnWhitelist(path: string): (r: bool)
    ensures r
  {
    true
  }

  /** The exceptions the rest of the pipeline can raise, as far as they are told apart. */
  datatype ExceptionKind = BadHttpRequest | OtherException

  /** `IsSendableToHealthMonitorForEmailing`: every exception except Kestrel's `BadHttpRequestException`. */
  function IsSendableToHealthMonitor(e: ExceptionKind): (r: bool)
    ensures r <==> e != BadHttpRequest
  {
    !e.BadHttpRequest?
  }

  /** A request is an error when it raised an exception or its status code is above 499. */
  function IsError(exception: Option<ExceptionKind>, statusCode: Option<int>): (r: bool)
    ensures r <==> exception.Some? || (statusCode.Some? && statusCode.value >= 500)
  {
    exception.Some? || (statusCode.Some? && statusCode.value > 499)
  }

  datatype Request = Request(isHttps: bool, httpMethod: string, path: string, queryString: string)

  /** `HttpRequestLog`, without its time stamp and duration. */
  datatype HttpRequestLog = HttpRequestLog(
    isHttps: bool, httpMethod: string, path: string, queryString: string,
    clientIP: string, clientUserEmail: string, statusCode: Option<int>,
    isError: bool, exception: Option<ExceptionKind>)

  /** What the rest of the pipeline did with a passed-on request. */
  datatype NextOutcome = NextOutcome(statusCode: Option<int>, exception: Option<ExceptionKind>)

  /** How `Invoke` ended. */
  datatype InvokeResult =
    | Terminated
    | Passed(rethrown: Option<ExceptionKind>, reported: bool)

  /** The last at most `MaxHttpRequestLogs` entries of a log. */
  function Newest(all: seq<HttpRequestLog>): (r: seq<HttpRequestLog>)
    ensures |r| <= MaxHttpRequestLogs && |r| <= |all|
    ensures |all| <= MaxHttpRequestLogs ==> r == all
    ensures r == all[|all| - |r|..]
  {
    if |all| > MaxHttpRequestLogs then all[|all| - MaxHttpRequestLogs..] else all
  }

  /** The application-wide `HttpRequestLogs` queue. */
  class RequestLogs {
    var logs: seq<HttpRequestLog>

    constructor ()
      ensures logs == []
    {
      logs := [];
    }

    /** `Enqueue`, then `Dequeue` while more than 500 entries are kept. */
    method Add(log: HttpRequestLog)
      modifies this
      ensures logs == Newest(old(logs) + [log])
      ensures |logs| > 0 && logs[|logs| - 1] == log
    {
      ghost var all := old(logs) + [log];
      logs := logs + [log];
      while |logs| > MaxHttpRequestLogs
        invariant logs == all[|all| - |logs|..]
        invariant |logs| >= MaxHttpRequestLogs || logs == all
        decreases |logs|
      {
        logs := logs[1..];
      }
    }

    /**
     * `Invoke` for a request from `clientIP` by `userEmail`, with `next` what
     * the rest of the pipeline did. A blacklisted request is terminated and
     * not logged. Otherwise the request is logged, an exception is thrown on
     * after logging, and it is reported to HealthMonitor when it is sendable.
     */
    method Invoke(request: Request, next: NextOutcome, clientIP: string, userEmail: string)
      returns (r: InvokeResult)
      modifies this
      ensures Blacklisted(request.path) ==> r == Terminated && logs == old(logs)
      ensures !Blacklisted(request.path) ==>
        r == Passed(next.exception, next.exception.Some? && IsSendableToHealthMonitor(next.exception.value))
      ensures !Blacklisted(request.path) ==>
        logs == Newest(old(logs) + [HttpRequestLog(request.isHttps, request.httpMethod, request.path, request.queryString,
          clientIP, userEmail, next.statusCode, IsError(next.exception, next.statusCode), next.exception)])
    {
      var blacklisted := IsHttpRequestOnBlacklist(request.path);
      if blacklisted {
        return Terminated;
      }
      if !IsHttpRequestOnWhitelist(request.path) {
        return Terminated;
      }
      var log := HttpRequestLog(request.isHttps, request.httpMethod, request.path, request.queryString,
        clientIP, userEmail, next.statusCode, IsError(next.exception, next.statusCode), next.exception);
      Add(log);
      var reported := log.exception.Some? && IsSendableToHealthMonitor(log.exception.value);
      r := Passed(next.exception, reported);
    }
  }
}
