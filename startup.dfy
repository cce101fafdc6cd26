/**
 * Two request rules of the web server's pipeline: the rewrite that serves
 * "index.html" for a directory path, and the browser-cache header added to
 * static files outside development.
 */
module Startup {
  import opened Wrappers
  import FirewallPostAuth

  const IndexHtml: string := "index.html"

  /** A text with no line feed: what the regex `.` matches. */
  predicate NoLineFeed(s: string)
  {
    forall i :: 0 <= i < |s| ==> s[i] != '\n'
  }

  /**
   * The path after the rewriter's two rules. A rule sees the path without its
   * leading '/', and a result not starting with '/' gets one. `^$` (an empty
   * text, or a lone line feed, which `$` also accepts) gives "/index.html";
   * `^(.*)/$` (a '/' at the end, or before a final line feed, after a run of
   * characters other than a line feed) gives the run + "/index.html". Either
   * skips the rest of the rules; any other path is kept.
   */
  function RewriteIndex(path: string): (r: string)
    ensures path == "" || path == "/" ==> r == "/index.html"
    ensures |path| >= 2 && path[0] == '/' && path[|path| - 1] == '/' && path[1] != '/' && NoLineFeed(path) ==>
      r == path + IndexHtml
  {
    var p := if path == "" then "" else path[1..];
    if p == "" || p == "\n" then "/" + IndexHtml
    else
      var run :=
        if p[|p| - 1] == '/' then Some(p[..|p| - 1])
        else if |p| >= 2 && p[|p| - 1] == '\n' && p[|p| - 2] == '/' then Some(p[..|p| - 2])
        else None;
      if run.Some? && NoLineFeed(run.value) then
        var result := run.value + "/" + IndexHtml;
        if result[0] == '/' then result else "/" + result
      else path
  }

  /** A path that ends neither in '/' nor in a line feed is not rewritten. */
  lemma {:induction false} FilesNotRewritten(path: string)
    requires |path| >= 2 && path[|path| - 1] != '/' && path[|path| - 1] != '\n'
    ensures RewriteIndex(path) == path
  {
  }

  /**
   * The rewrite drops one '/' of a leading double slash: "//a/" becomes
   * "/a/index.html", since the rule's result already starts with '/'.
   */
  lemma DoubleSlashFolded()
    ensures RewriteIndex("//a/") == "/a/index.html"
  {
    var p := "//a/"[1..];
    assert p == "/a/";
    assert p[..|p| - 1] == "/a";
  }

  const SecondsPerHour: int := 3600
  const SecondsPerDay: int := 86400

  /**
   * The `max-age` in seconds chosen for an extension, arm by arm: ".html"
   * first, so the ".html"/".htm" arm only ever sees ".htm"; the comparisons
   * are case-sensitive.
   */
  function MaxBrowserCacheAge(ext: string): (r: int)
    ensures r > 0
  {
    if ext == ".html" then 8 * SecondsPerDay
    else if ext == ".html" || ext == ".htm" then 8 * SecondsPerHour
    else if ext == ".css" then 7 * SecondsPerDay
    else if ext == ".js" then 7 * SecondsPerDay
    else if ext == ".jpg" || ext == ".jpeg" || ext == ".ico" then 300 * SecondsPerDay
    else 350 * SecondsPerDay
  }

  /** HTML pages are kept for 8 days and ".htm" pages for 8 hours; upper-case extensions fall to the default. */
  lemma HtmlCacheAges()
    ensures MaxBrowserCacheAge(".html") == 8 * SecondsPerDay
    ensures MaxBrowserCacheAge(".htm") == 8 * SecondsPerHour
    ensures MaxBrowserCacheAge(".HTML") == 350 * SecondsPerDay
  {
    assert ".htm" != ".html" by { assert |".htm"| != |".html"|; }
    assert ".HTML"[1] != ".html"[1];
    assert ".HTML"[1] != ".htm"[1];
  }

  /** The `Cache-Control` header value: public, with a max-age in seconds. */
  datatype CacheControl = CacheControl(isPublic: bool, maxAgeSeconds: int)

  /**
   * The header the caching middleware sets: none in development or for a
   * path without an extension (a controller sets its own); otherwise a public
   * max-age, written only when positive.
   */
  function CacheHeader(isDevelopment: bool, path: string): (r: Option<CacheControl>)
    ensures r.Some? <==> !isDevelopment && FirewallPostAuth.GetExtension(path) != ""
    ensures r.Some? ==> r.value == CacheControl(true, MaxBrowserCacheAge(FirewallPostAuth.GetExtension(path)))
  {
    if isDevelopment then None
    else
      var ext := FirewallPostAuth.GetExtension(path);
      if ext == "" then None
      else
        var maxAge := MaxBrowserCacheAge(ext);
        if maxAge > 0 then Some(CacheControl(true, maxAge)) else None
  }

  /** Every static file with an extension is cached, for at least 8 hours. */
  lemma {:induction false} StaticFilesCached(path: string, j: int)
    requires FirewallPostAuth.ExtensionAt(path, j)
    ensures CacheHeader(false, path).Some?
    ensures CacheHeader(false, path).value.maxAgeSeconds >= 8 * SecondsPerHour
  {
    FirewallPostAuth.GetExtensionMeaning(path);
  }
}
