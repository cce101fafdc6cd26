/**
 * The middleware after authentication: a user who is not a known, authorized
 * one may only fetch the main domain's index page, the login API and static
 * resources (images, scripts, styles); anything else is redirected to the
 * login page.
 */
module FirewallPostAuth {
  import opened Wrappers
  import ClrText
  import opened WsUtils

  const LoginPath: string := "/UserAccount/login"
  const IndexPath: string := "/index.html"
  const MainDomain: string := "sqcore.net"

  /**
   * `Path.GetExtension` on Linux, scanning back from position `i`: the text
   * from the last '.' to the end, unless a '/' comes first or the '.' is the
   * last character.
   */
  function ExtensionBefore(path: string, i: nat): (r: string)
    requires i <= |path|
    decreases i
  {
    if i == 0 then ""
    else if path[i - 1] == '.' then (if i == |path| then "" else path[i - 1..])
    else if path[i - 1] == '/' then ""
    else ExtensionBefore(path, i - 1)
  }

  function GetExtension(path: string): string
  {
    ExtensionBefore(path, |path|)
  }

  /** `path[j..]` is an extension: a '.' that is not last and after which there is no '.' and no '/'. */
  predicate ExtensionAt(path: string, j: int)
  {
    0 <= j < |path| - 1 && path[j] == '.'
    && forall k :: j < k < |path| ==> path[k] != '.' && path[k] != '/'
  }

  /** The scan finds the extension exactly when there is one, and then that one. */
  lemma {:induction false} ExtensionBeforeFinds(path: string, i: nat)
    requires i <= |path|
    requires forall k :: i <= k < |path| ==> path[k] != '.' && path[k] != '/'
    ensures ExtensionBefore(path, i) == "" <==> forall j :: !ExtensionAt(path, j)
    ensures forall j :: ExtensionAt(path, j) ==> ExtensionBefore(path, i) == path[j..]
    decreases i
  {
    if i == 0 {
    } else if path[i - 1] == '.' {
      if i < |path| {
        assert ExtensionAt(path, i - 1);
      }
    } else if path[i - 1] == '/' {
    } else {
      ExtensionBeforeFinds(path, i - 1);
    }
  }

  /** `GetExtension` against its reference definition. */
  lemma GetExtensionMeaning(path: string)
    ensures GetExtension(path) == "" <==> forall j :: !ExtensionAt(path, j)
    ensures forall j :: ExtensionAt(path, j) ==> GetExtension(path) == path[j..]
  {
    ExtensionBeforeFinds(path, |path|);
  }

  /** A path without a '.' has no extension. */
  lemma {:induction false} NoDotNoExtension(path: string)
    requires forall k :: 0 <= k < |path| ==> path[k] != '.'
    ensures GetExtension(path) == ""
  {
    GetExtensionMeaning(path);
  }

  predicate IsHtmlExtension(ext: string)
  {
    ClrText.EqualsIgnoreCase(ext, ".html") || ClrText.EqualsIgnoreCase(ext, ".htm")
  }

  /**
   * The `isAllowedRequest` decision of `Invoke` for a user who is not a known,
   * authorized one: an HTML page only when it is "/index.html" on a host
   * starting with "sqcore.net"; an extension-less path (an API call) only when
   * it is "/UserAccount/login"; any other extension always.
   */
  function IsAllowedRequest(host: string, path: string): bool
  {
    var ext := GetExtension(path);
    if IsHtmlExtension(ext) then ClrText.StartsWith(host, MainDomain) && ClrText.EqualsIgnoreCase(path, IndexPath)
    else if ext == "" then ClrText.EqualsIgnoreCase(path, LoginPath)
    else true
  }

  /** Texts equal ignoring case have their dots at the same places. */
  lemma {:induction false} DotsIgnoringCase(path: string, other: string)
    requires ClrText.EqualsIgnoreCase(path, other)
    ensures |path| == |other|
    ensures forall k :: 0 <= k < |path| ==> (path[k] == '.' <==> other[k] == '.')
  {
    var a := ClrText.ToLower(path);
    var b := ClrText.ToLower(other);
    forall k | 0 <= k < |path| ensures path[k] == '.' <==> other[k] == '.' {
      assert a[k] == b[k];
    }
  }

  /** The login API is reachable on every host, in any letter case. */
  lemma {:induction false} LoginAlwaysAllowed(host: string, path: string)
    requires ClrText.EqualsIgnoreCase(path, LoginPath)
    ensures IsAllowedRequest(host, path)
  {
    DotsIgnoringCase(path, LoginPath);
    LoginPathHasNoDot();
    NoDotNoExtension(path);
    NoExtensionNotHtml();
  }

  lemma LoginPathHasNoDot()
    ensures forall k :: 0 <= k < |LoginPath| ==> LoginPath[k] != '.'
  {
  }

  lemma NoExtensionNotHtml()
    ensures !IsHtmlExtension("")
  {
    assert |ClrText.ToLower(".htm")| == 4;
    assert |ClrText.ToLower(".html")| == 5;
  }

  /** Static resources pass whatever the host and the user: every path with a non-HTML extension. */
  lemma {:induction false} ResourcesAllowed(host: string, path: string, j: int)
    requires ExtensionAt(path, j)
    requires !IsHtmlExtension(path[j..])
    ensures IsAllowedRequest(host, path)
  {
    GetExtensionMeaning(path);
  }

  /**
   * A page ending in ".html" is refused unless it is the main domain's
   * "/index.html": on a subdomain, or under any other name.
   */
  lemma {:induction false} HtmlOnlyMainIndex(host: string, path: string)
    requires |path| >= 5 && ClrText.EqualsIgnoreCase(path[|path| - 5..], ".html")
    ensures IsAllowedRequest(host, path) <==>
      ClrText.StartsWith(host, MainDomain) && ClrText.EqualsIgnoreCase(path, IndexPath)
  {
    var j := |path| - 5;
    var tail := path[j..];
    forall k | 0 <= k < 5 ensures ClrText.ToLowerChar(tail[k]) == ".html"[k] {
      assert ClrText.ToLower(tail)[k] == ClrText.ToLower(".html")[k];
    }
    assert ExtensionAt(path, j);
    GetExtensionMeaning(path);
  }

  /** What `Invoke` does with the request. */
  datatype Outcome = Forward | RedirectToLogin

  /** The HTTP response, as far as `Invoke` changes it. */
  class HttpResponse {
    /** The redirect location and whether it is permanent, once `Redirect` was called. */
    var redirect: Option<(string, bool)>

    constructor ()
      ensures redirect == None
    {
      redirect := None;
    }
  }

  /**
   * `Invoke`: a known, authorized user always goes on to the next middleware;
   * any other request goes on only when it is allowed, and is otherwise
   * answered with a permanent redirect to "/UserAccount/login".
   */
  method Invoke(auth: UserAuthCheckResult, host: string, path: string, response: HttpResponse)
    returns (r: Outcome)
    modifies response
    ensures auth == UserKnownAuthOK ==> r == Forward
    ensures r == Forward <==> auth == UserKnownAuthOK || IsAllowedRequest(host, path)
    ensures r == Forward ==> response.redirect == old(response.redirect)
    ensures r == RedirectToLogin ==> response.redirect == Some((LoginPath, true))
  {
    if auth != UserKnownAuthOK {
      var isAllowedRequest := IsAllowedRequest(host, path);
      if !isAllowedRequest {
        response.redirect := Some((LoginPath, true));
        return RedirectToLogin;
      }
    }
    r := Forward;
  }
}
