/**
 * Helpers of the web server: who sent a request (the e-mail claim of the
 * signed-in user, the client IP from the proxy headers or the connection) and
 * whether that user is one of the configured Google accounts.
 */
module WsUtils {
  import opened Wrappers
  import ClrText

  /** The claim type of the user's e-mail address. */
  const EmailClaimType: string := "http://schemas.xmlsoap.org/ws/2005/05/identity/claims/emailaddress"

  const UnknownIp: string := "<Unknown IP>"
  const XForwardedFor: string := "X-Forwarded-For"
  const Forwarded: string := "Forwarded"

  datatype UserAuthCheckResult = UserKnownAuthOK | UserKnownAuthNotEnugh | UserUnknown

  datatype Claim = Claim(claimType: string, value: string)

  /** The value of the first e-mail claim, or "" when there is none. */
  function FirstEmail(claims: seq<Claim>): (r: string)
    ensures (forall i :: 0 <= i < |claims| ==> claims[i].claimType != EmailClaimType) ==> r == ""
    ensures forall i ::
      (0 <= i < |claims| && claims[i].claimType == EmailClaimType
       && forall j :: 0 <= j < i ==> claims[j].claimType != EmailClaimType)
      ==> r == claims[i].value
  {
    if |claims| == 0 then ""
    else if claims[0].claimType == EmailClaimType then claims[0].value
    else FirstEmail(claims[1..])
  }

  /** `GetRequestUser`: the e-mail claim of the user; "" without a user or without the claim. */
  function GetRequestUser(claims: Option<seq<Claim>>): (r: string)
    ensures claims.None? ==> r == ""
    ensures claims.Some? ==> r == FirstEmail(claims.value)
  {
    if claims.None? then "" else FirstEmail(claims.value)
  }

  /**
   * The request headers. Header names compare ignoring case, so the map is
   * keyed by the lower-cased name; a value is `StringValues.ToString()`, the
   * values of a repeated header joined by ','.
   */
  type Headers = map<string, string>

  /** `GetHeaderValueAsNullableReference<string>`: the header's value, or null when it is absent or empty. */
  function HeaderValue(headers: Headers, name: string): (r: Option<string>)
    ensures r.Some? ==> r.value != ""
    ensures r.None? <==> ClrText.ToLower(name) !in headers || headers[ClrText.ToLower(name)] == ""
  {
    var key := ClrText.ToLower(name);
    if key in headers && headers[key] != "" then Some(headers[key]) else None
  }

  /** `Char.IsWhiteSpace`: the Unicode separators and the controls U+0009..U+000D, U+0085. */
  predicate IsWhiteSpace(c: char)
  {
    '\t' <= c <= '\r' || c == ' ' || c == '\U{0085}' || c == '\U{00A0}' || c == '\U{1680}'
    || '\U{2000}' <= c <= '\U{200A}' || c == '\U{2028}' || c == '\U{2029}' || c == '\U{202F}'
    || c == '\U{205F}' || c == '\U{3000}'
  }

  /** `String.IsNullOrWhiteSpace`. */
  predicate IsNullOrWhiteSpace(s: Option<string>)
  {
    s.None? || forall i :: 0 <= i < |s.value| ==> IsWhiteSpace(s.value[i])
  }

  /** The first candidate that is neither null nor blank. */
  function FirstNonBlank(candidates: seq<Option<string>>): (r: Option<string>)
    ensures r.None? <==> forall i :: 0 <= i < |candidates| ==> IsNullOrWhiteSpace(candidates[i])
    ensures r.Some? ==> !IsNullOrWhiteSpace(r)
    ensures r.Some? ==>
      exists i :: 0 <= i < |candidates| && candidates[i] == r && forall j :: 0 <= j < i ==> IsNullOrWhiteSpace(candidates[j])
  {
    if |candidates| == 0 then None
    else if !IsNullOrWhiteSpace(candidates[0]) then candidates[0]
    else
      var r := FirstNonBlank(candidates[1..]);
      if r.Some? then
        var i :| 0 <= i < |candidates| - 1 && candidates[1..][i] == r
          && forall j :: 0 <= j < i ==> IsNullOrWhiteSpace(candidates[1..][j]);
        assert candidates[i + 1] == r;
        r
      else r
  }

  /**
   * Where the client IP is looked for, in order: the X-Forwarded-For header,
   * the Forwarded header (taken whole, not parsed), then the connection's
   * remote address; the headers only when `tryUseXForwardHeader` is set.
   */
  function IpCandidates(headers: Headers, remoteIp: Option<string>, tryUseXForwardHeader: bool): seq<Option<string>>
  {
    if tryUseXForwardHeader then [HeaderValue(headers, XForwardedFor), HeaderValue(headers, Forwarded), remoteIp]
    else [remoteIp]
  }

  /** The client IP `GetRequestIP` reports: the first usable candidate, else "<Unknown IP>". */
  function RequestIp(headers: Headers, remoteIp: Option<string>, tryUseXForwardHeader: bool): string
  {
    var found := FirstNonBlank(IpCandidates(headers, remoteIp, tryUseXForwardHeader));
    if found.Some? then found.value else UnknownIp
  }

  /** The first usable of three candidates, case by case. */
  lemma {:induction false} FirstNonBlankOfThree(a: Option<string>, b: Option<string>, c: Option<string>)
    ensures FirstNonBlank([a, b, c]) ==
      if !IsNullOrWhiteSpace(a) then a
      else if !IsNullOrWhiteSpace(b) then b
      else if !IsNullOrWhiteSpace(c) then c
      else None
  {
    FirstNonBlankOfOne(c);
    assert [b, c][1..] == [c];
    assert FirstNonBlank([b, c]) == if !IsNullOrWhiteSpace(b) then b else FirstNonBlank([c]);
    assert [a, b, c][1..] == [b, c];
  }

  /** The first usable of one candidate. */
  lemma {:induction false} FirstNonBlankOfOne(c: Option<string>)
    ensures FirstNonBlank([c]) == if !IsNullOrWhiteSpace(c) then c else None
  {
    assert [c][1..] == [];
  }

  /**
   * `GetRequestIP`: `remoteIp` is the connection's remote address as text,
   * None when the connection has none.
   */
  method GetRequestIP(headers: Headers, remoteIp: Option<string>, tryUseXForwardHeader: bool) returns (r: string)
    ensures r == RequestIp(headers, remoteIp, tryUseXForwardHeader)
  {
    var remote: Option<string> := Some("");
    var xForwardedFor := HeaderValue(headers, XForwardedFor);
    var forwarded := HeaderValue(headers, Forwarded);
    if tryUseXForwardHeader {
      remote := xForwardedFor;
      if IsNullOrWhiteSpace(remote) {
        remote := forwarded;
      }
    }
    if IsNullOrWhiteSpace(remote) && remoteIp.Some? {
      remote := remoteIp;
    }
    r := if IsNullOrWhiteSpace(remote) then UnknownIp else remote.value;
    ghost var found := FirstNonBlank(IpCandidates(headers, remoteIp, tryUseXForwardHeader));
    if tryUseXForwardHeader {
      FirstNonBlankOfThree(xForwardedFor, forwarded, remoteIp);
    } else {
      FirstNonBlankOfOne(remoteIp);
    }
    assert IsNullOrWhiteSpace(remote) <==> found.None?;
    assert !IsNullOrWhiteSpace(remote) ==> remote == found;
  }

  /**
   * The reported IP is never blank; a usable X-Forwarded-For header always
   * wins, and the Forwarded header comes next.
   */
  lemma {:induction false} RequestIpChoice(headers: Headers, remoteIp: Option<string>, tryUseXForwardHeader: bool)
    ensures !IsNullOrWhiteSpace(Some(RequestIp(headers, remoteIp, tryUseXForwardHeader)))
    ensures tryUseXForwardHeader && !IsNullOrWhiteSpace(HeaderValue(headers, XForwardedFor)) ==>
      RequestIp(headers, remoteIp, tryUseXForwardHeader) == HeaderValue(headers, XForwardedFor).value
    ensures (tryUseXForwardHeader && IsNullOrWhiteSpace(HeaderValue(headers, XForwardedFor))
             && !IsNullOrWhiteSpace(HeaderValue(headers, Forwarded))) ==>
      RequestIp(headers, remoteIp, tryUseXForwardHeader) == HeaderValue(headers, Forwarded).value
  {
    UnknownIpNotBlank();
    if tryUseXForwardHeader {
      FirstNonBlankOfThree(HeaderValue(headers, XForwardedFor), HeaderValue(headers, Forwarded), remoteIp);
    } else {
      FirstNonBlankOfOne(remoteIp);
    }
  }

  lemma UnknownIpNotBlank()
    ensures !IsNullOrWhiteSpace(Some(UnknownIp))
  {
    assert UnknownIp[0] == '<';
  }

  /** Without `tryUseXForwardHeader` the headers play no part: the remote address, else "<Unknown IP>". */
  lemma {:induction false} HeadersIgnored(headers: Headers, remoteIp: Option<string>)
    ensures RequestIp(headers, remoteIp, false) == if IsNullOrWhiteSpace(remoteIp) then UnknownIp else remoteIp.value
  {
    FirstNonBlankOfOne(remoteIp);
  }

  /** Some configured address equals `email` ignoring case. */
  predicate Authorized(list: seq<string>, email: string)
  {
    exists i :: 0 <= i < |list| && ClrText.EqualsIgnoreCase(list[i], email)
  }

  /** Lower-casing twice is lower-casing once. */
  lemma {:induction false} LowerIdempotent(s: string)
    ensures ClrText.ToLower(ClrText.ToLower(s)) == ClrText.ToLower(s)
  {
    var t := ClrText.ToLower(s);
    assert forall i :: 0 <= i < |t| ==> ClrText.ToLower(t)[i] == t[i];
  }

  /** The configured addresses, lower-cased. */
  function Lowered(configured: seq<string>): (r: seq<string>)
    ensures |r| == |configured|
    ensures forall i :: 0 <= i < |r| ==> r[i] == ClrText.ToLower(configured[i])
  {
    seq(|configured|, i requires 0 <= i < |configured| => ClrText.ToLower(configured[i]))
  }

  /**
   * The application-wide `g_authorizedGoogleUsers`: null until the first check
   * builds it from the configured addresses, lower-cased.
   */
  class AuthorizedUsers {
    var list: Option<seq<string>>

    ghost predicate Valid()
      reads this
    {
      list.Some? ==> forall i :: 0 <= i < |list.value| ==> ClrText.ToLower(list.value[i]) == list.value[i]
    }

    constructor ()
      ensures list.None? && Valid()
    {
      list := None;
    }

    /**
     * `IsAuthorizedGoogleUsers`: build the list on the first call from
     * `configured` (the `Emails:*` settings), then look the lower-cased
     * address up in it, which is a case-insensitive match.
     */
    method IsAuthorizedGoogleUsers(email: string, configured: seq<string>) returns (ok: bool)
      requires Valid()
      modifies this
      ensures Valid()
      ensures list == Some(if old(list).Some? then old(list).value else Lowered(configured))
      ensures ok <==> Authorized(list.value, email)
    {
      if list.None? {
        var lowered := Lowered(configured);
        forall i | 0 <= i < |lowered|
          ensures ClrText.ToLower(lowered[i]) == lowered[i]
        {
          LowerIdempotent(configured[i]);
        }
        list := Some(lowered);
      }
      var key := ClrText.ToLower(email);
      LowerIdempotent(email);
      ok := key in list.value;
      assert forall i :: 0 <= i < |list.value| ==>
        (ClrText.EqualsIgnoreCase(list.value[i], email) <==> list.value[i] == key);
    }

    /**
     * `CheckAuthorizedGoogleEmail` in a release build (`isDebug` false): no
     * e-mail gives `UserUnknown`, a configured one `UserKnownAuthOK`, any other
     * `UserKnownAuthNotEnugh`. A DEBUG build lets every request through.
     */
    method CheckAuthorizedGoogleEmail(isDebug: bool, claims: Option<seq<Claim>>, configured: seq<string>)
      returns (r: UserAuthCheckResult)
      requires Valid()
      modifies this
      ensures Valid()
      ensures isDebug ==> r == UserKnownAuthOK && list == old(list)
      ensures !isDebug && GetRequestUser(claims) == "" ==> r == UserUnknown && list == old(list)
      ensures !isDebug && GetRequestUser(claims) != "" ==>
        list == Some(if old(list).Some? then old(list).value else Lowered(configured))
        && (r == UserKnownAuthOK <==> Authorized(list.value, GetRequestUser(claims)))
        && r != UserUnknown
    {
      if isDebug {
        return UserKnownAuthOK;
      }
      var email := GetRequestUser(claims);
      if |email| == 0 {
        return UserUnknown;
      }
      var ok := IsAuthorizedGoogleUsers(email, configured);
      r := if ok then UserKnownAuthOK else UserKnownAuthNotEnugh;
    }
  }
}
