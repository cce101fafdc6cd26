/**
 * The URL rewrite rule that serves the web apps on their own subdomains:
 * "dashboard.sqcore.net/index.html" is served as
 * "sqcore.net/webapps/MarketDashboard/index.html", silently, by changing the
 * request's host and path in place. The login, logout and Google sign-in
 * callbacks and the SignalR and API routes keep their subdomain.
 */
module SubdomainRewrite {
  import opened Wrappers
  import ClrText

  /** A subdomain and the path its requests are moved under. */
  datatype Rule = Rule(subdomain: string, pathPrefix: string)

  const Dashboard: Rule := Rule("dashboard.", "/webapps/MarketDashboard")
  const HealthMonitor: Rule := Rule("healthmonitor.", "/webapps/HealthMonitor")
  const Tools: Rule := Rule("tools.", "/webapps/Tools")

  /** The rules in the order `ApplyRule` runs them. */
  const Rules: seq<Rule> := [Dashboard, HealthMonitor, Tools]

  /** The paths a rule leaves alone: the sign-in routes by their end, the hubs and the APIs by their start. */
  predicate IsExemptPath(path: string)
  {
    ClrText.EndsWithIgnoreCase(path, "UserAccount/login")
    || ClrText.EndsWithIgnoreCase(path, "UserAccount/logout")
    || ClrText.EndsWithIgnoreCase(path, "signin-google")
    || ClrText.StartsWithIgnoreCase(path, "/hub/")
    || ClrText.StartsWithIgnoreCase(path, "/api/")
  }

  /** The parts of a request a rule reads and writes. */
  datatype Url = Url(host: string, port: Option<int>, path: string)

  /** One rule applied to a URL. */
  function Rewritten(u: Url, rule: Rule): (r: Url)
    ensures !ClrText.StartsWith(u.host, rule.subdomain) || IsExemptPath(u.path) ==> r == u
    ensures ClrText.StartsWith(u.host, rule.subdomain) && !IsExemptPath(u.path) ==>
      rule.subdomain + r.host == u.host && r.path == rule.pathPrefix + u.path && r.port == u.port
  {
    if ClrText.StartsWith(u.host, rule.subdomain) && !IsExemptPath(u.path) then
      Url(u.host[|rule.subdomain|..], u.port, rule.pathPrefix + u.path)
    else u
  }

  /** The rules applied one after the other, each to what the previous one left. */
  function RewrittenAll(u: Url, rules: seq<Rule>): Url
    decreases |rules|
  {
    if |rules| == 0 then u else RewrittenAll(Rewritten(u, rules[0]), rules[1..])
  }

  /** The request of the rewrite context. */
  class HttpRequest {
    var host: string
    var port: Option<int>
    var path: string

    function Current(): Url
      reads this
    {
      Url(host, port, path)
    }

    constructor (host: string, port: Option<int>, path: string)
      ensures Current() == Url(host, port, path)
    {
      this.host := host;
      this.port := port;
      this.path := path;
    }
  }

  /**
   * `ApplyRuleForSubdomain`: on a host starting with the subdomain and a path
   * that is not exempt, drop the subdomain from the host (keeping the port)
   * and put the replacement prefix before the path.
   */
  method ApplyRuleForSubdomain(req: HttpRequest, subdomain: string, pathPrefixReplacement: string)
    modifies req
    ensures req.Current() == Rewritten(old(req.Current()), Rule(subdomain, pathPrefixReplacement))
  {
    if ClrText.StartsWith(req.host, subdomain) {
      if IsExemptPath(req.path) {
        return;
      }
      req.host := req.host[|subdomain|..];
      req.path := pathPrefixReplacement + req.path;
    }
  }

  /** `ApplyRule`: the three rules, in order, on the same request. */
  method ApplyRule(req: HttpRequest)
    modifies req
    ensures req.Current() == RewrittenAll(old(req.Current()), Rules)
  {
    ApplyRuleForSubdomain(req, Dashboard.subdomain, Dashboard.pathPrefix);
    ApplyRuleForSubdomain(req, HealthMonitor.subdomain, HealthMonitor.pathPrefix);
    ghost var u2 := req.Current();
    ApplyRuleForSubdomain(req, Tools.subdomain, Tools.pathPrefix);
    assert Rules[1..] == [HealthMonitor, Tools];
    assert Rules[1..][1..] == [Tools];
    assert RewrittenAll(u2, [Tools]) == Rewritten(u2, Tools);
  }

  /** A host on none of the subdomains is not touched. */
  lemma {:induction false} OtherHostsUntouched(u: Url, rules: seq<Rule>)
    requires forall i :: 0 <= i < |rules| ==> !ClrText.StartsWith(u.host, rules[i].subdomain)
    ensures RewrittenAll(u, rules) == u
    decreases |rules|
  {
    if |rules| > 0 {
      assert Rewritten(u, rules[0]) == u;
      OtherHostsUntouched(u, rules[1..]);
    }
  }

  /** An exempt path is not touched, whatever the host. */
  lemma {:induction false} ExemptPathsUntouched(u: Url, rules: seq<Rule>)
    requires IsExemptPath(u.path)
    ensures RewrittenAll(u, rules) == u
    decreases |rules|
  {
    if |rules| > 0 {
      ExemptPathsUntouched(u, rules[1..]);
    }
  }

  /**
   * A request on "dashboard." (whose remaining host is on no other subdomain)
   * is served from "/webapps/MarketDashboard" on the main host and port.
   */
  lemma {:induction false} DashboardServed(u: Url)
    requires ClrText.StartsWith(u.host, Dashboard.subdomain) && !IsExemptPath(u.path)
    requires !ClrText.StartsWith(u.host[|Dashboard.subdomain|..], HealthMonitor.subdomain)
    requires !ClrText.StartsWith(u.host[|Dashboard.subdomain|..], Tools.subdomain)
    ensures RewrittenAll(u, Rules) == Url(u.host[|Dashboard.subdomain|..], u.port, Dashboard.pathPrefix + u.path)
  {
    var u1 := Rewritten(u, Dashboard);
    assert Rules[1..] == [HealthMonitor, Tools];
    OtherHostsUntouched(u1, Rules[1..]);
  }
}
