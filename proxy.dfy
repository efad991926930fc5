/** The SSR reverse-proxy middleware's decision: which requests are always
    served by the Go backend, and when a request is forwarded to the
    running theme's Node.js process. Forwarding itself is left out; the
    decision is `Pass` (next handler) or `Proxy` (theme and port). */
module Proxy {
  import opened Wrappers
  import opened Text
  import opened Registry
  import Frontend
  import Catalog

  /** Paths matched exactly. */
  const ExactSkipPaths: seq<string> := ["/robots.txt", "/sitemap.xml", "/rss.xml", "/feed.xml", "/atom.xml"]

  /** Path prefixes; "/admin" and "/login" carry no trailing slash. */
  const SkipPrefixes: seq<string> := ["/api/", "/admin", "/login", "/admin-static/", "/admin-assets/", "/f/", "/needcache/"]

  /** `shouldSkipSSRProxy`: every skipped path is absolute, and the whole
      API stays with the backend. */
  function ShouldSkipSSRProxy(path: string): (r: bool)
    ensures r ==> HasPrefix(path, "/")
    ensures HasPrefix(path, "/api/") ==> r
  {
    assert SkipPrefixes[0] == "/api/";
    assert forall p :: p in ExactSkipPaths + SkipPrefixes ==> HasPrefix(p, "/");
    path in ExactSkipPaths || exists prefix :: prefix in SkipPrefixes && HasPrefix(path, prefix)
  }

  /** Every page of the admin application stays with the backend. */
  lemma AdminPathsSkipped(path: string)
    requires Frontend.IsAdminPath(path)
    ensures ShouldSkipSSRProxy(path)
  {
    if HasPrefix(path, "/admin") {
      assert SkipPrefixes[1] == "/admin";
    } else {
      assert HasPrefix(path, "/login");
      assert SkipPrefixes[2] == "/login";
    }
  }

  /** The "/admin" prefix has no trailing slash, so unrelated paths that
      merely begin with those letters are not proxied either. */
  lemma AdministratorSkipped()
    ensures ShouldSkipSSRProxy("/administrator")
  {
    assert HasPrefix("/administrator", SkipPrefixes[1]);
  }

  /** The theme's own asset paths are forwarded to the theme. */
  lemma ThemeAssetsNotSkipped(path: string)
    requires HasPrefix(path, "/static/") || HasPrefix(path, "/assets/")
    ensures !ShouldSkipSSRProxy(path)
  {
    assert (path[1] == 's' && path[2] == 't') || (path[1] == 'a' && path[2] == 's');
    forall prefix | prefix in SkipPrefixes
      ensures !HasPrefix(path, prefix)
    {
      assert |prefix| >= 3 && prefix[1] != 's' && (prefix[1] == 'a' ==> prefix[2] != 's');
    }
    forall exact | exact in ExactSkipPaths
      ensures path != exact
    {
      assert |exact| >= 3 && !(exact[1] == 's' && exact[2] == 't') && !(exact[1] == 'a' && exact[2] == 's');
    }
  }

  /** What the installed checker answers: `NoChecker` when none is set. */
  datatype Checker = NoChecker | Checker(themeName: string, shouldProxy: bool)

  datatype Decision = Pass | Proxy(theme: string, port: int)

  /** The target URL parses exactly when the port prints without a sign. */
  predicate TargetParses(port: int) {
    port >= 0
  }

  /** The per-request decision of `SSRProxyMiddleware`. */
  method Route(mgr: Manager?, checker: Checker, path: string) returns (d: Decision)
    ensures mgr == null || ShouldSkipSSRProxy(path) ==> d == Pass
    ensures d.Proxy? ==> mgr != null && mgr.IsRunning(d.theme) && d.port == mgr.GetPort(d.theme) && TargetParses(d.port)
    ensures mgr != null && !ShouldSkipSSRProxy(path) && checker.Checker? ==>
      (d.Proxy? <==> checker.shouldProxy && mgr.IsRunning(checker.themeName) && TargetParses(mgr.GetPort(checker.themeName)))
      && (d.Proxy? ==> d.theme == checker.themeName)
    ensures mgr != null && !ShouldSkipSSRProxy(path) && checker.NoChecker?
            && (forall name :: name in mgr.processes ==> !mgr.processes[name].hasProcess)
            ==> d == Pass
    ensures mgr != null && !ShouldSkipSSRProxy(path) && checker.NoChecker?
            && (exists name :: mgr.IsRunning(name))
            && (forall name :: mgr.IsRunning(name) ==> TargetParses(mgr.GetPort(name)))
            ==> d.Proxy?
  {
    if mgr == null || ShouldSkipSSRProxy(path) {
      return Pass;
    }
    var running: Option<ThemeInfo> := None;
    match checker {
      case Checker(name, shouldProxy) =>
        if !shouldProxy {
          return Pass;
        }
        if mgr.IsRunning(name) {
          running := Some(ThemeInfo(name, "", StatusRunning, mgr.GetPort(name), None));
        }
      case NoChecker =>
        running := mgr.GetRunningTheme();
    }
    if running.None? || !TargetParses(running.value.port) {
      return Pass;
    }
    d := Proxy(running.value.name, running.value.port);
  }

  /** With the service's database check installed as the checker, a request
      is forwarded only to a theme that is both flagged current (as an SSR
      record of the user) and running. */
  method RouteWithCatalog(mgr: Manager?, svc: Catalog.ThemeService, user: nat, queryFails: bool, path: string)
    returns (d: Decision)
    ensures d.Proxy? ==>
      mgr != null && mgr.IsRunning(d.theme)
      && exists k :: 0 <= k < |svc.records| && Catalog.SsrOf(svc.records[k], user)
                     && svc.records[k].isCurrent && svc.records[k].name == d.theme
    ensures queryFails ==> d == Pass
  {
    var name, found := svc.GetCurrentSSRThemeName(user, queryFails);
    d := Route(mgr, Checker(name, found), path);
  }

  // ---------------------------------------------------------------------
  // The 503 page
  // ---------------------------------------------------------------------

  const ServiceUnavailable := 503

  const PageHead :=
    "<!DOCTYPE html>\n<html>\n<head>\n    <meta charset=\"utf-8\">\n    <title>SSR 主题暂时不可用</title>\n"
    + "    <style>\n        body { font-family: -apple-system, BlinkMacSystemFont, sans-serif; text-align: center; padding: 50px; }\n"
    + "        h1 { color: #333; }\n        p { color: #666; }\n    </style>\n</head>\n<body>\n"
    + "    <h1>SSR 主题暂时不可用</h1>\n    <p>主题 \""

  const AdminLink := "<p><a href=\"/admin\">前往后台管理</a></p>"

  const TailLead := "\" 正在启动中或遇到问题，请稍后重试。</p>\n    "

  const TailEnd := "\n</body>\n</html>"

  const PageTail := TailLead + AdminLink + TailEnd

  /** A page that puts `theme` after `head` and `link` between `lead` and
      `end`. */
  function Framed(head: string, theme: string, lead: string, link: string, end: string): (page: string)
    ensures OccursAt(page, theme, |head|) && HasPrefix(page, head)
    ensures Contains(page, theme) && Contains(page, link)
  {
    OccursBetween(head, theme, lead + link + end);
    OccursBetween(head + theme + lead, link, end);
    var page := head + theme + (lead + link + end);
    assert page == (head + theme + lead) + link + end;
    assert page[..|head|] == head;
    page
  }

  /** The error handler's answer when the theme process cannot be reached:
      status 503 and a fixed page that names the theme and links to the
      admin application. */
  function UnavailableResponse(theme: string): (r: (int, string))
    ensures r.0 == ServiceUnavailable
    ensures OccursAt(r.1, theme, |PageHead|)
    ensures Contains(r.1, theme) && Contains(r.1, AdminLink)
    ensures HasPrefix(r.1, PageHead)
    ensures r.1 == PageHead + theme + PageTail
  {
    (ServiceUnavailable, Framed(PageHead, theme, TailLead, AdminLink, TailEnd))
  }
}
