/**
 * The per-request routing decision of the site's edge middleware: preview
 * entry and exit, numeric content ids, the `lang=` locale switch, folding the
 * query string into the path, and the default-locale rewrite.
 */
module Middleware {
  import opened Wrappers
  import opened Strings
  import opened UriEncoding
  import opened JsNumbers
  import opened SearchParams

  /**
   * The locale set and the three helpers of the i18n configuration module.
   * The helpers' own code is not part of this model: they are carried as
   * functions, and a lemma that depends on how they behave says so in its
   * `requires`.
   */
  datatype LocaleConfig = LocaleConfig(
    locales: seq<string>,
    defaultLocale: string,
    isValidLocale: (string, seq<string>) -> bool,
    getLocaleFromPathname: (string, seq<string>) -> Option<string>,
    removeLocaleFromPathname: (string, string) -> string)

  /** The parts of `request.nextUrl` the middleware reads; `protocol` includes its ':' ("https:"). */
  datatype Request = Request(protocol: string, host: string, pathname: string, query: Query)

  /**
   * What the middleware returns: `NextResponse.redirect(url)` (status 307),
   * `NextResponse.rewrite(url)`, or nothing at all, which lets the request
   * through unchanged.
   */
  datatype Action = Redirect(url: string) | Rewrite(url: string) | PassThrough

  const PreviewKeyParam := "agilitypreviewkey"
  const PreviewFlagParam := "AgilityPreview"
  const ContentIdParam := "ContentID"
  const LangParam := "lang"
  /** The sentinel that opens and closes a query folded into the path. */
  const QueryMarker := "~~~"

  /** `nextUrl.origin`: scheme and host. */
  function Origin(req: Request): string {
    req.protocol + "//" + req.host
  }

  /** `href` of a URL after its query was rewritten from `q`: no '?' when `q` serializes to nothing. */
  function Href(origin: string, pathname: string, q: Query): string {
    var search := Serialize(q);
    origin + pathname + (if search == [] then "" else "?" + search)
  }

  /** A nullable string in a template literal: `null` prints as "null". */
  function Interpolate(v: Option<string>): string {
    match v
    case Some(s) => s
    case None => "null"
  }

  /** `searchParams.get("ContentID") || ""`. */
  function ContentIdText(q: Query): string {
    Get(q, ContentIdParam).GetOr("")
  }

  /**
   * `pathname.includes(".") ? pathname.split('.').pop() : null`, checked for
   * a non-empty value: the path holds a '.' and does not end with one.
   */
  predicate HasExtension(pathname: string): (b: bool)
    ensures b <==> '.' in pathname && pathname[|pathname| - 1] != '.'
  {
    var ext := AfterLast(pathname, '.');
    assert ext != [] ==> pathname[|pathname| - 1] == ext[|ext| - 1] && ext[|ext| - 1] in ext;
    '.' in pathname && ext != ""
  }

  /** The preview-entry URL: `lang` and `ContentID` as they are, path and key percent-encoded. */
  function PreviewUrl(req: Request): (url: string)
    ensures StartsWith(url, Origin(req) + "/api/preview?locale=")
  {
    var prefix := Origin(req) + "/api/preview?locale=";
    var rest := Interpolate(Get(req.query, LangParam))
      + "&ContentID=" + ContentIdText(req.query)
      + "&slug=" + EncodeURIComponent(req.pathname)
      + "&agilitypreviewkey=" + EncodeURIComponent(Get(req.query, PreviewKeyParam).GetOr(""));
    prefix + rest
  }

  /** The preview-exit URL: as the entry URL, without the key. */
  function PreviewExitUrl(req: Request): (url: string)
    ensures StartsWith(url, Origin(req) + "/api/preview/exit?locale=")
  {
    Origin(req) + "/api/preview/exit?locale=" + Interpolate(Get(req.query, LangParam))
    + "&ContentID=" + ContentIdText(req.query)
    + "&slug=" + EncodeURIComponent(req.pathname)
  }

  /** The dynamic-redirect URL: the `ContentID` it carries reads back as the parsed id. */
  function DynamicRedirectUrl(req: Request, id: int): (url: string)
    requires id > 0
    ensures var prefix := Origin(req) + "/api/dynamic-redirect?ContentID=";
      StartsWith(url, prefix) && ParseInt(url[|prefix|..]) == Some(id)
  {
    var prefix := Origin(req) + "/api/dynamic-redirect?ContentID=";
    ParseIntToString(id);
    assert (prefix + IntToString(id))[|prefix|..] == IntToString(id);
    prefix + IntToString(id)
  }

  /** `getLocaleFromPathname(pathname, locales) || defaultLocale`. */
  function CurrentLocale(pathname: string, cfg: LocaleConfig): (l: string)
    ensures l == cfg.defaultLocale || (l != "" && cfg.getLocaleFromPathname(pathname, cfg.locales) == Some(l))
    ensures cfg.defaultLocale != "" ==> l != ""
  {
    match cfg.getLocaleFromPathname(pathname, cfg.locales)
    case Some(l) => if l != "" then l else cfg.defaultLocale
    case None => cfg.defaultLocale
  }

  /** A `lang` value that asks for a switch: non-empty, valid, and not the locale the path already has. */
  predicate IsLocaleSwitch(lang: Option<string>, pathname: string, cfg: LocaleConfig) {
    lang.Some? && lang.value != "" && cfg.isValidLocale(lang.value, cfg.locales)
    && lang.value != CurrentLocale(pathname, cfg)
  }

  /** The path the locale switch redirects to. */
  function SwitchedPath(lang: string, pathname: string, cfg: LocaleConfig): (p: string)
    ensures lang != cfg.defaultLocale ==> StartsWith(p, "/" + lang)
    ensures lang == cfg.defaultLocale ==> p == cfg.removeLocaleFromPathname(pathname, CurrentLocale(pathname, cfg))
  {
    var bare := cfg.removeLocaleFromPathname(pathname, CurrentLocale(pathname, cfg));
    if lang == cfg.defaultLocale then bare else "/" + lang + bare
  }

  /**
   * The pathname with a non-empty serialized query appended as a last
   * segment "~~~<encodeURIComponent(search)>~~~"; an empty query leaves it as it is.
   */
  function FoldQuery(pathname: string, search: string): (r: string)
    ensures StartsWith(r, pathname)
    ensures r == pathname <==> search == []
  {
    if search == [] then pathname
    else
      var base := if EndsWith(pathname, "/") then pathname else pathname + "/";
      base + QueryMarker + EncodeURIComponent(search) + QueryMarker
  }

  /** `locales.some(l => p.startsWith("/" + l + "/") || p === "/" + l)`. */
  function HasLocalePrefix(p: string, locales: seq<string>): (b: bool)
    ensures b <==> exists k :: 0 <= k < |locales| && IsLocaleSegment(p, locales[k])
  {
    if locales == [] then false
    else
      assert forall k :: 1 <= k < |locales| ==> locales[k] == locales[1..][k - 1];
      IsLocaleSegment(p, locales[0]) || HasLocalePrefix(p, locales[1..])
  }

  /** `l` is the whole first segment of `p`. */
  predicate IsLocaleSegment(p: string, l: string) {
    StartsWith(p, "/" + l + "/") || p == "/" + l
  }

  /** `p.includes('.') || p.startsWith('/_next')`. */
  predicate IsStaticPath(p: string) {
    '.' in p || StartsWith(p, "/_next")
  }

  /**
   * After the extension test: the `lang=` switch, query folding, and the two
   * rewrites. It redirects exactly for a locale switch; `LocaleRoutingOnOrigin`
   * shows that every URL it produces is on the request's origin.
   */
  function LocaleRouting(req: Request, cfg: LocaleConfig): (a: Action)
    ensures a.Redirect? <==> IsLocaleSwitch(Get(req.query, LangParam), req.pathname, cfg)
  {
    var lang := Get(req.query, LangParam);
    if IsLocaleSwitch(lang, req.pathname, cfg) then
      Redirect(Href(Origin(req), SwitchedPath(lang.value, req.pathname, cfg), Delete(req.query, LangParam)))
    else
      var search := Serialize(req.query);
      var pathname := FoldQuery(req.pathname, search);
      if !HasLocalePrefix(pathname, cfg.locales) && !IsStaticPath(pathname) then
        Rewrite(Origin(req) + "/" + cfg.defaultLocale + pathname)
      else if search != [] then
        Rewrite(Origin(req) + pathname)
      else
        PassThrough
  }

  /**
   * The middleware's decision for one request. The branches are an
   * `if / else if` chain: once a non-empty `ContentID` is seen, a value that
   * does not parse to a positive number ends the chain with no action.
   */
  function Route(req: Request, cfg: LocaleConfig): Action
  {
    var q := req.query;
    if Has(q, PreviewKeyParam) then
      Redirect(PreviewUrl(req))
    else if Get(q, PreviewFlagParam) == Some("0") then
      Redirect(PreviewExitUrl(req))
    else if ContentIdText(q) != "" then
      match ParseInt(ContentIdText(q))
      case Some(id) => if id > 0 then Rewrite(DynamicRedirectUrl(req, id)) else PassThrough
      case None => PassThrough
    else if !HasExtension(req.pathname) then
      LocaleRouting(req, cfg)
    else
      PassThrough
  }

  /**
   * The route matcher `/((?!api|assets|_next/static|_next/image|favicon.ico).*)`:
   * a path whose text after the leading '/' begins with one of the excluded
   * words never reaches the middleware (the '.' of the pattern matches any character).
   */
  predicate MatcherAccepts(pathname: string): (b: bool)
    ensures b ==> StartsWith(pathname, "/") && !StartsWith(pathname, "/api")
  {
    StartsWith(pathname, "/") &&
    var rest := pathname[1..];
    assert StartsWith(pathname, "/api") ==> rest[..3] == pathname[..4][1..];
    !StartsWith(rest, "api") && !StartsWith(rest, "assets") && !StartsWith(rest, "_next/static")
    && !StartsWith(rest, "_next/image") && !(|rest| >= 11 && rest[..7] == "favicon" && rest[8..11] == "ico")
  }

  /** A request as the hosting layer sees it: unmatched paths pass through untouched. */
  function Handle(req: Request, cfg: LocaleConfig): (a: Action)
    ensures !MatcherAccepts(req.pathname) ==> a.PassThrough?
  {
    if MatcherAccepts(req.pathname) then Route(req, cfg) else PassThrough
  }

  /** Every redirect and rewrite of the locale routing stays on the request's own origin. */
  lemma {:induction false} LocaleRoutingOnOrigin(req: Request, cfg: LocaleConfig)
    ensures var a := LocaleRouting(req, cfg); !a.PassThrough? ==> StartsWith(a.url, Origin(req))
  {
    var o := Origin(req);
    var lang := Get(req.query, LangParam);
    if IsLocaleSwitch(lang, req.pathname, cfg) {
      var rest := SwitchedPath(lang.value, req.pathname, cfg);
      var search := Serialize(Delete(req.query, LangParam));
      var tail := rest + (if search == [] then "" else "?" + search);
      assert Href(o, rest, Delete(req.query, LangParam)) == o + tail;
      StartsWithPrefix(o + tail, o, tail);
    } else {
      var pathname := FoldQuery(req.pathname, Serialize(req.query));
      var tail := "/" + cfg.defaultLocale + pathname;
      assert o + "/" + cfg.defaultLocale + pathname == o + tail;
      StartsWithPrefix(o + tail, o, tail);
      StartsWithPrefix(o + pathname, o, pathname);
    }
  }

  /**
   * Every redirect and rewrite the middleware produces stays on the
   * request's own origin, whether or not the matcher lets the request in.
   */
  lemma {:induction false} RouteOnOrigin(req: Request, cfg: LocaleConfig)
    ensures var a := Route(req, cfg); !a.PassThrough? ==> StartsWith(a.url, Origin(req))
    ensures var a := Handle(req, cfg); !a.PassThrough? ==> StartsWith(a.url, Origin(req))
  {
    var o := Origin(req);
    var q := req.query;
    if Has(q, PreviewKeyParam) {
      StartsWithPrefix(PreviewUrl(req), o, "/api/preview?locale=");
    } else if Get(q, PreviewFlagParam) == Some("0") {
      StartsWithPrefix(PreviewExitUrl(req), o, "/api/preview/exit?locale=");
    } else if ContentIdText(q) != "" {
      var id := ParseInt(ContentIdText(q));
      if id.Some? && id.value > 0 {
        StartsWithPrefix(DynamicRedirectUrl(req, id.value), o, "/api/dynamic-redirect?ContentID=");
      }
    } else {
      LocaleRoutingOnOrigin(req, cfg);
    }
  }
}
