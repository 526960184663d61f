/** What the routing decision promises, rule by rule, and how the rules interact. */
module RoutingProperties {
  import opened Wrappers
  import opened Strings
  import opened UriEncoding
  import opened JsNumbers
  import opened SearchParams
  import opened Middleware
  import opened QueryFolding

  /** None of the three query-driven rules (preview entry, preview exit, content id) applies. */
  predicate NoEarlyRule(q: Query) {
    !Has(q, PreviewKeyParam) && Get(q, PreviewFlagParam) != Some("0") && ContentIdText(q) == ""
  }

  /**
   * Preview entry comes first: with a preview key in the query the answer is
   * the preview redirect, whatever else the query holds, and its `slug` and
   * key components decode back to the path and the key.
   */
  lemma PreviewEntryFirst(req: Request, cfg: LocaleConfig)
    requires Has(req.query, PreviewKeyParam)
    ensures Route(req, cfg) == Redirect(PreviewUrl(req))
    ensures DecodeURIComponent(EncodeURIComponent(req.pathname)) == Some(req.pathname)
    ensures var key := Get(req.query, PreviewKeyParam).value;
            DecodeURIComponent(EncodeURIComponent(key)) == Some(key)
  {
    DecodeEncode(req.pathname);
    DecodeEncode(Get(req.query, PreviewKeyParam).value);
  }

  /** Preview exit: no key, `AgilityPreview=0`, and the exit redirect follows. */
  lemma PreviewExit(req: Request, cfg: LocaleConfig)
    requires !Has(req.query, PreviewKeyParam) && Get(req.query, PreviewFlagParam) == Some("0")
    ensures Route(req, cfg) == Redirect(PreviewExitUrl(req))
  {
  }

  /**
   * A non-empty `ContentID` (after the preview rules) decides the request on
   * its own: a value `parseInt` reads as a positive number gives the
   * dynamic-redirect rewrite with that number, anything else gives no action,
   * and in neither case do the locale settings or the path matter.
   */
  lemma ContentIdDecides(req: Request, cfg: LocaleConfig, other: LocaleConfig, otherPath: string)
    requires !Has(req.query, PreviewKeyParam) && Get(req.query, PreviewFlagParam) != Some("0")
    requires ContentIdText(req.query) != ""
    ensures var id := ParseInt(ContentIdText(req.query));
            Route(req, cfg) == if id.Some? && id.value > 0 then Rewrite(DynamicRedirectUrl(req, id.value)) else PassThrough
    ensures Route(req, cfg) == Route(req.(pathname := otherPath), other)
  {
  }

  /** A path whose text after its last '.' is non-empty is left alone once the early rules are past. */
  lemma ExtensionBypass(req: Request, cfg: LocaleConfig)
    requires NoEarlyRule(req.query) && HasExtension(req.pathname)
    ensures Route(req, cfg) == PassThrough
  {
  }

  /**
   * The locale switch: a valid `lang` that differs from the path's locale
   * redirects to the same origin, with `lang` removed from the query and every
   * other pair kept; the new path is the path without its locale, prefixed by
   * `/lang` unless `lang` is the default locale.
   */
  lemma LocaleSwitch(req: Request, cfg: LocaleConfig)
    requires NoEarlyRule(req.query) && !HasExtension(req.pathname)
    requires IsLocaleSwitch(Get(req.query, LangParam), req.pathname, cfg)
    ensures var lang := Get(req.query, LangParam).value;
            var bare := cfg.removeLocaleFromPathname(req.pathname, CurrentLocale(req.pathname, cfg));
            Route(req, cfg) == Redirect(Href(Origin(req), if lang == cfg.defaultLocale then bare else "/" + lang + bare,
                                             Delete(req.query, LangParam)))
  {
  }

  /** The only redirects are the two preview redirects and the locale switch. */
  lemma RedirectCases(req: Request, cfg: LocaleConfig)
    ensures Route(req, cfg).Redirect? <==>
      Has(req.query, PreviewKeyParam) || Get(req.query, PreviewFlagParam) == Some("0")
      || (NoEarlyRule(req.query) && !HasExtension(req.pathname)
          && IsLocaleSwitch(Get(req.query, LangParam), req.pathname, cfg))
  {
  }

  /**
   * Following a locale-switch redirect does not redirect again: the new
   * request has no `lang` and still none of the early parameters.
   */
  lemma LocaleSwitchSettles(req: Request, cfg: LocaleConfig)
    requires NoEarlyRule(req.query) && !HasExtension(req.pathname)
    requires IsLocaleSwitch(Get(req.query, LangParam), req.pathname, cfg)
    ensures var next := Request(req.protocol, req.host,
                                SwitchedPath(Get(req.query, LangParam).value, req.pathname, cfg),
                                Delete(req.query, LangParam));
            !Route(next, cfg).Redirect?
  {
    var q' := Delete(req.query, LangParam);
    GetAfterDelete(req.query, LangParam, PreviewFlagParam);
    GetAfterDelete(req.query, LangParam, ContentIdParam);
    var next := Request(req.protocol, req.host,
                        SwitchedPath(Get(req.query, LangParam).value, req.pathname, cfg), q');
    RedirectCases(next, cfg);
  }

  /** The locale set is made of locale codes and contains the default locale. */
  predicate WellFormedLocales(cfg: LocaleConfig) {
    cfg.defaultLocale in cfg.locales && forall k :: 0 <= k < |cfg.locales| ==> IsLocaleCode(cfg.locales[k])
  }

  /** A serialized query holds no '~', so the folded token holds none between its markers. */
  lemma FoldedTokenUnambiguous(q: Query)
    ensures '~' !in EncodeURIComponent(Serialize(q))
  {
    EncodeOmits(Serialize(q), '~');
  }

  /** Past the early rules, a path with no extension is decided by the locale rules alone. */
  lemma RouteEntersLocaleRouting(req: Request, cfg: LocaleConfig)
    requires NoEarlyRule(req.query) && !HasExtension(req.pathname)
    ensures Route(req, cfg) == LocaleRouting(req, cfg)
  {
  }

  /**
   * The default-locale rewrite: past the early rules and the locale switch, a
   * path without a locale prefix, outside "/_next", with no '.' in it or in its
   * query, is rewritten under `/defaultLocale`, with the query folded in.
   */
  lemma DefaultLocaleRewrite(req: Request, cfg: LocaleConfig)
    requires WellFormedLocales(cfg)
    requires NoEarlyRule(req.query) && !IsLocaleSwitch(Get(req.query, LangParam), req.pathname, cfg)
    requires StartsWith(req.pathname, "/") && !HasLocalePrefix(req.pathname, cfg.locales)
    requires '.' !in req.pathname && '.' !in Serialize(req.query) && !StartsWith(req.pathname, "/_next")
    ensures Route(req, cfg) == Rewrite(Origin(req) + "/" + cfg.defaultLocale + FoldQuery(req.pathname, Serialize(req.query)))
  {
    var search := Serialize(req.query);
    var f := FoldQuery(req.pathname, search);
    FoldKeepsLocalePrefix(req.pathname, search, cfg.locales);
    FoldKeepsNextPrefix(req.pathname, search);
    assert '.' !in f by {
      EncodeOmits(search, '.');
      FoldKeepsAbsent(req.pathname, search, '.');
    }
    assert !IsStaticPath(f);
    RouteEntersLocaleRouting(req, cfg);
  }

  /**
   * A path that already carries a locale prefix (or lies under "/_next") is
   * not rewritten under the default locale: with a query it is rewritten to
   * the folded path, without one it passes through.
   */
  lemma PrefixedPathKeepsItsLocale(req: Request, cfg: LocaleConfig)
    requires WellFormedLocales(cfg)
    requires NoEarlyRule(req.query) && !HasExtension(req.pathname)
    requires !IsLocaleSwitch(Get(req.query, LangParam), req.pathname, cfg)
    requires StartsWith(req.pathname, "/")
    requires HasLocalePrefix(req.pathname, cfg.locales) || StartsWith(req.pathname, "/_next")
    ensures Route(req, cfg) == if req.query == [] then PassThrough
                               else Rewrite(Origin(req) + FoldQuery(req.pathname, Serialize(req.query)))
  {
    var search := Serialize(req.query);
    FoldKeepsLocalePrefix(req.pathname, search, cfg.locales);
    FoldKeepsNextPrefix(req.pathname, search);
    assert search == [] <==> req.query == [];
    RouteEntersLocaleRouting(req, cfg);
  }

  /** A path "/d" + f, with `d` a locale of the set and `f` starting with '/', has that locale prefix. */
  lemma DefaultPrefixIsLocalePrefix(d: string, f: string, locales: seq<string>)
    requires d in locales && StartsWith(f, "/")
    ensures HasLocalePrefix("/" + d + f, locales)
  {
    var target := "/" + d + f;
    var k :| 0 <= k < |locales| && locales[k] == d;
    assert target[..|d| + 2] == "/" + d + "/";
    assert IsLocaleSegment(target, locales[k]);
  }

  /** Prefixing a locale code keeps a path free of '.'. */
  lemma DefaultPrefixAddsNoDot(d: string, f: string)
    requires IsLocaleCode(d) && '.' !in f
    ensures '.' !in "/" + d + f
  {
    var target := "/" + d + f;
    forall i | 0 <= i < |target| ensures target[i] != '.' {
      if 1 <= i < |d| + 1 { assert target[i] == d[i - 1]; }
      else if i >= |d| + 1 { assert target[i] == f[i - |d| - 1]; }
    }
  }

  /** A request with no query, for a path with a locale prefix and no extension, is let through. */
  lemma BarePrefixedPathPasses(req: Request, cfg: LocaleConfig)
    requires req.query == [] && !HasExtension(req.pathname) && HasLocalePrefix(req.pathname, cfg.locales)
    ensures Route(req, cfg) == PassThrough
  {
    assert NoEarlyRule(req.query);
    assert Serialize(req.query) == [];
    RouteEntersLocaleRouting(req, cfg);
  }

  /**
   * Idempotence of the default-locale rewrite: the rewritten path, requested
   * again with no query, is let through rather than rewritten a second time.
   */
  lemma LocaleRewriteIdempotent(req: Request, cfg: LocaleConfig)
    requires WellFormedLocales(cfg)
    requires NoEarlyRule(req.query) && !HasExtension(req.pathname)
    requires !IsLocaleSwitch(Get(req.query, LangParam), req.pathname, cfg)
    requires StartsWith(req.pathname, "/")
    requires var f := FoldQuery(req.pathname, Serialize(req.query));
             !HasLocalePrefix(f, cfg.locales) && !IsStaticPath(f)
    ensures var f := FoldQuery(req.pathname, Serialize(req.query));
            Route(req, cfg) == Rewrite(Origin(req) + "/" + cfg.defaultLocale + f)
            && Route(Request(req.protocol, req.host, "/" + cfg.defaultLocale + f, []), cfg) == PassThrough
  {
    var f := FoldQuery(req.pathname, Serialize(req.query));
    var d := cfg.defaultLocale;
    var target := "/" + d + f;
    RouteEntersLocaleRouting(req, cfg);
    FoldKeepsLeadingSlash(req.pathname, Serialize(req.query));
    DefaultPrefixIsLocalePrefix(d, f, cfg.locales);
    DefaultPrefixAddsNoDot(d, f);
    BarePrefixedPathPasses(Request(req.protocol, req.host, target, []), cfg);
  }

  /** The same through the route matcher: a path it admits, rewritten, is let through the second time. */
  lemma HandleRewriteIdempotent(req: Request, cfg: LocaleConfig)
    requires WellFormedLocales(cfg) && MatcherAccepts(req.pathname)
    requires NoEarlyRule(req.query) && !HasExtension(req.pathname)
    requires !IsLocaleSwitch(Get(req.query, LangParam), req.pathname, cfg)
    requires var f := FoldQuery(req.pathname, Serialize(req.query));
             !HasLocalePrefix(f, cfg.locales) && !IsStaticPath(f)
    ensures var f := FoldQuery(req.pathname, Serialize(req.query));
            Handle(req, cfg) == Rewrite(Origin(req) + "/" + cfg.defaultLocale + f)
            && Handle(Request(req.protocol, req.host, "/" + cfg.defaultLocale + f, []), cfg) == PassThrough
  {
    LocaleRewriteIdempotent(req, cfg);
  }

  /**
   * The internal endpoints the middleware redirects and rewrites to lie under
   * "/api", which the route matcher excludes, so following them never runs the
   * middleware again.
   */
  lemma ApiTargetsBypassMiddleware(req: Request, cfg: LocaleConfig)
    requires StartsWith(req.pathname, "/api")
    ensures Handle(req, cfg) == PassThrough
  {
    assert req.pathname[1..][..3] == "api";
  }
}
