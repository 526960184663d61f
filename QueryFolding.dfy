/**
 * Folding the serialized query into the path as a last segment
 * "~~~<encoded>~~~": what the fold keeps of the path and what it adds.
 */
module QueryFolding {
  import opened Strings
  import opened UriEncoding
  import opened SearchParams
  import opened Middleware

  /** A locale code as the locale set holds them: non-empty, ASCII letters, digits and '-'. */
  predicate IsLocaleCode(l: string) {
    l != "" && forall i :: 0 <= i < |l| ==> IsAsciiAlphanumeric(l[i]) || l[i] == '-'
  }

  /** Folding keeps the path as a prefix and appends a '/' (or, after a trailing '/', the '~' of the marker). */
  lemma FoldExtends(p: string, search: string)
    requires search != []
    ensures |FoldQuery(p, search)| > |p| && FoldQuery(p, search)[..|p|] == p
    ensures FoldQuery(p, search)[|p|] == if EndsWith(p, "/") then '~' else '/'
  {
  }

  /** The folded path is the path without a trailing '/', then '/', then the token "~~~<encoded>~~~". */
  lemma FoldAsAppend(p: string, search: string)
    requires search != []
    ensures var stem := if EndsWith(p, "/") then p[..|p| - 1] else p;
            FoldQuery(p, search) == stem + ['/'] + (QueryMarker + EncodeURIComponent(search) + QueryMarker)
  {
    var e := EncodeURIComponent(search);
    if EndsWith(p, "/") {
      var stem := p[..|p| - 1];
      assert p == stem + ['/'];
      assert p + QueryMarker + e + QueryMarker == stem + ['/'] + (QueryMarker + e + QueryMarker);
    } else {
      assert (p + "/") + QueryMarker + e + QueryMarker == p + ['/'] + (QueryMarker + e + QueryMarker);
    }
  }

  /** The encoded query becomes a last path segment of its own, "~~~<encoded>~~~", holding no '/'. */
  lemma FoldLastSegment(p: string, search: string)
    requires search != []
    ensures '/' !in EncodeURIComponent(search)
    ensures AfterLast(FoldQuery(p, search), '/') == QueryMarker + EncodeURIComponent(search) + QueryMarker
  {
    var token := QueryMarker + EncodeURIComponent(search) + QueryMarker;
    EncodeOmits(search, '/');
    assert '/' !in token;
    FoldAsAppend(p, search);
    AfterLastAppend(if EndsWith(p, "/") then p[..|p| - 1] else p, '/', token);
  }

  /** Distinct serialized queries fold the same path into distinct paths. */
  lemma FoldQueryInjective(p: string, s1: string, s2: string)
    requires FoldQuery(p, s1) == FoldQuery(p, s2)
    ensures s1 == s2
  {
    if s1 != [] && s2 != [] {
      var base := if EndsWith(p, "/") then p else p + "/";
      var e1, e2 := EncodeURIComponent(s1), EncodeURIComponent(s2);
      assert e1 == FoldQuery(p, s1)[|base| + 3..|base| + 3 + |e1|];
      assert e2 == FoldQuery(p, s2)[|base| + 3..|base| + 3 + |e2|];
      EncodeInjective(s1, s2);
    }
  }

  /** Distinct queries fold into distinct paths, so they are cached as distinct pages. */
  lemma FoldedQueriesDistinct(p: string, q1: Query, q2: Query)
    requires FoldQuery(p, Serialize(q1)) == FoldQuery(p, Serialize(q2))
    ensures q1 == q2
  {
    FoldQueryInjective(p, Serialize(q1), Serialize(q2));
    SerializeInjective(q1, q2);
  }

  /** Folding a query into a path does not change whether a locale code is its first segment. */
  lemma FoldKeepsLocaleSegment(p: string, search: string, l: string)
    requires StartsWith(p, "/") && search != [] && IsLocaleCode(l)
    ensures IsLocaleSegment(FoldQuery(p, search), l) == IsLocaleSegment(p, l)
  {
    var f := FoldQuery(p, search);
    FoldExtends(p, search);
    var pat := "/" + l + "/";
    assert forall i :: 1 <= i < |l| + 1 ==> pat[i] == l[i - 1];
    if p == "/" + l {
      assert !EndsWith(p, "/") by {
        assert p[|p| - 1] == l[|l| - 1];
      }
      assert f[..|pat|] == pat by {
        assert f[..|p|] == p;
      }
    } else if StartsWith(p, pat) {
      assert f[..|pat|] == pat by {
        assert f[..|p|][..|pat|] == pat;
      }
    }
  }

  /** Folding a query into a path does not change whether it has a locale prefix. */
  lemma FoldKeepsLocalePrefix(p: string, search: string, locales: seq<string>)
    requires StartsWith(p, "/")
    requires forall k :: 0 <= k < |locales| ==> IsLocaleCode(locales[k])
    ensures HasLocalePrefix(FoldQuery(p, search), locales) == HasLocalePrefix(p, locales)
  {
    if search != [] {
      var f := FoldQuery(p, search);
      forall k | 0 <= k < |locales| ensures IsLocaleSegment(f, locales[k]) == IsLocaleSegment(p, locales[k]) {
        FoldKeepsLocaleSegment(p, search, locales[k]);
      }
    }
  }

  /** Folding a query into a path does not change whether it lies under "/_next". */
  lemma FoldKeepsNextPrefix(p: string, search: string)
    requires StartsWith(p, "/")
    ensures StartsWith(FoldQuery(p, search), "/_next") == StartsWith(p, "/_next")
  {
    if search != [] {
      var f := FoldQuery(p, search);
      FoldExtends(p, search);
      if |p| >= 6 {
        assert f[..6] == p[..6] by {
          assert f[..|p|] == p;
        }
      }
    }
  }

  /** A character outside the path and the encoded query, other than '/' and '~', is outside the folded path. */
  lemma FoldKeepsAbsent(p: string, search: string, c: char)
    requires c !in p && c != '/' && c != '~' && c !in EncodeURIComponent(search)
    ensures c !in FoldQuery(p, search)
  {
    if search != [] {
      FoldAsAppend(p, search);
      var stem := if EndsWith(p, "/") then p[..|p| - 1] else p;
      assert c !in stem;
    }
  }

  /** A path starting with '/' still starts with '/' once folded. */
  lemma FoldKeepsLeadingSlash(p: string, search: string)
    requires StartsWith(p, "/")
    ensures StartsWith(FoldQuery(p, search), "/")
  {
    if search != [] {
      FoldExtends(p, search);
      assert FoldQuery(p, search)[..|p|][..1] == "/";
    }
  }
}
