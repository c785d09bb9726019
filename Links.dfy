/** The link normaliser: an href found in a feed is rewritten towards the
    local proxy's routes (`/opds` for catalog pages, `/b` for books) by
    prefix tests; not every result is a route the proxy serves. */
module Links {
  import opened Wrappers
  import opened Strings

  /** The remote catalog's origin, as it appears in absolute hrefs. */
  const Origin := "http://flibusta.is"
  /** The proxy's catalog route, which is also the root location. */
  const CatalogRoot := "/opds"
  /** The proxy's book-download route. */
  const BookRoot := "/b"

  /** A string starting with one of the prefixes `/b` or `/opds` that the
      normaliser tests (this also admits, say, `/bar` or `/opdsx`). */
  predicate IsProxyPath(s: string) {
    StartsWith(s, BookRoot) || StartsWith(s, CatalogRoot)
  }

  /** `normalizeHref`: an absent or empty href gives "" (no link); a proxy path
      is kept; an absolute href on the origin loses the origin (the rest is kept
      verbatim, whatever it is); anything else is taken relative to the catalog
      and prefixed with "/opds". */
  function NormalizeHref(href: Option<string>): (r: string)
    ensures r == "" <==> href == None || href == Some("") || href == Some(Origin)
    ensures href.Some? && IsProxyPath(href.value) ==> r == href.value
    ensures href.Some? && StartsWith(href.value, Origin) ==> Origin + r == href.value
    ensures href.Some? && !StartsWith(href.value, Origin) ==> r == "" || IsProxyPath(r)
    ensures href.Some? && href.value != "" && !IsProxyPath(href.value) && !StartsWith(href.value, Origin)
      ==> StartsWith(r, CatalogRoot) && r[|CatalogRoot|..] == href.value
  {
    match href
    case None => ""
    case Some(h) =>
      assert StartsWith(h, Origin) ==> h[0] == 'h';
      assert IsProxyPath(h) ==> h[0] == '/';
      if h == "" then ""
      else if StartsWith(h, BookRoot) then h
      else if StartsWith(h, CatalogRoot) then h
      else if StartsWith(h, Origin) then
        assert h == Origin + h[|Origin|..];
        assert h[|Origin|..] == "" ==> h == Origin;
        h[|Origin|..]
      else
        assert (CatalogRoot + h)[..|CatalogRoot|] == CatalogRoot;
        CatalogRoot + h
  }

  /** Exactly the empty string and the proxy paths are left alone by the
      normaliser; every other string is changed. */
  lemma NormalizeFixedPoints(s: string)
    ensures NormalizeHref(Some(s)) == s <==> s == "" || IsProxyPath(s)
  {
  }

  /** An href that is not on the remote origin normalises, in one step, to a
      fixed point of the normaliser; in particular a relative path prefixed with
      "/opds" stays put. */
  lemma NormalizeIdempotentOffOrigin(href: Option<string>)
    requires href.None? || !StartsWith(href.value, Origin)
    ensures NormalizeHref(Some(NormalizeHref(href))) == NormalizeHref(href)
  {
  }

  /** Normalising is not idempotent for hrefs on the origin whose remainder is
      not itself a proxy path. */
  lemma NormalizeNotIdempotent()
    ensures NormalizeHref(Some("http://flibusta.is/genre")) == "/genre"
    ensures NormalizeHref(Some("/genre")) == "/opds/genre"
  {
    assert "http://flibusta.is/genre"[..|Origin|] == Origin;
    assert "http://flibusta.is/genre"[|Origin|..] == "/genre";
    assert "/genre"[..|BookRoot|] == "/g";
    assert "/genre"[..|CatalogRoot|] == "/genr";
  }

  /** The three reference cases: an absolute catalog link, a bare relative path
      and a book path. */
  lemma NormalizeExamples()
    ensures NormalizeHref(Some("http://flibusta.is/opds/new")) == "/opds/new"
    ensures NormalizeHref(Some("/genre/33")) == "/opds/genre/33"
    ensures NormalizeHref(Some("/b/123/epub")) == "/b/123/epub"
  {
    assert "http://flibusta.is/opds/new"[..|Origin|] == Origin;
    assert "http://flibusta.is/opds/new"[|Origin|..] == "/opds/new";
    assert "/b/123/epub"[..|BookRoot|] == BookRoot;
    assert "/genre/33"[..|BookRoot|] == "/g";
    assert "/genre/33"[..|CatalogRoot|] == "/genr";
  }
}
