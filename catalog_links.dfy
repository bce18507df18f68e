/**
 * The first two stages of `catalog.py`: the dataset links of the catalog
 * page become landing-page URLs, and the `/ncml/` links of every landing
 * page become descriptor URLs.
 */
module CatalogLinks {
  import opened Wrappers
  import opened Text
  import opened PosixPath
  import opened Http
  import opened Urls

  /** An `<a>` element: its `href` attribute and its leading text, either possibly absent. */
  datatype Anchor = Anchor(href: Option<string>, text: Option<string>)

  /** A parsed HTML page, as the anchors `findall(".//a")` visits in document order. */
  type Page = seq<Anchor>

  const DatasetPrefix: string := "catalog.html?dataset="

  /** The part of the dataset pattern that must reach the very end of the href. */
  predicate DatasetHrefBody(h: string) {
    && StartsWith(h, DatasetPrefix)
    && '\n' !in h[|DatasetPrefix|..]
    && ((EndsWith(h, ".nc") && |h| >= |DatasetPrefix| + 4)
        || (EndsWith(h, ".ncml") && |h| >= |DatasetPrefix| + 6))
  }

  /**
   * `re.search(r"^catalog\.html\?dataset=(.+)\.(nc|ncml)$", h)` succeeds;
   * `$` also matches just before a final newline.
   */
  predicate IsDatasetHref(h: string) {
    DatasetHrefBody(h) || (h != [] && h[|h| - 1] == '\n' && DatasetHrefBody(h[..|h| - 1]))
  }

  /**
   * The regular expression read as a statement about `h`: it starts with the
   * prefix, a group of at least one character that is not a newline follows,
   * and the rest is `.nc` or `.ncml`, possibly followed by one newline.
   */
  ghost predicate MatchesDatasetPattern(h: string) {
    exists k :: PatternSplit(h, k)
  }

  /** `k` is where the group `(.+)` ends and `\.(nc|ncml)$` begins. */
  predicate PatternSplit(h: string, k: int) {
    && |DatasetPrefix| < k <= |h|
    && h[..|DatasetPrefix|] == DatasetPrefix
    && '\n' !in h[|DatasetPrefix|..k]
    && (h[k..] == ".nc" || h[k..] == ".ncml" || h[k..] == ".nc\n" || h[k..] == ".ncml\n")
  }

  lemma BodySplit(h: string) returns (k: int)
    requires DatasetHrefBody(h)
    ensures PatternSplit(h, k) && (h[k..] == ".nc" || h[k..] == ".ncml")
  {
    var n := |DatasetPrefix|;
    k := if EndsWith(h, ".nc") && |h| >= n + 4 then |h| - 3 else |h| - 5;
    assert h[n..k] == h[n..][..k - n];
  }

  lemma SplitBody(h: string, k: int)
    requires PatternSplit(h, k) && (h[k..] == ".nc" || h[k..] == ".ncml")
    ensures DatasetHrefBody(h)
  {
    assert h[|DatasetPrefix|..] == h[|DatasetPrefix|..k] + h[k..];
  }

  lemma DatasetHrefMatches(h: string)
    requires IsDatasetHref(h)
    ensures MatchesDatasetPattern(h)
  {
    if DatasetHrefBody(h) {
      var k := BodySplit(h);
    } else {
      var n := |DatasetPrefix|;
      var g := h[..|h| - 1];
      var k := BodySplit(g);
      assert h[..n] == g[..n] && h[n..k] == g[n..k];
      assert h[k..] == g[k..] + "\n";
      assert PatternSplit(h, k);
    }
  }

  lemma PatternIsDatasetHref(h: string, k: int)
    requires PatternSplit(h, k)
    ensures IsDatasetHref(h)
  {
    if h[k..] == ".nc" || h[k..] == ".ncml" {
      SplitBody(h, k);
    } else {
      var n := |DatasetPrefix|;
      var g := h[..|h| - 1];
      assert g[..n] == h[..n] && g[n..k] == h[n..k];
      assert g[k..] == h[k..][..|h| - 1 - k];
      SplitBody(g, k);
    }
  }

  /** The executable test decides exactly the regular expression. */
  lemma DatasetHrefIsPattern(h: string)
    ensures IsDatasetHref(h) <==> MatchesDatasetPattern(h)
  {
    if IsDatasetHref(h) {
      DatasetHrefMatches(h);
    }
    if MatchesDatasetPattern(h) {
      var k :| PatternSplit(h, k);
      PatternIsDatasetHref(h, k);
    }
  }

  /** `anchor.get("href")` exists and `catalog_pattern.search` accepts it. */
  predicate IsDatasetAnchor(a: Anchor) {
    a.href.Some? && IsDatasetHref(a.href.value)
  }

  /** The hrefs of the dataset anchors, in document order, duplicates kept. */
  function DatasetHrefs(page: Page): seq<string> {
    if page == [] then []
    else (if IsDatasetAnchor(page[0]) then [page[0].href.value] else []) + DatasetHrefs(page[1..])
  }

  /** Filtering a page is filtering its parts: order is kept and nothing is merged. */
  lemma {:induction false} DatasetHrefsAppend(p: Page, q: Page)
    ensures DatasetHrefs(p + q) == DatasetHrefs(p) + DatasetHrefs(q)
  {
    if p == [] {
      assert p + q == q;
    } else {
      assert (p + q)[0] == p[0] && (p + q)[1..] == p[1..] + q;
      DatasetHrefsAppend(p[1..], q);
    }
  }

  /** An href is kept exactly when some anchor carries it and it matches. */
  lemma {:induction false} DatasetHrefsMembers(page: Page, h: string)
    ensures h in DatasetHrefs(page) <==>
              exists i :: 0 <= i < |page| && page[i].href == Some(h) && IsDatasetHref(h)
  {
    if page != [] {
      DatasetHrefsMembers(page[1..], h);
      if h in DatasetHrefs(page[1..]) {
        var i :| 0 <= i < |page[1..]| && page[1..][i].href == Some(h) && IsDatasetHref(h);
        assert page[i + 1].href == Some(h);
      }
      if exists i :: 0 <= i < |page| && page[i].href == Some(h) && IsDatasetHref(h) {
        var i :| 0 <= i < |page| && page[i].href == Some(h) && IsDatasetHref(h);
        if i > 0 {
          assert page[1..][i - 1].href == Some(h);
        }
      }
    }
  }

  /**
   * A landing URL: the directory of the catalog's path joined with the href,
   * put back together with the catalog's scheme and host.
   */
  function LandingUrl(catalog: UrlParts, href: string): string {
    Unsplit(catalog.scheme, catalog.netloc, Join(Split(catalog.path).0, href))
  }

  /** One landing URL per dataset anchor, in document order. */
  function LandingUrls(catalog: UrlParts, page: Page): (r: seq<string>)
    ensures |r| == |DatasetHrefs(page)|
  {
    var hrefs := DatasetHrefs(page);
    seq(|hrefs|, i requires 0 <= i < |hrefs| => LandingUrl(catalog, hrefs[i]))
  }

  /**
   * For an absolute catalog path without `//`, the landing URL is the catalog
   * URL with its last path component replaced by the href.
   */
  lemma LandingUrlReplacesFileName(catalog: UrlParts, href: string)
    requires catalog.scheme != "" && catalog.netloc != ""
    requires StartsWith(catalog.path, "/") && NoDoubleSlash(catalog.path)
    requires IsDatasetHref(href)
    ensures LandingUrl(catalog, href) ==
              catalog.scheme + "://" + catalog.netloc
              + catalog.path[..AfterLastSlash(catalog.path)] + href
  {
    assert !StartsWith(href, "/") by {
      assert href[0] == DatasetPrefix[0];
    }
    JoinWithHead(catalog.path, href);
    var path := catalog.path[..AfterLastSlash(catalog.path)] + href;
    assert StartsWith(path, "/") by { assert path[0] == catalog.path[0]; }
    UnsplitWithHost(catalog.scheme, catalog.netloc, path);
  }

  /**
   * The catalog `http://h/thredds/catalog/SSV-Ncml/catalog.html` with the
   * href `catalog.html?dataset=foo.nc` gives
   * `http://h/thredds/catalog/SSV-Ncml/catalog.html?dataset=foo.nc`.
   */
  lemma LandingUrlExample()
    ensures LandingUrl(UrlParts("http", "h", "/thredds/catalog/SSV-Ncml" + "/" + "catalog.html"),
                       "catalog.html?dataset=foo.nc")
            == "http" + "://" + "h" + "/thredds/catalog/SSV-Ncml" + "/" + "catalog.html?dataset=foo.nc"
  {
    var dir, name := "/thredds/catalog/SSV-Ncml", "catalog.html";
    var href := "catalog.html?dataset=foo.nc";
    assert name[0] == 'c' && href[0] == 'c';
    assert Join(dir, name) == dir + "/" + name;
    JoinThenSplit(dir, name);
    var path := dir + "/" + href;
    assert Join(dir, href) == path;
    assert path[0] == '/';
    UnsplitWithHost("http", "h", path);
  }

  /**
   * `requests.get` followed by the `ok` test and `raise_for_status()`: a
   * page that cannot be fetched, or comes back with a 4xx or 5xx status,
   * ends the script.
   */
  function GetPage(url: string, fetched: Fetched<Page>): (r: Result<Page, Failure>)
    ensures r.Success? <==> fetched.Response? && IsOk(fetched.status)
  {
    match fetched
    case Raised => Failure(ConnectionError(url))
    case Response(status, page) =>
      if IsOk(status) then Success(page) else Failure(HttpError(url, status))
  }

  /** The landing URLs of the catalog page, or the failure that ended the script. */
  function DiscoverLandingUrls(catalog: UrlParts, url: string, fetched: Fetched<Page>): (r: Result<seq<string>, Failure>)
    ensures fetched.Response? && IsOk(fetched.status) ==> r == Success(LandingUrls(catalog, fetched.body))
    ensures fetched.Raised? ==> r == Failure(ConnectionError(url))
    ensures fetched.Response? && !IsOk(fetched.status) ==> r == Failure(HttpError(url, fetched.status))
  {
    match GetPage(url, fetched)
    case Success(page) => Success(LandingUrls(catalog, page))
    case Failure(e) => Failure(e)
  }

  const DescriptorMarker: string := "/ncml/"

  /** `landing_pattern.search(anchor.get("href"))` succeeds. */
  predicate IsDescriptorAnchor(a: Anchor) {
    a.href.Some? && Contains(a.href.value, DescriptorMarker)
  }

  /** The anchors whose href contains `/ncml/`, in document order. */
  function DescriptorAnchors(page: Page): seq<Anchor> {
    if page == [] then []
    else (if IsDescriptorAnchor(page[0]) then [page[0]] else []) + DescriptorAnchors(page[1..])
  }

  /**
   * `[anchor.text.strip() for anchor in anchors if landing_pattern.search(...)]`:
   * the first matching anchor without text raises.
   */
  function DescriptorPaths(url: string, page: Page): Result<seq<string>, Failure> {
    if page == [] then Success([])
    else if IsDescriptorAnchor(page[0]) then
      match page[0].text
      case None => Failure(NoAnchorText(url))
      case Some(t) =>
        match DescriptorPaths(url, page[1..])
        case Failure(e) => Failure(e)
        case Success(ps) => Success([Strip(t)] + ps)
    else DescriptorPaths(url, page[1..])
  }

  /**
   * The list comprehension over a landing page fails exactly when one of its
   * `/ncml/` anchors has no text.
   */
  lemma {:induction false} DescriptorPathsFailOnMissingText(url: string, page: Page)
    ensures DescriptorPaths(url, page).Success? <==>
              forall a :: a in DescriptorAnchors(page) ==> a.text.Some?
  {
    if page != [] {
      DescriptorPathsFailOnMissingText(url, page[1..]);
      if IsDescriptorAnchor(page[0]) {
        assert DescriptorAnchors(page) == [page[0]] + DescriptorAnchors(page[1..]);
      }
    }
  }

  /**
   * When it succeeds, the descriptor paths are the stripped texts of the
   * `/ncml/` anchors, one per anchor and in order.
   */
  lemma {:induction false} DescriptorPathsAreStrippedTexts(url: string, page: Page)
    requires DescriptorPaths(url, page).Success?
    ensures |DescriptorPaths(url, page).value| == |DescriptorAnchors(page)|
    ensures forall j :: 0 <= j < |DescriptorAnchors(page)| ==>
              DescriptorAnchors(page)[j].text.Some?
              && DescriptorPaths(url, page).value[j] == Strip(DescriptorAnchors(page)[j].text.value)
  {
    if page != [] {
      var rest := page[1..];
      DescriptorPathsAreStrippedTexts(url, rest);
      if IsDescriptorAnchor(page[0]) {
        var anchors, others := DescriptorAnchors(page), DescriptorAnchors(rest);
        var ps := DescriptorPaths(url, rest).value;
        assert anchors == [page[0]] + others;
        var all := DescriptorPaths(url, page).value;
        assert all == [Strip(page[0].text.value)] + ps;
        forall j | 0 <= j < |anchors|
          ensures anchors[j].text.Some? && all[j] == Strip(anchors[j].text.value)
        {
          if j == 0 {
            assert anchors[0] == page[0];
          } else {
            assert anchors[j] == others[j - 1];
            assert all[j] == ps[j - 1];
          }
        }
      } else {
        assert DescriptorAnchors(page) == DescriptorAnchors(rest);
        assert DescriptorPaths(url, page) == DescriptorPaths(url, rest);
      }
    }
  }

  /**
   * The href only selects: two pages whose anchors agree on being selected
   * and on their text give the same descriptor paths, whatever the hrefs say.
   */
  lemma {:induction false} HrefOnlySelects(url: string, p: Page, q: Page)
    requires |p| == |q|
    requires forall i :: 0 <= i < |p| ==>
               IsDescriptorAnchor(p[i]) == IsDescriptorAnchor(q[i]) && p[i].text == q[i].text
    ensures DescriptorPaths(url, p) == DescriptorPaths(url, q)
  {
    if p != [] {
      assert IsDescriptorAnchor(p[0]) == IsDescriptorAnchor(q[0]) && p[0].text == q[0].text;
      HrefOnlySelects(url, p[1..], q[1..]);
    }
  }

  /** A descriptor URL: the stripped path with the catalog's scheme and host. */
  function DescriptorUrl(catalog: UrlParts, path: string): string {
    Unsplit(catalog.scheme, catalog.netloc, path)
  }

  function DescriptorUrls(catalog: UrlParts, paths: seq<string>): (r: seq<string>)
    ensures |r| == |paths|
  {
    seq(|paths|, i requires 0 <= i < |paths| => DescriptorUrl(catalog, paths[i]))
  }

  /**
   * Runs two steps one after the other: the first one's failure is the
   * outcome, otherwise the second one's URLs follow the first one's.
   */
  function Chain(first: Result<seq<string>, Failure>, next: Result<seq<string>, Failure>): Result<seq<string>, Failure> {
    match first
    case Failure(e) => Failure(e)
    case Success(urls) =>
      match next
      case Success(rest) => Success(urls + rest)
      case Failure(e) => Failure(e)
  }

  lemma ChainAssociative(x: Result<seq<string>, Failure>, y: Result<seq<string>, Failure>, z: Result<seq<string>, Failure>)
    ensures Chain(Chain(x, y), z) == Chain(x, Chain(y, z))
  {
    if x.Success? && y.Success? && z.Success? {
      assert x.value + y.value + z.value == x.value + (y.value + z.value);
    }
  }

  lemma ChainEmpty(r: Result<seq<string>, Failure>)
    ensures Chain(Success([]), r) == r
  {
    if r.Success? {
      assert [] + r.value == r.value;
    }
  }

  /** The descriptor URLs one landing page contributes, or the failure it raises. */
  function LandingDescriptorUrls(catalog: UrlParts, url: string, fetched: Fetched<Page>): Result<seq<string>, Failure> {
    match GetPage(url, fetched)
    case Failure(e) => Failure(e)
    case Success(page) =>
      match DescriptorPaths(url, page)
      case Failure(e) => Failure(e)
      case Success(paths) => Success(DescriptorUrls(catalog, paths))
  }

  /** What the loop over the landing URLs computes: `ncml_urls`, or the first failure. */
  function AllDescriptorUrls(catalog: UrlParts, get: string -> Fetched<Page>, landing: seq<string>): Result<seq<string>, Failure> {
    if landing == [] then Success([])
    else Chain(LandingDescriptorUrls(catalog, landing[0], get(landing[0])), AllDescriptorUrls(catalog, get, landing[1..]))
  }

  /**
   * The URLs of consecutive runs of landing pages are concatenated in order,
   * and a failure in the first run ends the loop before the second starts.
   */
  lemma {:induction false} AllDescriptorUrlsAppend(catalog: UrlParts, get: string -> Fetched<Page>, a: seq<string>, b: seq<string>)
    ensures AllDescriptorUrls(catalog, get, a + b) ==
              Chain(AllDescriptorUrls(catalog, get, a), AllDescriptorUrls(catalog, get, b))
  {
    if a == [] {
      assert a + b == b;
      ChainEmpty(AllDescriptorUrls(catalog, get, b));
    } else {
      assert (a + b)[0] == a[0] && (a + b)[1..] == a[1..] + b;
      AllDescriptorUrlsAppend(catalog, get, a[1..], b);
      ChainAssociative(LandingDescriptorUrls(catalog, a[0], get(a[0])),
                       AllDescriptorUrls(catalog, get, a[1..]), AllDescriptorUrls(catalog, get, b));
    }
  }

  /** A landing page that cannot be fetched, or is not ok, ends the loop with its failure. */
  lemma BadLandingPageAborts(catalog: UrlParts, get: string -> Fetched<Page>, landing: seq<string>, k: nat)
    requires k < |landing|
    requires !(get(landing[k]).Response? && IsOk(get(landing[k]).status))
    requires forall i :: 0 <= i < k ==> LandingDescriptorUrls(catalog, landing[i], get(landing[i])).Success?
    ensures AllDescriptorUrls(catalog, get, landing) == Failure(GetPage(landing[k], get(landing[k])).error)
  {
    assert landing == landing[..k] + landing[k..];
    AllDescriptorsSucceedOn(catalog, get, landing[..k]);
    AllDescriptorUrlsAppend(catalog, get, landing[..k], landing[k..]);
  }

  /** The loop succeeds exactly when every landing page succeeds. */
  lemma {:induction false} AllDescriptorsSucceedOn(catalog: UrlParts, get: string -> Fetched<Page>, landing: seq<string>)
    ensures AllDescriptorUrls(catalog, get, landing).Success? <==>
              forall i :: 0 <= i < |landing| ==> LandingDescriptorUrls(catalog, landing[i], get(landing[i])).Success?
  {
    if landing != [] {
      AllDescriptorsSucceedOn(catalog, get, landing[1..]);
      assert forall i :: 1 <= i < |landing| ==> landing[i] == landing[1..][i - 1];
    }
  }

  /** The loop of `catalog.py` that extends `ncml_urls` page by page. */
  method ResolveDescriptorUrls(catalog: UrlParts, get: string -> Fetched<Page>, landing: seq<string>)
    returns (r: Result<seq<string>, Failure>)
    ensures r == AllDescriptorUrls(catalog, get, landing)
  {
    var ncmlUrls: seq<string> := [];
    var i := 0;
    assert landing[0..] == landing;
    ChainEmpty(AllDescriptorUrls(catalog, get, landing));
    while i < |landing|
      invariant 0 <= i <= |landing|
      invariant AllDescriptorUrls(catalog, get, landing) == Chain(Success(ncmlUrls), AllDescriptorUrls(catalog, get, landing[i..]))
    {
      assert landing[i..][1..] == landing[i + 1..];
      var url := landing[i];
      var fetched := get(url);
      var page: Page;
      match fetched {
        case Raised =>
          return Failure(ConnectionError(url));
        case Response(status, body) =>
          if !IsOk(status) {
            return Failure(HttpError(url, status));
          }
          page := body;
      }
      var paths := DescriptorPaths(url, page);
      if paths.Failure? {
        return Failure(paths.error);
      }
      var urls := DescriptorUrls(catalog, paths.value);
      ChainAssociative(Success(ncmlUrls), Success(urls), AllDescriptorUrls(catalog, get, landing[i + 1..]));
      ncmlUrls := ncmlUrls + urls;
      i := i + 1;
    }
    assert landing[i..] == [];
    assert ncmlUrls + [] == ncmlUrls;
    return Success(ncmlUrls);
  }
}
