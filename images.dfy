/** Cover-image selection. Three variants of one pattern: an ordered list of
    selectors, the first non-empty of three attributes of the matched
    element, and a validation test; the first selector whose value passes
    decides the image. */
module Images {
  import opened Wrappers
  import opened PyText
  import opened Dom
  import opened Resolver

  /** The selectors of `get_image_from_article_page`, in priority order. */
  const PageImageSelectors := [
    Css("figure.a_e_m img"),
    Css("figure img[src]"),
    Css(".a_m img"),
    Css("picture img"),
    Css("article img")
  ]

  /** The selectors of the image loop inside `scrape_opinion_articles`. */
  const ScrapeImageSelectors := [
    Css("figure.a_e_m img"),
    Css("figure img[src]"),
    Css(".a_m img"),
    Css("picture source"),
    Css("picture img")
  ]

  /** The article-page candidate: `src or data-src or data-lazy-src`. */
  function PageCandidate(e: ImageElement): Option<string> {
    Or3(e.src, e.dataSrc, e.dataLazySrc)
  }

  /** The article-page test: an HTTP URL that does not end in ".svg". */
  predicate IsPageImageUrl(u: string) {
    StartsWith(u, "http") && !EndsWith(u, ".svg")
  }

  /** One article-page selector: its candidate, when the element was found and the candidate passes. */
  function PageImageHit(e: Option<ImageElement>): Option<string>
  {
    if e.Some? && Truthy(PageCandidate(e.value)) && IsPageImageUrl(PageCandidate(e.value).value)
    then PageCandidate(e.value) else None
  }

  function PageImageHits(page: Page, qs: seq<Query>): (r: seq<Option<string>>)
    ensures |r| == |qs|
    ensures forall k :: 0 <= k < |qs| ==> r[k] == PageImageHit(ImageAt(page, qs[k]))
  {
    if qs == [] then [] else [PageImageHit(ImageAt(page, qs[0]))] + PageImageHits(page, qs[1..])
  }

  /** The selector loop of `get_image_from_article_page`. */
  method PageImage(page: Page, qs: seq<Query>) returns (img: Option<string>)
    ensures img == FirstSome(PageImageHits(page, qs))
  {
    img := None;
    var i := 0;
    while i < |qs|
      invariant 0 <= i <= |qs|
      invariant FirstSome(PageImageHits(page, qs)) == FirstSome(PageImageHits(page, qs[i..]))
    {
      assert PageImageHits(page, qs[i..]) == [PageImageHits(page, qs)[i]] + PageImageHits(page, qs[i + 1..]);
      var e := ImageAt(page, qs[i]);
      if e.Some? {
        var candidate := Or3(e.value.src, e.value.dataSrc, e.value.dataLazySrc);
        if Truthy(candidate) && StartsWith(candidate.value, "http") && !EndsWith(candidate.value, ".svg") {
          img := candidate;
          return;
        }
      }
      i := i + 1;
    }
  }

  /** `get_image_from_article_page`: `None` also when the tab could not be opened. */
  method GetImageFromArticlePage(page: Option<Page>) returns (img: Option<string>)
    ensures page.None? ==> img.None?
    ensures page.Some? ==> img == FirstSome(PageImageHits(page.value, PageImageSelectors))
  {
    img := None;
    if page.Some? {
      img := PageImage(page.value, PageImageSelectors);
    }
  }

  /** The article-page image is an HTTP URL not ending in ".svg", taken from
      the first selector whose candidate passes; `None` when none passes. */
  lemma PageImageIsValid(page: Page, qs: seq<Query>)
    ensures match FirstSome(PageImageHits(page, qs))
      case Some(u) => IsPageImageUrl(u) && exists k :: 0 <= k < |qs| && PageImageHit(ImageAt(page, qs[k])) == Some(u)
      case None => forall k :: 0 <= k < |qs| ==> PageImageHit(ImageAt(page, qs[k])).None?
  {
    var hits := PageImageHits(page, qs);
    FirstSomeNone(hits);
    if FirstSome(hits).Some? {
      var k := FirstSomeIndex(hits);
    }
  }

  /** The scrape-loop candidate: `src or srcset or data-src`. */
  function ScrapeCandidate(e: ImageElement): Option<string> {
    Or3(e.src, e.srcset, e.dataSrc)
  }

  /** The scrape-loop test, on the untruncated value: it contains "http" and does not end in ".svg". */
  predicate IsScrapeImageValue(v: string) {
    Contains(v, "http") && !EndsWith(v, ".svg")
  }

  /** `candidate.split(",")[0].split(" ")[0].strip()`: the first `srcset` entry's URL. */
  function SrcsetHead(v: string): (r: string)
    ensures ',' !in r && ' ' !in r
  {
    var t := BeforeFirst(BeforeFirst(v, ','), ' ');
    StripChars(t);
    Strip(t)
  }

  /** A plain URL survives the truncation: a value with no comma, no space and
      no whitespace at its ends is stored unchanged. */
  lemma SrcsetHeadOfPlainUrl(u: string)
    requires ',' !in u && ' ' !in u
    requires u == [] || (!IsSpace(u[0]) && !IsSpace(u[|u| - 1]))
    ensures SrcsetHead(u) == u
  {
    BeforeFirstAbsent(u, ',');
    BeforeFirstAbsent(u, ' ');
    StripIdentity(u);
  }

  /** Of a `srcset` value "u w, rest" (u a plain URL, w its width descriptor), `u` is stored. */
  lemma SrcsetHeadOfSrcset(u: string, w: string, rest: string)
    requires ',' !in u && ' ' !in u && ',' !in w
    requires u == [] || (!IsSpace(u[0]) && !IsSpace(u[|u| - 1]))
    ensures SrcsetHead(u + " " + w + "," + rest) == u
  {
    var v := u + " " + w + "," + rest;
    assert v == (u + " " + w) + [','] + rest;
    assert ',' !in u + " " + w;
    BeforeFirstSplit(u + " " + w, ',', rest);
    assert u + " " + w == u + [' '] + w;
    BeforeFirstSplit(u, ' ', w);
    StripIdentity(u);
  }

  /** One scrape-loop selector: the truncated candidate, when the element was found and the candidate passes. */
  function ScrapeImageHit(e: Option<ImageElement>): Option<string>
  {
    if e.Some? && Truthy(ScrapeCandidate(e.value)) && IsScrapeImageValue(ScrapeCandidate(e.value).value)
    then Some(SrcsetHead(ScrapeCandidate(e.value).value)) else None
  }

  function ScrapeImageHits(page: Page, qs: seq<Query>): (r: seq<Option<string>>)
    ensures |r| == |qs|
    ensures forall k :: 0 <= k < |qs| ==> r[k] == ScrapeImageHit(ImageAt(page, qs[k]))
  {
    if qs == [] then [] else [ScrapeImageHit(ImageAt(page, qs[0]))] + ScrapeImageHits(page, qs[1..])
  }

  /** The image loop inside `scrape_opinion_articles`. */
  method ScrapeImage(page: Page, qs: seq<Query>) returns (img: Option<string>)
    ensures img == FirstSome(ScrapeImageHits(page, qs))
  {
    img := None;
    var i := 0;
    while i < |qs|
      invariant 0 <= i <= |qs|
      invariant FirstSome(ScrapeImageHits(page, qs)) == FirstSome(ScrapeImageHits(page, qs[i..]))
    {
      assert ScrapeImageHits(page, qs[i..]) == [ScrapeImageHits(page, qs)[i]] + ScrapeImageHits(page, qs[i + 1..]);
      var e := ImageAt(page, qs[i]);
      if e.Some? {
        var candidate := Or3(e.value.src, e.value.srcset, e.value.dataSrc);
        if Truthy(candidate) && Contains(candidate.value, "http") && !EndsWith(candidate.value, ".svg") {
          img := Some(SrcsetHead(candidate.value));
          return;
        }
      }
      i := i + 1;
    }
  }

  /** The scrape-loop image holds no comma and no space, and comes from the
      first selector whose untruncated candidate passes; `None` when none passes. */
  lemma ScrapeImageShape(page: Page, qs: seq<Query>)
    ensures match FirstSome(ScrapeImageHits(page, qs))
      case Some(u) => ',' !in u && ' ' !in u
        && exists k :: 0 <= k < |qs| && ScrapeImageHit(ImageAt(page, qs[k])) == Some(u)
      case None => forall k :: 0 <= k < |qs| ==> ScrapeImageHit(ImageAt(page, qs[k])).None?
  {
    var hits := ScrapeImageHits(page, qs);
    FirstSomeNone(hits);
    if FirstSome(hits).Some? {
      var k := FirstSomeIndex(hits);
    }
  }

  /** An element whose only attribute is a passing `srcset` value stores that value's head. */
  lemma ScrapeHitOfSrcset(v: string)
    requires v != [] && IsScrapeImageValue(v)
    ensures ScrapeImageHit(Some(ImageElement(None, Some(v), None, None))) == Some(SrcsetHead(v))
  {
    var e := ImageElement(None, Some(v), None, None);
    assert ScrapeCandidate(e) == Some(v);
  }

  /** The "http" test runs before truncation, so the stored value need not be
      an HTTP URL: of a `srcset` whose first entry `u` is not HTTP but whose
      rest mentions "http", `u` is stored. */
  lemma ScrapeImageMayNotBeHttp(u: string, w: string, rest: string)
    requires ',' !in u && ' ' !in u && ',' !in w && u != [] && !IsSpace(u[0]) && !IsSpace(u[|u| - 1])
    requires !StartsWith(u, "http")
    requires Contains(rest, "http") && |rest| >= 4 && !EndsWith(rest, ".svg")
    ensures var e := ImageElement(None, Some(u + " " + w + "," + rest), None, None);
      ScrapeImageHit(Some(e)) == Some(u)
  {
    var pre := u + " " + w + ",";
    var v := pre + rest;
    assert v == u + " " + w + "," + rest;
    assert IsScrapeImageValue(v) by {
      ContainsInSuffix(pre, rest, "http");
      EndsWithSuffix(pre, rest, ".svg");
    }
    assert SrcsetHead(v) == u by {
      SrcsetHeadOfSrcset(u, w, rest);
    }
    ScrapeHitOfSrcset(v);
  }

  /** The ".svg" test runs before truncation, so an SVG can be stored: of
      "u w" with `u` an HTTP URL ending in ".svg", `u` is stored. */
  lemma ScrapeImageMayBeSvg(u: string, w: string)
    requires ',' !in u && ' ' !in u && ',' !in w && u != [] && !IsSpace(u[0]) && !IsSpace(u[|u| - 1])
    requires StartsWith(u, "http") && EndsWith(u, ".svg")
    requires |w| >= 4 && !EndsWith(w, ".svg")
    ensures var e := ImageElement(None, Some(u + " " + w), None, None);
      ScrapeImageHit(Some(e)) == Some(u)
  {
    var v := u + " " + w;
    assert IsScrapeImageValue(v) by {
      assert v[..4] == u[..4];
      assert Contains(v, "http");
      EndsWithSuffix(u + " ", w, ".svg");
    }
    assert SrcsetHead(v) == u by {
      assert ',' !in v;
      BeforeFirstAbsent(v, ',');
      assert v == u + [' '] + w;
      BeforeFirstSplit(u, ' ', w);
      StripIdentity(u);
    }
    ScrapeHitOfSrcset(v);
  }

  /** The listing-page image: `src or data-src or data-lazy-src` of the
      container's first `img`, dropped when it ends in ".svg" or, lowercased,
      contains "icon"; `None` when the container has no `img`. */
  function ListingImage(e: Option<ImageElement>): (r: Option<string>)
    ensures Truthy(r) ==> !EndsWith(r.value, ".svg") && !Contains(Lower(r.value), "icon")
    ensures e.None? ==> r.None?
    ensures r.Some? ==> r == PageCandidate(e.value)
    ensures e.Some? && (!Truthy(PageCandidate(e.value))
      || (!EndsWith(PageCandidate(e.value).value, ".svg") && !Contains(Lower(PageCandidate(e.value).value), "icon")))
      ==> r == PageCandidate(e.value)
  {
    match e
    case None => None
    case Some(el) =>
      var v := Or3(el.src, el.dataSrc, el.dataLazySrc);
      if Truthy(v) && (EndsWith(v.value, ".svg") || Contains(Lower(v.value), "icon")) then None else v
  }

  /** An image element whose attributes are all empty strings leaves the
      listing image `Some("")`, not `None`: Python's `or` yields its last operand. */
  lemma ListingImageMayBeEmpty()
    ensures ListingImage(Some(ImageElement(Some(""), None, Some(""), Some("")))) == Some("")
  {
  }
}
