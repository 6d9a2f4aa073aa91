/** Record assembly: every discovered article is numbered from 1 and, when
    it has a link, enriched from its article page: the text comes from the
    content tiers, and the article-page image is consulted only when the
    listing image is falsy. An empty text is replaced by a fixed notice. */
module Records {
  import opened Wrappers
  import opened Dom
  import opened Resolver
  import opened Content
  import opened Images
  import opened Listing

  /** The text a record carries when no paragraph qualified. */
  const Unavailable := "(Content not available \U{2014} article may be paywalled)"

  /** One processed article, as handed to translation, display and download. */
  datatype ArticleRecord = ArticleRecord(
    index: nat,
    title: string,
    content: string,
    image: Option<string>,
    link: Option<string>)

  /** The article page a link opens in a new tab. A link missing from
      `pages` is one whose tab could not be opened or switched to. */
  type Pages = map<string, Page>

  /** The page consulted for `raw`: only a truthy link is opened. */
  function OpenedPage(raw: RawArticle, pages: Pages): Option<Page>
  {
    if Truthy(raw.link) && raw.link.value in pages then Some(pages[raw.link.value]) else None
  }

  /** The text gathered from the opened page, "" when none was opened. */
  function PageText(page: Option<Page>): string {
    match page
    case None => ""
    case Some(p) => ContentOf(p, ScrapeContentSelectors, ScrapeContentXPath)
  }

  /** The stored image: the listing image when truthy; else, on an opened
      page, the first passing article-page image; else the listing image. */
  function RecordImage(listed: Option<string>, page: Option<Page>): Option<string> {
    if Truthy(listed) || page.None? then listed
    else
      match FirstSome(ScrapeImageHits(page.value, ScrapeImageSelectors))
      case Some(u) => Some(u)
      case None => listed
  }

  /** The record built for the `idx`-th discovered article. */
  function RecordOf(idx: nat, raw: RawArticle, pages: Pages): ArticleRecord {
    var page := OpenedPage(raw, pages);
    var text := PageText(page);
    ArticleRecord(idx, raw.title, if text == "" then Unavailable else text, RecordImage(raw.image, page), raw.link)
  }

  /** The body of the enrichment loop for one article. */
  method Enrich(idx: nat, raw: RawArticle, pages: Pages) returns (record: ArticleRecord)
    ensures record == RecordOf(idx, raw, pages)
  {
    var image := raw.image;
    var content := "";
    if Truthy(raw.link) && raw.link.value in pages {
      var page := pages[raw.link.value];
      content := AssembleContent(page, ScrapeContentSelectors, ScrapeContentXPath);
      if !Truthy(image) {
        var found := ScrapeImage(page, ScrapeImageSelectors);
        if found.Some? {
          image := found;
        }
      }
    }
    if content == "" {
      content := Unavailable;
    }
    record := ArticleRecord(idx, raw.title, content, image, raw.link);
  }

  /** The enrichment loop of `scrape_opinion_articles`, numbering from 1. */
  method AssembleRecords(raws: seq<RawArticle>, pages: Pages) returns (records: seq<ArticleRecord>)
    ensures |records| == |raws|
    ensures forall k :: 0 <= k < |raws| ==> records[k] == RecordOf(k + 1, raws[k], pages)
  {
    records := [];
    var i := 0;
    while i < |raws|
      invariant 0 <= i <= |raws|
      invariant |records| == i
      invariant forall k :: 0 <= k < i ==> records[k] == RecordOf(k + 1, raws[k], pages)
    {
      var record := Enrich(i + 1, raws[i], pages);
      records := records + [record];
      i := i + 1;
    }
  }

  /** A record keeps its article's position, title and link, and never has an empty text. */
  lemma RecordKeepsListing(idx: nat, raw: RawArticle, pages: Pages)
    ensures var r := RecordOf(idx, raw, pages);
      r.index == idx && r.title == raw.title && r.link == raw.link && r.content != ""
  {
  }

  /** Without a truthy link, or when its tab failed, the record carries the
      notice and the listing image unchanged. */
  lemma NoPageKeepsListing(idx: nat, raw: RawArticle, pages: Pages)
    requires !Truthy(raw.link) || raw.link.value !in pages
    ensures RecordOf(idx, raw, pages).content == Unavailable
    ensures RecordOf(idx, raw, pages).image == raw.image
  {
  }

  /** A truthy listing image is never replaced by the article page's. */
  lemma ListingImageWins(idx: nat, raw: RawArticle, pages: Pages)
    requires Truthy(raw.image)
    ensures RecordOf(idx, raw, pages).image == raw.image
  {
  }

  /** With a falsy listing image and an opened page, the stored image is the
      truncated value of the first article-page selector that passes, which
      holds no comma and no space; the listing image stays when none passes. */
  lemma PageImageFallback(idx: nat, raw: RawArticle, pages: Pages)
    requires !Truthy(raw.image) && OpenedPage(raw, pages).Some?
    ensures var page := OpenedPage(raw, pages).value;
      var img := RecordOf(idx, raw, pages).image;
      match FirstSome(ScrapeImageHits(page, ScrapeImageSelectors))
      case Some(u) => img == Some(u) && ',' !in u && ' ' !in u
      case None => img == raw.image
  {
    ScrapeImageShape(OpenedPage(raw, pages).value, ScrapeImageSelectors);
  }

  /** The text of a record is the notice, or the assembled paragraphs of a
      single query of the opened page: one CSS selector or the XPath query. */
  lemma RecordTextSource(idx: nat, raw: RawArticle, pages: Pages)
    ensures var r := RecordOf(idx, raw, pages);
      || r.content == Unavailable
      || exists q :: q in ScrapeContentSelectors + [ScrapeContentXPath]
           && OpenedPage(raw, pages).Some?
           && ParagraphsAt(OpenedPage(raw, pages).value, q).Some?
           && r.content == TierContent(ParagraphsAt(OpenedPage(raw, pages).value, q).value)
  {
    var page := OpenedPage(raw, pages);
    if page.Some? {
      var qs := ScrapeContentSelectors + [ScrapeContentXPath];
      var hits := CssHits(page.value, ScrapeContentSelectors);
      if FirstSome(hits).Some? {
        var k := FirstSomeIndex(hits);
        assert qs[k] == ScrapeContentSelectors[k];
        assert RecordOf(idx, raw, pages).content == TierContent(ParagraphsAt(page.value, qs[k]).value);
      } else if ParagraphsAt(page.value, ScrapeContentXPath).Some? {
        assert qs[3] == ScrapeContentXPath;
      }
    }
  }

  /** An opened page on which no query yields a qualifying paragraph gives
      the notice, never an empty text. */
  lemma NoParagraphsGiveNotice(idx: nat, raw: RawArticle, pages: Pages)
    requires OpenedPage(raw, pages).Some?
    requires forall q :: q in ScrapeContentSelectors + [ScrapeContentXPath] ==>
      ParagraphsAt(OpenedPage(raw, pages).value, q).None?
      || Qualifying(ParagraphsAt(OpenedPage(raw, pages).value, q).value) == []
    ensures RecordOf(idx, raw, pages).content == Unavailable
  {
    var page := OpenedPage(raw, pages).value;
    var qs := ScrapeContentSelectors + [ScrapeContentXPath];
    assert forall k :: 0 <= k < |ScrapeContentSelectors| ==> ScrapeContentSelectors[k] == qs[k];
    assert ScrapeContentXPath == qs[|qs| - 1];
    ContentEmptyIff(page, ScrapeContentSelectors, ScrapeContentXPath);
  }

  /** The records of the whole run: the discovered articles, enriched. */
  method ScrapeOpinionArticles(listing: Option<seq<Container>>, pages: Pages) returns (records: seq<ArticleRecord>)
    ensures listing.None? ==> records == []
    ensures listing.Some? ==> var raws := Capped(Candidates(listing.value));
      |records| == |raws| && forall k :: 0 <= k < |raws| ==> records[k] == RecordOf(k + 1, raws[k], pages)
  {
    var raws := Discover(listing);
    records := AssembleRecords(raws, pages);
  }

  /** A run yields at most five records, numbered 1, 2, … in listing order,
      each with a non-empty title and a non-empty text. */
  lemma RunShape(cs: seq<Container>, pages: Pages)
    ensures var raws := Capped(Candidates(cs));
      |raws| <= MaxArticles
      && forall k :: 0 <= k < |raws| ==>
        var r := RecordOf(k + 1, raws[k], pages);
        r.index == k + 1 && r.title == raws[k].title && r.title != "" && r.content != ""
  {
    DiscoveredShape(cs);
    var raws := Capped(Candidates(cs));
    forall k | 0 <= k < |raws|
      ensures RecordOf(k + 1, raws[k], pages).title != ""
    {
      assert raws[k] in raws;
    }
  }
}
