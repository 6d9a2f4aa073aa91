/** Article-text assembly: each selector yields paragraph texts; the stripped
    texts longer than 40 characters are kept, the first six are joined with
    single spaces, and the first CSS selector that yields any decides the
    content. The XPath query is tried only when every CSS selector gave
    nothing. */
module Content {
  import opened Wrappers
  import opened PyText
  import opened Dom
  import opened Resolver

  /** A paragraph is kept only when its stripped text is longer than this. */
  const MinParagraphLength := 40
  /** At most this many kept paragraphs make up the content. */
  const MaxParagraphs := 6

  /** The CSS selectors of `get_article_content`, in priority order. */
  const PageContentSelectors := [
    Css("div.a_c p"),
    Css("div[data-dtm-region='articulo_cuerpo'] p"),
    Css("div.article_body p"),
    Css("section.articulo-cuerpo p")
  ]
  /** The XPath query `get_article_content` falls back to. */
  const PageContentXPath := XPath(
    "//article//p[not(ancestor::aside) and not(ancestor::nav) and "
    + "not(ancestor::*[@class and contains(@class,'related')]) and "
    + "not(ancestor::*[@class and contains(@class,'sidebar')])]")

  /** The CSS selectors of the loop inside `scrape_opinion_articles`. */
  const ScrapeContentSelectors := [
    Css("div.a_c p"),
    Css("div[data-dtm-region='articulo_cuerpo'] p"),
    Css("div.article_body p")
  ]
  /** The XPath query of `scrape_opinion_articles` (no `@class` test). */
  const ScrapeContentXPath := XPath(
    "//article//p[not(ancestor::aside) and not(ancestor::nav) and "
    + "not(ancestor::*[contains(@class,'related')]) and "
    + "not(ancestor::*[contains(@class,'sidebar')])]")

  /** One paragraph's contribution: its stripped text when that is long enough. */
  function Kept(p: string): (r: seq<string>)
    ensures |r| <= 1
  {
    var t := Strip(p);
    if |t| > MinParagraphLength then [t] else []
  }

  /** The list comprehension over the paragraphs: stripped texts longer than 40, in order. */
  function Qualifying(paras: seq<string>): (parts: seq<string>)
    ensures |parts| <= |paras|
  {
    if paras == [] then [] else Kept(paras[0]) + Qualifying(paras[1..])
  }

  /** Every kept paragraph is longer than `MinParagraphLength`. */
  lemma {:induction false} QualifyingLong(paras: seq<string>)
    ensures forall k :: 0 <= k < |Qualifying(paras)| ==> |Qualifying(paras)[k]| > MinParagraphLength
  {
    if paras != [] {
      QualifyingLong(paras[1..]);
    }
  }

  /** Paragraphs are judged one by one and kept in document order. */
  lemma {:induction false} QualifyingConcat(a: seq<string>, b: seq<string>)
    ensures Qualifying(a + b) == Qualifying(a) + Qualifying(b)
  {
    if a == [] {
      assert a + b == b;
    } else {
      var ab := a + b;
      assert ab[0] == a[0] && ab[1..] == a[1..] + b;
      QualifyingConcat(a[1..], b);
      calc {
        Qualifying(ab);
        Kept(a[0]) + Qualifying(a[1..] + b);
        Kept(a[0]) + (Qualifying(a[1..]) + Qualifying(b));
        (Kept(a[0]) + Qualifying(a[1..])) + Qualifying(b);
      }
    }
  }

  /** A single paragraph is kept, stripped, exactly when it is long enough. */
  lemma QualifyingOne(p: string)
    ensures Qualifying([p]) == if |Strip(p)| > MinParagraphLength then [Strip(p)] else []
  {
    assert [p][1..] == [];
  }

  /** `" ".join(text_parts[:6])` for one selector's paragraphs. */
  function TierContent(paras: seq<string>): (r: string)
    ensures r == "" <==> Qualifying(paras) == []
    ensures r != "" ==> |r| > MinParagraphLength && Qualifying(paras)[0] <= r
  {
    QualifyingLong(paras);
    Join(Take(Qualifying(paras), MaxParagraphs))
  }

  /** The content is the kept paragraphs, at most six, with one space between each two. */
  lemma TierContentLength(paras: seq<string>)
    requires Qualifying(paras) != []
    ensures var parts := Take(Qualifying(paras), MaxParagraphs);
      |TierContent(paras)| == TotalLength(parts) + |parts| - 1 && |parts| <= MaxParagraphs
  {
    JoinLength(Take(Qualifying(paras), MaxParagraphs));
  }

  /** With at most six kept paragraphs, the text joins all of them. */
  lemma TierContentJoinsAll(paras: seq<string>)
    requires |Qualifying(paras)| <= MaxParagraphs
    ensures TierContent(paras) == Join(Qualifying(paras))
  {
    var q := Qualifying(paras);
    assert q[..|q|] == q;
  }

  /** The text of two groups of paragraphs, together at most six kept, is
      the text of the first, a space, and the text of the second. */
  lemma TierContentConcat(a: seq<string>, b: seq<string>)
    requires Qualifying(a) != [] && Qualifying(b) != []
    requires |Qualifying(a)| + |Qualifying(b)| <= MaxParagraphs
    ensures TierContent(a + b) == TierContent(a) + " " + TierContent(b)
  {
    QualifyingConcat(a, b);
    TierContentJoinsAll(a);
    TierContentJoinsAll(b);
    TierContentJoinsAll(a + b);
    JoinAppend(Qualifying(a), Qualifying(b));
  }

  /** A seventh kept paragraph is left out of the text. */
  lemma TierContentKeepsSix(paras: seq<string>, p: string)
    requires |Qualifying(paras)| == MaxParagraphs
    ensures TierContent(paras + [p]) == TierContent(paras)
  {
    var q := Qualifying(paras);
    QualifyingConcat(paras, [p]);
    QualifyingOne(p);
    TierContentJoinsAll(paras);
    assert (q + Qualifying([p]))[..MaxParagraphs] == q;
  }

  /** A CSS selector hits when it did not raise and some paragraph qualifies. */
  function CssHit(paras: Option<seq<string>>): Option<string>
  {
    if paras.Some? && Qualifying(paras.value) != [] then Some(TierContent(paras.value)) else None
  }

  /** What each CSS selector in `qs` yields on `page`. */
  function CssHits(page: Page, qs: seq<Query>): (r: seq<Option<string>>)
    ensures |r| == |qs|
    ensures forall k :: 0 <= k < |qs| ==> r[k] == CssHit(ParagraphsAt(page, qs[k]))
  {
    if qs == [] then [] else [CssHit(ParagraphsAt(page, qs[0]))] + CssHits(page, qs[1..])
  }

  /** The XPath tier: its paragraphs assembled, or "" when the query raised. */
  function XPathContent(paras: Option<seq<string>>): string {
    match paras
    case Some(ps) => TierContent(ps)
    case None => ""
  }

  /** The content the two tiers produce on `page`. */
  function ContentOf(page: Page, css: seq<Query>, xpath: Query): string {
    match FirstSome(CssHits(page, css))
    case Some(c) => c
    case None => XPathContent(ParagraphsAt(page, xpath))
  }

  /** The CSS selector loop: the first selector with a qualifying paragraph
      decides the content; a selector that raised is skipped. */
  method CssContent(page: Page, css: seq<Query>) returns (content: string)
    ensures content == FirstSome(CssHits(page, css)).GetOr("")
  {
    content := "";
    var i := 0;
    while i < |css|
      invariant 0 <= i <= |css|
      invariant FirstSome(CssHits(page, css)) == FirstSome(CssHits(page, css[i..]))
    {
      assert CssHits(page, css[i..]) == [CssHits(page, css)[i]] + CssHits(page, css[i + 1..]);
      var paras := ParagraphsAt(page, css[i]);
      if paras.Some? {
        var parts := Qualifying(paras.value);
        if parts != [] {
          content := Join(Take(parts, MaxParagraphs));
          return;
        }
      }
      i := i + 1;
    }
  }

  /** Both tiers: the CSS loop, then the XPath query only when it gave nothing. */
  method AssembleContent(page: Page, css: seq<Query>, xpath: Query) returns (content: string)
    ensures content == ContentOf(page, css, xpath)
  {
    content := CssContent(page, css);
    if content == "" {
      FirstSomeNone(CssHits(page, css));
      if FirstSome(CssHits(page, css)).Some? {
        var k := FirstSomeIndex(CssHits(page, css));
      }
      var paras := ParagraphsAt(page, xpath);
      if paras.Some? {
        var parts := Qualifying(paras.value);
        content := Join(Take(parts, MaxParagraphs));
      }
    }
  }

  /** `get_article_content`: the article's text, or "" when its tab could not be opened. */
  method GetArticleContent(page: Option<Page>) returns (content: string)
    ensures page.None? ==> content == ""
    ensures page.Some? ==> content == ContentOf(page.value, PageContentSelectors, PageContentXPath)
  {
    content := "";
    if page.Some? {
      content := AssembleContent(page.value, PageContentSelectors, PageContentXPath);
    }
  }

  /** The first CSS selector, in listed order, that yields a qualifying
      paragraph decides the content; later selectors and the XPath query are
      not consulted. */
  lemma FirstCssSelectorWins(page: Page, css: seq<Query>, xpath: Query, k: nat)
    requires k < |css|
    requires ParagraphsAt(page, css[k]).Some? && Qualifying(ParagraphsAt(page, css[k]).value) != []
    requires forall j :: 0 <= j < k ==>
      ParagraphsAt(page, css[j]).None? || Qualifying(ParagraphsAt(page, css[j]).value) == []
    ensures ContentOf(page, css, xpath) == TierContent(ParagraphsAt(page, css[k]).value)
  {
    FirstSomeAt(CssHits(page, css), k);
  }

  /** The XPath query matters only when every CSS selector gave nothing:
      otherwise any other XPath query yields the same content. */
  lemma XPathOnlyAsLastResort(page: Page, css: seq<Query>, xpath: Query, other: Query)
    requires exists k :: 0 <= k < |css| && CssHit(ParagraphsAt(page, css[k])).Some?
    ensures ContentOf(page, css, xpath) == ContentOf(page, css, other)
  {
    FirstSomeNone(CssHits(page, css));
  }

  /** When every CSS selector gave nothing, the XPath tier decides. */
  lemma XPathWhenCssEmpty(page: Page, css: seq<Query>, xpath: Query)
    requires forall k :: 0 <= k < |css| ==>
      ParagraphsAt(page, css[k]).None? || Qualifying(ParagraphsAt(page, css[k]).value) == []
    ensures ContentOf(page, css, xpath) == XPathContent(ParagraphsAt(page, xpath))
  {
    FirstSomeNone(CssHits(page, css));
  }

  /** The content is empty exactly when no tier has a qualifying paragraph;
      otherwise it is some tier's assembled paragraphs. */
  lemma ContentEmptyIff(page: Page, css: seq<Query>, xpath: Query)
    ensures ContentOf(page, css, xpath) == "" <==>
      && (forall k :: 0 <= k < |css| ==> CssHit(ParagraphsAt(page, css[k])).None?)
      && (ParagraphsAt(page, xpath).None? || Qualifying(ParagraphsAt(page, xpath).value) == [])
  {
    var hits := CssHits(page, css);
    FirstSomeNone(hits);
    if FirstSome(hits).Some? {
      var k := FirstSomeIndex(hits);
    }
  }
}
