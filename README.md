# El País opinion scraper — decision logic in Dafny

This project models the decision logic of `WebScrapper.py`, a Selenium
scraper for the opinion section of El País. Once the browser's answers are
given as plain data, what remains is deterministic:

- **Listing discovery.** The listing page's `article` containers are walked
  in document order. A container without a heading, or with a blank title,
  is skipped. The link comes from the heading's anchor, else the
  container's first anchor, else nothing. The listing image is the first
  truthy of `src`, `data-src` and `data-lazy-src`, else the last of them.
  It is dropped when it is truthy and ends in `.svg` or, lowercased,
  contains `icon`. The walk stops after five
  candidates.
- **Article text.** Each CSS selector yields paragraph texts. The stripped
  texts longer than 40 characters are kept, and the first six are joined
  with single spaces. The first selector that yields any text decides. The
  XPath query runs only when every CSS selector gave nothing. A selector
  that raised is skipped.
- **Cover image.** A fixed list of selectors is tried in order. Each found
  element gives the first truthy of three attributes, else the third,
  which must pass a test; the first one that passes decides. In the enrichment loop the test
  runs on the untruncated value, and the stored value is the first token
  of a `srcset` string.
- **Record assembly.** There is one record per candidate, numbered from 1.
  The title and link are copied. The article page is consulted for text,
  and for an image only when the listing image is falsy. An empty text
  becomes the fixed notice "(Content not available — article may be
  paywalled)".
- **Repeated-word analysis.** Each translated title is lowercased and split
  into ASCII-letter runs. Stop words and tokens of at most two letters are
  dropped. The remaining tokens are counted over all titles. The result
  maps each token counted more than twice to its count.

Modules:

- `Wrappers` holds `Option`.
- `PyText` holds the Python `str` operations used: `strip`, `lower`,
  `startswith`, `endswith`, `in`, `split(c)[0]`, `" ".join` and slicing.
- `Dom` holds the browser's answers as data, and Python's `a or b or c`
  over attribute values.
- `Resolver` holds the ordered first-hit fallback shared by every selector
  loop.
- `Content`, `Images`, `Listing`, `Records` and `WordStats` hold the five
  parts above.

Each selector loop, the discovery loop, the enrichment loop and the
word-accumulation loop is a `method` with a `while`/`for` loop. Each is
proved equal to a specification function, and the promised properties are
proved as lemmas about those functions.

How the browser is represented:

- A `Page` maps each query to the texts of the elements `find_elements`
  returns, or to the element `find_element` returns.
- A query missing from the map is one that raised.
- The listing is `None` when the wait for a heading timed out.
- Article pages are a map keyed by link. A link missing from it is one
  whose tab could not be opened.

Behaviour of the code worth knowing before reading the proofs:

- When no word passes the threshold, `analyze_repeated_words` returns the
  empty mapping (`WordStats.NoRepeatsEmpty`). The top-10 list is only
  printed.
- The article-page image loop tests `startswith("http")` and
  `not endswith(".svg")` on the whole value and never truncates it.
- The enrichment loop tests `"http" in` and `not endswith(".svg")` on the
  untruncated value, and only then keeps the first token of a `srcset`.
  So a stored image need not be an HTTP URL, and it may be an SVG
  (`ScrapeImageMayNotBeHttp`, `ScrapeImageMayBeSvg`).
- The listing image is only checked against `.svg` and `icon`; there is no
  HTTP test.
- A record without a truthy link gets the notice as its text, not an
  empty string.
- The two XPath content queries differ: only the one in
  `get_article_content` has the `@class and` test. They are kept as
  distinct labels.

## Model

| member | source | states |
|---|---|---|
| `Dom.Or3` | WebScrapper.py:80-84 | Python `a or b or c` over attribute values: the result is truthy iff some operand is; it is `a` when `a` is truthy, `b` when only `b` of the first two is, and `c` when neither of the first two is, so it may be `Some("")` |
| `Resolver.FirstSome` | WebScrapper.py:117-128 | the ordered fallback: the first hit of a list of strategies, nothing when all miss |
| `Resolver.FirstSomeAt` | WebScrapper.py:117-128 | in an ordered fallback, the first strategy that hits decides the result, whatever later strategies give |
| `Resolver.FirstSomeIndex` | WebScrapper.py:77-89 | a fallback result always comes from one strategy that hit, and every strategy before it missed |
| `Resolver.FirstSomeNone` | WebScrapper.py:287-299 | a fallback gives nothing exactly when every strategy missed |
| `PyText.LStrip` | WebScrapper.py:121-122 | the left-stripped text is no longer than the input and does not start with whitespace |
| `PyText.LStripSuffix` | WebScrapper.py:121-122 | left-stripping removes a prefix of the input |
| `PyText.LStripRemovesSpace` | WebScrapper.py:121-122 | the prefix removed by left-stripping is all whitespace |
| `PyText.RStrip` | WebScrapper.py:121-122 | the right-stripped text is a prefix of the input and does not end with whitespace |
| `PyText.RStripRemovesSpace` | WebScrapper.py:121-122 | the suffix removed by right-stripping is all whitespace |
| `PyText.Strip` | WebScrapper.py:121-122 | the stripped text neither starts nor ends with whitespace |
| `PyText.StripIsInfix` | WebScrapper.py:121-122 | the stripped text occurs in the input with only whitespace before and after it |
| `PyText.StripChars` | WebScrapper.py:296 | every character of the stripped text is a character of the input |
| `PyText.StripIdentity` | WebScrapper.py:187 | a text without whitespace at its ends is its own `strip()` |
| `PyText.Lower` | WebScrapper.py:366 | the lowercased text holds no ASCII capital |
| `PyText.LowerAppend` | WebScrapper.py:366 | lowercasing works character by character: the lowercase of `a + b` is that of `a` followed by that of `b` |
| `PyText.LowerCapital` | WebScrapper.py:366 | an ASCII capital becomes the small letter 32 code points further on |
| `PyText.LowerKeepsAscii` | WebScrapper.py:366 | every ASCII character other than a capital is kept |
| `PyText.StartsWith` | WebScrapper.py:85 | `s.startswith(p)`: `p` is a prefix of `s` |
| `PyText.EndsWith` | WebScrapper.py:85 | `s.endswith(p)`: `p` is a suffix of `s` |
| `PyText.Contains` | WebScrapper.py:294 | `p in s`: `p` occurs in `s` (see `ContainsIff`) |
| `PyText.ContainsIff` | WebScrapper.py:295 | `p in s` holds exactly when `p` occurs in `s` at some index |
| `PyText.ContainsInSuffix` | WebScrapper.py:295 | a text found in the tail of a string is found in the string |
| `PyText.EndsWithSuffix` | WebScrapper.py:295 | whether a string ends in `p` depends only on a tail at least as long as `p` |
| `PyText.BeforeFirst` | WebScrapper.py:296 | `s.split(c)[0]` holds no `c`, is a prefix of `s`, and stops at the first `c` |
| `PyText.BeforeFirstAbsent` | WebScrapper.py:296 | without a `c`, `s.split(c)[0]` is all of `s` |
| `PyText.BeforeFirstSplit` | WebScrapper.py:296 | `(a + c + b).split(c)[0]` is `a` when `a` has no `c` |
| `PyText.Join` | WebScrapper.py:125 | `" ".join(parts)` starts with the first part |
| `PyText.JoinAppend` | WebScrapper.py:125 | joining two non-empty lists gives the first one's join, one space, and the second one's join |
| `PyText.JoinLength` | WebScrapper.py:125 | the joined text's length is the parts' lengths plus one space between each two |
| `PyText.Take` | WebScrapper.py:125 | `parts[:n]` is a prefix of length `min(n, len(parts))` |
| `Content.Kept` | WebScrapper.py:120-123 | one paragraph contributes its stripped text when that is longer than 40 characters, else nothing |
| `Content.Qualifying` | WebScrapper.py:120-123 | the list comprehension keeps at most one text per paragraph |
| `Content.QualifyingLong` | WebScrapper.py:120-123 | every kept text is longer than 40 characters |
| `Content.QualifyingConcat` | WebScrapper.py:120-123 | paragraphs are judged one at a time and kept in document order |
| `Content.QualifyingOne` | WebScrapper.py:120-123 | a paragraph is kept, stripped, exactly when its stripped text is longer than 40 |
| `Content.TierContent` | WebScrapper.py:124-125 | one tier's content is empty iff no paragraph qualifies; otherwise it is longer than 40 and begins with the first qualifying paragraph |
| `Content.TierContentLength` | WebScrapper.py:124-125 | the content's length is that of at most six kept paragraphs plus one space between each two |
| `Content.TierContentJoinsAll` | WebScrapper.py:124-125 | with at most six kept paragraphs, the text is all of them joined with spaces |
| `Content.TierContentConcat` | WebScrapper.py:120-125 | for two groups of paragraphs with at most six kept in all, the text is the first group's text, a space, and the second group's |
| `Content.TierContentKeepsSix` | WebScrapper.py:125 | once six paragraphs are kept, a further paragraph leaves the text unchanged |
| `Content.CssHit` | WebScrapper.py:119-126 | a CSS selector hits, with its text, when it did not raise and some paragraph qualifies |
| `Content.CssHits` | WebScrapper.py:117-128 | what each CSS selector yields, in selector order |
| `Content.XPathContent` | WebScrapper.py:129-142 | the XPath tier: the text of its paragraphs, "" when it raised |
| `Content.ContentOf` | WebScrapper.py:117-144 | the two-tier content: the first CSS hit, else the XPath tier |
| `Content.CssContent` | WebScrapper.py:117-128 | the CSS loop returns the text of the first selector that did not raise and has a qualifying paragraph, else "" |
| `Content.AssembleContent` | WebScrapper.py:117-144 | the CSS loop, then the XPath query only when the loop gave "", equals the two-tier specification |
| `Content.GetArticleContent` | WebScrapper.py:102-155 | `get_article_content` gives "" when the tab could not be opened, else the two-tier text over its four selectors and XPath query |
| `Content.FirstCssSelectorWins` | WebScrapper.py:117-128 | the first CSS selector with a qualifying paragraph decides the content; later selectors and the XPath query are not consulted |
| `Content.XPathOnlyAsLastResort` | WebScrapper.py:129-144 | when some CSS selector hits, the XPath query has no influence on the content |
| `Content.XPathWhenCssEmpty` | WebScrapper.py:129-142 | when every CSS selector raised or had no qualifying paragraph, the XPath tier decides |
| `Content.ContentEmptyIff` | WebScrapper.py:117-144 | the content is empty exactly when no CSS selector hits and the XPath query raised or has no qualifying paragraph |
| `Images.PageCandidate` | WebScrapper.py:80-84 | the article-page candidate is `src or data-src or data-lazy-src` |
| `Images.IsPageImageUrl` | WebScrapper.py:85 | the article-page test: truthy, starts with "http", does not end in ".svg" |
| `Images.PageImageHit` | WebScrapper.py:78-89 | a selector hits when it found an element whose candidate passes the test, and yields that candidate |
| `Images.PageImage` | WebScrapper.py:77-89 | the article-page loop returns the first candidate, over the selectors in order, that is truthy, starts with "http" and does not end in ".svg" |
| `Images.GetImageFromArticlePage` | WebScrapper.py:63-100 | `get_image_from_article_page` gives `None` when the tab could not be opened, else the loop's result over its five selectors |
| `Images.PageImageIsValid` | WebScrapper.py:77-89 | the article-page image is an HTTP URL not ending in ".svg" found by one of the selectors; `None` means no selector passed |
| `Images.ScrapeCandidate` | WebScrapper.py:289-293 | the enrichment-loop candidate is `src or srcset or data-src` |
| `Images.IsScrapeImageValue` | WebScrapper.py:294 | the enrichment-loop test: truthy, contains "http", does not end in ".svg" |
| `Images.ScrapeImageHit` | WebScrapper.py:287-298 | a selector hits when it found an element whose candidate passes the test, and yields the candidate's first `srcset` token |
| `Images.SrcsetHead` | WebScrapper.py:296 | the truncated value holds no comma and no space |
| `Images.SrcsetHeadOfPlainUrl` | WebScrapper.py:296 | a plain URL passes through the truncation unchanged |
| `Images.SrcsetHeadOfSrcset` | WebScrapper.py:296 | of a `srcset` value "u w, rest", the URL `u` is stored |
| `Images.ScrapeImage` | WebScrapper.py:287-299 | the enrichment-loop image is the truncated value of the first selector whose untruncated candidate contains "http" and does not end in ".svg" |
| `Images.ScrapeImageShape` | WebScrapper.py:287-299 | the stored image holds no comma and no space and comes from one selector; `None` means no selector passed |
| `Images.ScrapeHitOfSrcset` | WebScrapper.py:288-296 | an element whose only attribute is a passing `srcset` yields that value's first token |
| `Images.ScrapeImageMayNotBeHttp` | WebScrapper.py:295-296 | because the test precedes the truncation, a non-HTTP first token may be stored |
| `Images.ScrapeImageMayBeSvg` | WebScrapper.py:295-296 | because the test precedes the truncation, an ".svg" URL may be stored |
| `Images.ListingImage` | WebScrapper.py:202-213 | a truthy listing image neither ends in ".svg" nor, lowercased, contains "icon"; no `img` gives `None`; any other value is the attribute triple's choice, and that choice is kept whenever it is falsy or passes the filter |
| `Images.ListingImageMayBeEmpty` | WebScrapper.py:205-210 | an `img` whose attributes are all empty leaves the listing image `Some("")`, not `None` |
| `Listing.ListingLink` | WebScrapper.py:193-201 | the link is the heading anchor's `href`, else the container's first anchor's, else `None` |
| `Listing.CandidateOf` | WebScrapper.py:184-219 | one container's candidate: none without a heading or with a blank stripped title, else its stripped title, link and listing image |
| `Listing.Yields` | WebScrapper.py:183-219 | what each container yields, one entry per container in order |
| `Listing.PresentUpTo` | WebScrapper.py:214-218 | the values appended by the first `n` containers, in order |
| `Listing.Candidates` | WebScrapper.py:183-219 | every candidate of the listing, in container order, before the cap |
| `Listing.PresentPrefix` | WebScrapper.py:183-219 | walking more containers only appends candidates |
| `Listing.PresentFrom` | WebScrapper.py:183-219 | every candidate is one that some container yielded |
| `Listing.PresentSplit` | WebScrapper.py:183-219 | the candidates of the first `n` containers are those of the first `m`, then those of containers `m` to `n` |
| `Listing.PresentPosition` | WebScrapper.py:214-218 | a container's candidate sits right after the candidates of the containers before it |
| `Listing.PresentComplete` | WebScrapper.py:214-218 | every container that yields a candidate contributes it |
| `Listing.PresentOrder` | WebScrapper.py:214-218 | an earlier container's candidate is placed before a later one's |
| `Listing.PresentAll` | WebScrapper.py:183-219 | when every container yields a candidate, all of them are kept, in container order |
| `Listing.CandidateSkipped` | WebScrapper.py:185-191 | a container is skipped exactly when it has no heading or its stripped title is empty |
| `Listing.CandidateShape` | WebScrapper.py:185-213 | a candidate's title is non-empty and already stripped, and its truthy listing image passed the `.svg`/`icon` filter |
| `Listing.Capped` | WebScrapper.py:220-221 | the cap keeps a prefix of at most five candidates, and all of them when there are at most five |
| `Listing.CappedPrefix` | WebScrapper.py:220-221 | once five candidates are collected, the containers after them do not matter |
| `Listing.Discover` | WebScrapper.py:182-222 | the discovery loop gives no candidate on a timed-out listing, else the first five candidates of the containers in order |
| `Listing.DiscoveredShape` | WebScrapper.py:182-222 | discovery keeps at most five candidates, each with a non-empty stripped title and a truthy listing image only when it neither ends in ".svg" nor, lowercased, contains "icon" |
| `Listing.DiscoveredInPlace` | WebScrapper.py:183-221 | every titled container is discovered: its candidate is at the position given by the number of candidates before it, and is kept when fewer than five came before |
| `Listing.DiscoveredInOrder` | WebScrapper.py:183-221 | of two titled containers, the earlier one's candidate comes first |
| `Listing.FirstFiveOfSeven` | WebScrapper.py:183-222 | seven titled containers give exactly the first five candidates, in order |
| `Records.OpenedPage` | WebScrapper.py:238-243 | only a truthy link is opened, and a link whose tab failed gives no page |
| `Records.PageText` | WebScrapper.py:246-278 | the text is the two-tier content of the opened page, "" without one |
| `Records.RecordImage` | WebScrapper.py:236-299 | the listing image when truthy or when no page opened, else the first passing article-page image, else the listing image |
| `Records.RecordOf` | WebScrapper.py:232-317 | one record: index, title and link as listed, the text or else the notice, and the chosen image |
| `Records.Enrich` | WebScrapper.py:235-317 | one article's record: text from its opened page or the notice, image from the listing or else from the page, index, title and link as given |
| `Records.AssembleRecords` | WebScrapper.py:232-317 | one record per candidate, in order, the `k`-th numbered `k` |
| `Records.RecordKeepsListing` | WebScrapper.py:311-317 | a record keeps its article's position, title and link, and its text is never empty |
| `Records.NoPageKeepsListing` | WebScrapper.py:235-238 | without a truthy link, or when its tab failed, the record has the notice and the listing image |
| `Records.ListingImageWins` | WebScrapper.py:279 | a truthy listing image is never replaced by one from the article page |
| `Records.PageImageFallback` | WebScrapper.py:279-299 | with a falsy listing image and an opened page, the first passing article-page image is stored, holding no comma or space; otherwise the listing image stays |
| `Records.RecordTextSource` | WebScrapper.py:246-278 | a record's text is the notice, or the assembled paragraphs of one query of the opened page |
| `Records.NoParagraphsGiveNotice` | WebScrapper.py:264-314 | an opened page on which no query yields a qualifying paragraph gives the notice |
| `Records.ScrapeOpinionArticles` | WebScrapper.py:182-317 | the whole run gives one record, numbered from 1, per discovered candidate |
| `Records.RunShape` | WebScrapper.py:182-317 | a run gives at most five records, numbered 1, 2, … in listing order, each with a non-empty title and text |
| `WordStats.RunLength` | WebScrapper.py:366 | a letter run is at least one character long and fits in the text |
| `WordStats.RunLengthIsMaximal` | WebScrapper.py:366 | a run is all letters and stops at a non-letter or at the end |
| `WordStats.RunLengthFull` | WebScrapper.py:366 | in an all-letter text the run reaches the end |
| `WordStats.Words` | WebScrapper.py:366 | `re.findall(r"[a-zA-Z]+", s)`: the maximal ASCII-letter runs, in order |
| `WordStats.WordsAreRuns` | WebScrapper.py:366 | every `findall` match is a non-empty run of ASCII letters |
| `WordStats.LettersOfRun` | WebScrapper.py:366 | letters at the front of a text are its first letters |
| `WordStats.WordsCoverLetters` | WebScrapper.py:366 | the matches, concatenated, are exactly the letters of the text in order |
| `WordStats.WordsOfRun` | WebScrapper.py:366 | a run of letters is a single match |
| `WordStats.WordsOfNonLetters` | WebScrapper.py:366 | a text without letters has no match |
| `WordStats.RunLengthBefore` | WebScrapper.py:366 | a letter run followed by a non-letter ends where it ended alone |
| `WordStats.WordsSplit` | WebScrapper.py:366 | a non-letter separates matches: the matches of `a + [c] + b` are those of `a`, then those of `b`, and none spans `c` |
| `WordStats.WordsChars` | WebScrapper.py:366 | every character of a match is a character of the text |
| `WordStats.Filtered` | WebScrapper.py:367 | the comprehension keeps the tokens that are not stop words and are longer than two, in order |
| `WordStats.TitleTokens` | WebScrapper.py:366-367 | one title's tokens: the filtered matches of its lowercase |
| `WordStats.AllTokens` | WebScrapper.py:364-368 | the tokens of all titles, title by title |
| `WordStats.Repeated` | WebScrapper.py:370-371 | the counter restricted to the words counted more than twice |
| `WordStats.FilteredCounts` | WebScrapper.py:367 | the filter keeps each passing token as often as it occurs, and no other token |
| `WordStats.FilteredKept` | WebScrapper.py:367 | every token the filter keeps is not a stop word and is longer than two |
| `WordStats.AllTokensConcat` | WebScrapper.py:365-368 | the tokens of consecutive title lists follow each other |
| `WordStats.AnalyzeRepeatedWords` | WebScrapper.py:351-383 | the accumulation loop and the counter give the threshold map of all titles' tokens |
| `WordStats.RepeatedIsThreshold` | WebScrapper.py:370-371 | a word is a key exactly when it is counted more than twice, and it maps to its count |
| `WordStats.NoRepeatsEmpty` | WebScrapper.py:373-383 | when no token occurs more than twice, the returned mapping is empty |
| `WordStats.TitleTokensShape` | WebScrapper.py:366-367 | a title's tokens are lowercase ASCII words of at least three letters that are not stop words |
| `WordStats.AllTokensShape` | WebScrapper.py:364-368 | every title's tokens have that shape |
| `WordStats.RepeatedWordsShape` | WebScrapper.py:364-371 | every key is a lowercase ASCII word of at least three letters, not a stop word, mapped to a count above two |
| `WordStats.RepeatedOfCounts` | WebScrapper.py:370-371 | the result depends only on how often each token occurs |
| `WordStats.TitleOrderIrrelevant` | WebScrapper.py:364-371 | swapping two groups of titles does not change the result |
| `WordStats.CountsAdd` | WebScrapper.py:365-370 | one more title adds the occurrences of its passing tokens to each count |

## Left out

- Browser plumbing is not modelled: `get_driver`, `accept_cookies`, the waits and sleeps, the Spanish-language check, and the CSS/XPath engines. The model receives each query's answer as input, and the selector strings are opaque labels.
- Tab open, switch and close bookkeeping (lines 65-68, 93-98, 240-243, 301-309) is not modelled. A tab that could not be opened is a link missing from the page map. The code does not always restore focus to the main window, so no focus invariant is claimed.
- A failing `close` or switch back to the main window (lines 93-98, 148-153, 301-309) is swallowed and leaves the computed text and image in place, so the model gives the same result as for a successful close. Only a failing open of, or switch to, the new tab (lines 67-68, 106-107, 240-243) changes the result; it is a link missing from the page map.
- `download_image`, the file writes and the output directory are not modelled: they are network and file-system I/O.
- `translate_headers` is not modelled: it wraps an external service. `WordStats.AnalyzeRepeatedWords` takes the translated titles as input.
- Console output is not modelled: printing, the 500-character preview, the top-10 display and `main`'s lifecycle. The unused `threading` import is left out.
- `get_article_content` and `get_image_from_article_page` are modelled as standalone operations (`Content.GetArticleContent`, `Images.GetImageFromArticlePage`). Nothing in the code calls them; the scrape loop carries its own copies.
- A `Page` gives the same answer each time the same query is asked, and the same link always opens the same page. A changing DOM is not modelled.
- PyText.Lower: covers only the characters whose Python lowercase holds an ASCII letter: `A`–`Z`, the Kelvin sign, and capital I with dot above. Every other character is kept as it is. This is exact for the `[a-zA-Z]+` tokens drawn from the result, but not for the full Unicode `str.lower`.
