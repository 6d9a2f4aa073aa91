/** What the browser answers, as plain data. Selenium is not modelled: each
    query's result is an input, and a query the browser would answer with an
    exception is simply missing. */
module Dom {
  import opened Wrappers

  /** A DOM query. Selectors are opaque labels; only their identity matters. */
  datatype Query = Css(selector: string) | XPath(path: string)

  /** The attributes an `<img>` or `<source>` element reports through
      `get_attribute`; `None` where the attribute is absent. */
  datatype ImageElement = ImageElement(
    src: Option<string>,
    srcset: Option<string>,
    dataSrc: Option<string>,
    dataLazySrc: Option<string>)

  /** An article open in a tab. `paragraphs[q]` holds the `.text` of every
      element `find_elements(q)` returns, in document order; `images[q]` is the
      element `find_element(q)` returns. A query missing from a map raised. */
  datatype Page = Page(paragraphs: map<Query, seq<string>>, images: map<Query, ImageElement>)

  function ParagraphsAt(page: Page, q: Query): Option<seq<string>> {
    if q in page.paragraphs then Some(page.paragraphs[q]) else None
  }

  function ImageAt(page: Page, q: Query): Option<ImageElement> {
    if q in page.images then Some(page.images[q]) else None
  }

  /** An `<a>` element and its `href` attribute. */
  datatype Anchor = Anchor(href: Option<string>)

  /** The first `h2, h3` of a listing container: its `.text` and the `a` inside it, if any. */
  datatype Heading = Heading(text: string, anchor: Option<Anchor>)

  /** One `article` element of the listing page: its first heading, its first
      `a` and its first `img`, each missing when `find_element` raised. */
  datatype Container = Container(
    heading: Option<Heading>,
    anchor: Option<Anchor>,
    image: Option<ImageElement>)

  /** Python truthiness of an attribute value: present and not empty. */
  predicate Truthy(o: Option<string>) {
    o.Some? && o.value != ""
  }

  /** Python's `a or b or c`: the first truthy operand, else the last one. */
  function Or3(a: Option<string>, b: Option<string>, c: Option<string>): (r: Option<string>)
    ensures Truthy(r) <==> Truthy(a) || Truthy(b) || Truthy(c)
    ensures r == a || r == b || r == c
    ensures Truthy(a) ==> r == a
    ensures !Truthy(a) && Truthy(b) ==> r == b
    ensures !Truthy(a) && !Truthy(b) ==> r == c
  {
    if Truthy(a) then a else if Truthy(b) then b else c
  }
}
