/** Listing discovery: the `article` containers of the opinion page are walked
    in document order; a container without a heading or with an empty title
    is skipped, and the walk stops once five candidates are collected. */
module Listing {
  import opened Wrappers
  import opened PyText
  import opened Dom
  import Images

  /** The walk stops once this many candidates are collected. */
  const MaxArticles := 5

  /** An unenriched article reference found on the listing page. */
  datatype RawArticle = RawArticle(title: string, link: Option<string>, image: Option<string>)

  /** The link of a container whose heading is `h`: the `href` of the heading's
      anchor, else that of the container's first anchor, else `None`. */
  function ListingLink(c: Container, h: Heading): Option<string> {
    match h.anchor
    case Some(a) => a.href
    case None =>
      match c.anchor
      case Some(a) => a.href
      case None => None
  }

  /** The candidate one container yields, or `None` when it is skipped. */
  function CandidateOf(c: Container): Option<RawArticle>
  {
    match c.heading
    case None => None
    case Some(h) =>
      var title := Strip(h.text);
      if title == "" then None
      else Some(RawArticle(title, ListingLink(c, h), Images.ListingImage(c.image)))
  }

  /** What each container yields, in document order. */
  function Yields(cs: seq<Container>): (r: seq<Option<RawArticle>>)
    ensures |r| == |cs|
  {
    if cs == [] then [] else [CandidateOf(cs[0])] + Yields(cs[1..])
  }

  /** Entry `k` of `Yields(cs)` is what container `k` yields. */
  lemma {:induction false} YieldsAt(cs: seq<Container>, k: nat)
    requires k < |cs|
    ensures Yields(cs)[k] == CandidateOf(cs[k])
  {
    if k > 0 {
      YieldsAt(cs[1..], k - 1);
    }
  }

  /** The values among the first `n` entries of `ys`, in order. */
  function PresentUpTo<T>(ys: seq<Option<T>>, n: nat): seq<T>
    requires n <= |ys|
  {
    if n == 0 then []
    else if ys[n - 1].Some? then PresentUpTo(ys, n - 1) + [ys[n - 1].value]
    else PresentUpTo(ys, n - 1)
  }

  /** The candidates of all the containers, uncapped. */
  function Candidates(cs: seq<Container>): seq<RawArticle> {
    PresentUpTo(Yields(cs), |cs|)
  }

  /** Looking at more entries only appends values. */
  lemma {:induction false} PresentPrefix<T>(ys: seq<Option<T>>, m: nat, n: nat)
    requires m <= n <= |ys|
    ensures PresentUpTo(ys, m) <= PresentUpTo(ys, n)
  {
    if m < n {
      PresentPrefix(ys, m, n - 1);
    }
  }

  /** Every value kept comes from some entry. */
  lemma {:induction false} PresentFrom<T>(ys: seq<Option<T>>, n: nat)
    requires n <= |ys|
    ensures forall a :: a in PresentUpTo(ys, n) ==> exists k :: 0 <= k < n && ys[k] == Some(a)
  {
    if n > 0 {
      PresentFrom(ys, n - 1);
    }
  }

  /** When every entry holds a value, all of them are kept, in order. */
  lemma {:induction false} PresentAll<T>(ys: seq<Option<T>>, n: nat)
    requires n <= |ys|
    requires forall k :: 0 <= k < |ys| ==> ys[k].Some?
    ensures |PresentUpTo(ys, n)| == n
    ensures forall k :: 0 <= k < n ==> PresentUpTo(ys, n)[k] == ys[k].value
  {
    if n > 0 {
      PresentAll(ys, n - 1);
    }
  }

  /** The values of the first `n` entries are those of the first `m`, then
      those of the entries from `m` to `n`. */
  lemma {:induction false} PresentSplit<T>(ys: seq<Option<T>>, m: nat, n: nat)
    requires m <= n <= |ys|
    ensures PresentUpTo(ys, n) == PresentUpTo(ys, m) + PresentUpTo(ys[m..], n - m)
  {
    if m < n {
      PresentSplit(ys, m, n - 1);
      assert ys[m..][n - m - 1] == ys[n - 1];
    }
  }

  /** The value of entry `k` sits right after the values of the entries before it. */
  lemma PresentPosition<T>(ys: seq<Option<T>>, n: nat, k: nat)
    requires k < n <= |ys| && ys[k].Some?
    ensures |PresentUpTo(ys, k)| < |PresentUpTo(ys, n)|
    ensures PresentUpTo(ys, n)[|PresentUpTo(ys, k)|] == ys[k].value
  {
    PresentPrefix(ys, k + 1, n);
    assert PresentUpTo(ys, k + 1) == PresentUpTo(ys, k) + [ys[k].value];
  }

  /** No value is lost: every entry that holds one contributes it. */
  lemma PresentComplete<T>(ys: seq<Option<T>>, n: nat, k: nat)
    requires k < n <= |ys| && ys[k].Some?
    ensures ys[k].value in PresentUpTo(ys, n)
  {
    PresentPosition(ys, n, k);
  }

  /** An earlier entry's value comes before a later entry's. */
  lemma PresentOrder<T>(ys: seq<Option<T>>, j: nat, k: nat)
    requires j < k <= |ys| && ys[j].Some?
    ensures |PresentUpTo(ys, j)| < |PresentUpTo(ys, k)|
  {
    PresentPrefix(ys, j + 1, k);
    assert PresentUpTo(ys, j + 1) == PresentUpTo(ys, j) + [ys[j].value];
  }

  /** A container is skipped exactly when it has no heading or its stripped title is empty. */
  lemma CandidateSkipped(c: Container)
    ensures CandidateOf(c).None? <==> c.heading.None? || Strip(c.heading.value.text) == ""
  {
  }

  /** A candidate has a non-empty title with no surrounding whitespace, and
      its listing image, when truthy, passed the filter. */
  lemma CandidateShape(c: Container)
    requires CandidateOf(c).Some?
    ensures var a := CandidateOf(c).value;
      && a.title != "" && Strip(a.title) == a.title
      && (Truthy(a.image) ==> !EndsWith(a.image.value, ".svg") && !Contains(Lower(a.image.value), "icon"))
  {
    var h := c.heading.value;
    var t := Strip(h.text);
    assert CandidateOf(c).value == RawArticle(t, ListingLink(c, h), Images.ListingImage(c.image));
    StripIdentity(t);
  }

  /** The first `MaxArticles` candidates, or all of them when there are fewer. */
  function Capped(cands: seq<RawArticle>): (r: seq<RawArticle>)
    ensures |r| <= MaxArticles && r <= cands
    ensures |cands| <= MaxArticles ==> r == cands
  {
    if |cands| <= MaxArticles then cands else cands[..MaxArticles]
  }

  /** Once `MaxArticles` candidates are collected, the rest do not matter. */
  lemma CappedPrefix(raw: seq<RawArticle>, cands: seq<RawArticle>)
    requires raw <= cands && |raw| == MaxArticles
    ensures Capped(cands) == raw
  {
  }

  /** The discovery loop of `scrape_opinion_articles`. `listing` is `None`
      when the wait for a heading timed out, which leaves no candidate. */
  method Discover(listing: Option<seq<Container>>) returns (raw: seq<RawArticle>)
    ensures listing.None? ==> raw == []
    ensures listing.Some? ==> raw == Capped(Candidates(listing.value))
  {
    raw := [];
    if listing.None? {
      return;
    }
    var cs := listing.value;
    ghost var ys := Yields(cs);
    var i := 0;
    while i < |cs|
      invariant 0 <= i <= |cs|
      invariant raw == PresentUpTo(ys, i)
      invariant |raw| < MaxArticles
    {
      var c := CandidateOf(cs[i]);
      YieldsAt(cs, i);
      i := i + 1;
      if c.Some? {
        raw := raw + [c.value];
        if |raw| >= MaxArticles {
          assert raw == PresentUpTo(ys, i) && |raw| == MaxArticles;
          break;
        }
      }
    }
    ghost var all := PresentUpTo(ys, |cs|);
    assert all == Candidates(cs);
    PresentPrefix(ys, i, |cs|);
    if |raw| == MaxArticles {
      CappedPrefix(raw, all);
    } else {
      assert i == |cs|;
    }
    assert raw == Capped(all);
  }

  /** Discovery keeps at most five candidates, each with a non-empty
      stripped title and a truthy listing image only when that image passed
      the `.svg`/`icon` filter. */
  lemma DiscoveredShape(cs: seq<Container>)
    ensures var raw := Capped(Candidates(cs));
      && |raw| <= MaxArticles
      && (forall a :: a in raw ==> a.title != "" && Strip(a.title) == a.title)
      && (forall a :: a in raw && Truthy(a.image) ==>
            !EndsWith(a.image.value, ".svg") && !Contains(Lower(a.image.value), "icon"))
  {
    ghost var ys := Yields(cs);
    PresentFrom(ys, |cs|);
    forall a | a in Capped(Candidates(cs))
      ensures a.title != "" && Strip(a.title) == a.title
      ensures Truthy(a.image) ==> !EndsWith(a.image.value, ".svg") && !Contains(Lower(a.image.value), "icon")
    {
      assert a in Candidates(cs);
      var k :| 0 <= k < |cs| && ys[k] == Some(a);
      YieldsAt(cs, k);
      CandidateShape(cs[k]);
    }
  }

  /** Every titled container is discovered, in container order: the
      candidate of container `k` comes right after those of the containers
      before it, and is kept when fewer than five came before it. */
  lemma DiscoveredInPlace(cs: seq<Container>, k: nat)
    requires k < |cs| && CandidateOf(cs[k]).Some?
    ensures var p := |PresentUpTo(Yields(cs), k)|;
      && p < |Candidates(cs)| && Candidates(cs)[p] == CandidateOf(cs[k]).value
      && (p < MaxArticles ==> p < |Capped(Candidates(cs))| && Capped(Candidates(cs))[p] == CandidateOf(cs[k]).value)
  {
    YieldsAt(cs, k);
    PresentPosition(Yields(cs), |cs|, k);
  }

  /** Of two titled containers, the earlier one's candidate is placed first. */
  lemma DiscoveredInOrder(cs: seq<Container>, j: nat, k: nat)
    requires j < k < |cs| && CandidateOf(cs[j]).Some?
    ensures |PresentUpTo(Yields(cs), j)| < |PresentUpTo(Yields(cs), k)|
  {
    YieldsAt(cs, j);
    PresentOrder(Yields(cs), j, k);
  }

  /** Seven titled containers give exactly the first five, in order. */
  lemma FirstFiveOfSeven(cs: seq<Container>)
    requires |cs| == 7
    requires forall k :: 0 <= k < |cs| ==> CandidateOf(cs[k]).Some?
    ensures var raw := Capped(Candidates(cs));
      |raw| == 5 && forall k :: 0 <= k < 5 ==> raw[k] == CandidateOf(cs[k]).value
  {
    var ys := Yields(cs);
    forall k | 0 <= k < |cs|
      ensures ys[k] == CandidateOf(cs[k])
    {
      YieldsAt(cs, k);
    }
    PresentAll(ys, |cs|);
  }
}
