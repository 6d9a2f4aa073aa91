/** The ordered fallback shared by every selector loop of the scraper: the
    strategies are tried in listed order, a strategy that raises or whose
    value fails validation gives `None`, and the first one that gives a
    value decides the result; the strategies after it are not consulted. */
module Resolver {
  import opened Wrappers

  /** The first value in `hits`, in order, or `None` when every strategy missed. */
  function FirstSome<R>(hits: seq<Option<R>>): Option<R> {
    if hits == [] then None
    else if hits[0].Some? then hits[0]
    else FirstSome(hits[1..])
  }

  /** The first strategy that hits decides the result, whatever the later ones give. */
  lemma {:induction false} FirstSomeAt<R>(hits: seq<Option<R>>, k: nat)
    requires k < |hits| && hits[k].Some?
    requires forall j :: 0 <= j < k ==> hits[j].None?
    ensures FirstSome(hits) == hits[k]
  {
    if k > 0 {
      FirstSomeAt(hits[1..], k - 1);
    }
  }

  /** A result always comes from a strategy that hit after a run of misses. */
  lemma {:induction false} FirstSomeIndex<R>(hits: seq<Option<R>>) returns (k: nat)
    requires FirstSome(hits).Some?
    ensures k < |hits| && hits[k] == FirstSome(hits)
    ensures forall j :: 0 <= j < k ==> hits[j].None?
  {
    if hits[0].Some? {
      k := 0;
    } else {
      var k' := FirstSomeIndex(hits[1..]);
      k := k' + 1;
    }
  }

  /** The resolver gives nothing exactly when every strategy missed. */
  lemma {:induction false} FirstSomeNone<R>(hits: seq<Option<R>>)
    ensures FirstSome(hits).None? <==> forall j :: 0 <= j < |hits| ==> hits[j].None?
  {
    if hits != [] {
      FirstSomeNone(hits[1..]);
      if hits[0].None? {
        assert forall j :: 1 <= j < |hits| ==> hits[j] == hits[1..][j - 1];
      }
    }
  }
}
