/**
 * The loop in `main` that picks, from all anchors of the list page, the links
 * to fortification articles.
 */
module LinkFilter {
  import opened Wrappers
  import opened Text
  import opened Fortification

  const BaseUrl := "https://pt.wikipedia.org"

  const ArticlePrefix := "/wiki/"

  /** Markers of namespace and list pages, which are not articles. */
  const ExcludedMarkers: seq<string> := [
    "Ficheiro:", "Categoria:", "Especial:", "Ajuda:", "Wikipédia:",
    "Predefinição:", "Lista_de_", "Utilizador:", "Discussão:"
  ]

  /** An anchor of the page: its `href` attribute, if any, and its text. */
  datatype Link = Link(href: Option<string>, text: string)

  /** The anchor points at an article: an `href` under `/wiki/` with no excluded marker. */
  predicate IsArticleLink(link: Link) {
    && link.href.Some?
    && StartsWith(link.href.value, ArticlePrefix)
    && forall k | 0 <= k < |ExcludedMarkers| :: !Contains(link.href.value, ExcludedMarkers[k])
  }

  /** The anchor is kept: an article link with visible text that passes `is_fortification`. */
  predicate Keeps(link: Link) {
    && IsArticleLink(link)
    && Strip(link.text) != ""
    && IsFortification(Strip(link.text), BaseUrl + link.href.value)
  }

  /** The `(name, full_url)` pair recorded for a kept anchor. */
  function Entry(link: Link): (string, string)
    requires link.href.Some?
  {
    (Strip(link.text), BaseUrl + link.href.value)
  }

  /** What one anchor contributes to `fortification_links`. */
  function Candidate(link: Link): Option<(string, string)>
  {
    if Keeps(link) then Some(Entry(link)) else None
  }

  /** The values `f` yields along `xs`, in order. */
  function Collect<T, U>(xs: seq<T>, f: T -> Option<U>): seq<U>
  {
    if xs == [] then []
    else
      var y := f(xs[|xs| - 1]);
      Collect(xs[..|xs| - 1], f) + (if y.Some? then [y.value] else [])
  }

  /** `fortification_links` after the loop has seen `links`. */
  function FortificationLinks(links: seq<Link>): seq<(string, string)>
  {
    Collect(links, Candidate)
  }

  /** The filtering loop of `main`, lines 209-225. */
  method CollectFortificationLinks(links: seq<Link>) returns (found: seq<(string, string)>)
    ensures found == FortificationLinks(links)
  {
    found := [];
    var i := 0;
    while i < |links|
      invariant 0 <= i <= |links|
      invariant found == FortificationLinks(links[..i])
    {
      var link := links[i];
      assert links[..i + 1][..i] == links[..i];
      var href := link.href;
      if href.Some? && href.value != "" && StartsWith(href.value, ArticlePrefix)
        && !AnyIn(ExcludedMarkers, href.value)
      {
        if link.text != "" && |Strip(link.text)| > 0 {
          var name := Strip(link.text);
          var fullUrl := BaseUrl + href.value;
          if IsFortification(name, fullUrl) {
            found := found + [(name, fullUrl)];
          }
        }
      }
      i := i + 1;
    }
    assert links[..i] == links;
  }

  /** A value is collected exactly when some element yields it. */
  lemma {:induction false} CollectMember<T, U>(xs: seq<T>, f: T -> Option<U>, p: U)
    ensures p in Collect(xs, f) <==> exists k | 0 <= k < |xs| :: f(xs[k]) == Some(p)
  {
    if xs != [] {
      var n := |xs| - 1;
      var init := xs[..n];
      CollectMember(init, f, p);
      if p in Collect(init, f) {
        var k :| 0 <= k < |init| && f(init[k]) == Some(p);
        assert xs[k] == init[k];
      }
      if exists k | 0 <= k < |xs| :: f(xs[k]) == Some(p) {
        var k :| 0 <= k < |xs| && f(xs[k]) == Some(p);
        if k < n {
          assert xs[k] == init[k];
        }
      }
    }
  }

  /** Collecting works element by element and keeps the order. */
  lemma {:induction false} CollectAppend<T, U>(a: seq<T>, b: seq<T>, f: T -> Option<U>)
    ensures Collect(a + b, f) == Collect(a, f) + Collect(b, f)
    decreases |b|
  {
    if b != [] {
      var b' := b[..|b| - 1];
      assert (a + b)[..|a + b| - 1] == a + b';
      CollectAppend(a, b', f);
    } else {
      assert a + b == a;
    }
  }

  /** An entry is recorded exactly when some anchor yielding it is kept. */
  lemma FortificationLinksMember(links: seq<Link>, p: (string, string))
    ensures p in FortificationLinks(links) <==>
      exists k | 0 <= k < |links| :: Keeps(links[k]) && Entry(links[k]) == p
  {
    CollectMember(links, Candidate, p);
  }

  /** The filter works anchor by anchor and keeps page order. */
  lemma FortificationLinksAppend(a: seq<Link>, b: seq<Link>)
    ensures FortificationLinks(a + b) == FortificationLinks(a) + FortificationLinks(b)
  {
    CollectAppend(a, b, Candidate);
  }
}
