/** Link discovery in `WebCrawler.extract_content` (crawler.py lines 53-65 and 85): each
    `href` is resolved, kept only under the base URL, cut at its first `#` and then at its
    first `?`, and dropped when empty or equal to the page's own URL; the survivors are
    deduplicated. */
module Links {
  import opened Text
  import opened Optional

  /** No fragment or query marker. */
  predicate Bare(s: string) {
    '#' !in s && '?' !in s
  }

  /** `s.split('#')[0].split('?')[0]`: `s` up to its first `#` or `?`. */
  function StripFragmentAndQuery(s: string): (r: string)
    ensures r <= s && Bare(r)
    ensures |r| < |s| ==> s[|r|] == '#' || s[|r|] == '?'
  {
    BeforeFirst(BeforeFirst(s, '#'), '?')
  }

  /** The longest prefix of `s` without `#` or `?` is unique, so it is what
      `StripFragmentAndQuery` returns. */
  lemma StripFragmentAndQueryUnique(s: string, r: string)
    requires r <= s && Bare(r)
    requires |r| < |s| ==> s[|r|] == '#' || s[|r|] == '?'
    ensures StripFragmentAndQuery(s) == r
  {
  }

  /** Stripping fragment and query twice is stripping them once. */
  lemma StripFragmentAndQueryIdempotent(s: string)
    ensures StripFragmentAndQuery(StripFragmentAndQuery(s)) == StripFragmentAndQuery(s)
  {
    var r := StripFragmentAndQuery(s);
    StripFragmentAndQueryUnique(r, r);
  }

  /** Two hrefs that agree up to their first `#` or `?` give the same link. */
  lemma SameUpToMarker(p: string, c: char, x: string)
    requires Bare(p) && (c == '#' || c == '?')
    ensures StripFragmentAndQuery(p + [c] + x) == p
    ensures StripFragmentAndQuery(p) == p
  {
    var s := p + [c] + x;
    assert s[|p|] == c;
    StripFragmentAndQueryUnique(s, p);
    StripFragmentAndQueryUnique(p, p);
  }

  /** A prefix without markers passes through stripping unchanged. */
  lemma StripFragmentAndQueryAfterBare(b: string, h: string)
    requires Bare(b)
    ensures StripFragmentAndQuery(b + h) == b + StripFragmentAndQuery(h)
  {
    var s, t := b + h, StripFragmentAndQuery(h);
    var r := b + t;
    assert r <= s by {
      assert s[..|r|] == b + h[..|t|];
    }
    assert Bare(r) by {
      assert forall k :: 0 <= k < |r| ==> r[k] == (if k < |b| then b[k] else t[k - |b|]);
    }
    if |r| < |s| {
      assert s[|r|] == h[|t|];
    }
    StripFragmentAndQueryUnique(s, r);
  }

  /** The target of an href before the base-URL check: a root-relative href is appended to
      the base URL, one not starting with `http` goes through `urljoin(url, href)`, and
      anything else is taken as it is. */
  function Resolve(href: string, url: string, baseUrl: string, urlJoin: (string, string) -> string): string {
    if "/" <= href then baseUrl + href
    else if !("http" <= href) then urlJoin(url, href)
    else href
  }

  /** The body of the link loop for one href: `Some(link)` when it is appended to `links`. */
  function AcceptHref(href: string, url: string, baseUrl: string, urlJoin: (string, string) -> string): (r: Option<string>)
    ensures r.Some? ==> r.value != [] && Bare(r.value) && r.value != url
    ensures r.Some? && Bare(baseUrl) ==> baseUrl <= r.value
    ensures r.Some? ==> href != [] && baseUrl <= Resolve(href, url, baseUrl, urlJoin)
  {
    if href == [] then None
    else
      var target := Resolve(href, url, baseUrl, urlJoin);
      if baseUrl <= target then
        var link := StripFragmentAndQuery(target);
        assert Bare(baseUrl) ==> baseUrl <= link by {
          if Bare(baseUrl) {
            assert baseUrl + target[|baseUrl|..] == target;
            StripFragmentAndQueryAfterBare(baseUrl, target[|baseUrl|..]);
          }
        }
        if link != [] && link != url then Some(link) else None
      else None
  }

  /** A root-relative href becomes the base URL followed by the href cut at its first `#`
      or `?`, unless that is the page itself. */
  lemma RootRelativeHref(href: string, url: string, baseUrl: string, urlJoin: (string, string) -> string)
    requires href != [] && href[0] == '/' && Bare(baseUrl)
    ensures var link := baseUrl + StripFragmentAndQuery(href);
      AcceptHref(href, url, baseUrl, urlJoin) == if link != url then Some(link) else None
  {
    assert "/" <= href;
    StripFragmentAndQueryAfterBare(baseUrl, href);
  }

  /** The `links` list built by the loop over the page's hrefs, in document order. */
  function ExtractLinks(hrefs: seq<string>, url: string, baseUrl: string, urlJoin: (string, string) -> string): (links: seq<string>)
    ensures forall l :: l in links <==> exists h :: h in hrefs && AcceptHref(h, url, baseUrl, urlJoin) == Some(l)
  {
    if hrefs == [] then []
    else
      var rest := ExtractLinks(hrefs[1..], url, baseUrl, urlJoin);
      assert forall h :: h in hrefs <==> h == hrefs[0] || h in hrefs[1..];
      match AcceptHref(hrefs[0], url, baseUrl, urlJoin)
      case Some(link) => [link] + rest
      case None => rest
  }

  /** No element occurs twice. */
  predicate NoDuplicates<T(==)>(s: seq<T>) {
    forall i, j :: 0 <= i < j < |s| ==> s[i] != s[j]
  }

  /** `list(set(links))`: the same elements, each once. Python leaves the order to the
      set's hashing; this keeps the last occurrence of each element. */
  function Dedup(s: seq<string>): (r: seq<string>)
    ensures NoDuplicates(r)
    ensures forall x :: x in r <==> x in s
    ensures |r| <= |s|
  {
    if s == [] then []
    else
      var rest := Dedup(s[1..]);
      if s[0] in s[1..] then rest else [s[0]] + rest
  }

  /** Every link extraction returns: non-empty, bare, not the page itself, each at most once,
      and under the base URL whenever the base URL itself is bare. */
  lemma ExtractedLinksWellFormed(hrefs: seq<string>, url: string, baseUrl: string, urlJoin: (string, string) -> string)
    ensures var links := Dedup(ExtractLinks(hrefs, url, baseUrl, urlJoin));
      NoDuplicates(links) &&
      forall l :: l in links ==> l != [] && Bare(l) && l != url && (Bare(baseUrl) ==> baseUrl <= l)
  {
  }
}
