/** The breadth-first crawl of `WebCrawler.crawl` (crawler.py lines 88-141) and the crawler's
    state (lines 16-21). The browser is a function from a URL to what it renders: a failure
    (any exception between `page.goto` and the end of `extract_content`) or a parsed page. */
module Crawl {
  import opened Text
  import opened Optional
  import opened Scope
  import opened Links
  import opened Markdown
  import opened Extract

  /** The outcome of rendering one URL. */
  datatype Fetch = FetchFailed | Fetched(page: Page)

  /** A stored document: the extracted fields plus `url` and `depth_level`. */
  datatype Doc = Doc(url: string, depthLevel: int, title: string, headings: seq<string>, content: string, links: seq<string>)

  /** One entry of the frontier: a URL and its distance from a seed. */
  datatype Item = Item(url: string, depth: int)

  /** One page the crawler rendered, and the document built from it unless rendering failed. */
  datatype Visit = Visit(url: string, depth: int, doc: Option<Doc>)

  /** Pages with shorter content are dropped as thin. */
  const MinContentLength: nat := 100

  /** The document for a rendered URL at `depth`: `extract_content` plus `url` and
      `depth_level`, or nothing when rendering failed. */
  function ProcessPage(fetch: Fetch, url: string, depth: int, baseUrl: string, urlJoin: (string, string) -> string): (d: Option<Doc>)
    ensures fetch.FetchFailed? <==> d.None?
    ensures d.Some? ==> d.value.url == url && d.value.depthLevel == depth
  {
    match fetch
    case FetchFailed => None
    case Fetched(page) =>
      var e := ExtractContent(page, url, baseUrl, urlJoin);
      Some(Doc(url, depth, e.title, e.headings, e.content, e.links))
  }

  /** A rendered page's document: its content is the cleaned Markdown, without three newlines
      in a row or surrounding whitespace, and its links are distinct, non-empty, free of `#`
      and `?`, not the page itself, and under the base URL when that is free of `#` and `?`. */
  lemma ProcessPageWellFormed(page: Page, url: string, depth: int, baseUrl: string, urlJoin: (string, string) -> string)
    ensures var d := ProcessPage(Fetched(page), url, depth, baseUrl, urlJoin).value;
      d.content == CleanMarkdown(page.markdown) && NoTripleNewline(d.content) &&
      (d.content != [] ==> !IsSpace(d.content[0]) && !IsSpace(d.content[|d.content| - 1])) &&
      NoDuplicates(d.links) &&
      forall l :: l in d.links ==> l != [] && Bare(l) && l != url && (Bare(baseUrl) ==> baseUrl <= l)
  {
    ExtractedLinksWellFormed(page.hrefs, url, baseUrl, urlJoin);
  }

  /** The document from a visit is stored exactly when it has at least 100 characters. */
  predicate IsKept(v: Visit) {
    v.doc.Some? && |v.doc.value.content| >= MinContentLength
  }

  /** The documents kept from a sequence of visits, in order. */
  function Kept(log: seq<Visit>): seq<Doc> {
    if log == [] then []
    else Kept(log[..|log| - 1]) + (if IsKept(log[|log| - 1]) then [log[|log| - 1].doc.value] else [])
  }

  /** Every kept document comes from a visit that kept it, and every such visit contributes. */
  lemma {:induction false} KeptIff(log: seq<Visit>)
    ensures forall d :: d in Kept(log) <==> exists i :: 0 <= i < |log| && IsKept(log[i]) && log[i].doc.value == d
  {
    if log != [] {
      var init := log[..|log| - 1];
      KeptIff(init);
      assert forall i :: 0 <= i < |init| ==> init[i] == log[i];
    }
  }

  /** Keeping documents distributes over concatenation of visit sequences. */
  lemma {:induction false} KeptAppend(a: seq<Visit>, b: seq<Visit>)
    ensures Kept(a + b) == Kept(a) + Kept(b)
    decreases |b|
  {
    if b == [] {
      assert a + b == a;
    } else {
      var b' := b[..|b| - 1];
      assert (a + b)[..|a + b| - 1] == a + b';
      KeptAppend(a, b');
    }
  }

  /** The URLs of a sequence of visits. */
  function VisitedUrls(log: seq<Visit>): set<string> {
    set i | 0 <= i < |log| :: log[i].url
  }

  /** Some frontier entry carries `u`. */
  ghost predicate Queued(queue: seq<Item>, u: string) {
    exists k :: 0 <= k < |queue| && queue[k].url == u
  }

  /** Number of frontier entries at `depth`. */
  function CountAtDepth(queue: seq<Item>, depth: int): (n: nat)
    ensures n <= |queue|
  {
    if queue == [] then 0
    else (if queue[0].depth == depth then 1 else 0) + CountAtDepth(queue[1..], depth)
  }

  /** Entries at other depths do not change the count. */
  lemma {:induction false} CountAtDepthAppend(queue: seq<Item>, extra: seq<Item>, depth: int)
    requires forall k :: 0 <= k < |extra| ==> extra[k].depth != depth
    ensures CountAtDepth(queue + extra, depth) == CountAtDepth(queue, depth)
  {
    if queue == [] {
      CountAtDepthNone(extra, depth);
      assert queue + extra == extra;
    } else {
      assert (queue + extra)[1..] == queue[1..] + extra;
      CountAtDepthAppend(queue[1..], extra, depth);
    }
  }

  lemma {:induction false} CountAtDepthNone(queue: seq<Item>, depth: int)
    requires forall k :: 0 <= k < |queue| ==> queue[k].depth != depth
    ensures CountAtDepth(queue, depth) == 0
  {
    if queue != [] {
      CountAtDepthNone(queue[1..], depth);
    }
  }

  /** The frontier is in breadth-first shape: depths within `[0, top]`, non-decreasing, and
      the last at most one more than the first. */
  ghost predicate BreadthFirst(queue: seq<Item>, top: int) {
    (forall k :: 0 <= k < |queue| ==> 0 <= queue[k].depth <= top) &&
    (forall i, j :: 0 <= i < j < |queue| ==> queue[i].depth <= queue[j].depth <= queue[i].depth + 1)
  }

  /** What `OfferLinks` promises: `q` extends `queue`; each new entry is a link at
      `depth + 1` that was neither visited nor earlier in `q`; every link ends up visited or
      queued. */
  ghost predicate Offered(queue: seq<Item>, q: seq<Item>, visited: set<string>, links: seq<string>, depth: int) {
    queue <= q &&
    (forall k :: |queue| <= k < |q| ==>
      q[k].depth == depth + 1 && q[k].url in links && q[k].url !in visited &&
      forall j :: 0 <= j < k ==> q[j].url != q[k].url) &&
    (forall l :: l in links ==> l in visited || Queued(q, l))
  }

  /** The inner `for link in doc_data['links']` loop: each link not yet visited and not yet
      in the frontier is appended at `depth + 1`. */
  method OfferLinks(queue: seq<Item>, visited: set<string>, links: seq<string>, depth: int) returns (q: seq<Item>)
    ensures Offered(queue, q, visited, links, depth)
  {
    q := queue;
    for n := 0 to |links|
      invariant queue <= q
      invariant forall k :: |queue| <= k < |q| ==>
        q[k].depth == depth + 1 && q[k].url in links[..n] && q[k].url !in visited &&
        forall j :: 0 <= j < k ==> q[j].url != q[k].url
      invariant forall l :: l in links[..n] ==> l in visited || Queued(q, l)
    {
      var link := links[n];
      var queued := exists k :: 0 <= k < |q| && q[k].url == link;
      if link !in visited && !queued {
        var q0 := q;
        q := q + [Item(link, depth + 1)];
        assert q[|q| - 1].url == link;
        forall l | Queued(q0, l)
          ensures Queued(q, l)
        {
          var k :| 0 <= k < |q0| && q0[k].url == l;
          assert q[k] == q0[k];
        }
      }
      assert links[..n + 1] == links[..n] + [link];
    }
    assert links[..|links|] == links;
  }

  /** The frontier's rank for termination: how many depth levels remain from its front
      entry up to `top`, then how many entries are at the front entry's depth. */
  function Level(queue: seq<Item>, top: int): int {
    if queue == [] then 0 else top + 1 - queue[0].depth
  }

  function Width(queue: seq<Item>): nat {
    if queue == [] then 0 else CountAtDepth(queue, queue[0].depth)
  }

  /** `q` ranks strictly below `queue`, lexicographically on `(Level, Width)`. */
  ghost predicate RanksBelow(q: seq<Item>, queue: seq<Item>, top: int) {
    0 <= Level(q, top) &&
    (Level(q, top) < Level(queue, top) || (Level(q, top) == Level(queue, top) && Width(q) < Width(queue)))
  }

  /** Taking the front entry off a breadth-first frontier and appending entries one level
      deeper keeps it breadth-first and lowers its rank. */
  lemma PopAndAppend(queue: seq<Item>, q: seq<Item>, top: int)
    requires queue != [] && BreadthFirst(queue, top) && queue[1..] <= q
    requires DeeperFrom(q, |queue| - 1, queue[0].depth, top)
    ensures BreadthFirst(q, top)
    ensures RanksBelow(q, queue, top)
  {
    TailOneDeeper(q, |queue| - 1, queue[0].depth, top);
    var extra := q[|queue| - 1..];
    assert q == queue[1..] + extra;
    PopAndAppendRank(queue, extra, top);
    PopAndAppendShape(queue, extra, top);
  }

  /** Every entry of `extra` sits one level below `d`, within the depth limit. */
  ghost predicate OneDeeper(extra: seq<Item>, d: int, top: int) {
    forall k :: 0 <= k < |extra| ==> extra[k].depth == d + 1 <= top
  }

  /** Every entry of `q` from position `from` on sits one level below `d`, within the
      depth limit. */
  ghost predicate DeeperFrom(q: seq<Item>, from: nat, d: int, top: int) {
    forall k :: from <= k < |q| ==> q[k].depth == d + 1 <= top
  }

  lemma TailOneDeeper(q: seq<Item>, from: nat, d: int, top: int)
    requires from <= |q| && DeeperFrom(q, from, d, top)
    ensures OneDeeper(q[from..], d, top)
  {
    var extra := q[from..];
    forall k | 0 <= k < |extra|
      ensures extra[k].depth == d + 1 <= top
    {
      assert extra[k] == q[from + k];
    }
  }

  lemma PopAndAppendShape(queue: seq<Item>, extra: seq<Item>, top: int)
    requires queue != [] && BreadthFirst(queue, top)
    requires OneDeeper(extra, queue[0].depth, top)
    ensures BreadthFirst(queue[1..] + extra, top)
  {
    var rest := queue[1..];
    var q := rest + extra;
    forall k | 0 <= k < |q|
      ensures 0 <= q[k].depth <= top
    {
      if k < |rest| {
        assert q[k] == queue[k + 1];
      }
    }
    forall i, j | 0 <= i < j < |q|
      ensures q[i].depth <= q[j].depth <= q[i].depth + 1
    {
      if j < |rest| {
        assert q[i] == queue[i + 1] && q[j] == queue[j + 1];
      } else if i < |rest| {
        assert q[i] == queue[i + 1];
      }
    }
  }

  lemma PopAndAppendRank(queue: seq<Item>, extra: seq<Item>, top: int)
    requires queue != [] && BreadthFirst(queue, top)
    requires OneDeeper(extra, queue[0].depth, top)
    ensures RanksBelow(queue[1..] + extra, queue, top)
  {
    var d := queue[0].depth;
    var rest := queue[1..];
    var q := rest + extra;
    if rest != [] && rest[0].depth == d {
      assert q[0] == rest[0];
      assert queue == [queue[0]] + rest;
      assert CountAtDepth(queue, d) == 1 + CountAtDepth(rest, d);
      CountAtDepthAppend(rest, extra, d);
    } else if rest != [] {
      assert q[0] == rest[0] == queue[1];
    } else if q != [] {
      assert q[0] == extra[0];
    }
  }

  /** `u` must be reached by the crawl that started at log position `start`: it is in scope
      and is a seed (when depth 0 is allowed) or a link of a page rendered below the depth
      limit. */
  ghost predicate Required(u: string, seeds: seq<string>, log: seq<Visit>, start: nat, maxDepth: int, baseUrl: string, excludePatterns: seq<string>) {
    InScope(u, baseUrl, excludePatterns) &&
    ((maxDepth >= 0 && u in seeds) ||
     exists i :: start <= i < |log| && log[i].depth < maxDepth && log[i].doc.Some? && u in log[i].doc.value.links)
  }

  /** Every required URL is visited or still waiting in the frontier. */
  ghost predicate Covered(queue: seq<Item>, visited: set<string>, seeds: seq<string>, log: seq<Visit>, start: nat, maxDepth: int, baseUrl: string, excludePatterns: seq<string>) {
    forall u :: Required(u, seeds, log, start, maxDepth, baseUrl, excludePatterns) ==> u in visited || Queued(queue, u)
  }

  /** The frontier seeded with every start URL at depth 0 covers every required URL
      before anything is rendered. */
  lemma SeedsCovered(seeds: seq<string>, queue: seq<Item>, visited: set<string>, log: seq<Visit>, maxDepth: int, baseUrl: string, excludePatterns: seq<string>)
    requires |queue| == |seeds| && forall i :: 0 <= i < |seeds| ==> queue[i] == Item(seeds[i], 0)
    ensures Covered(queue, visited, seeds, log, |log|, maxDepth, baseUrl, excludePatterns)
  {
    forall u | u in seeds
      ensures Queued(queue, u)
    {
      var i :| 0 <= i < |seeds| && seeds[i] == u;
      assert queue[i].url == u;
    }
  }

  /** Once the frontier is empty, every required URL has been visited. */
  lemma CoveredWhenEmpty(visited: set<string>, seeds: seq<string>, log: seq<Visit>, start: nat, maxDepth: int, baseUrl: string, excludePatterns: seq<string>)
    requires Covered([], visited, seeds, log, start, maxDepth, baseUrl, excludePatterns)
    ensures maxDepth >= 0 ==> forall u :: u in seeds && InScope(u, baseUrl, excludePatterns) ==> u in visited
    ensures forall i :: start <= i < |log| && log[i].depth < maxDepth && log[i].doc.Some? ==>
      forall l :: l in log[i].doc.value.links && InScope(l, baseUrl, excludePatterns) ==> l in visited
  {
    forall u | u in seeds && InScope(u, baseUrl, excludePatterns) && maxDepth >= 0
      ensures u in visited
    {
      assert Required(u, seeds, log, start, maxDepth, baseUrl, excludePatterns);
    }
    forall i, l | start <= i < |log| && log[i].depth < maxDepth && log[i].doc.Some? &&
                  l in log[i].doc.value.links && InScope(l, baseUrl, excludePatterns)
      ensures l in visited
    {
      assert Required(l, seeds, log, start, maxDepth, baseUrl, excludePatterns);
    }
  }

  /** Dropping the front entry loses nothing required: it is beyond the depth limit (which
      happens only when no URL is required) or fails `should_crawl`, so if required it is
      already visited. */
  lemma DropFront(queue: seq<Item>, visited: set<string>, seeds: seq<string>, log: seq<Visit>, start: nat, maxDepth: int, baseUrl: string, excludePatterns: seq<string>)
    requires queue != [] && Covered(queue, visited, seeds, log, start, maxDepth, baseUrl, excludePatterns)
    requires forall i :: start <= i < |log| ==> 0 <= log[i].depth
    requires queue[0].depth > maxDepth ==> maxDepth < 0
    requires queue[0].depth > maxDepth || !ShouldCrawl(queue[0].url, visited, baseUrl, excludePatterns)
    ensures Covered(queue[1..], visited, seeds, log, start, maxDepth, baseUrl, excludePatterns)
  {
    forall u | Required(u, seeds, log, start, maxDepth, baseUrl, excludePatterns) && u !in visited
      ensures Queued(queue[1..], u)
    {
      var k :| 0 <= k < |queue| && queue[k].url == u;
      if k != 0 {
        assert queue[1..][k - 1] == queue[k];
      }
    }
  }

  /** Taking the front entry off and marking it visited loses nothing required. */
  lemma VisitFront(queue: seq<Item>, visited: set<string>, seeds: seq<string>, log: seq<Visit>, start: nat, maxDepth: int, baseUrl: string, excludePatterns: seq<string>)
    requires queue != [] && Covered(queue, visited, seeds, log, start, maxDepth, baseUrl, excludePatterns)
    ensures Covered(queue[1..], visited + {queue[0].url}, seeds, log, start, maxDepth, baseUrl, excludePatterns)
  {
    forall u | Required(u, seeds, log, start, maxDepth, baseUrl, excludePatterns) && u !in visited + {queue[0].url}
      ensures Queued(queue[1..], u)
    {
      var k :| 0 <= k < |queue| && queue[k].url == u;
      assert queue[1..][k - 1] == queue[k];
    }
  }

  /** Recording a visit whose links are all visited or queued, after the frontier has grown,
      keeps every required URL covered. */
  lemma RecordVisit(rest: seq<Item>, q: seq<Item>, visited: set<string>, seeds: seq<string>, log: seq<Visit>, v: Visit, start: nat, maxDepth: int, baseUrl: string, excludePatterns: seq<string>)
    requires Covered(rest, visited, seeds, log, start, maxDepth, baseUrl, excludePatterns)
    requires rest <= q && 0 <= start <= |log|
    requires v.depth < maxDepth && v.doc.Some? ==> forall l :: l in v.doc.value.links ==> l in visited || Queued(q, l)
    ensures Covered(q, visited, seeds, log + [v], start, maxDepth, baseUrl, excludePatterns)
  {
    var log' := log + [v];
    forall u | Required(u, seeds, log', start, maxDepth, baseUrl, excludePatterns) && u !in visited
      ensures Queued(q, u)
    {
      if Required(u, seeds, log, start, maxDepth, baseUrl, excludePatterns) {
        var k :| 0 <= k < |rest| && rest[k].url == u;
        assert q[k] == rest[k];
      } else {
        var i :| start <= i < |log'| && log'[i].depth < maxDepth && log'[i].doc.Some? && u in log'[i].doc.value.links;
      }
    }
  }

  /** `u` at `d` has a source among the visits `log[start..end]`: it is a seed at depth 0,
      or a link of a page rendered there below the depth limit, one level deeper. */
  ghost predicate Origin(u: string, d: int, seeds: seq<string>, log: seq<Visit>, start: nat, end: nat, maxDepth: int) {
    (d == 0 && u in seeds) ||
    exists j :: start <= j < end && j < |log| && log[j].depth < maxDepth && log[j].doc.Some? &&
      d == log[j].depth + 1 && u in log[j].doc.value.links
  }

  /** Every frontier entry has a source among the visits from `start` on. */
  ghost predicate Sourced(queue: seq<Item>, seeds: seq<string>, log: seq<Visit>, start: nat, maxDepth: int) {
    forall k :: 0 <= k < |queue| ==> Origin(queue[k].url, queue[k].depth, seeds, log, start, |log|, maxDepth)
  }

  /** Every visit from `start` on has a source among the visits before it. */
  ghost predicate LogSourced(log: seq<Visit>, start: nat, seeds: seq<string>, maxDepth: int) {
    forall i :: start <= i < |log| ==> Origin(log[i].url, log[i].depth, seeds, log, start, i, maxDepth)
  }

  /** A source among the visits stays a source when more visits follow. */
  lemma OriginGrow(u: string, d: int, seeds: seq<string>, log: seq<Visit>, more: seq<Visit>, start: nat, end: nat, maxDepth: int)
    requires end <= |log| && Origin(u, d, seeds, log, start, end, maxDepth)
    ensures Origin(u, d, seeds, log + more, start, end, maxDepth)
  {
    if !(d == 0 && u in seeds) {
      var j :| start <= j < end && j < |log| && log[j].depth < maxDepth && log[j].doc.Some? &&
        d == log[j].depth + 1 && u in log[j].doc.value.links;
      assert (log + more)[j] == log[j];
    }
  }

  /** The seeded frontier: every entry is a seed at depth 0. */
  lemma SeedsSourced(seeds: seq<string>, queue: seq<Item>, log: seq<Visit>, maxDepth: int)
    requires |queue| == |seeds| && forall i :: 0 <= i < |seeds| ==> queue[i] == Item(seeds[i], 0)
    ensures Sourced(queue, seeds, log, |log|, maxDepth) && LogSourced(log, |log|, seeds, maxDepth)
  {
    forall k | 0 <= k < |queue|
      ensures Origin(queue[k].url, queue[k].depth, seeds, log, |log|, |log|, maxDepth)
    {
      assert queue[k].url == seeds[k];
    }
  }

  /** Dropping the front entry keeps the rest sourced. */
  lemma SourcedDrop(queue: seq<Item>, seeds: seq<string>, log: seq<Visit>, start: nat, maxDepth: int)
    requires queue != [] && Sourced(queue, seeds, log, start, maxDepth)
    ensures Sourced(queue[1..], seeds, log, start, maxDepth)
  {
    forall k | 0 <= k < |queue| - 1
      ensures Origin(queue[1..][k].url, queue[1..][k].depth, seeds, log, start, |log|, maxDepth)
    {
      assert queue[1..][k] == queue[k + 1];
    }
  }

  /** Rendering the front entry `v` keeps the log sourced: its source lies among the
      visits before it. */
  lemma LogSourcedSnoc(queue: seq<Item>, seeds: seq<string>, log: seq<Visit>, v: Visit, start: nat, maxDepth: int)
    requires queue != [] && Sourced(queue, seeds, log, start, maxDepth) && LogSourced(log, start, seeds, maxDepth)
    requires v.url == queue[0].url && v.depth == queue[0].depth
    ensures LogSourced(log + [v], start, seeds, maxDepth)
  {
    var log' := log + [v];
    forall i | start <= i < |log'|
      ensures Origin(log'[i].url, log'[i].depth, seeds, log', start, i, maxDepth)
    {
      if i < |log| {
        OriginGrow(log[i].url, log[i].depth, seeds, log, [v], start, i, maxDepth);
        assert log'[i] == log[i];
      } else {
        OriginGrow(v.url, v.depth, seeds, log, [v], start, |log|, maxDepth);
      }
    }
  }

  /** After rendering the front entry `v`, the rest of the frontier and the links appended
      one level deeper (only when `v` has a document and lies below the depth limit) are
      sourced. */
  lemma QueueSourcedSnoc(queue: seq<Item>, q: seq<Item>, seeds: seq<string>, log: seq<Visit>, v: Visit, start: nat, maxDepth: int)
    requires queue != [] && Sourced(queue, seeds, log, start, maxDepth) && start <= |log|
    requires queue[1..] <= q
    requires !(v.doc.Some? && v.depth < maxDepth) ==> q == queue[1..]
    requires v.doc.Some? && v.depth < maxDepth ==> DeeperLinks(q, |queue| - 1, v)
    ensures Sourced(q, seeds, log + [v], start, maxDepth)
  {
    var log' := log + [v];
    forall k | 0 <= k < |q|
      ensures Origin(q[k].url, q[k].depth, seeds, log', start, |log'|, maxDepth)
    {
      if k < |queue| - 1 {
        assert q[k] == queue[k + 1];
        OriginGrow(q[k].url, q[k].depth, seeds, log, [v], start, |log|, maxDepth);
      } else {
        assert v.doc.Some? && v.depth < maxDepth;
        assert q[k].depth == v.depth + 1 && q[k].url in v.doc.value.links;
        assert log'[|log|] == v;
      }
    }
  }

  /** The entries of `q` from `from` on are links of `v`'s page, one level below `v`. */
  ghost predicate DeeperLinks(q: seq<Item>, from: nat, v: Visit)
    requires v.doc.Some?
  {
    forall k :: from <= k < |q| ==> q[k].depth == v.depth + 1 && q[k].url in v.doc.value.links
  }

  /** `u` is reached no deeper than `b` by the crawl that started at log position `start`:
      it is out of scope, was rendered before that crawl, was rendered in it at most `b`
      deep, or waits in the frontier at most `b` deep. */
  ghost predicate Reached(u: string, b: int, queue: seq<Item>, log: seq<Visit>, start: nat, baseUrl: string, excludePatterns: seq<string>) {
    !InScope(u, baseUrl, excludePatterns) ||
    (exists i :: 0 <= i < |log| && log[i].url == u && (i < start || log[i].depth <= b)) ||
    (exists k :: 0 <= k < |queue| && queue[k].url == u && queue[k].depth <= b)
  }

  /** Every visit from `start` on is at most `d` deep. */
  ghost predicate LogBelow(log: seq<Visit>, start: nat, d: int) {
    forall i :: start <= i < |log| ==> log[i].depth <= d
  }

  /** The visits from `start` on come in order of depth. */
  ghost predicate Ascending(log: seq<Visit>, start: nat) {
    forall i, j :: start <= i < j < |log| ==> log[i].depth <= log[j].depth
  }

  /** Each seed (when depth 0 is allowed) is reached at depth 0, and each link of a page
      rendered from `start` on below the depth limit is reached one level below that page. */
  ghost predicate AllReached(queue: seq<Item>, seeds: seq<string>, log: seq<Visit>, start: nat, maxDepth: int, baseUrl: string, excludePatterns: seq<string>) {
    (maxDepth >= 0 ==> forall s :: s in seeds ==> Reached(s, 0, queue, log, start, baseUrl, excludePatterns)) &&
    (forall j :: start <= j < |log| && log[j].depth < maxDepth && log[j].doc.Some? ==>
      forall l :: l in log[j].doc.value.links ==> Reached(l, log[j].depth + 1, queue, log, start, baseUrl, excludePatterns))
  }

  /** The breadth-first invariant of the crawl: pages are rendered in order of depth, none
      deeper than the front entry, and every seed and link is reached no deeper than its
      breadth-first depth. */
  ghost predicate Shallowest(queue: seq<Item>, seeds: seq<string>, log: seq<Visit>, start: nat, maxDepth: int, baseUrl: string, excludePatterns: seq<string>) {
    (queue != [] ==> LogBelow(log, start, queue[0].depth)) && Ascending(log, start) &&
    AllReached(queue, seeds, log, start, maxDepth, baseUrl, excludePatterns)
  }

  /** The seeded frontier, before anything is rendered, has every seed at depth 0. */
  lemma SeedsShallowest(seeds: seq<string>, queue: seq<Item>, log: seq<Visit>, maxDepth: int, baseUrl: string, excludePatterns: seq<string>)
    requires |queue| == |seeds| && forall i :: 0 <= i < |seeds| ==> queue[i] == Item(seeds[i], 0)
    ensures Shallowest(queue, seeds, log, |log|, maxDepth, baseUrl, excludePatterns)
  {
    forall s | s in seeds
      ensures Reached(s, 0, queue, log, |log|, baseUrl, excludePatterns)
    {
      var i :| 0 <= i < |seeds| && seeds[i] == s;
      assert queue[i].url == s && queue[i].depth == 0;
    }
  }

  /** Dropping the front entry keeps `u` reached: if `u` was reached through that entry, it
      is out of scope or already rendered, no deeper than the entry. */
  lemma ReachedDrop(u: string, b: int, queue: seq<Item>, log: seq<Visit>, start: nat, visited: set<string>, maxDepth: int, baseUrl: string, excludePatterns: seq<string>)
    requires Reached(u, b, queue, log, start, baseUrl, excludePatterns) && queue != [] && b <= maxDepth
    requires visited == VisitedUrls(log) && LogBelow(log, start, queue[0].depth)
    requires queue[0].depth > maxDepth || !ShouldCrawl(queue[0].url, visited, baseUrl, excludePatterns)
    ensures Reached(u, b, queue[1..], log, start, baseUrl, excludePatterns)
  {
    if exists k :: 0 <= k < |queue| && queue[k].url == u && queue[k].depth <= b {
      var k :| 0 <= k < |queue| && queue[k].url == u && queue[k].depth <= b;
      if k == 0 {
        if u in visited {
          var i :| 0 <= i < |log| && log[i].url == u;
          assert i < start || log[i].depth <= b;
        }
      } else {
        assert queue[1..][k - 1] == queue[k];
      }
    }
  }

  /** Rendering the front entry keeps `u` reached: if `u` was reached through that entry,
      it is now rendered at the entry's depth. */
  lemma ReachedVisit(u: string, b: int, queue: seq<Item>, q: seq<Item>, log: seq<Visit>, v: Visit, start: nat, baseUrl: string, excludePatterns: seq<string>)
    requires Reached(u, b, queue, log, start, baseUrl, excludePatterns) && queue != [] && queue[1..] <= q
    requires v.url == queue[0].url && v.depth == queue[0].depth
    ensures Reached(u, b, q, log + [v], start, baseUrl, excludePatterns)
  {
    var log' := log + [v];
    if exists i :: 0 <= i < |log| && log[i].url == u && (i < start || log[i].depth <= b) {
      var i :| 0 <= i < |log| && log[i].url == u && (i < start || log[i].depth <= b);
      assert log'[i] == log[i];
    } else if exists k :: 0 <= k < |queue| && queue[k].url == u && queue[k].depth <= b {
      var k :| 0 <= k < |queue| && queue[k].url == u && queue[k].depth <= b;
      if k == 0 {
        assert log'[|log|] == v;
      } else {
        assert q[k - 1] == queue[k];
      }
    }
  }

  /** A link of a page rendered `d` deep, once visited or queued, is reached one level
      deeper: nothing rendered so far is deeper than `d`, and nothing queued deeper than
      `d + 1`. */
  lemma ReachedLink(l: string, d: int, q: seq<Item>, log: seq<Visit>, start: nat, baseUrl: string, excludePatterns: seq<string>)
    requires LogBelow(log, start, d)
    requires forall k :: 0 <= k < |q| ==> q[k].depth <= d + 1
    requires l in VisitedUrls(log) || Queued(q, l)
    ensures Reached(l, d + 1, q, log, start, baseUrl, excludePatterns)
  {
    if l in VisitedUrls(log) {
      var i :| 0 <= i < |log| && log[i].url == l;
      assert i < start || log[i].depth <= d + 1;
    } else {
      var k :| 0 <= k < |q| && q[k].url == l;
      assert q[k].depth <= d + 1;
    }
  }

  /** Dropping the front entry (too deep, or rejected by `should_crawl`) keeps the crawl
      breadth-first. */
  lemma ShallowestDrop(queue: seq<Item>, seeds: seq<string>, log: seq<Visit>, start: nat, visited: set<string>, maxDepth: int, top: int, baseUrl: string, excludePatterns: seq<string>)
    requires queue != [] && BreadthFirst(queue, top) && Shallowest(queue, seeds, log, start, maxDepth, baseUrl, excludePatterns)
    requires visited == VisitedUrls(log)
    requires queue[0].depth > maxDepth || !ShouldCrawl(queue[0].url, visited, baseUrl, excludePatterns)
    ensures Shallowest(queue[1..], seeds, log, start, maxDepth, baseUrl, excludePatterns)
  {
    if |queue| > 1 {
      assert queue[1..][0] == queue[1];
      assert queue[0].depth <= queue[1].depth;
    }
    forall s | maxDepth >= 0 && s in seeds
      ensures Reached(s, 0, queue[1..], log, start, baseUrl, excludePatterns)
    {
      ReachedDrop(s, 0, queue, log, start, visited, maxDepth, baseUrl, excludePatterns);
    }
    forall j, l | start <= j < |log| && log[j].depth < maxDepth && log[j].doc.Some? && l in log[j].doc.value.links
      ensures Reached(l, log[j].depth + 1, queue[1..], log, start, baseUrl, excludePatterns)
    {
      ReachedDrop(l, log[j].depth + 1, queue, log, start, visited, maxDepth, baseUrl, excludePatterns);
    }
  }

  /** Rendering the front entry as `v`, and appending links of its page one level deeper,
      keeps the crawl breadth-first. */
  lemma ShallowestVisit(queue: seq<Item>, q: seq<Item>, seeds: seq<string>, log: seq<Visit>, v: Visit, visited: set<string>, start: nat, maxDepth: int, top: int, baseUrl: string, excludePatterns: seq<string>)
    requires queue != [] && BreadthFirst(queue, top) && Shallowest(queue, seeds, log, start, maxDepth, baseUrl, excludePatterns)
    requires v.url == queue[0].url && v.depth == queue[0].depth && queue[1..] <= q
    requires forall k :: |queue| - 1 <= k < |q| ==> q[k].depth == v.depth + 1
    requires visited == VisitedUrls(log + [v])
    requires v.depth < maxDepth && v.doc.Some? ==> forall l :: l in v.doc.value.links ==> l in visited || Queued(q, l)
    ensures Shallowest(q, seeds, log + [v], start, maxDepth, baseUrl, excludePatterns)
  {
    var d := v.depth;
    var log' := log + [v];
    forall k | 0 <= k < |q|
      ensures q[k].depth <= d + 1
    {
      if k < |queue| - 1 {
        assert q[k] == queue[k + 1];
      }
    }
    forall i | start <= i < |log'|
      ensures log'[i].depth <= d
    {
      if i < |log| {
        assert log'[i] == log[i];
      }
    }
    if q != [] && |queue| > 1 {
      assert q[0] == queue[1];
    }
    forall i, j | start <= i < j < |log'|
      ensures log'[i].depth <= log'[j].depth
    {
      if j < |log| {
        assert log'[i] == log[i] && log'[j] == log[j];
      }
    }
    forall s | maxDepth >= 0 && s in seeds
      ensures Reached(s, 0, q, log', start, baseUrl, excludePatterns)
    {
      ReachedVisit(s, 0, queue, q, log, v, start, baseUrl, excludePatterns);
    }
    forall j, l | start <= j < |log'| && log'[j].depth < maxDepth && log'[j].doc.Some? && l in log'[j].doc.value.links
      ensures Reached(l, log'[j].depth + 1, q, log', start, baseUrl, excludePatterns)
    {
      if j < |log| {
        assert log'[j] == log[j];
        ReachedVisit(l, log[j].depth + 1, queue, q, log, v, start, baseUrl, excludePatterns);
      } else {
        assert log'[j] == v;
        ReachedLink(l, d, q, log', start, baseUrl, excludePatterns);
      }
    }
  }

  /** Once the frontier is empty, the crawl was breadth-first: pages were rendered in order
      of depth, a rendered seed was rendered at depth 0, and a rendered link of a page below
      the depth limit was rendered at most one level below that page. */
  lemma ShallowestWhenEmpty(seeds: seq<string>, log: seq<Visit>, start: nat, visited: set<string>, documents: seq<Doc>, maxDepth: int, baseUrl: string, excludePatterns: seq<string>)
    requires Shallowest([], seeds, log, start, maxDepth, baseUrl, excludePatterns)
    requires Consistent(log, visited, documents, baseUrl, maxDepth, excludePatterns)
    ensures forall i, j :: start <= i < j < |log| ==> log[i].depth <= log[j].depth
    ensures forall i :: start <= i < |log| && log[i].url in seeds ==> log[i].depth == 0
    ensures forall i, j ::
      (start <= i < |log| && start <= j < |log| && log[j].depth < maxDepth && log[j].doc.Some? &&
       log[i].url in log[j].doc.value.links) ==> log[i].depth <= log[j].depth + 1
  {
    forall i | start <= i < |log| && log[i].url in seeds
      ensures log[i].depth == 0
    {
      assert Reached(log[i].url, 0, [], log, start, baseUrl, excludePatterns);
      var i' :| 0 <= i' < |log| && log[i'].url == log[i].url && (i' < start || log[i'].depth <= 0);
      assert i' == i;
    }
    forall i, j | start <= i < |log| && start <= j < |log| && log[j].depth < maxDepth && log[j].doc.Some? &&
      log[i].url in log[j].doc.value.links
      ensures log[i].depth <= log[j].depth + 1
    {
      assert Reached(log[i].url, log[j].depth + 1, [], log, start, baseUrl, excludePatterns);
      var i' :| 0 <= i' < |log| && log[i'].url == log[i].url && (i' < start || log[i'].depth <= log[j].depth + 1);
      assert i' == i;
    }
  }

  /** What the crawl keeps true of its frontier between turns: breadth-first shape, every
      required URL visited or queued, every entry and every rendered page sourced, and
      breadth-first depths. */
  ghost predicate Frontier(queue: seq<Item>, visited: set<string>, seeds: seq<string>, log: seq<Visit>, start: nat, top: int, maxDepth: int, baseUrl: string, excludePatterns: seq<string>) {
    BreadthFirst(queue, top) &&
    Covered(queue, visited, seeds, log, start, maxDepth, baseUrl, excludePatterns) &&
    Sourced(queue, seeds, log, start, maxDepth) && LogSourced(log, start, seeds, maxDepth) &&
    Shallowest(queue, seeds, log, start, maxDepth, baseUrl, excludePatterns)
  }

  /** The visits from `start` on were rendered breadth-first: in order of depth, a seed at
      depth 0, and a link of a page below the depth limit at most one level below that
      page. */
  ghost predicate BreadthFirstLog(log: seq<Visit>, start: nat, seeds: seq<string>, maxDepth: int) {
    (forall i, j :: start <= i < j < |log| ==> log[i].depth <= log[j].depth) &&
    (forall i :: start <= i < |log| && log[i].url in seeds ==> log[i].depth == 0) &&
    (forall i, j ::
      (start <= i < |log| && start <= j < |log| && log[j].depth < maxDepth && log[j].doc.Some? &&
       log[i].url in log[j].doc.value.links) ==> log[i].depth <= log[j].depth + 1)
  }

  /** The seeded frontier, before anything is rendered, meets `Frontier`. */
  lemma SeedsFrontier(seeds: seq<string>, queue: seq<Item>, visited: set<string>, log: seq<Visit>, top: int, maxDepth: int, baseUrl: string, excludePatterns: seq<string>)
    requires |queue| == |seeds| && forall i :: 0 <= i < |seeds| ==> queue[i] == Item(seeds[i], 0)
    requires top >= 0
    ensures Frontier(queue, visited, seeds, log, |log|, top, maxDepth, baseUrl, excludePatterns)
  {
    SeedsCovered(seeds, queue, visited, log, maxDepth, baseUrl, excludePatterns);
    SeedsSourced(seeds, queue, log, maxDepth);
    SeedsShallowest(seeds, queue, log, maxDepth, baseUrl, excludePatterns);
  }

  /** The state invariant of the crawler, over values: no URL rendered twice, `visited` is
      exactly the rendered URLs, each was within the depth limit and in scope, documents carry
      their page's URL and depth, and the stored documents are the kept ones in order. */
  ghost predicate Consistent(log: seq<Visit>, visited: set<string>, documents: seq<Doc>, baseUrl: string, maxDepth: int, excludePatterns: seq<string>) {
    (forall i, j :: 0 <= i < j < |log| ==> log[i].url != log[j].url) &&
    visited == VisitedUrls(log) &&
    (forall i :: 0 <= i < |log| ==>
      0 <= log[i].depth <= maxDepth && InScope(log[i].url, baseUrl, excludePatterns) &&
      (log[i].doc.Some? ==> log[i].doc.value.url == log[i].url && log[i].doc.value.depthLevel == log[i].depth)) &&
    documents == Kept(log)
  }

  /** A sequence is its prefix followed by the rest. */
  lemma PrefixSplit(a: seq<Visit>, b: seq<Visit>)
    requires a <= b
    ensures b == a + b[|a|..]
  {
  }

  /** The documents a visit adds. */
  function KeptOf(v: Visit): seq<Doc> {
    if IsKept(v) then [v.doc.value] else []
  }

  lemma KeptSnoc(log: seq<Visit>, v: Visit)
    ensures Kept(log + [v]) == Kept(log) + KeptOf(v)
  {
    assert (log + [v])[..|log|] == log;
  }

  /** Rendering a new, in-scope URL within the depth limit keeps the state consistent. */
  lemma ConsistentSnoc(log: seq<Visit>, visited: set<string>, documents: seq<Doc>, v: Visit, baseUrl: string, maxDepth: int, excludePatterns: seq<string>)
    requires Consistent(log, visited, documents, baseUrl, maxDepth, excludePatterns)
    requires v.url !in visited && 0 <= v.depth <= maxDepth && InScope(v.url, baseUrl, excludePatterns)
    requires v.doc.Some? ==> v.doc.value.url == v.url && v.doc.value.depthLevel == v.depth
    ensures Consistent(log + [v], visited + {v.url}, documents + KeptOf(v), baseUrl, maxDepth, excludePatterns)
  {
    var log' := log + [v];
    KeptSnoc(log, v);
    assert forall i :: 0 <= i < |log| ==> log'[i] == log[i];
    assert log'[|log|] == v;
  }

  /** What a crawl that started from `oldLog` has achieved once its frontier is empty: the
      stored documents grew by the kept ones among the new visits; each new visit holds the
      renderer's output; every required URL is visited; every new visit has a source; and the
      new visits are breadth-first. */
  lemma CrawlDone(oldLog: seq<Visit>, oldDocuments: seq<Doc>, log: seq<Visit>, visited: set<string>, documents: seq<Doc>, seeds: seq<string>,
                  top: int, maxDepth: int, baseUrl: string, excludePatterns: seq<string>, render: string -> Fetch, urlJoin: (string, string) -> string)
    requires oldLog <= log && oldDocuments == Kept(oldLog)
    requires Consistent(log, visited, documents, baseUrl, maxDepth, excludePatterns)
    requires Rendered(log[|oldLog|..], render, baseUrl, urlJoin)
    requires Frontier([], visited, seeds, log, |oldLog|, top, maxDepth, baseUrl, excludePatterns)
    ensures documents == oldDocuments + Kept(log[|oldLog|..])
    ensures forall i :: |oldLog| <= i < |log| ==>
      log[i].doc == ProcessPage(render(log[i].url), log[i].url, log[i].depth, baseUrl, urlJoin)
    ensures maxDepth >= 0 ==> forall u :: u in seeds && InScope(u, baseUrl, excludePatterns) ==> u in visited
    ensures forall i :: |oldLog| <= i < |log| && log[i].depth < maxDepth && log[i].doc.Some? ==>
      forall l :: l in log[i].doc.value.links && InScope(l, baseUrl, excludePatterns) ==> l in visited
    ensures forall i :: |oldLog| <= i < |log| ==> Origin(log[i].url, log[i].depth, seeds, log, |oldLog|, i, maxDepth)
    ensures BreadthFirstLog(log, |oldLog|, seeds, maxDepth)
  {
    var start := |oldLog|;
    PrefixSplit(oldLog, log);
    KeptAppend(oldLog, log[start..]);
    RenderedLog(log, start, render, baseUrl, urlJoin);
    CoveredWhenEmpty(visited, seeds, log, start, maxDepth, baseUrl, excludePatterns);
    ShallowestWhenEmpty(seeds, log, start, visited, documents, maxDepth, baseUrl, excludePatterns);
  }

  /** Every visit in `visits` holds what rendering its URL produced. Stated recursively,
      visit by visit; `RenderedEach` gives the indexed form. */
  ghost predicate Rendered(visits: seq<Visit>, render: string -> Fetch, baseUrl: string, urlJoin: (string, string) -> string)
    decreases |visits|
  {
    visits == [] ||
    (Rendered(visits[..|visits| - 1], render, baseUrl, urlJoin) &&
     var v := visits[|visits| - 1];
     v.doc == ProcessPage(render(v.url), v.url, v.depth, baseUrl, urlJoin))
  }

  lemma {:induction false} RenderedEach(visits: seq<Visit>, render: string -> Fetch, baseUrl: string, urlJoin: (string, string) -> string)
    requires Rendered(visits, render, baseUrl, urlJoin)
    ensures forall i :: 0 <= i < |visits| ==>
      visits[i].doc == ProcessPage(render(visits[i].url), visits[i].url, visits[i].depth, baseUrl, urlJoin)
    decreases |visits|
  {
    if visits != [] {
      var init := visits[..|visits| - 1];
      RenderedEach(init, render, baseUrl, urlJoin);
      assert forall i :: 0 <= i < |init| ==> init[i] == visits[i];
    }
  }

  /** The rendered visits of a log from position `start` on, by index into the log. */
  lemma RenderedLog(log: seq<Visit>, start: nat, render: string -> Fetch, baseUrl: string, urlJoin: (string, string) -> string)
    requires start <= |log| && Rendered(log[start..], render, baseUrl, urlJoin)
    ensures forall i :: start <= i < |log| ==>
      log[i].doc == ProcessPage(render(log[i].url), log[i].url, log[i].depth, baseUrl, urlJoin)
  {
    RenderedEach(log[start..], render, baseUrl, urlJoin);
    assert forall i :: start <= i < |log| ==> log[i] == log[start..][i - start];
  }

  lemma RenderedSnoc(log: seq<Visit>, start: nat, v: Visit, render: string -> Fetch, baseUrl: string, urlJoin: (string, string) -> string)
    requires start <= |log| && Rendered(log[start..], render, baseUrl, urlJoin)
    requires v.doc == ProcessPage(render(v.url), v.url, v.depth, baseUrl, urlJoin)
    ensures Rendered((log + [v])[start..], render, baseUrl, urlJoin)
  {
    var w := (log + [v])[start..];
    assert w[..|w| - 1] == log[start..] && w[|w| - 1] == v;
  }

  /** The crawler: its configuration and the state the crawl updates in place. `log` records,
      in order, every page rendered. */
  class WebCrawler {
    const baseUrl: string
    const maxDepth: int
    const excludePatterns: seq<string>
    var visited: set<string>
    var documents: seq<Doc>
    ghost var log: seq<Visit>

    /** No URL is rendered twice; `visited` holds exactly the rendered URLs; each was within
        the depth limit and in scope; documents carry their page's URL and depth; and the stored
        documents are the kept ones, in rendering order. */
    ghost predicate Valid()
      reads this
    {
      Consistent(log, visited, documents, baseUrl, maxDepth, excludePatterns)
    }

    /** The state between turns of a crawl that started at log position `start`: the crawler
        is valid, every page rendered since is the renderer's output, and the frontier meets
        `Frontier`. */
    ghost predicate Crawling(queue: seq<Item>, seeds: seq<string>, start: nat, top: int, render: string -> Fetch, urlJoin: (string, string) -> string)
      reads this
    {
      Valid() && top == (if maxDepth < 0 then 0 else maxDepth) &&
      start <= |log| && Rendered(log[start..], render, baseUrl, urlJoin) &&
      Frontier(queue, visited, seeds, log, start, top, maxDepth, baseUrl, excludePatterns)
    }

    /** `WebCrawler.__init__`. */
    constructor(baseUrl: string, maxDepth: int, excludePatterns: seq<string>)
      ensures this.baseUrl == baseUrl && this.maxDepth == maxDepth && this.excludePatterns == excludePatterns
      ensures visited == {} && documents == [] && log == []
      ensures Valid()
    {
      this.baseUrl := baseUrl;
      this.maxDepth := maxDepth;
      this.excludePatterns := excludePatterns;
      visited := {};
      documents := [];
      log := [];
    }

    /** The body of the `try` block up to the storing of the document: mark the URL
        visited, render it, extract its document and store the document unless it is thin. */
    method VisitPage(item: Item, render: string -> Fetch, urlJoin: (string, string) -> string, ghost start: nat) returns (doc: Option<Doc>)
      requires Valid() && start <= |log| && Rendered(log[start..], render, baseUrl, urlJoin)
      requires 0 <= item.depth <= maxDepth && item.url !in visited && InScope(item.url, baseUrl, excludePatterns)
      modifies this
      ensures visited == old(visited) + {item.url}
      ensures doc == ProcessPage(render(item.url), item.url, item.depth, baseUrl, urlJoin)
      ensures documents == old(documents) + KeptOf(Visit(item.url, item.depth, doc))
      ensures log == old(log) + [Visit(item.url, item.depth, doc)]
      ensures Valid() && Rendered(log[start..], render, baseUrl, urlJoin)
    {
      visited := visited + {item.url};
      doc := ProcessPage(render(item.url), item.url, item.depth, baseUrl, urlJoin);
      ghost var v := Visit(item.url, item.depth, doc);
      ConsistentSnoc(log, old(visited), documents, v, baseUrl, maxDepth, excludePatterns);
      RenderedSnoc(log, start, v, render, baseUrl, urlJoin);
      if doc.Some? && |doc.value.content| >= MinContentLength {
        documents := documents + [doc.value];
      }
      log := log + [v];
    }

    /** One turn of the `while queue` loop on the front entry of `queue`: drop it when it is
        too deep or fails `should_crawl`, leaving the state as it was; otherwise mark it
        visited, render it, store its document unless thin and, when there is a document and
        the entry is below the depth limit, offer the page's links. Returns the frontier for
        the next turn. */
    method Step(queue: seq<Item>, render: string -> Fetch, urlJoin: (string, string) -> string,
                ghost top: int, ghost seeds: seq<string>, ghost start: nat) returns (q: seq<Item>)
      requires queue != [] && Crawling(queue, seeds, start, top, render, urlJoin)
      modifies this
      ensures Crawling(q, seeds, start, top, render, urlJoin)
      ensures old(visited) <= visited && old(log) <= log && RanksBelow(q, queue, top)
      ensures Dropped(queue[0], old(visited)) ==>
        log == old(log) && visited == old(visited) && documents == old(documents) && q == queue[1..]
      ensures !Dropped(queue[0], old(visited)) ==>
        var doc := ProcessPage(render(queue[0].url), queue[0].url, queue[0].depth, baseUrl, urlJoin);
        var v := Visit(queue[0].url, queue[0].depth, doc);
        log == old(log) + [v] && visited == old(visited) + {queue[0].url} &&
        documents == old(documents) + KeptOf(v) &&
        if doc.Some? && queue[0].depth < maxDepth then Offered(queue[1..], q, visited, doc.value.links, queue[0].depth)
        else q == queue[1..]
    {
      var item := queue[0];
      var rest := queue[1..];
      if item.depth > maxDepth || !ShouldCrawl(item.url, visited, baseUrl, excludePatterns) {
        PopAndAppend(queue, rest, top);
        DropFront(queue, visited, seeds, log, start, maxDepth, baseUrl, excludePatterns);
        SourcedDrop(queue, seeds, log, start, maxDepth);
        ShallowestDrop(queue, seeds, log, start, visited, maxDepth, top, baseUrl, excludePatterns);
        return rest;
      }
      VisitFront(queue, visited, seeds, log, start, maxDepth, baseUrl, excludePatterns);
      ghost var log0 := log;
      var doc := VisitPage(item, render, urlJoin, start);
      q := rest;
      if doc.Some? && item.depth < maxDepth {
        q := OfferLinks(rest, visited, doc.value.links, item.depth);
      }
      ghost var v := Visit(item.url, item.depth, doc);
      LogSourcedSnoc(queue, seeds, log0, v, start, maxDepth);
      QueueSourcedSnoc(queue, q, seeds, log0, v, start, maxDepth);
      PopAndAppend(queue, q, top);
      ShallowestVisit(queue, q, seeds, log0, v, visited, start, maxDepth, top, baseUrl, excludePatterns);
      RecordVisit(rest, q, visited, seeds, log0, v, start, maxDepth, baseUrl, excludePatterns);
    }

    /** The front entry is discarded without rendering: beyond the depth limit, or rejected
        by `should_crawl` against `visited`. */
    predicate Dropped(item: Item, visited: set<string>)
    {
      item.depth > maxDepth || !ShouldCrawl(item.url, visited, baseUrl, excludePatterns)
    }

    /** `WebCrawler.crawl`: seeds at depth 0, then first-in first-out until the frontier is
        empty. */
    method Crawl(startUrls: seq<string>, render: string -> Fetch, urlJoin: (string, string) -> string) returns (docs: seq<Doc>)
      requires Valid()
      modifies this
      ensures Valid() && docs == documents
      ensures old(log) <= log && old(visited) <= visited
      ensures documents == old(documents) + Kept(log[|old(log)|..])
      ensures forall i :: |old(log)| <= i < |log| ==>
        log[i].doc == ProcessPage(render(log[i].url), log[i].url, log[i].depth, baseUrl, urlJoin)
      ensures maxDepth >= 0 ==> forall u :: u in startUrls && InScope(u, baseUrl, excludePatterns) ==> u in visited
      ensures forall i :: |old(log)| <= i < |log| && log[i].depth < maxDepth && log[i].doc.Some? ==>
        forall l :: l in log[i].doc.value.links && InScope(l, baseUrl, excludePatterns) ==> l in visited
      ensures forall i :: |old(log)| <= i < |log| ==>
        Origin(log[i].url, log[i].depth, startUrls, log, |old(log)|, i, maxDepth)
      ensures BreadthFirstLog(log, |old(log)|, startUrls, maxDepth)
    {
      var top := if maxDepth < 0 then 0 else maxDepth;
      var queue := seq(|startUrls|, i requires 0 <= i < |startUrls| => Item(startUrls[i], 0));
      ghost var start := |log|;
      SeedsFrontier(startUrls, queue, visited, log, top, maxDepth, baseUrl, excludePatterns);
      while queue != []
        invariant Crawling(queue, startUrls, start, top, render, urlJoin)
        invariant old(log) <= log && start == |old(log)| && old(visited) <= visited
        decreases Level(queue, top), Width(queue)
      {
        queue := Step(queue, render, urlJoin, top, startUrls, start);
      }
      CrawlDone(old(log), old(documents), log, visited, documents, startUrls, top, maxDepth, baseUrl, excludePatterns, render, urlJoin);
      docs := documents;
    }
  }
}
