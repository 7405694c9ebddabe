# Web crawler core, modelled in Dafny

This project models the crawl core of `crawler.py`, a single-site crawler that renders pages in
a headless browser and keeps a cleaned Markdown document per page. The model covers four parts:

- the scope rules of `WebCrawler.should_crawl`;
- the decisions `WebCrawler.extract_content` makes once the page is parsed. These are the title
  choice, link resolution, filtering and deduplication, and the Markdown clean-up (removing the
  "You need to enable JavaScript" notice, collapsing runs of newlines, stripping whitespace);
- the breadth-first loop of `WebCrawler.crawl`, with its `visited` set and `documents` list;
- the crawler's own state, `WebCrawler.__init__`.

Modules:

- `Text`: the Python `str` operations the code relies on. These are `in`, `split(c)[0]`,
  `split(c)[-1]` and `strip()`, using the exact `str.isspace` character set, plus ASCII case
  folding.
- `Scope`: `should_crawl`, including the fact that Python's `$` also matches before a final
  newline.
- `Links`: the href loop and `list(set(links))`.
- `Markdown`: the two `re.sub` calls and `.strip()`.
- `Extract`: the title and the `extract_content` dictionary.
- `Crawl`: the `WebCrawler` class (fields updated in place by its methods), the frontier loop
  and the proofs of breadth-first order, termination and coverage.

The browser is a parameter `render: string -> Fetch`. It returns either `FetchFailed`, meaning
any exception between `page.goto` and the end of `extract_content`, or the parsed `Page`. The
parsed page holds the title tag, heading texts, hrefs and the Markdown of the main region.
`urllib.parse.urljoin` is a parameter `urlJoin`.

The crawl's main results, all proved:

- no URL is rendered twice;
- `visited` is exactly the set of rendered URLs;
- every rendered URL was within the depth limit and in scope;
- the stored documents are exactly the rendered documents with at least 100 characters, in
  rendering order;
- pages are rendered in order of depth; a rendered seed is rendered at depth 0, and a rendered
  link of a page below the depth limit at most one level below that page;
- the frontier stays in breadth-first shape, and its rank `(levels left, entries at the front
  depth)` drops strictly each turn, so the loop terminates on every input without assuming a
  finite set of URLs;
- when the loop ends, every in-scope seed, and every in-scope link of every page rendered below
  the depth limit, has been visited.

The model follows the code, apart from the differences listed under "Left out". It keeps
these behaviours of the code, which a reader might not expect:

- A `<title>` made only of whitespace gives the empty title, not "Untitled". `Extract.TitleEmptyIff`
  states exactly when this happens.
- Links lose their fragment and query but keep a trailing slash, so `/a` and `/a/` are different
  URLs.
- Seeds are queued without the scope check. They are filtered when dequeued.
- Links of a thin page (under 100 characters) are still offered to the frontier. Only the
  document is dropped.
- A failed render skips both the link offering and the delay.
- A negative `max_depth` is accepted. The crawl then renders nothing.

## Model

| member | source | states |
|---|---|---|
| Text.Contains | crawler.py:30 | `pattern in url` holds exactly when the pattern occurs at some position of the URL |
| Text.BeforeFirst | crawler.py:63 | `split(c)[0]` is a prefix of the input without `c`, followed by `c` whenever it is shorter |
| Text.AfterLast | crawler.py:49 | `split(c)[-1]` is a suffix without `c`, preceded by `c` whenever it is shorter |
| Text.Lower | crawler.py:33 | ASCII case folding: each upper-case letter maps to the lower-case letter at the same place in the alphabet, and everything else is unchanged |
| Text.Strip | crawler.py:50 | `strip()` returns the middle of the string, with only whitespace around it and no whitespace at either end |
| Text.StripIdempotent | crawler.py:50 | stripping twice is stripping once |
| Text.StripFixed | crawler.py:50 | a string without whitespace at either end is unchanged by `strip()` |
| Text.StripEmptyIff | crawler.py:50 | `strip()` yields the empty string exactly when the input is all whitespace |
| Scope.IsMediaFile | crawler.py:33 | defines the regex search: the URL ends in `.` and a media extension, ignoring ASCII case, at the very end or just before a final newline |
| Scope.Excluded | crawler.py:29-31 | the exclusion loop rejects exactly when some pattern occurs in the URL |
| Scope.ShouldCrawl | crawler.py:23-35 | true exactly when the URL is not visited, starts with the base URL, contains no exclusion pattern and does not end (or end before a final newline) in `.` plus a media extension, ignoring case |
| Links.StripFragmentAndQuery | crawler.py:63 | the result is a prefix of the href without `#` or `?`, cut exactly at the first marker |
| Links.StripFragmentAndQueryUnique | crawler.py:63 | that prefix is the only one with those properties |
| Links.StripFragmentAndQueryIdempotent | crawler.py:63 | cutting a second time changes nothing |
| Links.SameUpToMarker | crawler.py:63 | two hrefs that agree up to a first `#` or `?` give the same link |
| Links.StripFragmentAndQueryAfterBare | crawler.py:62-63 | a marker-free base URL survives the cut, so accepted links stay under it |
| Links.Resolve | crawler.py:57-60 | defines href resolution: a root-relative href is appended to the base URL, one not starting with `http` goes through `urljoin`, and any other is kept |
| Links.AcceptHref | crawler.py:55-65 | an accepted href is non-empty, its resolved target starts with the base URL, and the link is non-empty, free of `#` and `?`, not the page itself, and under a marker-free base URL |
| Links.RootRelativeHref | crawler.py:57-65 | an href starting with `/` becomes the base URL plus the href cut at its first marker, unless that is the page's own URL |
| Links.ExtractLinks | crawler.py:53-65 | a string is in `links` exactly when some href of the page is accepted as that string |
| Links.Dedup | crawler.py:85 | `list(set(links))` has no duplicates, has the same members, and is no longer |
| Links.ExtractedLinksWellFormed | crawler.py:53-85 | the returned links are distinct, non-empty, bare, never the page itself, and under a marker-free base URL |
| Markdown.FullStopEnd | crawler.py:78 | the non-greedy `.*?\.` ends just past the first full stop, and fails when a newline or the end comes first |
| Markdown.NoticeAt | crawler.py:78 | the match at the start of the text is the shortest prefix matching the notice pattern case-insensitively, and there is none exactly when no prefix matches |
| Markdown.RemoveNotices | crawler.py:78 | removing notices never lengthens the text |
| Markdown.RemoveNoticesDrops | crawler.py:78 | a notice sentence matched at the scan position (no shorter prefix matches) is removed whole, and the scan resumes right after it |
| Markdown.RemoveNoticesKeeps | crawler.py:78 | text in which no notice starts is kept unchanged, ahead of whatever the rest becomes |
| Markdown.RemoveNoticesFixedIff | crawler.py:78 | removal changes nothing exactly when no position starts a notice sentence |
| Markdown.NewlineRun | crawler.py:79 | the length of the leading run of newlines: all newlines, followed by a non-newline |
| Markdown.CollapseNewlines | crawler.py:79 | the result is no longer, empty exactly when the input is, and starts with a newline exactly when the input does |
| Markdown.CollapseNoTriple | crawler.py:79 | collapsing leaves no three newlines in a row |
| Markdown.CollapseFixedIff | crawler.py:79 | collapsing changes nothing exactly when there are no three newlines in a row |
| Markdown.CleanMarkdown | crawler.py:78-79 | defines the clean-up as notice removal, then newline collapsing, then `strip()` |
| Markdown.StripKeepsNoTripleNewline | crawler.py:79 | `strip()` cannot create three newlines in a row |
| Markdown.CleanMarkdownWellFormed | crawler.py:78-79 | cleaned Markdown has no three newlines in a row and no whitespace at either end |
| Markdown.CollapseStripIdempotent | crawler.py:79 | collapsing and stripping a second time changes nothing |
| Markdown.CollapseKeepsLine | crawler.py:79 | text before the first newline passes through collapsing unchanged |
| Markdown.CollapseRun | crawler.py:79 | a run of `k` newlines becomes `min(k, 2)` newlines |
| Markdown.CollapseLine | crawler.py:79 | a single line is unchanged by collapsing |
| Markdown.CollapseRunThenLine | crawler.py:79 | a run of `k` newlines followed by one line becomes `min(k, 2)` newlines followed by that line |
| Markdown.CollapseBetweenLines | crawler.py:79 | two lines separated by `k` newlines become the same lines separated by `min(k, 2)` newlines |
| Markdown.ShortTextNoNotice | crawler.py:78 | a text shorter than the notice holds no notice sentence |
| Markdown.CleanMarkdownExample | crawler.py:78-79 | `"Para one.\n\n\n\n\nPara two."` cleans up to `"Para one.\n\nPara two."` |
| Markdown.CleanTwoParagraphs | crawler.py:78-79 | two notice-free paragraphs separated by `k` newlines clean up to the same paragraphs separated by `min(k, 2)` newlines (so five newlines become two) |
| Extract.TitleCandidate | crawler.py:49 | defines the title before clean-up: the `<title>` string (possibly absent), or the URL's last `/`-separated segment when there is no `<title>` |
| Extract.ChooseTitle | crawler.py:49-50 | a missing or empty candidate gives "Untitled", any other candidate is stripped, and the title never has whitespace at either end |
| Extract.TitleEmptyIff | crawler.py:49-50 | the title is empty exactly when the candidate is a non-empty run of whitespace |
| Extract.TitleFromUrl | crawler.py:49-50 | without a `<title>`, a last path segment with no whitespace at either end is the title, and a URL ending in `/` is "Untitled" |
| Extract.AfterLastUnique | crawler.py:49 | the text after the last separator is the only separator-free suffix that follows a separator or is the whole string |
| Extract.ExtractContent | crawler.py:37-86 | the dictionary holds the chosen title, the parsed headings, the cleaned Markdown (no triple newline, no surrounding whitespace) and the distinct accepted links, each accepted from some href |
| Crawl.ProcessPage | crawler.py:119-123 | a document exists exactly when rendering succeeded, and carries the page's URL and depth |
| Crawl.ProcessPageWellFormed | crawler.py:119-123 | a rendered page's document has cleaned content and distinct, bare, in-scope links that differ from the page |
| Crawl.IsKept | crawler.py:125 | defines the storing test: the visit has a document with at least 100 characters of content |
| Crawl.Kept | crawler.py:125-126 | defines the stored documents of a run of visits, in visit order |
| Crawl.KeptIff | crawler.py:125-126 | a document is kept exactly when some visit produced it with at least 100 characters of content |
| Crawl.KeptAppend | crawler.py:125-126 | the kept documents of two runs of visits are those of the first, then those of the second |
| Crawl.KeptSnoc | crawler.py:125-126 | one more visit adds its document exactly when it is not thin |
| Crawl.CountAtDepthAppend | crawler.py:132 | entries appended at another depth do not change the count at a depth |
| Crawl.CountAtDepthNone | crawler.py:132 | a frontier with no entry at a depth counts none there |
| Crawl.OfferLinks | crawler.py:129-132 | the frontier is only extended; each new entry is a link of the page, one level deeper, unvisited and new to the frontier; every link ends up visited or queued |
| Crawl.PopAndAppend | crawler.py:100-132 | popping the front and appending entries one level deeper keeps the frontier breadth-first and strictly lowers its rank |
| Crawl.TailOneDeeper | crawler.py:132 | the appended tail of the frontier lies one level below the popped entry |
| Crawl.PopAndAppendShape | crawler.py:101-132 | the frontier after a turn has depths in bounds, non-decreasing, spanning at most one level |
| Crawl.PopAndAppendRank | crawler.py:101-132 | the frontier after a turn has fewer levels left, or as many with fewer entries at its front depth |
| Crawl.SeedsCovered | crawler.py:92 | the seeded frontier holds every seed |
| Crawl.CoveredWhenEmpty | crawler.py:100 | once the frontier is empty, every in-scope seed and every in-scope link of a page rendered below the limit is visited |
| Crawl.DropFront | crawler.py:101-103 | discarding an entry that is too deep or fails `should_crawl` loses no URL that must be reached |
| Crawl.VisitFront | crawler.py:101-107 | popping and marking the front URL visited loses no URL that must be reached |
| Crawl.RecordVisit | crawler.py:129-132 | after a visit whose links are all visited or queued, every URL that must be reached still is |
| Crawl.OriginGrow | crawler.py:129-132 | a URL's source among the rendered pages stays its source as more pages are rendered |
| Crawl.SeedsSourced | crawler.py:92 | every entry of the seeded frontier is a seed at depth 0 |
| Crawl.SourcedDrop | crawler.py:101-103 | discarding the front entry keeps every remaining entry's source |
| Crawl.LogSourcedSnoc | crawler.py:101-108 | the URL rendered next is a seed at depth 0 or a link, one level deeper, of a page rendered before it |
| Crawl.QueueSourcedSnoc | crawler.py:129-132 | after a visit, every frontier entry is a seed at depth 0 or a link, one level deeper, of a rendered page below the limit |
| Crawl.SeedsShallowest | crawler.py:92 | before anything is rendered, every seed waits in the frontier at depth 0 |
| Crawl.ReachedDrop | crawler.py:101-103 | discarding the front entry keeps a URL reached no deeper than before: if the entry was its only witness, the URL is out of scope or already rendered no deeper |
| Crawl.ReachedVisit | crawler.py:101-108 | rendering the front entry keeps a URL reached no deeper than before |
| Crawl.ReachedLink | crawler.py:129-132 | a link of a page rendered at depth `d` that is visited or queued is reached at most `d + 1` deep |
| Crawl.ShallowestDrop | crawler.py:101-103 | discarding the front entry keeps pages rendered in depth order, none deeper than the front, and every seed and link reached no deeper than its breadth-first depth |
| Crawl.ShallowestVisit | crawler.py:101-132 | rendering the front entry and offering its links keeps the same breadth-first facts |
| Crawl.ShallowestWhenEmpty | crawler.py:100 | once the frontier is empty, pages were rendered in depth order, a rendered seed at depth 0, and a rendered link of a page below the limit at most one level below it |
| Crawl.SeedsFrontier | crawler.py:92 | the seeded frontier meets every frontier invariant of the loop |
| Crawl.CrawlDone | crawler.py:100-141 | when the frontier is empty, the stored documents grew by the kept new visits, each new visit is the renderer's output, every required URL is visited, every new visit has a source, and the new visits are breadth-first |
| Crawl.ConsistentSnoc | crawler.py:105-126 | rendering a new in-scope URL within the limit keeps the crawler state consistent |
| Crawl.RenderedEach | crawler.py:119-123 | each recorded visit holds what rendering its URL produced |
| Crawl.RenderedLog | crawler.py:119-123 | the same, indexed from a position of the crawler's log |
| Crawl.RenderedSnoc | crawler.py:119-123 | adding the document rendered for a URL keeps the log faithful to the renderer |
| Crawl.WebCrawler.constructor | crawler.py:16-21 | the configuration is stored, `visited` and `documents` start empty, and the state is consistent |
| Crawl.WebCrawler.VisitPage | crawler.py:105-126 | the URL is added to `visited`; the document is what the renderer's page yields; `documents` gains it exactly when it has at least 100 characters; the log gains exactly this visit; the state stays consistent |
| Crawl.WebCrawler.Step | crawler.py:100-133 | an entry that is too deep or fails `should_crawl` is dropped with log, `visited` and `documents` unchanged and the rest of the frontier returned; otherwise exactly that URL is rendered and recorded, its document stored unless thin, and the frontier becomes the rest plus exactly the entries `OfferLinks` promises (none on failure or at the depth limit); the frontier stays breadth-first, sourced and covering, rendering stays in depth order, and the frontier's rank drops |
| Crawl.WebCrawler.Crawl | crawler.py:88-141 | returns `documents`; new documents are the kept renders in order; every render is the renderer's output for its URL; each rendered URL is a seed at depth 0 or a link, one level deeper, of a page rendered earlier below the limit; pages are rendered in depth order, a rendered seed at depth 0, and a rendered link of a page below the limit at most one level below that page; every in-scope seed and every in-scope link of a page below the limit is visited; the loop terminates |

## Left out

- Rendering (crawler.py:94-119): launching Chromium, `page.goto`, the waits and the scroll are
  the `render` parameter. The inner `try`/`except` around the waits cannot change the outcome
  beyond what `render` returns.
- Parsing (crawler.py:40-48, 51, 68-76): dropping noise elements and base64 images, collecting
  heading texts, choosing the main region and running `markdownify`. These are DOM and library
  work; their results are the fields of `Page`.
- `urllib.parse.urljoin` is a parameter; its URL-resolution rules are not modelled.
- `time.sleep(request_delay)` and the `print` calls are left out, and `request_delay` is not a
  parameter. The model treats `print` as never raising.
- The `print` at crawler.py:106 runs before `self.visited.add`. If it raised (for example on
  a console that cannot encode its emoji), the `except` at crawler.py:136-138 would skip the
  entry, so the URL would be neither marked visited nor rendered. The model always marks and
  renders it.
- main.py (configuration loading, output files) is not part of this model.
- Links.Dedup: Python's `list(set(...))` has an order set by string hashing. The model keeps the
  last occurrence of each link, so only the members and their distinctness are faithful, not
  the order.
- Text.Lower: `re.IGNORECASE` also folds some non-ASCII letters: `ı` (dotless i) and `İ` match
  `i`, and `ſ` (long s) matches `s`. Only ASCII folding is modelled. So a URL ending in, say,
  `.gıf` or `.zİp` is a media file for Python but not for the model, and a notice written with
  such a letter in "JavaScript" is removed by Python but kept by the model.
- Crawl.WebCrawler.Crawl: the renderer is a function of the URL, so rendering the same URL twice
  would give the same page. This changes nothing, because no URL is rendered twice.
- If the `print` at crawler.py:127 raised, the document would already be stored but its links
  would not be offered. If the `print` in the `except` (crawler.py:137) raised, the crawl would
  end with that exception. Neither is modelled.
- Crawl.WebCrawler.Crawl: `crawl` returns `self.documents` itself (crawler.py:141), so a later
  `crawl()` call on the same crawler also grows the list an earlier call returned. The model
  returns the sequence's value, so this aliasing is not captured.
