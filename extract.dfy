/** `WebCrawler.extract_content` (crawler.py lines 37-86) over an already parsed page: the
    title choice, the link list and the Markdown clean-up. The parser's work (dropping noise
    elements, collecting heading texts and hrefs, picking the main region and converting it
    to Markdown) arrives as the fields of a `Page`. */
module Extract {
  import opened Text
  import opened Optional
  import opened Links
  import opened Markdown

  /** `soup.title`: absent, or present with its `.string`, which is `None` when the element
      does not hold exactly one piece of text. */
  datatype TitleTag = NoTitleTag | TitleTag(str: Option<string>)

  /** What the parser yields for one rendered page. */
  datatype Page = Page(title: TitleTag, headings: seq<string>, hrefs: seq<string>, markdown: string)

  /** The dictionary `extract_content` returns. */
  datatype Extracted = Extracted(title: string, headings: seq<string>, content: string, links: seq<string>)

  const Untitled: string := "Untitled"

  /** The title before clean-up: the `<title>` string, or else the URL's last `/`-separated
      segment. */
  function TitleCandidate(tag: TitleTag, url: string): Option<string> {
    match tag
    case NoTitleTag => Some(AfterLast(url, '/'))
    case TitleTag(s) => s
  }

  /** `title.strip() if title else "Untitled"`: a missing or empty candidate gives
      "Untitled", any other is stripped of surrounding whitespace. */
  function ChooseTitle(tag: TitleTag, url: string): (r: string)
    ensures var c := TitleCandidate(tag, url);
      if c.None? || c.value == [] then r == Untitled else IsStripped(c.value, r)
    ensures r != [] ==> !IsSpace(r[0]) && !IsSpace(r[|r| - 1])
  {
    var c := TitleCandidate(tag, url);
    if c.None? || c.value == [] then Untitled else Strip(c.value)
  }

  /** The title is empty exactly when the candidate is a non-empty run of whitespace
      (such as `<title> </title>`); otherwise it is never empty. */
  lemma TitleEmptyIff(tag: TitleTag, url: string)
    ensures var c := TitleCandidate(tag, url);
      ChooseTitle(tag, url) == [] <==> c.Some? && c.value != [] && AllSpace(c.value)
  {
    var c := TitleCandidate(tag, url);
    if c.Some? && c.value != [] {
      assert ChooseTitle(tag, url) == Strip(c.value);
      StripEmptyIff(c.value);
    } else {
      assert ChooseTitle(tag, url) == Untitled;
    }
  }

  /** Without a `<title>`, the URL's last segment is the title when it has no surrounding
      whitespace, and a URL ending in `/` is "Untitled". */
  lemma TitleFromUrl(prefix: string, segment: string)
    requires prefix == [] || prefix[|prefix| - 1] == '/'
    requires '/' !in segment
    requires segment != [] ==> !IsSpace(segment[0]) && !IsSpace(segment[|segment| - 1])
    ensures ChooseTitle(NoTitleTag, prefix + segment) == if segment == [] then Untitled else segment
  {
    var url := prefix + segment;
    assert url[|url| - |segment|..] == segment;
    AfterLastUnique(url, '/', segment);
    if segment != [] {
      StripFixed(segment);
    }
  }

  /** The text after the last `c` is the only suffix without `c` that is the whole string or
      follows a `c`. */
  lemma AfterLastUnique(s: string, c: char, t: string)
    requires |t| <= |s| && s[|s| - |t|..] == t && c !in t
    requires |t| < |s| ==> s[|s| - |t| - 1] == c
    ensures AfterLast(s, c) == t
  {
  }

  /** `extract_content` after parsing: the chosen title, the headings as parsed, the cleaned
      Markdown, and the deduplicated link list. */
  function ExtractContent(page: Page, url: string, baseUrl: string, urlJoin: (string, string) -> string): (e: Extracted)
    ensures e.title == ChooseTitle(page.title, url) && e.headings == page.headings
    ensures e.content == CleanMarkdown(page.markdown)
    ensures NoTripleNewline(e.content)
    ensures e.content != [] ==> !IsSpace(e.content[0]) && !IsSpace(e.content[|e.content| - 1])
    ensures NoDuplicates(e.links)
    ensures forall l :: l in e.links <==> exists h :: h in page.hrefs && AcceptHref(h, url, baseUrl, urlJoin) == Some(l)
  {
    CleanMarkdownWellFormed(page.markdown);
    Extracted(ChooseTitle(page.title, url), page.headings, CleanMarkdown(page.markdown),
              Dedup(ExtractLinks(page.hrefs, url, baseUrl, urlJoin)))
  }
}
