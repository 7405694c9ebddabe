/** The crawler's scope rules (`WebCrawler.should_crawl`, crawler.py lines 23-35): which
    URLs may be fetched, given what was already visited, the base URL, the configured
    exclusion substrings and a fixed list of media file extensions. */
module Scope {
  import opened Text

  /** File extensions that are never fetched, matched case-insensitively at the end of a URL. */
  const MediaExtensions: seq<string> := ["jpg", "jpeg", "png", "gif", "pdf", "zip", "exe"]

  /** `s` ends in `.` followed by `ext`, ignoring case. */
  predicate EndsWithExtension(s: string, ext: string) {
    |s| > |ext| && s[|s| - |ext| - 1] == '.' && EqualsIgnoreCase(s[|s| - |ext|..], ext)
  }

  predicate EndsWithMediaExtension(s: string) {
    exists ext :: ext in MediaExtensions && EndsWithExtension(s, ext)
  }

  /** The regex `\.(jpg|jpeg|png|gif|pdf|zip|exe)$` under `re.I` finds a match in `url`.
      Python's `$` matches at the very end and also just before a final newline. */
  predicate IsMediaFile(url: string) {
    EndsWithMediaExtension(url) ||
    (|url| > 0 && url[|url| - 1] == '\n' && EndsWithMediaExtension(url[..|url| - 1]))
  }

  /** Some configured pattern occurs in `url`: the `for pattern in self.exclude_patterns` loop. */
  function Excluded(url: string, patterns: seq<string>): (r: bool)
    ensures r <==> exists p :: p in patterns && IsInfix(p, url)
  {
    if patterns == [] then false
    else if Contains(url, patterns[0]) then true
    else
      assert forall p :: p in patterns ==> p == patterns[0] || p in patterns[1..];
      Excluded(url, patterns[1..])
  }

  /** The three rules that do not depend on the crawl's history. */
  ghost predicate InScope(url: string, baseUrl: string, excludePatterns: seq<string>) {
    baseUrl <= url &&
    (forall p :: p in excludePatterns ==> !IsInfix(p, url)) &&
    !IsMediaFile(url)
  }

  /** `WebCrawler.should_crawl`: the URL is new, under the base URL, matches no exclusion
      pattern and does not name a media file. */
  function ShouldCrawl(url: string, visited: set<string>, baseUrl: string, excludePatterns: seq<string>): (r: bool)
    ensures r <==> url !in visited && InScope(url, baseUrl, excludePatterns)
  {
    if url in visited then false
    else if !(baseUrl <= url) then false
    else if Excluded(url, excludePatterns) then false
    else if IsMediaFile(url) then false
    else true
  }
}
