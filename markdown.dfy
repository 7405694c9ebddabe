/** The clean-up applied to the Markdown text of a page (crawler.py lines 78-79):
    `re.sub(r'You need to enable JavaScript.*?\.', '', s, flags=re.IGNORECASE)`, then
    `re.sub(r'\n{3,}', '\n\n', s)`, then `.strip()`. */
module Markdown {
  import opened Text
  import opened Optional

  /** The literal start of the browser's "JavaScript is off" notice. */
  const Notice: string := "You need to enable JavaScript"

  /** `w` as a whole matches `You need to enable JavaScript.*?\.` ignoring case: the notice,
      then characters other than a newline (what `.` matches), ending in a full stop. */
  ghost predicate IsNoticeSentence(w: string) {
    |w| > |Notice| && EqualsIgnoreCase(w[..|Notice|], Notice) && w[|w| - 1] == '.' &&
    forall m :: |Notice| <= m < |w| - 1 ==> w[m] != '\n'
  }

  /** From position `k`, the end just past the first full stop, unless a newline or the end
      of the text comes first. */
  function FullStopEnd(s: string, k: nat): (r: Option<nat>)
    requires k <= |s|
    ensures r.Some? ==> k < r.value <= |s| && s[r.value - 1] == '.'
    ensures r.Some? ==> forall m :: k <= m < r.value - 1 ==> s[m] != '.' && s[m] != '\n'
    ensures r.None? ==> forall d :: k <= d < |s| && s[d] == '.' ==> exists m :: k <= m < d && s[m] == '\n'
    decreases |s| - k
  {
    if k == |s| then None
    else if s[k] == '.' then Some(k + 1)
    else if s[k] == '\n' then None
    else FullStopEnd(s, k + 1)
  }

  /** The length of the notice sentence that the non-greedy regex matches at the start of
      `s`, if any: the shortest prefix that matches. */
  function NoticeAt(s: string): (r: Option<nat>)
    ensures r.Some? ==> r.value <= |s| && IsNoticeSentence(s[..r.value])
    ensures r.Some? ==> forall e :: 0 <= e < r.value ==> !IsNoticeSentence(s[..e])
    ensures r.None? ==> forall e :: 0 <= e <= |s| ==> !IsNoticeSentence(s[..e])
  {
    if |s| >= |Notice| && EqualsIgnoreCase(s[..|Notice|], Notice) then
      var r := FullStopEnd(s, |Notice|);
      assert forall e :: |Notice| < e <= |s| ==> s[..e][..|Notice|] == s[..|Notice|];
      r
    else
      assert forall e :: |Notice| < e <= |s| ==> s[..e][..|Notice|] == s[..|Notice|];
      None
  }

  /** `re.sub` of the notice pattern with the empty string: scan left to right, and at each
      position either drop the sentence matched there or keep one character. */
  function RemoveNotices(s: string): (r: string)
    ensures |r| <= |s|
    decreases |s|
  {
    if s == [] then []
    else
      match NoticeAt(s)
      case Some(n) => RemoveNotices(s[n..])
      case None => [s[0]] + RemoveNotices(s[1..])
  }

  /** A notice sentence that no shorter prefix of it already matches is removed whole, and
      the scan goes on right after it. */
  lemma RemoveNoticesDrops(w: string, y: string)
    requires IsNoticeSentence(w)
    requires forall e :: 0 <= e < |w| ==> !IsNoticeSentence(w[..e])
    ensures RemoveNotices(w + y) == RemoveNotices(y)
  {
    var s := w + y;
    assert s[..|w|] == w;
    assert forall e :: 0 <= e <= |w| ==> s[..e] == w[..e];
    var n := NoticeAt(s).value;
    assert n == |w|;
    assert s[n..] == y;
  }

  /** Text in which no notice sentence starts is kept as it is, ahead of whatever the scan
      makes of the rest. */
  lemma {:induction false} RemoveNoticesKeeps(x: string, y: string)
    requires forall i :: 0 <= i < |x| ==> NoticeAt((x + y)[i..]).None?
    ensures RemoveNotices(x + y) == x + RemoveNotices(y)
    decreases |x|
  {
    if x == [] {
      assert x + y == y;
    } else {
      var s := x + y;
      assert s[0..] == s;
      assert s[1..] == x[1..] + y;
      forall i | 0 <= i < |x[1..]|
        ensures NoticeAt((x[1..] + y)[i..]).None?
      {
        assert (x[1..] + y)[i..] == s[i + 1..];
      }
      RemoveNoticesKeeps(x[1..], y);
      assert [x[0]] + (x[1..] + RemoveNotices(y)) == x + RemoveNotices(y);
    }
  }

  /** No position of `s` starts a notice sentence. */
  ghost predicate NoNotice(s: string) {
    forall i :: 0 <= i < |s| ==> NoticeAt(s[i..]).None?
  }

  /** The notice removal changes nothing exactly when no position of the text starts a
      notice sentence. */
  lemma {:induction false} RemoveNoticesFixedIff(s: string)
    ensures RemoveNotices(s) == s <==> NoNotice(s)
    decreases |s|
  {
    if s != [] {
      NoNoticeCons(s);
      match NoticeAt(s)
      case Some(n) =>
        assert |RemoveNotices(s[n..])| <= |s| - n;
      case None =>
        RemoveNoticesFixedIff(s[1..]);
        RemoveNoticesCons(s);
    }
  }

  /** No notice starts anywhere in a non-empty text exactly when none starts at its first
      position or anywhere in the rest. */
  lemma NoNoticeCons(s: string)
    requires s != []
    ensures NoNotice(s) <==> NoticeAt(s).None? && NoNotice(s[1..])
  {
    assert s[0..] == s;
    assert forall i :: 1 <= i <= |s| ==> s[1..][i - 1..] == s[i..];
  }

  /** Where no notice starts, the first character is kept, so the removal is the identity
      exactly when it is on the rest. */
  lemma RemoveNoticesCons(s: string)
    requires s != [] && NoticeAt(s).None?
    ensures RemoveNotices(s) == s <==> RemoveNotices(s[1..]) == s[1..]
  {
    if RemoveNotices(s) == s {
      assert RemoveNotices(s)[1..] == s[1..];
    }
  }

  /** Three newlines in a row start at position `i`. */
  predicate TripleNewlineAt(s: string, i: nat) {
    i + 2 < |s| && s[i] == '\n' && s[i + 1] == '\n' && s[i + 2] == '\n'
  }

  /** No three newlines in a row. */
  predicate NoTripleNewline(s: string) {
    forall i: nat :: i < |s| ==> !TripleNewlineAt(s, i)
  }

  /** The number of newlines `s` starts with. */
  function NewlineRun(s: string): (n: nat)
    ensures n <= |s|
    ensures forall k :: 0 <= k < n ==> s[k] == '\n'
    ensures n < |s| ==> s[n] != '\n'
  {
    if s != [] && s[0] == '\n' then 1 + NewlineRun(s[1..]) else 0
  }

  /** Cutting off at most two leading characters that start no triple newline neither adds
      nor removes one. */
  lemma NoTripleNewlineDrop(s: string, n: nat)
    requires n <= 2 && n <= |s|
    requires forall i: nat :: i < n ==> !TripleNewlineAt(s, i)
    ensures NoTripleNewline(s) <==> NoTripleNewline(s[n..])
  {
    forall i: nat | i < |s| - n
      ensures TripleNewlineAt(s[n..], i) <==> TripleNewlineAt(s, n + i)
    {
    }
    if NoTripleNewline(s[n..]) {
      forall i: nat | n <= i < |s|
        ensures !TripleNewlineAt(s, i)
      {
        assert TripleNewlineAt(s[n..], i - n) <==> TripleNewlineAt(s, i);
      }
    }
  }

  /** `re.sub(r'\n{3,}', '\n\n', s)`: every maximal run of three or more newlines becomes
      exactly two. */
  function CollapseNewlines(s: string): (r: string)
    ensures |r| <= |s|
    ensures r == [] <==> s == []
    ensures r != [] ==> (r[0] == '\n' <==> s[0] == '\n')
    decreases |s|
  {
    if s == [] then []
    else if s[0] == '\n' then
      var n := NewlineRun(s);
      (if n >= 3 then "\n\n" else s[..n]) + CollapseNewlines(s[n..])
    else
      [s[0]] + CollapseNewlines(s[1..])
  }

  /** Collapsed text has no three newlines in a row. */
  lemma {:induction false} CollapseNoTriple(s: string)
    ensures NoTripleNewline(CollapseNewlines(s))
    decreases |s|
  {
    if s == [] {
    } else if s[0] == '\n' {
      var n := NewlineRun(s);
      var run := if n >= 3 then "\n\n" else s[..n];
      var rest := CollapseNewlines(s[n..]);
      CollapseNoTriple(s[n..]);
      assert (run + rest)[|run|..] == rest;
      assert rest != [] ==> (run + rest)[|run|] != '\n';
      NoTripleNewlineDrop(run + rest, |run|);
    } else {
      var rest := CollapseNewlines(s[1..]);
      CollapseNoTriple(s[1..]);
      assert ([s[0]] + rest)[1..] == rest;
      NoTripleNewlineDrop([s[0]] + rest, 1);
    }
  }

  /** Collapsing changes nothing exactly when there are no three newlines in a row. */
  lemma {:induction false} CollapseFixedIff(s: string)
    ensures CollapseNewlines(s) == s <==> NoTripleNewline(s)
    decreases |s|
  {
    CollapseNoTriple(s);
    if s == [] {
    } else if s[0] == '\n' {
      var n := NewlineRun(s);
      if n >= 3 {
        assert TripleNewlineAt(s, 0);
      } else {
        CollapseFixedIff(s[n..]);
        var rest := CollapseNewlines(s[n..]);
        var c := CollapseNewlines(s);
        assert c == s[..n] + rest;
        NoTripleNewlineDrop(s, n);
        assert c == s <==> rest == s[n..] by {
          if rest == s[n..] { assert s[..n] + s[n..] == s; }
          if c == s { assert c[n..] == rest; }
        }
      }
    } else {
      CollapseFixedIff(s[1..]);
      NoTripleNewlineDrop(s, 1);
      if CollapseNewlines(s) == s {
        assert CollapseNewlines(s)[1..] == CollapseNewlines(s[1..]);
      }
    }
  }

  /** The whole clean-up of crawler.py lines 78-79. */
  function CleanMarkdown(s: string): string {
    Strip(CollapseNewlines(RemoveNotices(s)))
  }

  /** A piece of a text without three newlines in a row has none either. */
  lemma NoTripleNewlineInfix(s: string, i: nat, j: nat)
    requires NoTripleNewline(s) && i <= j <= |s|
    ensures NoTripleNewline(s[i..j])
  {
    forall k: nat | k < j - i
      ensures !TripleNewlineAt(s[i..j], k)
    {
      assert TripleNewlineAt(s[i..j], k) ==> TripleNewlineAt(s, i + k);
    }
  }

  /** Stripping whitespace cannot create three newlines in a row. */
  lemma StripKeepsNoTripleNewline(s: string)
    requires NoTripleNewline(s)
    ensures NoTripleNewline(Strip(s))
  {
    var c := Strip(s);
    var i: nat :| StrippedAt(s, i, c);
    NoTripleNewlineInfix(s, i, i + |c|);
  }

  /** Cleaned Markdown has no three newlines in a row and no surrounding whitespace. */
  lemma CleanMarkdownWellFormed(s: string)
    ensures var c := CleanMarkdown(s);
      NoTripleNewline(c) && (c != [] ==> !IsSpace(c[0]) && !IsSpace(c[|c| - 1]))
  {
    CollapseNoTriple(RemoveNotices(s));
    StripKeepsNoTripleNewline(CollapseNewlines(RemoveNotices(s)));
  }

  /** Collapsing and stripping a second time changes nothing. */
  lemma CollapseStripIdempotent(s: string)
    ensures var t := Strip(CollapseNewlines(s)); Strip(CollapseNewlines(t)) == t
  {
    var u := CollapseNewlines(s);
    var t := Strip(u);
    CollapseNoTriple(s);
    StripKeepsNoTripleNewline(u);
    CollapseFixedIff(t);
    assert CollapseNewlines(t) == t;
    StripIdempotent(u);
  }

  /** Text before the first newline passes through collapsing unchanged. */
  lemma {:induction false} CollapseKeepsLine(x: string, y: string)
    requires '\n' !in x
    ensures CollapseNewlines(x + y) == x + CollapseNewlines(y)
    decreases |x|
  {
    if x == [] {
      assert x + y == y;
    } else {
      var s := x + y;
      assert s[0] == x[0] && s[1..] == x[1..] + y;
      CollapseKeepsLine(x[1..], y);
      assert CollapseNewlines(s) == [x[0]] + (x[1..] + CollapseNewlines(y));
      assert [x[0]] + (x[1..] + CollapseNewlines(y)) == x + CollapseNewlines(y);
    }
  }

  /** `k` newlines. */
  function Newlines(k: nat): (r: string)
    ensures |r| == k && forall i :: 0 <= i < k ==> r[i] == '\n'
  {
    if k == 0 then [] else ['\n'] + Newlines(k - 1)
  }

  /** A run of `k` newlines, then text that does not start with one, collapses to
      `min(k, 2)` newlines, unless it is empty. */
  lemma CollapseRun(k: nat, y: string)
    requires k >= 1 && (y == [] || y[0] != '\n')
    ensures CollapseNewlines(Newlines(k) + y) == Newlines(if k >= 3 then 2 else k) + CollapseNewlines(y)
  {
    var s := Newlines(k) + y;
    assert NewlineRun(s) == k by {
      NewlineRunOf(k, y);
    }
    assert s[..k] == Newlines(k) && s[k..] == y;
    if k >= 3 {
      assert Newlines(2) == "\n\n";
    }
  }

  lemma {:induction false} NewlineRunOf(k: nat, y: string)
    requires y == [] || y[0] != '\n'
    ensures NewlineRun(Newlines(k) + y) == k
  {
    if k == 0 {
      assert Newlines(k) + y == y;
    } else {
      var s := Newlines(k) + y;
      assert s[1..] == Newlines(k - 1) + y;
      NewlineRunOf(k - 1, y);
    }
  }

  /** Newlines between two lines of text collapse to at most two. */
  lemma CollapseBetweenLines(p1: string, p2: string, k: nat)
    requires k >= 1 && '\n' !in p1 && '\n' !in p2 && (p2 == [] || p2[0] != '\n')
    ensures CollapseNewlines(p1 + Newlines(k) + p2) == p1 + Newlines(if k >= 3 then 2 else k) + p2
  {
    var y := Newlines(k) + p2;
    var t := Newlines(if k >= 3 then 2 else k) + p2;
    assert CollapseNewlines(p1 + y) == p1 + t by {
      CollapseKeepsLine(p1, y);
      CollapseRunThenLine(k, p2);
    }
    assert p1 + Newlines(k) + p2 == p1 + y;
    assert p1 + t == p1 + Newlines(if k >= 3 then 2 else k) + p2;
  }

  /** A run of `k` newlines followed by one line of text collapses to `min(k, 2)` newlines
      followed by that line. */
  lemma CollapseRunThenLine(k: nat, x: string)
    requires k >= 1 && '\n' !in x
    ensures CollapseNewlines(Newlines(k) + x) == Newlines(if k >= 3 then 2 else k) + x
  {
    CollapseRun(k, x);
    CollapseLine(x);
  }

  /** A single line of text passes through collapsing unchanged. */
  lemma CollapseLine(x: string)
    requires '\n' !in x
    ensures CollapseNewlines(x) == x
  {
    CollapseKeepsLine(x, []);
    assert x + [] == x;
  }

  /** Two lines of text separated by `k` newlines, with no notice in them, clean up to the
      same two lines separated by at most two newlines. */
  lemma CleanTwoParagraphs(p1: string, p2: string, k: nat)
    requires k >= 1 && '\n' !in p1 && '\n' !in p2
    requires p1 != [] && p2 != [] && !IsSpace(p1[0]) && !IsSpace(p2[|p2| - 1])
    requires NoNotice(p1 + Newlines(k) + p2)
    ensures CleanMarkdown(p1 + Newlines(k) + p2) == p1 + Newlines(if k >= 3 then 2 else k) + p2
  {
    var s := p1 + Newlines(k) + p2;
    var t := p1 + Newlines(if k >= 3 then 2 else k) + p2;
    calc {
      CleanMarkdown(s);
      Strip(CollapseNewlines(RemoveNotices(s)));
      { RemoveNoticesFixedIff(s); }
      Strip(CollapseNewlines(s));
      { CollapseBetweenLines(p1, p2, k); }
      Strip(t);
      { assert t[0] == p1[0] && t[|t| - 1] == p2[|p2| - 1]; StripFixed(t); }
      t;
    }
  }

  /** A text shorter than the notice cannot hold one. */
  lemma ShortTextNoNotice(s: string)
    requires |s| < |Notice|
    ensures NoNotice(s)
  {
    forall i | 0 <= i < |s|
      ensures NoticeAt(s[i..]).None?
    {
      assert |s[i..]| < |Notice|;
    }
  }

  /** Five newlines between two short paragraphs become two. */
  lemma CleanMarkdownExample(s: string)
    requires s == "Para one.\n\n\n\n\nPara two."
    ensures CleanMarkdown(s) == "Para one.\n\nPara two."
  {
    ExampleSplit(s);
    ExampleLines(s);
    ExampleJoin(s);
    ShortTextNoNotice(s);
    CleanTwoParagraphs(s[..9], s[14..], 5);
  }

  /** The example text is a paragraph, five newlines and a paragraph. */
  lemma ExampleSplit(s: string)
    requires s == "Para one.\n\n\n\n\nPara two."
    ensures s == s[..9] + Newlines(5) + s[14..]
  {
    assert Newlines(5) == "\n\n\n\n\n";
  }

  /** Both paragraphs of the example are single lines with no whitespace at their outer ends. */
  lemma ExampleLines(s: string)
    requires s == "Para one.\n\n\n\n\nPara two."
    ensures '\n' !in s[..9] && '\n' !in s[14..] && s[..9] != [] && s[14..] != []
    ensures !IsSpace(s[..9][0]) && !IsSpace(s[14..][|s[14..]| - 1])
  {
    assert s[..9] == "Para one." && s[14..] == "Para two.";
  }

  /** The example's paragraphs around two newlines give the expected result. */
  lemma ExampleJoin(s: string)
    requires s == "Para one.\n\n\n\n\nPara two."
    ensures s[..9] + Newlines(2) + s[14..] == "Para one.\n\nPara two."
  {
    assert s[..9] == "Para one." && s[14..] == "Para two.";
    assert Newlines(2) == "\n\n";
  }
}
