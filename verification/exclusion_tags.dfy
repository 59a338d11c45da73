/** Recognising the two exclusion comment tags on one line, and reading the agent list
    of an opening tag. The tags are the regular expressions
      start:  <!--\s*exclude:\s*([^>]+)\s*-->      (case-insensitive)
      end:    <!--\s*\/exclude\s*-->              (case-insensitive)
    matched anywhere in the line; the matchers below are written out by hand and return
    what JavaScript's `line.match(re)` returns: the leftmost match and, for the start tag,
    the text of the capture group. */
module ExclusionTags {
  import opened Wrappers
  import opened Strings

  const COMMENT_OPEN := "<!--"
  const COMMENT_CLOSE := "-->"
  const START_KEYWORD := "exclude:"
  const END_KEYWORD := "/exclude"

  /** The keyword `word`, written in lower case, occurs at `k` in `s` ignoring the case of
      ASCII letters (the regex `i` flag): the text there lower-cases to the keyword. */
  predicate MatchesIgnoringCase(s: string, k: nat, word: string) {
    k + |word| <= |s| && Lower(s[k..k + |word|]) == word
  }

  /** The position after the run of whitespace that starts at `k` (a greedy `\s*`). */
  function SkipWhitespace(s: string, k: nat): (e: nat)
    requires k <= |s|
    ensures k <= e <= |s|
    ensures forall m :: k <= m < e ==> IsWhitespace(s[m])
    ensures e < |s| ==> !IsWhitespace(s[e])
  {
    var n := LeadingWhitespace(s[k..]);
    assert forall m :: k <= m < k + n ==> s[m] == s[k..][m - k];
    k + n
  }

  // ---------------------------------------------------------------------------
  // start tag
  // ---------------------------------------------------------------------------

  /** The capture of `\s*([^>]+)\s*-->` matched at the start of `rest`, if it matches.
      Nothing after the keyword can consume a `>` except the final one, so the match ends
      at the first `>`; it needs `--` right before that `>` and at least one character
      in front of the `--` for the capture. The leading `\s*` is greedy but must leave one
      character to the capture; the capture then runs up to the `--`. */
  function CaptureAgentText(rest: string): (r: Option<string>)
    ensures r.Some? ==> r.value != [] && '>' !in r.value
    ensures '>' !in rest ==> r.None?
  {
    match IndexOfChar(rest, '>')
    case None => None
    case Some(k) =>
      if k >= 3 && rest[k - 2] == '-' && rest[k - 1] == '-' then
        var inner := rest[..k - 2];
        var w := LeadingWhitespace(inner);
        var from := if w < |inner| then w else |inner| - 1;
        assert inner[from..] == rest[..k][from..k - 2];
        Some(inner[from..])
      else None
  }

  /** The capture when the start tag matches at position `p` of `line`. */
  function StartTagAt(line: string, p: nat): (r: Option<string>)
    requires p <= |line|
    ensures r.Some? ==> r.value != [] && '>' !in r.value
    ensures r.Some? ==> OccursAt(line, COMMENT_OPEN, p)
  {
    if !OccursAt(line, COMMENT_OPEN, p) then None
    else
      var q := SkipWhitespace(line, p + 4);
      if !MatchesIgnoringCase(line, q, START_KEYWORD) then None
      else CaptureAgentText(line[q + 8..])
  }

  /** The leftmost position at or after `p` where the start tag matches. */
  function FindStartTag(line: string, p: nat): (r: Option<nat>)
    requires p <= |line|
    ensures r.Some? ==> p <= r.value <= |line| && StartTagAt(line, r.value).Some?
    ensures r.Some? ==> forall q :: p <= q < r.value ==> StartTagAt(line, q).None?
    ensures r.None? ==> forall q :: p <= q <= |line| ==> StartTagAt(line, q).None?
    decreases |line| - p
  {
    if StartTagAt(line, p).Some? then Some(p)
    else if p == |line| then None
    else FindStartTag(line, p + 1)
  }

  /** `line.match(EXCLUDE_START_REGEX)`: the capture of the leftmost start tag. */
  function StartTag(line: string): (r: Option<string>)
    ensures r.Some? ==> r.value != [] && '>' !in r.value
    ensures r.Some? ==> exists q :: 0 <= q <= |line| && StartTagAt(line, q) == r
                                  && forall q' :: 0 <= q' < q ==> StartTagAt(line, q').None?
    ensures r.None? ==> forall q :: 0 <= q <= |line| ==> StartTagAt(line, q).None?
  {
    match FindStartTag(line, 0)
    case None => None
    case Some(q) => StartTagAt(line, q)
  }

  // ---------------------------------------------------------------------------
  // end tag
  // ---------------------------------------------------------------------------

  /** The end tag matches at position `p` of `line`. */
  predicate EndTagAt(line: string, p: nat)
    requires p <= |line|
  {
    && OccursAt(line, COMMENT_OPEN, p)
    && var q := SkipWhitespace(line, p + 4);
    && MatchesIgnoringCase(line, q, END_KEYWORD)
    && OccursAt(line, COMMENT_CLOSE, SkipWhitespace(line, q + 8))
  }

  /** The leftmost position at or after `p` where the end tag matches. */
  function FindEndTag(line: string, p: nat): (r: Option<nat>)
    requires p <= |line|
    ensures r.Some? ==> p <= r.value <= |line| && EndTagAt(line, r.value)
    ensures r.Some? ==> forall q :: p <= q < r.value ==> !EndTagAt(line, q)
    ensures r.None? ==> forall q :: p <= q <= |line| ==> !EndTagAt(line, q)
    decreases |line| - p
  {
    if EndTagAt(line, p) then Some(p)
    else if p == |line| then None
    else FindEndTag(line, p + 1)
  }

  /** `line.match(EXCLUDE_END_REGEX)` succeeds: the end tag matches somewhere in the line. */
  predicate IsEndTag(line: string) {
    FindEndTag(line, 0).Some?
  }

  // ---------------------------------------------------------------------------
  // the agent list
  // ---------------------------------------------------------------------------

  /** Each item trimmed and lower-cased. */
  function NormaliseAll(items: seq<string>): (r: seq<string>)
    ensures |r| == |items|
    ensures forall k :: 0 <= k < |items| ==> r[k] == Lower(Trim(items[k]))
    decreases |items|
  {
    if |items| == 0 then [] else [Lower(Trim(items[0]))] + NormaliseAll(items[1..])
  }

  /** Each comma-separated item trimmed and lower-cased; empty items dropped. */
  function AgentItems(items: seq<string>): (r: seq<string>)
    ensures forall k :: 0 <= k < |r| ==> r[k] != [] && IsLowerCase(r[k])
    ensures forall a :: a in r <==> a != [] && a in NormaliseAll(items)
    decreases |items|
  {
    if |items| == 0 then []
    else
      var a := Lower(Trim(items[0]));
      LowerIsLowerCase(Trim(items[0]));
      var rest := AgentItems(items[1..]);
      assert NormaliseAll(items) == [a] + NormaliseAll(items[1..]);
      if a == [] then rest else [a] + rest
  }

  lemma {:induction false} AgentItemsAppend(xs: seq<string>, ys: seq<string>)
    ensures AgentItems(xs + ys) == AgentItems(xs) + AgentItems(ys)
    decreases |xs|
  {
    if |xs| > 0 {
      assert (xs + ys)[1..] == xs[1..] + ys;
      AgentItemsAppend(xs[1..], ys);
    } else {
      assert xs + ys == ys;
    }
  }

  /** `parseAgentList`: split on `,`, trim and lower-case each item, drop empty ones. */
  function ParseAgentList(text: string): (r: seq<string>)
  {
    AgentItems(Split(text, ','))
  }

  /** `shouldExcludeForAgent`: the lower-cased target is one of the listed agents. */
  predicate ShouldExcludeForAgent(excludedAgents: seq<string>, agentShortcode: string) {
    Lower(agentShortcode) in excludedAgents
  }

  /** Exclusion ignores case and padding on both sides: an agent is excluded exactly when
      some comma-separated item of the list, trimmed, equals it up to ASCII case. */
  lemma ExclusionIgnoresCaseAndPadding(text: string, agent: string)
    ensures ShouldExcludeForAgent(ParseAgentList(text), agent)
        <==> Lower(agent) != [] &&
             exists k :: 0 <= k < |Split(text, ',')| && Lower(Trim(Split(text, ',')[k])) == Lower(agent)
  {
    var items := Split(text, ',');
    var norm := NormaliseAll(items);
    var a := Lower(agent);
    assert ParseAgentList(text) == AgentItems(items);
    assert a in AgentItems(items) <==> a != [] && a in norm;
    if a in norm {
      var k :| 0 <= k < |norm| && norm[k] == a;
      assert Lower(Trim(items[k])) == a;
    }
    if exists k :: 0 <= k < |items| && Lower(Trim(items[k])) == a {
      var k :| 0 <= k < |items| && Lower(Trim(items[k])) == a;
      assert norm[k] == a;
    }
  }

  /** Upper-case letters in the target shortcode do not change the decision. */
  lemma ExclusionIgnoresTargetCase(excludedAgents: seq<string>, agent: string)
    ensures ShouldExcludeForAgent(excludedAgents, agent) == ShouldExcludeForAgent(excludedAgents, Lower(agent))
  {
    LowerIsLowerCase(agent);
    LowerOfLowerCase(Lower(agent));
  }

  // ---------------------------------------------------------------------------
  // well-formed tags
  // ---------------------------------------------------------------------------

  /** The canonical opening tag for an agent list. */
  function OpenTag(list: string): string {
    COMMENT_OPEN + " " + START_KEYWORD + " " + list + " " + COMMENT_CLOSE
  }

  /** The canonical closing tag. */
  function CloseTag(): string {
    COMMENT_OPEN + " " + END_KEYWORD + " " + COMMENT_CLOSE
  }

  /** Trailing whitespace after the last agent does not change the list. */
  lemma AgentListPadRight(list: string, c: char)
    requires IsWhitespace(c) && c != ','
    ensures ParseAgentList(list + [c]) == ParseAgentList(list)
  {
    var parts := Split(list, ',');
    var n := |parts|;
    var init, last := parts[..n - 1], parts[n - 1];
    SplitSnoc(list, ',', c);
    assert Split(list + [c], ',') == init + [last + [c]];
    assert parts == init + [last];
    TrimPadRight(last, c);
    AgentItemsAppend(init, [last + [c]]);
    AgentItemsAppend(init, [last]);
    assert AgentItems([last + [c]]) == AgentItems([last]) by {
      assert [last + [c]][1..] == [] && [last][1..] == [];
    }
  }

  lemma CaptureOfPaddedList(list: string)
    requires list != [] && '>' !in list && !IsWhitespace(list[0])
    ensures CaptureAgentText(" " + list + " -->") == Some(list + " ")
  {
    var rest := " " + list + " -->";
    assert '>' !in rest[..|list| + 4] by { assert rest[..|list| + 4] == " " + list + " --"; }
    assert rest[|list| + 4] == '>';
    assert IndexOfChar(rest, '>') == Some(|list| + 4);
    var inner := rest[..|list| + 2];
    assert inner == " " + list + " ";
    LeadingExact(inner, 1);
    assert inner[1..] == list + " ";
  }

  /** A single space before a non-space character is skipped by `\s*`. */
  lemma SkipOneSpace(line: string, k: nat)
    requires k + 1 < |line| && line[k] == ' ' && !IsWhitespace(line[k + 1])
    ensures SkipWhitespace(line, k) == k + 1
  {
    var t := line[k..];
    assert t[0] == ' ' && t[1] == line[k + 1];
    LeadingExact(t, 1);
  }

  /** A lower-case keyword written as is matches itself ignoring case. */
  lemma KeywordMatches(line: string, k: nat, word: string)
    requires IsLowerCase(word)
    requires k + |word| <= |line| && line[k..k + |word|] == word
    ensures MatchesIgnoringCase(line, k, word)
  {
    LowerOfLowerCase(word);
  }

  /** A canonical opening tag is recognised at the start of its line, and its capture
      reads as the same agent list that was written into it. */
  lemma OpenTagRecognised(list: string)
    requires list != [] && '>' !in list && !IsWhitespace(list[0])
    ensures StartTag(OpenTag(list)) == Some(list + " ")
    ensures ParseAgentList(list + " ") == ParseAgentList(list)
  {
    OpenTagStarts(list);
    AgentListPadRight(list, ' ');
  }

  lemma OpenTagStarts(list: string)
    requires list != [] && '>' !in list && !IsWhitespace(list[0])
    ensures StartTagAt(OpenTag(list), 0) == Some(list + " ")
  {
    var line := OpenTag(list);
    OpenTagParts(list);
    assert OccursAt(line, COMMENT_OPEN, 0);
    SkipOneSpace(line, 4);
    StartKeywordAt(line, 5);
    StartTagIntro(line, 0, 5);
    CaptureOfPaddedList(list);
  }

  /** Where the pieces of a canonical opening tag sit. */
  lemma OpenTagParts(list: string)
    ensures |OpenTag(list)| == |list| + 18
    ensures OpenTag(list)[..4] == COMMENT_OPEN && OpenTag(list)[4] == ' ' && OpenTag(list)[5] == 'e'
    ensures OpenTag(list)[5..13] == START_KEYWORD
    ensures OpenTag(list)[13..] == " " + list + " -->"
  {
    assert OpenTag(list) == "<!-- exclude:" + (" " + list + " -->");
  }

  /** `exclude:` written at `k` matches the start keyword. */
  lemma StartKeywordAt(line: string, k: nat)
    requires k + 8 <= |line| && line[k..k + 8] == START_KEYWORD
    ensures MatchesIgnoringCase(line, k, START_KEYWORD)
  {
    KeywordMatches(line, k, START_KEYWORD);
  }

  /** With the comment opening at `p` and the keyword after its padding at `q`, the start
      tag at `p` captures what `CaptureAgentText` finds after the keyword. */
  lemma StartTagIntro(line: string, p: nat, q: nat)
    requires p + 4 <= |line| && OccursAt(line, COMMENT_OPEN, p) && SkipWhitespace(line, p + 4) == q
    requires MatchesIgnoringCase(line, q, START_KEYWORD)
    ensures StartTagAt(line, p) == CaptureAgentText(line[q + 8..])
  {}

  /** The canonical closing tag is recognised. */
  lemma CloseTagRecognised()
    ensures IsEndTag(CloseTag())
  {
    CloseTagAtStart();
  }

  lemma CloseTagAtStart()
    ensures EndTagAt(CloseTag(), 0)
  {
    CloseTagParts();
    CloseTagKeyword();
    CloseTagEnd();
    EndTagIntro(CloseTag(), 0, 5, 14);
  }

  lemma CloseTagKeyword()
    ensures SkipWhitespace(CloseTag(), 4) == 5 && MatchesIgnoringCase(CloseTag(), 5, END_KEYWORD)
  {
    CloseTagParts();
    SkipOneSpace(CloseTag(), 4);
    EndKeywordAt(CloseTag(), 5);
  }

  lemma CloseTagEnd()
    ensures SkipWhitespace(CloseTag(), 13) == 14 && OccursAt(CloseTag(), COMMENT_CLOSE, 14)
  {
    CloseTagParts();
    SkipOneSpace(CloseTag(), 13);
  }

  /** `/exclude` written at `k` matches the end keyword. */
  lemma EndKeywordAt(line: string, k: nat)
    requires k + 8 <= |line| && line[k..k + 8] == END_KEYWORD
    ensures MatchesIgnoringCase(line, k, END_KEYWORD)
  {
    KeywordMatches(line, k, END_KEYWORD);
  }

  /** The end tag's parts, found at `p`, `q` and `e`, make an end tag at `p`. */
  lemma EndTagIntro(line: string, p: nat, q: nat, e: nat)
    requires p + 4 <= |line| && OccursAt(line, COMMENT_OPEN, p) && SkipWhitespace(line, p + 4) == q
    requires MatchesIgnoringCase(line, q, END_KEYWORD) && SkipWhitespace(line, q + 8) == e
    requires OccursAt(line, COMMENT_CLOSE, e)
    ensures EndTagAt(line, p)
  {}

  /** Where the pieces of the closing tag sit. */
  lemma CloseTagParts()
    ensures |CloseTag()| == 17
    ensures CloseTag()[..4] == COMMENT_OPEN && CloseTag()[4] == ' ' && CloseTag()[5] == '/'
    ensures CloseTag()[5..13] == END_KEYWORD && CloseTag()[13] == ' ' && CloseTag()[14] == '-'
    ensures CloseTag()[14..17] == COMMENT_CLOSE
  {
    assert CloseTag() == "<!-- /exclude -->";
  }
}
