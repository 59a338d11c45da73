/** The content filter: finding exclusion blocks in a rules file and producing the text one
    agent receives. A block runs from a line holding a start tag to the next line holding
    an end tag; an agent named in the start tag loses the whole block, every other agent
    gets the block's inner lines without the two tag lines. */
module ContentFilter {
  import opened Wrappers
  import opened Strings
  import opened StringOrder
  import opened ExclusionTags
  import opened TextLines
  import opened Cleanup
  import opened Sequences

  // ---------------------------------------------------------------------------
  // scanning the lines
  // ---------------------------------------------------------------------------

  /** What the two tag patterns find on one line: the capture of the start tag, if it
      matches, and whether the end tag matches. */
  datatype LineTags = LineTags(start: Option<string>, isEnd: bool)

  function Classify(lines: seq<string>): (tags: seq<LineTags>)
    ensures |tags| == |lines|
    ensures forall k :: 0 <= k < |lines| ==> tags[k] == LineTags(StartTag(lines[k]), IsEndTag(lines[k]))
  {
    seq(|lines|, k requires 0 <= k < |lines| => LineTags(StartTag(lines[k]), IsEndTag(lines[k])))
  }

  /** A start tag on line `open` matched with the end tag on line `close`. */
  datatype TagPair = TagPair(open: nat, close: nat, agentText: string)

  /** What a scan finds: the matched pairs, and the 1-based numbers of the lines whose start
      tag has no end tag after it (each of them is reported with a warning). */
  datatype Scan = Scan(pairs: seq<TagPair>, warnings: seq<nat>)

  /** The inner loop of `parseExclusionBlocks`: the first line at or after `j` holding an
      end tag. */
  function FindEnd(tags: seq<LineTags>, j: nat): (r: Option<nat>)
    requires j <= |tags|
    ensures r.Some? ==> j <= r.value < |tags| && tags[r.value].isEnd
    ensures r.Some? ==> forall k :: j <= k < r.value ==> !tags[k].isEnd
    ensures r.None? ==> forall k :: j <= k < |tags| ==> !tags[k].isEnd
    decreases |tags| - j
  {
    if j == |tags| then None
    else if tags[j].isEnd then Some(j)
    else FindEnd(tags, j + 1)
  }

  /** `p` is a real block: a start tag with this capture on its first line, an end tag on
      its last line and none in between. */
  predicate IsPair(tags: seq<LineTags>, p: TagPair) {
    && p.open < p.close < |tags|
    && tags[p.open].start == Some(p.agentText)
    && tags[p.close].isEnd
    && forall k :: p.open < k < p.close ==> !tags[k].isEnd
  }

  /** Each pair closes before the next one opens. */
  predicate Ascending(pairs: seq<TagPair>) {
    forall a, b :: 0 <= a < b < |pairs| ==> pairs[a].close < pairs[b].open
  }

  /** Strictly ascending line numbers: each reported once, in order. */
  predicate Increasing(ws: seq<nat>) {
    forall a, b :: 0 <= a < b < |ws| ==> ws[a] < ws[b]
  }

  /** Line `k` is taken care of by the scan: it opens a pair, lies inside one, or was
      reported. */
  predicate Accounted(r: Scan, k: nat) {
    (k + 1) in r.warnings || exists p :: p in r.pairs && p.open <= k <= p.close
  }

  /** A pair that closes before every later pair opens can go in front. */
  lemma ConsAscending(p: TagPair, rest: seq<TagPair>)
    requires Ascending(rest)
    requires forall q :: q in rest ==> p.close < q.open
    ensures Ascending([p] + rest)
    ensures forall q :: q in [p] + rest ==> q == p || q in rest
  {
    var ps := [p] + rest;
    forall a, b | 0 <= a < b < |ps| ensures ps[a].close < ps[b].open {
      assert ps[b] == rest[b - 1];
      if a > 0 {
        assert ps[a] == rest[a - 1];
      } else {
        assert ps[b] in rest;
      }
    }
  }

  /** The outer loop of `parseExclusionBlocks`, from line `i` on. A start tag without an end
      tag is reported and the scan goes on with the next line; a matched pair is recorded
      and the scan goes on after its end tag, so tags inside a block are never read. */
  function ScanFrom(tags: seq<LineTags>, i: nat): (r: Scan)
    requires i <= |tags|
    ensures forall p :: p in r.pairs ==> i <= p.open && IsPair(tags, p)
    ensures Ascending(r.pairs)
    decreases |tags| - i
  {
    if i == |tags| then Scan([], [])
    else
      match tags[i].start
      case None => ScanFrom(tags, i + 1)
      case Some(text) =>
        match FindEnd(tags, i + 1)
        case None =>
          var rest := ScanFrom(tags, i + 1);
          Scan(rest.pairs, [i + 1] + rest.warnings)
        case Some(e) =>
          var rest := ScanFrom(tags, e + 1);
          var p := TagPair(i, e, text);
          ConsAscending(p, rest.pairs);
          Scan([p] + rest.pairs, rest.warnings)
  }

  /** Every reported line holds a start tag, and no end tag follows it; each is reported
      once, in line order, and none is a line of a recorded pair (the closing line of a
      pair is skipped even when it also holds a start tag). */
  lemma {:induction false} ScanWarnings(tags: seq<LineTags>, i: nat)
    requires i <= |tags|
    ensures forall w :: w in ScanFrom(tags, i).warnings ==> i < w <= |tags| && tags[w - 1].start.Some?
    ensures forall w :: w in ScanFrom(tags, i).warnings ==> forall k :: w <= k < |tags| ==> !tags[k].isEnd
    ensures Increasing(ScanFrom(tags, i).warnings)
    ensures forall w, p :: w in ScanFrom(tags, i).warnings && p in ScanFrom(tags, i).pairs ==>
              !(p.open <= w - 1 <= p.close)
    decreases |tags| - i
  {
    if i < |tags| {
      var r := ScanFrom(tags, i);
      match tags[i].start
      case None => ScanWarnings(tags, i + 1);
      case Some(text) =>
        match FindEnd(tags, i + 1)
        case None =>
          ScanWarnings(tags, i + 1);
          var rest := ScanFrom(tags, i + 1);
          assert r.warnings == [i + 1] + rest.warnings;
          WarningsCons(i + 1, rest.warnings);
        case Some(e) =>
          ScanWarnings(tags, e + 1);
    }
  }

  /** A line number below every later one keeps the list strictly ascending. */
  lemma WarningsCons(w: nat, rest: seq<nat>)
    requires Increasing(rest)
    requires forall v :: v in rest ==> w < v
    ensures Increasing([w] + rest)
  {
    var ws := [w] + rest;
    forall a, b | 0 <= a < b < |ws| ensures ws[a] < ws[b] {
      assert ws[b] == rest[b - 1];
      if a > 0 {
        assert ws[a] == rest[a - 1];
      } else {
        assert ws[b] in rest;
      }
    }
  }

  /** The scan misses no start tag from line `i` on. */
  lemma {:induction false} ScanAccounts(tags: seq<LineTags>, i: nat)
    requires i <= |tags|
    ensures forall k :: i <= k < |tags| && tags[k].start.Some? ==> Accounted(ScanFrom(tags, i), k)
    decreases |tags| - i
  {
    if i < |tags| {
      var r := ScanFrom(tags, i);
      match tags[i].start
      case None => ScanAccounts(tags, i + 1);
      case Some(text) =>
        match FindEnd(tags, i + 1)
        case None =>
          ScanAccounts(tags, i + 1);
          var rest := ScanFrom(tags, i + 1);
          assert r.pairs == rest.pairs && r.warnings == [i + 1] + rest.warnings;
          assert (i + 1) in r.warnings;
        case Some(e) =>
          ScanAccounts(tags, e + 1);
          var rest := ScanFrom(tags, e + 1);
          var p := TagPair(i, e, text);
          assert r.pairs == [p] + rest.pairs && r.warnings == rest.warnings;
          assert p in r.pairs;
          forall k | i <= k < |tags| && tags[k].start.Some? ensures Accounted(r, k) {
            if k > e {
              assert Accounted(rest, k);
              assert forall q :: q in rest.pairs ==> q in r.pairs;
            }
          }
    }
  }

  /** The tag pairs of a text. */
  function TagPairs(content: string): (pairs: seq<TagPair>)
    ensures forall p :: p in pairs ==> IsPair(Classify(Lines(content)), p)
    ensures Ascending(pairs)
  {
    ScanFrom(Classify(Lines(content)), 0).pairs
  }

  /** A pair found in a text: its first line holds a start tag with this capture, its last
      line an end tag, and no line between holds an end tag. */
  lemma TagPairMeans(content: string, p: TagPair)
    requires p in TagPairs(content)
    ensures var lines := Lines(content);
            && p.open < p.close < |lines|
            && StartTag(lines[p.open]) == Some(p.agentText)
            && IsEndTag(lines[p.close])
            && forall k :: p.open < k < p.close ==> !IsEndTag(lines[k])
  {
    var tags := Classify(Lines(content));
    assert IsPair(tags, p);
  }

  /** The line numbers `parseExclusionBlocks` warns about. */
  function UnclosedStartLines(content: string): (ws: seq<nat>)
    ensures forall w :: w in ws ==> 0 < w <= |Lines(content)| && StartTag(Lines(content)[w - 1]).Some?
    ensures forall w :: w in ws ==> forall k :: w <= k < |Lines(content)| ==> !IsEndTag(Lines(content)[k])
    ensures forall a, b :: 0 <= a < b < |ws| ==> ws[a] < ws[b]
    ensures forall w, p :: w in ws && p in TagPairs(content) ==> !(p.open <= w - 1 <= p.close)
  {
    var tags := Classify(Lines(content));
    ScanWarnings(tags, 0);
    ScanFrom(tags, 0).warnings
  }

  /** The scan misses no start tag: every line holding one opens or lies inside a block,
      or is reported. */
  lemma EveryStartTagAccounted(content: string, k: nat)
    requires k < |Lines(content)| && StartTag(Lines(content)[k]).Some?
    ensures (k + 1) in UnclosedStartLines(content) || exists p :: p in TagPairs(content) && p.open <= k <= p.close
  {
    var tags := Classify(Lines(content));
    assert tags[k].start.Some?;
    ScanAccounts(tags, 0);
  }

  // ---------------------------------------------------------------------------
  // blocks
  // ---------------------------------------------------------------------------

  /** `ExclusionBlock`: the inner text of a block, its agents, and the character range from
      the start of its first line to the start of the line after its last. */
  datatype ExclusionBlock = ExclusionBlock(content: string, excludedAgents: seq<string>,
                                           startIndex: nat, endIndex: nat)

  /** The lines strictly inside a pair, joined with newlines (the inner loop that builds
      `blockContent`). */
  function InnerText(lines: seq<string>, p: TagPair): string
    requires p.open < p.close <= |lines|
  {
    Join(lines[p.open + 1..p.close], NL)
  }

  function ToBlock(lines: seq<string>, p: TagPair): (b: ExclusionBlock)
    requires p.open < p.close < |lines|
    ensures b.startIndex < b.endIndex
  {
    LinePositionStep(lines, p.open);
    LinePositionMonotone(lines, p.open + 1, p.close + 1);
    ExclusionBlock(InnerText(lines, p), ParseAgentList(p.agentText),
                   LinePosition(lines, p.open), LinePosition(lines, p.close + 1))
  }

  function BlocksOf(lines: seq<string>, pairs: seq<TagPair>): (bs: seq<ExclusionBlock>)
    requires forall p :: p in pairs ==> p.open < p.close < |lines|
    ensures |bs| == |pairs|
    ensures forall k :: 0 <= k < |pairs| ==> bs[k] == ToBlock(lines, pairs[k])
    decreases |pairs|
  {
    if |pairs| == 0 then [] else [ToBlock(lines, pairs[0])] + BlocksOf(lines, pairs[1..])
  }

  /** `parseExclusionBlocks`. */
  function ParseExclusionBlocks(content: string): (bs: seq<ExclusionBlock>)
    ensures |bs| == |TagPairs(content)|
  {
    BlocksOf(Lines(content), TagPairs(content))
  }

  /** The blocks lie in order inside the text and do not overlap. */
  predicate WellPlaced(text: string, bs: seq<ExclusionBlock>) {
    && (forall k :: 0 <= k < |bs| ==> bs[k].startIndex <= bs[k].endIndex && bs[k].startIndex <= |text|)
    && (forall a, b :: 0 <= a < b < |bs| ==> bs[a].endIndex <= bs[b].startIndex)
  }

  /** Blocks built from ascending pairs lie inside the text, each ending before the next
      begins. */
  lemma BlocksOfWellPlaced(lines: seq<string>, pairs: seq<TagPair>)
    requires |lines| >= 1
    requires forall p :: p in pairs ==> p.open < p.close < |lines|
    requires Ascending(pairs)
    ensures WellPlaced(Join(lines, NL), BlocksOf(lines, pairs))
  {
    var bs := BlocksOf(lines, pairs);
    forall k | 0 <= k < |bs| ensures bs[k].startIndex <= bs[k].endIndex && bs[k].startIndex <= |Join(lines, NL)| {
      assert pairs[k] in pairs;
      BlockInside(lines, pairs[k]);
    }
    forall a, b | 0 <= a < b < |bs| ensures bs[a].endIndex <= bs[b].startIndex {
      assert pairs[a] in pairs && pairs[b] in pairs;
      BlocksApart(lines, pairs[a], pairs[b]);
    }
  }

  lemma BlockInside(lines: seq<string>, p: TagPair)
    requires |lines| >= 1 && p.open < p.close < |lines|
    ensures ToBlock(lines, p).startIndex <= |Join(lines, NL)|
  {
    LinePositionSuffix(lines, p.open);
  }

  lemma BlocksApart(lines: seq<string>, p: TagPair, q: TagPair)
    requires p.open < p.close < q.open < q.close < |lines|
    ensures ToBlock(lines, p).endIndex <= ToBlock(lines, q).startIndex
  {
    assert ToBlock(lines, p).endIndex == LinePosition(lines, p.close + 1);
    assert ToBlock(lines, q).startIndex == LinePosition(lines, q.open);
    LinePositionMonotone(lines, p.close + 1, q.open);
  }

  lemma BlocksWellPlaced(content: string)
    ensures WellPlaced(content, ParseExclusionBlocks(content))
  {
    var lines, pairs := Lines(content), TagPairs(content);
    assert forall p :: p in pairs ==> p.open < p.close < |lines|;
    BlocksOfWellPlaced(lines, pairs);
  }

  // ---------------------------------------------------------------------------
  // sorting by start, descending
  // ---------------------------------------------------------------------------

  predicate StartsDescending(bs: seq<ExclusionBlock>) {
    forall a, b :: 0 <= a < b < |bs| ==> bs[a].startIndex >= bs[b].startIndex
  }

  predicate StartsAscending(bs: seq<ExclusionBlock>) {
    forall a, b :: 0 <= a < b < |bs| ==> bs[a].startIndex < bs[b].startIndex
  }

  /** A block that starts no earlier than every block of a descending list can go in front. */
  lemma ConsDescending(b: ExclusionBlock, bs: seq<ExclusionBlock>)
    requires StartsDescending(bs)
    requires forall x :: x in bs ==> x.startIndex <= b.startIndex
    ensures StartsDescending([b] + bs)
  {
    var r := [b] + bs;
    forall a, c | 0 <= a < c < |r| ensures r[a].startIndex >= r[c].startIndex {
      assert r[c] == bs[c - 1];
      if a > 0 { assert r[a] == bs[a - 1]; } else { assert r[c] in bs; }
    }
  }

  /** The step of `InsertByStart` that keeps the first block in front. */
  lemma InsertBehind(b: ExclusionBlock, bs: seq<ExclusionBlock>, rest: seq<ExclusionBlock>)
    requires StartsDescending(bs) && |bs| > 0 && b.startIndex <= bs[0].startIndex
    requires StartsDescending(rest) && multiset(rest) == multiset(bs[1..]) + multiset{b}
    ensures StartsDescending([bs[0]] + rest)
    ensures multiset([bs[0]] + rest) == multiset(bs) + multiset{b}
  {
    assert bs == [bs[0]] + bs[1..];
    forall x | x in rest ensures x.startIndex <= bs[0].startIndex {
      assert x in multiset(rest);
      if x != b {
        assert x in multiset(bs[1..]);
      }
    }
    ConsDescending(bs[0], rest);
  }

  /** Insert `b` after every block that starts at or after it (so the sort is stable). */
  function InsertByStart(b: ExclusionBlock, bs: seq<ExclusionBlock>): (r: seq<ExclusionBlock>)
    requires StartsDescending(bs)
    ensures StartsDescending(r)
    ensures multiset(r) == multiset(bs) + multiset{b}
    decreases |bs|
  {
    if |bs| == 0 || bs[0].startIndex < b.startIndex then
      assert forall x :: x in bs ==> x.startIndex <= bs[0].startIndex;
      ConsDescending(b, bs);
      [b] + bs
    else
      var rest := InsertByStart(b, bs[1..]);
      InsertBehind(b, bs, rest);
      [bs[0]] + rest
  }

  /** `blocks.sort((a, b) => b.startIndex - a.startIndex)`. */
  function SortByStartDescending(bs: seq<ExclusionBlock>): (r: seq<ExclusionBlock>)
    ensures StartsDescending(r)
    ensures multiset(r) == multiset(bs)
    decreases |bs|
  {
    if |bs| == 0 then []
    else
      var n := |bs| - 1;
      assert bs == bs[..n] + [bs[n]];
      InsertByStart(bs[n], SortByStartDescending(bs[..n]))
  }

  /** Blocks that arrive in ascending order come out of the sort exactly reversed. */
  lemma {:induction false} SortOfAscendingIsReverse(bs: seq<ExclusionBlock>)
    requires StartsAscending(bs)
    ensures SortByStartDescending(bs) == Reverse(bs)
    decreases |bs|
  {
    if |bs| > 0 {
      var n := |bs| - 1;
      assert StartsAscending(bs[..n]);
      SortOfAscendingIsReverse(bs[..n]);
    }
  }

  lemma ParsedBlocksAscending(content: string)
    ensures StartsAscending(ParseExclusionBlocks(content))
  {
    BlocksWellPlaced(content);
  }

  // ---------------------------------------------------------------------------
  // splicing
  // ---------------------------------------------------------------------------

  /** `s.substring(0, n)` for `n >= 0`: an end past the text stops at the text's end. */
  function Prefix(s: string, n: nat): (r: string)
    ensures |r| == if n <= |s| then n else |s|
  {
    if n <= |s| then s[..n] else s
  }

  /** `s.substring(n)` for `n >= 0`: a start past the text gives "". */
  function Suffix(s: string, n: nat): (r: string)
    ensures |r| == if n <= |s| then |s| - n else 0
  {
    if n <= |s| then s[n..] else ""
  }

  /** What stands in a block's place: nothing for an excluded agent, its inner text for
      everyone else. */
  function Replacement(b: ExclusionBlock, agent: string): string {
    if ShouldExcludeForAgent(b.excludedAgents, agent) then "" else b.content
  }

  /** One step of the loop in `filterContentForAgent`. */
  function Splice(s: string, b: ExclusionBlock, agent: string): string {
    Prefix(s, b.startIndex) + Replacement(b, agent) + Suffix(s, b.endIndex)
  }

  /** The loop in `filterContentForAgent`, over the blocks in the order given. */
  function SpliceAll(s: string, bs: seq<ExclusionBlock>, agent: string): string
    decreases |bs|
  {
    if |bs| == 0 then s else SpliceAll(Splice(s, bs[0], agent), bs[1..], agent)
  }

  /** The reference result: the original text read once from left to right, with each
      block's range replaced, and the text between blocks copied unchanged. */
  function Reassemble(text: string, bs: seq<ExclusionBlock>, agent: string, from: nat): string
    decreases |bs|
  {
    if |bs| == 0 then Suffix(text, from)
    else
      Suffix(Prefix(text, bs[0].startIndex), from) + Replacement(bs[0], agent)
        + Reassemble(text, bs[1..], agent, bs[0].endIndex)
  }

  /** One splice inside `p` is unaffected by text appended after `p`. */
  lemma SpliceAppend(p: string, t: string, b: ExclusionBlock, agent: string)
    requires b.startIndex <= b.endIndex <= |p|
    ensures Splice(p + t, b, agent) == Splice(p, b, agent) + t
    ensures |Splice(p, b, agent)| >= b.startIndex
  {
    assert (p + t)[..b.startIndex] == p[..b.startIndex];
    assert (p + t)[b.endIndex..] == p[b.endIndex..] + t;
  }

  /** Splicing blocks that lie inside `p`, from the last one backwards, is unaffected by
      text appended after `p`. */
  lemma {:induction false} SpliceAllAppend(p: string, t: string, bs: seq<ExclusionBlock>, agent: string)
    requires forall k :: 0 <= k < |bs| ==> bs[k].startIndex <= bs[k].endIndex <= |p|
    requires forall a, b :: 0 <= a < b < |bs| ==> bs[b].endIndex <= bs[a].startIndex
    ensures SpliceAll(p + t, bs, agent) == SpliceAll(p, bs, agent) + t
    decreases |bs|
  {
    if |bs| > 0 {
      SpliceAppend(p, t, bs[0], agent);
      var p' := Splice(p, bs[0], agent);
      var rest := bs[1..];
      assert forall k :: 0 <= k < |rest| ==> rest[k] == bs[k + 1];
      SpliceAllAppend(p', t, rest, agent);
    }
  }

  /** Cutting a text short twice keeps the shorter cut. */
  lemma PrefixOfPrefix(text: string, a: nat, b: nat)
    requires a <= b
    ensures Prefix(Prefix(text, b), a) == Prefix(text, a)
  {}

  /** The left-to-right reading of a single block. */
  lemma ReassembleOne(text: string, last: ExclusionBlock, agent: string, from: nat)
    ensures Reassemble(text, [last], agent, from)
         == Reassemble(Prefix(text, last.startIndex), [], agent, from)
            + Replacement(last, agent) + Suffix(text, last.endIndex)
  {
    assert Reassemble(text, [last][1..], agent, last.endIndex) == Suffix(text, last.endIndex);
  }

  /** One step of `ReassembleSnoc`: its statement for `bs` from its statement for `bs[1..]`. */
  lemma ReassembleSnocStep(text: string, bs: seq<ExclusionBlock>, last: ExclusionBlock, agent: string, from: nat)
    requires |bs| > 0 && bs[0].startIndex <= last.startIndex
    requires Reassemble(text, bs[1..] + [last], agent, bs[0].endIndex)
          == Reassemble(Prefix(text, last.startIndex), bs[1..], agent, bs[0].endIndex)
             + Replacement(last, agent) + Suffix(text, last.endIndex)
    ensures Reassemble(text, bs + [last], agent, from)
         == Reassemble(Prefix(text, last.startIndex), bs, agent, from)
            + Replacement(last, agent) + Suffix(text, last.endIndex)
  {
    var q := Prefix(text, last.startIndex);
    var b, rest := bs[0], bs[1..];
    var x := Reassemble(q, rest, agent, b.endIndex);
    var front := Suffix(Prefix(text, b.startIndex), from) + Replacement(b, agent);
    assert Reassemble(text, bs + [last], agent, from) == front + Reassemble(text, rest + [last], agent, b.endIndex) by {
      assert (bs + [last])[0] == b && (bs + [last])[1..] == rest + [last];
    }
    assert Reassemble(q, bs, agent, from) == front + x by {
      PrefixOfPrefix(text, b.startIndex, last.startIndex);
    }
    ConcatAssoc(front, x, Replacement(last, agent), Suffix(text, last.endIndex));
  }

  lemma ConcatAssoc(a: string, b: string, c: string, d: string)
    ensures a + (b + c + d) == a + b + c + d
  {}

  lemma ConcatAssoc3(a: string, b: string, c: string)
    ensures a + b + c == a + (b + c)
  {}

  /** The left-to-right reading, split before its last block. */
  lemma {:induction false} ReassembleSnoc(text: string, bs: seq<ExclusionBlock>, last: ExclusionBlock,
                                          agent: string, from: nat)
    requires forall k :: 0 <= k < |bs| ==> bs[k].startIndex <= last.startIndex
    ensures Reassemble(text, bs + [last], agent, from)
         == Reassemble(Prefix(text, last.startIndex), bs, agent, from)
            + Replacement(last, agent) + Suffix(text, last.endIndex)
    decreases |bs|
  {
    if |bs| == 0 {
      assert bs + [last] == [last];
      ReassembleOne(text, last, agent, from);
    } else {
      assert forall k :: 0 <= k < |bs[1..]| ==> bs[1..][k] == bs[k + 1];
      ReassembleSnoc(text, bs[1..], last, agent, bs[0].endIndex);
      ReassembleSnocStep(text, bs, last, agent, from);
    }
  }

  /** Applying the blocks from the last one backwards, as the source does, gives the
      left-to-right reading: earlier offsets stay valid because every splice only touches
      text after them. */
  lemma {:induction false} SpliceBackwards(text: string, bs: seq<ExclusionBlock>, agent: string)
    requires WellPlaced(text, bs)
    ensures SpliceAll(text, Reverse(bs), agent) == Reassemble(text, bs, agent, 0)
    decreases |bs|
  {
    if |bs| > 0 {
      var n := |bs| - 1;
      WellPlacedBeforeLast(text, bs);
      SpliceBackwards(Prefix(text, bs[n].startIndex), bs[..n], agent);
      SpliceBackwardsStep(text, bs, agent);
    }
  }

  /** Splicing the last block first leaves the text before it, then its replacement and
      the text after it. */
  lemma SpliceLastFirst(text: string, bs: seq<ExclusionBlock>, agent: string)
    requires |bs| > 0
    ensures SpliceAll(text, Reverse(bs), agent)
         == SpliceAll(Prefix(text, bs[|bs| - 1].startIndex)
                        + (Replacement(bs[|bs| - 1], agent) + Suffix(text, bs[|bs| - 1].endIndex)),
                      Reverse(bs[..|bs| - 1]), agent)
  {
    var last, rinit := bs[|bs| - 1], Reverse(bs[..|bs| - 1]);
    assert Reverse(bs) == [last] + rinit;
    assert ([last] + rinit)[1..] == rinit;
    ConcatAssoc3(Prefix(text, last.startIndex), Replacement(last, agent), Suffix(text, last.endIndex));
  }

  /** Reversed, the blocks before the last one run backwards through the text before it. */
  lemma ReversedBeforeLast(text: string, bs: seq<ExclusionBlock>)
    requires WellPlaced(text, bs) && |bs| > 0
    ensures var q, rinit := Prefix(text, bs[|bs| - 1].startIndex), Reverse(bs[..|bs| - 1]);
            && (forall k :: 0 <= k < |rinit| ==> rinit[k].startIndex <= rinit[k].endIndex <= |q|)
            && (forall a, b :: 0 <= a < b < |rinit| ==> rinit[b].endIndex <= rinit[a].startIndex)
  {
    var n := |bs| - 1;
    var q, rinit := Prefix(text, bs[n].startIndex), Reverse(bs[..n]);
    forall k | 0 <= k < |rinit| ensures rinit[k].startIndex <= rinit[k].endIndex <= |q| {
      assert rinit[k] == bs[n - 1 - k];
    }
    forall a, b | 0 <= a < b < |rinit| ensures rinit[b].endIndex <= rinit[a].startIndex {
      assert rinit[a] == bs[n - 1 - a] && rinit[b] == bs[n - 1 - b];
    }
  }

  /** The left-to-right reading of all blocks, split before the last one. */
  lemma ReassembleLast(text: string, bs: seq<ExclusionBlock>, agent: string)
    requires WellPlaced(text, bs) && |bs| > 0
    ensures Reassemble(text, bs, agent, 0)
         == Reassemble(Prefix(text, bs[|bs| - 1].startIndex), bs[..|bs| - 1], agent, 0)
            + (Replacement(bs[|bs| - 1], agent) + Suffix(text, bs[|bs| - 1].endIndex))
  {
    var n := |bs| - 1;
    var init, last := bs[..n], bs[n];
    assert bs == init + [last];
    forall k | 0 <= k < |init| ensures init[k].startIndex <= last.startIndex {
      assert init[k] == bs[k];
    }
    ReassembleSnoc(text, init, last, agent, 0);
    ConcatAssoc3(Reassemble(Prefix(text, last.startIndex), init, agent, 0), Replacement(last, agent),
                 Suffix(text, last.endIndex));
  }

  /** The blocks before the last one lie in the text before it. */
  lemma WellPlacedBeforeLast(text: string, bs: seq<ExclusionBlock>)
    requires WellPlaced(text, bs) && |bs| > 0
    ensures WellPlaced(Prefix(text, bs[|bs| - 1].startIndex), bs[..|bs| - 1])
  {
    var n := |bs| - 1;
    var q, init := Prefix(text, bs[n].startIndex), bs[..n];
    forall k | 0 <= k < |init| ensures init[k].startIndex <= init[k].endIndex && init[k].startIndex <= |q| {
      assert init[k] == bs[k];
      assert bs[k].endIndex <= bs[n].startIndex;
    }
    forall a, b | 0 <= a < b < |init| ensures init[a].endIndex <= init[b].startIndex {
      assert init[a] == bs[a] && init[b] == bs[b];
    }
  }

  /** One step of `SpliceBackwards`: its statement for `bs` from its statement for all but
      the last block, inside the text before that block. */
  lemma SpliceBackwardsStep(text: string, bs: seq<ExclusionBlock>, agent: string)
    requires WellPlaced(text, bs) && |bs| > 0
    requires SpliceAll(Prefix(text, bs[|bs| - 1].startIndex), Reverse(bs[..|bs| - 1]), agent)
          == Reassemble(Prefix(text, bs[|bs| - 1].startIndex), bs[..|bs| - 1], agent, 0)
    ensures SpliceAll(text, Reverse(bs), agent) == Reassemble(text, bs, agent, 0)
  {
    var last := bs[|bs| - 1];
    SpliceLastFirst(text, bs, agent);
    ReversedBeforeLast(text, bs);
    SpliceAllAppend(Prefix(text, last.startIndex), Replacement(last, agent) + Suffix(text, last.endIndex),
                    Reverse(bs[..|bs| - 1]), agent);
    ReassembleLast(text, bs, agent);
  }

  // ---------------------------------------------------------------------------
  // filtering
  // ---------------------------------------------------------------------------

  /** `filterContentForAgent`. */
  function FilterContentForAgent(content: string, agent: string): (r: string)
    ensures |ParseExclusionBlocks(content)| == 0 ==> r == content
    ensures |ParseExclusionBlocks(content)| > 0 ==> NoTripleNewline(r) && IsTrimmed(r)
  {
    var blocks := ParseExclusionBlocks(content);
    if |blocks| == 0 then content
    else CleanupContent(SpliceAll(content, SortByStartDescending(blocks), agent))
  }

  /** The same text described line by line: lines outside blocks are copied with their
      newline; a block, from its start line through the newline after its end line, becomes
      nothing for an excluded agent and its inner lines (with no newline after the last one)
      for every other agent. A kept block's last inner line therefore runs into the line
      after the end tag. */
  function LineResult(lines: seq<string>, pairs: seq<TagPair>, agent: string, from: nat): string
    requires from <= |lines|
    requires forall p :: p in pairs ==> from <= p.open < p.close < |lines|
    requires Ascending(pairs)
    decreases |pairs|
  {
    if |pairs| == 0 then Join(lines[from..], NL)
    else
      var p := pairs[0];
      assert forall k :: 0 <= k < |pairs[1..]| ==> pairs[1..][k] == pairs[k + 1];
      Terminated(lines[from..p.open])
        + (if ShouldExcludeForAgent(ParseAgentList(p.agentText), agent) then "" else InnerText(lines, p))
        + LineResult(lines, pairs[1..], agent, p.close + 1)
  }

  /** The text between the starts of two lines, read through `substring`. */
  lemma SliceByLines(lines: seq<string>, a: nat, b: nat)
    requires |lines| >= 1 && a <= b < |lines|
    ensures Suffix(Prefix(Join(lines, NL), LinePosition(lines, b)), LinePosition(lines, a))
         == Terminated(lines[a..b])
  {
    LinePositionSlice(lines, a, b);
  }

  /** One block of the left-to-right reading, in terms of lines. */
  lemma ReassembleStep(lines: seq<string>, pairs: seq<TagPair>, agent: string, from: nat)
    requires |lines| >= 1 && |pairs| > 0
    requires forall p :: p in pairs ==> from <= p.open < p.close < |lines|
    ensures Reassemble(Join(lines, NL), BlocksOf(lines, pairs), agent, LinePosition(lines, from))
         == Terminated(lines[from..pairs[0].open])
            + (if ShouldExcludeForAgent(ParseAgentList(pairs[0].agentText), agent) then ""
               else InnerText(lines, pairs[0]))
            + Reassemble(Join(lines, NL), BlocksOf(lines, pairs[1..]), agent,
                         LinePosition(lines, pairs[0].close + 1))
  {
    var p := pairs[0];
    assert p in pairs;
    SliceByLines(lines, from, p.open);
    var bs := BlocksOf(lines, pairs);
    assert bs[1..] == BlocksOf(lines, pairs[1..]);
  }

  /** Past the last block, both readings copy the rest of the text. */
  lemma ReassembleByLinesTail(lines: seq<string>, agent: string, from: nat)
    requires |lines| >= 1 && from <= |lines|
    ensures Reassemble(Join(lines, NL), BlocksOf(lines, []), agent, LinePosition(lines, from))
         == LineResult(lines, [], agent, from)
  {
    LinePositionSuffix(lines, from);
    if from == |lines| {
      assert lines[from..] == [];
    }
  }

  /** One step of `ReassembleByLines`: its statement for `pairs` from its statement for
      `pairs[1..]`. */
  lemma ReassembleByLinesStep(lines: seq<string>, pairs: seq<TagPair>, agent: string, from: nat)
    requires |lines| >= 1 && from <= |lines| && |pairs| > 0
    requires forall p :: p in pairs ==> from <= p.open < p.close < |lines|
    requires Ascending(pairs)
    requires forall q :: q in pairs[1..] ==> pairs[0].close + 1 <= q.open < q.close < |lines|
    requires Ascending(pairs[1..])
    requires Reassemble(Join(lines, NL), BlocksOf(lines, pairs[1..]), agent, LinePosition(lines, pairs[0].close + 1))
          == LineResult(lines, pairs[1..], agent, pairs[0].close + 1)
    ensures Reassemble(Join(lines, NL), BlocksOf(lines, pairs), agent, LinePosition(lines, from))
         == LineResult(lines, pairs, agent, from)
  {
    ReassembleStep(lines, pairs, agent, from);
  }

  lemma {:induction false} ReassembleByLines(lines: seq<string>, pairs: seq<TagPair>, agent: string, from: nat)
    requires |lines| >= 1 && from <= |lines|
    requires forall p :: p in pairs ==> from <= p.open < p.close < |lines|
    requires Ascending(pairs)
    ensures Reassemble(Join(lines, NL), BlocksOf(lines, pairs), agent, LinePosition(lines, from))
         == LineResult(lines, pairs, agent, from)
    decreases |pairs|
  {
    if |pairs| == 0 {
      assert pairs == [];
      ReassembleByLinesTail(lines, agent, from);
    } else {
      var p, rest := pairs[0], pairs[1..];
      assert p in pairs;
      assert forall k :: 0 <= k < |rest| ==> rest[k] == pairs[k + 1];
      assert forall q :: q in rest ==> p.close + 1 <= q.open < q.close < |lines|;
      assert Ascending(rest);
      ReassembleByLines(lines, rest, agent, p.close + 1);
      ReassembleByLinesStep(lines, pairs, agent, from);
    }
  }

  /** What an agent receives, in terms of lines: when the text has blocks, it is the
      line-by-line reading above, cleaned up; when it has none, the text is returned as is. */
  lemma FilterByLines(content: string, agent: string)
    ensures FilterContentForAgent(content, agent)
         == if |TagPairs(content)| == 0 then content
            else CleanupContent(LineResult(Lines(content), TagPairs(content), agent, 0))
  {
    var lines, pairs := Lines(content), TagPairs(content);
    var blocks := ParseExclusionBlocks(content);
    if |pairs| > 0 {
      ParsedBlocksAscending(content);
      SortOfAscendingIsReverse(blocks);
      BlocksWellPlaced(content);
      SpliceBackwards(content, blocks, agent);
      ReassembleByLines(lines, pairs, agent, 0);
    }
  }

  // ---------------------------------------------------------------------------
  // agents named in the text
  // ---------------------------------------------------------------------------

  /** Every agent list of the blocks, one after another. */
  function AllListed(bs: seq<ExclusionBlock>): (r: seq<string>)
    ensures forall a :: a in r <==> exists k :: 0 <= k < |bs| && a in bs[k].excludedAgents
    decreases |bs|
  {
    if |bs| == 0 then []
    else
      var rest := AllListed(bs[1..]);
      assert forall k :: 1 <= k < |bs| ==> bs[k] == bs[1..][k - 1];
      bs[0].excludedAgents + rest
  }

  /** `getExcludedAgentsInContent`: every agent named by some block, once each, sorted. */
  function ExcludedAgentsInContent(content: string): (r: seq<string>)
    ensures StrictlySorted(r)
    ensures forall a :: a in r <==> exists k :: 0 <= k < |ParseExclusionBlocks(content)|
                                        && a in ParseExclusionBlocks(content)[k].excludedAgents
  {
    InsertAll(AllListed(ParseExclusionBlocks(content)), [])
  }

  function LowerAll(xs: seq<string>): (r: seq<string>)
    ensures |r| == |xs|
    ensures forall k :: 0 <= k < |xs| ==> r[k] == Lower(xs[k])
    decreases |xs|
  {
    if |xs| == 0 then [] else [Lower(xs[0])] + LowerAll(xs[1..])
  }

  function Without(xs: seq<string>, banned: seq<string>): (r: seq<string>)
    ensures forall a :: a in r <==> a in xs && a !in banned
    ensures StrictlySorted(xs) ==> StrictlySorted(r)
    decreases |xs|
  {
    if |xs| == 0 then []
    else
      var rest := Without(xs[1..], banned);
      if xs[0] in banned then rest
      else
        var r := [xs[0]] + rest;
        assert StrictlySorted(xs) ==> StrictlySorted(r) by {
          if StrictlySorted(xs) {
            forall a, c | 0 <= a < c < |r| ensures Less(r[a], r[c]) {
              assert r[c] == rest[c - 1];
              if a > 0 {
                assert r[a] == rest[a - 1];
              } else {
                assert r[c] in xs[1..];
                var j :| 0 <= j < |xs[1..]| && xs[1..][j] == r[c];
                assert xs[j + 1] == r[c];
              }
            }
          }
        }
        r
  }

  /** `validateExcludedAgents`: the agents named in the text that are none of the valid
      shortcodes (compared in lower case), sorted. */
  function ValidateExcludedAgents(content: string, validShortcodes: seq<string>): (r: seq<string>)
    ensures StrictlySorted(r)
    ensures forall a :: a in r <==> a in ExcludedAgentsInContent(content) && a !in LowerAll(validShortcodes)
  {
    Without(ExcludedAgentsInContent(content), LowerAll(validShortcodes))
  }
}
