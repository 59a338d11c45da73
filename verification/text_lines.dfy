/** A text seen as its lines: `content.split('\n')` and the character offset at which
    each line starts (`getLinePosition`). */
module TextLines {
  import opened Strings

  const NL := "\n"

  /** The lines of a text: `content.split('\n')`. */
  function Lines(content: string): (lines: seq<string>)
    ensures |lines| >= 1
    ensures Join(lines, NL) == content
    ensures forall k :: 0 <= k < |lines| ==> '\n' !in lines[k]
  {
    JoinSplit(content, '\n');
    Split(content, '\n')
  }

  /** Every line followed by its newline: the text of a run of whole lines. */
  function Terminated(lines: seq<string>): string
    decreases |lines|
  {
    if |lines| == 0 then "" else lines[0] + NL + Terminated(lines[1..])
  }

  /** `getLinePosition(content, n)`: the summed lengths of the first `n` lines, each
      counted with one newline; lines past the last are not counted. */
  function LinePosition(lines: seq<string>, n: nat): (pos: nat)
    ensures pos == |Terminated(lines[..if n <= |lines| then n else |lines|])|
    decreases |lines|
  {
    if n == 0 || |lines| == 0 then 0
    else
      var rest := LinePosition(lines[1..], n - 1);
      assert lines[..if n <= |lines| then n else |lines|][1..]
          == lines[1..][..if n - 1 <= |lines| - 1 then n - 1 else |lines| - 1];
      |lines[0]| + 1 + rest
  }

  lemma {:induction false} TerminatedAppend(a: seq<string>, b: seq<string>)
    ensures Terminated(a + b) == Terminated(a) + Terminated(b)
    decreases |a|
  {
    if |a| == 0 {
      assert a + b == b;
    } else {
      assert (a + b)[1..] == a[1..] + b;
      TerminatedAppend(a[1..], b);
    }
  }

  /** The joined text splits, at the start of any line `m`, into the whole lines before
      `m` and the join of the rest. */
  lemma {:induction false} JoinAt(lines: seq<string>, m: nat)
    requires m < |lines|
    ensures Join(lines, NL) == Terminated(lines[..m]) + Join(lines[m..], NL)
    decreases m
  {
    if m > 0 {
      JoinAt(lines[1..], m - 1);
      assert lines[1..][..m - 1] == lines[1..m];
      assert lines[1..][m - 1..] == lines[m..];
      assert lines[..m][1..] == lines[1..m];
    } else {
      assert lines[..0] == [] && lines[0..] == lines;
    }
  }

  /** Joined text plus one trailing newline is the text of all its lines. */
  lemma {:induction false} JoinTerminated(lines: seq<string>)
    requires |lines| >= 1
    ensures Terminated(lines) == Join(lines, NL) + NL
    decreases |lines|
  {
    if |lines| > 1 {
      JoinTerminated(lines[1..]);
    } else {
      assert lines[1..] == [];
    }
  }

  /** The text from the start of line `n` on is the join of the lines from `n` on, and a
      position past the last line lies one past the end of the text. */
  lemma LinePositionSuffix(lines: seq<string>, n: nat)
    requires |lines| >= 1
    ensures n < |lines| ==> LinePosition(lines, n) <= |Join(lines, NL)|
    ensures n < |lines| ==> Join(lines, NL)[LinePosition(lines, n)..] == Join(lines[n..], NL)
    ensures n >= |lines| ==> LinePosition(lines, n) == |Join(lines, NL)| + 1
  {
    if n < |lines| {
      JoinAt(lines, n);
    } else {
      assert lines[..|lines|] == lines;
      JoinTerminated(lines);
    }
  }

  /** The text between the starts of lines `a` and `b` is those whole lines. */
  lemma LinePositionSlice(lines: seq<string>, a: nat, b: nat)
    requires a <= b < |lines|
    ensures LinePosition(lines, a) <= LinePosition(lines, b) <= |Join(lines, NL)|
    ensures Join(lines, NL)[LinePosition(lines, a)..LinePosition(lines, b)] == Terminated(lines[a..b])
  {
    var c := Join(lines, NL);
    JoinAt(lines, b);
    assert lines[..b] == lines[..a] + lines[a..b];
    TerminatedAppend(lines[..a], lines[a..b]);
    var pa, mid := Terminated(lines[..a]), Terminated(lines[a..b]);
    assert c == pa + mid + Join(lines[b..], NL);
    assert c[|pa|..|pa| + |mid|] == mid;
  }

  /** Later lines start later. */
  lemma LinePositionMonotone(lines: seq<string>, a: nat, b: nat)
    requires a <= b
    ensures LinePosition(lines, a) <= LinePosition(lines, b)
  {
    var a', b' := if a <= |lines| then a else |lines|, if b <= |lines| then b else |lines|;
    assert lines[..b'] == lines[..a'] + lines[a'..b'];
    TerminatedAppend(lines[..a'], lines[a'..b']);
  }

  /** Each line adds its length plus one newline. */
  lemma LinePositionStep(lines: seq<string>, n: nat)
    requires n < |lines|
    ensures LinePosition(lines, n + 1) == LinePosition(lines, n) + |lines[n]| + 1
  {
    assert lines[..n + 1] == lines[..n] + [lines[n]];
    TerminatedAppend(lines[..n], [lines[n]]);
    assert [lines[n]][1..] == [];
  }
}
