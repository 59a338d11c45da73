/** The last step of filtering: `content.replace(/\n{3,}/g, '\n\n').trim()`. Every run of
    three or more newlines shrinks to exactly two, then surrounding whitespace goes. */
module Cleanup {
  import opened Strings

  /** Length of the run of newlines at the start of `s`. */
  function NewlineRun(s: string): (n: nat)
    ensures n <= |s|
    ensures forall k :: 0 <= k < n ==> s[k] == '\n'
    ensures n < |s| ==> s[n] != '\n'
    decreases |s|
  {
    if |s| == 0 || s[0] != '\n' then 0 else 1 + NewlineRun(s[1..])
  }

  /** No three newlines in a row. */
  predicate NoTripleNewline(s: string) {
    forall k :: 0 <= k < |s| - 2 ==> !(s[k] == '\n' && s[k + 1] == '\n' && s[k + 2] == '\n')
  }

  /** The text with every newline deleted. */
  function WithoutNewlines(s: string): (r: string)
    ensures '\n' !in r
    decreases |s|
  {
    if |s| == 0 then ""
    else if s[0] == '\n' then WithoutNewlines(s[1..])
    else [s[0]] + WithoutNewlines(s[1..])
  }

  /** `s.replace(/\n{3,}/g, '\n\n')`: the global, greedy match takes each maximal run of
      at least three newlines and puts two in its place. */
  function CollapseNewlines(s: string): (r: string)
    ensures NoTripleNewline(r)
    ensures |r| > 0 && r[0] == '\n' <==> |s| > 0 && s[0] == '\n'
    decreases |s|
  {
    if |s| == 0 then ""
    else if s[0] != '\n' then
      var rest := CollapseNewlines(s[1..]);
      assert forall k :: 1 <= k < |[s[0]] + rest| ==> ([s[0]] + rest)[k] == rest[k - 1];
      [s[0]] + rest
    else
      var n := NewlineRun(s);
      var run := if n >= 3 then "\n\n" else s[..n];
      var rest := CollapseNewlines(s[n..]);
      assert |run| <= 2 && forall k :: 0 <= k < |run| ==> run[k] == '\n';
      assert forall k :: |run| <= k < |run + rest| ==> (run + rest)[k] == rest[k - |run|];
      run + rest
  }

  /** `n` newlines. */
  function Newlines(n: nat): (r: string)
    ensures |r| == n && forall k :: 0 <= k < n ==> r[k] == '\n'
  {
    seq(n, _ => '\n')
  }

  /** The leading run of `n` newlines in front of text that does not start with one is `n` long. */
  lemma RunOfNewlines(n: nat, t: string)
    requires |t| == 0 || t[0] != '\n'
    ensures NewlineRun(Newlines(n) + t) == n
    ensures (Newlines(n) + t)[n..] == t
  {
    var s := Newlines(n) + t;
    assert forall k :: 0 <= k < n ==> s[k] == '\n';
    assert n < |s| ==> s[n] == t[0];
  }

  /** A run of three or more newlines becomes exactly two. */
  lemma CollapseLongRun(n: nat, t: string)
    requires n >= 3
    requires |t| == 0 || t[0] != '\n'
    ensures CollapseNewlines(Newlines(n) + t) == "\n\n" + CollapseNewlines(t)
  {
    RunOfNewlines(n, t);
  }

  /** A run of one or two newlines is kept. */
  lemma CollapseShortRun(n: nat, t: string)
    requires 1 <= n <= 2
    requires |t| == 0 || t[0] != '\n'
    ensures CollapseNewlines(Newlines(n) + t) == Newlines(n) + CollapseNewlines(t)
  {
    RunOfNewlines(n, t);
    assert (Newlines(n) + t)[..n] == Newlines(n);
  }

  /** Any other character is kept in place. */
  lemma CollapseOtherChar(c: char, t: string)
    requires c != '\n'
    ensures CollapseNewlines([c] + t) == [c] + CollapseNewlines(t)
  {
    assert ([c] + t)[1..] == t;
  }

  /** Collapsing keeps every character other than a newline, in order. */
  lemma {:induction false} CollapseKeepsText(s: string)
    ensures WithoutNewlines(CollapseNewlines(s)) == WithoutNewlines(s)
    decreases |s|
  {
    if |s| > 0 {
      if s[0] != '\n' {
        CollapseKeepsText(s[1..]);
      } else {
        var n := NewlineRun(s);
        CollapseKeepsText(s[n..]);
        NewlinesVanish(s[..n], s[n..]);
        var run := if n >= 3 then "\n\n" else s[..n];
        NewlinesVanish(run, CollapseNewlines(s[n..]));
        assert s == s[..n] + s[n..];
      }
    }
  }

  /** A leading run of newlines leaves no trace once newlines are deleted. */
  lemma {:induction false} NewlinesVanish(run: string, t: string)
    requires forall k :: 0 <= k < |run| ==> run[k] == '\n'
    ensures WithoutNewlines(run + t) == WithoutNewlines(t)
    decreases |run|
  {
    if |run| > 0 {
      assert (run + t)[1..] == run[1..] + t;
      NewlinesVanish(run[1..], t);
    } else {
      assert run + t == t;
    }
  }

  /** Text without a triple newline comes through unchanged. */
  lemma {:induction false} CollapseNormal(s: string)
    requires NoTripleNewline(s)
    ensures CollapseNewlines(s) == s
    decreases |s|
  {
    if |s| > 0 {
      if s[0] != '\n' {
        assert NoTripleNewline(s[1..]) by {
          forall k | 0 <= k < |s[1..]| - 2 ensures !(s[1..][k] == '\n' && s[1..][k + 1] == '\n' && s[1..][k + 2] == '\n') {
            assert s[1..][k] == s[k + 1];
          }
        }
        CollapseNormal(s[1..]);
      } else {
        var n := NewlineRun(s);
        assert 0 < |s| - 2 ==> !(s[0] == '\n' && s[1] == '\n' && s[2] == '\n');
        assert n < 3;
        assert NoTripleNewline(s[n..]) by {
          forall k | 0 <= k < |s[n..]| - 2 ensures !(s[n..][k] == '\n' && s[n..][k + 1] == '\n' && s[n..][k + 2] == '\n') {
            assert s[n..][k] == s[n + k];
          }
        }
        CollapseNormal(s[n..]);
        assert s == s[..n] + s[n..];
      }
    }
  }

  /** Collapsing twice is collapsing once. */
  lemma CollapseIdempotent(s: string)
    ensures CollapseNewlines(CollapseNewlines(s)) == CollapseNewlines(s)
  {
    CollapseNormal(CollapseNewlines(s));
  }

  /** `cleanupContent`: the collapsed text with only whitespace cut from its two ends. */
  function CleanupContent(s: string): (r: string)
    ensures NoTripleNewline(r)
    ensures IsTrimmed(r)
    ensures var c := CollapseNewlines(s);
            var a := LeadingWhitespace(c);
            && a + |r| <= |c|
            && r == c[a..a + |r|]
            && AllWhitespace(c[..a]) && AllWhitespace(c[a + |r|..])
    ensures r == [] <==> AllWhitespace(CollapseNewlines(s))
  {
    TrimCollapsed(CollapseNewlines(s));
    Trim(CollapseNewlines(s))
  }

  /** Trimming text without a triple newline keeps it free of them, and cuts only
      whitespace from the ends. */
  lemma TrimCollapsed(c: string)
    requires NoTripleNewline(c)
    ensures NoTripleNewline(Trim(c))
    ensures Trim(c) == c[LeadingWhitespace(c)..LeadingWhitespace(c) + |Trim(c)|]
  {
    TrimIsSlice(c);
    NoTripleInSlice(c, LeadingWhitespace(c), LeadingWhitespace(c) + |Trim(c)|);
  }

  /** A slice of text without a triple newline has none either. */
  lemma NoTripleInSlice(c: string, a: nat, b: nat)
    requires a <= b <= |c|
    requires NoTripleNewline(c)
    ensures NoTripleNewline(c[a..b])
  {
    var m := c[a..b];
    forall k | 0 <= k < |m| - 2 ensures !(m[k] == '\n' && m[k + 1] == '\n' && m[k + 2] == '\n') {
      assert m[k] == c[a + k] && m[k + 1] == c[a + k + 1] && m[k + 2] == c[a + k + 2];
    }
  }

  /** Cleaning up a cleaned-up text changes nothing. */
  lemma CleanupIdempotent(s: string)
    ensures CleanupContent(CleanupContent(s)) == CleanupContent(s)
  {
    var r := CleanupContent(s);
    CollapseNormal(r);
    TrimTrimmed(r);
  }
}
