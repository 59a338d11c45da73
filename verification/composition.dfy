/** Building one rules document from several sources: composition-rule segments in priority
    order, then the project file, joined by a horizontal rule; base rules go last. */
module Composition {
  import opened Wrappers
  import opened Strings
  import opened Paths
  import opened ConfigService

  /** What goes between two segments. */
  const SEPARATOR := "\n\n---\n\n"

  /** The segments that take part: those that loaded and are not empty, in order. */
  function Survivors(loaded: seq<Option<string>>): (r: seq<string>)
    ensures |r| <= |loaded|
    ensures forall s :: s in r ==> s != "" && Some(s) in loaded
    ensures forall s :: s != "" && Some(s) in loaded ==> s in r
    decreases |loaded|
  {
    if |loaded| == 0 then []
    else
      var rest := Survivors(loaded[1..]);
      assert loaded == [loaded[0]] + loaded[1..];
      if loaded[0].Some? && loaded[0].value != "" then [loaded[0].value] + rest else rest
  }

  /** Survivors are taken segment by segment, so their order is the order of the rules. */
  lemma {:induction false} SurvivorsAppend(a: seq<Option<string>>, b: seq<Option<string>>)
    ensures Survivors(a + b) == Survivors(a) + Survivors(b)
    decreases |a|
  {
    if |a| > 0 {
      assert (a + b)[0] == a[0] && (a + b)[1..] == a[1..] + b;
      SurvivorsAppend(a[1..], b);
      var x := a[0];
      if x.Some? && x.value != "" {
        assert [x.value] + (Survivors(a[1..]) + Survivors(b)) == [x.value] + Survivors(a[1..]) + Survivors(b);
      }
    } else {
      assert a + b == b;
    }
  }

  /** A failed or empty segment anywhere leaves the document as it was. */
  lemma DroppedSegmentIsInvisible(loaded: seq<Option<string>>, k: nat, failed: Option<string>)
    requires k <= |loaded|
    requires failed.None? || failed == Some("")
    ensures Survivors(loaded[..k] + [failed] + loaded[k..]) == Survivors(loaded)
  {
    DropFromMiddle(loaded[..k], loaded[k..], failed);
    assert loaded[..k] + loaded[k..] == loaded;
  }

  lemma DropFromMiddle(pre: seq<Option<string>>, post: seq<Option<string>>, failed: Option<string>)
    requires failed.None? || failed == Some("")
    ensures Survivors(pre + [failed] + post) == Survivors(pre + post)
  {
    assert Survivors([failed]) == [] by {
      assert [failed][1..] == [];
    }
    SurvivorsAppend(pre, [failed]);
    assert Survivors(pre + [failed]) == Survivors(pre);
    SurvivorsAppend(pre + [failed], post);
    SurvivorsAppend(pre, post);
  }

  /** The tail of `getComposedContent`: with no rules, or no surviving segment, the project
      content alone; otherwise every surviving segment and then the project content. */
  function ComposeWithMain(loaded: seq<Option<string>>, main: string): (r: string)
    ensures r == Join(Survivors(loaded) + [main], SEPARATOR)
    ensures |Survivors(loaded)| == 0 ==> r == main
    ensures |Survivors(loaded)| > 0 ==> r == Join(Survivors(loaded), SEPARATOR) + SEPARATOR + main
  {
    var parts := Survivors(loaded) + [main];
    if |loaded| == 0 then main
    else if |parts| == 1 then
      assert parts == [main];
      main
    else
      JoinAppend(Survivors(loaded), [main], SEPARATOR);
      Join(parts, SEPARATOR)
  }

  /** The content `compose` writes: the surviving segments joined, or nothing when none
      survives. */
  function ComposeRulesOnly(loaded: seq<Option<string>>): (r: Option<string>)
    ensures r.None? <==> |Survivors(loaded)| == 0
    ensures r.Some? ==> r.value == Join(Survivors(loaded), SEPARATOR)
  {
    var parts := Survivors(loaded);
    if |parts| == 0 then None else Some(Join(parts, SEPARATOR))
  }

  /** `generate` and `compose` agree: the generated document is what `compose` would write,
      a separator, and the project content. */
  lemma ComposeAgrees(loaded: seq<Option<string>>, main: string)
    ensures ComposeWithMain(loaded, main)
         == match ComposeRulesOnly(loaded) { case None => main case Some(c) => c + SEPARATOR + main }
  {}

  /** `buildFinalContent`: base rules that are present and not blank are appended after a
      blank line; otherwise the content is left alone. */
  function BuildFinalContent(content: string, baseRules: Option<string>): (r: string)
    ensures |content| <= |r| && r[..|content|] == content
    ensures baseRules.None? || AllWhitespace(baseRules.value) ==> r == content
    ensures baseRules.Some? && !AllWhitespace(baseRules.value) ==> r[|content|..] == "\n\n" + baseRules.value
  {
    if baseRules.Some? && Trim(baseRules.value) != [] then content + "\n\n" + baseRules.value else content
  }

  // ---------------------------------------------------------------------------
  // loading composition rules
  // ---------------------------------------------------------------------------

  /** `resolveCompositionRulePath`: URLs and absolute paths stay, others are taken from the
      working directory. */
  function ResolveCompositionRulePath(cwd: string, rulePath: string): (r: string)
    ensures IsUrl(rulePath) || IsAbsolute(rulePath) ==> r == rulePath
    ensures !IsUrl(rulePath) && !IsAbsolute(rulePath) ==> r == Resolve(cwd, rulePath)
  {
    if IsUrl(rulePath) then rulePath else Resolve(cwd, rulePath)
  }

  /** `getCompositionRuleContent`: a URL is fetched, a path is read; a failed fetch or a
      missing file gives nothing. */
  function LoadRule(env: Env, rule: CompositionRule): (r: Option<string>)
    ensures r.Some? ==> var p := ResolveCompositionRulePath(env.cwd, rule.path);
                        (IsUrl(p) && p in env.urls && r.value == env.urls[p])
                        || (!IsUrl(p) && p in env.files && r.value == env.files[p])
    ensures var p := ResolveCompositionRulePath(env.cwd, rule.path);
            (IsUrl(p) && p in env.urls) || (!IsUrl(p) && p in env.files) ==> r.Some?
  {
    var p := ResolveCompositionRulePath(env.cwd, rule.path);
    if IsUrl(p) then (if p in env.urls then Some(env.urls[p]) else None)
    else Read(env.files, p)
  }

  function LoadAll(env: Env, rules: seq<CompositionRule>): (r: seq<Option<string>>)
    ensures |r| == |rules|
    ensures forall k :: 0 <= k < |rules| ==> r[k] == LoadRule(env, rules[k])
  {
    seq(|rules|, k requires 0 <= k < |rules| => LoadRule(env, rules[k]))
  }
}
