/** The `compose` command: turn a list of rule identifiers (template names, template paths,
    file paths) into the composition rules of the configuration, then write `rulesync.md`
    from those rules alone. */
module Compose {
  import opened Wrappers
  import opened Strings
  import opened Sequences
  import opened Paths
  import opened ConfigService
  import opened Composition
  import opened WritePlanner

  // ---------------------------------------------------------------------------
  // finding templates
  // ---------------------------------------------------------------------------

  /** A directory entry as `readdir` lists it. */
  datatype Entry = File(name: string) | Dir(name: string, entries: seq<Entry>)

  /** `getAllMarkdownFiles`: every file below `dir`, depth first in listing order, whose
      name ends in `.md` and is not `README.md`. */
  function MarkdownFiles(dir: string, entries: seq<Entry>): (r: seq<string>)
    ensures forall f :: f in r ==> EndsWith(f, ".md") && StartsWith(f, dir + "/")
    decreases entries
  {
    if |entries| == 0 then []
    else
      var here := match entries[0]
        case File(n) => if EndsWith(n, ".md") && n != "README.md" then [dir + "/" + n] else []
        case Dir(n, children) =>
          var sub := MarkdownFiles(dir + "/" + n, children);
          assert forall f :: f in sub ==> StartsWith(f, dir + "/") by {
            forall f | f in sub ensures StartsWith(f, dir + "/") {
              assert f[..|dir| + 1] == (dir + "/" + n + "/")[..|dir| + 1];
            }
          }
          sub;
      assert forall f :: f in here ==> EndsWith(f, ".md") by {
        forall f | f in here ensures EndsWith(f, ".md") {
          if entries[0].File? {
            var n := entries[0].name;
            assert f == dir + "/" + n;
            assert f[|f| - 3..] == n[|n| - 3..];
          }
        }
      }
      here + MarkdownFiles(dir, entries[1..])
  }

  /** In a directory of plain files, exactly the Markdown files other than `README.md` are
      listed. */
  lemma {:induction false} FlatListing(dir: string, entries: seq<Entry>, n: string)
    requires forall k :: 0 <= k < |entries| ==> entries[k].File?
    ensures dir + "/" + n in MarkdownFiles(dir, entries) <==>
              File(n) in entries && EndsWith(n, ".md") && n != "README.md"
    decreases |entries|
  {
    if |entries| > 0 {
      FlatListing(dir, entries[1..], n);
      var m := entries[0].name;
      assert entries == [entries[0]] + entries[1..];
      assert dir + "/" + m == dir + "/" + n ==> m == n by {
        if dir + "/" + m == dir + "/" + n {
          assert m == (dir + "/" + m)[|dir| + 1..];
        }
      }
    }
  }

  /** A template's name: its basename without `.md`. */
  function TemplateName(f: string): string {
    BasenameWithout(f, ".md")
  }

  /** The first filter of `findMatchingTemplateFiles`: the name equals the identifier or
      contains it, case included. */
  function ExactMatches(files: seq<string>, identifier: string): (r: seq<string>)
    ensures forall f :: f in r <==> f in files && (TemplateName(f) == identifier || Contains(TemplateName(f), identifier))
    ensures IsSubsequence(r, files)
    decreases |files|
  {
    if |files| == 0 then []
    else
      var rest := ExactMatches(files[1..], identifier);
      SubsequenceSkip(rest, files);
      var b := TemplateName(files[0]);
      if b == identifier || Contains(b, identifier) then
        assert ([files[0]] + rest)[1..] == rest;
        [files[0]] + rest
      else rest
  }

  /** The fallback filter: either name contains the other, ignoring case. */
  function PartialMatches(files: seq<string>, identifier: string): (r: seq<string>)
    ensures forall f :: f in r <==> f in files && (Contains(Lower(TemplateName(f)), Lower(identifier))
                                                    || Contains(Lower(identifier), Lower(TemplateName(f))))
    ensures IsSubsequence(r, files)
    decreases |files|
  {
    if |files| == 0 then []
    else
      var rest := PartialMatches(files[1..], identifier);
      SubsequenceSkip(rest, files);
      var b := Lower(TemplateName(files[0]));
      var t := Lower(identifier);
      if Contains(b, t) || Contains(t, b) then
        assert ([files[0]] + rest)[1..] == rest;
        [files[0]] + rest
      else rest
  }

  /** An occurrence survives lowering both texts. */
  lemma ContainsLower(s: string, pat: string)
    requires Contains(s, pat)
    ensures Contains(Lower(s), Lower(pat))
  {
    var k := IndexOf(s, pat).value;
    assert OccursAt(s, pat, k);
    var ls, lp := Lower(s), Lower(pat);
    forall i | 0 <= i < |pat| ensures ls[k..k + |pat|][i] == lp[i] {
      assert s[k..k + |pat|][i] == pat[i];
    }
    assert ls[k..k + |pat|] == lp;
    assert OccursAt(ls, lp, k);
  }

  /** Every exact match is a partial match too, so the fallback only ever widens. */
  lemma ExactWithinPartial(files: seq<string>, identifier: string)
    ensures forall f :: f in ExactMatches(files, identifier) ==> f in PartialMatches(files, identifier)
  {
    forall f | f in ExactMatches(files, identifier) ensures f in PartialMatches(files, identifier) {
      var b := TemplateName(f);
      if b == identifier {
        assert OccursAt(b, identifier, 0);
        assert Contains(b, identifier);
      }
      ContainsLower(b, identifier);
    }
  }

  /** `findMatchingTemplateFiles`: nothing without a templates directory; an identifier
      with a `/` names one template file directly; otherwise the exact matches, or, when
      there are none, the partial ones. */
  function FindMatchingTemplateFiles(files: Files, templatesDir: string, templates: Option<seq<Entry>>,
                                     identifier: string): (r: seq<string>)
    ensures templates.None? ==> r == []
    ensures templates.Some? && '/' in identifier ==>
              r == if templatesDir + "/" + identifier + ".md" in files then [templatesDir + "/" + identifier + ".md"] else []
    ensures templates.Some? && '/' !in identifier ==>
              var all := MarkdownFiles(templatesDir, templates.value);
              && IsSubsequence(r, all)
              && (|ExactMatches(all, identifier)| > 0 ==> r == ExactMatches(all, identifier))
              && (|ExactMatches(all, identifier)| == 0 ==> r == PartialMatches(all, identifier))
  {
    match templates
    case None => []
    case Some(entries) =>
      if '/' in identifier then
        var p := templatesDir + "/" + identifier + ".md";
        if p in files then [p] else []
      else
        var all := MarkdownFiles(templatesDir, entries);
        var exact := ExactMatches(all, identifier);
        if |exact| > 0 then exact else PartialMatches(all, identifier)
  }

  // ---------------------------------------------------------------------------
  // resolving identifiers
  // ---------------------------------------------------------------------------

  /** `createCompositionRule`: enabled, with the given priority. */
  function CreateCompositionRule(path: string, name: string, priority: int): (r: CompositionRule)
    ensures r.enabled && r.priority == Some(priority)
    ensures r.name == name && r.path == path
  {
    CompositionRule(name, path, Some(priority), true)
  }

  /** `resolveFilePath`: the file, taken from the working directory unless absolute, must
      exist; the rule is named after the file without its extension. */
  function ResolveFilePath(env: Env, filePath: string, priority: int): (r: Option<CompositionRule>)
    ensures r.Some? <==> Resolve(env.cwd, filePath) in env.files
    ensures r.Some? ==> r.value == CreateCompositionRule(Resolve(env.cwd, filePath),
                                                         BasenameWithout(filePath, Extname(filePath)), priority)
  {
    var resolved := Resolve(env.cwd, filePath);
    if resolved in env.files then Some(CreateCompositionRule(resolved, BasenameWithout(filePath, Extname(filePath)), priority))
    else None
  }

  /** `resolveRuleIdentifier`: an absolute path or a `.md` name is a file; otherwise one
      matching template is used under the identifier's own name, none falls back to a file,
      and several are ambiguous. */
  function ResolveRuleIdentifier(env: Env, templatesDir: string, templates: Option<seq<Entry>>,
                                 identifier: string, priority: int): (r: Option<CompositionRule>)
    ensures r.Some? ==> r.value.enabled && r.value.priority == Some(priority)
    ensures IsAbsolute(identifier) || EndsWith(identifier, ".md") ==> r == ResolveFilePath(env, identifier, priority)
    ensures !IsAbsolute(identifier) && !EndsWith(identifier, ".md") ==>
              var m := FindMatchingTemplateFiles(env.files, templatesDir, templates, identifier);
              && (|m| == 1 ==> r == Some(CreateCompositionRule(m[0], identifier, priority)))
              && (|m| == 0 ==> r == ResolveFilePath(env, identifier, priority))
              && (|m| > 1 ==> r.None?)
  {
    if IsAbsolute(identifier) || EndsWith(identifier, ".md") then ResolveFilePath(env, identifier, priority)
    else
      var m := FindMatchingTemplateFiles(env.files, templatesDir, templates, identifier);
      if |m| == 1 then Some(CreateCompositionRule(m[0], identifier, priority))
      else if |m| == 0 then ResolveFilePath(env, identifier, priority)
      else None
  }

  /** Where templates are looked up: the directory, and its listing when it exists. */
  datatype Templates = Templates(dir: string, listing: Option<seq<Entry>>)

  /** The rule an identifier at 0-based position `k` of the command line resolves to. */
  function ResolveAt(env: Env, t: Templates, identifier: string, k: nat): Option<CompositionRule> {
    ResolveRuleIdentifier(env, t.dir, t.listing, identifier, k + 1)
  }

  /** What each identifier resolves to, in command-line order. */
  function Resolutions(env: Env, t: Templates, identifiers: seq<string>): (r: seq<Option<CompositionRule>>)
    ensures |r| == |identifiers|
    ensures forall k :: 0 <= k < |identifiers| ==> r[k] == ResolveAt(env, t, identifiers[k], k)
  {
    seq(|identifiers|, k requires 0 <= k < |identifiers| => ResolveAt(env, t, identifiers[k], k))
  }

  /** All the values, or nothing as soon as one is missing. */
  function Collect<T>(xs: seq<Option<T>>): (r: Option<seq<T>>)
    ensures r.Some? ==> |r.value| == |xs| && forall k :: 0 <= k < |xs| ==> xs[k] == Some(r.value[k])
    ensures r.None? <==> exists k :: 0 <= k < |xs| && xs[k].None?
    decreases |xs|
  {
    if |xs| == 0 then Some([])
    else if xs[0].None? then None
    else
      var rest := Collect(xs[1..]);
      if rest.None? then
        var j :| 0 <= j < |xs[1..]| && xs[1..][j].None?;
        assert xs[j + 1] == xs[1..][j];
        None
      else
        var r := [xs[0].value] + rest.value;
        assert forall k :: 1 <= k < |xs| ==> xs[k] == xs[1..][k - 1] && r[k] == rest.value[k - 1];
        assert forall k :: 0 <= k < |xs| ==> xs[k].Some?;
        Some(r)
  }

  /** The resolution loop of `execute`: the identifier at position `k` gets priority
      `k + 1`; one failure fails the whole list. */
  function ResolveAll(env: Env, t: Templates, identifiers: seq<string>): (r: Option<seq<CompositionRule>>)
    ensures r.Some? ==> |r.value| == |identifiers|
    ensures r.Some? ==> forall k :: 0 <= k < |identifiers| ==> Some(r.value[k]) == ResolveAt(env, t, identifiers[k], k)
    ensures r.None? <==> exists k :: 0 <= k < |identifiers| && ResolveAt(env, t, identifiers[k], k).None?
  {
    var xs := Resolutions(env, t, identifiers);
    var r := Collect(xs);
    assert r.None? ==> exists k :: 0 <= k < |identifiers| && ResolveAt(env, t, identifiers[k], k).None? by {
      if r.None? {
        var k :| 0 <= k < |xs| && xs[k].None?;
        assert ResolveAt(env, t, identifiers[k], k).None?;
      }
    }
    r
  }

  /** Resolved rules are enabled and numbered from `offset + 1` in command-line order. */
  lemma ResolvedPriorities(env: Env, t: Templates, identifiers: seq<string>)
    requires ResolveAll(env, t, identifiers).Some?
    ensures var rules := ResolveAll(env, t, identifiers).value;
            forall k :: 0 <= k < |rules| ==> rules[k].priority == Some(k + 1) && rules[k].enabled
  {
    var rules := ResolveAll(env, t, identifiers).value;
    forall k | 0 <= k < |rules| ensures rules[k].priority == Some(k + 1) && rules[k].enabled {
      assert Some(rules[k]) == ResolveAt(env, t, identifiers[k], k);
    }
  }

  // ---------------------------------------------------------------------------
  // configuration updates
  // ---------------------------------------------------------------------------

  /** The clearing loop of `execute`: remove every rule by name. Exactly the rules whose
      name is not in the list survive. */
  function RemoveNamed(c: Config, rules: seq<CompositionRule>): (r: Config)
    ensures forall x :: x in GetCompositionRules(r) <==>
              x in GetCompositionRules(c) && forall k :: 0 <= k < |rules| ==> x.name != rules[k].name
    ensures r.disabledRules == c.disabledRules && r.baseRulesPath == c.baseRulesPath && r.augment == c.augment
    decreases |rules|
  {
    if |rules| == 0 then c
    else
      var r := RemoveNamed(RemoveCompositionRule(c, rules[0].name), rules[1..]);
      assert forall k :: 1 <= k < |rules| ==> rules[k] == rules[1..][k - 1];
      r
  }

  /** The adding loop of `execute`. */
  function AddAll(c: Config, rules: seq<CompositionRule>): (r: Config)
    ensures r.disabledRules == c.disabledRules && r.baseRulesPath == c.baseRulesPath && r.augment == c.augment
    decreases |rules|
  {
    if |rules| == 0 then c else AddAll(AddCompositionRule(c, rules[0]), rules[1..])
  }

  predicate DistinctNames(rules: seq<CompositionRule>) {
    forall i, j :: 0 <= i < j < |rules| ==> rules[i].name != rules[j].name
  }

  /** No rule of `rules` shares a name with one of `existing`. */
  predicate FreshNames(existing: seq<CompositionRule>, rules: seq<CompositionRule>) {
    forall i, j :: 0 <= i < |existing| && 0 <= j < |rules| ==> existing[i].name != rules[j].name
  }

  lemma FreshAfterAdding(existing: seq<CompositionRule>, rules: seq<CompositionRule>)
    requires |rules| > 0 && DistinctNames(rules) && FreshNames(existing, rules)
    ensures FreshNames(existing + [rules[0]], rules[1..])
  {
    forall i, j | 0 <= i < |existing| + 1 && 0 <= j < |rules| - 1
      ensures (existing + [rules[0]])[i].name != rules[1..][j].name
    {
      assert rules[1..][j] == rules[j + 1];
    }
  }

  /** Rules under fresh, distinct names are appended in order. */
  lemma {:induction false} AddAllAppends(c: Config, rules: seq<CompositionRule>)
    requires DistinctNames(rules)
    requires FreshNames(GetCompositionRules(c), rules)
    ensures GetCompositionRules(AddAll(c, rules)) == GetCompositionRules(c) + rules
    decreases |rules|
  {
    if |rules| > 0 {
      var existing := GetCompositionRules(c);
      var c' := AddCompositionRule(c, rules[0]);
      AddFresh(c, rules);
      FreshAfterAdding(existing, rules);
      DistinctTail(rules);
      AddAllAppends(c', rules[1..]);
      ShiftFirst(existing, rules);
    }
  }

  /** The first of a run of fresh rules is appended. */
  lemma AddFresh(c: Config, rules: seq<CompositionRule>)
    requires |rules| > 0 && FreshNames(GetCompositionRules(c), rules)
    ensures GetCompositionRules(AddCompositionRule(c, rules[0])) == GetCompositionRules(c) + [rules[0]]
  {
    UpsertNew(GetCompositionRules(c), rules[0]);
  }

  lemma DistinctTail(rules: seq<CompositionRule>)
    requires |rules| > 0 && DistinctNames(rules)
    ensures DistinctNames(rules[1..])
  {
    forall i, j | 0 <= i < j < |rules| - 1 ensures rules[1..][i].name != rules[1..][j].name {
      assert rules[1..][i] == rules[i + 1] && rules[1..][j] == rules[j + 1];
    }
  }

  // ---------------------------------------------------------------------------
  // the command
  // ---------------------------------------------------------------------------

  /** Exit code, configuration and files after a `compose` step, and the answers left. */
  datatype ComposeRun = ComposeRun(code: int, config: Config, files: Files, answers: seq<bool>)

  function RulesyncPath(env: Env): string {
    env.cwd + "/rulesync.md"
  }

  /** `generateRulesyncFile`: the enabled rules' segments joined, written to `rulesync.md`
      unless the operator declines to overwrite a different file. */
  function GenerateRulesyncFile(env: Env, config: Config, force: bool, answers: seq<bool>): (r: ComposeRun)
    ensures r.config == config
    ensures r.code == 0 || r.code == 1
    ensures r.code == 1 ==> r.files == env.files
    ensures |GetEnabledCompositionRules(config)| == 0 ==> r.code == 1 && r.answers == answers
    ensures ComposeRulesOnly(LoadAll(env, GetEnabledCompositionRules(config))).None? ==> r.code == 1 && r.answers == answers
    ensures r.code == 0 ==>
              var content := ComposeRulesOnly(LoadAll(env, GetEnabledCompositionRules(config)));
              content.Some? && r.files == env.files[RulesyncPath(env) := content.value]
    ensures force && ComposeRulesOnly(LoadAll(env, GetEnabledCompositionRules(config))).Some? ==> r.code == 0
    // once there is content, the exit code is the write decision: 0 when written, 1 when skipped
    ensures |GetEnabledCompositionRules(config)| > 0 ==>
              var c := ComposeRulesOnly(LoadAll(env, GetEnabledCompositionRules(config)));
              c.Some? ==>
                (r.code == 0 <==> ComposeShouldWriteFile(Read(env.files, RulesyncPath(env)), c.value, force, answers).write)
    // a missing or identical `rulesync.md` is written without asking; a different one only
    // when the operator says yes
    ensures |GetEnabledCompositionRules(config)| > 0 ==>
              var c := ComposeRulesOnly(LoadAll(env, GetEnabledCompositionRules(config)));
              && (c.Some? && (RulesyncPath(env) !in env.files || env.files[RulesyncPath(env)] == c.value) ==>
                    r.code == 0 && r.answers == answers)
              && (c.Some? && !force && RulesyncPath(env) in env.files && env.files[RulesyncPath(env)] != c.value ==>
                    (r.code == 0 <==> |answers| > 0 && answers[0]))
  {
    var rules := GetEnabledCompositionRules(config);
    if |rules| == 0 then ComposeRun(1, config, env.files, answers)
    else
      match ComposeRulesOnly(LoadAll(env, rules))
      case None => ComposeRun(1, config, env.files, answers)
      case Some(content) =>
        var path := RulesyncPath(env);
        var d := ComposeShouldWriteFile(Read(env.files, path), content, force, answers);
        if d.write then ComposeRun(0, config, env.files[path := content], d.answers)
        else ComposeRun(1, config, env.files, d.answers)
  }

  /** Composing again over the file a successful run wrote finds it identical: it succeeds
      without asking and leaves the files as they are, provided the rules' segments load
      the same (none of them is `rulesync.md` itself). */
  lemma ComposeRerunIsSilent(env: Env, config: Config, force: bool, answers: seq<bool>, later: seq<bool>)
    requires GenerateRulesyncFile(env, config, force, answers).code == 0
    requires var after := env.(files := GenerateRulesyncFile(env, config, force, answers).files);
             LoadAll(after, GetEnabledCompositionRules(config)) == LoadAll(env, GetEnabledCompositionRules(config))
    ensures var first := GenerateRulesyncFile(env, config, force, answers);
            GenerateRulesyncFile(env.(files := first.files), config, force, later)
              == ComposeRun(0, config, first.files, later)
  {
    var first := GenerateRulesyncFile(env, config, force, answers);
    var rules := GetEnabledCompositionRules(config);
    var c := ComposeRulesOnly(LoadAll(env, rules)).value;
    var after := env.(files := first.files);
    assert Read(after.files, RulesyncPath(after)) == Some(c);
    RunOverIdentical(after, config, force, later, c);
  }

  /** A run that finds `rulesync.md` already holding what it would write. */
  lemma RunOverIdentical(env: Env, config: Config, force: bool, answers: seq<bool>, c: string)
    requires |GetEnabledCompositionRules(config)| > 0
    requires ComposeRulesOnly(LoadAll(env, GetEnabledCompositionRules(config))) == Some(c)
    requires Read(env.files, RulesyncPath(env)) == Some(c)
    ensures GenerateRulesyncFile(env, config, force, answers) == ComposeRun(0, config, env.files, answers)
  {
    var path := RulesyncPath(env);
    assert ComposeShouldWriteFile(Read(env.files, path), c, force, answers).write;
    assert env.files[path := c] == env.files;
  }

  /** `ComposeCommand.execute`: the old rules are cleared first, so a failure to resolve
      leaves none behind. */
  function Execute(env: Env, t: Templates, config: Config, identifiers: seq<string>, force: bool,
                   answers: seq<bool>): (r: ComposeRun)
    ensures |identifiers| == 0 ==> r == ComposeRun(1, config, env.files, answers)
    ensures r.config.disabledRules == config.disabledRules && r.config.baseRulesPath == config.baseRulesPath
    ensures r.config.augment == config.augment
    ensures |identifiers| > 0 && ResolveAll(env, t, identifiers).None? ==>
              r.code == 1 && GetCompositionRules(r.config) == [] && r.files == env.files && r.answers == answers
    ensures |identifiers| > 0 && ResolveAll(env, t, identifiers).Some? ==>
              var cleared := RemoveNamed(config, GetCompositionRules(config));
              r == GenerateRulesyncFile(env, AddAll(cleared, ResolveAll(env, t, identifiers).value), force, answers)
  {
    if |identifiers| == 0 then ComposeRun(1, config, env.files, answers)
    else
      var cleared := RemoveNamed(config, GetCompositionRules(config));
      ClearedIsEmpty(config);
      match ResolveAll(env, t, identifiers)
      case None => ComposeRun(1, cleared, env.files, answers)
      case Some(rules) => GenerateRulesyncFile(env, AddAll(cleared, rules), force, answers)
  }

  /** Rules numbered 1, 2, ... in order, all enabled and under distinct names, added to a
      configuration without composition rules, are exactly its rules and its enabled rules. */
  lemma AddNumbered(c: Config, rules: seq<CompositionRule>)
    requires GetCompositionRules(c) == []
    requires DistinctNames(rules)
    requires forall k :: 0 <= k < |rules| ==> rules[k].priority == Some(k + 1) && rules[k].enabled
    ensures GetCompositionRules(AddAll(c, rules)) == rules
    ensures GetEnabledCompositionRules(AddAll(c, rules)) == rules
  {
    AddAllAppends(c, rules);
    assert [] + rules == rules;
    assert ByPriority(rules) by {
      forall i, j | 0 <= i < j < |rules| ensures Priority(rules[i]) <= Priority(rules[j]) {
        assert rules[i].priority == Some(i + 1) && rules[j].priority == Some(j + 1);
      }
    }
    EnabledInOrder(AddAll(c, rules));
  }

  /** Removing every rule by its own name leaves none. */
  lemma ClearedIsEmpty(c: Config)
    ensures GetCompositionRules(RemoveNamed(c, GetCompositionRules(c))) == []
  {
    var rules := GetCompositionRules(c);
    var left := GetCompositionRules(RemoveNamed(c, rules));
    forall k | 0 <= k < |rules| ensures rules[k] !in left {}
    assert forall x :: x in left ==> x !in rules;
    NoMembers(left);
  }

  /** When the identifiers resolve to rules of distinct names, the configuration holds
      exactly those rules, with priorities 1, 2, ... in the order given, and `rulesync.md`
      is built from them in that order. */
  lemma ComposeKeepsOrder(env: Env, t: Templates, config: Config, identifiers: seq<string>)
    requires ResolveAll(env, t, identifiers).Some?
    requires DistinctNames(ResolveAll(env, t, identifiers).value)
    ensures var rules := ResolveAll(env, t, identifiers).value;
            var c := AddAll(RemoveNamed(config, GetCompositionRules(config)), rules);
            && GetCompositionRules(c) == rules
            && GetEnabledCompositionRules(c) == rules
            && forall k :: 0 <= k < |rules| ==> rules[k].priority == Some(k + 1)
  {
    var rules := ResolveAll(env, t, identifiers).value;
    ClearedIsEmpty(config);
    ResolvedPriorities(env, t, identifiers);
    AddNumbered(RemoveNamed(config, GetCompositionRules(config)), rules);
  }
}
