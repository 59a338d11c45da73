/** The `generate` command: pick the project rules file, compose it with the composition
    rules and the base rules, and write one filtered copy per enabled agent. */
module Generate {
  import opened Wrappers
  import opened Strings
  import opened Paths
  import opened Prompts
  import opened Registry
  import opened ConfigService
  import opened ContentFilter
  import opened Composition
  import opened WritePlanner

  /** `--from`, `--force` and `--overwrite`. */
  datatype GenerateOptions = GenerateOptions(from: Option<string>, force: bool, overwrite: bool)

  /** Where the project rules come from: a file, the combination of the local and the global
      file, or nowhere. */
  datatype Source = SourcePath(path: string) | Augmented(text: string) | NoSource

  /** A choice of source, with the configuration and the answers it leaves. */
  datatype SourcePick = SourcePick(source: Source, config: Config, answers: seq<bool>)

  function LocalRulesFile(env: Env): string {
    env.cwd + "/rulesync.md"
  }

  function GlobalRulesFile(env: Env): string {
    env.home + "/.config/rulesync/rulesync.md"
  }

  const PROJECT_HEADING := "# Project-specific rules\n\n"
  const GENERAL_HEADING := "# General rules\n\n"

  /** The combined file: the local rules under one heading, then a rule, then the global
      rules under another; both parts can be read back. */
  function AugmentedContent(local: string, global: string): (r: string)
    ensures |r| == |PROJECT_HEADING| + |local| + |SEPARATOR| + |GENERAL_HEADING| + |global|
    ensures r[..|PROJECT_HEADING|] == PROJECT_HEADING
    ensures r[|PROJECT_HEADING|..|PROJECT_HEADING| + |local|] == local
    ensures r[|PROJECT_HEADING| + |local|..|r| - |global|] == SEPARATOR + GENERAL_HEADING
    ensures r[|r| - |global|..] == global
  {
    var r := PROJECT_HEADING + local + SEPARATOR + GENERAL_HEADING + global;
    assert r == PROJECT_HEADING + local + (SEPARATOR + GENERAL_HEADING) + global;
    r
  }

  /** `handleAugmentation`, for a local and a global file that both exist: a stored
      preference decides without asking; otherwise the operator is asked whether to combine
      (default yes) and whether to store that choice (default no). */
  function HandleAugmentation(env: Env, config: Config, answers: seq<bool>): (p: SourcePick)
    requires LocalRulesFile(env) in env.files && GlobalRulesFile(env) in env.files
    ensures p.source == SourcePath(LocalRulesFile(env))
         || p.source == Augmented(AugmentedContent(env.files[LocalRulesFile(env)], env.files[GlobalRulesFile(env)]))
    ensures config.augment.Some? ==> p.config == config && p.answers == answers
    ensures config.augment.Some? ==> (p.source.Augmented? <==> config.augment.value)
    ensures config.augment.None? ==> p.config.augment.None? || p.config.augment == Some(p.source.Augmented?)
    ensures config.augment.None? && |answers| == 0 ==> p.source.Augmented? && p.config == config
    ensures config.augment.None? && |answers| > 0 ==> (p.source.Augmented? <==> answers[0])
    ensures config.augment.None? ==> (p.config.augment.Some? <==> |answers| > 1 && answers[1])
    ensures p.config.disabledRules == config.disabledRules && p.config.baseRulesPath == config.baseRulesPath
    ensures p.config.compositionRules == config.compositionRules
    ensures |p.answers| <= |answers|
  {
    var local, global := LocalRulesFile(env), GlobalRulesFile(env);
    var combined := Augmented(AugmentedContent(env.files[local], env.files[global]));
    match config.augment
    case Some(augment) =>
      SourcePick(if augment then combined else SourcePath(local), config, answers)
    case None =>
      var choice := Ask(answers, true);
      var save := Ask(choice.rest, false);
      var config' := if save.answer then SetAugmentPreference(config, choice.answer) else config;
      SourcePick(if choice.answer then combined else SourcePath(local), config', save.rest)
  }

  /** Once a preference is stored, the next run makes the same choice without asking. */
  lemma StoredPreferenceSticks(env: Env, config: Config, answers: seq<bool>, later: seq<bool>)
    requires LocalRulesFile(env) in env.files && GlobalRulesFile(env) in env.files
    requires HandleAugmentation(env, config, answers).config.augment.Some?
    ensures var first := HandleAugmentation(env, config, answers);
            HandleAugmentation(env, first.config, later) == SourcePick(first.source, first.config, later)
  {}

  /** `getSourceFile`: a `--from` file wins outright (and when it is missing there is no
      source at all); otherwise two different existing local and global files go through
      augmentation, then the local file, then the global one. Creating a rules file from an
      existing agent file is not modelled: with no file there is no source. */
  function GetSourceFile(env: Env, config: Config, options: GenerateOptions, answers: seq<bool>): (p: SourcePick)
    ensures p.config.disabledRules == config.disabledRules
    ensures options.from.Some? && options.from.value != "" ==>
              p == SourcePick(if options.from.value in env.files then SourcePath(options.from.value) else NoSource,
                              config, answers)
    ensures !(options.from.Some? && options.from.value != "") ==>
              var local, global := LocalRulesFile(env), GlobalRulesFile(env);
              && (local in env.files && global in env.files && local != global ==>
                    p == HandleAugmentation(env, config, answers))
              && ((local in env.files && (global !in env.files || local == global)) ==>
                    p == SourcePick(SourcePath(local), config, answers))
              && (local !in env.files && global in env.files ==>
                    p == SourcePick(SourcePath(global), config, answers))
              && (local !in env.files && global !in env.files ==>
                    p == SourcePick(NoSource, config, answers))
  {
    if options.from.Some? && options.from.value != "" then
      SourcePick(if options.from.value in env.files then SourcePath(options.from.value) else NoSource, config, answers)
    else
      var local, global := LocalRulesFile(env), GlobalRulesFile(env);
      if local in env.files && global in env.files && local != global then HandleAugmentation(env, config, answers)
      else if local in env.files then SourcePick(SourcePath(local), config, answers)
      else if global in env.files then SourcePick(SourcePath(global), config, answers)
      else SourcePick(NoSource, config, answers)
  }

  /** `getSourceContent`: the source's text, unless it is blank. */
  function ReadSource(files: Files, source: Source): (r: Option<string>)
    ensures r.Some? ==> !AllWhitespace(r.value)
    ensures source.SourcePath? && source.path in files && !AllWhitespace(files[source.path]) ==>
              r == Some(files[source.path])
    ensures source.Augmented? && !AllWhitespace(source.text) ==> r == Some(source.text)
    ensures source.NoSource? ==> r.None?
    ensures source.SourcePath? && (source.path !in files || AllWhitespace(files[source.path])) ==> r.None?
    ensures source.Augmented? && AllWhitespace(source.text) ==> r.None?
  {
    var text := match source
      case SourcePath(p) => Read(files, p)
      case Augmented(t) => Some(t)
      case NoSource => None;
    if text.Some? && Trim(text.value) != [] then text else None
  }

  /** `getBaseRules`: nothing when no path is set; a URL is fetched and a path read. */
  function GetBaseRules(env: Env, config: Config): (r: Option<string>)
    ensures config.baseRulesPath.None? || config.baseRulesPath == Some("") ==> r.None?
    ensures config.baseRulesPath.Some? && config.baseRulesPath.value != "" && IsUrl(config.baseRulesPath.value) ==>
              (r.Some? <==> config.baseRulesPath.value in env.urls)
              && (r.Some? ==> r.value == env.urls[config.baseRulesPath.value])
    ensures config.baseRulesPath.Some? && config.baseRulesPath.value != "" && !IsUrl(config.baseRulesPath.value) ==>
              (r.Some? <==> config.baseRulesPath.value in env.files)
              && (r.Some? ==> r.value == env.files[config.baseRulesPath.value])
  {
    match config.baseRulesPath
    case None => None
    case Some(p) =>
      if p == "" then None
      else if IsUrl(p) then (if p in env.urls then Some(env.urls[p]) else None)
      else Read(env.files, p)
  }

  /** The composed document, with the configuration and answers the source choice left. */
  datatype Composed = Composed(content: Option<string>, config: Config, answers: seq<bool>)

  /** `getComposedContent`: no readable project file means no document; otherwise the
      enabled composition rules, in priority order, go in front of the project content. */
  function GetComposedContent(env: Env, config: Config, options: GenerateOptions, answers: seq<bool>): (c: Composed)
    ensures c.config.disabledRules == config.disabledRules
    ensures var pick := GetSourceFile(env, config, options, answers);
            && c.config == pick.config && c.answers == pick.answers
            && (ReadSource(env.files, pick.source).None? <==> c.content.None?)
            && (c.content.Some? ==>
                  var main := ReadSource(env.files, pick.source).value;
                  var rules := GetEnabledCompositionRules(pick.config);
                  && EndsWith(c.content.value, main)
                  && (|Survivors(LoadAll(env, rules))| == 0 ==> c.content.value == main)
                  && c.content.value == Join(Survivors(LoadAll(env, rules)) + [main], SEPARATOR))
  {
    var pick := GetSourceFile(env, config, options, answers);
    match ReadSource(env.files, pick.source)
    case None => Composed(None, pick.config, pick.answers)
    case Some(main) =>
      var rules := GetEnabledCompositionRules(pick.config);
      var loaded := LoadAll(env, rules);
      var r := ComposeWithMain(loaded, main);
      assert EndsWith(r, main) by {
        if |Survivors(loaded)| > 0 {
          var front := Join(Survivors(loaded), SEPARATOR) + SEPARATOR;
          assert r == front + main;
          assert r[|r| - |main|..] == main;
        }
      }
      Composed(Some(r), pick.config, pick.answers)
  }

  // ---------------------------------------------------------------------------
  // writing the files
  // ---------------------------------------------------------------------------

  /** The files after the loop, with the two counters and the answers left. */
  datatype WriteRun = WriteRun(files: Files, generated: nat, skipped: nat, answers: seq<bool>)

  /** `p` is the output file of none of the agents. */
  predicate Untargeted(agents: seq<Agent>, p: string) {
    forall k :: 0 <= k < |agents| ==> agents[k].path != p
  }

  /** The loop of `execute`: one write decision per agent, in order; `outputs[k]` is what
      agent `k` is to receive. */
  function WriteAll(files: Files, agents: seq<Agent>, outputs: seq<string>, force: bool, overwrite: bool,
                    answers: seq<bool>): (w: WriteRun)
    requires |outputs| == |agents|
    ensures w.generated + w.skipped == |agents|
    ensures forall p :: Untargeted(agents, p) ==> Read(w.files, p) == Read(files, p)
    ensures forall p :: p in files ==> p in w.files
    ensures force || overwrite ==> w.skipped == 0 && w.answers == answers
    ensures |w.answers| <= |answers|
    ensures DistinctPaths(agents) ==>
              forall k :: 0 <= k < |agents| ==>
                && agents[k].path in w.files
                && (w.files[agents[k].path] == outputs[k]
                    || (agents[k].path in files && w.files[agents[k].path] == files[agents[k].path]))
    ensures DistinctPaths(agents) && (force || overwrite) ==>
              forall k :: 0 <= k < |agents| ==> w.files[agents[k].path] == outputs[k]
    decreases |agents|
  {
    if |agents| == 0 then WriteRun(files, 0, 0, answers)
    else
      var a := agents[0];
      var d := ShouldWriteFile(Read(files, a.path), outputs[0], force, overwrite, answers);
      var next := if d.write then files[a.path := outputs[0]] else files;
      var rest := WriteAll(next, agents[1..], outputs[1..], force, overwrite, d.answers);
      assert forall k :: 1 <= k < |agents| ==> agents[k] == agents[1..][k - 1] && outputs[k] == outputs[1..][k - 1];
      assert forall p :: Untargeted(agents, p) ==> Untargeted(agents[1..], p) && p != a.path;
      assert DistinctPaths(agents) ==> DistinctPaths(agents[1..]) && Untargeted(agents[1..], a.path);
      if d.write then WriteRun(rest.files, rest.generated + 1, rest.skipped, rest.answers)
      else WriteRun(rest.files, rest.generated, rest.skipped + 1, rest.answers)
  }

  /** What each agent receives: the same document, filtered for that agent. */
  function FilteredOutputs(content: string, agents: seq<Agent>): (r: seq<string>)
    ensures |r| == |agents|
    ensures forall k :: 0 <= k < |agents| ==> r[k] == FilterContentForAgent(content, agents[k].shortcode)
  {
    seq(|agents|, k requires 0 <= k < |agents| => FilterContentForAgent(content, agents[k].shortcode))
  }

  // ---------------------------------------------------------------------------
  // the command
  // ---------------------------------------------------------------------------

  /** What `execute` leaves: exit code, files, counters, the unknown agent names it warned
      about, the configuration and the unread answers. */
  datatype GenerateRun = GenerateRun(code: int, files: Files, generated: nat, skipped: nat,
                                     unknownAgents: seq<string>, config: Config, answers: seq<bool>)

  /** A file no agent writes is not written by the enabled ones either. */
  lemma UntargetedStaysUntargeted(agents: seq<Agent>, disabled: seq<string>)
    ensures forall p :: Untargeted(agents, p) ==> Untargeted(EnabledAgents(agents, disabled), p)
  {
    var enabled := EnabledAgents(agents, disabled);
    forall p | Untargeted(agents, p) ensures Untargeted(enabled, p) {
      forall k | 0 <= k < |enabled| ensures enabled[k].path != p {
        assert enabled[k] in agents;
      }
    }
  }

  /** The part of `execute` after a document was composed: nothing to do without enabled
      agents; otherwise warn about unknown agent names (checked against every registry
      shortcode, enabled or not) and write each enabled agent's file. */
  function WriteOutputs(env: Env, config: Config, text: string, options: GenerateOptions, answers: seq<bool>): (r: GenerateRun)
    ensures r.code == 0 && r.config == config
    ensures |EnabledAgents(AGENTS, GetDisabledRules(config))| == 0 ==> r.files == env.files && r.generated + r.skipped == 0
    ensures r.generated + r.skipped == |EnabledAgents(AGENTS, GetDisabledRules(config))|
    // each enabled agent's file ends up holding the composed document, with the base rules,
    // filtered for that agent, unless the operator kept the old content
    ensures forall k :: 0 <= k < |EnabledAgents(AGENTS, GetDisabledRules(config))| ==>
              && EnabledAgents(AGENTS, GetDisabledRules(config))[k].path in r.files
              && (|| r.files[EnabledAgents(AGENTS, GetDisabledRules(config))[k].path]
                     == FilterContentForAgent(BuildFinalContent(text, GetBaseRules(env, config)),
                                              EnabledAgents(AGENTS, GetDisabledRules(config))[k].shortcode)
                  || (&& EnabledAgents(AGENTS, GetDisabledRules(config))[k].path in env.files
                      && r.files[EnabledAgents(AGENTS, GetDisabledRules(config))[k].path]
                         == env.files[EnabledAgents(AGENTS, GetDisabledRules(config))[k].path]))
    ensures forall p :: Untargeted(AGENTS, p) ==> Read(r.files, p) == Read(env.files, p)
    // a disabled agent's file is not written either
    ensures forall p :: Untargeted(EnabledAgents(AGENTS, GetDisabledRules(config)), p) ==>
              Read(r.files, p) == Read(env.files, p)
    ensures forall a :: a in r.unknownAgents ==> a !in LowerAll(Shortcodes(AGENTS))
    ensures |EnabledAgents(AGENTS, GetDisabledRules(config))| > 0 ==>
              forall a :: a in r.unknownAgents <==> a in ExcludedAgentsInContent(text) && a !in LowerAll(Shortcodes(AGENTS))
    // with `--force` or `--overwrite`, every enabled agent's file ends up holding the
    // composed document, with the base rules, filtered for that agent, and nothing is skipped
    ensures options.force || options.overwrite ==>
              && r.skipped == 0 && r.generated == |EnabledAgents(AGENTS, GetDisabledRules(config))|
              && forall k :: 0 <= k < |EnabledAgents(AGENTS, GetDisabledRules(config))| ==>
                   && EnabledAgents(AGENTS, GetDisabledRules(config))[k].path in r.files
                   && r.files[EnabledAgents(AGENTS, GetDisabledRules(config))[k].path]
                      == FilterContentForAgent(BuildFinalContent(text, GetBaseRules(env, config)),
                                               EnabledAgents(AGENTS, GetDisabledRules(config))[k].shortcode)
  {
    var enabled := EnabledAgents(AGENTS, GetDisabledRules(config));
    if |enabled| == 0 then GenerateRun(0, env.files, 0, 0, [], config, answers)
    else
      var unknown := ValidateExcludedAgents(text, Shortcodes(AGENTS));
      var content := BuildFinalContent(text, GetBaseRules(env, config));
      var outputs := FilteredOutputs(content, enabled);
      var w := WriteAll(env.files, enabled, outputs, options.force, options.overwrite, answers);
      RegistryPathsDistinct();
      UntargetedStaysUntargeted(AGENTS, GetDisabledRules(config));
      GenerateRun(0, w.files, w.generated, w.skipped, unknown, config, w.answers)
  }

  /** `GenerateCommand.execute`. Without `--force`, a directory outside version control asks
      whether to go on (default no). */
  function Execute(env: Env, config: Config, options: GenerateOptions, underVcs: bool, answers: seq<bool>): (r: GenerateRun)
    ensures r.code == 0 || r.code == 1
    ensures r.code == 1 ==> r.files == env.files && r.generated == 0 && r.skipped == 0
    ensures !options.force && !underVcs && (|answers| == 0 || !answers[0]) ==> r.code == 1
    ensures options.force || underVcs ==>
              (r.code == 0 <==> GetComposedContent(env, config, options, answers).content.Some?)
    ensures r.config.disabledRules == config.disabledRules
    ensures r.code == 0 ==> r.generated + r.skipped == |EnabledAgents(AGENTS, GetDisabledRules(config))|
    // a successful run is the write phase applied to the composed document, reading the
    // answers left after the version-control question
    ensures r.code == 0 ==>
              var c := GetComposedContent(env, config, options,
                                          if options.force || underVcs then answers else Ask(answers, false).rest);
              && c.content.Some?
              && r == WriteOutputs(env, c.config, c.content.value, options, c.answers)
    ensures forall p :: Untargeted(AGENTS, p) ==> Read(r.files, p) == Read(env.files, p)
    // a disabled agent's file is not written either
    ensures forall p :: Untargeted(EnabledAgents(AGENTS, GetDisabledRules(config)), p) ==>
              Read(r.files, p) == Read(env.files, p)
    ensures forall a :: a in r.unknownAgents ==> a !in LowerAll(Shortcodes(AGENTS))
  {
    var gate := if options.force || underVcs then Asked(true, answers) else Ask(answers, false);
    if !gate.answer then GenerateRun(1, env.files, 0, 0, [], config, gate.rest)
    else
      var composed := GetComposedContent(env, config, options, gate.rest);
      assert GetDisabledRules(composed.config) == GetDisabledRules(config);
      match composed.content
      case None => GenerateRun(1, env.files, 0, 0, [], composed.config, composed.answers)
      case Some(text) => WriteOutputs(env, composed.config, text, options, composed.answers)
  }
}
