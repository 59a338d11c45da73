/** The fixed table of supported agents (`RuleDiscoveryService`) and the lookups over it. */
module Registry {
  import opened Wrappers
  import opened Sequences

  /** One supported agent: display name, shortcode, output file, and the entry that goes
      into `.gitignore` for it. */
  datatype Agent = Agent(name: string, shortcode: string, path: string, gitignorePath: string)

  /** The registry, in constructor order. */
  const AGENTS: seq<Agent> := [
    Agent("Claude", "claude", "CLAUDE.md", "CLAUDE.md"),
    Agent("Cursor", "cursor", ".cursorrules", ".cursorrules"),
    Agent("Windsurf", "windsurf", ".windsurfrules", ".windsurfrules"),
    Agent("Gemini CLI", "gemini", "GEMINI.md", "GEMINI.md"),
    Agent("GitHub Copilot", "copilot", ".github/copilot-instructions.md", ".github/copilot-instructions.md"),
    Agent("Cline", "cline", ".clinerules/project.md", ".clinerules/project.md"),
    Agent("Junie", "junie", ".junie/guidelines.md", ".junie/guidelines.md"),
    Agent("OpenAI Codex", "codex", "AGENTS.md", "AGENTS.md"),
    Agent("Aider", "aider", ".aider.conf.yml", ".aider.conf.yml"),
    Agent("Continue.dev", "continue", ".continue/config.json", ".continue/config.json"),
    Agent("Amazon Q Developer", "amazonq", ".amazonq/rules/coding-guidelines.md", ".amazonq/rules/"),
    Agent("Sourcegraph Cody", "cody", ".vscode/cody.json", ".vscode/cody.json")
  ]

  /** No two agents share a shortcode. */
  predicate DistinctShortcodes(agents: seq<Agent>) {
    forall i, j :: 0 <= i < j < |agents| ==> agents[i].shortcode != agents[j].shortcode
  }

  lemma RegistryShape()
    ensures |AGENTS| == 12
    ensures DistinctShortcodes(AGENTS)
  {}

  /** Every agent but Amazon Q ignores exactly the file it writes; Amazon Q ignores its
      whole rules directory. */
  lemma GitignorePaths()
    ensures forall k :: 0 <= k < |AGENTS| && AGENTS[k].shortcode != "amazonq" ==>
              AGENTS[k].gitignorePath == AGENTS[k].path
    ensures forall k :: 0 <= k < |AGENTS| && AGENTS[k].shortcode == "amazonq" ==>
              AGENTS[k].gitignorePath == ".amazonq/rules/"
  {}

  /** Every shortcode starts with a lower-case letter, so none reads as a number. */
  lemma ShortcodesStartWithLetter()
    ensures forall k :: 0 <= k < |AGENTS| ==> |AGENTS[k].shortcode| > 0 && 'a' <= AGENTS[k].shortcode[0] <= 'z'
  {}

  /** No two agents write the same file. */
  predicate DistinctPaths(agents: seq<Agent>) {
    forall i, j :: 0 <= i < j < |agents| ==> agents[i].path != agents[j].path
  }

  lemma RegistryPathsDistinct()
    ensures DistinctPaths(AGENTS)
  {}

  /** The shortcodes of the agents, in order. */
  function Shortcodes(agents: seq<Agent>): (r: seq<string>)
    ensures |r| == |agents|
    ensures forall k :: 0 <= k < |agents| ==> r[k] == agents[k].shortcode
  {
    seq(|agents|, k requires 0 <= k < |agents| => agents[k].shortcode)
  }

  /** `rules.find(rule => rule.shortcode() === shortcode)`: the first agent whose shortcode is
      exactly `shortcode`, case included. */
  function FindByShortcode(agents: seq<Agent>, shortcode: string): (r: Option<Agent>)
    ensures r.Some? <==> exists k :: 0 <= k < |agents| && agents[k].shortcode == shortcode
    ensures r.Some? ==> r.value in agents && r.value.shortcode == shortcode
    ensures forall k :: 0 <= k < |agents| && agents[k].shortcode == shortcode
                        && (forall j :: 0 <= j < k ==> agents[j].shortcode != shortcode)
                        ==> r == Some(agents[k])
    decreases |agents|
  {
    if |agents| == 0 then None
    else if agents[0].shortcode == shortcode then Some(agents[0])
    else
      assert forall k :: 1 <= k < |agents| ==> agents[k] == agents[1..][k - 1];
      FindByShortcode(agents[1..], shortcode)
  }

  /** `getRuleByShortcode`. */
  function GetRuleByShortcode(shortcode: string): (r: Option<Agent>)
    ensures r.Some? ==> r.value in AGENTS && r.value.shortcode == shortcode
    ensures r.None? ==> forall a :: a in AGENTS ==> a.shortcode != shortcode
  {
    FindByShortcode(AGENTS, shortcode)
  }

  /** With distinct shortcodes, looking up an agent's own shortcode finds that agent. */
  lemma {:induction false} FindOwnShortcode(agents: seq<Agent>, k: nat)
    requires DistinctShortcodes(agents) && k < |agents|
    ensures FindByShortcode(agents, agents[k].shortcode) == Some(agents[k])
    decreases k
  {
    if k > 0 {
      assert agents[0].shortcode != agents[k].shortcode;
      assert DistinctShortcodes(agents[1..]);
      assert agents[1..][k - 1] == agents[k];
      FindOwnShortcode(agents[1..], k - 1);
    }
  }

  lemma GetRuleByOwnShortcode(k: nat)
    requires k < |AGENTS|
    ensures GetRuleByShortcode(AGENTS[k].shortcode) == Some(AGENTS[k])
  {
    RegistryShape();
    FindOwnShortcode(AGENTS, k);
  }

  /** The agents whose shortcodes are not disabled, in registry order. */
  function EnabledAgents(agents: seq<Agent>, disabled: seq<string>): (r: seq<Agent>)
    ensures forall a :: a in r <==> a in agents && a.shortcode !in disabled
    ensures IsSubsequence(r, agents)
    ensures DistinctPaths(agents) ==> DistinctPaths(r)
    decreases |agents|
  {
    if |agents| == 0 then []
    else
      var rest := EnabledAgents(agents[1..], disabled);
      SubsequenceSkip(rest, agents);
      assert DistinctPaths(agents) ==> DistinctPaths(agents[1..]);
      if agents[0].shortcode in disabled then rest
      else
        var r := [agents[0]] + rest;
        assert r[1..] == rest;
        assert DistinctPaths(agents) ==> DistinctPaths(r) by {
          if DistinctPaths(agents) {
            forall i, j | 0 <= i < j < |r| ensures r[i].path != r[j].path {
              assert r[j] in rest;
              if i > 0 { assert r[i] == rest[i - 1] && r[j] == rest[j - 1]; }
              else {
                var m :| 0 <= m < |agents[1..]| && agents[1..][m] == r[j];
                assert agents[m + 1] == r[j];
              }
            }
          }
        }
        r
  }
}
