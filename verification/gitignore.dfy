/** The `.gitignore` command: a marker-delimited section listing the output file of every
    enabled agent, spliced over an earlier section or appended. */
module Gitignore {
  import opened Wrappers
  import opened Strings
  import opened TextLines
  import opened Paths
  import opened Registry
  import opened ConfigService

  const START_MARKER := "# Rulesync - AI Assistant Rules"
  const GENERATED_LINE := "# Generated automatically by rulesync"
  const END_MARKER := "# End Rulesync"

  /** The `.gitignore` entry of each agent, in order. */
  function EntryPaths(agents: seq<Agent>): (r: seq<string>)
    ensures |r| == |agents|
    ensures forall k :: 0 <= k < |agents| ==> r[k] == agents[k].gitignorePath
  {
    seq(|agents|, k requires 0 <= k < |agents| => agents[k].gitignorePath)
  }

  /** The lines of the section: start marker, note, blank line, one entry per agent, blank
      line, end marker, and an empty last line (so the section ends with a newline). */
  function SectionLines(agents: seq<Agent>): seq<string> {
    [START_MARKER, GENERATED_LINE, ""] + EntryPaths(agents) + ["", END_MARKER, ""]
  }

  /** The section text before the end marker. */
  function SectionHead(agents: seq<Agent>): string {
    START_MARKER + NL + GENERATED_LINE + NL + NL + Terminated(EntryPaths(agents)) + NL
  }

  /** `buildRulesyncSection`: the lines joined by newlines, which is the head, the end
      marker and one newline. */
  function BuildRulesyncSection(agents: seq<Agent>): (r: string)
    ensures r == SectionHead(agents) + END_MARKER + NL
  {
    var lines := SectionLines(agents);
    var m := 3 + |agents|;
    JoinAt(lines, m);
    assert lines[..m] == [START_MARKER, GENERATED_LINE, ""] + EntryPaths(agents);
    TerminatedAppend([START_MARKER, GENERATED_LINE, ""], EntryPaths(agents));
    assert Terminated([START_MARKER, GENERATED_LINE, ""]) == START_MARKER + NL + GENERATED_LINE + NL + NL by {
      assert [START_MARKER, GENERATED_LINE, ""][1..] == [GENERATED_LINE, ""];
      assert [GENERATED_LINE, ""][1..] == [""];
      assert [""][1..] == [];
      assert Terminated([""]) == NL;
      assert Terminated([GENERATED_LINE, ""]) == GENERATED_LINE + NL + NL;
    }
    assert lines[m..] == ["", END_MARKER, ""];
    assert Join(["", END_MARKER, ""], NL) == NL + END_MARKER + NL by {
      assert ["", END_MARKER, ""][1..] == [END_MARKER, ""];
      assert [END_MARKER, ""][1..] == [""];
      assert Join([END_MARKER, ""], NL) == END_MARKER + NL;
    }
    Join(lines, NL)
  }

  /** Entries that are plain file names: no newline and no `#`. */
  predicate PlainEntries(agents: seq<Agent>) {
    forall k :: 0 <= k < |agents| ==> '\n' !in agents[k].gitignorePath && '#' !in agents[k].gitignorePath
  }

  predicate PlainPath(p: string) {
    forall i :: 0 <= i < |p| ==> p[i] != '\n' && p[i] != '#'
  }

  lemma PlainPathsA()
    ensures PlainPath("CLAUDE.md") && PlainPath(".cursorrules") && PlainPath(".windsurfrules")
    ensures PlainPath("GEMINI.md") && PlainPath(".github/copilot-instructions.md")
    ensures PlainPath(".clinerules/project.md")
  {}

  lemma PlainPathsB()
    ensures PlainPath(".junie/guidelines.md") && PlainPath("AGENTS.md") && PlainPath(".aider.conf.yml")
    ensures PlainPath(".continue/config.json") && PlainPath(".amazonq/rules/") && PlainPath(".vscode/cody.json")
  {}

  lemma RegistryEntriesPlain()
    ensures PlainEntries(AGENTS)
  {
    PlainPathsA();
    PlainPathsB();
    forall k | 0 <= k < |AGENTS|
      ensures '\n' !in AGENTS[k].gitignorePath && '#' !in AGENTS[k].gitignorePath
    {
      assert PlainPath(AGENTS[k].gitignorePath);
    }
  }

  /** Splitting the section at its newlines gives back its lines. */
  lemma SectionRoundTrip(agents: seq<Agent>)
    requires PlainEntries(agents)
    ensures Lines(BuildRulesyncSection(agents)) == SectionLines(agents)
  {
    var lines := SectionLines(agents);
    assert '\n' !in START_MARKER && '\n' !in GENERATED_LINE && '\n' !in END_MARKER;
    assert forall k :: 0 <= k < |lines| ==> '\n' !in lines[k] by {
      forall k | 0 <= k < |lines| ensures '\n' !in lines[k] {
        if 3 <= k < 3 + |agents| { assert lines[k] == agents[k - 3].gitignorePath; }
      }
    }
    SplitJoin(lines, '\n');
  }

  // ---------------------------------------------------------------------------
  // finding the markers
  // ---------------------------------------------------------------------------

  /** `pat` occurs nowhere in `s`. */
  ghost predicate Absent(s: string, pat: string) {
    forall k: nat :: !OccursAt(s, pat, k)
  }

  /** A window holding a newline is no occurrence of a pattern without one. */
  lemma NewlineBlocks(s: string, pat: string, k: nat, j: nat)
    requires '\n' !in pat
    requires k <= j < k + |pat| && j < |s| && s[j] == '\n'
    ensures !OccursAt(s, pat, k)
  {
    if k + |pat| <= |s| {
      assert s[k..k + |pat|][j - k] == s[j];
      assert pat[j - k] != '\n';
    }
  }

  /** Two texts without the pattern, the first ending a line, give a text without it. */
  lemma AbsentConcat(x: string, y: string, pat: string)
    requires '\n' !in pat && pat != []
    requires x == [] || x[|x| - 1] == '\n'
    requires Absent(x, pat) && Absent(y, pat)
    ensures Absent(x + y, pat)
  {
    var s := x + y;
    forall k: nat ensures !OccursAt(s, pat, k) {
      if k + |pat| <= |x| {
        assert s[k..k + |pat|] == x[k..k + |pat|];
        assert !OccursAt(x, pat, k);
      } else if k < |x| {
        NewlineBlocks(s, pat, k, |x| - 1);
      } else if k + |pat| <= |s| {
        assert s[k..k + |pat|] == y[k - |x|..k - |x| + |pat|];
        assert !OccursAt(y, pat, k - |x|);
      }
    }
  }

  /** A text that does not hold the pattern still does not once a newline is added. */
  lemma AbsentNewline(x: string, pat: string)
    requires '\n' !in pat && pat != []
    requires Absent(x, pat)
    ensures Absent(x + NL, pat)
  {
    var s := x + NL;
    forall k: nat ensures !OccursAt(s, pat, k) {
      if k + |pat| <= |x| {
        assert s[k..k + |pat|] == x[k..k + |pat|];
        assert !OccursAt(x, pat, k);
      } else if k < |s| {
        NewlineBlocks(s, pat, k, |x|);
      }
    }
  }

  /** Text without the pattern, ending a line, followed by text that starts with the
      pattern: the first occurrence is right at the seam. */
  lemma FirstOccurrence(x: string, y: string, pat: string)
    requires '\n' !in pat && pat != []
    requires x == [] || x[|x| - 1] == '\n'
    requires Absent(x, pat)
    requires |pat| <= |y| && y[..|pat|] == pat
    ensures IndexOf(x + y, pat) == Some(|x|)
  {
    var s := x + y;
    assert s[|x|..|x| + |pat|] == pat;
    assert OccursAt(s, pat, |x|);
    forall k: nat | k < |x| ensures !OccursAt(s, pat, k) {
      if k + |pat| <= |x| {
        assert s[k..k + |pat|] == x[k..k + |pat|];
        assert !OccursAt(x, pat, k);
      } else {
        NewlineBlocks(s, pat, k, |x| - 1);
      }
    }
  }

  /** A text without `#` holds neither marker. */
  lemma AbsentWithoutHash(s: string, pat: string)
    requires |pat| > 0 && pat[0] == '#' && '#' !in s
    ensures Absent(s, pat)
  {
    forall k: nat | k + |pat| <= |s| ensures !OccursAt(s, pat, k) {
      assert s[k..k + |pat|][0] == s[k];
      assert s[k] in s;
    }
  }

  lemma {:induction false} TerminatedWithout(lines: seq<string>, c: char)
    requires c != '\n'
    requires forall k :: 0 <= k < |lines| ==> c !in lines[k]
    ensures c !in Terminated(lines)
    decreases |lines|
  {
    if |lines| > 0 {
      TerminatedWithout(lines[1..], c);
    }
  }

  /** The end marker appears in a section only as its own line. */
  lemma EndMarkerNotInHead(agents: seq<Agent>)
    requires PlainEntries(agents)
    ensures Absent(SectionHead(agents), END_MARKER)
  {
    TerminatedWithout(EntryPaths(agents), '#');
    var a := START_MARKER + NL;
    var b := GENERATED_LINE + NL;
    var c := NL + Terminated(EntryPaths(agents)) + NL;
    assert SectionHead(agents) == a + b + c;
    StartLineWithoutEnd();
    GeneratedLineWithoutEnd();
    AbsentWithoutHash(c, END_MARKER);
    AbsentConcat(a, b, END_MARKER);
    AbsentConcat(a + b, c, END_MARKER);
  }

  /** A text whose only `#` is its first character, and whose third character differs
      from the pattern's, does not hold a pattern that starts with `#`. */
  lemma AbsentAfterFirstHash(a: string, pat: string)
    requires |pat| > 2 && pat[0] == '#'
    requires forall i :: 0 < i < |a| ==> a[i] != '#'
    requires |a| > 2 ==> a[2] != pat[2]
    ensures Absent(a, pat)
  {
    forall k: nat | k + |pat| <= |a| ensures !OccursAt(a, pat, k) {
      assert a[k..k + |pat|][0] == a[k];
      assert a[k..k + |pat|][2] == a[k + 2];
    }
  }

  lemma StartLineWithoutEnd()
    ensures Absent(START_MARKER + NL, END_MARKER)
  {
    var a := START_MARKER + NL;
    assert forall i :: 0 < i < |a| ==> a[i] != '#';
    assert a[2] == 'R' && END_MARKER[2] == 'E';
    AbsentAfterFirstHash(a, END_MARKER);
  }

  lemma GeneratedLineWithoutEnd()
    ensures Absent(GENERATED_LINE + NL, END_MARKER)
  {
    var b := GENERATED_LINE + NL;
    assert forall i :: 0 < i < |b| ==> b[i] != '#';
    assert b[2] == 'G' && END_MARKER[2] == 'E';
    AbsentAfterFirstHash(b, END_MARKER);
  }

  // ---------------------------------------------------------------------------
  // splicing
  // ---------------------------------------------------------------------------

  /** The text with a final newline added unless it is empty or already ends a line. */
  function EndLine(content: string): (r: string)
    ensures r == [] || r[|r| - 1] == '\n'
    ensures r == content || r == content + NL
    ensures content == [] || content[|content| - 1] == '\n' ==> r == content
    ensures content != [] && content[|content| - 1] != '\n' ==> r == content + NL
  {
    if content != [] && !EndsWith(content, NL) then content + NL
    else
      assert content != [] ==> content[|content| - 1..] == NL;
      content
  }

  /** The body of `execute` after the section is built: with both markers present, the text
      before the start marker, the new section, and the text after the end marker; with only
      the start marker, the old text and the section after a newline; with neither, the old
      text ended by a newline, a blank line, and the section. Both markers are found by
      searching the whole text. */
  function UpdateGitignore(content: string, section: string): (r: string)
    ensures IndexOf(content, START_MARKER).None? ==> r == EndLine(content) + NL + section
    ensures IndexOf(content, START_MARKER).Some? && IndexOf(content, END_MARKER).None? ==>
              r == content + NL + section
    ensures IndexOf(content, START_MARKER).Some? && IndexOf(content, END_MARKER).Some? ==>
              var s, e := IndexOf(content, START_MARKER).value, IndexOf(content, END_MARKER).value;
              r == content[..s] + section + content[e + |END_MARKER|..]
  {
    match IndexOf(content, START_MARKER)
    case None => EndLine(content) + NL + section
    case Some(s) =>
      match IndexOf(content, END_MARKER)
      case None => content + NL + section
      case Some(e) => content[..s] + section + content[e + |END_MARKER|..]
  }

  lemma MarkersHaveNoNewline()
    ensures '\n' !in START_MARKER && '\n' !in END_MARKER
  {}

  /** A section head starts with the start marker, ends a line and holds no end marker. */
  lemma HeadShape(agents: seq<Agent>)
    requires PlainEntries(agents)
    ensures |START_MARKER| <= |SectionHead(agents)| && SectionHead(agents)[..|START_MARKER|] == START_MARKER
    ensures SectionHead(agents)[|SectionHead(agents)| - 1] == '\n'
    ensures Absent(SectionHead(agents), END_MARKER)
  {
    EndMarkerNotInHead(agents);
  }

  /** In marker-free text ending a line, followed by a head and the end marker line, the
      start marker is found at the head and the end marker right after it. */
  lemma MarkersFound(before: string, head: string, after: string)
    requires before == [] || before[|before| - 1] == '\n'
    requires Absent(before, START_MARKER) && Absent(before, END_MARKER)
    requires |START_MARKER| <= |head| && head[..|START_MARKER|] == START_MARKER
    requires head[|head| - 1] == '\n' && Absent(head, END_MARKER)
    ensures IndexOf(before + head + END_MARKER + NL + after, START_MARKER) == Some(|before|)
    ensures IndexOf(before + head + END_MARKER + NL + after, END_MARKER) == Some(|before| + |head|)
  {
    StartMarkerFound(before, head, after);
    EndMarkerFound(before, head, after);
  }

  lemma StartMarkerFound(before: string, head: string, after: string)
    requires before == [] || before[|before| - 1] == '\n'
    requires Absent(before, START_MARKER)
    requires |START_MARKER| <= |head| && head[..|START_MARKER|] == START_MARKER
    ensures IndexOf(before + head + END_MARKER + NL + after, START_MARKER) == Some(|before|)
  {
    MarkersHaveNoNewline();
    var tail := head + END_MARKER + NL + after;
    assert before + head + END_MARKER + NL + after == before + tail;
    assert tail[..|START_MARKER|] == START_MARKER;
    FirstOccurrence(before, tail, START_MARKER);
  }

  lemma EndMarkerFound(before: string, head: string, after: string)
    requires before == [] || before[|before| - 1] == '\n'
    requires Absent(before, END_MARKER)
    requires |head| > 0 && head[|head| - 1] == '\n' && Absent(head, END_MARKER)
    ensures IndexOf(before + head + END_MARKER + NL + after, END_MARKER) == Some(|before| + |head|)
  {
    MarkersHaveNoNewline();
    AbsentConcat(before, head, END_MARKER);
    var rest := END_MARKER + NL + after;
    assert before + head + END_MARKER + NL + after == (before + head) + rest;
    assert rest[..|END_MARKER|] == END_MARKER;
    assert (before + head)[|before + head| - 1] == '\n';
    FirstOccurrence(before + head, rest, END_MARKER);
  }

  /** The splice over such a text. */
  lemma SpliceOverHead(before: string, head: string, after: string, section: string)
    requires before == [] || before[|before| - 1] == '\n'
    requires Absent(before, START_MARKER) && Absent(before, END_MARKER)
    requires |START_MARKER| <= |head| && head[..|START_MARKER|] == START_MARKER
    requires head[|head| - 1] == '\n' && Absent(head, END_MARKER)
    ensures UpdateGitignore(before + head + END_MARKER + NL + after, section) == before + section + NL + after
  {
    var content := before + head + END_MARKER + NL + after;
    MarkersFound(before, head, after);
    SpliceAt(content, section, |before|, |before| + |head|);
    PiecesAround(before, head, after);
    assert before + section + (NL + after) == before + section + NL + after;
  }

  /** With both markers found, the text between them gives way to the section. */
  lemma SpliceAt(content: string, section: string, s: nat, e: nat)
    requires IndexOf(content, START_MARKER) == Some(s) && IndexOf(content, END_MARKER) == Some(e)
    ensures s <= |content| && e + |END_MARKER| <= |content|
    ensures UpdateGitignore(content, section) == content[..s] + section + content[e + |END_MARKER|..]
  {}

  /** What lies before a head and after the end marker line that follows it. */
  lemma PiecesAround(before: string, head: string, after: string)
    ensures (before + head + END_MARKER + NL + after)[..|before|] == before
    ensures (before + head + END_MARKER + NL + after)[|before| + |head| + |END_MARKER|..] == NL + after
  {
    var content := before + head + END_MARKER + NL + after;
    var x := before + head + END_MARKER;
    assert content == x + (NL + after);
    assert content[|x|..] == NL + after;
  }

  /** An earlier section, with any text before it that ends a line and holds neither
      marker, is replaced by the new one; the old section's final newline stays behind, in
      front of the text that followed it. */
  lemma ReplaceSection(before: string, previous: seq<Agent>, after: string, agents: seq<Agent>)
    requires before == [] || before[|before| - 1] == '\n'
    requires Absent(before, START_MARKER) && Absent(before, END_MARKER)
    requires PlainEntries(previous)
    ensures UpdateGitignore(before + BuildRulesyncSection(previous) + after, BuildRulesyncSection(agents))
         == before + BuildRulesyncSection(agents) + NL + after
  {
    var head := SectionHead(previous);
    HeadShape(previous);
    assert before + BuildRulesyncSection(previous) + after == before + head + END_MARKER + NL + after;
    SpliceOverHead(before, head, after, BuildRulesyncSection(agents));
  }

  /** The first run on a file without a section keeps the old text as a prefix of text
      that ends a line and holds neither marker, followed by the section. */
  lemma FirstRunShape(content: string, agents: seq<Agent>)
    requires Absent(content, START_MARKER) && Absent(content, END_MARKER)
    ensures var before := UpdateGitignore(content, BuildRulesyncSection(agents))[..|UpdateGitignore(content, BuildRulesyncSection(agents))| - |BuildRulesyncSection(agents)|];
            && UpdateGitignore(content, BuildRulesyncSection(agents)) == before + BuildRulesyncSection(agents)
            && content <= before
            && before[|before| - 1] == '\n'
            && Absent(before, START_MARKER) && Absent(before, END_MARKER)
  {
    var section := BuildRulesyncSection(agents);
    assert IndexOf(content, START_MARKER).None?;
    var before := EndLine(content) + NL;
    EndLineAbsent(content, START_MARKER);
    EndLineAbsent(content, END_MARKER);
    var r := before + section;
    assert UpdateGitignore(content, section) == r;
    assert r[..|r| - |section|] == before;
    assert before == content + (before[|content|..]);
  }

  /** A text ended by a newline and one more newline still lacks a marker it lacked. */
  lemma EndLineAbsent(content: string, pat: string)
    requires '\n' !in pat && pat != []
    requires Absent(content, pat)
    ensures Absent(EndLine(content) + NL, pat)
  {
    if EndLine(content) != content {
      AbsentNewline(content, pat);
    }
    AbsentNewline(EndLine(content), pat);
  }

  /** Running the command again adds one newline after the section each time: the old
      section's final newline is kept in front of the new section's tail. */
  lemma RerunAddsNewline(content: string, previous: seq<Agent>, agents: seq<Agent>)
    requires Absent(content, START_MARKER) && Absent(content, END_MARKER)
    requires PlainEntries(previous)
    ensures UpdateGitignore(UpdateGitignore(content, BuildRulesyncSection(previous)), BuildRulesyncSection(agents))
         == UpdateGitignore(content, BuildRulesyncSection(agents)) + NL
  {
    var s1, s2 := BuildRulesyncSection(previous), BuildRulesyncSection(agents);
    FirstRunShape(content, previous);
    var r1 := UpdateGitignore(content, s1);
    var before := r1[..|r1| - |s1|];
    ReplaceSection(before, previous, "", agents);
    assert before + s1 + "" == r1;
    FirstRunShape(content, agents);
    var r2 := UpdateGitignore(content, s2);
    assert r2[..|r2| - |s2|] == before;
  }

  // ---------------------------------------------------------------------------
  // the command
  // ---------------------------------------------------------------------------

  /** `GitignoreCommand.execute`: the exit code (always 0) and the files afterwards. */
  datatype GitignoreRun = GitignoreRun(code: int, files: Files)

  /** The run for a given list of enabled agents. */
  function RunFor(files: Files, cwd: string, enabled: seq<Agent>): (r: GitignoreRun)
    ensures r.code == 0
    ensures |enabled| == 0 ==> r.files == files
    ensures |enabled| > 0 ==> cwd + "/.gitignore" in r.files
    ensures forall p :: p != cwd + "/.gitignore" ==> Read(r.files, p) == Read(files, p)
    ensures |enabled| > 0 ==>
              r.files == files[cwd + "/.gitignore" :=
                UpdateGitignore(Read(files, cwd + "/.gitignore").GetOr(""), BuildRulesyncSection(enabled))]
  {
    if |enabled| == 0 then GitignoreRun(0, files)
    else
      var path := cwd + "/.gitignore";
      var content := if path in files then files[path] else "";
      GitignoreRun(0, files[path := UpdateGitignore(content, BuildRulesyncSection(enabled))])
  }

  /** `GitignoreCommand.execute`: nothing to do without enabled agents; otherwise the
      section for the enabled agents is written into `.gitignore`, created when missing. */
  function Execute(files: Files, cwd: string, config: Config): (r: GitignoreRun)
    ensures r.code == 0
    ensures |EnabledAgents(AGENTS, GetDisabledRules(config))| == 0 ==> r.files == files
    ensures |EnabledAgents(AGENTS, GetDisabledRules(config))| > 0 ==> cwd + "/.gitignore" in r.files
    ensures forall p :: p != cwd + "/.gitignore" ==> Read(r.files, p) == Read(files, p)
  {
    RunFor(files, cwd, EnabledAgents(AGENTS, GetDisabledRules(config)))
  }

  /** After a run with enabled agents, `.gitignore` holds the section built for exactly
      those agents; read back line by line, its entries are their ignore paths, once each
      and in registry order. */
  lemma ExecuteWritesSection(files: Files, cwd: string, config: Config)
    requires |EnabledAgents(AGENTS, GetDisabledRules(config))| > 0
    ensures var enabled := EnabledAgents(AGENTS, GetDisabledRules(config));
            var section := BuildRulesyncSection(enabled);
            && Contains(Execute(files, cwd, config).files[cwd + "/.gitignore"], section)
            && 3 + |enabled| <= |Lines(section)|
            && Lines(section)[3..3 + |enabled|] == EntryPaths(enabled)
  {
    var enabled := EnabledAgents(AGENTS, GetDisabledRules(config));
    var content := Read(files, cwd + "/.gitignore").GetOr("");
    UpdateHoldsSection(content, BuildRulesyncSection(enabled));
    EnabledPlain(GetDisabledRules(config));
    SectionRoundTrip(enabled);
  }

  /** Every case of the update leaves the new section in the text. */
  lemma UpdateHoldsSection(content: string, section: string)
    ensures Contains(UpdateGitignore(content, section), section)
  {
    var t := UpdateGitignore(content, section);
    var at: nat :=
      match IndexOf(content, START_MARKER)
      case None => |EndLine(content)| + 1
      case Some(s) => if IndexOf(content, END_MARKER).None? then |content| + 1 else s;
    assert OccursAt(t, section, at);
  }

  /** The enabled agents' entries are plain, as every registry entry is. */
  lemma EnabledPlain(disabled: seq<string>)
    ensures PlainEntries(EnabledAgents(AGENTS, disabled))
  {
    var enabled := EnabledAgents(AGENTS, disabled);
    RegistryEntriesPlain();
    forall k | 0 <= k < |enabled|
      ensures '\n' !in enabled[k].gitignorePath && '#' !in enabled[k].gitignorePath
    {
      assert enabled[k] in AGENTS;
    }
  }
}
