# rulesync core, modelled in Dafny

rulesync keeps one Markdown rules document (`rulesync.md`) and writes a copy of it into the
rule file of each supported AI coding agent (`CLAUDE.md`, `.cursorrules`, `GEMINI.md`, …).
The copies are not identical. A region of the document between `<!-- exclude: a, b -->` and
`<!-- /exclude -->` is removed from the copies of the agents it names. Every other agent gets
the region's inner lines, with the two tag lines stripped.

This project models the core of that pipeline as pure functions over strings and sequences:

- **Content filter** (`ContentFilter`, `ExclusionTags`, `TextLines`, `Cleanup`):
  - the line scan that pairs start and end tags, with a warning for each unclosed start tag;
  - the character ranges of the blocks;
  - the splice from the last block to the first;
  - the collapse of newline runs and the final trim;
  - the two queries over the agents named in the document.
- **Composition** (`Composition`, `Generate`, `Compose`):
  - the segments of the enabled composition rules, joined with the project file by `\n\n---\n\n`;
  - the base rules appended after the joined text;
  - the choice of source file, including the local-plus-global "augmented" file;
  - template matching by name for `compose`.
- **Write planner** (`WritePlanner`): missing target, force/overwrite, identical content, operator answer.
- **Generation loop** (`Generate`): one write decision per enabled agent, the two counters, and the exit code.
- **`.gitignore` section** (`Gitignore`): the marker-delimited section, spliced over an old section or appended.
- **Configuration and registry** (`ConfigService`, `Registry`, `AgentCommands`):
  - the disabled-agent list;
  - the composition rules;
  - the twelve-agent table;
  - the `enable` and `disable` commands.

All I/O is an input:
- the disk is a map from path to contents (`Paths.Files`);
- each URL maps to the text a fetch returns, and a failed or timed-out fetch is a missing key;
- the working and home directories are fields of `Paths.Env`;
- the operator's yes/no answers are a `seq<bool>` read in order (`Prompts.Ask`), and once it runs out each question takes its default.

Every command returns its exit code together with the new files, configuration and remaining answers.

Some behaviour of the code that a reader might not expect, and that the model keeps:

- A kept block is replaced by its inner lines with no newline after the last one. The range
  it replaces runs through the newline after the end tag, so the last inner line runs into
  the line after the block (`ContentFilter.LineResult`, `ContentFilter.FilterByLines`). The
  repository's own test of a kept block (`src/__tests__/services/ContentFilterService.test.ts:45-68`)
  expects exactly this: the blank line that followed the end tag is gone, and the block's last
  line is directly followed by the next paragraph.
- Filtering is not idempotent in general: a start tag inside a kept block survives the first
  pass and can pair with a later end tag on the next. The model claims no idempotence for
  `FilterContentForAgent`; it proves it only for the final clean-up step
  (`Cleanup.CleanupIdempotent`).
- Re-running the `.gitignore` update adds one more newline each time
  (`Gitignore.RerunAddsNewline`). The old section's final newline stays behind as part of the
  text after the end marker.
- The composition-rule operations of the configuration service (`addCompositionRule`,
  `removeCompositionRule`, `getEnabledCompositionRules`) are called by the commands but are
  not in `src/services/ConfigService.ts`. They are modelled from
  `src/__tests__/services/ConfigService.test.ts`.

## Model

| member | source | states |
|---|---|---|
| ExclusionTags.StartTag | src/services/ContentFilterService.ts:9 | The start pattern matches a line exactly when some position of the line starts a tag; the capture is the one of the leftmost such position (no tag starts before it), non-empty and without `>` |
| ExclusionTags.FindEndTag | src/services/ContentFilterService.ts:10 | The result is the first position at or after `p` where an end tag starts; when there is none, no position from `p` on starts one |
| ExclusionTags.OpenTagRecognised | src/services/ContentFilterService.ts:9 | A well-formed `<!-- exclude: list -->` line is recognised, and its capture (with the trailing space the greedy class keeps) parses to the same agents as the list |
| ExclusionTags.CloseTagRecognised | src/services/ContentFilterService.ts:10 | The canonical `<!-- /exclude -->` line is an end tag |
| ExclusionTags.AgentItems | src/services/ContentFilterService.ts:121-126 | The agent list holds exactly the non-empty trimmed, lower-cased items, and every one is non-empty and lower case |
| ExclusionTags.ExclusionIgnoresCaseAndPadding | src/services/ContentFilterService.ts:121-133 | An agent is excluded by a list exactly when some comma-separated item, trimmed, equals the agent's name up to ASCII case (both directions) |
| ExclusionTags.ExclusionIgnoresTargetCase | src/services/ContentFilterService.ts:131-133 | Exclusion gives the same answer for a shortcode and its lower-case form |
| ExclusionTags.AgentListPadRight | src/services/ContentFilterService.ts:121-126 | Trailing whitespace after the last item does not change the parsed list |
| TextLines.Lines | src/services/ContentFilterService.ts:52 | Splitting on newlines gives at least one line, no line holds a newline, and joining with newlines gives back the text |
| TextLines.LinePosition | src/services/ContentFilterService.ts:107-116 | The offset of line `n` is the length of the first `n` lines, each with its newline; lines past the last are not counted |
| TextLines.LinePositionSuffix | src/services/ContentFilterService.ts:107-116 | The text from the offset of line `n` on is the join of the lines from `n` on; past the last line the offset is one more than the text's length |
| TextLines.LinePositionSlice | src/services/ContentFilterService.ts:107-116 | The text between the offsets of lines `a` and `b` is exactly those whole lines with their newlines |
| ContentFilter.FindEnd | src/services/ContentFilterService.ts:64-71 | The end line is the first line at or after `j` holding an end tag; when there is none, no later line holds one |
| ContentFilter.ScanFrom | src/services/ContentFilterService.ts:54-99 | Every pair the scan records has a start tag on its open line, an end tag on its close line and none in between; the pairs close before the next one opens |
| ContentFilter.ScanWarnings | src/services/ContentFilterService.ts:54-99 | Each warning is the 1-based number of a line holding a start tag, and no later line holds an end tag; the warnings are strictly ascending, so each line is reported once; no warning falls on a line of a recorded pair, not even its closing line, which the scan skips past |
| ContentFilter.TagPairMeans | src/services/ContentFilterService.ts:56-71 | A block found in a text opens on a start-tag line, closes at the first later end-tag line, and a start tag in between is ordinary content |
| ContentFilter.EveryStartTagAccounted | src/services/ContentFilterService.ts:54-99 | Every line holding a start tag either opens or lies inside a found block, or is reported as unclosed |
| ContentFilter.UnclosedStartLines | src/services/ContentFilterService.ts:54-99 | Each reported line is the 1-based number of a start-tag line with no end tag after it; the lines are reported once each, in order, and none is the opening, inner or closing line of a found block |
| ContentFilter.BlocksOf | src/services/ContentFilterService.ts:80-95 | One block per tag pair, in order, each built from its pair's lines and offsets |
| ContentFilter.BlocksWellPlaced | src/services/ContentFilterService.ts:87-97 | The blocks of a text start inside it and do not overlap; each ends no later than the next one starts |
| ContentFilter.ParsedBlocksAscending | src/services/ContentFilterService.ts:87-97 | The blocks come out in strictly ascending order of start offset |
| ContentFilter.SortByStartDescending | src/services/ContentFilterService.ts:24 | The sort returns a permutation of the blocks in descending order of start offset |
| ContentFilter.SortOfAscendingIsReverse | src/services/ContentFilterService.ts:24 | Sorting blocks with strictly ascending starts in descending order reverses them |
| ContentFilter.SpliceBackwards | src/services/ContentFilterService.ts:24-42 | Splicing non-overlapping blocks from last to first gives the same text as replacing each block in one left-to-right pass over the original |
| ContentFilter.FilterContentForAgent | src/services/ContentFilterService.ts:15-45 | Without blocks the text is returned unchanged, not cleaned up; with blocks the result has no three newlines in a row and no surrounding whitespace |
| ContentFilter.FilterByLines | src/services/ContentFilterService.ts:15-45 | The filtered text, described line by line: lines outside blocks are copied, an excluded block vanishes with its tag lines, and a kept block leaves its inner lines, the last one running into the line after the block |
| ContentFilter.ExcludedAgentsInContent | src/services/ContentFilterService.ts:146-155 | The result is strictly sorted and holds exactly the agents named by some block (sorted, no duplicates) |
| ContentFilter.ValidateExcludedAgents | src/services/ContentFilterService.ts:160-165 | The result is sorted and holds exactly the named agents that are none of the lower-cased valid shortcodes |
| Cleanup.CollapseNewlines | src/services/ContentFilterService.ts:140 | The result has no three newlines in a row, and starts with a newline exactly when the input does |
| Cleanup.CollapseLongRun | src/services/ContentFilterService.ts:140 | A maximal run of three or more newlines becomes exactly two, and the rest of the text is collapsed on its own |
| Cleanup.CollapseShortRun | src/services/ContentFilterService.ts:140 | A maximal run of one or two newlines is kept as it is |
| Cleanup.CollapseOtherChar | src/services/ContentFilterService.ts:140 | Any character other than a newline is kept in place |
| Cleanup.CollapseKeepsText | src/services/ContentFilterService.ts:140 | Collapsing newline runs changes nothing but newlines |
| Cleanup.CollapseIdempotent | src/services/ContentFilterService.ts:140 | Collapsing twice is collapsing once |
| Cleanup.CleanupContent | src/services/ContentFilterService.ts:138-141 | The cleaned text is the newline-collapsed text with only whitespace cut from its two ends: it is the slice after the leading whitespace, what is cut on either side is all whitespace, it is itself trimmed and free of triple newlines, and it is empty exactly when the collapsed text is all whitespace |
| Cleanup.CleanupIdempotent | src/services/ContentFilterService.ts:138-141 | Cleaning up twice is cleaning up once |
| Composition.Survivors | src/commands/GenerateCommand.ts:416-421 | The segments kept are exactly the loaded, non-empty ones |
| Composition.DroppedSegmentIsInvisible | src/commands/GenerateCommand.ts:417-420 | A rule that failed to load, or loaded as empty, leaves the composed text as if it were not configured |
| Composition.ComposeWithMain | src/commands/GenerateCommand.ts:406-435 | The composed text is the surviving segments followed by the project content, joined by the separator; with no survivors it is the project content alone |
| Composition.ComposeRulesOnly | src/commands/ComposeCommand.ts:266-280 | Without surviving segments there is no document; otherwise it is the survivors joined by the separator |
| Composition.ComposeAgrees | src/commands/ComposeCommand.ts:266-280 | The `generate` composition equals the `compose` composition followed by the separator and the project content, or the project content alone when `compose` has nothing |
| Composition.BuildFinalContent | src/commands/GenerateCommand.ts:171-177 | The content comes first, unchanged; non-blank base rules follow after a blank line, and missing or blank base rules add nothing |
| Composition.ResolveCompositionRulePath | src/commands/GenerateCommand.ts:463-473 | URLs and absolute paths are kept; other paths are taken from the working directory |
| Composition.LoadRule | src/commands/GenerateCommand.ts:438-461 | A rule loads exactly when its resolved path is a fetched URL or an existing file, and its text is that fetch result or file |
| Composition.LoadAll | src/commands/ComposeCommand.ts:268-273 | One load per rule, in rule order |
| Generate.AugmentedContent | src/commands/GenerateCommand.ts:365-369 | The combined file is the project heading, the local rules, the separator, the general heading and the global rules, and each part can be read back at its offset |
| Generate.HandleAugmentation | src/commands/GenerateCommand.ts:319-363 | A stored preference decides without asking; otherwise the first answer (default yes) decides, the second (default no) decides whether that choice is saved, and only the augment field may change |
| Generate.StoredPreferenceSticks | src/commands/GenerateCommand.ts:351-356 | Once a preference is saved, later runs make the same choice without reading an answer |
| Generate.GetSourceFile | src/commands/GenerateCommand.ts:102-132 | `--from` wins outright with no fallback; both files present and distinct lead to augmentation; otherwise local, then global, then nothing |
| Generate.ReadSource | src/commands/GenerateCommand.ts:134-146 | A source yields its text exactly when that text is not blank; a missing or blank file, blank augmented text, or no source gives nothing |
| Generate.GetBaseRules | src/commands/GenerateCommand.ts:148-169 | No path, or an empty one, gives no base rules; a URL gives its fetch result and a path its file, and nothing when missing |
| Generate.GetComposedContent | src/commands/GenerateCommand.ts:395-436 | There is a document exactly when the chosen source is readable; it is the loaded rule segments then the project content, joined by the separator, and it ends with the project content |
| Generate.WriteAll | src/commands/GenerateCommand.ts:69-92 | One decision per agent: generated + skipped = number of agents; each agent's file ends up holding its output or its old content; with force or overwrite every file holds its output; files of no agent are untouched |
| Generate.FilteredOutputs | src/commands/GenerateCommand.ts:77-82 | Each agent receives the same document, filtered for its own shortcode |
| Generate.WriteOutputs | src/commands/GenerateCommand.ts:33-99 | Exit code 0; no enabled agents means no writes; otherwise one decision per enabled agent, so generated plus skipped is the number of enabled agents; each enabled agent's file holds the document with base rules, filtered for that agent, or its old content; with force or overwrite it always holds the filtered document; a file no enabled agent writes, including a disabled agent's file, is unchanged; the unknown names reported are exactly the names in the composed text (before base rules) that match no registry shortcode, enabled or not |
| Generate.Execute | src/commands/GenerateCommand.ts:23-100 | A declined version-control prompt or a missing document gives exit 1 and no writes; with force the run succeeds exactly when a document is composed; a successful run is the write phase applied to the composed document, so generated plus skipped is the number of enabled agents; only enabled agents' files can change, so a disabled agent's file is never written |
| WritePlanner.ShouldWriteFile | src/commands/GenerateCommand.ts:179-207 | Missing target, force, overwrite and identical content write without a prompt; otherwise one answer is read (default no) and decides |
| WritePlanner.SkipMeansDeclined | src/commands/GenerateCommand.ts:179-207 | A file is skipped exactly when it exists with different content, neither flag is set, and the answer is no or missing |
| WritePlanner.RewriteIsSilent | src/commands/GenerateCommand.ts:192-195 | Rewriting identical content always writes and reads no answer |
| WritePlanner.ComposeShouldWriteFile | src/commands/ComposeCommand.ts:346-374 | The same decision without an overwrite flag |
| Compose.MarkdownFiles | src/commands/ComposeCommand.ts:161-183 | Every listed file ends in `.md` and lies below the directory |
| Compose.FlatListing | src/commands/ComposeCommand.ts:174 | In a directory of plain files, a file is listed exactly when its name ends in `.md` and is not `README.md` |
| Compose.ExactMatches | src/commands/ComposeCommand.ts:142-145 | The first filter keeps, in order, exactly the files whose name equals or contains the identifier, case included |
| Compose.PartialMatches | src/commands/ComposeCommand.ts:152-156 | The fallback keeps, in order, exactly the files whose name and the identifier contain one another ignoring case |
| Compose.ExactWithinPartial | src/commands/ComposeCommand.ts:142-156 | Every exact match is also a partial match |
| Compose.FindMatchingTemplateFiles | src/commands/ComposeCommand.ts:121-159 | No templates gives nothing; an identifier with `/` names one file directly; otherwise the exact matches, or the partial ones when there are none |
| Compose.CreateCompositionRule | src/commands/ComposeCommand.ts:185-192 | The new rule is enabled and carries the given name, path and priority |
| Compose.ResolveFilePath | src/commands/ComposeCommand.ts:100-119 | A rule exists exactly when the resolved file exists, and it is named after the file without its extension |
| Paths.NameOfMarkdownFile | src/commands/ComposeCommand.ts:117 | A Markdown file's rule name is its stem |
| Compose.ResolveRuleIdentifier | src/commands/ComposeCommand.ts:71-98 | Absolute paths and `.md` names are files; one template match is used under the identifier's name, none falls back to a file, several fail |
| Compose.ResolveAll | src/commands/ComposeCommand.ts:39-53 | The identifier at position `k` resolves with priority `k + 1`; the list fails exactly when one identifier fails |
| Compose.ResolvedPriorities | src/commands/ComposeCommand.ts:42-44 | The resolved rules are enabled and numbered 1, 2, … in command-line order |
| Compose.RemoveNamed | src/commands/ComposeCommand.ts:33-37 | A rule survives exactly when it was there before and its name is not among the removed ones; no other field changes |
| Compose.AddAllAppends | src/commands/ComposeCommand.ts:54-61 | Adding rules with fresh, distinct names appends them in order |
| Compose.GenerateRulesyncFile | src/commands/ComposeCommand.ts:257-298 | No enabled rules or no segment gives exit 1 and no write; exit 0 writes the joined segments to `rulesync.md`; once there is content the exit code is the write decision: a missing or identical `rulesync.md` gives 0 without asking, `--force` gives 0, and a different file gives 0 exactly when the operator says yes |
| Compose.ComposeRerunIsSilent | src/commands/ComposeCommand.ts:284-297 | Composing again over the file a successful run wrote succeeds without asking and changes no file, provided the rules load the same |
| Compose.Execute | src/commands/ComposeCommand.ts:16-69 | No identifiers gives exit 1 with nothing changed; old rules are cleared first; a failed resolution gives exit 1 with no rules left; otherwise the resolved rules are added and `rulesync.md` is generated from them |
| Compose.ComposeKeepsOrder | src/commands/ComposeCommand.ts:33-68 | With distinct names, the configuration afterwards holds exactly the resolved rules, numbered 1, 2, … in the order given, and they are its enabled rules in that order |
| Gitignore.BuildRulesyncSection | src/commands/GitignoreCommand.ts:80-92 | The section is the head (markers, note, blank line, entries, blank line), the end marker and one newline |
| Gitignore.SectionRoundTrip | src/commands/GitignoreCommand.ts:80-92 | Splitting the section on newlines gives back exactly its seven kinds of lines, one entry per agent |
| Gitignore.UpdateGitignore | src/commands/GitignoreCommand.ts:44-63 | Both markers: the text before the start marker, the section, then the text after the end marker; start only: the old text, a newline and the section; no start: the text ended by a newline when non-empty, a blank line and the section |
| Gitignore.EndLine | src/commands/GitignoreCommand.ts:59-61 | The text gets a final newline exactly when it is non-empty and lacks one; otherwise it is returned unchanged |
| Gitignore.ReplaceSection | src/commands/GitignoreCommand.ts:44-52 | An earlier section is replaced by the new one, and the text around it is kept verbatim |
| Gitignore.FirstRunShape | src/commands/GitignoreCommand.ts:57-63 | A first run keeps the old text as a prefix of text that ends in a newline and is free of markers, followed by the section |
| Gitignore.RerunAddsNewline | src/commands/GitignoreCommand.ts:51 | Running again gives the first run's result plus one newline |
| Gitignore.RunFor | src/commands/GitignoreCommand.ts:17-78 | Exit code 0; no enabled agents means no write; otherwise `.gitignore` (empty when missing) is updated with their section |
| Gitignore.Execute | src/commands/GitignoreCommand.ts:17-78 | Exit code 0; no enabled agents leaves the files unchanged; only `.gitignore` can change, and it exists afterwards when some agent is enabled |
| Gitignore.ExecuteWritesSection | src/commands/GitignoreCommand.ts:22-56 | After a run with enabled agents, `.gitignore` contains the section built for them, and read back line by line its entries are their ignore paths, once each, in registry order |
| Gitignore.RegistryEntriesPlain | src/services/RuleDiscoveryService.ts:21-34 | No registry entry holds a newline or a `#`, so the markers cannot occur inside the section's entries |
| ConfigService.DisableRule | src/services/ConfigService.ts:44-51 | The shortcode is added once, only when absent, at the end; an already listed shortcode changes nothing; no other field changes |
| ConfigService.EnableRule | src/services/ConfigService.ts:53-57 | Every occurrence of the shortcode is removed; the others keep their counts and order; no other field changes |
| ConfigService.DisableThenEnable | src/services/ConfigService.ts:44-57 | Disabling then enabling leaves the shortcode absent and every other shortcode as it was; a list without it comes back identical |
| ConfigService.SetBaseRulesPath | src/services/ConfigService.ts:59-62 | Only the base rules path changes |
| ConfigService.SetAugmentPreference | src/services/ConfigService.ts:72-75 | Only the augment preference changes |
| ConfigService.UpsertRule | src/__tests__/services/ConfigService.test.ts:61-83 | Adding a rule under an existing name replaces it in place and keeps the count; a new name appends; other rules stay where they were |
| ConfigService.UpsertNew | src/__tests__/services/ConfigService.test.ts:46-59 | A rule with a new name is appended at the end |
| ConfigService.RemoveByName | src/__tests__/services/ConfigService.test.ts:85-98 | Removal keeps, in order, exactly the rules with another name |
| ConfigService.SortByPriority | src/__tests__/services/ConfigService.test.ts:100-131 | The sort returns a permutation in ascending priority, with a missing priority counted as 0 |
| ConfigService.GetEnabledCompositionRules | src/__tests__/services/ConfigService.test.ts:100-131 | The result is in ascending priority and holds each enabled rule as often as the configuration does, and no disabled rule |
| ConfigService.InsertAtEnd | src/__tests__/services/ConfigService.test.ts:100-131 | A rule of the highest priority so far goes at the end, so equal priorities keep their order |
| ConfigService.EnabledInOrder | src/__tests__/services/ConfigService.test.ts:100-131 | Enabled rules already in priority order come back unchanged |
| Registry.RegistryShape | src/services/RuleDiscoveryService.ts:21-34 | The table has twelve agents with pairwise distinct shortcodes |
| Registry.GitignorePaths | src/agents/AmazonQ.ts:12-18 | Every agent but Amazon Q ignores the file it writes; Amazon Q ignores `.amazonq/rules/` |
| Registry.RegistryPathsDistinct | src/services/RuleDiscoveryService.ts:21-34 | No two agents write the same file |
| Registry.FindByShortcode | src/services/RuleDiscoveryService.ts:41-43 | The lookup finds the first agent whose shortcode equals the query exactly, and nothing when none does |
| Registry.GetRuleByShortcode | src/services/RuleDiscoveryService.ts:41-43 | A found agent is in the table with the queried shortcode; nothing found means no agent has it |
| Registry.GetRuleByOwnShortcode | src/services/RuleDiscoveryService.ts:41-43 | Each agent is found by its own shortcode |
| Registry.EnabledAgents | src/commands/GenerateCommand.ts:37 | The enabled agents are exactly the agents whose shortcode is not disabled, in registry order |
| AgentCommands.ParseIntDigits | src/commands/EnableCommand.ts:19 | A run of decimal digits reads as its value whatever non-digit text follows it |
| AgentCommands.ParseIntDecimal | src/commands/EnableCommand.ts:19 | The decimal numeral of a number parses back to that number |
| AgentCommands.ResolveRule | src/commands/EnableCommand.ts:17-25 | An identifier that parses to an index inside the table selects by index; any other identifier is looked up as a shortcode |
| AgentCommands.ResolveByIndex | src/commands/EnableCommand.ts:19-22 | The numeral `k` selects the `k`-th agent |
| AgentCommands.ResolveByShortcode | src/commands/EnableCommand.ts:21-25 | Each agent is selected by its own shortcode |
| AgentCommands.MinusOneIsNotFound | src/commands/DisableCommand.ts:29-35 | `-1` parses, lies outside the table, and as a shortcode finds nothing |
| AgentCommands.Enable | src/commands/EnableCommand.ts:14-44 | Unresolved: exit 1, unchanged; resolved: exit 0, the shortcode is not disabled afterwards, other shortcodes keep their state, and an agent that was not disabled leaves the configuration unchanged |
| AgentCommands.Disable | src/commands/DisableCommand.ts:14-54 | Unresolved: exit 1, unchanged; resolved: exit 0, the shortcode is disabled, exactly once when newly added, other shortcodes keep their state, and an already disabled agent leaves the configuration unchanged |

## Left out

- File, network, prompt, clock and environment access are inputs, not effects. Directory
  creation (`mkdirpSync`), console and coloured output, and the deprecation banner are left out.
- JSON loading and saving of the configuration and the choice of configuration path are left
  out. A configuration is a value, and every command returns the new one.
- The version-control check of `generate` is an input: whether the directory is under version
  control. When it is not, the run asks one question (default no).
- Template bootstrapping, when no source file exists (`handleMissingSourceFile`,
  `createRulesyncFromTemplate`), is left out. No source file gives no document.
- The temporary file behind the augmented source is left out: its name depends on the clock.
  The model passes the augmented text along directly.
- `isUrl` is simplified to "a letter, then scheme characters, then `:`". The WHATWG URL parser
  is not modelled.
- `path.resolve` joins without normalising `.` and `..`. Paths use `/` only.
- Files are keyed by the path string the code uses. The agent files, `--from` and the base-rules
  path are relative names; the local rules file, `.gitignore`, `rulesync.md` and composition-rule
  files are keyed under the working directory. A relative name and the absolute name of the same
  file are distinct keys, so the statement that `generate` leaves files no agent writes unchanged
  is about keys: `CLAUDE.md` is an agent file, while the key `cwd + "/CLAUDE.md"` is not.
- Paths.Basename: trailing slashes are not stripped (`"foo/"` gives `""`, where Node gives
  `"foo"`). The paths it is applied to are file names from a listing or a rule path.
- Paths.Extname: a basename of `..` gives `"."`, where Node gives `""`. Such a name is never a
  Markdown template.
- Lower-casing covers ASCII letters only. `trim` and `\s` use the full ECMAScript whitespace set.
- Sorting compares code points, not UTF-16 code units. The two orders differ only for
  characters outside the Basic Multilingual Plane.
- The JavaScript regex engine is not modelled. The two tag patterns are matched by hand-written
  functions that follow leftmost matching and the greedy capture.
- Compose.ResolveAll: the resolution loop stops at the first identifier that fails. The model
  resolves every identifier and fails when any one fails. The configuration and files afterwards
  are the same; only the console output differs.
- AgentCommands.ParseIntDigits: `parseInt` is modelled for leading whitespace, one sign, the
  `0x` prefix and the longest digit run. Numbers beyond double precision are not modelled, and
  the properties are stated for decimal numerals.
- Composition.LoadRule: the fetched text of a URL is taken as it is, the same simplification as
  for the base rules below.
- Generate.GetBaseRules: the fetched text of a URL is taken as it is. The axios response
  decoding and its 10-second timeout are not modelled; a timeout is a missing URL.
- The listing of available templates, and the `templates`, `list`, `agents` and `config`
  commands, only print. They are left out.
- The duplicate rule classes under `src/rules/` are left out. The agent constants live in the
  registry table.
- The templates directory is a parameter (`Compose.Templates`). Its location next to the
  installed package is not modelled.
- ContentFilter.FilterContentForAgent: its own contract gives only the shape of the result
  (unchanged without blocks; no triple newline and trimmed otherwise). The exact text is stated
  by `ContentFilter.FilterByLines` and `ContentFilter.SpliceBackwards`.
- Compose.MarkdownFiles: the depth-first listing order is not stated. `Compose.FlatListing`
  states membership exactly only for a directory of plain files.
- Gitignore.Execute: its contract does not give the new `.gitignore` text. `Gitignore.RunFor`
  states it exactly for the enabled agents.
