# Pull-request maintenance scripts: the text-editing core

Two scripts run on each pull request.

- `scripts/gen_changelog.py` adds one bullet for the pull request to the
  `## [Unreleased]` part of a Keep a Changelog 1.1.0 `CHANGELOG.md`.
- `scripts/update_agents.py` refreshes every `AGENTS.md` file on the directory
  chains of the changed paths, and makes sure a required always-include block
  is present.

This project models what the two scripts do to text, lists and files, and
proves what each step promises. The network, the text generator and the
process environment are parameters of the model.

Files:

- `text.dfy` (module `Text`) holds the Python `str` operations both scripts
  rely on: `strip()`, `in`, `find`, `replace`, `join`, `f"{n}"` and the
  code-point order of `sorted()`.
- `summary.dfy` (module `FileSummary`) holds `summarize_files`, which both
  scripts share with caps of 25 and 50.
- `changelog.dfy` (module `Changelog`) covers the changelog script:
  - the scope guess;
  - the fallback entry used when the generator raises;
  - reference normalisation;
  - the `#<PR>` idempotency guard;
  - `ensure_section`;
  - the bullet and migration line;
  - the lazy-regex splice and its `str.replace` fallback.
- `agents.dfy` (module `Agents`) covers the AGENTS.md script:
  - the file system is a value: file contents and the set of directories, with
    paths as segment sequences;
  - the mapping from changed paths to AGENTS.md targets, as a dict built in
    place;
  - `ensure_always_include_block`;
  - the content selection of `llm_update`;
  - the loop of `main`, which compares after stripping, reports, writes in
    apply mode and sets the sentinel.

The generator's reply is an input:

- in the changelog script, `Option<Parsed>`, where `None` means the call raised;
- in the AGENTS.md script, a `Reply` per target: it raised, it decoded to
  something that is not an object, or it is an object with its two fields.

Writes come back as values. The changelog script returns the final document
text. The AGENTS.md script returns an `Outcome`:

- `NothingToDo` when no files changed;
- `Completed` with the report, the list of `(path, content)` writes and the
  sentinel flag;
- `Aborted` with the writes performed before the loop raised.

The model follows the code where it does something a reader might not expect:

- The docstring at `scripts/update_agents.py:62-67` says that ancestor AGENTS.md
  files are included "up to repo root". The directory chain of a changed path
  in fact runs to the file-system root (`cur.parents`,
  `scripts/update_agents.py:83`). An
  AGENTS.md above the workspace therefore becomes a target. `relative_to` then
  raises for it and the run aborts. See `Agents.AncestorAboveWorkspace`,
  `Agents.TargetsUnderRoot` and `Agents.Dispatch`.
- The splice inserts directly after the `### <Category>\n` line, with no
  blank line in between.
- The search for `### <Category>\n` is lazy and not confined to the
  `## [Unreleased]` part. When that heading exists only under an older
  release, `ensure_section` adds nothing and the bullet lands in the older
  release. See `Changelog.InsertsUnderOlderRelease`.
- `ensure_always_include_block` appends the block only when it is absent. The
  block can still end up twice in a text, for example when the generator's
  content already repeats it; nothing in the code prevents that.
- The scope guess is empty when no changed path contains `/`. The converse
  needs a condition: a path starting with `/` contributes the empty top-level
  directory. See `Changelog.LeadingSlashGivesEmptyScope`.
- The separator before the appended block is `"\n\n"` on both branches of
  the conditional at `scripts/update_agents.py:106`.

## Model

| member | source | states |
|---|---|---|
| Text.TrimStartMeaning | scripts/update_agents.py:212 | the left trim of `strip()` drops exactly the leading whitespace run: the rest is a suffix of the input that does not start with whitespace |
| Text.TrimEndMeaning | scripts/update_agents.py:212 | the right trim drops exactly the trailing whitespace run: the rest is a prefix of the input that does not end in whitespace |
| Text.StripMeaning | scripts/update_agents.py:212 | `s.strip()` is a slice of `s` with only whitespace around it, and it neither starts nor ends with whitespace |
| Text.StripEmptyIff | scripts/update_agents.py:101 | `not required.strip()` holds exactly when every character of `required` is whitespace |
| Text.ContainsIff | scripts/update_agents.py:103 | the `in` operator on strings holds exactly when the pattern occurs at some index |
| Text.ContainsWithin | scripts/update_agents.py:107 | a substring of `t` is a substring of any text that embeds `t` |
| Text.ContainsTrans | scripts/gen_changelog.py:132 | a substring of a substring is a substring |
| Text.FindFrom | scripts/gen_changelog.py:154 | the forward search returns the first occurrence at or after the start, or reports that there is none |
| Text.ReplaceAllAbsent | scripts/gen_changelog.py:133 | `str.replace` of a pattern that does not occur returns the text unchanged |
| Text.ReplaceAllPresent | scripts/gen_changelog.py:133 | after `str.replace` of a pattern that occurs, the replacement occurs in the result |
| Text.ReplaceAllFirst | scripts/gen_changelog.py:133 | when no occurrence of the pattern starts before a given one, `str.replace` keeps the text before it, replaces it, and carries on with the rest |
| Text.NatToString | scripts/gen_changelog.py:31 | `f"{n}"` is a non-empty string of decimal digits with no leading zero whose decimal value is `n` |
| Text.LessIrreflexive | scripts/gen_changelog.py:108 | the order of `sorted()` on strings is irreflexive |
| Text.LessTransitive | scripts/gen_changelog.py:108 | that order is transitive |
| Text.LessTotal | scripts/gen_changelog.py:108 | any two different strings are ordered one way or the other |
| Text.LessAsymmetric | scripts/gen_changelog.py:108 | that order is asymmetric |
| FileSummary.SummaryLines | scripts/update_agents.py:50-58 | the listing has min(n, cap) file lines `status filename (+a/-d)` in file order, plus exactly one `... and {n-cap} more` line when n > cap |
| FileSummary.SummarizeFiles | scripts/gen_changelog.py:28-34 | the loop appending to `out` and the newline join yield exactly those lines joined by `\n` |
| Changelog.TopSegment | scripts/gen_changelog.py:25 | `p.split("/")[0]` is the longest prefix of `p` without `/`, and a `/` follows it whenever `p` has one |
| Changelog.TopDirs | scripts/gen_changelog.py:25 | the top-level directories are exactly the first segments of the changed paths that contain `/` |
| Changelog.ScopeGuess | scripts/gen_changelog.py:26 | the guess is `""` when no path has `/`; otherwise it is one of the top-level directories, and no other has a larger count |
| Changelog.MostFrequent | scripts/gen_changelog.py:26 | `max(set, key=count)` returns a member of the set whose count no other member exceeds |
| Changelog.ScopeGuessEmptyIff | scripts/gen_changelog.py:25-26 | when no changed path starts with `/`, the guess is empty exactly when no changed path contains `/` |
| Changelog.LeadingSlashGivesEmptyScope | scripts/gen_changelog.py:25-26 | a path with a leading `/` makes `""` a valid guess although the path contains `/` |
| Changelog.Take | scripts/gen_changelog.py:99 | `s[:n]` is the prefix of `s` of length min(len(s), n) |
| Changelog.Resolve | scripts/gen_changelog.py:89-104 | a reply is taken as decoded; without one the entry is `Changed`, not breaking, with the guessed scope, an empty migration and no references, and its summary is a prefix of `title.strip()` of length min(len(title.strip()), 200), the whole stripped title when it fits |
| Changelog.InsertSorted | scripts/gen_changelog.py:108 | inserting into a strictly sorted list keeps it strictly sorted and adds exactly that element |
| Changelog.SortDedup | scripts/gen_changelog.py:108 | `sorted(set(xs))` is strictly sorted and has exactly the elements of `xs` |
| Changelog.SortedUnique | scripts/gen_changelog.py:108 | two strictly sorted lists with the same elements are equal, so `sorted()` of a set is well defined |
| Changelog.NormalizeReferences | scripts/gen_changelog.py:106-108 | the references are strictly sorted, hence free of duplicates, and are exactly the reply's references plus `#<PR>` and `@<author>` |
| Changelog.HasRefIff | scripts/gen_changelog.py:127 | the guard's search for `#<PR>\b` succeeds exactly when `#<PR>` occurs followed by a non-word character or the end of the text |
| Changelog.RefWithin | scripts/gen_changelog.py:127 | a whole-token reference inside a piece of the text is one the guard finds in the whole text |
| Changelog.OpeningContains | scripts/gen_changelog.py:133 | the new opening contains both `## [Unreleased]\n` and the section marker |
| Changelog.EnsureSection | scripts/gen_changelog.py:130-134 | a text containing `\n### C\n` comes back unchanged; otherwise every `## [Unreleased]\n` is replaced by the opening with the new section; if the line is present, the result has it and the marker; if not, the text is unchanged |
| Changelog.EnsureSectionIdempotent | scripts/gen_changelog.py:130-134 | applying `ensure_section` twice equals applying it once |
| Changelog.NonEmpty | scripts/gen_changelog.py:146 | the filter keeps exactly the non-empty parts |
| Changelog.JoinedRefAt | scripts/gen_changelog.py:147 | in `", ".join(refs) + ")"`, every reference is followed by `,` or `)` |
| Changelog.ListedRef | scripts/gen_changelog.py:147-149 | a reference so followed is a whole token of the insertion that embeds the list, and it is not at the insertion's end |
| Changelog.InsertionRecordsRefs | scripts/gen_changelog.py:146-151 | every normalised reference, `#<PR>` among them, is a whole token of the insertion |
| Changelog.MatchEnd | scripts/gen_changelog.py:153-156 | the search picks the first `## [Unreleased]` and the nearest `### C\n` after it (the leftmost match of the lazy pattern) and returns its end, or reports that nothing matches |
| Changelog.Splice | scripts/gen_changelog.py:153-159 | on a match at `idx` the result is `text[:idx] + insertion + text[idx:]`, preserving both sides; otherwise it is the `str.replace` fallback; a text without `## [Unreleased]` is unchanged; any text with the `## [Unreleased]` line receives the insertion |
| Changelog.LineHasTitle | scripts/gen_changelog.py:133 | a text with the line `## [Unreleased]\n` contains the title `## [Unreleased]` |
| Changelog.SectionThenSplice | scripts/gen_changelog.py:137-159 | the section step followed by the splice either leaves the text alone or places the insertion, and leaves a text without `## [Unreleased]` alone |
| Changelog.MatchEndFrom | scripts/gen_changelog.py:153-156 | when the pattern matches, and only with headings from a given index on, the search ends past that index |
| Changelog.FixedMarkerPresent | scripts/gen_changelog.py:131-132 | `ensure_section` leaves alone a document whose only `### Fixed` is under an older release |
| Changelog.FixedHeadingsLate | scripts/gen_changelog.py:153 | in that document every match of the pattern ends on the heading under `## [1.0.0]` |
| Changelog.InsertsUnderOlderRelease | scripts/gen_changelog.py:153-157 | in that document the bullet is spliced in after the `## [1.0.0]` line, inside the older release |
| Changelog.InsertionMarksRef | scripts/gen_changelog.py:127-159 | a text that contains the insertion contains each of its references as a whole token |
| Changelog.MergeTextFacts | scripts/gen_changelog.py:124-159 | a document already referencing `#<PR>` is left unchanged; one without `## [Unreleased]` is unchanged; any other result references `#<PR>` |
| Changelog.MergeIdempotent | scripts/gen_changelog.py:126-128 | running the script a second time for the same pull request, with the same reply, leaves the document as the first run left it |
| Changelog.RerunLeavesAlone | scripts/gen_changelog.py:126-128 | once a run has changed the document, or found `#<PR>` already in it, a rerun for the same pull request with any reply leaves the document as it is |
| Changelog.PreambleSpaced | scripts/gen_changelog.py:115-120 | every `#` of the skeleton's title and description lines is followed by a space |
| Changelog.FreshHasNoRef | scripts/gen_changelog.py:114-127 | the guard finds no `#<PR>` in a fresh skeleton |
| Changelog.FreshHasNoMarker | scripts/gen_changelog.py:114-132 | a fresh skeleton has no `\n### C\n` marker |
| Changelog.EnsureSectionFirst | scripts/gen_changelog.py:130-134 | without the marker, `ensure_section` opens the section at the first `## [Unreleased]\n` and replaces the later ones |
| Changelog.SectionOnFresh | scripts/gen_changelog.py:130-137 | on a fresh skeleton `ensure_section` puts `\n### C\n\n` right under its one `## [Unreleased]` line |
| Changelog.LeftmostByGaps | scripts/gen_changelog.py:153 | a match is the leftmost and nearest one when every `#` before it is followed by a space and no `#` lies between its title and its heading |
| Changelog.FreshLeftmost | scripts/gen_changelog.py:153 | in the opened skeleton the pattern matches from the `## [Unreleased]` line to the new heading |
| Changelog.MatchEndAt | scripts/gen_changelog.py:153-155 | the search ends right after the heading of the leftmost and nearest match |
| Changelog.SpliceOnFresh | scripts/gen_changelog.py:153-157 | in the opened skeleton the insertion goes right after the new heading |
| Changelog.MergeIntoSkeleton | scripts/gen_changelog.py:114-161 | without a CHANGELOG.md the result is the skeleton's preamble, `## [Unreleased]\n\n### C\n`, the insertion, then `\n\n` |
| Changelog.Filenames | scripts/gen_changelog.py:24 | `changed` lists the file names in the order of the file list |
| Changelog.BuildInsertion | scripts/gen_changelog.py:139-151 | the appends to `bullet_parts`, the joins and the conditional migration line build exactly `" - " + " ".join(nonempty parts) + " (" + ", ".join(refs) + ")\n"`, followed by the migration line iff breaking and the migration is non-empty |
| Changelog.UpdateChangelog | scripts/gen_changelog.py:24-161 | the script computes a valid scope guess, the 25-line summary, and the merge of the resolved entry into the document or the skeleton |
| Changelog.EditDocument | scripts/gen_changelog.py:111-161 | the step-by-step edit of `text` yields the merge of the entry into the document or the skeleton |
| Agents.SummarizeFiles | scripts/update_agents.py:50-58 | the file listing with a cap of 50 |
| Agents.Chain | scripts/update_agents.py:80-83 | the chain has one directory per ancestor, from `cur` to the root |
| Agents.ChainAt | scripts/update_agents.py:83 | the `i`-th directory of the chain is `cur` with its last `i` segments removed |
| Agents.CandidatesMembers | scripts/update_agents.py:85-90 | the targets found on a chain are exactly the existing AGENTS.md files of its directories |
| Agents.TargetsOf | scripts/update_agents.py:85-95 | every changed path gets at least one target |
| Agents.ChainCandidate | scripts/update_agents.py:79-90 | an AGENTS.md found on the chain is one in a prefix directory of `cur`, and the converse holds too |
| Agents.ChainHasCandidate | scripts/update_agents.py:85-92 | `found_any` holds exactly when some prefix directory of `cur` has an AGENTS.md |
| Agents.TargetsOfMeaning | scripts/update_agents.py:73-95 | a path's targets are the existing AGENTS.md files in the directories above its start directory; if there are none, they are the workspace root's AGENTS.md alone |
| Agents.AddKeysSnoc | scripts/update_agents.py:89 | `setdefault` adds a key at the end only the first time |
| Agents.AddKeysMembers | scripts/update_agents.py:89 | the dict's keys are the old keys plus the targets added, nothing else |
| Agents.ChainDistinct | scripts/update_agents.py:83 | a chain never repeats a directory |
| Agents.CandidateNew | scripts/update_agents.py:86-89 | along a chain without repeats, each directory's AGENTS.md is new |
| Agents.ChainCandidateNew | scripts/update_agents.py:86-89 | so each AGENTS.md on a chain is appended to once per changed path |
| Agents.AppendTo | scripts/update_agents.py:89 | `mapping.setdefault(t, []).append(rel)` appends `rel` to `t`'s list and adds `t` as the last key if it is new |
| Agents.AppendedStep | scripts/update_agents.py:89 | one more append keeps the relation between the dict before and after a changed path |
| Agents.AppendedEntry | scripts/update_agents.py:89 | that append changes only the entry of its target |
| Agents.AddAlongChain | scripts/update_agents.py:85-90 | the inner loop appends the path to every existing AGENTS.md of the chain, nearest first, and `found_any` records whether there was one |
| Agents.AddCandidate | scripts/update_agents.py:86-90 | one pass of the inner loop handles the AGENTS.md of one more directory |
| Agents.MapsEmpty | scripts/update_agents.py:71 | the empty dict is the mapping of no changed paths |
| Agents.MapsStep | scripts/update_agents.py:73-95 | handling one more changed path extends the mapping of the earlier ones |
| Agents.ImpactedStep | scripts/update_agents.py:89-95 | each target's list grows by the new path exactly when the path is added to that target |
| Agents.MapOne | scripts/update_agents.py:74-95 | one changed path is appended to each of its targets: the chain's AGENTS.md files, or the root one as the fallback |
| Agents.MapNext | scripts/update_agents.py:73-95 | one iteration of the outer loop extends the mapping by the next changed path |
| Agents.MapChangedPaths | scripts/update_agents.py:61-97 | the result's keys are the targets in first-seen order, and each target's list holds the changed paths added to it, in the order of the changed list |
| Agents.AddKeysDistinct | scripts/update_agents.py:89 | adding keys never repeats one |
| Agents.KeyOrderDistinct | scripts/update_agents.py:71-95 | the mapping's keys are distinct, so the loop of `main` visits each target once |
| Agents.KeyOrderMembers | scripts/update_agents.py:71-95 | a target is a key exactly when some changed path is added to it |
| Agents.ImpactedByMembers | scripts/update_agents.py:73-95 | a changed path is in a target's list exactly when that target is one of its targets |
| Agents.EveryPathMapped | scripts/update_agents.py:199-202 | every changed path lands in some target's list, and the mapping is empty only when no file changed, so the `not mapping` exit cannot be taken |
| Agents.TargetsUnderRoot | scripts/update_agents.py:79-95 | in an existing workspace with no AGENTS.md above it, every target lies in the workspace |
| Agents.AncestorAboveWorkspace | scripts/update_agents.py:83 | an AGENTS.md above the workspace becomes a target, and it is not under the workspace |
| Agents.EnsureBlockMeaning | scripts/update_agents.py:100-107 | a blank block changes nothing; a present block changes nothing; otherwise the text gets `"\n\n" + block + "\n"` appended; the input is always a prefix of the result, and a non-blank block is then contained |
| Agents.EnsureBlockIdempotent | scripts/update_agents.py:100-107 | enforcing the block twice equals enforcing it once |
| Agents.LlmUpdateMeaning | scripts/update_agents.py:166-182 | the summary is the reply's, `""` for a non-object, or the fixed failure note; the content is the reply's non-empty content, or else the current text, with the block enforced; a non-blank block is always contained |
| Agents.RelativeTo | scripts/update_agents.py:215 | `relative_to` yields the rest of the path after the workspace |
| Agents.ReportForMeaning | scripts/update_agents.py:211-220 | the entry names the target relative to the workspace; `changed` holds exactly when the stripped texts differ; the summary is the generator's, or `"No changes"` for an unchanged target with an empty one |
| Agents.ReportedStep | scripts/update_agents.py:213-248 | reporting one more target extends the report by its entry |
| Agents.Dispatch | scripts/update_agents.py:204-256 | with every target processable, the run completes with one report entry per target in order, the writes of the changed targets in apply mode, and the sentinel iff something was written; otherwise it aborts at the first unprocessable target with the writes before it |
| Agents.ProcessTargets | scripts/update_agents.py:207-248 | the loop stops exactly before the first unprocessable target, having reported and written everything before it |
| Agents.ProcessNext | scripts/update_agents.py:207-248 | one iteration appends the target's entry and write and keeps `any_applied` equal to "something was written" |
| Agents.AbortedBy | scripts/update_agents.py:265-271 | stopping at an unprocessable target is an aborted run with the writes so far |
| Agents.CompletedBy | scripts/update_agents.py:250-256 | finishing the loop is a completed run whose sentinel is whether anything was written |
| Agents.ProcessTarget | scripts/update_agents.py:209-248 | one target's report entry, and its write (only in apply mode and only when it changed) |
| Agents.RunUpdate | scripts/update_agents.py:191-256 | no changed files means nothing to do; otherwise it is the loop over the mapping's targets in first-seen order |
| Agents.SuggestWritesNothing | scripts/update_agents.py:232-246 | suggest mode writes no file |
| Agents.WritesMembers | scripts/update_agents.py:232-235 | each write is a changed target with its new content, in apply mode |
| Agents.WritesInclude | scripts/update_agents.py:232-235 | in apply mode every changed target is written with its new content |
| Agents.WritesNonEmpty | scripts/update_agents.py:254-256 | something is written (so the sentinel is set) exactly when, in apply mode, some target changed |
| Agents.WrittenHasBlock | scripts/update_agents.py:180-181 | every written file contains the non-blank required block |
| Agents.TargetsProcessable | scripts/update_agents.py:211-215 | in an existing workspace with no AGENTS.md above it, every target that is not a directory can be processed |
| Agents.DispatchCompletes | scripts/update_agents.py:207-256 | when every target can be processed, the loop runs to completion |
| Agents.RunCompletes | scripts/update_agents.py:191-256 | so such a run completes, and the exception path is not taken |

## Left out

- The code host and the generator: `gh_get`, `post_pr_comment`, the OpenAI
  client and the JSON decoding of its output are outside the model. The
  decoded reply is an input, and the comments posted per target are not
  modelled.
- The prompts (`build_prompt`, the changelog prompt) and the JSON schemas are
  fixed text. They are not modelled, and neither is the `body[:4000]`
  truncation inside the prompt.
- Environment and configuration become parameters:
  - `AGENTS_MODE` after `.strip().lower()` is the `apply` flag;
  - `AGENTS_ALWAYS_INCLUDE` and the file that may override it are the
    `always` string;
  - the workspace root, the PR number, the author and the title are inputs.
- The missing-variable guard and the exit codes are left out. The exception
  raised in apply mode and swallowed in suggest mode at
  `scripts/update_agents.py:265-271` is the `Aborted` outcome in both cases.
- The report file's JSON serialisation and the sentinel file's content are
  left out. The report is a list of entries and the sentinel is a flag.
- `Path.resolve()`, symbolic links and `..` segments are left out. Paths are
  already-resolved segment sequences, and `mkdir(parents=True)` is part of a
  write.
- Agents.ProcessTarget: the check that a target can be read and lies in the
  workspace happens before the generator call in the model. The script calls
  the generator first. Either way the run stops at that target with the same
  writes and no report file.
- Agents.MapChangedPaths: the impacted lists only feed the prompt, which is
  not modelled. They are computed and proved, but the loop of `main` does not
  read them.
- Changelog.HasRefIff: `\b` is modelled with ASCII word characters. Python's
  Unicode word characters (letters of other scripts directly after `#<PR>`)
  are not modelled.
- Changelog.ScopeGuess: which of several equally frequent directories Python
  picks depends on set iteration order. The model promises only a most
  frequent one.
- Changelog.ScopeGuessEmptyIff: stated only for changed paths that do not
  start with `/`. Such a path contributes `""` as a directory, as
  `Changelog.LeadingSlashGivesEmptyScope` shows.
- Changelog.Resolve: the reply is taken as the schema describes it. Fields of
  the wrong JSON type are not modelled.
- Agents.LlmUpdateMeaning: `str()` of a non-string `updated_content` or
  `summary` is not modelled; the reply carries strings.
- Text.NatToString: covers only the non-negative integers the scripts
  format.
- Changelog.RerunLeavesAlone: requires that the first run changed the
  document or found `#<PR>` in it. A first run that changed nothing can be
  followed by one that inserts. For example, on `## [Unreleased] x\n### Added\n`
  a `Fixed` entry finds no `## [Unreleased]\n` and leaves the text alone,
  while a later `Added` entry is spliced in.
- Contents are modelled as already-decoded text. A file that is not valid
  UTF-8 makes `read_text` raise, and that run is not modelled. Universal
  newlines turn `\r\n` into `\n` on reading, so a rewritten file loses its
  carriage returns. "Unchanged outside the insertion" holds for the decoded
  text, not for the bytes on disk.
- Changelog.InsertsUnderOlderRelease: states that the bullet lands after the
  `## [1.0.0]` line, not its exact offset.
- Writes that fail on disk (permissions, a missing disk) are not modelled.
