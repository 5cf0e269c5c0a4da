# Gradle dependency upgrade: version rewriter and upgrade driver

This project models the core of an interactive tool that upgrades the
dependencies of a Gradle build. The tool reads the reports of the Gradle
versions plugin and offers the outdated dependencies as choices. It then
writes the chosen versions back into the build files. The model covers two
parts.

- **The version rewriter** (`replace(body, dependency)`). It rewrites one
  dependency's version in the text of a build file and tries four textual
  forms in turn:
  1. a variable reference `group:name:$var`, whose assignment `var = 'old'`
     is then rewritten;
  2. every inline coordinate `group:name:old`;
  3. a plugin declaration `id 'group' version 'old'`;
  4. a named-argument declaration `name: 'x', version: 'old'`.
- **The driver rules.** These are:
  - how a choice is built from a report entry (candidate version, semantic
    version class), the `--semver` filter and the wrapper choice put in front;
  - how the reports of several projects are merged;
  - how the rewrites for all selected dependencies are collected across all
    build files without repeats, and then applied to every file's text.

The regular expressions are written out as matchers that read a text from a
candidate position (module `Patterns`). `exec` becomes the leftmost-match
search. The rewriter is modelled twice:

- `Variant.AsWritten` does what the code does, including the `TypeError`
  that an unmatched optional group causes.
- `Variant.Corrected` changes only the version literal that the pattern
  located, never throws, and also accepts the call-style declaration
  `id("group") version "old"`.

The `## Findings` section below lists where the two variants differ: the
throw on a missing white-space gap, the call-style plugin declaration, the
old version rewritten inside a name instead of the literal, and the second
copy of an assignment that form 1 also rewrites. The imperative parts are `method`s with loops, proved
against the functions that specify them:

- the `forEach` over the `exec` groups in the rewriter;
- the collection loop and the write-back loop in `index.js`;
- the report merge.

Two places where the code does not do what its own tests or callers
expect; the model follows the code:

- The test at __tests__/ReplaceVersion.test.js:74-83 expects the call-style
  plugin declaration `id("...") version "0.22.0"` to be rewritten. The
  pattern at ReplaceVersion.js:33 does not match it. Finding 2 covers this.
- `replace` returns the rewritten text (ReplaceVersion.js:50), while
  index.js:164-166 iterates over its result as a list of
  `{searchValue, replaceValue}` actions. The model keeps both:
  - `ReplaceVersion.Replace` returns the text;
  - the driver takes the actions of a file and dependency as a parameter
    (`WriteBack.ActionsFor`).

## Model

| member | source | states |
|---|---|---|
| ReplaceVersion.Replace | ReplaceVersion.js:2-51 | threads the text through the variable, inline, plugin and named-argument forms in that order; a form that throws ends the call with `UndefinedGroup` |
| ReplaceVersion.RewriteVariable | ReplaceVersion.js:8-24 | form 1: nothing changes unless a variable reference and then an assignment of the old version to that variable are found; otherwise the assignment match's groups are filtered and rewritten |
| ReplaceVersion.RewritePlugin | ReplaceVersion.js:33-39 | form 3: nothing changes without a plugin match; otherwise the match's groups are filtered and rewritten |
| ReplaceVersion.RewriteKeyword | ReplaceVersion.js:42-48 | form 4: nothing changes without a named-argument match; otherwise the match's groups are filtered and rewritten |
| ReplaceVersion.RewriteExec | ReplaceVersion.js:19-23 | the `exec` array filtered by `includes`, then the `forEach` rewrite; throws exactly when the filter does |
| ReplaceVersion.ForEachRewrite | ReplaceVersion.js:20-22 | the loop's result is the kept entries applied in order, each replacing its first copy in the body by itself with its first old version replaced |
| ReplaceVersion.Including | ReplaceVersion.js:20 | throws exactly when an entry of the `exec` array is undefined; otherwise keeps exactly the defined entries that include the old version, and never more entries than there were |
| ReplaceVersion.ReplaceCorrected | ReplaceVersion.js:2-51 | the corrected rewriter always returns a text and never throws |
| Patterns.VarRefAt | ReplaceVersion.js:8 | a variable reference yields a non-empty name made of word characters |
| Patterns.AssignAt | ReplaceVersion.js:16 | an assignment match has the quoted old version just before its end, six groups, group 1 equal to the whole match and fillers in groups 2-5 |
| Patterns.PluginAt | ReplaceVersion.js:33 | a plugin match has the quoted old version just before its end, six groups, and fillers in groups 1-5 |
| Patterns.KeywordAt | ReplaceVersion.js:42 | a named-argument match has the quoted old version just before its end, six groups, and fillers in groups 1-5 |
| Patterns.InlineAt | ReplaceVersion.js:27 | an inline match spans exactly the group, the name, the old version and the two colons |
| Patterns.FindVarRef | ReplaceVersion.js:12 | `exec`: the leftmost position where a variable reference matches, and none before it; `None` exactly when no position matches |
| Patterns.FindAssign | ReplaceVersion.js:17 | the leftmost assignment match, and none before it; `None` exactly when there is none |
| Patterns.FindPlugin | ReplaceVersion.js:34 | the leftmost plugin match, and none before it; `None` exactly when there is none |
| Patterns.FindKeyword | ReplaceVersion.js:43 | the leftmost named-argument match, and none before it; `None` exactly when there is none |
| Patterns.FindInline | ReplaceVersion.js:28 | the leftmost inline coordinate, and none before it; `None` exactly when there is none |
| PatternFacts.AssignGaps | ReplaceVersion.js:16 | the two optional white-space groups of an assignment are undefined exactly when no white space stands before, respectively after, the `=` |
| PatternFacts.PluginGaps | ReplaceVersion.js:33 | the two optional white-space groups of a plugin match are undefined exactly when no white space stands before, respectively after, `version` |
| PatternFacts.KeywordGaps | ReplaceVersion.js:42 | the optional white-space group of a named-argument match is undefined exactly when no white space follows the comma |
| PatternFacts.AssignAtPrefix | ReplaceVersion.js:16 | an assignment match depends only on the text it covers |
| PatternFacts.CallStyleMatched | __tests__/ReplaceVersion.test.js:74-83 | the corrected plugin pattern matches a call-style declaration `id("group") version "old"`, which the source's pattern does not match at that position |
| JsString.StrReplaceFirst | ReplaceVersion.js:21 | `String.replace` with a string pattern replaces the first occurrence only and keeps the rest of the text |
| JsString.StrReplaceAbsent | ReplaceVersion.js:21 | `String.replace` leaves a text without the pattern unchanged |
| JsString.ExpandVerbatim | ReplaceVersion.js:29 | a replacement template without `$` is inserted verbatim |
| ReplaceVersionFacts.IncludingAssign | ReplaceVersion.js:16-20 | from an assignment match with no undefined group, the filter keeps the whole match twice, or nothing when the match does not include the old version |
| ReplaceVersionFacts.IncludingQuoted | ReplaceVersion.js:33-36 | from a plugin or named-argument match with no undefined group, the filter keeps the whole match once, or nothing |
| ReplaceVersionFacts.RewriteAt | ReplaceVersion.js:21 | one `forEach` step writes the new version in place of the first old version inside the first copy of the match, and changes nothing else |
| ReplaceVersionFacts.ApplyAssignAsWritten | ReplaceVersion.js:20-22 | the as-written edit of an assignment: the first old version inside the match is rewritten, then the next copy of the match text |
| ReplaceVersionFacts.VariableStageAsWritten | ReplaceVersion.js:8-24 | form 1 as written rewrites the first old version inside the first assignment, then the next copy of the assignment text |
| ReplaceVersionFacts.PluginStageAsWritten | ReplaceVersion.js:33-39 | form 3 as written rewrites the first old version inside the first plugin match |
| ReplaceVersionFacts.KeywordStageAsWritten | ReplaceVersion.js:42-48 | form 4 as written rewrites the first old version inside the first named-argument match |
| ReplaceVersionFacts.VariableStageAgrees | ReplaceVersion.js:8-24 | form 1 as written and corrected give the same text when the literal holds the first old version of the assignment and the edited body holds no second copy of it |
| ReplaceVersionFacts.PluginStageAgrees | ReplaceVersion.js:33-39 | when the literal holds the first old version of the match, form 3 as written equals the corrected edit at that same match; it equals the whole corrected stage when the corrected pattern finds that same match first |
| ReplaceVersionFacts.KeywordStageAgrees | ReplaceVersion.js:42-48 | form 4 as written and corrected give the same text when the literal holds the first old version of the match |
| InlineFacts.InlineStageFirst | ReplaceVersion.js:27-30 | the inline form keeps the text before the first coordinate, puts the new coordinate in its place and goes on after it |
| InlineFacts.InlineUnmatched | ReplaceVersion.js:29 | text holding no coordinate from a position on is copied unchanged |
| InlineFacts.InlineStageJoin | ReplaceVersion.js:27-30 | the inline form equals the texts between the coordinates the pattern finds, left to right and without overlap, joined by the new coordinate: every coordinate is replaced and the text between them is kept |
| InlineFacts.InlineStageSplit | ReplaceVersion.js:27-30 | with fields read literally, the inline form is the text split at every occurrence of `group:name:old` and joined with `group:name:new`; joining the same pieces with the old coordinate gives the text back, and no piece holds the old coordinate |
| InlineFacts.InlineGapsLiteral | ReplaceVersion.js:27 | with fields read literally, the gaps between matches are the pieces of the text split at the spelled-out coordinate |
| JsString.SplitJoin | ReplaceVersion.js:29 | joining the pieces of a split with the separator gives the text back |
| JsString.SplitPieces | ReplaceVersion.js:29 | no piece of a split holds the separator |
| InlineFacts.InlineStageSameVersion | ReplaceVersion.js:27-30 | writing back the version already there, every coordinate is replaced by itself and the text is unchanged |
| CorrectedFacts.EditLiteralEffect | ReplaceVersion.js:21 | the corrected edit writes the new version in place of the literal when the literal reads the old version, and keeps the text before and after; otherwise it changes nothing |
| CorrectedFacts.EditLiteralReverts | ReplaceVersion.js:21 | the opposite upgrade at the same literal undoes the corrected edit |
| CorrectedFacts.EditLiteralSameVersion | ReplaceVersion.js:21 | upgrading to the version already there leaves a literal unchanged |
| CorrectedFacts.VariableSameVersion | ReplaceVersion.js:8-24 | corrected form 1, upgrading to the version already there, changes nothing |
| CorrectedFacts.PluginSameVersion | ReplaceVersion.js:33-39 | corrected form 3, upgrading to the version already there, changes nothing |
| CorrectedFacts.KeywordSameVersion | ReplaceVersion.js:42-48 | corrected form 4, upgrading to the version already there, changes nothing |
| CorrectedFacts.ReplaceCorrectedSameVersion | ReplaceVersion.js:2-51 | the corrected rewriter, upgrading to the version already there, returns the text unchanged |
| CorrectedFacts.ReplacedUnmatched | ReplaceVersion.js:2-51 | a text that none of the four forms matches is returned unchanged by either variant |
| CorrectedFacts.AbsentVersionKept | ReplaceVersion.js:2-51 | a text in which the old version matches nowhere (letters compared case-folded) is returned unchanged by either variant |
| CorrectedFacts.MissingCharNowhere | ReplaceVersion.js:16 | a version character that is neither a letter nor `.` and is missing from the text rules out every match of the old version |
| CorrectedFacts.AlreadyUpdatedKept | __tests__/ReplaceVersion.test.js:39-46 | the test's text, whose assignment already reads `1.0.0`, is returned unchanged when upgrading `0.8.1` to `1.0.0`, by either variant |
| ReplaceVersionFindings.ApplyThrows | ReplaceVersion.js:20 | the as-written edit of a match throws exactly when one of its groups is undefined; the corrected edit never throws |
| ReplaceVersionFindings.VariableThrowEndsCall | ReplaceVersion.js:20 | a throw in form 1 ends the whole call with `UndefinedGroup` |
| ReplaceVersionFindings.AssignmentThrows | ReplaceVersion.js:16-20 | form 1 as written throws exactly when white space is missing before or after the `=`, and the whole call then throws; the corrected form does not throw |
| ReplaceVersionFindings.PluginThrows | ReplaceVersion.js:33-36 | form 3 as written throws exactly when white space is missing before or after `version` |
| ReplaceVersionFindings.KeywordThrows | ReplaceVersion.js:42-45 | form 4 as written throws exactly when no white space follows the comma; the corrected form does not throw |
| ReplaceVersionFindings.CallStylePassedOver | ReplaceVersion.js:33 | the source's plugin pattern matches nowhere up to a call-style declaration, so form 3 as written rewrites a later declaration or nothing; the corrected form rewrites this declaration's literal |
| ReplaceVersionFindings.AssignmentMisplaced | ReplaceVersion.js:21 | when the old version occurs in an assignment before its literal, the as-written edit rewrites that occurrence and not the literal |
| ReplaceVersionFindings.AssignmentCopyRewritten | ReplaceVersion.js:16-22 | when the text, once the assignment's literal is rewritten, still holds a copy of the original assignment, form 1 as written rewrites that copy's literal too; the corrected form rewrites the located literal only |
| ReplaceVersionFindings.PluginMisplaced | ReplaceVersion.js:37 | when the group of a plugin declaration holds the old version, form 3 as written rewrites it there and not in the literal |
| UpgradeChoices.CandidateVersion | index.js:200 | the release when it is truthy, else the milestone when it is truthy, else the integration version |
| UpgradeChoices.BuildChoices | index.js:198-228 | one choice per report entry, in order, each built from its entry |
| UpgradeChoices.BuildUpgradeChoicesForUser | index.js:197-253 | the choices are the built ones, filtered when a non-empty semver list was given, with the wrapper choice in front when offered; the latest Gradle release is reported whenever the report has a `gradle` section |
| UpgradeChoicesFacts.CandidateTruthy | index.js:200 | the candidate is truthy exactly when one of the three versions is |
| UpgradeChoicesFacts.ChoiceCarries | index.js:216-226 | a choice carries its entry's group, name, version and project URL, its candidate version and the semantic-version class of the move |
| UpgradeChoicesFacts.FilterChoicesMembers | index.js:231 | a choice passes the filter exactly when it was offered and has no class or a listed one |
| UpgradeChoicesFacts.FilterChoicesAll | index.js:231 | when every choice passes, the filter keeps the list as it is |
| UpgradeChoicesFacts.FilterChoicesShorter | index.js:231 | the filter never lengthens the list, and keeps its length only when it drops nothing |
| UpgradeChoicesFacts.DependencyChoiceOffered | index.js:229-232 | a dependency choice is offered exactly when some entry builds it and, with a non-empty semver list, its class is empty or listed |
| UpgradeChoicesFacts.UnfilteredChoices | index.js:229-232 | without a non-empty semver list and without the wrapper, every entry's choice is offered in report order |
| UpgradeChoicesFacts.WrapperChoiceFirst | index.js:236-247 | the wrapper choice is offered exactly when there is a `gradle` section, the project uses the wrapper and the running version differs from the current one; it then comes first and is the only wrapper choice |
| ReportMerge.MergeDependencies | index.js:273-277 | an entry of one report is pushed unless the very same object is already merged: the result is the first occurrence of each identity |
| ReportMerge.FindOutdatedDependencies | index.js:260-285 | the `gradle` section of the last report that has one, and all entries in file order with repeated identities skipped |
| ReportMergeFacts.LastGradleWins | index.js:267-270 | a later report's `gradle` section overwrites an earlier one's |
| ReportMergeFacts.LastGradleSkips | index.js:267-270 | reports without a `gradle` section do not change it |
| ReportMergeFacts.LastGradleNone | index.js:267-270 | there is no section exactly when no report has one |
| ReportMergeFacts.IdentityMergeKeepsAll | index.js:274 | on freshly parsed reports the identity test never fires, and every entry is kept |
| ReportMergeFacts.IdentityMergeKeepsDuplicate | index.js:274 | two reports that list the same dependency give a merged list that holds it twice |
| ReportMergeFacts.DistinctDependenciesUnique | index.js:272-277 | the corrected merge lists no dependency twice |
| ReportMergeFacts.DistinctDependenciesMembers | index.js:272-277 | the corrected merge lists exactly the dependencies that some report lists |
| ReportMergeFacts.DistinctDependenciesOfDistinct | index.js:272-277 | on reports without repeats, the corrected merge keeps every entry in order |
| Seqs.DedupByDistinct | index.js:166-172 | the kept elements have pairwise distinct keys |
| Seqs.DedupByKeys | index.js:166-172 | every key of the input is kept, and no other |
| Seqs.DedupByFirst | index.js:166-172 | each kept element is the first input element with its key |
| Seqs.DedupByOrder | index.js:166-172 | the kept elements come in the order their keys first appear |
| Seqs.DedupByKeepsDistinct | index.js:166-172 | an input whose keys are already distinct is kept whole |
| Seqs.DedupByAppend | index.js:166-172 | one more element is kept exactly when its key is new |
| WriteBack.PushNewActions | index.js:166-172 | an action is pushed unless one with the same search and replace values is already listed |
| WriteBack.CollectFromFile | index.js:160-173 | every selected dependency of one file adds its new actions, in order |
| WriteBack.CollectReplacements | index.js:150-176 | the actions of every file and every non-wrapper selection, in order, with repeated pairs dropped; each file's text kept under its name |
| WriteBack.ApplyAll | index.js:181-183 | every action is applied in list order, each replacing a first occurrence |
| WriteBack.WriteBuildFiles | index.js:178-192 | every file read is written, and only those, with all of the actions applied to its text |
| WriteBackFacts.CollectedDistinct | index.js:166-172 | the collected list never holds the same action twice |
| WriteBackFacts.CollectedMembers | index.js:166-172 | every action computed for some file and dependency is collected, and nothing else |
| WriteBackFacts.WrapperExcluded | index.js:160-161 | exactly the dependency selections are rewritten, and the wrapper selection is not |
| WriteBackFacts.OnlyWrapperSelected | index.js:160-161 | selecting only the wrapper rewrites no dependency |
| WriteBackFacts.NoDependencyNoAction | index.js:160-173 | without dependencies no file yields an action |
| WriteBackFacts.ApplyAppend | index.js:181-183 | applying two lists is applying the first, then the second |
| WriteBackFacts.ApplyAbsent | index.js:181-183 | a text that holds no search value is written back unchanged |
| WriteBackFacts.ApplyOne | index.js:182 | one action replaces the first occurrence of its search value and keeps the rest of the text |
| WriteBackFacts.RepeatedActionRewritesTwice | index.js:167 | an example of why repeated pairs are dropped: on `aa`, the action `a`→`b` listed once gives `ba`, listed twice gives `bb` |
| WriteBackFacts.RepeatedActionRewritesAgain | index.js:166-172 | when the text still holds the search value after the first replace, an action listed twice rewrites that occurrence too, and the result differs from listing it once |

## Left out

- Regular expressions: the descriptor fields are put into the patterns unescaped. The model reads `.` in a field as a wildcard, as the engine does. Every other metacharacter is read literally, because escaping them in full is beyond this model.
- Case-insensitive matching (flag `i` at ReplaceVersion.js:8 and 16) is modelled as ASCII upper-casing; Unicode case folding is not modelled.
- `$` patterns in replacement strings: `Expand` models `$$`, `$&`, `` $` `` and `$'`. The lemmas that state where the new version ends up require texts without `$`.
- The sort by title (`localeCompare`, index.js:233) and the coloured titles (index.js:201-211) are display only and are not modelled; the choices stay in report order.
- `semver.diff` (index.js:204) is the parameter `SemverDiff`; a call that throws is taken as a `None` class.
- `WriteBack.ActionsFor`: at index.js:164-166 the driver calls `forEach` on what `replace` returns, which is a string. The model takes the actions of a file and dependency as a parameter and does not connect them to `ReplaceVersion.Replace`.
- File reads and writes, the report files' discovery and JSON parsing, the prompt, `process.exit`, console output and `debugLog` are left out, because they are I/O. File contents are a `read` parameter; the prompt's answer is the `upgrades` parameter; `gradleWrapper` and the `--semver` list are parameters.
- `gradleWrapper` is a parameter of `UpgradeChoices.BuildUpgradeChoicesForUser`. In the shipped program it is always false: gradleCommand.js:11 calls `existsSync`, which that file never imports, and the catch at gradleCommand.js:15 swallows the error. So the wrapper choice is never offered there; the model states what happens for either value.
- The "nothing selected" exit (index.js:132-135) and the "all up to date" exit (index.js:117-121) are not modelled: they only stop the process.
- The wrapper upgrade subprocess (index.js:137-148) is an external command and is left out.
- The write error path (index.js:186-191) is left out, because it is I/O.
- `WriteBack.WriteBuildFiles`: JavaScript's `Map` iterates in insertion order. The model takes that order as a parameter and states the written contents per file.
- buildFiles.js, io.js, gradleCommand.js and args.js are not part of this model.

## Findings

| source | as written | input that shows it | evidently intended | confidence | as-written member | corrected member |
|---|---|---|---|---|---|---|
| ReplaceVersion.js:16-20, 33-36, 42-45 | the optional groups `(\s+)?` are `undefined` when nothing matches them, and `it.includes(...)` then throws a `TypeError` | `myVar='0.8.1'` with `compile 'de.kevcodez:pubg-api-wrapper:$myVar'` | an assignment or declaration without spaces is rewritten like one with spaces | not executed | ReplaceVersionFindings.AssignmentThrows | ReplaceVersionFindings.ApplyThrows |
| ReplaceVersion.js:33 | the plugin pattern needs the quote right before the white space and `version`, so `id("g") version "v"` never matches | `id("com.github.ben-manes.versions") version "0.22.0"` (test at __tests__/ReplaceVersion.test.js:74-83) | the call-style declaration is rewritten, as the test expects | not executed | ReplaceVersionFindings.CallStylePassedOver | PatternFacts.CallStyleMatched |
| ReplaceVersion.js:21, 37, 46 | `match.replace(oldVersion, version)` rewrites the first old version in the match, which can lie in the name before the literal | `lib2Version = '2'` with `g:n:$lib2Version`, upgrading `2` to `3` | the version literal is rewritten and the name is left alone | not executed | ReplaceVersionFindings.AssignmentMisplaced | CorrectedFacts.EditLiteralEffect |
| ReplaceVersion.js:16-22 | the assignment pattern wraps the whole match in group 1, so `exec` returns it twice and the `forEach` replaces the first copy of the assignment text twice: after the literal is rewritten, a second copy of the same assignment elsewhere in the text is rewritten too | `x = '0.8.1'` twice, with `g:n:$x`, upgrading `0.8.1` to `1.0.0`: both assignments become `x = '1.0.0'` | only the first assignment is rewritten, since each form rewrites one located span | not executed | ReplaceVersionFindings.AssignmentCopyRewritten | CorrectedFacts.EditLiteralEffect |
| index.js:274 | the merge skips an entry only when the very same object is already merged; freshly parsed reports never share objects, so a dependency listed by two reports is offered twice | two reports, each listing the same outdated dependency | each dependency is offered once | not executed | ReportMergeFacts.IdentityMergeKeepsDuplicate | ReportMergeFacts.DistinctDependenciesUnique |
