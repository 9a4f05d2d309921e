# specflow, modelled in Dafny

specflow keeps a project's use cases (UC), acceptance criteria (AC), tests and
tasks linked in two JSON documents: SPEC.json and TASKS.json. Its
**chain validator** walks these documents and lists every broken link:

- a criterion pointing to an undeclared use case;
- a criterion without tests;
- an automated test file that is missing or lacks the criterion's tag;
- a malformed manual or external test entry;
- a task without linked criteria, or linked to an unknown one.

The validator exits with status 1 when it finds anything. This project
models:

- both versions of the validator: the toolchain's, which knows automated,
  manual and external tests, and the older one, which knows automated tests
  only;
- the id formats (`UC-xx`, `AC-xx`, `T-xx`);
- the developer guard that forbids touching protected paths in each working
  mode;
- the branch helper that names a task's branch;
- the to-do creation rule of the sample application;
- the Markdown builders.

Layout:

- `wrappers.dfy`: `Option`.
- `json.dfy`: an array-valued field that may be absent or not an array
  (`Field`), and a loosely typed JSON value (`Value`).
- `strings.dfy`: the JavaScript string operations used: `trim`, `split`,
  `join`, `includes`, `repeat`, template literals, and `length` in UTF-16
  code units.
- `seqs.dfy`: the loop-accumulation, `filter` and `find` combinators.
- `chain.dfy`: the documents, the file-system oracle, the issues, and the
  rules both validators share.
- `chain_check.dfy`: the toolchain validator.
- `legacy_chain_check.dfy`: the older validator, and where the two agree.
- `ids.dfy`, `dev_guard.dfy`, `dev_branch.dfy`, `create_todo.dfy`,
  `format.dfy`: one file per script.

The validators work by looping and pushing issues onto a list. Each loop is
a method proved equal to a function of its inputs (for example
`ChainCheck.Check` against `ChainCheck.Expected`); the lemmas then state the
rules about those functions. The other scripts are pure and are modelled as
functions.

Exit status: both validators set exit status 1 for a fatal error and for a
run with issues alike; `Chain.ExitCode` does the same. A fatal error is an
unreadable or malformed document for both, and also a failed
`git rev-parse` for the toolchain validator, which is the only one of the
two that calls git.

## Model

| member | source | states |
|---|---|---|
| Chain.ExitCode | specflow/toolchain/scripts/chain-check.js:103-115 | the status is 0 or 1, and 0 exactly when the run completed with an empty issue list; a fatal run exits 1 |
| Chain.TestPath | specflow/toolchain/scripts/chain-check.js:47 | the file path of a test reference is the text before its first `#`, or all of it: a prefix without `#`, followed in the reference by `#` when shorter |
| Chain.CheckAutomated | specflow/toolchain/scripts/chain-check.js:46-59 | the loop over a criterion's automated references reports exactly `AutomatedIssues`, in reference order |
| Chain.CheckTasks | specflow/toolchain/scripts/chain-check.js:90-101 | the nested loop over tasks and their links reports exactly `TaskListIssues`, in task order |
| Chain.RefRule | specflow/toolchain/scripts/chain-check.js:47-58 | a reference whose file does not resolve is one missing-file issue naming the path, and its tag is not checked; an existing file is reported, once, exactly when its text lacks the criterion id |
| Chain.AutomatedIssuesKinds | specflow/toolchain/scripts/chain-check.js:46-59 | every automated-test issue is a missing file or a missing tag of this criterion |
| Chain.TaskRule | specflow/toolchain/scripts/chain-check.js:90-101 | a task with no linked criteria gets exactly one "no linked AC" issue; otherwise it gets one issue per linked id that names no declared criterion (both directions), and no other kind |
| Chain.TaskListMember | specflow/toolchain/scripts/chain-check.js:90-101 | an issue is in the task part of the report exactly when it is an issue of some task of the list |
| Chain.TaskListKinds | specflow/toolchain/scripts/chain-check.js:90-101 | the task part of the report holds only task issues |
| ChainCheck.EntryIssues | specflow/toolchain/scripts/chain-check.js:63-87 | a non-object entry is exactly one invalid-entry issue; for an object, "missing name" fires exactly when the name is not a non-blank string, and "invalid status" exactly when the status is not pending, pass or fail; the two checks are independent |
| ChainCheck.CheckEntries | specflow/toolchain/scripts/chain-check.js:63-87 | the loop over manual or external entries reports exactly `EntryListIssues` |
| ChainCheck.CheckCriterion | specflow/toolchain/scripts/chain-check.js:30-87 | the body of the criteria loop reports exactly `CriterionIssues` for one criterion |
| ChainCheck.CheckCriteria | specflow/toolchain/scripts/chain-check.js:29-88 | the criteria loop reports exactly `CriteriaIssues`, criterion by criterion |
| ChainCheck.Check | specflow/toolchain/scripts/chain-check.js:14-115 | a run is fatal on a missing root or document, or on a `useCases`, `acceptanceCriteria` or `tasks` field that is not an array; otherwise it reports the use-case issue, then the criteria issues, then the task issues, exactly as `Expected` |
| ChainCheck.Message | specflow/toolchain/scripts/chain-check.js:22-98 | every message but the use-case one names the criterion or task it is about; the dangling use-case message also names the use case, the file messages the path, and the unknown-criterion message the linked id |
| ChainCheck.EntryListKinds | specflow/toolchain/scripts/chain-check.js:63-87 | entry issues are only invalid-entry, missing-name or invalid-status issues |
| ChainCheck.CriterionRule | specflow/toolchain/scripts/chain-check.js:31-43 | a dangling use-case reference is reported (both directions) and comes first; "no associated tests" is reported exactly when all three test lists are empty or not arrays, and then nothing else follows |
| ChainCheck.CriteriaInOrder | specflow/toolchain/scripts/chain-check.js:29-88 | the issues of a list of criteria are those of its first part followed by those of its second: declaration order is kept |
| ChainCheck.CriteriaLackNoUseCases | specflow/toolchain/scripts/chain-check.js:29-88 | no criterion produces the use-case issue |
| ChainCheck.UseCaseCheckFirst | specflow/toolchain/scripts/chain-check.js:20-27 | with absent or empty use cases, the use-case issue is reported exactly once, first, and every later check still runs; with declared use cases it is never reported |
| ChainCheck.RunMember | specflow/toolchain/scripts/chain-check.js:18-101 | completeness and soundness: an issue is reported exactly when the use-case rule, some criterion's rules or some task's rules produce it |
| ChainCheck.DanglingUseCaseReported | specflow/toolchain/scripts/chain-check.js:29-33 | a criterion at any position that names an undeclared use case is reported |
| ChainCheck.EndToEndScenario | specflow/toolchain/scripts/chain-check.js:14-109 | one use case, one criterion whose tagged test file exists, one task linking it: no issue and exit status 0 |
| LegacyChainCheck.CheckCriterion | specflow/scripts/chain-check.js:24-47 | the body of the criteria loop reports exactly `CriterionIssues`: the use-case issue, then either "no associated tests" alone or the file checks |
| LegacyChainCheck.CheckCriteria | specflow/scripts/chain-check.js:23-48 | the criteria loop of the older validator reports exactly its `CriteriaIssues` |
| LegacyChainCheck.Check | specflow/scripts/chain-check.js:9-75 | a run of the older validator is fatal on a missing document or a non-array field, and otherwise reports exactly `Expected` |
| LegacyChainCheck.NoTestsRule | specflow/scripts/chain-check.js:25-32 | "no associated tests" is reported exactly when `tests` is not a non-empty array, and then only the use-case issue precedes it; the dangling use-case issue fires in both directions |
| LegacyChainCheck.CriterionAgrees | specflow/scripts/chain-check.js:23-48 | on a criterion without manual and external tests both versions report the same issues |
| LegacyChainCheck.AgreesWithToolchain | specflow/scripts/chain-check.js:9-70 | when no criterion has manual or external tests, both validators give the same outcome, with the same issues in the same order, taking the working directory as root |
| LegacyChainCheck.Message | specflow/scripts/chain-check.js:16-58 | the same guarantees for the older wording, which differs for "no associated tests" and the missing test file |
| LegacyChainCheck.ManualOnlyCriterion | specflow/scripts/chain-check.js:29-32 | a criterion covered by one manual test only fails the older presence rule but passes the toolchain's |
| Ids.IsUseCaseId | specflow/scripts/utils/ids.js:1-3 | a use-case id has five characters |
| Ids.IsAcceptanceCriteriaId | specflow/scripts/utils/ids.js:5-7 | a criterion id has five characters |
| Ids.IsTaskId | specflow/scripts/utils/ids.js:9-11 | a task id has four characters |
| Ids.FormatIdRoundTrip | specflow/scripts/utils/ids.js:1-11 | every number below 100, zero-padded after the prefix, matches the format and reads back as the same number |
| Ids.IdIsFormatted | specflow/scripts/utils/ids.js:1-11 | every id matching a format is the zero-padded rendering of its number |
| Ids.UseCaseIdsAreNumbered | specflow/scripts/utils/ids.js:1-3 | the use-case ids are exactly UC-00 to UC-99 |
| Ids.AcceptanceCriteriaIdsAreNumbered | specflow/scripts/utils/ids.js:5-7 | the criterion ids are exactly AC-00 to AC-99 |
| Ids.TaskIdsAreNumbered | specflow/scripts/utils/ids.js:9-11 | the task ids are exactly T-00 to T-99 |
| Ids.FormatsAreDisjoint | specflow/scripts/utils/ids.js:1-11 | no value is an id of two formats |
| Ids.AssertValidId | specflow/scripts/utils/ids.js:13-17 | the check passes exactly when the validator accepts the value, and otherwise throws the given message |
| DevGuard.ModeOf | specflow/scripts/dev-guard.js:3-9 | a mode, when found, is non-empty and has no `=`; with no argument starting with `--mode` there is none and the script aborts |
| DevGuard.ModeFlagRoundTrip | specflow/scripts/dev-guard.js:3-4 | when the first argument starting with `--mode` has a non-empty piece between its first and second `=` (`--mode=m`, `--modes=m`, `--mode=m=x`), that piece is the mode; with ModeFlagWithoutValue this decides the mode of every argument list |
| DevGuard.ModeFlagWithoutValue | specflow/scripts/dev-guard.js:3-9 | the script also aborts when the first argument starting with `--mode` has no `=` or nothing after its first `=`, whatever arguments follow |
| DevGuard.ChangedFilesAsWritten | specflow/scripts/dev-guard.js:15-27 | as written: a failed status call gives no files |
| DevGuard.AsWrittenRoundTrip | specflow/scripts/dev-guard.js:15-27 | as written, the status output is read back as exactly the paths of its entries, in order, when no entry's first status letter is blank |
| DevGuard.UnstagedEntryLosesFirstChar | specflow/scripts/dev-guard.js:18-22 | as written, an entry whose first status letter is a space is read without the first character of its path |
| DevGuard.ChangedFiles | specflow/scripts/dev-guard.js:15-27 | corrected reading (see ## Findings): a failed status call gives no files |
| DevGuard.PorcelainRoundTrip | specflow/scripts/dev-guard.js:15-27 | corrected reading (see ## Findings): the status output is read back as exactly the paths of its entries, in order, whatever the status letters |
| DevGuard.DeveloperRuleIsFourPrefixes | specflow/scripts/dev-guard.js:43-45 | the developer rule is four plain prefixes: the equality test and the `inputs/DB.mmd` entry add nothing |
| DevGuard.EnforceArchitect | specflow/scripts/dev-guard.js:32-37 | architect mode fails exactly when some file lies under `src/` or `tests/`, and lists exactly those files in order |
| DevGuard.EnforceDeveloper | specflow/scripts/dev-guard.js:42-50 | developer mode fails exactly when some file lies under a protected prefix, and lists exactly those files in order |
| DevGuard.Enforce | specflow/scripts/dev-guard.js:53-60 | architect mode passes exactly when no file lies under src/ or tests/, and otherwise fails listing exactly those files in order; developer mode does the same with the protected prefixes; any other mode fails as unknown |
| DevGuard.Run | specflow/scripts/dev-guard.js:3-65 | the script as written stops for a missing mode exactly when no mode is found; in architect or developer mode it passes exactly when no file read (as written) from the status output breaks that mode's rule, and otherwise fails listing exactly the breaking files in order; any other mode fails as unknown |
| DevGuard.RunCorrected | specflow/scripts/dev-guard.js:3-65 | corrected reading (see ## Findings): the same guarantees, each mode applying its own rule, over the corrected list of changed files |
| DevGuard.RunAgreesOnStaged | specflow/scripts/dev-guard.js:15-65 | when no entry's first status letter is blank, the script as written and the corrected one decide alike |
| DevGuard.ExitCode | specflow/scripts/dev-guard.js:52-65 | the status is 0 exactly when the guard passes |
| DevGuard.ErrorMessage | specflow/scripts/dev-guard.js:6-63 | there is an error text exactly when the guard fails; an unknown mode's names the mode; a forbidden-files error is the mode's header line followed by one line per file, in order |
| DevGuard.AsWrittenPassesUnstagedSource | specflow/scripts/dev-guard.js:15-36 | as written, architect mode passes every unstaged modification under `src/` |
| DevGuard.CorrectedRejectsSource | specflow/scripts/dev-guard.js:15-36 | with the status code kept intact, architect mode rejects every change under `src/`, naming its path |
| DevGuard.ArchitectMissesUnstagedSource | specflow/scripts/dev-guard.js:3-65 | in architect mode, the script as written passes every unstaged modification under `src/`, and the corrected one rejects it, naming its path |
| DevBranch.ArgValue | scripts/dev-branch.js:4-8 | none exactly when no argument starts with `--name=`; otherwise the suffix after `--name=` of the first argument that starts with it |
| DevBranch.ArgValueRoundTrip | scripts/dev-branch.js:4-8 | `--name=v` after non-matching arguments yields v, whatever follows |
| DevBranch.LowerAll | scripts/dev-branch.js:12 | `toLowerCase` on ASCII: the same length, no upper-case letter left, each upper-case letter replaced by its lower-case partner and every other character kept |
| DevBranch.DropNonSlug | scripts/dev-branch.js:13 | drops exactly a leading run of characters outside `[a-z0-9]` |
| DevBranch.ReplaceRuns | scripts/dev-branch.js:13 | the result is empty exactly for an empty input and starts with a hyphen exactly when the input starts outside `[a-z0-9]` |
| DevBranch.ReplaceRunsRun | scripts/dev-branch.js:13 | a maximal run of characters outside `[a-z0-9]`, after letters and digits, becomes exactly one hyphen |
| DevBranch.ReplaceRunsLeadingRun | scripts/dev-branch.js:13 | a leading maximal run of characters outside `[a-z0-9]` becomes exactly one hyphen |
| DevBranch.ReplaceRunsShape | scripts/dev-branch.js:13 | the result has only `[a-z0-9-]` and no two adjacent hyphens |
| DevBranch.ReplaceRunsKeepsSlugChars | scripts/dev-branch.js:13 | collapsing the runs keeps every letter and digit, in order |
| DevBranch.DropLeadingHyphens | scripts/dev-branch.js:14 | drops exactly the leading hyphens |
| DevBranch.DropTrailingHyphens | scripts/dev-branch.js:14 | drops exactly the trailing hyphens |
| DevBranch.StripHyphens | scripts/dev-branch.js:14 | the result neither starts nor ends with a hyphen and is no longer than the input |
| DevBranch.StripKeepsSlugRules | scripts/dev-branch.js:14 | stripping keeps the `[a-z0-9-]` alphabet and the no-double-hyphen rule |
| DevBranch.StripKeepsSlugChars | scripts/dev-branch.js:14 | stripping hyphens keeps every letter and digit |
| DevBranch.Cut | scripts/dev-branch.js:15 | the first 50 characters, or the whole string when it is shorter |
| DevBranch.CutKeepsSlugChars | scripts/dev-branch.js:15 | the cut keeps a leading part of the letters and digits |
| DevBranch.Slugify | scripts/dev-branch.js:10-16 | a slug has at most 50 characters, only `[a-z0-9-]`, no two adjacent hyphens, no leading hyphen, and no trailing hyphen when shorter than 50 |
| DevBranch.SlugKeepsLettersAndDigits | scripts/dev-branch.js:10-16 | the slug's letters and digits are those of the lowered title in order: all of them when the slug is shorter than 50, a leading part otherwise |
| DevBranch.ReplaceRunsFixes | scripts/dev-branch.js:13 | a string of `[a-z0-9-]` without adjacent hyphens is unchanged by the run replacement |
| DevBranch.SlugifyFixesSlugs | scripts/dev-branch.js:10-16 | a well-formed slug is its own slug |
| DevBranch.SlugifyIdempotent | scripts/dev-branch.js:10-16 | slugifying a slug shorter than 50 changes nothing |
| DevBranch.ReplaceRunsSlugPrefix | scripts/dev-branch.js:13 | letters and digits in front pass through the run replacement unchanged |
| DevBranch.CutSlugMayEndWithHyphen | scripts/dev-branch.js:14-15 | the cut comes after the strip, so a 49-letter word and a one-letter word slugify to the word and a trailing hyphen |
| DevBranch.BranchName | scripts/dev-branch.js:52-53 | the name starts with `dev/<task>`, has at most 55 more characters than the task id, and is exactly `dev/<task>` when the slug is empty |
| DevBranch.BranchNameSlug | scripts/dev-branch.js:52-53 | with a non-empty slug the name is `dev/<task>`, a hyphen and the slug, which can be read back |
| DevBranch.ShouldCheckout | scripts/dev-branch.js:37-38 | checkout is off exactly when the flag value is "false"; absent or empty means checkout |
| DevBranch.FindTask | scripts/dev-branch.js:45-46 | a task list that is not an array throws; otherwise nothing is found exactly when no task has the id, and a found task is the first task of the list with it |
| DevBranch.PlanBranch | scripts/dev-branch.js:35-53 | a missing or empty `--task` stops first; an unknown task stops with its id; the run is fatal exactly when the task list is unreadable or its `tasks` field is not an array; in every other case a branch is planned, for an id some task of the list has, named `dev/<task>...`, with the checkout flag |
| DevBranch.PlanBranchNamesFirstTask | scripts/dev-branch.js:45-53 | a planned branch is named from the title of the first task with the id |
| DevBranch.FoundTaskGetsBranch | scripts/dev-branch.js:45-53 | whenever some task of the list has the `--task` id, a branch is planned for that id, with the checkout flag |
| DevBranch.GitCommands | scripts/dev-branch.js:55-69 | `git branch` is issued exactly when the branch does not exist and `git checkout` exactly when checkout is on; no other command is issued; creation comes before checkout |
| DevBranch.Executed | scripts/dev-branch.js:55-69 | the commands run in order until one fails: what runs is a leading part of the commands, all but the last succeed, and either all run or the last one run failed |
| DevBranch.FailedCreationSkipsCheckout | scripts/dev-branch.js:64-68 | when `git branch` fails, `git checkout` is not run |
| DevBranch.ExitCode | scripts/dev-branch.js:35-83 | the status is 0 or 1, and 0 exactly when a branch is planned and every git command it needs succeeds; on a status of 1 after a planned branch, the last command run is one that failed |
| Todos.CreateTodo | specflow/src/todos/createTodo.js:3-26 | ok exactly when status is 201, and not ok exactly when it is 422; ok exactly when the title is a string of at least 3 UTF-16 code units after trimming; a created to-do carries the id, the trimmed title, and the description only when it is a string; a failure carries the error with code TITLE_REQUIRED and the source's message |
| Todos.CreatedTitleIsTrimmed | specflow/src/todos/createTodo.js:4-6 | a created title has at least 3 UTF-16 code units, at least 2 characters, and no whitespace at either end |
| Todos.AstralTitleAccepted | specflow/src/todos/createTodo.js:4-6 | two characters outside the Basic Multilingual Plane make 4 code units, so such a title is created |
| Todos.ResubmitKeepsTitle | specflow/src/todos/createTodo.js:4-22 | submitting a created title again is accepted and stores the same title |
| Todos.NoTitleRejected | specflow/src/todos/createTodo.js:4-15 | an absent, non-string or blank title is rejected with 422 and TITLE_REQUIRED |
| Todos.CreatesValidTodo | specflow/tests/todos/create.todo.test.ts:5-10 | "Buy milk" with a description is created with status 201 and that title |
| Todos.RejectsMissingTitle | specflow/tests/todos/create.todo.test.ts:12-17 | an empty title is rejected with status 422 and error code TITLE_REQUIRED |
| Format.Heading | specflow/scripts/utils/format.js:1-3 | a heading is `level` characters, a space and the text long |
| Format.HeadingDecode | specflow/scripts/utils/format.js:1-3 | the heading starts with exactly `level` hashes, then a space, then the text |
| Format.Bullet | specflow/scripts/utils/format.js:5-7 | a bullet is 2·indent + 2 characters longer than its text |
| Format.BulletDecode | specflow/scripts/utils/format.js:5-7 | the bullet starts with exactly 2·indent spaces, then "- ", then the text |
| Format.Section | specflow/scripts/utils/format.js:9-11 | a section starts with the level-2 heading and a blank line and ends with a newline |
| Format.SectionTrimsContent | specflow/scripts/utils/format.js:9-11 | only the trimmed content matters |
| Format.SectionLines | specflow/scripts/utils/format.js:9-11 | for a title without a line break, the lines of a section are the heading, a blank line, the lines of the trimmed content and the empty remainder after the final newline |
| Format.OneLineSection | specflow/scripts/utils/format.js:9-11 | a one-line content gives exactly four lines: heading, blank line, trimmed content, empty remainder |
| Format.Bullets | specflow/scripts/utils/format.js:17 | one top-level bullet per value, in order: the k-th line is "- " and the k-th value |
| Format.ListSection | specflow/scripts/utils/format.js:13-19 | a list section starts with the level-3 heading and a blank line and ends with a newline |
| Format.EmptyListLines | specflow/scripts/utils/format.js:14-16 | an absent or empty list gives the heading, a blank line and the `*(empty)*` placeholder |
| Format.ListLines | specflow/scripts/utils/format.js:17-18 | a non-empty list gives the heading, a blank line, one bullet per value in order, and a final newline |
| Strings.Trim | specflow/src/todos/createTodo.js:4 | the trimmed string is empty exactly for a blank one, and otherwise has no whitespace at either end |
| Strings.TrimIdempotent | specflow/src/todos/createTodo.js:4 | trimming twice is trimming once |

## Left out

- Reading and parsing the JSON documents, and the file-system helpers, are not modelled. The documents arrive parsed, and an unreadable one is `None`. Files are a map from resolved path to text, and `path.resolve` is the `resolve` function of `Chain.Disk`.
- Calls to git and the process are inputs or results. These are `git rev-parse`, `git status`, `git branch` and `git checkout`, plus `process.argv` and `process.exit`. Console output other than the issue texts is not modelled either, including the `Chain check failed:` header with its ` - ` bullets and the dev-branch summary lines.
- ChainCheck.Expected: a `tasks` field holding a string is treated as fatal. JavaScript would iterate over its characters, reporting "no linked AC" once per character. The same holds for LegacyChainCheck.Expected.
- Chain.Disk: a path that resolves to a directory is not modelled. The model only knows files that exist with a text; in the scripts, reading a directory (for example for the references `""`, `"#AC-01"` or `"tests/"`, which resolve to the root or a folder) throws, and the run is fatal.
- ChainCheck.Expected: a `null` element in `useCases`, `acceptanceCriteria` or `tasks` is not modelled. The scripts would throw a `TypeError` reading its fields, and the run would be fatal. Elements are objects whose fields may be absent.
- Chain.Task: ids, linked ids and test references are strings or absent. A value of another type is not modelled; `testRef.split` would throw on such a reference.
- The order of the asynchronous file checks is not modelled. The scripts await each check in turn, so the run is sequential.
- DevGuard.StatusPath: `slice(3)` counts UTF-16 code units, the model counts characters. They agree whenever the first three characters of the line, after trimming, are in the Basic Multilingual Plane, as they are for a staged entry's ASCII status field. For an unstaged entry the third of them is already the path's first character, so an astral first character there makes them differ (`" M 😀x"`: a lone surrogate and `x` in the script, `x` in the model).
- DevGuard.ChangedFiles: porcelain lines for renames (`R  old -> new`) are not parsed into two paths, neither as written nor corrected.
- DevBranch.Slugify: `toLowerCase` is modelled on ASCII letters only. Other characters are kept as they are, and so count as characters outside `[a-z0-9]`.
- DevBranch.PlanBranch: a task title that is not a string is not modelled. `toLowerCase` would throw on it.
- Ids.IsUseCaseId: the regular expressions are modelled on strings only, not on values that JavaScript would first convert to strings. The same holds for Ids.IsAcceptanceCriteriaId and Ids.IsTaskId.
- Todos.CreateTodo: a `null` payload is not modelled; reading its title would throw. The id from `crypto.randomUUID` is a parameter.
- Format.Heading: the level is a natural number. The `RangeError` of `repeat` on a negative count is not modelled.
- Format.ListSection: the values are strings. Other values, which a template literal would convert, are not modelled.

## Findings

| source | as written | input that shows it | evidently intended | confidence | as-written member | corrected member |
|---|---|---|---|---|---|---|
| specflow/scripts/dev-guard.js:20-22 | each status line is trimmed and then loses its first three characters | the unstaged modification ` M src/a` is read as `rc/a`, so architect mode lets it through | drop the two status letters and the space, keeping the whole path | high; not executed | DevGuard.UnstagedEntryLosesFirstChar | DevGuard.PorcelainRoundTrip |
