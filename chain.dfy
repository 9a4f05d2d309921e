/** What both chain validators share: the parsed SPEC.json and TASKS.json
    documents, the file-system oracle, the issues they report, and the rules
    whose code the two scripts have in common (the use-case check, automated
    test references, task links and the exit status). */
module Chain {
  import opened Wrappers
  import opened Json
  import opened Strings
  import opened Seqs

  /** A use case; the validators read only its id. */
  datatype UseCase = UseCase(id: Option<string>)

  /** One entry of `manualTests` or `externalTests`: a value that is not an
      object (`!entry || typeof entry !== "object"`), or an object (arrays
      included) with its `name` and `status` fields. */
  datatype TestEntry = NonObject | Entry(name: Value, status: Value)

  /** An acceptance criterion. `tests` holds automated test references of
      the form `<file path>#<locator>`. */
  datatype Criterion = Criterion(
    id: Option<string>,
    useCase: Option<string>,
    tests: Field<string>,
    manualTests: Field<TestEntry>,
    externalTests: Field<TestEntry>)

  /** A task of TASKS.json; `title` is read by the branch helper only. */
  datatype Task = Task(id: Option<string>, title: Option<string>, acceptanceCriteria: Field<string>)

  datatype SpecDoc = SpecDoc(useCases: Field<UseCase>, acceptanceCriteria: Field<Criterion>)

  datatype TaskDoc = TaskDoc(tasks: Field<Task>)

  /** The file system as seen by the validators: the text of every readable
      file, keyed by resolved path, and `path.resolve(base, path)`. */
  datatype Disk = Disk(files: map<string, string>, resolve: (string, string) -> string)

  datatype EntryKind = Manual | External

  /** One broken link, in the order the validators report them. */
  datatype Issue =
    | NoUseCases
    | MissingUseCase(criterion: Option<string>, useCase: Option<string>)
    | NoTests(criterion: Option<string>)
    | MissingTestFile(criterion: Option<string>, path: string)
    | MissingTag(path: string, criterion: Option<string>)
    | InvalidEntry(criterion: Option<string>, kind: EntryKind)
    | MissingName(criterion: Option<string>, kind: EntryKind)
    | InvalidStatus(criterion: Option<string>, kind: EntryKind, name: Value)
    | NoLinkedAc(task: Option<string>)
    | MissingAc(task: Option<string>, ref: string)

  /** The result of a run: a fatal error (a document that cannot be loaded,
      a failed repository-root query, or a `TypeError` on a malformed
      document), or the complete list of issues. */
  datatype Outcome = Fatal | Checked(issues: seq<Issue>)

  /** How a template literal renders an id: an absent one as "undefined". */
  function Shown(id: Option<string>): string {
    id.GetOr("undefined")
  }

  /** `process.exitCode`: 0 exactly when the run completed without issues. */
  function ExitCode(outcome: Outcome): (code: int)
    ensures code == 0 || code == 1
    ensures code == 0 <==> outcome == Checked([])
  {
    match outcome
    case Fatal => 1
    case Checked(issues) => if |issues| > 0 then 1 else 0
  }

  /** The use-case check: a missing, non-array or empty `useCases` is one issue. */
  function UseCaseIssues(useCases: Field<UseCase>): seq<Issue> {
    if useCases.Items? && |useCases.items| > 0 then [] else [NoUseCases]
  }

  /** `new Set(useCases.map((uc) => uc.id))`. */
  function UseCaseIds(useCases: seq<UseCase>): set<Option<string>> {
    set uc | uc in useCases :: uc.id
  }

  /** `new Set(acceptance.map((ac) => ac.id))`. */
  function CriterionIds(criteria: seq<Criterion>): set<Option<string>> {
    set ac | ac in criteria :: ac.id
  }

  /** `ref.split("#")[0]`: the text before the first `#`, or all of it. */
  function TestPath(ref: string): (path: string)
    ensures path <= ref && '#' !in path
    ensures |path| < |ref| ==> ref[|path|] == '#'
  {
    var parts := Split(ref, '#');
    JoinSplit(ref, '#');
    assert |parts| > 1 ==> Join(parts, '#') == parts[0] + ['#'] + Join(parts[1..], '#');
    parts[0]
  }

  /** The issues of one automated test reference: a missing file (and then
      no tag check), or a file whose text lacks the criterion id. */
  function RefIssues(criterion: Option<string>, ref: string, base: string, disk: Disk): seq<Issue> {
    var path := TestPath(ref);
    var resolved := disk.resolve(base, path);
    if resolved !in disk.files then [MissingTestFile(criterion, path)]
    else if Contains(disk.files[resolved], Shown(criterion)) then []
    else [MissingTag(path, criterion)]
  }

  function AutomatedIssues(criterion: Option<string>, refs: seq<string>, base: string, disk: Disk): seq<Issue> {
    FlatMap(refs, ref => RefIssues(criterion, ref, base, disk))
  }

  /** One issue per linked id that names no declared criterion. */
  function LinkIssues(task: Option<string>, links: seq<string>, criterionIds: set<Option<string>>): seq<Issue> {
    FlatMap(links, ref => if Some(ref) in criterionIds then [] else [MissingAc(task, ref)])
  }

  /** The task check for one task: no links is one issue and nothing more. */
  function TaskIssues(task: Task, criterionIds: set<Option<string>>): seq<Issue> {
    var links := ArrayOrEmpty(task.acceptanceCriteria);
    if links == [] then [NoLinkedAc(task.id)] else LinkIssues(task.id, links, criterionIds)
  }

  function TaskListIssues(tasks: seq<Task>, criterionIds: set<Option<string>>): seq<Issue> {
    FlatMap(tasks, task => TaskIssues(task, criterionIds))
  }

  lemma AutomatedSnoc(criterion: Option<string>, refs: seq<string>, ref: string, base: string, disk: Disk)
    ensures AutomatedIssues(criterion, refs + [ref], base, disk)
         == AutomatedIssues(criterion, refs, base, disk) + RefIssues(criterion, ref, base, disk)
  {
    assert (refs + [ref])[..|refs|] == refs;
  }

  lemma LinkSnoc(task: Option<string>, links: seq<string>, ref: string, criterionIds: set<Option<string>>)
    ensures LinkIssues(task, links + [ref], criterionIds)
         == LinkIssues(task, links, criterionIds) + (if Some(ref) in criterionIds then [] else [MissingAc(task, ref)])
  {
    assert (links + [ref])[..|links|] == links;
  }

  lemma TaskListSnoc(tasks: seq<Task>, task: Task, criterionIds: set<Option<string>>)
    ensures TaskListIssues(tasks + [task], criterionIds) == TaskListIssues(tasks, criterionIds) + TaskIssues(task, criterionIds)
  {
    assert (tasks + [task])[..|tasks|] == tasks;
  }

  /** The loop over one criterion's automated test references. */
  method CheckAutomated(criterion: Option<string>, refs: seq<string>, base: string, disk: Disk)
    returns (issues: seq<Issue>)
    ensures issues == AutomatedIssues(criterion, refs, base, disk)
  {
    issues := [];
    for i := 0 to |refs|
      invariant issues == AutomatedIssues(criterion, refs[..i], base, disk)
    {
      assert refs[..i + 1] == refs[..i] + [refs[i]];
      AutomatedSnoc(criterion, refs[..i], refs[i], base, disk);
      var path := Split(refs[i], '#')[0];
      var resolved := disk.resolve(base, path);
      if resolved !in disk.files {
        issues := issues + [MissingTestFile(criterion, path)];
        continue;
      }
      var content := disk.files[resolved];
      if !Contains(content, Shown(criterion)) {
        issues := issues + [MissingTag(path, criterion)];
      }
    }
    assert refs[..|refs|] == refs;
  }

  /** The loop over the tasks and, inside it, over each task's links. */
  method CheckTasks(tasks: seq<Task>, criterionIds: set<Option<string>>) returns (issues: seq<Issue>)
    ensures issues == TaskListIssues(tasks, criterionIds)
  {
    issues := [];
    for i := 0 to |tasks|
      invariant issues == TaskListIssues(tasks[..i], criterionIds)
    {
      var task := tasks[i];
      assert tasks[..i + 1] == tasks[..i] + [task];
      TaskListSnoc(tasks[..i], task, criterionIds);
      if !task.acceptanceCriteria.Items? || |task.acceptanceCriteria.items| == 0 {
        issues := issues + [NoLinkedAc(task.id)];
        continue;
      }
      var links := task.acceptanceCriteria.items;
      ghost var before := issues;
      for j := 0 to |links|
        invariant issues == before + LinkIssues(task.id, links[..j], criterionIds)
      {
        assert links[..j + 1] == links[..j] + [links[j]];
        LinkSnoc(task.id, links[..j], links[j], criterionIds);
        if Some(links[j]) !in criterionIds {
          issues := issues + [MissingAc(task.id, links[j])];
        }
      }
      assert links[..|links|] == links;
    }
    assert tasks[..|tasks|] == tasks;
  }

  /** A missing file is reported once, naming the path before `#`, and its
      tag is not checked; an existing file is reported exactly when its text
      lacks the criterion id. */
  lemma RefRule(criterion: Option<string>, ref: string, base: string, disk: Disk)
    ensures var path := TestPath(ref);
            var resolved := disk.resolve(base, path);
            && (resolved !in disk.files ==> RefIssues(criterion, ref, base, disk) == [MissingTestFile(criterion, path)])
            && (resolved in disk.files ==>
                  (MissingTag(path, criterion) in RefIssues(criterion, ref, base, disk)
                   <==> !Contains(disk.files[resolved], Shown(criterion))))
            && (resolved in disk.files ==>
                  RefIssues(criterion, ref, base, disk) == [] || RefIssues(criterion, ref, base, disk) == [MissingTag(path, criterion)])
  {
  }

  /** Every issue about automated tests concerns this criterion and is a
      missing file or a missing tag. */
  lemma {:induction false} AutomatedIssuesKinds(criterion: Option<string>, refs: seq<string>, base: string, disk: Disk, i: Issue)
    requires i in AutomatedIssues(criterion, refs, base, disk)
    ensures i.MissingTestFile? || i.MissingTag?
    ensures i.criterion == criterion
  {
    FlatMapMember(refs, ref => RefIssues(criterion, ref, base, disk), i);
  }

  /** The task checks: a task without links gets exactly one issue; otherwise it gets
      one issue per unknown linked id and no other. */
  lemma {:induction false} TaskRule(task: Task, criterionIds: set<Option<string>>)
    ensures var links := ArrayOrEmpty(task.acceptanceCriteria);
            var r := TaskIssues(task, criterionIds);
            && (links == [] ==> r == [NoLinkedAc(task.id)])
            && (links != [] ==> NoLinkedAc(task.id) !in r)
            && (links != [] ==> forall ref :: MissingAc(task.id, ref) in r <==> ref in links && Some(ref) !in criterionIds)
            && (forall i :: i in r ==> i.NoLinkedAc? || i.MissingAc?)
  {
    var links := ArrayOrEmpty(task.acceptanceCriteria);
    var f := ref => if Some(ref) in criterionIds then [] else [MissingAc(task.id, ref)];
    if links != [] {
      forall i ensures i in LinkIssues(task.id, links, criterionIds) <==> exists k :: 0 <= k < |links| && i in f(links[k]) {
        FlatMapMember(links, f, i);
      }
    }
  }

  /** The task issues name only tasks of the list, in list order. */
  lemma {:induction false} TaskListMember(tasks: seq<Task>, criterionIds: set<Option<string>>, i: Issue)
    ensures i in TaskListIssues(tasks, criterionIds) <==> exists k :: 0 <= k < |tasks| && i in TaskIssues(tasks[k], criterionIds)
  {
    FlatMapMember(tasks, task => TaskIssues(task, criterionIds), i);
  }

  /** The task part of the report only holds task issues. */
  lemma {:induction false} TaskListKinds(tasks: seq<Task>, criterionIds: set<Option<string>>, i: Issue)
    requires i in TaskListIssues(tasks, criterionIds)
    ensures i.NoLinkedAc? || i.MissingAc?
  {
    TaskListMember(tasks, criterionIds, i);
    var k :| 0 <= k < |tasks| && i in TaskIssues(tasks[k], criterionIds);
    TaskRule(tasks[k], criterionIds);
  }
}
