/** The chain validator of the toolchain (specflow/toolchain/scripts/
    chain-check.js): use cases, then each acceptance criterion (use-case
    reference, test presence, automated, manual and external tests), then each
    task. Test files resolve against the repository root. */
module ChainCheck {
  import opened Wrappers
  import opened Json
  import opened Strings
  import opened Seqs
  import opened Chain

  /** `typeof name === "string" && name.trim() !== ""`. */
  predicate HasName(name: Value) {
    name.Text? && Trim(name.s) != []
  }

  /** `["pending", "pass", "fail"].includes(status)`. */
  predicate IsValidStatus(status: Value) {
    status == Text("pending") || status == Text("pass") || status == Text("fail")
  }

  /** The manual and external entry checks for one entry: a non-object entry is one issue and
      nothing more; for an object the name check and the status check fire
      independently of each other. */
  function EntryIssues(criterion: Option<string>, kind: EntryKind, entry: TestEntry): (r: seq<Issue>)
    ensures entry.NonObject? ==> r == [InvalidEntry(criterion, kind)]
    ensures entry.Entry? ==> InvalidEntry(criterion, kind) !in r
    ensures entry.Entry? ==> (MissingName(criterion, kind) in r <==> (entry.name.Text? ==> IsBlank(entry.name.s)))
    ensures entry.Entry? ==> (InvalidStatus(criterion, kind, entry.name) in r <==> !IsValidStatus(entry.status))
    ensures entry.Entry? ==> |r| == (if HasName(entry.name) then 0 else 1) + (if IsValidStatus(entry.status) then 0 else 1)
  {
    match entry
    case NonObject => [InvalidEntry(criterion, kind)]
    case Entry(name, status) =>
      (if HasName(name) then [] else [MissingName(criterion, kind)])
      + (if IsValidStatus(status) then [] else [InvalidStatus(criterion, kind, name)])
  }

  function EntryListIssues(criterion: Option<string>, kind: EntryKind, entries: seq<TestEntry>): seq<Issue> {
    FlatMap(entries, entry => EntryIssues(criterion, kind, entry))
  }

  /** No test of any kind: non-array lists count as empty. */
  predicate Untested(ac: Criterion) {
    ArrayOrEmpty(ac.tests) == [] && ArrayOrEmpty(ac.manualTests) == [] && ArrayOrEmpty(ac.externalTests) == []
  }

  lemma EntryListSnoc(criterion: Option<string>, kind: EntryKind, entries: seq<TestEntry>, entry: TestEntry)
    ensures EntryListIssues(criterion, kind, entries + [entry])
         == EntryListIssues(criterion, kind, entries) + EntryIssues(criterion, kind, entry)
  {
    assert (entries + [entry])[..|entries|] == entries;
  }

  /** The checks for one criterion. */
  function CriterionIssues(ac: Criterion, useCaseIds: set<Option<string>>, root: string, disk: Disk): seq<Issue> {
    var head := if ac.useCase in useCaseIds then [] else [MissingUseCase(ac.id, ac.useCase)];
    var automated := ArrayOrEmpty(ac.tests);
    var manual := ArrayOrEmpty(ac.manualTests);
    var external := ArrayOrEmpty(ac.externalTests);
    if |automated| + |manual| + |external| == 0 then head + [NoTests(ac.id)]
    else
      head + AutomatedIssues(ac.id, automated, root, disk)
      + EntryListIssues(ac.id, Manual, manual) + EntryListIssues(ac.id, External, external)
  }

  function CriteriaIssues(criteria: seq<Criterion>, useCaseIds: set<Option<string>>, root: string, disk: Disk): seq<Issue> {
    FlatMap(criteria, ac => CriterionIssues(ac, useCaseIds, root, disk))
  }

  lemma CriteriaSnoc(criteria: seq<Criterion>, ac: Criterion, useCaseIds: set<Option<string>>, root: string, disk: Disk)
    ensures CriteriaIssues(criteria + [ac], useCaseIds, root, disk)
         == CriteriaIssues(criteria, useCaseIds, root, disk) + CriterionIssues(ac, useCaseIds, root, disk)
  {
    assert (criteria + [ac])[..|criteria|] == criteria;
  }

  /** The specification of a run: the repository root (absent when the
      root query fails), the two documents (absent when one cannot be read
      or parsed), and the file system. */
  function Expected(root: Option<string>, spec: Option<SpecDoc>, taskDoc: Option<TaskDoc>, disk: Disk): Outcome {
    if root.None? || spec.None? || taskDoc.None? then Fatal
    else if spec.value.useCases.NotArray? || spec.value.acceptanceCriteria.NotArray?
            || taskDoc.value.tasks.NotArray? then Fatal
    else
      var criteria := ArrayOrEmpty(spec.value.acceptanceCriteria);
      Checked(UseCaseIssues(spec.value.useCases)
              + CriteriaIssues(criteria, UseCaseIds(ArrayOrEmpty(spec.value.useCases)), root.value, disk)
              + TaskListIssues(ArrayOrEmpty(taskDoc.value.tasks), CriterionIds(criteria)))
  }

  /** The loop over the manual (or external) entries of one criterion. */
  method CheckEntries(criterion: Option<string>, kind: EntryKind, entries: seq<TestEntry>) returns (issues: seq<Issue>)
    ensures issues == EntryListIssues(criterion, kind, entries)
  {
    issues := [];
    for i := 0 to |entries|
      invariant issues == EntryListIssues(criterion, kind, entries[..i])
    {
      var entry := entries[i];
      assert entries[..i + 1] == entries[..i] + [entry];
      EntryListSnoc(criterion, kind, entries[..i], entry);
      if entry.NonObject? {
        issues := issues + [InvalidEntry(criterion, kind)];
        continue;
      }
      var found: seq<Issue> := [];
      if !entry.name.Text? || Trim(entry.name.s) == [] {
        found := found + [MissingName(criterion, kind)];
      }
      if !IsValidStatus(entry.status) {
        found := found + [InvalidStatus(criterion, kind, entry.name)];
      }
      assert found == EntryIssues(criterion, kind, entry);
      issues := issues + found;
    }
    assert entries[..|entries|] == entries;
  }

  /** The body of the loop over acceptance criteria. */
  method CheckCriterion(ac: Criterion, useCaseIds: set<Option<string>>, root: string, disk: Disk)
    returns (issues: seq<Issue>)
    ensures issues == CriterionIssues(ac, useCaseIds, root, disk)
  {
    issues := [];
    if ac.useCase !in useCaseIds {
      issues := issues + [MissingUseCase(ac.id, ac.useCase)];
    }
    var automated := if ac.tests.Items? then ac.tests.items else [];
    var manual := if ac.manualTests.Items? then ac.manualTests.items else [];
    var external := if ac.externalTests.Items? then ac.externalTests.items else [];
    if |automated| + |manual| + |external| == 0 {
      issues := issues + [NoTests(ac.id)];
      return;
    }
    var found := CheckAutomated(ac.id, automated, root, disk);
    issues := issues + found;
    found := CheckEntries(ac.id, Manual, manual);
    issues := issues + found;
    found := CheckEntries(ac.id, External, external);
    issues := issues + found;
  }

  /** `main`: collects every issue in report order, or ends fatally. */
  method Check(root: Option<string>, spec: Option<SpecDoc>, taskDoc: Option<TaskDoc>, disk: Disk)
    returns (outcome: Outcome)
    ensures outcome == Expected(root, spec, taskDoc, disk)
  {
    if root.None? || spec.None? || taskDoc.None? {
      return Fatal;
    }
    var issues: seq<Issue> := [];
    var useCases := spec.value.useCases;
    if !useCases.Items? || |useCases.items| == 0 {
      issues := issues + [NoUseCases];
    }
    assert issues == UseCaseIssues(useCases);
    if useCases.NotArray? || spec.value.acceptanceCriteria.NotArray? {
      return Fatal;
    }
    var useCaseIds := UseCaseIds(ArrayOrEmpty(useCases));
    var acceptance := ArrayOrEmpty(spec.value.acceptanceCriteria);
    var acceptanceIds := CriterionIds(acceptance);
    var found := CheckCriteria(acceptance, useCaseIds, root.value, disk);
    issues := issues + found;
    if taskDoc.value.tasks.NotArray? {
      return Fatal;
    }
    var tasks := ArrayOrEmpty(taskDoc.value.tasks);
    found := CheckTasks(tasks, acceptanceIds);
    issues := issues + found;
    assert issues == UseCaseIssues(useCases) + CriteriaIssues(acceptance, useCaseIds, root.value, disk)
                     + TaskListIssues(tasks, acceptanceIds);
    outcome := Checked(issues);
  }

  /** The loop over the acceptance criteria, in declaration order. */
  method CheckCriteria(acceptance: seq<Criterion>, useCaseIds: set<Option<string>>, root: string, disk: Disk)
    returns (issues: seq<Issue>)
    ensures issues == CriteriaIssues(acceptance, useCaseIds, root, disk)
  {
    issues := [];
    for i := 0 to |acceptance|
      invariant issues == CriteriaIssues(acceptance[..i], useCaseIds, root, disk)
    {
      var ac := acceptance[i];
      assert acceptance[..i + 1] == acceptance[..i] + [ac];
      CriteriaSnoc(acceptance[..i], ac, useCaseIds, root, disk);
      var found := CheckCriterion(ac, useCaseIds, root, disk);
      issues := issues + found;
    }
    assert acceptance[..|acceptance|] == acceptance;
  }

  /** The text of each issue as the script prints it. */
  function Message(issue: Issue): (message: string)
    ensures Subject(issue).Some? ==> Contains(message, Subject(issue).value)
    ensures issue.MissingUseCase? ==> Contains(message, Shown(issue.useCase))
    ensures issue.MissingTestFile? || issue.MissingTag? ==> Contains(message, issue.path)
    ensures issue.MissingAc? ==> Contains(message, issue.ref)
  {
    match issue
    case NoUseCases => "SPEC: define at least one use case"
    case MissingUseCase(ac, uc) => Between("AC ", Shown(ac), " references missing use case ", Shown(uc))
    case NoTests(ac) => Around("AC ", Shown(ac), " has no associated tests (automated/manual/external)")
    case MissingTestFile(ac, path) => Between("Missing automated test for ", Shown(ac), ": ", path)
    case MissingTag(path, ac) => Between("File ", path, " does not contain tag ", Shown(ac))
    case InvalidEntry(ac, kind) =>
      Around("AC ", Shown(ac), " has an invalid " + (if kind == Manual then "manualTests" else "externalTests")
                               + " entry (expected object)")
    case MissingName(ac, kind) =>
      Around("AC ", Shown(ac), (if kind == Manual then " has a manual" else " has an external") + " test with missing name")
    case InvalidStatus(ac, kind, name) =>
      Around("AC ", Shown(ac), (if kind == Manual then " manual" else " external") + " test '" + NameShown(name)
                               + "' has invalid status")
    case NoLinkedAc(task) => Around("Task ", Shown(task), " has no linked AC")
    case MissingAc(task, ref) => Between("Task ", Shown(task), " references missing AC ", ref)
  }

  /** The id a message is about, as the message shows it: the criterion's,
      or the task's; none for the use-case issue. */
  function Subject(issue: Issue): Option<string> {
    match issue
    case NoUseCases => None
    case MissingUseCase(ac, _) => Some(Shown(ac))
    case NoTests(ac) => Some(Shown(ac))
    case MissingTestFile(ac, _) => Some(Shown(ac))
    case MissingTag(_, ac) => Some(Shown(ac))
    case InvalidEntry(ac, _) => Some(Shown(ac))
    case MissingName(ac, _) => Some(Shown(ac))
    case InvalidStatus(ac, _, _) => Some(Shown(ac))
    case NoLinkedAc(task) => Some(Shown(task))
    case MissingAc(task, _) => Some(Shown(task))
  }

  /** `name ?? "?"` inside a template literal. */
  function NameShown(name: Value): string {
    match name
    case Undefined => "?"
    case Null => "?"
    case Text(s) => s
    case NonText(shown) => shown
  }

  /** Every issue of one criterion other than the first two rules concerns
      its tests. */
  lemma {:induction false} EntryListKinds(criterion: Option<string>, kind: EntryKind, entries: seq<TestEntry>, i: Issue)
    requires i in EntryListIssues(criterion, kind, entries)
    ensures i.InvalidEntry? || i.MissingName? || i.InvalidStatus?
  {
    FlatMapMember(entries, entry => EntryIssues(criterion, kind, entry), i);
  }

  /** A dangling use-case reference and the test-presence check: a dangling use-case reference is one issue, placed
      first; an acceptance criterion with no test of any kind gets exactly
      one "no associated tests" issue and none of the later checks. */
  lemma CriterionRule(ac: Criterion, useCaseIds: set<Option<string>>, root: string, disk: Disk)
    ensures var r := CriterionIssues(ac, useCaseIds, root, disk);
            && (MissingUseCase(ac.id, ac.useCase) in r <==> ac.useCase !in useCaseIds)
            && (ac.useCase !in useCaseIds ==> r[0] == MissingUseCase(ac.id, ac.useCase))
            && (NoTests(ac.id) in r <==> Untested(ac))
            && (Untested(ac) ==>
                  r == (if ac.useCase in useCaseIds then [] else [MissingUseCase(ac.id, ac.useCase)]) + [NoTests(ac.id)])
  {
    var automated := ArrayOrEmpty(ac.tests);
    var manual := ArrayOrEmpty(ac.manualTests);
    var external := ArrayOrEmpty(ac.externalTests);
    var r := CriterionIssues(ac, useCaseIds, root, disk);
    if |automated| + |manual| + |external| != 0 {
      var tail := AutomatedIssues(ac.id, automated, root, disk)
                  + EntryListIssues(ac.id, Manual, manual) + EntryListIssues(ac.id, External, external);
      forall i | i in tail ensures !i.MissingUseCase? && !i.NoTests? {
        if i in AutomatedIssues(ac.id, automated, root, disk) {
          AutomatedIssuesKinds(ac.id, automated, root, disk, i);
        } else if i in EntryListIssues(ac.id, Manual, manual) {
          EntryListKinds(ac.id, Manual, manual, i);
        } else {
          EntryListKinds(ac.id, External, external, i);
        }
      }
      var head := if ac.useCase in useCaseIds then [] else [MissingUseCase(ac.id, ac.useCase)];
      assert r == head + tail;
      assert MissingUseCase(ac.id, ac.useCase) !in tail;
      assert NoTests(ac.id) !in tail;
    }
  }

  /** Rule order: the issues of a list of criteria are those of each
      criterion in declaration order. */
  lemma {:induction false} CriteriaInOrder(a: seq<Criterion>, b: seq<Criterion>, useCaseIds: set<Option<string>>, root: string, disk: Disk)
    ensures CriteriaIssues(a + b, useCaseIds, root, disk)
         == CriteriaIssues(a, useCaseIds, root, disk) + CriteriaIssues(b, useCaseIds, root, disk)
  {
    FlatMapAppend(a, b, ac => CriterionIssues(ac, useCaseIds, root, disk));
  }

  /** No per-criterion issue is the use-case issue. */
  lemma {:induction false} CriteriaLackNoUseCases(criteria: seq<Criterion>, useCaseIds: set<Option<string>>, root: string, disk: Disk)
    ensures NoUseCases !in CriteriaIssues(criteria, useCaseIds, root, disk)
  {
    var f := ac => CriterionIssues(ac, useCaseIds, root, disk);
    FlatMapMember(criteria, f, NoUseCases);
    if NoUseCases in CriteriaIssues(criteria, useCaseIds, root, disk) {
      var k :| 0 <= k < |criteria| && NoUseCases in f(criteria[k]);
      var ac := criteria[k];
      var automated := ArrayOrEmpty(ac.tests);
      var manual := ArrayOrEmpty(ac.manualTests);
      var external := ArrayOrEmpty(ac.externalTests);
      if NoUseCases in AutomatedIssues(ac.id, automated, root, disk) {
        AutomatedIssuesKinds(ac.id, automated, root, disk, NoUseCases);
      } else if NoUseCases in EntryListIssues(ac.id, Manual, manual) {
        EntryListKinds(ac.id, Manual, manual, NoUseCases);
      } else if NoUseCases in EntryListIssues(ac.id, External, external) {
        EntryListKinds(ac.id, External, external, NoUseCases);
      }
    }
  }

  /** The use-case check: a run over absent or empty use cases reports the use-case issue
      exactly once, first, and still runs every later check; a run over
      declared use cases never reports it. */
  lemma UseCaseCheckFirst(root: Option<string>, spec: Option<SpecDoc>, taskDoc: Option<TaskDoc>, disk: Disk)
    requires Expected(root, spec, taskDoc, disk).Checked?
    ensures var r := Expected(root, spec, taskDoc, disk).issues;
            var useCases := ArrayOrEmpty(spec.value.useCases);
            var criteria := ArrayOrEmpty(spec.value.acceptanceCriteria);
            && (useCases == [] ==> r[0] == NoUseCases && multiset(r)[NoUseCases] == 1)
            && (useCases == [] ==> r[1..] == CriteriaIssues(criteria, UseCaseIds(useCases), root.value, disk)
                                             + TaskListIssues(ArrayOrEmpty(taskDoc.value.tasks), CriterionIds(criteria)))
            && (useCases != [] ==> NoUseCases !in r)
  {
    var criteria := ArrayOrEmpty(spec.value.acceptanceCriteria);
    var useCases := ArrayOrEmpty(spec.value.useCases);
    var tasks := ArrayOrEmpty(taskDoc.value.tasks);
    CriteriaLackNoUseCases(criteria, UseCaseIds(useCases), root.value, disk);
    if NoUseCases in TaskListIssues(tasks, CriterionIds(criteria)) {
      TaskListKinds(tasks, CriterionIds(criteria), NoUseCases);
    }
    var rest := CriteriaIssues(criteria, UseCaseIds(useCases), root.value, disk)
                + TaskListIssues(tasks, CriterionIds(criteria));
    var r := Expected(root, spec, taskDoc, disk).issues;
    assert r == UseCaseIssues(spec.value.useCases) + rest;
    assert NoUseCases !in rest;
    if useCases == [] {
      assert r == [NoUseCases] + rest;
      LeadingIssue(rest);
    }
  }

  /** An issue put in front of a list that lacks it occurs there once. */
  lemma LeadingIssue(rest: seq<Issue>)
    requires NoUseCases !in rest
    ensures ([NoUseCases] + rest)[1..] == rest
    ensures multiset([NoUseCases] + rest)[NoUseCases] == 1
  {
    assert multiset([NoUseCases] + rest) == multiset([NoUseCases]) + multiset(rest);
  }

  /** Completeness and soundness of a run: an issue is reported exactly when
      the use-case rule, the rules of some criterion or those of some task
      produce it. */
  lemma RunMember(root: Option<string>, spec: Option<SpecDoc>, taskDoc: Option<TaskDoc>, disk: Disk, i: Issue)
    requires Expected(root, spec, taskDoc, disk).Checked?
    ensures var criteria := ArrayOrEmpty(spec.value.acceptanceCriteria);
            var useCaseIds := UseCaseIds(ArrayOrEmpty(spec.value.useCases));
            var tasks := ArrayOrEmpty(taskDoc.value.tasks);
            i in Expected(root, spec, taskDoc, disk).issues
            <==> || (i == NoUseCases && ArrayOrEmpty(spec.value.useCases) == [])
                 || (exists k :: 0 <= k < |criteria| && i in CriterionIssues(criteria[k], useCaseIds, root.value, disk))
                 || (exists k :: 0 <= k < |tasks| && i in TaskIssues(tasks[k], CriterionIds(criteria)))
  {
    var criteria := ArrayOrEmpty(spec.value.acceptanceCriteria);
    var useCaseIds := UseCaseIds(ArrayOrEmpty(spec.value.useCases));
    FlatMapMember(criteria, ac => CriterionIssues(ac, useCaseIds, root.value, disk), i);
    TaskListMember(ArrayOrEmpty(taskDoc.value.tasks), CriterionIds(criteria), i);
  }

  /** A criterion that names an undeclared use case is reported, naming
      both ids, wherever it stands in the document. */
  lemma DanglingUseCaseReported(root: Option<string>, spec: Option<SpecDoc>, taskDoc: Option<TaskDoc>, disk: Disk, k: nat)
    requires Expected(root, spec, taskDoc, disk).Checked?
    requires k < |ArrayOrEmpty(spec.value.acceptanceCriteria)|
    requires ArrayOrEmpty(spec.value.acceptanceCriteria)[k].useCase !in UseCaseIds(ArrayOrEmpty(spec.value.useCases))
    ensures var ac := ArrayOrEmpty(spec.value.acceptanceCriteria)[k];
            MissingUseCase(ac.id, ac.useCase) in Expected(root, spec, taskDoc, disk).issues
  {
    var criteria := ArrayOrEmpty(spec.value.acceptanceCriteria);
    var useCaseIds := UseCaseIds(ArrayOrEmpty(spec.value.useCases));
    CriterionRule(criteria[k], useCaseIds, root.value, disk);
    RunMember(root, spec, taskDoc, disk, MissingUseCase(criteria[k].id, criteria[k].useCase));
  }

  /** The all-green run: one use case, one criterion whose one automated
      test file carries its tag, one task linking it — no issue, exit 0. */
  lemma EndToEndScenario()
    ensures var disk := Disk(map["/r/t" := "AC-01"], (base, path) => base + "/" + path);
            var spec := SpecDoc(
              Items([UseCase(Some("UC-01"))]),
              Items([Criterion(Some("AC-01"), Some("UC-01"), Items(["t#1"]), Missing, Missing)]));
            var tasks := TaskDoc(Items([Task(Some("T-01"), None, Items(["AC-01"]))]));
            ExitCode(Expected(Some("/r"), Some(spec), Some(tasks), disk)) == 0
  {
    SplitPiece("t", '#', "1");
    SplitSingle("1", '#');
    assert "t" + ['#'] + "1" == "t#1";
    assert TestPath("t#1") == "t";
    assert "/r" + "/" + "t" == "/r/t";
    assert "AC-01" <= "AC-01"[0..];
  }
}
