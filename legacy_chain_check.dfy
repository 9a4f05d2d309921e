/** The older chain validator (specflow/scripts/chain-check.js): the same
    chain, but an acceptance criterion knows automated `tests` only, and test
    files resolve against the current working directory. */
module LegacyChainCheck {
  import opened Wrappers
  import opened Json
  import opened Seqs
  import opened Chain
  import opened Strings
  import ChainCheck

  /** The checks for one criterion: a non-array or empty `tests` is one issue and
      skips the file checks. */
  function CriterionIssues(ac: Criterion, useCaseIds: set<Option<string>>, cwd: string, disk: Disk): seq<Issue> {
    var head := if ac.useCase in useCaseIds then [] else [MissingUseCase(ac.id, ac.useCase)];
    if !ac.tests.Items? || |ac.tests.items| == 0 then head + [NoTests(ac.id)]
    else head + AutomatedIssues(ac.id, ac.tests.items, cwd, disk)
  }

  function CriteriaIssues(criteria: seq<Criterion>, useCaseIds: set<Option<string>>, cwd: string, disk: Disk): seq<Issue> {
    FlatMap(criteria, ac => CriterionIssues(ac, useCaseIds, cwd, disk))
  }

  lemma CriteriaSnoc(criteria: seq<Criterion>, ac: Criterion, useCaseIds: set<Option<string>>, cwd: string, disk: Disk)
    ensures CriteriaIssues(criteria + [ac], useCaseIds, cwd, disk)
         == CriteriaIssues(criteria, useCaseIds, cwd, disk) + CriterionIssues(ac, useCaseIds, cwd, disk)
  {
    assert (criteria + [ac])[..|criteria|] == criteria;
  }

  /** The specification of a run; there is no repository-root query, so a
      fatal outcome comes from the documents alone. */
  function Expected(spec: Option<SpecDoc>, taskDoc: Option<TaskDoc>, cwd: string, disk: Disk): Outcome {
    if spec.None? || taskDoc.None? then Fatal
    else if spec.value.useCases.NotArray? || spec.value.acceptanceCriteria.NotArray?
            || taskDoc.value.tasks.NotArray? then Fatal
    else
      var criteria := ArrayOrEmpty(spec.value.acceptanceCriteria);
      Checked(UseCaseIssues(spec.value.useCases)
              + CriteriaIssues(criteria, UseCaseIds(ArrayOrEmpty(spec.value.useCases)), cwd, disk)
              + TaskListIssues(ArrayOrEmpty(taskDoc.value.tasks), CriterionIds(criteria)))
  }

  /** The body of the loop over the acceptance criteria; the early
      `continue` becomes a return. */
  method CheckCriterion(ac: Criterion, useCaseIds: set<Option<string>>, cwd: string, disk: Disk)
    returns (issues: seq<Issue>)
    ensures issues == CriterionIssues(ac, useCaseIds, cwd, disk)
  {
    issues := [];
    if ac.useCase !in useCaseIds {
      issues := issues + [MissingUseCase(ac.id, ac.useCase)];
    }
    if !ac.tests.Items? || |ac.tests.items| == 0 {
      issues := issues + [NoTests(ac.id)];
      return;
    }
    var found := CheckAutomated(ac.id, ac.tests.items, cwd, disk);
    issues := issues + found;
  }

  /** The loop over the acceptance criteria. */
  method CheckCriteria(acceptance: seq<Criterion>, useCaseIds: set<Option<string>>, cwd: string, disk: Disk)
    returns (issues: seq<Issue>)
    ensures issues == CriteriaIssues(acceptance, useCaseIds, cwd, disk)
  {
    issues := [];
    for i := 0 to |acceptance|
      invariant issues == CriteriaIssues(acceptance[..i], useCaseIds, cwd, disk)
    {
      var ac := acceptance[i];
      assert acceptance[..i + 1] == acceptance[..i] + [ac];
      CriteriaSnoc(acceptance[..i], ac, useCaseIds, cwd, disk);
      var found := CheckCriterion(ac, useCaseIds, cwd, disk);
      issues := issues + found;
    }
    assert acceptance[..|acceptance|] == acceptance;
  }

  /** `main`: collects every issue in report order, or ends fatally. */
  method Check(spec: Option<SpecDoc>, taskDoc: Option<TaskDoc>, cwd: string, disk: Disk)
    returns (outcome: Outcome)
    ensures outcome == Expected(spec, taskDoc, cwd, disk)
  {
    if spec.None? || taskDoc.None? {
      return Fatal;
    }
    var issues: seq<Issue> := [];
    var useCases := spec.value.useCases;
    if !useCases.Items? || |useCases.items| == 0 {
      issues := issues + [NoUseCases];
    }
    if useCases.NotArray? || spec.value.acceptanceCriteria.NotArray? {
      return Fatal;
    }
    var useCaseIds := UseCaseIds(ArrayOrEmpty(useCases));
    var acceptance := ArrayOrEmpty(spec.value.acceptanceCriteria);
    var acceptanceIds := CriterionIds(acceptance);
    var found := CheckCriteria(acceptance, useCaseIds, cwd, disk);
    issues := issues + found;
    if taskDoc.value.tasks.NotArray? {
      return Fatal;
    }
    found := CheckTasks(ArrayOrEmpty(taskDoc.value.tasks), acceptanceIds);
    issues := issues + found;
    outcome := Checked(issues);
  }

  /** The text of each issue; two differ from the toolchain's wording. */
  function Message(issue: Issue): (message: string)
    ensures ChainCheck.Subject(issue).Some? ==> Contains(message, ChainCheck.Subject(issue).value)
    ensures issue.MissingUseCase? ==> Contains(message, Shown(issue.useCase))
    ensures issue.MissingTestFile? || issue.MissingTag? ==> Contains(message, issue.path)
    ensures issue.MissingAc? ==> Contains(message, issue.ref)
  {
    match issue
    case NoTests(ac) => Around("AC ", Shown(ac), " has no associated tests")
    case MissingTestFile(ac, path) => Between("Missing test for ", Shown(ac), ": ", path)
    case _ => ChainCheck.Message(issue)
  }

  /** The test-presence check of this version: "no associated tests" is reported exactly when
      `tests` is not a non-empty array, and then nothing but the use-case
      issue precedes it and nothing follows. */
  lemma {:induction false} NoTestsRule(ac: Criterion, useCaseIds: set<Option<string>>, cwd: string, disk: Disk)
    ensures var r := CriterionIssues(ac, useCaseIds, cwd, disk);
            && (NoTests(ac.id) in r <==> ArrayOrEmpty(ac.tests) == [])
            && (ArrayOrEmpty(ac.tests) == [] ==>
                  r == (if ac.useCase in useCaseIds then [] else [MissingUseCase(ac.id, ac.useCase)]) + [NoTests(ac.id)])
            && (MissingUseCase(ac.id, ac.useCase) in r <==> ac.useCase !in useCaseIds)
  {
    if ArrayOrEmpty(ac.tests) != [] {
      var tail := AutomatedIssues(ac.id, ac.tests.items, cwd, disk);
      if NoTests(ac.id) in tail {
        AutomatedIssuesKinds(ac.id, ac.tests.items, cwd, disk, NoTests(ac.id));
      }
      if MissingUseCase(ac.id, ac.useCase) in tail {
        AutomatedIssuesKinds(ac.id, ac.tests.items, cwd, disk, MissingUseCase(ac.id, ac.useCase));
      }
    }
  }

  /** On a criterion with no manual and no external tests the two versions
      report the same issues. */
  lemma CriterionAgrees(ac: Criterion, useCaseIds: set<Option<string>>, cwd: string, disk: Disk)
    requires ArrayOrEmpty(ac.manualTests) == [] && ArrayOrEmpty(ac.externalTests) == []
    ensures CriterionIssues(ac, useCaseIds, cwd, disk) == ChainCheck.CriterionIssues(ac, useCaseIds, cwd, disk)
  {
    assert ChainCheck.EntryListIssues(ac.id, Manual, []) == [];
    assert ChainCheck.EntryListIssues(ac.id, External, []) == [];
  }

  /** The two validators agree — same outcome, same issues in the same order,
      when the root is the working directory — on every pair of documents
      whose criteria have no manual and no external tests. */
  lemma {:induction false} AgreesWithToolchain(spec: Option<SpecDoc>, taskDoc: Option<TaskDoc>, cwd: string, disk: Disk)
    requires spec.Some? ==> forall k :: 0 <= k < |ArrayOrEmpty(spec.value.acceptanceCriteria)| ==>
               var ac := ArrayOrEmpty(spec.value.acceptanceCriteria)[k];
               ArrayOrEmpty(ac.manualTests) == [] && ArrayOrEmpty(ac.externalTests) == []
    ensures Expected(spec, taskDoc, cwd, disk) == ChainCheck.Expected(Some(cwd), spec, taskDoc, disk)
  {
    if spec.Some? && taskDoc.Some? {
      var criteria := ArrayOrEmpty(spec.value.acceptanceCriteria);
      var useCaseIds := UseCaseIds(ArrayOrEmpty(spec.value.useCases));
      forall k | 0 <= k < |criteria|
        ensures CriterionIssues(criteria[k], useCaseIds, cwd, disk)
             == ChainCheck.CriterionIssues(criteria[k], useCaseIds, cwd, disk)
      {
        CriterionAgrees(criteria[k], useCaseIds, cwd, disk);
      }
      FlatMapCongruent(criteria, ac => CriterionIssues(ac, useCaseIds, cwd, disk),
                       ac => ChainCheck.CriterionIssues(ac, useCaseIds, cwd, disk));
      assert CriteriaIssues(criteria, useCaseIds, cwd, disk)
          == ChainCheck.CriteriaIssues(criteria, useCaseIds, cwd, disk);
    }
  }

  /** Where the versions part: a criterion covered by a manual test alone
      passes the toolchain's presence rule but fails this version's. */
  lemma ManualOnlyCriterion(useCaseIds: set<Option<string>>, cwd: string, disk: Disk)
    ensures var ac := Criterion(Some("AC-01"), Some("UC-01"), Missing, Items([Entry(Text("QA"), Text("pass"))]), Missing);
            && NoTests(ac.id) in CriterionIssues(ac, useCaseIds, cwd, disk)
            && NoTests(ac.id) !in ChainCheck.CriterionIssues(ac, useCaseIds, cwd, disk)
  {
    var ac := Criterion(Some("AC-01"), Some("UC-01"), Missing, Items([Entry(Text("QA"), Text("pass"))]), Missing);
    ChainCheck.CriterionRule(ac, useCaseIds, cwd, disk);
  }
}
