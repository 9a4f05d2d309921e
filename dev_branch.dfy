/** The branch helper of scripts/dev-branch.js: the `--name=value`
    arguments, the slug of a task title, the branch name, and the git
    commands the script issues. Whether the branch exists already (the
    `git rev-parse --verify` query) is a parameter. */
module DevBranch {
  import opened Wrappers
  import opened Json
  import opened Seqs
  import opened Chain

  /** `getArgValue(name)`: what follows `--<name>=` in the first argument
      that starts with it, or `None` when no argument does. */
  function ArgValue(argv: seq<string>, name: string): (v: Option<string>)
    ensures v.None? <==> forall k :: 0 <= k < |argv| ==> !("--" + name + "=" <= argv[k])
    ensures v.Some? ==> exists k :: 0 <= k < |argv| && argv[k] == "--" + name + "=" + v.value
                                    && forall j :: 0 <= j < k ==> !("--" + name + "=" <= argv[j])
  {
    var prefix := "--" + name + "=";
    match FindFirst(argv, arg => prefix <= arg)
    case None => None
    case Some(arg) =>
      assert arg == prefix + arg[|prefix|..];
      Some(arg[|prefix|..])
  }

  /** `--<name>=<v>` after arguments that do not start with `--<name>=`
      yields `v`, whatever follows. */
  lemma ArgValueRoundTrip(before: seq<string>, name: string, v: string, after: seq<string>)
    requires forall k :: 0 <= k < |before| ==> !("--" + name + "=" <= before[k])
    ensures ArgValue(before + ["--" + name + "=" + v] + after, name) == Some(v)
  {
    var argv := before + ["--" + name + "=" + v] + after;
    var prefix := "--" + name + "=";
    assert argv[|before|] == prefix + v;
    var r := ArgValue(argv, name);
    assert r.Some?;
    assert forall j :: 0 <= j < |before| ==> argv[j] == before[j];
    var k :| 0 <= k < |argv| && argv[k] == prefix + r.value && forall j :: 0 <= j < k ==> !(prefix <= argv[j]);
    assert k == |before|;
    assert r.value == (prefix + r.value)[|prefix|..] == (prefix + v)[|prefix|..];
  }

  /** `toLowerCase` on ASCII letters. */
  function Lower(c: char): char {
    if 'A' <= c <= 'Z' then (c as int + 32) as char else c
  }

  /** `toLowerCase` on ASCII: every upper-case letter becomes its
      lower-case partner, everything else stays. */
  function LowerAll(s: string): (r: string)
    ensures |r| == |s|
    ensures forall i :: 0 <= i < |r| ==> !('A' <= r[i] <= 'Z')
    ensures forall i :: 0 <= i < |s| ==> if 'A' <= s[i] <= 'Z' then r[i] as int == s[i] as int + 32 else r[i] == s[i]
  {
    seq(|s|, i requires 0 <= i < |s| => Lower(s[i]))
  }

  predicate IsSlugChar(c: char) {
    'a' <= c <= 'z' || '0' <= c <= '9'
  }

  /** Only `[a-z0-9-]`. */
  predicate SlugAlphabet(s: string) {
    forall i :: 0 <= i < |s| ==> IsSlugChar(s[i]) || s[i] == '-'
  }

  predicate NoDoubleHyphen(s: string) {
    forall i, j :: 0 <= i < |s| && j == i + 1 && j < |s| ==> !(s[i] == '-' && s[j] == '-')
  }

  /** Drops a leading run of characters outside `[a-z0-9]`. */
  function DropNonSlug(s: string): (r: string)
    ensures |r| <= |s| && r == s[|s| - |r|..]
    ensures forall i :: 0 <= i < |s| - |r| ==> !IsSlugChar(s[i])
    ensures r == [] || IsSlugChar(r[0])
  {
    if s != [] && !IsSlugChar(s[0]) then
      var r := DropNonSlug(s[1..]);
      assert forall i :: 1 <= i < |s| - |r| ==> s[i] == s[1..][i - 1];
      r
    else s
  }

  /** `replace(/[^a-z0-9]+/g, "-")`: every maximal run of characters outside
      `[a-z0-9]` becomes one hyphen. */
  function ReplaceRuns(s: string): (r: string)
    ensures r == [] <==> s == []
    ensures s != [] ==> (r[0] == '-' <==> !IsSlugChar(s[0]))
    decreases |s|
  {
    if s == [] then []
    else if IsSlugChar(s[0]) then [s[0]] + ReplaceRuns(s[1..])
    else ['-'] + ReplaceRuns(DropNonSlug(s))
  }

  /** A hyphen or a slug character in front of a slug keeps the rules,
      unless it makes two hyphens meet. */
  lemma ConsKeepsSlugRules(c: char, t: string)
    requires IsSlugChar(c) || c == '-'
    requires SlugAlphabet(t) && NoDoubleHyphen(t)
    requires c == '-' ==> t == [] || t[0] != '-'
    ensures SlugAlphabet([c] + t) && NoDoubleHyphen([c] + t)
  {
    var r := [c] + t;
    forall i, j | 0 <= i < |r| && j == i + 1 && j < |r| ensures !(r[i] == '-' && r[j] == '-') {
      if i > 0 {
        assert r[i] == t[i - 1] && r[j] == t[j - 1];
      }
    }
  }

  /** The run replacement leaves only `[a-z0-9-]`, never two hyphens in a
      row. */
  lemma {:induction false} ReplaceRunsShape(s: string)
    ensures SlugAlphabet(ReplaceRuns(s)) && NoDoubleHyphen(ReplaceRuns(s))
    decreases |s|
  {
    if s != [] {
      if IsSlugChar(s[0]) {
        ReplaceRunsShape(s[1..]);
        ConsKeepsSlugRules(s[0], ReplaceRuns(s[1..]));
      } else {
        var rest := DropNonSlug(s);
        ReplaceRunsShape(rest);
        ConsKeepsSlugRules('-', ReplaceRuns(rest));
      }
    }
  }

  /** The `^-+` half of `replace(/^-+|-+$/g, "")`. */
  function DropLeadingHyphens(s: string): (r: string)
    ensures |r| <= |s| && r == s[|s| - |r|..]
    ensures forall i :: 0 <= i < |s| - |r| ==> s[i] == '-'
    ensures r == [] || r[0] != '-'
  {
    if s != [] && s[0] == '-' then DropLeadingHyphens(s[1..]) else s
  }

  /** The `-+$` half of `replace(/^-+|-+$/g, "")`. */
  function DropTrailingHyphens(s: string): (r: string)
    ensures |r| <= |s| && r == s[..|r|]
    ensures forall i :: |r| <= i < |s| ==> s[i] == '-'
    ensures r == [] || r[|r| - 1] != '-'
  {
    if s != [] && s[|s| - 1] == '-' then DropTrailingHyphens(s[..|s| - 1]) else s
  }

  /** `replace(/^-+|-+$/g, "")`: the string without its leading and trailing
      hyphens, which is a piece of it. */
  function StripHyphens(s: string): (r: string)
    ensures r == [] || (r[0] != '-' && r[|r| - 1] != '-')
    ensures |r| <= |s|
  {
    var front := DropLeadingHyphens(s);
    var r := DropTrailingHyphens(front);
    assert r != [] ==> r[0] == front[0];
    r
  }

  /** Stripping the outer hyphens keeps the hyphen rules of a string that
      already follows them. */
  lemma StripKeepsSlugRules(s: string)
    requires SlugAlphabet(s) && NoDoubleHyphen(s)
    ensures SlugAlphabet(StripHyphens(s)) && NoDoubleHyphen(StripHyphens(s))
  {
    var front := DropLeadingHyphens(s);
    var r := DropTrailingHyphens(front);
    var a := |s| - |front|;
    SlugRulesInSlice(s, a, |s|);
    SlugRulesInSlice(front, 0, |r|);
    assert front[0..|r|] == r;
  }

  /** `slice(0, 50)`: the first 50 characters, or all of them. */
  function Cut(s: string): (r: string)
    ensures r <= s && |r| <= 50
    ensures |s| <= 50 ==> r == s
    ensures |s| > 50 ==> |r| == 50
  {
    if |s| <= 50 then s else s[..50]
  }

  /** The hyphen rules survive taking a piece of a string. */
  lemma SlugRulesInSlice(s: string, a: nat, b: nat)
    requires a <= b <= |s|
    requires SlugAlphabet(s) && NoDoubleHyphen(s)
    ensures SlugAlphabet(s[a..b]) && NoDoubleHyphen(s[a..b])
  {
    var t := s[a..b];
    forall i, j | 0 <= i && j == i + 1 && j < |t| ensures !(t[i] == '-' && t[j] == '-') {
      assert t[i] == s[a + i] && t[j] == s[a + j];
    }
  }

  /** The cut keeps the hyphen rules and the leading character; it keeps
      the last one when nothing is cut. */
  lemma CutKeepsSlugRules(s: string)
    requires SlugAlphabet(s) && NoDoubleHyphen(s) && (s == [] || (s[0] != '-' && s[|s| - 1] != '-'))
    ensures var r := Cut(s);
            && SlugAlphabet(r) && NoDoubleHyphen(r) && (r == [] || r[0] != '-')
            && (|r| < 50 ==> r == [] || r[|r| - 1] != '-')
  {
    var r := Cut(s);
    SlugRulesInSlice(s, 0, |r|);
    assert r == s[0..|r|];
  }

  /** `slugify(value)`, for titles in ASCII. */
  function Slugify(value: string): (slug: string)
    ensures |slug| <= 50
    ensures SlugAlphabet(slug) && NoDoubleHyphen(slug)
    ensures slug == [] || slug[0] != '-'
    ensures |slug| < 50 ==> slug == [] || slug[|slug| - 1] != '-'
  {
    var replaced := ReplaceRuns(LowerAll(value));
    ReplaceRunsShape(LowerAll(value));
    var stripped := StripHyphens(replaced);
    StripKeepsSlugRules(replaced);
    CutKeepsSlugRules(stripped);
    Cut(stripped)
  }

  /** Collapsing the runs keeps every letter and digit, in order. */
  lemma {:induction false} ReplaceRunsKeepsSlugChars(s: string)
    ensures Filter(ReplaceRuns(s), IsSlugChar) == Filter(s, IsSlugChar)
    decreases |s|
  {
    if s != [] {
      if IsSlugChar(s[0]) {
        ReplaceRunsKeepsSlugChars(s[1..]);
        FilterCons(s[0], ReplaceRuns(s[1..]), IsSlugChar);
        FilterCons(s[0], s[1..], IsSlugChar);
        assert [s[0]] + s[1..] == s;
      } else {
        var rest := DropNonSlug(s);
        ReplaceRunsKeepsSlugChars(rest);
        FilterCons('-', ReplaceRuns(rest), IsSlugChar);
        var skipped := s[..|s| - |rest|];
        assert s == skipped + rest;
        FilterAppend(skipped, rest, IsSlugChar);
        FilterNone(skipped, IsSlugChar);
      }
    }
  }

  lemma LeadingHyphensHoldNoSlugChars(s: string)
    ensures Filter(DropLeadingHyphens(s), IsSlugChar) == Filter(s, IsSlugChar)
  {
    var r := DropLeadingHyphens(s);
    var hyphens := s[..|s| - |r|];
    assert s == hyphens + r;
    assert forall k :: 0 <= k < |hyphens| ==> !IsSlugChar(hyphens[k]) by {
      forall k | 0 <= k < |hyphens| ensures !IsSlugChar(hyphens[k]) {
        assert hyphens[k] == s[k] == '-';
      }
    }
    calc {
      Filter(s, IsSlugChar);
      Filter(hyphens + r, IsSlugChar);
      { FilterAppend(hyphens, r, IsSlugChar); }
      Filter(hyphens, IsSlugChar) + Filter(r, IsSlugChar);
      { FilterNone(hyphens, IsSlugChar); }
      [] + Filter(r, IsSlugChar);
      { assert [] + Filter(r, IsSlugChar) == Filter(r, IsSlugChar); }
      Filter(r, IsSlugChar);
    }
  }

  lemma TrailingHyphensHoldNoSlugChars(s: string)
    ensures Filter(DropTrailingHyphens(s), IsSlugChar) == Filter(s, IsSlugChar)
  {
    var r := DropTrailingHyphens(s);
    var hyphens := s[|r|..];
    assert s == r + hyphens;
    assert forall k :: 0 <= k < |hyphens| ==> !IsSlugChar(hyphens[k]) by {
      forall k | 0 <= k < |hyphens| ensures !IsSlugChar(hyphens[k]) {
        assert hyphens[k] == s[|r| + k] == '-';
      }
    }
    FilterAppend(r, hyphens, IsSlugChar);
    FilterNone(hyphens, IsSlugChar);
  }

  /** Stripping hyphens keeps every letter and digit. */
  lemma StripKeepsSlugChars(s: string)
    ensures Filter(StripHyphens(s), IsSlugChar) == Filter(s, IsSlugChar)
  {
    LeadingHyphensHoldNoSlugChars(s);
    TrailingHyphensHoldNoSlugChars(DropLeadingHyphens(s));
  }

  /** The cut keeps a leading part of the letters and digits. */
  lemma CutKeepsSlugChars(s: string)
    ensures Filter(Cut(s), IsSlugChar) <= Filter(s, IsSlugChar)
  {
    var r := Cut(s);
    assert s == r + s[|r|..];
    FilterAppend(r, s[|r|..], IsSlugChar);
  }

  /** The letters and digits of the slug are those of the lowered title, in
      order: all of them when the slug is shorter than 50 characters, a
      leading part of them otherwise. */
  lemma SlugKeepsLettersAndDigits(value: string)
    ensures Filter(Slugify(value), IsSlugChar) <= Filter(LowerAll(value), IsSlugChar)
    ensures |Slugify(value)| < 50 ==> Filter(Slugify(value), IsSlugChar) == Filter(LowerAll(value), IsSlugChar)
  {
    var replaced := ReplaceRuns(LowerAll(value));
    ReplaceRunsKeepsSlugChars(LowerAll(value));
    StripKeepsSlugChars(replaced);
    CutKeepsSlugChars(StripHyphens(replaced));
  }

  /** The leading run of characters outside `[a-z0-9]` is exactly what
      `DropNonSlug` removes. */
  lemma {:induction false} DropNonSlugRun(r: string, t: string)
    requires forall i :: 0 <= i < |r| ==> !IsSlugChar(r[i])
    requires t == [] || IsSlugChar(t[0])
    ensures DropNonSlug(r + t) == t
    decreases |r|
  {
    if r != [] {
      assert (r + t)[1..] == r[1..] + t;
      DropNonSlugRun(r[1..], t);
    } else {
      assert r + t == t;
    }
  }

  /** A maximal run of characters outside `[a-z0-9]`, after any letters and
      digits, becomes exactly one hyphen. */
  lemma ReplaceRunsRun(p: string, r: string, t: string)
    requires forall i :: 0 <= i < |p| ==> IsSlugChar(p[i])
    requires r != [] && forall i :: 0 <= i < |r| ==> !IsSlugChar(r[i])
    requires t == [] || IsSlugChar(t[0])
    ensures ReplaceRuns(p + r + t) == p + "-" + ReplaceRuns(t)
  {
    calc {
      ReplaceRuns(p + r + t);
      { assert p + r + t == p + (r + t); }
      ReplaceRuns(p + (r + t));
      { ReplaceRunsSlugPrefix(p, r + t); }
      p + ReplaceRuns(r + t);
      { ReplaceRunsLeadingRun(r, t); }
      p + ("-" + ReplaceRuns(t));
      p + "-" + ReplaceRuns(t);
    }
  }

  lemma ReplaceRunsLeadingRun(r: string, t: string)
    requires r != [] && forall i :: 0 <= i < |r| ==> !IsSlugChar(r[i])
    requires t == [] || IsSlugChar(t[0])
    ensures ReplaceRuns(r + t) == "-" + ReplaceRuns(t)
  {
    var s := r + t;
    assert s[0] == r[0] && !IsSlugChar(s[0]);
    assert ReplaceRuns(s) == ['-'] + ReplaceRuns(DropNonSlug(s));
    DropNonSlugRun(r, t);
  }

  /** A well-formed slug: what `slugify` returns when no cut was needed. */
  predicate IsSlug(s: string) {
    |s| <= 50 && SlugAlphabet(s) && NoDoubleHyphen(s) && (s == [] || (s[0] != '-' && s[|s| - 1] != '-'))
  }

  lemma {:induction false} ReplaceRunsFixes(s: string)
    requires SlugAlphabet(s) && NoDoubleHyphen(s)
    ensures ReplaceRuns(s) == s
    decreases |s|
  {
    if s != [] {
      SlugRulesInSlice(s, 1, |s|);
      ReplaceRunsFixes(s[1..]);
      if !IsSlugChar(s[0]) {
        assert s[1..] == [] || IsSlugChar(s[1..][0]);
        assert DropNonSlug(s) == s[1..];
      }
      assert [s[0]] + s[1..] == s;
    }
  }

  /** A well-formed slug is its own slug. */
  lemma SlugifyFixesSlugs(s: string)
    requires IsSlug(s)
    ensures Slugify(s) == s
  {
    assert LowerAll(s) == s;
    ReplaceRunsFixes(s);
  }

  /** Slugifying twice changes nothing, unless the cut at 50 left a
      trailing hyphen. */
  lemma SlugifyIdempotent(value: string)
    requires |Slugify(value)| < 50
    ensures Slugify(Slugify(value)) == Slugify(value)
  {
    SlugifyFixesSlugs(Slugify(value));
  }

  lemma {:induction false} ReplaceRunsSlugPrefix(p: string, t: string)
    requires forall i :: 0 <= i < |p| ==> IsSlugChar(p[i])
    ensures ReplaceRuns(p + t) == p + ReplaceRuns(t)
  {
    if p != [] {
      ReplaceRunsSlugPrefix(p[1..], t);
      ReplaceRunsSlugStep(p[0], p[1..], t);
      assert [p[0]] + p[1..] == p;
    } else {
      assert p + t == t;
    }
  }

  /** One more slug character in front of a prefix that passes through
      unchanged. */
  lemma ReplaceRunsSlugStep(c: char, q: string, t: string)
    requires IsSlugChar(c)
    requires ReplaceRuns(q + t) == q + ReplaceRuns(t)
    ensures ReplaceRuns([c] + q + t) == [c] + q + ReplaceRuns(t)
  {
    ConsHeadTail(c, q, t);
    AppendAssoc([c], q, ReplaceRuns(t));
  }

  /** The hyphens are stripped before the cut, so a cut slug can end with
      one: a 49-letter word and a one-letter word slugify to the word and a
      hyphen. */
  lemma CutSlugMayEndWithHyphen()
    ensures Slugify(Strings.Repeat('a', 49) + " b") == Strings.Repeat('a', 49) + "-"
  {
    var word := Strings.Repeat('a', 49);
    var replaced := word + "-b";
    ReplacedExample(word);
    assert StripHyphens(replaced) == replaced by {
      assert replaced[0] == 'a' && replaced[|replaced| - 1] == 'b';
      assert DropLeadingHyphens(replaced) == replaced;
      assert DropTrailingHyphens(replaced) == replaced;
    }
    assert Cut(replaced) == word + "-" by {
      assert replaced[..50] == word + "-";
    }
  }

  lemma ReplacedExample(word: string)
    requires word == Strings.Repeat('a', 49)
    ensures ReplaceRuns(LowerAll(word + " b")) == word + "-b"
  {
    var value := word + " b";
    LowerAllKeepsLowercase(value);
    ReplaceRunsSlugPrefix(word, " b");
    ReplaceRunsSpaceB();
  }

  lemma LowerAllKeepsLowercase(s: string)
    requires forall i :: 0 <= i < |s| ==> !('A' <= s[i] <= 'Z')
    ensures LowerAll(s) == s
  {
  }

  lemma ReplaceRunsSpaceB()
    ensures ReplaceRuns(" b") == "-b"
  {
    assert DropNonSlug(" b") == "b";
    assert ReplaceRuns("b") == "b" by {
      assert "b"[1..] == [];
    }
  }

  /** The branch for a task: `dev/<task>-<slug>`, or `dev/<task>` when the
      title gives an empty slug. */
  function BranchName(taskId: string, title: Option<string>): (name: string)
    ensures "dev/" + taskId <= name
    ensures |name| <= |taskId| + 55
    ensures name == "dev/" + taskId <==> Slugify(title.GetOr("")) == []
  {
    var slug := Slugify(title.GetOr(""));
    if slug != [] then "dev/" + taskId + "-" + slug else "dev/" + taskId
  }

  /** The slug can be read back from the branch name. */
  lemma BranchNameSlug(taskId: string, title: Option<string>)
    ensures var slug := Slugify(title.GetOr(""));
            var name := BranchName(taskId, title);
            slug != [] ==> |name| == |taskId| + 5 + |slug| && name[|taskId| + 4] == '-' && name[|taskId| + 5..] == slug
  {
    var slug := Slugify(title.GetOr(""));
    if slug != [] {
      var head := "dev/" + taskId + "-";
      assert BranchName(taskId, title) == head + slug;
      assert |head| == |taskId| + 5 && head[|taskId| + 4] == '-';
    }
  }

  /** `checkoutValue ? checkoutValue !== "false" : true`. */
  function ShouldCheckout(checkoutValue: Option<string>): (checkout: bool)
    ensures !checkout <==> checkoutValue == Some("false")
  {
    if checkoutValue.Some? && checkoutValue.value != [] then checkoutValue.value != "false" else true
  }

  /** `(tasks.tasks ?? []).find((item) => item.id === taskId)`; `None`
      inside `Some` when nothing matches, and `None` when `tasks` is not an
      array (the call throws). */
  function FindTask(doc: TaskDoc, taskId: string): (r: Option<Option<Task>>)
    ensures r.None? <==> doc.tasks.NotArray?
    ensures r == Some(None) <==> !doc.tasks.NotArray? && forall k :: 0 <= k < |ArrayOrEmpty(doc.tasks)| ==> ArrayOrEmpty(doc.tasks)[k].id != Some(taskId)
    ensures r.Some? && r.value.Some? ==>
              exists k :: 0 <= k < |ArrayOrEmpty(doc.tasks)| && ArrayOrEmpty(doc.tasks)[k] == r.value.value
                          && r.value.value.id == Some(taskId)
                          && forall j :: 0 <= j < k ==> ArrayOrEmpty(doc.tasks)[j].id != Some(taskId)
  {
    if doc.tasks.NotArray? then None
    else Some(FindFirst(ArrayOrEmpty(doc.tasks), (t: Task) => t.id == Some(taskId)))
  }

  /** How the script ends before any git command: a missing `--task`, an
      unknown task, a fatal error (an unreadable task list, a `tasks` field
      that is not an array), or the branch to create or switch to. */
  datatype Plan = MissingTaskArg | TaskNotFound(taskId: string) | Fatal | Branch(taskId: string, name: string, checkout: bool)

  function PlanBranch(argv: seq<string>, doc: Option<TaskDoc>): (r: Plan)
    ensures r == MissingTaskArg <==> ArgValue(argv, "task").None? || ArgValue(argv, "task") == Some("")
    ensures r.TaskNotFound? || r.Branch? ==> ArgValue(argv, "task") == Some(r.taskId) && doc.Some? && !doc.value.tasks.NotArray?
    ensures r.TaskNotFound? <==> r != MissingTaskArg && doc.Some? && FindTask(doc.value, ArgValue(argv, "task").value) == Some(None)
    ensures r.Fatal? <==> r != MissingTaskArg && (doc.None? || doc.value.tasks.NotArray?)
    ensures r.Branch? ==> "dev/" + r.taskId <= r.name && r.checkout == ShouldCheckout(ArgValue(argv, "checkout"))
  {
    var taskArg := ArgValue(argv, "task");
    if taskArg.None? || taskArg.value == [] then MissingTaskArg
    else
      var taskId := taskArg.value;
      if doc.None? then Plan.Fatal
      else match FindTask(doc.value, taskId)
        case None => Plan.Fatal
        case Some(None) => TaskNotFound(taskId)
        case Some(Some(task)) => Branch(taskId, BranchName(taskId, task.title), ShouldCheckout(ArgValue(argv, "checkout")))
  }

  /** The planned branch is named after the first task with the id. */
  lemma PlanBranchNamesFirstTask(argv: seq<string>, doc: Option<TaskDoc>)
    requires PlanBranch(argv, doc).Branch?
    ensures var r := PlanBranch(argv, doc);
            var tasks := ArrayOrEmpty(doc.value.tasks);
            exists k :: 0 <= k < |tasks| && tasks[k].id == Some(r.taskId)
                        && (forall j :: 0 <= j < k ==> tasks[j].id != Some(r.taskId))
                        && r.name == BranchName(r.taskId, tasks[k].title)
  {
    var r := PlanBranch(argv, doc);
    var tasks := ArrayOrEmpty(doc.value.tasks);
    var found := FindTask(doc.value, r.taskId);
    assert found.Some? && found.value.Some? && r.name == BranchName(r.taskId, found.value.value.title);
    var k :| 0 <= k < |tasks| && tasks[k] == found.value.value && tasks[k].id == Some(r.taskId)
             && forall j :: 0 <= j < k ==> tasks[j].id != Some(r.taskId);
  }

  /** A task that is listed gets a branch, named from the first task with
      its id. */
  lemma FoundTaskGetsBranch(argv: seq<string>, doc: Option<TaskDoc>, k: nat)
    requires ArgValue(argv, "task").Some? && ArgValue(argv, "task").value != []
    requires doc.Some? && !doc.value.tasks.NotArray?
    requires k < |ArrayOrEmpty(doc.value.tasks)| && ArrayOrEmpty(doc.value.tasks)[k].id == ArgValue(argv, "task")
    ensures var r := PlanBranch(argv, doc);
            r.Branch? && r.taskId == ArgValue(argv, "task").value
            && r.checkout == ShouldCheckout(ArgValue(argv, "checkout"))
  {
    var id := ArgValue(argv, "task").value;
    assert FindTask(doc.value, id) != Some(None) by {
      assert ArrayOrEmpty(doc.value.tasks)[k].id == Some(id);
    }
  }

  /** The git commands after the existence query: an existing branch is
      only checked out (when asked), a new one is created first. */
  function GitCommands(name: string, checkout: bool, existing: bool): (commands: seq<string>)
    ensures ("git branch " + name in commands) <==> !existing
    ensures ("git checkout " + name in commands) <==> checkout
    ensures forall c :: c in commands ==> c == "git branch " + name || c == "git checkout " + name
    ensures |commands| <= 2
    ensures |commands| == 2 ==> commands == ["git branch " + name, "git checkout " + name]
  {
    assert ("git branch " + name)[4] != ("git checkout " + name)[4];
    var create := if existing then [] else ["git branch " + name];
    create + (if checkout then ["git checkout " + name] else [])
  }

  /** The git commands that actually run, given the ones that fail: each
      runs in turn until one fails (`execSync` throws, and nothing after it
      runs). */
  function Executed(commands: seq<string>, failing: set<string>): (ran: seq<string>)
    ensures ran <= commands
    ensures forall k :: 0 <= k < |ran| - 1 ==> ran[k] !in failing
    ensures ran == commands || (ran != [] && ran[|ran| - 1] in failing)
    ensures (forall k :: 0 <= k < |commands| ==> commands[k] !in failing) ==> ran == commands
  {
    if commands == [] then []
    else if commands[0] in failing then [commands[0]]
    else [commands[0]] + Executed(commands[1..], failing)
  }

  /** When creating the branch fails, it is not checked out. */
  lemma FailedCreationSkipsCheckout(name: string, checkout: bool, failing: set<string>)
    requires "git branch " + name in failing
    ensures Executed(GitCommands(name, checkout, false), failing) == ["git branch " + name]
  {
    var commands := GitCommands(name, checkout, false);
    assert commands[0] == "git branch " + name;
  }

  /** The exit status (`process.exit(1)`, or `process.exitCode = 1` from the
      catch around `main`): 0 exactly when a branch was planned and every git
      command it needed succeeded. */
  function ExitCode(plan: Plan, existing: bool, failing: set<string>): (code: int)
    ensures code == 0 || code == 1
    ensures code == 0 <==> plan.Branch? && forall c :: c in GitCommands(plan.name, plan.checkout, existing) ==> c !in failing
    ensures code == 0 ==> Executed(GitCommands(plan.name, plan.checkout, existing), failing)
                          == GitCommands(plan.name, plan.checkout, existing)
    ensures code == 1 && plan.Branch? ==>
              var ran := Executed(GitCommands(plan.name, plan.checkout, existing), failing);
              ran != [] && ran[|ran| - 1] in failing
  {
    if plan.Branch? && forall c :: c in GitCommands(plan.name, plan.checkout, existing) ==> c !in failing then 0 else 1
  }
}
