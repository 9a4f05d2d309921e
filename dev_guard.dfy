/** The path policy of specflow/scripts/dev-guard.js: the `--mode` flag,
    the changed files read from `git status --porcelain`, and what each mode
    forbids. The git call becomes its output, or `None` when it fails. */
module DevGuard {
  import opened Wrappers
  import opened Strings
  import opened Seqs

  predicate IsModeFlag(arg: string) {
    "--mode" <= arg
  }

  /** The mode: the second `=`-separated piece of the first argument that
      starts with "--mode"; `None` (the script aborts) when there is no such
      argument or the piece is missing or empty. */
  function ModeOf(argv: seq<string>): (mode: Option<string>)
    ensures mode.Some? ==> mode.value != [] && '=' !in mode.value
    ensures (forall k :: 0 <= k < |argv| ==> !IsModeFlag(argv[k])) ==> mode.None?
  {
    match FindFirst(argv, IsModeFlag)
    case None => None
    case Some(flag) =>
      var pieces := Split(flag, '=');
      if |pieces| >= 2 && pieces[1] != [] then Some(pieces[1]) else None
  }

  /** The first argument that starts with "--mode" yields the text between
      its first and second `=`: `--mode=m`, and also `--modes=m` or
      `--mode=m=x`. */
  lemma ModeFlagRoundTrip(before: seq<string>, p: string, m: string, rest: string, after: seq<string>)
    requires forall k :: 0 <= k < |before| ==> !IsModeFlag(before[k])
    requires "--mode" <= p && '=' !in p
    requires m != [] && '=' !in m
    requires rest == [] || rest[0] == '='
    ensures ModeOf(before + [p + "=" + m + rest] + after) == Some(m)
  {
    var f := p + "=" + m + rest;
    assert IsModeFlag(f) by {
      assert f[..|p|] == p;
    }
    FindFirstAfter(before, f, after, IsModeFlag);
    assert f == p + ['='] + (m + rest);
    SplitPiece(p, '=', m + rest);
    if rest == [] {
      assert m + rest == m;
      SplitSingle(m, '=');
    } else {
      assert m + rest == m + ['='] + rest[1..];
      SplitPiece(m, '=', rest[1..]);
    }
  }

  /** The script aborts when the first argument that starts with "--mode"
      has no `=` (`--mode`), or nothing after the first `=` (`--mode=`,
      `--mode==x`), even when a well-formed flag follows. */
  lemma ModeFlagWithoutValue(before: seq<string>, p: string, q: string, after: seq<string>)
    requires forall k :: 0 <= k < |before| ==> !IsModeFlag(before[k])
    requires "--mode" <= p && '=' !in p
    requires q == [] || q[0] == '='
    ensures ModeOf(before + [p] + after) == None
    ensures ModeOf(before + [p + "=" + q] + after) == None
  {
    FindFirstAfter(before, p, after, IsModeFlag);
    SplitSingle(p, '=');
    var f := p + "=" + q;
    assert "--mode" <= f by {
      assert f[..|p|] == p;
    }
    FindFirstAfter(before, f, after, IsModeFlag);
    SplitPiece(p, '=', q);
    if q != [] {
      assert q == [] + ['='] + q[1..];
      SplitPiece([], '=', q[1..]);
    }
  }

  /** `line.slice(3)`: drops the two status letters and the space. */
  function StatusPath(line: string): string {
    if |line| >= 3 then line[3..] else []
  }

  /** One output line as the script reads it: trimmed, dropped when blank,
      then `slice(3)`. */
  function LinePathsAsWritten(line: string): seq<string> {
    var t := Trim(line);
    if t == [] then [] else [StatusPath(t)]
  }

  /** `getChangedFiles` as written: a failed status call gives no files. */
  function ChangedFilesAsWritten(status: Option<string>): (files: seq<string>)
    ensures status.None? ==> files == []
  {
    match status
    case None => []
    case Some(out) => FlatMap(Split(out, '\n'), LinePathsAsWritten)
  }

  /** One output line with only its end trimmed, so that the leading space
      of an unstaged entry (" M path") stays part of the status field. */
  function LinePaths(line: string): seq<string> {
    if Trim(line) == [] then [] else [StatusPath(TrimEnd(line))]
  }

  /** `getChangedFiles`, corrected: a failed status call gives no files. */
  function ChangedFiles(status: Option<string>): (files: seq<string>)
    ensures status.None? ==> files == []
  {
    match status
    case None => []
    case Some(out) => FlatMap(Split(out, '\n'), LinePaths)
  }

  /** One entry of `git status --porcelain`: the two status letters XY and
      the path. */
  datatype StatusEntry = StatusEntry(code: string, path: string)

  predicate WellFormed(e: StatusEntry) {
    |e.code| == 2 && '\n' !in e.code
    && e.path != [] && '\n' !in e.path && !IsWhitespace(e.path[|e.path| - 1])
  }

  function EntryLine(e: StatusEntry): string {
    e.code + " " + e.path
  }

  function Lines(entries: seq<StatusEntry>): seq<string> {
    seq(|entries|, k requires 0 <= k < |entries| => EntryLine(entries[k]))
  }

  function Paths(entries: seq<StatusEntry>): seq<string> {
    seq(|entries|, k requires 0 <= k < |entries| => entries[k].path)
  }

  /** The command's output: one line per entry, each ended by a newline. */
  function Porcelain(entries: seq<StatusEntry>): string {
    Join(Lines(entries) + [[]], '\n')
  }

  lemma PorcelainSplit(entries: seq<StatusEntry>)
    requires forall k :: 0 <= k < |entries| ==> WellFormed(entries[k])
    ensures Split(Porcelain(entries), '\n') == Lines(entries) + [[]]
  {
    var parts := Lines(entries) + [[]];
    forall k | 0 <= k < |parts| ensures '\n' !in parts[k] {
      if k < |entries| {
        assert parts[k] == entries[k].code + " " + entries[k].path;
      }
    }
    SplitJoin(parts, '\n');
  }

  /** The corrected reading of one entry's line is its path. */
  lemma EntryLinePath(e: StatusEntry)
    requires WellFormed(e)
    ensures LinePaths(EntryLine(e)) == [e.path]
  {
    var line := EntryLine(e);
    assert line[|line| - 1] == e.path[|e.path| - 1];
    assert !IsBlank(line);
    assert TrimEnd(line) == line;
    assert line[3..] == e.path;
  }

  /** The reading as written recovers the path of an entry whose first
      status letter is not blank (a staged or untracked entry). */
  lemma EntryLinePathAsWritten(e: StatusEntry)
    requires WellFormed(e) && !IsWhitespace(e.code[0])
    ensures LinePathsAsWritten(EntryLine(e)) == [e.path]
  {
    var line := EntryLine(e);
    assert line[0] == e.code[0];
    assert line[|line| - 1] == e.path[|e.path| - 1];
    assert TrimStart(line) == line;
    assert TrimEnd(line) == line;
    assert line[3..] == e.path;
  }

  /** A line reader that gets each entry's path from its line gets all the
      paths, in order, from all the lines. */
  lemma {:induction false} LinesPaths(entries: seq<StatusEntry>, read: string -> seq<string>)
    requires forall k :: 0 <= k < |entries| ==> read(EntryLine(entries[k])) == [entries[k].path]
    ensures FlatMap(Lines(entries), read) == Paths(entries)
  {
    if entries != [] {
      var init := entries[..|entries| - 1];
      var last := entries[|entries| - 1];
      assert Lines(entries) == Lines(init) + [EntryLine(last)];
      assert Paths(entries) == Paths(init) + [last.path];
      LinesPaths(init, read);
      FlatMapSnoc(Lines(init), EntryLine(last), read);
    }
  }

  /** The corrected reading recovers exactly the paths of the entries, in
      order, whatever their status letters. */
  lemma PorcelainRoundTrip(entries: seq<StatusEntry>)
    requires forall k :: 0 <= k < |entries| ==> WellFormed(entries[k])
    ensures ChangedFiles(Some(Porcelain(entries))) == Paths(entries)
  {
    PorcelainSplit(entries);
    FlatMapSnoc(Lines(entries), [], LinePaths);
    forall k | 0 <= k < |entries| ensures LinePaths(EntryLine(entries[k])) == [entries[k].path] {
      EntryLinePath(entries[k]);
    }
    LinesPaths(entries, LinePaths);
  }

  /** The reading as written recovers exactly the paths when no entry's
      first status letter is blank: only unstaged entries are misread. */
  lemma AsWrittenRoundTrip(entries: seq<StatusEntry>)
    requires forall k :: 0 <= k < |entries| ==> WellFormed(entries[k]) && !IsWhitespace(entries[k].code[0])
    ensures ChangedFilesAsWritten(Some(Porcelain(entries))) == Paths(entries)
  {
    PorcelainSplit(entries);
    FlatMapSnoc(Lines(entries), [], LinePathsAsWritten);
    forall k | 0 <= k < |entries| ensures LinePathsAsWritten(EntryLine(entries[k])) == [entries[k].path] {
      EntryLinePathAsWritten(entries[k]);
    }
    LinesPaths(entries, LinePathsAsWritten);
  }

  /** As written, an unstaged entry (" M src/app.js") loses the first
      character of its path: the trim eats the leading space, and
      `slice(3)` then cuts into the path. */
  lemma UnstagedEntryLosesFirstChar(e: StatusEntry)
    requires WellFormed(e) && e.code[0] == ' ' && !IsWhitespace(e.code[1])
    ensures ChangedFilesAsWritten(Some(Porcelain([e]))) == [e.path[1..]]
  {
    var line := EntryLine(e);
    assert Lines([e]) + [[]] == [line, []];
    calc {
      ChangedFilesAsWritten(Some(Porcelain([e])));
      FlatMap(Split(Porcelain([e]), '\n'), LinePathsAsWritten);
      { PorcelainSplit([e]); }
      FlatMap([line, []], LinePathsAsWritten);
      { FlatMapPair(line, [], LinePathsAsWritten); }
      LinePathsAsWritten(line) + LinePathsAsWritten([]);
      { UnstagedLineAsWritten(e); assert Trim([]) == []; }
      [e.path[1..]] + [];
      [e.path[1..]];
    }
  }

  /** The line of an unstaged entry, as written: trimmed of its leading
      space, then cut three characters in. */
  lemma UnstagedLineAsWritten(e: StatusEntry)
    requires WellFormed(e) && e.code[0] == ' ' && !IsWhitespace(e.code[1])
    ensures LinePathsAsWritten(EntryLine(e)) == [e.path[1..]]
  {
    var line := EntryLine(e);
    var t := line[1..];
    assert t == [e.code[1]] + " " + e.path;
    assert TrimStart(t) == t;
    assert TrimStart(line) == t;
    assert t[|t| - 1] == e.path[|e.path| - 1];
    assert TrimEnd(t) == t;
    assert t[3..] == e.path[1..];
  }

  predicate ArchitectForbidden(file: string) {
    "src/" <= file || "tests/" <= file
  }

  const DeveloperPrefixes: seq<string> := ["inputs/", "spec/", "decisions/", "tasks/", "inputs/DB.mmd"]

  /** `forbiddenPrefixes.some((prefix) => file === prefix || file.startsWith(prefix))`. */
  predicate DeveloperForbidden(file: string) {
    exists k :: 0 <= k < |DeveloperPrefixes| && (file == DeveloperPrefixes[k] || DeveloperPrefixes[k] <= file)
  }

  /** The equality test and the "inputs/DB.mmd" entry add nothing: the
      developer rule is four plain prefixes. */
  lemma DeveloperRuleIsFourPrefixes(file: string)
    ensures DeveloperForbidden(file)
        <==> "inputs/" <= file || "spec/" <= file || "decisions/" <= file || "tasks/" <= file
  {
    if DeveloperForbidden(file) {
      var k :| 0 <= k < |DeveloperPrefixes| && (file == DeveloperPrefixes[k] || DeveloperPrefixes[k] <= file);
      if k == 4 {
        assert file[..7] == "inputs/DB.mmd"[..7];
      }
    }
    if "inputs/" <= file {
      assert DeveloperPrefixes[0] <= file;
    }
    if "spec/" <= file {
      assert DeveloperPrefixes[1] <= file;
    }
    if "decisions/" <= file {
      assert DeveloperPrefixes[2] <= file;
    }
    if "tasks/" <= file {
      assert DeveloperPrefixes[3] <= file;
    }
  }

  datatype Role = Architect | Developer

  /** How the script ends: success, a forbidden-files error listing the
      offending files, an unknown mode, or no mode at all. */
  datatype Verdict = Pass | Forbidden(role: Role, files: seq<string>) | UnknownMode(mode: string) | NoMode

  /** Architect mode fails exactly when some changed file lies under src/ or
      tests/, and lists exactly those files, in order. */
  function EnforceArchitect(files: seq<string>): (r: Verdict)
    ensures r.Pass? || r.Forbidden?
    ensures r.Pass? <==> forall k :: 0 <= k < |files| ==> !ArchitectForbidden(files[k])
    ensures r.Forbidden? ==> r.role == Architect && r.files == Filter(files, ArchitectForbidden)
  {
    FilterMembers(files, ArchitectForbidden);
    var forbidden := Filter(files, ArchitectForbidden);
    if |forbidden| > 0 then
      assert ArchitectForbidden(forbidden[0]) && forbidden[0] in files;
      Forbidden(Architect, forbidden)
    else Pass
  }

  /** Developer mode fails exactly when some changed file lies under one of
      the protected prefixes, and lists exactly those files, in order. */
  function EnforceDeveloper(files: seq<string>): (r: Verdict)
    ensures r.Pass? || r.Forbidden?
    ensures r.Pass? <==> forall k :: 0 <= k < |files| ==> !DeveloperForbidden(files[k])
    ensures r.Forbidden? ==> r.role == Developer && r.files == Filter(files, DeveloperForbidden)
  {
    FilterMembers(files, DeveloperForbidden);
    var violations := Filter(files, DeveloperForbidden);
    if |violations| > 0 then
      assert DeveloperForbidden(violations[0]) && violations[0] in files;
      Forbidden(Developer, violations)
    else Pass
  }

  /** `r` is what a rule decides on `files`: a pass when no file breaks the
      rule, otherwise the files that do, in order, under the rule's role. */
  predicate RuleVerdict(r: Verdict, role: Role, forbidden: string -> bool, files: seq<string>) {
    && (r.Pass? <==> forall k :: 0 <= k < |files| ==> !forbidden(files[k]))
    && (!r.Pass? ==> r == Forbidden(role, Filter(files, forbidden)))
  }

  /** The mode dispatch. */
  function Enforce(mode: string, files: seq<string>): (r: Verdict)
    ensures mode == "architect" ==> RuleVerdict(r, Architect, ArchitectForbidden, files)
    ensures mode == "developer" ==> RuleVerdict(r, Developer, DeveloperForbidden, files)
    ensures mode != "architect" && mode != "developer" ==> r == UnknownMode(mode)
    ensures files == [] ==> (r.Pass? <==> mode == "architect" || mode == "developer")
    ensures r.Forbidden? ==> r.files != [] && forall k :: 0 <= k < |r.files| ==> r.files[k] in files
  {
    FilterMembers(files, ArchitectForbidden);
    FilterMembers(files, DeveloperForbidden);
    if mode == "architect" then EnforceArchitect(files)
    else if mode == "developer" then EnforceDeveloper(files)
    else UnknownMode(mode)
  }

  /** The whole script as written: the git output is `None` when the status
      call fails. */
  function Run(argv: seq<string>, status: Option<string>): (r: Verdict)
    ensures r == NoMode <==> ModeOf(argv).None?
    ensures ModeOf(argv) == Some("architect") ==> RuleVerdict(r, Architect, ArchitectForbidden, ChangedFilesAsWritten(status))
    ensures ModeOf(argv) == Some("developer") ==> RuleVerdict(r, Developer, DeveloperForbidden, ChangedFilesAsWritten(status))
    ensures ModeOf(argv).Some? && ModeOf(argv).value != "architect" && ModeOf(argv).value != "developer" ==>
              r == UnknownMode(ModeOf(argv).value)
    ensures status.None? && ModeOf(argv).Some? ==>
              (r.Pass? <==> ModeOf(argv).value == "architect" || ModeOf(argv).value == "developer")
    ensures r.Forbidden? ==> forall k :: 0 <= k < |r.files| ==> r.files[k] in ChangedFilesAsWritten(status)
  {
    match ModeOf(argv)
    case None => NoMode
    case Some(mode) => Enforce(mode, ChangedFilesAsWritten(status))
  }

  /** The whole script with the corrected reading of the status lines. */
  function RunCorrected(argv: seq<string>, status: Option<string>): (r: Verdict)
    ensures r == NoMode <==> ModeOf(argv).None?
    ensures ModeOf(argv) == Some("architect") ==> RuleVerdict(r, Architect, ArchitectForbidden, ChangedFiles(status))
    ensures ModeOf(argv) == Some("developer") ==> RuleVerdict(r, Developer, DeveloperForbidden, ChangedFiles(status))
    ensures ModeOf(argv).Some? && ModeOf(argv).value != "architect" && ModeOf(argv).value != "developer" ==>
              r == UnknownMode(ModeOf(argv).value)
    ensures status.None? && ModeOf(argv).Some? ==>
              (r.Pass? <==> ModeOf(argv).value == "architect" || ModeOf(argv).value == "developer")
    ensures r.Forbidden? ==> forall k :: 0 <= k < |r.files| ==> r.files[k] in ChangedFiles(status)
  {
    match ModeOf(argv)
    case None => NoMode
    case Some(mode) => Enforce(mode, ChangedFiles(status))
  }

  /** Where no entry is unstaged, the script as written and the corrected
      one decide alike. */
  lemma RunAgreesOnStaged(argv: seq<string>, entries: seq<StatusEntry>)
    requires forall k :: 0 <= k < |entries| ==> WellFormed(entries[k]) && !IsWhitespace(entries[k].code[0])
    ensures Run(argv, Some(Porcelain(entries))) == RunCorrected(argv, Some(Porcelain(entries)))
  {
    AsWrittenRoundTrip(entries);
    PorcelainRoundTrip(entries);
  }

  /** `process.exit(1)` on every failure. */
  function ExitCode(v: Verdict): (code: int)
    ensures code == 0 <==> v.Pass?
  {
    if v.Pass? then 0 else 1
  }

  function JoinLines(lines: seq<string>): string {
    if lines == [] then [] else Join(lines, '\n')
  }

  function ForbiddenHeader(role: Role): (header: string)
    ensures header != [] && '\n' !in header
  {
    match role
    case Architect => "Architect mode: forbidden files"
    case Developer => "Developer mode: forbidden files"
  }

  /** The error text the script prints (nothing on success): the missing-mode
      text on its own, before any git call; an unknown mode or forbidden
      files after "dev-guard failed", where a forbidden-files error is a
      header line followed by one line per file, in order. */
  function ErrorMessage(v: Verdict): (message: string)
    ensures message == [] <==> v.Pass?
    ensures v.UnknownMode? ==> Contains(message, v.mode)
    ensures v.Forbidden? && v.files != [] && (forall k :: 0 <= k < |v.files| ==> '\n' !in v.files[k]) ==>
              Split(message, '\n') == [ForbiddenHeader(v.role)] + v.files
  {
    match v
    case Pass => ""
    case NoMode => "Specify --mode=architect|developer"
    case UnknownMode(mode) =>
      ContainsPiece("Unknown mode: ", mode, "");
      assert "Unknown mode: " + mode + "" == "Unknown mode: " + mode;
      "Unknown mode: " + mode
    case Forbidden(role, files) =>
      var header := ForbiddenHeader(role);
      SplitPiece(header, '\n', JoinLines(files));
      assert files != [] && (forall k :: 0 <= k < |files| ==> '\n' !in files[k]) ==>
               Split(JoinLines(files), '\n') == files by {
        if files != [] && forall k :: 0 <= k < |files| ==> '\n' !in files[k] {
          SplitJoin(files, '\n');
        }
      }
      header + "\n" + JoinLines(files)
  }

  lemma AsWrittenPassesUnstagedSource(e: StatusEntry)
    requires WellFormed(e) && e.code == " M" && "src/" <= e.path
    ensures Enforce("architect", ChangedFilesAsWritten(Some(Porcelain([e])))) == Pass
  {
    UnstagedEntryLosesFirstChar(e);
    var short := e.path[1..];
    assert short[0] == e.path[1] == 'r';
    assert !ArchitectForbidden(short) by {
      assert short[0] != "src/"[0];
      assert short[0] != "tests/"[0];
    }
    FilterSingle(short, ArchitectForbidden);
  }

  lemma CorrectedRejectsSource(e: StatusEntry)
    requires WellFormed(e) && "src/" <= e.path
    ensures Enforce("architect", ChangedFiles(Some(Porcelain([e])))) == Forbidden(Architect, [e.path])
  {
    PorcelainRoundTrip([e]);
    assert Paths([e]) == [e.path];
    FilterSingle(e.path, ArchitectForbidden);
  }

  /** As written, the guard in architect mode lets every unstaged change
      under src/ through (" M src/a" is read as "rc/a"); the corrected
      reading rejects it. */
  lemma ArchitectMissesUnstagedSource(argv: seq<string>, e: StatusEntry)
    requires ModeOf(argv) == Some("architect")
    requires WellFormed(e) && e.code == " M" && "src/" <= e.path
    ensures Run(argv, Some(Porcelain([e]))) == Pass
    ensures RunCorrected(argv, Some(Porcelain([e]))) == Forbidden(Architect, [e.path])
  {
    AsWrittenPassesUnstagedSource(e);
    CorrectedRejectsSource(e);
  }
}
