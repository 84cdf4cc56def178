/**
  The changed-only writer of generated files and its read-only check
  (ergasterion/framework/contract.py:159-216).
*/
module GeneratedFiles {
  import opened Basics
  import opened SortedNames

  /** Decoded file contents by path; one directory tree. */
  type Disk = map<string, string>

  /**
    What one emitter generates: its files, and which paths under its directory each of its
    prune patterns matches.
  */
  datatype Emitter = Emitter(files: map<string, string>, patterns: seq<string -> bool>)

  predicate Prunable(e: Emitter, path: string) {
    exists i | 0 <= i < |e.patterns| :: e.patterns[i](path)
  }

  /** Python reads text with universal newlines: a carriage return, alone or paired, is a newline. */
  function ReadText(content: string): string {
    if content == [] then []
    else if content[0] == '\r' then
      ['\n'] + ReadText(if |content| > 1 && content[1] == '\n' then content[2..] else content[1..])
    else [content[0]] + ReadText(content[1..])
  }

  lemma {:induction false} ReadHasNoReturn(content: string)
    ensures '\r' !in ReadText(content)
    ensures ReadText(content) == content <==> '\r' !in content
    decreases |content|
  {
    if content != [] {
      assert content == [content[0]] + content[1..];
      if content[0] == '\r' {
        ReadHasNoReturn(if |content| > 1 && content[1] == '\n' then content[2..] else content[1..]);
        assert ReadText(content)[0] == '\n';
      } else {
        ReadHasNoReturn(content[1..]);
        assert ReadText(content)[1..] == ReadText(content[1..]);
      }
    }
  }

  predicate IsLineEnd(s: string) { s == "\n" || s == "\r" || s == "\r\n" }

  predicate NoLineEnd(s: string) { '\n' !in s && '\r' !in s }

  /** Lines with the ends between them as they were written. */
  function WithEnds(lines: seq<string>, ends: seq<string>): string
    requires |lines| == |ends| + 1
  {
    if ends == [] then lines[0] else lines[0] + ends[0] + WithEnds(lines[1..], ends[1..])
  }

  /** Lines that hold no line end, and ends of which no two would be read as one. */
  predicate AreLines(lines: seq<string>, ends: seq<string>) {
    && |lines| == |ends| + 1 && (forall i | 0 <= i < |lines| :: NoLineEnd(lines[i]))
    && (forall i | 0 <= i < |ends| :: IsLineEnd(ends[i]))
    && forall i | 0 <= i < |ends| - 1 :: ends[i] == "\r" && lines[i + 1] == "" ==> ends[i + 1] != "\n"
  }

  lemma {:induction false} ReadsThrough(line: string, rest: string)
    requires '\r' !in line
    ensures ReadText(line + rest) == line + ReadText(rest)
  {
    if line == [] {
      assert line + rest == rest;
    } else {
      ReadsThrough(line[1..], rest);
      assert line + rest == [line[0]] + (line[1..] + rest);
      assert (line + rest)[1..] == line[1..] + rest;
    }
  }

  lemma ReadsEnd(end: string, rest: string)
    requires IsLineEnd(end) && (end == "\r" ==> rest == [] || rest[0] != '\n')
    ensures ReadText(end + rest) == ['\n'] + ReadText(rest)
  {
    var s := end + rest;
    assert s[|end|..] == rest;
    if end == "\r\n" {
      assert s[0] == '\r' && s[1] == '\n' && s[2..] == rest;
    } else {
      assert s[1..] == rest && s[0] == end[0];
      if |s| > 1 { assert s[1] == rest[0]; }
    }
  }

  lemma ReadsLine(line: string, end: string, rest: string)
    requires '\r' !in line && IsLineEnd(end) && (end == "\r" ==> rest == [] || rest[0] != '\n')
    ensures ReadText(line + end + rest) == line + "\n" + ReadText(rest)
  {
    ReadsEnd(end, rest);
    ReadsThrough(line, end + rest);
    ConcatAssociates(line, end, rest);
    ConcatAssociates(line, "\n", ReadText(rest));
  }

  lemma WithEndsStart(lines: seq<string>, ends: seq<string>)
    requires AreLines(lines, ends)
    ensures WithEnds(lines, ends) != [] && WithEnds(lines, ends)[0] == '\n' ==> lines[0] == "" && ends[0] == "\n"
  {}

  lemma TailsAreLines(lines: seq<string>, ends: seq<string>)
    requires AreLines(lines, ends) && ends != []
    ensures AreLines(lines[1..], ends[1..])
  {
    assert forall i | 0 <= i < |ends| - 1 :: ends[1..][i] == ends[i + 1] && lines[1..][i + 1] == lines[i + 2];
  }

  /** Reading a file keeps its lines and makes every end between them a newline. */
  lemma {:induction false} ReadTextExactly(lines: seq<string>, ends: seq<string>)
    requires AreLines(lines, ends)
    ensures ReadText(WithEnds(lines, ends)) == WithEnds(lines, seq(|ends|, i => "\n"))
  {
    if ends == [] {
      ReadsThrough(lines[0], []);
      assert lines[0] + [] == lines[0];
    } else {
      TailsAreLines(lines, ends);
      var rest := WithEnds(lines[1..], ends[1..]);
      ReadTextExactly(lines[1..], ends[1..]);
      WithEndsStart(lines[1..], ends[1..]);
      ReadsLine(lines[0], ends[0], rest);
      var newlines := seq(|ends|, i => "\n");
      assert newlines[1..] == seq(|ends| - 1, i => "\n");
    }
  }

  /** Every file is such lines and ends. */
  lemma {:induction false} LinesOf(content: string) returns (lines: seq<string>, ends: seq<string>)
    ensures AreLines(lines, ends) && WithEnds(lines, ends) == content
    decreases |content|
  {
    if content == [] {
      lines, ends := [""], [];
    } else if content[0] == '\r' || content[0] == '\n' {
      var end := if content[0] == '\n' then "\n" else if |content| > 1 && content[1] == '\n' then "\r\n" else "\r";
      var rest := content[|end|..];
      lines, ends := LinesOf(rest);
      WithEndsStart(lines, ends);
      StartsNewline(lines, ends);
      EmptyLineFirst(end, lines, ends);
      lines, ends := [""] + lines, [end] + ends;
      assert content == end + rest;
    } else {
      lines, ends := LinesOf(content[1..]);
      var first := [content[0]] + lines[0];
      GrowsFirst(content[0], lines, ends);
      lines := [first] + lines[1..];
    }
  }

  lemma EmptyLineFirst(end: string, lines: seq<string>, ends: seq<string>)
    requires AreLines(lines, ends) && IsLineEnd(end)
    requires end == "\r" ==> !(ends != [] && lines[0] == "" && ends[0] == "\n")
    ensures AreLines([""] + lines, [end] + ends)
    ensures WithEnds([""] + lines, [end] + ends) == end + WithEnds(lines, ends)
  {
    var longer, more := [""] + lines, [end] + ends;
    assert forall i | 1 <= i < |longer| :: longer[i] == lines[i - 1];
    assert forall i | 1 <= i < |more| :: more[i] == ends[i - 1];
    assert longer[1..] == lines && more[1..] == ends;
  }

  lemma StartsNewline(lines: seq<string>, ends: seq<string>)
    requires AreLines(lines, ends)
    ensures ends != [] && lines[0] == "" && ends[0] == "\n"
            ==> WithEnds(lines, ends) != [] && WithEnds(lines, ends)[0] == '\n'
  {}

  lemma GrowsFirst(c: char, lines: seq<string>, ends: seq<string>)
    requires AreLines(lines, ends) && c != '\n' && c != '\r'
    ensures var longer := [[c] + lines[0]] + lines[1..];
            AreLines(longer, ends) && WithEnds(longer, ends) == [c] + WithEnds(lines, ends)
  {
    var longer := [[c] + lines[0]] + lines[1..];
    assert forall i | 1 <= i < |lines| :: longer[i] == lines[i];
    assert longer[1..] == lines[1..];
  }

  // ---------------------------------------------------------------- specification

  /** A path some pattern matches that the emitter no longer generates. */
  predicate Orphan(e: Emitter, disk: Disk, path: string) {
    path in disk && Prunable(e, path) && path !in e.files
  }

  /** A generated file that is missing or reads differently. */
  predicate Drifts(e: Emitter, disk: Disk, path: string) {
    path in e.files && (path !in disk || ReadText(disk[path]) != e.files[path])
  }

  function Pruned(e: Emitter, disk: Disk): Disk {
    map path | path in disk && !Orphan(e, disk, path) :: disk[path]
  }

  function Refreshed(e: Emitter, disk: Disk): Disk {
    map path | path in disk.Keys + e.files.Keys :: if Drifts(e, disk, path) then e.files[path] else disk[path]
  }

  /** What writing leaves on disk. */
  function Written(e: Emitter, disk: Disk): Disk {
    Refreshed(e, Pruned(e, disk))
  }

  /** Nothing is missing, drifted or orphaned. */
  ghost predicate Clean(e: Emitter, disk: Disk) {
    forall path :: !Orphan(e, disk, path) && !Drifts(e, disk, path)
  }

  /** No generated content carries a carriage return. */
  ghost predicate NoReturns(e: Emitter) {
    forall path | path in e.files :: '\r' !in e.files[path]
  }

  // ---------------------------------------------------------------- the two operations

  datatype Problem = Missing(path: string) | Drift(path: string) | OrphanFile(path: string)

  /** The paths, of those listed, that are missing or read differently. */
  function Drifting(e: Emitter, disk: Disk, paths: seq<string>): seq<string> {
    if paths == [] then [] else
    var init, last := Drifting(e, disk, paths[..|paths| - 1]), paths[|paths| - 1];
    if Drifts(e, disk, last) then init + [last] else init
  }

  lemma {:induction false} DriftingExactly(e: Emitter, disk: Disk, paths: seq<string>, path: string)
    ensures path in Drifting(e, disk, paths) <==> path in paths && Drifts(e, disk, path)
  {
    if paths != [] {
      DriftingExactly(e, disk, paths[..|paths| - 1], path);
      assert paths == paths[..|paths| - 1] + [paths[|paths| - 1]];
    }
  }

  /** The generated paths in name order, which both operations go by. */
  ghost function GeneratedPaths(e: Emitter): seq<string> { SortedList(e.files.Keys) }

  lemma DriftingGenerated(e: Emitter, disk: Disk)
    ensures forall path :: path in Drifting(e, disk, GeneratedPaths(e)) <==> Drifts(e, disk, path)
  {
    forall path
      ensures path in Drifting(e, disk, GeneratedPaths(e)) <==> Drifts(e, disk, path)
    {
      DriftingExactly(e, disk, GeneratedPaths(e), path);
    }
  }

  function FileProblem(disk: Disk, path: string): Problem {
    if path in disk then Drift(path) else Missing(path)
  }

  function FileProblems(disk: Disk, paths: seq<string>): seq<Problem> {
    seq(|paths|, i requires 0 <= i < |paths| => FileProblem(disk, paths[i]))
  }

  /** What the check reports of the first `i + 1` paths: what it reports of `i`, and of the next. */
  lemma FileProblemsStep(e: Emitter, disk: Disk, paths: seq<string>, i: nat)
    requires i < |paths|
    ensures FileProblems(disk, Drifting(e, disk, paths[..i + 1]))
            == FileProblems(disk, Drifting(e, disk, paths[..i]))
            + if Drifts(e, disk, paths[i]) then [FileProblem(disk, paths[i])] else []
  {
    assert paths[..i + 1][..i] == paths[..i];
  }

  lemma FileProblemsExactly(e: Emitter, disk: Disk, p: Problem)
    ensures p in FileProblems(disk, Drifting(e, disk, GeneratedPaths(e)))
            <==> !p.OrphanFile? && Drifts(e, disk, p.path) && (p.Missing? <==> p.path !in disk)
  {
    var paths := Drifting(e, disk, GeneratedPaths(e));
    DriftingGenerated(e, disk);
    if p.path in paths {
      var i :| 0 <= i < |paths| && paths[i] == p.path;
      assert FileProblems(disk, paths)[i] == FileProblem(disk, p.path);
    }
  }

  function Orphans(paths: seq<string>): seq<Problem> {
    seq(|paths|, i requires 0 <= i < |paths| => OrphanFile(paths[i]))
  }

  /** What one pattern matches that is no longer generated, in name order. */
  ghost function OrphanList(e: Emitter, disk: Disk, pattern: string -> bool): seq<Problem> {
    Orphans(SortedList(set path | path in disk.Keys && pattern(path) && path !in e.files))
  }

  ghost function OrphanLists(e: Emitter, disk: Disk): seq<seq<Problem>> {
    seq(|e.patterns|, i requires 0 <= i < |e.patterns| => OrphanList(e, disk, e.patterns[i]))
  }

  lemma OrphanListExactly(e: Emitter, disk: Disk, pattern: string -> bool, p: Problem)
    ensures p in OrphanList(e, disk, pattern)
            <==> p.OrphanFile? && p.path in disk && pattern(p.path) && p.path !in e.files
  {
    var matching := set path | path in disk.Keys && pattern(path) && path !in e.files;
    var paths := SortedList(matching);
    if p.OrphanFile? && p.path in matching {
      var i :| 0 <= i < |paths| && paths[i] == p.path;
      assert Orphans(paths)[i] == p;
    }
  }

  lemma OrphansExactly(e: Emitter, disk: Disk, p: Problem)
    ensures p in Concatenated(OrphanLists(e, disk), |e.patterns|) <==> p.OrphanFile? && Orphan(e, disk, p.path)
  {
    InConcatenated(OrphanLists(e, disk), |e.patterns|, p);
    forall i | 0 <= i < |e.patterns|
      ensures p in OrphanLists(e, disk)[i] <==>
              p.OrphanFile? && p.path in disk && e.patterns[i](p.path) && p.path !in e.files
    {
      OrphanListExactly(e, disk, e.patterns[i], p);
    }
  }

  /** Everything the check reports: generated files in name order, then each pattern's orphans. */
  ghost function Report(e: Emitter, disk: Disk): seq<Problem> {
    FileProblems(disk, Drifting(e, disk, GeneratedPaths(e))) + Concatenated(OrphanLists(e, disk), |e.patterns|)
  }

  /** What is wrong with the disk. */
  predicate Diverges(e: Emitter, disk: Disk, p: Problem) {
    match p
    case Missing(path) => path in e.files && path !in disk
    case Drift(path) => path in disk && Drifts(e, disk, path)
    case OrphanFile(path) => Orphan(e, disk, path)
  }

  /** The report holds exactly what is wrong: the missing, drifted and orphaned paths. */
  lemma ReportExactly(e: Emitter, disk: Disk, p: Problem)
    ensures p in Report(e, disk) <==> Diverges(e, disk, p)
  {
    FileProblemsExactly(e, disk, p);
    OrphansExactly(e, disk, p);
  }

  /** The report is empty exactly on a clean disk. */
  lemma ReportsNothingExactly(e: Emitter, disk: Disk)
    ensures Report(e, disk) == [] <==> Clean(e, disk)
  {
    var report := Report(e, disk);
    if report != [] {
      assert report[0] in report;
      ReportExactly(e, disk, report[0]);
      assert Orphan(e, disk, report[0].path) || Drifts(e, disk, report[0].path);
    } else {
      forall path
        ensures !Orphan(e, disk, path) && !Drifts(e, disk, path)
      {
        ReportExactly(e, disk, Missing(path));
        ReportExactly(e, disk, Drift(path));
        ReportExactly(e, disk, OrphanFile(path));
      }
    }
  }

  /** The disk once the listed paths are refreshed. */
  ghost predicate PartlyRefreshed(e: Emitter, before: Disk, disk: Disk, done: seq<string>) {
    && (forall path :: path in disk <==> path in before || path in done)
    && forall path | path in disk ::
         if path in done && Drifts(e, before, path) then disk[path] == e.files[path]
         else path in before && disk[path] == before[path]
  }

  lemma AllRefreshed(e: Emitter, before: Disk, disk: Disk, paths: seq<string>)
    requires PartlyRefreshed(e, before, disk, paths) && forall path :: path in paths <==> path in e.files.Keys
    ensures disk == Refreshed(e, before)
  {}

  lemma RefreshStep(e: Emitter, before: Disk, disk: Disk, after: Disk, paths: seq<string>, i: nat)
    requires i < |paths| && paths[i] in e.files && paths[i] !in paths[..i]
    requires PartlyRefreshed(e, before, disk, paths[..i])
    requires after == if Drifts(e, disk, paths[i]) then disk[paths[i] := e.files[paths[i]]] else disk
    ensures Drifts(e, disk, paths[i]) == Drifts(e, before, paths[i])
    ensures paths[..i + 1][..i] == paths[..i] && PartlyRefreshed(e, before, after, paths[..i + 1])
  {
    assert paths[..i + 1] == paths[..i] + [paths[i]];
  }

  /** One of the first `n` patterns matches the path, which is no longer generated. */
  ghost predicate Swept(e: Emitter, disk: Disk, n: nat, path: string)
    requires n <= |e.patterns|
  {
    path in disk && path !in e.files && exists k | 0 <= k < n :: e.patterns[k](path)
  }

  class FileSystem {
    var disk: Disk

    constructor (disk: Disk)
      ensures this.disk == disk
    {
      this.disk := disk;
    }

    /** Delete the orphans of one pattern after the other. */
    method Prune(e: Emitter) returns (changed: seq<string>)
      modifies this
      ensures disk == Pruned(e, old(disk))
      ensures forall path :: path in changed <==> Orphan(e, old(disk), path)
    {
      changed := [];
      for i := 0 to |e.patterns|
        invariant forall path :: path in changed <==> Swept(e, old(disk), i, path)
        invariant disk == map path | path in old(disk) && path !in changed :: old(disk)[path]
      {
        var matching := set path | path in disk.Keys && e.patterns[i](path) && path !in e.files;
        var found := SortNames(matching);
        changed := changed + found;
        disk := map path | path in disk && path !in found :: disk[path];
      }
    }

    /** Rewrite one generated file if it is missing or reads differently. */
    method RefreshOne(e: Emitter, path: string) returns (changed: bool)
      requires path in e.files
      modifies this
      ensures changed == Drifts(e, old(disk), path)
      ensures disk == if changed then old(disk)[path := e.files[path]] else old(disk)
    {
      var current := if path in disk then Some(ReadText(disk[path])) else None;
      changed := current != Some(e.files[path]);
      if changed { disk := disk[path := e.files[path]]; }
    }

    /** Rewrite the generated files that are missing or read differently, in path order. */
    method Refresh(e: Emitter) returns (changed: seq<string>)
      modifies this
      ensures disk == Refreshed(e, old(disk))
      ensures changed == Drifting(e, old(disk), GeneratedPaths(e))
    {
      changed := [];
      ghost var before := disk;
      var paths := SortNames(e.files.Keys);
      SortedListUnique(paths, GeneratedPaths(e), e.files.Keys);
      for i := 0 to |paths|
        invariant changed == Drifting(e, before, paths[..i])
        invariant PartlyRefreshed(e, before, disk, paths[..i])
      {
        assert paths[i] in e.files.Keys && paths[i] !in paths[..i];
        ghost var now := disk;
        var drifted := RefreshOne(e, paths[i]);
        RefreshStep(e, before, now, disk, paths, i);
        if drifted { changed := changed + [paths[i]]; }
      }
      assert paths[..|paths|] == paths;
      AllRefreshed(e, before, disk, paths);
    }

    /** Write changed files only, and prune what is no longer generated. */
    method WriteGeneratedFiles(e: Emitter) returns (changed: seq<string>)
      modifies this
      ensures disk == Written(e, old(disk))
      ensures Changes(e, old(disk), changed)
      ensures changed == [] <==> Clean(e, old(disk))
    {
      ghost var before := disk;
      var pruned := Prune(e);
      PruningKeepsDrift(e, before, GeneratedPaths(e));
      var refreshed := Refresh(e);
      changed := pruned + refreshed;
      NothingChanges(e, before, pruned);
    }

    /** The generated files that are missing or read differently. */
    method CheckFiles(e: Emitter) returns (problems: seq<Problem>)
      ensures problems == FileProblems(disk, Drifting(e, disk, GeneratedPaths(e)))
    {
      problems := [];
      var paths := SortNames(e.files.Keys);
      SortedListUnique(paths, GeneratedPaths(e), e.files.Keys);
      for i := 0 to |paths|
        invariant problems == FileProblems(disk, Drifting(e, disk, paths[..i]))
      {
        var path := paths[i];
        assert path in e.files.Keys;
        FileProblemsStep(e, disk, paths, i);
        if path !in disk {
          problems := problems + [Missing(path)];
        } else if ReadText(disk[path]) != e.files[path] {
          problems := problems + [Drift(path)];
        }
      }
      assert paths[..|paths|] == paths;
    }

    /** What one pattern matches that is no longer generated, in name order. */
    method OrphansOf(e: Emitter, pattern: string -> bool) returns (problems: seq<Problem>)
      ensures problems == OrphanList(e, disk, pattern)
    {
      var matching := set path | path in disk.Keys && pattern(path) && path !in e.files;
      var found := SortNames(matching);
      SortedListUnique(found, SortedList(matching), matching);
      return Orphans(found);
    }

    /** The orphans of one pattern after the other. */
    method AllOrphans(e: Emitter) returns (problems: seq<Problem>)
      ensures problems == Concatenated(OrphanLists(e, disk), |e.patterns|)
    {
      problems := [];
      ghost var lists := OrphanLists(e, disk);
      for i := 0 to |e.patterns|
        invariant problems == Concatenated(lists, i)
      {
        var orphans := OrphansOf(e, e.patterns[i]);
        assert orphans == lists[i];
        problems := problems + orphans;
      }
    }

    /** Report every divergence without writing. */
    method CheckGeneratedFiles(e: Emitter) returns (problems: seq<Problem>)
      ensures problems == Report(e, disk)
      ensures problems == [] <==> Clean(e, disk)
    {
      var files := CheckFiles(e);
      var orphans := AllOrphans(e);
      problems := files + orphans;
      ReportsNothingExactly(e, disk);
    }
  }

  /** What a write lists: the orphans it deleted, then what it rewrote, in name order. */
  ghost predicate Changes(e: Emitter, disk: Disk, changed: seq<string>) {
    exists pruned ::
      && changed == pruned + Drifting(e, disk, GeneratedPaths(e))
      && forall path :: path in pruned <==> Orphan(e, disk, path)
  }

  lemma {:induction false} PruningKeepsDrift(e: Emitter, disk: Disk, paths: seq<string>)
    ensures Drifting(e, Pruned(e, disk), paths) == Drifting(e, disk, paths)
    ensures Refreshed(e, Pruned(e, disk)) == Written(e, disk)
  {
    if paths != [] {
      PruningKeepsDrift(e, disk, paths[..|paths| - 1]);
    }
  }

  lemma NothingChanges(e: Emitter, disk: Disk, pruned: seq<string>)
    requires forall path :: path in pruned <==> Orphan(e, disk, path)
    ensures pruned + Drifting(e, disk, GeneratedPaths(e)) == [] <==> Clean(e, disk)
  {
    var drifting := Drifting(e, disk, GeneratedPaths(e));
    DriftingGenerated(e, disk);
    if pruned != [] {
      assert Orphan(e, disk, pruned[0]);
    } else if drifting != [] {
      assert Drifts(e, disk, drifting[0]);
    } else {
      forall path
        ensures !Orphan(e, disk, path) && !Drifts(e, disk, path)
      {
        assert path !in pruned && path !in drifting;
      }
    }
  }

  // ---------------------------------------------------------------- what they promise

  lemma WrittenCells(e: Emitter, disk: Disk, path: string)
    ensures path in Written(e, disk) <==> path in e.files || (path in disk && !Orphan(e, disk, path))
    ensures path in Written(e, disk) ==>
              Written(e, disk)[path] == if Drifts(e, disk, path) then e.files[path] else disk[path]
  {}

  /**
    The check is clean exactly when a write leaves the disk as it is and no generated content
    carries a carriage return.
  */
  lemma CleanExactly(e: Emitter, disk: Disk)
    ensures Clean(e, disk) <==> Written(e, disk) == disk && NoReturns(e)
  {
    if Clean(e, disk) {
      forall path
        ensures path in Written(e, disk) <==> path in disk
        ensures path in disk ==> Written(e, disk)[path] == disk[path]
        ensures path in e.files ==> '\r' !in e.files[path]
      {
        WrittenCells(e, disk, path);
        assert !Orphan(e, disk, path) && !Drifts(e, disk, path);
        if path in e.files { ReadHasNoReturn(disk[path]); }
      }
      assert Written(e, disk) == disk;
    } else if NoReturns(e) {
      var path :| Orphan(e, disk, path) || Drifts(e, disk, path);
      WrittenCells(e, disk, path);
      if path in e.files { ReadHasNoReturn(e.files[path]); }
    }
  }

  /**
    So a clean check and a write that changes nothing are the same thing on every disk exactly
    when no generated content carries a carriage return.
  */
  lemma CheckAgreesWithWrite(e: Emitter)
    ensures NoReturns(e) <==> forall disk: Disk :: Clean(e, disk) <==> Written(e, disk) == disk
  {
    forall disk: Disk
      ensures Clean(e, disk) <==> Written(e, disk) == disk && NoReturns(e)
    {
      CleanExactly(e, disk);
    }
    WriteIsIdempotent(e, map[]);
    var after := Written(e, map[]);
    assert Written(e, after) == after;
  }

  /**
    After a write the check is clean exactly when no generated content carries a carriage
    return, which reading the file back would turn into a newline.
  */
  lemma WriteThenCheckExactly(e: Emitter, disk: Disk)
    ensures Clean(e, Written(e, disk)) <==> NoReturns(e)
  {
    var after := Written(e, disk);
    forall path
      ensures !Orphan(e, after, path)
      ensures path in e.files ==> (Drifts(e, after, path) <==> '\r' in e.files[path])
    {
      WrittenCells(e, disk, path);
      if path in e.files {
        ReadHasNoReturn(e.files[path]);
        ReadHasNoReturn(after[path]);
      }
    }
    if Clean(e, after) {
      forall path | path in e.files
        ensures '\r' !in e.files[path]
      {
        assert !Drifts(e, after, path);
      }
    }
  }

  /** A second write leaves the disk as the first one did. */
  lemma WriteIsIdempotent(e: Emitter, disk: Disk)
    ensures Written(e, Written(e, disk)) == Written(e, disk)
  {
    var after := Written(e, disk);
    forall path
      ensures path in Written(e, after) <==> path in after
      ensures path in after ==> Written(e, after)[path] == after[path]
    {
      WrittenCells(e, disk, path);
      WrittenCells(e, after, path);
      if path in e.files && path in disk { ReadHasNoReturn(disk[path]); }
      if path in e.files { ReadHasNoReturn(e.files[path]); }
    }
  }

  /** A path that is neither generated nor matched by a prune pattern keeps its state. */
  lemma OthersUntouched(e: Emitter, disk: Disk, path: string)
    requires path !in e.files && !Prunable(e, path)
    ensures path in Written(e, disk) <==> path in disk
    ensures path in disk ==> Written(e, disk)[path] == disk[path]
  {
    WrittenCells(e, disk, path);
  }

  /** Neither emitter prunes what the other generates. */
  ghost predicate Independent(a: Emitter, b: Emitter) {
    && (forall path | path in a.files :: !Prunable(b, path))
    && (forall path | path in b.files :: !Prunable(a, path))
  }

  lemma WritesAgree(a: Emitter, b: Emitter, disk: Disk, path: string)
    requires a.files.Keys !! b.files.Keys && Independent(a, b)
    ensures var ab, ba := Written(b, Written(a, disk)), Written(a, Written(b, disk));
            (path in ab <==> path in ba) && (path in ab ==> ab[path] == ba[path])
  {
    WrittenCells(a, disk, path);
    WrittenCells(b, disk, path);
    WrittenCells(b, Written(a, disk), path);
    WrittenCells(a, Written(b, disk), path);
  }

  /**
    Two emitters of disjoint files commute on every disk exactly when neither prunes what the
    other generates.
  */
  lemma EmittersCommuteExactly(a: Emitter, b: Emitter)
    requires a.files.Keys !! b.files.Keys
    ensures Independent(a, b) <==>
            forall disk: Disk :: Written(b, Written(a, disk)) == Written(a, Written(b, disk))
  {
    if Independent(a, b) {
      forall disk: Disk
        ensures Written(b, Written(a, disk)) == Written(a, Written(b, disk))
      {
        forall path {
          WritesAgree(a, b, disk, path);
        }
      }
    } else if path :| path in a.files && Prunable(b, path) {
      PruningMatters(a, b, path);
    } else {
      var path :| path in b.files && Prunable(a, path);
      PruningMatters(b, a, path);
    }
  }

  lemma PruningMatters(a: Emitter, b: Emitter, path: string)
    requires path in a.files && path !in b.files && Prunable(b, path)
    ensures Written(b, Written(a, map[])) != Written(a, Written(b, map[]))
  {
    WrittenCells(a, map[], path);
    WrittenCells(b, Written(a, map[]), path);
    WrittenCells(a, Written(b, map[]), path);
  }
}
