/**
 * `bzlmod update` (bzlmod/update_module.cc): list the `bazel_dep`s of
 * `MODULE.bazel` through `buildozer print name version`, resolve each
 * dependency's latest version against the registries and have buildozer
 * set it, printing one aligned line per dependency whose version changed.
 *
 * buildozer's output for the listing is a parameter, and so is buildozer
 * itself as a map from its argument list to its exit code.
 */
module BzlmodUpdateModule {
  import opened Common
  import FindWorkspaceDir
  import RegistryResolve
  import BzlmodAddModule

  /** One `bazel_dep`: the name and the current version as buildozer prints them. */
  datatype Dep = Dep(name: string, version: string)

  /** What buildozer prints for a `bazel_dep` without a version. */
  const MissingVersion := "(missing)"

  /** The lines `std::getline` yields: the text split at each newline, with
      no empty last line for a text that ends in a newline. */
  function Lines(output: string): (lines: seq<string>)
    ensures forall k :: 0 <= k < |lines| ==> '\n' !in lines[k]
    ensures output == [] ==> lines == []
  {
    if output == [] then []
    else
      var pieces := Split(output, "\n");
      SplitPiecesLackDelimiter(output, "\n");
      forall k | 0 <= k < |pieces| ensures '\n' !in pieces[k] {
        FindSeqFromSingle(pieces[k], '\n', 0);
      }
      if pieces[|pieces| - 1] == [] then pieces[..|pieces| - 1] else pieces
  }

  /** Joining the lines back, each ended by a newline, gives the text back
      whenever it ends in a newline. */
  lemma LinesJoin(output: string)
    requires output != [] && output[|output| - 1] == '\n'
    ensures Join(Lines(output), "\n") + "\n" == output
  {
    var pieces := Split(output, "\n");
    LastPieceEmpty(output);
    var init := pieces[..|pieces| - 1];
    assert Lines(output) == init;
    JoinLast(pieces, "\n");
    assert Join(pieces, "\n") == Join(init, "\n") + "\n";
    SplitJoin(output, "\n");
  }

  /** The piece after the last newline of a text that ends in one is empty. */
  lemma LastPieceEmpty(output: string)
    requires output != [] && output[|output| - 1] == '\n'
    ensures |Split(output, "\n")| >= 2 && Split(output, "\n")[|Split(output, "\n")| - 1] == []
  {
    var pieces := Split(output, "\n");
    SplitJoin(output, "\n");
    SplitPiecesLackDelimiter(output, "\n");
    if |pieces| == 1 {
      FindSeqFromSingle(pieces[0], '\n', 0);
      assert false;
    } else {
      JoinLast(pieces, "\n");
      var last := pieces[|pieces| - 1];
      if last != [] {
        FindSeqFromSingle(last, '\n', 0);
        assert false;
      }
    }
  }

  /** Joining a list of two or more pieces ends with the last piece. */
  lemma {:induction false} JoinLast<T>(pieces: seq<seq<T>>, d: seq<T>)
    requires |pieces| >= 2
    ensures Join(pieces, d) == Join(pieces[..|pieces| - 1], d) + d + pieces[|pieces| - 1]
  {
    var n := |pieces|;
    var last := pieces[n - 1];
    if n == 2 {
      assert Join(pieces[1..], d) == last;
      assert Join(pieces[..1], d) == pieces[0];
    } else {
      var tail := pieces[1..];
      JoinLast(tail, d);
      var init := pieces[..n - 1];
      assert init[1..] == tail[..|tail| - 1];
      assert Join(init, d) == pieces[0] + d + Join(tail[..|tail| - 1], d);
      assert Join(pieces, d) == pieces[0] + d + (Join(tail[..|tail| - 1], d) + d + last);
    }
  }

  /** One line of `buildozer print name version`: the name runs to the first
      space and the version is everything after it; a line without a space
      is both name and version (`find` returns `npos`, and `npos + 1` is 0). */
  function DepOfLine(line: string): (d: Dep)
    ensures ' ' in line ==> d.name + " " + d.version == line && ' ' !in d.name
    ensures ' ' !in line ==> d.name == line && d.version == line
  {
    assert Find(line, ' ').None? ==> ' ' !in line;
    var parts := SplitAtFirst(line, ' ');
    Dep(parts.0, parts.1)
  }

  /** A name without spaces printed with its version reads back as is. */
  lemma DepOfLineRoundTrip(d: Dep)
    requires ' ' !in d.name
    ensures DepOfLine(d.name + " " + d.version) == d
  {
    var line := d.name + " " + d.version;
    assert line[|d.name|] == ' ';
    var parts := SplitAtFirst(line, ' ');
    assert Find(line, ' ').Some?;
    assert Find(line, ' ').value == |d.name|;
    assert parts.0 == line[..|d.name|];
  }

  /** The dependencies `get_all_deps` reads from buildozer's listing. */
  function AllDeps(output: string): (deps: seq<Dep>)
    ensures |deps| == |Lines(output)|
    ensures forall k :: 0 <= k < |deps| ==> deps[k] == DepOfLine(Lines(output)[k])
    ensures forall k :: 0 <= k < |deps| && ' ' in Lines(output)[k] ==>
      deps[k].name + " " + deps[k].version == Lines(output)[k] && ' ' !in deps[k].name
    ensures forall k :: 0 <= k < |deps| ==> '\n' !in deps[k].name
  {
    var lines := Lines(output);
    seq(|lines|, k requires 0 <= k < |lines| => DepOfLine(lines[k]))
  }

  /** The `getline` loop of `get_all_deps`. */
  method GetAllDeps(output: string) returns (deps: seq<Dep>)
    ensures deps == AllDeps(output)
  {
    var lines := Lines(output);
    deps := [];
    for i := 0 to |lines|
      invariant deps == AllDeps(output)[..i]
    {
      var parts := SplitAtFirst(lines[i], ' ');
      deps := deps + [Dep(parts.0, parts.1)];
    }
  }

  /** The length of the longest dependency name (0 when there is none). */
  function MaxNameLength(deps: seq<Dep>): nat {
    if deps == [] then 0
    else
      var n := MaxNameLength(deps[..|deps| - 1]);
      var m := |deps[|deps| - 1].name|;
      if m > n then m else n
  }

  /** It bounds every name and is the length of one of them. */
  lemma {:induction false} MaxNameLengthIsMax(deps: seq<Dep>)
    ensures forall d :: d in deps ==> |d.name| <= MaxNameLength(deps)
    ensures deps != [] ==> exists d :: d in deps && |d.name| == MaxNameLength(deps)
    ensures deps == [] ==> MaxNameLength(deps) == 0
  {
    if deps != [] {
      var init := deps[..|deps| - 1];
      MaxNameLengthIsMax(init);
      assert deps == init + [deps[|deps| - 1]];
      if init != [] {
        var d :| d in init && |d.name| == MaxNameLength(init);
        assert d in deps;
      }
    }
  }

  /** The loop that finds the longest name. */
  method LongestNameLength(deps: seq<Dep>) returns (longest: nat)
    ensures longest == MaxNameLength(deps)
  {
    longest := 0;
    for i := 0 to |deps|
      invariant longest == MaxNameLength(deps[..i])
    {
      assert deps[..i + 1][..i] == deps[..i];
      if |deps[i].name| > longest {
        longest := |deps[i].name|;
      }
    }
    assert deps[..|deps|] == deps;
  }

  /** The spaces that pad `name` to `width` columns (none for a name
      that is already as wide, which the longest name never exceeds). */
  function Padding(width: nat, name: string): (p: string)
    ensures |name| <= width ==> |name + p| == width
    ensures forall k :: 0 <= k < |p| ==> p[k] == ' '
  {
    seq(if |name| <= width then width - |name| else 0, _ => ' ')
  }

  /** `<name><padding> <current> -> <new>` */
  function BumpLine(d: Dep, width: nat, version: string): string
  {
    d.name + Padding(width, d.name) + " " + d.version + " -> " + version + "\n"
  }

  /** Every printed line has its name padded to the same width, so the
      current versions all start in the same column. */
  lemma BumpLineAligned(d: Dep, width: nat, version: string)
    requires |d.name| <= width
    ensures var line := BumpLine(d, width, version);
      |line| > width && line[..width] == d.name + Padding(width, d.name) &&
      line[width] == ' ' && line[width + 1..] == d.version + " -> " + version + "\n"
  {
    var pad := d.name + Padding(width, d.name);
    var line := BumpLine(d, width, version);
    assert line == pad + (" " + d.version + " -> " + version + "\n");
  }

  /** A dependency with no version is skipped. */
  predicate Skipped(d: Dep) {
    d.version == [] || d.version == MissingVersion
  }

  /** What happens to one dependency. */
  datatype Step = Skip | NotFound | Bumped(line: string) | NoChange | Failed(code: int)

  function StepOf(d: Dep, width: nat, registries: seq<string>,
                  fetch: string -> Option<RegistryResolve.Metadata>, buildozer: seq<string> -> int): (s: Step)
    ensures s == Skip <==> Skipped(d)
    ensures s == NotFound <==> !Skipped(d) && RegistryResolve.Resolved(registries, d.name, fetch).None?
    ensures s.Bumped? ==> s.line == BumpLine(d, width, RegistryResolve.Resolved(registries, d.name, fetch).value)
    ensures s.Bumped? || s.NoChange? || s.Failed? ==>
      !Skipped(d) && RegistryResolve.Resolved(registries, d.name, fetch).Some? &&
      BzlmodAddModule.ReportOf(buildozer(BzlmodAddModule.SetVersionArgs(d.name, RegistryResolve.Resolved(registries, d.name, fetch).value)))
      == (if s.Bumped? then BzlmodAddModule.Added else if s.NoChange? then BzlmodAddModule.AlreadyAdded
          else BzlmodAddModule.BuildozerFailed(s.code))
  {
    if Skipped(d) then Skip
    else match RegistryResolve.Resolved(registries, d.name, fetch)
      case None => NotFound
      case Some(version) =>
        match BzlmodAddModule.ReportOf(buildozer(BzlmodAddModule.SetVersionArgs(d.name, version)))
        case Added => Bumped(BumpLine(d, width, version))
        case AlreadyAdded => NoChange
        case BuildozerFailed(code) => Failed(code)
  }

  /** What the loop over the dependencies leaves behind: the lines printed,
      the names warned about, and buildozer's exit code when it failed. */
  datatype Report = Report(lines: seq<string>, missing: seq<string>, failure: Option<int>)

  /** The line and the warning of one step put in front of a report. */
  function Prepend(lines: seq<string>, missing: seq<string>, r: Report): Report {
    Report(lines + r.lines, missing + r.missing, r.failure)
  }

  lemma PrependTwice(lines: seq<string>, missing: seq<string>, lines': seq<string>, missing': seq<string>, r: Report)
    ensures Prepend(lines, missing, Prepend(lines', missing', r)) == Prepend(lines + lines', missing + missing', r)
  {
    assert lines + (lines' + r.lines) == lines + lines' + r.lines;
    assert missing + (missing' + r.missing) == missing + missing' + r.missing;
  }

  predicate NamesFit(deps: seq<Dep>, width: nat) {
    forall k :: 0 <= k < |deps| ==> |deps[k].name| <= width
  }

  /** No name is wider than the longest. */
  lemma LongestFits(deps: seq<Dep>)
    ensures NamesFit(deps, MaxNameLength(deps))
  {
    MaxNameLengthIsMax(deps);
    forall k | 0 <= k < |deps| ensures |deps[k].name| <= MaxNameLength(deps) {
      assert deps[k] in deps;
    }
  }

  /** The dependencies taken in order; the first failure of buildozer ends
      the loop. */
  function Run(deps: seq<Dep>, width: nat, registries: seq<string>,
               fetch: string -> Option<RegistryResolve.Metadata>, buildozer: seq<string> -> int): Report
  {
    if deps == [] then Report([], [], None)
    else
      var s := StepOf(deps[0], width, registries, fetch, buildozer);
      if s.Failed? then Report([], [], Some(s.code))
      else
        var rest := Run(deps[1..], width, registries, fetch, buildozer);
        match s
        case Bumped(line) => Prepend([line], [], rest)
        case NotFound => Prepend([], [deps[0].name], rest)
        case _ => rest
  }

  /** The loop fails exactly when buildozer fails (neither 0 nor 3) on a
      dependency that has a version and that some registry knows. */
  lemma {:induction false} RunFailsIffBuildozerFails(deps: seq<Dep>, width: nat, registries: seq<string>,
                                                     fetch: string -> Option<RegistryResolve.Metadata>, buildozer: seq<string> -> int)
    ensures Run(deps, width, registries, fetch, buildozer).failure.Some? <==>
      exists k :: 0 <= k < |deps| && StepOf(deps[k], width, registries, fetch, buildozer).Failed?
  {
    if deps != [] {
      RunFailsIffBuildozerFails(deps[1..], width, registries, fetch, buildozer);
      if exists k :: 0 <= k < |deps| && StepOf(deps[k], width, registries, fetch, buildozer).Failed? {
        var k :| 0 <= k < |deps| && StepOf(deps[k], width, registries, fetch, buildozer).Failed?;
        if k > 0 {
          assert deps[1..][k - 1] == deps[k];
        }
      }
      forall k | 0 <= k < |deps[1..]| ensures deps[1..][k] == deps[k + 1] {}
    }
  }

  /** Every printed line belongs to a dependency whose version buildozer
      changed, and every warning to one no registry knows. */
  lemma {:induction false} RunLinesFromDeps(deps: seq<Dep>, width: nat, registries: seq<string>,
                                            fetch: string -> Option<RegistryResolve.Metadata>, buildozer: seq<string> -> int)
    ensures var r := Run(deps, width, registries, fetch, buildozer);
      forall line :: line in r.lines ==>
        exists k :: 0 <= k < |deps| && StepOf(deps[k], width, registries, fetch, buildozer) == Bumped(line)
    ensures var r := Run(deps, width, registries, fetch, buildozer);
      forall name :: name in r.missing ==>
        exists k :: 0 <= k < |deps| && deps[k].name == name && StepOf(deps[k], width, registries, fetch, buildozer) == NotFound
  {
    if deps != [] {
      RunLinesFromDeps(deps[1..], width, registries, fetch, buildozer);
      forall k | 0 <= k < |deps[1..]| ensures deps[1..][k] == deps[k + 1] {}
      var r := Run(deps, width, registries, fetch, buildozer);
      var rest := Run(deps[1..], width, registries, fetch, buildozer);
      var s := StepOf(deps[0], width, registries, fetch, buildozer);
      if !s.Failed? {
        forall name | name in r.missing
          ensures exists k :: 0 <= k < |deps| && deps[k].name == name && StepOf(deps[k], width, registries, fetch, buildozer) == NotFound
        {
          if name in rest.missing {
            assert name in Run(deps[1..], width, registries, fetch, buildozer).missing;
            var j :| 0 <= j < |deps[1..]| && deps[1..][j].name == name &&
              StepOf(deps[1..][j], width, registries, fetch, buildozer) == NotFound;
            assert deps[j + 1] == deps[1..][j];
          } else {
            assert s.NotFound? && r.missing == [deps[0].name] + rest.missing;
            assert deps[0].name == name;
          }
        }
      }
    }
  }

  /** Every printed line starts with the name of a dependency that has a
      version, padded with spaces to `width` columns, followed by the
      space before the current version: with `width` the longest name the
      lines are aligned. */
  lemma RunLinesAligned(deps: seq<Dep>, width: nat, registries: seq<string>,
                        fetch: string -> Option<RegistryResolve.Metadata>, buildozer: seq<string> -> int)
    requires NamesFit(deps, width)
    ensures forall line :: line in Run(deps, width, registries, fetch, buildozer).lines ==>
      |line| > width && line[width] == ' ' &&
      exists k :: 0 <= k < |deps| && !Skipped(deps[k]) && line[..width] == deps[k].name + Padding(width, deps[k].name)
  {
    RunLinesFromDeps(deps, width, registries, fetch, buildozer);
    forall line | line in Run(deps, width, registries, fetch, buildozer).lines
      ensures |line| > width && line[width] == ' '
      ensures exists k :: 0 <= k < |deps| && !Skipped(deps[k]) && line[..width] == deps[k].name + Padding(width, deps[k].name)
    {
      var k :| 0 <= k < |deps| && StepOf(deps[k], width, registries, fetch, buildozer) == Bumped(line);
      BumpLineAligned(deps[k], width, RegistryResolve.Resolved(registries, deps[k].name, fetch).value);
    }
  }

  /** One turn of the loop of `update_module`. */
  method UpdateDep(d: Dep, width: nat, registries: seq<string>,
                   fetch: string -> Option<RegistryResolve.Metadata>, buildozer: seq<string> -> int)
    returns (s: Step)
    ensures s == StepOf(d, width, registries, fetch, buildozer)
  {
    if d.version == [] || d.version == MissingVersion {
      return Skip;
    }
    var padding := Padding(width, d.name);
    var depVersion := RegistryResolve.ResolveVersion(registries, d.name, fetch);
    if depVersion.None? {
      return NotFound;
    }
    var _ := buildozer(BzlmodAddModule.NewDepArgs(d.name));
    var buildozerExitCode := buildozer(BzlmodAddModule.SetVersionArgs(d.name, depVersion.value));
    if buildozerExitCode == 0 {
      s := Bumped(d.name + padding + " " + d.version + " -> " + depVersion.value + "\n");
    } else if buildozerExitCode == 3 {
      s := NoChange;
    } else {
      s := Failed(buildozerExitCode);
    }
  }

  /** The run from dependency `i` on, by what happens to dependency `i`. */
  lemma RunUnfold(deps: seq<Dep>, i: nat, width: nat, registries: seq<string>,
                  fetch: string -> Option<RegistryResolve.Metadata>, buildozer: seq<string> -> int)
    requires i < |deps|
    ensures var s := StepOf(deps[i], width, registries, fetch, buildozer);
      var rest := Run(deps[i + 1..], width, registries, fetch, buildozer);
      Run(deps[i..], width, registries, fetch, buildozer) ==
        match s
        case Failed(code) => Report([], [], Some(code))
        case Bumped(line) => Prepend([line], [], rest)
        case NotFound => Prepend([], [deps[i].name], rest)
        case _ => rest
  {
    assert deps[i..][0] == deps[i] && deps[i..][1..] == deps[i + 1..];
  }

  /** The loop of `update_module`, one dependency at a time. */
  method UpdateDeps(deps: seq<Dep>, width: nat, registries: seq<string>,
                    fetch: string -> Option<RegistryResolve.Metadata>, buildozer: seq<string> -> int)
    returns (r: Report)
    ensures r == Run(deps, width, registries, fetch, buildozer)
  {
    var lines: seq<string> := [];
    var missing: seq<string> := [];
    var i := 0;
    while i < |deps|
      invariant 0 <= i <= |deps|
      invariant Run(deps, width, registries, fetch, buildozer) ==
        Prepend(lines, missing, Run(deps[i..], width, registries, fetch, buildozer))
    {
      RunUnfold(deps, i, width, registries, fetch, buildozer);
      var step := UpdateDep(deps[i], width, registries, fetch, buildozer);
      match step {
        case Bumped(line) =>
          PrependTwice(lines, missing, [line], [], Run(deps[i + 1..], width, registries, fetch, buildozer));
          lines := lines + [line];
        case NotFound =>
          PrependTwice(lines, missing, [], [deps[i].name], Run(deps[i + 1..], width, registries, fetch, buildozer));
          missing := missing + [deps[i].name];
        case Failed(code) => return Report(lines, missing, Some(code));
        case _ =>
      }
      i := i + 1;
    }
    r := Report(lines, missing, None);
  }

  datatype UpdateResult = NoBuildozer | NoWorkspace | NoRegistries | Ran(report: Report)

  /** The exit status: 1 on every early error and when buildozer fails. */
  function ExitCode(r: UpdateResult): (code: int)
    ensures code == 0 <==> r.Ran? && r.report.failure.None?
    ensures code == 0 || code == 1
  {
    if r.Ran? && r.report.failure.None? then 0 else 1
  }

  /** `bzlmod::update_module` */
  function UpdateModuleSpec(hasBuildozer: bool, hasManifest: FindWorkspaceDir.Path -> bool, cwd: FindWorkspaceDir.Path,
                            registries: Option<seq<string>>, listing: string,
                            fetch: string -> Option<RegistryResolve.Metadata>, buildozer: seq<string> -> int): (r: UpdateResult)
    ensures r.Ran? <==> hasBuildozer && FindWorkspaceDir.FindWorkspace(hasManifest, cwd).Some? && registries.Some?
    ensures r.Ran? ==>
      r.report == Run(AllDeps(listing), MaxNameLength(AllDeps(listing)), registries.value, fetch, buildozer)
  {
    if !hasBuildozer then NoBuildozer
    else if FindWorkspaceDir.FindWorkspace(hasManifest, cwd).None? then NoWorkspace
    else if registries.None? then NoRegistries
    else
      var deps := AllDeps(listing);
      var width := MaxNameLength(deps);
      Ran(Run(deps, width, registries.value, fetch, buildozer))
  }

  /** The command exits with 0 exactly when it reaches the loop and
      buildozer fails on none of the dependencies the listing names. */
  lemma UpdateModuleSucceeds(hasBuildozer: bool, hasManifest: FindWorkspaceDir.Path -> bool, cwd: FindWorkspaceDir.Path,
                             registries: Option<seq<string>>, listing: string,
                             fetch: string -> Option<RegistryResolve.Metadata>, buildozer: seq<string> -> int)
    ensures var deps := AllDeps(listing);
      ExitCode(UpdateModuleSpec(hasBuildozer, hasManifest, cwd, registries, listing, fetch, buildozer)) == 0 <==>
        hasBuildozer && FindWorkspaceDir.FindWorkspace(hasManifest, cwd).Some? && registries.Some? &&
        forall k :: 0 <= k < |deps| ==> !StepOf(deps[k], MaxNameLength(deps), registries.value, fetch, buildozer).Failed?
  {
    if registries.Some? {
      var deps := AllDeps(listing);
      RunFailsIffBuildozerFails(deps, MaxNameLength(deps), registries.value, fetch, buildozer);
    }
  }

  /** Every line the command prints puts the current version in the same
      column: one past the longest dependency name of the listing. */
  lemma UpdateModuleLinesAligned(hasBuildozer: bool, hasManifest: FindWorkspaceDir.Path -> bool, cwd: FindWorkspaceDir.Path,
                                 registries: Option<seq<string>>, listing: string,
                                 fetch: string -> Option<RegistryResolve.Metadata>, buildozer: seq<string> -> int)
    ensures var r := UpdateModuleSpec(hasBuildozer, hasManifest, cwd, registries, listing, fetch, buildozer);
      var deps := AllDeps(listing);
      var width := MaxNameLength(deps);
      r.Ran? ==> forall line :: line in r.report.lines ==>
        |line| > width && line[width] == ' ' &&
        exists k :: 0 <= k < |deps| && line[..width] == deps[k].name + Padding(width, deps[k].name)
  {
    if hasBuildozer && FindWorkspaceDir.FindWorkspace(hasManifest, cwd).Some? && registries.Some? {
      var deps := AllDeps(listing);
      LongestFits(deps);
      RunLinesAligned(deps, MaxNameLength(deps), registries.value, fetch, buildozer);
    }
  }

  /** `bzlmod::update_module`, step by step. */
  method UpdateModule(hasBuildozer: bool, hasManifest: FindWorkspaceDir.Path -> bool, cwd: FindWorkspaceDir.Path,
                      registries: Option<seq<string>>, listing: string,
                      fetch: string -> Option<RegistryResolve.Metadata>, buildozer: seq<string> -> int)
    returns (r: UpdateResult, code: int)
    ensures r == UpdateModuleSpec(hasBuildozer, hasManifest, cwd, registries, listing, fetch, buildozer)
    ensures code == ExitCode(r)
  {
    if !hasBuildozer {
      return NoBuildozer, 1;
    }
    var workspaceDir := FindWorkspaceDir.FindWorkspace(hasManifest, cwd);
    if workspaceDir.None? {
      return NoWorkspace, 1;
    }
    if registries.None? {
      return NoRegistries, 1;
    }
    var deps := GetAllDeps(listing);
    var longest := LongestNameLength(deps);
    var report := UpdateDeps(deps, longest, registries.value, fetch, buildozer);
    r := Ran(report);
    code := if report.failure.Some? then 1 else 0;
  }
}
