/**
 * `bzlmod add <name>` (bzlmod/add_module.cc): find the workspace, resolve
 * the module's latest version against the registries and have buildozer
 * add a `bazel_dep` for it to `MODULE.bazel`.
 *
 * buildozer is a parameter mapping its argument list to its exit code;
 * the first call (`new bazel_dep`) is made for its effect on the file only
 * and its exit code is ignored.
 */
module BzlmodAddModule {
  import opened Common
  import FindWorkspaceDir
  import RegistryResolve

  /** The arguments of `buildozer` that set the version of `name`. */
  function SetVersionArgs(name: string, version: string): seq<string> {
    ["set version " + version, "//MODULE.bazel:" + name]
  }

  /** The arguments of `buildozer` that add a `bazel_dep` for `name`. */
  function NewDepArgs(name: string): seq<string> {
    ["new bazel_dep " + name, "//MODULE.bazel:all"]
  }

  /** What the command reports after `buildozer set version`. */
  datatype Report = Added | AlreadyAdded | BuildozerFailed(code: int)

  /** The exit code of buildozer a report stands for. */
  function CodeOf(r: Report): int {
    match r
    case Added => 0
    case AlreadyAdded => 3
    case BuildozerFailed(code) => code
  }

  /** Exit 0 is "added", exit 3 "already added", anything else a failure;
      the report loses nothing of buildozer's exit code. */
  function ReportOf(exitCode: int): (r: Report)
    ensures r == Added <==> exitCode == 0
    ensures r == AlreadyAdded <==> exitCode == 3
    ensures r.BuildozerFailed? <==> exitCode != 0 && exitCode != 3
    ensures r.BuildozerFailed? ==> r.code == exitCode
    ensures CodeOf(r) == exitCode
  {
    if exitCode == 0 then Added
    else if exitCode == 3 then AlreadyAdded
    else BuildozerFailed(exitCode)
  }

  datatype AddResult =
    | NoBuildozer
    | NoWorkspace
    | NoRegistries
    | NotFound(searched: seq<string>)   // every registry is listed
    | Ran(version: string, report: Report)

  /** The exit status of the command. */
  function ExitCode(r: AddResult): (code: int)
    ensures code == 0 <==> r.Ran? && !r.report.BuildozerFailed?
    ensures code == 0 || code == 1
  {
    if r.Ran? && !r.report.BuildozerFailed? then 0 else 1
  }

  /** `bzlmod::add_module` */
  function AddModuleSpec(hasBuildozer: bool, hasManifest: FindWorkspaceDir.Path -> bool, cwd: FindWorkspaceDir.Path,
                         registries: Option<seq<string>>, name: string,
                         fetch: string -> Option<RegistryResolve.Metadata>, buildozer: seq<string> -> int): (r: AddResult)
    ensures r.Ran? <==>
      hasBuildozer && FindWorkspaceDir.FindWorkspace(hasManifest, cwd).Some? && registries.Some? &&
      RegistryResolve.Resolved(registries.value, name, fetch).Some?
    ensures r.Ran? ==>
      Some(r.version) == RegistryResolve.Resolved(registries.value, name, fetch) &&
      r.report == ReportOf(buildozer(SetVersionArgs(name, r.version)))
    ensures r.NotFound? ==> registries == Some(r.searched)
  {
    if !hasBuildozer then NoBuildozer
    else if FindWorkspaceDir.FindWorkspace(hasManifest, cwd).None? then NoWorkspace
    else if registries.None? then NoRegistries
    else match RegistryResolve.Resolved(registries.value, name, fetch)
      case None => NotFound(registries.value)
      case Some(version) => Ran(version, ReportOf(buildozer(SetVersionArgs(name, version))))
  }

  /** With buildozer and a workspace at hand, the command succeeds exactly
      when buildozer exits with 0 or 3 after being given the version of the
      first registry that knows one; when no registry knows one it fails
      and reports every registry it searched. */
  lemma AddModuleSucceeds(hasManifest: FindWorkspaceDir.Path -> bool, cwd: FindWorkspaceDir.Path,
                          registries: seq<string>, name: string,
                          fetch: string -> Option<RegistryResolve.Metadata>, buildozer: seq<string> -> int)
    requires FindWorkspaceDir.FindWorkspace(hasManifest, cwd).Some?
    ensures var r := AddModuleSpec(true, hasManifest, cwd, Some(registries), name, fetch, buildozer);
      ExitCode(r) == 0 ==>
        (exists i :: RegistryResolve.ResolvedFrom(registries, name, fetch, i, r.version)) &&
        buildozer(SetVersionArgs(name, r.version)) in {0, 3}
    ensures var r := AddModuleSpec(true, hasManifest, cwd, Some(registries), name, fetch, buildozer);
      r.Ran? && buildozer(SetVersionArgs(name, r.version)) in {0, 3} ==> ExitCode(r) == 0
    ensures var r := AddModuleSpec(true, hasManifest, cwd, Some(registries), name, fetch, buildozer);
      (forall i :: 0 <= i < |registries| ==> RegistryResolve.LatestVersion(fetch(RegistryResolve.MetadataUrl(registries[i], name))) == [])
      ==> r == NotFound(registries)
  {
    RegistryResolve.ResolvedIsFirstRegistry(registries, name, fetch);
  }

  /** `bzlmod::add_module`, step by step. */
  method AddModule(hasBuildozer: bool, hasManifest: FindWorkspaceDir.Path -> bool, cwd: FindWorkspaceDir.Path,
                   registries: Option<seq<string>>, name: string,
                   fetch: string -> Option<RegistryResolve.Metadata>, buildozer: seq<string> -> int)
    returns (r: AddResult, code: int)
    ensures r == AddModuleSpec(hasBuildozer, hasManifest, cwd, registries, name, fetch, buildozer)
    ensures code == ExitCode(r)
  {
    if !hasBuildozer {
      return NoBuildozer, 1;
    }
    var workspaceDir := FindWorkspaceDir.FindWorkspace(hasManifest, cwd);
    if workspaceDir.None? {
      return NoWorkspace, 1;
    }
    if registries.None? {
      return NoRegistries, 1;
    }
    var depVersion := RegistryResolve.ResolveVersion(registries.value, name, fetch);
    if depVersion.None? {
      return NotFound(registries.value), 1;
    }
    var _ := buildozer(NewDepArgs(name));
    var buildozerExitCode := buildozer(SetVersionArgs(name, depVersion.value));
    if buildozerExitCode == 0 {
      r := Ran(depVersion.value, Added);
    } else if buildozerExitCode == 3 {
      r := Ran(depVersion.value, AlreadyAdded);
    } else {
      return Ran(depVersion.value, BuildozerFailed(buildozerExitCode)), 1;
    }
    code := 0;
  }
}
