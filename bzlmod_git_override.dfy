/**
 * `bzlmod git-override <dep>` (bzlmod/git_override.cc): resolve the module
 * against the registries, take the first GitHub repository its metadata
 * lists, ask `gh` for the commit of the requested committish and append a
 * `git_override` for that commit to `MODULE.bazel`.
 *
 * `gh` is a parameter mapping its argument list to what it prints, and
 * `MODULE.bazel` is its text before and after the append.
 */
module BzlmodGitOverride {
  import opened Common
  import FindWorkspaceDir
  import RegistryResolve
  import RegistryAddModule

  /** What one job leaves in its entry: the last version and the
      repositories of the registry's `metadata.json`. */
  datatype Entry = Entry(registry: string, version: string, repositories: seq<string>)

  function EntryOf(registry: string, dep: string, fetch: string -> Option<RegistryResolve.Metadata>): (e: Entry)
    ensures e.registry == registry
    ensures e.version == RegistryResolve.LatestVersion(fetch(RegistryResolve.MetadataUrl(registry, dep)))
    ensures var metadata := fetch(RegistryResolve.MetadataUrl(registry, dep));
      (e.version != [] ==> metadata.Some? && e.version in metadata.value.versions) &&
      (e.repositories != [] ==> metadata.Some? && e.repositories == metadata.value.repository)
  {
    var metadata := fetch(RegistryResolve.MetadataUrl(registry, dep));
    Entry(registry, RegistryResolve.LatestVersion(metadata), if metadata.Some? then metadata.value.repository else [])
  }

  /** The entries once every job has run. */
  function Entries(registries: seq<string>, dep: string, fetch: string -> Option<RegistryResolve.Metadata>): (es: seq<Entry>)
    ensures |es| == |registries|
    ensures forall i :: 0 <= i < |registries| ==> es[i] == EntryOf(registries[i], dep, fetch)
    ensures forall i :: 0 <= i < |registries| ==> es[i].registry == registries[i]
    ensures forall i :: 0 <= i < |registries| && es[i].version != [] ==>
      var metadata := fetch(RegistryResolve.MetadataUrl(registries[i], dep));
      metadata.Some? && es[i].version in metadata.value.versions
  {
    seq(|registries|, i requires 0 <= i < |registries| => EntryOf(registries[i], dep, fetch))
  }

  /** The entries filled by one job per registry, taken in any order. */
  method FillEntries(registries: seq<string>, dep: string, fetch: string -> Option<RegistryResolve.Metadata>)
    returns (entries: seq<Entry>)
    ensures entries == Entries(registries, dep, fetch)
  {
    var slots := new Entry[|registries|](i requires 0 <= i < |registries| => Entry(registries[i], "", []));
    var pending: set<nat> := set i | i in RegistryResolve.Positions(|registries|);
    forall i | 0 <= i < |registries| ensures i in pending {
      assert RegistryResolve.Positions(|registries|)[i] == i;
    }
    while pending != {}
      invariant forall i :: i in pending ==> 0 <= i < |registries|
      invariant forall i :: 0 <= i < |registries| ==>
        slots[i] == if i in pending then Entry(registries[i], "", []) else EntryOf(registries[i], dep, fetch)
      decreases |pending|
    {
      var i :| i in pending;
      var metadata := fetch(RegistryResolve.MetadataUrl(registries[i], dep));
      var version, repositories := "", [];
      if metadata.Some? && metadata.value.versions != [] {
        version := metadata.value.versions[|metadata.value.versions| - 1];
      }
      if metadata.Some? {
        repositories := metadata.value.repository;
      }
      assert Entry(registries[i], version, repositories) == EntryOf(registries[i], dep, fetch);
      slots[i] := Entry(registries[i], version, repositories);
      pending := pending - {i};
    }
    entries := slots[..];
  }

  /** `e` is the entry of registry `i`, the first that knows a version. */
  predicate FoundAt(registries: seq<string>, dep: string, fetch: string -> Option<RegistryResolve.Metadata>, i: nat, e: Entry) {
    i < |registries| && e == EntryOf(registries[i], dep, fetch) &&
    RegistryResolve.ResolvedFrom(registries, dep, fetch, i, e.version)
  }

  /** The entry of the first registry, in registry order, that knows a version. */
  function FoundEntry(registries: seq<string>, dep: string, fetch: string -> Option<RegistryResolve.Metadata>): (r: Option<Entry>)
    ensures r.Some? <==> RegistryResolve.Resolved(registries, dep, fetch).Some?
    ensures r.Some? ==> exists i :: FoundAt(registries, dep, fetch, i, r.value)
  {
    var slots := RegistryResolve.Slots(registries, dep, fetch);
    match RegistryResolve.FirstFilled(slots)
    case None => None
    case Some(i) =>
      assert FoundAt(registries, dep, fetch, i, EntryOf(registries[i], dep, fetch));
      Some(EntryOf(registries[i], dep, fetch))
  }

  /** The scan with `break` for the first entry with a version. */
  method SelectEntry(registries: seq<string>, dep: string, fetch: string -> Option<RegistryResolve.Metadata>, entries: seq<Entry>)
    returns (found: Option<Entry>)
    requires entries == Entries(registries, dep, fetch)
    ensures found == FoundEntry(registries, dep, fetch)
  {
    ghost var slots := RegistryResolve.Slots(registries, dep, fetch);
    found := None;
    var i := 0;
    while i < |entries|
      invariant 0 <= i <= |entries|
      invariant forall j :: 0 <= j < i ==> slots[j] == []
    {
      if entries[i].version != [] {
        found := Some(entries[i]);
        RegistryResolve.FirstFilledIs(slots, i);
        return;
      }
      i := i + 1;
    }
  }

  /** The `owner/repo` of the first `github:` repository, or empty. */
  function GithubRepo(repositories: seq<string>): (r: string)
    ensures r != [] ==> exists k :: 0 <= k < |repositories| && repositories[k] == RegistryAddModule.GithubPrefix + r
  {
    if repositories == [] then []
    else if StartsWith(repositories[0], RegistryAddModule.GithubPrefix) then
      assert repositories[0] == RegistryAddModule.GithubPrefix + repositories[0][|RegistryAddModule.GithubPrefix|..];
      repositories[0][|RegistryAddModule.GithubPrefix|..]
    else
      assert forall k :: 0 <= k < |repositories[1..]| ==> repositories[1..][k] == repositories[k + 1];
      GithubRepo(repositories[1..])
  }

  /** Only the first `github:` repository counts: the ones before it are not
      on GitHub, and when it is the bare prefix the result is empty even if
      a later one would do. */
  lemma {:induction false} GithubRepoIsFirst(repositories: seq<string>, k: nat)
    requires k < |repositories| && StartsWith(repositories[k], RegistryAddModule.GithubPrefix)
    requires forall j :: 0 <= j < k ==> !StartsWith(repositories[j], RegistryAddModule.GithubPrefix)
    ensures GithubRepo(repositories) == repositories[k][|RegistryAddModule.GithubPrefix|..]
  {
    if k > 0 {
      GithubRepoIsFirst(repositories[1..], k - 1);
    }
  }

  /** The loop over the found entry's repositories. */
  method FindGithubRepo(repositories: seq<string>) returns (ghRepo: string)
    ensures ghRepo == GithubRepo(repositories)
  {
    ghRepo := [];
    for i := 0 to |repositories|
      invariant GithubRepo(repositories) == GithubRepo(repositories[i..])
    {
      assert repositories[i..][1..] == repositories[i + 1..];
      if StartsWith(repositories[i], RegistryAddModule.GithubPrefix) {
        ghRepo := repositories[i][|RegistryAddModule.GithubPrefix|..];
        return;
      }
    }
  }

  /** The organisation and the repository name: split at the first `/`; a
      name without a slash is both (`npos + 1` is 0). */
  function OrgAndRepo(ghRepo: string): (string, string) {
    SplitAtFirst(ghRepo, '/')
  }

  /** `git@github.com:<org>/<repo>.git` */
  function Remote(ghRepo: string): string {
    var (org, repo) := OrgAndRepo(ghRepo);
    "git@github.com:" + org + "/" + repo + ".git"
  }

  /** The arguments of `gh api repos/<org>/<repo>/commits/<committish> --jq .sha`. */
  function GhArgs(ghRepo: string, committish: string): seq<string> {
    var (org, repo) := OrgAndRepo(ghRepo);
    ["api", "repos/" + org + "/" + repo + "/commits/" + committish, "--jq", ".sha"]
  }

  /** An `owner/repo` whose owner has no slash splits back into its parts,
      so the remote and the API path name that repository. */
  lemma RemoteOfRepository(owner: string, repo: string, committish: string)
    requires '/' !in owner
    ensures Remote(owner + "/" + repo) == "git@github.com:" + owner + "/" + repo + ".git"
    ensures GhArgs(owner + "/" + repo, committish)[1] == "repos/" + owner + "/" + repo + "/commits/" + committish
  {
    var s := owner + "/" + repo;
    assert s[|owner|] == '/';
    assert forall j :: 0 <= j < |owner| ==> s[j] == owner[j];
    var parts := SplitAtFirst(s, '/');
    assert Find(s, '/') == Some(|owner|);
    assert parts.0 == s[..|owner|] == owner;
    assert parts.1 == s[|owner| + 1..] == repo;
  }

  /** A single `github:` repository is the one taken. */
  lemma GithubRepoOfOne(ghRepo: string)
    ensures GithubRepo([RegistryAddModule.GithubPrefix + ghRepo]) == ghRepo
  {
    var full := RegistryAddModule.GithubPrefix + ghRepo;
    assert StartsWith(full, RegistryAddModule.GithubPrefix);
    assert full[|RegistryAddModule.GithubPrefix|..] == ghRepo;
  }

  /** A repository that `bzlreg add-module` records with its corrected rule
      for a GitHub archive URL gives the remote of that repository. */
  lemma RemoteOfInferredRepository(owner: string, repo: string, rest: string)
    requires '/' !in owner && '/' !in repo && (rest == [] || rest[0] == '/')
    ensures var r := RegistryAddModule.InferRepository(
        RegistryAddModule.Url(RegistryAddModule.GithubHost, RegistryAddModule.RepositoryPath(owner, repo, rest)));
      r.Some? && GithubRepo([r.value]) == owner + "/" + repo &&
      Remote(GithubRepo([r.value])) == "git@github.com:" + owner + "/" + repo + ".git"
  {
    RegistryAddModule.InferRepositoryOfPath(owner, repo, rest);
    GithubRepoOfOne(owner + "/" + repo);
    assert RegistryAddModule.GithubPrefix + owner + "/" + repo == RegistryAddModule.GithubPrefix + (owner + "/" + repo);
    RemoteOfRepository(owner, repo, "HEAD");
  }

  /** The repository the source's own rule records (`github:/<owner>`)
      gives the remote `git@github.com:/<owner>.git`: an empty organisation
      and the owner in place of the repository. */
  lemma RemoteOfAsWrittenRepository(owner: string, repo: string, rest: string)
    requires '/' !in owner
    ensures var r := RegistryAddModule.InferRepositoryAsWritten(
        RegistryAddModule.Url(RegistryAddModule.GithubHost, RegistryAddModule.RepositoryPath(owner, repo, rest)));
      r.Some? && Remote(GithubRepo([r.value])) == "git@github.com:/" + owner + ".git"
  {
    RegistryAddModule.InferRepositoryAsWrittenOfPath(owner, repo, rest);
    GithubRepoOfOne("/" + owner);
    assert RegistryAddModule.GithubPrefix + "/" + owner == RegistryAddModule.GithubPrefix + ("/" + owner);
    RemoteOfLeadingSlash(owner);
  }

  /** A name that starts with `/` has an empty organisation. */
  lemma RemoteOfLeadingSlash(owner: string)
    ensures Remote("/" + owner) == "git@github.com:/" + owner + ".git"
  {
    var s := "/" + owner;
    FindFromIs(s, '/', 0, 0);
    assert s[1..] == owner;
  }

  /** The `git_override` block appended to `MODULE.bazel`. */
  function Snippet(dep: string, commit: string, remote: string): string {
    "\ngit_override(\n    module_name = \"" + dep + "\",\n    commit = \"" + commit +
    "\",\n    remote = \"" + remote + "\",\n)\n"
  }

  datatype OverrideResult =
    | NoBuildozer
    | NoWorkspace
    | NoRegistries
    | NotFound(searched: seq<string>)
    | NotOnGithub
    | NoCommit(committish: string)
    | Appended(manifest: string)

  function ExitCode(r: OverrideResult): (code: int)
    ensures code == 0 <==> r.Appended?
  {
    if r.Appended? then 0 else 1
  }

  /** `bzlmod::git_override`: `manifest` is the text of `MODULE.bazel`. */
  function GitOverrideSpec(hasBuildozer: bool, hasManifest: FindWorkspaceDir.Path -> bool, cwd: FindWorkspaceDir.Path,
                           registries: Option<seq<string>>, dep: string, committish: Option<string>,
                           fetch: string -> Option<RegistryResolve.Metadata>, gh: seq<string> -> string,
                           manifest: string): (r: OverrideResult)
    ensures r.Appended? <==>
      hasBuildozer && FindWorkspaceDir.FindWorkspace(hasManifest, cwd).Some? && registries.Some? &&
      FoundEntry(registries.value, dep, fetch).Some? &&
      GithubRepo(FoundEntry(registries.value, dep, fetch).value.repositories) != [] &&
      FirstLine(gh(GhArgs(GithubRepo(FoundEntry(registries.value, dep, fetch).value.repositories),
                          if committish.Some? then committish.value else "HEAD"))) != []
    ensures r.NotFound? ==> registries == Some(r.searched) && RegistryResolve.Resolved(r.searched, dep, fetch).None?
    ensures r.Appended? ==>
      exists commit :: commit != [] && '\n' !in commit &&
        r.manifest == manifest + Snippet(dep, commit, Remote(GithubRepo(FoundEntry(registries.value, dep, fetch).value.repositories)))
    ensures r.Appended? ==>
      var ghRepo := GithubRepo(FoundEntry(registries.value, dep, fetch).value.repositories);
      var ref := if committish.Some? then committish.value else "HEAD";
      r.manifest == manifest + Snippet(dep, FirstLine(gh(GhArgs(ghRepo, ref))), Remote(ghRepo))
  {
    if !hasBuildozer then NoBuildozer
    else if FindWorkspaceDir.FindWorkspace(hasManifest, cwd).None? then NoWorkspace
    else if registries.None? then NoRegistries
    else match FoundEntry(registries.value, dep, fetch)
      case None => NotFound(registries.value)
      case Some(entry) =>
        var ghRepo := GithubRepo(entry.repositories);
        var ref := if committish.Some? then committish.value else "HEAD";
        if ghRepo == [] then NotOnGithub
        else
          var commit := FirstLine(gh(GhArgs(ghRepo, ref)));
          if commit == [] then NoCommit(ref)
          else Appended(manifest + Snippet(dep, commit, Remote(ghRepo)))
  }

  /** The command exits with 0 exactly when the module resolves, its
      metadata names a GitHub repository and `gh` prints a commit for the
      committish (`HEAD` when none is given). */
  lemma GitOverrideSucceeds(hasBuildozer: bool, hasManifest: FindWorkspaceDir.Path -> bool, cwd: FindWorkspaceDir.Path,
                            registries: Option<seq<string>>, dep: string, committish: Option<string>,
                            fetch: string -> Option<RegistryResolve.Metadata>, gh: seq<string> -> string,
                            manifest: string)
    ensures ExitCode(GitOverrideSpec(hasBuildozer, hasManifest, cwd, registries, dep, committish, fetch, gh, manifest)) == 0 <==>
      hasBuildozer && FindWorkspaceDir.FindWorkspace(hasManifest, cwd).Some? && registries.Some? &&
      RegistryResolve.Resolved(registries.value, dep, fetch).Some? &&
      GithubRepo(FoundEntry(registries.value, dep, fetch).value.repositories) != [] &&
      FirstLine(gh(GhArgs(GithubRepo(FoundEntry(registries.value, dep, fetch).value.repositories),
                          if committish.Some? then committish.value else "HEAD"))) != []
  {
    if registries.Some? {
      RegistryResolve.ResolvedIsFirstRegistry(registries.value, dep, fetch);
    }
  }

  /** Running the command twice appends two blocks: nothing is checked for
      an earlier override of the same module. */
  lemma GitOverrideAppendsAgain(hasManifest: FindWorkspaceDir.Path -> bool, cwd: FindWorkspaceDir.Path,
                                registries: seq<string>, dep: string, committish: Option<string>,
                                fetch: string -> Option<RegistryResolve.Metadata>, gh: seq<string> -> string,
                                manifest: string)
    requires GitOverrideSpec(true, hasManifest, cwd, Some(registries), dep, committish, fetch, gh, manifest).Appended?
    ensures var once := GitOverrideSpec(true, hasManifest, cwd, Some(registries), dep, committish, fetch, gh, manifest).manifest;
      var twice := GitOverrideSpec(true, hasManifest, cwd, Some(registries), dep, committish, fetch, gh, once);
      twice.Appended? && |twice.manifest| == 2 * |once| - |manifest| && StartsWith(twice.manifest, once)
  {
  }

  /** `bzlmod::git_override`, step by step. */
  method GitOverride(hasBuildozer: bool, hasManifest: FindWorkspaceDir.Path -> bool, cwd: FindWorkspaceDir.Path,
                     registries: Option<seq<string>>, dep: string, committish: Option<string>,
                     fetch: string -> Option<RegistryResolve.Metadata>, gh: seq<string> -> string,
                     manifest: string)
    returns (r: OverrideResult, code: int)
    ensures r == GitOverrideSpec(hasBuildozer, hasManifest, cwd, registries, dep, committish, fetch, gh, manifest)
    ensures code == ExitCode(r)
  {
    if !hasBuildozer {
      return NoBuildozer, 1;
    }
    var workspaceDir := FindWorkspaceDir.FindWorkspace(hasManifest, cwd);
    if workspaceDir.None? {
      return NoWorkspace, 1;
    }
    if registries.None? {
      return NoRegistries, 1;
    }
    var entries := FillEntries(registries.value, dep, fetch);
    var foundEntry := SelectEntry(registries.value, dep, fetch, entries);
    if foundEntry.None? {
      return NotFound(registries.value), 1;
    }
    var ghRepo := FindGithubRepo(foundEntry.value.repositories);
    if ghRepo == [] {
      return NotOnGithub, 1;
    }
    var remote := Remote(ghRepo);
    var ref := if committish.Some? then committish.value else "HEAD";
    var commit := FirstLine(gh(GhArgs(ghRepo, ref)));
    if commit == [] {
      return NoCommit(ref), 1;
    }
    r := Appended(manifest + Snippet(dep, commit, remote));
    code := 0;
  }
}
