/**
 * `bzlmod patch <module>` (bzlmod/patch_module.cc): find the version of the
 * module in `MODULE.bazel`, fetch its `source.json` from the first registry
 * that has one, locate the copy of the module Bazel extracted (and the user
 * edited) under `<output_base>/external`, write a patch between the two and
 * add a `single_version_override` that applies it, unless one seems to be
 * there already.
 *
 * The programs it runs (buildozer, bazel, patch, git, diff) and the
 * downloads are parameters; the download, extraction and patching of the
 * original source and the generated diff are summarised by whether they
 * succeeded.
 */
module BzlmodPatchModule {
  import opened Common
  import FindWorkspaceDir
  import Integrity

  // ---------------------------------------------------------------------
  // Captured output

  predicate IsLineEnd(c: char) {
    c == '\r' || c == '\n'
  }

  /** The text without its trailing `\r` and `\n` characters. */
  function TrimmedEnd(s: string): (r: string)
    ensures StartsWith(s, r)
    ensures r == [] || !IsLineEnd(r[|r| - 1])
    ensures forall k :: |r| <= k < |s| ==> IsLineEnd(s[k])
  {
    if s != [] && IsLineEnd(s[|s| - 1]) then TrimmedEnd(s[..|s| - 1]) else s
  }

  /** Trimming twice trims nothing more. */
  lemma TrimmedEndIdempotent(s: string)
    ensures TrimmedEnd(TrimmedEnd(s)) == TrimmedEnd(s)
  {
  }

  /** Only line ends are trimmed: a text with some other last character
      keeps it, and anything in front of the line ends stays. */
  lemma {:induction false} TrimmedEndOf(s: string, ends: string)
    requires s == [] || !IsLineEnd(s[|s| - 1])
    requires forall k :: 0 <= k < |ends| ==> IsLineEnd(ends[k])
    ensures TrimmedEnd(s + ends) == s
  {
    if ends != [] {
      assert (s + ends)[..|s + ends| - 1] == s + ends[..|ends| - 1];
      TrimmedEndOf(s, ends[..|ends| - 1]);
    } else {
      assert s + ends == s;
    }
  }

  /** The `pop_back` loop. */
  method TrimLineEnd(s: string) returns (r: string)
    ensures r == TrimmedEnd(s)
  {
    r := s;
    while r != [] && (r[|r| - 1] == '\r' || r[|r| - 1] == '\n')
      invariant TrimmedEnd(r) == TrimmedEnd(s)
      decreases |r|
    {
      r := r[..|r| - 1];
    }
  }

  /** `get_bazel_info`: the first line bazel prints for `bazel info <key>`,
      without its line end. */
  function BazelInfo(bazel: seq<string> -> string, key: string): string {
    TrimmedEnd(FirstLine(bazel(["info", key])))
  }

  /** What buildozer prints for a `bazel_dep` without a version. */
  const MissingVersion := "(missing)"

  /** The arguments of `buildozer print version //MODULE.bazel:<name>`. */
  function PrintVersionArgs(name: string): seq<string> {
    ["print version", "//MODULE.bazel:" + name]
  }

  /** `get_module_version`: the version buildozer prints, with `(missing)`
      read as no version. */
  function ModuleVersion(buildozer: seq<string> -> string, name: string): (v: string)
    ensures v != MissingVersion
    ensures v == [] || v == TrimmedEnd(FirstLine(buildozer(PrintVersionArgs(name))))
    ensures v == [] <==> TrimmedEnd(FirstLine(buildozer(PrintVersionArgs(name)))) in {[], MissingVersion}
  {
    var result := TrimmedEnd(FirstLine(buildozer(PrintVersionArgs(name))));
    if result == MissingVersion then [] else result
  }

  /** `get_module_version`, step by step. */
  method GetModuleVersion(buildozer: seq<string> -> string, name: string) returns (v: string)
    ensures v == ModuleVersion(buildozer, name)
  {
    var result := FirstLine(buildozer(PrintVersionArgs(name)));
    result := TrimLineEnd(result);
    if result == MissingVersion {
      return [];
    }
    v := result;
  }

  // ---------------------------------------------------------------------
  // source.json

  /** `<registry>/modules/<name>/<version>/source.json` */
  function SourceUrl(registry: string, name: string, version: string): string {
    registry + "/modules/" + name + "/" + version + "/source.json"
  }

  datatype SourceInfo = SourceInfo(config: Integrity.SourceConfig, registry: string)

  /** The source config of the first registry, in order, whose
      `source.json` downloads, together with that registry. */
  function FirstSource(registries: seq<string>, name: string, version: string,
                       download: string -> Option<Integrity.SourceConfig>): (r: Option<SourceInfo>)
    ensures r.None? <==> forall i :: 0 <= i < |registries| ==> download(SourceUrl(registries[i], name, version)).None?
  {
    if registries == [] then None
    else match download(SourceUrl(registries[0], name, version))
      case Some(config) => Some(SourceInfo(config, registries[0]))
      case None =>
        assert forall i :: 1 <= i < |registries| ==> registries[i] == registries[1..][i - 1];
        FirstSource(registries[1..], name, version, download)
  }

  /** The registry the config comes from is the first one whose download
      succeeds, and the config is what it served. */
  lemma {:induction false} FirstSourceIsFirstRegistry(registries: seq<string>, name: string, version: string,
                                                      download: string -> Option<Integrity.SourceConfig>, i: nat)
    requires i < |registries| && download(SourceUrl(registries[i], name, version)).Some?
    requires forall j :: 0 <= j < i ==> download(SourceUrl(registries[j], name, version)).None?
    ensures FirstSource(registries, name, version, download) ==
      Some(SourceInfo(download(SourceUrl(registries[i], name, version)).value, registries[i]))
  {
    if i > 0 {
      FirstSourceIsFirstRegistry(registries[1..], name, version, download, i - 1);
    }
  }

  /** `download_source_info`: the loop over the registries with an early return. */
  method DownloadSourceInfo(registries: seq<string>, name: string, version: string,
                            download: string -> Option<Integrity.SourceConfig>)
    returns (r: Option<SourceInfo>)
    ensures r == FirstSource(registries, name, version, download)
  {
    for i := 0 to |registries|
      invariant FirstSource(registries, name, version, download) == FirstSource(registries[i..], name, version, download)
    {
      assert registries[i..][0] == registries[i] && registries[i..][1..] == registries[i + 1..];
      var data := download(SourceUrl(registries[i], name, version));
      if data.Some? {
        return Some(SourceInfo(data.value, registries[i]));
      }
    }
    return None;
  }

  // ---------------------------------------------------------------------
  // The archive's directories

  /** An entry of the archive whose name ends in `/` is a directory. */
  predicate IsDirectoryEntry(name: string) {
    EndsWith(name, "/")
  }

  /** One entry of the decompressed archive, as the tar view yields it. */
  datatype TarEntry = TarEntry(name: string, contents: seq<byte>)

  /** The files `extract_archive_to` leaves under `outDir`: each entry that
      is not a directory is written to `outDir / name`, a later entry with
      the same name overwriting an earlier one. */
  function ExtractedFiles(outDir: string, entries: seq<TarEntry>): map<string, seq<byte>> {
    if entries == [] then map[]
    else
      var files := ExtractedFiles(outDir, entries[..|entries| - 1]);
      var e := entries[|entries| - 1];
      if IsDirectoryEntry(e.name) then files else files[PathJoin(outDir, e.name) := e.contents]
  }

  /** Entry `e` is a file written to `p` with `contents`. */
  predicate WrittenBy(outDir: string, e: TarEntry, p: string, contents: seq<byte>) {
    !IsDirectoryEntry(e.name) && PathJoin(outDir, e.name) == p && e.contents == contents
  }

  /** Every extracted file comes from an entry that is not a directory and
      holds that entry's contents. */
  lemma {:induction false} ExtractedFilesFromEntries(outDir: string, entries: seq<TarEntry>, p: string)
    requires p in ExtractedFiles(outDir, entries)
    ensures exists k :: 0 <= k < |entries| && WrittenBy(outDir, entries[k], p, ExtractedFiles(outDir, entries)[p])
  {
    var init := entries[..|entries| - 1];
    var e := entries[|entries| - 1];
    if !IsDirectoryEntry(e.name) && PathJoin(outDir, e.name) == p {
      assert WrittenBy(outDir, entries[|entries| - 1], p, ExtractedFiles(outDir, entries)[p]);
    } else {
      ExtractedFilesFromEntries(outDir, init, p);
      var k :| 0 <= k < |init| && WrittenBy(outDir, init[k], p, ExtractedFiles(outDir, init)[p]);
      assert entries[k] == init[k];
    }
  }

  /** A file entry that no later file entry overwrites is extracted with
      its contents. */
  lemma {:induction false} ExtractedLastWins(outDir: string, entries: seq<TarEntry>, k: nat)
    requires k < |entries| && !IsDirectoryEntry(entries[k].name)
    requires forall j :: k < j < |entries| ==>
      IsDirectoryEntry(entries[j].name) || PathJoin(outDir, entries[j].name) != PathJoin(outDir, entries[k].name)
    ensures var files := ExtractedFiles(outDir, entries);
      PathJoin(outDir, entries[k].name) in files && files[PathJoin(outDir, entries[k].name)] == entries[k].contents
  {
    if k < |entries| - 1 {
      var init := entries[..|entries| - 1];
      assert init[k] == entries[k];
      ExtractedLastWins(outDir, init, k);
    }
  }

  /** The loop of `extract_archive_to`. */
  method ExtractArchiveTo(outDir: string, entries: seq<TarEntry>) returns (files: map<string, seq<byte>>)
    ensures files == ExtractedFiles(outDir, entries)
  {
    files := map[];
    for i := 0 to |entries|
      invariant files == ExtractedFiles(outDir, entries[..i])
    {
      assert entries[..i + 1][..i] == entries[..i];
      var file := entries[i];
      var path := PathJoin(outDir, file.name);
      if EndsWith(file.name, "/") {
        continue;
      }
      files := files[path := file.contents];
    }
    assert entries[..|entries|] == entries;
  }

  // ---------------------------------------------------------------------
  // The edited copy under `<output_base>/external`

  /** `std::filesystem::path::operator/` on POSIX paths: an absolute `b`
      replaces `a`; a relative `b` comes after `a` and one separator (`b`
      alone when `a` is empty). */
  function PathJoin(a: string, b: string): (p: string)
    ensures EndsWith(p, b)
    ensures StartsWith(b, "/") ==> p == b
    ensures !StartsWith(b, "/") ==> StartsWith(p, a)
  {
    if StartsWith(b, "/") then b
    else if a == [] then b
    else if EndsWith(a, "/") then a + b
    else a + "/" + b
  }

  /** A file entry whose name is absolute is written at that name, outside
      the output directory. */
  lemma AbsoluteEntryEscapes(outDir: string, entries: seq<TarEntry>, k: nat)
    requires k < |entries| && !IsDirectoryEntry(entries[k].name) && StartsWith(entries[k].name, "/")
    requires forall j :: k < j < |entries| ==>
      IsDirectoryEntry(entries[j].name) || PathJoin(outDir, entries[j].name) != entries[k].name
    ensures entries[k].name in ExtractedFiles(outDir, entries)
    ensures ExtractedFiles(outDir, entries)[entries[k].name] == entries[k].contents
  {
    ExtractedLastWins(outDir, entries, k);
  }

  /** The directories tried in turn: `<name>~<version>`, `<name>+<version>`
      (Bazel 7 and later), `<name>+` and `<name>~`, all under `external`
      for a module name that is not an absolute path. */
  function Candidates(external: string, name: string, version: string): (cs: seq<string>)
    ensures |cs| == 4
    ensures EndsWith(cs[0], name + "~" + version) && EndsWith(cs[1], name + "+" + version)
    ensures EndsWith(cs[2], name + "+") && EndsWith(cs[3], name + "~")
    ensures !StartsWith(name, "/") ==> forall i :: 0 <= i < 4 ==> StartsWith(cs[i], external)
  {
    var dirs := [name + "~" + version, name + "+" + version, name + "+", name + "~"];
    assert dirs[0] == name + ("~" + version) && dirs[1] == name + ("+" + version);
    SlashHead(name, "~" + version);
    SlashHead(name, "+" + version);
    SlashHead(name, "+");
    SlashHead(name, "~");
    [PathJoin(external, dirs[0]), PathJoin(external, dirs[1]), PathJoin(external, dirs[2]), PathJoin(external, dirs[3])]
  }

  /** Appending text that does not start with `/` keeps a path relative. */
  lemma SlashHead(s: string, t: string)
    requires t != [] && t[0] != '/'
    ensures StartsWith(s + t, "/") <==> StartsWith(s, "/")
  {
    if s != [] {
      assert (s + t)[0] == s[0];
    } else {
      assert s + t == t;
    }
  }

  /** Index of the first path that exists. */
  function FirstExisting(paths: seq<string>, exists_: string -> bool): (r: Option<nat>)
    ensures r.Some? ==> r.value < |paths| && exists_(paths[r.value])
    ensures r.Some? ==> forall j :: 0 <= j < r.value ==> !exists_(paths[j])
    ensures r.None? ==> forall j :: 0 <= j < |paths| ==> !exists_(paths[j])
  {
    if paths == [] then None
    else if exists_(paths[0]) then Some(0)
    else match FirstExisting(paths[1..], exists_)
      case Some(i) => Some(i + 1)
      case None => None
  }

  /** One entry of `<output_base>/external`. */
  datatype DirEntry = DirEntry(name: string, isDirectory: bool)

  /** A directory named after the module, with either separator. */
  predicate NamedAfter(e: DirEntry, name: string) {
    e.isDirectory && (StartsWith(e.name, name + "~") || StartsWith(e.name, name + "+"))
  }

  /** Index of the first entry, in directory order, named after the module. */
  function FirstNamedAfter(entries: seq<DirEntry>, name: string): (r: Option<nat>)
    ensures r.Some? ==> r.value < |entries| && NamedAfter(entries[r.value], name)
    ensures r.Some? ==> forall j :: 0 <= j < r.value ==> !NamedAfter(entries[j], name)
    ensures r.None? ==> forall j :: 0 <= j < |entries| ==> !NamedAfter(entries[j], name)
  {
    if entries == [] then None
    else if NamedAfter(entries[0], name) then Some(0)
    else match FirstNamedAfter(entries[1..], name)
      case Some(i) => Some(i + 1)
      case None => None
  }

  /** The last path tried: a candidate that exists, else the directory the
      scan finds (when `external` exists), else `<name>~`. */
  function LastTried(external: string, name: string, version: string, exists_: string -> bool,
                     entries: seq<DirEntry>): string
  {
    var cs := Candidates(external, name, version);
    match FirstExisting(cs, exists_)
    case Some(i) => cs[i]
    case None =>
      if exists_(external) && FirstNamedAfter(entries, name).Some? then
        PathJoin(external, entries[FirstNamedAfter(entries, name).value].name)
      else cs[3]
  }

  /** The edited copy, when the last path tried exists. */
  function EditedDir(external: string, name: string, version: string, exists_: string -> bool,
                     entries: seq<DirEntry>): (r: Option<string>)
    ensures r.Some? ==> exists_(r.value)
  {
    var dir := LastTried(external, name, version, exists_, entries);
    if exists_(dir) then Some(dir) else None
  }

  /** The first candidate that exists wins, whatever the directory holds. */
  lemma EditedDirPrefersCandidates(external: string, name: string, version: string, exists_: string -> bool,
                                   entries: seq<DirEntry>, k: nat)
    requires k < 4 && exists_(Candidates(external, name, version)[k])
    requires forall j :: 0 <= j < k ==> !exists_(Candidates(external, name, version)[j])
    ensures EditedDir(external, name, version, exists_, entries) == Some(Candidates(external, name, version)[k])
  {
    var r := FirstExisting(Candidates(external, name, version), exists_);
  }

  /** With no candidate, the first directory named after the module is
      taken, and only when it exists. */
  lemma EditedDirFallsBackToScan(external: string, name: string, version: string, exists_: string -> bool,
                                 entries: seq<DirEntry>, k: nat)
    requires forall j :: 0 <= j < 4 ==> !exists_(Candidates(external, name, version)[j])
    requires exists_(external)
    requires k < |entries| && NamedAfter(entries[k], name)
    requires forall j :: 0 <= j < k ==> !NamedAfter(entries[j], name)
    ensures var dir := PathJoin(external, entries[k].name);
      EditedDir(external, name, version, exists_, entries) == if exists_(dir) then Some(dir) else None
  {
    var f := FirstNamedAfter(entries, name);
  }

  /** The tries of `patch_module`, in order, then the directory scan with
      `break`. */
  method FindEditedDir(external: string, name: string, version: string, exists_: string -> bool,
                       entries: seq<DirEntry>)
    returns (dir: string, found: bool)
    ensures dir == LastTried(external, name, version, exists_, entries)
    ensures found <==> EditedDir(external, name, version, exists_, entries).Some?
  {
    dir := TryCandidates(Candidates(external, name, version), exists_);
    if !exists_(dir) && exists_(external) {
      var hit := ScanExternal(entries, name);
      if hit.Some? {
        dir := PathJoin(external, entries[hit.value].name);
      }
    }
    found := exists_(dir);
  }

  /** The tries of the four candidates in turn. */
  method TryCandidates(cs: seq<string>, exists_: string -> bool) returns (dir: string)
    requires |cs| == 4
    ensures exists_(dir) <==> FirstExisting(cs, exists_).Some?
    ensures FirstExisting(cs, exists_).Some? ==> dir == cs[FirstExisting(cs, exists_).value]
    ensures FirstExisting(cs, exists_).None? ==> dir == cs[3]
  {
    dir := cs[0];
    if !exists_(dir) {
      dir := cs[1];
    }
    if !exists_(dir) {
      dir := cs[2];
    }
    if !exists_(dir) {
      dir := cs[3];
    }
    if exists_(dir) {
      FirstExistingOfCandidates(cs, exists_, dir);
    } else {
      assert forall j :: 0 <= j < 4 ==> !exists_(cs[j]);
    }
  }

  /** The scan of `<output_base>/external` with `break`. */
  method ScanExternal(entries: seq<DirEntry>, name: string) returns (hit: Option<nat>)
    ensures hit == FirstNamedAfter(entries, name)
  {
    var i := 0;
    while i < |entries|
      invariant 0 <= i <= |entries|
      invariant forall j :: 0 <= j < i ==> !NamedAfter(entries[j], name)
    {
      var e := entries[i];
      if e.isDirectory && (StartsWith(e.name, name + "~") || StartsWith(e.name, name + "+")) {
        FirstNamedAfterIs(entries, name, i);
        return Some(i);
      }
      i := i + 1;
    }
    return None;
  }

  lemma {:induction false} FirstNamedAfterIs(entries: seq<DirEntry>, name: string, i: nat)
    requires i < |entries| && NamedAfter(entries[i], name)
    requires forall j :: 0 <= j < i ==> !NamedAfter(entries[j], name)
    ensures FirstNamedAfter(entries, name) == Some(i)
  {
    if i > 0 {
      FirstNamedAfterIs(entries[1..], name, i - 1);
    }
  }

  /** The if-chain over the four candidates stops at the first that exists. */
  lemma FirstExistingOfCandidates(cs: seq<string>, exists_: string -> bool, dir: string)
    requires |cs| == 4 && exists_(dir)
    requires dir == (if exists_(cs[0]) then cs[0] else if exists_(cs[1]) then cs[1]
                     else if exists_(cs[2]) then cs[2] else cs[3])
    ensures FirstExisting(cs, exists_).Some? && cs[FirstExisting(cs, exists_).value] == dir
  {
    assert cs[1..][1..][1..][1..] == [];
  }

  // ---------------------------------------------------------------------
  // MODULE.bazel

  /** `<name>+<version>.patch` */
  function PatchName(name: string, version: string): string {
    name + "+" + version + ".patch"
  }

  /** `module_name = "<name>"` */
  function ModuleNameAttr(name: string): string {
    "module_name = \"" + name + "\""
  }

  const OverrideRule := "single_version_override"

  /** An override counts as present when the file mentions both the
      module's `module_name` and `single_version_override`, anywhere. */
  predicate AlreadyHasOverride(content: string, name: string) {
    Contains(content, ModuleNameAttr(name)) && Contains(content, OverrideRule)
  }

  const OverrideHead := "\n" + OverrideRule + "(\n    "

  /** The block appended to `MODULE.bazel`. */
  function OverrideSnippet(name: string, version: string): string {
    OverrideHead + ModuleNameAttr(name) + OverrideTail(name, version)
  }

  function OverrideTail(name: string, version: string): string {
    ",\n    version = \"" + version + "\",\n    patches = [\"//:patches/" + PatchName(name, version) +
    "\"],\n    patch_strip = 1,\n)\n"
  }

  /** An occurrence stays where it is when text is appended. */
  lemma OccursBefore<T>(a: seq<T>, b: seq<T>, t: seq<T>, i: nat)
    requires OccursAt(a, t, i)
    ensures OccursAt(a + b, t, i)
  {
    assert (a + b)[i..i + |t|] == a[i..i + |t|];
  }

  /** An occurrence moves along by the length of what is put in front. */
  lemma OccursAfter<T>(a: seq<T>, b: seq<T>, t: seq<T>, i: nat)
    requires OccursAt(b, t, i)
    ensures OccursAt(a + b, t, |a| + i)
  {
    assert (a + b)[|a| + i..|a| + i + |t|] == b[i..i + |t|];
  }

  /** The block names both the rule and the module. */
  lemma OverrideSnippetMentions(name: string, version: string)
    ensures Contains(OverrideSnippet(name, version), OverrideRule)
    ensures Contains(OverrideSnippet(name, version), ModuleNameAttr(name))
  {
    var attr := ModuleNameAttr(name);
    var tail := OverrideTail(name, version);
    assert OverrideHead == "\n" + OverrideRule + "(\n    ";
    OccursAfter("\n", OverrideRule, OverrideRule, 0);
    OccursBefore("\n" + OverrideRule, "(\n    ", OverrideRule, 1);
    OccursBefore(OverrideHead, attr, OverrideRule, 1);
    OccursBefore(OverrideHead + attr, tail, OverrideRule, 1);
    ContainsAt(OverrideSnippet(name, version), OverrideRule, 1);
    OccursAfter(OverrideHead, attr, attr, 0);
    OccursBefore(OverrideHead + attr, tail, attr, |OverrideHead|);
    ContainsAt(OverrideSnippet(name, version), attr, |OverrideHead|);
  }

  /** `MODULE.bazel` after the update: unchanged when an override seems to
      be there, the override block appended otherwise. */
  function UpdatedManifest(content: string, name: string, version: string): string {
    if AlreadyHasOverride(content, name) then content else content + OverrideSnippet(name, version)
  }

  /** After the update the file has an override, so running the command
      again leaves the file as it is. */
  lemma UpdatedManifestIdempotent(content: string, name: string, version: string, version': string)
    ensures AlreadyHasOverride(UpdatedManifest(content, name, version), name)
    ensures var once := UpdatedManifest(content, name, version);
      UpdatedManifest(once, name, version') == once
  {
    if !AlreadyHasOverride(content, name) {
      var snippet := OverrideSnippet(name, version);
      OverrideSnippetMentions(name, version);
      ContainsAfter(content, snippet, OverrideRule);
      ContainsAfter(content, snippet, ModuleNameAttr(name));
    }
  }

  /** The check reads the whole file: the module's `module_name` line
      anywhere before a `single_version_override` anywhere counts, whatever
      lies around and between them (another rule such as a `git_override`
      for this module, and another module's override). */
  lemma AlreadyHasOverrideAcrossBlocks(name: string, before: string, between: string, after: string)
    ensures AlreadyHasOverride(before + ModuleNameAttr(name) + between + OverrideRule + after, name)
  {
    var n, r := ModuleNameAttr(name), OverrideRule;
    assert n[0..|n|] == n && r[0..|r|] == r;
    OccursAfter(before, n, n, 0);
    OccursBefore(before + n, between, n, |before|);
    OccursBefore(before + n + between, r, n, |before|);
    OccursBefore(before + n + between + r, after, n, |before|);
    ContainsAt(before + n + between + r + after, n, |before|);
    OccursAfter(before + n + between, r, r, 0);
    OccursBefore(before + n + between + r, after, r, |before + n + between|);
    ContainsAt(before + n + between + r + after, r, |before + n + between|);
  }

  // ---------------------------------------------------------------------
  // The command

  datatype PatchResult =
    | MissingTools
    | NoWorkspace
    | NoVersion
    | NoRegistries
    | NoSourceInfo(version: string)
    | SourceFailed                // download, extraction, patches or overlays
    | NoEditedDir(lastTried: string)
    | NoDiffTool
    | Patched(patchName: string, manifest: string, warned: bool)

  function ExitCode(r: PatchResult): (code: int)
    ensures code == 0 <==> r.Patched?
  {
    if r.Patched? then 0 else 1
  }

  /** `bzlmod::patch_module`. `sourceReady` says whether the archive, the
      existing patches and the overlay files all downloaded and applied;
      `hasDiffTool` whether `git` or `diff` is on the path. */
  function PatchModuleSpec(hasBuildozer: bool, hasBazel: bool, hasManifest: FindWorkspaceDir.Path -> bool,
                           cwd: FindWorkspaceDir.Path, name: string,
                           buildozer: seq<string> -> string, registries: Option<seq<string>>,
                           download: string -> Option<Integrity.SourceConfig>, sourceReady: bool,
                           bazel: seq<string> -> string, exists_: string -> bool, entries: seq<DirEntry>,
                           hasDiffTool: bool, manifest: string): (r: PatchResult)
    ensures r.Patched? ==>
      registries.Some? && FirstSource(registries.value, name, ModuleVersion(buildozer, name), download).Some? &&
      r.patchName == PatchName(name, ModuleVersion(buildozer, name)) &&
      r.manifest == UpdatedManifest(manifest, name, ModuleVersion(buildozer, name)) &&
      r.warned == AlreadyHasOverride(manifest, name) &&
      AlreadyHasOverride(r.manifest, name)
    ensures r.NoEditedDir? ==>
      r.lastTried == LastTried(PathJoin(BazelInfo(bazel, "output_base"), "external"), name,
                               ModuleVersion(buildozer, name), exists_, entries)
  {
    if !hasBuildozer || !hasBazel then MissingTools
    else if FindWorkspaceDir.FindWorkspace(hasManifest, cwd).None? then NoWorkspace
    else
      var version := ModuleVersion(buildozer, name);
      if version == [] then NoVersion
      else if registries.None? then NoRegistries
      else if FirstSource(registries.value, name, version, download).None? then NoSourceInfo(version)
      else if !sourceReady then SourceFailed
      else
        var external := PathJoin(BazelInfo(bazel, "output_base"), "external");
        if EditedDir(external, name, version, exists_, entries).None? then
          NoEditedDir(LastTried(external, name, version, exists_, entries))
        else if !hasDiffTool then NoDiffTool
        else
          UpdatedManifestIdempotent(manifest, name, version, version);
          Patched(PatchName(name, version), UpdatedManifest(manifest, name, version), AlreadyHasOverride(manifest, name))
  }

  /** The command exits with 0 exactly when every step succeeds: the
      tools are there, the workspace is found, buildozer reports a version,
      some registry has its `source.json`, the source is prepared, the
      edited copy exists and a diff tool is at hand. */
  lemma PatchModuleSucceeds(hasBuildozer: bool, hasBazel: bool, hasManifest: FindWorkspaceDir.Path -> bool,
                            cwd: FindWorkspaceDir.Path, name: string,
                            buildozer: seq<string> -> string, registries: Option<seq<string>>,
                            download: string -> Option<Integrity.SourceConfig>, sourceReady: bool,
                            bazel: seq<string> -> string, exists_: string -> bool, entries: seq<DirEntry>,
                            hasDiffTool: bool, manifest: string)
    ensures var version := ModuleVersion(buildozer, name);
      ExitCode(PatchModuleSpec(hasBuildozer, hasBazel, hasManifest, cwd, name, buildozer, registries, download,
                               sourceReady, bazel, exists_, entries, hasDiffTool, manifest)) == 0 <==>
        hasBuildozer && hasBazel && FindWorkspaceDir.FindWorkspace(hasManifest, cwd).Some? && version != [] &&
        registries.Some? && FirstSource(registries.value, name, version, download).Some? && sourceReady &&
        EditedDir(PathJoin(BazelInfo(bazel, "output_base"), "external"), name, version, exists_, entries).Some? &&
        hasDiffTool
  {
  }

  /** `bzlmod::patch_module`, step by step. */
  method PatchModule(hasBuildozer: bool, hasBazel: bool, hasManifest: FindWorkspaceDir.Path -> bool,
                     cwd: FindWorkspaceDir.Path, name: string,
                     buildozer: seq<string> -> string, registries: Option<seq<string>>,
                     download: string -> Option<Integrity.SourceConfig>, sourceReady: bool,
                     bazel: seq<string> -> string, exists_: string -> bool, entries: seq<DirEntry>,
                     hasDiffTool: bool, manifest: string)
    returns (r: PatchResult, code: int)
    ensures r == PatchModuleSpec(hasBuildozer, hasBazel, hasManifest, cwd, name, buildozer, registries, download,
                                 sourceReady, bazel, exists_, entries, hasDiffTool, manifest)
    ensures code == ExitCode(r)
  {
    if !hasBuildozer || !hasBazel {
      return MissingTools, 1;
    }
    var workspaceDir := FindWorkspaceDir.FindWorkspace(hasManifest, cwd);
    if workspaceDir.None? {
      return NoWorkspace, 1;
    }
    var version := GetModuleVersion(buildozer, name);
    if version == [] {
      return NoVersion, 1;
    }
    if registries.None? {
      return NoRegistries, 1;
    }
    var info := DownloadSourceInfo(registries.value, name, version, download);
    if info.None? {
      return NoSourceInfo(version), 1;
    }
    if !sourceReady {
      return SourceFailed, 1;
    }
    var outputBase := FirstLine(bazel(["info", "output_base"]));
    outputBase := TrimLineEnd(outputBase);
    var external := PathJoin(outputBase, "external");
    var editedDir, found := FindEditedDir(external, name, version, exists_, entries);
    if !found {
      return NoEditedDir(editedDir), 1;
    }
    var patchName := PatchName(name, version);
    if !hasDiffTool {
      return NoDiffTool, 1;
    }
    var alreadyHasOverride := false;
    if Contains(manifest, ModuleNameAttr(name)) && Contains(manifest, OverrideRule) {
      alreadyHasOverride := true;
    }
    var content := manifest;
    if !alreadyHasOverride {
      content := content + OverrideSnippet(name, version);
    }
    r := Patched(patchName, content, alreadyHasOverride);
    code := 0;
  }
}
