/**
 * `bzlreg bazel-exec` (bzlreg/bazel_exec.cc): check the label, find the
 * module's newest version in the registry, refresh its integrity, then run
 * Bazel in a scratch workspace whose `MODULE.bazel` depends on that version
 * and whose `.bazelrc` lists the local registry before the central one.
 * Files the registry holds, the integrity step and Bazel's exit code are
 * parameters.
 */
module BazelExec {
  import opened Common
  import ModuleBazel
  import GetRegistries

  /** `get_module_from_label`: the text after the leading `@` up to the first `/`. */
  function ModuleFromLabel(lbl: string): (name: string)
    requires lbl != []
    ensures '/' !in name && StartsWith(lbl[1..], name)
    ensures |name| < |lbl| - 1 ==> lbl[1 + |name|] == '/'
  {
    var rest := lbl[1..];
    match Find(rest, '/')
    case Some(i) => rest[..i]
    case None => rest
  }

  /** The module of `@name//target` and of `@name` is `name`. */
  lemma ModuleFromLabelOf(name: string, path: string)
    requires '/' !in name
    ensures ModuleFromLabel("@" + name + "/" + path) == name
    ensures ModuleFromLabel("@" + name) == name
  {
    var lbl := "@" + name + "/" + path;
    assert lbl[1..] == name + "/" + path;
    FindFromIs(lbl[1..], '/', 0, |name|);
    assert ("@" + name)[1..] == name;
  }

  /** The lines written to the scratch `.bazelrc`. */
  function BazelrcLines(registryPath: string): seq<string> {
    ["common --enable_bzlmod",
     "common " + GetRegistries.RegistryFlag + ("file://" + registryPath),
     "common " + GetRegistries.RegistryFlag + GetRegistries.BazelCentralRegistry]
  }

  /** The outcome of `bazel_exec`: an early exit code, the exception `.at`
      throws on an empty version list, or the files written and Bazel's
      exit code. */
  datatype Exec = Failed(code: int) | Threw | Ran(moduleFile: string, bazelrc: seq<string>, code: int)

  /** `bazel_exec`. `versionsOf` holds the `versions` of every module whose
      `metadata.json` exists; `integrity` is the exit code of the integrity
      refresh for a module; `registryPath` is the absolute registry path. */
  function BazelExec(lbl: string, hasRegistryJson: bool, versionsOf: map<string, seq<string>>,
                     integrity: string -> int, registryPath: string, bazel: int): (r: Exec)
    ensures !StartsWith(lbl, "@") ==> r == Failed(1)
    ensures r.Ran? || r.Threw? ==> StartsWith(lbl, "@") && hasRegistryJson && ModuleFromLabel(lbl) in versionsOf
    ensures r.Threw? <==> StartsWith(lbl, "@") && hasRegistryJson && ModuleFromLabel(lbl) in versionsOf
                          && versionsOf[ModuleFromLabel(lbl)] == []
    ensures r.Ran? ==> integrity(ModuleFromLabel(lbl)) == 0 && r.code == bazel
    ensures r.Failed? && r.code != 1 ==> r.code == integrity(ModuleFromLabel(lbl))
  {
    if !StartsWith(lbl, "@") then Failed(1)
    else
      var name := ModuleFromLabel(lbl);
      if !hasRegistryJson then Failed(1)
      else if name !in versionsOf then Failed(1)
      else
        var versions := versionsOf[name];
        if versions == [] then Threw
        else
          var version := versions[|versions| - 1];
          var code := integrity(name);
          if code != 0 then Failed(code)
          else Ran(ModuleBazel.DepLine(ModuleBazel.BazelDep(name, version)), BazelrcLines(registryPath), bazel)
  }

  /** The scratch `MODULE.bazel` depends on exactly the module of the label
      at the last version of its `versions` list. */
  lemma ExecDependsOnLastVersion(lbl: string, hasRegistryJson: bool, versionsOf: map<string, seq<string>>,
                                 integrity: string -> int, registryPath: string, bazel: int)
    requires BazelExec(lbl, hasRegistryJson, versionsOf, integrity, registryPath, bazel).Ran?
    requires ModuleBazel.Quotable(ModuleFromLabel(lbl))
    requires var vs := versionsOf[ModuleFromLabel(lbl)]; ModuleBazel.Quotable(vs[|vs| - 1])
    ensures var r := BazelExec(lbl, hasRegistryJson, versionsOf, integrity, registryPath, bazel);
      var name := ModuleFromLabel(lbl);
      var vs := versionsOf[name];
      ModuleBazel.DepsFrom(r.moduleFile) == [ModuleBazel.BazelDep(name, vs[|vs| - 1])]
  {
    var name := ModuleFromLabel(lbl);
    var vs := versionsOf[name];
    ModuleBazel.DepsFromDepLine(ModuleBazel.BazelDep(name, vs[|vs| - 1]));
  }

  lemma EnableLineNamesNoRegistry()
    ensures !Contains("common --enable_bzlmod", GetRegistries.RegistryFlag)
  {
    var line, flag := "common --enable_bzlmod", GetRegistries.RegistryFlag;
    assert |line| == 22 && |flag| == 11;
    forall j: nat | j + 11 <= 22 ensures !OccursAt(line, flag, j) {
      if j == 7 {
        NotOccursAt(line, flag, j, 2);
      } else if j == 8 {
        NotOccursAt(line, flag, j, 1);
      } else {
        NotOccursAt(line, flag, j, 0);
      }
    }
  }

  lemma KindsOfThree(a: string, b: string, c: string)
    ensures GetRegistries.Kinds([a, b, c]) ==
      [GetRegistries.Classify(a), GetRegistries.Classify(b), GetRegistries.Classify(c)]
  {
    var ks := GetRegistries.Kinds([a, b, c]);
    assert ks[0] == GetRegistries.Classify(a);
    assert ks[1] == GetRegistries.Classify(b);
    assert ks[2] == GetRegistries.Classify(c);
  }

  /** The registry line for a URL. */
  lemma RegistryLine(url: string)
    requires url != [] && !IsAsciiSpace(url[|url| - 1]) && !Contains(url, GetRegistries.RegistryFlag)
    ensures GetRegistries.Classify("common " + GetRegistries.RegistryFlag + url) == GetRegistries.Registry(url)
  {
    var line := "common " + GetRegistries.RegistryFlag + url;
    GetRegistries.FirstFlagAfter("common ", url);
    GetRegistries.ImportOfNone(line);
    GetRegistries.ClassifyRegistryLine("common ", url);
  }

  lemma EnableLineIgnored()
    ensures GetRegistries.Classify("common --enable_bzlmod") == GetRegistries.Ignored
  {
    EnableLineNamesNoRegistry();
    GetRegistries.ClassifyPlain("common --enable_bzlmod");
  }

  lemma LocalRegistryLine(registryPath: string)
    requires registryPath != [] && !IsAsciiSpace(registryPath[|registryPath| - 1])
    requires !Contains(registryPath, GetRegistries.RegistryFlag)
    ensures GetRegistries.Classify(BazelrcLines(registryPath)[1]) == GetRegistries.Registry("file://" + registryPath)
  {
    var local := "file://" + registryPath;
    NotContainedAfterPrefix("file://", registryPath, GetRegistries.RegistryFlag);
    assert local[|local| - 1] == registryPath[|registryPath| - 1];
    RegistryLine(local);
  }

  lemma CentralRegistryLine()
    ensures GetRegistries.Classify("common " + GetRegistries.RegistryFlag + GetRegistries.BazelCentralRegistry) ==
      GetRegistries.Registry(GetRegistries.BazelCentralRegistry)
  {
    NotContainedWithoutFirst(GetRegistries.BazelCentralRegistry, GetRegistries.RegistryFlag);
    RegistryLine(GetRegistries.BazelCentralRegistry);
  }

  lemma GatherSkipThenTwo(a: string, b: string)
    ensures GetRegistries.Gather([GetRegistries.Ignored, GetRegistries.Registry(a), GetRegistries.Registry(b)]).registries == [a, b]
  {
    var ks := [GetRegistries.Ignored, GetRegistries.Registry(a), GetRegistries.Registry(b)];
    assert ks[..2] == [GetRegistries.Ignored, GetRegistries.Registry(a)];
    assert ks[..2][..1] == [GetRegistries.Ignored];
    assert ks[..2][..1][..0] == [];
    assert GetRegistries.Gather(ks[..2][..1]) == GetRegistries.NoEntries;
    assert GetRegistries.Gather(ks[..2]).registries == [a];
  }

  /** Read back with the bazelrc rules of `bzlmod`, the scratch `.bazelrc`
      names the local `file://` registry and then the central registry. */
  lemma BazelrcRegistries(registryPath: string)
    requires registryPath != [] && !IsAsciiSpace(registryPath[|registryPath| - 1])
    requires !Contains(registryPath, GetRegistries.RegistryFlag)
    ensures GetRegistries.ParseLines(BazelrcLines(registryPath)).registries ==
      ["file://" + registryPath, GetRegistries.BazelCentralRegistry]
  {
    var lines := BazelrcLines(registryPath);
    EnableLineIgnored();
    LocalRegistryLine(registryPath);
    CentralRegistryLine();
    KindsOfThree(lines[0], lines[1], lines[2]);
    GatherSkipThenTwo("file://" + registryPath, GetRegistries.BazelCentralRegistry);
  }
}
