/**
 * Registry resolution from bazelrc files (bzlmod/get_registries.cc). A
 * bazelrc file is given as its list of lines; files that cannot be read are
 * absent from the `files` map. Registries named by `--registry=` flags are
 * gathered in file order and then in search-path order, and the Bazel
 * Central Registry is used when none is named.
 */
module GetRegistries {
  import opened Common

  const BazelCentralRegistry: string := "https://bcr.bazel.build"
  const RegistryFlag: string := "--registry="
  const TryImportKeyword: string := "try-import"
  const ImportKeyword: string := "import"

  /** `is_bazelrc_comment` */
  predicate IsComment(line: string) {
    StartsWith(line, "#")
  }

  /** `get_bazelrc_registry_flag_value`: the second non-blank piece of the
      line split around `--registry=`, not trimmed. */
  function RegistryFlagValue(line: string): (r: Option<string>)
    ensures r.Some? ==> Contains(line, RegistryFlag)
    ensures r.Some? ==> !IsBlank(r.value) && !Contains(r.value, RegistryFlag)
  {
    var all := Split(line, RegistryFlag);
    var pieces := SkipBlank(all);
    if |pieces| > 1 then
      SkipBlankMembers(all, pieces[1]);
      SplitPiecesLackDelimiter(line, RegistryFlag);
      Some(pieces[1])
    else
      None
  }

  /** A flag after an option name such as `common ` gives the text after it. */
  lemma RegistryFlagAfterOption(opt: string, value: string)
    requires !IsBlank(opt) && !IsBlank(value) && !Contains(value, RegistryFlag)
    requires FindSeqFrom(opt + RegistryFlag + value, RegistryFlag, 0) == Some(|opt|)
    ensures RegistryFlagValue(opt + RegistryFlag + value) == Some(value)
  {
    SplitCons(opt, RegistryFlag, value);
    assert SkipBlank([opt] + [value]) == [opt] + SkipBlank([value]);
  }

  /** A flag with nothing but whitespace before it gives no value: the
      blank first piece is dropped, so there is no second piece. */
  lemma RegistryFlagAtStart(pre: string, value: string)
    requires IsBlank(pre) && !Contains(value, RegistryFlag)
    requires FindSeqFrom(pre + RegistryFlag + value, RegistryFlag, 0) == Some(|pre|)
    ensures RegistryFlagValue(pre + RegistryFlag + value) == None
  {
    SplitCons(pre, RegistryFlag, value);
    assert SkipBlank([pre] + [value]) == SkipBlank([value]);
  }

  /** `get_bazelrc_import`: the stripped rest of a line starting with
      `try-import`, else with `import`. */
  function ImportOf(line: string): (r: Option<string>)
    ensures r.Some? <==> StartsWith(line, TryImportKeyword) || StartsWith(line, ImportKeyword)
    ensures r.Some? ==> r.value == [] || (!IsAsciiSpace(r.value[0]) && !IsAsciiSpace(r.value[|r.value| - 1]))
  {
    if StartsWith(line, TryImportKeyword) then Some(Strip(line[|TryImportKeyword|..]))
    else if StartsWith(line, ImportKeyword) then Some(Strip(line[|ImportKeyword|..]))
    else None
  }

  /** `try-import <path>` and `import <path>` name `<path>`. */
  lemma ImportOfLine(keyword: string, gap: string, path: string)
    requires keyword == TryImportKeyword || keyword == ImportKeyword
    requires IsBlank(gap) && path != [] && !IsAsciiSpace(path[0]) && !IsAsciiSpace(path[|path| - 1])
    ensures ImportOf(keyword + gap + path) == Some(path)
  {
    var line := keyword + gap + path;
    var rest := gap + path;
    assert line == keyword + rest;
    StripPadded(gap, path, "");
    assert rest + "" == rest;
    KeywordRest(keyword, rest);
  }

  /** A line made of a keyword and the rest starts with that keyword and
      with no other, and the rest follows it. */
  lemma KeywordRest(keyword: string, rest: string)
    requires keyword == TryImportKeyword || keyword == ImportKeyword
    ensures StartsWith(keyword + rest, keyword) && (keyword + rest)[|keyword|..] == rest
    ensures keyword == ImportKeyword ==> !StartsWith(keyword + rest, TryImportKeyword)
  {
    var line := keyword + rest;
    assert line[..|keyword|] == keyword;
    if keyword == ImportKeyword {
      assert line[0] == 'i' != TryImportKeyword[0];
    }
  }

  /** What one line contributes. */
  datatype Line = Ignored | Import(path: string) | Registry(url: string)

  /** One iteration of the loop in `parse_bazelrc`: blank lines and comments
      are skipped, an import wins over a registry flag on the same line. */
  function Classify(line: string): (k: Line)
    ensures IsBlank(line) ==> k == Ignored
    ensures k.Import? ==> var s := Strip(line); StartsWith(s, TryImportKeyword) || StartsWith(s, ImportKeyword)
    ensures k.Registry? ==> !IsBlank(k.url) && !Contains(k.url, RegistryFlag)
    ensures k.Registry? ==> var s := Strip(line); !IsComment(s) && ImportOf(s).None? && Contains(s, RegistryFlag)
  {
    var s := Strip(line);
    if s == [] || IsComment(s) then Ignored
    else match ImportOf(s)
      case Some(p) => Import(p)
      case None =>
        match RegistryFlagValue(s)
        case Some(u) => Registry(u)
        case None => Ignored
  }

  /** A comment line is skipped even when it names a registry. */
  lemma CommentIgnored(rest: string)
    ensures Classify("#" + rest) == Ignored
  {
    var line := "#" + rest;
    if !IsBlank(line) {
      var a := SpanEnd(line, 0);
      assert a == 0;
      assert Strip(line)[0] == '#';
    }
  }

  /** A trimmed line that is neither a comment nor an import and names a
      registry contributes that registry. */
  lemma ClassifyTrimmed(line: string, url: string)
    requires line != [] && Strip(line) == line && !IsComment(line)
    requires ImportOf(line).None? && RegistryFlagValue(line) == Some(url)
    ensures Classify(line) == Registry(url)
  {
  }

  lemma NotComment(line: string)
    requires line != [] && line[0] != '#'
    ensures !IsComment(line)
  {
    assert line[..1][0] == line[0];
  }

  lemma TrimmedJoin(a: string, b: string, c: string)
    requires a != [] && !IsAsciiSpace(a[0]) && c != [] && !IsAsciiSpace(c[|c| - 1])
    ensures Strip(a + b + c) == a + b + c && (a + b + c)[0] == a[0]
  {
    var line := a + b + c;
    assert line[0] == a[0] && line[|line| - 1] == c[|c| - 1];
    StripTrimmed(line);
  }

  /** A line that is neither a comment nor an import, with an option name
      before the flag, names the registry after it. */
  lemma ClassifyRegistryLine(opt: string, url: string)
    requires opt != [] && !IsAsciiSpace(opt[0]) && opt[0] != '#'
    requires url != [] && !IsAsciiSpace(url[|url| - 1]) && !Contains(url, RegistryFlag)
    requires FindSeqFrom(opt + RegistryFlag + url, RegistryFlag, 0) == Some(|opt|)
    requires ImportOf(opt + RegistryFlag + url).None?
    ensures Classify(opt + RegistryFlag + url) == Registry(url)
  {
    TrimmedJoin(opt, RegistryFlag, url);
    assert !IsBlank(opt) by { assert !IsAsciiSpace(opt[0]); }
    assert !IsBlank(url) by { assert !IsAsciiSpace(url[|url| - 1]); }
    RegistryFlagAfterOption(opt, url);
    NotComment(opt + RegistryFlag + url);
    ClassifyTrimmed(opt + RegistryFlag + url, url);
  }

  /** A line starting with neither `t` nor `i` is no import. */
  lemma ImportOfNone(line: string)
    requires line != [] && line[0] != 't' && line[0] != 'i'
    ensures ImportOf(line).None?
  {
    assert !StartsWith(line, TryImportKeyword) by {
      if |TryImportKeyword| <= |line| {
        assert line[..|TryImportKeyword|][0] == line[0];
      }
    }
    assert !StartsWith(line, ImportKeyword) by {
      if |ImportKeyword| <= |line| {
        assert line[..|ImportKeyword|][0] == line[0];
      }
    }
  }

  /** The first flag on a line whose option names hold no `-`. */
  lemma FirstFlagAfter(opt: string, value: string)
    requires '-' !in opt
    ensures FindSeqFrom(opt + RegistryFlag + value, RegistryFlag, 0) == Some(|opt|)
  {
    var line := opt + RegistryFlag + value;
    forall j | 0 <= j < |opt| ensures !OccursAt(line, RegistryFlag, j) {
      if j + |RegistryFlag| <= |line| {
        assert line[j] == opt[j];
        NotOccursAt(line, RegistryFlag, j, 0);
      }
    }
    assert line[|opt|..|opt| + |RegistryFlag|] == RegistryFlag;
    FindSeqFromIs(line, RegistryFlag, 0, |opt|);
  }

  /** A trimmed line that is no comment, no import and names no registry is skipped. */
  lemma ClassifyPlain(line: string)
    requires line != [] && !IsAsciiSpace(line[0]) && !IsAsciiSpace(line[|line| - 1])
    requires line[0] != '#' && line[0] != 't' && line[0] != 'i'
    requires !Contains(line, RegistryFlag)
    ensures Classify(line) == Ignored
  {
    StripTrimmed(line);
    NotComment(line);
    ImportOfNone(line);
  }

  /** What `parse_bazelrc` gathers. */
  datatype Bazelrc = Bazelrc(registries: seq<string>, imports: seq<string>)

  const NoEntries := Bazelrc([], [])

  function Add(r: Bazelrc, k: Line): Bazelrc {
    match k
    case Ignored => r
    case Import(p) => r.(imports := r.imports + [p])
    case Registry(u) => r.(registries := r.registries + [u])
  }

  /** The entries of classified lines, in file order. */
  function Gather(ks: seq<Line>): Bazelrc
    decreases |ks|
  {
    if ks == [] then NoEntries
    else Add(Gather(ks[..|ks| - 1]), ks[|ks| - 1])
  }

  /** The classification of each line. */
  function Kinds(lines: seq<string>): (ks: seq<Line>)
    ensures |ks| == |lines|
    ensures forall i :: 0 <= i < |lines| ==> ks[i] == Classify(lines[i])
    ensures forall i :: 0 <= i < |lines| && IsBlank(lines[i]) ==> ks[i] == Ignored
    ensures forall i :: 0 <= i < |lines| && ks[i].Registry? ==>
      !IsComment(Strip(lines[i])) && Contains(Strip(lines[i]), RegistryFlag) && !IsBlank(ks[i].url)
  {
    seq(|lines|, i requires 0 <= i < |lines| => Classify(lines[i]))
  }

  /** The entries of a list of lines. */
  function ParseLines(lines: seq<string>): Bazelrc {
    Gather(Kinds(lines))
  }

  /** Entries of two bazelrc fragments, one after the other. */
  function Concat(a: Bazelrc, b: Bazelrc): Bazelrc {
    Bazelrc(a.registries + b.registries, a.imports + b.imports)
  }

  lemma {:induction false} GatherAppend(a: seq<Line>, b: seq<Line>)
    ensures Gather(a + b) == Concat(Gather(a), Gather(b))
    decreases |b|
  {
    if b == [] {
      assert a + b == a;
    } else {
      var n := |b| - 1;
      assert (a + b)[..|a + b| - 1] == a + b[..n];
      assert (a + b)[|a + b| - 1] == b[n];
      GatherAppend(a, b[..n]);
    }
  }

  lemma KindsAppend(a: seq<string>, b: seq<string>)
    ensures Kinds(a + b) == Kinds(a) + Kinds(b)
  {
    assert forall i :: 0 <= i < |a| ==> (a + b)[i] == a[i];
    assert forall i :: |a| <= i < |a| + |b| ==> (a + b)[i] == b[i - |a|];
  }

  /** Lines contribute in file order: parsing a concatenation concatenates
      the results. */
  lemma ParseLinesAppend(a: seq<string>, b: seq<string>)
    ensures ParseLines(a + b) == Concat(ParseLines(a), ParseLines(b))
  {
    KindsAppend(a, b);
    GatherAppend(Kinds(a), Kinds(b));
  }

  lemma {:induction false} GatherRegistries(ks: seq<Line>, u: string)
    ensures u in Gather(ks).registries <==> Registry(u) in ks
    decreases |ks|
  {
    if ks != [] {
      var n := |ks| - 1;
      GatherRegistries(ks[..n], u);
      assert ks == ks[..n] + [ks[n]];
    }
  }

  /** A registry is gathered exactly when some line names it. */
  lemma ParseLinesRegistries(lines: seq<string>, u: string)
    ensures u in ParseLines(lines).registries <==> exists i :: 0 <= i < |lines| && Classify(lines[i]) == Registry(u)
  {
    var ks := Kinds(lines);
    GatherRegistries(ks, u);
    if Registry(u) in ks {
      var i :| 0 <= i < |ks| && ks[i] == Registry(u);
      assert Classify(lines[i]) == Registry(u);
    }
  }

  /** The contents of the file at `path`, nothing when it cannot be read. */
  function ParseFile(files: map<string, seq<string>>, path: string): Bazelrc {
    if path in files then ParseLines(files[path]) else NoEntries
  }

  /** `parse_bazelrc`: read line by line, classifying each stripped line. */
  method ParseBazelrc(files: map<string, seq<string>>, path: string) returns (result: Bazelrc)
    ensures result == ParseFile(files, path)
  {
    result := NoEntries;
    if path !in files {
      return;
    }
    var lines := files[path];
    ghost var ks := Kinds(lines);
    var i := 0;
    while i < |lines|
      invariant 0 <= i <= |lines|
      invariant result == Gather(ks[..i])
    {
      assert ks[..i + 1][..i] == ks[..i];
      assert ks[i] == Classify(lines[i]);
      var stripped := Strip(lines[i]);
      i := i + 1;
      if stripped == [] {
        continue;
      }
      if IsComment(stripped) {
        continue;
      }
      var imp := ImportOf(stripped);
      if imp.Some? {
        result := result.(imports := result.imports + [imp.value]);
      } else {
        var reg := RegistryFlagValue(stripped);
        if reg.Some? {
          result := result.(registries := result.registries + [reg.value]);
        }
      }
    }
    assert ks[..i] == ks;
  }

  /** The `already_has_import` lambda: a scan of the gathered imports. */
  method AlreadyHasImport(imports: seq<string>, imp: string) returns (found: bool)
    ensures found <==> imp in imports
  {
    found := false;
    var j := 0;
    while j < |imports|
      invariant 0 <= j <= |imports|
      invariant imp !in imports[..j]
    {
      if imp == imports[j] {
        return true;
      }
      j := j + 1;
    }
    assert imports[..j] == imports;
  }

  /** `parse_bazelrc_recursive`. Each import is looked up among the imports
      being iterated, so it is always found and skipped: no import is ever
      followed, and the result is that of the file alone. */
  method ParseBazelrcRecursive(files: map<string, seq<string>>, path: string, workspace: string)
    returns (result: Bazelrc)
    ensures result == ParseFile(files, path)
  {
    result := ParseBazelrc(files, path);
    var imports := result.imports;
    var i := 0;
    while i < |imports|
      invariant 0 <= i <= |imports|
      invariant result == ParseFile(files, path) && result.imports == imports
    {
      var imp := imports[i];
      var skip := AlreadyHasImport(result.imports, imp);
      if !skip {
        assert false;
      }
      i := i + 1;
    }
  }

  /** The registries each file on the search path names. */
  function PerFile(files: map<string, seq<string>>, paths: seq<string>): (rs: seq<seq<string>>)
    ensures |rs| == |paths|
    ensures forall k :: 0 <= k < |paths| ==> rs[k] == ParseFile(files, paths[k]).registries
    ensures forall k, u :: 0 <= k < |paths| ==>
      (u in rs[k] <==> paths[k] in files && exists i :: 0 <= i < |files[paths[k]]| && Classify(files[paths[k]][i]) == Registry(u))
  {
    var rs := seq(|paths|, k requires 0 <= k < |paths| => ParseFile(files, paths[k]).registries);
    assert forall k, u :: 0 <= k < |paths| ==>
      (u in rs[k] <==> paths[k] in files && exists i :: 0 <= i < |files[paths[k]]| && Classify(files[paths[k]][i]) == Registry(u)) by {
      forall k, u | 0 <= k < |paths|
        ensures u in rs[k] <==> paths[k] in files && exists i :: 0 <= i < |files[paths[k]]| && Classify(files[paths[k]][i]) == Registry(u)
      {
        if paths[k] in files {
          ParseLinesRegistries(files[paths[k]], u);
        }
      }
    }
    rs
  }

  function Flatten(rs: seq<seq<string>>): seq<string>
    decreases |rs|
  {
    if rs == [] then [] else Flatten(rs[..|rs| - 1]) + rs[|rs| - 1]
  }

  /** The registries of the files on the search path, in path order. */
  function SearchPathRegistries(files: map<string, seq<string>>, paths: seq<string>): seq<string> {
    Flatten(PerFile(files, paths))
  }

  /** The registries `get_registries` returns. */
  function Resolved(files: map<string, seq<string>>, paths: seq<string>): (r: seq<string>)
    ensures r != []
  {
    var all := SearchPathRegistries(files, paths);
    if all == [] then [BazelCentralRegistry] else all
  }

  lemma {:induction false} FlattenAppend(p: seq<seq<string>>, q: seq<seq<string>>)
    ensures Flatten(p + q) == Flatten(p) + Flatten(q)
    decreases |q|
  {
    if q == [] {
      assert p + q == p;
    } else {
      var n := |q| - 1;
      assert (p + q)[..|p + q| - 1] == p + q[..n];
      assert (p + q)[|p + q| - 1] == q[n];
      FlattenAppend(p, q[..n]);
    }
  }

  /** Files contribute in search-path order, with no deduplication. */
  lemma SearchPathAppend(files: map<string, seq<string>>, p: seq<string>, q: seq<string>)
    ensures SearchPathRegistries(files, p + q) == SearchPathRegistries(files, p) + SearchPathRegistries(files, q)
  {
    assert PerFile(files, p + q) == PerFile(files, p) + PerFile(files, q) by {
      assert forall k :: 0 <= k < |p| ==> (p + q)[k] == p[k];
      assert forall k :: |p| <= k < |p| + |q| ==> (p + q)[k] == q[k - |p|];
    }
    FlattenAppend(PerFile(files, p), PerFile(files, q));
  }

  lemma {:induction false} FlattenEmpty(rs: seq<seq<string>>)
    ensures Flatten(rs) == [] <==> forall k :: 0 <= k < |rs| ==> rs[k] == []
    decreases |rs|
  {
    if rs != [] {
      var n := |rs| - 1;
      FlattenEmpty(rs[..n]);
      assert forall k :: 0 <= k < n ==> rs[..n][k] == rs[k];
    }
  }

  /** The central registry is used exactly when no file names a registry,
      and then alone. */
  lemma ResolvedFallback(files: map<string, seq<string>>, paths: seq<string>)
    ensures (forall k :: 0 <= k < |paths| ==> ParseFile(files, paths[k]).registries == []) ==>
      Resolved(files, paths) == [BazelCentralRegistry]
    ensures (exists k :: 0 <= k < |paths| && ParseFile(files, paths[k]).registries != []) ==>
      Resolved(files, paths) == SearchPathRegistries(files, paths)
  {
    FlattenEmpty(PerFile(files, paths));
  }

  lemma FlattenStep(rs: seq<seq<string>>, i: nat)
    requires i < |rs|
    ensures Flatten(rs[..i + 1]) == Flatten(rs[..i]) + rs[i]
  {
    assert rs[..i + 1][..i] == rs[..i];
  }

  /** `get_registries` over a given search path: never nothing. */
  method GetRegistries(files: map<string, seq<string>>, workspace: string, paths: seq<string>)
    returns (r: Option<seq<string>>)
    ensures r == Some(Resolved(files, paths))
  {
    var registries: seq<string> := [];
    ghost var rs := PerFile(files, paths);
    var i := 0;
    while i < |paths|
      invariant 0 <= i <= |paths|
      invariant registries == Flatten(rs[..i])
    {
      FlattenStep(rs, i);
      var result := ParseBazelrcRecursive(files, paths[i], workspace);
      registries := registries + result.registries;
      i := i + 1;
    }
    assert rs[..i] == rs;
    if registries == [] {
      registries := [BazelCentralRegistry];
    }
    return Some(registries);
  }
}
