/**
 * `bzlreg add-module` (bzlreg/add_module.cc): add one version of a module
 * to a registry from the URL of its source archive. The archive is
 * downloaded, digested, decompressed and searched for `MODULE.bazel`; the
 * manifest names the module and the version, which is appended to the
 * module's `metadata.json` unless it is already listed.
 *
 * Download, SHA-256 and gzip are parameters; the files written are the
 * result value.
 */
module RegistryAddModule {
  import opened Common
  import Integrity
  import Decompress
  import TarView
  import ModuleBazel

  // ---------------------------------------------------------------------
  // The archive URL

  const HttpsScheme: string := "https://"
  const HttpScheme: string := "http://"

  /** `is_valid_archive_url` */
  predicate IsValidArchiveUrl(url: string) {
    StartsWith(url, HttpsScheme) || StartsWith(url, HttpScheme)
  }

  /** The two parts of a URL the command reads: `host_name()` and the path. */
  datatype Url = Url(host: string, path: string)

  /** Index of the first character of `s` in `stops`, or `|s|`. */
  function EndOf(s: string, stops: set<char>): (k: nat)
    ensures k <= |s|
    ensures k < |s| ==> s[k] in stops
    ensures forall j :: 0 <= j < k ==> s[j] !in stops
    decreases |s|
  {
    if s == [] || s[0] in stops then 0 else 1 + EndOf(s[1..], stops)
  }

  /** The authority of an `http(s)://` URL runs to the first `/`, `?` or
      `#`; the path runs from there to the first `?` or `#` (section 3 of
      RFC 3986). The host is the authority without user information and
      without port. */
  function ParseUrl(url: string): Url
    requires IsValidArchiveUrl(url)
  {
    var rest := if StartsWith(url, HttpsScheme) then url[|HttpsScheme|..] else url[|HttpScheme|..];
    var a := EndOf(rest, {'/', '?', '#'});
    var tail := rest[a..];
    var path := tail[..EndOf(tail, {'?', '#'})];
    var authority := rest[..a];
    var hostport := match Find(authority, '@') case Some(i) => authority[i + 1..] case None => authority;
    Url(hostport[..EndOf(hostport, {':'})], path)
  }

  /** A host name and a path written as an `https://` URL. */
  function UrlText(u: Url): string {
    HttpsScheme + u.host + u.path
  }

  lemma {:induction false} EndOfAt(s: string, t: string, stops: set<char>)
    requires forall j :: 0 <= j < |s| ==> s[j] !in stops
    requires t == [] || t[0] in stops
    ensures EndOf(s + t, stops) == |s|
    decreases |s|
  {
    if s == [] {
      assert s + t == t;
    } else {
      var st := s + t;
      assert st[0] == s[0] && st[0] !in stops;
      assert st[1..] == s[1..] + t;
      EndOfAt(s[1..], t, stops);
      assert EndOf(st, stops) == 1 + EndOf(st[1..], stops);
    }
  }

  lemma UrlTextRest(u: Url)
    ensures IsValidArchiveUrl(UrlText(u)) && StartsWith(UrlText(u), HttpsScheme)
    ensures UrlText(u)[|HttpsScheme|..] == u.host + u.path
  {
    assert UrlText(u)[..|HttpsScheme|] == HttpsScheme;
  }

  lemma AuthorityOfText(host: string, path: string)
    requires forall j :: 0 <= j < |host| ==> host[j] !in {'/', '?', '#'}
    requires path == [] || path[0] == '/'
    ensures EndOf(host + path, {'/', '?', '#'}) == |host|
    ensures (host + path)[..|host|] == host && (host + path)[|host|..] == path
  {
    EndOfAt(host, path, {'/', '?', '#'});
  }

  lemma EndOfWhole(s: string, stops: set<char>)
    requires forall j :: 0 <= j < |s| ==> s[j] !in stops
    ensures EndOf(s, stops) == |s|
  {
    EndOfAt(s, [], stops);
    assert s + [] == s;
  }

  /** Reading back the host and the path of a URL written from them. */
  lemma ParseUrlText(u: Url)
    requires forall j :: 0 <= j < |u.host| ==> u.host[j] !in {'/', '?', '#', '@', ':'}
    requires u.path == [] || u.path[0] == '/'
    requires forall j :: 0 <= j < |u.path| ==> u.path[j] !in {'?', '#'}
    ensures IsValidArchiveUrl(UrlText(u)) && ParseUrl(UrlText(u)) == u
  {
    UrlTextRest(u);
    AuthorityOfText(u.host, u.path);
    EndOfWhole(u.path, {'?', '#'});
    EndOfWhole(u.host, {':'});
    assert Find(u.host, '@') == None;
  }

  /** `fs::path{path}.filename()`: the text after the last `/`, empty when
      the path ends with `/`. */
  function Filename(path: string): (f: string)
    ensures '/' !in f && EndsWith(path, f)
    ensures |f| < |path| ==> path[|path| - |f| - 1] == '/'
    decreases |path|
  {
    if path == [] || path[|path| - 1] == '/' then []
    else Filename(path[..|path| - 1]) + [path[|path| - 1]]
  }

  const TarGzExtension: string := ".tar.gz"
  const TgzExtension: string := ".tgz"

  predicate IsSupportedArchive(filename: string) {
    EndsWith(filename, TarGzExtension) || EndsWith(filename, TgzExtension)
  }

  // ---------------------------------------------------------------------
  // `infer_repository_from_url`

  /** `absl::StrSplit(s, absl::MaxSplits(c, n))`: at most `n` splits, the
      last piece holding the rest of the text. */
  function SplitMax(s: string, c: char, n: nat): (parts: seq<string>)
    ensures 1 <= |parts| <= n + 1
    ensures |parts| >= 2 <==> n > 0 && c in s
    ensures |parts| >= 2 ==> Find(s, c) == Some(|parts[0]|)
    decreases n
  {
    if n == 0 then [s]
    else match Find(s, c)
      case None => [s]
      case Some(i) => [s[..i]] + SplitMax(s[i + 1..], c, n - 1)
  }

  const GithubHost: string := "github.com"
  const GithubPrefix: string := "github:"

  /** The repository string as the source writes it: the first two pieces
      of the path split on `/`. The path starts with `/`, so the first
      piece is empty and the result is `github:/<owner>`. */
  function InferRepositoryAsWritten(u: Url): Option<string> {
    if u.host == GithubHost then
      var parts := SplitMax(u.path, '/', 3);
      if |parts| >= 2 then Some(GithubPrefix + parts[0] + "/" + parts[1]) else None
    else None
  }

  /** The path of a GitHub archive URL: owner, repository, then the rest. */
  function RepositoryPath(owner: string, repo: string, rest: string): string {
    "/" + owner + "/" + repo + rest
  }

  /** The repository string the command evidently means: the owner and the
      repository, the first two segments of the path after its leading `/`. */
  function InferRepository(u: Url): (r: Option<string>)
    ensures r.Some? ==> u.host == GithubHost && StartsWith(r.value, GithubPrefix)
  {
    if u.host == GithubHost then
      var segments := if StartsWith(u.path, "/") then u.path[1..] else u.path;
      var parts := SplitMax(segments, '/', 3);
      if |parts| >= 2 then Some(GithubPrefix + parts[0] + "/" + parts[1]) else None
    else None
  }

  lemma SplitMaxAt(owner: string, rest: string, n: nat)
    requires '/' !in owner && n > 0
    ensures SplitMax(owner + "/" + rest, '/', n) == [owner] + SplitMax(rest, '/', n - 1)
  {
    var s := owner + "/" + rest;
    assert s[|owner|] == '/';
    FindFromIs(s, '/', 0, |owner|);
    assert s[..|owner|] == owner && s[|owner| + 1..] == rest;
  }

  lemma SegmentsOfPath(owner: string, repo: string, rest: string)
    ensures var path := RepositoryPath(owner, repo, rest);
      StartsWith(path, "/") && path[1..] == owner + "/" + (repo + rest)
  {
  }

  lemma OwnerAndRepo(owner: string, repo: string, rest: string)
    requires '/' !in owner && '/' !in repo && (rest == [] || rest[0] == '/')
    ensures var parts := SplitMax(owner + "/" + (repo + rest), '/', 3);
      |parts| >= 2 && parts[0] == owner && parts[1] == repo
  {
    SplitMaxAt(owner, repo + rest, 3);
    RepoFirst(repo, rest);
  }

  lemma RepoFirst(repo: string, rest: string)
    requires '/' !in repo && (rest == [] || rest[0] == '/')
    ensures SplitMax(repo + rest, '/', 2)[0] == repo
  {
    if rest == [] {
      assert repo + rest == repo;
      SplitMaxNone(repo, 2);
    } else {
      assert repo + rest == repo + "/" + rest[1..] by {
        assert rest == "/" + rest[1..];
      }
      SplitMaxAt(repo, rest[1..], 2);
    }
  }

  /** The corrected rule names `<owner>/<repo>` for a GitHub archive URL. */
  lemma InferRepositoryOfPath(owner: string, repo: string, rest: string)
    requires '/' !in owner && '/' !in repo && (rest == [] || rest[0] == '/')
    ensures InferRepository(Url(GithubHost, RepositoryPath(owner, repo, rest))) ==
      Some(GithubPrefix + owner + "/" + repo)
  {
    SegmentsOfPath(owner, repo, rest);
    OwnerAndRepo(owner, repo, rest);
  }

  lemma SplitMaxNone(s: string, n: nat)
    requires '/' !in s
    ensures SplitMax(s, '/', n) == [s]
  {
  }

  /** As written, the same URL yields `github:/<owner>`: the empty piece
      before the leading `/`, then the owner. */
  lemma InferRepositoryAsWrittenOfPath(owner: string, repo: string, rest: string)
    requires '/' !in owner
    ensures InferRepositoryAsWritten(Url(GithubHost, RepositoryPath(owner, repo, rest))) ==
      Some(GithubPrefix + "/" + owner)
  {
    AsWrittenPieces(owner, repo, rest);
    var parts := SplitMax(RepositoryPath(owner, repo, rest), '/', 3);
    assert GithubPrefix + parts[0] + "/" + parts[1] == GithubPrefix + "/" + owner;
  }

  /** The repository is lost: the rule as written and the corrected rule
      disagree on every GitHub archive URL with a non-empty owner. */
  lemma InferRepositoryAsWrittenLosesRepository(owner: string, repo: string, rest: string)
    requires '/' !in owner && owner != [] && '/' !in repo && (rest == [] || rest[0] == '/')
    ensures InferRepositoryAsWritten(Url(GithubHost, RepositoryPath(owner, repo, rest))) !=
      InferRepository(Url(GithubHost, RepositoryPath(owner, repo, rest)))
  {
    InferRepositoryAsWrittenOfPath(owner, repo, rest);
    InferRepositoryOfPath(owner, repo, rest);
    OwnerFirst(owner, repo);
  }

  lemma OwnerFirst(owner: string, repo: string)
    requires '/' !in owner && owner != []
    ensures GithubPrefix + "/" + owner != GithubPrefix + owner + "/" + repo
  {
    assert owner[0] != '/' by { assert owner[0] in owner; }
    var written := GithubPrefix + "/" + owner;
    var meant := GithubPrefix + owner + "/" + repo;
    assert written[|GithubPrefix|] == '/';
    assert meant[|GithubPrefix|] == owner[0];
  }

  lemma AsWrittenPieces(owner: string, repo: string, rest: string)
    requires '/' !in owner
    ensures var parts := SplitMax(RepositoryPath(owner, repo, rest), '/', 3);
      |parts| >= 2 && parts[0] == [] && parts[1] == owner
  {
    var path := RepositoryPath(owner, repo, rest);
    assert path == [] + "/" + (owner + "/" + (repo + rest));
    SplitMaxAt([], owner + "/" + (repo + rest), 3);
    SplitMaxAt(owner, repo + rest, 2);
  }

  // ---------------------------------------------------------------------
  // The archive and its manifest

  /** `MODULE.bazel` as bytes. */
  const ManifestName: seq<byte> := [77, 79, 68, 85, 76, 69, 46, 98, 97, 122, 101, 108]

  /** The name looked up in the archive: `MODULE.bazel`, under the strip
      prefix when there is one. */
  function ManifestPath(stripPrefix: seq<byte>): (p: seq<byte>)
    ensures EndsWith(p, ManifestName)
    ensures stripPrefix == [] ==> p == ManifestName
    ensures stripPrefix != [] ==> StartsWith(p, stripPrefix + [TarView.Slash])
  {
    if stripPrefix == [] then ManifestName else stripPrefix + [TarView.Slash] + ManifestName
  }

  /** Bytes read as characters (`string_view` over the entry). */
  function CharsOf(bytes: seq<byte>): (s: string)
    ensures |s| == |bytes| && forall k :: 0 <= k < |bytes| ==> s[k] as int == bytes[k] as int
  {
    seq(|bytes|, k requires 0 <= k < |bytes| => bytes[k] as char)
  }

  datatype Extracted = Extracted(bytes: seq<byte>) | NotInArchive | Broken

  /** The manifest entry of the decompressed archive. A malformed archive,
      where the source aborts or reads out of bounds, is `Broken`. */
  function ExtractManifest(buf: seq<byte>, stripPrefix: seq<byte>): (r: Extracted)
    ensures r.Extracted? ==> exists off ::
      TarView.FileFrom(buf, ManifestPath(stripPrefix), 0, 0) == TarView.Found(off) &&
      TarView.EntryOk(buf, off) && TarView.Contents(buf, off) == Some(r.bytes)
    ensures r == NotInArchive <==> TarView.FileFrom(buf, ManifestPath(stripPrefix), 0, 0) == TarView.Absent
  {
    match TarView.FileFrom(buf, ManifestPath(stripPrefix), 0, 0)
    case Absent => NotInArchive
    case Malformed => Broken
    case Found(off) =>
      TarView.FoundEntryHasName(buf, ManifestPath(stripPrefix), 0, 0);
      match TarView.Contents(buf, off)
      case None => Broken
      case Some(bytes) => Extracted(bytes)
  }

  // ---------------------------------------------------------------------
  // The registry files

  datatype Maintainer = Maintainer(email: string, github: string, name: string)

  /** `metadata.json` */
  datatype MetadataConfig = MetadataConfig(
    homepage: string,
    maintainers: seq<Maintainer>,
    repository: seq<string>,
    versions: seq<string>,
    yankedVersions: map<string, string>)

  /** What the command starts from when the module has no `metadata.json`. */
  const NoMetadata: MetadataConfig := MetadataConfig("", [], [], [], map[])

  function MetadataOrDefault(metadata: Option<MetadataConfig>): MetadataConfig {
    match metadata
    case Some(m) => m
    case None => NoMetadata
  }

  /** Why the command returns 1. */
  datatype Rejection =
    | NoRegistry          // no `bazel_registry.json` in the registry directory
    | InvalidUrl          // not `https://` or `http://`
    | UnsupportedArchive  // not `.tar.gz` or `.tgz`
    | NoIntegrity         // a digest step failed
    | NoManifest          // no `MODULE.bazel` in the archive
    | NotAModule          // the manifest does not start with `module(...)`
    | DuplicateVersion    // the version is already in `metadata.json`

  /** What the command does: return 1 before any write, throw or abort, or
      write the three files (`metadata.json`, the version's `source.json`
      and its `MODULE.bazel`) and return 0. */
  datatype AddOutcome =
    | Rejected(reason: Rejection)
    | Aborted
    | Added(name: string, version: string, metadata: MetadataConfig,
            source: Integrity.SourceConfig, manifest: seq<byte>)

  /** What the command has learnt from the archive before it reads
      `metadata.json`, or how it stopped. */
  datatype Prepared =
    | Prepared(integrity: string, manifest: seq<byte>, parsed: ModuleBazel.Module)
    | Stop(outcome: AddOutcome)

  /** The checks and reads of `add_module` up to the parse of the manifest. */
  function Prepare(hasRegistryJson: bool, url: string, stripPrefix: seq<byte>,
                   download: string -> seq<byte>, sha256: seq<byte> -> Option<seq<byte>>,
                   gunzip: seq<byte> -> Option<seq<byte>>): (p: Prepared)
    ensures !hasRegistryJson ==> p == Stop(Rejected(NoRegistry))
    ensures hasRegistryJson && !IsValidArchiveUrl(url) ==> p == Stop(Rejected(InvalidUrl))
    ensures hasRegistryJson && IsValidArchiveUrl(url) && !IsSupportedArchive(Filename(ParseUrl(url).path)) ==>
      p == Stop(Rejected(UnsupportedArchive))
    ensures p.Stop? ==> !p.outcome.Added?
    ensures p.Prepared? ==>
      hasRegistryJson && IsValidArchiveUrl(url) && IsSupportedArchive(Filename(ParseUrl(url).path)) &&
      Integrity.CalcIntegrity(download(url), sha256) == Some(p.integrity) &&
      ExtractManifest(Decompress.Decompressed(gunzip(download(url))), stripPrefix) == Extracted(p.manifest) &&
      ModuleBazel.ParseSpec(CharsOf(p.manifest)) == ModuleBazel.Parsed(p.parsed)
  {
    if !hasRegistryJson then Stop(Rejected(NoRegistry))
    else if !IsValidArchiveUrl(url) then Stop(Rejected(InvalidUrl))
    else if !IsSupportedArchive(Filename(ParseUrl(url).path)) then Stop(Rejected(UnsupportedArchive))
    else
      var compressed := download(url);
      match Integrity.CalcIntegrity(compressed, sha256)
      case None => Stop(Rejected(NoIntegrity))
      case Some(integrity) => FromArchive(integrity, Decompress.Decompressed(gunzip(compressed)), stripPrefix)
  }

  /** The manifest looked up in the decompressed archive and parsed. */
  function FromArchive(integrity: string, archive: seq<byte>, stripPrefix: seq<byte>): (p: Prepared)
    ensures p.Stop? ==> !p.outcome.Added?
    ensures p.Prepared? ==>
      p.integrity == integrity && ExtractManifest(archive, stripPrefix) == Extracted(p.manifest) &&
      ModuleBazel.ParseSpec(CharsOf(p.manifest)) == ModuleBazel.Parsed(p.parsed)
  {
    match ExtractManifest(archive, stripPrefix)
    case NotInArchive => Stop(Rejected(NoManifest))
    case Broken => Stop(Aborted)
    case Extracted(manifest) =>
      match ModuleBazel.ParseSpec(CharsOf(manifest))
      case NotAModule => Stop(Rejected(NotAModule))
      case MissingName => Stop(Aborted)
      case Parsed(m) => Prepared(integrity, manifest, m)
  }

  /** The repository list after the command: inferred from the URL only
      when the list was empty. */
  function RepositoryAfter(repository: seq<string>, url: string): seq<string>
    requires IsValidArchiveUrl(url)
  {
    if repository != [] then repository
    else match InferRepository(ParseUrl(url))
      case Some(r) => [r]
      case None => []
  }

  /** The metadata and source steps of `add_module`, once the manifest is
      parsed: a listed version is refused, a new one is appended. */
  function Register(p: Prepared, url: string, stripPrefix: seq<byte>, metadata: Option<MetadataConfig>): (r: AddOutcome)
    requires p.Prepared? && IsValidArchiveUrl(url)
    ensures r.Added? <==> p.parsed.version !in MetadataOrDefault(metadata).versions
    ensures !r.Added? ==> r == Rejected(DuplicateVersion)
    ensures r.Added? ==> r.name == p.parsed.name && r.version == p.parsed.version && r.manifest == p.manifest
    ensures r.Added? ==> var before := MetadataOrDefault(metadata);
      r.metadata.versions == before.versions + [p.parsed.version] &&
      r.metadata.repository == RepositoryAfter(before.repository, url) &&
      r.metadata.(versions := before.versions, repository := before.repository) == before
    ensures r.Added? ==>
      r.source.integrity == p.integrity && r.source.stripPrefix == CharsOf(stripPrefix) &&
      r.source.patchStrip == 0 && r.source.patches == map[] && r.source.overlay == map[] && r.source.url == url
  {
    var before := MetadataOrDefault(metadata);
    if p.parsed.version in before.versions then Rejected(DuplicateVersion)
    else
      var after := before.(versions := before.versions + [p.parsed.version],
                           repository := RepositoryAfter(before.repository, url));
      Added(p.parsed.name, p.parsed.version, after,
            Integrity.SourceConfig(p.integrity, CharsOf(stripPrefix), 0, map[], map[], url), p.manifest)
  }

  /** `bzlreg::add_module` */
  function AddModuleSpec(hasRegistryJson: bool, url: string, stripPrefix: seq<byte>, metadata: Option<MetadataConfig>,
                         download: string -> seq<byte>, sha256: seq<byte> -> Option<seq<byte>>,
                         gunzip: seq<byte> -> Option<seq<byte>>): AddOutcome
  {
    match Prepare(hasRegistryJson, url, stripPrefix, download, sha256, gunzip)
    case Stop(outcome) => outcome
    case Prepared(integrity, manifest, m) =>
      Register(Prepared(integrity, manifest, m), url, stripPrefix, metadata)
  }

  /** Adding the same archive to the registry the command has just written
      is refused as a duplicate. */
  lemma AddTwiceRejected(hasRegistryJson: bool, url: string, stripPrefix: seq<byte>, metadata: Option<MetadataConfig>,
                         download: string -> seq<byte>, sha256: seq<byte> -> Option<seq<byte>>,
                         gunzip: seq<byte> -> Option<seq<byte>>)
    requires AddModuleSpec(hasRegistryJson, url, stripPrefix, metadata, download, sha256, gunzip).Added?
    ensures var first := AddModuleSpec(hasRegistryJson, url, stripPrefix, metadata, download, sha256, gunzip);
      AddModuleSpec(hasRegistryJson, url, stripPrefix, Some(first.metadata), download, sha256, gunzip) ==
        Rejected(DuplicateVersion)
  {
    var p := Prepare(hasRegistryJson, url, stripPrefix, download, sha256, gunzip);
    assert p.Prepared?;
    RegisterTwice(p, url, stripPrefix, metadata);
  }

  lemma RegisterTwice(p: Prepared, url: string, stripPrefix: seq<byte>, metadata: Option<MetadataConfig>)
    requires p.Prepared? && IsValidArchiveUrl(url)
    requires Register(p, url, stripPrefix, metadata).Added?
    ensures Register(p, url, stripPrefix, Some(Register(p, url, stripPrefix, metadata).metadata)) ==
      Rejected(DuplicateVersion)
  {
    var first := Register(p, url, stripPrefix, metadata);
    assert first.metadata.versions[|first.metadata.versions| - 1] == p.parsed.version;
  }

  /** The versions stay free of repeats. */
  lemma AddKeepsVersionsDistinct(hasRegistryJson: bool, url: string, stripPrefix: seq<byte>, metadata: Option<MetadataConfig>,
                                 download: string -> seq<byte>, sha256: seq<byte> -> Option<seq<byte>>,
                                 gunzip: seq<byte> -> Option<seq<byte>>)
    requires var vs := MetadataOrDefault(metadata).versions;
      forall i, j :: 0 <= i < j < |vs| ==> vs[i] != vs[j]
    requires AddModuleSpec(hasRegistryJson, url, stripPrefix, metadata, download, sha256, gunzip).Added?
    ensures var vs := AddModuleSpec(hasRegistryJson, url, stripPrefix, metadata, download, sha256, gunzip).metadata.versions;
      forall i, j :: 0 <= i < j < |vs| ==> vs[i] != vs[j]
  {
    var p := Prepare(hasRegistryJson, url, stripPrefix, download, sha256, gunzip);
    var before := MetadataOrDefault(metadata).versions;
    assert p.parsed.version !in before;
    AppendKeepsDistinct(before, p.parsed.version);
  }

  lemma AppendKeepsDistinct(vs: seq<string>, v: string)
    requires forall i, j :: 0 <= i < j < |vs| ==> vs[i] != vs[j]
    requires v !in vs
    ensures var after := vs + [v]; forall i, j :: 0 <= i < j < |after| ==> after[i] != after[j]
  {
    var after := vs + [v];
    forall i, j | 0 <= i < j < |after| ensures after[i] != after[j] {
      if j == |vs| {
        assert after[i] == vs[i];
      }
    }
  }

  /** The steps of `bzlreg::add_module` up to the parse of the manifest. */
  method PrepareArchive(hasRegistryJson: bool, url: string, stripPrefix: seq<byte>,
                        download: string -> seq<byte>, sha256: seq<byte> -> Option<seq<byte>>,
                        gunzip: seq<byte> -> Option<seq<byte>>)
    returns (p: Prepared)
    requires gunzip([]) == None
    ensures p == Prepare(hasRegistryJson, url, stripPrefix, download, sha256, gunzip)
  {
    if !hasRegistryJson {
      return Stop(Rejected(NoRegistry));
    }
    if !IsValidArchiveUrl(url) {
      return Stop(Rejected(InvalidUrl));
    }
    var archiveFilename := Filename(ParseUrl(url).path);
    if !EndsWith(archiveFilename, TarGzExtension) && !EndsWith(archiveFilename, TgzExtension) {
      return Stop(Rejected(UnsupportedArchive));
    }
    var compressedData := download(url);
    var integrity := Integrity.CalcIntegrity(compressedData, sha256);
    if integrity.None? {
      return Stop(Rejected(NoIntegrity));
    }
    var decompressedData, _, _ := Decompress.DecompressArchive(compressedData, gunzip);
    p := ReadManifest(integrity.value, decompressedData, stripPrefix);
  }

  /** The lookup of the manifest in the archive and its parse. */
  method ReadManifest(integrity: string, decompressedData: seq<byte>, stripPrefix: seq<byte>) returns (p: Prepared)
    ensures p == FromArchive(integrity, decompressedData, stripPrefix)
  {
    var lookup := TarView.File(decompressedData, ManifestPath(stripPrefix));
    if lookup.Absent? {
      return Stop(Rejected(NoManifest));
    } else if lookup.Malformed? {
      return Stop(Aborted);
    }
    TarView.FoundEntryHasName(decompressedData, ManifestPath(stripPrefix), 0, 0);
    var contents := TarView.Contents(decompressedData, lookup.offset);
    if contents.None? {
      return Stop(Aborted);
    }
    var moduleBzl := ModuleBazel.Parse(CharsOf(contents.value));
    if moduleBzl.NotAModule? {
      return Stop(Rejected(NotAModule));
    } else if moduleBzl.MissingName? {
      return Stop(Aborted);
    }
    return Prepared(integrity, contents.value, moduleBzl.manifest);
  }

  /** The metadata steps of `bzlreg::add_module`: the walk over the listed
      versions, the append and the repository inference. */
  method RegisterVersion(p: Prepared, url: string, stripPrefix: seq<byte>, metadata: Option<MetadataConfig>)
    returns (r: AddOutcome)
    requires p.Prepared? && IsValidArchiveUrl(url)
    ensures r == Register(p, url, stripPrefix, metadata)
  {
    var sourceConfig := Integrity.SourceConfig(p.integrity, CharsOf(stripPrefix), 0, map[], map[], url);
    var metadataConfig := MetadataOrDefault(metadata);
    var version := p.parsed.version;
    var listed := IsListed(version, metadataConfig.versions);
    if listed {
      return Rejected(DuplicateVersion);
    }
    var before := metadataConfig;
    metadataConfig := metadataConfig.(versions := metadataConfig.versions + [version]);
    if metadataConfig.repository == [] {
      var inferred := InferRepository(ParseUrl(url));
      if inferred.Some? {
        metadataConfig := metadataConfig.(repository := metadataConfig.repository + [inferred.value]);
      }
    }
    assert metadataConfig.repository == RepositoryAfter(before.repository, url);
    assert metadataConfig == before.(versions := before.versions + [version],
                                     repository := RepositoryAfter(before.repository, url));
    return Added(p.parsed.name, version, metadataConfig, sourceConfig, p.manifest);
  }

  /** The walk over the listed versions looking for `version`. */
  method IsListed(version: string, versions: seq<string>) returns (listed: bool)
    ensures listed <==> version in versions
  {
    for i := 0 to |versions|
      invariant version !in versions[..i]
    {
      if versions[i] == version {
        return true;
      }
    }
    assert versions[..|versions|] == versions;
    return false;
  }

  /** `bzlreg::add_module` */
  method AddModule(hasRegistryJson: bool, url: string, stripPrefix: seq<byte>, metadata: Option<MetadataConfig>,
                   download: string -> seq<byte>, sha256: seq<byte> -> Option<seq<byte>>,
                   gunzip: seq<byte> -> Option<seq<byte>>)
    returns (r: AddOutcome)
    requires gunzip([]) == None
    ensures r == AddModuleSpec(hasRegistryJson, url, stripPrefix, metadata, download, sha256, gunzip)
  {
    var p := PrepareArchive(hasRegistryJson, url, stripPrefix, download, sha256, gunzip);
    if p.Stop? {
      return p.outcome;
    }
    r := RegisterVersion(p, url, stripPrefix, metadata);
  }
}
