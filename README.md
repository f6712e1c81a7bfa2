# bzlcmd core, modelled in Dafny

This project models the algorithmic core of the two command-line tools of
bzlcmd and proves properties about that model:

- `bzlreg` maintains a Bazel module registry on disk. `add-module` registers
  a version from a source archive. `bazel-exec` runs Bazel against the
  registry. The integrity refresh re-digests a version's patch and overlay
  files.
- `bzlmod` edits a workspace's `MODULE.bazel`. `add`, `update`,
  `git-override` and `patch` all resolve module versions against the
  registries named in the workspace's bazelrc files.

One Dafny module models each core source file:

| Dafny file | models |
|---|---|
| `tar_view.dfy` | the zero-copy tar reader: block rounding, the octal size field, entry names with the ustar prefix, header sizes, lookup by name, the iterator |
| `module_bazel.dfy` | the `MODULE.bazel` mini-parser: calls, attributes, `module` defaults, the `bazel_dep` list; a renderer proves that parsing reads a rendered manifest back |
| `get_registries.dfy` | bazelrc line classification, per-file registry gathering, the import recursion, the search path and the central-registry fallback |
| `integrity.dfy`, `base64.dfy` | `sha256-<base64>` integrity strings (base64 as in section 4 of RFC 4648) and the all-or-nothing refresh of a `source.json` |
| `decompress.dfy` | the growing-buffer gzip decompression loop around an inflater oracle |
| `registry_add_module.dfy` | `bzlreg add-module`: URL and archive checks, manifest lookup in the archive, duplicate-version refusal, metadata update, repository inference |
| `bazel_exec.dfy` | `bzlreg bazel-exec`: label to module name, newest version, the generated `MODULE.bazel` and `.bazelrc` |
| `registry_resolve.dfy` | one slot per registry filled from `metadata.json`, then the first filled slot in registry order |
| `bzlmod_add_module.dfy`, `bzlmod_update_module.dfy`, `bzlmod_git_override.dfy`, `bzlmod_patch_module.dfy` | the four `bzlmod` commands, each as a specification function and a method proved equal to it |
| `find_workspace_dir.dfy` | the upward search for `MODULE.bazel` |
| `common.dfy` | `Option`, bytes and the string operations the sources take from `std::string_view` and Abseil |

The model treats every external effect as a parameter:

- File contents, downloads and `metadata.json` / `source.json` fetches are
  functions from a path or URL to an optional value.
- SHA-256 is a function from bytes to an optional digest.
- The gzip inflater is a function from the compressed bytes to an optional
  decompression.
- buildozer, `gh`, `bazel info` and `bazel` are functions from their
  argument list to their exit code or their output.
- Whether a program is on the `PATH` is a boolean.

The commands return their outcome and the text they write, and each has an
exit-code function.

The parallel `std::for_each` over registries or files becomes a loop. It
visits the slots in an arbitrary order chosen by the verifier, and each
step writes only its own slot. So the proofs hold for every completion
order.

Where the C++ tar reader would abort, hang or read past its span, the model
returns an error value instead: `Malformed` for a lookup, a walk that ends
`Broken`. These cases are a header that does not fit, a size field without
an octal digit, and every PAX `x` entry.

## Model

| member | source | states |
|---|---|---|
| `TarView.RoundUpToMultiple` | bzlreg/tar_view.cc:107-113 | for a power-of-two `m` the result is a multiple of `m`, at least `n` and below `n + m` |
| `TarView.PaddedSize` | bzlreg/tar_view.cc:143 | a content size rounded up to 512-byte records: a multiple of 512 between the size and the size plus 512 |
| `TarView.IsAll0` | bzlreg/tar_view.cc:85-92 | true exactly when every byte of the block is zero |
| `TarView.Header` | bzlreg/tar_view.cc:165 | a header view is always exactly one 512-byte record, and it lies inside the buffer |
| `TarView.OctalPrefixLength` | bzlreg/tar_view.cc:65-83 | the run of octal digits `from_chars` base 8 reads: all digits, ended by the field's end or a non-digit |
| `TarView.SizeFieldRoundTrip` | bzlreg/tar_view.cc:65-83 | a size written as `w` octal digits and a NUL parses back to that size |
| `TarView.CStrLen` | bzlreg/tar_view.cc:296-308 | `strlen`/`strnlen`: no NUL before the length, and a NUL at it unless the bound is reached |
| `TarView.StaticName` | bzlreg/tar_view.cc:295-299 | byte 99 non-NUL gives all 100 name bytes; otherwise the bytes before the first NUL |
| `TarView.NamePrefix` | bzlreg/tar_view.cc:306-309 | the ustar prefix: at most 155 bytes at offset 345, no NUL |
| `TarView.EntryName` | bzlreg/tar_view.cc:283-322 | a ustar header (`ustar` then NUL or space) with a non-empty prefix gives `prefix/name`; any other header gives the static name |
| `TarView.ZeroRecordHasEmptyName` | bzlreg/tar_view.cc:130-137 | an all-zero header names nothing, so the iterator compares equal to the end there |
| `TarView.HeaderByteSize` | bzlreg/tar_view.cc:270-281 | 512 for every typeflag except `x`; for `x`, 512 plus the size field rounded up to 512 (none when the size field is bad) |
| `TarView.NextOffset` | bzlreg/tar_view.cc:190 | the next header is past this header and its contents, at the same alignment modulo 512 |
| `TarView.Contents` | bzlreg/tar_view.cc:349-356 | the `size()` bytes right after the header, or none when they run past the buffer |
| `TarView.File` | bzlreg/tar_view.cc:158-194 | the lookup loop returns what the lookup specification `FileFrom` gives from offset 0 |
| `TarView.TwoZeroRecordsEndLookup` | bzlreg/tar_view.cc:164-178 | two consecutive all-zero records end the lookup with an empty view |
| `TarView.ScanAtEntryIgnoresCount` | bzlreg/tar_view.cc:180 | a non-zero record resets the count of zero records |
| `TarView.FoundEntryHasName` | bzlreg/tar_view.cc:182-188 | a found entry lies at or after the start of the search, is well formed and has the requested name |
| `TarView.ScanFrom` | bzlreg/tar_view.cc:158-194 | the entries the lookup loop visits all have headers inside the buffer |
| `TarView.FirstNamed` | bzlreg/tar_view.cc:186-188 | the first visited entry with the requested name; no earlier entry has it |
| `TarView.FileIsFirstMatch` | bzlreg/tar_view.cc:158-194 | `file(n)` is the first entry, in archive order, whose resolved name is `n` |
| `TarView.Advance` | bzlreg/tar_view.cc:139-152 | `++` moves strictly forward to a header that fits and is not all zero, skipping one zero record and ending at a second |
| `TarView.IterFrom` | bzlreg/tar_view.cc:139-152 | the positions the iterator visits all have headers inside the buffer |
| `TarView.BeginFrom` | bzlreg/tar_view.cc:115-124 | `begin()` stops at the first header whose typeflag is not `g` |
| `TarView.ScanFollowsStep` | bzlreg/tar_view.cc:139-152 | one `++` step matches one step of the lookup loop |
| `TarView.IterationIsScan` | bzlreg/tar_view.cc:139-152 | when the iteration ends on zero records, it visits exactly the entries the lookup loop visits |
| `TarView.ScanCoversSkippedGlobals` | bzlreg/tar_view.cc:115-124 | the lookup loop sees the `g` headers `begin()` skips, then the iterated entries |
| `TarView.LookupMatchesIteration` | bzlreg/tar_view.cc:115-194 | `file(n)` is the first iterated entry named `n`, provided no skipped `g` header has that name and the archive ends with two zero records; the lookup is then never malformed |
| `TarView.TarIterator.constructor` | bzlreg/tar_view.cc:115-117 | an iterator starts at offset 0 of the buffer |
| `TarView.TarIterator.NotAtEnd` | bzlreg/tar_view.cc:130-137 | `!= end` is true exactly at an entry with a non-empty name; an `x` entry is an error |
| `TarView.TarIterator.Increment` | bzlreg/tar_view.cc:139-152 | `++` moves to the next entry as `Advance` says, or to the end after two zero records |
| `TarView.Begin` | bzlreg/tar_view.cc:115-124 | the iterator starts at the first header that is not a global `g` header |
| `Decompress.GzipDecompress` | bzlreg/decompress.cc:21-28 | one inflater call: success when the decompression fits the capacity, insufficient space when it is longer, bad data when the stream is invalid |
| `Decompress.DecompressArchive` | bzlreg/decompress.cc:9-50 | the result is the full decompression, or empty for invalid gzip; the capacity is `(9 + k)` times the input after `k` retries, and every retry was needed |
| `Base64.Encode` | bzlreg/util.cc:50-58 | base64 of `n` bytes has `4 * ceil(n / 3)` characters, each from the alphabet or the pad |
| `Base64.DecodeEncode` | bzlreg/util.cc:50-58 | decoding the encoding gives the bytes back |
| `Base64.EncodeInjective` | bzlreg/util.cc:50-58 | different byte strings have different encodings |
| `Integrity.CalcIntegrity` | bzlreg/util.cc:21-61 | an integrity exists exactly when the digest succeeds, and it starts with `sha256-` |
| `Integrity.IntegrityNamesDigest` | bzlreg/util.cc:50-60 | the text after `sha256-` decodes to the SHA-256 digest of the data |
| `Integrity.IntegrityDistinguishesDigests` | bzlreg/util.cc:21-61 | data with different digests get different integrity strings |
| `Integrity.ReadFileContents` | bzlreg/util.hh:17-47 | contents exactly when the file opens and is not empty; otherwise a non-empty error message |
| `Integrity.ParentRefs` | bzlreg/util.cc:96-108 | the registered paths leading out of the module directory (`..`); none lies under `patches/` or `overlay/`, so none can be a file the walk finds or a key the rebuilt maps hold |
| `Integrity.Candidates` | bzlreg/util.cc:74-108 | a path is a candidate exactly when it is a patch file, an overlay file, or a registered key starting with `..` |
| `Integrity.Digest` | bzlreg/util.cc:114-135 | a path's slot has no error exactly when the file reads and digests; its integrity is then the file's integrity string, and stays empty otherwise |
| `Integrity.Emplace` | bzlreg/util.cc:79-80 | `emplace` adds the key and keeps every existing value |
| `Integrity.EmplaceBlank` | bzlreg/util.cc:79-80 | emplacing an empty value into a map of empty values adds the key and nothing else |
| `Integrity.EmplaceFiles` | bzlreg/util.cc:74-94 | both maps hold an empty slot for each old key and each file found |
| `Integrity.EmplaceParentRefs` | bzlreg/util.cc:96-108 | both maps gain an empty slot for each registered `..` key |
| `Integrity.FillSlot` | bzlreg/util.cc:114-135 | one step writes the slots of its own path and changes nothing else |
| `Integrity.FillSlots` | bzlreg/util.cc:110-136 | every slot ends up holding its own path's digest or error, whatever order the steps run in |
| `Integrity.HasError` | bzlreg/util.cc:138-144 | true exactly when some error slot is non-empty |
| `Integrity.RebuildMaps` | bzlreg/util.cc:150-159 | `overlay` and `patches` are the slots under each prefix, with the prefix removed |
| `Integrity.RebuiltKeys` | bzlreg/util.cc:153-159 | `k` is in a rebuilt map exactly when `prefix + k` has a slot, with that slot's value |
| `Integrity.RebuiltSlot` | bzlreg/util.cc:153-159 | a rebuilt key is exactly a candidate with the prefix, holding that file's integrity; `..` paths are in neither map |
| `Integrity.CalcSourceIntegrity` | bzlreg/util.cc:63-164 | the refresh returns what the specification `SourceIntegrity` gives |
| `Integrity.AllOrNothing` | bzlreg/util.cc:138-148 | the source is left as it was exactly when some candidate failed; a refresh changes only `patches` and `overlay` |
| `Integrity.UpdatedSlots` | bzlreg/util.cc:150-159 | after a refresh every candidate digested without error, and the maps are the rebuilt slots |
| `Integrity.RefreshedMaps` | bzlreg/util.cc:150-159 | after a refresh `overlay/k` and `patches/k` are in the maps exactly when they were candidates, each with that file's own integrity |
| `ModuleBazel.SplitFirstEquals` | bzlreg/module_bazel.cc:39-43 | a piece splits at its first `=`: two sides that join back to the piece, or the piece alone when it has no `=` |
| `ModuleBazel.AttrOf` | bzlreg/module_bazel.cc:39-50 | an attribute binding always has a non-empty name and a non-empty value |
| `ModuleBazel.AttrOfSides` | bzlreg/module_bazel.cc:39-50 | `name = value` with non-blank sides binds the stripped name to the stripped value |
| `ModuleBazel.Bindings` | bzlreg/module_bazel.cc:38-51 | one binding attempt per piece, in order; only a piece holding `=` binds, and it binds a non-empty, trimmed name to a non-empty, trimmed value |
| `ModuleBazel.MapOfBound` | bzlreg/module_bazel.cc:38-51 | a key is bound exactly when some piece binds it |
| `ModuleBazel.MapOfLast` | bzlreg/module_bazel.cc:49 | a later duplicate key overwrites an earlier one: the last binding wins |
| `ModuleBazel.MapOfValues` | bzlreg/module_bazel.cc:45-50 | every bound value is non-empty |
| `ModuleBazel.AttrsOf` | bzlreg/module_bazel.cc:32-51 | the attribute map of a call holds only non-empty values |
| `ModuleBazel.CallOf` | bzlreg/module_bazel.cc:17-56 | the text after a call is shorter than the text parsed, so the parse loop ends |
| `ModuleBazel.CallAt` | bzlreg/module_bazel.cc:29-55 | a call found between two parentheses leaves strictly less text |
| `ModuleBazel.ParseCall` | bzlreg/module_bazel.cc:17-56 | `parse_call` returns what `CallOf` specifies |
| `ModuleBazel.FillAttrs` | bzlreg/module_bazel.cc:38-51 | the attribute loop builds the map `AttrsOf` specifies |
| `ModuleBazel.NoCallWithoutParentheses` | bzlreg/module_bazel.cc:20-28 | with no `(`, or no `)` after it, the call has an empty name, no attributes and no text after it |
| `ModuleBazel.CallOfAt` | bzlreg/module_bazel.cc:30-53 | the name is the stripped text before the first `(`; the attributes come from the text up to the next `)`; the rest is everything after that `)` |
| `ModuleBazel.CallOfText` | bzlreg/module_bazel.cc:17-56 | `name(inner)rest` after blank text parses to that name, the attributes of `inner`, and `rest` |
| `ModuleBazel.AttrAsString` | bzlreg/module_bazel.cc:58-60 | a quoted value loses exactly its quotes: quoting the result gives the value back |
| `ModuleBazel.AttrAsStringQuoted` | bzlreg/module_bazel.cc:58-60 | a quoted value reads back as the text between the quotes |
| `ModuleBazel.DigitPrefixLength` | bzlreg/module_bazel.cc:62-71 | the run of leading decimal digits |
| `ModuleBazel.AttrAsInt` | bzlreg/module_bazel.cc:62-71 | an `int` in range, 0 when there are no leading digits |
| `ModuleBazel.AttrAsIntOfDigits` | bzlreg/module_bazel.cc:62-71 | optional `-` then digits: the value, or 0 (`from_chars` leaves the 0) when it does not fit an `int` |
| `ModuleBazel.AttrAsIntText` | bzlreg/module_bazel.cc:62-71 | the decimal text of an `int` reads back as that `int` |
| `ModuleBazel.DepOf` | bzlreg/module_bazel.cc:98-110 | a call yields a dependency exactly when it is `bazel_dep` with both `name` and `version` |
| `ModuleBazel.DepsFromStep` | bzlreg/module_bazel.cc:95-111 | one loop turn: the next call's dependency, if any, then the dependencies of the text after it |
| `ModuleBazel.ModuleOf` | bzlreg/module_bazel.cc:78-93 | not a module exactly when the first call is not `module`; missing name exactly when it has no `name` |
| `ModuleBazel.CollectDeps` | bzlreg/module_bazel.cc:95-111 | the loop collects the `DepsFrom` list of the remaining text |
| `ModuleBazel.Parse` | bzlreg/module_bazel.cc:73-114 | `parse` returns what `ParseSpec` gives: the module call, then the dependencies after it |
| `ModuleBazel.DepsFromDepLine` | bzlreg/module_bazel.cc:95-111 | one rendered `bazel_dep` line yields exactly that dependency |
| `ModuleBazel.DepsFromDepLines` | bzlreg/module_bazel.cc:95-111 | rendered `bazel_dep` lines yield exactly those dependencies, in file order |
| `ModuleBazel.ModuleOfModuleLine` | bzlreg/module_bazel.cc:78-93 | a rendered `module` line reads back as its name, version and compatibility level |
| `ModuleBazel.ParseManifestText` | bzlreg/module_bazel.cc:73-114 | parsing a rendered manifest gives the manifest back |
| `GetRegistries.RegistryFlagValue` | bzlmod/get_registries.cc:19-32 | a value only for a line that contains `--registry=`; the value is non-blank and holds no further flag |
| `GetRegistries.RegistryFlagAfterOption` | bzlmod/get_registries.cc:19-32 | `<option>--registry=<value>` yields the value, unstripped |
| `GetRegistries.RegistryFlagAtStart` | bzlmod/get_registries.cc:19-32 | a line beginning with `--registry=` yields no value |
| `GetRegistries.ImportOf` | bzlmod/get_registries.cc:34-49 | an import exactly for lines starting with `try-import` or `import`; the path is stripped |
| `GetRegistries.ImportOfLine` | bzlmod/get_registries.cc:34-49 | `try-import`/`import`, blank text, then a path yields that path |
| `GetRegistries.Classify` | bzlmod/get_registries.cc:64-76 | blank lines are ignored; an import beats a registry flag; a registry is read only from a non-comment line with no import |
| `GetRegistries.CommentIgnored` | bzlmod/get_registries.cc:15-17 | a line starting with `#` is ignored |
| `GetRegistries.ClassifyRegistryLine` | bzlmod/get_registries.cc:72-76 | `<option>--registry=<url>` is classified as the registry `url` |
| `GetRegistries.ClassifyPlain` | bzlmod/get_registries.cc:64-76 | a line that is neither a comment, an import nor a registry flag is ignored |
| `GetRegistries.Kinds` | bzlmod/get_registries.cc:63-77 | one classification per line, in file order; a blank line is ignored, and a registry comes only from a non-comment line holding `--registry=` and names a non-blank URL |
| `GetRegistries.GatherRegistries` | bzlmod/get_registries.cc:72-76 | a registry is gathered exactly when some line names it |
| `GetRegistries.GatherAppend` | bzlmod/get_registries.cc:59-79 | registries and imports keep file order: the lines of `a + b` gather into those of `a` followed by those of `b` |
| `GetRegistries.ParseLinesAppend` | bzlmod/get_registries.cc:59-79 | parsing concatenated lines concatenates the results |
| `GetRegistries.ParseLinesRegistries` | bzlmod/get_registries.cc:56-80 | a registry is in a file's result exactly when one of its lines is classified as that registry |
| `GetRegistries.ParseBazelrc` | bzlmod/get_registries.cc:56-80 | the line loop returns the file's `ParseFile` result, and an unreadable file gives an empty one |
| `GetRegistries.AlreadyHasImport` | bzlmod/get_registries.cc:88-96 | true exactly when the import is in the file's import list |
| `GetRegistries.ParseBazelrcRecursive` | bzlmod/get_registries.cc:82-124 | the recursive parse equals the single-file parse: every import is already listed, so none is followed |
| `GetRegistries.PerFile` | bzlmod/get_registries.cc:162-169 | for each search-path file, a URL is among its registries exactly when the file is readable and one of its lines is classified as that registry |
| `GetRegistries.SearchPathAppend` | bzlmod/get_registries.cc:162-169 | per-file registries are concatenated in search-path order, with no deduplication |
| `GetRegistries.Resolved` | bzlmod/get_registries.cc:156-176 | the registry list is never empty |
| `GetRegistries.ResolvedFallback` | bzlmod/get_registries.cc:171-173 | exactly `https://bcr.bazel.build` when no file names a registry; otherwise the concatenation |
| `GetRegistries.GetRegistries` | bzlmod/get_registries.cc:156-176 | always returns a list, the `Resolved` one |
| `RegistryAddModule.ParseUrlText` | bzlreg/add_module.cc:103-104 | an `https://host/path` URL parses back to its host and path |
| `RegistryAddModule.Filename` | bzlreg/add_module.cc:104 | the file name is the path's last segment: no `/`, a suffix of the path after a `/` |
| `RegistryAddModule.SplitMax` | bzlreg/add_module.cc:68-69 | at most `n + 1` pieces; two or more exactly when the separator occurs; the first piece ends at the first separator |
| `RegistryAddModule.InferRepositoryAsWrittenOfPath` | bzlreg/add_module.cc:64-76 | as written, a GitHub archive path `/owner/repo/...` infers `github:/owner` |
| `RegistryAddModule.InferRepositoryAsWrittenLosesRepository` | bzlreg/add_module.cc:64-76 | as written, the inferred repository differs from the intended `github:owner/repo` |
| `RegistryAddModule.InferRepository` | bzlreg/add_module.cc:64-76 | a repository is inferred only for host `github.com`, and it starts with `github:` |
| `RegistryAddModule.InferRepositoryOfPath` | bzlreg/add_module.cc:64-76 | corrected: `/owner/repo/...` on `github.com` infers `github:owner/repo` |
| `RegistryAddModule.ManifestPath` | bzlreg/add_module.cc:124-128 | `MODULE.bazel`, or `<strip_prefix>/MODULE.bazel` for a non-empty prefix |
| `RegistryAddModule.ExtractManifest` | bzlreg/add_module.cc:121-132 | the manifest is the contents of the entry the tar lookup finds at that path; it is missing exactly when the lookup finds nothing |
| `RegistryAddModule.Prepare` | bzlreg/add_module.cc:83-139 | no registry, a URL not starting with `https://` or `http://`, or a file name not ending in `.tar.gz` or `.tgz` each stop the command; a prepared version has the archive's integrity and its parsed manifest |
| `RegistryAddModule.FromArchive` | bzlreg/add_module.cc:121-139 | from a decompressed archive: the manifest the lookup finds, and its parse |
| `RegistryAddModule.Register` | bzlreg/add_module.cc:141-186 | a listed version is refused; a new one is appended to `versions`. The repository is inferred only when the list is empty, and nothing else in the metadata changes. The new `source.json` has `patch_strip` 0 and no patches |
| `RegistryAddModule.AddTwiceRejected` | bzlreg/add_module.cc:161-172 | adding the same archive again to the updated metadata is refused as a duplicate |
| `RegistryAddModule.RegisterTwice` | bzlreg/add_module.cc:161-172 | registering the same version against its own updated metadata is refused |
| `RegistryAddModule.AddKeepsVersionsDistinct` | bzlreg/add_module.cc:161-172 | a versions list without duplicates stays without duplicates |
| `RegistryAddModule.AppendKeepsDistinct` | bzlreg/add_module.cc:172 | appending a value not yet in a duplicate-free list keeps it duplicate-free |
| `RegistryAddModule.PrepareArchive` | bzlreg/add_module.cc:83-139 | the checks, download, digest, decompression and manifest parse return what `Prepare` gives |
| `RegistryAddModule.ReadManifest` | bzlreg/add_module.cc:123-139 | the manifest lookup and parse return what `FromArchive` gives |
| `RegistryAddModule.IsListed` | bzlreg/add_module.cc:161-170 | the duplicate loop finds the version exactly when it is listed |
| `RegistryAddModule.RegisterVersion` | bzlreg/add_module.cc:141-186 | the metadata and source steps return what `Register` gives |
| `RegistryAddModule.AddModule` | bzlreg/add_module.cc:78-207 | the whole command returns what `AddModuleSpec` gives |
| `BazelExec.ModuleFromLabel` | bzlreg/bazel_exec.cc:17-21 | the text after `@` up to the first `/`, or to the end |
| `BazelExec.ModuleFromLabelOf` | bzlreg/bazel_exec.cc:17-21 | `@name/path` and `@name` both give `name` |
| `BazelExec.BazelExec` | bzlreg/bazel_exec.cc:23-114 | a label without `@` gives 1. An empty versions list throws. Bazel runs only after the integrity step exits 0; a non-zero integrity code is returned unchanged |
| `BazelExec.ExecDependsOnLastVersion` | bzlreg/bazel_exec.cc:56-80 | the generated `MODULE.bazel` depends on exactly the module at its last listed version |
| `BazelExec.BazelrcRegistries` | bzlreg/bazel_exec.cc:90-95 | the generated `.bazelrc` names the local `file://` registry, then `https://bcr.bazel.build` |
| `BazelExec.EnableLineIgnored` | bzlreg/bazel_exec.cc:90 | the `--enable_bzlmod` line is classified as ignored by the bazelrc reader |
| `BazelExec.EnableLineNamesNoRegistry` | bzlreg/bazel_exec.cc:90 | the `--enable_bzlmod` line holds no `--registry=` flag |
| `BazelExec.RegistryLine` | bzlreg/bazel_exec.cc:91-95 | `common --registry=<url>` is read back by the bazelrc reader as the registry `url` |
| `BazelExec.LocalRegistryLine` | bzlreg/bazel_exec.cc:91-94 | the second generated line is read back as the registry `file://<registry path>` |
| `BazelExec.CentralRegistryLine` | bzlreg/bazel_exec.cc:95 | the third generated line is read back as `https://bcr.bazel.build` |
| `RegistryResolve.LatestVersion` | bzlmod/add_module.cc:68-72 | a non-empty slot is one of the versions the registry's `metadata.json` lists, the last one; no metadata or no version leaves the slot empty |
| `RegistryResolve.Slots` | bzlmod/add_module.cc:52-74 | one slot per registry, in registry order; every non-empty slot is a version its own registry's metadata lists |
| `RegistryResolve.FillSlots` | bzlmod/add_module.cc:52-74 | the per-registry jobs, in any order, leave the slots `Slots` specifies |
| `RegistryResolve.FirstFilled` | bzlmod/add_module.cc:76-83 | the first non-empty slot; every earlier slot is empty, and none is found only when all are empty |
| `RegistryResolve.FirstFilledIs` | bzlmod/add_module.cc:76-83 | a filled slot with only empty slots before it is the one selected |
| `RegistryResolve.SelectVersion` | bzlmod/add_module.cc:76-83 | the `break` loop picks the first non-empty slot |
| `RegistryResolve.ResolvedIsFirstRegistry` | bzlmod/add_module.cc:76-91 | the resolved version is the last version of the first registry that lists one; nothing is resolved exactly when no registry lists one |
| `RegistryResolve.ResolvedSkipsEmptyRegistry` | bzlmod/add_module.cc:76-83 | a registry that lists no version, put first, changes nothing |
| `RegistryResolve.ResolveVersion` | bzlmod/add_module.cc:52-83 | filling the slots then selecting gives the first-registry version |
| `BzlmodAddModule.ReportOf` | bzlmod/add_module.cc:119-137 | exit 0 is "added", exit 3 "already added", anything else a failure; the report keeps buildozer's exit code, which `CodeOf` gives back |
| `BzlmodAddModule.AddModuleSpec` | bzlmod/add_module.cc:21-140 | runs exactly with buildozer, a workspace, registries and a resolved version; that version is set; a failed resolution lists every registry |
| `BzlmodAddModule.AddModuleSucceeds` | bzlmod/add_module.cc:76-139 | success means the version came from the first registry listing one and buildozer exited 0 or 3, and conversely; no registry listing a version is a failure listing them all |
| `BzlmodAddModule.AddModule` | bzlmod/add_module.cc:21-140 | the command returns `AddModuleSpec` and its exit code |
| `BzlmodUpdateModule.Lines` | bzlmod/update_module.cc:42-49 | the `getline` lines: none contains a newline |
| `BzlmodUpdateModule.LinesJoin` | bzlmod/update_module.cc:42-49 | for output ending in a newline, the lines joined with newlines give the output back |
| `BzlmodUpdateModule.DepOfLine` | bzlmod/update_module.cc:44-48 | the name runs to the first space and the version is the rest; with no space both are the whole line |
| `BzlmodUpdateModule.DepOfLineRoundTrip` | bzlmod/update_module.cc:44-48 | `name version` with a space-free name reads back as that dependency |
| `BzlmodUpdateModule.AllDeps` | bzlmod/update_module.cc:28-52 | one dependency per output line, in order; a `name version` line splits back into that name and version, and no name holds a space or a newline |
| `BzlmodUpdateModule.GetAllDeps` | bzlmod/update_module.cc:42-49 | the `getline` loop builds `AllDeps` |
| `BzlmodUpdateModule.MaxNameLengthIsMax` | bzlmod/update_module.cc:86-92 | the longest name length bounds every name and is the length of one of them (0 for no dependency) |
| `BzlmodUpdateModule.LongestNameLength` | bzlmod/update_module.cc:86-92 | the loop computes the longest name length |
| `BzlmodUpdateModule.LongestFits` | bzlmod/update_module.cc:86-100 | no name is longer than the longest |
| `BzlmodUpdateModule.Padding` | bzlmod/update_module.cc:99-100 | only spaces, padding the name exactly to the width |
| `BzlmodUpdateModule.BumpLineAligned` | bzlmod/update_module.cc:171-178 | the printed line is the padded name, a space, then `<current> -> <new>` |
| `BzlmodUpdateModule.StepOf` | bzlmod/update_module.cc:94-187 | skipped exactly for an empty or `(missing)` version; warned exactly when no registry lists one; otherwise buildozer's code gives bumped (0), no change (3) or failure |
| `BzlmodUpdateModule.PrependTwice` | bzlmod/update_module.cc:171-178 | lines and warnings are reported in dependency order |
| `BzlmodUpdateModule.RunFailsIffBuildozerFails` | bzlmod/update_module.cc:169-187 | the loop fails exactly when buildozer fails on some dependency |
| `BzlmodUpdateModule.RunLinesFromDeps` | bzlmod/update_module.cc:137-178 | each printed line comes from a bumped dependency, and each warning names a dependency no registry knows |
| `BzlmodUpdateModule.RunLinesAligned` | bzlmod/update_module.cc:99-178 | with every name within the width, each printed line has its current version at the same column |
| `BzlmodUpdateModule.UpdateDep` | bzlmod/update_module.cc:94-187 | one loop turn returns `StepOf` |
| `BzlmodUpdateModule.RunUnfold` | bzlmod/update_module.cc:94-188 | the run from a dependency on: stops at a failure, else adds this dependency's line or warning |
| `BzlmodUpdateModule.UpdateDeps` | bzlmod/update_module.cc:94-188 | the dependency loop returns the `Run` report |
| `BzlmodUpdateModule.UpdateModuleSpec` | bzlmod/update_module.cc:55-191 | the loop runs exactly with buildozer, a workspace and registries; it then reports the `Run` of the listing's dependencies, padded to the longest name |
| `BzlmodUpdateModule.UpdateModuleSucceeds` | bzlmod/update_module.cc:55-191 | exit 0 exactly when buildozer, a workspace and registries are there and buildozer fails on none of the listed dependencies |
| `BzlmodUpdateModule.UpdateModuleLinesAligned` | bzlmod/update_module.cc:85-178 | every line the command prints puts the current version in one column, just past the longest dependency name |
| `BzlmodUpdateModule.UpdateModule` | bzlmod/update_module.cc:55-191 | the command returns `UpdateModuleSpec` and its exit code |
| `BzlmodGitOverride.EntryOf` | bzlmod/git_override.cc:77-91 | an entry belongs to its registry; a non-empty version is one its metadata lists, and non-empty repositories are that metadata's list |
| `BzlmodGitOverride.Entries` | bzlmod/git_override.cc:63-92 | one entry per registry, in order; each entry's non-empty version is listed by that registry's metadata |
| `BzlmodGitOverride.FillEntries` | bzlmod/git_override.cc:63-92 | the per-registry jobs, in any order, leave the entries `Entries` specifies |
| `BzlmodGitOverride.FoundEntry` | bzlmod/git_override.cc:94-101 | an entry is found exactly when a version resolves; it is the first registry's entry with a version |
| `BzlmodGitOverride.SelectEntry` | bzlmod/git_override.cc:94-101 | the `break` loop picks `FoundEntry` |
| `BzlmodGitOverride.GithubRepo` | bzlmod/git_override.cc:117-123 | a non-empty result is some repository with `github:` removed |
| `BzlmodGitOverride.GithubRepoIsFirst` | bzlmod/git_override.cc:117-123 | the first `github:` repository wins |
| `BzlmodGitOverride.FindGithubRepo` | bzlmod/git_override.cc:117-123 | the `break` loop returns `GithubRepo` |
| `BzlmodGitOverride.RemoteOfRepository` | bzlmod/git_override.cc:130-150 | `owner/repo` gives remote `git@github.com:owner/repo.git` and the `gh api repos/owner/repo/commits/<committish>` query |
| `BzlmodGitOverride.GithubRepoOfOne` | bzlmod/git_override.cc:117-123 | a single `github:` repository is taken with its prefix removed |
| `BzlmodGitOverride.RemoteOfInferredRepository` | bzlmod/git_override.cc:130-133 | with the corrected inference, a registered GitHub archive gives the remote `git@github.com:owner/repo.git` |
| `BzlmodGitOverride.RemoteOfAsWrittenRepository` | bzlmod/git_override.cc:130-133 | with the inference as written, the remote is `git@github.com:/owner.git` |
| `BzlmodGitOverride.RemoteOfLeadingSlash` | bzlmod/git_override.cc:130-133 | a repository starting with `/` splits into an empty org |
| `BzlmodGitOverride.GitOverrideSpec` | bzlmod/git_override.cc:33-166 | appends exactly with buildozer, a workspace, registries, a resolved entry with a GitHub repository and a non-empty commit. The appended snippet carries the first line `gh` prints for the committish (default `HEAD`) and the remote of that repository. A failed resolution lists every registry |
| `BzlmodGitOverride.GitOverrideSucceeds` | bzlmod/git_override.cc:33-166 | exit 0 exactly when the module resolves, its metadata names a GitHub repository and `gh` prints a commit |
| `BzlmodGitOverride.GitOverrideAppendsAgain` | bzlmod/git_override.cc:112-115 | the file is opened for append: a second run appends a second snippet and keeps the first |
| `BzlmodGitOverride.GitOverride` | bzlmod/git_override.cc:33-166 | the command returns `GitOverrideSpec` and its exit code |
| `BzlmodPatchModule.TrimmedEnd` | bzlmod/patch_module.cc:44-46 | a prefix of the line, not ending in `\r` or `\n`, followed only by `\r` and `\n` |
| `BzlmodPatchModule.TrimmedEndIdempotent` | bzlmod/patch_module.cc:44-46 | trimming twice is trimming once |
| `BzlmodPatchModule.TrimmedEndOf` | bzlmod/patch_module.cc:44-46 | trimming removes exactly the trailing line ends |
| `BzlmodPatchModule.TrimLineEnd` | bzlmod/patch_module.cc:44-46 | the `pop_back` loop returns `TrimmedEnd` |
| `BzlmodPatchModule.ModuleVersion` | bzlmod/patch_module.cc:50-73 | never `(missing)`: the trimmed first line of buildozer's output, with `(missing)` read as empty |
| `BzlmodPatchModule.GetModuleVersion` | bzlmod/patch_module.cc:50-73 | the read, trim and `(missing)` check return `ModuleVersion` |
| `BzlmodPatchModule.FirstSource` | bzlmod/patch_module.cc:80-104 | nothing exactly when no registry's `source.json` downloads |
| `BzlmodPatchModule.FirstSourceIsFirstRegistry` | bzlmod/patch_module.cc:85-103 | the config and the registry are those of the first registry whose `source.json` downloads |
| `BzlmodPatchModule.DownloadSourceInfo` | bzlmod/patch_module.cc:80-104 | the loop with early return gives `FirstSource` |
| `BzlmodPatchModule.ExtractedFilesFromEntries` | bzlmod/patch_module.cc:112-125 | every extracted file comes from a non-directory entry and holds its contents |
| `BzlmodPatchModule.ExtractedLastWins` | bzlmod/patch_module.cc:112-125 | a file entry not overwritten by a later one is extracted with its contents |
| `BzlmodPatchModule.ExtractArchiveTo` | bzlmod/patch_module.cc:106-126 | the loop writes the files `ExtractedFiles` specifies; entries ending in `/` are directories |
| `BzlmodPatchModule.AbsoluteEntryEscapes` | bzlmod/patch_module.cc:106-126 | a file entry with an absolute name is written at that name, not under the output directory |
| `BzlmodPatchModule.PathJoin` | bzlmod/patch_module.cc:113 | `operator/`: an absolute right-hand side replaces the left; a relative one ends the result, which starts with the left-hand side |
| `BzlmodPatchModule.Candidates` | bzlmod/patch_module.cc:263-278 | four directories in the order tried, ending in `name~version`, `name+version`, `name+` and `name~`; all under `external` unless the name is absolute |
| `BzlmodPatchModule.FirstExisting` | bzlmod/patch_module.cc:265-278 | the first candidate that exists; none before it exists |
| `BzlmodPatchModule.FirstNamedAfter` | bzlmod/patch_module.cc:283-291 | the first directory entry starting with `name~` or `name+`; none before it does |
| `BzlmodPatchModule.FirstNamedAfterIs` | bzlmod/patch_module.cc:283-291 | an entry named after the module, with none before it, is the one the scan finds |
| `BzlmodPatchModule.FirstExistingOfCandidates` | bzlmod/patch_module.cc:263-278 | the `if`/`else` chain of existence checks picks the same directory as the first existing candidate |
| `BzlmodPatchModule.EditedDir` | bzlmod/patch_module.cc:261-301 | an edited directory is one that exists |
| `BzlmodPatchModule.EditedDirPrefersCandidates` | bzlmod/patch_module.cc:263-278 | the first existing candidate wins, whatever the directory scan would find |
| `BzlmodPatchModule.EditedDirFallsBackToScan` | bzlmod/patch_module.cc:280-293 | with no candidate existing, the first directory named after the module is taken |
| `BzlmodPatchModule.FindEditedDir` | bzlmod/patch_module.cc:261-301 | the chain of existence checks ends at `LastTried` and succeeds exactly when `EditedDir` finds one |
| `BzlmodPatchModule.TryCandidates` | bzlmod/patch_module.cc:263-278 | the four checks end at the first existing candidate, else at `name~` |
| `BzlmodPatchModule.ScanExternal` | bzlmod/patch_module.cc:283-291 | the `break` loop finds `FirstNamedAfter` |
| `BzlmodPatchModule.OverrideSnippetMentions` | bzlmod/patch_module.cc:394-404 | the appended block names `single_version_override` and the module's `module_name` |
| `BzlmodPatchModule.UpdatedManifestIdempotent` | bzlmod/patch_module.cc:371-405 | after the update an override is detected, so a second run leaves the file as it is |
| `BzlmodPatchModule.AlreadyHasOverrideAcrossBlocks` | bzlmod/patch_module.cc:379-383 | the check reads the whole file: the module name and the rule anywhere count, even in different blocks |
| `BzlmodPatchModule.PatchModuleSpec` | bzlmod/patch_module.cc:130-408 | on success the patch is `<name>+<version>.patch`, the source came from a registry, and the manifest gains the override unless one was detected (then a warning). A missing edited copy reports the last path tried |
| `BzlmodPatchModule.PatchModuleSucceeds` | bzlmod/patch_module.cc:130-408 | exit 0 exactly when every step succeeds: tools, workspace, a version, a registry with `source.json`, the prepared source, an existing edited copy and a diff tool |
| `BzlmodPatchModule.PatchModule` | bzlmod/patch_module.cc:130-408 | the command returns `PatchModuleSpec` and its exit code |
| `FindWorkspaceDir.Parent` | bzlmod/find_workspace_dir.cc:14-15 | the parent drops the last name; the root is its own parent |
| `FindWorkspaceDir.FindAsWritten` | bzlmod/find_workspace_dir.cc:7-19 | as written: a found directory holds `MODULE.bazel` and is the start or an ancestor; nothing is returned only for a relative path |
| `FindWorkspaceDir.AsWrittenDivergesAtRoot` | bzlmod/find_workspace_dir.cc:14-16 | as written, an absolute start with no `MODULE.bazel` up to the root recurses forever |
| `FindWorkspaceDir.AsWrittenDivergesOnEmptyRoot` | bzlmod/find_workspace_dir.cc:14-16 | as written, starting at `/` with no manifest anywhere never returns |
| `FindWorkspaceDir.FindWorkspace` | bzlmod/find_workspace_dir.cc:7-19 | corrected: a result holds `MODULE.bazel` and is the start directory or an ancestor |
| `FindWorkspaceDir.FindWorkspaceIsNearest` | bzlmod/find_workspace_dir.cc:7-19 | the result is the nearest such directory, and none exists when the search gives nothing |
| `FindWorkspaceDir.AsWrittenAgreesWhenFound` | bzlmod/find_workspace_dir.cc:10-16 | whenever a `MODULE.bazel` exists on the way up, the code as written finds the same directory |
| `FindWorkspaceDir.AsWrittenAgreesOnRelative` | bzlmod/find_workspace_dir.cc:7-19 | on a relative path the code as written ends and agrees with the corrected search |

## Left out

- Process spawning, standard output and error messages are not modelled. Each program is a function of its arguments; only results and exit codes are kept.
- JSON parsing and dumping of `metadata.json`, `source.json` and `bazel_registry.json` are left out. The configs are Dafny datatypes and a failed parse is a missing value. `config_types.hh` is not part of this model; the source config here carries the `overlay` map that `bzlreg/util.cc` reads and writes.
- SHA-256, OpenSSL's digest context and libdeflate's inflater are oracles. They are not re-proved.
- Directory iteration (`recursive_directory_iterator`, `directory_iterator`) gives its entries as a list in directory order, which is arbitrary. `fs::proximate` is assumed to give the `patches/...` and `overlay/...` paths.
- `bzlreg/calc_integrity.cc` (the per-version driver that `bazel-exec` calls) is not part of this model. `bazel-exec` takes its exit code as a parameter.
- The PAX record parser of `tar_view_file` is not modelled. On a non-empty block its loop never ends, and on an empty one `size()` aborts. Every `x` entry is therefore an error value in the model, not a name and size taken from the PAX records.
- `string_view()` of a tar entry, which builds a view that runs past the buffer, is left out. `Contents` returns none in that case.
- `get_default_bazelrc_paths` reads `HOME`, `USERPROFILE` and `ProgramData`. The search path is a parameter of `GetRegistries.GetRegistries` instead.
- `%workspace%` substitution in imports is not modelled. The import branch is unreachable, so `GetRegistries.ParseBazelrcRecursive` proves that branch dead and never performs it.
- `ModuleBazel.ModuleOf`: a `module` call without `name` throws `std::out_of_range` from `.at` in the source. The model returns the error value `MissingName` instead.
- `BazelExec.BazelExec`: an empty `versions` list throws from `.at` in the source. The model returns the error value `Threw`.
- `RegistryAddModule.ParseUrl` reads only an `http(s)://` authority up to the first `/`, `?` or `#`, then the path up to `?` or `#`. Percent-decoding, userinfo, ports, IPv6 literals and the rest of RFC 3986 are left out.
- `RegistryAddModule.Prepare` digests the archive with the `sha256-` integrity of `Integrity.CalcIntegrity`. The source's own copy, `calc_sha256_integrity`, signals failure with an empty string instead of a missing value; both reject the archive.
- The warnings about an empty `maintainers` list or `homepage` only print, so they are not modelled. The directories `add-module` creates are left out too.
- `BzlmodUpdateModule.LongestNameLength`: the source keeps the longest length in an `int` compared with `size_t`. The model uses unbounded naturals and omits overflow, which needs a name longer than 2^31 bytes.
- The first buildozer call of `add` and `update` (`new bazel_dep`) is modelled as made and ignored. Its effect on `MODULE.bazel` is not modelled; buildozer's answer to `set version` stands for the edited file.
- `git-override` searches for `gh` but does not check that it was found. The model makes `gh` a function of its arguments, so an absent `gh` is an empty answer. The `gh` process is never waited for; only its first output line is read.
- The `repository` list in `metadata.json` is optional in the source and a plain list in the model; an absent list is the empty list.
- `BzlmodPatchModule.PatchModuleSpec`: downloading and extracting the original archive, applying existing patches and overlay files, renaming, symlinking or copying, and running `git diff` or `diff` are summarised by two booleans. `sourceReady` says whether the archive, the patches and the overlay files all arrived and applied. `hasDiffTool` says whether `git` or `diff` exists. The temporary directory and the patch file's contents are not modelled.
- `RegistryAddModule.Register` stores the repository the corrected `InferRepository` gives, `github:owner/repo`. For a github.com archive the source stores `github:/owner` (see the `bzlreg/add_module.cc` finding).
- `RegistryAddModule.RegisterVersion` inherits that difference from `Register`.
- `RegistryAddModule.AddModule` inherits that difference from `Register`.
- `BzlmodAddModule.AddModuleSpec` looks for the workspace with the corrected `FindWorkspace`. For an absolute start directory with no `MODULE.bazel` up to `/`, it returns `NoWorkspace`, where the source never returns (see the `bzlmod/find_workspace_dir.cc` finding).
- `BzlmodUpdateModule.UpdateModuleSpec` has the same workspace-search difference as `AddModuleSpec`.
- `BzlmodGitOverride.GitOverrideSpec` has the same workspace-search difference as `AddModuleSpec`.
- `BzlmodPatchModule.PatchModuleSpec` has the same workspace-search difference as `AddModuleSpec`.
- `FindWorkspaceDir.FindAsWritten` takes a recursion depth so that the non-terminating search can be stated; `Unfinished` means the depth ran out.

## Findings

| source | as written | input that shows it | evidently intended | confidence | as-written member | corrected member |
|---|---|---|---|---|---|---|
| bzlmod/find_workspace_dir.cc:14-16 | recurses on `parent_path()` while `has_parent_path()`; the parent of `/` is `/` and it has a parent path, so the recursion never ends | an absolute start directory with no `MODULE.bazel` in it or any ancestor, e.g. `/` itself with no manifest | return `nullopt` after checking the root | high, not executed | `FindWorkspaceDir.AsWrittenDivergesAtRoot` | `FindWorkspaceDir.FindWorkspaceIsNearest` |
| bzlreg/add_module.cc:64-76 | splits `url.path()`, which starts with `/`, so piece 0 is empty and the repository becomes `github:/<owner>` | `https://github.com/owner/repo/archive/v1.tar.gz` gives `github:/owner` | `github:owner/repo` | high, not executed | `RegistryAddModule.InferRepositoryAsWrittenLosesRepository` | `RegistryAddModule.InferRepositoryOfPath` |

The rest of the model uses the corrected definitions:

- `RegistryAddModule.Register` infers the repository with `InferRepository`.
- Every command finds the workspace with `FindWorkspace`.
- `BzlmodGitOverride.RemoteOfAsWrittenRepository` shows what the first finding costs downstream: a registry entry added by `bzlreg add-module` yields the remote `git@github.com:/owner.git` in `bzlmod git-override`.
