/**
 * Integrity strings and the refresh of a `source.json` (bzlreg/util.cc).
 * An integrity is `sha256-` followed by the base64 of the SHA-256 digest;
 * the digest itself is a parameter (`None` when an OpenSSL step fails).
 * The refresh digests every patch and overlay file of a module version,
 * one slot per file, and rewrites the `patches` and `overlay` maps only
 * when every file could be digested.
 */
module Integrity {
  import opened Common
  import Base64

  const IntegrityPrefix: string := "sha256-"

  /** `calc_integrity`: None when a digest step fails. */
  function CalcIntegrity(data: seq<byte>, sha256: seq<byte> -> Option<seq<byte>>): (r: Option<string>)
    ensures r.Some? <==> sha256(data).Some?
    ensures r.Some? ==> StartsWith(r.value, IntegrityPrefix)
  {
    match sha256(data)
    case None => None
    case Some(digest) => Some(IntegrityPrefix + Base64.Encode(digest))
  }

  /** The digest can be read back from an integrity string. */
  lemma IntegrityNamesDigest(data: seq<byte>, sha256: seq<byte> -> Option<seq<byte>>)
    requires sha256(data).Some?
    ensures var s := CalcIntegrity(data, sha256).value;
      Base64.Decode(s[|IntegrityPrefix|..]) == sha256(data)
  {
    var digest := sha256(data).value;
    var s := IntegrityPrefix + Base64.Encode(digest);
    assert s[|IntegrityPrefix|..] == Base64.Encode(digest);
    Base64.DecodeEncode(digest);
  }

  /** Contents with different digests get different integrity strings. */
  lemma IntegrityDistinguishesDigests(a: seq<byte>, b: seq<byte>, sha256: seq<byte> -> Option<seq<byte>>)
    requires sha256(a).Some? && sha256(b).Some? && sha256(a) != sha256(b)
    ensures CalcIntegrity(a, sha256) != CalcIntegrity(b, sha256)
  {
    IntegrityNamesDigest(a, sha256);
    IntegrityNamesDigest(b, sha256);
  }

  /** The error texts the refresh reports. */
  const NoSuchFile: string := "No such file or directory"
  const IoError: string := "Input/output error"
  const CalcFailed: string := "calc_integrity() failed"

  datatype Read = Contents(data: seq<byte>) | ReadError(message: string)

  /** `read_file_contents` on a file holding `file` (None when it cannot be
      opened): an empty file is reported as an I/O error. */
  function ReadFileContents(file: Option<seq<byte>>): (r: Read)
    ensures r.Contents? <==> file.Some? && file.value != []
    ensures r.Contents? ==> r.data == file.value
    ensures r.ReadError? ==> r.message != []
  {
    match file
    case None => ReadError(NoSuchFile)
    case Some(data) => if data == [] then ReadError(IoError) else Contents(data)
  }

  /** A `source.json`, with the `overlay` map the refresh reads and writes. */
  datatype SourceConfig = SourceConfig(
    integrity: string,
    stripPrefix: string,
    patchStrip: int,
    patches: map<string, string>,
    overlay: map<string, string>,
    url: string)

  const PatchesPrefix: string := "patches/"
  const OverlayPrefix: string := "overlay/"
  const ParentPrefix: string := ".."

  /** Registered paths that lead out of the module directory. None of
      them lies under `patches/` or `overlay/`, so none is a file the
      directory walk finds or a key the rebuilt maps hold. */
  function ParentRefs(m: map<string, string>): (refs: set<string>)
    ensures forall p :: p in refs <==> p in m && StartsWith(p, ParentPrefix)
    ensures forall p :: p in refs ==> !StartsWith(p, PatchesPrefix) && !StartsWith(p, OverlayPrefix)
  {
    var refs := set p | p in m && StartsWith(p, ParentPrefix);
    assert forall p :: p in refs ==> !StartsWith(p, PatchesPrefix) && !StartsWith(p, OverlayPrefix) by {
      forall p | p in refs ensures !StartsWith(p, PatchesPrefix) && !StartsWith(p, OverlayPrefix) {
        assert p[0] == ParentPrefix[0];
      }
    }
    refs
  }

  /** The paths whose integrity is computed: the files found under
      `patches/` and `overlay/` (relative to the module directory) and the
      registered paths starting with `..`. */
  function Candidates(patchFiles: seq<string>, overlayFiles: seq<string>, source: SourceConfig): (c: set<string>)
    ensures forall p :: p in c <==>
      p in patchFiles || p in overlayFiles ||
      (StartsWith(p, ParentPrefix) && (p in source.patches || p in source.overlay))
  {
    (set p | p in patchFiles) + (set p | p in overlayFiles) + ParentRefs(source.patches) + ParentRefs(source.overlay)
  }

  /** What the step for one path writes: its integrity slot and its error
      slot, read from that path's own file only. */
  datatype Slot = Slot(integrity: string, error: string)

  function Digest(file: Option<seq<byte>>, sha256: seq<byte> -> Option<seq<byte>>): (s: Slot)
    ensures s.error == [] <==> ReadFileContents(file).Contents? && CalcIntegrity(ReadFileContents(file).data, sha256).Some?
    ensures s.error == [] ==> s.integrity == CalcIntegrity(file.value, sha256).value
    ensures s.error != [] ==> s.integrity == []
  {
    match ReadFileContents(file)
    case ReadError(message) => Slot([], message)
    case Contents(data) =>
      match CalcIntegrity(data, sha256)
      case None => Slot([], CalcFailed)
      case Some(integrity) => Slot(integrity, [])
  }

  function Integrities(cands: set<string>, files: string -> Option<seq<byte>>, sha256: seq<byte> -> Option<seq<byte>>): map<string, string> {
    map p | p in cands :: Digest(files(p), sha256).integrity
  }

  function Errors(cands: set<string>, files: string -> Option<seq<byte>>, sha256: seq<byte> -> Option<seq<byte>>): map<string, string> {
    map p | p in cands :: Digest(files(p), sha256).error
  }

  /** The paths of `slots` under `prefix`, with the prefix removed. */
  function Stripped(paths: set<string>, prefix: string): set<string> {
    set p | p in paths && StartsWith(p, prefix) :: p[|prefix|..]
  }

  /** The slots under `prefix`, keyed by the path with the prefix removed. */
  function Rebuilt(slots: map<string, string>, prefix: string): map<string, string> {
    map k | k in Stripped(slots.Keys, prefix) && prefix + k in slots :: slots[prefix + k]
  }

  /** The rebuilt map holds exactly the slots under the prefix. */
  lemma RebuiltKeys(slots: map<string, string>, prefix: string, k: string)
    ensures k in Rebuilt(slots, prefix) <==> prefix + k in slots
    ensures k in Rebuilt(slots, prefix) ==> Rebuilt(slots, prefix)[k] == slots[prefix + k]
  {
    var p := prefix + k;
    if p in slots {
      assert p[..|prefix|] == prefix && p[|prefix|..] == k;
      assert k in Stripped(slots.Keys, prefix);
    }
  }

  /** The outcome of `calc_source_integrity`: the errors reported with the
      file left as it was, or the config written back. */
  datatype Outcome = Unchanged(errors: map<string, string>) | Updated(source: SourceConfig)

  /** `calc_source_integrity`, all or nothing. */
  function SourceIntegrity(source: SourceConfig, patchFiles: seq<string>, overlayFiles: seq<string>,
                           files: string -> Option<seq<byte>>, sha256: seq<byte> -> Option<seq<byte>>): Outcome
  {
    var cands := Candidates(patchFiles, overlayFiles, source);
    var errors := Errors(cands, files, sha256);
    if exists p :: p in errors && errors[p] != [] then Unchanged(errors)
    else
      var slots := Integrities(cands, files, sha256);
      Updated(source.(overlay := Rebuilt(slots, OverlayPrefix), patches := Rebuilt(slots, PatchesPrefix)))
  }

  /** One failing path leaves the file untouched; otherwise the file is
      rewritten, and only its `patches` and `overlay` change. */
  lemma AllOrNothing(source: SourceConfig, patchFiles: seq<string>, overlayFiles: seq<string>,
                     files: string -> Option<seq<byte>>, sha256: seq<byte> -> Option<seq<byte>>)
    ensures var r := SourceIntegrity(source, patchFiles, overlayFiles, files, sha256);
      var cands := Candidates(patchFiles, overlayFiles, source);
      (r.Unchanged? <==> exists p :: p in cands && Digest(files(p), sha256).error != []) &&
      (r.Updated? ==> r.source.(patches := source.patches, overlay := source.overlay) == source)
  {
    var cands := Candidates(patchFiles, overlayFiles, source);
    var errors := Errors(cands, files, sha256);
    if exists p :: p in cands && Digest(files(p), sha256).error != [] {
      var p :| p in cands && Digest(files(p), sha256).error != [];
      assert errors[p] != [];
    }
  }

  lemma UpdatedSlots(source: SourceConfig, patchFiles: seq<string>, overlayFiles: seq<string>,
                     files: string -> Option<seq<byte>>, sha256: seq<byte> -> Option<seq<byte>>)
    requires SourceIntegrity(source, patchFiles, overlayFiles, files, sha256).Updated?
    ensures var r := SourceIntegrity(source, patchFiles, overlayFiles, files, sha256).source;
      var cands := Candidates(patchFiles, overlayFiles, source);
      var slots := Integrities(cands, files, sha256);
      r.overlay == Rebuilt(slots, OverlayPrefix) && r.patches == Rebuilt(slots, PatchesPrefix) &&
      forall p :: p in cands ==> Digest(files(p), sha256).error == []
  {
    var cands := Candidates(patchFiles, overlayFiles, source);
    var errors := Errors(cands, files, sha256);
    forall p | p in cands ensures Digest(files(p), sha256).error == [] {
      assert errors[p] == Digest(files(p), sha256).error;
    }
  }

  lemma RebuiltSlot(cands: set<string>, files: string -> Option<seq<byte>>, sha256: seq<byte> -> Option<seq<byte>>,
                    prefix: string, k: string)
    ensures var m := Rebuilt(Integrities(cands, files, sha256), prefix);
      (k in m <==> prefix + k in cands) &&
      (k in m ==> m[k] == Digest(files(prefix + k), sha256).integrity)
  {
    RebuiltKeys(Integrities(cands, files, sha256), prefix, k);
  }

  /** After a refresh, `overlay` maps each `overlay/` file (prefix removed)
      to its integrity and `patches` each `patches/` file; nothing else. */
  lemma RefreshedMaps(source: SourceConfig, patchFiles: seq<string>, overlayFiles: seq<string>,
                      files: string -> Option<seq<byte>>, sha256: seq<byte> -> Option<seq<byte>>, k: string)
    requires SourceIntegrity(source, patchFiles, overlayFiles, files, sha256).Updated?
    ensures var r := SourceIntegrity(source, patchFiles, overlayFiles, files, sha256).source;
      var cands := Candidates(patchFiles, overlayFiles, source);
      (k in r.overlay <==> OverlayPrefix + k in cands) &&
      (k in r.overlay ==> r.overlay[k] == Digest(files(OverlayPrefix + k), sha256).integrity) &&
      (k in r.overlay ==> Digest(files(OverlayPrefix + k), sha256).error == []) &&
      (k in r.patches <==> PatchesPrefix + k in cands) &&
      (k in r.patches ==> r.patches[k] == Digest(files(PatchesPrefix + k), sha256).integrity) &&
      (k in r.patches ==> Digest(files(PatchesPrefix + k), sha256).error == [])
  {
    var cands := Candidates(patchFiles, overlayFiles, source);
    UpdatedSlots(source, patchFiles, overlayFiles, files, sha256);
    RebuiltSlot(cands, files, sha256, OverlayPrefix, k);
    RebuiltSlot(cands, files, sha256, PatchesPrefix, k);
  }

  // ---------------------------------------------------------------------
  // The refresh as the source performs it, step by step

  /** `unordered_map::emplace`: an existing key keeps its value. */
  function Emplace(m: map<string, string>, k: string, v: string): (r: map<string, string>)
    ensures r.Keys == m.Keys + {k}
    ensures forall p :: p in m ==> r[p] == m[p]
    ensures k !in m ==> r[k] == v
  {
    if k in m then m else m[k := v]
  }

  /** Slots for `keys`, every one empty. */
  function Blank(keys: set<string>): (m: map<string, string>)
    ensures m.Keys == keys
  {
    map p | p in keys :: []
  }

  lemma EmplaceBlank(keys: set<string>, k: string)
    ensures Emplace(Blank(keys), k, []) == Blank(keys + {k})
  {
  }

  /** The loop over the regular files found under one directory. */
  method EmplaceFiles(paths: map<string, string>, errors: map<string, string>, found: seq<string>)
    returns (paths': map<string, string>, errors': map<string, string>)
    requires paths == errors == Blank(paths.Keys)
    ensures paths' == errors' == Blank(paths.Keys + (set p | p in found))
  {
    paths', errors' := paths, errors;
    ghost var seen: set<string> := {};
    var i := 0;
    while i < |found|
      invariant 0 <= i <= |found|
      invariant seen == set p | p in found[..i]
      invariant paths' == errors' == Blank(paths.Keys + seen)
    {
      assert found[..i + 1] == found[..i] + [found[i]];
      EmplaceBlank(paths.Keys + seen, found[i]);
      paths' := Emplace(paths', found[i], []);
      errors' := Emplace(errors', found[i], []);
      seen := seen + {found[i]};
      i := i + 1;
    }
    assert found[..i] == found;
  }

  /** The loop over a registered map, keeping the paths starting with `..`. */
  method EmplaceParentRefs(paths: map<string, string>, errors: map<string, string>, registered: map<string, string>)
    returns (paths': map<string, string>, errors': map<string, string>)
    requires paths == errors == Blank(paths.Keys)
    ensures paths' == errors' == Blank(paths.Keys + ParentRefs(registered))
  {
    paths', errors' := paths, errors;
    var todo := registered.Keys;
    while todo != {}
      invariant todo <= registered.Keys
      invariant paths' == errors' == Blank(paths'.Keys)
      invariant forall q :: q in paths' <==>
        q in paths || (q in registered && q !in todo && StartsWith(q, ParentPrefix))
      decreases |todo|
    {
      var p :| p in todo;
      if StartsWith(p, ParentPrefix) {
        EmplaceBlank(paths'.Keys, p);
        paths' := Emplace(paths', p, []);
        errors' := Emplace(errors', p, []);
      }
      todo := todo - {p};
    }
  }

  /** The rebuilt map for `prefix` after the slots of all paths but `todo`. */
  ghost predicate RebuiltExcept(m: map<string, string>, slots: map<string, string>, prefix: string, todo: set<string>) {
    forall k ::
      (k in m <==> prefix + k in slots && prefix + k !in todo) &&
      (k in m ==> m[k] == slots[prefix + k])
  }

  lemma RebuiltStep(m: map<string, string>, slots: map<string, string>, prefix: string, todo: set<string>, p: string)
    requires RebuiltExcept(m, slots, prefix, todo) && p in todo && p in slots
    ensures StartsWith(p, prefix) ==>
      p[|prefix|..] !in m && RebuiltExcept(m[p[|prefix|..] := slots[p]], slots, prefix, todo - {p})
    ensures !StartsWith(p, prefix) ==> RebuiltExcept(m, slots, prefix, todo - {p})
  {
    if StartsWith(p, prefix) {
      assert prefix + p[|prefix|..] == p;
    } else {
      forall k ensures prefix + k != p {
        assert (prefix + k)[..|prefix|] == prefix;
      }
    }
  }

  lemma RebuiltAll(m: map<string, string>, slots: map<string, string>, prefix: string)
    requires RebuiltExcept(m, slots, prefix, {})
    ensures m == Rebuilt(slots, prefix)
  {
    forall k ensures k in m <==> k in Rebuilt(slots, prefix) {
      RebuiltKeys(slots, prefix, k);
    }
    forall k | k in m ensures m[k] == Rebuilt(slots, prefix)[k] {
      RebuiltKeys(slots, prefix, k);
    }
  }

  /** The rebuild after the check for errors: `overlay/` paths first, then
      `patches/` paths, into freshly cleared maps. */
  method RebuildMaps(slots: map<string, string>) returns (overlay: map<string, string>, patches: map<string, string>)
    ensures overlay == Rebuilt(slots, OverlayPrefix) && patches == Rebuilt(slots, PatchesPrefix)
  {
    overlay, patches := map[], map[];
    var todo := slots.Keys;
    while todo != {}
      invariant todo <= slots.Keys
      invariant RebuiltExcept(overlay, slots, OverlayPrefix, todo)
      invariant RebuiltExcept(patches, slots, PatchesPrefix, todo)
      decreases |todo|
    {
      var p :| p in todo;
      RebuiltStep(overlay, slots, OverlayPrefix, todo, p);
      RebuiltStep(patches, slots, PatchesPrefix, todo, p);
      if StartsWith(p, OverlayPrefix) {
        assert !StartsWith(p, PatchesPrefix) by { assert p[0] == 'o'; }
        overlay := Emplace(overlay, p[|OverlayPrefix|..], slots[p]);
      } else if StartsWith(p, PatchesPrefix) {
        patches := Emplace(patches, p[|PatchesPrefix|..], slots[p]);
      }
      todo := todo - {p};
    }
    RebuiltAll(overlay, slots, OverlayPrefix);
    RebuiltAll(patches, slots, PatchesPrefix);
  }

  /** The slots after the step for every path but `todo` has run. */
  ghost predicate FilledExcept(paths: map<string, string>, errors: map<string, string>, cands: set<string>, todo: set<string>,
                               files: string -> Option<seq<byte>>, sha256: seq<byte> -> Option<seq<byte>>) {
    paths.Keys == cands && errors.Keys == cands &&
    forall p :: p in cands ==>
      Slot(paths[p], errors[p]) == if p in todo then Slot([], []) else Digest(files(p), sha256)
  }

  /** The walk over every slot (`std::for_each`), in whatever order the
      map holds its keys: each path's own file decides its two slots. */
  method FillSlots(paths: map<string, string>, errors: map<string, string>,
                   files: string -> Option<seq<byte>>, sha256: seq<byte> -> Option<seq<byte>>)
    returns (paths': map<string, string>, errors': map<string, string>)
    requires paths == errors == Blank(paths.Keys)
    ensures paths' == Integrities(paths.Keys, files, sha256)
    ensures errors' == Errors(paths.Keys, files, sha256)
  {
    paths', errors' := paths, errors;
    var todo := paths.Keys;
    FilledNone(paths.Keys, files, sha256);
    while todo != {}
      invariant todo <= paths.Keys
      invariant FilledExcept(paths', errors', paths.Keys, todo, files, sha256)
      decreases |todo|
    {
      var p :| p in todo;
      FilledStep(paths', errors', paths.Keys, todo, files, sha256, p);
      paths', errors' := FillSlot(paths', errors', p, files, sha256);
      todo := todo - {p};
    }
    FilledAll(paths', errors', paths.Keys, files, sha256);
  }

  /** One step of the walk: read the file of `p` and fill its two slots. */
  method FillSlot(paths: map<string, string>, errors: map<string, string>, p: string,
                  files: string -> Option<seq<byte>>, sha256: seq<byte> -> Option<seq<byte>>)
    returns (paths': map<string, string>, errors': map<string, string>)
    requires p in paths && p in errors && paths[p] == [] && errors[p] == []
    ensures var d := Digest(files(p), sha256);
      paths' == paths[p := d.integrity] && errors' == errors[p := d.error]
  {
    paths', errors' := paths, errors;
    var content := ReadFileContents(files(p));
    if content.ReadError? {
      errors' := errors'[p := content.message];
    } else {
      var integrity := CalcIntegrity(content.data, sha256);
      if integrity.None? {
        errors' := errors'[p := CalcFailed];
      } else {
        paths' := paths'[p := integrity.value];
      }
    }
  }

  lemma FilledNone(cands: set<string>, files: string -> Option<seq<byte>>, sha256: seq<byte> -> Option<seq<byte>>)
    ensures FilledExcept(Blank(cands), Blank(cands), cands, cands, files, sha256)
  {
  }

  lemma FilledStep(paths: map<string, string>, errors: map<string, string>, cands: set<string>, todo: set<string>,
                   files: string -> Option<seq<byte>>, sha256: seq<byte> -> Option<seq<byte>>, p: string)
    requires FilledExcept(paths, errors, cands, todo, files, sha256) && p in todo && todo <= cands
    ensures paths[p] == [] && errors[p] == []
    ensures var d := Digest(files(p), sha256);
      FilledExcept(paths[p := d.integrity], errors[p := d.error], cands, todo - {p}, files, sha256)
  {
  }

  lemma FilledAll(paths: map<string, string>, errors: map<string, string>, cands: set<string>,
                  files: string -> Option<seq<byte>>, sha256: seq<byte> -> Option<seq<byte>>)
    requires FilledExcept(paths, errors, cands, {}, files, sha256)
    ensures paths == Integrities(cands, files, sha256) && errors == Errors(cands, files, sha256)
  {
    forall p | p in cands ensures paths[p] == Digest(files(p), sha256).integrity && errors[p] == Digest(files(p), sha256).error {
      assert Slot(paths[p], errors[p]) == Digest(files(p), sha256);
    }
  }

  /** Any number of paths reporting errors, found by a walk in any order. */
  method HasError(errors: map<string, string>) returns (found: bool)
    ensures found <==> exists p :: p in errors && errors[p] != []
  {
    found := false;
    var unseen := errors.Keys;
    while unseen != {}
      invariant unseen <= errors.Keys
      invariant found <==> exists p :: p in errors && p !in unseen && errors[p] != []
      decreases |unseen|
    {
      var p :| p in unseen;
      if errors[p] != [] {
        found := true;
      }
      unseen := unseen - {p};
    }
  }

  /** `calc_source_integrity`: collect the candidate paths, fill each
      path's slots in whatever order the map is walked, report every error
      and stop, or rebuild `overlay` and `patches` from the slots. */
  method CalcSourceIntegrity(source: SourceConfig, patchFiles: seq<string>, overlayFiles: seq<string>,
                             files: string -> Option<seq<byte>>, sha256: seq<byte> -> Option<seq<byte>>)
    returns (r: Outcome)
    ensures r == SourceIntegrity(source, patchFiles, overlayFiles, files, sha256)
  {
    var integrityPaths: map<string, string> := map[];
    var integrityErrors: map<string, string> := map[];
    integrityPaths, integrityErrors := EmplaceFiles(integrityPaths, integrityErrors, patchFiles);
    integrityPaths, integrityErrors := EmplaceFiles(integrityPaths, integrityErrors, overlayFiles);
    integrityPaths, integrityErrors := EmplaceParentRefs(integrityPaths, integrityErrors, source.patches);
    integrityPaths, integrityErrors := EmplaceParentRefs(integrityPaths, integrityErrors, source.overlay);
    ghost var cands := Candidates(patchFiles, overlayFiles, source);
    assert integrityPaths.Keys == cands;

    integrityPaths, integrityErrors := FillSlots(integrityPaths, integrityErrors, files, sha256);

    var hasError := HasError(integrityErrors);
    if hasError {
      return Unchanged(integrityErrors);
    }
    var overlay, patches := RebuildMaps(integrityPaths);
    return Updated(source.(overlay := overlay, patches := patches));
  }
}
