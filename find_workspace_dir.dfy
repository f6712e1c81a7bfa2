/**
 * The upward search for the workspace root (bzlmod/find_workspace_dir.cc):
 * the nearest directory, from the start directory upwards, that holds a
 * `MODULE.bazel` file. Whether a directory holds one is a parameter standing
 * for `std::filesystem::exists`.
 */
module FindWorkspaceDir {
  import opened Common

  /** A path as `std::filesystem` sees it: rooted or relative, and its names. */
  datatype Path = Path(rooted: bool, names: seq<string>)

  /** `has_parent_path()`: a rooted path always has a parent (the parent of
      the root is the root), a relative path needs at least two names. */
  predicate HasParent(p: Path) {
    p.rooted || |p.names| >= 2
  }

  /** `parent_path()`: the path without its last name; the root is its own parent. */
  function Parent(p: Path): (q: Path)
    requires HasParent(p)
    ensures q.rooted == p.rooted && q.names <= p.names
    ensures p.names != [] ==> |q.names| == |p.names| - 1
    ensures p.names == [] ==> q == p
  {
    if p.names == [] then p else Path(p.rooted, p.names[..|p.names| - 1])
  }

  /** The directory `k` names down from the top of `p`. */
  function Up(p: Path, k: nat): Path
    requires k <= |p.names|
  {
    Path(p.rooted, p.names[..k])
  }

  /** The fewest names a directory on the way up from `p` has: the root for
      a rooted path, else the first name. */
  function Top(p: Path): nat {
    if p.rooted || p.names == [] then 0 else 1
  }

  /** The outcome of the search as written, cut off after `depth` calls. */
  datatype Search = Found(dir: Path) | NotFound | Unfinished

  /** `find_workspace_dir` as written: at the root `has_parent_path()` stays
      true and `parent_path()` gives the root again, so a search that finds
      no `MODULE.bazel` on a rooted path never returns. */
  function FindAsWritten(hasManifest: Path -> bool, p: Path, depth: nat): (r: Search)
    ensures r.Found? ==> hasManifest(r.dir) && r.dir.rooted == p.rooted && r.dir.names <= p.names
    ensures r == NotFound ==> !p.rooted
    decreases depth
  {
    if depth == 0 then Unfinished
    else if hasManifest(p) then Found(p)
    else if HasParent(p) then FindAsWritten(hasManifest, Parent(p), depth - 1)
    else NotFound
  }

  /** A rooted search with no `MODULE.bazel` anywhere up to the root runs
      out of any depth: the recursion does not end. */
  lemma {:induction false} AsWrittenDivergesAtRoot(hasManifest: Path -> bool, p: Path, depth: nat)
    requires p.rooted
    requires forall k :: 0 <= k <= |p.names| ==> !hasManifest(Up(p, k))
    ensures FindAsWritten(hasManifest, p, depth) == Unfinished
    decreases depth
  {
    if depth > 0 {
      assert p == Up(p, |p.names|);
      var q := Parent(p);
      forall k | 0 <= k <= |q.names| ensures !hasManifest(Up(q, k)) {
        assert Up(q, k) == Up(p, k);
      }
      AsWrittenDivergesAtRoot(hasManifest, q, depth - 1);
    }
  }

  /** A concrete instance: `/` with no `MODULE.bazel`. */
  lemma AsWrittenDivergesOnEmptyRoot(depth: nat)
    ensures FindAsWritten(_ => false, Path(true, []), depth) == Unfinished
  {
    AsWrittenDivergesAtRoot(_ => false, Path(true, []), depth);
  }

  /** The search as evidently intended: upwards from `p`, ending after the
      root or the first name of a relative path. */
  function FindWorkspace(hasManifest: Path -> bool, p: Path): (r: Option<Path>)
    ensures r.Some? ==> hasManifest(r.value) && r.value.rooted == p.rooted && r.value.names <= p.names
    decreases |p.names|
  {
    if hasManifest(p) then Some(p)
    else if p.names != [] && HasParent(p) then FindWorkspace(hasManifest, Parent(p))
    else None
  }

  /** The result is the nearest directory from `p` upwards holding a
      `MODULE.bazel`, and there is none when the search gives nothing. */
  lemma {:induction false} FindWorkspaceIsNearest(hasManifest: Path -> bool, p: Path)
    ensures FindWorkspace(hasManifest, p).Some? ==>
      var k := |FindWorkspace(hasManifest, p).value.names|;
      Top(p) <= k && forall j :: k < j <= |p.names| ==> !hasManifest(Up(p, j))
    ensures FindWorkspace(hasManifest, p).None? ==>
      forall j :: Top(p) <= j <= |p.names| ==> !hasManifest(Up(p, j))
    decreases |p.names|
  {
    assert Up(p, |p.names|) == p;
    if !hasManifest(p) && p.names != [] && HasParent(p) {
      var q := Parent(p);
      FindWorkspaceIsNearest(hasManifest, q);
      assert Top(q) == Top(p);
      forall j | Top(p) <= j <= |q.names| ensures Up(q, j) == Up(p, j) {
      }
    }
  }

  /** Where the corrected search finds a directory, the search as written
      finds the same one once it may recurse far enough. */
  lemma {:induction false} AsWrittenAgreesWhenFound(hasManifest: Path -> bool, p: Path, depth: nat)
    requires FindWorkspace(hasManifest, p).Some?
    requires depth > |p.names| - |FindWorkspace(hasManifest, p).value.names|
    ensures FindAsWritten(hasManifest, p, depth) == Found(FindWorkspace(hasManifest, p).value)
    decreases |p.names|
  {
    if !hasManifest(p) {
      AsWrittenAgreesWhenFound(hasManifest, Parent(p), depth - 1);
    }
  }

  /** On relative paths both searches end, with the same result. */
  lemma {:induction false} AsWrittenAgreesOnRelative(hasManifest: Path -> bool, p: Path, depth: nat)
    requires !p.rooted && depth > |p.names|
    ensures FindAsWritten(hasManifest, p, depth) ==
      match FindWorkspace(hasManifest, p) { case Some(d) => Found(d) case None => NotFound }
    decreases |p.names|
  {
    if !hasManifest(p) && HasParent(p) {
      AsWrittenAgreesOnRelative(hasManifest, Parent(p), depth - 1);
    }
  }
}
