/**
 * Resolving a module's version against the registries, as `bzlmod add`,
 * `bzlmod update` and `bzlmod git-override` do (bzlmod/add_module.cc,
 * bzlmod/update_module.cc, bzlmod/git_override.cc): one slot per registry,
 * filled by one job per registry from that registry's `metadata.json`,
 * and then the first filled slot in registry order wins.
 *
 * The download of a `metadata.json` is a parameter `fetch` (None when the
 * download or the parse fails). The jobs run in parallel in the source;
 * here they run one after another in an arbitrary order, each writing only
 * its own slot, so the result cannot depend on the order.
 */
module RegistryResolve {
  import opened Common
  import RegistryAddModule

  type Metadata = RegistryAddModule.MetadataConfig

  /** `<registry>/modules/<name>/metadata.json` */
  function MetadataUrl(registry: string, name: string): string {
    registry + "/modules/" + name + "/metadata.json"
  }

  /** What one job writes into its slot: the last listed version, or
      nothing when there is no metadata or no version. */
  function LatestVersion(metadata: Option<Metadata>): (v: string)
    ensures metadata.Some? && metadata.value.versions != [] ==>
      v == metadata.value.versions[|metadata.value.versions| - 1]
    ensures metadata.None? || metadata.value.versions == [] ==> v == []
    ensures v != [] ==> metadata.Some? && v in metadata.value.versions
  {
    if metadata.Some? && metadata.value.versions != [] then
      metadata.value.versions[|metadata.value.versions| - 1]
    else []
  }

  /** The slot of each registry once every job has run. */
  function Slots(registries: seq<string>, name: string, fetch: string -> Option<Metadata>): (slots: seq<string>)
    ensures |slots| == |registries|
    ensures forall i :: 0 <= i < |registries| ==>
      slots[i] == LatestVersion(fetch(MetadataUrl(registries[i], name)))
    ensures forall i :: 0 <= i < |registries| && slots[i] != [] ==>
      fetch(MetadataUrl(registries[i], name)).Some? && slots[i] in fetch(MetadataUrl(registries[i], name)).value.versions
  {
    seq(|registries|, i requires 0 <= i < |registries| => LatestVersion(fetch(MetadataUrl(registries[i], name))))
  }

  /** The positions `0 .. n - 1`. */
  function Positions(n: nat): (ps: seq<nat>)
    ensures |ps| == n && forall i :: 0 <= i < n ==> ps[i] == i
  {
    seq(n, i requires 0 <= i < n => i)
  }

  /** The slots filled by one job per registry, the jobs taken in any
      order (the parallel `std::for_each`). */
  method FillSlots(registries: seq<string>, name: string, fetch: string -> Option<Metadata>)
    returns (slots: seq<string>)
    ensures slots == Slots(registries, name, fetch)
  {
    var entries := new string[|registries|](_ => "");
    var pending: set<nat> := set i | i in Positions(|registries|);
    forall i | 0 <= i < |registries| ensures i in pending {
      assert Positions(|registries|)[i] == i;
    }
    while pending != {}
      invariant forall i :: i in pending ==> 0 <= i < |registries|
      invariant forall i :: 0 <= i < |registries| ==>
        entries[i] == if i in pending then "" else LatestVersion(fetch(MetadataUrl(registries[i], name)))
      decreases |pending|
    {
      var i :| i in pending;
      var metadata := fetch(MetadataUrl(registries[i], name));
      if metadata.Some? && metadata.value.versions != [] {
        entries[i] := metadata.value.versions[|metadata.value.versions| - 1];
      }
      pending := pending - {i};
    }
    slots := entries[..];
  }

  /** Index of the first filled slot. */
  function FirstFilled(slots: seq<string>): (r: Option<nat>)
    ensures r.Some? ==> r.value < |slots| && slots[r.value] != []
    ensures r.Some? ==> forall j :: 0 <= j < r.value ==> slots[j] == []
    ensures r.None? ==> forall j :: 0 <= j < |slots| ==> slots[j] == []
  {
    if slots == [] then None
    else if slots[0] != [] then Some(0)
    else match FirstFilled(slots[1..])
      case Some(i) => Some(i + 1)
      case None => None
  }

  /** The scan with `break` for the first filled slot. */
  method SelectVersion(slots: seq<string>) returns (version: Option<string>)
    ensures version.Some? <==> FirstFilled(slots).Some?
    ensures version.Some? ==> version.value == slots[FirstFilled(slots).value]
  {
    version := None;
    var i := 0;
    while i < |slots|
      invariant 0 <= i <= |slots|
      invariant forall j :: 0 <= j < i ==> slots[j] == []
    {
      if slots[i] != [] {
        version := Some(slots[i]);
        FirstFilledIs(slots, i);
        return;
      }
      i := i + 1;
    }
  }

  lemma {:induction false} FirstFilledIs(slots: seq<string>, i: nat)
    requires i < |slots| && slots[i] != []
    requires forall j :: 0 <= j < i ==> slots[j] == []
    ensures FirstFilled(slots) == Some(i)
  {
    if i > 0 {
      FirstFilledIs(slots[1..], i - 1);
    }
  }

  /** The version a command resolves: that of the first registry, in
      registry order, whose metadata lists a non-empty last version. */
  function Resolved(registries: seq<string>, name: string, fetch: string -> Option<Metadata>): Option<string> {
    var slots := Slots(registries, name, fetch);
    match FirstFilled(slots)
    case Some(i) => Some(slots[i])
    case None => None
  }

  /** Registry `i` knows a version and no earlier registry does. */
  predicate IsFirstKnowing(registries: seq<string>, name: string, fetch: string -> Option<Metadata>, i: nat)
    requires i < |registries|
  {
    LatestVersion(fetch(MetadataUrl(registries[i], name))) != [] &&
    forall j :: 0 <= j < i ==> LatestVersion(fetch(MetadataUrl(registries[j], name))) == []
  }

  /** `version` is what registry `i`, the first that knows one, lists last. */
  predicate ResolvedFrom(registries: seq<string>, name: string, fetch: string -> Option<Metadata>, i: nat, version: string) {
    i < |registries| && IsFirstKnowing(registries, name, fetch, i) &&
    version == LatestVersion(fetch(MetadataUrl(registries[i], name)))
  }

  /** Resolution picks the first registry that knows a version, and every
      earlier registry knows none; it fails only when no registry knows one. */
  lemma ResolvedIsFirstRegistry(registries: seq<string>, name: string, fetch: string -> Option<Metadata>)
    ensures var r := Resolved(registries, name, fetch);
      r.None? <==> forall i :: 0 <= i < |registries| ==> LatestVersion(fetch(MetadataUrl(registries[i], name))) == []
    ensures var r := Resolved(registries, name, fetch);
      r.Some? ==> exists i :: ResolvedFrom(registries, name, fetch, i, r.value)
  {
    var slots := Slots(registries, name, fetch);
    if FirstFilled(slots).Some? {
      var i := FirstFilled(slots).value;
      assert slots[i] == LatestVersion(fetch(MetadataUrl(registries[i], name)));
      assert ResolvedFrom(registries, name, fetch, i, slots[i]);
    }
  }

  /** Putting a registry that knows no version in front changes nothing. */
  lemma ResolvedSkipsEmptyRegistry(registry: string, registries: seq<string>, name: string, fetch: string -> Option<Metadata>)
    requires LatestVersion(fetch(MetadataUrl(registry, name))) == []
    ensures Resolved([registry] + registries, name, fetch) == Resolved(registries, name, fetch)
  {
    var slots := Slots([registry] + registries, name, fetch);
    assert slots[1..] == Slots(registries, name, fetch);
  }

  /** The registries' slots filled and the first filled one taken, as the
      three commands do. */
  method ResolveVersion(registries: seq<string>, name: string, fetch: string -> Option<Metadata>)
    returns (version: Option<string>)
    ensures version == Resolved(registries, name, fetch)
  {
    var slots := FillSlots(registries, name, fetch);
    version := SelectVersion(slots);
  }
}
