/**
 * What `Updater.find_suitable_data` answers for a cached catalog: the source
 * archive URL or the URL of the first asset built for the running platform,
 * or nothing, or the exception the Python code raises.
 */
module AssetResolver {
  import opened Wrappers
  import opened Strings
  import opened OrderedMaps
  import opened Json
  import opened Catalog

  /** The two artifact kinds callers ask for. */
  const SourceCode := "source_code"
  const ExecutableFile := "executable_file"

  /** The exceptions `find_suitable_data` lets escape. */
  datatype Fault =
    | NoCatalog      // the cache is None: subscripting or iterating it raises TypeError/AttributeError
    | NoReleases     // the cached catalog is empty: `list(keys)[0]` raises IndexError
    | AssetsUnbound  // an unknown version with `executable_file`: `assets` is unbound
    | ArchIsNone     // no platform token: `asset_name.find(None)` raises TypeError

  /** The outcome of one call: a value (Python returns it), nothing (Python
      returns None), or an escaping exception. */
  datatype Resolution = Found(value: Json) | NothingFound | Raised(fault: Fault)

  /** Release `i` is the one a version selector picks: the positionally first
      for `latest`, whatever its name; otherwise the first with that exact name. */
  predicate Selects(c: Catalog, version: string, i: nat) {
    i < |c| &&
    if version == Latest then i == 0
    else c[i].0 == version && forall j :: 0 <= j < i ==> c[j].0 != version
  }

  /** The first asset, in insertion order, whose name contains `arch`. */
  function FirstMatchingAsset(assets: seq<(string, Json)>, arch: string): (r: Option<nat>)
    ensures r.Some? ==> r.value < |assets| && IsSubstring(arch, assets[r.value].0)
    ensures r.Some? ==> forall j :: 0 <= j < r.value ==> !IsSubstring(arch, assets[j].0)
    ensures r.None? <==> forall j :: 0 <= j < |assets| ==> !IsSubstring(arch, assets[j].0)
  {
    if |assets| == 0 then None
    else if Contains(assets[0].0, arch) then Some(0)
    else match FirstMatchingAsset(assets[1..], arch)
      case None => None
      case Some(i) => Some(i + 1)
  }

  /** The loop over a release's assets: the URL of the first asset, in
      insertion order, whose name contains the platform token. With no token
      the first comparison raises; with no assets there is no comparison. */
  function ScanAssets(assets: seq<(string, Json)>, arch: Option<string>): (r: Resolution)
    ensures r.Raised? <==> |assets| > 0 && arch.None?
    ensures r.Raised? ==> r.fault == ArchIsNone
    ensures r.Found? ==> arch.Some? && exists k :: 0 <= k < |assets| && IsSubstring(arch.value, assets[k].0)
                                                    && r.value == assets[k].1
    ensures r == NothingFound <==>
              |assets| == 0 || (arch.Some? && forall j :: 0 <= j < |assets| ==> !IsSubstring(arch.value, assets[j].0))
  {
    if |assets| == 0 then NothingFound
    else if arch.None? then Raised(ArchIsNone)
    else match FirstMatchingAsset(assets, arch.value)
      case Some(i) => Found(assets[i].1)
      case None => NothingFound
  }

  /** The position of the release a version selector picks, if any: the
      first for `latest`, otherwise the first with that exact name. */
  function Selected(c: Catalog, version: string): (r: Option<nat>)
    ensures r.Some? ==> Selects(c, version, r.value)
    ensures r.None? <==> (if version == Latest then |c| == 0 else forall j :: 0 <= j < |c| ==> c[j].0 != version)
  {
    if version == Latest then (if |c| == 0 then None else Some(0))
    else IndexOf(c, version)
  }

  /** The whole decision of `find_suitable_data` once the cache is settled.
      Only the two known kinds give a value; a missing cache raises unless
      `latest` is asked for an unknown kind; a source request gives the
      selected release's archive and an executable request scans its assets. */
  function Resolve(releases: Option<Catalog>, kind: string, version: string, arch: Option<string>)
    : (r: Resolution)
    ensures r.Found? ==> (kind == SourceCode || kind == ExecutableFile) && releases.Some?
                         && Selected(releases.value, version).Some?
    ensures r.Found? && kind == SourceCode ==> r.value == releases.value[Selected(releases.value, version).value].1.src
    ensures kind == ExecutableFile && releases.Some? && Selected(releases.value, version).Some? ==>
              r == ScanAssets(releases.value[Selected(releases.value, version).value].1.assets, arch)
    ensures r == Raised(NoCatalog) <==>
              releases.None? && (version != Latest || kind == SourceCode || kind == ExecutableFile)
    ensures r == Raised(NoReleases) <==>
              version == Latest && (kind == SourceCode || kind == ExecutableFile) && releases == Some([])
    ensures r == Raised(AssetsUnbound) <==>
              version != Latest && kind == ExecutableFile && releases.Some?
              && Selected(releases.value, version).None?
  {
    if version == Latest then
      if kind != SourceCode && kind != ExecutableFile then NothingFound
      else if releases.None? then Raised(NoCatalog)
      else if |releases.value| == 0 then Raised(NoReleases)
      else if kind == SourceCode then Found(releases.value[0].1.src)
      else ScanAssets(releases.value[0].1.assets, arch)
    else if releases.None? then Raised(NoCatalog)
    else match IndexOf(releases.value, version)
      case Some(i) =>
        if kind == SourceCode then Found(releases.value[i].1.src)
        else if kind == ExecutableFile then ScanAssets(releases.value[i].1.assets, arch)
        else NothingFound
      case None =>
        if kind == ExecutableFile then Raised(AssetsUnbound) else NothingFound
  }

  /** For the selected release, source requests give its `src` and
      executable requests scan its assets. */
  lemma ResolveSelected(c: Catalog, kind: string, version: string, arch: Option<string>, i: nat)
    requires Selects(c, version, i)
    ensures kind == SourceCode ==> Resolve(Some(c), kind, version, arch) == Found(c[i].1.src)
    ensures kind == ExecutableFile ==>
              Resolve(Some(c), kind, version, arch) == ScanAssets(c[i].1.assets, arch)
  {
    if version != Latest {
      IndexOfFirst(c, version, i);
    }
  }

  /** An explicit version no release carries: nothing for source requests,
      the unbound-variable crash for executable requests. */
  lemma ResolveUnknownVersion(c: Catalog, kind: string, version: string, arch: Option<string>)
    requires version != Latest
    requires forall j :: 0 <= j < |c| ==> c[j].0 != version
    ensures Resolve(Some(c), kind, version, arch)
            == if kind == ExecutableFile then Raised(AssetsUnbound) else NothingFound
  {
  }

  /** Asset `k` is the answer exactly when its name is the first to contain the token. */
  lemma ScanAssetsFindsFirst(assets: seq<(string, Json)>, arch: string, k: nat)
    requires k < |assets| && IsSubstring(arch, assets[k].0)
    requires forall j :: 0 <= j < k ==> !IsSubstring(arch, assets[j].0)
    ensures ScanAssets(assets, Some(arch)) == Found(assets[k].1)
  {
  }

  /** `latest` reads only the first release: the rest of the catalog, names
      included, makes no difference. */
  lemma LatestReadsFirstOnly(c: Catalog, kind: string, arch: Option<string>)
    requires |c| > 0
    ensures Resolve(Some(c), kind, Latest, arch) == Resolve(Some(c[..1]), kind, Latest, arch)
  {
  }

  /** A catalog holding release `v1.0` with source `U1` and one asset
      `tool-win64.exe` at `U2`: on 64-bit Windows the executable is `U2`. */
  lemma ExecutableForWindows64()
    ensures Resolve(Some([("v1.0", Release("v1.0", JStr("U1"), [("tool-win64.exe", JStr("U2"))], ""))]),
                    ExecutableFile, "v1.0", Some("win64"))
            == Found(JStr("U2"))
  {
    var c := [("v1.0", Release("v1.0", JStr("U1"), [("tool-win64.exe", JStr("U2"))], ""))];
    assert OccursAt("tool-win64.exe", "win64", 5);
    ResolveSelected(c, ExecutableFile, "v1.0", Some("win64"), 0);
    ScanAssetsFindsFirst(c[0].1.assets, "win64", 0);
  }
}
