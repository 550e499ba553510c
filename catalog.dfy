/**
 * The release catalog `Updater.get_releases` builds from the hosting API's
 * answer: an ordered dict from release name to its version, source archive
 * URL, ordered asset dict (name to download URL) and stripped changelog.
 */
module Catalog {
  import opened Wrappers
  import opened Strings
  import opened OrderedMaps
  import opened Json

  /** The version selector that asks for the newest release. */
  const Latest := "latest"

  const ReleasesEndpoint := "https://api.github.com/repos/rzc0d3r/ESET-KeyGen/releases"

  /** One value of the catalog. */
  datatype Release = Release(version: string, src: Json, assets: seq<(string, Json)>, changelog: string)

  type Catalog = seq<(string, Release)>

  /** The list endpoint, or the single-release endpoint for `latest`. */
  function ReleasesUrl(version: string): (url: string)
    ensures StartsWith(url, ReleasesEndpoint)
    ensures url == ReleasesEndpoint <==> version != Latest
  {
    if version == Latest then ReleasesEndpoint + "/latest" else ReleasesEndpoint
  }

  /** `d[k] = v` for every item in turn, where `entry` gives the key and value
      of an item or fails; one failing item makes the whole loop fail. */
  function PutAll<T, V>(acc: seq<(string, V)>, items: seq<T>, entry: T -> Option<(string, V)>)
    : (r: Option<seq<(string, V)>>)
    ensures r.Some? ==> |acc| <= |r.value| <= |acc| + |items|
    decreases |items|
  {
    if |items| == 0 then Some(acc)
    else match entry(items[0])
      case None => None
      case Some(e) => PutAll(Put(acc, e.0, e.1), items[1..], entry)
  }

  /** The loop only adds keys: the keys already present keep their places
      at the front, in their order. */
  lemma {:induction false} PutAllKeepsKeys<T, V>(acc: seq<(string, V)>, items: seq<T>, entry: T -> Option<(string, V)>)
    ensures PutAll(acc, items, entry).Some? ==> Keys(PutAll(acc, items, entry).value)[..|acc|] == Keys(acc)
    decreases |items|
  {
    if |items| > 0 && entry(items[0]).Some? {
      var e := entry(items[0]).value;
      var acc' := Put(acc, e.0, e.1);
      PutKeys(acc, e.0, e.1);
      assert Keys(acc')[..|acc|] == Keys(acc);
      PutAllKeepsKeys(acc', items[1..], entry);
      var r := PutAll(acc', items[1..], entry);
      if r.Some? {
        assert Keys(r.value)[..|acc|] == Keys(r.value)[..|acc'|][..|acc|];
      }
    }
  }

  /** The loop succeeds exactly when every item gives an entry. */
  lemma {:induction false} PutAllSucceeds<T, V>(acc: seq<(string, V)>, items: seq<T>, entry: T -> Option<(string, V)>)
    ensures PutAll(acc, items, entry).Some? <==> forall i :: 0 <= i < |items| ==> entry(items[i]).Some?
    decreases |items|
  {
    if |items| > 0 {
      match entry(items[0])
      case None =>
      case Some(e) =>
        PutAllSucceeds(Put(acc, e.0, e.1), items[1..], entry);
        assert forall i :: 1 <= i < |items| ==> items[1..][i - 1] == items[i];
    }
  }

  /** The entries of items that all give one, in the items' order. */
  function Entries<T, V>(items: seq<T>, entry: T -> Option<(string, V)>): (r: seq<(string, V)>)
    requires forall i :: 0 <= i < |items| ==> entry(items[i]).Some?
    ensures |r| == |items|
    ensures forall i :: 0 <= i < |items| ==> r[i] == entry(items[i]).value
    decreases |items|
  {
    if |items| == 0 then []
    else
      assert forall i :: 0 <= i < |items[1..]| ==> items[1..][i] == items[i + 1];
      [entry(items[0]).value] + Entries(items[1..], entry)
  }

  /** When no two items share a key, and none is already a key, the loop
      appends one entry per item, in the items' order. */
  lemma {:induction false} PutAllAppends<T, V>(acc: seq<(string, V)>, items: seq<T>, entry: T -> Option<(string, V)>)
    requires forall i :: 0 <= i < |items| ==> entry(items[i]).Some?
    requires forall i :: 0 <= i < |items| ==> entry(items[i]).value.0 !in Keys(acc)
    requires forall i, j :: 0 <= i < j < |items| ==> entry(items[i]).value.0 != entry(items[j]).value.0
    ensures PutAll(acc, items, entry) == Some(acc + Entries(items, entry))
    decreases |items|
  {
    if |items| == 0 {
      assert acc + Entries(items, entry) == acc;
    } else {
      var e := entry(items[0]).value;
      AppendsRest(acc, items, entry);
      PutAllFirst(acc, items, entry);
      PutAllAppends(acc + [e], items[1..], entry);
      EntriesCons(acc, items, entry);
    }
  }

  /** Appending the first entry to `acc` and then the rest is appending them all. */
  lemma EntriesCons<T, V>(acc: seq<(string, V)>, items: seq<T>, entry: T -> Option<(string, V)>)
    requires |items| > 0
    requires forall i :: 0 <= i < |items| ==> entry(items[i]).Some?
    ensures (acc + [entry(items[0]).value]) + Entries(items[1..], entry) == acc + Entries(items, entry)
  {
    assert Entries(items, entry) == [entry(items[0]).value] + Entries(items[1..], entry);
  }

  /** The first item of a well-formed run with a fresh key is appended. */
  lemma PutAllFirst<T, V>(acc: seq<(string, V)>, items: seq<T>, entry: T -> Option<(string, V)>)
    requires |items| > 0 && entry(items[0]).Some? && entry(items[0]).value.0 !in Keys(acc)
    ensures PutAll(acc, items, entry) == PutAll(acc + [entry(items[0]).value], items[1..], entry)
  {
    var e := entry(items[0]).value;
    PutNew(acc, e.0, e.1);
  }

  /** The rest of the items keep the preconditions of `PutAllAppends` once
      the first one is stored. */
  lemma AppendsRest<T, V>(acc: seq<(string, V)>, items: seq<T>, entry: T -> Option<(string, V)>)
    requires |items| > 0
    requires forall i :: 0 <= i < |items| ==> entry(items[i]).Some?
    requires forall i :: 0 <= i < |items| ==> entry(items[i]).value.0 !in Keys(acc)
    requires forall i, j :: 0 <= i < j < |items| ==> entry(items[i]).value.0 != entry(items[j]).value.0
    ensures var acc', rest := acc + [entry(items[0]).value], items[1..];
            && (forall i :: 0 <= i < |rest| ==> entry(rest[i]).Some?)
            && (forall i :: 0 <= i < |rest| ==> entry(rest[i]).value.0 !in Keys(acc'))
            && (forall i, j :: 0 <= i < j < |rest| ==> entry(rest[i]).value.0 != entry(rest[j]).value.0)
  {
    var e := entry(items[0]).value;
    var acc' := acc + [e];
    var rest := items[1..];
    assert Keys(acc') == Keys(acc) + [e.0];
    forall i | 0 <= i < |rest| ensures entry(rest[i]).value.0 !in Keys(acc') {
      assert rest[i] == items[i + 1];
    }
    forall i, j | 0 <= i < j < |rest| ensures entry(rest[i]).value.0 != entry(rest[j]).value.0 {
      assert rest[i] == items[i + 1] && rest[j] == items[j + 1];
    }
  }

  /** A dict built by assignments has distinct keys, and keeps an invariant
      on entries that every assigned entry satisfies. */
  lemma {:induction false} PutAllDistinct<T, V>(acc: seq<(string, V)>, items: seq<T>, entry: T -> Option<(string, V)>)
    requires DistinctKeys(acc)
    ensures PutAll(acc, items, entry).Some? ==> DistinctKeys(PutAll(acc, items, entry).value)
    decreases |items|
  {
    if |items| > 0 {
      match entry(items[0])
      case None =>
      case Some(e) =>
        PutDistinct(acc, e.0, e.1);
        PutAllDistinct(Put(acc, e.0, e.1), items[1..], entry);
    }
  }

  /** `{asset['name']: asset['browser_download_url']}`; a name that is not a
      string is treated as malformed. */
  function AssetEntry(asset: Json): (r: Option<(string, Json)>)
    ensures r.Some? <==> Subscript(asset, "name").Some? && Subscript(asset, "name").value.JStr?
                         && Subscript(asset, "browser_download_url").Some?
    ensures r.Some? ==> Subscript(asset, "name") == Some(JStr(r.value.0))
                        && Subscript(asset, "browser_download_url") == Some(r.value.1)
  {
    match (Subscript(asset, "name"), Subscript(asset, "browser_download_url"))
    case (Some(JStr(name)), Some(url)) => Some((name, url))
    case _ => None
  }

  /** An asset object whose last `name` and `browser_download_url` members
      are the given ones gives back exactly that name and URL. */
  lemma AssetEntryOfObject(others: seq<(string, Json)>, name: string, url: Json)
    ensures AssetEntry(JObj(others + [("name", JStr(name)), ("browser_download_url", url)]))
            == Some((name, url))
  {
    var ms := others + [("name", JStr(name)), ("browser_download_url", url)];
    var k := |others|;
    assert ms[k] == ("name", JStr(name)) && ms[k + 1] == ("browser_download_url", url);
    var n := Subscript(JObj(ms), "name");
    var i :| 0 <= i < |ms| && ms[i] == ("name", n.value) && forall j :: i < j < |ms| ==> ms[j].0 != "name";
    assert i == k;
    SubscriptLastWins(others + [("name", JStr(name))], "browser_download_url", url);
  }

  /** The catalog entry for one release object. Any missing member, a name or
      body that is not a string, an `assets` that cannot be iterated or a
      malformed asset gives None. */
  function ReleaseEntry(release: Json): (r: Option<(string, Release)>)
    ensures r.Some? ==> r.value.1.version == r.value.0
    ensures r.Some? ==> Subscript(release, "name") == Some(JStr(r.value.0))
    ensures r.Some? ==> Subscript(release, "zipball_url") == Some(r.value.1.src)
    ensures r.Some? ==> exists body :: Subscript(release, "body") == Some(JStr(body))
                                       && r.value.1.changelog == Strip(body)
    ensures r.Some? ==> DistinctKeys(r.value.1.assets)
    ensures r.Some? <==>
              && Subscript(release, "name").Some? && Subscript(release, "name").value.JStr?
              && Subscript(release, "zipball_url").Some?
              && Subscript(release, "body").Some? && Subscript(release, "body").value.JStr?
              && Subscript(release, "assets").Some?
              && Iterate(Subscript(release, "assets").value).Some?
              && PutAll([], Iterate(Subscript(release, "assets").value).value, AssetEntry).Some?
  {
    match (Subscript(release, "name"), Subscript(release, "zipball_url"),
           Subscript(release, "body"), Subscript(release, "assets"))
    case (Some(JStr(name)), Some(src), Some(JStr(body)), Some(assetsJson)) =>
      (match Iterate(assetsJson)
       case None => None
       case Some(items) =>
         PutAllDistinct([], items, AssetEntry);
         match PutAll([], items, AssetEntry)
         case None => None
         case Some(assets) => Some((name, Release(name, src, assets, Strip(body)))))
    case _ => None
  }

  /** Every catalog value records the name it is stored under. */
  predicate VersionsMatchKeys(c: Catalog) {
    forall i :: 0 <= i < |c| ==> c[i].1.version == c[i].0
  }

  lemma {:induction false} PutAllReleasesMatchKeys(acc: Catalog, items: seq<Json>)
    requires VersionsMatchKeys(acc)
    ensures PutAll(acc, items, ReleaseEntry).Some? ==> VersionsMatchKeys(PutAll(acc, items, ReleaseEntry).value)
    decreases |items|
  {
    if |items| > 0 {
      match ReleaseEntry(items[0])
      case None =>
      case Some(e) =>
        PutMatchesKeys(acc, e.0, e.1);
        PutAllReleasesMatchKeys(Put(acc, e.0, e.1), items[1..]);
    }
  }

  /** Storing a release under its own name keeps every value matching its key. */
  lemma PutMatchesKeys(acc: Catalog, k: string, rel: Release)
    requires VersionsMatchKeys(acc) && rel.version == k
    ensures VersionsMatchKeys(Put(acc, k, rel))
  {
    var c := Put(acc, k, rel);
    forall i | 0 <= i < |c| ensures c[i].1.version == c[i].0 {
      PutKeyAt(acc, k, rel, i);
      if i < |acc| && acc[i].0 != k {
        PutPlaces(acc, k, rel);
      } else {
        PutPlaces(acc, k, rel);
        PutKeys(acc, k, rel);
      }
    }
  }

  /** The API's soft denial: a dict whose `message` is present and not null. */
  predicate IsDenial(body: Json) {
    Subscript(body, "message").Some? && Subscript(body, "message").value != JNull
  }

  /** Only a dict can be a denial (`.get` on a list raises AttributeError,
      which is ignored); a dict without `message` is not one; otherwise the
      last `message` member decides, and a null one is no denial. */
  lemma DenialReadsMessage(body: Json, members: seq<(string, Json)>, v: Json)
    ensures !body.JObj? ==> !IsDenial(body)
    ensures (forall i :: 0 <= i < |members| ==> members[i].0 != "message") ==> !IsDenial(JObj(members))
    ensures IsDenial(JObj(members + [("message", v)])) <==> v != JNull
  {
    SubscriptLastWins(members, "message", v);
  }

  /** The release objects `get_releases` iterates: the single object for
      `latest`, otherwise whatever iterating the body yields. */
  function ReleaseObjects(version: string, body: Json): (r: Option<seq<Json>>)
    ensures version == Latest ==> r == Some([body])
    ensures version != Latest ==> (r.None? <==> (body.JNull? || body.JBool? || body.JNum?))
    ensures version != Latest && body.JArr? ==> r == Some(body.items)
  {
    if version == Latest then Some([body]) else Iterate(body)
  }

  /** The catalog built from a parsed body, or None. */
  function CatalogOf(version: string, body: Json): (r: Option<Catalog>)
    ensures IsDenial(body) ==> r == None
    ensures r.Some? <==> !IsDenial(body) && ReleaseObjects(version, body).Some?
                         && forall i :: 0 <= i < |ReleaseObjects(version, body).value| ==>
                                          ReleaseEntry(ReleaseObjects(version, body).value[i]).Some?
    ensures r.Some? ==> DistinctKeys(r.value) && VersionsMatchKeys(r.value)
    ensures r.Some? && version == Latest ==>
              |r.value| == 1 && Subscript(body, "name") == Some(JStr(r.value[0].0))
  {
    if IsDenial(body) then None
    else match ReleaseObjects(version, body)
      case None => None
      case Some(items) =>
        PutAllSucceeds([], items, ReleaseEntry);
        PutAllDistinct([], items, ReleaseEntry);
        PutAllReleasesMatchKeys([], items);
        PutAll([], items, ReleaseEntry)
  }

  /** `get_releases(version)`: `fetch` stands for the HTTP GET and the JSON
      parse of the body, None when either raises. */
  function FetchReleases(version: string, fetch: string -> Option<Json>): (r: Option<Catalog>)
    ensures fetch(ReleasesUrl(version)).None? ==> r.None?
    ensures fetch(ReleasesUrl(version)).Some? && IsDenial(fetch(ReleasesUrl(version)).value) ==> r.None?
    ensures r.Some? <==>
              && fetch(ReleasesUrl(version)).Some?
              && var body := fetch(ReleasesUrl(version)).value;
                 && !IsDenial(body) && ReleaseObjects(version, body).Some?
                 && forall i :: 0 <= i < |ReleaseObjects(version, body).value| ==>
                                  ReleaseEntry(ReleaseObjects(version, body).value[i]).Some?
    ensures r.Some? ==> DistinctKeys(r.value) && VersionsMatchKeys(r.value)
    ensures r.Some? && version == Latest ==>
              |r.value| == 1 && Subscript(fetch(ReleasesUrl(version)).value, "name") == Some(JStr(r.value[0].0))
  {
    match fetch(ReleasesUrl(version))
    case None => None
    case Some(body) => CatalogOf(version, body)
  }

  /** For a list body whose releases have distinct names and are all well
      formed, the catalog has one entry per release, in the response order. */
  lemma ListCatalogFollowsResponse(version: string, items: seq<Json>)
    requires version != Latest
    requires forall i :: 0 <= i < |items| ==> ReleaseEntry(items[i]).Some?
    requires forall i, j :: 0 <= i < j < |items| ==> ReleaseEntry(items[i]).value.0 != ReleaseEntry(items[j]).value.0
    ensures CatalogOf(version, JArr(items)).Some?
    ensures |CatalogOf(version, JArr(items)).value| == |items|
    ensures forall i :: 0 <= i < |items| ==> CatalogOf(version, JArr(items)).value[i] == ReleaseEntry(items[i]).value
  {
    PutAllAppends([], items, ReleaseEntry);
  }

  /** The same for a release's assets: one entry per asset, in order. */
  lemma AssetsFollowResponse(release: Json, items: seq<Json>)
    requires ReleaseEntry(release).Some?
    requires Subscript(release, "assets") == Some(JArr(items))
    requires forall i, j :: 0 <= i < j < |items| ==>
               AssetEntry(items[i]).Some? && AssetEntry(items[j]).Some?
               && AssetEntry(items[i]).value.0 != AssetEntry(items[j]).value.0
    ensures |ReleaseEntry(release).value.1.assets| == |items|
    ensures forall i :: 0 <= i < |items| ==> ReleaseEntry(release).value.1.assets[i] == AssetEntry(items[i]).value
  {
    var assets := ReleaseEntry(release).value.1.assets;
    ReleaseAssets(release, items);
    PutAllSucceeds([], items, AssetEntry);
    PutAllAppends([], items, AssetEntry);
    assert assets == [] + Entries(items, AssetEntry);
  }

  /** A release's asset dict is what the asset loop builds from its `assets` list. */
  lemma ReleaseAssets(release: Json, items: seq<Json>)
    requires ReleaseEntry(release).Some?
    requires Subscript(release, "assets") == Some(JArr(items))
    ensures PutAll([], items, AssetEntry) == Some(ReleaseEntry(release).value.1.assets)
  {
    assert Iterate(JArr(items)) == Some(items);
  }
}
