/**
 * The `Updater` object: the platform token fixed at construction, the
 * release catalog fetched lazily and cached, and the operations that
 * resolve, download and unpack an update.
 */
module Updaters {
  import opened Wrappers
  import opened Strings
  import opened OrderedMaps
  import opened Json
  import opened Catalog
  import opened AssetResolver
  import opened Naming
  import opened FileSystems
  import opened Materializer
  import opened Http

  /** The asset-name token for the running platform, from `sys.platform`
      and `sys.maxsize`. Windows gets `win64` when the process's pointers are
      wider than 32 bits and `win32` otherwise; every other platform,
      macOS included, gets none. */
  function PlatformToken(platform: string, maxsize: int): (r: Option<string>)
    ensures r.Some? <==> StartsWith(platform, "win")
    ensures r == Some("win64") <==> StartsWith(platform, "win") && maxsize > 0x1_0000_0000
    ensures r == Some("win32") <==> StartsWith(platform, "win") && maxsize <= 0x1_0000_0000
    ensures platform == "darwin" ==> r.None?
  {
    if !StartsWith(platform, "win") then None
    else
      assert platform[0] == platform[..3][0] == 'w';
      if maxsize > 0x1_0000_0000 then Some("win64") else Some("win32")
  }

  class Updater {
    var fromMain: bool
    /** The platform token asset names are matched against. */
    var arch: Option<string>
    /** The catalog cache: None until a fetch succeeds. */
    var releases: Option<Catalog>

    constructor (fromMain: bool, platform: string, maxsize: int)
      ensures this.fromMain == fromMain
      ensures arch == PlatformToken(platform, maxsize)
      ensures releases == None
    {
      this.fromMain := fromMain;
      arch := None;
      if StartsWith(platform, "win") {
        arch := Some("win32");
        if maxsize > 0x1_0000_0000 {
          arch := Some("win64");
        }
      } else if platform == "darwin" {
        // The source binds a local variable here, so the field stays None.
        var localArch := "macos";
      }
      releases := None;
    }

    /** `get_releases(version)`: fetch the list (or the latest release),
        reject a soft denial, and build the catalog release by release and
        asset by asset. Any failure gives None. */
    method GetReleases(version: string, fetch: string -> Option<Json>) returns (r: Option<Catalog>)
      ensures r == FetchReleases(version, fetch)
    {
      var response := fetch(ReleasesUrl(version));
      if response.None? {
        return None;
      }
      var updateJson := response.value;
      if updateJson.JObj? {
        var message := Subscript(updateJson, "message");
        if message.Some? && message.value != JNull {
          return None;
        }
      }
      var releaseObjects: seq<Json>;
      if version == Latest {
        releaseObjects := [updateJson];
      } else {
        var iterated := Iterate(updateJson);
        if iterated.None? {
          return None;
        }
        releaseObjects := iterated.value;
      }
      r := CollectReleases(releaseObjects);
    }

    /** The outer loop of `get_releases`: one catalog entry per release
        object, None as soon as one is malformed. */
    method CollectReleases(releaseObjects: seq<Json>) returns (r: Option<Catalog>)
      ensures r == PutAll([], releaseObjects, ReleaseEntry)
    {
      var catalog: Catalog := [];
      var i := 0;
      while i < |releaseObjects|
        invariant 0 <= i <= |releaseObjects|
        invariant PutAll(catalog, releaseObjects[i..], ReleaseEntry) == PutAll([], releaseObjects, ReleaseEntry)
      {
        var release := releaseObjects[i];
        assert releaseObjects[i..][0] == release && releaseObjects[i..][1..] == releaseObjects[i + 1..];
        var entry := ReadRelease(release);
        if entry.None? {
          return None;
        }
        catalog := Put(catalog, entry.value.0, entry.value.1);
        i := i + 1;
      }
      return Some(catalog);
    }

    /** The body of the outer loop of `get_releases`: the catalog entry for
        one release object, None as soon as a member is missing or malformed. */
    method ReadRelease(release: Json) returns (r: Option<(string, Release)>)
      ensures r == ReleaseEntry(release)
    {
      var name := Subscript(release, "name");
      var src := Subscript(release, "zipball_url");
      var body := Subscript(release, "body");
      var assetsJson := Subscript(release, "assets");
      if !(name.Some? && name.value.JStr? && src.Some? && body.Some? && body.value.JStr? && assetsJson.Some?) {
        return None;
      }
      var items := Iterate(assetsJson.value);
      if items.None? {
        return None;
      }
      var assets := CollectAssets(items.value);
      if assets.None? {
        return None;
      }
      return Some((name.value.s, Release(name.value.s, src.value, assets.value, Strip(body.value.s))));
    }

    /** The inner loop of `get_releases`: one asset dict entry per asset,
        None as soon as an asset lacks a string name or a download URL. */
    method CollectAssets(items: seq<Json>) returns (r: Option<seq<(string, Json)>>)
      ensures r == PutAll([], items, AssetEntry)
    {
      var assets: seq<(string, Json)> := [];
      var j := 0;
      while j < |items|
        invariant 0 <= j <= |items|
        invariant PutAll(assets, items[j..], AssetEntry) == PutAll([], items, AssetEntry)
      {
        var asset := items[j];
        assert items[j..][0] == asset && items[j..][1..] == items[j + 1..];
        var url := Subscript(asset, "browser_download_url");
        var assetName := Subscript(asset, "name");
        if !(assetName.Some? && assetName.value.JStr? && url.Some?) {
          return None;
        }
        assets := Put(assets, assetName.value.s, url.value);
        j := j + 1;
      }
      return Some(assets);
    }

    /** `find_suitable_data(datatype, version)`: fill the cache on first use,
        then pick the release and the URL. A filled cache is kept, even for
        a later call with another version. */
    method FindSuitableData(kind: string, version: string, fetch: string -> Option<Json>)
      returns (r: Resolution)
      modifies this`releases
      ensures old(releases).Some? ==> releases == old(releases)
      ensures old(releases).None? ==> releases == FetchReleases(version, fetch)
      ensures r == Resolve(releases, kind, version, arch)
    {
      if releases.None? {
        releases := GetReleases(version, fetch);
      }
      r := SelectData(kind, version);
    }

    /** The selection part of `find_suitable_data`, on the cache as it is. */
    method SelectData(kind: string, version: string) returns (r: Resolution)
      ensures r == Resolve(releases, kind, version, arch)
    {
      var assets: seq<(string, Json)> := [];
      var assetsBound := false;
      if version == Latest {
        if kind == SourceCode || kind == ExecutableFile {
          if releases.None? {
            return Raised(NoCatalog);
          }
          if |releases.value| == 0 {
            return Raised(NoReleases);
          }
          var first := releases.value[0].1;
          if kind == SourceCode {
            return Found(first.src);
          }
          assets, assetsBound := first.assets, true;
        }
      } else {
        if releases.None? {
          return Raised(NoCatalog);
        }
        var catalog := releases.value;
        var k := 0;
        while k < |catalog|
          invariant 0 <= k <= |catalog|
          invariant !assetsBound
          invariant kind == SourceCode || kind == ExecutableFile ==>
                      forall m :: 0 <= m < k ==> catalog[m].0 != version
        {
          if catalog[k].0 == version {
            if kind == SourceCode {
              IndexOfFirst(catalog, version, k);
              return Found(catalog[k].1.src);
            } else if kind == ExecutableFile {
              IndexOfFirst(catalog, version, k);
              assets, assetsBound := catalog[k].1.assets, true;
              break;
            }
          }
          k := k + 1;
        }
      }
      if kind == ExecutableFile {
        if !assetsBound {
          return Raised(AssetsUnbound);
        }
        var j := 0;
        while j < |assets|
          invariant 0 <= j <= |assets|
          invariant j > 0 ==> arch.Some?
          invariant forall m :: 0 <= m < j ==> !IsSubstring(arch.value, assets[m].0)
        {
          var (assetName, assetUrl) := assets[j];
          if arch.None? {
            return Raised(ArchIsNone);
          }
          if Find(assetName, arch.value) != -1 {
            return Found(assetUrl);
          }
          j := j + 1;
        }
      }
      return NothingFound;
    }

    /** `download_file(url)`: `get` stands for the streamed request (None
        when it raises). The file is named by the Content-Disposition header
        and written chunk by chunk; `updates` lists the amounts reported to
        the progress bar. The result is the resolved path, or None for the
        source's `False`. */
    method DownloadFile(url: string, get: string -> Option<Response>, fs: FileSystem, resolve: string -> string)
      returns (r: Option<string>, updates: seq<int>)
      modifies fs
      ensures get(url).None? ==> r.None? && fs.entries == old(fs.entries) && updates == []
      ensures get(url).Some? ==>
                var response := get(url).value;
                var filename := FilenameFromDisposition(response.disposition);
                if filename.None? || response.length.Malformed? then
                  r.None? && fs.entries == old(fs.entries) && updates == []
                else
                  && r == Some(resolve(filename.value))
                  && fs.entries == old(fs.entries)[filename.value := Written(Body(response.chunks))]
                  && (response.length.Absent? ==> updates == [])
                  && (response.length.Length? ==> Sum(updates) == |Body(response.chunks)|)
                  && (forall k :: 0 <= k < |updates| ==> updates[k] > 0)
    {
      updates := [];
      var response := get(url);
      if response.None? {
        return None, updates;
      }
      var chunks := response.value.chunks;
      var filename := FilenameFromDisposition(response.value.disposition);
      if response.value.length.Malformed? || filename.None? {
        return None, updates;
      }
      var name := filename.value;
      fs.Create(name);
      if response.value.length.Absent? {
        fs.Append(name, Body(chunks));
        assert [] + Body(chunks) == Body(chunks);
      } else {
        updates := WriteChunks(fs, name, chunks);
      }
      return Some(resolve(name)), updates;
    }

    /** The streamed branch of `download_file`: every non-empty chunk is
        appended to the freshly created file and its size reported; empty
        keep-alive chunks are skipped. */
    method WriteChunks(fs: FileSystem, name: string, chunks: seq<seq<bv8>>) returns (updates: seq<int>)
      requires name in fs.entries && fs.entries[name] == Written([])
      modifies fs
      ensures fs.entries == old(fs.entries)[name := Written(Body(chunks))]
      ensures Sum(updates) == |Body(chunks)|
      ensures forall k :: 0 <= k < |updates| ==> updates[k] > 0
    {
      updates := [];
      var i := 0;
      while i < |chunks|
        invariant 0 <= i <= |chunks|
        invariant fs.entries == old(fs.entries)[name := Written(Body(chunks[..i]))]
        invariant Sum(updates) == |Body(chunks[..i])|
        invariant forall k :: 0 <= k < |updates| ==> updates[k] > 0
      {
        var chunk := chunks[i];
        assert chunks[..i + 1][..i] == chunks[..i];
        assert Body(chunks[..i + 1]) == Body(chunks[..i]) + chunk;
        if |chunk| > 0 {
          fs.Append(name, chunk);
          assert (updates + [|chunk|])[..|updates|] == updates;
          updates := updates + [|chunk|];
        } else {
          assert Body(chunks[..i]) + chunk == Body(chunks[..i]);
        }
        i := i + 1;
      }
      assert chunks[..|chunks|] == chunks;
    }

    /** `extract_data(data_path, new_name)`: see `Materializer.Extract`. */
    method ExtractData(dataPath: string, newName: Option<string>, archive: Option<seq<string>>,
                       fs: FileSystem, resolve: string -> string)
      returns (r: Extraction)
      modifies fs
      ensures (r, fs.entries) == Extract(old(fs.entries), dataPath, newName, archive, resolve)
    {
      var extractedDataPath: Option<string> := None;
      if IsArchivePath(dataPath) {
        if archive.Some? {
          var names := archive.value;
          if |names| == 0 {
            return Crashed(EmptyArchive);
          }
          var extractedFolderName := ExtractedFolderName(names[0]);
          fs.ExtractAll(names);
          extractedDataPath := Some(resolve(extractedFolderName));
          var target: string;
          if newName.Some? {
            target := newName.value;
          } else {
            var derived := DefaultFolderName(dataPath);
            if derived.None? {
              return Crashed(NoDefaultName);
            }
            target := derived.value;
          }
          var renaming := fs.Rename(extractedFolderName, target);
          if renaming.Moved? {
            extractedDataPath := Some(if newName.Some? then resolve(target) else target);
          } else if renaming.error != FileExists {
            return Crashed(RenameFailed(renaming.error));
          }
        }
      }
      if !IsArchivePath(dataPath) {
        extractedDataPath := Some(resolve(dataPath));
        if newName.Some? {
          var renaming := fs.Rename(dataPath, newName.value);
          if renaming.Refused? {
            return Crashed(RenameFailed(renaming.error));
          }
          extractedDataPath := Some(resolve(newName.value));
        }
      }
      return Located(extractedDataPath);
    }
  }
}
