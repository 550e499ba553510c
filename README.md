# ESET-KeyGen updater, modelled in Dafny

This project models the decision logic of the ESET-KeyGen self-updater
(`modules/Updater.py`), which fetches the project's releases from the GitHub
API, picks the source archive or the platform build a user asked for,
downloads it, and unpacks or renames it in the working directory.

The model follows the `Updater` class:

- **Platform token** (`Updaters.PlatformToken`, `Updater` constructor): `win64`
  or `win32` on Windows, chosen by `sys.maxsize`; no token anywhere else.
- **Catalog** (`Catalog`, `Updater.GetReleases`): the parsed API answer (a
  `Json` value) becomes an insertion-ordered dict from release name to
  version, source URL, ordered asset dict and stripped changelog. A soft
  denial (a `message` member that is not null), a missing member or a value
  of the wrong shape gives None. Python's iteration and subscripting rules
  decide what "the wrong shape" means: a list yields items, a dict its keys,
  a string its characters, and only a dict can be subscripted by a string.
- **Resolution** (`AssetResolver`, `Updater.FindSuitableData`,
  `Updater.SelectData`): the first successful fetch is cached and never
  replaced; a failed fetch leaves the cache empty, so the next call fetches
  again. `latest` picks the positionally first release. Any other version
  picks the first release with exactly that name. Source requests return the
  release's `src`. Executable requests return the URL of the first asset whose
  name contains the token. The exceptions the Python code raises are explicit
  `Raised` outcomes.
- **Download** (`Naming.FilenameFromDisposition`, `Updater.DownloadFile`): the
  file name is `header.split('filename=')[1]`, quotes kept. The body is written
  chunk by chunk, and the progress amounts add up to the bytes written.
- **Materialisation** (`Materializer.Extract`, `Updater.ExtractData`): a
  `.zip` is unpacked and its first entry minus the last character is renamed,
  either to `new_name` or to `ESET-KeyGen-` plus the fourth `-`-separated
  field of the path. Any other file keeps its path or is renamed to
  `new_name`.

Python dicts are sequences of key/value pairs with distinct keys
(`OrderedMaps`). `d[k] = v` replaces a value in place or appends a new entry.
The working directory is a map from names to entries (`FileSystems`).
`os.rename` there refuses an empty destination name and an existing
destination, as on Windows. The HTTP
requests and `pathlib.Path.resolve` are function parameters.

Behaviours of the code that the model keeps as written:

- On macOS the code assigns a local variable (line 20), so the token field
  stays None. The comment on that line shows that `macos` was meant as the
  token, but the model follows the assignment.
- Without a Content-Disposition header, `filename` is never bound (line 80),
  so `open(filename, 'wb')` raises and the call returns `False`.
- With no `new_name`, the archive branch returns the derived folder name
  unresolved (line 115), while every other branch returns a resolved path.
- When the archive's rename hits an existing name, the path set at line 109
  (the resolved unpacked folder) is returned.
- The derived name splits the whole `data_path` on `-`, not the file's own
  name. A hyphen in a directory name therefore shifts the field.

## Model

| member | source | states |
|---|---|---|
| `Strings.Find` | modules/Updater.py:73 | `str.find`: -1 exactly when `sub` does not occur; otherwise an occurrence, with none earlier |
| `Strings.Split` | modules/Updater.py:80 | `str.split(sep)`: at least one piece, and no piece contains the separator |
| `Strings.JoinSplit` | modules/Updater.py:114 | joining the pieces of a split with the separator gives back the text |
| `Strings.SplitSecondPiece` | modules/Updater.py:80 | `split(sep)[1]` exists exactly when the separator occurs, and is exactly the text after the first occurrence up to the next occurrence (or the end), even when the separator overlaps itself |
| `Strings.SplitFirstPiece` | modules/Updater.py:114 | `split(sep)[0]` is the text up to the first occurrence of the separator, or all of it |
| `Strings.Strip` | modules/Updater.py:47 | `str.strip()`: the result is a slice of the input with only Python whitespace cut from both ends, and does not start or end with whitespace |
| `Strings.StripIdempotent` | modules/Updater.py:47 | stripping a stripped changelog changes nothing |
| `Strings.DropLast` | modules/Updater.py:106 | `s[0:-1]`: all but the last character; empty stays empty |
| `OrderedMaps.IndexOf` | modules/Updater.py:43 | the position of a key is where it first occurs; None when it is not a key |
| `OrderedMaps.Get` | modules/Updater.py:34 | `d.get(k)` is None exactly when `k` is not a key, and otherwise a value stored under `k` |
| `OrderedMaps.Put` | modules/Updater.py:43-50 | `d[k] = v` stores `(k, v)`, and the dict grows by one exactly for a new key |
| `OrderedMaps.PutPlaces` | modules/Updater.py:43-50 | a known key's entry is replaced at its position, a new key's entry goes last, and every other entry stays where it was |
| `OrderedMaps.PutKeys` | modules/Updater.py:43 | `d[k] = v` keeps an existing key's position and appends a new key last |
| `OrderedMaps.PutGet` | modules/Updater.py:50 | after `d[k] = v`, `k` reads `v` and every other key reads its old value |
| `OrderedMaps.PutDistinct` | modules/Updater.py:50 | assignment keeps the keys distinct |
| `OrderedMaps.FromPairs` | modules/Updater.py:32 | the dict `json` builds from an object's members has distinct keys |
| `OrderedMaps.FromPairsKeys` | modules/Updater.py:32 | the keys of that dict are the member names, each once, in the order of first occurrence |
| `OrderedMaps.FromPairsGet` | modules/Updater.py:32 | a name no member carries is missing from that dict, and any other name reads the value of its last member |
| `Json.Subscript` | modules/Updater.py:34-50 | `x[key]` gives a value only for a dict; it is missing exactly when no member has that name, and otherwise it is the value of the last member with that name |
| `Json.SubscriptLastWins` | modules/Updater.py:34-50 | when a name is given twice, the later member is the one read |
| `Json.Iterate` | modules/Updater.py:42-49 | `for y in x`: a list yields its items; a dict yields every member name, each once, in the order of first occurrence; a string yields its characters; null, booleans and numbers are not iterable |
| `Json.IterateKeysOnce` | modules/Updater.py:42-49 | iterating a dict never yields a key twice |
| `Catalog.PutAllSucceeds` | modules/Updater.py:42-50 | the catalog loop succeeds exactly when every release (or asset) is well formed |
| `Catalog.PutAll` | modules/Updater.py:42-50 | when the loop of assignments succeeds, the dict has not shrunk and has grown by at most one entry per item |
| `Catalog.PutAllKeepsKeys` | modules/Updater.py:43-50 | the loop keeps the keys it started with at the front, in their order |
| `Catalog.PutAllAppends` | modules/Updater.py:42-50 | with names distinct and new, the loop appends one entry per item to the dict, in response order |
| `Catalog.PutAllDistinct` | modules/Updater.py:43 | the built dict has distinct keys |
| `Catalog.PutAllReleasesMatchKeys` | modules/Updater.py:43-44 | every catalog value's `version` equals its key |
| `Catalog.ReleasesUrl` | modules/Updater.py:27-29 | the URL is under the releases endpoint, and is the list endpoint itself exactly when the version is not `latest` |
| `Catalog.DenialReadsMessage` | modules/Updater.py:33-38 | only a dict can be a soft denial; a dict without `message` is not one; otherwise the last `message` decides, and a null one is no denial |
| `Catalog.ReleaseObjects` | modules/Updater.py:39-42 | `latest` wraps the single object in a list; otherwise the body is iterated, which fails exactly for null, booleans and numbers, and a list yields its items |
| `Catalog.AssetEntryOfObject` | modules/Updater.py:49-50 | an asset object gives its last `name` mapped to its last `browser_download_url`, whatever other members it has |
| `Catalog.ReleaseEntry` | modules/Updater.py:43-50 | a release entry is keyed by `name`, has `version` = key, `src` = `zipball_url`, `changelog` = stripped `body`, distinct asset names; it exists exactly when every member is present with the right shape |
| `Catalog.CatalogOf` | modules/Updater.py:33-51 | a soft denial gives None; success exactly when the release objects are iterable and all well formed; keys distinct and equal to versions; for `latest` exactly one key, the object's `name` |
| `Catalog.FetchReleases` | modules/Updater.py:26-53 | a failed request or parse gives None and so does a soft denial; success exactly when the body is not a denial and its release objects are iterable and all well formed; the keys are distinct and equal to the versions; for `latest` there is exactly one key, the fetched object's `name` |
| `Catalog.ListCatalogFollowsResponse` | modules/Updater.py:42-48 | a list of well-formed releases with distinct names gives a catalog of the same length, entry i from release i |
| `Catalog.AssetsFollowResponse` | modules/Updater.py:49-50 | a list of well-formed assets with distinct names gives one asset entry per asset, in order |
| `AssetResolver.FirstMatchingAsset` | modules/Updater.py:72-74 | the first asset in insertion order whose name contains the token; None exactly when no name contains it |
| `AssetResolver.ScanAssets` | modules/Updater.py:71-74 | no token with some assets raises; a found URL belongs to an asset whose name contains the token; nothing is found exactly when there are no assets or no name contains the token |
| `AssetResolver.Selected` | modules/Updater.py:58-70 | the selected release is the first for `latest` and the first with the exact name otherwise; there is none exactly when the catalog is empty or no name matches |
| `AssetResolver.Resolve` | modules/Updater.py:58-74 | a value only for the two known kinds and a selected release; source requests give its `src`, executable requests scan its assets; a missing cache, an empty catalog for `latest` and an unknown version for an executable each raise their exception, and only then |
| `AssetResolver.ResolveSelected` | modules/Updater.py:58-70 | for the selected release (first for `latest`, first exact name otherwise) source requests give `src` and executable requests scan its assets |
| `AssetResolver.ResolveUnknownVersion` | modules/Updater.py:63-72 | an explicit version no release carries gives nothing for source requests and the unbound-`assets` crash for executable requests |
| `AssetResolver.ScanAssetsFindsFirst` | modules/Updater.py:72-74 | the result is the URL of the first asset whose name contains the token |
| `AssetResolver.LatestReadsFirstOnly` | modules/Updater.py:58-62 | `latest` depends on the first release only, whatever the other names |
| `AssetResolver.ExecutableForWindows64` | modules/Updater.py:64-74 | release `v1.0` with asset `tool-win64.exe` at `U2` resolves to `U2` for token `win64` |
| `Naming.FilenameFromDisposition` | modules/Updater.py:80 | the file name is the text after the first `filename=` up to the next one or the end; None exactly when the header is missing or has no marker |
| `Naming.QuotedFilenameKeepsQuotes` | modules/Updater.py:80 | `attachment; filename="a.zip"` gives `"a.zip"` with its quotes |
| `Naming.ArchivePathIsZipName` | modules/Updater.py:103 | a path takes the archive branch exactly when it ends in `.zip`; the test is case-sensitive |
| `Naming.ExtractedFolderName` | modules/Updater.py:106 | a first entry `root/` gives the folder name `root` |
| `Naming.DefaultFolderName` | modules/Updater.py:114 | the derived name starts with `ESET-KeyGen-` and exists exactly when the path has at least four `-`-separated fields |
| `Naming.DefaultFolderNameOfArchive` | modules/Updater.py:114-115 | for `a-b-c-v` followed by nothing or a further `-` field, the derived name is `ESET-KeyGen-v` |
| `Naming.DefaultFolderNameExample` | modules/Updater.py:114 | `rzc0d3r-ESET-KeyGen-v1.5.2.7-0-g344f0d9.zip` gives `ESET-KeyGen-v1.5.2.7` |
| `FileSystems.Renamed` | modules/Updater.py:111 | `os.rename` succeeds exactly when the source exists and the destination is a non-empty name that does not exist; a missing source or an empty name raises FileNotFoundError, an existing destination FileExistsError; a success moves only that entry |
| `FileSystems.RenameBack` | modules/Updater.py:123 | renaming back undoes a rename |
| `FileSystems.Unpack` | modules/Updater.py:107 | `extractall()` adds the archive's top-level names and leaves other names as they were |
| `FileSystems.UnpackedRoot` | modules/Updater.py:106-107 | for a first entry `root/`, `root` exists after unpacking and is the name taken from the entry |
| `FileSystems.FileSystem.Rename` | modules/Updater.py:111 | the working directory changes exactly as `Renamed` says |
| `FileSystems.FileSystem.Create` | modules/Updater.py:86-90 | `open(name, 'wb')` leaves an empty file under `name` and changes nothing else |
| `FileSystems.FileSystem.ExtractAll` | modules/Updater.py:107 | the working directory becomes `Unpack` of what it was |
| `FileSystems.FileSystem.Append` | modules/Updater.py:93 | `f.write(chunk)` extends the open file by the chunk |
| `Http.Body` | modules/Updater.py:87 | the body's length is the sum of the chunk sizes |
| `Materializer.Extract` | modules/Updater.py:101-126 | a result with no path only comes from an invalid archive, and then the directory is unchanged |
| `Materializer.InvalidArchiveLeavesNoPath` | modules/Updater.py:116-117 | an invalid zip gives no location and changes nothing |
| `Materializer.TargetName` | modules/Updater.py:110-114 | the folder's final name is `new_name` when given; otherwise it exists exactly when the path has four `-`-separated fields, and starts with `ESET-KeyGen-` |
| `Materializer.ArchiveGetsDerivedName` | modules/Updater.py:113-115 | a usual source archive with no new name ends up as `ESET-KeyGen-<version>`, which is returned, and the unpacked root is gone |
| `Materializer.ArchiveGetsNewName` | modules/Updater.py:110-112 | with a new (non-empty, unused) name, the rename succeeds, the directory is exactly the unpacked one with the root moved to that name, the name holds what the root held, and its resolved path is returned |
| `Materializer.CollisionKeepsUnpackedFolder` | modules/Updater.py:109-119 | when the destination exists, the resolved unpacked folder is returned and nothing is renamed |
| `Materializer.BinaryRenamedOnce` | modules/Updater.py:120-124 | a binary with a new name is renamed once and the new name's resolved path is returned |
| `Materializer.EmptyNewNameCrashes` | modules/Updater.py:110-124 | an empty `new_name` makes `os.rename` raise FileNotFoundError, which escapes both branches whenever a rename is attempted |
| `Materializer.BinaryKeepsPath` | modules/Updater.py:120-121 | a file that is not a `.zip` and gets no new name stays where it is, and its resolved path is returned |
| `Updaters.PlatformToken` | modules/Updater.py:14-20 | a token exactly on `win*` platforms; `win64` exactly when `maxsize > 2**32`; none on `darwin` |
| `Updaters.Updater.constructor` | modules/Updater.py:12-24 | the token field is the platform token and the cache starts empty |
| `Updaters.Updater.GetReleases` | modules/Updater.py:26-53 | the request, the denial test and the loops give exactly `FetchReleases` |
| `Updaters.Updater.CollectReleases` | modules/Updater.py:42-50 | the release loop builds exactly the catalog `PutAll` describes, or fails |
| `Updaters.Updater.ReadRelease` | modules/Updater.py:43-50 | one release object gives exactly its `ReleaseEntry` |
| `Updaters.Updater.CollectAssets` | modules/Updater.py:49-50 | the asset loop builds exactly the asset dict, or fails |
| `Updaters.Updater.FindSuitableData` | modules/Updater.py:55-74 | the cache is filled only when empty and never replaced; the answer is `Resolve` on the cache |
| `Updaters.Updater.SelectData` | modules/Updater.py:58-74 | the scans with early returns give exactly `Resolve` |
| `Updaters.Updater.DownloadFile` | modules/Updater.py:76-99 | no header name, a bad length or a failed request gives `False` and writes nothing; otherwise the file holds the body, the result is its resolved path, and the progress amounts are positive, absent without a length header, and add up to the bytes written with one |
| `Updaters.Updater.WriteChunks` | modules/Updater.py:90-95 | the file ends up holding the chunks joined in order, every reported amount is positive, and the amounts add up to the bytes written |
| `Updaters.Updater.ExtractData` | modules/Updater.py:101-126 | the outcome and the new directory are exactly `Extract` |

## Left out

- The HTTP requests, their timeouts, and `response.json()` are not modelled.
  They are the `fetch` and `get` parameters, which return None when they raise.
- `console_log` messages and the `ProgressBar` rendering are not modelled.
  Only the amounts passed to `update` are kept.
- `updater_main` and the `__main__` guard are not modelled. They parse
  arguments and call functions that are not defined in this file.
- `pathlib.Path.resolve` is an uninterpreted function parameter.
- A release or asset name that is a JSON number, boolean or null is treated
  as malformed. Python would accept it as a dict key.
- `Updaters.Updater.GetReleases` builds each asset dict first and then stores
  the release. The source stores the release first and then fills its asset
  dict in place. The result is the same, because any failure discards the
  whole catalog.
- `Updaters.Updater.DownloadFile` does not model a transfer that fails after
  the first chunk (the file stays partly written), nor `open` failing.
- The 8 KiB chunk size is not modelled: the chunks are an input.
- `extractall` is modelled by the top-level names it creates. File contents,
  nested paths and overwrites of existing files are not modelled.
- A `.zip` path that does not exist is not modelled. The archive input is
  either its entry list or "not a valid zip".
- `os.rename` follows the Windows rule, where an existing destination is
  refused. The POSIX replace-on-rename behaviour is not modelled.
- `FileSystems.Renamed` refuses only the empty destination name. It does
  not model other names the OS rejects (characters Windows refuses, paths
  that are too long) or permission errors, because these depend on the
  platform's file system.
