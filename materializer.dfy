/**
 * What `Updater.extract_data` leaves behind: for a `.zip` source archive the
 * unpacked folder renamed to the requested or the derived name, for any
 * other file the file itself, renamed when a new name is given.
 */
module Materializer {
  import opened Wrappers
  import opened Strings
  import opened Naming
  import opened FileSystems

  /** The exceptions `extract_data` lets escape. */
  datatype Crash =
    | EmptyArchive    // `zipf.filelist[0]` on an archive without entries: IndexError
    | NoDefaultName   // `data_path.split('-')[3]` with fewer than three hyphens: IndexError
    | RenameFailed(error: OsError)  // an `os.rename` error the source does not catch

  /** The returned location (None when the archive was not a valid zip), or the escaping exception. */
  datatype Extraction = Located(path: Option<string>) | Crashed(crash: Crash)

  /** The folder's final name: `new_name` when given, else the derived name. */
  function TargetName(dataPath: string, newName: Option<string>): (r: Option<string>)
    ensures newName.Some? ==> r == newName
    ensures newName.None? ==> (r.Some? <==> |Split(dataPath, "-")| >= 4)
    ensures newName.None? && r.Some? ==> StartsWith(r.value, ProductPrefix)
  {
    if newName.Some? then newName else DefaultFolderName(dataPath)
  }

  /** `extract_data(data_path, new_name)` over the working directory
      `entries`. `archive` is the list of entry names when the file is a
      valid zip and None when opening it raises BadZipFile; `resolve` stands
      for `pathlib.Path(...).resolve()`. Returns the outcome and the new
      working directory. */
  function Extract(entries: Listing, dataPath: string, newName: Option<string>,
                   archive: Option<seq<string>>, resolve: string -> string): (r: (Extraction, Listing))
    ensures r.0.Located? && r.0.path.None? ==> IsArchivePath(dataPath) && r.1 == entries
  {
    if IsArchivePath(dataPath) then
      match archive
      case None => (Located(None), entries)
      case Some(names) =>
        if |names| == 0 then (Crashed(EmptyArchive), entries)
        else
          var folder := ExtractedFolderName(names[0]);
          var unpacked := Unpack(entries, names);
          match TargetName(dataPath, newName)
          case None => (Crashed(NoDefaultName), unpacked)
          case Some(target) =>
            match Renamed(unpacked, folder, target)
            case Moved(after) =>
              (Located(Some(if newName.Some? then resolve(target) else target)), after)
            case Refused(FileExists) => (Located(Some(resolve(folder))), unpacked)
            case Refused(error) => (Crashed(RenameFailed(error)), unpacked)
    else if newName.None? then (Located(Some(resolve(dataPath))), entries)
    else match Renamed(entries, dataPath, newName.value)
      case Moved(after) => (Located(Some(resolve(newName.value))), after)
      case Refused(error) => (Crashed(RenameFailed(error)), entries)
  }

  /** A file that is not a valid zip: no location, nothing changed. */
  lemma InvalidArchiveLeavesNoPath(entries: Listing, dataPath: string, newName: Option<string>,
                                   resolve: string -> string)
    requires IsArchivePath(dataPath)
    ensures Extract(entries, dataPath, newName, None, resolve) == (Located(None), entries)
  {
  }

  /** A source archive of the usual shape with no new name: the unpacked
      root folder is renamed to the product name plus the version field of
      the file name, and that (unresolved) name is returned. */
  lemma ArchiveGetsDerivedName(entries: Listing, a: string, b: string, c: string, v: string,
                               tail: string, names: seq<string>, root: string, resolve: string -> string)
    requires '-' !in a && '-' !in b && '-' !in c && '-' !in v
    requires tail == "" || tail[0] == '-'
    requires IsArchivePath(a + "-" + b + "-" + c + "-" + v + tail)
    requires |names| > 0 && names[0] == root + "/" && '/' !in root
    requires ProductPrefix + v !in Unpack(entries, names)
    ensures var r := Extract(entries, a + "-" + b + "-" + c + "-" + v + tail, None, Some(names), resolve);
            && r.0 == Located(Some(ProductPrefix + v))
            && r.1 == Renamed(Unpack(entries, names), root, ProductPrefix + v).after
            && ProductPrefix + v in r.1 && root !in r.1
  {
    DefaultFolderNameOfArchive(a, b, c, v, tail);
    UnpackedRoot(entries, names, root);
  }

  /** A source archive of the usual shape with a new name: the root folder
      ends up literally under that name, whose resolved form is returned. */
  lemma ArchiveGetsNewName(entries: Listing, dataPath: string, newName: string, names: seq<string>,
                           root: string, resolve: string -> string)
    requires IsArchivePath(dataPath)
    requires |names| > 0 && names[0] == root + "/" && '/' !in root
    requires newName != "" && newName !in Unpack(entries, names)
    ensures var r := Extract(entries, dataPath, Some(newName), Some(names), resolve);
            && r.0 == Located(Some(resolve(newName)))
            && Renamed(Unpack(entries, names), root, newName).Moved?
            && r.1 == Renamed(Unpack(entries, names), root, newName).after
            && r.1[newName] == Unpack(entries, names)[root]
            && newName in r.1 && root !in r.1
  {
    UnpackedRoot(entries, names, root);
  }

  /** When the destination already exists, the error is logged and the
      location of the unpacked folder, kept under its own name, is returned. */
  lemma CollisionKeepsUnpackedFolder(entries: Listing, dataPath: string, newName: Option<string>,
                                     names: seq<string>, root: string, resolve: string -> string)
    requires IsArchivePath(dataPath)
    requires |names| > 0 && names[0] == root + "/" && '/' !in root
    requires TargetName(dataPath, newName).Some? && TargetName(dataPath, newName).value != ""
    requires TargetName(dataPath, newName).value in Unpack(entries, names)
    ensures Extract(entries, dataPath, newName, Some(names), resolve)
            == (Located(Some(resolve(root))), Unpack(entries, names))
  {
    UnpackedRoot(entries, names, root);
  }

  /** A binary without a new name: nothing moves, and the file's own
      resolved path is returned, whatever `archive` says. */
  lemma BinaryKeepsPath(entries: Listing, dataPath: string, archive: Option<seq<string>>,
                        resolve: string -> string)
    requires !IsArchivePath(dataPath)
    ensures Extract(entries, dataPath, None, archive, resolve) == (Located(Some(resolve(dataPath))), entries)
  {
  }

  /** A binary with a new name: exactly one rename, and the new name's
      resolved form is returned. */
  lemma BinaryRenamedOnce(entries: Listing, dataPath: string, newName: string,
                          archive: Option<seq<string>>, resolve: string -> string)
    requires !IsArchivePath(dataPath)
    requires dataPath in entries && newName != "" && newName !in entries
    ensures Extract(entries, dataPath, Some(newName), archive, resolve)
            == (Located(Some(resolve(newName))), (entries - {dataPath})[newName := entries[dataPath]])
  {
  }

  /** An empty new name is refused by `os.rename` with FileNotFoundError,
      which neither branch catches: unless the archive is invalid (and no
      rename is attempted), the call raises. */
  lemma EmptyNewNameCrashes(entries: Listing, dataPath: string, archive: Option<seq<string>>,
                            resolve: string -> string)
    requires !IsArchivePath(dataPath) || (archive.Some? && |archive.value| > 0)
    ensures Extract(entries, dataPath, Some(""), archive, resolve).0 == Crashed(RenameFailed(FileNotFound))
  {
  }
}
