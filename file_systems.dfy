/**
 * The working directory the updater writes into, as a map from name to
 * entry, with the three things the updater does to it: write a file,
 * unpack an archive, and rename (`os.rename`, with the Windows rule that an
 * existing destination is refused).
 */
module FileSystems {
  import opened Strings

  /** What a name holds: bytes the updater wrote, or something unpacked
      from an archive, whose contents are not modelled. */
  datatype Entry = Written(bytes: seq<bv8>) | Unpacked

  datatype OsError = FileNotFound | FileExists

  type Listing = map<string, Entry>

  datatype Renaming = Moved(after: Listing) | Refused(error: OsError)

  /** `os.rename(src, dst)`: a missing source, or an empty destination name,
      raises FileNotFoundError; an existing destination FileExistsError;
      otherwise the entry changes name. */
  function Renamed(entries: Listing, src: string, dst: string): (r: Renaming)
    ensures r.Moved? <==> src in entries && dst != "" && dst !in entries
    ensures r.Refused? ==> r.error == if src !in entries || dst == "" then FileNotFound else FileExists
    ensures r.Moved? ==> r.after.Keys == entries.Keys - {src} + {dst} && r.after[dst] == entries[src]
    ensures r.Moved? ==> forall n :: n in entries && n != src ==> n in r.after && r.after[n] == entries[n]
  {
    if src !in entries || dst == "" then Refused(FileNotFound)
    else if dst in entries then Refused(FileExists)
    else Moved((entries - {src})[dst := entries[src]])
  }

  /** Renaming back undoes a rename (a name the process can rename back to
      is never empty). */
  lemma RenameBack(entries: Listing, src: string, dst: string)
    requires Renamed(entries, src, dst).Moved? && src != ""
    ensures Renamed(Renamed(entries, src, dst).after, dst, src) == Moved(entries)
  {
    var after := Renamed(entries, src, dst).after;
    assert ((after - {dst})[src := after[dst]]).Keys == entries.Keys;
  }

  /** The name an archive entry lands under in the working directory: its
      first path component. */
  function TopLevelName(entry: string): string {
    Split(entry, "/")[0]
  }

  function TopLevelNames(names: seq<string>): set<string> {
    set n | n in names :: TopLevelName(n)
  }

  /** `extractall()`: every top-level name of the archive now exists; other
      names keep what they held. */
  function Unpack(entries: Listing, names: seq<string>): (r: Listing)
    ensures r.Keys == entries.Keys + TopLevelNames(names)
    ensures forall k :: k in entries && k !in TopLevelNames(names) ==> r[k] == entries[k]
  {
    entries + map t | t in TopLevelNames(names) :: Unpacked
  }

  /** The folder an archive of the usual shape (first entry `root/`) unpacks
      is present afterwards, under the name `first_entry[0:-1]`. */
  lemma UnpackedRoot(entries: Listing, names: seq<string>, root: string)
    requires |names| > 0 && names[0] == root + "/" && '/' !in root
    ensures DropLast(names[0]) == root
    ensures root in Unpack(entries, names)
  {
    SplitFirstField(root, "/", "/");
    assert TopLevelName(names[0]) == root;
  }

  /** The working directory as the process sees it. */
  class FileSystem {
    var entries: Listing

    constructor (initial: Listing)
      ensures entries == initial
    {
      entries := initial;
    }

    method Rename(src: string, dst: string) returns (error: Renaming)
      modifies this
      ensures error == Renamed(old(entries), src, dst)
      ensures entries == if error.Moved? then error.after else old(entries)
    {
      error := Renamed(entries, src, dst);
      if error.Moved? {
        entries := error.after;
      }
    }

    method ExtractAll(names: seq<string>)
      modifies this
      ensures entries == Unpack(old(entries), names)
    {
      entries := Unpack(entries, names);
    }

    /** `open(name, 'wb')`: creates the file, or empties it. */
    method Create(name: string)
      modifies this
      ensures entries == old(entries)[name := Written([])]
    {
      entries := entries[name := Written([])];
    }

    /** `f.write(bytes)` on a file opened by `Create`. */
    method Append(name: string, bytes: seq<bv8>)
      requires name in entries && entries[name].Written?
      modifies this
      ensures entries == old(entries)[name := Written(old(entries[name].bytes) + bytes)]
    {
      entries := entries[name := Written(entries[name].bytes + bytes)];
    }
  }
}
