/**
 * The string conventions of `download_file` and `extract_data`: the file
 * name taken from a Content-Disposition header, the `.zip` test, the folder
 * name taken from an archive's first entry, and the default folder name
 * derived from the downloaded file's path.
 */
module Naming {
  import opened Wrappers
  import opened Strings

  const FilenameMarker := "filename="
  const ZipSuffix := ".zip"
  const ProductPrefix := "ESET-KeyGen-"

  /** `header.split('filename=')[1]`: the text after the first marker, up to
      the next marker or the end, quotes and all. None when the header is
      absent (AttributeError) or has no marker (IndexError). */
  function FilenameFromDisposition(header: Option<string>): (r: Option<string>)
    ensures header.None? ==> r.None?
    ensures header.Some? ==> (r.None? <==> !IsSubstring(FilenameMarker, header.value))
    ensures r.Some? ==> !IsSubstring(FilenameMarker, r.value)
    ensures r.Some? ==>
              var rest := header.value[Find(header.value, FilenameMarker) + |FilenameMarker|..];
              r.value == if Find(rest, FilenameMarker) == -1 then rest else rest[..Find(rest, FilenameMarker)]
    ensures r.Some? ==>
              var rest := header.value[Find(header.value, FilenameMarker) + |FilenameMarker|..];
              StartsWith(rest, r.value)
              && (|rest| == |r.value| || StartsWith(rest[|r.value|..], FilenameMarker))
  {
    if header.None? then None
    else
      var parts := Split(header.value, FilenameMarker);
      if |parts| < 2 then None
      else
        SplitSecondPiece(header.value, FilenameMarker);
        Some(parts[1])
  }

  /** The split is naive: the quotes around a quoted file name stay in it. */
  lemma QuotedFilenameKeepsQuotes()
    ensures FilenameFromDisposition(Some("attachment; filename=\"a.zip\"")) == Some("\"a.zip\"")
  {
    var x := "attachment; ";
    var y := "\"a.zip\"";
    assert FilenameMarker[8] == '=';
    NoOccurrenceWithoutChar(x + FilenameMarker[..|FilenameMarker| - 1], FilenameMarker, 8);
    SplitAfterFirst(x, FilenameMarker, y);
    NoOccurrenceWithoutChar(y, FilenameMarker, 8);
    assert x + FilenameMarker + y == "attachment; filename=\"a.zip\"";
  }

  /** `data_path.endswith('.zip')`: the source-archive branch. */
  predicate IsArchivePath(path: string) {
    EndsWith(path, ZipSuffix)
  }

  /** A path is taken for a source archive exactly when it is some name
      followed by `.zip`; the test is case-sensitive. */
  lemma ArchivePathIsZipName(path: string)
    ensures IsArchivePath(path) <==> exists stem :: path == stem + ZipSuffix
    ensures !IsArchivePath("release.ZIP")
  {
    if IsArchivePath(path) {
      var stem := path[..|path| - |ZipSuffix|];
      assert path == stem + ZipSuffix;
    }
    if exists stem :: path == stem + ZipSuffix {
      var stem :| path == stem + ZipSuffix;
      assert path[|path| - |ZipSuffix|..] == ZipSuffix;
    }
    assert "release.ZIP"[8] == 'Z';
  }

  /** `first_entry[0:-1]`: an archive whose first entry is `root/` yields `root`. */
  function ExtractedFolderName(firstEntry: string): (r: string)
    ensures EndsWith(firstEntry, "/") ==> r + "/" == firstEntry
  {
    DropLast(firstEntry)
  }

  /** `'ESET-KeyGen-' + data_path.split('-')[3]`; None when the path has
      fewer than three hyphens (IndexError). */
  function DefaultFolderName(dataPath: string): (r: Option<string>)
    ensures r.Some? ==> StartsWith(r.value, ProductPrefix)
    ensures r.Some? <==> |Split(dataPath, "-")| >= 4
  {
    var parts := Split(dataPath, "-");
    if |parts| < 4 then None else Some(ProductPrefix + parts[3])
  }

  /** Three fields free of the one-character separator in front of `rest`
      are the first three pieces. */
  lemma {:induction false} ThreeFields(a: string, b: string, c: string, sep: string, rest: string)
    requires |sep| == 1 && sep[0] !in a && sep[0] !in b && sep[0] !in c
    ensures Split(a + sep + (b + sep + (c + sep + rest)), sep) == [a, b, c] + Split(rest, sep)
  {
    var r1 := b + sep + (c + sep + rest);
    var t := Split(rest, sep);
    calc {
      Split(a + sep + r1, sep);
      { SplitAfterField(a, sep, r1); }
      [a] + Split(r1, sep);
      { SplitTwoFields(b, c, sep, rest); }
      [a] + ([b, c] + t);
      [a, b, c] + t;
    }
  }

  /** For a file named `owner-repo-part-version` followed by nothing or by
      another hyphenated part, the default name is the product name followed
      by the fourth hyphen-separated field. */
  lemma DefaultFolderNameOfArchive(a: string, b: string, c: string, v: string, tail: string)
    requires '-' !in a && '-' !in b && '-' !in c && '-' !in v
    requires tail == "" || tail[0] == '-'
    ensures DefaultFolderName(a + "-" + b + "-" + c + "-" + v + tail) == Some(ProductPrefix + v)
  {
    var rest := v + tail;
    var p := a + "-" + (b + "-" + (c + "-" + rest));
    assert a + "-" + b + "-" + c + "-" + v + tail == p;
    ThreeFields(a, b, c, "-", rest);
    SplitFirstField(v, "-", tail);
    assert Split(p, "-")[3] == Split(rest, "-")[0];
  }

  /** The source archive `rzc0d3r-ESET-KeyGen-v1.5.2.7-0-g344f0d9.zip` gives
      the folder `ESET-KeyGen-v1.5.2.7`. */
  lemma DefaultFolderNameExample(path: string)
    requires path == "rzc0d3r-ESET-KeyGen-v1.5.2.7-0-g344f0d9.zip"
    ensures DefaultFolderName(path) == Some(ProductPrefix + "v1.5.2.7")
  {
    var a, b, c, v, tail := "rzc0d3r", "ESET", "KeyGen", "v1.5.2.7", "-0-g344f0d9.zip";
    assert '-' !in a && '-' !in b;
    assert '-' !in c && '-' !in v;
    DefaultFolderNameOfArchive(a, b, c, v, tail);
    ExamplePathFields(path);
  }

  /** The example path, cut at its first four hyphens. */
  lemma ExamplePathFields(path: string)
    requires path == "rzc0d3r-ESET-KeyGen-v1.5.2.7-0-g344f0d9.zip"
    ensures path == "rzc0d3r" + "-" + "ESET" + "-" + "KeyGen" + "-" + "v1.5.2.7" + "-0-g344f0d9.zip"
  {
    calc {
      "rzc0d3r" + "-" + "ESET" + "-" + "KeyGen" + "-" + "v1.5.2.7" + "-0-g344f0d9.zip";
      "rzc0d3r-ESET" + "-" + "KeyGen" + "-" + "v1.5.2.7" + "-0-g344f0d9.zip";
      "rzc0d3r-ESET-KeyGen" + "-" + "v1.5.2.7" + "-0-g344f0d9.zip";
      "rzc0d3r-ESET-KeyGen-v1.5.2.7" + "-0-g344f0d9.zip";
      path;
    }
  }
}
