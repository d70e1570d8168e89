/** `scanner.py`: the record of one file inside a zip archive, its content key
    `"{size}_{crc:08x}"`, its metadata date, and the recursive scan that lists
    the non-directory entries of every readable archive under a root. */
module Scanner {
  import opened Base
  import opened Text
  import opened Paths

  /** A file inside an archive. `dateTime` is the zip metadata tuple, with
      `None` standing for an empty tuple. */
  datatype ZipFileInfo = ZipFileInfo(
    zipPath: string,
    filePath: string,
    fileSize: nat,
    fileCrc: nat,
    dateTime: Option<DateTime>)

  /** `get_content_key`: the size in decimal, '_', the CRC as zero-padded lowercase hex. */
  function ContentKey(f: ZipFileInfo): string
  {
    CrcKey(f.fileSize, f.fileCrc)
  }

  /** The `"{size}_{crc:08x}"` spelling shared by the zip side and the directory side. */
  function CrcKey(size: nat, crc: nat): (k: string)
    ensures |k| >= 1 && IsDigit(k[0])
  {
    Dec(size) + "_" + HexPad(crc, 8)
  }

  /** A CRC below 2^32 is spelled with exactly eight lowercase hex digits after the size. */
  lemma CrcKeyShape(size: nat, crc: nat)
    requires crc < 0x1_0000_0000
    ensures var k := CrcKey(size, crc); var d := Dec(size);
      && |k| == |d| + 9 && k[..|d|] == d && k[|d|] == '_'
      && forall i :: |d| < i < |k| ==> IsHexDigit(k[i])
  {
    Hex8Length(crc);
  }

  /** The key determines the size and the CRC. */
  lemma CrcKeyInjective(s1: nat, c1: nat, s2: nat, c2: nat)
    requires CrcKey(s1, c1) == CrcKey(s2, c2)
    ensures s1 == s2 && c1 == c2
  {
    SplitAt('_', Dec(s1), HexPad(c1, 8), Dec(s2), HexPad(c2, 8));
    DecInjective(s1, s2);
    HexPadInjective(c1, c2, 8);
  }

  /** `get_zip_date`: the metadata date, unless the tuple is empty or its year is
      1980 or earlier (the DOS epoch, used as a "no date" placeholder). */
  function ZipDate(f: ZipFileInfo): (d: Option<DateTime>)
    ensures d.Some? <==> f.dateTime.Some? && f.dateTime.value.year > 1980
    ensures d.Some? ==> d == f.dateTime
  {
    if f.dateTime.Some? && f.dateTime.value.year > 1980 then f.dateTime else None
  }

  /** `get_display_path`: the archive's file name, ':', the path inside the archive. */
  function DisplayPath(f: ZipFileInfo): string
  {
    Name(Parse(f.zipPath)) + ":" + f.filePath
  }

  /** When the archive name holds no ':', the display path splits back into
      the archive name and the in-archive path. */
  lemma DisplayPathSplits(f: ZipFileInfo, g: ZipFileInfo)
    requires ':' !in Name(Parse(f.zipPath)) && ':' !in Name(Parse(g.zipPath))
    requires DisplayPath(f) == DisplayPath(g)
    ensures Name(Parse(f.zipPath)) == Name(Parse(g.zipPath)) && f.filePath == g.filePath
  {
    SplitAt(':', Name(Parse(f.zipPath)), f.filePath, Name(Parse(g.zipPath)), g.filePath);
  }

  // ------------------------------------------------------------ scan_directory

  /** An entry of an archive's central directory. */
  datatype ZipEntry = ZipEntry(filename: string, fileSize: nat, crc: nat, dateTime: Option<DateTime>)

  /** A `.zip` file found under the root: its entries, or the error opening it raised. */
  datatype Archive = Archive(path: string, contents: Result<seq<ZipEntry>>)

  /** What the root path is on disk; `archives` lists the `.zip` files found recursively, in glob order. */
  datatype Root = Missing | NotADirectory | Directory(archives: seq<Archive>)

  /** `ZipInfo.is_dir()`: the entry name ends with '/'. */
  predicate IsDirEntry(e: ZipEntry)
  {
    EndsWith(e.filename, "/")
  }

  function Record(zipPath: string, e: ZipEntry): ZipFileInfo
  {
    ZipFileInfo(zipPath, e.filename, e.fileSize, e.crc, e.dateTime)
  }

  /** The records of the non-directory entries of one archive, in entry order. */
  function EntryRecords(zipPath: string, es: seq<ZipEntry>): seq<ZipFileInfo>
  {
    if es == [] then []
    else
      var last := es[|es| - 1];
      EntryRecords(zipPath, es[..|es| - 1]) + (if IsDirEntry(last) then [] else [Record(zipPath, last)])
  }

  /** An archive that fails to open contributes nothing. */
  function ArchiveRecords(a: Archive): seq<ZipFileInfo>
  {
    if a.contents.Raised? then [] else EntryRecords(a.path, a.contents.value)
  }

  function AllRecords(archives: seq<Archive>): seq<ZipFileInfo>
  {
    if archives == [] then []
    else AllRecords(archives[..|archives| - 1]) + ArchiveRecords(archives[|archives| - 1])
  }

  /** `scan_directory(root_path)`. */
  method ScanDirectory(root: Root) returns (files: seq<ZipFileInfo>)
    ensures files == if root.Directory? then AllRecords(root.archives) else []
  {
    if !root.Directory? {
      return [];
    }
    var archives := root.archives;
    files := [];
    var i := 0;
    while i < |archives|
      invariant 0 <= i <= |archives|
      invariant files == AllRecords(archives[..i])
    {
      var a := archives[i];
      assert archives[..i + 1][..i] == archives[..i];
      if a.contents.Ok? {
        var entries := a.contents.value;
        var before := files;
        var j := 0;
        while j < |entries|
          invariant 0 <= j <= |entries|
          invariant files == before + EntryRecords(a.path, entries[..j])
        {
          assert entries[..j + 1][..j] == entries[..j];
          if !IsDirEntry(entries[j]) {
            files := files + [Record(a.path, entries[j])];
          }
          j := j + 1;
        }
        assert entries[..j] == entries;
      }
      i := i + 1;
    }
    assert archives[..i] == archives;
  }

  lemma {:induction false} EntryRecordsMember(zipPath: string, es: seq<ZipEntry>, f: ZipFileInfo)
    ensures f in EntryRecords(zipPath, es) <==> exists e :: e in es && !IsDirEntry(e) && f == Record(zipPath, e)
  {
    if es != [] {
      EntryRecordsMember(zipPath, es[..|es| - 1], f);
      assert es == es[..|es| - 1] + [es[|es| - 1]];
    }
  }

  /** One record per non-directory entry of every archive that opens, and
      nothing else. */
  lemma {:induction false} AllRecordsMember(archives: seq<Archive>, f: ZipFileInfo)
    ensures f in AllRecords(archives) <==>
      exists a, e :: a in archives && a.contents.Ok? && e in a.contents.value
        && !IsDirEntry(e) && f == Record(a.path, e)
  {
    if archives != [] {
      var last := archives[|archives| - 1];
      AllRecordsMember(archives[..|archives| - 1], f);
      if last.contents.Ok? {
        EntryRecordsMember(last.path, last.contents.value, f);
      }
      assert archives == archives[..|archives| - 1] + [last];
    }
  }

  /** No record ever names a directory entry. */
  lemma {:induction false} AllRecordsNoDirectories(archives: seq<Archive>)
    ensures forall f :: f in AllRecords(archives) ==> !EndsWith(f.filePath, "/")
  {
    forall f | f in AllRecords(archives) ensures !EndsWith(f.filePath, "/") {
      AllRecordsMember(archives, f);
    }
  }
}
