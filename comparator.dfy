/** `comparator.py`: comparing one zip archive against an output directory.
    The directory is scanned and grouped by content key; each non-directory
    zip entry gets a key under the same strategy and is paired with the
    first directory file with that key, or reported as unique to the zip;
    directory files whose key no zip entry has are unique to the directory. */
module Comparator {
  import opened Base
  import opened Text
  import opened Groups
  import Scanner
  import opened DirectoryScanner

  /** A zip member with its decompressed bytes (`zip_ref.open(zip_info).read()`). */
  datatype ZipMember = ZipMember(entry: Scanner.ZipEntry, content: seq<byte>)

  datatype ComparisonResult = ComparisonResult(
    zipPath: string,
    directory: string,
    duplicates: seq<(Scanner.ZipFileInfo, DirectoryFileInfo)>,
    uniqueInZip: seq<Scanner.ZipFileInfo>,
    uniqueInDir: seq<DirectoryFileInfo>,
    totalZipFiles: nat,
    totalDirFiles: nat)

  function PairSizes(ps: seq<(Scanner.ZipFileInfo, DirectoryFileInfo)>): (s: seq<nat>)
    ensures |s| == |ps| && forall i :: 0 <= i < |ps| ==> s[i] == ps[i].0.fileSize
  {
    if ps == [] then [] else PairSizes(ps[..|ps| - 1]) + [ps[|ps| - 1].0.fileSize]
  }

  function InfoSizes(fs: seq<Scanner.ZipFileInfo>): (s: seq<nat>)
    ensures |s| == |fs| && forall i :: 0 <= i < |fs| ==> s[i] == fs[i].fileSize
  {
    if fs == [] then [] else InfoSizes(fs[..|fs| - 1]) + [fs[|fs| - 1].fileSize]
  }

  /** The `duplicate_size` property. */
  function DuplicateSize(r: ComparisonResult): nat
  {
    Sum(PairSizes(r.duplicates))
  }

  /** The `unique_size` property. */
  function UniqueSize(r: ComparisonResult): nat
  {
    Sum(InfoSizes(r.uniqueInZip))
  }

  // ------------------------------------------------------------- zip keys

  /** `content[a:b]` for non-negative bounds. */
  function Slice(content: seq<byte>, a: nat, b: nat): (r: seq<byte>)
    ensures a <= b <= |content| ==> r == content[a..b]
  {
    if a >= |content| || a >= b then []
    else if b <= |content| then content[a..b]
    else content[a..]
  }

  /** `content[-n:]` for a positive `n`: the last `n` bytes, or all of them. */
  function LastBytes(content: seq<byte>, n: nat): (r: seq<byte>)
    ensures |r| == if n <= |content| then n else |content|
  {
    if n <= |content| then content[|content| - n..] else content
  }

  /** The bytes `_compute_partial_hash_from_zip` hashes: the windows are
      chosen by the size recorded in the zip, cut from the decompressed bytes. */
  function ZipPartialSample(content: seq<byte>, size: nat): seq<byte>
  {
    Slice(content, 0, SampleSize)
    + (if size > SampleSize * 2 then Slice(content, size / 2, size / 2 + SampleSize) else [])
    + (if size > SampleSize then LastBytes(content, SampleSize) else [])
  }

  /** `_get_zip_content_key`. */
  function ZipContentKey(kind: HashKind, m: ZipMember, sha: seq<byte> -> HexDigest): string
  {
    match kind
    case Crc => Scanner.CrcKey(m.entry.fileSize, m.entry.crc)
    case Partial => PartialKey(m.entry.fileSize, sha(ZipPartialSample(m.content, m.entry.fileSize)))
    case Full => FullKey(|m.content|, sha(m.content))
  }

  /** When the decompressed length is the recorded size, the zip side cuts
      exactly the windows the directory side reads. */
  lemma ZipWindowsMatchDirectory(content: seq<byte>)
    ensures ZipPartialSample(content, |content|) == PartialSample(content, |content|)
  {
    PartialSampleWindows(content);
    var s := |content|;
    if s > 2 * SampleSize {
      assert s / 2 + SampleSize <= s;
    }
  }

  /** Under every strategy a zip member gets the key the same bytes would get
      as a directory file, provided the decompressed length is the recorded
      size and, for the CRC strategy, the recorded CRC is the bytes' CRC. */
  lemma ZipKeyMatchesDirectoryKey(kind: HashKind, m: ZipMember,
                                  sha: seq<byte> -> HexDigest, crc: seq<byte> -> nat)
    requires |m.content| == m.entry.fileSize
    requires kind == Crc ==> crc(m.content) == m.entry.crc < 0x1_0000_0000
    ensures ZipContentKey(kind, m, sha) == FileHash(kind, m.content, m.entry.fileSize, sha, crc)
  {
    match kind
    case Crc => CrcKeysAgree(m.entry.fileSize, m.entry.crc);
    case Partial => ZipWindowsMatchDirectory(m.content);
    case Full =>
  }

  /** The CRC-strategy key is the scanner's `get_content_key` of the entry. */
  lemma ZipCrcKeyIsScannerKey(zipPath: string, m: ZipMember, sha: seq<byte> -> HexDigest)
    ensures ZipContentKey(Crc, m, sha) == Scanner.ContentKey(Scanner.Record(zipPath, m.entry))
  {
  }

  // ------------------------------------------------------------- compare

  /** The non-directory members with their records and keys (phase 2). */
  function Keyed(kind: HashKind, zipPath: string, members: seq<ZipMember>, sha: seq<byte> -> HexDigest)
    : (r: seq<(Scanner.ZipFileInfo, string)>)
    ensures |r| <= |members|
  {
    if members == [] then []
    else
      var m := members[|members| - 1];
      Keyed(kind, zipPath, members[..|members| - 1], sha)
      + (if Scanner.IsDirEntry(m.entry) then []
         else [(Scanner.Record(zipPath, m.entry), ZipContentKey(kind, m, sha))])
  }

  /** The first directory file, in scan order, whose key is `k`. */
  function FirstWithKey(files: seq<DirectoryFileInfo>, k: string): (r: Option<DirectoryFileInfo>)
    ensures r.None? <==> forall i :: 0 <= i < |files| ==> files[i].fileHash != k
    ensures r.Some? ==> r.value in files && r.value.fileHash == k
  {
    if files == [] then None
    else if files[0].fileHash == k then Some(files[0])
    else
      assert forall i :: 1 <= i < |files| ==> files[i] == files[1..][i - 1];
      FirstWithKey(files[1..], k)
  }

  /** The file found sits at the smallest index holding that key. */
  lemma {:induction false} FirstWithKeyIndex(files: seq<DirectoryFileInfo>, k: string) returns (i: nat)
    requires FirstWithKey(files, k).Some?
    ensures i < |files| && files[i] == FirstWithKey(files, k).value && files[i].fileHash == k
    ensures forall j :: 0 <= j < i ==> files[j].fileHash != k
  {
    if files[0].fileHash == k {
      i := 0;
    } else {
      var i' := FirstWithKeyIndex(files[1..], k);
      i := i' + 1;
      assert files[i] == files[1..][i'];
      assert forall j :: 1 <= j < i ==> files[j] == files[1..][j - 1];
    }
  }

  /** Phase 3: the zip entries paired with a directory file, in zip order. */
  function Paired(keyed: seq<(Scanner.ZipFileInfo, string)>, dirFiles: seq<DirectoryFileInfo>)
    : seq<(Scanner.ZipFileInfo, DirectoryFileInfo)>
  {
    if keyed == [] then []
    else
      var last := keyed[|keyed| - 1];
      var d := FirstWithKey(dirFiles, last.1);
      Paired(keyed[..|keyed| - 1], dirFiles) + (if d.Some? then [(last.0, d.value)] else [])
  }

  /** Phase 3: the zip entries no directory file matches, in zip order. */
  function Unpaired(keyed: seq<(Scanner.ZipFileInfo, string)>, dirFiles: seq<DirectoryFileInfo>)
    : seq<Scanner.ZipFileInfo>
  {
    if keyed == [] then []
    else
      var last := keyed[|keyed| - 1];
      Unpaired(keyed[..|keyed| - 1], dirFiles) + (if FirstWithKey(dirFiles, last.1).None? then [last.0] else [])
  }

  /** `{key for _, key in zip_files}`. */
  function KeySet(keyed: seq<(Scanner.ZipFileInfo, string)>): set<string>
  {
    set i | 0 <= i < |keyed| :: keyed[i].1
  }

  /** `[f for f in dir_files if f.get_content_key() not in zip_keys]`. */
  function DirOnly(dirFiles: seq<DirectoryFileInfo>, zipKeys: set<string>): (r: seq<DirectoryFileInfo>)
    ensures forall f :: f in r <==> f in dirFiles && f.fileHash !in zipKeys
    ensures |r| <= |dirFiles|
  {
    if dirFiles == [] then []
    else
      var f := dirFiles[|dirFiles| - 1];
      var r := DirOnly(dirFiles[..|dirFiles| - 1], zipKeys);
      assert forall g :: g in dirFiles <==> g in dirFiles[..|dirFiles| - 1] || g == f by {
        assert dirFiles == dirFiles[..|dirFiles| - 1] + [f];
      }
      r + (if f.fileHash in zipKeys then [] else [f])
  }

  /** The result `compare` builds from the scanned directory and the zip's members. */
  function Comparison(kind: HashKind, zipPath: string, directory: string,
                      dirFiles: seq<DirectoryFileInfo>, members: seq<ZipMember>,
                      sha: seq<byte> -> HexDigest): ComparisonResult
  {
    var keyed := Keyed(kind, zipPath, members, sha);
    ComparisonResult(zipPath, directory, Paired(keyed, dirFiles), Unpaired(keyed, dirFiles),
                     DirOnly(dirFiles, KeySet(keyed)), |keyed|, |dirFiles|)
  }

  /** A lookup in the grouped directory finds the group whose first member is
      the first file with that key. */
  lemma LookupIsFirst(dirFiles: seq<DirectoryFileInfo>, k: string)
    ensures match Get(GroupBy(dirFiles, ContentKey), k)
      case None => FirstWithKey(dirFiles, k).None?
      case Some(g) => g != [] && FirstWithKey(dirFiles, k) == Some(g[0])
  {
    var first := FirstWithKey(dirFiles, k);
    if first.None? {
      GroupByKeys(dirFiles, ContentKey);
      FirstKeysProps(MapKey(dirFiles, ContentKey));
      assert k !in MapKey(dirFiles, ContentKey);
    } else {
      var i := FirstWithKeyIndex(dirFiles, k);
      GetGroupBy(dirFiles, ContentKey, dirFiles[i]);
      SelectFirst(dirFiles, ContentKey, k, i);
    }
  }

  /** Phase 2: every non-directory member with its record and key, in zip order. */
  method KeyZipFiles(kind: HashKind, zipPath: string, members: seq<ZipMember>, sha: seq<byte> -> HexDigest)
    returns (zipFiles: seq<(Scanner.ZipFileInfo, string)>)
    ensures zipFiles == Keyed(kind, zipPath, members, sha)
  {
    zipFiles := [];
    var i := 0;
    while i < |members|
      invariant 0 <= i <= |members|
      invariant zipFiles == Keyed(kind, zipPath, members[..i], sha)
    {
      assert members[..i + 1][..i] == members[..i];
      var m := members[i];
      if !Scanner.IsDirEntry(m.entry) {
        zipFiles := zipFiles + [(Scanner.Record(zipPath, m.entry), ZipContentKey(kind, m, sha))];
      }
      i := i + 1;
    }
    assert members[..i] == members;
  }

  /** Phase 3: each zip file is looked up in the directory's hash map. */
  method Classify(zipFiles: seq<(Scanner.ZipFileInfo, string)>, dirFiles: seq<DirectoryFileInfo>,
                  dirHashMap: Table<string, DirectoryFileInfo>)
    returns (duplicates: seq<(Scanner.ZipFileInfo, DirectoryFileInfo)>, uniqueInZip: seq<Scanner.ZipFileInfo>)
    requires dirHashMap == GroupBy(dirFiles, ContentKey)
    ensures duplicates == Paired(zipFiles, dirFiles)
    ensures uniqueInZip == Unpaired(zipFiles, dirFiles)
  {
    duplicates := [];
    uniqueInZip := [];
    var j := 0;
    while j < |zipFiles|
      invariant 0 <= j <= |zipFiles|
      invariant duplicates == Paired(zipFiles[..j], dirFiles)
      invariant uniqueInZip == Unpaired(zipFiles[..j], dirFiles)
    {
      assert zipFiles[..j + 1][..j] == zipFiles[..j];
      var zipFile := zipFiles[j].0;
      var contentKey := zipFiles[j].1;
      LookupIsFirst(dirFiles, contentKey);
      var found := Get(dirHashMap, contentKey);
      if found.Some? {
        duplicates := duplicates + [(zipFile, found.value[0])];
      } else {
        uniqueInZip := uniqueInZip + [zipFile];
      }
      j := j + 1;
    }
    assert zipFiles[..j] == zipFiles;
  }

  /** The list comprehension for `unique_in_dir`. */
  method FilterDirOnly(dirFiles: seq<DirectoryFileInfo>, zipKeys: set<string>)
    returns (uniqueInDir: seq<DirectoryFileInfo>)
    ensures uniqueInDir == DirOnly(dirFiles, zipKeys)
  {
    uniqueInDir := [];
    var n := 0;
    while n < |dirFiles|
      invariant 0 <= n <= |dirFiles|
      invariant uniqueInDir == DirOnly(dirFiles[..n], zipKeys)
    {
      assert dirFiles[..n + 1][..n] == dirFiles[..n];
      if dirFiles[n].fileHash !in zipKeys {
        uniqueInDir := uniqueInDir + [dirFiles[n]];
      }
      n := n + 1;
    }
    assert dirFiles[..n] == dirFiles;
  }

  /** `ZipDirectoryComparator.compare`. The zip is opened after the directory
      scan; an archive that fails to open makes the call raise. */
  method Compare(strategy: string, zipPath: string, directory: string, root: DirectoryScanner.Root,
                 zip: Result<seq<ZipMember>>, sha: seq<byte> -> HexDigest, crc: seq<byte> -> nat)
    returns (r: Result<ComparisonResult>)
    ensures zip.Raised? ==> r == Raised(zip.cause)
    ensures zip.Ok? ==> r.Ok? && r.value == Comparison(KindOf(strategy), zipPath, directory,
      (if root.Directory? then Scanned(strategy, root.walk, sha, crc) else []), zip.value, sha)
  {
    var dirFiles := ScanDirectory(strategy, root, sha, crc);
    var dirHashMap := BuildHashMap(dirFiles);
    if zip.Raised? {
      return Raised(zip.cause);
    }
    var zipFiles := KeyZipFiles(KindOf(strategy), zipPath, zip.value, sha);
    var duplicates, uniqueInZip := Classify(zipFiles, dirFiles, dirHashMap);
    var uniqueInDir := FilterDirOnly(dirFiles, KeySet(zipFiles));
    r := Ok(ComparisonResult(zipPath, directory, duplicates, uniqueInZip, uniqueInDir,
                             |zipFiles|, |dirFiles|));
  }

  // ------------------------------------------------------------ properties

  /** The zip records of the pairs. */
  function PairedZips(ps: seq<(Scanner.ZipFileInfo, DirectoryFileInfo)>): seq<Scanner.ZipFileInfo>
  {
    if ps == [] then [] else PairedZips(ps[..|ps| - 1]) + [ps[|ps| - 1].0]
  }

  function Records(keyed: seq<(Scanner.ZipFileInfo, string)>): seq<Scanner.ZipFileInfo>
  {
    if keyed == [] then [] else Records(keyed[..|keyed| - 1]) + [keyed[|keyed| - 1].0]
  }

  /** One step of phase 3: the last zip file goes to exactly one of the lists. */
  lemma PairedStep(keyed: seq<(Scanner.ZipFileInfo, string)>, dirFiles: seq<DirectoryFileInfo>)
    requires keyed != []
    ensures var init := keyed[..|keyed| - 1]; var z := keyed[|keyed| - 1].0;
      var d := FirstWithKey(dirFiles, keyed[|keyed| - 1].1);
      && (d.Some? ==> (Paired(keyed, dirFiles) == Paired(init, dirFiles) + [(z, d.value)]
                       && Unpaired(keyed, dirFiles) == Unpaired(init, dirFiles)))
      && (d.None? ==> (Paired(keyed, dirFiles) == Paired(init, dirFiles)
                       && Unpaired(keyed, dirFiles) == Unpaired(init, dirFiles) + [z]))
      && Records(keyed) == Records(init) + [z]
  {
  }

  /** Appending one element to one side of a split keeps it a split. */
  lemma SplitStep<T>(p: seq<T>, u: seq<T>, all: seq<T>, z: T, left: bool)
    requires multiset(p) + multiset(u) == multiset(all)
    ensures multiset(if left then p + [z] else p) + multiset(if left then u else u + [z]) == multiset(all + [z])
  {
    assert multiset(all + [z]) == multiset(all) + multiset{z};
    if left {
      assert multiset(p + [z]) == multiset(p) + multiset{z};
    } else {
      assert multiset(u + [z]) == multiset(u) + multiset{z};
    }
  }

  /** The duplicates and the files unique to the zip together are the zip's
      files: each is in exactly one of the two lists. */
  lemma {:induction false} PairedUnpairedSplit(keyed: seq<(Scanner.ZipFileInfo, string)>,
                                               dirFiles: seq<DirectoryFileInfo>)
    ensures multiset(PairedZips(Paired(keyed, dirFiles))) + multiset(Unpaired(keyed, dirFiles))
         == multiset(Records(keyed))
  {
    if keyed != [] {
      var init := keyed[..|keyed| - 1];
      var z := keyed[|keyed| - 1].0;
      var found := FirstWithKey(dirFiles, keyed[|keyed| - 1].1).Some?;
      PairedUnpairedSplit(init, dirFiles);
      PairedStep(keyed, dirFiles);
      var p0 := PairedZips(Paired(init, dirFiles));
      if found {
        assert PairedZips(Paired(keyed, dirFiles)) == p0 + [z];
      }
      SplitStep(p0, Unpaired(init, dirFiles), Records(init), z, found);
    }
  }

  /** `total_zip_files = len(duplicates) + len(unique_in_zip)`. */
  lemma {:induction false} PairedUnpairedCount(keyed: seq<(Scanner.ZipFileInfo, string)>,
                                               dirFiles: seq<DirectoryFileInfo>)
    ensures |Paired(keyed, dirFiles)| + |Unpaired(keyed, dirFiles)| == |keyed|
  {
    if keyed != [] {
      PairedUnpairedCount(keyed[..|keyed| - 1], dirFiles);
      PairedStep(keyed, dirFiles);
    }
  }

  /** A zip entry is a duplicate exactly when some directory file has its key,
      and it is then paired with the first such file. */
  lemma {:induction false} PairedMember(keyed: seq<(Scanner.ZipFileInfo, string)>,
                                        dirFiles: seq<DirectoryFileInfo>, i: nat)
    requires i < |keyed|
    ensures FirstWithKey(dirFiles, keyed[i].1).Some? ==>
      (keyed[i].0, FirstWithKey(dirFiles, keyed[i].1).value) in Paired(keyed, dirFiles)
    ensures FirstWithKey(dirFiles, keyed[i].1).None? ==> keyed[i].0 in Unpaired(keyed, dirFiles)
  {
    var init := keyed[..|keyed| - 1];
    if i < |init| {
      PairedMember(init, dirFiles, i);
      assert keyed[i] == init[i];
    }
  }

  /** Every pair holds a directory file with the zip entry's key, the first in
      scan order. */
  lemma {:induction false} PairedSound(keyed: seq<(Scanner.ZipFileInfo, string)>,
                                       dirFiles: seq<DirectoryFileInfo>, p: (Scanner.ZipFileInfo, DirectoryFileInfo))
    requires p in Paired(keyed, dirFiles)
    ensures exists i :: 0 <= i < |keyed| && keyed[i].0 == p.0 && FirstWithKey(dirFiles, keyed[i].1) == Some(p.1)
  {
    var init := keyed[..|keyed| - 1];
    if p in Paired(init, dirFiles) {
      PairedSound(init, dirFiles, p);
      var i :| 0 <= i < |init| && init[i].0 == p.0 && FirstWithKey(dirFiles, init[i].1) == Some(p.1);
      assert keyed[i] == init[i];
    }
  }

  /** `duplicate_size + unique_size` is the total size of the zip's files. */
  lemma {:induction false} SizesAddUp(keyed: seq<(Scanner.ZipFileInfo, string)>, dirFiles: seq<DirectoryFileInfo>)
    ensures Sum(PairSizes(Paired(keyed, dirFiles))) + Sum(InfoSizes(Unpaired(keyed, dirFiles)))
         == Sum(InfoSizes(Records(keyed)))
  {
    if keyed != [] {
      var init := keyed[..|keyed| - 1];
      var z := keyed[|keyed| - 1].0;
      SizesAddUp(init, dirFiles);
      PairedStep(keyed, dirFiles);
      var p0 := Paired(init, dirFiles);
      var u0 := Unpaired(init, dirFiles);
      assert InfoSizes(Records(keyed)) == InfoSizes(Records(init)) + [z.fileSize];
      SumAppend(InfoSizes(Records(init)), [z.fileSize]);
      if FirstWithKey(dirFiles, keyed[|keyed| - 1].1).Some? {
        var d := FirstWithKey(dirFiles, keyed[|keyed| - 1].1).value;
        assert PairSizes(p0 + [(z, d)]) == PairSizes(p0) + [z.fileSize];
        SumAppend(PairSizes(p0), [z.fileSize]);
      } else {
        assert InfoSizes(u0 + [z]) == InfoSizes(u0) + [z.fileSize];
        SumAppend(InfoSizes(u0), [z.fileSize]);
      }
    }
  }

  /** The totals of a comparison result: the zip side splits into duplicates
      and unique files whose counts and sizes add up to the zip's. */
  lemma ComparisonTotals(kind: HashKind, zipPath: string, directory: string,
                         dirFiles: seq<DirectoryFileInfo>, members: seq<ZipMember>,
                         sha: seq<byte> -> HexDigest)
    ensures var r := Comparison(kind, zipPath, directory, dirFiles, members, sha);
      && r.totalZipFiles == |r.duplicates| + |r.uniqueInZip|
      && r.totalDirFiles == |dirFiles|
      && DuplicateSize(r) + UniqueSize(r) == Sum(InfoSizes(Records(Keyed(kind, zipPath, members, sha))))
  {
    var keyed := Keyed(kind, zipPath, members, sha);
    PairedUnpairedCount(keyed, dirFiles);
    SizesAddUp(keyed, dirFiles);
  }
}
