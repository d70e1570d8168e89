/** `html_exporter.py`: the numbers behind the HTML report. A file's type
    comes from its extension; the first member of each content group is the
    original and every later member a duplicate of it; each archive gets
    counts and sizes of its entries. The markup, charts, modification times
    and the archive content signature are not part of this model. */
module HtmlExporter {
  import opened Base
  import opened Text
  import opened Paths
  import opened Groups
  import opened Scanner

  // --------------------------------------------------------------- file types

  const ImageExts: set<string> := {".jpg", ".jpeg", ".png", ".gif", ".bmp", ".webp", ".heic", ".raw", ".tiff", ".svg"}
  const VideoExts: set<string> := {".mp4", ".mov", ".avi", ".mkv", ".wmv", ".flv", ".webm", ".m4v", ".3gp"}
  const AudioExts: set<string> := {".mp3", ".wav", ".flac", ".aac", ".ogg", ".wma", ".m4a"}
  const DocExts: set<string> := {".pdf", ".doc", ".docx", ".xls", ".xlsx", ".ppt", ".pptx", ".txt", ".rtf", ".odt"}
  const DataExts: set<string> := {".json", ".xml", ".csv", ".html", ".htm"}

  function Extension(filePath: string): string
  {
    Lower(Suffix(Parse(filePath)))
  }

  /** The type an extension stands for: the first set that holds it. */
  function TypeOf(ext: string): (t: string)
    ensures t in {"image", "video", "audio", "document", "data", "other"}
  {
    if ext in ImageExts then "image"
    else if ext in VideoExts then "video"
    else if ext in AudioExts then "audio"
    else if ext in DocExts then "document"
    else if ext in DataExts then "data"
    else "other"
  }

  /** `get_file_type`: the type of the lower-cased suffix. */
  function GetFileType(filePath: string): string
  {
    TypeOf(Extension(filePath))
  }

  /** The five extension sets share no member. */
  lemma ImageExtsDisjoint()
    ensures ImageExts !! VideoExts && ImageExts !! AudioExts
  {
  }

  lemma ImageExtsDisjointMore()
    ensures ImageExts !! DocExts && ImageExts !! DataExts
  {
  }

  lemma VideoExtsDisjoint()
    ensures VideoExts !! AudioExts && VideoExts !! DocExts && VideoExts !! DataExts
  {
  }

  lemma OtherExtsDisjoint()
    ensures AudioExts !! DocExts && AudioExts !! DataExts && DocExts !! DataExts
  {
  }

  /** Since the sets are disjoint, the order of the tests does not matter:
      each type is chosen exactly when the extension is in its set. */
  lemma TypeOfSpec(ext: string)
    ensures (TypeOf(ext) == "image" <==> ext in ImageExts)
    ensures (TypeOf(ext) == "video" <==> ext in VideoExts)
    ensures (TypeOf(ext) == "audio" <==> ext in AudioExts)
    ensures (TypeOf(ext) == "document" <==> ext in DocExts)
    ensures (TypeOf(ext) == "data" <==> ext in DataExts)
    ensures (TypeOf(ext) == "other" <==> ext !in ImageExts + VideoExts + AudioExts + DocExts + DataExts)
  {
    ImageExtsDisjoint();
    ImageExtsDisjointMore();
    VideoExtsDisjoint();
    OtherExtsDisjoint();
  }

  /** ".tif" is in no set (only ".tiff" is an image), so a ".tif" file counts
      as "other". */
  lemma TifIsOther()
    ensures TypeOf(".tif") == "other" && TypeOf(".tiff") == "image"
  {
  }

  // ------------------------------------------------------- basic statistics

  function SizeOf(f: ZipFileInfo): nat
  {
    f.fileSize
  }

  /** `all_files`: every group's members, extended group by group. */
  method AllFiles(hashMap: Table<string, ZipFileInfo>) returns (allFiles: seq<ZipFileInfo>)
    ensures allFiles == Flatten(hashMap)
  {
    allFiles := [];
    var k := 0;
    while k < |hashMap|
      invariant 0 <= k <= |hashMap|
      invariant allFiles == Flatten(hashMap[..k])
    {
      FlattenSnoc(hashMap[..k + 1]);
      assert hashMap[..k + 1][..k] == hashMap[..k];
      allFiles := allFiles + hashMap[k].1;
      k := k + 1;
    }
    assert hashMap[..k] == hashMap;
  }

  /** The first member of every non-empty group. */
  function Firsts(hashMap: Table<string, ZipFileInfo>): (r: seq<ZipFileInfo>)
    ensures |r| <= |hashMap|
  {
    if hashMap == [] then []
    else
      var files := hashMap[|hashMap| - 1].1;
      Firsts(hashMap[..|hashMap| - 1]) + (if files != [] then [files[0]] else [])
  }

  /** Every later member of every group (`files[1:]`). */
  function Rest(hashMap: Table<string, ZipFileInfo>): seq<ZipFileInfo>
  {
    if hashMap == [] then []
    else
      var files := hashMap[|hashMap| - 1].1;
      Rest(hashMap[..|hashMap| - 1]) + (if files != [] then files[1..] else [])
  }

  /** Every file is either its group's first member or a later one. */
  lemma {:induction false} FirstsAndRest(hashMap: Table<string, ZipFileInfo>)
    ensures multiset(Firsts(hashMap)) + multiset(Rest(hashMap)) == multiset(Flatten(hashMap))
  {
    if hashMap != [] {
      var init := hashMap[..|hashMap| - 1];
      var last := hashMap[|hashMap| - 1];
      FirstsAndRest(init);
      FlattenSnoc(hashMap);
      if last.1 != [] {
        assert last.1 == [last.1[0]] + last.1[1..];
        assert Firsts(hashMap) == Firsts(init) + [last.1[0]];
        assert Rest(hashMap) == Rest(init) + last.1[1..];
      } else {
        assert Firsts(hashMap) == Firsts(init) && Rest(hashMap) == Rest(init);
      }
    }
  }

  /** Every group of the hash map has a member, as `build_hash_map` builds it. */
  predicate NonEmptyGroups(hashMap: Table<string, ZipFileInfo>)
  {
    forall i :: 0 <= i < |hashMap| ==> hashMap[i].1 != []
  }

  lemma {:induction false} FirstsLength(hashMap: Table<string, ZipFileInfo>)
    requires NonEmptyGroups(hashMap)
    ensures |Firsts(hashMap)| == |hashMap|
  {
    if hashMap != [] {
      FirstsLength(hashMap[..|hashMap| - 1]);
    }
  }

  /** The figures at the top of the report. */
  datatype Basic = Basic(totalFiles: nat, uniqueFiles: nat, duplicateCount: int, totalSize: nat, duplicateSize: nat)

  function BasicStatistics(hashMap: Table<string, ZipFileInfo>): Basic
  {
    var allFiles := Flatten(hashMap);
    Basic(|allFiles|, |hashMap|, |allFiles| - |hashMap|, SumBy(allFiles, SizeOf), SumBy(Rest(hashMap), SizeOf))
  }

  /** `duplicate_count` is the number of later members, and the total size is
      the originals' size plus `duplicate_size`. */
  lemma BasicStatisticsSpec(hashMap: Table<string, ZipFileInfo>)
    requires NonEmptyGroups(hashMap)
    ensures var b := BasicStatistics(hashMap);
      && b.duplicateCount == |Rest(hashMap)|
      && b.totalSize == SumBy(Firsts(hashMap), SizeOf) + b.duplicateSize
  {
    FirstsAndRest(hashMap);
    FirstsLength(hashMap);
    assert |multiset(Flatten(hashMap))| == |Firsts(hashMap)| + |Rest(hashMap)|;
    SumByAppend(Firsts(hashMap), Rest(hashMap), SizeOf);
    SumByPermutation(Firsts(hashMap) + Rest(hashMap), Flatten(hashMap), SizeOf);
  }

  // ---------------------------------------------- originals and duplicates

  /** The loop that fills `original_files` and `duplicate_files_set`. */
  method ClassifyFiles(hashMap: Table<string, ZipFileInfo>)
    returns (originals: set<ZipFileInfo>, duplicates: set<ZipFileInfo>)
    ensures originals == set f | f in Firsts(hashMap) && duplicates == set f | f in Rest(hashMap)
  {
    originals, duplicates := {}, {};
    var k := 0;
    while k < |hashMap|
      invariant 0 <= k <= |hashMap|
      invariant originals == set f | f in Firsts(hashMap[..k])
      invariant duplicates == set f | f in Rest(hashMap[..k])
    {
      assert hashMap[..k + 1][..k] == hashMap[..k];
      var fileList := hashMap[k].1;
      if |fileList| >= 1 {
        originals := originals + {fileList[0]};
        var j := 1;
        while j < |fileList|
          invariant 1 <= j <= |fileList|
          invariant duplicates == (set f | f in Rest(hashMap[..k])) + set f | f in fileList[1..j]
        {
          assert fileList[1..j + 1] == fileList[1..j] + [fileList[j]];
          duplicates := duplicates + {fileList[j]};
          j := j + 1;
        }
        assert fileList[1..j] == fileList[1..];
      }
      k := k + 1;
    }
    assert hashMap[..k] == hashMap;
  }

  /** The two sets cover every file; a file listed only once is never in both. */
  lemma OriginalsAndDuplicates(hashMap: Table<string, ZipFileInfo>, f: ZipFileInfo)
    ensures f in Flatten(hashMap) <==> f in Firsts(hashMap) || f in Rest(hashMap)
    ensures multiset(Flatten(hashMap))[f] <= 1 ==> !(f in Firsts(hashMap) && f in Rest(hashMap))
  {
    FirstsAndRest(hashMap);
    assert multiset(Flatten(hashMap))[f] == multiset(Firsts(hashMap))[f] + multiset(Rest(hashMap))[f];
  }

  // --------------------------------------------------------- per-archive stats

  /** The counters of one entry of `zip_stats`. */
  datatype ZipStat = ZipStat(fileCount: nat, totalSize: nat, duplicateCount: nat, duplicateSize: nat, uniqueCount: nat)

  /** One more file of the archive. */
  function Tally(s: ZipStat, f: ZipFileInfo, isDuplicate: bool): ZipStat
  {
    if isDuplicate then
      ZipStat(s.fileCount + 1, s.totalSize + f.fileSize, s.duplicateCount + 1, s.duplicateSize + f.fileSize, s.uniqueCount)
    else
      ZipStat(s.fileCount + 1, s.totalSize + f.fileSize, s.duplicateCount, s.duplicateSize, s.uniqueCount + 1)
  }

  function ZipOf(f: ZipFileInfo): string
  {
    f.zipPath
  }

  function ZipStatsOf(files: seq<ZipFileInfo>, duplicates: set<ZipFileInfo>): map<string, ZipStat>
  {
    if files == [] then map[]
    else
      var f := files[|files| - 1];
      var m := ZipStatsOf(files[..|files| - 1], duplicates);
      var s := if f.zipPath in m then m[f.zipPath] else ZipStat(0, 0, 0, 0, 0);
      m[f.zipPath := Tally(s, f, f in duplicates)]
  }

  /** The loop that builds `zip_stats`. */
  method ZipStats(allFiles: seq<ZipFileInfo>, duplicates: set<ZipFileInfo>) returns (stats: map<string, ZipStat>)
    ensures stats == ZipStatsOf(allFiles, duplicates)
  {
    stats := map[];
    var i := 0;
    while i < |allFiles|
      invariant 0 <= i <= |allFiles|
      invariant stats == ZipStatsOf(allFiles[..i], duplicates)
    {
      assert allFiles[..i + 1][..i] == allFiles[..i];
      var f := allFiles[i];
      if f.zipPath !in stats {
        stats := stats[f.zipPath := ZipStat(0, 0, 0, 0, 0)];
      }
      stats := stats[f.zipPath := Tally(stats[f.zipPath], f, f in duplicates)];
      i := i + 1;
    }
    assert allFiles[..i] == allFiles;
  }

  /** The files of `files` that are in `s`, in order. */
  function Within(files: seq<ZipFileInfo>, s: set<ZipFileInfo>): (r: seq<ZipFileInfo>)
    ensures forall i :: 0 <= i < |r| ==> r[i] in s
  {
    if files == [] then []
    else Within(files[..|files| - 1], s) + (if files[|files| - 1] in s then [files[|files| - 1]] else [])
  }

  /** One more file of the archive adds itself to the selection, to the
      duplicates when it is one, and its size to the sums. */
  lemma WithinSnoc(sel: seq<ZipFileInfo>, f: ZipFileInfo, duplicates: set<ZipFileInfo>)
    ensures Within(sel + [f], duplicates) == Within(sel, duplicates) + (if f in duplicates then [f] else [])
    ensures SumBy(sel + [f], SizeOf) == SumBy(sel, SizeOf) + f.fileSize
    ensures SumBy(Within(sel + [f], duplicates), SizeOf)
            == SumBy(Within(sel, duplicates), SizeOf) + (if f in duplicates then f.fileSize else 0)
  {
    var s := sel + [f];
    assert s[..|s| - 1] == sel;
    var w := Within(sel, duplicates);
    assert w + [] == w;
    assert SumBy([f], SizeOf) == f.fileSize by {
      assert [f][..0] == [];
    }
    SumByAppend(sel, [f], SizeOf);
    SumByAppend(w, [f], SizeOf);
  }

  /** Each archive seen gets an entry; its file count is the number of its
      files, its duplicates are those of its files in `duplicates` and the
      rest are unique, and its sizes are the sums over its files and over
      its duplicates. */
  lemma {:induction false} ZipStatsSpec(files: seq<ZipFileInfo>, duplicates: set<ZipFileInfo>, zip: string)
    ensures zip in ZipStatsOf(files, duplicates) <==> Select(files, ZipOf, zip) != []
    ensures zip in ZipStatsOf(files, duplicates) ==>
      var s := ZipStatsOf(files, duplicates)[zip];
      var mine := Select(files, ZipOf, zip);
      && s.fileCount == |mine| == s.duplicateCount + s.uniqueCount
      && s.duplicateCount == |Within(mine, duplicates)|
      && s.totalSize == SumBy(mine, SizeOf)
      && s.duplicateSize == SumBy(Within(mine, duplicates), SizeOf)
      && s.duplicateSize <= s.totalSize
  {
    if files != [] {
      var init := files[..|files| - 1];
      var f := files[|files| - 1];
      ZipStatsSpec(init, duplicates, zip);
      var sel := Select(init, ZipOf, zip);
      if f.zipPath == zip {
        assert Select(files, ZipOf, zip) == sel + [f];
        WithinSnoc(sel, f, duplicates);
      } else {
        assert Select(files, ZipOf, zip) == sel + [] == sel;
      }
    }
  }

  // ------------------------------------------------------ the cleanup tab

  /** `duplicate_to_original[dup] = original` for every later member of a group. */
  function Assign(m: map<ZipFileInfo, ZipFileInfo>, dups: seq<ZipFileInfo>, original: ZipFileInfo)
    : map<ZipFileInfo, ZipFileInfo>
  {
    if dups == [] then m else Assign(m, dups[..|dups| - 1], original)[dups[|dups| - 1] := original]
  }

  function DuplicateMap(hashMap: Table<string, ZipFileInfo>): map<ZipFileInfo, ZipFileInfo>
  {
    if hashMap == [] then map[]
    else
      var files := hashMap[|hashMap| - 1].1;
      var m := DuplicateMap(hashMap[..|hashMap| - 1]);
      if |files| > 1 then Assign(m, files[1..], files[0]) else m
  }

  /** The reverse lookup built at the start of `generate_cleanup_tab`. */
  method DuplicateToOriginal(hashMap: Table<string, ZipFileInfo>) returns (m: map<ZipFileInfo, ZipFileInfo>)
    ensures m == DuplicateMap(hashMap)
  {
    m := map[];
    var k := 0;
    while k < |hashMap|
      invariant 0 <= k <= |hashMap|
      invariant m == DuplicateMap(hashMap[..k])
    {
      assert hashMap[..k + 1][..k] == hashMap[..k];
      var fileList := hashMap[k].1;
      if |fileList| > 1 {
        var original := fileList[0];
        ghost var m0 := m;
        var j := 1;
        while j < |fileList|
          invariant 1 <= j <= |fileList|
          invariant m == Assign(m0, fileList[1..j], original)
        {
          assert fileList[1..j + 1][..j - 1] == fileList[1..j];
          m := m[fileList[j] := original];
          j := j + 1;
        }
        assert fileList[1..j] == fileList[1..];
      }
      k := k + 1;
    }
    assert hashMap[..k] == hashMap;
  }

  lemma {:induction false} AssignSpec(m: map<ZipFileInfo, ZipFileInfo>, dups: seq<ZipFileInfo>, original: ZipFileInfo,
                                      x: ZipFileInfo)
    ensures x in Assign(m, dups, original) <==> x in m || x in dups
    ensures x in dups ==> Assign(m, dups, original)[x] == original
    ensures x !in dups && x in m ==> Assign(m, dups, original)[x] == m[x]
  {
    if dups != [] {
      AssignSpec(m, dups[..|dups| - 1], original, x);
      assert dups == dups[..|dups| - 1] + [dups[|dups| - 1]];
    }
  }

  /** Exactly the later members are mapped, each to the first member of a
      group in which it is a later member. */
  lemma {:induction false} DuplicateMapSpec(hashMap: Table<string, ZipFileInfo>, x: ZipFileInfo)
    ensures x in DuplicateMap(hashMap) <==> x in Rest(hashMap)
    ensures x in DuplicateMap(hashMap) ==>
      exists i, j :: 0 <= i < |hashMap| && 1 <= j < |hashMap[i].1| && hashMap[i].1[j] == x
                     && DuplicateMap(hashMap)[x] == hashMap[i].1[0]
  {
    if hashMap != [] {
      var init := hashMap[..|hashMap| - 1];
      var files := hashMap[|hashMap| - 1].1;
      DuplicateMapSpec(init, x);
      if |files| > 1 {
        AssignSpec(DuplicateMap(init), files[1..], files[0], x);
      }
      if |files| > 1 && x in files[1..] {
        var k :| 0 <= k < |files[1..]| && files[1..][k] == x;
        assert hashMap[|hashMap| - 1].1[k + 1] == x;
      } else if x in DuplicateMap(hashMap) {
        var i, j :| 0 <= i < |init| && 1 <= j < |init[i].1| && init[i].1[j] == x
                    && DuplicateMap(init)[x] == init[i].1[0];
        assert init[i] == hashMap[i];
      }
    }
  }

  /** A later member of a group that is listed in no other group maps to that
      group's first member. */
  lemma DuplicateMapOriginal(hashMap: Table<string, ZipFileInfo>, i: nat, j: nat)
    requires i < |hashMap| && 1 <= j < |hashMap[i].1|
    requires forall g :: 0 <= g < |hashMap| && hashMap[i].1[j] in hashMap[g].1 ==> g == i
    ensures hashMap[i].1[j] in DuplicateMap(hashMap)
    ensures DuplicateMap(hashMap)[hashMap[i].1[j]] == hashMap[i].1[0]
  {
    var x := hashMap[i].1[j];
    RestMember(hashMap, i, j);
    DuplicateMapSpec(hashMap, x);
    var g, k :| 0 <= g < |hashMap| && 1 <= k < |hashMap[g].1| && hashMap[g].1[k] == x
                && DuplicateMap(hashMap)[x] == hashMap[g].1[0];
    assert x in hashMap[g].1;
  }

  lemma {:induction false} RestMember(hashMap: Table<string, ZipFileInfo>, i: nat, j: nat)
    requires i < |hashMap| && 1 <= j < |hashMap[i].1|
    ensures hashMap[i].1[j] in Rest(hashMap)
  {
    var init := hashMap[..|hashMap| - 1];
    if i < |init| {
      assert init[i] == hashMap[i];
      RestMember(init, i, j);
    } else {
      assert hashMap[i].1[j] == hashMap[i].1[1..][j - 1];
    }
  }
}
