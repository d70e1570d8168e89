/** `csv_exporter.py`: one record per scanned file, grouped by content hash,
    and the seven-column table written from them. `datetime.now()` (the date
    of a file with none) and `strftime` are the parameters `now` and
    `format`; writing the file itself is not part of this model. */
module CsvExporter {
  import opened Base
  import opened Paths
  import opened Groups
  import opened Scanner

  datatype FileRecord = FileRecord(originalFile: ZipFileInfo, fileHash: string, isDuplicate: bool,
                                   duplicateOf: Option<ZipFileInfo>, extractedDate: DateTime,
                                   proposedLocation: string)

  /** The record for one file; `duplicateOf` names the group's first file. */
  function MakeRecord(f: ZipFileInfo, fileHash: string, duplicateOf: Option<ZipFileInfo>,
                      fileDates: map<ZipFileInfo, DateTime>, proposed: map<ZipFileInfo, string>, now: DateTime)
    : FileRecord
  {
    FileRecord(f, fileHash, duplicateOf.Some?, duplicateOf,
               if f in fileDates then fileDates[f] else now,
               if f in proposed then proposed[f] else "")
  }

  /** The duplicates of one group: every member after the first. */
  function DuplicateRecords(fileHash: string, duplicates: seq<ZipFileInfo>, original: ZipFileInfo,
                            fileDates: map<ZipFileInfo, DateTime>, proposed: map<ZipFileInfo, string>, now: DateTime)
    : (rs: seq<FileRecord>)
    ensures |rs| == |duplicates|
  {
    if duplicates == [] then []
    else
      DuplicateRecords(fileHash, duplicates[..|duplicates| - 1], original, fileDates, proposed, now)
      + [MakeRecord(duplicates[|duplicates| - 1], fileHash, Some(original), fileDates, proposed, now)]
  }

  /** One group's records: its first member as the original, then the rest. */
  function GroupRecords(fileHash: string, fileInfos: seq<ZipFileInfo>, fileDates: map<ZipFileInfo, DateTime>,
                        proposed: map<ZipFileInfo, string>, now: DateTime): (rs: seq<FileRecord>)
    requires fileInfos != []
    ensures |rs| == |fileInfos|
  {
    [MakeRecord(fileInfos[0], fileHash, None, fileDates, proposed, now)]
    + DuplicateRecords(fileHash, fileInfos[1..], fileInfos[0], fileDates, proposed, now)
  }

  /** Every group of the hash map is non-empty, as `build_hash_map` makes it;
      `file_infos[0]` would raise on an empty one. */
  predicate NonEmptyGroups(hashMap: Table<string, ZipFileInfo>)
  {
    forall i :: 0 <= i < |hashMap| ==> hashMap[i].1 != []
  }

  /** All records, group by group. */
  function Records(hashMap: Table<string, ZipFileInfo>, fileDates: map<ZipFileInfo, DateTime>,
                   proposed: map<ZipFileInfo, string>, now: DateTime): seq<FileRecord>
    requires NonEmptyGroups(hashMap)
  {
    if hashMap == [] then []
    else
      var last := hashMap[|hashMap| - 1];
      Records(hashMap[..|hashMap| - 1], fileDates, proposed, now)
      + GroupRecords(last.0, last.1, fileDates, proposed, now)
  }

  /** One group's turn of the record loop of `create_csv`. */
  method AppendGroup(records: seq<FileRecord>, fileHash: string, fileInfos: seq<ZipFileInfo>,
                     fileDates: map<ZipFileInfo, DateTime>, proposed: map<ZipFileInfo, string>, now: DateTime)
    returns (records': seq<FileRecord>)
    requires fileInfos != []
    ensures records' == records + GroupRecords(fileHash, fileInfos, fileDates, proposed, now)
  {
    var original := fileInfos[0];
    var prefix := records + [MakeRecord(original, fileHash, None, fileDates, proposed, now)];
    ghost var duplicates: seq<FileRecord> := [];
    records' := prefix;
    var j := 1;
    while j < |fileInfos|
      invariant 1 <= j <= |fileInfos|
      invariant duplicates == DuplicateRecords(fileHash, fileInfos[1..j], original, fileDates, proposed, now)
      invariant records' == prefix + duplicates
    {
      var r := MakeRecord(fileInfos[j], fileHash, Some(original), fileDates, proposed, now);
      DuplicatesStep(fileHash, fileInfos, j, fileDates, proposed, now, duplicates, r);
      records' := records' + [r];
      duplicates := duplicates + [r];
      j := j + 1;
    }
    assert fileInfos[1..j] == fileInfos[1..];
    assert prefix + duplicates == records + ([prefix[|records|]] + duplicates);
  }

  lemma DuplicatesStep(fileHash: string, fileInfos: seq<ZipFileInfo>, j: nat, fileDates: map<ZipFileInfo, DateTime>,
                       proposed: map<ZipFileInfo, string>, now: DateTime, duplicates: seq<FileRecord>, r: FileRecord)
    requires 1 <= j < |fileInfos|
    requires duplicates == DuplicateRecords(fileHash, fileInfos[1..j], fileInfos[0], fileDates, proposed, now)
    requires r == MakeRecord(fileInfos[j], fileHash, Some(fileInfos[0]), fileDates, proposed, now)
    ensures duplicates + [r] == DuplicateRecords(fileHash, fileInfos[1..j + 1], fileInfos[0], fileDates, proposed, now)
  {
    assert fileInfos[1..j + 1][..j - 1] == fileInfos[1..j];
  }

  lemma RecordsStep(hashMap: Table<string, ZipFileInfo>, k: nat, fileDates: map<ZipFileInfo, DateTime>,
                    proposed: map<ZipFileInfo, string>, now: DateTime)
    requires NonEmptyGroups(hashMap) && k < |hashMap|
    ensures Records(hashMap[..k + 1], fileDates, proposed, now)
            == Records(hashMap[..k], fileDates, proposed, now)
               + GroupRecords(hashMap[k].0, hashMap[k].1, fileDates, proposed, now)
  {
    assert hashMap[..k + 1][..k] == hashMap[..k];
  }

  /** The record loop of `create_csv`. */
  method CreateRecords(hashMap: Table<string, ZipFileInfo>, fileDates: map<ZipFileInfo, DateTime>,
                       proposed: map<ZipFileInfo, string>, now: DateTime) returns (records: seq<FileRecord>)
    requires NonEmptyGroups(hashMap)
    ensures records == Records(hashMap, fileDates, proposed, now)
  {
    records := [];
    var k := 0;
    while k < |hashMap|
      invariant 0 <= k <= |hashMap|
      invariant records == Records(hashMap[..k], fileDates, proposed, now)
    {
      RecordsStep(hashMap, k, fileDates, proposed, now);
      records := AppendGroup(records, hashMap[k].0, hashMap[k].1, fileDates, proposed, now);
      k := k + 1;
    }
    assert hashMap[..k] == hashMap;
  }

  lemma {:induction false} DuplicateRecordsSpec(fileHash: string, duplicates: seq<ZipFileInfo>, original: ZipFileInfo,
                                                fileDates: map<ZipFileInfo, DateTime>, proposed: map<ZipFileInfo, string>,
                                                now: DateTime, i: nat)
    requires i < |duplicates|
    ensures var r := DuplicateRecords(fileHash, duplicates, original, fileDates, proposed, now)[i];
      r.originalFile == duplicates[i] && r.fileHash == fileHash && r.isDuplicate && r.duplicateOf == Some(original)
  {
    if i < |duplicates| - 1 {
      DuplicateRecordsSpec(fileHash, duplicates[..|duplicates| - 1], original, fileDates, proposed, now, i);
    }
  }

  /** A group yields exactly one original record, for its first member; every
      other member is a duplicate of the first. Records follow member order. */
  lemma GroupRecordsSpec(fileHash: string, fileInfos: seq<ZipFileInfo>, fileDates: map<ZipFileInfo, DateTime>,
                         proposed: map<ZipFileInfo, string>, now: DateTime, i: nat)
    requires fileInfos != [] && i < |fileInfos|
    ensures var r := GroupRecords(fileHash, fileInfos, fileDates, proposed, now)[i];
      && r.originalFile == fileInfos[i] && r.fileHash == fileHash
      && (r.isDuplicate <==> i > 0)
      && r.duplicateOf == (if i == 0 then None else Some(fileInfos[0]))
  {
    if i > 0 {
      DuplicateRecordsSpec(fileHash, fileInfos[1..], fileInfos[0], fileDates, proposed, now, i - 1);
    }
  }

  function FileOf(r: FileRecord): ZipFileInfo
  {
    r.originalFile
  }

  lemma GroupRecordsFiles(fileHash: string, fileInfos: seq<ZipFileInfo>, fileDates: map<ZipFileInfo, DateTime>,
                          proposed: map<ZipFileInfo, string>, now: DateTime)
    requires fileInfos != []
    ensures MapKey(GroupRecords(fileHash, fileInfos, fileDates, proposed, now), FileOf) == fileInfos
  {
    forall i | 0 <= i < |fileInfos|
      ensures MapKey(GroupRecords(fileHash, fileInfos, fileDates, proposed, now), FileOf)[i] == fileInfos[i]
    {
      GroupRecordsSpec(fileHash, fileInfos, fileDates, proposed, now, i);
    }
  }

  /** Exactly one record per file, in group order and then member order, so
      the record count is the sum of the group sizes. */
  lemma {:induction false} RecordsFiles(hashMap: Table<string, ZipFileInfo>, fileDates: map<ZipFileInfo, DateTime>,
                                        proposed: map<ZipFileInfo, string>, now: DateTime)
    requires NonEmptyGroups(hashMap)
    ensures MapKey(Records(hashMap, fileDates, proposed, now), FileOf) == Flatten(hashMap)
    ensures |Records(hashMap, fileDates, proposed, now)| == Sum(Sizes(hashMap))
  {
    if hashMap != [] {
      var init := hashMap[..|hashMap| - 1];
      var last := hashMap[|hashMap| - 1];
      var before := Records(init, fileDates, proposed, now);
      var group := GroupRecords(last.0, last.1, fileDates, proposed, now);
      assert Records(hashMap, fileDates, proposed, now) == before + group;
      RecordsFiles(init, fileDates, proposed, now);
      GroupRecordsFiles(last.0, last.1, fileDates, proposed, now);
      MapKeyAppend(before, group, FileOf);
      FlattenSnoc(hashMap);
    }
    SumSizesIsFlattenLength(hashMap);
  }

  /** A record's group: every record is the original or a duplicate of the
      first member of the group it comes from, and `duplicateOf` is set
      exactly for duplicates. */
  lemma {:induction false} RecordsShape(hashMap: Table<string, ZipFileInfo>, fileDates: map<ZipFileInfo, DateTime>,
                                        proposed: map<ZipFileInfo, string>, now: DateTime, i: nat) returns (g: nat)
    requires NonEmptyGroups(hashMap) && i < |Records(hashMap, fileDates, proposed, now)|
    ensures g < |hashMap|
    ensures var r := Records(hashMap, fileDates, proposed, now)[i];
      && r.fileHash == hashMap[g].0 && r.originalFile in hashMap[g].1
      && (r.isDuplicate <==> r.duplicateOf.Some?)
      && (r.isDuplicate ==> r.duplicateOf == Some(hashMap[g].1[0]))
      && (!r.isDuplicate ==> r.originalFile == hashMap[g].1[0])
  {
    var init := hashMap[..|hashMap| - 1];
    var last := hashMap[|hashMap| - 1];
    var before := Records(init, fileDates, proposed, now);
    if i < |before| {
      g := RecordsShape(init, fileDates, proposed, now, i);
      assert init[g] == hashMap[g];
    } else {
      g := |hashMap| - 1;
      GroupRecordsSpec(last.0, last.1, fileDates, proposed, now, i - |before|);
    }
  }

  // ------------------------------------------------------------------ the rows

  const Header: seq<string> := ["Zip File", "File Path in Zip", "File Hash", "Is Duplicate", "Duplicate Of",
                                 "Extracted Date", "Proposed Location"]

  function Row(r: FileRecord, format: DateTime -> string): (row: seq<string>)
    ensures |row| == |Header|
  {
    [Name(Parse(r.originalFile.zipPath)), r.originalFile.filePath, r.fileHash,
     if r.isDuplicate then "Yes" else "No",
     if r.duplicateOf.Some? then DisplayPath(r.duplicateOf.value) else "",
     format(r.extractedDate), r.proposedLocation]
  }

  /** A row shows "Yes" exactly for a duplicate, and an empty "Duplicate Of"
      exactly when the record names no original. */
  lemma RowSpec(r: FileRecord, format: DateTime -> string)
    ensures |Row(r, format)| == 7
    ensures Row(r, format)[3] == "Yes" <==> r.isDuplicate
    ensures Row(r, format)[3] == "No" <==> !r.isDuplicate
    ensures Row(r, format)[4] == "" <==> r.duplicateOf.None?
  {
    if r.duplicateOf.Some? {
      assert DisplayPath(r.duplicateOf.value)[|Name(Parse(r.duplicateOf.value.zipPath))|] == ':';
    }
  }

  /** `create_csv`: the header, then one row per record in record order. */
  method CreateCsv(hashMap: Table<string, ZipFileInfo>, fileDates: map<ZipFileInfo, DateTime>,
                   proposed: map<ZipFileInfo, string>, now: DateTime, format: DateTime -> string)
    returns (table: seq<seq<string>>)
    requires NonEmptyGroups(hashMap)
    ensures |table| == 1 + |Records(hashMap, fileDates, proposed, now)| && table[0] == Header
    ensures |table| == 1 + Sum(Sizes(hashMap))
    ensures forall i :: 1 <= i < |table| ==> table[i] == Row(Records(hashMap, fileDates, proposed, now)[i - 1], format)
  {
    var records := CreateRecords(hashMap, fileDates, proposed, now);
    RecordsFiles(hashMap, fileDates, proposed, now);
    table := [Header];
    var i := 0;
    while i < |records|
      invariant 0 <= i <= |records| && |table| == 1 + i && table[0] == Header
      invariant forall j :: 1 <= j < |table| ==> table[j] == Row(records[j - 1], format)
    {
      table := table + [Row(records[i], format)];
      i := i + 1;
    }
  }
}
