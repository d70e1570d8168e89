// The manifest, reconcile and diff procedures of the command-line program:
// proposing a location for every dated file, writing one manifest record per
// content group, classifying manifest records against an output directory,
// and comparing two directories by content key.

module Commands {
  import opened Base
  import opened Groups
  import opened Scanner
  import Text
  import Paths
  import Hasher
  import DirectoryScanner
  import Organizer
  import ExtractCommand

  // ------------------------------------------------------ step 4: proposals

  /** The dates a `datetime` can hold: year 1..9999, month 1..12. */
  predicate DatesValid(dates: map<ZipFileInfo, Option<DateTime>>)
  {
    forall f :: f in dates && dates[f].Some? ==> Organizer.ValidDate(dates[f].value)
  }

  /** `proposed_locations` after the loop over `files`. */
  function Proposals(files: seq<ZipFileInfo>, dates: map<ZipFileInfo, Option<DateTime>>): map<ZipFileInfo, string>
    requires DatesValid(dates)
  {
    if files == [] then map[]
    else
      var f := files[|files| - 1];
      var m := Proposals(files[..|files| - 1], dates);
      if f in dates && dates[f].Some? then m[f := Organizer.ProposeLocation(f, dates[f].value, Organizer.DefaultBase)]
      else m
  }

  /** A file gets a proposal iff it has a date. */
  lemma {:induction false} ProposalsMember(files: seq<ZipFileInfo>, dates: map<ZipFileInfo, Option<DateTime>>,
                                           f: ZipFileInfo)
    requires DatesValid(dates)
    ensures f in Proposals(files, dates) <==> f in files && f in dates && dates[f].Some?
  {
    if files != [] {
      var init, g := files[..|files| - 1], files[|files| - 1];
      ProposalsMember(init, dates, f);
      assert f in files <==> f in init || f == g by { assert files == init + [g]; }
    }
  }

  /** The proposal is `propose_location` of the file's date under the
      default base directory. */
  lemma {:induction false} ProposalsValue(files: seq<ZipFileInfo>, dates: map<ZipFileInfo, Option<DateTime>>,
                                          f: ZipFileInfo)
    requires DatesValid(dates) && f in Proposals(files, dates)
    ensures f in dates && dates[f].Some?
    ensures Proposals(files, dates)[f] == Organizer.ProposeLocation(f, dates[f].value, Organizer.DefaultBase)
  {
    var g := files[|files| - 1];
    if g != f || !(g in dates && dates[g].Some?) {
      ProposalsValue(files[..|files| - 1], dates, f);
    }
  }

  /** Step 4 of the analysis: `propose_location` for each file whose date is set. */
  method ProposeAll(files: seq<ZipFileInfo>, dates: map<ZipFileInfo, Option<DateTime>>)
    returns (proposed: map<ZipFileInfo, string>)
    requires DatesValid(dates)
    ensures proposed == Proposals(files, dates)
  {
    proposed := map[];
    var i := 0;
    while i < |files|
      invariant 0 <= i <= |files|
      invariant proposed == Proposals(files[..i], dates)
    {
      assert files[..i + 1][..i] == files[..i];
      var f := files[i];
      if f in dates && dates[f].Some? {
        proposed := proposed[f := Organizer.ProposeLocation(f, dates[f].value, Organizer.DefaultBase)];
      }
      i := i + 1;
    }
    assert files[..i] == files;
  }

  /** Every proposal has a first component to strip when the extraction
      step places it under the output directory. */
  lemma ProposalsDestinable(files: seq<ZipFileInfo>, dates: map<ZipFileInfo, Option<DateTime>>)
    requires DatesValid(dates)
    ensures forall f :: f in Proposals(files, dates) ==> ExtractCommand.HasFirstPart(Proposals(files, dates)[f])
  {
    var m := Proposals(files, dates);
    forall f | f in m ensures ExtractCommand.HasFirstPart(m[f]) {
      ProposalsValue(files, dates, f);
      var d := dates[f].value;
      assert ExtractCommand.HasFirstPart(Organizer.ProposeLocation(f, d, Organizer.DefaultBase)) by {
        Organizer.DefaultBaseIsPart();
        ExtractCommand.DestOfProposal(Paths.PurePath(false, []), f, d, Organizer.DefaultBase);
      }
    }
  }

  // -------------------------------------------------------------- manifest

  /** One record of `manifest["files"]`. The date stands for its ISO text. */
  datatype ManifestEntry = ManifestEntry(
    contentKey: string,
    fileSize: nat,
    fileCrc: nat,
    date: Option<DateTime>,
    proposedLocation: string,
    sourceZip: string,
    sourcePath: string,
    duplicateCount: nat)

  datatype Manifest = Manifest(version: string, generated: DateTime, totalUniqueFiles: nat, files: seq<ManifestEntry>)

  /** The record for one group, describing its first member. */
  function EntryOf(group: (string, seq<ZipFileInfo>), dates: map<ZipFileInfo, Option<DateTime>>,
                   proposed: map<ZipFileInfo, string>): ManifestEntry
    requires group.1 != []
  {
    var f := group.1[0];
    ManifestEntry(group.0, f.fileSize, f.fileCrc, if f in dates then dates[f] else None,
                  if f in proposed then proposed[f] else "", f.zipPath, f.filePath, |group.1| - 1)
  }

  function Entries(hashMap: Table<string, ZipFileInfo>, dates: map<ZipFileInfo, Option<DateTime>>,
                   proposed: map<ZipFileInfo, string>): seq<ManifestEntry>
    requires ExtractCommand.NonEmptyGroups(hashMap)
  {
    seq(|hashMap|, i requires 0 <= i < |hashMap| => EntryOf(hashMap[i], dates, proposed))
  }

  /** `generate_manifest`, without the JSON file write; `now` is the
      generation time. */
  method GenerateManifest(hashMap: Table<string, ZipFileInfo>, dates: map<ZipFileInfo, Option<DateTime>>,
                          proposed: map<ZipFileInfo, string>, now: DateTime) returns (m: Manifest)
    requires ExtractCommand.NonEmptyGroups(hashMap)
    ensures m == Manifest("1.0", now, |hashMap|, Entries(hashMap, dates, proposed))
  {
    var entries: seq<ManifestEntry> := [];
    var i := 0;
    while i < |hashMap|
      invariant 0 <= i <= |hashMap|
      invariant entries == Entries(hashMap[..i], dates, proposed)
    {
      entries := entries + [EntryOf(hashMap[i], dates, proposed)];
      i := i + 1;
    }
    assert hashMap[..i] == hashMap;
    m := Manifest("1.0", now, |hashMap|, entries);
  }

  function DuplicateCounts(es: seq<ManifestEntry>): (s: seq<nat>)
    ensures |s| == |es| && forall i :: 0 <= i < |es| ==> s[i] == es[i].duplicateCount
  {
    seq(|es|, i requires 0 <= i < |es| => es[i].duplicateCount)
  }

  /** The manifest accounts for every scanned file: one record per group plus
      the duplicates each record counts add up to the number of files. */
  lemma ManifestCountsFiles(files: seq<ZipFileInfo>, dates: map<ZipFileInfo, Option<DateTime>>,
                            proposed: map<ZipFileInfo, string>)
    requires ExtractCommand.NonEmptyGroups(Hasher.HashMap(files))
    ensures var es := Entries(Hasher.HashMap(files), dates, proposed);
      |es| + Sum(DuplicateCounts(es)) == |files|
  {
    var h := Hasher.HashMap(files);
    var es := Entries(h, dates, proposed);
    var dc := DuplicateCounts(es);
    var sz := Sizes(h);
    forall i | 0 <= i < |dc| ensures sz[i] == dc[i] + 1 {
      assert h[i].1 != [];
    }
    SumShift(dc, sz);
    Hasher.HashMapSizes(files);
  }

  /** A manifest key is either synthetic (it starts with '_') or the CRC key
      of the record's own size and 32-bit CRC. */
  predicate ManifestKeyShape(e: ManifestEntry)
  {
    (|e.contentKey| >= 1 && e.contentKey[0] == '_')
    || (e.contentKey == CrcKey(e.fileSize, e.fileCrc) && e.fileCrc < 0x1_0000_0000)
  }

  /** The groups of `build_hash_map` are spelled as synthetic or CRC keys,
      so every manifest record has one of those shapes. */
  lemma ManifestKeys(files: seq<ZipFileInfo>, dates: map<ZipFileInfo, Option<DateTime>>,
                     proposed: map<ZipFileInfo, string>)
    requires forall i :: 0 <= i < |files| ==> files[i].fileCrc < 0x1_0000_0000
    requires ExtractCommand.NonEmptyGroups(Hasher.HashMap(files))
    ensures var es := Entries(Hasher.HashMap(files), dates, proposed);
      forall i :: 0 <= i < |es| ==> ManifestKeyShape(es[i])
  {
    var h := Hasher.HashMap(files);
    var es := Entries(h, dates, proposed);
    Hasher.HashMapKeys(files);
    Hasher.HashMapFirstsAreFiles(files);
    forall i | 0 <= i < |es| ensures ManifestKeyShape(es[i]) {
      var g := h[i];
      assert g.1[0] in files;
      assert es[i] == EntryOf(g, dates, proposed);
    }
  }

  // ------------------------------------------------------------- reconcile

  datatype Status = Extracted | Pending | MissingSource

  /** Found in the output at its size and key; otherwise missing when its
      archive is gone, pending when the archive is still there. */
  function StatusOf(e: ManifestEntry, existing: map<int, set<string>>, zipExists: string -> bool): Status
  {
    if e.fileSize in existing && e.contentKey in existing[e.fileSize] then Extracted
    else if !zipExists(e.sourceZip) then MissingSource
    else Pending
  }

  /** The records with status `st`, in manifest order. */
  function WithStatus(es: seq<ManifestEntry>, existing: map<int, set<string>>, zipExists: string -> bool,
                      st: Status): seq<ManifestEntry>
  {
    if es == [] then []
    else
      var e := es[|es| - 1];
      WithStatus(es[..|es| - 1], existing, zipExists, st) + (if StatusOf(e, existing, zipExists) == st then [e] else [])
  }

  /** Each list holds exactly the records of its status. */
  lemma {:induction false} WithStatusMember(es: seq<ManifestEntry>, existing: map<int, set<string>>,
                                            zipExists: string -> bool, st: Status, e: ManifestEntry)
    ensures e in WithStatus(es, existing, zipExists, st) <==> e in es && StatusOf(e, existing, zipExists) == st
  {
    if es != [] {
      WithStatusMember(es[..|es| - 1], existing, zipExists, st, e);
      assert es == es[..|es| - 1] + [es[|es| - 1]];
    }
  }

  /** When no record has status `st`, its list is empty. */
  lemma {:induction false} WithStatusNone(es: seq<ManifestEntry>, existing: map<int, set<string>>,
                                          zipExists: string -> bool, st: Status)
    requires forall i :: 0 <= i < |es| ==> StatusOf(es[i], existing, zipExists) != st
    ensures WithStatus(es, existing, zipExists, st) == []
  {
    if es != [] {
      WithStatusNone(es[..|es| - 1], existing, zipExists, st);
    }
  }

  /** `existing_by_size` for the output directory: empty when it does not
      exist, else the size-partial keys of the files a scan finds. */
  function ExistingBySize(output: DirectoryScanner.Root, sha: seq<byte> -> DirectoryScanner.HexDigest,
                          crc: seq<byte> -> nat): map<int, set<string>>
  {
    if output.Directory? then
      ExtractCommand.Index(ExtractCommand.SizeKeyPairs(DirectoryScanner.Scanned("size_partial", output.walk, sha, crc)))
    else map[]
  }

  /** The classification loop of `cmd_reconcile`. */
  method Reconcile(manifest: seq<ManifestEntry>, output: DirectoryScanner.Root, zipExists: string -> bool,
                   sha: seq<byte> -> DirectoryScanner.HexDigest, crc: seq<byte> -> nat)
    returns (extracted: seq<ManifestEntry>, pending: seq<ManifestEntry>, missingSource: seq<ManifestEntry>)
    ensures var existing := ExistingBySize(output, sha, crc);
      && extracted == WithStatus(manifest, existing, zipExists, Extracted)
      && pending == WithStatus(manifest, existing, zipExists, Pending)
      && missingSource == WithStatus(manifest, existing, zipExists, MissingSource)
  {
    var existing: map<int, set<string>> := map[];
    if !output.Missing? {
      var files := DirectoryScanner.ScanDirectory("size_partial", output, sha, crc);
      existing := ExtractCommand.IndexKeys(ExtractCommand.SizeKeyPairs(files));
      if output.NotADirectory? {
        assert ExtractCommand.SizeKeyPairs(files) == [];
      }
    }
    assert existing == ExistingBySize(output, sha, crc);
    extracted, pending, missingSource := [], [], [];
    var i := 0;
    while i < |manifest|
      invariant 0 <= i <= |manifest|
      invariant extracted == WithStatus(manifest[..i], existing, zipExists, Extracted)
      invariant pending == WithStatus(manifest[..i], existing, zipExists, Pending)
      invariant missingSource == WithStatus(manifest[..i], existing, zipExists, MissingSource)
    {
      assert manifest[..i + 1][..i] == manifest[..i];
      var e := manifest[i];
      if e.fileSize in existing && e.contentKey in existing[e.fileSize] {
        extracted := extracted + [e];
      } else if !zipExists(e.sourceZip) {
        missingSource := missingSource + [e];
      } else {
        pending := pending + [e];
      }
      i := i + 1;
    }
    assert manifest[..i] == manifest;
  }

  /** The last record goes to the list of its status and nowhere else. */
  lemma WithStatusLast(es: seq<ManifestEntry>, existing: map<int, set<string>>, zipExists: string -> bool, st: Status)
    requires es != []
    ensures var e := es[|es| - 1];
      WithStatus(es, existing, zipExists, st)
      == WithStatus(es[..|es| - 1], existing, zipExists, st) + (if StatusOf(e, existing, zipExists) == st then [e] else [])
  {
  }

  /** Every record lands in exactly one of the three lists. */
  lemma {:induction false} ReconcilePartition(es: seq<ManifestEntry>, existing: map<int, set<string>>,
                                              zipExists: string -> bool)
    ensures multiset(WithStatus(es, existing, zipExists, Extracted))
          + multiset(WithStatus(es, existing, zipExists, Pending))
          + multiset(WithStatus(es, existing, zipExists, MissingSource)) == multiset(es)
  {
    if es != [] {
      var init, e := es[..|es| - 1], es[|es| - 1];
      ReconcilePartition(init, existing, zipExists);
      WithStatusLast(es, existing, zipExists, Extracted);
      WithStatusLast(es, existing, zipExists, Pending);
      WithStatusLast(es, existing, zipExists, MissingSource);
      var st := StatusOf(e, existing, zipExists);
      ShareThree(es, WithStatus(init, existing, zipExists, Extracted), WithStatus(init, existing, zipExists, Pending),
                 WithStatus(init, existing, zipExists, MissingSource), st == Extracted, st == Pending, st == MissingSource);
    }
  }

  /** A size-partial scan yields keys of the decimal size, '_' and sixteen
      more characters, starting with a digit. */
  lemma {:induction false} ScannedPartialShape(walk: seq<DirectoryScanner.WalkEntry>,
                                               sha: seq<byte> -> DirectoryScanner.HexDigest, crc: seq<byte> -> nat,
                                               i: nat)
    requires i < |DirectoryScanner.Scanned("size_partial", walk, sha, crc)|
    ensures var f := DirectoryScanner.Scanned("size_partial", walk, sha, crc)[i];
      |f.fileHash| == |Text.Dec(f.fileSize)| + 17 && Text.IsDigit(f.fileHash[0])
  {
    var init := walk[..|walk| - 1];
    var fs0 := DirectoryScanner.Scanned("size_partial", init, sha, crc);
    var e := walk[|walk| - 1];
    if e.isFile && e.probe.Readable? {
      var p := e.probe;
      var r := DirectoryScanner.Probe("size_partial", e.path, p, sha, crc);
      assert DirectoryScanner.Scanned("size_partial", walk, sha, crc) == fs0 + [r.value];
      if i < |fs0| {
        ScannedPartialShape(init, sha, crc, i);
      } else {
        assert DirectoryScanner.KindOf("size_partial") == DirectoryScanner.Partial;
        DirectoryScanner.FileHashShape(DirectoryScanner.Partial, p.content, p.size, sha, crc);
        var k := DirectoryScanner.FileHash(DirectoryScanner.Partial, p.content, p.size, sha, crc);
        var d := Text.Dec(p.size);
        assert k[0] == k[..|d| + 1][0] == d[0];
        assert r.value == DirectoryScanner.DirectoryFileInfo(e.path, p.size, k, p.mtime);
      }
    } else {
      assert DirectoryScanner.Scanned("size_partial", walk, sha, crc) == fs0;
      ScannedPartialShape(init, sha, crc, i);
    }
  }

  /** Every key indexed for the output directory at size `size` is the
      decimal size, '_' and sixteen more characters. */
  lemma IndexedKeyShape(output: DirectoryScanner.Root, sha: seq<byte> -> DirectoryScanner.HexDigest,
                        crc: seq<byte> -> nat, size: nat, k: string)
    requires size in ExistingBySize(output, sha, crc) && k in ExistingBySize(output, sha, crc)[size]
    ensures |k| == |Text.Dec(size)| + 17 && Text.IsDigit(k[0])
  {
    var fs := DirectoryScanner.Scanned("size_partial", output.walk, sha, crc);
    var pairs := ExtractCommand.SizeKeyPairs(fs);
    assert (size as int, k) in pairs;
    var j :| 0 <= j < |pairs| && pairs[j] == (size as int, k);
    ScannedPartialShape(output.walk, sha, crc, j);
    assert fs[j].fileSize == size && fs[j].fileHash == k;
  }

  /** A key of either manifest shape is never a size-partial key of the
      output directory. */
  lemma NoManifestKeyMatches(e: ManifestEntry, output: DirectoryScanner.Root,
                             sha: seq<byte> -> DirectoryScanner.HexDigest, crc: seq<byte> -> nat)
    requires ManifestKeyShape(e)
    ensures !(e.fileSize in ExistingBySize(output, sha, crc) && e.contentKey in ExistingBySize(output, sha, crc)[e.fileSize])
  {
    if e.fileSize in ExistingBySize(output, sha, crc) && e.contentKey in ExistingBySize(output, sha, crc)[e.fileSize] {
      IndexedKeyShape(output, sha, crc, e.fileSize, e.contentKey);
      if e.contentKey[0] != '_' {
        CrcKeyShape(e.fileSize, e.fileCrc);
      }
      assert false;
    }
  }

  /** Reconciling a manifest of `build_hash_map` groups never reports a file
      as extracted: manifest keys are synthetic or eight-hex CRC keys, the
      output is indexed by sixteen-hex partial keys, and the two never meet. */
  lemma ReconcileFindsNothing(files: seq<ZipFileInfo>, dates: map<ZipFileInfo, Option<DateTime>>,
                              proposed: map<ZipFileInfo, string>, output: DirectoryScanner.Root,
                              zipExists: string -> bool, sha: seq<byte> -> DirectoryScanner.HexDigest,
                              crc: seq<byte> -> nat)
    requires forall i :: 0 <= i < |files| ==> files[i].fileCrc < 0x1_0000_0000
    requires ExtractCommand.NonEmptyGroups(Hasher.HashMap(files))
    ensures WithStatus(Entries(Hasher.HashMap(files), dates, proposed), ExistingBySize(output, sha, crc),
                       zipExists, Extracted) == []
  {
    var es := Entries(Hasher.HashMap(files), dates, proposed);
    var existing := ExistingBySize(output, sha, crc);
    ManifestKeys(files, dates, proposed);
    forall i | 0 <= i < |es| ensures StatusOf(es[i], existing, zipExists) != Extracted {
      NoManifestKeyMatches(es[i], output, sha, crc);
    }
    WithStatusNone(es, existing, zipExists, Extracted);
  }

  // ------------------------------------------------------------------ diff

  function SizeOf(f: DirectoryScanner.DirectoryFileInfo): nat
  {
    f.fileSize
  }

  /** `dest_keys`: the keys of the destination files. */
  function KeySet(files: seq<DirectoryScanner.DirectoryFileInfo>): set<string>
  {
    if files == [] then {} else KeySet(files[..|files| - 1]) + {DirectoryScanner.ContentKey(files[|files| - 1])}
  }

  lemma {:induction false} KeySetMember(files: seq<DirectoryScanner.DirectoryFileInfo>, k: string)
    ensures k in KeySet(files) <==> exists i :: 0 <= i < |files| && DirectoryScanner.ContentKey(files[i]) == k
  {
    if files != [] {
      var init := files[..|files| - 1];
      KeySetMember(init, k);
      if exists i :: 0 <= i < |init| && DirectoryScanner.ContentKey(init[i]) == k {
        var i :| 0 <= i < |init| && DirectoryScanner.ContentKey(init[i]) == k;
        assert files[i] == init[i];
      }
      if exists i :: 0 <= i < |files| && DirectoryScanner.ContentKey(files[i]) == k {
        var i :| 0 <= i < |files| && DirectoryScanner.ContentKey(files[i]) == k;
        if i < |init| {
          assert files[i] == init[i];
        }
      }
    }
  }

  datatype DiffReport = DiffReport(
    sourceCount: nat,
    destCount: nat,
    sourceTotalSize: nat,
    present: seq<DirectoryScanner.DirectoryFileInfo>,
    missing: seq<DirectoryScanner.DirectoryFileInfo>,
    presentSize: nat,
    missingSize: nat)

  /** The comparison of the scanned source and destination files. */
  function DiffOf(source: seq<DirectoryScanner.DirectoryFileInfo>, dest: seq<DirectoryScanner.DirectoryFileInfo>)
    : DiffReport
  {
    var t := GroupBy(source, DirectoryScanner.ContentKey);
    var keys := KeySet(dest);
    var present := Pick(t, keys, true);
    var missing := Pick(t, keys, false);
    DiffReport(|source|, |dest|, SumBy(source, SizeOf), present, missing, SumBy(present, SizeOf), SumBy(missing, SizeOf))
  }

  /** What `scan_directory` yields for a root. */
  function Listing(strategy: string, root: DirectoryScanner.Root, sha: seq<byte> -> DirectoryScanner.HexDigest,
                   crc: seq<byte> -> nat): seq<DirectoryScanner.DirectoryFileInfo>
  {
    if root.Directory? then DirectoryScanner.Scanned(strategy, root.walk, sha, crc) else []
  }

  /** The source loop: group by key and total the sizes. */
  method IndexSource(files: seq<DirectoryScanner.DirectoryFileInfo>)
    returns (byKey: Table<string, DirectoryScanner.DirectoryFileInfo>, total: nat)
    ensures byKey == GroupBy(files, DirectoryScanner.ContentKey) && total == SumBy(files, SizeOf)
  {
    byKey, total := [], 0;
    var i := 0;
    while i < |files|
      invariant 0 <= i <= |files|
      invariant byKey == AddAll([], files[..i], DirectoryScanner.ContentKey)
      invariant total == SumBy(files[..i], SizeOf)
    {
      assert files[..i + 1][..i] == files[..i];
      byKey := Add(byKey, DirectoryScanner.ContentKey(files[i]), files[i]);
      total := total + files[i].fileSize;
      i := i + 1;
    }
    assert files[..i] == files;
  }

  method CollectKeys(files: seq<DirectoryScanner.DirectoryFileInfo>) returns (keys: set<string>)
    ensures keys == KeySet(files)
  {
    keys := {};
    var i := 0;
    while i < |files|
      invariant 0 <= i <= |files|
      invariant keys == KeySet(files[..i])
    {
      assert files[..i + 1][..i] == files[..i];
      keys := keys + {DirectoryScanner.ContentKey(files[i])};
      i := i + 1;
    }
    assert files[..i] == files;
  }

  /** The comparison loop: `extend` present or missing by whole groups. */
  method SplitByKeys(t: Table<string, DirectoryScanner.DirectoryFileInfo>, keys: set<string>)
    returns (present: seq<DirectoryScanner.DirectoryFileInfo>, missing: seq<DirectoryScanner.DirectoryFileInfo>)
    ensures present == Pick(t, keys, true) && missing == Pick(t, keys, false)
  {
    present, missing := [], [];
    var i := 0;
    while i < |t|
      invariant 0 <= i <= |t|
      invariant present == Pick(t[..i], keys, true) && missing == Pick(t[..i], keys, false)
    {
      assert t[..i + 1][..i] == t[..i];
      if t[i].0 in keys {
        present := present + t[i].1;
      } else {
        missing := missing + t[i].1;
      }
      i := i + 1;
    }
    assert t[..i] == t;
  }

  method TotalSize(files: seq<DirectoryScanner.DirectoryFileInfo>) returns (total: nat)
    ensures total == SumBy(files, SizeOf)
  {
    total := 0;
    var i := 0;
    while i < |files|
      invariant 0 <= i <= |files|
      invariant total == SumBy(files[..i], SizeOf)
    {
      assert files[..i + 1][..i] == files[..i];
      total := total + files[i].fileSize;
      i := i + 1;
    }
    assert files[..i] == files;
  }

  /** `cmd_diff`: both directories must exist; then the comparison. */
  method Diff(strategy: string, source: DirectoryScanner.Root, dest: DirectoryScanner.Root,
              sha: seq<byte> -> DirectoryScanner.HexDigest, crc: seq<byte> -> nat) returns (r: Result<DiffReport>)
    ensures source.Missing? ==> r == Raised("Source directory not found")
    ensures !source.Missing? && dest.Missing? ==> r == Raised("Destination directory not found")
    ensures !source.Missing? && !dest.Missing? ==>
      r == Ok(DiffOf(Listing(strategy, source, sha, crc), Listing(strategy, dest, sha, crc)))
  {
    if source.Missing? {
      return Raised("Source directory not found");
    }
    if dest.Missing? {
      return Raised("Destination directory not found");
    }
    var sourceFiles := DirectoryScanner.ScanDirectory(strategy, source, sha, crc);
    var byKey, sourceTotal := IndexSource(sourceFiles);
    var destFiles := DirectoryScanner.ScanDirectory(strategy, dest, sha, crc);
    var keys := CollectKeys(destFiles);
    var present, missing := SplitByKeys(byKey, keys);
    var presentSize := TotalSize(present);
    var missingSize := TotalSize(missing);
    r := Ok(DiffReport(|sourceFiles|, |destFiles|, sourceTotal, present, missing, presentSize, missingSize));
  }

  /** A source file is reported present iff some destination file has its
      key, and missing iff none has. */
  lemma DiffMembership(source: seq<DirectoryScanner.DirectoryFileInfo>, dest: seq<DirectoryScanner.DirectoryFileInfo>,
                       f: DirectoryScanner.DirectoryFileInfo)
    ensures f in DiffOf(source, dest).present <==>
      f in source && exists j :: 0 <= j < |dest| && DirectoryScanner.ContentKey(dest[j]) == DirectoryScanner.ContentKey(f)
    ensures f in DiffOf(source, dest).missing <==>
      f in source && forall j :: 0 <= j < |dest| ==> DirectoryScanner.ContentKey(dest[j]) != DirectoryScanner.ContentKey(f)
  {
    PickGroupBy(source, DirectoryScanner.ContentKey, KeySet(dest), true, f);
    PickGroupBy(source, DirectoryScanner.ContentKey, KeySet(dest), false, f);
    KeySetMember(dest, DirectoryScanner.ContentKey(f));
  }

  /** Present and missing share out the source files, and so their sizes add
      up to the source total. */
  lemma DiffPartition(source: seq<DirectoryScanner.DirectoryFileInfo>, dest: seq<DirectoryScanner.DirectoryFileInfo>)
    ensures var d := DiffOf(source, dest);
      && multiset(d.present) + multiset(d.missing) == multiset(source)
      && |d.present| + |d.missing| == d.sourceCount
      && d.presentSize + d.missingSize == d.sourceTotalSize
  {
    var d := DiffOf(source, dest);
    var t := GroupBy(source, DirectoryScanner.ContentKey);
    PickSplits(t, KeySet(dest));
    GroupByMultiset(source, DirectoryScanner.ContentKey);
    assert multiset(d.present + d.missing) == multiset(source);
    assert |multiset(d.present + d.missing)| == |multiset(source)|;
    SumByPermutation(d.present + d.missing, source, SizeOf);
    SumByAppend(d.present, d.missing, SizeOf);
  }
}
