/** `cmd_extract` in `main.py`: whether the cached snapshot of the output
    directory can be trusted, the verify-and-patch pass that refreshes it,
    the choice of the originals to extract, and the per-archive summary.

    The directory walk, `stat`, the archive reads and `datetime` arithmetic
    are inputs: a walk is the sequence of what `stat` returned for each file,
    a scan time is already converted to a POSIX timestamp by `timestamp`. */
module ExtractCommand {
  import opened Base
  import opened Paths
  import opened Groups
  import opened Scanner
  import DirectoryScanner
  import Comparator
  import Cache
  import Organizer

  // ------------------------------------------------------------ watermark

  /** The newest of the mtimes, seeded at 0.0 as the walk seeds it. */
  function Newest(mtimes: seq<real>): (m: real)
    ensures m >= 0.0
    ensures forall i :: 0 <= i < |mtimes| ==> mtimes[i] <= m
    ensures m == 0.0 || m in mtimes
  {
    if mtimes == [] then 0.0
    else
      var m := Newest(mtimes[..|mtimes| - 1]);
      var x := mtimes[|mtimes| - 1];
      if x > m then x else m
  }

  /** Every `stat` of the walk returned. */
  predicate AllStated(stats: seq<Option<real>>)
  {
    forall i :: 0 <= i < |stats| ==> stats[i].Some?
  }

  function Mtimes(stats: seq<Option<real>>): (r: seq<real>)
    requires AllStated(stats)
    ensures |r| == |stats| && forall i :: 0 <= i < |stats| ==> r[i] == stats[i].value
  {
    seq(|stats|, i requires 0 <= i < |stats| => stats[i].value)
  }

  /** The snapshot is trusted: a watermark exists, the walk raised no
      `OSError`, it met as many files as were recorded, and none of them is
      as new as the recorded scan time. The last conjunct holds exactly when
      the scan time is positive and every mtime is below it. */
  predicate Trusted(lastScan: Option<(DateTime, int)>, timestamp: DateTime -> real,
                    walk: Result<seq<Option<real>>>)
  {
    && lastScan.Some? && walk.Ok? && AllStated(walk.value)
    && |walk.value| == lastScan.value.1
    && Newest(Mtimes(walk.value)) < timestamp(lastScan.value.0)
  }

  /** The newest-mtime test is "every file is older than the scan", except
      that a scan time at or before the epoch is never trusted. */
  lemma {:induction false} NewestBelow(mtimes: seq<real>, t: real)
    ensures Newest(mtimes) < t <==> t > 0.0 && forall i :: 0 <= i < |mtimes| ==> mtimes[i] < t
  {
    if Newest(mtimes) != 0.0 {
      var i :| 0 <= i < |mtimes| && mtimes[i] == Newest(mtimes);
    }
  }

  /** The watermark check that decides `use_cache_only`. */
  method UseCacheOnly(lastScan: Option<(DateTime, int)>, timestamp: DateTime -> real,
                      walk: Result<seq<Option<real>>>)
    returns (trusted: bool)
    ensures trusted <==> Trusted(lastScan, timestamp, walk)
  {
    if lastScan.None? || walk.Raised? {
      return false;
    }
    var lastScanTime := lastScan.value.0;
    var cachedFileCount := lastScan.value.1;
    var stats := walk.value;
    var newest := 0.0;
    var fileCount := 0;
    var i := 0;
    while i < |stats|
      invariant 0 <= i <= |stats| && fileCount == i
      invariant AllStated(stats[..i])
      invariant newest == Newest(Mtimes(stats[..i]))
    {
      if stats[i].None? {
        return false;
      }
      assert Mtimes(stats[..i + 1])[..i] == Mtimes(stats[..i]);
      fileCount := fileCount + 1;
      var mtime := stats[i].value;
      if mtime > newest {
        newest := mtime;
      }
      i := i + 1;
    }
    assert stats[..i] == stats;
    trusted := fileCount == cachedFileCount && newest < timestamp(lastScanTime);
  }

  // ------------------------------------------------------- verify and patch

  /** One file of the walk: its path relative to the output directory, what
      its `stat` returned (size and mtime, or `None` when it raised), and
      what hashing it meets. */
  datatype DirFile = DirFile(relPath: string, stat: Option<(nat, real)>, probe: DirectoryScanner.FileProbe)

  function AbsReal(x: real): real
  {
    if x < 0.0 then -x else x
  }

  /** The cached key of a file is reused: the path is cached with the same
      size and an mtime less than a second away. */
  predicate Reusable(cached: map<string, Cache.DirRow>, f: DirFile)
    requires f.stat.Some?
  {
    && f.relPath in cached
    && cached[f.relPath].fileSize == f.stat.value.0
    && AbsReal(cached[f.relPath].fileMtime - f.stat.value.1) < 1.0
  }

  /** The files whose `stat` returned. */
  function Stated(files: seq<DirFile>): (r: seq<DirFile>)
    ensures forall f :: f in r <==> f in files && f.stat.Some?
  {
    if files == [] then []
    else
      var f := files[|files| - 1];
      Stated(files[..|files| - 1]) + (if f.stat.Some? then [f] else [])
  }

  /** The files whose cached key is reused, in walk order. */
  function Reused(cached: map<string, Cache.DirRow>, files: seq<DirFile>): (r: seq<DirFile>)
    ensures forall f :: f in r <==> f in files && f.stat.Some? && Reusable(cached, f)
  {
    if files == [] then []
    else
      var f := files[|files| - 1];
      Reused(cached, files[..|files| - 1]) + (if f.stat.Some? && Reusable(cached, f) then [f] else [])
  }

  /** The files queued for hashing (`files_to_hash`), in walk order. */
  function Queued(cached: map<string, Cache.DirRow>, files: seq<DirFile>): (r: seq<DirFile>)
    ensures forall f :: f in r <==> f in files && f.stat.Some? && !Reusable(cached, f)
  {
    if files == [] then []
    else
      var f := files[|files| - 1];
      Queued(cached, files[..|files| - 1]) + (if f.stat.Some? && !Reusable(cached, f) then [f] else [])
  }

  /** A three-way multiset step. */
  lemma SplitStep3<T>(a: multiset<T>, b: multiset<T>, c: multiset<T>, x: T, inA: bool, inB: bool)
    requires a + b == c
    ensures a + multiset(if inA && inB then [x] else []) + (b + multiset(if inA && !inB then [x] else []))
         == c + multiset(if inA then [x] else [])
  {
  }

  /** Reused and queued files partition the files whose `stat` returned. */
  lemma {:induction false} ReusedQueuedPartition(cached: map<string, Cache.DirRow>, files: seq<DirFile>)
    ensures multiset(Reused(cached, files)) + multiset(Queued(cached, files)) == multiset(Stated(files))
  {
    if files != [] {
      var init := files[..|files| - 1];
      var f := files[|files| - 1];
      ReusedQueuedPartition(cached, init);
      SplitStep3(multiset(Reused(cached, init)), multiset(Queued(cached, init)), multiset(Stated(init)), f,
                 f.stat.Some?, f.stat.Some? && Reusable(cached, f));
    }
  }

  /** The paths handed to `scan_files`. */
  function QueuedPaths(queued: seq<DirFile>): (r: seq<(string, DirectoryScanner.FileProbe)>)
    ensures |r| == |queued| && forall i :: 0 <= i < |queued| ==> r[i] == (queued[i].relPath, queued[i].probe)
  {
    seq(|queued|, i requires 0 <= i < |queued| => (queued[i].relPath, queued[i].probe))
  }

  /** `existing_by_size[size].add(key)` over a sequence of (size, key) pairs. */
  function Index(pairs: seq<(int, string)>): (idx: map<int, set<string>>)
    ensures forall s :: s in idx ==> idx[s] != {}
    ensures forall s, k :: s in idx && k in idx[s] <==> (s, k) in pairs
  {
    if pairs == [] then map[]
    else
      var m := Index(pairs[..|pairs| - 1]);
      var p := pairs[|pairs| - 1];
      var keys := if p.0 in m then m[p.0] else {};
      assert pairs == pairs[..|pairs| - 1] + [p];
      m[p.0 := keys + {p.1}]
  }

  /** The (size, cached key) pairs of the reused files. */
  function ReusedPairs(cached: map<string, Cache.DirRow>, reused: seq<DirFile>): (r: seq<(int, string)>)
    requires forall i :: 0 <= i < |reused| ==> reused[i].stat.Some? && reused[i].relPath in cached
    ensures |r| == |reused|
  {
    seq(|reused|, i requires 0 <= i < |reused| => (reused[i].stat.value.0 as int, cached[reused[i].relPath].contentKey))
  }

  /** The (size, key) pairs of the newly hashed files. */
  function SizeKeyPairs(hashed: seq<DirectoryScanner.DirectoryFileInfo>): (r: seq<(int, string)>)
    ensures |r| == |hashed| && forall i :: 0 <= i < |hashed| ==>
      r[i] == (hashed[i].fileSize as int, DirectoryScanner.ContentKey(hashed[i]))
  {
    seq(|hashed|, i requires 0 <= i < |hashed| => (hashed[i].fileSize as int, DirectoryScanner.ContentKey(hashed[i])))
  }

  /** `new_cache_entries`: path, size, mtime and key of each newly hashed file. */
  function HashedRows(hashed: seq<DirectoryScanner.DirectoryFileInfo>): (r: seq<(string, int, real, string)>)
    ensures |r| == |hashed| && forall i :: 0 <= i < |hashed| ==>
      r[i] == (hashed[i].filePath, hashed[i].fileSize as int, hashed[i].mtime, DirectoryScanner.ContentKey(hashed[i]))
  {
    seq(|hashed|, i requires 0 <= i < |hashed| =>
      (hashed[i].filePath, hashed[i].fileSize as int, hashed[i].mtime, DirectoryScanner.ContentKey(hashed[i])))
  }

  /** What `scan_files(files_to_hash)` returns with its progress display on:
      the records of the queued files that could be read, in completion order. */
  function Hashed(completed: seq<(string, DirectoryScanner.FileProbe)>, sha: seq<byte> -> DirectoryScanner.HexDigest,
                 crc: seq<byte> -> nat): seq<DirectoryScanner.DirectoryFileInfo>
  {
    DirectoryScanner.Successes("size_partial", completed, sha, crc)
  }

  /** The walk loop: reuse cached keys, queue the rest. */
  method Triage(cached: map<string, Cache.DirRow>, files: seq<DirFile>)
    returns (reused: seq<DirFile>, queued: seq<DirFile>)
    ensures reused == Reused(cached, files) && queued == Queued(cached, files)
  {
    reused, queued := [], [];
    var i := 0;
    while i < |files|
      invariant 0 <= i <= |files|
      invariant reused == Reused(cached, files[..i]) && queued == Queued(cached, files[..i])
    {
      assert files[..i + 1][..i] == files[..i];
      var f := files[i];
      if f.stat.Some? {
        if Reusable(cached, f) {
          reused := reused + [f];
        } else {
          queued := queued + [f];
        }
      }
      i := i + 1;
    }
    assert files[..i] == files;
  }

  /** The keys gathered into `existing_by_size`. */
  method IndexKeys(pairs: seq<(int, string)>) returns (idx: map<int, set<string>>)
    ensures idx == Index(pairs)
  {
    idx := map[];
    var i := 0;
    while i < |pairs|
      invariant 0 <= i <= |pairs|
      invariant idx == Index(pairs[..i])
    {
      IndexStep(pairs, i);
      var keys := if pairs[i].0 in idx then idx[pairs[i].0] else {};
      idx := idx[pairs[i].0 := keys + {pairs[i].1}];
      i := i + 1;
    }
    assert pairs[..i] == pairs;
  }

  /** One more pair adds its key to the set of its size. */
  lemma IndexStep(pairs: seq<(int, string)>, i: nat)
    requires i < |pairs|
    ensures var m := Index(pairs[..i]);
      Index(pairs[..i + 1]) == m[pairs[i].0 := (if pairs[i].0 in m then m[pairs[i].0] else {}) + {pairs[i].1}]
  {
    assert pairs[..i + 1][..i] == pairs[..i];
  }

  /** The verify-and-patch pass of an untrusted snapshot. Reused keys and the
      keys of the newly hashed files form `existing_by_size`; the hashed
      records are bulk-written to the cache and the watermark is set to the
      number of files walked, whether or not they could be hashed. */
  method VerifyAndPatch(cache: Cache.TakeoutCache, dir: string, files: seq<DirFile>,
                        completed: seq<(string, DirectoryScanner.FileProbe)>, now: string,
                        sha: seq<byte> -> DirectoryScanner.HexDigest, crc: seq<byte> -> nat)
    returns (existingBySize: map<int, set<string>>)
    requires multiset(completed) == multiset(QueuedPaths(Queued(cache.GetDirectoryFiles(dir), files)))
    modifies cache
    ensures var cached := old(cache.GetDirectoryFiles(dir));
      existingBySize == Index(ReusedPairs(cached, Reused(cached, files)) + SizeKeyPairs(Hashed(completed, sha, crc)))
    ensures cache.directoryFiles
         == if old(cache.open) then Cache.PutFiles(old(cache.directoryFiles), dir, HashedRows(Hashed(completed, sha, crc)))
            else old(cache.directoryFiles)
    ensures cache.directoryScans
         == if old(cache.open) then old(cache.directoryScans)[dir := Cache.ScanRow(now, |files|)]
            else old(cache.directoryScans)
    ensures cache.open == old(cache.open) && cache.pending == old(cache.pending)
    ensures cache.fileDates == old(cache.fileDates)
  {
    var cached := cache.GetDirectoryFiles(dir);
    var reused, queued := Triage(cached, files);
    var hashed: seq<DirectoryScanner.DirectoryFileInfo> := [];
    if queued != [] {
      hashed := DirectoryScanner.ScanFiles("size_partial", QueuedPaths(queued), true, completed, sha, crc);
      if HashedRows(hashed) != [] {
        cache.SetDirectoryFilesBulk(dir, HashedRows(hashed));
      }
    } else {
      assert completed == [];
    }
    existingBySize := IndexKeys(ReusedPairs(cached, reused) + SizeKeyPairs(hashed));
    cache.SetDirectoryLastScan(dir, |files|, now);
  }

  /** A recorded file that the walk no longer meets keeps its row, so the
      trusted path (`get_directory_content_keys`) still offers its key at its
      size: the patch never removes records of deleted files. */
  lemma DeletedFileStaysIndexed(m: map<(string, string), Cache.DirRow>, dir: string, files: seq<DirFile>,
                                completed: seq<(string, DirectoryScanner.FileProbe)>,
                                sha: seq<byte> -> DirectoryScanner.HexDigest, crc: seq<byte> -> nat, rel: string)
    requires (dir, rel) in m
    requires forall i :: 0 <= i < |files| ==> files[i].relPath != rel
    requires multiset(completed) == multiset(QueuedPaths(Queued(Cache.DirFiles(m, dir), files)))
    ensures var r := Cache.PutFiles(m, dir, HashedRows(Hashed(completed, sha, crc)));
      var idx := Cache.KeysBySize(r, dir, r.Keys);
      m[(dir, rel)].fileSize in idx && m[(dir, rel)].contentKey in idx[m[(dir, rel)].fileSize]
  {
    var hashed := Hashed(completed, sha, crc);
    var rows := HashedRows(hashed);
    var queued := Queued(Cache.DirFiles(m, dir), files);
    forall i | 0 <= i < |rows| ensures rows[i].0 != rel {
      assert hashed[i] in hashed;
      DirectoryScanner.SuccessesMember("size_partial", completed, sha, crc, hashed[i]);
      var x :| x in completed && DirectoryScanner.Probe("size_partial", x.0, x.1, sha, crc) == Some(hashed[i]);
      assert x in multiset(QueuedPaths(queued));
      var j :| 0 <= j < |queued| && QueuedPaths(queued)[j] == x;
      assert queued[j] in files;
    }
    var r := Cache.PutFiles(m, dir, rows);
    Cache.PutFilesLastWins(m, dir, rows, (dir, rel));
    var row := m[(dir, rel)];
    assert rel in Cache.DirFiles(r, dir);
    Cache.KeysBySizeAgrees(r, dir, row.fileSize, row.contentKey);
  }

  // ------------------------------------------------------ originals to extract

  /** `Path(proposed).parts[0]` exists: the proposal is absolute or has a component. */
  predicate HasFirstPart(proposed: string)
  {
    Parse(proposed).absolute || |Parse(proposed).parts| >= 1
  }

  /** `output_dir / Path(proposed).relative_to(Path(proposed).parts[0])`: the
      proposal without its first component (its root, when absolute), under
      the output directory. */
  function Dest(outputDir: PurePath, proposed: string): (p: PurePath)
    requires HasFirstPart(proposed)
  {
    var q := Parse(proposed);
    PurePath(outputDir.absolute, outputDir.parts + (if q.absolute then q.parts else q.parts[1..]))
  }

  /** A proposal made under a one-component base lands in the output
      directory's `YYYY/MM/name`: the base directory is dropped. */
  lemma DestOfProposal(outputDir: PurePath, f: ZipFileInfo, d: DateTime, baseDir: string)
    requires Organizer.ValidDate(d) && IsPart(baseDir)
    ensures var proposed := Organizer.ProposeLocation(f, d, baseDir);
      HasFirstPart(proposed)
      && Dest(outputDir, proposed)
         == PurePath(outputDir.absolute, outputDir.parts + [Organizer.YearText(d), Organizer.MonthText(d)]
                                         + Organizer.NamePart(f))
  {
    var proposed := Organizer.ProposeLocation(f, d, baseDir);
    var ym, name := [Organizer.YearText(d), Organizer.MonthText(d)], Organizer.NamePart(f);
    var q := Parse(proposed);
    assert q == PurePath(false, [baseDir] + (ym + name)) by {
      ParsePart(baseDir);
      assert [baseDir] + ym + name == [baseDir] + (ym + name);
    }
    assert q.parts[1..] == ym + name;
    assert outputDir.parts + (ym + name) == outputDir.parts + ym + name;
  }

  /** What step 5 looks at: the proposed locations, the keys already in the
      output directory by size, whether each archive opens, what reading a
      file from its archive gives, the SHA-256 digest and the output directory. */
  datatype Plan = Plan(proposed: map<ZipFileInfo, string>, existingBySize: map<int, set<string>>,
                       opens: string -> bool, read: ZipFileInfo -> Result<seq<byte>>,
                       sha: seq<byte> -> DirectoryScanner.HexDigest, outputDir: PurePath)

  /** The proposals can all be turned into destinations. */
  predicate Destinable(plan: Plan)
  {
    forall f :: f in plan.proposed ==> HasFirstPart(plan.proposed[f])
  }

  /** The partial key computed inline from an archive member's bytes:
      `f"{len(content)}_{sha256(windows)[:16]}"`. */
  function InlinePartialKey(content: seq<byte>, sha: seq<byte> -> DirectoryScanner.HexDigest): string
  {
    DirectoryScanner.PartialKey(|content|, sha(Comparator.ZipPartialSample(content, |content|)))
  }

  /** The inline key is the key the `size_partial` directory scan gives the
      same bytes once they are written to disk. */
  lemma InlineKeyMatchesScan(content: seq<byte>, sha: seq<byte> -> DirectoryScanner.HexDigest,
                             crc: seq<byte> -> nat)
    ensures InlinePartialKey(content, sha)
         == DirectoryScanner.FileHash(DirectoryScanner.Partial, content, |content|, sha, crc)
  {
    Comparator.ZipWindowsMatchDirectory(content);
  }

  datatype Decision = NoLocation | Extract | AlreadyPresent

  /** What step 5 does with the first file of a group. Without a proposed
      location it is left alone; with no existing file of its size it is
      extracted; otherwise it is already present iff its inline partial key is
      among the keys at its size, and any archive or read failure means it is
      extracted. */
  function Decide(f: ZipFileInfo, plan: Plan): Decision
  {
    if f !in plan.proposed then NoLocation
    else if f.fileSize !in plan.existingBySize then Extract
    else if !plan.opens(f.zipPath) || plan.read(f).Raised? then Extract
    else if InlinePartialKey(plan.read(f).value, plan.sha) in plan.existingBySize[f.fileSize] then AlreadyPresent
    else Extract
  }

  /** Every group of `hash_map` has a first file. */
  predicate NonEmptyGroups(t: Table<string, ZipFileInfo>)
  {
    forall i :: 0 <= i < |t| ==> t[i].1 != []
  }

  /** `file_list[0]` of each group, in group order (`original_files`). */
  function Firsts(t: Table<string, ZipFileInfo>): (r: seq<ZipFileInfo>)
    requires NonEmptyGroups(t)
    ensures |r| == |t| && forall i :: 0 <= i < |t| ==> r[i] == t[i].1[0]
  {
    seq(|t|, i requires 0 <= i < |t| && NonEmptyGroups(t) => t[i].1[0])
  }

  /** The first-pass list `needs_hash_check`: the firsts with a location and
      with existing files of their size. */
  function NeedsCheck(firsts: seq<ZipFileInfo>, plan: Plan): (r: seq<ZipFileInfo>)
    ensures forall f :: f in r <==> f in firsts && f in plan.proposed && f.fileSize in plan.existingBySize
  {
    if firsts == [] then []
    else
      var f := firsts[|firsts| - 1];
      NeedsCheck(firsts[..|firsts| - 1], plan)
      + (if f in plan.proposed && f.fileSize in plan.existingBySize then [f] else [])
  }

  /** How many files of the sequence get decision `d`. */
  function CountDecided(fs: seq<ZipFileInfo>, plan: Plan, d: Decision): (n: nat)
    ensures n <= |fs|
  {
    if fs == [] then 0
    else CountDecided(fs[..|fs| - 1], plan, d) + (if Decide(fs[|fs| - 1], plan) == d then 1 else 0)
  }

  /** The files of the sequence that get decision `d`. */
  function Decided(fs: seq<ZipFileInfo>, plan: Plan, d: Decision): (r: set<ZipFileInfo>)
    ensures forall f :: f in r <==> f in fs && Decide(f, plan) == d
  {
    if fs == [] then {}
    else
      var f := fs[|fs| - 1];
      assert fs == fs[..|fs| - 1] + [f];
      Decided(fs[..|fs| - 1], plan, d) + (if Decide(f, plan) == d then {f} else {})
  }

  /** Filtering out files that cannot be already present keeps the count of those that are. */
  lemma {:induction false} CountAlreadyInNeedsCheck(firsts: seq<ZipFileInfo>, plan: Plan)
    ensures CountDecided(NeedsCheck(firsts, plan), plan, AlreadyPresent) == CountDecided(firsts, plan, AlreadyPresent)
  {
    if firsts != [] {
      var init := firsts[..|firsts| - 1];
      var f := firsts[|firsts| - 1];
      CountAlreadyInNeedsCheck(init, plan);
      var tail := if f in plan.proposed && f.fileSize in plan.existingBySize then [f] else [];
      var one := if Decide(f, plan) == AlreadyPresent then 1 else 0;
      assert NeedsCheck(firsts, plan) == NeedsCheck(init, plan) + tail;
      assert CountDecided(firsts, plan, AlreadyPresent) == CountDecided(init, plan, AlreadyPresent) + one;
      assert CountDecided(tail, plan, AlreadyPresent) == one by {
        if tail != [] {
          assert tail[..0] == [];
        }
      }
      CountAppend(NeedsCheck(init, plan), tail, plan, AlreadyPresent);
    }
  }

  lemma {:induction false} CountAppend(a: seq<ZipFileInfo>, b: seq<ZipFileInfo>, plan: Plan, d: Decision)
    ensures CountDecided(a + b, plan, d) == CountDecided(a, plan, d) + CountDecided(b, plan, d)
    decreases |b|
  {
    if b != [] {
      assert (a + b)[..|a + b| - 1] == a + b[..|b| - 1];
      assert (a + b)[|a + b| - 1] == b[|b| - 1];
      CountAppend(a, b[..|b| - 1], plan, d);
    } else {
      assert a + b == a;
    }
  }

  /** First pass: extract the firsts with no existing file of their size,
      queue the others that have a location. */
  method FirstPass(hashMap: Table<string, ZipFileInfo>, plan: Plan)
    returns (unique: map<ZipFileInfo, PurePath>, needsHashCheck: seq<ZipFileInfo>)
    requires NonEmptyGroups(hashMap) && Destinable(plan)
    ensures needsHashCheck == NeedsCheck(Firsts(hashMap), plan)
    ensures forall f :: f in unique <==> (f in Firsts(hashMap) && f in plan.proposed
                                           && f.fileSize !in plan.existingBySize)
    ensures forall f :: f in unique ==> unique[f] == Dest(plan.outputDir, plan.proposed[f])
  {
    var firsts := Firsts(hashMap);
    unique, needsHashCheck := map[], [];
    var i := 0;
    while i < |hashMap|
      invariant 0 <= i <= |hashMap|
      invariant needsHashCheck == NeedsCheck(firsts[..i], plan)
      invariant forall f :: f in unique <==> (f in firsts[..i] && f in plan.proposed
                                               && f.fileSize !in plan.existingBySize)
      invariant forall f :: f in unique ==> unique[f] == Dest(plan.outputDir, plan.proposed[f])
    {
      assert firsts[..i + 1][..i] == firsts[..i];
      assert firsts[..i + 1] == firsts[..i] + [firsts[i]];
      var firstFile := hashMap[i].1[0];
      if firstFile in plan.proposed {
        if firstFile.fileSize !in plan.existingBySize {
          unique := unique[firstFile := Dest(plan.outputDir, plan.proposed[firstFile])];
        } else {
          needsHashCheck := needsHashCheck + [firstFile];
        }
      }
      i := i + 1;
    }
    assert firsts[..i] == firsts;
  }

  /** Reading one queued file and comparing its inline key; a failure to
      open its archive or to read it means it is extracted. */
  method CheckOne(fileInfo: ZipFileInfo, plan: Plan) returns (d: Decision)
    requires fileInfo in plan.proposed && fileInfo.fileSize in plan.existingBySize
    ensures d == Decide(fileInfo, plan) && d != NoLocation
  {
    if !plan.opens(fileInfo.zipPath) {
      return Extract;
    }
    var content := plan.read(fileInfo);
    if content.Raised? {
      return Extract;
    }
    var partialHash := InlinePartialKey(content.value, plan.sha);
    d := if partialHash in plan.existingBySize[fileInfo.fileSize] then AlreadyPresent else Extract;
  }

  /** The proposals of the files can all be turned into destinations. */
  predicate Located(fs: seq<ZipFileInfo>, plan: Plan)
  {
    Destinable(plan) && forall f :: f in fs ==> f in plan.proposed
  }

  /** `unique_files` after the second pass over `fs`. */
  function SecondUnique(fs: seq<ZipFileInfo>, plan: Plan, unique0: map<ZipFileInfo, PurePath>)
    : map<ZipFileInfo, PurePath>
    requires Located(fs, plan)
  {
    if fs == [] then unique0
    else
      var f := fs[|fs| - 1];
      var u := SecondUnique(fs[..|fs| - 1], plan, unique0);
      if Decide(f, plan) == AlreadyPresent then u else u[f := Dest(plan.outputDir, plan.proposed[f])]
  }

  /** `already_extracted_files` after the second pass over `fs`. */
  function SecondAlready(fs: seq<ZipFileInfo>, plan: Plan): set<ZipFileInfo>
  {
    if fs == [] then {}
    else
      var f := fs[|fs| - 1];
      SecondAlready(fs[..|fs| - 1], plan) + (if Decide(f, plan) == AlreadyPresent then {f} else {})
  }

  lemma {:induction false} SecondUniqueMembers(fs: seq<ZipFileInfo>, plan: Plan, unique0: map<ZipFileInfo, PurePath>)
    requires Located(fs, plan)
    requires forall f :: f in fs ==> Decide(f, plan) != NoLocation
    ensures forall f :: f in SecondUnique(fs, plan, unique0)
                    <==> f in unique0 || (f in fs && Decide(f, plan) == Extract)
  {
    if fs != [] {
      SecondUniqueMembers(fs[..|fs| - 1], plan, unique0);
      assert fs == fs[..|fs| - 1] + [fs[|fs| - 1]];
    }
  }

  lemma {:induction false} SecondUniqueDests(fs: seq<ZipFileInfo>, plan: Plan, unique0: map<ZipFileInfo, PurePath>)
    requires Located(fs, plan)
    requires forall f :: f in unique0 ==> f in plan.proposed && unique0[f] == Dest(plan.outputDir, plan.proposed[f])
    ensures forall f :: f in SecondUnique(fs, plan, unique0) ==>
      f in plan.proposed && SecondUnique(fs, plan, unique0)[f] == Dest(plan.outputDir, plan.proposed[f])
  {
    if fs != [] {
      SecondUniqueDests(fs[..|fs| - 1], plan, unique0);
    }
  }

  lemma {:induction false} SecondAlreadyMembers(fs: seq<ZipFileInfo>, plan: Plan)
    ensures forall f :: f in SecondAlready(fs, plan) <==> f in fs && Decide(f, plan) == AlreadyPresent
  {
    if fs != [] {
      SecondAlreadyMembers(fs[..|fs| - 1], plan);
      assert fs == fs[..|fs| - 1] + [fs[|fs| - 1]];
    }
  }

  /** Second pass: read each queued file from its archive and compare its
      inline partial key with the keys at its size. */
  method SecondPass(needsHashCheck: seq<ZipFileInfo>, plan: Plan, unique0: map<ZipFileInfo, PurePath>)
    returns (unique: map<ZipFileInfo, PurePath>, already: set<ZipFileInfo>, alreadyCount: nat)
    requires Located(needsHashCheck, plan)
    requires forall f :: f in needsHashCheck ==> f.fileSize in plan.existingBySize
    ensures unique == SecondUnique(needsHashCheck, plan, unique0)
    ensures already == SecondAlready(needsHashCheck, plan)
    ensures alreadyCount == CountDecided(needsHashCheck, plan, AlreadyPresent)
  {
    unique, already, alreadyCount := unique0, {}, 0;
    var i := 0;
    while i < |needsHashCheck|
      invariant 0 <= i <= |needsHashCheck|
      invariant unique == SecondUnique(needsHashCheck[..i], plan, unique0)
      invariant already == SecondAlready(needsHashCheck[..i], plan)
      invariant alreadyCount == CountDecided(needsHashCheck[..i], plan, AlreadyPresent)
    {
      var fileInfo := needsHashCheck[i];
      assert needsHashCheck[..i + 1][..i] == needsHashCheck[..i];
      var d := CheckOne(fileInfo, plan);
      if d == AlreadyPresent {
        alreadyCount := alreadyCount + 1;
        already := already + {fileInfo};
      } else {
        unique := unique[fileInfo := Dest(plan.outputDir, plan.proposed[fileInfo])];
      }
      i := i + 1;
    }
    assert needsHashCheck[..i] == needsHashCheck;
  }

  /** The branch taken when the output directory holds nothing: every first
      file with a location is extracted. */
  method AllWithLocation(hashMap: Table<string, ZipFileInfo>, plan: Plan)
    returns (unique: map<ZipFileInfo, PurePath>)
    requires NonEmptyGroups(hashMap) && Destinable(plan)
    ensures forall f :: f in unique <==> f in Firsts(hashMap) && f in plan.proposed
    ensures forall f :: f in unique ==> unique[f] == Dest(plan.outputDir, plan.proposed[f])
  {
    var firsts := Firsts(hashMap);
    unique := map[];
    var i := 0;
    while i < |hashMap|
      invariant 0 <= i <= |hashMap|
      invariant forall f :: f in unique <==> f in firsts[..i] && f in plan.proposed
      invariant forall f :: f in unique ==> unique[f] == Dest(plan.outputDir, plan.proposed[f])
    {
      assert firsts[..i + 1] == firsts[..i] + [firsts[i]];
      var firstFile := hashMap[i].1[0];
      if firstFile in plan.proposed {
        unique := unique[firstFile := Dest(plan.outputDir, plan.proposed[firstFile])];
      }
      i := i + 1;
    }
    assert firsts[..i] == firsts;
  }

  /** With nothing in the output directory, nothing is already present. */
  lemma {:induction false} NothingPresent(fs: seq<ZipFileInfo>, plan: Plan)
    requires |plan.existingBySize| == 0
    ensures CountDecided(fs, plan, AlreadyPresent) == 0
  {
    if fs != [] {
      NothingPresent(fs[..|fs| - 1], plan);
    }
  }

  /** Step 5: `unique_files`, `already_extracted_files` and
      `already_extracted_count`. A first file is extracted or already present
      exactly as `Decide` says, and is sent to its destination. */
  method SelectOriginals(hashMap: Table<string, ZipFileInfo>, plan: Plan)
    returns (unique: map<ZipFileInfo, PurePath>, already: set<ZipFileInfo>, alreadyCount: nat)
    requires NonEmptyGroups(hashMap) && Destinable(plan)
    ensures unique.Keys == Decided(Firsts(hashMap), plan, Extract)
    ensures forall f :: f in unique ==> unique[f] == Dest(plan.outputDir, plan.proposed[f])
    ensures already == Decided(Firsts(hashMap), plan, AlreadyPresent)
    ensures alreadyCount == CountDecided(Firsts(hashMap), plan, AlreadyPresent)
  {
    if |plan.existingBySize| > 0 {
      unique, already, alreadyCount := CheckAgainstExisting(hashMap, plan);
    } else {
      var firsts := Firsts(hashMap);
      unique := AllWithLocation(hashMap, plan);
      already, alreadyCount := {}, 0;
      NothingPresent(firsts, plan);
      assert unique.Keys == Decided(firsts, plan, Extract);
      assert already == Decided(firsts, plan, AlreadyPresent);
    }
  }

  /** The branch of the selection taken when the output directory already
      holds files: the size filter, then the hash check. */
  method CheckAgainstExisting(hashMap: Table<string, ZipFileInfo>, plan: Plan)
    returns (unique: map<ZipFileInfo, PurePath>, already: set<ZipFileInfo>, alreadyCount: nat)
    requires NonEmptyGroups(hashMap) && Destinable(plan) && |plan.existingBySize| > 0
    ensures unique.Keys == Decided(Firsts(hashMap), plan, Extract)
    ensures forall f :: f in unique ==> unique[f] == Dest(plan.outputDir, plan.proposed[f])
    ensures already == Decided(Firsts(hashMap), plan, AlreadyPresent)
    ensures alreadyCount == CountDecided(Firsts(hashMap), plan, AlreadyPresent)
  {
    var firsts := Firsts(hashMap);
    var unique0, needsHashCheck := FirstPass(hashMap, plan);
    unique, already, alreadyCount := SecondPass(needsHashCheck, plan, unique0);
    SecondUniqueMembers(needsHashCheck, plan, unique0);
    SecondUniqueDests(needsHashCheck, plan, unique0);
    SecondAlreadyMembers(needsHashCheck, plan);
    CountAlreadyInNeedsCheck(firsts, plan);
    assert unique.Keys == Decided(firsts, plan, Extract);
    assert already == Decided(firsts, plan, AlreadyPresent);
  }

  /** Every first file gets exactly one of the three decisions. */
  lemma {:induction false} DecisionsCover(fs: seq<ZipFileInfo>, plan: Plan)
    ensures CountDecided(fs, plan, NoLocation) + CountDecided(fs, plan, Extract)
            + CountDecided(fs, plan, AlreadyPresent) == |fs|
  {
    if fs != [] {
      DecisionsCover(fs[..|fs| - 1], plan);
    }
  }

  predicate Distinct(fs: seq<ZipFileInfo>)
  {
    forall i, j :: 0 <= i < j < |fs| ==> fs[i] != fs[j]
  }

  /** Over distinct files, counting a decision and collecting it agree. */
  lemma {:induction false} CountIsCardinality(fs: seq<ZipFileInfo>, plan: Plan, d: Decision)
    requires Distinct(fs)
    ensures |Decided(fs, plan, d)| == CountDecided(fs, plan, d)
  {
    if fs != [] {
      var init := fs[..|fs| - 1];
      var f := fs[|fs| - 1];
      CountIsCardinality(init, plan, d);
      assert f !in init;
    }
  }

  /** `duplicate_count = len(files) - len(unique_files) - already_extracted_count`.
      With distinct originals, the extracted and already-present sets are
      disjoint, and the count is every non-first file plus every original
      that has no proposed location: undated originals are reported as
      duplicates. */
  lemma DuplicateCount(hashMap: Table<string, ZipFileInfo>, plan: Plan)
    requires NonEmptyGroups(hashMap) && Distinct(Firsts(hashMap))
    ensures var firsts := Firsts(hashMap);
      && Decided(firsts, plan, Extract) !! Decided(firsts, plan, AlreadyPresent)
      && |Flatten(hashMap)| - |Decided(firsts, plan, Extract)| - CountDecided(firsts, plan, AlreadyPresent)
         == (|Flatten(hashMap)| - |hashMap|) + CountDecided(firsts, plan, NoLocation)
  {
    var firsts := Firsts(hashMap);
    CountIsCardinality(firsts, plan, Extract);
    DecisionsCover(firsts, plan);
  }

  // ------------------------------------------------------------- zip_stats

  /** `original_files` and `duplicate_files`: first and later members of the groups. */
  method SplitOriginals(hashMap: Table<string, ZipFileInfo>)
    returns (originals: set<ZipFileInfo>, duplicates: set<ZipFileInfo>)
    requires NonEmptyGroups(hashMap)
    ensures forall f :: f in originals <==> f in Firsts(hashMap)
    ensures forall f :: f in duplicates <==> exists i :: 0 <= i < |hashMap| && f in hashMap[i].1[1..]
  {
    var firsts := Firsts(hashMap);
    originals, duplicates := {}, {};
    var i := 0;
    while i < |hashMap|
      invariant 0 <= i <= |hashMap|
      invariant forall f :: f in originals <==> f in firsts[..i]
      invariant forall f :: f in duplicates <==> exists k :: 0 <= k < i && f in hashMap[k].1[1..]
    {
      assert firsts[..i + 1] == firsts[..i] + [firsts[i]];
      var fileList := hashMap[i].1;
      originals := originals + {fileList[0]};
      var j := 1;
      while j < |fileList|
        invariant 1 <= j <= |fileList|
        invariant forall f :: f in duplicates <==>
          (exists k :: 0 <= k < i && f in hashMap[k].1[1..]) || f in fileList[1..j]
      {
        assert fileList[1..j + 1] == fileList[1..j] + [fileList[j]];
        duplicates := duplicates + {fileList[j]};
        j := j + 1;
      }
      assert fileList[1..j] == hashMap[i].1[1..];
      i := i + 1;
    }
    assert firsts[..i] == firsts;
  }

  /** One archive's entry of `zip_stats`. */
  datatype ZipStat = ZipStat(total: nat, needsExtraction: nat, alreadyExtracted: nat, duplicates: nat,
                             isRedundant: bool, isFullyExtracted: bool)

  /** `[f for f in files if f.zip_path == zip_path]`. */
  function InZip(files: seq<ZipFileInfo>, zipPath: string): (r: seq<ZipFileInfo>)
    ensures forall f :: f in r <==> f in files && f.zipPath == zipPath
  {
    if files == [] then []
    else
      var f := files[|files| - 1];
      InZip(files[..|files| - 1], zipPath) + (if f.zipPath == zipPath then [f] else [])
  }

  /** How many of the files are in `s`. */
  function CountIn(zs: seq<ZipFileInfo>, s: set<ZipFileInfo>): nat
  {
    if zs == [] then 0 else CountIn(zs[..|zs| - 1], s) + (if zs[|zs| - 1] in s then 1 else 0)
  }

  /** How many of the files are originals not already extracted. */
  function CountNeeds(zs: seq<ZipFileInfo>, originals: set<ZipFileInfo>, already: set<ZipFileInfo>): nat
  {
    if zs == [] then 0
    else CountNeeds(zs[..|zs| - 1], originals, already)
         + (if zs[|zs| - 1] in originals && zs[|zs| - 1] !in already then 1 else 0)
  }

  /** The `zip_stats` entry of one archive; the two flags are never both set. */
  function StatOf(files: seq<ZipFileInfo>, zipPath: string, originals: set<ZipFileInfo>,
                  already: set<ZipFileInfo>, duplicates: set<ZipFileInfo>): (r: ZipStat)
    ensures !(r.isRedundant && r.isFullyExtracted)
  {
    var zipFiles := InZip(files, zipPath);
    var needsExtraction := CountNeeds(zipFiles, originals, already);
    var alreadyInOutput := CountIn(zipFiles, already);
    var dupCount := CountIn(zipFiles, duplicates);
    ZipStat(|zipFiles|, needsExtraction, alreadyInOutput, dupCount,
            needsExtraction == 0 && dupCount > 0 && alreadyInOutput == 0,
            needsExtraction == 0 && alreadyInOutput > 0)
  }

  lemma {:induction false} CountInZero(zs: seq<ZipFileInfo>, s: set<ZipFileInfo>)
    ensures CountIn(zs, s) == 0 <==> forall f :: f in zs ==> f !in s
  {
    if zs != [] {
      CountInZero(zs[..|zs| - 1], s);
      assert zs == zs[..|zs| - 1] + [zs[|zs| - 1]];
    }
  }

  lemma {:induction false} CountNeedsZero(zs: seq<ZipFileInfo>, originals: set<ZipFileInfo>, already: set<ZipFileInfo>)
    ensures CountNeeds(zs, originals, already) == 0 <==> forall f :: f in zs && f in originals ==> f in already
  {
    if zs != [] {
      CountNeedsZero(zs[..|zs| - 1], originals, already);
      assert zs == zs[..|zs| - 1] + [zs[|zs| - 1]];
    }
  }

  /** What the flags mean. An archive is fully extracted iff every original
      in it is already in the output and at least one file is; it is
      redundant iff it holds no original at all and at least one duplicate. */
  lemma ZipFlags(files: seq<ZipFileInfo>, zipPath: string, originals: set<ZipFileInfo>,
                 already: set<ZipFileInfo>, duplicates: set<ZipFileInfo>)
    requires already <= originals
    ensures var r := StatOf(files, zipPath, originals, already, duplicates);
      var zs := InZip(files, zipPath);
      && (r.isFullyExtracted <==>
            (exists f :: f in zs && f in already) && forall f :: f in zs && f in originals ==> f in already)
      && (r.isRedundant <==>
            (exists f :: f in zs && f in duplicates) && forall f :: f in zs ==> f !in originals)
  {
    var zs := InZip(files, zipPath);
    CountInZero(zs, already);
    CountInZero(zs, duplicates);
    CountNeedsZero(zs, originals, already);
  }

  /** When originals and duplicates partition the files and the already
      extracted files are originals, an archive's counts add up to its total. */
  lemma {:induction false} ZipTotals(zs: seq<ZipFileInfo>, originals: set<ZipFileInfo>,
                                     already: set<ZipFileInfo>, duplicates: set<ZipFileInfo>)
    requires already <= originals && originals !! duplicates
    requires forall f :: f in zs ==> f in originals || f in duplicates
    ensures CountNeeds(zs, originals, already) + CountIn(zs, already) + CountIn(zs, duplicates) == |zs|
  {
    if zs != [] {
      ZipTotals(zs[..|zs| - 1], originals, already, duplicates);
    }
  }

  /** The archives the files come from. */
  function AllZips(files: seq<ZipFileInfo>): set<string>
  {
    set f | f in files :: f.zipPath
  }

  /** The `zip_stats` loop over every archive. */
  method ZipStats(files: seq<ZipFileInfo>, originals: set<ZipFileInfo>, already: set<ZipFileInfo>,
                  duplicates: set<ZipFileInfo>)
    returns (stats: map<string, ZipStat>)
    ensures stats.Keys == AllZips(files)
    ensures forall z :: z in stats ==> stats[z] == StatOf(files, z, originals, already, duplicates)
  {
    var allZips := AllZips(files);
    stats := map[];
    var todo := allZips;
    while todo != {}
      invariant todo <= allZips && stats.Keys == allZips - todo
      invariant forall z :: z in stats ==> stats[z] == StatOf(files, z, originals, already, duplicates)
      decreases |todo|
    {
      var zipPath :| zipPath in todo;
      stats := stats[zipPath := StatOf(files, zipPath, originals, already, duplicates)];
      todo := todo - {zipPath};
    }
  }
}
