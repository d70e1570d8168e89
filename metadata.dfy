/** `metadata.py`: choosing a date for every file. A file whose
    `(zip, path, size, crc)` is in the cache's bulk map takes the cached
    date; every other file is dated from its own archive, trying the Google
    Takeout JSON sidecar, then EXIF (images only), then the zip metadata
    date, then the archive's modification time.

    Reading an archive is the value `Archive`: the entry names in archive
    order, the date a JSON member yields (`photoTakenTime.timestamp`, or
    None when the member is unreadable, is not JSON or lacks the field), and
    the EXIF date of a member (None when PIL finds none). `None` for the
    archive stands for a `zipfile.ZipFile` that raises on opening. The
    archive's `st_mtime` as a local date is the parameter `mtime`. */
module Metadata {
  import opened Base
  import opened Text
  import opened Paths
  import opened Groups
  import opened Scanner
  import Cache

  /** `EXIF_EXTENSIONS`. */
  const ExifExtensions: set<string> := {".jpg", ".jpeg", ".tiff", ".tif"}

  /** Sidecar names are matched on the first 40 characters of long names. */
  const SidecarPrefixLength: nat := 40

  datatype Archive = Archive(
    names: seq<string>,
    sidecar: string -> Option<DateTime>,
    exif: string -> Option<DateTime>)

  datatype DateSource = Json | Exif | ZipMeta | Fallback

  // ------------------------------------------------------------- sidecars

  /** `json_files_in_zip`: the entry names ending in ".json", in archive order. */
  function JsonNames(names: seq<string>): (r: seq<string>)
    ensures forall j :: 0 <= j < |r| ==> EndsWith(r[j], ".json")
  {
    if names == [] then []
    else JsonNames(names[..|names| - 1]) + (if EndsWith(names[|names| - 1], ".json") then [names[|names| - 1]] else [])
  }

  lemma {:induction false} JsonNamesMember(names: seq<string>, n: string)
    ensures n in JsonNames(names) <==> n in names && EndsWith(n, ".json")
  {
    if names != [] {
      JsonNamesMember(names[..|names| - 1], n);
      assert names == names[..|names| - 1] + [names[|names| - 1]];
    }
  }

  /** The sidecars whose name starts with `prefix` (and ends in ".json"). */
  predicate PrefixMatch(json: string, prefix: string)
  {
    StartsWith(Name(Parse(json)), prefix) && EndsWith(Name(Parse(json)), ".json")
  }

  /** `PrefixMatch` against a fixed prefix, as a key. */
  function Matcher(prefix: string): string -> bool
  {
    json => PrefixMatch(json, prefix)
  }

  /** The matching sidecars, in archive order. */
  function PrefixMatches(jsonNames: seq<string>, prefix: string): seq<string>
  {
    Select(jsonNames, Matcher(prefix), true)
  }

  lemma PrefixMatchesMember(jsonNames: seq<string>, prefix: string, n: string)
    ensures n in PrefixMatches(jsonNames, prefix) <==> n in jsonNames && PrefixMatch(n, prefix)
  {
    SelectMember(jsonNames, Matcher(prefix), n);
    assert Matcher(prefix)(n) == PrefixMatch(n, prefix);
  }

  /** The sidecar named after the stem: `"{dir}/{stem}.json"`, or
      `"{stem}.json"` at the top of the archive. */
  function StemSidecar(filePath: string): string
  {
    var p := Parse(filePath);
    if Str(Parent(p)) != "." then Str(Parent(p)) + "/" + Stem(p) + ".json" else Stem(p) + ".json"
  }

  /** `possible_json_paths`, in the order they are tried. */
  function SidecarCandidates(filePath: string, jsonNames: seq<string>): seq<string>
  {
    var name := Name(Parse(filePath));
    [filePath + ".json", StemSidecar(filePath)]
    + (if |name| > SidecarPrefixLength then PrefixMatches(jsonNames, name[..SidecarPrefixLength]) else [])
  }

  /** The date of the first candidate that is in the archive and yields one. */
  function FirstSidecar(candidates: seq<string>, jsonNames: seq<string>, sidecar: string -> Option<DateTime>)
    : Option<DateTime>
  {
    if candidates == [] then None
    else if candidates[0] in jsonNames && sidecar(candidates[0]).Some? then sidecar(candidates[0])
    else FirstSidecar(candidates[1..], jsonNames, sidecar)
  }

  /** `"{file_path}.json"` comes first and the stem sidecar second; the other
      candidates are exactly the archive's sidecars sharing the first 40
      characters of a name longer than 40, and there are none for shorter
      names. */
  lemma SidecarCandidatesSpec(filePath: string, jsonNames: seq<string>, n: string)
    ensures var c := SidecarCandidates(filePath, jsonNames); var name := Name(Parse(filePath));
      && |c| >= 2 && c[0] == filePath + ".json" && c[1] == StemSidecar(filePath)
      && (|name| <= SidecarPrefixLength ==> |c| == 2)
      && (n in c[2..] <==> |name| > SidecarPrefixLength && n in jsonNames && PrefixMatch(n, name[..SidecarPrefixLength]))
  {
    var name := Name(Parse(filePath));
    if |name| > SidecarPrefixLength {
      PrefixMatchesMember(jsonNames, name[..SidecarPrefixLength], n);
    }
  }

  /** A sidecar date comes from the first candidate that is present and
      yields a date; every earlier candidate is absent or yields none. */
  lemma {:induction false} FirstSidecarSpec(candidates: seq<string>, jsonNames: seq<string>,
                                            sidecar: string -> Option<DateTime>)
    ensures var r := FirstSidecar(candidates, jsonNames, sidecar);
      && (r.None? <==> forall i :: 0 <= i < |candidates| ==> candidates[i] !in jsonNames || sidecar(candidates[i]).None?)
      && (r.Some? ==> exists i :: 0 <= i < |candidates| && candidates[i] in jsonNames && sidecar(candidates[i]) == r
                        && forall j :: 0 <= j < i ==> candidates[j] !in jsonNames || sidecar(candidates[j]).None?)
  {
    if candidates != [] {
      FirstSidecarSpec(candidates[1..], jsonNames, sidecar);
      var r := FirstSidecar(candidates, jsonNames, sidecar);
      if !(candidates[0] in jsonNames && sidecar(candidates[0]).Some?) {
        assert forall i :: 1 <= i < |candidates| ==> candidates[i] == candidates[1..][i - 1];
        if r.Some? {
          var k :| 0 <= k < |candidates[1..]| && candidates[1..][k] in jsonNames && sidecar(candidates[1..][k]) == r
                   && forall j :: 0 <= j < k ==> candidates[1..][j] !in jsonNames || sidecar(candidates[1..][j]).None?;
          assert candidates[k + 1] in jsonNames && sidecar(candidates[k + 1]) == r;
        }
      }
    }
  }

  /** The sidecars of `jsonNames` whose name starts with `prefix`, in archive
      order: the scan inside `_try_json_sidecar_date`. */
  method MatchingSidecars(jsonNames: seq<string>, prefix: string) returns (matches: seq<string>)
    ensures matches == PrefixMatches(jsonNames, prefix)
  {
    matches := [];
    var i := 0;
    while i < |jsonNames|
      invariant 0 <= i <= |jsonNames|
      invariant matches == PrefixMatches(jsonNames[..i], prefix)
    {
      assert jsonNames[..i + 1][..i] == jsonNames[..i];
      assert Matcher(prefix)(jsonNames[i]) == PrefixMatch(jsonNames[i], prefix);
      if PrefixMatch(jsonNames[i], prefix) {
        matches := matches + [jsonNames[i]];
      }
      i := i + 1;
    }
    assert jsonNames[..i] == jsonNames;
  }

  /** `_try_json_sidecar_date`. */
  method TryJsonSidecarDate(filePath: string, jsonNames: seq<string>, sidecar: string -> Option<DateTime>)
    returns (date: Option<DateTime>)
    ensures date == FirstSidecar(SidecarCandidates(filePath, jsonNames), jsonNames, sidecar)
  {
    var fileName := Name(Parse(filePath));
    var possibleJsonPaths := [filePath + ".json", StemSidecar(filePath)];
    if |fileName| > SidecarPrefixLength {
      var matches := MatchingSidecars(jsonNames, fileName[..SidecarPrefixLength]);
      possibleJsonPaths := possibleJsonPaths + matches;
    } else {
      assert possibleJsonPaths == possibleJsonPaths + [];
    }
    assert possibleJsonPaths == SidecarCandidates(filePath, jsonNames);
    var k := 0;
    while k < |possibleJsonPaths|
      invariant 0 <= k <= |possibleJsonPaths|
      invariant FirstSidecar(possibleJsonPaths[k..], jsonNames, sidecar)
                == FirstSidecar(possibleJsonPaths, jsonNames, sidecar)
    {
      assert possibleJsonPaths[k..][1..] == possibleJsonPaths[k + 1..];
      if possibleJsonPaths[k] in jsonNames && sidecar(possibleJsonPaths[k]).Some? {
        return sidecar(possibleJsonPaths[k]);
      }
      k := k + 1;
    }
    return None;
  }

  // ----------------------------------------------------------- date choice

  /** The lowercased suffix is one of the EXIF extensions. */
  predicate IsExifName(filePath: string)
  {
    Lower(Suffix(Parse(filePath))) in ExifExtensions
  }

  /** The first candidate that is present, with its source: sidecar, EXIF,
      zip date, and the mtime when none is. */
  function Choose(side: Option<DateTime>, exif: Option<DateTime>, zip: Option<DateTime>, mtime: DateTime)
    : (DateTime, DateSource)
  {
    if side.Some? then (side.value, Json)
    else if exif.Some? then (exif.value, Exif)
    else if zip.Some? then (zip.value, ZipMeta)
    else (mtime, Fallback)
  }

  /** `_extract_dates_for_zip` for one file: the date and where it came from.
      Without an archive only the zip date and the mtime are candidates; EXIF
      is read only for non-empty files with an EXIF extension. */
  function DateFor(f: ZipFileInfo, archive: Option<Archive>, mtime: DateTime): (DateTime, DateSource)
  {
    match archive
    case None => Choose(None, None, ZipDate(f), mtime)
    case Some(a) =>
      var json := JsonNames(a.names);
      Choose(FirstSidecar(SidecarCandidates(f.filePath, json), json, a.sidecar),
             if IsExifName(f.filePath) && f.fileSize > 0 then a.exif(f.filePath) else None,
             ZipDate(f), mtime)
  }

  /** The dates a file could take, in priority order; a source that does not
      apply is None. */
  function Sources(f: ZipFileInfo, archive: Option<Archive>, mtime: DateTime): seq<Option<DateTime>>
  {
    match archive
    case None => [None, None, ZipDate(f), Some(mtime)]
    case Some(a) =>
      var json := JsonNames(a.names);
      [FirstSidecar(SidecarCandidates(f.filePath, json), json, a.sidecar),
       if IsExifName(f.filePath) && f.fileSize > 0 then a.exif(f.filePath) else None,
       ZipDate(f),
       Some(mtime)]
  }

  function SourceIndex(s: DateSource): nat
  {
    match s
    case Json => 0
    case Exif => 1
    case ZipMeta => 2
    case Fallback => 3
  }

  /** Of the four candidates, the first present one is chosen. */
  lemma ChooseFirstPresent(side: Option<DateTime>, exif: Option<DateTime>, zip: Option<DateTime>, mtime: DateTime)
    ensures var (d, s) := Choose(side, exif, zip, mtime); var src := [side, exif, zip, Some(mtime)];
      && src[SourceIndex(s)] == Some(d)
      && forall j :: 0 <= j < SourceIndex(s) ==> src[j].None?
  {
  }

  /** The first source present wins: the date is that source's, and every
      source before it is absent. */
  lemma DateForFirstPresent(f: ZipFileInfo, archive: Option<Archive>, mtime: DateTime)
    ensures var (d, s) := DateFor(f, archive, mtime); var src := Sources(f, archive, mtime);
      && src[SourceIndex(s)] == Some(d)
      && forall j :: 0 <= j < SourceIndex(s) ==> src[j].None?
  {
    match archive
    case None =>
      ChooseFirstPresent(None, None, ZipDate(f), mtime);
    case Some(a) =>
      var json := JsonNames(a.names);
      ChooseFirstPresent(FirstSidecar(SidecarCandidates(f.filePath, json), json, a.sidecar),
                         if IsExifName(f.filePath) && f.fileSize > 0 then a.exif(f.filePath) else None,
                         ZipDate(f), mtime);
  }

  /** `extract_date`, the single-file interface: EXIF for the EXIF
      extensions (whatever the size), then the zip date, then the archive
      mtime; no sidecar. The EXIF read opens the archive itself and gives
      None when that fails. */
  function ExtractDate(f: ZipFileInfo, archive: Option<Archive>, mtime: DateTime): (d: DateTime)
    ensures d == mtime || Some(d) == ZipDate(f)
            || (IsExifName(f.filePath) && archive.Some? && archive.value.exif(f.filePath) == Some(d))
  {
    var exif := if archive.Some? then archive.value.exif(f.filePath) else None;
    if IsExifName(f.filePath) && exif.Some? then exif.value
    else if ZipDate(f).Some? then ZipDate(f).value
    else mtime
  }

  /** The single-file interface takes the first present of EXIF (for an
      EXIF extension), the zip date and the archive mtime; no sidecar is
      consulted. */
  lemma ExtractDatePriority(f: ZipFileInfo, archive: Option<Archive>, mtime: DateTime)
    ensures var exif := if IsExifName(f.filePath) && archive.Some? then archive.value.exif(f.filePath) else None;
      var (d, s) := Choose(None, exif, ZipDate(f), mtime);
      var src := [None, exif, ZipDate(f), Some(mtime)];
      && ExtractDate(f, archive, mtime) == d
      && src[SourceIndex(s)] == Some(d)
      && forall j :: 0 <= j < SourceIndex(s) ==> src[j].None?
  {
    var exif := if IsExifName(f.filePath) && archive.Some? then archive.value.exif(f.filePath) else None;
    ChooseFirstPresent(None, exif, ZipDate(f), mtime);
  }

  /** The single-file interface agrees with the batch whenever no sidecar
      gives a date and the file is not an empty image. */
  lemma ExtractDateAgrees(f: ZipFileInfo, archive: Option<Archive>, mtime: DateTime)
    requires Sources(f, archive, mtime)[0].None?
    requires f.fileSize > 0 || !IsExifName(f.filePath)
    ensures ExtractDate(f, archive, mtime) == DateFor(f, archive, mtime).0
  {
  }

  // ------------------------------------------------------ cache partition

  /** `(str(f.zip_path), f.file_path, f.file_size, f.file_crc)`. */
  function CacheKey(f: ZipFileInfo): (string, string, int, int)
  {
    (f.zipPath, f.filePath, f.fileSize, f.fileCrc)
  }

  /** The files whose key is (`hit`) or is not (`!hit`) in the bulk map, in order. */
  function ByCache(files: seq<ZipFileInfo>, cached: map<(string, string, int, int), DateTime>, hit: bool)
    : seq<ZipFileInfo>
  {
    if files == [] then []
    else
      var f := files[|files| - 1];
      ByCache(files[..|files| - 1], cached, hit) + (if (CacheKey(f) in cached) == hit then [f] else [])
  }

  /** The dates of the cache hits. */
  function CachedDates(files: seq<ZipFileInfo>, cached: map<(string, string, int, int), DateTime>)
    : map<ZipFileInfo, DateTime>
  {
    if files == [] then map[]
    else
      var f := files[|files| - 1];
      var m := CachedDates(files[..|files| - 1], cached);
      if CacheKey(f) in cached then m[f := cached[CacheKey(f)]] else m
  }

  /** The first loop of `extract_dates_batch`. */
  method PartitionByCache(files: seq<ZipFileInfo>, cached: map<(string, string, int, int), DateTime>)
    returns (fileDates: map<ZipFileInfo, DateTime>, fromCache: seq<ZipFileInfo>, needsExtraction: seq<ZipFileInfo>)
    ensures fileDates == CachedDates(files, cached)
    ensures fromCache == ByCache(files, cached, true) && needsExtraction == ByCache(files, cached, false)
  {
    fileDates, fromCache, needsExtraction := map[], [], [];
    var i := 0;
    while i < |files|
      invariant 0 <= i <= |files|
      invariant fileDates == CachedDates(files[..i], cached)
      invariant fromCache == ByCache(files[..i], cached, true)
      invariant needsExtraction == ByCache(files[..i], cached, false)
    {
      assert files[..i + 1][..i] == files[..i];
      var f := files[i];
      var cacheKey := CacheKey(f);
      if cacheKey in cached {
        fileDates := fileDates[f := cached[cacheKey]];
        fromCache := fromCache + [f];
      } else {
        needsExtraction := needsExtraction + [f];
      }
      i := i + 1;
    }
    assert files[..i] == files;
  }

  /** Every file is a hit or queued for extraction, never both. */
  lemma {:induction false} ByCacheSplits(files: seq<ZipFileInfo>, cached: map<(string, string, int, int), DateTime>)
    ensures multiset(ByCache(files, cached, true)) + multiset(ByCache(files, cached, false)) == multiset(files)
  {
    if files != [] {
      ByCacheSplits(files[..|files| - 1], cached);
      assert files == files[..|files| - 1] + [files[|files| - 1]];
    }
  }

  lemma {:induction false} ByCacheMember(files: seq<ZipFileInfo>, cached: map<(string, string, int, int), DateTime>,
                                         hit: bool, f: ZipFileInfo)
    ensures f in ByCache(files, cached, hit) <==> f in files && (CacheKey(f) in cached) == hit
  {
    if files != [] {
      ByCacheMember(files[..|files| - 1], cached, hit, f);
      assert files == files[..|files| - 1] + [files[|files| - 1]];
    }
  }

  /** A hit takes the date stored under its key. */
  lemma {:induction false} CachedDatesSpec(files: seq<ZipFileInfo>, cached: map<(string, string, int, int), DateTime>,
                                           f: ZipFileInfo)
    ensures f in CachedDates(files, cached) <==> f in files && CacheKey(f) in cached
    ensures f in CachedDates(files, cached) ==> CachedDates(files, cached)[f] == cached[CacheKey(f)]
  {
    if files != [] {
      CachedDatesSpec(files[..|files| - 1], cached, f);
      assert files == files[..|files| - 1] + [files[|files| - 1]];
    }
  }

  // ------------------------------------------------------ one archive's dates

  /** What one worker puts on the queue, in order: each file with its date. */
  function ZipDates(fileInfos: seq<ZipFileInfo>, archive: Option<Archive>, mtime: DateTime)
    : (r: seq<(ZipFileInfo, DateTime)>)
    ensures |r| == |fileInfos|
  {
    if fileInfos == [] then []
    else
      var f := fileInfos[|fileInfos| - 1];
      ZipDates(fileInfos[..|fileInfos| - 1], archive, mtime) + [(f, DateFor(f, archive, mtime).0)]
  }

  /** The counters `json_count`, `exif_count`, `zip_meta_count`, `fallback_count`. */
  datatype SourceCounts = SourceCounts(json: nat, exif: nat, zipMeta: nat, fallback: nat)

  function Tally(c: SourceCounts, s: DateSource): SourceCounts
  {
    match s
    case Json => c.(json := c.json + 1)
    case Exif => c.(exif := c.exif + 1)
    case ZipMeta => c.(zipMeta := c.zipMeta + 1)
    case Fallback => c.(fallback := c.fallback + 1)
  }

  function Total(c: SourceCounts): nat
  {
    c.json + c.exif + c.zipMeta + c.fallback
  }

  function CountSources(fileInfos: seq<ZipFileInfo>, archive: Option<Archive>, mtime: DateTime): SourceCounts
  {
    if fileInfos == [] then SourceCounts(0, 0, 0, 0)
    else
      var f := fileInfos[|fileInfos| - 1];
      Tally(CountSources(fileInfos[..|fileInfos| - 1], archive, mtime), DateFor(f, archive, mtime).1)
  }

  /** Every file is counted under exactly one source. */
  lemma {:induction false} CountSourcesTotal(fileInfos: seq<ZipFileInfo>, archive: Option<Archive>, mtime: DateTime)
    ensures Total(CountSources(fileInfos, archive, mtime)) == |fileInfos|
  {
    if fileInfos != [] {
      var init := fileInfos[..|fileInfos| - 1];
      CountSourcesTotal(init, archive, mtime);
      TallyTotal(CountSources(init, archive, mtime), DateFor(fileInfos[|fileInfos| - 1], archive, mtime).1);
    }
  }

  lemma TallyTotal(c: SourceCounts, s: DateSource)
    ensures Total(Tally(c, s)) == Total(c) + 1
  {
  }

  /** The rows `set_date` buffers for a sequence of dated files. */
  function DateRows(results: seq<(ZipFileInfo, DateTime)>, iso: DateTime -> string): (rows: seq<Cache.DateRow>)
    ensures |rows| == |results|
  {
    if results == [] then []
    else
      var (f, d) := results[|results| - 1];
      DateRows(results[..|results| - 1], iso) + [Cache.DateRow(f.zipPath, f.filePath, f.fileSize, f.fileCrc, Some(iso(d)))]
  }

  lemma {:induction false} DateRowsAppend(a: seq<(ZipFileInfo, DateTime)>, b: seq<(ZipFileInfo, DateTime)>,
                                          iso: DateTime -> string)
    ensures DateRows(a + b, iso) == DateRows(a, iso) + DateRows(b, iso)
  {
    if b != [] {
      DateRowsAppend(a, b[..|b| - 1], iso);
      assert (a + b)[..|a + b| - 1] == a + b[..|b| - 1];
    } else {
      assert a + b == a;
    }
  }

  /** The date table once the buffer is written: what `flush` commits. */
  ghost function Buffered(c: Cache.TakeoutCache): map<(string, string), Cache.DateRow>
    reads c
  {
    Cache.ApplyRows(c.fileDates, c.pending)
  }

  /** What a run of `set_date` calls did: on an open cache the rows were
      added after what a flush would already commit; on a closed one nothing
      changed. */
  twostate predicate SavedRows(cache: Cache.TakeoutCache, rows: seq<Cache.DateRow>)
    reads cache
  {
    && cache.Valid() && cache.open == old(cache.open)
    && cache.directoryFiles == old(cache.directoryFiles) && cache.directoryScans == old(cache.directoryScans)
    && (old(cache.open) ==> Buffered(cache) == Cache.ApplyRows(old(Buffered(cache)), rows))
    && (!old(cache.open) ==> cache.fileDates == old(cache.fileDates) && cache.pending == old(cache.pending))
  }

  /** `set_date` on an open cache adds its row to what a flush commits. */
  method SaveDate(cache: Cache.TakeoutCache, f: ZipFileInfo, date: DateTime, iso: DateTime -> string)
    requires cache.Valid()
    modifies cache
    ensures SavedRows(cache, DateRows([(f, date)], iso))
  {
    var row := Cache.DateRow(f.zipPath, f.filePath, f.fileSize, f.fileCrc, Some(iso(date)));
    Cache.ApplyRowsSnoc(cache.fileDates, cache.pending, row);
    assert DateRows([(f, date)], iso) == [row];
    cache.SetDate(f.zipPath, f.filePath, f.fileSize, f.fileCrc, Some(date), iso);
  }

  /** The body of the per-file loop of `_extract_dates_for_zip`: sidecar,
      then EXIF for non-empty images, then the zip date, then the mtime. */
  method DateOfFile(f: ZipFileInfo, a: Archive, jsonFiles: seq<string>, mtime: DateTime)
    returns (date: DateTime, source: DateSource)
    requires jsonFiles == JsonNames(a.names)
    ensures (date, source) == DateFor(f, Some(a), mtime)
  {
    var side := TryJsonSidecarDate(f.filePath, jsonFiles, a.sidecar);
    if side.Some? {
      return side.value, Json;
    }
    var ext := Lower(Suffix(Parse(f.filePath)));
    if ext in ExifExtensions && f.fileSize > 0 {
      var exif := a.exif(f.filePath);
      if exif.Some? {
        return exif.value, Exif;
      }
    }
    var zipDate := ZipDate(f);
    if zipDate.Some? {
      return zipDate.value, ZipMeta;
    }
    return mtime, Fallback;
  }

  /** One pass of the archive loop: the date of file `i`, its count, and its
      row saved to the cache, each stated as the step it adds to the run. */
  method ArchiveStep(fileInfos: seq<ZipFileInfo>, i: nat, a: Archive, jsonFiles: seq<string>, mtime: DateTime,
                     cache: Cache.TakeoutCache?, ghost start: map<(string, string), Cache.DateRow>,
                     results: seq<(ZipFileInfo, DateTime)>, counts: SourceCounts, iso: DateTime -> string)
    returns (results': seq<(ZipFileInfo, DateTime)>, counts': SourceCounts)
    requires i < |fileInfos| && jsonFiles == JsonNames(a.names)
    requires results == ZipDates(fileInfos[..i], Some(a), mtime) && counts == CountSources(fileInfos[..i], Some(a), mtime)
    requires cache != null ==> cache.Valid()
    requires cache != null && cache.open ==> Buffered(cache) == Cache.ApplyRows(start, DateRows(results, iso))
    modifies cache
    ensures results' == ZipDates(fileInfos[..i + 1], Some(a), mtime) && counts' == CountSources(fileInfos[..i + 1], Some(a), mtime)
    ensures cache != null ==> cache.Valid() && cache.open == old(cache.open)
    ensures cache != null ==> cache.directoryFiles == old(cache.directoryFiles) && cache.directoryScans == old(cache.directoryScans)
    ensures cache != null && cache.open ==> Buffered(cache) == Cache.ApplyRows(start, DateRows(results', iso))
    ensures cache != null && !cache.open ==> cache.fileDates == old(cache.fileDates) && cache.pending == old(cache.pending)
  {
    var f := fileInfos[i];
    var date, source := DateOfFile(f, a, jsonFiles, mtime);
    ZipDatesStep(fileInfos, i, Some(a), mtime, date, source);
    counts' := Tally(counts, source);
    if cache != null {
      SaveNext(cache, start, results, f, date, iso);
    }
    results' := results + [(f, date)];
  }

  /** The `try` branch of `_extract_dates_for_zip`: the archive opened. */
  method DatesFromArchive(fileInfos: seq<ZipFileInfo>, a: Archive, mtime: DateTime,
                          cache: Cache.TakeoutCache?, iso: DateTime -> string)
    returns (results: seq<(ZipFileInfo, DateTime)>, counts: SourceCounts)
    requires cache != null ==> cache.Valid()
    modifies cache
    ensures results == ZipDates(fileInfos, Some(a), mtime) && counts == CountSources(fileInfos, Some(a), mtime)
    ensures cache != null ==> SavedRows(cache, DateRows(results, iso))
  {
    var jsonFiles := JsonNames(a.names);
    ghost var start := if cache != null then Buffered(cache) else map[];
    results, counts := [], SourceCounts(0, 0, 0, 0);
    var i := 0;
    while i < |fileInfos|
      invariant 0 <= i <= |fileInfos|
      invariant results == ZipDates(fileInfos[..i], Some(a), mtime) && counts == CountSources(fileInfos[..i], Some(a), mtime)
      invariant cache != null ==> SavedRows(cache, DateRows(results, iso))
    {
      results, counts := ArchiveStep(fileInfos, i, a, jsonFiles, mtime, cache, start, results, counts, iso);
      i := i + 1;
    }
    assert fileInfos[..i] == fileInfos;
  }

  /** `set_date` for the next file of a run whose rows so far were buffered
      on top of `start`: the run's rows grow by this file's row. */
  method SaveNext(cache: Cache.TakeoutCache, ghost start: map<(string, string), Cache.DateRow>,
                  ghost results: seq<(ZipFileInfo, DateTime)>, f: ZipFileInfo, date: DateTime, iso: DateTime -> string)
    requires cache.Valid()
    requires cache.open ==> Buffered(cache) == Cache.ApplyRows(start, DateRows(results, iso))
    modifies cache
    ensures cache.Valid() && cache.open == old(cache.open)
    ensures cache.directoryFiles == old(cache.directoryFiles) && cache.directoryScans == old(cache.directoryScans)
    ensures cache.open ==> Buffered(cache) == Cache.ApplyRows(start, DateRows(results + [(f, date)], iso))
    ensures !cache.open ==> cache.fileDates == old(cache.fileDates) && cache.pending == old(cache.pending)
  {
    SaveDate(cache, f, date, iso);
    Cache.ApplyRowsAppend(start, DateRows(results, iso), DateRows([(f, date)], iso));
    DateRowsAppend(results, [(f, date)], iso);
  }

  /** A file of an archive that does not open: its zip date, or the
      archive's mtime when it has none. */
  method ZipDateOrMtime(f: ZipFileInfo, mtime: DateTime) returns (d: DateTime)
    ensures d == DateFor(f, None, mtime).0
    ensures d == (if ZipDate(f).Some? then ZipDate(f).value else mtime)
  {
    var date := ZipDate(f);
    d := if date.Some? then date.value else mtime;
  }

  /** The `except` branch of `_extract_dates_for_zip`: the archive did not
      open, so each file takes its zip date or the archive's mtime. */
  method DatesFromZipMetadata(fileInfos: seq<ZipFileInfo>, mtime: DateTime,
                              cache: Cache.TakeoutCache?, iso: DateTime -> string)
    returns (results: seq<(ZipFileInfo, DateTime)>)
    requires cache != null ==> cache.Valid()
    modifies cache
    ensures results == ZipDates(fileInfos, None, mtime)
    ensures cache != null ==> SavedRows(cache, DateRows(results, iso))
  {
    results := [];
    var i := 0;
    while i < |fileInfos|
      invariant 0 <= i <= |fileInfos|
      invariant results == ZipDates(fileInfos[..i], None, mtime)
      invariant cache != null ==> SavedRows(cache, DateRows(results, iso))
    {
      var f := fileInfos[i];
      var d := ZipDateOrMtime(f, mtime);
      ZipDatesStep(fileInfos, i, None, mtime, d, DateFor(f, None, mtime).1);
      if cache != null {
        SaveNext(cache, old(Buffered(cache)), results, f, d, iso);
      }
      results := results + [(f, d)];
      i := i + 1;
    }
    assert fileInfos[..i] == fileInfos;
  }

  /** `_extract_dates_for_zip`: the counters are only kept when the archive
      opens. */
  method ExtractDatesForZip(fileInfos: seq<ZipFileInfo>, archive: Option<Archive>, mtime: DateTime,
                            cache: Cache.TakeoutCache?, iso: DateTime -> string)
    returns (results: seq<(ZipFileInfo, DateTime)>, counts: SourceCounts)
    requires cache != null ==> cache.Valid()
    modifies cache
    ensures results == ZipDates(fileInfos, archive, mtime)
    ensures counts == if archive.Some? then CountSources(fileInfos, archive, mtime) else SourceCounts(0, 0, 0, 0)
    ensures cache != null ==> SavedRows(cache, DateRows(results, iso))
  {
    match archive
    case Some(a) =>
      results, counts := DatesFromArchive(fileInfos, a, mtime, cache, iso);
    case None =>
      results := DatesFromZipMetadata(fileInfos, mtime, cache, iso);
      counts := SourceCounts(0, 0, 0, 0);
  }

  /** One more file appends its date and counts its source. */
  lemma ZipDatesStep(fileInfos: seq<ZipFileInfo>, i: nat, archive: Option<Archive>, mtime: DateTime,
                     date: DateTime, source: DateSource)
    requires i < |fileInfos| && (date, source) == DateFor(fileInfos[i], archive, mtime)
    ensures ZipDates(fileInfos[..i + 1], archive, mtime) == ZipDates(fileInfos[..i], archive, mtime) + [(fileInfos[i], date)]
    ensures CountSources(fileInfos[..i + 1], archive, mtime) == Tally(CountSources(fileInfos[..i], archive, mtime), source)
  {
    assert fileInfos[..i + 1][..i] == fileInfos[..i];
  }

  lemma {:induction false} ZipDatesAt(fileInfos: seq<ZipFileInfo>, archive: Option<Archive>, mtime: DateTime, i: nat)
    requires i < |fileInfos|
    ensures ZipDates(fileInfos, archive, mtime)[i] == (fileInfos[i], DateFor(fileInfos[i], archive, mtime).0)
  {
    if i < |fileInfos| - 1 {
      ZipDatesAt(fileInfos[..|fileInfos| - 1], archive, mtime, i);
    }
  }

  lemma {:induction false} ZipDatesFileAt(fileInfos: seq<ZipFileInfo>, archive: Option<Archive>, mtime: DateTime,
                                          i: nat)
    requires i < |fileInfos|
    ensures ZipDates(fileInfos, archive, mtime)[i].0 == fileInfos[i]
  {
    if i < |fileInfos| - 1 {
      ZipDatesFileAt(fileInfos[..|fileInfos| - 1], archive, mtime, i);
    }
  }

  // ------------------------------------------------------- the whole batch

  function ZipOf(f: ZipFileInfo): string
  {
    f.zipPath
  }

  function FileOf(r: (ZipFileInfo, DateTime)): ZipFileInfo
  {
    r.0
  }

  /** `file_dates[file_info] = date` for every result, in order. */
  function Merge(m: map<ZipFileInfo, DateTime>, results: seq<(ZipFileInfo, DateTime)>): map<ZipFileInfo, DateTime>
  {
    if results == [] then m
    else
      var (f, d) := results[|results| - 1];
      Merge(m, results[..|results| - 1])[f := d]
  }

  /** The workers' results, archive by archive. */
  function GroupDates(groups: Table<string, ZipFileInfo>, archives: string -> Option<Archive>,
                      mtimes: string -> DateTime): seq<(ZipFileInfo, DateTime)>
  {
    if groups == [] then []
    else
      var (zip, zipFiles) := groups[|groups| - 1];
      GroupDates(groups[..|groups| - 1], archives, mtimes) + ZipDates(zipFiles, archives(zip), mtimes(zip))
  }

  /** The files left for extraction, grouped by archive. */
  function PendingByZip(files: seq<ZipFileInfo>, cached: map<(string, string, int, int), DateTime>)
    : Table<string, ZipFileInfo>
  {
    GroupBy(ByCache(files, cached, false), ZipOf)
  }

  /** What `extract_dates_batch` returns. */
  function BatchDates(files: seq<ZipFileInfo>, cached: map<(string, string, int, int), DateTime>,
                      archives: string -> Option<Archive>, mtimes: string -> DateTime): map<ZipFileInfo, DateTime>
  {
    Merge(CachedDates(files, cached), GroupDates(PendingByZip(files, cached), archives, mtimes))
  }

  /** The collection loop for one worker's results. */
  method Collect(fileDates: map<ZipFileInfo, DateTime>, reported: seq<ZipFileInfo>,
                 results: seq<(ZipFileInfo, DateTime)>)
    returns (fileDates': map<ZipFileInfo, DateTime>, reported': seq<ZipFileInfo>)
    ensures fileDates' == Merge(fileDates, results) && reported' == reported + MapKey(results, FileOf)
  {
    fileDates', reported' := fileDates, reported;
    var i := 0;
    while i < |results|
      invariant 0 <= i <= |results|
      invariant fileDates' == Merge(fileDates, results[..i]) && reported' == reported + MapKey(results[..i], FileOf)
    {
      assert results[..i + 1][..i] == results[..i];
      var (fileInfo, date) := results[i];
      fileDates' := fileDates'[fileInfo := date];
      reported' := reported' + [fileInfo];
      i := i + 1;
    }
    assert results[..i] == results;
  }

  lemma MergeAppend(m: map<ZipFileInfo, DateTime>, a: seq<(ZipFileInfo, DateTime)>, b: seq<(ZipFileInfo, DateTime)>)
    ensures Merge(m, a + b) == Merge(Merge(m, a), b)
  {
    if b != [] {
      MergeAppend(m, a, b[..|b| - 1]);
      assert (a + b)[..|a + b| - 1] == a + b[..|b| - 1];
    } else {
      assert a + b == a;
    }
  }

  /** One more archive's results extend what has been collected. */
  lemma GroupDatesStep(groups: Table<string, ZipFileInfo>, k: nat, archives: string -> Option<Archive>,
                       mtimes: string -> DateTime, all: seq<(ZipFileInfo, DateTime)>, results: seq<(ZipFileInfo, DateTime)>)
    requires k < |groups| && all == GroupDates(groups[..k], archives, mtimes)
    requires results == ZipDates(groups[k].1, archives(groups[k].0), mtimes(groups[k].0))
    ensures all + results == GroupDates(groups[..k + 1], archives, mtimes)
  {
    assert groups[..k + 1][..k] == groups[..k];
  }

  /** The `files_by_zip` loop of `extract_dates_batch`. */
  method GroupByZip(needsExtraction: seq<ZipFileInfo>) returns (filesByZip: Table<string, ZipFileInfo>)
    ensures filesByZip == GroupBy(needsExtraction, ZipOf)
  {
    filesByZip := [];
    var i := 0;
    while i < |needsExtraction|
      invariant 0 <= i <= |needsExtraction|
      invariant filesByZip == AddAll([], needsExtraction[..i], ZipOf)
    {
      assert needsExtraction[..i + 1][..i] == needsExtraction[..i];
      filesByZip := Add(filesByZip, needsExtraction[i].zipPath, needsExtraction[i]);
      i := i + 1;
    }
    assert needsExtraction[..i] == needsExtraction;
  }

  /** What one more archive's results add to the collected ones. */
  lemma CollectStep(fileDates0: map<ZipFileInfo, DateTime>, reported0: seq<ZipFileInfo>,
                    all: seq<(ZipFileInfo, DateTime)>, fileDates: map<ZipFileInfo, DateTime>, reported: seq<ZipFileInfo>,
                    results: seq<(ZipFileInfo, DateTime)>, fileDates': map<ZipFileInfo, DateTime>,
                    reported': seq<ZipFileInfo>)
    requires fileDates == Merge(fileDates0, all) && reported == reported0 + MapKey(all, FileOf)
    requires fileDates' == Merge(fileDates, results) && reported' == reported + MapKey(results, FileOf)
    ensures fileDates' == Merge(fileDates0, all + results) && reported' == reported0 + MapKey(all + results, FileOf)
  {
    MergeAppend(fileDates0, all, results);
    MapKeyAppend(all, results, FileOf);
  }

  /** One worker's run followed by the collection of its results. */
  method ExtractGroup(zip: string, zipFiles: seq<ZipFileInfo>, archive: Option<Archive>, mtime: DateTime,
                      cache: Cache.TakeoutCache?, iso: DateTime -> string,
                      fileDates: map<ZipFileInfo, DateTime>, reported: seq<ZipFileInfo>)
    returns (fileDates': map<ZipFileInfo, DateTime>, reported': seq<ZipFileInfo>,
             results: seq<(ZipFileInfo, DateTime)>)
    requires cache != null ==> cache.Valid()
    modifies cache
    ensures results == ZipDates(zipFiles, archive, mtime)
    ensures fileDates' == Merge(fileDates, results) && reported' == reported + MapKey(results, FileOf)
    ensures cache != null ==> SavedRows(cache, DateRows(results, iso))
  {
    var counts;
    results, counts := ExtractDatesForZip(zipFiles, archive, mtime, cache, iso);
    fileDates', reported' := Collect(fileDates, reported, results);
  }

  /** Running one worker per archive and collecting what each returns. */
  method ExtractGroups(filesByZip: Table<string, ZipFileInfo>, archives: string -> Option<Archive>,
                       mtimes: string -> DateTime, cache: Cache.TakeoutCache?, iso: DateTime -> string,
                       fileDates0: map<ZipFileInfo, DateTime>, reported0: seq<ZipFileInfo>)
    returns (fileDates: map<ZipFileInfo, DateTime>, reported: seq<ZipFileInfo>)
    requires cache != null ==> cache.Valid()
    modifies cache
    ensures fileDates == Merge(fileDates0, GroupDates(filesByZip, archives, mtimes))
    ensures reported == reported0 + MapKey(GroupDates(filesByZip, archives, mtimes), FileOf)
    ensures cache != null ==> SavedRows(cache, DateRows(GroupDates(filesByZip, archives, mtimes), iso))
  {
    fileDates, reported := fileDates0, reported0;
    ghost var all: seq<(ZipFileInfo, DateTime)> := [];
    var k := 0;
    while k < |filesByZip|
      invariant 0 <= k <= |filesByZip|
      invariant all == GroupDates(filesByZip[..k], archives, mtimes)
      invariant fileDates == Merge(fileDates0, all)
      invariant reported == reported0 + MapKey(all, FileOf)
      invariant cache != null ==> SavedRows(cache, DateRows(all, iso))
    {
      var (zip, zipFiles) := filesByZip[k];
      var results;
      ghost var fileDatesBefore, reportedBefore := fileDates, reported;
      fileDates, reported, results := ExtractGroup(zip, zipFiles, archives(zip), mtimes(zip), cache, iso,
                                                   fileDates, reported);
      GroupDatesStep(filesByZip, k, archives, mtimes, all, results);
      CollectStep(fileDates0, reported0, all, fileDatesBefore, reportedBefore, results, fileDates, reported);
      if cache != null {
        Cache.ApplyRowsAppend(old(Buffered(cache)), DateRows(all, iso), DateRows(results, iso));
        DateRowsAppend(all, results, iso);
      }
      all := all + results;
      k := k + 1;
    }
    assert filesByZip[..k] == filesByZip;
  }

  /** `extract_dates_batch`. The workers run one after the other here; the
      returned map does not depend on the order (see `BatchDatesSpec`). */
  method ExtractDatesBatch(files: seq<ZipFileInfo>, archives: string -> Option<Archive>, mtimes: string -> DateTime,
                           cache: Cache.TakeoutCache?, parse: string -> Option<DateTime>, iso: DateTime -> string)
    returns (fileDates: map<ZipFileInfo, DateTime>, reported: seq<ZipFileInfo>)
    requires cache != null ==> cache.Valid()
    modifies cache
    ensures var cached := if cache != null then old(cache.GetCachedDatesBulk(parse)) else map[];
      && fileDates == BatchDates(files, cached, archives, mtimes)
      && reported == ByCache(files, cached, true)
                     + MapKey(GroupDates(PendingByZip(files, cached), archives, mtimes), FileOf)
      && (cache != null ==> SavedRows(cache, DateRows(GroupDates(PendingByZip(files, cached), archives, mtimes), iso))
                            && cache.pending == [])
  {
    var cachedDates: map<(string, string, int, int), DateTime> := map[];
    if cache != null {
      cachedDates := cache.GetCachedDatesBulk(parse);
    }
    var fromCache, needsExtraction;
    fileDates, fromCache, needsExtraction := PartitionByCache(files, cachedDates);
    var filesByZip := GroupByZip(needsExtraction);
    fileDates, reported := ExtractGroups(filesByZip, archives, mtimes, cache, iso, fileDates, fromCache);
    if cache != null {
      cache.Flush();
    }
  }

  // ------------------------------------------------- what the batch returns

  /** The date a worker finds for a file of its archive. */
  function DateOf(f: ZipFileInfo, archives: string -> Option<Archive>, mtimes: string -> DateTime): DateTime
  {
    DateFor(f, archives(f.zipPath), mtimes(f.zipPath)).0
  }

  lemma {:induction false} MergeHas(m: map<ZipFileInfo, DateTime>, results: seq<(ZipFileInfo, DateTime)>,
                                    f: ZipFileInfo)
    ensures f in Merge(m, results) <==> f in m || exists i :: 0 <= i < |results| && results[i].0 == f
  {
    if results != [] {
      var init := results[..|results| - 1];
      MergeHas(m, init, f);
      if exists i :: 0 <= i < |init| && init[i].0 == f {
        var i :| 0 <= i < |init| && init[i].0 == f;
        assert results[i].0 == f;
      }
      if exists i :: 0 <= i < |results| && results[i].0 == f {
        var i :| 0 <= i < |results| && results[i].0 == f;
        if i < |init| {
          assert init[i].0 == f;
        }
      }
    }
  }

  /** A file reported by some worker ends with the date the workers agree on. */
  lemma {:induction false} MergeValue(m: map<ZipFileInfo, DateTime>, results: seq<(ZipFileInfo, DateTime)>,
                                      f: ZipFileInfo, d: DateTime, i: nat)
    requires i < |results| && results[i].0 == f
    requires forall j :: 0 <= j < |results| && results[j].0 == f ==> results[j].1 == d
    ensures f in Merge(m, results) && Merge(m, results)[f] == d
  {
    var init := results[..|results| - 1];
    if results[|results| - 1].0 != f {
      assert i < |init| && init[i].0 == f;
      MergeValue(m, init, f, d, i);
    }
  }

  /** A file no worker reported keeps its cached entry. */
  lemma {:induction false} MergeKeeps(m: map<ZipFileInfo, DateTime>, results: seq<(ZipFileInfo, DateTime)>,
                                      f: ZipFileInfo)
    requires forall j :: 0 <= j < |results| ==> results[j].0 != f
    ensures f in Merge(m, results) <==> f in m
    ensures f in m ==> Merge(m, results)[f] == m[f]
  {
    if results != [] {
      var init := results[..|results| - 1];
      assert forall j :: 0 <= j < |init| ==> init[j] == results[j];
      MergeKeeps(m, init, f);
    }
  }

  /** Each collected result is a file of some archive with that archive's date. */
  lemma {:induction false} GroupDatesEntry(groups: Table<string, ZipFileInfo>, archives: string -> Option<Archive>,
                                           mtimes: string -> DateTime, i: nat) returns (j: nat)
    requires i < |GroupDates(groups, archives, mtimes)|
    ensures j < |groups| && GroupDates(groups, archives, mtimes)[i].0 in groups[j].1
    ensures GroupDates(groups, archives, mtimes)[i].1
            == DateFor(GroupDates(groups, archives, mtimes)[i].0, archives(groups[j].0), mtimes(groups[j].0)).0
  {
    var init := groups[..|groups| - 1];
    var (zip, zipFiles) := groups[|groups| - 1];
    var before := GroupDates(init, archives, mtimes);
    if i < |before| {
      j := GroupDatesEntry(init, archives, mtimes, i);
      assert init[j] == groups[j];
    } else {
      j := |groups| - 1;
      ZipDatesAt(zipFiles, archives(zip), mtimes(zip), i - |before|);
    }
  }

  /** Every file of every archive is collected. */
  lemma GroupDatesCovers(groups: Table<string, ZipFileInfo>, archives: string -> Option<Archive>,
                         mtimes: string -> DateTime, j: nat, f: ZipFileInfo) returns (i: nat)
    requires j < |groups| && f in groups[j].1
    ensures i < |GroupDates(groups, archives, mtimes)| && GroupDates(groups, archives, mtimes)[i].0 == f
  {
    var n :| 0 <= n < |groups[j].1| && groups[j].1[n] == f;
    FlattenHas(groups, j, n);
    GroupDatesFiles(groups, archives, mtimes);
    var keys := MapKey(GroupDates(groups, archives, mtimes), FileOf);
    i :| 0 <= i < |keys| && keys[i] == f;
  }

  /** A collected file was queued for extraction and carries its own archive's date. */
  lemma PendingEntry(files: seq<ZipFileInfo>, cached: map<(string, string, int, int), DateTime>,
                     archives: string -> Option<Archive>, mtimes: string -> DateTime, i: nat)
    requires i < |GroupDates(PendingByZip(files, cached), archives, mtimes)|
    ensures var r := GroupDates(PendingByZip(files, cached), archives, mtimes)[i];
      r.0 in files && CacheKey(r.0) !in cached && r.1 == DateOf(r.0, archives, mtimes)
  {
    var needs := ByCache(files, cached, false);
    var j := GroupDatesEntry(PendingByZip(files, cached), archives, mtimes, i);
    var f := GroupDates(PendingByZip(files, cached), archives, mtimes)[i].0;
    GroupOfMember(needs, ZipOf, j, f);
    ByCacheMember(files, cached, false, f);
  }

  /** `extract_dates_batch` gives every requested file a date, and only those:
      a cache hit its stored date, any other file the date found in its own
      archive. The order in which workers finish does not matter, since no
      file is reported by two workers with different dates. */
  lemma BatchDatesSpec(files: seq<ZipFileInfo>, cached: map<(string, string, int, int), DateTime>,
                       archives: string -> Option<Archive>, mtimes: string -> DateTime, f: ZipFileInfo)
    ensures f in BatchDates(files, cached, archives, mtimes) <==> f in files
    ensures f in BatchDates(files, cached, archives, mtimes) ==>
      BatchDates(files, cached, archives, mtimes)[f]
      == if CacheKey(f) in cached then cached[CacheKey(f)] else DateOf(f, archives, mtimes)
  {
    var t := PendingByZip(files, cached);
    var all := GroupDates(t, archives, mtimes);
    var m := CachedDates(files, cached);
    CachedDatesSpec(files, cached, f);
    if exists i :: 0 <= i < |all| && all[i].0 == f {
      var i :| 0 <= i < |all| && all[i].0 == f;
      PendingEntry(files, cached, archives, mtimes, i);
      forall j | 0 <= j < |all| && all[j].0 == f
        ensures all[j].1 == DateOf(f, archives, mtimes)
      {
        PendingEntry(files, cached, archives, mtimes, j);
      }
      MergeValue(m, all, f, DateOf(f, archives, mtimes), i);
    } else {
      MergeKeeps(m, all, f);
      ByCacheMember(files, cached, false, f);
      if f in files && CacheKey(f) !in cached {
        var j := MemberOfGroup(ByCache(files, cached, false), ZipOf, f);
        var i := GroupDatesCovers(t, archives, mtimes, j, f);
        assert false;
      }
    }
  }

  lemma {:induction false} ZipDatesFiles(fileInfos: seq<ZipFileInfo>, archive: Option<Archive>, mtime: DateTime)
    ensures MapKey(ZipDates(fileInfos, archive, mtime), FileOf) == fileInfos
  {
    forall i | 0 <= i < |fileInfos|
      ensures MapKey(ZipDates(fileInfos, archive, mtime), FileOf)[i] == fileInfos[i]
    {
      ZipDatesFileAt(fileInfos, archive, mtime, i);
    }
  }

  /** The workers report exactly the files of their archives, archive by archive. */
  lemma {:induction false} GroupDatesFiles(groups: Table<string, ZipFileInfo>, archives: string -> Option<Archive>,
                                           mtimes: string -> DateTime)
    ensures MapKey(GroupDates(groups, archives, mtimes), FileOf) == Flatten(groups)
  {
    if groups != [] {
      var init := groups[..|groups| - 1];
      var last := groups[|groups| - 1];
      GroupDatesFiles(init, archives, mtimes);
      ZipDatesFiles(last.1, archives(last.0), mtimes(last.0));
      MapKeyAppend(GroupDates(init, archives, mtimes), ZipDates(last.1, archives(last.0), mtimes(last.0)), FileOf);
      FlattenSnoc(groups);
    }
  }

  /** Every requested file is reported to the progress callback exactly once. */
  lemma ReportedOnce(files: seq<ZipFileInfo>, cached: map<(string, string, int, int), DateTime>,
                     archives: string -> Option<Archive>, mtimes: string -> DateTime)
    ensures multiset(ByCache(files, cached, true)
                     + MapKey(GroupDates(PendingByZip(files, cached), archives, mtimes), FileOf)) == multiset(files)
  {
    GroupDatesFiles(PendingByZip(files, cached), archives, mtimes);
    GroupByMultiset(ByCache(files, cached, false), ZipOf);
    ByCacheSplits(files, cached);
  }
}
