# google-takeout-extractor in Dafny

A model of the deduplication and extraction logic of google-takeout-extractor. The tool reads the zip archives of a Google Takeout export and finds files that occur more than once. It chooses one original per group of identical files and proposes a `YYYY/MM` destination from each file's date. It extracts the originals that are not already in the output directory, and it can then delete the source archives. It also reconciles a saved manifest, or a second directory, against the output.

The model has one Dafny module per Python source file:

- `Scanner`: `scanner.py`, the archive entries and their content keys.
- `Hasher`: `hasher.py`, filename normalisation and the two-phase hash map.
- `DirectoryScanner`: `directory_scanner.py`, the byte windows hashed per strategy and the key spellings.
- `Comparator`: `comparator.py`, the zip-against-directory partition.
- `Cache`: `cache.py`, the SQLite cache as a class over maps.
- `Metadata`: `metadata.py`, date sources and their priority, sidecar candidates, and the batch with its cache partition.
- `Organizer`: `organizer.py`, destination proposal.
- `Extractor`: `extractor.py`, collision renaming and extraction counters.
- `ExtractCommand` and `Commands`: `main.py`. `ExtractCommand` holds the trusted-snapshot watermark, verify-and-patch, the choice of originals and the per-archive flags. `Commands` holds date proposals, the manifest, reconcile and diff.
- `Cleanup`: `cleanup.py`, the delete prompt as a state machine over a sequence of answers.
- `ProgressDisplay`: `progress_display.py`.
- `CsvExporter` and `HtmlExporter`: the report records and statistics.

Four support modules sit underneath:

- `Base`: Option, Result, DateTime and bytes.
- `Text`: decimal and hex spelling, ASCII lowercasing and stripping.
- `Paths`: a POSIX `pathlib` model, `PurePath(absolute, parts)`, with `name`, `stem`, `suffix` and `parent`.
- `Groups`: an insertion-ordered Python dict of lists, written as a sequence of (key, list) pairs.

The world outside the program comes in as parameters:

- An archive is a sequence of entries, or the error its opening raises.
- A directory walk is a sequence of what `stat` and reading gave for each file.
- The disk for extraction is the set of existing paths, with `mkdir` and the copy as functions.
- SHA-256, zlib CRC-32, `isoformat`/`fromisoformat`, timestamps and the current time are function-valued parameters.
- The cleanup prompt's answers are a sequence of inputs.

State that the source updates in place is a class: `Cache.TakeoutCache`, `Cleanup.CleanupManager` and `ProgressDisplay.ProgressStats`. Loops become methods, each proved against a specification function. The lemmas beside them state what the source promises: partitions, round trips, priorities and "nothing else changes".

Several behaviours of the source are modelled as written and stated as lemmas:

- `normalize_filename` removes only the last `(N)` before the extension (`Hasher.NormalizeStackedSuffixes`).
- The canonical first member of a group is not always the earliest entry (`Hasher.CanonicalNotEarliest`).
- `clear()` keeps the directory scan watermarks (`Cache.TakeoutCache.Clear`).
- Verify-and-patch never removes the records of deleted files (`ExtractCommand.DeletedFileStaysIndexed`).
- Reconcile can never report a manifest record as extracted, because manifest keys are CRC or synthetic keys while the output directory is indexed by partial keys (`Commands.ReconcileFindsNothing`).
- "Delete all" ignores extraction errors (`Cleanup.DeleteAllIgnoresErrors`).
- `truncate_path` returns a longer string for a limit of 3 or 4 (`ProgressDisplay.TruncateTinyLimit`).
- Originals without a date are counted as duplicates (`ExtractCommand.DuplicateCount`).
- `resolve_collision` loses the suffix of a name ending in '.' (`Extractor.CandidateSuffix`).
- `.tif` is an "other" file type in the HTML report while it is an EXIF extension for dates (`HtmlExporter.TifIsOther`).

## Model

| member | source | states |
|---|---|---|
| Scanner.CrcKey | src/scanner.py:31-33 | the content key starts with a decimal digit of the size |
| Scanner.CrcKeyShape | src/scanner.py:31-33 | for a CRC below 2^32 the key is the decimal size, '_', and exactly eight lowercase hex digits |
| Scanner.CrcKeyInjective | src/scanner.py:31-33 | two equal content keys have equal sizes and equal CRCs: the key identifies (size, CRC) |
| Scanner.ZipDate | src/scanner.py:35-42 | the metadata date is returned exactly when the tuple is present and its year is after 1980, and then it is that date |
| Scanner.DisplayPathSplits | src/scanner.py:24-26 | when archive names hold no ':', equal display paths mean the same archive name and the same in-archive path |
| Scanner.ScanDirectory | src/scanner.py:45-106 | a missing root or a non-directory gives no files; otherwise the records of every non-directory entry of every archive that opens, archive by archive, in entry order |
| Scanner.EntryRecordsMember | src/scanner.py:85-95 | a record comes from an archive exactly when it is built from one of its entries that is not a directory |
| Scanner.AllRecordsMember | src/scanner.py:82-103 | a file is listed exactly when it is a non-directory entry of an archive that opened; an archive that raises contributes nothing |
| Scanner.AllRecordsNoDirectories | src/scanner.py:86-87 | no listed file path ends with '/' |
| Hasher.DigitsFromRun | src/hasher.py:13 | `\d+` at a position consumes exactly the run of digits there |
| Hasher.NoDotFromAll | src/hasher.py:13 | the lookahead `[^.]+$` holds from a position exactly when no '.' follows it |
| Hasher.MatchAt | src/hasher.py:13 | a match of the pattern that starts at a position ends at least three characters later and inside the string |
| Hasher.SubKeepsOne | src/hasher.py:34 | where no match starts, `re.sub` keeps the character and carries on from the next one |
| Hasher.SubSkips | src/hasher.py:34 | a stretch where no match starts is copied unchanged |
| Hasher.SubCopies | src/hasher.py:34 | a stretch without '(' is copied unchanged |
| Hasher.SubTail | src/hasher.py:34 | the text after the last '(' is copied unchanged |
| Hasher.StripNothing | src/hasher.py:32-35 | a name without '(' is left as it is by the pattern |
| Hasher.ParenDigitsAt | src/hasher.py:13 | a `(digits)` group matches exactly when an extension without a further dot, a final newline, or the end follows it |
| Hasher.SubKeepsNonMatch | src/hasher.py:13-34 | a `(digits)` group not followed by an extension or the end is kept |
| Hasher.SubDropsMatch | src/hasher.py:13-34 | a `(digits)` group followed by an extension or the end is deleted |
| Hasher.ExtensionAtEnd | src/hasher.py:13 | a final `.ext` with no further dot satisfies the lookahead |
| Hasher.DropThenTail | src/hasher.py:13-34 | a matching group is removed and everything after it copied |
| Hasher.KeepThenTail | src/hasher.py:13-34 | a non-matching group and everything after it are copied |
| Hasher.StripOneAt | src/hasher.py:13-34 | with one group before the extension and no other '(', exactly that group is removed |
| Hasher.StripSecondTail | src/hasher.py:13-34 | of two adjacent groups before the extension, the first is kept and the second removed |
| Hasher.StripSecondAt | src/hasher.py:13-34 | the same for a whole name: `name(a)(b).ext` loses only `(b)` |
| Hasher.StripNoneAt | src/hasher.py:13-34 | a group not followed by an extension or the end leaves the name unchanged |
| Hasher.NormalizeName | src/hasher.py:32-35 | for a one-component path, normalising is the pattern followed by lowercasing on the whole name |
| Hasher.StripBeforeExtension | src/hasher.py:13-34 | `stem(N).ext` loses `(N)` when the extension has no further dot |
| Hasher.NormalizeCopy | src/hasher.py:16-35 | `stem(N).ext` normalises to the lowercase `stem.ext` |
| Hasher.NormalizeCopyExample | src/hasher.py:21 | the docstring example: `IMG_1234(1).jpg` normalises to `img_1234.jpg` |
| Hasher.NormalizePlain | src/hasher.py:24 | a name without '(' normalises to its lowercase form, as for `document.pdf` |
| Hasher.NormalizeIgnoresDirectory | src/hasher.py:32 | only the final path component takes part: a directory prefix changes nothing |
| Hasher.StripStacked | src/hasher.py:13-34 | `stem(a)(b).ext` becomes `stem(a).ext`: only the group next to the extension matches |
| Hasher.NormalizeStackedSuffixes | src/hasher.py:23 | `video(1)(2).mp4` normalises to `video(1).mp4`, not to the `video.mp4` the docstring gives (the docstring line is under Left out) |
| Hasher.StripDoubleExtension | src/hasher.py:13-34 | before an extension that holds a further dot (`.tar.gz`) the group is kept |
| Hasher.NormalizeDoubleExtension | src/hasher.py:13-35 | so `a(1).tar.gz` only lowercases |
| Hasher.SyntheticKey | src/hasher.py:85 | a synthetic key starts with '_' |
| Hasher.SyntheticKeyInjective | src/hasher.py:85 | equal synthetic keys have equal indices and sizes |
| Hasher.SyntheticNotContent | src/hasher.py:85-91 | a synthetic key never equals a content key |
| Hasher.SyntheticTableShape | src/hasher.py:84-86 | the i-th unique file gets the key `__unique_{i}_{size}` and a group of its own |
| Hasher.GroupBySizeName | src/hasher.py:63-66 | the loop builds the (size, normalised name) grouping of the files, in first-appearance order |
| Hasher.SeparateUniques | src/hasher.py:69-78 | the loop splits the groups into the lone files and the concatenated larger groups |
| Hasher.AddSynthetic | src/hasher.py:84-86 | the loop builds the table of synthetic keys |
| Hasher.AddContentKeys | src/hasher.py:89-92 | the loop appends each potential duplicate under its content key |
| Hasher.BuildHashMap | src/hasher.py:43-102 | the method computes the hash map of its specification, synthetic keys first and then content groups |
| Hasher.SyntheticKeysFresh | src/hasher.py:84-86 | each new synthetic key is not yet in the table, so the assignment adds an entry |
| Hasher.SyntheticKeysNotContent | src/hasher.py:88-92 | no content key collides with a synthetic key, so `setdefault` never extends a unique file's group |
| Hasher.SplitPartitions | src/hasher.py:69-78 | the lone files and the potential duplicates are together a permutation of the grouped files |
| Hasher.SyntheticFlatten | src/hasher.py:84-86 | the synthetic groups hold exactly the unique files, in order |
| Hasher.HashMapMultiset | src/hasher.py:43-102 | every input file appears in the hash map exactly as often as in the input |
| Hasher.HashMapSizes | src/hasher.py:43-102 | the group sizes add up to the number of files |
| Hasher.SyntheticDistinct | src/hasher.py:84-86 | the synthetic keys are pairwise distinct |
| Hasher.HashMapDistinct | src/hasher.py:43-102 | the hash map's keys are pairwise distinct |
| Hasher.HashMapFirstsAreFiles | src/hasher.py:43-102 | every group is non-empty and its first file is an input file |
| Hasher.HashMapEntry | src/hasher.py:43-102 | the `i`-th group is non-empty; if its key is synthetic it is `__unique_{i}_{size}` over one file that no other input file shares a (size, normalised name) partition with; otherwise every member has that content key and shares its partition with another file |
| Hasher.SyntheticGroup | src/hasher.py:69-87 | the `i`-th synthetic entry is `__unique_{i}_{size}` over one file alone in its partition |
| Hasher.ContentGroup | src/hasher.py:69-92 | every member of a content group has the group's content key and is not alone in its partition |
| Hasher.UniquesFrom | src/hasher.py:71-75 | every file in `unique_files` is the single member of some partition |
| Hasher.PotentialFrom | src/hasher.py:71-78 | every file in `potential_duplicates` belongs to a partition whose size is not one |
| Hasher.UniqueAlone | src/hasher.py:61-75 | a file the loop sends to `unique_files` is the only input file with its (size, normalised name) key |
| Hasher.PotentialNotAlone | src/hasher.py:61-78 | a file the loop sends to `potential_duplicates` shares its (size, normalised name) key with another input file |
| Hasher.HashMapHas | src/hasher.py:43-102 | every input file is in some group |
| Hasher.HashMapLoneFiles | src/hasher.py:43-102 | an input file has a synthetic group `[f]` exactly when no other input file has its size and normalised name; otherwise it is in the group of its content key |
| Hasher.HashMapNonEmpty | src/hasher.py:43-102 | no group of the hash map is empty |
| Hasher.HashMapKeys | src/hasher.py:59-92 | every key is synthetic or the content key of every file of its group |
| Hasher.HashMapScenario | src/hasher.py:43-102 | a copy pair and a file of another size give `[(__unique_0_t, [y]), (key, [x, x1])]` |
| Hasher.SeparateTwoPairs | src/hasher.py:72-78 | two groups of two yield no unique file and all four as potential duplicates |
| Hasher.SeparatePairThenOne | src/hasher.py:72-78 | a pair then a single yield the single as unique and the pair as potential duplicates |
| Hasher.InterleavedPartitions | src/hasher.py:63-92 | for names a, b, a, b the content grouping sees the files reordered as x0, x2, x1, x3 |
| Hasher.CanonicalNotEarliest | src/hasher.py:63-92 | the first member of a content group need not be the earliest input file with that content |
| Hasher.Duplicates | src/hasher.py:105-115 | an entry is kept exactly when it has more than one member |
| DirectoryScanner.ReadAt | src/directory_scanner.py:253-263 | `f.read(n)` returns at most n bytes, nothing past the end of the file, and something whenever bytes remain |
| DirectoryScanner.KindOf | src/directory_scanner.py:222-227 | "size_partial" selects the partial hash, "size_crc" the CRC, and every other strategy string the full hash |
| DirectoryScanner.PartialSampleBound | src/directory_scanner.py:238 | at most three 64 KiB windows (192 KiB) are hashed |
| DirectoryScanner.PartialSampleWindows | src/directory_scanner.py:251-263 | the windows are the first 64 KiB, the 64 KiB from the middle when the size exceeds two windows, and the last 64 KiB when it exceeds one |
| DirectoryScanner.PartialSampleSmall | src/directory_scanner.py:251-263 | a file of at most one window is hashed whole, once |
| DirectoryScanner.CrcKeysAgree | src/directory_scanner.py:284 | the directory CRC key is spelled exactly like the zip side's content key for every 32-bit CRC |
| DirectoryScanner.FileHashShape | src/directory_scanner.py:266-302 | every key is the decimal size, '_', then 16, 8 or 64 characters for the partial, CRC and full strategies |
| DirectoryScanner.ComputePartialHash | src/directory_scanner.py:229-266 | the read, seek, read, seek, read sequence feeds the hasher exactly the sampled windows |
| DirectoryScanner.ReadAll | src/directory_scanner.py:279-299 | reading 64 KiB chunks until an empty read feeds every byte of the file exactly once, in order |
| DirectoryScanner.ComputeCrc32 | src/directory_scanner.py:268-284 | the key is the size and the CRC of the whole file, masked to 32 bits |
| DirectoryScanner.ComputeSha256 | src/directory_scanner.py:286-302 | the key is the size and the SHA-256 of the whole file |
| DirectoryScanner.ComputeHash | src/directory_scanner.py:211-227 | the dispatch computes the key of the strategy the string selects |
| DirectoryScanner.Probe | src/directory_scanner.py:155-166 | a record exists exactly when stat and the read succeed, and it carries the path, size and mtime from stat |
| DirectoryScanner.ScanDirectory | src/directory_scanner.py:66-134 | a missing root or a non-directory gives no files; otherwise one record per readable regular file, in walk order, skipping those whose stat or read raised |
| DirectoryScanner.ScannedMember | src/directory_scanner.py:91-125 | a record is in the scan exactly when it is the probe result of a regular file of the walk |
| DirectoryScanner.SuccessesMember | src/directory_scanner.py:155-189 | a record is among the results exactly when some listed path probes to it |
| DirectoryScanner.ScanFiles | src/directory_scanner.py:136-191 | without progress the results come in input order; with progress in completion order; either way they are the same records |
| DirectoryScanner.BuildHashMap | src/directory_scanner.py:193-209 | the loop groups the files by content key in first-appearance order |
| DirectoryScanner.DirHashMapPartition | src/directory_scanner.py:193-209 | every file lands in exactly one group, keys are distinct, and each group lists the files with its key in input order |
| Comparator.PairSizes | src/comparator.py:40-42 | one size per duplicate pair: the zip file's size |
| Comparator.InfoSizes | src/comparator.py:45-47 | one size per unique zip file |
| Comparator.Slice | src/comparator.py:206-211 | a Python slice with bounds inside the content is that subsequence |
| Comparator.LastBytes | src/comparator.py:215 | `content[-n:]` has n bytes, or all of them when there are fewer |
| Comparator.ZipWindowsMatchDirectory | src/comparator.py:182-217 | when the decompressed length is the recorded size, the zip side hashes exactly the windows the directory side reads |
| Comparator.ZipKeyMatchesDirectoryKey | src/comparator.py:151-180 | under every strategy a zip entry gets the key its bytes would get as a directory file, given a truthful size and CRC |
| Comparator.ZipCrcKeyIsScannerKey | src/comparator.py:168-170 | the CRC-strategy key is the scanner's content key of the entry |
| Comparator.Keyed | src/comparator.py:96-119 | phase 2 yields at most one keyed record per zip member |
| Comparator.FirstWithKey | src/comparator.py:133 | the file found is a directory file with that key, and none is found exactly when no file has the key |
| Comparator.FirstWithKeyIndex | src/comparator.py:133 | the file found is the one at the smallest index with that key |
| Comparator.DirOnly | src/comparator.py:138-139 | a directory file is unique to the directory exactly when no zip key equals its key |
| Comparator.LookupIsFirst | src/comparator.py:87-133 | looking a key up in the grouped directory finds a group exactly when a file has that key, and its first member is the first such file |
| Comparator.KeyZipFiles | src/comparator.py:95-121 | the loop keys every non-directory member, in zip order |
| Comparator.Classify | src/comparator.py:127-135 | the loop pairs each zip file with the first directory file of its key, or lists it as unique to the zip |
| Comparator.FilterDirOnly | src/comparator.py:139 | the comprehension keeps the directory files whose key no zip entry has |
| Comparator.Compare | src/comparator.py:66-149 | an archive that fails to open makes the call raise; otherwise the result is the comparison of the scanned directory with the zip's members |
| Comparator.PairedStep | src/comparator.py:130-135 | each zip file goes to exactly one of the two lists |
| Comparator.SplitStep | src/comparator.py:130-135 | adding an element to one side of a split keeps the two sides a split of the whole |
| Comparator.PairedUnpairedSplit | src/comparator.py:130-135 | the duplicates' zip files and the zip-unique files are together a permutation of the zip's files |
| Comparator.PairedUnpairedCount | src/comparator.py:130-147 | `len(duplicates) + len(unique_in_zip)` equals `total_zip_files` |
| Comparator.PairedMember | src/comparator.py:130-135 | a zip file whose key some directory file has is paired with the first such file; otherwise it is unique to the zip |
| Comparator.PairedSound | src/comparator.py:130-133 | every pair joins a zip file with the first directory file of that file's key |
| Comparator.SizesAddUp | src/comparator.py:40-47 | `duplicate_size + unique_size` is the total size of the zip's files |
| Comparator.ComparisonTotals | src/comparator.py:141-149 | in the result, the zip count splits into duplicates and unique files, the directory count is the scan's, and the sizes add up |
| Cache.LookupDate | src/cache.py:89-102 | a date is returned only for a row whose path pair, size and CRC all match and whose date is present |
| Cache.DirFiles | src/cache.py:182-189 | the result maps exactly the relative paths stored for the directory to their rows |
| Cache.KeysBySizeAgrees | src/cache.py:191-213 | a key is listed at a size exactly when some file of the directory has that size and key, as `get_directory_files` reports them |
| Cache.PutFilesLastWins | src/cache.py:231-252 | after a bulk insert a path has a row exactly when it had one or is listed; its row is its last tuple; other rows are unchanged |
| Cache.ApplyRowsSnoc | src/cache.py:123-129 | writing one more row replaces the row of its (zip path, file path) key |
| Cache.ApplyRowsAppend | src/cache.py:112-131 | writing two batches one after the other is the same as writing them joined, so the batch boundary is invisible |
| Cache.ApplyRowsDomain | src/cache.py:123-129 | after a write a key has a row exactly when it had one or the batch mentions it |
| Cache.ApplyRowsLastWins | src/cache.py:123-129 | after a write a key holds the last row of the batch with that key |
| Cache.ApplyRowsUntouched | src/cache.py:123-129 | rows of keys the batch does not mention are unchanged |
| Cache.DateRoundTrip | src/cache.py:78-131 | `set_date` then a write then `get_date` with the same size and CRC gives the date back; another size or CRC gives nothing, because the row was replaced by path alone |
| Cache.DatesBulk | src/cache.py:148-159 | a (zip path, file path, size, crc) tuple is in the bulk result exactly when `get_date` with those values finds a date, and it maps to that date |
| Cache.TakeoutCache.constructor | src/cache.py:20-76 | an opened cache is valid, open, has an empty buffer and holds the given tables |
| Cache.TakeoutCache.GetDate | src/cache.py:78-102 | nothing once closed; a date only for a committed row matching path, size and CRC |
| Cache.TakeoutCache.FlushDates | src/cache.py:118-131 | the buffer is written in order and emptied; nothing else changes |
| Cache.TakeoutCache.Flush | src/cache.py:133-136 | the same, from a valid state |
| Cache.TakeoutCache.SetDate | src/cache.py:104-116 | when closed nothing changes; otherwise the row is buffered, and once the buffer reaches 100 rows all of it is written and emptied |
| Cache.TakeoutCache.GetCachedDatesBulk | src/cache.py:138-159 | empty once closed; otherwise exactly the tuples `get_date` would find, each mapped to the date `get_date` returns |
| Cache.TakeoutCache.GetCachedCount | src/cache.py:161-167 | zero once closed; otherwise the number of stored date rows |
| Cache.TakeoutCache.GetDirectoryFiles | src/cache.py:171-189 | empty once closed; otherwise exactly the directory's stored paths |
| Cache.TakeoutCache.GetDirectoryContentKeys | src/cache.py:191-213 | the row-by-row loop builds the size index of the directory's keys |
| Cache.TakeoutCache.SetDirectoryFile | src/cache.py:215-229 | when open, the row of (dir, path) is replaced; nothing else changes |
| Cache.TakeoutCache.SetDirectoryFilesBulk | src/cache.py:231-252 | when open, the tuples are inserted in order, a later one replacing an earlier one; nothing else changes |
| Cache.TakeoutCache.RemoveDirectoryFile | src/cache.py:254-264 | when open, exactly the row of (dir, path) goes |
| Cache.TakeoutCache.ClearDirectory | src/cache.py:266-276 | when open, exactly the rows of that directory go and the others keep their values; the scan records stay |
| Cache.TakeoutCache.GetDirectoryCacheCount | src/cache.py:278-287 | the count is the number of files `get_directory_files` reports |
| Cache.TakeoutCache.GetDirectoryLastScan | src/cache.py:289-309 | a result exactly when open, recorded and the stored time parses; it carries the stored count |
| Cache.TakeoutCache.SetDirectoryLastScan | src/cache.py:311-324 | when open, the directory's scan record becomes (now, count); nothing else changes |
| Cache.TakeoutCache.Clear | src/cache.py:326-335 | when open, the buffer, the dates and the directory rows are emptied and the scan records kept |
| Cache.TakeoutCache.Close | src/cache.py:337-342 | pending rows are written, then the cache is closed; directory tables unchanged |
| Cache.AddOtherRow | src/cache.py:209-212 | a row of another directory does not change the index |
| Cache.KeysAtSizeAdd | src/cache.py:209-212 | a row of the directory adds its key at its own size only |
| Cache.AddDirRow | src/cache.py:209-212 | a row of the directory adds its key to the set of its size, creating the set when missing |
| Metadata.JsonNames | src/metadata.py:134-137 | every name kept ends in ".json" |
| Metadata.JsonNamesMember | src/metadata.py:134-137 | a name is in the sidecar set exactly when it is an entry of the archive ending in ".json" |
| Metadata.PrefixMatchesMember | src/metadata.py:272-277 | a name is a prefix candidate exactly when it is a sidecar whose final component starts with the prefix and ends in ".json" |
| Metadata.SidecarCandidatesSpec | src/metadata.py:259-277 | `path.json` is tried first and `stem.json` second; further candidates exist only for names longer than 40 characters and are exactly the sidecars sharing their first 40 characters |
| Metadata.FirstSidecarSpec | src/metadata.py:279-296 | a sidecar date comes from the first candidate that is present and yields a date; none exactly when no candidate does |
| Metadata.MatchingSidecars | src/metadata.py:272-277 | the loop collects exactly the prefix-matching sidecars, in archive order |
| Metadata.TryJsonSidecarDate | src/metadata.py:240-296 | the method returns the date of the first usable candidate, as the specification function defines it |
| Metadata.ChooseFirstPresent | src/metadata.py:145-175 | the chosen date is that of the first present source among sidecar, EXIF, zip date and mtime, and every earlier one is absent |
| Metadata.DateForFirstPresent | src/metadata.py:123-175 | for a file, the date comes from its highest-priority available source; without an archive only zip date and mtime compete (lines 191-195) |
| Metadata.ExtractDate | src/metadata.py:299-322 | the single-file date is the mtime, the zip date, or the EXIF date of an EXIF-extension file |
| Metadata.ExtractDatePriority | src/metadata.py:311-322 | for every file the single-file date is the first present of EXIF (EXIF extensions only), the zip date and the archive mtime, and every earlier one is absent; no sidecar is consulted |
| Metadata.ExtractDateAgrees | src/metadata.py:299-322 | the single-file interface gives the batch's date whenever no sidecar gives one and the file is not an empty image |
| Metadata.PartitionByCache | src/metadata.py:64-73 | hits get their cached dates; the hit list and the extraction list are exactly the files whose key is, resp. is not, cached, in order |
| Metadata.ByCacheSplits | src/metadata.py:64-73 | every file is a cache hit or queued for extraction, never both |
| Metadata.ByCacheMember | src/metadata.py:66-73 | a file is in a list exactly when its four-part key's presence in the cache matches that list |
| Metadata.CachedDatesSpec | src/metadata.py:66-68 | a file gets a preloaded date exactly when its key is cached, and the date stored under that key |
| Metadata.CountSourcesTotal | src/metadata.py:140-175 | the four source counters add up to the number of files processed |
| Metadata.DateRowsAppend | src/metadata.py:177-180 | the rows saved for two runs of files are the rows of the first followed by those of the second |
| Metadata.SaveDate | src/metadata.py:177-180 | `set_date` on an open cache adds the file's row to what the next flush commits; on a closed one nothing changes |
| Metadata.DateOfFile | src/metadata.py:146-175 | one iteration of the worker loop yields the date and the source the priority rule assigns |
| Metadata.ArchiveStep | src/metadata.py:145-182 | one iteration extends the reported dates and the counters by that file, and the buffered cache rows by its row, leaving the directory tables alone |
| Metadata.DatesFromArchive | src/metadata.py:131-182 | with the archive open, the worker reports every file in order with its priority date, counts each source once, and saves each row to the cache |
| Metadata.SaveNext | src/metadata.py:177-199 | saving one more date extends the buffered rows by that file's row |
| Metadata.ZipDateOrMtime | src/metadata.py:193-195 | when the archive fails to open, a file takes its zip date if it has one, else the archive mtime |
| Metadata.DatesFromZipMetadata | src/metadata.py:191-201 | the `except` branch reports every file with its zip date or mtime and saves each row |
| Metadata.ExtractDatesForZip | src/metadata.py:114-201 | the worker reports every file of its archive with its date, opened or not, and the cache gets exactly those rows |
| Metadata.ZipDatesStep | src/metadata.py:145-182 | one more file appends its date to the results and counts its source once |
| Metadata.ZipDatesAt | src/metadata.py:182 | the i-th result of a worker is its i-th file with that file's priority date |
| Metadata.Collect | src/metadata.py:98-103 | collecting a worker's results overwrites each reported file's date and reports the files in queue order |
| Metadata.MergeAppend | src/metadata.py:98-103 | collecting two runs of results is collecting the first, then the second |
| Metadata.GroupDatesStep | src/metadata.py:93-94 | results of one more archive extend what was collected from the earlier archives |
| Metadata.GroupByZip | src/metadata.py:86-88 | the files to extract are grouped by archive path, in first-seen order, as the grouping function defines |
| Metadata.CollectStep | src/metadata.py:98-103 | collecting results in two steps equals collecting their concatenation |
| Metadata.ExtractGroup | src/metadata.py:93-103 | one archive's worker followed by collection adds exactly that archive's dates and saves its rows |
| Metadata.ExtractGroups | src/metadata.py:92-105 | running every archive's worker and collecting gives the merged dates of all archives, reports each result, and saves every row |
| Metadata.ExtractDatesBatch | src/metadata.py:28-111 | the returned map is the batch specification over the bulk-loaded cache; hits are reported first, then every extracted file; new rows are saved and the buffer is flushed |
| Metadata.MergeHas | src/metadata.py:98-103 | after collection a file has a date exactly when it had one or some worker reported it |
| Metadata.MergeValue | src/metadata.py:98-103 | a reported file ends with the date every worker agrees on for it |
| Metadata.MergeKeeps | src/metadata.py:98-103 | a file no worker reported keeps its cached entry |
| Metadata.GroupDatesEntry | src/metadata.py:86-103 | each collected result is a file of some archive group, paired with that archive's date for it |
| Metadata.GroupDatesCovers | src/metadata.py:86-103 | every file of every group is among the collected results |
| Metadata.PendingEntry | src/metadata.py:64-103 | a collected file was requested, was not a cache hit, and carries its own archive's date |
| Metadata.BatchDatesSpec | src/metadata.py:28-111 | every requested file, and only those, gets a date: a hit its stored date, any other file the date found in its own archive, whatever order the workers finish in |
| Metadata.ZipDatesFiles | src/metadata.py:145-182 | a worker reports exactly its files, in order |
| Metadata.GroupDatesFiles | src/metadata.py:92-103 | the workers report exactly the files of their archives, archive by archive |
| Metadata.ReportedOnce | src/metadata.py:76-103 | every requested file is reported on the progress queue exactly once |
| Extractor.ResolveCollision | src/extractor.py:59-84 | the loop returns what the collision specification `Resolve` gives: the destination or the first free `stem_N.suffix`, or raises after 10000 |
| Extractor.FirstFreeOk | src/extractor.py:76-84 | a found counter lies in range, its candidate does not exist, and every smaller counter's candidate does |
| Extractor.FirstFreeRaised | src/extractor.py:76-84 | the search raises exactly when every candidate up to the limit exists |
| Extractor.ResolveSpec | src/extractor.py:59-84 | the path returned never exists: the destination when it is free, else the candidate with the smallest free counter; it raises exactly when the destination and all 10000 candidates exist |
| Extractor.StemSuffixNoSlash | src/extractor.py:72-73 | a name's stem and suffix contain no '/' |
| Extractor.CandidateShape | src/extractor.py:78-79 | a candidate is a well-formed path in the destination's directory whose name is `stem_N` plus the suffix |
| Extractor.CounterNoDot | src/extractor.py:78 | appending `_N` to a stem adds no dot |
| Extractor.CandidateKeepsSuffix | src/extractor.py:72-78 | a real suffix is kept after the counter |
| Extractor.CandidateWithoutSuffix | src/extractor.py:72-78 | without a real suffix the counter goes at the end of the name |
| Extractor.CandidateSuffix | src/extractor.py:72-78 | the candidate keeps the destination's suffix exactly when the name does not end in '.' (`a.` becomes `a._1`) |
| Extractor.ExtractFile | src/extractor.py:86-142 | one extraction gives the result and the disk state of the specification `ExtractOne` |
| Extractor.ExtractOneSpec | src/extractor.py:86-142 | success exactly when mkdir, collision resolution and the copy all succeed; a success writes a previously absent path and reports the member's size; a failure keeps the proposed destination with an error; nothing is skipped or removed |
| Extractor.OutcomesStep | src/extractor.py:169-170 | one more file extends the results by its extraction |
| Extractor.CountsStep | src/extractor.py:172-179 | a success adds one extracted file and its bytes; a failure adds one error line |
| Extractor.CountResult | src/extractor.py:172-179 | the counters stay equal to the counts of the results so far, and nothing is skipped |
| Extractor.ExtractUniqueFiles | src/extractor.py:144-196 | the result is that of the specification `UniqueFiles`: an `OSError` at open escapes, a `BadZipFile` gives the bad-archive summary, and otherwise the summary and disk state of extracting every file |
| Extractor.ErrorLinesCount | src/extractor.py:172-179 | every failure logs exactly one error line |
| Extractor.UniqueFilesCounts | src/extractor.py:161-196 | it raises exactly when opening fails with an `OSError`, with that error; otherwise each file is counted once, as extracted or as error, none as skipped; a bad archive extracts nothing, counts every file as an error and logs one line |
| Extractor.WrittenHas | src/extractor.py:115-120 | a successful result's destination is among the written paths |
| Extractor.OutcomesNeverOverwrite | src/extractor.py:103-120 | extraction never overwrites: each success writes a path absent before and not written by an earlier success, and every old and written path exists afterwards |
| Extractor.AllOutcomesStep | src/extractor.py:235-273 | one more archive adds its summary to the running totals, or ends the run with the error its opening raised |
| Extractor.AbortedStays | src/extractor.py:235-273 | once an archive's error has escaped, the later archives change nothing |
| Extractor.ExtractAllUnique | src/extractor.py:199-288 | the outcome is that of extracting the archives in path order, each from the disk the previous ones left, stopping at the first archive whose opening raises an `OSError` |
| Extractor.AllOutcomesCount | src/extractor.py:216-273 | a run that completes counts every file of every archive once, as extracted or as an error; no archives give zero totals |
| Extractor.AbortsAtFirstOpenFailure | src/extractor.py:167-186 | a run aborts exactly when one of its archives fails to open with an `OSError`, and the error that escapes is the first such archive's |
| Extractor.ExtractionOrder | src/extractor.py:233-235 | the archives are visited in the order of `sorted()` on Path objects, component by component, each exactly once |
| Paths.PartsLeTotal | src/extractor.py:233 | any two paths are comparable in pathlib's order |
| Paths.PartsLeTransitive | src/extractor.py:233 | pathlib's order on paths is transitive |
| Paths.SortSorted | src/extractor.py:233 | `sorted()` returns its paths in path order and as a permutation of its input |
| Paths.ComponentOrder | src/extractor.py:233 | two paths are ordered by their first differing component, whatever follows it |
| Paths.PathOrderDiffersFromStringOrder | src/extractor.py:233 | `/t/a/2.zip` sorts before `/t/a b/1.zip` as paths but after it as strings |
| ExtractCommand.Newest | src/main.py:614-621 | the newest mtime is at least 0.0, bounds every mtime, and is 0.0 or one of them |
| ExtractCommand.NewestBelow | src/main.py:614-624 | "newest mtime below the scan time" holds exactly when the scan time is positive and every mtime is below it |
| ExtractCommand.UseCacheOnly | src/main.py:606-628 | the snapshot is trusted exactly when a watermark exists, the walk raised nothing, the file count matches and every file is older than the scan |
| ExtractCommand.Stated | src/main.py:659-679 | the files kept are exactly those whose `stat` returned |
| ExtractCommand.Reused | src/main.py:666-674 | a file's cached key is reused exactly when it is cached with the same size and an mtime less than a second away |
| ExtractCommand.Queued | src/main.py:676-677 | a file is queued for hashing exactly when its `stat` returned and its cached key cannot be reused |
| ExtractCommand.ReusedQueuedPartition | src/main.py:659-679 | reused and queued files partition the files whose `stat` returned |
| ExtractCommand.QueuedPaths | src/main.py:684 | the paths handed to `scan_files` are the queued files, in order |
| ExtractCommand.Index | src/main.py:601-689 | a key is listed at a size exactly when that (size, key) pair was added; no size has an empty set |
| ExtractCommand.ReusedPairs | src/main.py:668-672 | one (size, cached key) pair per reused file |
| ExtractCommand.SizeKeyPairs | src/main.py:686-689 | one (size, content key) pair per newly hashed file |
| ExtractCommand.HashedRows | src/main.py:692-693 | one cache entry per newly hashed file, holding its path, size, mtime and key |
| ExtractCommand.Triage | src/main.py:659-679 | the walk loop yields exactly the reused and the queued files, in walk order |
| ExtractCommand.IndexKeys | src/main.py:672-689 | the loop builds `existing_by_size` as the index of the pairs |
| ExtractCommand.IndexStep | src/main.py:672-689 | one more pair adds its key to the set of its size and changes nothing else |
| ExtractCommand.VerifyAndPatch | src/main.py:636-700 | the keys by size are those of the reused and the newly hashed files; the new rows and the scan watermark are written to an open cache; the date table is untouched |
| ExtractCommand.DeletedFileStaysIndexed | src/main.py:636-700 | a recorded file that the walk no longer meets keeps its row, so the cached key set still offers its key |
| ExtractCommand.DestOfProposal | src/main.py:743 | a proposal under a one-component base directory lands in the output directory's `YYYY/MM/name` |
| ExtractCommand.InlineKeyMatchesScan | src/main.py:774-786 | the partial key computed from an archive member's bytes is the key the `size_partial` directory scan gives the same bytes |
| ExtractCommand.Firsts | src/main.py:715-716 | the first file of each group, in group order |
| ExtractCommand.NeedsCheck | src/main.py:735-746 | a file needs a hash check exactly when it is a first file with a proposed location and an existing file of its size |
| ExtractCommand.Decided | src/main.py:735-816 | the set of first files given a decision is exactly the files whose decision that is |
| ExtractCommand.CountAlreadyInNeedsCheck | src/main.py:735-746 | the first pass drops no file that could be already present |
| ExtractCommand.CountAppend | src/main.py:735-816 | the count of a decision over two runs of files is the sum of the counts |
| ExtractCommand.FirstPass | src/main.py:734-746 | the first pass queues exactly the files needing a check and extracts the other located first files to their destinations |
| ExtractCommand.CheckOne | src/main.py:767-808 | a checked file is already present exactly when its archive opens, it reads, and its partial key is among the keys at its size; any failure means extract |
| ExtractCommand.SecondUniqueMembers | src/main.py:749-808 | after the second pass a file is to be extracted exactly when it was before or it was checked and must be extracted |
| ExtractCommand.SecondUniqueDests | src/main.py:749-808 | every file to extract maps to its proposal's destination |
| ExtractCommand.SecondAlreadyMembers | src/main.py:788-790 | the already-present set is exactly the checked files found among the existing keys |
| ExtractCommand.SecondPass | src/main.py:749-808 | the second pass adds the checked files to extract, collects the already-present ones and counts them |
| ExtractCommand.AllWithLocation | src/main.py:809-816 | with an empty output directory, every located first file is extracted to its destination |
| ExtractCommand.NothingPresent | src/main.py:809-816 | with an empty output directory no file is already present |
| ExtractCommand.SelectOriginals | src/main.py:720-816 | the files to extract are exactly the first files whose decision is Extract, each at its proposal's destination; the already-present set and count are those whose decision is AlreadyPresent |
| ExtractCommand.CheckAgainstExisting | src/main.py:727-808 | with a non-empty output directory, both passes together give the same decisions |
| ExtractCommand.DecisionsCover | src/main.py:735-816 | every first file gets exactly one of the three decisions |
| ExtractCommand.CountIsCardinality | src/main.py:789-790 | over distinct files, counting a decision and collecting it agree |
| ExtractCommand.DuplicateCount | src/main.py:841 | the extracted and already-present sets are disjoint, and the reported duplicate count is every non-first file plus every undated original |
| ExtractCommand.SplitOriginals | src/main.py:713-718 | originals are exactly the first files of the groups, duplicates exactly the later ones |
| ExtractCommand.InZip | src/main.py:822 | exactly the files of that archive |
| ExtractCommand.StatOf | src/main.py:823-836 | an archive is never both redundant and fully extracted |
| ExtractCommand.CountInZero | src/main.py:826-828 | a count is zero exactly when no file of the archive is in the set |
| ExtractCommand.CountNeedsZero | src/main.py:824 | nothing needs extraction exactly when every original of the archive is already in the output |
| ExtractCommand.ZipFlags | src/main.py:834-835 | fully extracted iff every original in it is already present and one file is; redundant iff it holds no original and at least one duplicate |
| ExtractCommand.ZipTotals | src/main.py:823-833 | an archive's needs-extraction, already-extracted and duplicate counts add up to its total |
| ExtractCommand.ZipStats | src/main.py:818-836 | there is one entry per archive, each its statistics |
| Commands.ProposalsMember | src/main.py:73-79 | a file gets a proposed location exactly when it has a date |
| Commands.ProposalsValue | src/main.py:76-79 | a proposal is `propose_location` of the file and its date under the default base |
| Commands.ProposeAll | src/main.py:73-79 | step 4's loop builds exactly the proposals map |
| Commands.ProposalsDestinable | src/main.py:73-79 | every proposal has a first component, so step 5 can turn it into a destination |
| Commands.GenerateManifest | src/main.py:88-126 | the manifest has version "1.0", the generation time, one record per group, and each record describes its group's first file |
| Commands.DuplicateCounts | src/main.py:122 | the duplicate counts of the records, in order |
| Commands.ManifestCountsFiles | src/main.py:107-123 | one record per group plus the duplicates each record counts add up to the number of scanned files |
| Commands.ManifestKeys | src/main.py:107-123 | every manifest key is synthetic (starts with '_') or the CRC key of the record's own size and CRC |
| Commands.WithStatusMember | src/main.py:1115-1139 | each list holds exactly the records of its status |
| Commands.WithStatusNone | src/main.py:1115-1139 | when no record has a status, its list is empty |
| Commands.Reconcile | src/main.py:1094-1139 | the loop sorts every record into extracted, pending or missing-source by the output directory's keys and whether its archive exists |
| Commands.WithStatusLast | src/main.py:1115-1139 | the last record goes to the list of its status and nowhere else |
| Commands.ReconcilePartition | src/main.py:1115-1139 | every record lands in exactly one of the three lists |
| Commands.ScannedPartialShape | src/main.py:1100-1104 | a size-partial scan yields keys of the decimal size, '_' and sixteen hex digits |
| Commands.IndexedKeyShape | src/main.py:1100-1104 | every key indexed for the output directory starts with a digit and is 17 characters longer than its size's decimal |
| Commands.NoManifestKeyMatches | src/main.py:1121-1129 | a key of either manifest shape never equals a size-partial key at the record's size |
| Commands.ReconcileFindsNothing | src/main.py:1115-1139 | reconciling a manifest of hash-map groups never reports a record as extracted |
| Commands.KeySetMember | src/main.py:1320-1322 | a key is in the destination set exactly when some destination file has it |
| Commands.IndexSource | src/main.py:1306-1310 | the source loop groups the files by key, in first-seen order, and totals their sizes |
| Commands.CollectKeys | src/main.py:1320-1322 | the loop collects exactly the destination keys |
| Commands.SplitByKeys | src/main.py:1328-1335 | whole groups go to present when their key is in the destination, else to missing |
| Commands.TotalSize | src/main.py:1337-1338 | the loop sums the file sizes |
| Commands.Diff | src/main.py:1281-1338 | a missing source or destination directory is an error, checked in that order; otherwise the report is the comparison of the two listings |
| Commands.DiffMembership | src/main.py:1331-1335 | a source file is present iff some destination file has its key, and missing iff none has |
| Commands.DiffPartition | src/main.py:1328-1338 | present and missing share out the source files, and their sizes add up to the source total |
| Cleanup.DeleteZip | src/cleanup.py:125-184 | the archive is removed only when its size can be read, it is a valid zip and the unlink succeeds; only then is its size freed, and every refusal or failure carries a message |
| Cleanup.FirstChoice | src/cleanup.py:94-123 | the prompt loop reads no more inputs than there are |
| Cleanup.FirstChoiceSpec | src/cleanup.py:94-123 | the loop re-prompts on every unrecognised answer, stops at the first recognised one or Ctrl-C, and runs out of input only when there is none |
| Cleanup.CleanupManager.constructor | src/cleanup.py:41-50 | "delete all" holds exactly in automatic mode and "keep all" exactly in keep mode |
| Cleanup.CleanupManager.PromptCleanup | src/cleanup.py:52-123 | the result, the sticky flags afterwards and the inputs left unread are those of the prompt specification `PromptOutcome`, and the two flags are never both set |
| Cleanup.FlagsMonotone | src/cleanup.py:69-123 | the sticky flags only go from false to true, and never both become true |
| Cleanup.KeepAllIsFinal | src/cleanup.py:69-71 | once "keep all" holds, a call deletes nothing, reads no input and changes no flag |
| Cleanup.DeleteAllIgnoresErrors | src/cleanup.py:73-75 | under "delete all" extraction errors make no difference, and the archive goes whenever the file system lets it |
| Cleanup.ErrorsKeepArchive | src/cleanup.py:83-88 | in prompt mode an archive with extraction errors is kept without asking |
| Cleanup.DeletedOnlyWhenAllowed | src/cleanup.py:52-184 | an archive is deleted exactly when "keep all" does not hold, "delete all" holds or there were no errors and the answer was yes or all, and the file system lets it go |
| Cleanup.AnswerEffects | src/cleanup.py:94-123 | yes and all delete, no, never and Ctrl-C keep; all sets "delete all", never and Ctrl-C set "keep all"; running out of input raises |
| ProgressDisplay.SliceBound | src/progress_display.py:31 | a Python slice bound falls within the string |
| ProgressDisplay.TruncatePath | src/progress_display.py:26-31 | a path within the limit is returned unchanged |
| ProgressDisplay.TruncateFits | src/progress_display.py:26-31 | from a limit of 5 on, a long path keeps `half` characters from each end around "..." and the result fits the limit |
| ProgressDisplay.TruncateTinyLimit | src/progress_display.py:30-31 | with a limit of 3 or 4 the result is "..." followed by the whole path, longer than the path |
| ProgressDisplay.PushRecentSpec | src/progress_display.py:59-61 | the recent list never grows past its maximum, ends with the newest file and keeps the latest entries in order |
| ProgressDisplay.ProgressStats.constructor | src/progress_display.py:34-47 | all counters start at zero with an empty recent list of at most 5 |
| ProgressDisplay.ProgressStats.AddCompleted | src/progress_display.py:49-61 | one more completed file and its bytes, counted as exactly one of duplicate or unique; the invariant that completed files are duplicates, uniques or errors is kept |
| ProgressDisplay.ProgressStats.AddError | src/progress_display.py:63-66 | only the completed and error counters move, and the invariant is kept |
| CsvExporter.DuplicateRecords | src/csv_exporter.py:79-87 | one record per later member of a group |
| CsvExporter.GroupRecords | src/csv_exporter.py:55-87 | one record per member of a group |
| CsvExporter.AppendGroup | src/csv_exporter.py:55-87 | one group's turn of the loop appends exactly that group's records |
| CsvExporter.DuplicatesStep | src/csv_exporter.py:79-87 | one more later member appends its duplicate record |
| CsvExporter.RecordsStep | src/csv_exporter.py:55-87 | one more group appends its records to those of the earlier groups |
| CsvExporter.CreateRecords | src/csv_exporter.py:52-87 | the record loop builds the records of every group in group order |
| CsvExporter.DuplicateRecordsSpec | src/csv_exporter.py:79-87 | each later member's record is a duplicate of the group's first member, under the group's key |
| CsvExporter.GroupRecordsSpec | src/csv_exporter.py:55-87 | a group yields one original record, for its first member, whether or not it has duplicates; every other member is a duplicate of the first, in member order |
| CsvExporter.GroupRecordsFiles | src/csv_exporter.py:55-87 | a group's records cover its members in order |
| CsvExporter.RecordsFiles | src/csv_exporter.py:52-87 | exactly one record per file, in group then member order, so the count is the sum of the group sizes |
| CsvExporter.RecordsShape | src/csv_exporter.py:52-87 | every record carries its group's key, is a duplicate exactly when it names an original, and that original is its group's first member |
| CsvExporter.Row | src/csv_exporter.py:108-117 | a row has one cell per header column |
| CsvExporter.RowSpec | src/csv_exporter.py:108-117 | the duplicate column says "Yes" exactly for duplicates and "No" otherwise, and the duplicate-of column is empty exactly for originals |
| CsvExporter.CreateCsv | src/csv_exporter.py:34-120 | the table is the seven-column header followed by one row per record in record order, one per scanned file |
| Organizer.DefaultBaseIsPart | src/organizer.py:7 | the default base directory "extracted" is one path component |
| Organizer.YearText | src/organizer.py:22 | the year text of a valid date is a single path component |
| Organizer.MonthText | src/organizer.py:23 | the month text is exactly two decimal digits and a single path component |
| Organizer.NamePart | src/organizer.py:25 | the file's own name contributes at most one component, and that component contains no '/' |
| Organizer.ProposedParts | src/organizer.py:22-28 | joining base, year, month and name gives the base's components followed by year, month and the name |
| Organizer.ProposeLocation | src/organizer.py:7-30 | the proposed path parses back to the base directory's components followed by the year, the two-digit month and the file name |
| Organizer.ProposeLocationText | src/organizer.py:7-30 | for a one-component base and a non-empty name, the proposal is the text `base/YYYY/MM/name` |
| HtmlExporter.TypeOf | src/html_exporter.py:15-36 | the category is one of image, video, audio, document, data or other |
| HtmlExporter.ImageExtsDisjoint | src/html_exporter.py:19-21 | the image extensions share none with the video and audio ones |
| HtmlExporter.ImageExtsDisjointMore | src/html_exporter.py:19-23 | the image extensions share none with the document and data ones |
| HtmlExporter.VideoExtsDisjoint | src/html_exporter.py:20-23 | the video extensions share none with the audio, document and data ones |
| HtmlExporter.OtherExtsDisjoint | src/html_exporter.py:21-23 | the audio, document and data extensions are pairwise disjoint |
| HtmlExporter.TypeOfSpec | src/html_exporter.py:15-36 | each category is returned exactly for the extensions of its set, and "other" exactly for an extension in none |
| HtmlExporter.TifIsOther | src/html_exporter.py:17-36 | ".tif" is reported as "other" while ".tiff" is an image |
| HtmlExporter.AllFiles | src/html_exporter.py:66-69 | `all_files` is every group's members, group by group |
| HtmlExporter.Firsts | src/html_exporter.py:86-89 | at most one original per group |
| HtmlExporter.FirstsAndRest | src/html_exporter.py:86-92 | every file is either its group's first member or a later one |
| HtmlExporter.FirstsLength | src/html_exporter.py:73-89 | with non-empty groups there is exactly one original per group |
| HtmlExporter.BasicStatisticsSpec | src/html_exporter.py:71-79 | `duplicate_count` is the number of later members, and the total size is the originals' size plus `duplicate_size` |
| HtmlExporter.ClassifyFiles | src/html_exporter.py:83-92 | the originals are exactly the first members, the duplicates exactly the later ones |
| HtmlExporter.OriginalsAndDuplicates | src/html_exporter.py:83-92 | the two sets cover every file, and a file listed only once is never in both |
| HtmlExporter.ZipStats | src/html_exporter.py:94-120 | the loop builds the per-archive statistics of the specification `ZipStatsOf` |
| HtmlExporter.ZipStatsSpec | src/html_exporter.py:94-120 | each archive seen gets an entry; its file count is the number of its files; its duplicate count and duplicate size are the number and total size of its files in the duplicate set; the others are unique; its total size is the sum over all its files |
| HtmlExporter.DuplicateToOriginal | src/html_exporter.py:1173-1178 | the loop builds the reverse lookup `DuplicateMap` |
| HtmlExporter.AssignSpec | src/html_exporter.py:1176-1178 | each later member is mapped to the group's original, the rest of the map kept |
| HtmlExporter.DuplicateMapSpec | src/html_exporter.py:1173-1178 | exactly the later members are mapped, each to the first member of a group where it is a later member |
| HtmlExporter.DuplicateMapOriginal | src/html_exporter.py:1173-1178 | a later member listed in no other group maps to its own group's first member |
| HtmlExporter.RestMember | src/html_exporter.py:91-92 | every later member of a group is among the duplicates |

## Left out

- Digests and checksums: SHA-256, zlib CRC-32 and hex digest rendering are library calls, passed in as functions over byte sequences. The model checks which byte windows are hashed and how keys are spelled, not the digests themselves.
- Real I/O: zip opening and reading, `open`/`seek`/`read`, `stat`, `rglob`, `mkdir`, `unlink`, `is_zipfile`, JSON, CSV and HTML file writes, `webbrowser`, and SQLite durability. These are inputs or left out; the CSV table is produced as rows of cells.
- Console output: Rich panels, tables, progress bars, `print_summary`, `display_banner` and `show_extraction_plan` only print.
- The convenience wrappers: `scan_and_build_hashmap` and `compare_zip_to_directory` only compose modelled operations.
- Concurrency: thread pools, locks, `as_completed` and the queue polling loops. Workers run one after another. `BatchDatesSpec` shows that the dates returned do not depend on the order in which workers finish.
- Completion order: with progress shown, `scan_files` returns results in completion order. That order is a parameter (`completed`), a permutation of the queued paths.
- Floating point: `format_size`/`format_file_size`, percentages, progress-bar widths, speeds, rates, `start_time`/`elapsed` and `_should_refresh` timing. mtimes and scan times are `real` values that are only compared.
- Date and time libraries: `fromisoformat`, `strptime`, `fromtimestamp`, `datetime.now()` and EXIF parsing through PIL are parameters. Stored dates are abstracted as ISO text and parsed back by a parameter. The zero padding of `strftime("%Y")` for years below 1000 is not modelled: the year is its plain decimal.
- The `download_date` of an archive and the HTML charts (dates by year or month, type counts by size) are presentation.
- The archive content signature `hash(frozenset(...))` in the HTML report is process-local and not modelled, so identical-archive detection is left out.
- The `--no-cleanup` branch of `main.py` refers to a cleanup mode the enum does not define and raises. No such mode is modelled.
- `existing_hashes` in `cmd_extract` only feeds a printed count; `existing_by_size` carries the decision.
- The `base_dir` computed in `extract_all_unique` is never used for paths, so it is not modelled.
- Archive order in `extract_all_unique` follows `sorted()` on Path objects as Python 3.12 and later compare them: the rendered path split on '/'. Earlier versions compare an absolute path's parts starting with '/'; the two agree unless absolute and relative archive paths are mixed.
- The sidecar set of an archive is iterated in set order for prefix matches. The model uses archive order.
- An exception in the middle of a worker loop, other than the modelled open failure, is not modelled.
- Cleanup.CleanupManager.PromptCleanup: running out of input models `console.input` raising `EOFError` as a `Raised` result. The archive size read before the prompt only feeds the message.
- ExtractCommand.SelectOriginals: `unique_files` is modelled as a map, so its insertion order is not modelled. In the source, first-pass files come in hash-map order and second-pass files archive by archive. `files_by_zip` (src/main.py:875-877) lists each archive's files in that order, and the order decides which destination collision gets the `_1` suffix during extraction. The model takes each archive's list as given.
- ExtractCommand.SelectOriginals: requires every group of the hash map to be non-empty (`build_hash_map` never creates an empty group) and every proposal to have a first component, as the proposals of `run_analysis` do (`Commands.ProposalsDestinable`).
- Verify-and-patch: a file whose `stat` raises is neither reused nor queued, but it still counts toward the watermark's file count.
- ExtractCommand.VerifyAndPatch: the `rglob` walk of the output directory (src/main.py:646) runs outside the per-file `try`, so an error raised while listing ends the command. The model takes the listing as a given sequence and has no such failure.
- ExtractCommand.VerifyAndPatch: the mtime of a newly hashed file's row comes from a second `stat` (src/main.py:693), which can raise or see a newer mtime than the scan. The model reuses the mtime of the scan.
- Python's `str.lower()` is modelled on ASCII letters. `str.strip()` removes the characters `str.isspace()` accepts (`Text.IsSpace`).
- Paths.Parse: `PurePosixPath` keeps a leading `//` (exactly two slashes) as a root of its own, so `//a` stays `//a`; the model folds every leading run of slashes to one `/` and gives `/a`.
- Hasher.DigitsFromRun: `\d` in the copy-suffix pattern is modelled as the ASCII digits 0-9. Python's `\d` in a str pattern matches every Unicode decimal digit, so the source also strips a group such as `(` U+0661 `)` (ARABIC-INDIC DIGIT ONE), which the model keeps.
- Hasher.NormalizeStackedSuffixes: the docstring of `normalize_filename` (src/hasher.py:23) gives `video(1)(2).mp4 -> video.mp4`. The pattern as written removes only the group next to the extension, and the model follows the pattern, so the docstring's result is not modelled.
- Scanner.ZipDate: the DOS date fields are taken as a valid calendar date. Python's `zipfile` decodes month 0-15, day 0-31, hour 0-31, minute 0-63 and second 0-62 without checking them, and `datetime(*date_time)` then raises `ValueError`. The model returns such fields as a date instead of raising, here and in `Metadata.ExtractDate`, and such a date does not satisfy `Commands.DatesValid`.
- ProgressDisplay.TruncatePath: only its short-path case is stated in its own contract. The long-path cases are in `TruncateFits` and `TruncateTinyLimit`.
