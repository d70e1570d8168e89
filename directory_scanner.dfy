/** `directory_scanner.py`: walking an output directory and giving every file
    a content key under one of three strategies (a partial SHA-256 over up to
    three 64 KiB windows, a CRC-32 over the whole file, or a full SHA-256),
    then grouping the files by that key.

    The digests themselves are parameters: `sha` stands for
    `hashlib.sha256(data).hexdigest()` and `crc` for `zlib.crc32(data)`. What
    is modelled is which bytes reach them and how the keys are spelled. */
module DirectoryScanner {
  import opened Base
  import opened Text
  import opened Groups
  import Scanner

  /** A SHA-256 hex digest: 64 characters. */
  type HexDigest = s: string | |s| == 64 witness seq(64, i => '0')

  /** A file found in the directory. */
  datatype DirectoryFileInfo = DirectoryFileInfo(filePath: string, fileSize: nat, fileHash: string, mtime: real)

  /** `get_content_key`: the key computed while scanning. */
  function ContentKey(f: DirectoryFileInfo): string
  {
    f.fileHash
  }

  /** The size of each partial-hash window (`sample_size`). */
  const SampleSize: nat := 64 * 1024

  /** The chunk size of the whole-file loops. */
  const ChunkSize: nat := 65536

  /** `f.read(n)` with the file positioned at `pos`: the next `n` bytes, fewer
      at the end of the file, none past it. */
  function ReadAt(content: seq<byte>, pos: nat, n: nat): (r: seq<byte>)
    ensures |r| <= n
    ensures pos >= |content| ==> r == []
    ensures pos < |content| && n > 0 ==> r != []
  {
    if pos >= |content| then []
    else if pos + n <= |content| then content[pos..pos + n]
    else content[pos..]
  }

  // ------------------------------------------------------------------- keys

  /** The three strategies `_compute_hash` dispatches on. */
  datatype HashKind = Partial | Crc | Full

  /** `"size_partial"` selects the partial hash, `"size_crc"` the CRC, and
      every other string the full hash. */
  function KindOf(strategy: string): (k: HashKind)
    ensures k == Partial <==> strategy == "size_partial"
    ensures k == Crc <==> strategy == "size_crc"
    ensures k == Full <==> strategy != "size_partial" && strategy != "size_crc"
  {
    if strategy == "size_partial" then Partial
    else if strategy == "size_crc" then Crc
    else Full
  }

  /** `f"{file_size}_{hasher.hexdigest()[:16]}"`. */
  function PartialKey(size: nat, digest: HexDigest): string
  {
    Dec(size) + "_" + digest[..16]
  }

  /** `f"{file_size}_{crc & 0xffffffff:08x}"`. */
  function DirCrcKey(size: nat, crc: nat): string
  {
    Dec(size) + "_" + HexPad(crc % 0x1_0000_0000, 8)
  }

  /** `f"{file_size}_{hasher.hexdigest()}"`. */
  function FullKey(size: nat, digest: HexDigest): string
  {
    Dec(size) + "_" + digest
  }

  /** The bytes `_compute_partial_hash` feeds to the hasher: the first window,
      the window from the middle when the size exceeds two windows, and the
      last window when the size exceeds one. */
  function PartialSample(content: seq<byte>, size: nat): seq<byte>
  {
    ReadAt(content, 0, SampleSize)
    + (if size > SampleSize * 2 then ReadAt(content, size / 2, SampleSize) else [])
    + (if size > SampleSize then ReadAt(content, size - SampleSize, SampleSize) else [])
  }

  /** The key `_compute_hash` returns for a file's bytes under a strategy. */
  function FileHash(kind: HashKind, content: seq<byte>, size: nat,
                    sha: seq<byte> -> HexDigest, crc: seq<byte> -> nat): string
  {
    match kind
    case Partial => PartialKey(size, sha(PartialSample(content, size)))
    case Crc => DirCrcKey(size, crc(content))
    case Full => FullKey(size, sha(content))
  }

  // -------------------------------------------------------- key properties

  /** At most three windows are read. */
  lemma PartialSampleBound(content: seq<byte>, size: nat)
    ensures |PartialSample(content, size)| <= 3 * SampleSize
  {
    var a := ReadAt(content, 0, SampleSize);
    var b := if size > SampleSize * 2 then ReadAt(content, size / 2, SampleSize) else [];
    var c := if size > SampleSize then ReadAt(content, size - SampleSize, SampleSize) else [];
    assert |a + b + c| == |a| + |b| + |c|;
  }

  /** When the size is the true length, the windows are `[0, min(S, W))`,
      `[S/2, S/2 + W)` if `S > 2W` and `[S - W, S)` if `S > W`. */
  lemma PartialSampleWindows(content: seq<byte>)
    ensures var s := |content|; var w := SampleSize;
      PartialSample(content, s)
      == (if s <= w then content else content[..w])
       + (if s > 2 * w then content[s / 2..s / 2 + w] else [])
       + (if s > w then content[s - w..] else [])
  {
  }

  /** A file no larger than one window is hashed whole. */
  lemma PartialSampleSmall(content: seq<byte>)
    requires |content| <= SampleSize
    ensures PartialSample(content, |content|) == content
  {
    PartialSampleWindows(content);
    assert content + [] + [] == content;
  }

  /** The directory CRC key is spelled exactly like the zip-side key
      `Scanner.CrcKey`, for every CRC the 32-bit mask leaves unchanged. */
  lemma CrcKeysAgree(size: nat, crc: nat)
    requires crc < 0x1_0000_0000
    ensures DirCrcKey(size, crc) == Scanner.CrcKey(size, crc)
  {
    assert crc % 0x1_0000_0000 == crc;
  }

  /** Every key starts with the decimal size and '_', and its length tells
      the strategy apart: 16, 8 or 64 characters follow. */
  lemma FileHashShape(kind: HashKind, content: seq<byte>, size: nat,
                      sha: seq<byte> -> HexDigest, crc: seq<byte> -> nat)
    ensures var k := FileHash(kind, content, size, sha, crc); var d := Dec(size);
      && |k| > |d| && k[..|d| + 1] == d + "_"
      && |k| == |d| + 1 + (match kind case Partial => 16 case Crc => 8 case Full => 64)
  {
    var d := Dec(size);
    if kind == Crc {
      Hex8Length(crc(content) % 0x1_0000_0000);
    }
    var k := FileHash(kind, content, size, sha, crc);
    assert k[..|d| + 1] == d + "_";
  }

  // ------------------------------------------------------------ the hashes

  /** `_compute_partial_hash`: read, seek, read, seek, read, feeding the
      hasher as it goes. */
  method ComputePartialHash(content: seq<byte>, size: nat, sha: seq<byte> -> HexDigest)
    returns (key: string)
    ensures key == PartialKey(size, sha(PartialSample(content, size)))
  {
    var fed: seq<byte> := ReadAt(content, 0, SampleSize);
    var middle: seq<byte> := [];
    if size > SampleSize * 2 {
      middle := ReadAt(content, size / 2, SampleSize);
    }
    fed := fed + middle;
    var last: seq<byte> := [];
    if size > SampleSize {
      var pos := if size - SampleSize > 0 then size - SampleSize else 0;
      last := ReadAt(content, pos, SampleSize);
    }
    fed := fed + last;
    key := PartialKey(size, sha(fed));
  }

  /** Reads 64 KiB chunks until an empty read; `fed` is everything read so far. */
  method ReadAll(content: seq<byte>) returns (fed: seq<byte>)
    ensures fed == content
  {
    fed := [];
    var pos: nat := 0;
    var chunk := ReadAt(content, pos, ChunkSize);
    while chunk != []
      invariant pos <= |content| && fed == content[..pos]
      invariant chunk == ReadAt(content, pos, ChunkSize)
      decreases |content| - pos
    {
      fed := fed + chunk;
      pos := pos + |chunk|;
      assert fed == content[..pos];
      chunk := ReadAt(content, pos, ChunkSize);
    }
    assert content[..pos] == content;
  }

  /** `_compute_crc32`: the CRC of every chunk read, chained. */
  method ComputeCrc32(content: seq<byte>, size: nat, crc: seq<byte> -> nat) returns (key: string)
    ensures key == DirCrcKey(size, crc(content))
  {
    var fed := ReadAll(content);
    key := DirCrcKey(size, crc(fed));
  }

  /** `_compute_sha256`: the digest of every chunk read. */
  method ComputeSha256(content: seq<byte>, size: nat, sha: seq<byte> -> HexDigest) returns (key: string)
    ensures key == FullKey(size, sha(content))
  {
    var fed := ReadAll(content);
    key := FullKey(size, sha(fed));
  }

  /** `_compute_hash`. */
  method ComputeHash(strategy: string, content: seq<byte>, size: nat,
                     sha: seq<byte> -> HexDigest, crc: seq<byte> -> nat) returns (key: string)
    ensures key == FileHash(KindOf(strategy), content, size, sha, crc)
  {
    if strategy == "size_partial" {
      key := ComputePartialHash(content, size, sha);
    } else if strategy == "size_crc" {
      key := ComputeCrc32(content, size, crc);
    } else {
      key := ComputeSha256(content, size, sha);
    }
  }

  // ------------------------------------------------------------- scanning

  /** What happens when a file is looked at: `stat` raises, or the read in
      the hash raises, or both succeed. */
  datatype FileProbe =
    | StatFails
    | ReadFails(size: nat, mtime: real)
    | Readable(size: nat, mtime: real, content: seq<byte>)

  /** One path of `directory.rglob("*")`, in walk order. */
  datatype WalkEntry = WalkEntry(path: string, isFile: bool, probe: FileProbe)

  datatype Root = Missing | NotADirectory | Directory(walk: seq<WalkEntry>)

  /** The record for one file, or nothing when `PermissionError`/`OSError` was raised. */
  function Probe(strategy: string, path: string, p: FileProbe,
                 sha: seq<byte> -> HexDigest, crc: seq<byte> -> nat): (r: Option<DirectoryFileInfo>)
    ensures r.Some? <==> p.Readable?
    ensures r.Some? ==> r.value.filePath == path && r.value.fileSize == p.size && r.value.mtime == p.mtime
  {
    match p
    case Readable(size, mtime, content) =>
      Some(DirectoryFileInfo(path, size, FileHash(KindOf(strategy), content, size, sha, crc), mtime))
    case _ => None
  }

  /** The records of the files in a walk, skipping directories and failures. */
  function Scanned(strategy: string, walk: seq<WalkEntry>,
                   sha: seq<byte> -> HexDigest, crc: seq<byte> -> nat): seq<DirectoryFileInfo>
  {
    if walk == [] then []
    else
      var e := walk[|walk| - 1];
      var r := if e.isFile then Probe(strategy, e.path, e.probe, sha, crc) else None;
      Scanned(strategy, walk[..|walk| - 1], sha, crc) + (if r.Some? then [r.value] else [])
  }

  /** `scan_directory`. */
  method ScanDirectory(strategy: string, root: Root, sha: seq<byte> -> HexDigest, crc: seq<byte> -> nat)
    returns (files: seq<DirectoryFileInfo>)
    ensures files == if root.Directory? then Scanned(strategy, root.walk, sha, crc) else []
  {
    if !root.Directory? {
      return [];
    }
    var walk := root.walk;
    files := [];
    var i := 0;
    while i < |walk|
      invariant 0 <= i <= |walk|
      invariant files == Scanned(strategy, walk[..i], sha, crc)
    {
      assert walk[..i + 1][..i] == walk[..i];
      var e := walk[i];
      if e.isFile && e.probe.Readable? {
        var key := ComputeHash(strategy, e.probe.content, e.probe.size, sha, crc);
        files := files + [DirectoryFileInfo(e.path, e.probe.size, key, e.probe.mtime)];
      }
      i := i + 1;
    }
    assert walk[..i] == walk;
  }

  /** A scanned record comes from a readable file of the walk, with the path,
      size and mtime that `stat` gave, and every readable file yields one. */
  lemma {:induction false} ScannedMember(strategy: string, walk: seq<WalkEntry>,
                                         sha: seq<byte> -> HexDigest, crc: seq<byte> -> nat, f: DirectoryFileInfo)
    ensures f in Scanned(strategy, walk, sha, crc)
        <==> exists e :: e in walk && e.isFile && Probe(strategy, e.path, e.probe, sha, crc) == Some(f)
  {
    if walk != [] {
      var init := walk[..|walk| - 1];
      ScannedMember(strategy, init, sha, crc, f);
      assert walk == init + [walk[|walk| - 1]];
    }
  }

  /** The records that a list of `(path, probe)` pairs yields, in list order. */
  function Successes(strategy: string, paths: seq<(string, FileProbe)>,
                     sha: seq<byte> -> HexDigest, crc: seq<byte> -> nat): seq<DirectoryFileInfo>
  {
    if paths == [] then []
    else
      var (path, p) := paths[|paths| - 1];
      var r := Probe(strategy, path, p, sha, crc);
      Successes(strategy, paths[..|paths| - 1], sha, crc) + (if r.Some? then [r.value] else [])
  }

  lemma {:induction false} SuccessesMember(strategy: string, paths: seq<(string, FileProbe)>,
                                           sha: seq<byte> -> HexDigest, crc: seq<byte> -> nat, f: DirectoryFileInfo)
    ensures f in Successes(strategy, paths, sha, crc)
        <==> exists x :: x in paths && Probe(strategy, x.0, x.1, sha, crc) == Some(f)
  {
    if paths != [] {
      var init := paths[..|paths| - 1];
      SuccessesMember(strategy, init, sha, crc, f);
      assert paths == init + [paths[|paths| - 1]];
    }
  }

  /** `scan_files`. Without progress the results come back in input order;
      with progress they are appended as the worker threads complete, and
      `completed` stands for that (unspecified) order. */
  method ScanFiles(strategy: string, paths: seq<(string, FileProbe)>, showProgress: bool,
                   completed: seq<(string, FileProbe)>,
                   sha: seq<byte> -> HexDigest, crc: seq<byte> -> nat)
    returns (files: seq<DirectoryFileInfo>)
    requires multiset(completed) == multiset(paths)
    ensures !showProgress ==> files == Successes(strategy, paths, sha, crc)
    ensures showProgress ==> files == Successes(strategy, completed, sha, crc)
    ensures forall f :: f in files <==> f in Successes(strategy, paths, sha, crc)
  {
    var order := if showProgress then completed else paths;
    files := [];
    var i := 0;
    while i < |order|
      invariant 0 <= i <= |order|
      invariant files == Successes(strategy, order[..i], sha, crc)
    {
      assert order[..i + 1][..i] == order[..i];
      var (path, p) := order[i];
      if p.Readable? {
        var key := ComputeHash(strategy, p.content, p.size, sha, crc);
        files := files + [DirectoryFileInfo(path, p.size, key, p.mtime)];
      }
      i := i + 1;
    }
    assert order[..i] == order;
    forall f ensures f in files <==> f in Successes(strategy, paths, sha, crc) {
      SuccessesMember(strategy, order, sha, crc, f);
      SuccessesMember(strategy, paths, sha, crc, f);
      forall x ensures x in order <==> x in paths {
        assert x in multiset(order) <==> x in multiset(paths);
      }
    }
  }

  // ------------------------------------------------------------- grouping

  /** `build_hash_map`: `hash_map[f.get_content_key()].append(f)`. */
  method BuildHashMap(files: seq<DirectoryFileInfo>) returns (hashMap: Table<string, DirectoryFileInfo>)
    ensures hashMap == GroupBy(files, ContentKey)
  {
    hashMap := [];
    var i := 0;
    while i < |files|
      invariant 0 <= i <= |files|
      invariant hashMap == AddAll([], files[..i], ContentKey)
    {
      assert files[..i + 1][..i] == files[..i];
      hashMap := Add(hashMap, ContentKey(files[i]), files[i]);
      i := i + 1;
    }
    assert files[..i] == files;
  }

  /** Every file is in exactly one group, the group of its key, and each
      group lists the files with that key in input order. */
  lemma DirHashMapPartition(files: seq<DirectoryFileInfo>)
    ensures multiset(Flatten(GroupBy(files, ContentKey))) == multiset(files)
    ensures DistinctKeys(GroupBy(files, ContentKey))
    ensures forall i :: 0 <= i < |GroupBy(files, ContentKey)| ==>
      var g := GroupBy(files, ContentKey)[i]; g.1 == Select(files, ContentKey, g.0) && g.1 != []
  {
    GroupByMultiset(files, ContentKey);
    GroupByKeys(files, ContentKey);
    GroupByGroups(files, ContentKey);
  }
}
