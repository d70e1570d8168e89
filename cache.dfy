/** `cache.py`: the SQLite fingerprint cache. The three tables are maps keyed
    by their primary keys, so `INSERT OR REPLACE` is a map update; the date
    buffer is a sequence that is written out when it reaches 100 rows. The
    connection is a flag: once closed, every operation does nothing.

    `datetime.isoformat` and `datetime.fromisoformat` are the parameters
    `iso` and `parse`; `datetime.now()` is the parameter `now`. */
module Cache {
  import opened Base

  /** The number of buffered rows that triggers a write. */
  const BatchSize: nat := 100

  /** A `file_dates` row. */
  datatype DateRow = DateRow(zipPath: string, filePath: string, fileSize: int, fileCrc: int,
                             extractedDate: Option<string>)

  /** A `directory_files` row, without its key. */
  datatype DirRow = DirRow(fileSize: int, fileMtime: real, contentKey: string)

  /** A `directory_scans` row, without its key. */
  datatype ScanRow = ScanRow(lastScanned: string, fileCount: int)

  /** `executemany("INSERT OR REPLACE ...")`: rows in order, a later row
      replacing an earlier one with the same `(zip_path, file_path)`. */
  function ApplyRows(m: map<(string, string), DateRow>, rows: seq<DateRow>): map<(string, string), DateRow>
  {
    if rows == [] then m
    else
      var last := rows[|rows| - 1];
      ApplyRows(m, rows[..|rows| - 1])[(last.zipPath, last.filePath) := last]
  }

  /** The `get_date` query against a committed table: the row must match all
      four columns and hold a non-empty date that parses. */
  function LookupDate(m: map<(string, string), DateRow>, zipPath: string, filePath: string,
                      size: int, crc: int, parse: string -> Option<DateTime>): (r: Option<DateTime>)
    ensures r.Some? ==> ((zipPath, filePath) in m && m[(zipPath, filePath)].fileSize == size
                         && m[(zipPath, filePath)].fileCrc == crc && m[(zipPath, filePath)].extractedDate.Some?)
  {
    if (zipPath, filePath) !in m then None
    else
      var row := m[(zipPath, filePath)];
      if row.fileSize != size || row.fileCrc != crc then None
      else if row.extractedDate.None? || row.extractedDate.value == "" then None
      else parse(row.extractedDate.value)
  }

  /** The rows of one directory, keyed by relative path (`get_directory_files`). */
  function DirFiles(m: map<(string, string), DirRow>, dir: string): (r: map<string, DirRow>)
    ensures forall fp :: fp in r <==> (dir, fp) in m
    ensures forall fp :: fp in r ==> r[fp] == m[(dir, fp)]
  {
    map k | k in m && k.0 == dir :: k.1 := m[k]
  }

  /** The sizes recorded for one directory. */
  function DirSizes(m: map<(string, string), DirRow>, dir: string, done: set<(string, string)>): set<int>
  {
    set k | k in done && k in m && k.0 == dir :: m[k].fileSize
  }

  /** The content keys recorded for one directory at one size. */
  function KeysAtSize(m: map<(string, string), DirRow>, dir: string, done: set<(string, string)>, size: int)
    : set<string>
  {
    set k | k in done && k in m && k.0 == dir && m[k].fileSize == size :: m[k].contentKey
  }

  /** `get_directory_content_keys` over the rows in `done`. */
  function KeysBySize(m: map<(string, string), DirRow>, dir: string, done: set<(string, string)>)
    : map<int, set<string>>
  {
    map s | s in DirSizes(m, dir, done) :: KeysAtSize(m, dir, done, s)
  }

  /** The size index agrees with `get_directory_files`: a key is listed at a
      size exactly when some file of the directory has that size and key. */
  lemma KeysBySizeAgrees(m: map<(string, string), DirRow>, dir: string, size: int, key: string)
    ensures var idx := KeysBySize(m, dir, m.Keys); var files := DirFiles(m, dir);
      (size in idx && key in idx[size])
      <==> exists fp :: fp in files && files[fp].fileSize == size && files[fp].contentKey == key
  {
    var idx := KeysBySize(m, dir, m.Keys);
    var files := DirFiles(m, dir);
    if size in idx && key in idx[size] {
      var k :| k in m && k.0 == dir && m[k].fileSize == size && m[k].contentKey == key;
      assert k.1 in files;
    }
    if exists fp :: fp in files && files[fp].fileSize == size && files[fp].contentKey == key {
      var fp :| fp in files && files[fp].fileSize == size && files[fp].contentKey == key;
      assert (dir, fp) in m;
      assert size in DirSizes(m, dir, m.Keys);
      assert key in KeysAtSize(m, dir, m.Keys, size);
    }
  }

  /** `executemany` over `files` for one directory, a later tuple replacing an earlier one. */
  function PutFiles(m: map<(string, string), DirRow>, dir: string, files: seq<(string, int, real, string)>)
    : map<(string, string), DirRow>
  {
    if files == [] then m
    else
      var f := files[|files| - 1];
      PutFiles(m, dir, files[..|files| - 1])[(dir, f.0) := DirRow(f.1, f.2, f.3)]
  }

  /** After a bulk insert the row of a path is its last tuple; the rows of
      other paths and other directories are unchanged. */
  lemma {:induction false} PutFilesLastWins(m: map<(string, string), DirRow>, dir: string,
                                            files: seq<(string, int, real, string)>, k: (string, string))
    ensures var r := PutFiles(m, dir, files);
      && (k in r <==> k in m || (k.0 == dir && exists i :: 0 <= i < |files| && files[i].0 == k.1))
      && (forall i :: 0 <= i < |files| && k == (dir, files[i].0)
            && (forall j :: i < j < |files| ==> files[j].0 != k.1)
            ==> r[k] == DirRow(files[i].1, files[i].2, files[i].3))
      && ((k.0 != dir || (forall i :: 0 <= i < |files| ==> files[i].0 != k.1)) ==> (k in r ==> r[k] == m[k]))
  {
    if files != [] {
      var init := files[..|files| - 1];
      PutFilesLastWins(m, dir, init, k);
      assert forall i :: 0 <= i < |init| ==> init[i] == files[i];
    }
  }

  /** Writing one more row replaces the row of its key. */
  lemma ApplyRowsSnoc(m: map<(string, string), DateRow>, rows: seq<DateRow>, row: DateRow)
    ensures ApplyRows(m, rows + [row]) == ApplyRows(m, rows)[(row.zipPath, row.filePath) := row]
  {
    assert (rows + [row])[..|rows|] == rows;
  }

  /** Writing two batches one after the other is writing them joined. */
  lemma {:induction false} ApplyRowsAppend(m: map<(string, string), DateRow>, a: seq<DateRow>, b: seq<DateRow>)
    ensures ApplyRows(m, a + b) == ApplyRows(ApplyRows(m, a), b)
  {
    if b != [] {
      var init := b[..|b| - 1];
      ApplyRowsAppend(m, a, init);
      assert (a + b)[..|a + b| - 1] == a + init;
    } else {
      assert a + b == a;
    }
  }

  /** After a write a key has a row exactly when it had one or the batch
      mentions it. */
  lemma {:induction false} ApplyRowsDomain(m: map<(string, string), DateRow>, rows: seq<DateRow>,
                                           k: (string, string))
    ensures k in ApplyRows(m, rows)
        <==> k in m || exists i :: 0 <= i < |rows| && (rows[i].zipPath, rows[i].filePath) == k
  {
    if rows != [] {
      var init := rows[..|rows| - 1];
      ApplyRowsDomain(m, init, k);
      assert forall i :: 0 <= i < |init| ==> init[i] == rows[i];
    }
  }

  /** After a write the row of a key is the last row of the batch with that key. */
  lemma {:induction false} ApplyRowsLastWins(m: map<(string, string), DateRow>, rows: seq<DateRow>, i: nat)
    requires i < |rows|
    requires forall j :: i < j < |rows| ==> (rows[j].zipPath, rows[j].filePath) != (rows[i].zipPath, rows[i].filePath)
    ensures var k := (rows[i].zipPath, rows[i].filePath); k in ApplyRows(m, rows) && ApplyRows(m, rows)[k] == rows[i]
  {
    if i < |rows| - 1 {
      var init := rows[..|rows| - 1];
      ApplyRowsLastWins(m, init, i);
      assert init[i] == rows[i];
    }
  }

  /** Rows of keys the batch does not mention are unchanged. */
  lemma {:induction false} ApplyRowsUntouched(m: map<(string, string), DateRow>, rows: seq<DateRow>,
                                              k: (string, string))
    requires k in m
    requires forall i :: 0 <= i < |rows| ==> (rows[i].zipPath, rows[i].filePath) != k
    ensures k in ApplyRows(m, rows) && ApplyRows(m, rows)[k] == m[k]
  {
    if rows != [] {
      var init := rows[..|rows| - 1];
      assert forall i :: 0 <= i < |init| ==> init[i] == rows[i];
      ApplyRowsUntouched(m, init, k);
    }
  }

  /** `set_date`, then a write, then `get_date` with the same size and CRC
      gives the date back; with another size or CRC it gives nothing,
      because the row was replaced by `(zip_path, file_path)` alone. */
  lemma DateRoundTrip(m: map<(string, string), DateRow>, pending: seq<DateRow>,
                      zipPath: string, filePath: string, size: int, crc: int, d: DateTime,
                      iso: DateTime -> string, parse: string -> Option<DateTime>,
                      size': int, crc': int)
    requires iso(d) != "" && parse(iso(d)) == Some(d)
    ensures var t := ApplyRows(m, pending + [DateRow(zipPath, filePath, size, crc, Some(iso(d)))]);
      && LookupDate(t, zipPath, filePath, size, crc, parse) == Some(d)
      && ((size', crc') != (size, crc) ==> LookupDate(t, zipPath, filePath, size', crc', parse) == None)
  {
    var rows := pending + [DateRow(zipPath, filePath, size, crc, Some(iso(d)))];
    assert rows[..|rows| - 1] == pending;
  }

  /** `get_cached_dates_bulk` over a committed table. */
  function DatesBulk(m: map<(string, string), DateRow>, parse: string -> Option<DateTime>)
    : (r: map<(string, string, int, int), DateTime>)
    ensures forall q :: q in r <==> LookupDate(m, q.0, q.1, q.2, q.3, parse).Some?
    ensures forall q :: q in r ==> LookupDate(m, q.0, q.1, q.2, q.3, parse) == Some(r[q])
  {
    map k | k in m && LookupDate(m, k.0, k.1, m[k].fileSize, m[k].fileCrc, parse).Some?
      :: (k.0, k.1, m[k].fileSize, m[k].fileCrc) := LookupDate(m, k.0, k.1, m[k].fileSize, m[k].fileCrc, parse).value
  }

  class TakeoutCache {
    /** `conn is not None`. */
    var open: bool
    /** `_pending_dates`. */
    var pending: seq<DateRow>
    var fileDates: map<(string, string), DateRow>
    var directoryFiles: map<(string, string), DirRow>
    var directoryScans: map<string, ScanRow>

    /** The buffer is short of a batch, and empty once the connection is closed. */
    ghost predicate Valid()
      reads this
    {
      |pending| < BatchSize && (!open ==> pending == [])
    }

    /** Opening a database that already holds the given tables. */
    constructor (dates: map<(string, string), DateRow>, files: map<(string, string), DirRow>,
                 scans: map<string, ScanRow>)
      ensures Valid() && open && pending == []
      ensures fileDates == dates && directoryFiles == files && directoryScans == scans
    {
      open := true;
      pending := [];
      fileDates := dates;
      directoryFiles := files;
      directoryScans := scans;
    }

    /** `get_date`: committed rows only; nothing once closed. */
    function GetDate(zipPath: string, filePath: string, size: int, crc: int,
                     parse: string -> Option<DateTime>): (r: Option<DateTime>)
      reads this
      ensures !open ==> r.None?
      ensures r.Some? ==> ((zipPath, filePath) in fileDates && fileDates[(zipPath, filePath)].fileSize == size
                           && fileDates[(zipPath, filePath)].fileCrc == crc)
    {
      if !open then None else LookupDate(fileDates, zipPath, filePath, size, crc, parse)
    }

    /** `_flush_dates`: the buffer is written in order and emptied. */
    method FlushDates()
      requires open || pending == []
      modifies this
      ensures Valid()
      ensures fileDates == ApplyRows(old(fileDates), old(pending)) && pending == []
      ensures open == old(open) && directoryFiles == old(directoryFiles)
      ensures directoryScans == old(directoryScans)
    {
      if pending == [] {
        return;
      }
      var rows := pending;
      var i := 0;
      while i < |rows|
        invariant 0 <= i <= |rows|
        invariant fileDates == ApplyRows(old(fileDates), rows[..i])
        invariant pending == rows && open == old(open)
        invariant directoryFiles == old(directoryFiles) && directoryScans == old(directoryScans)
      {
        assert rows[..i + 1][..i] == rows[..i];
        fileDates := fileDates[(rows[i].zipPath, rows[i].filePath) := rows[i]];
        i := i + 1;
      }
      assert rows[..i] == rows;
      pending := [];
    }

    /** `flush`. */
    method Flush()
      requires Valid()
      modifies this
      ensures Valid()
      ensures fileDates == ApplyRows(old(fileDates), old(pending)) && pending == []
      ensures open == old(open) && directoryFiles == old(directoryFiles)
      ensures directoryScans == old(directoryScans)
    {
      FlushDates();
    }

    /** `set_date`: buffer the row, writing the buffer once it holds 100. */
    method SetDate(zipPath: string, filePath: string, size: int, crc: int, date: Option<DateTime>,
                   iso: DateTime -> string)
      requires Valid()
      modifies this
      ensures Valid()
      ensures open == old(open) && directoryFiles == old(directoryFiles)
      ensures directoryScans == old(directoryScans)
      ensures !old(open) ==> pending == old(pending) && fileDates == old(fileDates)
      ensures old(open) ==>
        var row := DateRow(zipPath, filePath, size, crc, if date.Some? then Some(iso(date.value)) else None);
        var buffered := old(pending) + [row];
        if |buffered| >= BatchSize then pending == [] && fileDates == ApplyRows(old(fileDates), buffered)
        else pending == buffered && fileDates == old(fileDates)
    {
      if !open {
        return;
      }
      var dateStr := if date.Some? then Some(iso(date.value)) else None;
      pending := pending + [DateRow(zipPath, filePath, size, crc, dateStr)];
      if |pending| >= BatchSize {
        FlushDates();
      }
    }

    /** `get_cached_dates_bulk`. */
    function GetCachedDatesBulk(parse: string -> Option<DateTime>): (r: map<(string, string, int, int), DateTime>)
      reads this
      ensures !open ==> r == map[]
      ensures open ==> forall q :: q in r <==> GetDate(q.0, q.1, q.2, q.3, parse).Some?
      ensures open ==> forall q :: q in r ==> GetDate(q.0, q.1, q.2, q.3, parse) == Some(r[q])
    {
      if !open then map[] else DatesBulk(fileDates, parse)
    }

    /** `get_cached_count`. */
    function GetCachedCount(): (n: nat)
      reads this
      ensures !open ==> n == 0
      ensures open ==> n == |fileDates|
    {
      if !open then 0 else |fileDates|
    }

    /** `get_directory_files`. */
    function GetDirectoryFiles(dir: string): (r: map<string, DirRow>)
      reads this
      ensures !open ==> r == map[]
      ensures open ==> forall fp :: fp in r <==> (dir, fp) in directoryFiles
    {
      if !open then map[] else DirFiles(directoryFiles, dir)
    }

    /** `get_directory_content_keys`: the rows are visited one by one, each
        adding its key to the set of its size. */
    method GetDirectoryContentKeys(dir: string) returns (result: map<int, set<string>>)
      ensures !open ==> result == map[]
      ensures open ==> result == KeysBySize(directoryFiles, dir, directoryFiles.Keys)
    {
      result := map[];
      if !open {
        return;
      }
      var m := directoryFiles;
      var todo := m.Keys;
      var done: set<(string, string)> := {};
      while todo != {}
        invariant done <= m.Keys && todo == m.Keys - done
        invariant result == KeysBySize(m, dir, done)
        decreases |todo|
      {
        var k :| k in todo;
        var row := m[k];
        if k.0 == dir {
          AddDirRow(m, dir, done, k);
          var size := row.fileSize;
          var keys := if size in result then result[size] else {};
          result := result[size := keys + {row.contentKey}];
        } else {
          AddOtherRow(m, dir, done, k);
        }
        todo := todo - {k};
        done := done + {k};
      }
      assert forall x :: x in m.Keys ==> x in done by {
        assert todo == {};
      }
      assert done == m.Keys;
    }

    /** `set_directory_file`. */
    method SetDirectoryFile(dir: string, filePath: string, size: int, mtime: real, contentKey: string)
      modifies this
      ensures open == old(open) && pending == old(pending) && fileDates == old(fileDates)
      ensures directoryScans == old(directoryScans)
      ensures directoryFiles == if open then old(directoryFiles)[(dir, filePath) := DirRow(size, mtime, contentKey)]
                                else old(directoryFiles)
    {
      if !open {
        return;
      }
      directoryFiles := directoryFiles[(dir, filePath) := DirRow(size, mtime, contentKey)];
    }

    /** `set_directory_files_bulk`: nothing for an empty list. */
    method SetDirectoryFilesBulk(dir: string, files: seq<(string, int, real, string)>)
      modifies this
      ensures open == old(open) && pending == old(pending) && fileDates == old(fileDates)
      ensures directoryScans == old(directoryScans)
      ensures directoryFiles == if open then PutFiles(old(directoryFiles), dir, files) else old(directoryFiles)
    {
      if !open || files == [] {
        return;
      }
      var i := 0;
      while i < |files|
        invariant 0 <= i <= |files|
        invariant directoryFiles == PutFiles(old(directoryFiles), dir, files[..i])
        invariant open == old(open) && pending == old(pending) && fileDates == old(fileDates)
        invariant directoryScans == old(directoryScans)
      {
        assert files[..i + 1][..i] == files[..i];
        var f := files[i];
        directoryFiles := directoryFiles[(dir, f.0) := DirRow(f.1, f.2, f.3)];
        i := i + 1;
      }
      assert files[..i] == files;
    }

    /** `remove_directory_file`: exactly one key goes. */
    method RemoveDirectoryFile(dir: string, filePath: string)
      modifies this
      ensures open == old(open) && pending == old(pending) && fileDates == old(fileDates)
      ensures directoryScans == old(directoryScans)
      ensures directoryFiles == if open then old(directoryFiles) - {(dir, filePath)} else old(directoryFiles)
    {
      if !open {
        return;
      }
      directoryFiles := directoryFiles - {(dir, filePath)};
    }

    /** `clear_directory`: every row of the directory goes, its scan record stays. */
    method ClearDirectory(dir: string)
      modifies this
      ensures open == old(open) && pending == old(pending) && fileDates == old(fileDates)
      ensures directoryScans == old(directoryScans)
      ensures open ==> forall k :: k in directoryFiles <==> k in old(directoryFiles) && k.0 != dir
      ensures open ==> forall k :: k in directoryFiles ==> directoryFiles[k] == old(directoryFiles)[k]
      ensures !open ==> directoryFiles == old(directoryFiles)
    {
      if !open {
        return;
      }
      directoryFiles := map k | k in directoryFiles && k.0 != dir :: directoryFiles[k];
    }

    /** `get_directory_cache_count`. */
    function GetDirectoryCacheCount(dir: string): (n: nat)
      reads this
      ensures n == |GetDirectoryFiles(dir)|
    {
      if !open then 0 else |DirFiles(directoryFiles, dir)|
    }

    /** `get_directory_last_scan`: the stored time and count, unless the
        time does not parse. */
    function GetDirectoryLastScan(dir: string, parse: string -> Option<DateTime>): (r: Option<(DateTime, int)>)
      reads this
      ensures r.Some? <==> open && dir in directoryScans && parse(directoryScans[dir].lastScanned).Some?
      ensures r.Some? ==> r.value.1 == directoryScans[dir].fileCount
    {
      if !open || dir !in directoryScans then None
      else
        var row := directoryScans[dir];
        var t := parse(row.lastScanned);
        if t.Some? then Some((t.value, row.fileCount)) else None
    }

    /** `set_directory_last_scan`, stamped with `now`. */
    method SetDirectoryLastScan(dir: string, fileCount: int, now: string)
      modifies this
      ensures open == old(open) && pending == old(pending) && fileDates == old(fileDates)
      ensures directoryFiles == old(directoryFiles)
      ensures directoryScans == if open then old(directoryScans)[dir := ScanRow(now, fileCount)]
                                else old(directoryScans)
    {
      if !open {
        return;
      }
      directoryScans := directoryScans[dir := ScanRow(now, fileCount)];
    }

    /** `clear`: buffered and stored dates and all directory rows go; the
        scan watermarks stay. */
    method Clear()
      requires Valid()
      modifies this
      ensures Valid() && open == old(open)
      ensures directoryScans == old(directoryScans)
      ensures open ==> pending == [] && fileDates == map[] && directoryFiles == map[]
      ensures !open ==> (pending == old(pending) && fileDates == old(fileDates)
                         && directoryFiles == old(directoryFiles))
    {
      if !open {
        return;
      }
      pending := [];
      fileDates := map[];
      directoryFiles := map[];
    }

    /** `close`: pending rows are written, then the connection goes. */
    method Close()
      requires Valid()
      modifies this
      ensures Valid() && !open
      ensures old(open) ==> fileDates == ApplyRows(old(fileDates), old(pending))
      ensures !old(open) ==> fileDates == old(fileDates)
      ensures directoryFiles == old(directoryFiles) && directoryScans == old(directoryScans)
    {
      if open {
        Flush();
        open := false;
      }
    }
  }

  /** Visiting a row of another directory leaves the index alone. */
  lemma AddOtherRow(m: map<(string, string), DirRow>, dir: string, done: set<(string, string)>,
                    k: (string, string))
    requires k in m && k !in done && k.0 != dir
    ensures KeysBySize(m, dir, done + {k}) == KeysBySize(m, dir, done)
  {
    assert DirSizes(m, dir, done + {k}) == DirSizes(m, dir, done);
    forall s | s in DirSizes(m, dir, done)
      ensures KeysAtSize(m, dir, done + {k}, s) == KeysAtSize(m, dir, done, s)
    {
    }
  }

  /** Visiting a row of the directory adds its key at its own size only. */
  lemma KeysAtSizeAdd(m: map<(string, string), DirRow>, dir: string, done: set<(string, string)>,
                      k: (string, string), t: int)
    requires k in m && k.0 == dir
    ensures KeysAtSize(m, dir, done + {k}, t)
         == KeysAtSize(m, dir, done, t) + (if m[k].fileSize == t then {m[k].contentKey} else {})
  {
  }

  /** Visiting a row of the directory adds its key to the set of its size. */
  lemma AddDirRow(m: map<(string, string), DirRow>, dir: string, done: set<(string, string)>,
                  k: (string, string))
    requires k in m && k !in done && k.0 == dir
    ensures var before := KeysBySize(m, dir, done); var s := m[k].fileSize;
      KeysBySize(m, dir, done + {k}) == before[s := (if s in before then before[s] else {}) + {m[k].contentKey}]
  {
    var before := KeysBySize(m, dir, done);
    var after := KeysBySize(m, dir, done + {k});
    var s := m[k].fileSize;
    var expected := before[s := (if s in before then before[s] else {}) + {m[k].contentKey}];
    assert DirSizes(m, dir, done + {k}) == DirSizes(m, dir, done) + {s};
    assert after.Keys == expected.Keys;
    forall t | t in after.Keys
      ensures after[t] == expected[t]
    {
      KeysAtSizeAdd(m, dir, done, k, t);
      if t == s && s !in before {
        assert KeysAtSize(m, dir, done, s) == {};
      }
    }
  }
}
