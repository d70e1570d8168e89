/** `progress_display.py`: the counters behind the live progress panel and the
    middle-truncation of long paths. Timing, rates and the rendering itself
    are not part of this model. */
module ProgressDisplay {

  /** Where Python's slice bound `k` falls in a string of length `n`: a
      negative bound counts from the end, and both are clamped. */
  function SliceBound(n: nat, k: int): (b: nat)
    ensures b <= n
  {
    if k < 0 then (if n + k < 0 then 0 else n + k) else if k > n then n else k
  }

  /** `truncate_path`. `(max_length - 3) // 2` is Dafny's `/`, which agrees
      with Python's floor division for the divisor 2. */
  function TruncatePath(path: string, maxLength: int): (r: string)
    ensures |path| <= maxLength ==> r == path
  {
    if |path| <= maxLength then path
    else
      var half := (maxLength - 3) / 2;
      path[..SliceBound(|path|, half)] + "..." + path[SliceBound(|path|, -half)..]
  }

  /** From a limit of 5 on, a long path keeps `half` characters from each end
      around "...", and the result fits the limit. */
  lemma TruncateFits(path: string, maxLength: int)
    requires maxLength >= 5 && |path| > maxLength
    ensures var half := (maxLength - 3) / 2;
      var r := TruncatePath(path, maxLength);
      && |r| == 2 * half + 3 <= maxLength
      && r == path[..half] + "..." + path[|path| - half..]
  {
  }

  /** With a limit of 3 or 4, `half` is 0 and `path[-0:]` is the whole path,
      so the "truncated" path is longer than the original. Callers pass 40,
      55 and 60. */
  lemma TruncateTinyLimit(path: string, maxLength: int)
    requires 3 <= maxLength <= 4 && |path| > maxLength
    ensures TruncatePath(path, maxLength) == "..." + path
    ensures |TruncatePath(path, maxLength)| > |path|
  {
    assert path[..0] == [];
    assert path[0..] == path;
  }

  /** The recent-files list after one more file: appended, and the oldest
      entry dropped once it is longer than `maxRecent`. */
  function PushRecent(recent: seq<string>, filename: string, maxRecent: int): seq<string>
  {
    var appended := recent + [filename];
    if |appended| > maxRecent then appended[1..] else appended
  }

  /** The list never grows past `maxRecent`, ends with the newest file, and
      otherwise keeps the most recent entries in order. */
  lemma PushRecentSpec(recent: seq<string>, filename: string, maxRecent: int)
    requires |recent| <= maxRecent
    ensures var r := PushRecent(recent, filename, maxRecent);
      && |r| <= maxRecent
      && (maxRecent >= 1 ==> r[|r| - 1] == filename)
      && (maxRecent >= 1 ==> r[..|r| - 1] == recent[|recent| + 1 - |r|..])
  {
    var appended := recent + [filename];
    if |appended| > maxRecent {
      assert PushRecent(recent, filename, maxRecent) == appended[1..];
      if |recent| >= 1 {
        assert appended[1..] == recent[1..] + [filename];
      }
    } else {
      assert PushRecent(recent, filename, maxRecent) == appended;
    }
  }

  class ProgressStats {
    var totalFiles: int
    var completedFiles: int
    var totalBytes: int
    var processedBytes: int
    var duplicatesFound: int
    var uniqueFiles: int
    var errors: int
    var currentFile: string
    var recentFiles: seq<string>
    var maxRecent: int

    /** Every completed file was counted as a duplicate, a unique file or an error. */
    ghost predicate Counted()
      reads this
    {
      completedFiles == duplicatesFound + uniqueFiles + errors
    }

    /** `ProgressStats(total_files=..., total_bytes=...)`: all counters at zero. */
    constructor (totalFiles: int, totalBytes: int)
      ensures this.totalFiles == totalFiles && this.totalBytes == totalBytes
      ensures completedFiles == 0 && processedBytes == 0 && duplicatesFound == 0 && uniqueFiles == 0 && errors == 0
      ensures currentFile == "" && recentFiles == [] && maxRecent == 5
      ensures Counted()
    {
      this.totalFiles := totalFiles;
      this.totalBytes := totalBytes;
      completedFiles, processedBytes, duplicatesFound, uniqueFiles, errors := 0, 0, 0, 0, 0;
      currentFile := "";
      recentFiles := [];
      maxRecent := 5;
    }

    /** `add_completed`: one more file, counted as exactly one of duplicate or unique. */
    method AddCompleted(filename: string, fileSize: int, isDuplicate: bool)
      modifies this
      ensures completedFiles == old(completedFiles) + 1 && processedBytes == old(processedBytes) + fileSize
      ensures duplicatesFound == old(duplicatesFound) + (if isDuplicate then 1 else 0)
      ensures uniqueFiles == old(uniqueFiles) + (if isDuplicate then 0 else 1)
      ensures recentFiles == PushRecent(old(recentFiles), filename, maxRecent)
      ensures errors == old(errors) && totalFiles == old(totalFiles) && totalBytes == old(totalBytes)
      ensures currentFile == old(currentFile) && maxRecent == old(maxRecent)
      ensures old(Counted()) ==> Counted()
    {
      completedFiles := completedFiles + 1;
      processedBytes := processedBytes + fileSize;
      if isDuplicate {
        duplicatesFound := duplicatesFound + 1;
      } else {
        uniqueFiles := uniqueFiles + 1;
      }
      recentFiles := recentFiles + [filename];
      if |recentFiles| > maxRecent {
        recentFiles := recentFiles[1..];
      }
    }

    /** `add_error`: only the completed and error counters move. */
    method AddError(filename: string)
      modifies this
      ensures completedFiles == old(completedFiles) + 1 && errors == old(errors) + 1
      ensures processedBytes == old(processedBytes) && duplicatesFound == old(duplicatesFound)
      ensures uniqueFiles == old(uniqueFiles) && recentFiles == old(recentFiles)
      ensures totalFiles == old(totalFiles) && totalBytes == old(totalBytes)
      ensures currentFile == old(currentFile) && maxRecent == old(maxRecent)
      ensures old(Counted()) ==> Counted()
    {
      completedFiles := completedFiles + 1;
      errors := errors + 1;
    }
  }
}
