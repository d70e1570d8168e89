// Extraction of the chosen originals: collision renaming, the per-archive
// counters of `extract_unique_files` and the totals of `extract_all_unique`.
// The disk is the set of paths that exist; `mkdir` and the copy are
// parameters that give the error text of a failing call, or None.

module Extractor {
  import opened Base
  import opened Text
  import opened Paths
  import opened Groups
  import Scanner

  /** The last counter `resolve_collision` tries. */
  const CollisionLimit: nat := 10000

  // ---------------------------------------------------- resolve_collision

  /** `f"{stem}_{counter}{suffix}"`. */
  function CandidateName(name: string, counter: nat): string
  {
    NameStem(name) + "_" + Dec(counter) + NameSuffix(name)
  }

  /** `parent / new_name`. */
  function Candidate(destination: PurePath, counter: nat): PurePath
  {
    Div(Parent(destination), CandidateName(Name(destination), counter))
  }

  /** The loop from `counter` on: the first free candidate, or the safety
      limit's error once candidate `limit` is taken. */
  function FirstFree(destination: PurePath, existing: set<PurePath>, counter: nat, limit: nat): Result<PurePath>
    requires 1 <= counter <= limit
    decreases limit - counter
  {
    if Candidate(destination, counter) !in existing then Ok(Candidate(destination, counter))
    else if counter + 1 > limit then Raised("Too many collisions for " + Str(destination))
    else FirstFree(destination, existing, counter + 1, limit)
  }

  function Resolve(destination: PurePath, existing: set<PurePath>): Result<PurePath>
  {
    if destination !in existing then Ok(destination) else FirstFree(destination, existing, 1, CollisionLimit)
  }

  /** `FileExtractor.resolve_collision`. */
  method ResolveCollision(destination: PurePath, existing: set<PurePath>) returns (r: Result<PurePath>)
    ensures r == Resolve(destination, existing)
  {
    if destination !in existing {
      return Ok(destination);
    }
    var stem, suffix, parent := Stem(destination), Suffix(destination), Parent(destination);
    var counter := 1;
    while true
      invariant 1 <= counter <= CollisionLimit
      invariant FirstFree(destination, existing, counter, CollisionLimit) == Resolve(destination, existing)
      decreases CollisionLimit - counter
    {
      var newPath := Div(parent, stem + "_" + Dec(counter) + suffix);
      if newPath !in existing {
        return Ok(newPath);
      }
      counter := counter + 1;
      if counter > CollisionLimit {
        return Raised("Too many collisions for " + Str(destination));
      }
    }
  }

  /** A result of the loop is the candidate with the smallest free counter
      from `counter` on. */
  lemma {:induction false} FirstFreeOk(destination: PurePath, existing: set<PurePath>, counter: nat, limit: nat)
    returns (n: nat)
    requires 1 <= counter <= limit && FirstFree(destination, existing, counter, limit).Ok?
    ensures counter <= n <= limit
    ensures FirstFree(destination, existing, counter, limit) == Ok(Candidate(destination, n))
    ensures Candidate(destination, n) !in existing
    ensures forall j :: counter <= j < n ==> Candidate(destination, j) in existing
    decreases limit - counter
  {
    if Candidate(destination, counter) in existing {
      n := FirstFreeOk(destination, existing, counter + 1, limit);
    } else {
      n := counter;
    }
  }

  /** The loop raises exactly when every candidate from `counter` up to the
      limit exists. */
  lemma {:induction false} FirstFreeRaised(destination: PurePath, existing: set<PurePath>, counter: nat, limit: nat)
    requires 1 <= counter <= limit
    ensures FirstFree(destination, existing, counter, limit).Raised?
        <==> forall j :: counter <= j <= limit ==> Candidate(destination, j) in existing
    decreases limit - counter
  {
    var c := Candidate(destination, counter);
    if c !in existing {
      assert FirstFree(destination, existing, counter, limit) == Ok(c);
    } else if counter == limit {
      assert FirstFree(destination, existing, counter, limit).Raised?;
    } else {
      FirstFreeRaised(destination, existing, counter + 1, limit);
      assert FirstFree(destination, existing, counter, limit) == FirstFree(destination, existing, counter + 1, limit);
    }
  }

  /** The path returned never exists: the destination itself when it is free,
      else the candidate with the smallest free counter; and the call raises
      exactly when the destination and all 10000 candidates exist. */
  lemma ResolveSpec(destination: PurePath, existing: set<PurePath>)
    ensures var r := Resolve(destination, existing);
      && (destination !in existing ==> r == Ok(destination))
      && (r.Ok? ==> r.value !in existing)
      && (r.Ok? && destination in existing ==>
            exists n :: 1 <= n <= CollisionLimit && r.value == Candidate(destination, n)
              && forall j :: 1 <= j < n ==> Candidate(destination, j) in existing)
      && (r.Raised? <==> destination in existing
                         && forall j :: 1 <= j <= CollisionLimit ==> Candidate(destination, j) in existing)
  {
    if destination in existing {
      FirstFreeRaised(destination, existing, 1, CollisionLimit);
      if FirstFree(destination, existing, 1, CollisionLimit).Ok? {
        var n := FirstFreeOk(destination, existing, 1, CollisionLimit);
      }
    }
  }

  /** A name's stem and suffix contain no '/'. */
  lemma StemSuffixNoSlash(name: string)
    requires '/' !in name
    ensures '/' !in NameStem(name) && '/' !in NameSuffix(name)
  {
    StemSuffix(name);
    assert name == NameStem(name) + NameSuffix(name);
  }

  /** A candidate stays in the destination's directory and is named
      `stem_counter` plus the suffix. */
  lemma CandidateShape(destination: PurePath, counter: nat)
    requires WellFormed(destination)
    ensures WellFormed(Candidate(destination, counter))
    ensures Parent(Candidate(destination, counter)) == Parent(destination)
    ensures Name(Candidate(destination, counter)) == CandidateName(Name(destination), counter)
  {
    var name := Name(destination);
    var c := CandidateName(name, counter);
    StemSuffixNoSlash(name);
    assert '/' !in Dec(counter);
    assert c[|NameStem(name)|] == '_';
    ParsePart(c);
  }

  /** Appending `"_{counter}"` adds no dot. */
  lemma CounterNoDot(head: string, counter: nat)
    ensures LastDot(head + "_" + Dec(counter)) == LastDot(head)
  {
    assert LastDot(Dec(counter)) == -1 by {
      assert forall j :: 0 <= j < |Dec(counter)| ==> IsDigit(Dec(counter)[j]);
    }
    LastDotAppend(head + "_", Dec(counter));
    LastDotAppend(head, "_");
  }

  /** A real suffix is kept after the counter. */
  lemma CandidateKeepsSuffix(name: string, counter: nat)
    requires 0 < LastDot(name) < |name| - 1
    ensures NameSuffix(CandidateName(name, counter)) == NameSuffix(name)
  {
    var i := LastDot(name);
    var head := name[..i] + "_" + Dec(counter);
    var suffix := name[i..];
    assert LastDot(suffix) == 0;
    LastDotAppend(head, suffix);
    assert (head + suffix)[|head|..] == suffix;
  }

  /** Without a real suffix the counter goes at the end of the name. */
  lemma CandidateWithoutSuffix(name: string, counter: nat)
    requires !(0 < LastDot(name) < |name| - 1)
    ensures CandidateName(name, counter) == name + "_" + Dec(counter)
    ensures LastDot(CandidateName(name, counter)) == LastDot(name)
  {
    CounterNoDot(name, counter);
  }

  /** The suffix survives renaming except when the name ends in '.': then
      `pathlib` sees no suffix, the counter goes after the dot, and the
      candidate's suffix becomes `"._{counter}"` (`"a."` becomes `"a._1"`). */
  lemma CandidateSuffix(name: string, counter: nat)
    requires name != "."
    ensures NameSuffix(CandidateName(name, counter)) == NameSuffix(name)
        <==> !(name != [] && name[|name| - 1] == '.')
  {
    var i := LastDot(name);
    if 0 < i < |name| - 1 {
      CandidateKeepsSuffix(name, counter);
    } else {
      CandidateWithoutSuffix(name, counter);
      var c := CandidateName(name, counter);
      if name != [] && name[|name| - 1] == '.' {
        assert i == |name| - 1 && i > 0;
        assert NameSuffix(c) == c[i..];
        assert c[i..][1] == '_';
      }
    }
  }

  // --------------------------------------------------------- extract_file

  /** An `OSError` raised by the file system; a `PermissionError` is
      reported with its own prefix. */
  datatype IoError = IoError(permission: bool, message: string)

  function ErrorText(e: IoError): string
  {
    if e.permission then "Permission denied: " + e.message else e.message
  }

  /** What copying a member to its final path does: the target is created by
      opening it, so a failure while writing leaves a partial file behind. */
  datatype CopyOutcome = Copied | OpenFailed(reason: IoError) | WriteFailed(reason: IoError)

  datatype ExtractionResult = ExtractionResult(
    fileInfo: Scanner.ZipFileInfo,
    destination: PurePath,
    success: bool,
    error: Option<string>,
    skipped: bool,
    bytesExtracted: nat)

  function Failed(f: Scanner.ZipFileInfo, destination: PurePath, error: string): ExtractionResult
  {
    ExtractionResult(f, destination, false, Some(error), false, 0)
  }

  /** `extract_file`: create the parent, resolve collisions, copy; any
      exception is caught and reported against the proposed destination.
      The second component is the set of paths that exist afterwards. */
  function ExtractOne(existing: set<PurePath>, f: Scanner.ZipFileInfo, destination: PurePath,
                      mkdir: PurePath -> Option<IoError>,
                      copy: (Scanner.ZipFileInfo, PurePath) -> CopyOutcome): (ExtractionResult, set<PurePath>)
  {
    if mkdir(Parent(destination)).Some? then (Failed(f, destination, ErrorText(mkdir(Parent(destination)).value)), existing)
    else
      match Resolve(destination, existing)
      case Raised(e) => (Failed(f, destination, e), existing)
      case Ok(final) =>
        match copy(f, final)
        case Copied => (ExtractionResult(f, final, true, None, false, f.fileSize), existing + {final})
        case OpenFailed(e) => (Failed(f, destination, ErrorText(e)), existing)
        case WriteFailed(e) => (Failed(f, destination, ErrorText(e)), existing + {final})
  }

  method ExtractFile(existing: set<PurePath>, f: Scanner.ZipFileInfo, destination: PurePath,
                     mkdir: PurePath -> Option<IoError>, copy: (Scanner.ZipFileInfo, PurePath) -> CopyOutcome)
    returns (result: ExtractionResult, existingAfter: set<PurePath>)
    ensures (result, existingAfter) == ExtractOne(existing, f, destination, mkdir, copy)
  {
    var made := mkdir(Parent(destination));
    if made.Some? {
      return Failed(f, destination, ErrorText(made.value)), existing;
    }
    var finalDest := ResolveCollision(destination, existing);
    if finalDest.Raised? {
      return Failed(f, destination, finalDest.cause), existing;
    }
    var copied := copy(f, finalDest.value);
    match copied {
      case Copied =>
        result := ExtractionResult(f, finalDest.value, true, None, false, f.fileSize);
        existingAfter := existing + {finalDest.value};
      case OpenFailed(e) =>
        result := Failed(f, destination, ErrorText(e));
        existingAfter := existing;
      case WriteFailed(e) =>
        result := Failed(f, destination, ErrorText(e));
        existingAfter := existing + {finalDest.value};
    }
  }

  /** A success writes the resolved path, which did not exist, and reports
      the member's whole size; a failure carries an error and the proposed
      destination; nothing is ever skipped and no path disappears. */
  lemma ExtractOneSpec(existing: set<PurePath>, f: Scanner.ZipFileInfo, destination: PurePath,
                       mkdir: PurePath -> Option<IoError>, copy: (Scanner.ZipFileInfo, PurePath) -> CopyOutcome)
    ensures var (r, after) := ExtractOne(existing, f, destination, mkdir, copy);
      && r.fileInfo == f && !r.skipped && existing <= after
      && (r.success <==> mkdir(Parent(destination)).None? && Resolve(destination, existing).Ok?
                         && copy(f, Resolve(destination, existing).value).Copied?)
      && (r.success ==> r.destination == Resolve(destination, existing).value && r.destination !in existing
                        && after == existing + {r.destination} && r.bytesExtracted == f.fileSize && r.error.None?)
      && (!r.success ==> r.destination == destination && r.error.Some? && r.bytesExtracted == 0)
  {
    ResolveSpec(destination, existing);
  }

  // ------------------------------------------------- extract_unique_files

  datatype ZipExtractionSummary = ZipExtractionSummary(
    zipPath: string,
    totalFiles: nat,
    extractedCount: nat,
    skippedCount: nat,
    errorCount: nat,
    bytesExtracted: nat,
    errors: seq<string>)

  /** The results of extracting `files` in order, and the paths that exist
      afterwards. */
  function Outcomes(existing: set<PurePath>, files: seq<(Scanner.ZipFileInfo, PurePath)>,
                    mkdir: PurePath -> Option<IoError>, copy: (Scanner.ZipFileInfo, PurePath) -> CopyOutcome)
    : (o: (seq<ExtractionResult>, set<PurePath>))
    ensures |o.0| == |files|
  {
    if files == [] then ([], existing)
    else
      var prev := Outcomes(existing, files[..|files| - 1], mkdir, copy);
      var step := ExtractOne(prev.1, files[|files| - 1].0, files[|files| - 1].1, mkdir, copy);
      (prev.0 + [step.0], step.1)
  }

  function SuccessCount(rs: seq<ExtractionResult>): (n: nat)
    ensures n <= |rs|
  {
    if rs == [] then 0 else SuccessCount(rs[..|rs| - 1]) + (if rs[|rs| - 1].success then 1 else 0)
  }

  function SuccessBytes(rs: seq<ExtractionResult>): nat
  {
    if rs == [] then 0 else SuccessBytes(rs[..|rs| - 1]) + (if rs[|rs| - 1].success then rs[|rs| - 1].bytesExtracted else 0)
  }

  /** `f"{file_path}: {error}"` for every failure, in order. */
  function ErrorLines(rs: seq<ExtractionResult>): seq<string>
  {
    if rs == [] then []
    else
      var r := rs[|rs| - 1];
      ErrorLines(rs[..|rs| - 1])
      + (if r.success then [] else [r.fileInfo.filePath + ": " + (if r.error.Some? then r.error.value else "None")])
  }

  /** How `zipfile.ZipFile(zip_path, 'r')` ends: the archive opens, it
      raises `BadZipFile` (which is caught), or it raises an `OSError` such
      as FileNotFoundError or PermissionError (which is not). */
  datatype ArchiveOpen = Opens | BadZip(message: string) | OpenFails(message: string)

  /** What `extract_unique_files` reports for one archive and the paths that
      exist afterwards; an archive that fails to open with an `OSError`
      raises before any file is written. */
  function UniqueFiles(zipPath: string, open: ArchiveOpen, files: seq<(Scanner.ZipFileInfo, PurePath)>,
                       existing: set<PurePath>, mkdir: PurePath -> Option<IoError>,
                       copy: (Scanner.ZipFileInfo, PurePath) -> CopyOutcome)
    : Result<(ZipExtractionSummary, set<PurePath>)>
  {
    match open
    case OpenFails(m) => Raised(m)
    case BadZip(m) =>
      Ok((ZipExtractionSummary(zipPath, |files|, 0, 0, |files|, 0, ["Bad zip file: " + m]), existing))
    case Opens =>
      var o := Outcomes(existing, files, mkdir, copy);
      Ok((ZipExtractionSummary(zipPath, |files|, SuccessCount(o.0), 0, |o.0| - SuccessCount(o.0),
                               SuccessBytes(o.0), ErrorLines(o.0)), o.1))
  }

  /** One more file extends the outcomes by its result. */
  lemma OutcomesStep(existing: set<PurePath>, files: seq<(Scanner.ZipFileInfo, PurePath)>, i: nat,
                     mkdir: PurePath -> Option<IoError>, copy: (Scanner.ZipFileInfo, PurePath) -> CopyOutcome,
                     results: seq<ExtractionResult>, disk: set<PurePath>, result: ExtractionResult, after: set<PurePath>)
    requires i < |files| && (results, disk) == Outcomes(existing, files[..i], mkdir, copy)
    requires (result, after) == ExtractOne(disk, files[i].0, files[i].1, mkdir, copy)
    ensures (results + [result], after) == Outcomes(existing, files[..i + 1], mkdir, copy)
    ensures result.fileInfo == files[i].0 && !result.skipped
  {
    assert files[..i + 1][..i] == files[..i];
  }

  /** The counters of one more result. */
  lemma CountsStep(rs: seq<ExtractionResult>, r: ExtractionResult)
    ensures SuccessCount(rs + [r]) == SuccessCount(rs) + (if r.success then 1 else 0)
    ensures SuccessBytes(rs + [r]) == SuccessBytes(rs) + (if r.success then r.bytesExtracted else 0)
    ensures ErrorLines(rs + [r]) == ErrorLines(rs)
      + (if r.success then [] else [r.fileInfo.filePath + ": " + (if r.error.Some? then r.error.value else "None")])
  {
    assert (rs + [r])[..|rs|] == rs;
  }

  /** The counters of `extract_unique_files` after one more result: a
      success adds its bytes, a skip is counted, and a failure logs a line. */
  method CountResult(ghost results: seq<ExtractionResult>, result: ExtractionResult,
                     extractedCount: int, skippedCount: int, errorCount: int, bytesExtracted: int, errors: seq<string>)
    returns (extractedCount': int, skippedCount': int, errorCount': int, bytesExtracted': int, errors': seq<string>)
    requires !result.skipped && skippedCount == 0
    requires extractedCount == SuccessCount(results) && errorCount + SuccessCount(results) == |results|
    requires bytesExtracted == SuccessBytes(results) && errors == ErrorLines(results)
    ensures extractedCount' == SuccessCount(results + [result])
    ensures errorCount' + SuccessCount(results + [result]) == |results| + 1
    ensures bytesExtracted' == SuccessBytes(results + [result]) && errors' == ErrorLines(results + [result])
    ensures skippedCount' == 0
  {
    CountsStep(results, result);
    extractedCount', skippedCount', errorCount', bytesExtracted', errors' :=
      extractedCount, skippedCount, errorCount, bytesExtracted, errors;
    if result.success {
      extractedCount' := extractedCount + 1;
      bytesExtracted' := bytesExtracted + result.bytesExtracted;
    } else if result.skipped {
      skippedCount' := skippedCount + 1;
    } else {
      errorCount' := errorCount + 1;
      errors' := errors + [result.fileInfo.filePath + ": " + (if result.error.Some? then result.error.value else "None")];
    }
  }

  /** `extract_unique_files`. */
  method ExtractUniqueFiles(zipPath: string, open: ArchiveOpen, files: seq<(Scanner.ZipFileInfo, PurePath)>,
                            existing: set<PurePath>, mkdir: PurePath -> Option<IoError>,
                            copy: (Scanner.ZipFileInfo, PurePath) -> CopyOutcome)
    returns (r: Result<(ZipExtractionSummary, set<PurePath>)>)
    ensures r == UniqueFiles(zipPath, open, files, existing, mkdir, copy)
  {
    var extractedCount, skippedCount, errorCount, bytesExtracted := 0, 0, 0, 0;
    var errors: seq<string> := [];
    if open.OpenFails? {
      return Raised(open.message);
    }
    if open.BadZip? {
      errors := ["Bad zip file: " + open.message];
      errorCount := |files|;
      return Ok((ZipExtractionSummary(zipPath, |files|, extractedCount, skippedCount, errorCount, bytesExtracted, errors),
                 existing));
    }
    var existingAfter := existing;
    ghost var results: seq<ExtractionResult> := [];
    var i := 0;
    while i < |files|
      invariant 0 <= i <= |files|
      invariant (results, existingAfter) == Outcomes(existing, files[..i], mkdir, copy)
      invariant extractedCount == SuccessCount(results) && errorCount + SuccessCount(results) == i
      invariant bytesExtracted == SuccessBytes(results) && errors == ErrorLines(results)
      invariant skippedCount == 0
    {
      var result, after := ExtractFile(existingAfter, files[i].0, files[i].1, mkdir, copy);
      OutcomesStep(existing, files, i, mkdir, copy, results, existingAfter, result, after);
      extractedCount, skippedCount, errorCount, bytesExtracted, errors :=
        CountResult(results, result, extractedCount, skippedCount, errorCount, bytesExtracted, errors);
      existingAfter := after;
      results := results + [result];
      i := i + 1;
    }
    assert files[..i] == files;
    r := Ok((ZipExtractionSummary(zipPath, |files|, extractedCount, skippedCount, errorCount, bytesExtracted, errors),
             existingAfter));
  }

  /** Every failure logs exactly one error line. */
  lemma {:induction false} ErrorLinesCount(rs: seq<ExtractionResult>)
    ensures |ErrorLines(rs)| + SuccessCount(rs) == |rs|
  {
    if rs != [] {
      ErrorLinesCount(rs[..|rs| - 1]);
    }
  }

  /** An `OSError` at open escapes with its message; otherwise each file of
      the archive is counted once, as extracted or as an error, none as
      skipped; a bad zip extracts nothing and logs one line, and otherwise
      every error is logged once. */
  lemma UniqueFilesCounts(zipPath: string, open: ArchiveOpen, files: seq<(Scanner.ZipFileInfo, PurePath)>,
                          existing: set<PurePath>, mkdir: PurePath -> Option<IoError>,
                          copy: (Scanner.ZipFileInfo, PurePath) -> CopyOutcome)
    ensures var u := UniqueFiles(zipPath, open, files, existing, mkdir, copy);
      && (u.Raised? <==> open.OpenFails?)
      && (open.OpenFails? ==> u.cause == open.message)
      && (u.Ok? ==>
            var (s, after) := u.value;
            && s.zipPath == zipPath && s.totalFiles == |files| && s.skippedCount == 0
            && s.extractedCount + s.errorCount == |files|
            && (open.BadZip? ==> s.extractedCount == 0 && s.bytesExtracted == 0 && after == existing
                                 && s.errors == ["Bad zip file: " + open.message])
            && (open.Opens? ==> |s.errors| == s.errorCount && existing <= after))
  {
    if open.Opens? {
      ErrorLinesCount(Outcomes(existing, files, mkdir, copy).0);
      OutcomesNeverOverwrite(existing, files, mkdir, copy);
    }
  }

  /** The set of destinations written by successful results. */
  function Written(rs: seq<ExtractionResult>): set<PurePath>
  {
    if rs == [] then {} else Written(rs[..|rs| - 1]) + (if rs[|rs| - 1].success then {rs[|rs| - 1].destination} else {})
  }

  lemma {:induction false} WrittenHas(rs: seq<ExtractionResult>, j: nat)
    requires j < |rs| && rs[j].success
    ensures rs[j].destination in Written(rs)
  {
    if j < |rs| - 1 {
      WrittenHas(rs[..|rs| - 1], j);
    }
  }

  /** Extraction never overwrites: every success writes a path that did not
      exist before and that no earlier success wrote, and afterwards the old
      paths and every written one exist. */
  lemma {:induction false} OutcomesNeverOverwrite(existing: set<PurePath>, files: seq<(Scanner.ZipFileInfo, PurePath)>,
                                                  mkdir: PurePath -> Option<IoError>,
                                                  copy: (Scanner.ZipFileInfo, PurePath) -> CopyOutcome)
    ensures var o := Outcomes(existing, files, mkdir, copy);
      && existing + Written(o.0) <= o.1
      && (forall i :: 0 <= i < |o.0| && o.0[i].success ==> o.0[i].destination !in existing)
      && (forall i, j :: 0 <= j < i < |o.0| && o.0[i].success && o.0[j].success ==>
            o.0[i].destination != o.0[j].destination)
  {
    if files != [] {
      var init := files[..|files| - 1];
      OutcomesNeverOverwrite(existing, init, mkdir, copy);
      var prev := Outcomes(existing, init, mkdir, copy);
      var last := files[|files| - 1];
      var step := ExtractOne(prev.1, last.0, last.1, mkdir, copy);
      ExtractOneSpec(prev.1, last.0, last.1, mkdir, copy);
      var rs := prev.0 + [step.0];
      assert rs[..|rs| - 1] == prev.0;
      forall j | 0 <= j < |prev.0| && prev.0[j].success ensures prev.0[j].destination in prev.1 {
        WrittenHas(prev.0, j);
      }
    }
  }

  // --------------------------------------------------- extract_all_unique

  /** `(total_extracted, total_errors, total_bytes)`. */
  datatype Totals = Totals(extracted: nat, errors: nat, bytes: nat)

  function AddSummary(t: Totals, s: ZipExtractionSummary): Totals
  {
    Totals(t.extracted + s.extractedCount, t.errors + s.errorCount, t.bytes + s.bytesExtracted)
  }

  function FilesOf(filesByZip: Table<string, (Scanner.ZipFileInfo, PurePath)>, zip: string)
    : seq<(Scanner.ZipFileInfo, PurePath)>
  {
    match Get(filesByZip, zip)
    case Some(fs) => fs
    case None => []
  }

  /** How `extract_all_unique` ends: with the totals, or with the error that
      escaped from an archive that failed to open. Either way `existing` is
      what is on disk afterwards. */
  datatype AllExtraction = Completed(totals: Totals, existing: set<PurePath>) | Aborted(cause: string, existing: set<PurePath>)

  /** The state after one more archive, from a run that has not aborted. */
  function Continue(prev: AllExtraction, u: Result<(ZipExtractionSummary, set<PurePath>)>): AllExtraction
    requires prev.Completed?
  {
    match u
    case Raised(m) => Aborted(m, prev.existing)
    case Ok(v) => Completed(AddSummary(prev.totals, v.0), v.1)
  }

  /** The outcome after the archives of `order`; an abort ends the run. */
  function AllOutcomes(order: seq<string>, filesByZip: Table<string, (Scanner.ZipFileInfo, PurePath)>,
                       opens: string -> ArchiveOpen, existing: set<PurePath>,
                       mkdir: PurePath -> Option<IoError>, copy: (Scanner.ZipFileInfo, PurePath) -> CopyOutcome)
    : AllExtraction
  {
    if order == [] then Completed(Totals(0, 0, 0), existing)
    else
      var prev := AllOutcomes(order[..|order| - 1], filesByZip, opens, existing, mkdir, copy);
      var zip := order[|order| - 1];
      if prev.Aborted? then prev
      else Continue(prev, UniqueFiles(zip, opens(zip), FilesOf(filesByZip, zip), prev.existing, mkdir, copy))
  }

  /** How many files the archives of `order` hold. */
  function FileCount(order: seq<string>, filesByZip: Table<string, (Scanner.ZipFileInfo, PurePath)>): nat
  {
    if order == [] then 0 else FileCount(order[..|order| - 1], filesByZip) + |FilesOf(filesByZip, order[|order| - 1])|
  }

  /** One more archive continues the run. */
  lemma AllOutcomesStep(order: seq<string>, i: nat, filesByZip: Table<string, (Scanner.ZipFileInfo, PurePath)>,
                        opens: string -> ArchiveOpen, existing: set<PurePath>,
                        mkdir: PurePath -> Option<IoError>, copy: (Scanner.ZipFileInfo, PurePath) -> CopyOutcome,
                        prev: AllExtraction, u: Result<(ZipExtractionSummary, set<PurePath>)>)
    requires i < |order| && prev == AllOutcomes(order[..i], filesByZip, opens, existing, mkdir, copy) && prev.Completed?
    requires u == UniqueFiles(order[i], opens(order[i]), FilesOf(filesByZip, order[i]), prev.existing, mkdir, copy)
    ensures Continue(prev, u) == AllOutcomes(order[..i + 1], filesByZip, opens, existing, mkdir, copy)
  {
    assert order[..i + 1][..i] == order[..i];
  }

  /** Once a run has aborted, the later archives change nothing. */
  lemma {:induction false} AbortedStays(order: seq<string>, i: nat, filesByZip: Table<string, (Scanner.ZipFileInfo, PurePath)>,
                                        opens: string -> ArchiveOpen, existing: set<PurePath>,
                                        mkdir: PurePath -> Option<IoError>,
                                        copy: (Scanner.ZipFileInfo, PurePath) -> CopyOutcome)
    requires i <= |order| && AllOutcomes(order[..i], filesByZip, opens, existing, mkdir, copy).Aborted?
    ensures AllOutcomes(order, filesByZip, opens, existing, mkdir, copy)
            == AllOutcomes(order[..i], filesByZip, opens, existing, mkdir, copy)
    decreases |order|
  {
    if i < |order| {
      var init := order[..|order| - 1];
      assert init[..i] == order[..i];
      AbortedStays(init, i, filesByZip, opens, existing, mkdir, copy);
    } else {
      assert order[..i] == order;
    }
  }

  /** `extract_all_unique`: the archives in sorted order, their summaries
      added up, until an archive's `OSError` escapes. */
  method ExtractAllUnique(filesByZip: Table<string, (Scanner.ZipFileInfo, PurePath)>, opens: string -> ArchiveOpen,
                          existing: set<PurePath>, mkdir: PurePath -> Option<IoError>,
                          copy: (Scanner.ZipFileInfo, PurePath) -> CopyOutcome)
    returns (r: AllExtraction)
    ensures r == AllOutcomes(Sort(Keys(filesByZip)), filesByZip, opens, existing, mkdir, copy)
  {
    if filesByZip == [] {
      return Completed(Totals(0, 0, 0), existing);
    }
    r := Completed(Totals(0, 0, 0), existing);
    var sortedZips := Sort(Keys(filesByZip));
    var i := 0;
    while i < |sortedZips|
      invariant 0 <= i <= |sortedZips|
      invariant r == AllOutcomes(sortedZips[..i], filesByZip, opens, existing, mkdir, copy) && r.Completed?
    {
      var zip := sortedZips[i];
      var filesToExtract := FilesOf(filesByZip, zip);
      var u := ExtractUniqueFiles(zip, opens(zip), filesToExtract, r.existing, mkdir, copy);
      AllOutcomesStep(sortedZips, i, filesByZip, opens, existing, mkdir, copy, r, u);
      if u.Raised? {
        r := Aborted(u.cause, r.existing);
        AbortedStays(sortedZips, i + 1, filesByZip, opens, existing, mkdir, copy);
        return;
      }
      r := Completed(AddSummary(r.totals, u.value.0), u.value.1);
      i := i + 1;
    }
    assert sortedZips[..i] == sortedZips;
  }

  /** A completed run counts every file of every archive once, as extracted
      or as an error; with no archives the totals are zero. */
  lemma {:induction false} AllOutcomesCount(order: seq<string>, filesByZip: Table<string, (Scanner.ZipFileInfo, PurePath)>,
                                            opens: string -> ArchiveOpen, existing: set<PurePath>,
                                            mkdir: PurePath -> Option<IoError>,
                                            copy: (Scanner.ZipFileInfo, PurePath) -> CopyOutcome)
    ensures var r := AllOutcomes(order, filesByZip, opens, existing, mkdir, copy);
      r.Completed? ==> r.totals.extracted + r.totals.errors == FileCount(order, filesByZip)
  {
    if order != [] {
      var init := order[..|order| - 1];
      var zip := order[|order| - 1];
      AllOutcomesCount(init, filesByZip, opens, existing, mkdir, copy);
      var prev := AllOutcomes(init, filesByZip, opens, existing, mkdir, copy);
      if prev.Completed? {
        UniqueFilesCounts(zip, opens(zip), FilesOf(filesByZip, zip), prev.existing, mkdir, copy);
      }
    }
  }

  /** A run aborts iff one of its archives fails to open with an `OSError`,
      and the error that escapes is the first such archive's. */
  /** One archive aborts the run exactly when it fails to open, with that failure's message. */
  lemma ContinueAborts(prev: AllExtraction, zip: string, open: ArchiveOpen,
                       files: seq<(Scanner.ZipFileInfo, PurePath)>, mkdir: PurePath -> Option<IoError>,
                       copy: (Scanner.ZipFileInfo, PurePath) -> CopyOutcome)
    requires prev.Completed?
    ensures var r := Continue(prev, UniqueFiles(zip, open, files, prev.existing, mkdir, copy));
      && (r.Aborted? <==> open.OpenFails?)
      && (r.Aborted? ==> r.cause == open.message && r.existing == prev.existing)
  {
  }

  lemma {:induction false} AbortsAtFirstOpenFailure(order: seq<string>,
                                                    filesByZip: Table<string, (Scanner.ZipFileInfo, PurePath)>,
                                                    opens: string -> ArchiveOpen, existing: set<PurePath>,
                                                    mkdir: PurePath -> Option<IoError>,
                                                    copy: (Scanner.ZipFileInfo, PurePath) -> CopyOutcome)
    ensures var r := AllOutcomes(order, filesByZip, opens, existing, mkdir, copy);
      && (r.Aborted? <==> exists k :: 0 <= k < |order| && opens(order[k]).OpenFails?)
      && (r.Aborted? ==> exists k :: 0 <= k < |order| && opens(order[k]).OpenFails? && r.cause == opens(order[k]).message
                                     && forall j :: 0 <= j < k ==> !opens(order[j]).OpenFails?)
  {
    if order != [] {
      var init := order[..|order| - 1];
      var zip := order[|order| - 1];
      AbortsAtFirstOpenFailure(init, filesByZip, opens, existing, mkdir, copy);
      var prev := AllOutcomes(init, filesByZip, opens, existing, mkdir, copy);
      if prev.Completed? {
        ContinueAborts(prev, zip, opens(zip), FilesOf(filesByZip, zip), mkdir, copy);
        assert forall k :: 0 <= k < |init| ==> order[k] == init[k];
        if opens(zip).OpenFails? {
          assert order[|order| - 1] == zip;
        }
      } else {
        var k :| 0 <= k < |init| && opens(init[k]).OpenFails? && prev.cause == opens(init[k]).message
                 && forall j :: 0 <= j < k ==> !opens(init[j]).OpenFails?;
        assert order[k] == init[k];
        assert forall j :: 0 <= j < k ==> order[j] == init[j];
      }
    }
  }

  /** The archives are visited in path order (`sorted` on Path objects), each once. */
  lemma ExtractionOrder(filesByZip: Table<string, (Scanner.ZipFileInfo, PurePath)>)
    ensures Sorted(Sort(Keys(filesByZip))) && multiset(Sort(Keys(filesByZip))) == multiset(Keys(filesByZip))
  {
    SortSorted(Keys(filesByZip));
  }
}
