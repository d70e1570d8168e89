/** `cleanup.py`: what becomes of a source archive once its files have been
    extracted. The manager keeps two sticky choices, "delete all" and "keep
    all"; the interactive prompt reads its answers from a sequence of inputs,
    and the file system calls of `delete_zip` (`stat`, `is_zipfile`,
    `unlink`) are described by the parameter `disk`. */
module Cleanup {
  import opened Base
  import opened Text
  import opened Paths

  datatype CleanupMode = Prompt | AutoDelete | KeepAll

  datatype CleanupResult = CleanupResult(zipPath: PurePath, deleted: bool, sizeFreed: nat, error: Option<string>)

  /** The result for an archive that is left in place without trying. */
  function Kept(zipPath: PurePath): CleanupResult
  {
    CleanupResult(zipPath, false, 0, None)
  }

  /** `PermissionError`, `FileNotFoundError`, or any other exception with its text. */
  datatype OsError = PermissionDenied | NotFound | Other(message: string)

  datatype Stat = Size(bytes: nat) | StatFailed(error: OsError)

  /** What the file system answers during `delete_zip`. */
  datatype ZipOnDisk = ZipOnDisk(stat: Stat, isZip: bool, unlink: Option<OsError>)

  function OsErrorText(e: OsError): string
  {
    match e
    case PermissionDenied => "Permission denied - file may be in use"
    case NotFound => "File not found"
    case Other(message) => message
  }

  /** `delete_zip`: the archive is removed only when its size could be read,
      it is a valid zip and the unlink succeeds; only then is space freed,
      and every refusal or failure carries a message. */
  function DeleteZip(zipPath: PurePath, disk: ZipOnDisk): (r: CleanupResult)
    ensures r.zipPath == zipPath
    ensures r.deleted <==> disk.stat.Size? && disk.isZip && disk.unlink.None?
    ensures r.deleted ==> r.sizeFreed == disk.stat.bytes && r.error.None?
    ensures !r.deleted ==> r.sizeFreed == 0 && r.error.Some?
  {
    match disk.stat
    case StatFailed(e) => CleanupResult(zipPath, false, 0, Some(OsErrorText(e)))
    case Size(size) =>
      if !disk.isZip then CleanupResult(zipPath, false, 0, Some("Not a valid zip file - refusing to delete"))
      else if disk.unlink.Some? then CleanupResult(zipPath, false, 0, Some(OsErrorText(disk.unlink.value)))
      else CleanupResult(zipPath, true, size, None)
  }

  // ---------------------------------------------------------------- the prompt

  /** One answer typed at the prompt, or Ctrl-C. */
  datatype Input = Line(text: string) | Interrupt

  /** What the prompt loop settles on. `EndOfInput`: `console.input` raises
      `EOFError`, which the loop does not catch. */
  datatype Choice = Yes | No | All | Never | Interrupted | EndOfInput

  /** The answer an input stands for, or `None` when it is re-prompted. */
  function ChoiceOf(input: Input): Option<Choice>
  {
    match input
    case Interrupt => Some(Interrupted)
    case Line(text) =>
      var response := Lower(Strip(text));
      if response == "y" || response == "yes" then Some(Yes)
      else if response == "n" || response == "no" then Some(No)
      else if response == "a" || response == "all" then Some(All)
      else if response == "v" || response == "never" then Some(Never)
      else None
  }

  /** The choice the loop ends with and how many inputs it reads. */
  function FirstChoice(inputs: seq<Input>): (c: (Choice, nat))
    ensures c.1 <= |inputs|
  {
    if inputs == [] then (EndOfInput, 0)
    else match ChoiceOf(inputs[0])
      case Some(choice) => (choice, 1)
      case None => var (choice, n) := FirstChoice(inputs[1..]); (choice, n + 1)
  }

  /** The loop reads up to and including the first input that is an answer,
      and runs out of input only when none is. */
  lemma {:induction false} FirstChoiceSpec(inputs: seq<Input>)
    ensures var (choice, n) := FirstChoice(inputs);
      && (forall j :: 0 <= j < n - 1 ==> ChoiceOf(inputs[j]).None?)
      && (choice == EndOfInput <==> n == |inputs| && forall j :: 0 <= j < |inputs| ==> ChoiceOf(inputs[j]).None?)
      && (choice != EndOfInput ==> 1 <= n && ChoiceOf(inputs[n - 1]) == Some(choice))
  {
    if inputs != [] && ChoiceOf(inputs[0]).None? {
      FirstChoiceSpec(inputs[1..]);
      var (choice, n) := FirstChoice(inputs[1..]);
      assert forall j :: 1 <= j < |inputs| ==> inputs[j] == inputs[1..][j - 1];
    }
  }

  /** Everything one `prompt_cleanup` call decides: its result, the two flags
      afterwards and the inputs it leaves unread. */
  datatype Outcome = Outcome(result: Result<CleanupResult>, deleteAll: bool, keepAll: bool, rest: seq<Input>)

  function PromptOutcome(deleteAll: bool, keepAll: bool, zipPath: PurePath, errorCount: int, inputs: seq<Input>,
                         disk: ZipOnDisk): Outcome
  {
    if keepAll then Outcome(Ok(Kept(zipPath)), deleteAll, keepAll, inputs)
    else if deleteAll then Outcome(Ok(DeleteZip(zipPath, disk)), deleteAll, keepAll, inputs)
    else if errorCount > 0 then Outcome(Ok(Kept(zipPath)), deleteAll, keepAll, inputs)
    else
      var (choice, n) := FirstChoice(inputs);
      var rest := inputs[n..];
      match choice
      case Yes => Outcome(Ok(DeleteZip(zipPath, disk)), deleteAll, keepAll, rest)
      case No => Outcome(Ok(Kept(zipPath)), deleteAll, keepAll, rest)
      case All => Outcome(Ok(DeleteZip(zipPath, disk)), true, keepAll, rest)
      case Never => Outcome(Ok(Kept(zipPath)), deleteAll, true, rest)
      case Interrupted => Outcome(Ok(Kept(zipPath)), deleteAll, true, rest)
      case EndOfInput => Outcome(Raised("EOFError"), deleteAll, keepAll, rest)
  }

  class CleanupManager {
    const mode: CleanupMode
    /** `_delete_all`: the user answered "all", or the mode is automatic. */
    var deleteAll: bool
    /** `_keep_all`: the user answered "never" or interrupted, or the mode keeps everything. */
    var keepAll: bool

    /** At most one of the sticky choices holds. */
    ghost predicate Valid()
      reads this
    {
      !(deleteAll && keepAll)
    }

    constructor (mode: CleanupMode)
      ensures this.mode == mode && Valid()
      ensures deleteAll == (mode == AutoDelete) && keepAll == (mode == KeepAll)
    {
      this.mode := mode;
      deleteAll := mode == AutoDelete;
      keepAll := mode == KeepAll;
    }

    /** `prompt_cleanup`. `extractedCount` and the archive size only feed the
        message shown before the prompt. */
    method PromptCleanup(zipPath: PurePath, extractedCount: int, errorCount: int, inputs: seq<Input>, disk: ZipOnDisk)
      returns (result: Result<CleanupResult>, rest: seq<Input>)
      requires Valid()
      modifies this
      ensures Valid()
      ensures Outcome(result, deleteAll, keepAll, rest)
              == PromptOutcome(old(deleteAll), old(keepAll), zipPath, errorCount, inputs, disk)
    {
      FlagsMonotone(deleteAll, keepAll, zipPath, errorCount, inputs, disk);
      if keepAll {
        return Ok(Kept(zipPath)), inputs;
      }
      if deleteAll {
        return Ok(DeleteZip(zipPath, disk)), inputs;
      }
      if errorCount > 0 {
        return Ok(Kept(zipPath)), inputs;
      }
      var i := 0;
      while true
        invariant 0 <= i <= |inputs| && deleteAll == old(deleteAll) && keepAll == old(keepAll)
        invariant FirstChoice(inputs[i..]).0 == FirstChoice(inputs).0
        invariant FirstChoice(inputs[i..]).1 + i == FirstChoice(inputs).1
        decreases |inputs| - i
      {
        if i == |inputs| {
          return Raised("EOFError"), inputs[i..];
        }
        assert inputs[i..][1..] == inputs[i + 1..];
        var input := inputs[i];
        i := i + 1;
        match input
        case Interrupt =>
          keepAll := true;
          return Ok(Kept(zipPath)), inputs[i..];
        case Line(text) =>
          var response := Lower(Strip(text));
          if response == "y" || response == "yes" {
            return Ok(DeleteZip(zipPath, disk)), inputs[i..];
          } else if response == "n" || response == "no" {
            return Ok(Kept(zipPath)), inputs[i..];
          } else if response == "a" || response == "all" {
            deleteAll := true;
            return Ok(DeleteZip(zipPath, disk)), inputs[i..];
          } else if response == "v" || response == "never" {
            keepAll := true;
            return Ok(Kept(zipPath)), inputs[i..];
          }
      }
    }
  }

  // ------------------------------------------------------------------ lemmas

  /** The flags only ever go from false to true, and never both become true. */
  lemma FlagsMonotone(deleteAll: bool, keepAll: bool, zipPath: PurePath, errorCount: int, inputs: seq<Input>,
                      disk: ZipOnDisk)
    ensures var o := PromptOutcome(deleteAll, keepAll, zipPath, errorCount, inputs, disk);
      && (deleteAll ==> o.deleteAll) && (keepAll ==> o.keepAll)
      && (!(deleteAll && keepAll) ==> !(o.deleteAll && o.keepAll))
  {
  }

  /** Once "keep all" holds, a call deletes nothing, reads no input and changes no flag. */
  lemma KeepAllIsFinal(deleteAll: bool, zipPath: PurePath, errorCount: int, inputs: seq<Input>, disk: ZipOnDisk)
    ensures PromptOutcome(deleteAll, true, zipPath, errorCount, inputs, disk)
            == Outcome(Ok(CleanupResult(zipPath, false, 0, None)), deleteAll, true, inputs)
  {
  }

  /** Under "delete all", extraction errors make no difference. */
  lemma DeleteAllIgnoresErrors(zipPath: PurePath, errorCount: int, inputs: seq<Input>, disk: ZipOnDisk)
    ensures PromptOutcome(true, false, zipPath, errorCount, inputs, disk)
            == PromptOutcome(true, false, zipPath, 0, inputs, disk)
    ensures PromptOutcome(true, false, zipPath, errorCount, inputs, disk).result.value.deleted
            <==> disk.stat.Size? && disk.isZip && disk.unlink.None?
  {
  }

  /** In prompt mode an archive with extraction errors is kept without asking. */
  lemma ErrorsKeepArchive(zipPath: PurePath, errorCount: int, inputs: seq<Input>, disk: ZipOnDisk)
    requires errorCount > 0
    ensures var o := PromptOutcome(false, false, zipPath, errorCount, inputs, disk);
      o.result.Ok? && !o.result.value.deleted && o.rest == inputs && !o.deleteAll && !o.keepAll
  {
  }

  /** An archive is deleted only when no "keep all" holds, and either "delete
      all" holds or the archive had no errors and the first answer was yes or
      all; and then only when the file system lets it go. */
  lemma DeletedOnlyWhenAllowed(deleteAll: bool, keepAll: bool, zipPath: PurePath, errorCount: int,
                               inputs: seq<Input>, disk: ZipOnDisk)
    ensures var o := PromptOutcome(deleteAll, keepAll, zipPath, errorCount, inputs, disk);
      o.result.Ok? && o.result.value.deleted <==>
        && !keepAll
        && (deleteAll || (errorCount <= 0 && FirstChoice(inputs).0 in {Yes, All}))
        && disk.stat.Size? && disk.isZip && disk.unlink.None?
  {
  }

  /** Each answer's effect: the remaining inputs follow the first answer. */
  lemma AnswerEffects(zipPath: PurePath, errorCount: int, inputs: seq<Input>, disk: ZipOnDisk)
    requires errorCount <= 0
    ensures var o := PromptOutcome(false, false, zipPath, errorCount, inputs, disk);
      var (choice, n) := FirstChoice(inputs);
      && inputs == inputs[..n] + o.rest
      && (o.deleteAll <==> choice == All)
      && (o.keepAll <==> choice == Never || choice == Interrupted)
      && (o.result.Raised? <==> choice == EndOfInput)
      && (choice in {No, Never, Interrupted} ==> o.result == Ok(Kept(zipPath)))
      && (choice in {Yes, All} ==> o.result == Ok(DeleteZip(zipPath, disk)))
  {
  }
}
