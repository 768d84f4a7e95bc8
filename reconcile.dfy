/** The decision both bootstrap classes make in `ensureConfiguredInternal`
    (src/codexNotifyBootstrap.ts, src/claudeHooksBootstrap.ts): mirror the adapter scripts,
    read the config file, build the next text, and write it back only when it differs. The
    file system is represented by the outcomes of its calls, which are parameters. */
module Reconcile {
  import opened Wrappers

  /** What reading the config file gave: its text, ENOENT, or another error. */
  datatype ReadOutcome = Read(text: string) | NotFound | ReadFailed(detail: string)

  datatype Status = Updated | Unchanged | Failed

  /** The status reported, and the text written to the config file, if any. */
  datatype Outcome = Outcome(status: Status, written: Option<string>)

  /** `readConfigText` / `readSettingsText`: a missing file reads as empty text, any other
      read error propagates. */
  function ReadConfigText(read: ReadOutcome): (r: Result<string>)
    ensures r.Success? <==> !read.ReadFailed?
    ensures read.Read? ==> r == Success(read.text)
    ensures read.NotFound? ==> r == Success([])
  {
    match read
    case Read(text) => Success(text)
    case NotFound => Success([])
    case ReadFailed(detail) => Failure(detail)
  }

  /** `ensureConfiguredInternal`. `scriptSync` is the error of mirroring the scripts, if
      any; `build` is the pure next-text function, failing where the source throws;
      `writeError` is the error of creating the directory or writing the file, if any.
      The file is written exactly when the run reports `updated`, and then with the built
      text, which differs from what the file held; a run fails exactly when one of its
      steps fails. */
  function EnsureConfigured(scriptSync: Option<string>, read: ReadOutcome, build: string -> Result<string>,
                            writeError: Option<string>): (o: Outcome)
    ensures o.written.Some? <==> o.status == Updated
    ensures o.written.Some? ==>
      !read.ReadFailed? && build(OriginalText(read)) == Success(o.written.value) && o.written.value != OriginalText(read)
    ensures o.status == Failed <==>
      scriptSync.Some? || read.ReadFailed? || build(OriginalText(read)).Failure?
      || (build(OriginalText(read)).value != OriginalText(read) && writeError.Some?)
    ensures scriptSync.None? && !read.ReadFailed? && build(OriginalText(read)) == Success(OriginalText(read))
      ==> o == Outcome(Unchanged, None)
  {
    if scriptSync.Some? then Outcome(Failed, None)
    else match ReadConfigText(read)
      case Failure(_) => Outcome(Failed, None)
      case Success(original) =>
        match build(original)
        case Failure(_) => Outcome(Failed, None)
        case Success(next) =>
          if next == original then Outcome(Unchanged, None)
          else if writeError.Some? then Outcome(Failed, None)
          else Outcome(Updated, Some(next))
  }

  /** The text the file held before the run: the empty text for a missing file. */
  function OriginalText(read: ReadOutcome): string
  {
    if read.Read? then read.text else []
  }
}
