/**
 * The converter's screen state `(file, converting, outputType, error)` and the
 * transitions the user's actions and the conversion callbacks make on it, as
 * values. A session adds the conversions that are still in flight, so that the
 * effect of the disabled convert button can be stated over any sequence of
 * events.
 */
module ConverterState {
  import opened ConverterTypes
  import opened FileNaming
  import opened Intake
  import opened Conversion

  datatype State = State(
    file: Option<FileInfo>,
    converting: bool,
    outputType: OutputType,
    error: Option<ErrorKind>)

  /** The state on mount: no file, idle, PDF selected, no error. */
  const Initial: State := State(None, false, Pdf, None)

  /** `onDrop`: the error is always cleared first; only the first accepted file
      is looked at; a file that fails validation leaves the stored file as it
      was and shows its error; a file that passes replaces the stored one. */
  function Drop(s: State, acceptedFiles: seq<FileInfo>): (t: State)
    ensures t.converting == s.converting && t.outputType == s.outputType
    ensures acceptedFiles == [] ==> t.file == s.file && t.error.None?
    ensures acceptedFiles != [] ==> t.error == Validate(acceptedFiles[0])
    ensures acceptedFiles != [] && Validate(acceptedFiles[0]).None? ==> t.file == Some(acceptedFiles[0])
    ensures acceptedFiles != [] && Validate(acceptedFiles[0]).Some? ==> t.file == s.file
    ensures t.file != s.file ==> t.file.Some? && HasHeicExtension(t.file.value.name) && t.file.value.size <= MaxFileSize
  {
    if acceptedFiles == [] then s.(error := None)
    else
      var uploaded := acceptedFiles[0];
      if uploaded.size > MaxFileSize then s.(error := Some(FileTooLarge))
      else if !HasHeicExtension(uploaded.name) then s.(error := Some(NotHeic))
      else s.(file := Some(uploaded), error := None)
  }

  /** Only the first dropped file matters; the rest are ignored. */
  lemma OnlyFirstFileCounts(s: State, first: FileInfo, rest: seq<FileInfo>, rest': seq<FileInfo>)
    ensures Drop(s, [first] + rest) == Drop(s, [first] + rest')
  {
  }

  /** `handleOptionChange`: only the output type changes. */
  function SelectOutputType(s: State, t: OutputType): (r: State)
    ensures r.outputType == t
    ensures r.file == s.file && r.converting == s.converting && r.error == s.error
  {
    s.(outputType := t)
  }

  /** `removeFile`: the file is forgotten; a running conversion and a shown
      error are left alone. */
  function RemoveFile(s: State): (t: State)
    ensures t.file.None?
    ensures t.converting == s.converting && t.outputType == s.outputType && t.error == s.error
  {
    s.(file := None)
  }

  /** The convert button is enabled: a file is present and nothing is converting. */
  predicate ButtonEnabled(s: State) {
    s.file.Some? && !s.converting
  }

  /** The synchronous start of `convertFile`: nothing happens without a file;
      otherwise the screen shows a running conversion with no error, and the
      job captures the current file and output type. */
  function Start(s: State): (r: (State, Option<Job>))
    ensures s.file.None? ==> r.0 == s && r.1.None?
    ensures s.file.Some? ==>
      && r.1 == Some(Job(s.file.value, s.outputType))
      && r.0.converting && r.0.error.None?
      && r.0.file == s.file && r.0.outputType == s.outputType
  {
    if s.file.None? then (s, None)
    else (s.(converting := true, error := None), Some(Job(s.file.value, s.outputType)))
  }

  /** The end of a conversion: every exit sets `converting` back to false; a
      failure shows its error, a success leaves the error as it was. */
  function Settle(s: State, o: Outcome): (t: State)
    ensures !t.converting
    ensures t.file == s.file && t.outputType == s.outputType
    ensures o.Failed? ==> t.error == Some(o.error)
    ensures !o.Failed? ==> t.error == s.error
  {
    match o
    case Failed(e) => s.(converting := false, error := Some(e))
    case _ => s.(converting := false)
  }

  /** What the user does, and the completion of the conversion in flight. */
  datatype Event =
    | DropFiles(files: seq<FileInfo>)
    | ChooseOutput(outputType: OutputType)
    | RemoveFileClicked
    | ConvertClicked
    | ConversionEnds(ext: Externals)

  /** The screen and the conversions started but not yet finished, oldest first. */
  datatype Session = Session(screen: State, pending: seq<Job>)

  const InitialSession: Session := Session(Initial, [])

  /** One event. A click on the disabled button does nothing; a completion
      with nothing in flight cannot happen and changes nothing. */
  function Step(ss: Session, ev: Event): Session {
    match ev
    case DropFiles(files) => ss.(screen := Drop(ss.screen, files))
    case ChooseOutput(t) => ss.(screen := SelectOutputType(ss.screen, t))
    case RemoveFileClicked => ss.(screen := RemoveFile(ss.screen))
    case ConvertClicked =>
      if !ButtonEnabled(ss.screen) then ss
      else
        var (screen', job) := Start(ss.screen);
        Session(screen', ss.pending + [job.value])
    case ConversionEnds(ext) =>
      if ss.pending == [] then ss
      else Session(Settle(ss.screen, Run(ss.pending[0], ext)), ss.pending[1..])
  }

  /** The events applied in order. */
  function Replay(ss: Session, evs: seq<Event>): Session
    decreases |evs|
  {
    if evs == [] then ss else Replay(Step(ss, evs[0]), evs[1..])
  }

  /** What the button guard and the validation keep true: at most one
      conversion is in flight, `converting` says exactly whether one is, and a
      stored file has passed validation. */
  predicate SessionInvariant(ss: Session) {
    && |ss.pending| <= 1
    && (ss.screen.converting <==> ss.pending != [])
    && (ss.screen.file.Some? ==> Validate(ss.screen.file.value).None?)
  }

  lemma StepPreservesInvariant(ss: Session, ev: Event)
    requires SessionInvariant(ss)
    ensures SessionInvariant(Step(ss, ev))
  {
  }

  /** Every session reachable from the mounted component satisfies the invariant. */
  lemma {:induction false} ReplayPreservesInvariant(ss: Session, evs: seq<Event>)
    requires SessionInvariant(ss)
    ensures SessionInvariant(Replay(ss, evs))
    decreases |evs|
  {
    if evs != [] {
      StepPreservesInvariant(ss, evs[0]);
      ReplayPreservesInvariant(Step(ss, evs[0]), evs[1..]);
    }
  }

  lemma ReachableSessionsAreValid(evs: seq<Event>)
    ensures SessionInvariant(Replay(InitialSession, evs))
  {
    ReplayPreservesInvariant(InitialSession, evs);
  }

  /** Removing the file while converting does not stop the conversion: the
      screen shows no file and a running conversion, and the job in flight
      still holds the removed file, under whose name the result is saved. */
  lemma RemoveDuringConversion(s: State)
    requires ButtonEnabled(s)
    ensures
      var ss := Replay(Session(s, []), [ConvertClicked, RemoveFileClicked]);
      && ss.screen.file.None? && ss.screen.converting
      && ss.pending == [Job(s.file.value, s.outputType)]
  {
  }
}
