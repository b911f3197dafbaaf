/**
 * The `HeicConverter` component as an object: its four pieces of React state
 * are fields, and each handler updates them in the order the source does,
 * with the same early returns. Every method is tied to the transition of
 * `ConverterState` that specifies it, so the lemmas proved there apply.
 */
module Converter {
  import opened ConverterTypes
  import opened FileNaming
  import opened Intake
  import opened Conversion
  import opened ConverterState

  class HeicConverter {
    var file: Option<FileInfo>
    var converting: bool
    var outputType: OutputType
    var error: Option<ErrorKind>

    /** The current screen state as a value. */
    function Snapshot(): State
      reads this
    {
      State(file, converting, outputType, error)
    }

    /** Mounting: no file, idle, PDF selected, no error. */
    constructor ()
      ensures Snapshot() == Initial
    {
      file := None;
      converting := false;
      outputType := Pdf;
      error := None;
    }

    /** `onDrop`. */
    method OnDrop(acceptedFiles: seq<FileInfo>)
      modifies this
      ensures Snapshot() == Drop(old(Snapshot()), acceptedFiles)
    {
      error := None;
      if |acceptedFiles| > 0 {
        var uploaded := acceptedFiles[0];
        if uploaded.size > MaxFileSize {
          error := Some(FileTooLarge);
          return;
        }
        if !HasHeicExtension(uploaded.name) {
          error := Some(NotHeic);
          return;
        }
        file := Some(uploaded);
      }
    }

    /** `handleOptionChange`. */
    method HandleOptionChange(t: OutputType)
      modifies this
      ensures Snapshot() == SelectOutputType(old(Snapshot()), t)
    {
      outputType := t;
    }

    /** `removeFile`. */
    method RemoveFile()
      modifies this
      ensures Snapshot() == ConverterState.RemoveFile(old(Snapshot()))
    {
      file := None;
    }

    /** The synchronous part of `convertFile`; the returned job is what the
        read callbacks go on to convert. */
    method ConvertFile() returns (job: Option<Job>)
      modifies this
      ensures (Snapshot(), job) == Start(old(Snapshot()))
    {
      if file.None? {
        return None;
      }
      converting := true;
      error := None;
      job := Some(Job(file.value, outputType));
    }

    /** A click on the convert button, which is disabled while there is no
        file or a conversion is running. */
    method ClickConvert() returns (job: Option<Job>)
      modifies this
      ensures ButtonEnabled(old(Snapshot())) ==> (Snapshot(), job) == Start(old(Snapshot()))
      ensures !ButtonEnabled(old(Snapshot())) ==> job.None? && Snapshot() == old(Snapshot())
    {
      if file.Some? && !converting {
        job := ConvertFile();
      } else {
        job := None;
      }
    }

    /** The callbacks of a started conversion run to their end: the outcome
        is that of the external calls, and the state is settled by it. */
    method FinishConversion(job: Job, ext: Externals) returns (outcome: Outcome)
      modifies this
      ensures outcome == Run(job, ext)
      ensures Snapshot() == Settle(old(Snapshot()), outcome)
    {
      outcome := Run(job, ext);
      if outcome.Failed? {
        error := Some(outcome.error);
      }
      converting := false;
    }
  }

  /** A client run: a valid drop, a conversion to JPEG, and the file removed
      while it is in flight. */
  method RemoveWhileConverting(name: string, size: nat, ext: Externals)
    requires size <= MaxFileSize && HasHeicExtension(name)
    requires ReachesOutput(ext) && ext.linkClicked
  {
    var c := new HeicConverter();
    c.HandleOptionChange(Jpeg);
    c.OnDrop([FileInfo(name, size)]);
    assert c.file == Some(FileInfo(name, size)) && c.error.None?;
    var job := c.ClickConvert();
    assert job == Some(Job(FileInfo(name, size), Jpeg)) && c.converting;
    c.RemoveFile();
    assert c.file.None? && c.converting;
    var outcome := c.FinishConversion(job.value, ext);
    assert outcome == Downloaded(OutputName(name, Jpeg));
    assert !c.converting && c.error.None? && c.file.None?;
  }
}
