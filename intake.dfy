/**
 * Intake validation of a dropped file: first the size ceiling, then the
 * case-insensitive `.heic` extension.
 */
module Intake {
  import opened ConverterTypes
  import opened FileNaming

  /** The size ceiling, 10 MiB; a file of exactly this size is accepted. */
  const MaxFileSize: nat := 10 * 1024 * 1024

  /** The verdict of the two checks in `onDrop`: no error when the file is
      accepted, otherwise the error it raises. The size check wins when both
      fail. */
  function Validate(f: FileInfo): (verdict: Option<ErrorKind>)
    ensures verdict.None? <==> f.size <= MaxFileSize && HasHeicExtension(f.name)
    ensures verdict == Some(FileTooLarge) <==> f.size > MaxFileSize
    ensures verdict == Some(NotHeic) <==> f.size <= MaxFileSize && !HasHeicExtension(f.name)
    ensures verdict.Some? ==> IsIntakeError(verdict.value)
  {
    if f.size > MaxFileSize then Some(FileTooLarge)
    else if !HasHeicExtension(f.name) then Some(NotHeic)
    else None
  }

  /** Boundary of the ceiling: 10 MiB passes, one byte more does not,
      whatever the name. */
  lemma SizeBoundary(name: string)
    ensures Validate(FileInfo(name, 10485760)) != Some(FileTooLarge)
    ensures Validate(FileInfo(name, 10485761)) == Some(FileTooLarge)
  {
  }
}
