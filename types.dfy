/**
 * Values shared by the HEIC converter component: the optional-value wrapper,
 * the dropped file, the selectable output format and the user-visible errors.
 */
module ConverterTypes {

  datatype Option<+T> = None | Some(value: T)

  /** A browser File as the component sees it: its name and its size in bytes.
      The bytes themselves only flow into the external decoder and are not modelled. */
  datatype FileInfo = FileInfo(name: string, size: nat)

  /** The value of the output-format select box. */
  datatype OutputType = Jpeg | Pdf

  /** One constructor per distinct message the component stores in `error`. */
  datatype ErrorKind =
    | FileTooLarge          // the size limit message of onDrop
    | NotHeic               // the "upload a HEIC file" message of onDrop
    | DecoderLoadFailed     // importing the HEIC decoder failed
    | HeicDecodeFailed      // the decoder rejected the bytes
    | PdfLibraryLoadFailed  // importing the PDF library failed
    | PdfGenerationFailed   // building or saving the PDF threw
    | ImageLoadFailed       // the decoded JPEG could not be loaded as an image
    | ConversionFailed      // generic "conversion failed, retry" of the reader callback
    | ReadFailed            // the FileReader reported an error
    | ProcessingFailed      // starting the read threw synchronously

  /** The errors that intake validation can raise, as opposed to conversion errors. */
  predicate IsIntakeError(e: ErrorKind) {
    e == FileTooLarge || e == NotHeic
  }
}
