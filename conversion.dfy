/**
 * The asynchronous part of `convertFile`: read the file, fetch it as a blob,
 * load and run the HEIC decoder, then either download the JPEG or load the
 * PDF library, load the decoded image and save a one-page PDF. Every external
 * call is abstracted to whether it succeeds; the page size of the PDF library
 * and the pixel size of the decoded image are inputs.
 */
module Conversion {
  import opened ConverterTypes
  import opened FileNaming
  import opened PageLayout

  /** What a started conversion works on: the file and the output type as
      they were when the conversion began (the callbacks capture them). */
  datatype Job = Job(file: FileInfo, outputType: OutputType)

  /** The results of the external calls, each consulted only if reached. */
  datatype Externals = Externals(
    readStarts: bool,        // readAsDataURL does not throw
    readLoads: bool,         // the reader fires onload rather than onerror
    resultPresent: bool,     // reader.result is non-empty
    blobFetched: bool,       // fetching the data URL and reading its blob succeed
    decoderLoaded: bool,     // the decoder module imports
    decoded: bool,           // the decoder accepts the bytes
    urlCreated: bool,        // creating an object URL for the decoded blob does not throw
    linkClicked: bool,       // the JPEG download helper does not throw
    pdfLibraryLoaded: bool,  // the PDF module imports
    imageLoaded: bool,       // the decoded JPEG loads as an image
    pdfBuilt: bool,          // constructing, drawing into and saving the PDF do not throw
    pageWidth: Positive,
    pageHeight: Positive,
    imageWidth: Positive,
    imageHeight: Positive)

  /** How a conversion ends: with an error, a downloaded JPEG, or a saved PDF
      with the box the image was drawn into. */
  datatype Outcome =
    | Failed(error: ErrorKind)
    | Downloaded(name: string)
    | PdfSaved(name: string, placement: Placement)

  /** Every step up to and including the decoder succeeds. */
  predicate Decodes(ext: Externals) {
    && ext.readStarts && ext.readLoads && ext.resultPresent && ext.blobFetched
    && ext.decoderLoaded && ext.decoded
  }

  /** The decoded blob gets an object URL: the last step shared by both formats. */
  predicate ReachesOutput(ext: Externals) {
    Decodes(ext) && ext.urlCreated
  }

  /** The PDF-only steps succeed. */
  predicate PdfStepsSucceed(ext: Externals) {
    ext.pdfLibraryLoaded && ext.imageLoaded && ext.pdfBuilt
  }

  /** One conversion, from the read to the download or save. A JPEG is
      downloaded exactly when every step up to the download link succeeds; a
      PDF is saved exactly when the shared steps and the PDF steps succeed;
      the saved name is the output name of the captured file; the PDF image is
      drawn into the fitted box; and each failing step shows its own error. */
  function Run(job: Job, ext: Externals): (o: Outcome)
    ensures o.Downloaded? <==> job.outputType == Jpeg && ReachesOutput(ext) && ext.linkClicked
    ensures o.PdfSaved? <==> job.outputType == Pdf && ReachesOutput(ext) && PdfStepsSucceed(ext)
    ensures o.Downloaded? ==> o.name == OutputName(job.file.name, Jpeg)
    ensures o.PdfSaved? ==>
      && o.name == OutputName(job.file.name, Pdf)
      && o.placement == FitToPage(ext.pageWidth, ext.pageHeight, ext.imageWidth, ext.imageHeight)
      && KeepsAspect(o.placement, ext.imageWidth, ext.imageHeight)
      && InsidePage(o.placement, ext.pageWidth, ext.pageHeight)
      && Centred(o.placement, ext.pageWidth, ext.pageHeight)
    ensures o.Failed? ==> !IsIntakeError(o.error)
    // the error of each exit, in the order the steps run
    ensures !ext.readStarts ==> o == Failed(ProcessingFailed)
    ensures ext.readStarts && !ext.readLoads ==> o == Failed(ReadFailed)
    ensures ext.readStarts && ext.readLoads && !ext.resultPresent ==> o == Failed(ConversionFailed)
    ensures ext.readStarts && ext.readLoads && ext.resultPresent && !ext.blobFetched ==>
      o == Failed(ConversionFailed)
    ensures ext.readStarts && ext.readLoads && ext.resultPresent && ext.blobFetched && !ext.decoderLoaded ==>
      o == Failed(DecoderLoadFailed)
    ensures (ext.readStarts && ext.readLoads && ext.resultPresent && ext.blobFetched && ext.decoderLoaded
             && !ext.decoded) ==> o == Failed(HeicDecodeFailed)
    ensures Decodes(ext) && !ext.urlCreated ==> o == Failed(ConversionFailed)
    ensures ReachesOutput(ext) && job.outputType == Jpeg && !ext.linkClicked ==> o == Failed(ConversionFailed)
    ensures ReachesOutput(ext) && job.outputType == Pdf && !ext.pdfLibraryLoaded ==>
      o == Failed(PdfLibraryLoadFailed)
    ensures ReachesOutput(ext) && job.outputType == Pdf && ext.pdfLibraryLoaded && !ext.imageLoaded ==>
      o == Failed(ImageLoadFailed)
    ensures (ReachesOutput(ext) && job.outputType == Pdf && ext.pdfLibraryLoaded && ext.imageLoaded
             && !ext.pdfBuilt) ==> o == Failed(PdfGenerationFailed)
  {
    if !ext.readStarts then Failed(ProcessingFailed)
    else if !ext.readLoads then Failed(ReadFailed)
    else if !ext.resultPresent then Failed(ConversionFailed)
    else if !ext.blobFetched then Failed(ConversionFailed)
    else if !ext.decoderLoaded then Failed(DecoderLoadFailed)
    else if !ext.decoded then Failed(HeicDecodeFailed)
    else if !ext.urlCreated then Failed(ConversionFailed)
    else
      match job.outputType
      case Jpeg =>
        if !ext.linkClicked then Failed(ConversionFailed)
        else Downloaded(OutputName(job.file.name, Jpeg))
      case Pdf =>
        if !ext.pdfLibraryLoaded then Failed(PdfLibraryLoadFailed)
        else if !ext.imageLoaded then Failed(ImageLoadFailed)
        else if !ext.pdfBuilt then Failed(PdfGenerationFailed)
        else PdfSaved(OutputName(job.file.name, Pdf),
                      FitToPage(ext.pageWidth, ext.pageHeight, ext.imageWidth, ext.imageHeight))
  }

  /** A JPEG conversion never reaches the PDF steps: their results and the
      page size do not change its outcome. */
  lemma JpegIgnoresPdfSteps(file: FileInfo, ext: Externals, ext': Externals)
    requires ext'.readStarts == ext.readStarts && ext'.readLoads == ext.readLoads
    requires ext'.resultPresent == ext.resultPresent && ext'.blobFetched == ext.blobFetched
    requires ext'.decoderLoaded == ext.decoderLoaded && ext'.decoded == ext.decoded
    requires ext'.urlCreated == ext.urlCreated && ext'.linkClicked == ext.linkClicked
    ensures Run(Job(file, Jpeg), ext) == Run(Job(file, Jpeg), ext')
  {
  }
}
