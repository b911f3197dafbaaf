# HEIC converter component, modelled in Dafny

This project models `HeicConverter`, the single client-side component that takes
one dropped HEIC image and turns it into a downloaded JPEG or a one-page PDF.
It has three parts:

- **Intake.** `onDrop` looks only at the first accepted file. A file over 10 MiB
  is rejected first. Then a name that does not end in `.heic` (in any case) is
  rejected. Only a file that passes both checks is stored. The error is always
  cleared first.
- **Naming.** `removeExtension` strips a case-insensitive `.heic` suffix. The
  result is downloaded as `base + ".jpeg"` or saved as `base + ".pdf"`.
- **Fit to page.** The PDF page holds the decoded image scaled to fit and
  centred. If the image is relatively wider than the page, it spans the page
  width and is centred vertically. Otherwise it spans the page height and is
  centred horizontally.

The state `(file, converting, outputType, error)` and its handlers are a class,
`Converter.HeicConverter`. Each method is tied to a pure transition in
`ConverterState`, where the lemmas are proved. `convertFile` is split in two:

- a synchronous start, which captures the file and the output type in a `Job`;
- the end of its callbacks, `Conversion.Run`, which depends on an `Externals`
  record saying which external calls succeed.

A `Session` adds the conversions in flight, so the effect of the disabled
convert button can be stated over any sequence of user events.

Files: `types.dfy` (shared values), `naming.dfy`, `layout.dfy`, `intake.dfy`,
`conversion.dfy`, `state.dfy`, `converter.dfy` (the class and a client run).

The repository's marketing pages describe batch conversion, merged PDFs,
A4/Letter presets and resize modes. No code in the component implements them.
This model follows the code: one file and one conversion at a time.

## Model

| member | source | states |
|---|---|---|
| FileNaming.Lower | components/HeicConverter.tsx:41 | `toLowerCase` keeps the length and lower-cases every character in place |
| FileNaming.RemoveExtension | components/HeicConverter.tsx:40-45 | with a `.heic` suffix in any case, the result is 5 shorter, and putting the last 5 characters back gives the name; those 5 lower-case to `.heic`; otherwise the name is returned unchanged |
| FileNaming.HeicSpellings | components/HeicConverter.tsx:41 | the extension test holds exactly when the last five characters are `.` then `h/H`, `e/E`, `i/I`, `c/C` |
| FileNaming.StripsAppendedExtension | components/HeicConverter.tsx:41-42 | round trip: appending any spelling of `.heic` to a base and removing the extension gives back that base |
| FileNaming.StripsOnce | components/HeicConverter.tsx:41-42 | only one extension is removed: `x.heic.heic` becomes `x.heic` |
| FileNaming.OutputName | components/HeicConverter.tsx:104-159 | the download name (line 106) or PDF name (line 159) ends in `.jpeg` or `.pdf` as chosen, has the stripped base in front, and never carries a `.heic` extension itself |
| FileNaming.OutputNameIsStable | components/HeicConverter.tsx:40-45 | `removeExtension` leaves every produced output name unchanged |
| PageLayout.WiderCrossMultiplied | components/HeicConverter.tsx:136-144 | `imgRatio > pageRatio` is equivalent to `imageWidth * pageHeight > pageWidth * imageHeight` |
| PageLayout.WideBranch | components/HeicConverter.tsx:146-149 | in the wider branch the computed height is positive and strictly less than the page height, with the image's aspect ratio |
| PageLayout.TallBranch | components/HeicConverter.tsx:152-155 | in the other branch the computed width is positive and at most the page width, with the image's aspect ratio |
| PageLayout.FitToPage | components/HeicConverter.tsx:135-156 | the drawn box is non-empty, keeps the aspect ratio, lies within the page and is centred; wider image: full page width, x = 0, y > 0; otherwise full page height, y = 0, x >= 0 |
| PageLayout.FitIsLargest | components/HeicConverter.tsx:144-156 | any box with the image's aspect ratio that fits on the page is no wider and no taller than the computed box |
| PageLayout.SameRatioFillsPage | components/HeicConverter.tsx:144-156 | an image with the page's own ratio fills the whole page at (0, 0) |
| Intake.Validate | components/HeicConverter.tsx:21-31 | accepted exactly when size <= 10 MiB and the name has the extension; the size error exactly when size > 10 MiB, whatever the name; the format error exactly when the size passes and the name does not |
| Intake.SizeBoundary | components/HeicConverter.tsx:21 | exactly 10485760 bytes passes the size check; 10485761 fails it |
| Conversion.Run | components/HeicConverter.tsx:54-195 | a JPEG is downloaded exactly when the read, fetch, decoder import, decode, object URL and download link all succeed; a PDF is saved exactly when the shared steps and the PDF import, image load and PDF build succeed; the saved name is the captured file's output name; the PDF image is drawn into exactly the `FitToPage` box; each failing step shows its own error (synchronous read start: ProcessingFailed; reader error: ReadFailed; missing result, failed fetch, object URL or download link: ConversionFailed; decoder import, decode, PDF import, image load, PDF build: their own errors), never an intake error |
| Conversion.JpegIgnoresPdfSteps | components/HeicConverter.tsx:104-109 | a JPEG conversion's outcome does not depend on the PDF steps or the page size |
| ConverterState.Drop | components/HeicConverter.tsx:16-34 | the error is cleared when nothing is dropped; otherwise it is the first file's verdict; the first file is stored exactly when it passes, else the stored file is kept; `converting` and `outputType` never change; a newly stored file always passed validation |
| ConverterState.OnlyFirstFileCounts | components/HeicConverter.tsx:18 | files after the first do not affect the result of a drop |
| ConverterState.SelectOutputType | components/HeicConverter.tsx:36-38 | only the output type changes |
| ConverterState.RemoveFile | components/HeicConverter.tsx:217-222 | the file is cleared; a running conversion, the output type and a shown error stay |
| ConverterState.Start | components/HeicConverter.tsx:48-53 | with no file, nothing changes and no job starts; otherwise `converting` is set, the error is cleared, and the job captures the file and output type |
| ConverterState.Settle | components/HeicConverter.tsx:78-188 | every exit resets `converting` to false; a failure shows its error; a success leaves the error alone; the file and output type are untouched |
| ConverterState.StepPreservesInvariant | components/HeicConverter.tsx:288 | each event keeps these true: at most one conversion in flight, `converting` exactly when one is, and a stored file passed validation |
| ConverterState.ReplayPreservesInvariant | components/HeicConverter.tsx:288 | the invariant holds after any sequence of events |
| ConverterState.ReachableSessionsAreValid | components/HeicConverter.tsx:288 | every session reachable from the mounted component satisfies the invariant |
| ConverterState.RemoveDuringConversion | components/HeicConverter.tsx:48-65 | removing the file after a click leaves the conversion running, and the job in flight still holds the removed file |
| Converter.HeicConverter.constructor | components/HeicConverter.tsx:9-12 | the initial state: no file, not converting, PDF selected, no error |
| Converter.HeicConverter.OnDrop | components/HeicConverter.tsx:16-34 | the new state is `Drop` of the old state and the dropped files |
| Converter.HeicConverter.HandleOptionChange | components/HeicConverter.tsx:36-38 | the new state is `SelectOutputType` of the old one |
| Converter.HeicConverter.RemoveFile | components/HeicConverter.tsx:217-222 | the new state is `RemoveFile` of the old one |
| Converter.HeicConverter.ConvertFile | components/HeicConverter.tsx:48-53 | the new state and the returned job are `Start` of the old state |
| Converter.HeicConverter.ClickConvert | components/HeicConverter.tsx:286-288 | when the button is enabled, this acts as `Start`; otherwise nothing changes and no job starts |
| Converter.HeicConverter.FinishConversion | components/HeicConverter.tsx:54-195 | the outcome is `Run` of the job and the external results, and the new state is `Settle` of the old state and that outcome |

## Left out

- The HEIC decoder, the PDF library, `FileReader`, `fetch`, `URL.createObjectURL`, `new Image()` and the download link are external. Each is reduced to whether it succeeds, in `Conversion.Externals`. The bytes, the decoded JPEG and the PDF contents are not modelled.
- `URL.revokeObjectURL` and the construction of `new Image()` are assumed not to throw.
- The PDF library's default page size is not visible. Page width and height are positive inputs. The decoded image's pixel size is an input too.
- The layout uses exact `real` arithmetic. Floating-point rounding is not modelled.
- FileNaming.Lower: only ASCII letters are lower-cased. `toLowerCase` also maps other Unicode letters, some to longer strings. None of those is needed to produce `.heic`.
- The error messages are enum constructors of `ConverterTypes.ErrorKind`, not their texts. The synchronous catch shows the thrown error's own message; the model uses one constructor, `ProcessingFailed`.
- The react-dropzone configuration (accepted type, size ceiling, single file) filters files before `onDrop`. The model calls `onDrop` with any list of files.
- Clearing the hidden file input's value in `removeFile` is DOM work and is not modelled.
- The decoder may return an array of blobs. The source casts the result to one blob, and that case is not modelled.
- A conversion's callbacks are one step, `FinishConversion`. User events may come between the start and that step. Interleavings inside the callbacks are not modelled.
- The synchronous failure of starting the read ends the conversion inside the click itself, before any other event. The model reports it as `ProcessingFailed` at the later completion step, so a session may interleave events that the component cannot. The invariant lemmas hold for this larger set of behaviours.
- ConverterState.Step accepts a drop while a file is stored and a remove click while none is. The component shows the drop zone only without a file and the remove button only with one. The model allows more behaviour than the component, so the invariant lemmas still hold for it.
- Console logging and all rendering are not modelled.
- Batch conversion, merged PDFs, page-size presets, resize and crop modes and progress tracking appear only in the marketing pages. No code implements them, so they are not part of this model.
