# Batch PNG/SVG converter: a verified model

This project models the core of a browser application that takes a batch of
PNG and SVG images and converts each one to the other format. The modelled parts are:

- **The work item** (`types.ts`). It carries a session status (`IDLE`, `LOADED`,
  `PROCESSING`, `DONE`, `ERROR`), a file status (`QUEUED`, `CONVERTING`,
  `CONVERTED`, `ERROR`) and a conversion direction. These are the datatypes of
  module `Types`. Dafny datatypes are closed, so every `match` over a
  direction or a status is total.
- **The batch session** (`App.tsx`). This is class `Session.Session`, with the item list,
  the session status, the global error and an id counter as fields. Its methods
  are the handlers `handleFileSelect`, `updateFileState`, `handleConvertAll`,
  `handleReset` and `handleRemoveFile`, plus the derived `canConvert`. The list
  operations they are specified by live in module `Batch`.
- **PNG to SVG** (`services/conversionService.ts`). `convertPngToSvg` is modelled in
  module `Conversion`. It builds the SVG template, trims it and turns it into a
  `data:image/svg+xml;base64,` URL through UTF-8 (module `Utf8`, standing for
  `unescape(encodeURIComponent(...))`) and base 64 (module `Base64`, standing for `btoa`,
  section 4 of RFC 4648).
  - What the document says is stated by reading it back. Module `Markup` holds a
    small independent reader of tags and attributes. Module `Decimal` holds the
    decimal rendering of `${width}` and its parser.
- **Downloads** (`components/BatchProcessor.tsx`). Module `Downloads` holds the
  download name of a converted item, the selection of items for the ZIP archive,
  and `handleDownloadAll`. The last is a method of class `Downloads.ZipDownload`,
  which owns the `isZipping` flag. The archive is a map from entry name to
  content: a later entry of the same name replaces an earlier one, as `zip.file`
  does.

Browser services are parameters:

- Reading a file and decoding its image become an `IntakeProbe` per selected file. It gives the
  file's bytes, from which the preview URL is built as `readAsDataURL` builds it, and the decoded size.
- `convertSvgToPng` becomes a `render` function.
- `fetch` becomes a `fetchOk` predicate and `generateAsync` a `zipOk` flag.
- `crypto.randomUUID` becomes the counter `nextId`: file `i` of a selection gets
  id `nextId + i`.

## Model

| member | source | states |
|---|---|---|
| Batch.SettleSpec | App.tsx:17-47 | A file is fulfilled exactly when its type is `image/svg+xml` or `image/png` and both its read and its image decode succeed. Otherwise it is rejected with `<name>: <message>`. A wrong type gives the wrong-type message whatever the browser would report; otherwise a failed read and a failed image decode each give their own message. A fulfilled item is `QUEUED` with the given id, the `readAsDataURL` URL of the file's bytes as preview, the decoded size, no output and no error. Its direction is SVG to PNG exactly for `image/svg+xml`. |
| Batch.SettleAll | App.tsx:16-48 | One settled result per selected file, in submission order: the i-th result is how the i-th file settles when offered id `firstId + i`. |
| Batch.SelectionInOrder | App.tsx:50-57 | The successes and the failures of two selections in a row are those of the first followed by those of the second, so submission order is kept. |
| Batch.SettledMembers | App.tsx:50-57 | Every fulfilled result is among the successes, and every rejected one is among the failures. |
| Batch.SelectionIsolation | App.tsx:16-57 | Every file that passes the type gate and is read and decoded becomes a queued success. Every other file's message is among the failures. This holds whatever the other files of the selection do. |
| Batch.SettledConsistent | App.tsx:30-40 | A newly taken item has no output and no error, as a `QUEUED` item must. |
| Batch.SuccessesConsistent | App.tsx:30-53 | Every success of a selection has an output exactly when converted and an error exactly when failed. |
| Batch.PartitionSplits | App.tsx:50-57 | Successes and failures both keep order and distribute over concatenation. Each result is one or the other. |
| Batch.SuccessesOfSelection | App.tsx:30-40 | Every file taken from a selection is `QUEUED`. Their ids lie in the range handed out for the selection and are pairwise distinct. |
| Batch.JoinFailuresAsWrittenOneLine | App.tsx:60 | The failures joined with the two-character separator backslash-n contain no line break, however many there are. |
| Batch.JoinFailuresAsWrittenExample | App.tsx:60 | Two rejected files `a.gif` and `b.bmp` give exactly the first message, a backslash, `n` and the second message. That text has no line break, so it is a single line. |
| Batch.JoinFailuresLines | App.tsx:59-61 | Joined with a line break, the failure messages come back one per line when the text is split at line breaks. |
| Batch.ApplyPatchSpec | App.tsx:72-74 | `{ ...f, ...updates }`: a patched field takes the patch's value, every other field keeps its old one, and the id never changes. |
| Batch.ApplyPatchStatusOverride | App.tsx:82-97 | Marking an item `CONVERTING` and then applying an outcome that sets the status is the same as applying the outcome alone. |
| Batch.UpdateById | App.tsx:73 | The list keeps its length, and exactly the items with the given id are patched. |
| Batch.UpdateByIdSpec | App.tsx:72-74 | An absent id changes nothing. Ids are preserved position by position, and so is their distinctness. |
| Batch.RemoveById | App.tsx:111 | Removing never lengthens the list. |
| Batch.RemoveByIdMembers | App.tsx:111 | An item remains exactly when it was in the list and has another id. |
| Batch.RemoveByIdAppend | App.tsx:111 | Removal keeps order: it distributes over concatenation. |
| Batch.RemoveByIdAbsent | App.tsx:111 | Removing an id that no item has leaves the list unchanged. |
| Batch.RemoveByIdDistinct | App.tsx:111 | Distinct ids stay distinct after removal. |
| Batch.WithStatus | App.tsx:79 | The filtered list is never longer than the list. |
| Batch.WithStatusMembers | App.tsx:79 | An item is in the filtered list exactly when it is in the list with that status. |
| Batch.WithStatusAppend | App.tsx:79 | The filter keeps list order: it distributes over concatenation. |
| Batch.WithStatusDistinct | App.tsx:79 | The queue snapshot of a list with distinct ids has distinct ids. |
| Batch.StatusCountsBounded | components/BatchProcessor.tsx:84-85 | The queued and converted counters, or any two counts of different statuses, add up to at most the number of items. |
| Batch.AnyQueuedSpec | App.tsx:119-121 | `files.some(QUEUED)` holds exactly when some item is queued, and exactly when the queue snapshot is non-empty. |
| Batch.ConvertOutcome | App.tsx:83-98 | The outcome of a conversion always sets a terminal status (`CONVERTED` or `ERROR`). |
| Batch.ConvertOutcomeSpec | App.tsx:83-98 | Every item ends in a terminal status. A converted item has an output. A failed item has an error and keeps its old output. PNG to SVG always ends `CONVERTED`, with output `convertPngToSvg(previewUrl, width, height)`. SVG to PNG ends `CONVERTED` with the rendered URL. A throw ends `ERROR` with the thrown message, or with `알 수 없는 변환 오류` when it has none. In these SVG cases no other field changes. |
| Batch.ConvertedConsistent | App.tsx:82-97 | A queued item with no output and no error stays consistent when marked `CONVERTING`, and again after its outcome: an output exactly when `CONVERTED`, an error exactly when `ERROR`. |
| Batch.ConvertAllConsistent | App.tsx:76-100 | Converting all keeps every item's invariant: an output exactly when `CONVERTED`, an error exactly when `ERROR`. |
| Batch.RemoveByIdConsistent | App.tsx:111 | Removal keeps the work-item invariant of every remaining item. |
| Batch.SettledPngEmbedsPreview | App.tsx:85-91 | A PNG taken in through the browser and converted gives an SVG data URL. That URL decodes to the document, which holds exactly one image, whose `href` is the item's preview URL and whose `width` and `height` are the item's size. |
| Batch.ConvertAllSpec | App.tsx:76-100 | After a run no item is queued, and every item that was queued is in a terminal status. Items that were not queued are unchanged. Every item keeps its id and position. |
| Batch.MarkConvertingStep | App.tsx:81-82 | Marking the next queued item `CONVERTING` makes that item, and no other, newly `CONVERTING`. |
| Batch.ConvertStep | App.tsx:81-99 | One loop iteration takes the list from "the first k queue items converted" to "the first k+1 converted". |
| Batch.ConvertedAll | App.tsx:79-99 | Once every queued item of the snapshot is converted, the list is the whole-run result. |
| Session.Session.constructor | App.tsx:10-12 | An empty list, `IDLE`, and no error. The session invariant holds from here on: ids are distinct and below the id counter, and the status is never the declared `ERROR`, which no handler assigns. |
| Session.Session.HandleFileSelect | App.tsx:14-70 | The error is cleared, and becomes the joined failures if there are any. Successes are appended in selection order. The status becomes `LOADED` if a file was taken, `IDLE` if none was and the list is empty, and is kept otherwise. Ids stay distinct, the id counter moves past every id offered, and the work-item invariant of the list is kept. The failures are joined with a line break (see Findings). |
| Session.Session.UpdateFileState | App.tsx:72-74 | The list becomes the patched list, and nothing else in the session changes. |
| Session.Session.HandleConvertAll | App.tsx:76-101 | The loop over the queue snapshot, which marks each item `CONVERTING` and then applies its outcome, leaves exactly the whole-run result. The status ends `DONE`. The global error and the id counter are untouched, and the work-item invariant of the list is kept. |
| Session.Session.ConvertItem | App.tsx:81-98 | One turn of the loop: the list becomes the list with the item marked `CONVERTING`, then patched with its outcome. Between the two updates, only that item is newly `CONVERTING`. The status, the global error and the id counter are untouched. |
| Session.Session.HandleReset | App.tsx:103-107 | An empty list, `IDLE`, and no error. |
| Session.Session.HandleRemoveFile | App.tsx:109-117 | The list loses the items with that id. An empty list sends the status to `IDLE`, and otherwise the status is kept. The id counter is untouched, so a removed id is never handed out again, and the work-item invariant of the list is kept. |
| Session.Session.CanConvert | App.tsx:119-121 | True exactly when some item is queued. |
| Conversion.DocumentTags | services/conversionService.ts:50-56 | When the embedded URL has no `>`, the document reads as exactly seven tags: the root `svg`, `title`, `/title`, `desc`, `/desc`, the `image` and `/svg`. |
| Conversion.RootStatesSize | services/conversionService.ts:51 | The first tag is `svg`. Its `width` and `height` attributes read back as the given size, and its `viewBox` reads back as `0 0 width height`. |
| Conversion.DocumentEmbedsPng | services/conversionService.ts:54 | There is exactly one `image` tag. Its `href` is the PNG data URL, and its `width` and `height` read back as the given size. |
| Conversion.DocumentIsTrimmed | services/conversionService.ts:50-56 | The trimmed document starts with `<svg` and ends with `</svg>`. |
| Conversion.ConvertPngToSvgDecodes | services/conversionService.ts:58 | Stripping the prefix from the result and undoing base 64 and UTF-8 gives back exactly the SVG document. |
| Conversion.DecodeSvgDataUrlCanonical | services/conversionService.ts:58 | Any URL that decodes to a document is exactly the encoding of that document. |
| Conversion.ConvertPngToSvgShape | services/conversionService.ts:58 | The result starts with `data:image/svg+xml;base64,`. The payload has length 4·⌈n/3⌉ for the n UTF-8 bytes of the document, and holds only base-64 digits and `=`. |
| Conversion.ReadAsDataUrlIsInert | App.tsx:46 | A data URL produced by reading a file has no `>` and no `"`, so embedding it in the template meets the conditions of the reading lemmas. |
| Conversion.RootTagStatesSize | services/conversionService.ts:51 | The root tag's size attributes and `viewBox` parse back to the given width and height. |
| Conversion.ImageTagStatesPng | services/conversionService.ts:54 | The image tag's `href` is the URL, and its `width` and `height` parse back to the given size. |
| Decimal.ParseNatToString | services/conversionService.ts:51 | Parsing the decimal text of a number gives the number back. |
| Decimal.NatToStringParse | services/conversionService.ts:51 | The decimal text is canonical: whatever the parser accepts is the text of the number it returns. |
| Utf8.DecodeEncode | services/conversionService.ts:58 | Decoding the UTF-8 bytes of a string gives the string back. |
| Utf8.EncodeDecode | services/conversionService.ts:58 | Only well-formed UTF-8 decodes, and it re-encodes to the same bytes. |
| Utf8.EncodeAppend | services/conversionService.ts:58 | UTF-8 encoding distributes over concatenation. |
| Base64.DecodeEncode | services/conversionService.ts:58 | Decoding the output of `btoa` gives the bytes back. |
| Base64.EncodeDecode | services/conversionService.ts:58 | The strict decoder accepts only what `btoa` writes. |
| Base64.EncodeShape | services/conversionService.ts:58 | Four characters per started group of three bytes, each an alphabet digit or `=`. |
| Strings.JoinSplit | components/BatchProcessor.tsx:15 | Joining the pieces of a split with the separator gives back the name. |
| Strings.SplitJoin | components/BatchProcessor.tsx:15 | Splitting a join of pieces that do not contain the separator gives back the pieces. |
| Downloads.BaseNameSpec | components/BatchProcessor.tsx:15 | `split('.').slice(0, -1).join('.')` is the part of the name before its last dot, with earlier dots kept. It is empty when the name has no dot. |
| Downloads.DownloadFileNameSpec | components/BatchProcessor.tsx:14-18 | The name is the base name followed by `-converted.svg` for PNG to SVG, and by `-converted.png` otherwise. |
| Downloads.DownloadFileNameKeepsEarlierDots | components/BatchProcessor.tsx:95-99 | `a.b.png` is saved as `a.b-converted.svg`. |
| Downloads.LastDotAt | components/BatchProcessor.tsx:15 | A name whose last dot is at position k has its first k characters as base name. |
| Downloads.DownloadFileNameWithoutDot | components/BatchProcessor.tsx:15-17 | A name without a dot is saved as just `-converted.<ext>`. |
| Downloads.ZipSelection | components/BatchProcessor.tsx:88 | Every selected item is `CONVERTED` with a non-empty output. There are no more of them than converted items. |
| Downloads.ZipSelectionMembers | components/BatchProcessor.tsx:88 | An item is selected exactly when it is converted and has a non-empty output. |
| Downloads.ZipSelectionAppend | components/BatchProcessor.tsx:88 | The selection keeps list order. |
| Downloads.ZipEntriesNames | components/BatchProcessor.tsx:101-105 | The archive has an entry exactly for each download name of the selection. |
| Downloads.ZipEntriesLastWins | components/BatchProcessor.tsx:101-105 | An entry holds the output of the last selected item with that name. |
| Downloads.AddEntries | components/BatchProcessor.tsx:101-105 | The loop completes exactly when every selected output can be fetched, and then it has built that archive. |
| Downloads.ZipDownload.constructor | components/BatchProcessor.tsx:82 | Not zipping, and nothing saved yet. |
| Downloads.ZipDownload.HandleDownloadAll | components/BatchProcessor.tsx:87-123 | An empty selection returns with nothing changed. Otherwise the archive is handed over exactly when every fetch and the archiving succeed, and `isZipping` is false again on every path. |

## Left out

- `convertSvgToPng` (canvas rasterisation) is outside this model. It appears only as the `render` parameter of the convert-all loop.
- `FileReader`, `Image` decoding, `fetch`, `Blob`, `URL.createObjectURL`, `Date.now`, the DOM anchor click and `console.error` are browser I/O. They are parameters, or they are left out. The saved archive stands in for the download.
- `Promise.allSettled` and the `await` points are modelled sequentially. Concurrent handler calls are not modelled.
- Session.Session.HandleFileSelect: joins the failure messages with a line break, the evidently intended separator, rather than the backslash followed by `n` written at App.tsx:60. The as-written join is `Batch.JoinFailuresAsWritten` (see Findings).
- `handleFileSelect` reads `files.length` from the render in which the handler was created. The model reads the current list.
- `crypto.randomUUID` is modelled by a counter, so id uniqueness is a proved invariant rather than a probabilistic one.
- `Partial<ConversionFile>` updates are limited to the three fields the source patches: `status`, `outputPreviewUrl` and `error`.
- Widths and heights are natural numbers. JavaScript `number` formatting of fractions, `NaN` or exponents is not modelled.
- Strings are sequences of Unicode scalar values, so a lone surrogate, on which `encodeURIComponent` throws, cannot be represented.
- Fetched blobs are modelled by the output URL they were fetched from.
- The presentational components (`FileUploader.tsx`, `ConversionPanel.tsx`, `Header.tsx`, `Button.tsx`) and the status badges are not part of this model.
- Duplicate download names are not disambiguated. The archive keeps only the last item with a given name, as the source does (see `Downloads.ZipEntriesLastWins`).

## Findings

| source | as written | input that shows it | evidently intended | confidence | as-written member | corrected member |
|---|---|---|---|---|---|---|
| App.tsx:60 | `failedFiles.join('\\n')` joins the messages with a backslash followed by `n` | Selecting `a.gif` and `b.bmp` together gives one line with a literal `\n` between the two messages in the `whitespace-pre-wrap` span (components/FileUploader.tsx:71) | one message per line, joined with a line break | not executed | Batch.JoinFailuresAsWrittenExample | Batch.JoinFailuresLines |
