/** The closed enumerations and the work-item record of types.ts. */
module Types {

  datatype Option<+T> = None | Some(value: T)

  /** How a promise settles, as `Promise.allSettled` reports it. */
  datatype Settled<+T> = Fulfilled(value: T) | Rejected(reason: string)

  /** Overall session status (types.ts, AppStatus). `Error` is declared by the
      source but never assigned by the session logic. */
  datatype AppStatus = Idle | Loaded | Processing | Done | Error

  /** Lifecycle of one work item (types.ts, FileStatus); `Failed` is the
      source's `ERROR`. */
  datatype FileStatus = Queued | Converting | Converted | Failed

  /** The two conversion directions (types.ts, ConversionType). */
  datatype ConversionType = PngToSvg | SvgToPng

  /** Opaque identifier of a work item. */
  type FileId = nat

  /** The parts of the browser's `File` object that the core reads. */
  datatype SourceFile = SourceFile(name: string, mimeType: string)

  /** One work item (types.ts, ConversionFile). The nullable fields of the
      source are `Option`s; everything else is always present. */
  datatype ConversionFile = ConversionFile(
    id: FileId,
    file: SourceFile,
    status: FileStatus,
    previewUrl: string,
    width: nat,
    height: nat,
    outputPreviewUrl: Option<string>,
    conversionType: ConversionType,
    error: Option<string>)

  /** A finished item: converted, or failed with a message. */
  predicate IsTerminal(s: FileStatus) {
    s == Converted || s == Failed
  }
}
