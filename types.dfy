/** The records and enumerations the application passes around. */
module Types {

  datatype AppStatus = Idle | Analyzing | Generating | Success | Error

  datatype AppView = Dashboard | Converter | Documentation

  /** The three text blobs of a generated artifact. */
  datatype GeneratedCode = GeneratedCode(html: string, css: string, javascript: string)

  /** One saved version in the history list; `timestamp` is milliseconds since the epoch. */
  datatype HistoryItem = HistoryItem(
    id: string,
    name: string,
    timestamp: nat,
    code: GeneratedCode,
    previewUrl: string,
    fontFamily: string)

  /** A browser `File`, as far as the application reads it (`type` is `mimeType` here). */
  datatype FileInfo = FileInfo(name: string, mimeType: string, size: nat)

  datatype FileUpload = FileUpload(file: FileInfo, previewUrl: string, base64: string)
}
