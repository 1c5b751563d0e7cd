/** The configuration values the client shares between its components. */
module Constants {

  /** The model name the client asks the server to use. */
  const GeminiModelVision: string := "gemini-3-pro-preview"

  const MaxFileSizeMb: nat := 100

  /** MIME types and file-name suffixes an upload may match. */
  const AcceptedImageTypes: seq<string> := ["image/png", "image/jpeg", "image/webp", ".psd", ".fig"]
}
