/**
  The upload validator of the file picker (components/FileUploader.tsx):
  the accept test against the accepted types, the size limit, the choice
  between the Photoshop parser and the data-URL reader, and the guards of
  the drop and input handlers. The parser, the reader and object URLs are
  browser services; their results are parameters here.
*/
module FileUploader {
  import opened Wrappers
  import opened JsString
  import opened Types
  import opened Constants

  const PsdMime: string := "image/vnd.adobe.photoshop"
  const PsdSuffix: string := ".psd"

  /** `MAX_FILE_SIZE_MB * 1024 * 1024` */
  const MaxFileBytes: nat := MaxFileSizeMb * 1024 * 1024

  const UnsupportedAlert: string := "Please upload a supported file: PNG, JPG, WEBP, or PSD."
  const PsdFailureAlert: string := "Failed to parse PSD file locally."

  function TooLargeAlert(): string {
    "File size must be less than " + NatToString(MaxFileSizeMb) + "MB."
  }

  /** The file is a Photoshop document, by its lower-cased name or its MIME type. */
  predicate IsPsd(f: FileInfo) {
    EndsWith(ToLower(f.name), PsdSuffix) || f.mimeType == PsdMime
  }

  /** The callback of `ACCEPTED_IMAGE_TYPES.some(...)` for one entry. */
  predicate MatchesType(f: FileInfo, t: string) {
    || f.mimeType == t
    || EndsWith(ToLower(f.name), t)
    || (t == PsdSuffix && IsPsd(f))
  }

  /** `types.some(type => MatchesType(f, type))`, entry by entry. */
  predicate AnyType(types: seq<string>, f: FileInfo) {
    types != [] && (MatchesType(f, types[0]) || AnyType(types[1..], f))
  }

  predicate IsAccepted(f: FileInfo) {
    AnyType(AcceptedImageTypes, f)
  }

  /** A file is accepted exactly when some accepted entry is its MIME type or
      a suffix of its lower-cased name, or it is a Photoshop document. */
  lemma {:induction false} AcceptedIff(f: FileInfo)
    ensures IsAccepted(f) <==>
      || (exists i | 0 <= i < |AcceptedImageTypes| :: f.mimeType == AcceptedImageTypes[i]
                                                    || EndsWith(ToLower(f.name), AcceptedImageTypes[i]))
      || IsPsd(f)
  {
    var ts := AcceptedImageTypes;
    assert ts[3] == PsdSuffix;
    var t1, t2, t3, t4 := ts[1..], ts[2..], ts[3..], ts[4..];
    assert t1[1..] == t2 && t2[1..] == t3 && t3[1..] == t4 && t4[1..] == [];
    assert AnyType(t4, f) == MatchesType(f, ts[4]);
    assert AnyType(t3, f) == (MatchesType(f, ts[3]) || AnyType(t4, f));
    assert AnyType(t2, f) == (MatchesType(f, ts[2]) || AnyType(t3, f));
    assert AnyType(t1, f) == (MatchesType(f, ts[1]) || AnyType(t2, f));
    assert AnyType(ts, f) == (MatchesType(f, ts[0]) || AnyType(t1, f));
  }

  /** A name with an accepted extension but no MIME type is still rejected
      when the extension is not itself an entry: `x.png` is refused. */
  lemma PngWithoutMimeRejected(size: nat)
    ensures !IsAccepted(FileInfo("x.png", "", size))
  {
    var f := FileInfo("x.png", "", size);
    AcceptedIff(f);
    var lower := ToLower(f.name);
    assert lower == "x.png";
    assert !EndsWith(lower, PsdSuffix);
    assert !EndsWith(lower, ".fig");
    assert forall i | 0 <= i < |AcceptedImageTypes| :: !EndsWith(lower, AcceptedImageTypes[i]);
  }

  datatype Rejection = Unsupported | TooLarge

  /** What `handleFile` does with a file. */
  datatype Decision = Rejected(reason: Rejection) | ParsePsd | ReadDataUrl

  function AlertFor(r: Rejection): string {
    match r
    case Unsupported => UnsupportedAlert
    case TooLarge => TooLargeAlert()
  }

  /** `handleFile`: the type check, then the strict size check, then the route. */
  function HandleFile(f: FileInfo): (d: Decision)
    ensures d.Rejected? <==> !IsAccepted(f) || f.size > MaxFileBytes
    ensures d == ParsePsd <==> IsAccepted(f) && f.size <= MaxFileBytes && IsPsd(f)
  {
    if !IsAccepted(f) then Rejected(Unsupported)
    else if f.size > MaxFileBytes then Rejected(TooLarge)
    else if IsPsd(f) then ParsePsd
    else ReadDataUrl
  }

  /** The type check runs first: an unsupported file is refused as such
      whatever its size. A file of exactly the limit passes the size check,
      one byte more does not. */
  lemma SizeAndTypeOrder(f: FileInfo)
    ensures !IsAccepted(f) ==> HandleFile(f) == Rejected(Unsupported)
    ensures IsAccepted(f) && f.size == MaxFileBytes ==> !HandleFile(f).Rejected?
    ensures IsAccepted(f) && f.size == MaxFileBytes + 1 ==> HandleFile(f) == Rejected(TooLarge)
    ensures MaxFileBytes == 104857600
  {
  }

  /** A Photoshop document always passes the type check, and within the size
      limit it goes to the parser; every other accepted file, a `.fig`
      included, goes to the reader. */
  lemma PsdRoute(f: FileInfo)
    ensures IsPsd(f) ==> IsAccepted(f)
    ensures IsPsd(f) && f.size <= MaxFileBytes ==> HandleFile(f) == ParsePsd
    ensures EndsWith(ToLower(f.name), ".fig") && !IsPsd(f) && f.size <= MaxFileBytes ==>
      HandleFile(f) == ReadDataUrl
  {
    AcceptedIff(f);
    if IsPsd(f) {
      assert AcceptedImageTypes[3] == PsdSuffix;
    }
    assert AcceptedImageTypes[4] == ".fig";
  }

  /** `.PSD` lower-cases to the Photoshop suffix. */
  lemma UpperPsdSuffix()
    ensures ToLower(".PSD") == PsdSuffix
  {
    var r := ToLower(".PSD");
    assert r[0] == '.' && r[1] == 'p' && r[2] == 's' && r[3] == 'd';
  }

  /** The Photoshop test ignores the case of the extension: a file whose
      name ends in any spelling of `.psd`, `….PSD` included, takes the
      parser route within the size limit, whatever its MIME type. */
  lemma PsdAnyCaseName(f: FileInfo, t: string)
    requires EndsWith(f.name, t) && ToLower(t) == PsdSuffix
    ensures IsPsd(f)
    ensures f.size <= MaxFileBytes ==> HandleFile(f) == ParsePsd
  {
    ToLowerEndsWith(f.name, t);
    PsdRoute(f);
  }

  /** What reaches `onFileSelect`, given what the parser produced for a
      Photoshop document, the reader's data URL and the object URL of the file. */
  function Selected(f: FileInfo, psdImage: Result<string>, dataUrl: string, objectUrl: string): Option<FileUpload> {
    match HandleFile(f)
    case Rejected(_) => None
    case ParsePsd => if psdImage.Ok? then Some(FileUpload(f, psdImage.value, psdImage.value)) else None
    case ReadDataUrl => Some(FileUpload(f, objectUrl, dataUrl))
  }

  /** The alert shown for a file, if any. */
  function Alert(f: FileInfo, psdImage: Result<string>): Option<string> {
    match HandleFile(f)
    case Rejected(r) => Some(AlertFor(r))
    case ParsePsd => if psdImage.Ok? then None else Some(PsdFailureAlert)
    case ReadDataUrl => None
  }

  /** Only an accepted file within the limit reaches `onFileSelect`, carrying
      that very file; every file that does not reach it raises an alert. A
      parsed document's preview is its image. */
  lemma SelectedSpec(f: FileInfo, psdImage: Result<string>, dataUrl: string, objectUrl: string)
    ensures var s := Selected(f, psdImage, dataUrl, objectUrl);
      && (s.Some? ==> IsAccepted(f) && f.size <= MaxFileBytes && s.value.file == f)
      && (s.None? <==> Alert(f, psdImage).Some?)
      && (s.Some? && IsPsd(f) ==> s.value.previewUrl == s.value.base64 == psdImage.value)
      && (s.Some? && !IsPsd(f) ==> s.value.base64 == dataUrl)
  {
  }

  /** `onDrop`: nothing while loading; otherwise the first dropped file, if any. */
  function OnDrop(isLoading: bool, files: seq<FileInfo>): Option<Decision> {
    if isLoading || files == [] then None else Some(HandleFile(files[0]))
  }

  /** `onInputChange`: the first chosen file, if any. The handler itself has
      no loading guard; the input is disabled while loading, which is
      rendering and is not modelled. */
  function OnInputChange(files: seq<FileInfo>): Option<Decision> {
    if files == [] then None else Some(HandleFile(files[0]))
  }

  /** Drops are ignored while loading, and only the first file counts. */
  lemma DropSpec(isLoading: bool, f: FileInfo, rest: seq<FileInfo>)
    ensures OnDrop(true, [f] + rest) == None
    ensures OnDrop(false, [f] + rest) == OnDrop(false, [f]) == OnInputChange([f] + rest)
    ensures OnDrop(isLoading, []) == None
  {
  }
}
