/** The accept/reject decision of the upload widget's `validateFile`
    (app/components/FileUpload.tsx): a selected file must carry the MIME
    prefix of the selected media kind and be at most 100 MiB; the first
    violated rule decides the error message. */
module FileValidation {

  import opened Options

  /** The `fileType` toggle of the widget: which kind of media it accepts. */
  datatype MediaKind = Image | Video

  /** What the browser reports about a selected file: its declared MIME type
      (`File.type`) and its size in bytes (`File.size`). */
  datatype MediaFile = MediaFile(mimeType: string, size: nat)

  /** The size ceiling, `100 * 1024 * 1024` bytes. */
  const MaxFileSize: nat := 100 * 1024 * 1024

  const VideoTypeMessage := "Please upload a valid video file"
  const ImageTypeMessage := "Please upload a valid image file"
  const FileTooLargeMessage := "File size should be less than 100 MB."

  /** The MIME prefix a file of the given kind must start with. */
  function MimePrefix(kind: MediaKind): (prefix: string)
  {
    match kind
    case Image => "image/"
    case Video => "video/"
  }

  /** The message reported for a file that does not match the given kind. */
  function WrongTypeMessage(kind: MediaKind): (message: string)
  {
    match kind
    case Image => ImageTypeMessage
    case Video => VideoTypeMessage
  }

  /** `Some(message)` for a file the widget rejects, `None` for one it
      accepts. The checks run in the source's order: the video type test,
      the image type test, then the size test. `p <= s` is Dafny's prefix
      test on sequences, i.e. JavaScript's `s.startsWith(p)`. */
  function ValidationMessage(kind: MediaKind, file: MediaFile): (r: Option<string>)
    // accepted exactly when the type matches the kind and the size is at most 100 MiB
    ensures r == None <==> MimePrefix(kind) <= file.mimeType && file.size <= 104_857_600
    // the type check takes precedence over the size check
    ensures !(MimePrefix(kind) <= file.mimeType) ==>
              r == Some(WrongTypeMessage(kind)) && r != Some(FileTooLargeMessage)
    ensures MimePrefix(kind) <= file.mimeType && file.size > 104_857_600 ==>
              r == Some(FileTooLargeMessage)
  {
    if kind == Video && !("video/" <= file.mimeType) then Some(VideoTypeMessage)
    else if kind == Image && !("image/" <= file.mimeType) then Some(ImageTypeMessage)
    else if file.size > MaxFileSize then Some(FileTooLargeMessage)
    else None
  }
}
