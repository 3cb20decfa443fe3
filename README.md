# Media upload widget — a Dafny model

This project models the `FileUpload` React component of a small media-upload
web application. The component lets a user pick an image or a video, checks
the file, sends it to a hosted media service and shows the resulting URL. The
model covers its two pieces of real logic:

- **File validation** (`validateFile`). The file's declared MIME type must
  start with `image/` or `video/`, according to the selected kind. Its size
  must be at most 100 MiB (104 857 600 bytes). The type check runs first, and
  the first rule the file breaks picks a fixed message.
  `FileValidation.ValidationMessage` states this decision as a pure function.
- **The upload state machine** (`handleMediaUpload`). The class
  `Upload.FileUpload` holds the component's state: `fileType`, `uploading`,
  `error`, `fileUrl` and `progress`. Its methods are the transitions:
  - `Select` handles a chosen file: it validates the file and, if accepted,
    resets the state.
  - `ReportProgress` is the `onProgress` callback.
  - `Finish` is the `try`/`catch`/`finally` ending.
  - `HandleMediaUpload` runs one whole upload: `Select`, then every progress
    event, then `Finish`.

The network traffic is not modelled. This covers the credential request and
the SDK `upload` call. The model sees only what they hand back to the
component: a sequence of progress events (`ProgressEvent`) and an outcome
(`Outcome`). The outcome is a success with an optional URL, a network-class
error, a server-class error, or any other error.

Some of the code's behaviour is easy to misread; the model follows the code:

- A successful upload does not set `progress` to 100. `progress` keeps the
  last length-computable value the transport reported, and the same holds
  after a failure.
- The reported percentage is never clamped. The model assumes no range for it.
- There is no separate credential-failure path. The response status of the
  credential request is never checked. A failed request surfaces only as
  whatever exception comes next. An exception that is not one of the SDK's
  two error classes lands in the "Unknown error" branch (`OtherErr`).
- A rejected file only sets `error`. It does not clear the URL of an earlier
  successful upload, so the old preview and the new error message can be
  shown together. `Walkthrough` shows this sequence.
- The size rule accepts a file of exactly 100 MiB (`size > 100 * 1024 * 1024`
  rejects). The message still reads "less than 100 MB".

## Model

| member | source | states |
|---|---|---|
| `FileValidation.ValidationMessage` | app/components/FileUpload.tsx:17-31 | A file is accepted exactly when its MIME type starts with the selected kind's prefix and its size is at most 104 857 600 bytes. A wrong type always reports that kind's type message and never the size message, even for an oversize file. A right-type file over the limit reports the size message. The helpers `MimePrefix` and `WrongTypeMessage` hold each kind's prefix (`image/`, `video/`) and type message. |
| `Upload.FileUpload.constructor` | app/components/FileUpload.tsx:11-15 | The initial state: kind image, not uploading, no error, no URL, progress 0. |
| `Upload.FileUpload.SetFileType` | app/components/FileUpload.tsx:84-101 | The toggle buttons set the accepted media kind. No other field changes. |
| `Upload.FileUpload.ValidateFile` | app/components/FileUpload.tsx:17-31 | Returns true exactly when the pure decision accepts the file for the current kind. On rejection it stores that decision's message in `error`. On acceptance `error` is untouched. Only `error` may change. |
| `Upload.FileUpload.Select` | app/components/FileUpload.tsx:33-40 | The transfer starts exactly when a file is present and valid. An absent file changes nothing. A rejected file changes only `error`, setting it to the validation message. An accepted file sets `uploading` true and clears `error`, `fileUrl` and `progress` to null, null and 0. |
| `Upload.FileUpload.ReportProgress` | app/components/FileUpload.tsx:53-58 | A length-computable event overwrites `progress` with its percent. Any other event leaves `progress` unchanged. |
| `Upload.FileUpload.Finish` | app/components/FileUpload.tsx:61-73 | `uploading` always ends false. On success `fileUrl` becomes the returned URL or null, and `error` is untouched. On a network, server or other failure `error` becomes the message for that class, and `fileUrl` is untouched. `progress` never changes. |
| `Upload.FileUpload.HandleMediaUpload` | app/components/FileUpload.tsx:33-74 | A full run on the selected file list. Only the first file counts. A missing or empty list, or a rejected file, behaves as in `Select` and makes no transfer. An accepted file ends with `uploading` false and `progress` equal to the last length-computable percent (0 if none). On success it ends with the returned URL and no error. On failure it ends with that class's message and no URL. |
| `Upload.FailureMessage` | app/components/FileUpload.tsx:64-70 | The message the `catch` block stores for each failure class. `NetworkErr` gives "Network error during upload.", `ServerErr` gives "Server error during upload." and `OtherErr` gives "Unknown error occurred during upload.". Each holds in both directions, so the three messages are distinct. |
| `Upload.FirstFile` | app/components/FileUpload.tsx:34 | The file `e.target.files?.[0]` selects. It is the first file of a present, non-empty list. A missing or empty list gives no file. |
| `Upload.LatestProgress` | app/components/FileUpload.tsx:53-58 | The progress left by a run of events is the percent of the last length-computable event, with no length-computable event after it. If no event is length-computable, the starting value stays. |
| `Upload.Reported` | app/components/FileUpload.tsx:54 | Keeps exactly the length-computable events of a sequence. Every event in the result is length-computable. Each length-computable event occurs in the result exactly as often as in the input, and no other event occurs in it. The order of the kept events is the input's by the definition; the contract does not state order. |
| `Upload.LatestProgressAppend` | app/components/FileUpload.tsx:53-58 | Two batches of progress events have the same effect as their concatenation. Each event only overwrites the value the earlier events left. |
| `Upload.LatestProgressOnlyReported` | app/components/FileUpload.tsx:54-57 | Dropping every event that is not length-computable never changes the resulting progress. |

## Left out

- The credential request `fetch("/api/auth/imagekit_auth")` and the SDK `upload(...)` call: these are network I/O through a library that is not part of this model. Only their effect on the component is modelled: the progress events and the `Outcome`.
- The percent computation `Math.round(event.loaded / event.total * 100)` is floating-point. The model takes its rounded value as an arbitrary integer. A non-finite value (NaN or Infinity) from an event whose `total` is 0 is not represented.
- Rendering is not modelled: the JSX, the progress bar, the preview, the clipboard button and the `disabled={uploading}` attribute. The model places no guard against a second selection during an upload. A caller may interleave `Select`, `ReportProgress` and `Finish` freely, as stale asynchronous callbacks can.
- React's scheduling of state updates is not modelled. Each setter call is treated as an immediate field write, in program order.
- Upload.Reported: the contract states which events are kept and how often, but not their order. Order follows from the definition, which appends in input order. `LatestProgressOnlyReported` is proved from the definition.
- The `console.error` logging in the `catch` block is not modelled.
- lib/api-client.ts, app/api/auth/register/route.ts and app/page.tsx are not part of this model. They are an HTTP wrapper, a database-backed registration handler and page layout.
