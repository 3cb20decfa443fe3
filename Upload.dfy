/** The state machine of the upload widget (app/components/FileUpload.tsx):
    its five pieces of component state and the transitions `handleMediaUpload`
    drives them through. The credential fetch and the SDK `upload` call are
    not modelled; they are represented by what they deliver to the widget: a
    sequence of progress events and an outcome. */
module Upload {

  import opened Options
  import opened FileValidation

  /** One `onProgress` event of the transfer. `percent` stands for
      `Math.round(event.loaded / event.total * 100)`, taken as given: the
      widget never clamps it, so no range is assumed. */
  datatype ProgressEvent = ProgressEvent(lengthComputable: bool, percent: int)

  /** How the `try` block of `handleMediaUpload` ends: the SDK result with its
      optional `url`, or a thrown error classified by the `catch` block as an
      `ImageKitUploadNetworkError`, an `ImageKitServerError`, or anything
      else (which includes a failing credential fetch). */
  datatype Outcome = Success(url: Option<string>) | NetworkErr | ServerErr | OtherErr

  const NetworkErrorMessage := "Network error during upload."
  const ServerErrorMessage := "Server error during upload."
  const UnknownErrorMessage := "Unknown error occurred during upload."

  /** The message the `catch` block stores for a failed transfer. */
  function FailureMessage(outcome: Outcome): (m: string)
    requires !outcome.Success?
    // each failure class has its own message, so the message identifies the class
    ensures outcome == NetworkErr <==> m == "Network error during upload."
    ensures outcome == ServerErr <==> m == "Server error during upload."
    ensures outcome == OtherErr <==> m == "Unknown error occurred during upload."
  {
    match outcome
    case NetworkErr => NetworkErrorMessage
    case ServerErr => ServerErrorMessage
    case OtherErr => UnknownErrorMessage
  }

  /** The first selected file, `e.target.files?.[0]`: absent when the list is
      missing or empty. */
  function FirstFile(files: Option<seq<MediaFile>>): (f: Option<MediaFile>)
    ensures f.Some? <==> files.Some? && |files.value| > 0
    ensures f.Some? ==> f.value == files.value[0]
  {
    if files.Some? && |files.value| > 0 then Some(files.value[0]) else None
  }

  /** No event of the sequence is length-computable. */
  predicate NoneReported(events: seq<ProgressEvent>)
  {
    forall i :: 0 <= i < |events| ==> !events[i].lengthComputable
  }

  /** `events[i]` is the last length-computable event of `events`, and its
      percent is `p`. */
  predicate LastReportedAt(events: seq<ProgressEvent>, i: int, p: int)
  {
    0 <= i < |events| && events[i].lengthComputable && p == events[i].percent &&
    NoneReported(events[i + 1..])
  }

  /** Appending an event that is not length-computable keeps "no event is
      length-computable" as it was. */
  lemma NoneReportedExtend(front: seq<ProgressEvent>, e: ProgressEvent)
    requires !e.lengthComputable
    ensures NoneReported(front + [e]) <==> NoneReported(front)
  {
    var events := front + [e];
    if NoneReported(front) {
      forall i | 0 <= i < |events| ensures !events[i].lengthComputable {
        if i < |front| { assert events[i] == front[i]; }
      }
    } else {
      var i :| 0 <= i < |front| && front[i].lengthComputable;
      assert events[i] == front[i];
    }
  }

  /** Appending an event that is not length-computable keeps the last
      length-computable event where it was. */
  lemma LastReportedAtExtend(front: seq<ProgressEvent>, e: ProgressEvent, i: int, p: int)
    requires !e.lengthComputable && LastReportedAt(front, i, p)
    ensures LastReportedAt(front + [e], i, p)
  {
    var events := front + [e];
    assert events[i] == front[i];
    assert events[i + 1..] == front[i + 1..] + [e];
    NoneReportedExtend(front[i + 1..], e);
  }

  /** The progress value after `events` have been delivered, starting from
      `initial`: the percent of the last length-computable event, or
      `initial` when there is none. */
  function LatestProgress(initial: int, events: seq<ProgressEvent>): (p: int)
    ensures NoneReported(events) ==> p == initial
    ensures !NoneReported(events) ==> exists i :: LastReportedAt(events, i, p)
    decreases |events|
  {
    if events == [] then initial
    else if events[|events| - 1].lengthComputable then
      assert events[|events|..] == [];
      assert LastReportedAt(events, |events| - 1, events[|events| - 1].percent);
      events[|events| - 1].percent
    else
      var front := events[..|events| - 1];
      var last := events[|events| - 1];
      var p := LatestProgress(initial, front);
      assert events == front + [last];
      NoneReportedExtend(front, last);
      assert !NoneReported(front) ==> exists i :: LastReportedAt(events, i, p) by {
        if !NoneReported(front) {
          var i :| LastReportedAt(front, i, p);
          LastReportedAtExtend(front, last, i, p);
        }
      }
      p
  }

  /** The length-computable events of `events`, in order: each of them is
      kept as often as it occurs, every other event is dropped. */
  function Reported(events: seq<ProgressEvent>): (r: seq<ProgressEvent>)
    ensures |r| <= |events|
    ensures forall i :: 0 <= i < |r| ==> r[i].lengthComputable
    ensures forall e :: multiset(r)[e] == if e.lengthComputable then multiset(events)[e] else 0
    decreases |events|
  {
    if events == [] then []
    else
      var front := events[..|events| - 1];
      var last := events[|events| - 1];
      assert events == front + [last];
      assert multiset(events) == multiset(front) + multiset{last};
      if last.lengthComputable then Reported(front) + [last] else Reported(front)
  }

  /** Events delivered in two batches leave the same progress as all of them
      delivered at once: each event only overwrites the value left by the
      previous ones. */
  lemma {:induction false} LatestProgressAppend(initial: int, a: seq<ProgressEvent>, b: seq<ProgressEvent>)
    ensures LatestProgress(initial, a + b) == LatestProgress(LatestProgress(initial, a), b)
    decreases |b|
  {
    if b == [] {
      assert a + b == a;
    } else {
      var front := b[..|b| - 1];
      assert (a + b)[..|a + b| - 1] == a + front;
      assert (a + b)[|a + b| - 1] == b[|b| - 1];
      LatestProgressAppend(initial, a, front);
    }
  }

  /** Events that are not length-computable have no effect at all: dropping
      them leaves the final progress unchanged. */
  lemma {:induction false} LatestProgressOnlyReported(initial: int, events: seq<ProgressEvent>)
    ensures LatestProgress(initial, events) == LatestProgress(initial, Reported(events))
    decreases |events|
  {
    if events != [] {
      var front := events[..|events| - 1];
      var last := events[|events| - 1];
      LatestProgressOnlyReported(initial, front);
      if last.lengthComputable {
        var r := Reported(front) + [last];
        assert r[..|r| - 1] == Reported(front);
      }
    }
  }

  /** The `FileUpload` component's state. */
  class FileUpload {
    var fileType: MediaKind
    var uploading: bool
    var error: Option<string>
    var fileUrl: Option<string>
    var progress: int

    /** The initial `useState` values. */
    constructor ()
      ensures fileType == Image && !uploading
      ensures error == None && fileUrl == None && progress == 0
    {
      fileType := Image;
      uploading := false;
      error := None;
      fileUrl := None;
      progress := 0;
    }

    /** The Image / Video toggle buttons (`setFileType`). */
    method SetFileType(kind: MediaKind)
      modifies this`fileType
      ensures fileType == kind
    {
      fileType := kind;
    }

    /** `validateFile`: decides whether `file` fits the selected kind and,
        when it does not, stores the first violated rule's message. */
    method ValidateFile(file: MediaFile) returns (valid: bool)
      modifies this`error
      ensures valid <==> ValidationMessage(fileType, file) == None
      ensures valid ==> error == old(error)
      ensures !valid ==> error == ValidationMessage(fileType, file)
    {
      if fileType == Video && !("video/" <= file.mimeType) {
        error := Some(VideoTypeMessage);
        return false;
      }
      if fileType == Image && !("image/" <= file.mimeType) {
        error := Some(ImageTypeMessage);
        return false;
      }
      if file.size > MaxFileSize {
        error := Some(FileTooLargeMessage);
        return false;
      }
      return true;
    }

    /** The opening of `handleMediaUpload`: an absent or rejected file ends
        the handler (a rejection only records its message); an accepted one
        starts a session with cleared error, URL and progress. `accepted`
        tells whether the transfer is attempted. */
    method Select(file: Option<MediaFile>) returns (accepted: bool)
      modifies this`uploading, this`error, this`fileUrl, this`progress
      ensures accepted <==> file.Some? && ValidationMessage(fileType, file.value) == None
      ensures !accepted ==>
                uploading == old(uploading) && fileUrl == old(fileUrl) && progress == old(progress)
      ensures !accepted && file == None ==> error == old(error)
      ensures !accepted && file.Some? ==>
                error == ValidationMessage(fileType, file.value) && error != None
      ensures accepted ==> uploading && error == None && fileUrl == None && progress == 0
    {
      if file == None {
        return false;
      }
      accepted := ValidateFile(file.value);
      if !accepted {
        return;
      }
      uploading := true;
      error := None;
      fileUrl := None;
      progress := 0;
    }

    /** The `onProgress` callback: only a length-computable event updates
        the progress, and it overwrites whatever value was there. */
    method ReportProgress(event: ProgressEvent)
      modifies this`progress
      ensures progress == if event.lengthComputable then event.percent else old(progress)
    {
      if event.lengthComputable {
        progress := event.percent;
      }
    }

    /** The end of the `try`/`catch`/`finally`: a success stores the returned
        URL (or none), a failure stores the message of its class; either way
        `uploading` ends false and the progress keeps its last value. */
    method Finish(outcome: Outcome)
      modifies this`uploading, this`error, this`fileUrl
      ensures !uploading
      ensures outcome.Success? ==> fileUrl == outcome.url && error == old(error)
      ensures !outcome.Success? ==>
                error == Some(FailureMessage(outcome)) && fileUrl == old(fileUrl)
    {
      match outcome {
        case Success(url) =>
          fileUrl := url;
        case NetworkErr =>
          error := Some(NetworkErrorMessage);
        case ServerErr =>
          error := Some(ServerErrorMessage);
        case OtherErr =>
          error := Some(UnknownErrorMessage);
      }
      uploading := false;
    }

    /** One whole run of `handleMediaUpload` for the selected file list:
        selection, then the transfer's progress events in the order they are
        delivered, then its outcome. A rejected or absent file makes no
        transfer, so `events` and `outcome` are then ignored. */
    method HandleMediaUpload(files: Option<seq<MediaFile>>, events: seq<ProgressEvent>, outcome: Outcome)
      returns (accepted: bool)
      modifies this`uploading, this`error, this`fileUrl, this`progress
      ensures accepted <==>
                FirstFile(files).Some? && ValidationMessage(fileType, FirstFile(files).value) == None
      ensures !accepted ==>
                uploading == old(uploading) && fileUrl == old(fileUrl) && progress == old(progress)
      ensures !accepted && FirstFile(files) == None ==> error == old(error)
      ensures !accepted && FirstFile(files).Some? ==>
                error == ValidationMessage(fileType, FirstFile(files).value)
      ensures accepted ==> !uploading && progress == LatestProgress(0, events)
      ensures accepted && outcome.Success? ==> fileUrl == outcome.url && error == None
      ensures accepted && !outcome.Success? ==>
                fileUrl == None && error == Some(FailureMessage(outcome))
    {
      accepted := Select(FirstFile(files));
      if !accepted {
        return;
      }
      for i := 0 to |events|
        invariant uploading && error == None && fileUrl == None
        invariant progress == LatestProgress(0, events[..i])
      {
        ReportProgress(events[i]);
        assert events[..i + 1][..i] == events[..i];
      }
      assert events[..|events|] == events;
      Finish(outcome);
    }
  }

  /** What a caller of the component can conclude from the contracts alone. */
  method Walkthrough()
  {
    var widget := new FileUpload();
    var jpeg := MediaFile("image/jpeg", 10_000_000);
    var ok := widget.HandleMediaUpload(Some([jpeg]), [ProgressEvent(true, 40), ProgressEvent(false, 0), ProgressEvent(true, 100)],
                                       Success(Some("https://cdn.example/img123.jpg")));
    assert ok && !widget.uploading && widget.progress == 100;
    assert widget.fileUrl == Some("https://cdn.example/img123.jpg") && widget.error == None;

    // a rejected selection reports its message but leaves the earlier preview in place
    widget.SetFileType(Video);
    var mp4 := MediaFile("video/mp4", 200 * 1024 * 1024);
    ok := widget.HandleMediaUpload(Some([mp4]), [], OtherErr);
    assert !ok && widget.error == Some(FileTooLargeMessage);
    assert widget.fileUrl == Some("https://cdn.example/img123.jpg") && widget.progress == 100;

    // a failed transfer keeps the last reported progress
    var clip := MediaFile("video/mp4", 5_000_000);
    ok := widget.HandleMediaUpload(Some([clip]), [ProgressEvent(true, 37)], NetworkErr);
    assert ok && widget.error == Some(NetworkErrorMessage) && widget.fileUrl == None;
    assert widget.progress == 37;

    // an empty file list changes nothing
    ok := widget.HandleMediaUpload(Some([]), [], OtherErr);
    assert !ok && widget.error == Some(NetworkErrorMessage) && widget.progress == 37;
  }
}
