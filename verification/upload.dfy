/** What every upload control of the dashboard shares: the two storage calls
    made for one picked file, `uploadBytes` and then `getDownloadURL`, and
    the control's error line and busy flag. The featured-image inputs, the
    website-images uploader and the gallery uploader all use it. */
module Upload {
  import opened Store

  /** An upload control's own state: its error line and its busy flag. */
  datatype Uploader = Uploader(error: string, uploading: bool)

  /** The replies of the two calls made for one file: `uploadBytes`, then
      `getDownloadURL`. */
  datatype FileReplies = FileReplies(put: Outcome, locate: Outcome)

  predicate Succeeds(r: FileReplies) {
    r.put.Pass? && r.locate.Pass?
  }

  /** The message an upload fails with: that of the first call that threw,
      or the empty line when neither did. */
  function FailureMessage(r: FileReplies): string {
    if r.put.Fail? then r.put.message
    else if r.locate.Fail? then r.locate.message
    else ""
  }
}
