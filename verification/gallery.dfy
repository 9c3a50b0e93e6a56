/** The `GalleryUploader` component shared by the event and blog editors
    (and its older copy in the single-file app): a multi-file selection is
    uploaded one file at a time, and the gallery is extended only when every
    file made it; a click on a thumbnail removes that one entry. */
module Gallery {
  import opened Text
  import opened Store
  import opened Upload

  /** `gallery.filter((_, i) => i !== index)`, position by position. */
  function RemoveAt<T>(s: seq<T>, index: int): (r: seq<T>)
    ensures |r| <= |s|
    decreases |s|
  {
    if |s| == 0 then []
    else (if index == 0 then [] else [s[0]]) + RemoveAt(s[1..], index - 1)
  }

  /** Removing position `index` drops exactly that element and keeps the
      others in order; an index outside the gallery changes nothing. */
  lemma {:induction false} RemoveAtIsSplice<T>(s: seq<T>, index: int)
    ensures 0 <= index < |s| ==> RemoveAt(s, index) == s[..index] + s[index + 1..]
    ensures !(0 <= index < |s|) ==> RemoveAt(s, index) == s
    decreases |s|
  {
    if |s| > 0 {
      RemoveAtIsSplice(s[1..], index - 1);
      if index == 0 {
        assert s[1..] == s[..0] + s[1..];
      } else if 0 < index < |s| {
        assert s[..index] == [s[0]] + s[1..][..index - 1];
        assert s[index + 1..] == s[1..][index..];
      } else {
        assert s == [s[0]] + s[1..];
      }
    }
  }

  /** The folder the current editors upload into: `${name}/gallery`. */
  function GalleryFolder(name: string): string {
    name + "/gallery"
  }

  /** The position of the first file whose upload throws, or the number of
      files when none does. */
  function FirstFailure(replies: seq<FileReplies>): (k: nat)
    ensures k <= |replies|
    ensures forall j :: 0 <= j < k ==> Succeeds(replies[j])
    ensures k < |replies| ==> !Succeeds(replies[k])
  {
    if |replies| == 0 || !Succeeds(replies[0]) then 0
    else 1 + FirstFailure(replies[1..])
  }

  /** How many files reached the bucket: those before the failure, plus the
      failing file itself when only its URL lookup threw. */
  function StoredCount(replies: seq<FileReplies>): (n: nat)
    ensures n <= |replies|
  {
    var k := FirstFailure(replies);
    if k < |replies| && replies[k].put.Pass? then k + 1 else k
  }

  /** The object paths of the first `n` files. */
  function PathsOf(folder: string, files: seq<File>, times: seq<nat>, n: nat): set<Path>
    requires n <= |files| == |times|
  {
    set j | 0 <= j < n :: UploadPath(folder, times[j], files[j])
  }

  /** Each of the first `n` files is stored at its own upload path. */
  predicate StoresFiles(b: Bucket, folder: string, files: seq<File>, times: seq<nat>, n: nat)
    requires n <= |files| == |times|
  {
    forall j :: 0 <= j < n ==> UploadPath(folder, times[j], files[j]) in b && b[UploadPath(folder, times[j], files[j])] == files[j]
  }

  /** Storing one more file keeps the earlier ones where they were: two
      files can share a path only when they are the same file. */
  lemma StoresFilesStep(b: Bucket, folder: string, files: seq<File>, times: seq<nat>, i: nat)
    requires i < |files| == |times|
    requires StoresFiles(b, folder, files, times, i)
    ensures StoresFiles(b[UploadPath(folder, times[i], files[i]) := files[i]], folder, files, times, i + 1)
  {
    var p := UploadPath(folder, times[i], files[i]);
    forall j | 0 <= j < i && UploadPath(folder, times[j], files[j]) == p
      ensures files[j] == files[i]
    {
      UploadPathInjective(folder, times[j], files[j], times[i], files[i]);
    }
  }

  /** The download URLs of all files, in selection order. */
  function UrlsOf(folder: string, files: seq<File>, times: seq<nat>, urlOf: Path -> Url): (r: seq<Url>)
    requires |files| == |times|
    ensures |r| == |files|
  {
    seq(|files|, j requires 0 <= j < |files| => urlOf(UploadPath(folder, times[j], files[j])))
  }

  /** One more file contributes its own URL at the end. */
  lemma UrlsOfStep(folder: string, files: seq<File>, times: seq<nat>, urlOf: Path -> Url, i: nat)
    requires i < |files| == |times|
    ensures UrlsOf(folder, files[..i + 1], times[..i + 1], urlOf)
      == UrlsOf(folder, files[..i], times[..i], urlOf) + [urlOf(UploadPath(folder, times[i], files[i]))]
  {
  }

  /** One more file contributes its own path. */
  lemma PathsOfStep(folder: string, files: seq<File>, times: seq<nat>, i: nat)
    requires i < |files| == |times|
    ensures PathsOf(folder, files, times, i + 1) == PathsOf(folder, files, times, i) + {UploadPath(folder, times[i], files[i])}
  {
  }

  /** The first file whose calls do not both succeed is the failure; it
      reached the bucket exactly when its upload call succeeded. */
  lemma FailsAt(replies: seq<FileReplies>, i: nat)
    requires i <= FirstFailure(replies) && i < |replies| && !Succeeds(replies[i])
    ensures i == FirstFailure(replies)
    ensures StoredCount(replies) == if replies[i].put.Pass? then i + 1 else i
  {
  }

  /** A file whose calls both succeed is not the failure. */
  lemma SucceedsPastFailure(replies: seq<FileReplies>, i: nat)
    requires i <= FirstFailure(replies) && i < |replies| && Succeeds(replies[i])
    ensures i < FirstFailure(replies)
  {
  }

  /** The `for` loop of `handleFiles`: each file is uploaded and its URL
      fetched in turn, and the first throw ends the loop with its message.
      Returns the URLs collected, the failure if any, and the bucket. */
  method UploadEach(b: Bucket, folder: string, files: seq<File>, times: seq<nat>, replies: seq<FileReplies>, urlOf: Path -> Url)
    returns (uploaded: seq<Url>, failure: Option<string>, b': Bucket)
    requires |times| == |files| == |replies|
    ensures failure.None? <==> FirstFailure(replies) == |files|
    ensures failure.None? ==> uploaded == UrlsOf(folder, files, times, urlOf)
    ensures failure.Some? ==> failure.value == FailureMessage(replies[FirstFailure(replies)])
    ensures b'.Keys == b.Keys + PathsOf(folder, files, times, StoredCount(replies))
    ensures forall q :: q in b && q !in PathsOf(folder, files, times, StoredCount(replies)) ==> b'[q] == b[q]
    ensures StoresFiles(b', folder, files, times, StoredCount(replies))
  {
    uploaded := [];
    failure := None;
    b' := b;
    var i := 0;
    while i < |files|
      invariant 0 <= i <= FirstFailure(replies)
      invariant uploaded == UrlsOf(folder, files[..i], times[..i], urlOf)
      invariant b'.Keys == b.Keys + PathsOf(folder, files, times, i)
      invariant forall q :: q in b && q !in PathsOf(folder, files, times, i) ==> b'[q] == b[q]
      invariant StoresFiles(b', folder, files, times, i)
    {
      var path := UploadPath(folder, times[i], files[i]);
      if replies[i].put.Fail? {
        FailsAt(replies, i);
        failure := Some(replies[i].put.message);
        return;
      }
      StoresFilesStep(b', folder, files, times, i);
      b' := b'[path := files[i]];
      PathsOfStep(folder, files, times, i);
      if replies[i].locate.Fail? {
        FailsAt(replies, i);
        failure := Some(replies[i].locate.message);
        return;
      }
      UrlsOfStep(folder, files, times, urlOf, i);
      SucceedsPastFailure(replies, i);
      uploaded := uploaded + [urlOf(path)];
      i := i + 1;
    }
    assert files[..i] == files && times[..i] == times;
  }

  /** `handleFiles`: `times[j]` is `Date.now()` when file `j` is reached,
      `replies[j]` the outcome of its two calls, `urlOf` the download URL
      the bucket hands out for a path. Returns the parent's gallery, the
      uploader's state and the bucket afterwards. */
  method HandleFiles(
    gallery: seq<Url>, u: Uploader, b: Bucket, folder: string,
    files: seq<File>, times: seq<nat>, replies: seq<FileReplies>, urlOf: Path -> Url)
    returns (gallery': seq<Url>, u': Uploader, b': Bucket)
    requires |times| == |files| == |replies|
    // An empty selection returns before touching any state.
    ensures |files| == 0 ==> gallery' == gallery && u' == u && b' == b
    // Otherwise the busy flag is cleared whatever happened.
    ensures |files| > 0 ==> !u'.uploading
    // Every file uploaded: the URLs are appended in selection order and the
    // error line is cleared.
    ensures |files| > 0 && FirstFailure(replies) == |files| ==>
      gallery' == gallery + UrlsOf(folder, files, times, urlOf) && u'.error == ""
    // Some file threw: nothing is attached and the error is that call's.
    ensures FirstFailure(replies) < |files| ==>
      gallery' == gallery && u'.error == FailureMessage(replies[FirstFailure(replies)])
    // Objects stored before a failure stay in the bucket; nothing else is added.
    ensures b'.Keys == b.Keys + PathsOf(folder, files, times, StoredCount(replies))
    ensures forall q :: q in b && q !in PathsOf(folder, files, times, StoredCount(replies)) ==> b'[q] == b[q]
    // Each stored file sits at its own path.
    ensures StoresFiles(b', folder, files, times, StoredCount(replies))
  {
    if |files| == 0 {
      return gallery, u, b;
    }
    var uploaded, failure;
    uploaded, failure, b' := UploadEach(b, folder, files, times, replies, urlOf);
    if failure.None? {
      gallery' := gallery + uploaded;
      u' := Uploader("", false);
    } else {
      gallery' := gallery;
      u' := Uploader(failure.value, false);
    }
  }
}
