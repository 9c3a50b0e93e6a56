/** The draft-record editors of the events, blogs and about-us tabs. The
    three pages repeat one shape and differ in a few places, which `Kind`
    captures: the folder featured images go to, whether the record carries
    a gallery, whether saving asks for confirmation first, the direction of
    the refresh after a create, and whether the page can delete or apply an
    entry. */
module Editor {
  import opened Text
  import opened Store
  import opened Listing
  import Gallery
  import Upload

  datatype Kind = Events | Blogs | About

  /** Where featured images are uploaded. */
  function FeaturedFolder(k: Kind): string {
    match k
    case Events => "events/featured"
    case Blogs => "blogs/featured"
    case About => "aboutus"
  }

  /** The `name` the page passes to its `GalleryUploader`. */
  function GalleryName(k: Kind): string
    requires k != About
  {
    if k == Events then "events" else "blogs"
  }

  /** The about-us page asks "Add this blog?" before saving. */
  predicate ConfirmsSubmit(k: Kind) {
    k == About
  }

  /** Event and blog records carry the draft's gallery; about-us records do not. */
  predicate HasGallery(k: Kind) {
    k != About
  }

  /** The direction of the refresh that follows a create. The about-us page
      re-queries in ascending order here, although its first load and its
      post-delete refresh are descending. */
  function CreateRefreshOrder(k: Kind): Direction {
    if k == About then Asc else Desc
  }

  /** The events and about-us pages delete entries; the blogs page does not. */
  predicate CanDelete(k: Kind) {
    k != Blogs
  }

  function DeleteAlertPrefix(k: Kind): string {
    if k == Events then "Failed to delete event: " else "Failed to delete data: "
  }

  function Entries(db: Db, k: Kind): map<Id, Entry> {
    match k
    case Events => db.events
    case Blogs => db.blogs
    case About => db.aboutus
  }

  function WithEntries(db: Db, k: Kind, m: map<Id, Entry>): (r: Db)
    ensures Entries(r, k) == m
    ensures forall k' :: k' != k ==> Entries(r, k') == Entries(db, k')
    ensures r.images == db.images && r.inUses == db.inUses
  {
    match k
    case Events => db.(events := m)
    case Blogs => db.(blogs := m)
    case About => db.(aboutus := m)
  }

  /** The store's order for these collections is on `datetime`. */
  function Rank(env: Env): Entry -> int {
    (e: Entry) => env.timeRank(e.datetime)
  }

  /** The form being edited. `datetime` is the raw `datetime-local` text. */
  datatype Draft = Draft(featuredImage: Url, title: string, content: string, datetime: string, gallery: seq<Url>)

  const BlankDraft: Draft := Draft("", "", "", "", [])

  /** The page's state. `selected` is the about-us page's applied entry;
      `uploader` is the state of the page's gallery control. */
  datatype Page = Page(
    form: Draft,
    uploadingFeat: bool,
    error: string,
    list: seq<Listed<Entry>>,
    loading: bool,
    selected: Option<Id>,
    uploader: Upload.Uploader)

  const TitleRequired: string := "Title is required"

  /** The first fetch: the collection by `datetime`, descending. */
  function Load(k: Kind, p: Page, db: Db, env: Env, reply: Outcome): (r: Page)
    ensures r == p.(list := r.list, error := r.error, loading := false)
    ensures reply.Pass? ==> Enumerates(r.list, Entries(db, k)) && Sorted(r.list, Rank(env), Desc) && r.error == p.error
    ensures reply.Fail? ==> r.list == p.list && r.error == reply.message
  {
    if reply.Pass? then p.(list := Query(Entries(db, k), Rank(env), Desc), loading := false)
    else p.(error := reply.message, loading := false)
  }

  /** `handleFeaturedImageUpload`: `file` is the first picked file, if any;
      `now` is `Date.now()`. Returns the page and the bucket. */
  function UploadFeatured(k: Kind, p: Page, b: Bucket, env: Env, file: Option<File>, now: nat, replies: Upload.FileReplies): (r: (Page, Bucket))
    // No file: nothing happens.
    ensures file.None? ==> r == (p, b)
    // Only the featured image of the draft can change, and only when both calls succeed.
    ensures r.0.form == p.form || (file.Some? && Upload.Succeeds(replies)
      && r.0.form == p.form.(featuredImage := env.urlOf(UploadPath(FeaturedFolder(k), now, file.value))))
    ensures file.Some? && Upload.Succeeds(replies) ==> r.0.form.featuredImage == env.urlOf(UploadPath(FeaturedFolder(k), now, file.value))
    ensures file.Some? ==> r.0 == p.(form := r.0.form, uploadingFeat := false, error := Upload.FailureMessage(replies))
    // The object lands at `${folder}/${now}-${name}` once the upload call succeeds.
    ensures file.Some? && replies.put.Pass? ==> r.1 == b[UploadPath(FeaturedFolder(k), now, file.value) := file.value]
    ensures replies.put.Fail? ==> r.1 == b
  {
    match file
    case None => (p, b)
    case Some(f) =>
      var path := UploadPath(FeaturedFolder(k), now, f);
      var b' := Put(b, path, f, replies.put);
      var done := p.(uploadingFeat := false);
      if replies.put.Fail? then (done.(error := replies.put.message), b')
      else if replies.locate.Fail? then (done.(error := replies.locate.message), b')
      else (done.(error := "", form := p.form.(featuredImage := env.urlOf(path))), b')
  }

  /** When download URLs resolve, a featured image that finished uploading
      names the object it stored: the reference the delete handler builds
      from the draft's URL is that object, and it is not the root. */
  lemma UploadedFeaturedIsDeletable(k: Kind, p: Page, b: Bucket, env: Env, f: File, now: nat)
    requires UrlsResolve(env)
    ensures var r := UploadFeatured(k, p, b, env, Some(f), now, Upload.FileReplies(Pass, Pass));
      && r.0.form.featuredImage != ""
      && RefPath(env, r.0.form.featuredImage) == UploadPath(FeaturedFolder(k), now, f)
      && Deletable(r.1, RefPath(env, r.0.form.featuredImage))
      && r.1[RefPath(env, r.0.form.featuredImage)] == f
  {
    RefPathOfDownloadUrl(env, UploadPath(FeaturedFolder(k), now, f));
  }

  /** The gallery control of an event or blog form: the batch upload of
      `Gallery.HandleFiles` writing back into the draft's `gallery`. */
  method UploadGallery(k: Kind, p: Page, b: Bucket, files: seq<File>, times: seq<nat>, replies: seq<Upload.FileReplies>, urlOf: Path -> Url)
    returns (p': Page, b': Bucket)
    requires k != About
    requires |times| == |files| == |replies|
    ensures p'.form == p.form.(gallery := p'.form.gallery)
    ensures p' == p.(form := p'.form, uploader := p'.uploader)
    ensures |files| == 0 ==> p' == p
    // After a non-empty selection the control is not busy; its error line is
    // cleared on success and carries the first throw's message otherwise.
    ensures |files| > 0 ==> !p'.uploader.uploading
    ensures |files| > 0 && Gallery.FirstFailure(replies) == |files| ==> p'.uploader.error == ""
    ensures Gallery.FirstFailure(replies) < |files| ==>
      p'.uploader.error == Upload.FailureMessage(replies[Gallery.FirstFailure(replies)])
    ensures Gallery.FirstFailure(replies) == |files| ==>
      p'.form.gallery == p.form.gallery + Gallery.UrlsOf(Gallery.GalleryFolder(GalleryName(k)), files, times, urlOf)
    ensures Gallery.FirstFailure(replies) < |files| ==> p'.form.gallery == p.form.gallery
    ensures b.Keys <= b'.Keys
  {
    var gallery, u;
    gallery, u, b' := Gallery.HandleFiles(p.form.gallery, p.uploader, b, Gallery.GalleryFolder(GalleryName(k)), files, times, replies, urlOf);
    p' := p.(form := p.form.(gallery := gallery), uploader := u);
  }

  /** The blog page's `removeGalleryImage`. */
  function RemoveGalleryImage(p: Page, index: int): (r: Page)
    ensures r == p.(form := r.form) && r.form == p.form.(gallery := r.form.gallery)
    ensures 0 <= index < |p.form.gallery| ==> r.form.gallery == p.form.gallery[..index] + p.form.gallery[index + 1..]
    ensures !(0 <= index < |p.form.gallery|) ==> r == p
  {
    Gallery.RemoveAtIsSplice(p.form.gallery, index);
    p.(form := p.form.(gallery := Gallery.RemoveAt(p.form.gallery, index)))
  }

  /** What `datetime` is stored as: `null` for an empty field, otherwise the
      conversion of the text, which may throw. */
  datatype Stamp = Stamp(value: Option<Instant>) | BadDate(message: string)

  function DatetimeField(env: Env, text: string): (r: Stamp)
    ensures r == Stamp(None) <==> text == ""
    ensures text != "" ==> (r.Stamp? <==> env.toInstant(text).Parsed?)
    ensures r.Stamp? && text != "" ==> r.value == Some(env.toInstant(text).instant)
    ensures r.BadDate? ==> r.message == env.toInstant(text).message
  {
    if text == "" then Stamp(None)
    else match env.toInstant(text)
      case Parsed(t) => Stamp(Some(t))
      case Invalid(m) => BadDate(m)
  }

  /** The document written for a draft; `now` is the server timestamp. */
  function RecordOf(k: Kind, d: Draft, datetime: Option<Instant>, now: Instant): (e: Entry)
    // The draft's text fields, the converted date and the server time.
    ensures e.featuredImage == d.featuredImage && e.title == d.title && e.content == d.content
    ensures e.datetime == datetime && e.createdAt == now
    // Only event and blog records carry the draft's gallery.
    ensures e.gallery.Some? <==> HasGallery(k)
    ensures e.gallery.Some? ==> e.gallery.value == d.gallery
  {
    Entry(d.featuredImage, d.title, d.content, datetime, if HasGallery(k) then Some(d.gallery) else None, now)
  }

  /** The draft passes the checks `handleSubmit` makes before writing:
      the prompt (about-us only), a title that is not all whitespace, and a
      `datetime` that converts. */
  predicate Accepted(k: Kind, p: Page, env: Env, confirmed: bool) {
    (!ConfirmsSubmit(k) || confirmed) && !IsBlank(p.form.title) && DatetimeField(env, p.form.datetime).Stamp?
  }

  /** The collection after the create: the record under `tid`. */
  function Created(k: Kind, p: Page, db: Db, env: Env, tid: Id, now: Instant): Db
    requires DatetimeField(env, p.form.datetime).Stamp?
  {
    WithEntries(db, k, Entries(db, k)[tid := RecordOf(k, p.form, DatetimeField(env, p.form.datetime).value, now)])
  }

  /** The write and the refresh, once the draft has been accepted. */
  function Commit(k: Kind, p: Page, db: Db, env: Env, tid: Id, now: Instant, write: Outcome, query: Outcome): (r: (Page, Db))
    requires DatetimeField(env, p.form.datetime).Stamp?
    ensures write.Fail? ==> r == (p.(error := write.message), db)
    ensures write.Pass? ==> r.1 == Created(k, p, db, env, tid, now) && r.0.form == BlankDraft
    ensures write.Pass? && query.Pass? ==> r.0.list == Query(Entries(r.1, k), Rank(env), CreateRefreshOrder(k)) && r.0.error == p.error
    ensures write.Pass? && query.Fail? ==> r.0.list == p.list && r.0.error == query.message
    ensures r.0 == p.(form := r.0.form, list := r.0.list, error := r.0.error)
  {
    if write.Fail? then (p.(error := write.message), db)
    else
      var db' := Created(k, p, db, env, tid, now);
      var p' := p.(form := BlankDraft);
      if query.Fail? then (p'.(error := query.message), db')
      else (p'.(list := Query(Entries(db', k), Rank(env), CreateRefreshOrder(k))), db')
  }

  /** `handleSubmit`. `confirmed` answers the about-us page's prompt; `tid`
      is the fresh `uuid()`; `now` the server timestamp; `write` and `query`
      are the replies of `setDoc` and of the refresh. */
  function Submit(k: Kind, p: Page, db: Db, env: Env, confirmed: bool, tid: Id, now: Instant, write: Outcome, query: Outcome): (r: (Page, Db))
    // The prompt comes first: declining leaves even the error line alone.
    ensures ConfirmsSubmit(k) && !confirmed ==> r == (p, db)
    // A blank title is reported and nothing is written.
    ensures (!ConfirmsSubmit(k) || confirmed) && IsBlank(p.form.title) ==> r == (p.(error := TitleRequired), db)
    // Nothing is written, and the draft is kept, unless the draft is accepted and `setDoc` succeeds.
    ensures !(Accepted(k, p, env, confirmed) && write.Pass?) ==> r.1 == db && r.0.form == p.form
    // A failed write keeps the draft, uploaded URLs included, and reports the error.
    ensures Accepted(k, p, env, confirmed) && write.Fail? ==> r == (p.(error := write.message), db)
    // A successful write adds exactly the new document and only then clears the draft.
    ensures Accepted(k, p, env, confirmed) && write.Pass? ==> r.1 == Created(k, p, db, env, tid, now) && r.0.form == BlankDraft
    // After a write, a successful refresh replaces the list wholesale.
    ensures Accepted(k, p, env, confirmed) && write.Pass? && query.Pass? ==>
      r.0.list == Query(Entries(r.1, k), Rank(env), CreateRefreshOrder(k)) && r.0.error == ""
    ensures Accepted(k, p, env, confirmed) && write.Pass? && query.Fail? ==> r.0.list == p.list && r.0.error == query.message
    // A date that does not convert is reported with the thrown message and nothing is written.
    ensures (!ConfirmsSubmit(k) || confirmed) && !IsBlank(p.form.title) && DatetimeField(env, p.form.datetime).BadDate? ==>
      r == (p.(error := DatetimeField(env, p.form.datetime).message), db)
    ensures r.0 == p.(form := r.0.form, list := r.0.list, error := r.0.error)
  {
    TrimEmptyIffBlank(p.form.title);
    if ConfirmsSubmit(k) && !confirmed then (p, db)
    else
      var p1 := p.(error := "");
      if Trim(p.form.title) == "" then (p1.(error := TitleRequired), db)
      else match DatetimeField(env, p.form.datetime)
        case BadDate(m) => (p1.(error := m), db)
        case Stamp(_) => Commit(k, p1, db, env, tid, now, write, query)
  }

  /** `handleRemoveEvent` / `handleRemoveblog`: confirmation, then the
      featured object, then the document, then a descending refresh. Any
      throw ends the handler with an alert. */
  function Delete(k: Kind, p: Page, b: Backend, env: Env, confirmed: bool, row: Listed<Entry>, delObject: Outcome, delDoc: Outcome, query: Outcome): (r: (Page, Backend, Option<string>))
    requires CanDelete(k)
    // Declining the prompt has no effect at all.
    ensures !confirmed ==> r == (p, b, None)
    // The document goes only after its featured object went.
    ensures Entries(r.1.db, k) != Entries(b.db, k) ==>
      Deletable(b.bucket, RefPath(env, row.doc.featuredImage)) && delObject.Pass? && delDoc.Pass?
      && Entries(r.1.db, k) == Entries(b.db, k) - {row.id}
    // If the object delete throws, database, bucket and list are as they were.
    ensures confirmed && (!Deletable(b.bucket, RefPath(env, row.doc.featuredImage)) || delObject.Fail?) ==>
      r.0 == p && r.1 == b && r.2.Some?
    // If the document delete throws, the featured object is already gone but
    // the document and the list stay.
    ensures confirmed && Deletable(b.bucket, RefPath(env, row.doc.featuredImage)) && delObject.Pass? && delDoc.Fail? ==>
      && r.0 == p && r.1.db == b.db
      && r.1.bucket == b.bucket - {RefPath(env, row.doc.featuredImage)}
      && r.2 == Some(DeleteAlertPrefix(k) + delDoc.message)
    // Once both deletes succeed, the document is gone whatever the refresh does.
    ensures confirmed && Deletable(b.bucket, RefPath(env, row.doc.featuredImage)) && delObject.Pass? && delDoc.Pass? ==>
      Entries(r.1.db, k) == Entries(b.db, k) - {row.id}
    // Only the featured object can leave the bucket: gallery objects stay.
    ensures forall q :: q in b.bucket && q != RefPath(env, row.doc.featuredImage) ==> q in r.1.bucket && r.1.bucket[q] == b.bucket[q]
    // Other collections and the `InUses` pointers are never touched.
    ensures r.1.db == WithEntries(b.db, k, Entries(r.1.db, k))
    // A fully successful delete refreshes the list in descending order.
    ensures r.2.None? && confirmed ==> r.0.list == Query(Entries(r.1.db, k), Rank(env), Desc)
    ensures r.0 == p.(list := r.0.list)
  {
    if !confirmed then (p, b, None)
    else
      var path := RefPath(env, row.doc.featuredImage);
      var (bucket', o) := DeleteObject(b.bucket, path, delObject);
      if o.Fail? then (p, b, Some(DeleteAlertPrefix(k) + o.message))
      else if delDoc.Fail? then (p, Backend(b.db, bucket'), Some(DeleteAlertPrefix(k) + delDoc.message))
      else
        var m := Entries(b.db, k) - {row.id};
        var db' := WithEntries(b.db, k, m);
        if query.Fail? then (p, Backend(db', bucket'), Some(DeleteAlertPrefix(k) + query.message))
        else (p.(list := Query(m, Rank(env), Desc)), Backend(db', bucket'), None)
  }

  /** The about-us page shows a delete control only on entries other than
      the applied one. */
  predicate DeleteShown(p: Page, row: Listed<Entry>): (shown: bool)
    // With nothing applied, every entry can be deleted.
    ensures p.selected.None? ==> shown
    // The applied entry cannot.
    ensures p.selected == Some(row.id) ==> !shown
  {
    p.selected != Some(row.id)
  }

  /** `handleApplyabout`: after the prompt, the whole row is copied over
      `InUses/aboutus`; the highlight moves only once that write succeeded
      (a failed write rejects unhandled and changes nothing). */
  function Apply(p: Page, db: Db, confirmed: bool, row: Listed<Entry>, write: Outcome): (r: (Page, Db))
    ensures !confirmed || write.Fail? ==> r == (p, db)
    ensures confirmed && write.Pass? ==>
      && r.1 == db.(inUses := db.inUses[AboutUs := EntrySnap(row.id, row.doc)])
      && r.0 == p.(selected := Some(row.id))
  {
    if !confirmed || write.Fail? then (p, db)
    else (p.(selected := Some(row.id)), db.(inUses := db.inUses[AboutUs := EntrySnap(row.id, row.doc)]))
  }

  /** The `id` field of a pointer document, when it has one. */
  function PointerId(d: PointerDoc): Option<Id> {
    match d
    case ImageSnap(id, _) => Some(id)
    case EntrySnap(id, _) => Some(id)
    case ColorDoc(_, _) => None
  }

  /** `fetchSelectedBlog`: the highlight is the `id` stored in
      `InUses/aboutus`. A failed read or a missing document throws outside
      any handler, so the page keeps its state. */
  function LoadSelected(p: Page, db: Db, read: Outcome): (r: Page)
    ensures r == p.(selected := r.selected)
    ensures read.Pass? && AboutUs in db.inUses && db.inUses[AboutUs].EntrySnap? ==> r.selected == Some(db.inUses[AboutUs].id)
    ensures read.Fail? || AboutUs !in db.inUses ==> r == p
  {
    if read.Fail? || AboutUs !in db.inUses then p
    else p.(selected := PointerId(db.inUses[AboutUs]))
  }

  /** After a create whose write and refresh succeed, the new record is in
      the list exactly once, as written, and the list is in the refresh's
      order. */
  lemma CreatedRecordListedOnce(k: Kind, p: Page, db: Db, env: Env, confirmed: bool, tid: Id, now: Instant, query: Outcome)
    requires Accepted(k, p, env, confirmed) && query.Pass?
    ensures var r := Submit(k, p, db, env, confirmed, tid, now, Pass, query);
      && (exists i :: 0 <= i < |r.0.list| && r.0.list[i] == Listed(tid, RecordOf(k, p.form, DatetimeField(env, p.form.datetime).value, now)))
      && (forall i, j :: 0 <= i < |r.0.list| && 0 <= j < |r.0.list| && r.0.list[i].id == tid && r.0.list[j].id == tid ==> i == j)
      && Sorted(r.0.list, Rank(env), CreateRefreshOrder(k))
  {
    var r := Submit(k, p, db, env, confirmed, tid, now, Pass, query);
    var m := Entries(r.1, k);
    assert tid in m;
    assert tid in Ids(r.0.list);
    var i :| 0 <= i < |r.0.list| && r.0.list[i].id == tid;
    assert r.0.list[i].doc == m[tid];
  }

  lemma AddedKeyCount(m: map<Id, Entry>, id: Id, e: Entry)
    requires id !in m
    ensures |m[id := e]| == |m| + 1 && m[id := e].Keys == m.Keys + {id}
  {
    assert m[id := e].Keys == m.Keys + {id};
  }

  /** Under a fresh id the create adds one record and leaves every other
      record of the collection as it was. */
  lemma FreshIdAddsOneRecord(k: Kind, p: Page, db: Db, env: Env, confirmed: bool, tid: Id, now: Instant, query: Outcome)
    requires Accepted(k, p, env, confirmed) && tid !in Entries(db, k)
    ensures var m := Entries(Submit(k, p, db, env, confirmed, tid, now, Pass, query).1, k);
      && |m| == |Entries(db, k)| + 1
      && m.Keys == Entries(db, k).Keys + {tid}
      && forall id :: id in Entries(db, k) ==> m[id] == Entries(db, k)[id]
  {
    var r := Submit(k, p, db, env, confirmed, tid, now, Pass, query);
    assert r.1 == Created(k, p, db, env, tid, now);
    AddedKeyCount(Entries(db, k), tid, RecordOf(k, p.form, DatetimeField(env, p.form.datetime).value, now));
  }

  /** After a delete that completes, the entry is gone from the collection
      and from the refreshed list, the featured object is gone, and every
      other object, gallery images included, is still stored. */
  lemma DeleteRemovesEntry(k: Kind, p: Page, b: Backend, env: Env, row: Listed<Entry>, query: Outcome)
    requires CanDelete(k) && Deletable(b.bucket, RefPath(env, row.doc.featuredImage))
    ensures var r := Delete(k, p, b, env, true, row, Pass, Pass, query);
      && row.id !in Entries(r.1.db, k)
      && r.1.bucket.Keys == b.bucket.Keys - {RefPath(env, row.doc.featuredImage)}
      && (query.Pass? ==> row.id !in Ids(r.0.list) && r.2.None?)
      && (query.Fail? ==> r.0 == p && r.2.Some?)
  {
    var r := Delete(k, p, b, env, true, row, Pass, Pass, query);
    if query.Pass? {
      assert Ids(r.0.list) == Entries(r.1.db, k).Keys;
    }
  }

  /** An entry saved without a featured image can never be deleted: its
      empty URL names the bucket's root, which `deleteObject` refuses, so
      the handler alerts before it reaches the document. */
  lemma EmptyFeaturedNeverDeleted(k: Kind, p: Page, b: Backend, env: Env, confirmed: bool, row: Listed<Entry>,
                                  delObject: Outcome, delDoc: Outcome, query: Outcome)
    requires CanDelete(k) && row.doc.featuredImage == ""
    ensures var r := Delete(k, p, b, env, confirmed, row, delObject, delDoc, query);
      && r.0 == p && r.1 == b
      && (confirmed ==> r.2 == Some(DeleteAlertPrefix(k) + RootDeleteRefused))
  {
  }

  /** Deleting the same entry twice: the second attempt finds no object,
      alerts, and changes neither store nor page. */
  lemma SecondDeleteChangesNothing(k: Kind, p: Page, b: Backend, env: Env, row: Listed<Entry>, query: Outcome,
                                   delObject: Outcome, delDoc: Outcome, query': Outcome)
    requires CanDelete(k) && Deletable(b.bucket, RefPath(env, row.doc.featuredImage))
    ensures var r := Delete(k, p, b, env, true, row, Pass, Pass, query);
      var r' := Delete(k, r.0, r.1, env, true, row, delObject, delDoc, query');
      r'.0 == r.0 && r'.1 == r.1 && r'.2 == Some(DeleteAlertPrefix(k) + ObjectNotFound(RefPath(env, row.doc.featuredImage)))
  {
  }

  /** Applying an entry highlights it and hides its delete control; the
      pointer holds the entry's copy, which no later delete touches. */
  lemma ApplyHidesDelete(p: Page, db: Db, row: Listed<Entry>)
    ensures var r := Apply(p, db, true, row, Pass);
      && !DeleteShown(r.0, row)
      && (forall other: Listed<Entry> :: other.id != row.id ==> DeleteShown(r.0, other))
      && r.1.inUses[AboutUs] == EntrySnap(row.id, row.doc)
  {
  }

  /** Once `InUses/aboutus` holds an entry's copy, loading the page
      highlights that entry, so the entry shows no delete control. */
  lemma LoadedPointerHidesDelete(p: Page, db: Db, row: Listed<Entry>)
    requires AboutUs in db.inUses && db.inUses[AboutUs] == EntrySnap(row.id, row.doc)
    ensures !DeleteShown(LoadSelected(p, db, Pass), row)
  {
  }

  /** The delete handlers never write `InUses`: a copy applied earlier
      survives the deletion of its source entry. */
  lemma DeleteKeepsPointer(k: Kind, p: Page, b: Backend, env: Env, confirmed: bool, row: Listed<Entry>,
                           delObject: Outcome, delDoc: Outcome, query: Outcome)
    requires CanDelete(k)
    ensures Delete(k, p, b, env, confirmed, row, delObject, delDoc, query).1.db.inUses == b.db.inUses
  {
  }
}
