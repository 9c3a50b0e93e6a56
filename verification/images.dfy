/** The website-images tab: a single-file uploader whose URL is recorded in
    the `images` collection, a grid of the stored images with delete and
    select, and the "currently using" panel fed by `InUses/herosection`.
    Selecting an image writes the pointer at once; the later submit only
    changes what the panel shows. */
module Images {
  import opened Store
  import opened Listing
  import Upload

  /** The folder uploads go to. */
  const ImagesFolder: string := "images"

  /** The collection is ordered on `createdAt`. */
  const Rank: ImageDoc -> int := (d: ImageDoc) => d.createdAt

  const SaveAlertPrefix: string := "Failed to save image record: "
  const DeleteAlertPrefix: string := "Failed to delete image: "

  /** The state of the page and of its two child components: the listed
      images, the fetch flags, the "currently using" panel (`current`), the
      grid's highlighted id and the uploader's own state. */
  datatype Page = Page(
    images: seq<Listed<ImageDoc>>,
    loading: bool,
    fetchError: string,
    current: Option<PointerDoc>,
    selectedId: Option<Id>,
    upload: Upload.Uploader)

  /** `fetchImages`: the collection by `createdAt`, descending. */
  function Load(p: Page, db: Db, reply: Outcome): (r: Page)
    ensures r == p.(images := r.images, loading := false, fetchError := r.fetchError)
    ensures reply.Pass? ==> r.fetchError == "" && Enumerates(r.images, db.images) && Sorted(r.images, Rank, Desc)
    ensures reply.Fail? ==> r.images == p.images && r.fetchError == reply.message
  {
    var p1 := p.(fetchError := "");
    if reply.Pass? then p1.(images := Query(db.images, Rank, Desc), loading := false)
    else p1.(fetchError := reply.message, loading := false)
  }

  /** `handleUploaded`: `tid` is the fresh `uuid()`, `now` the server
      timestamp, `write` and `query` the replies of `setDoc` and of the
      refresh. A throw becomes the returned alert. */
  function HandleUploaded(p: Page, db: Db, url: Url, tid: Id, now: Instant, write: Outcome, query: Outcome): (r: (Page, Db, Option<string>))
    // Only the `images` collection can change, and only by the new record.
    ensures r.1 == db || (write.Pass? && r.1 == db.(images := db.images[tid := ImageDoc(url, now)]))
    ensures write.Pass? ==> r.1.images.Keys == db.images.Keys + {tid} && r.1.images[tid] == ImageDoc(url, now)
    ensures write.Fail? ==> r == (p, db, Some(SaveAlertPrefix + write.message))
    // A refresh that succeeds lists the whole collection by `createdAt`, descending.
    ensures write.Pass? && query.Pass? ==> r.2.None? && Enumerates(r.0.images, r.1.images) && Sorted(r.0.images, Rank, Desc)
    ensures write.Pass? && query.Fail? ==> r.0 == p && r.2 == Some(SaveAlertPrefix + query.message)
    ensures r.0 == p.(images := r.0.images)
  {
    if write.Fail? then (p, db, Some(SaveAlertPrefix + write.message))
    else
      var db' := db.(images := db.images[tid := ImageDoc(url, now)]);
      if query.Fail? then (p, db', Some(SaveAlertPrefix + query.message))
      else (p.(images := Query(db'.images, Rank, Desc)), db', None)
  }

  /** `handleFileChange`: `file` is the first picked file, if any; `now` is
      `Date.now()`; `replies` the outcomes of `uploadBytes` and
      `getDownloadURL`. Once both succeed the URL is handed to
      `HandleUploaded` with the remaining inputs. */
  function HandleFileChange(p: Page, b: Backend, env: Env, file: Option<File>, now: nat, replies: Upload.FileReplies,
                            tid: Id, stamp: Instant, write: Outcome, query: Outcome): (r: (Page, Backend, Option<string>))
    // No file: nothing happens.
    ensures file.None? ==> r == (p, b, None)
    // Only the uploader's state and the listed images can change on the page.
    ensures r.0 == p.(upload := r.0.upload, images := r.0.images)
    // The uploader's busy flag ends cleared; its error is the throw's, or empty.
    ensures file.Some? ==> r.0.upload == Upload.Uploader(Upload.FailureMessage(replies), false)
    // The object lands at `images/${now}-${name}` once the upload call succeeds.
    ensures file.Some? ==> r.1.bucket == Put(b.bucket, UploadPath(ImagesFolder, now, file.value), file.value, replies.put)
    // The record is written only after both storage calls succeeded.
    ensures !(file.Some? && Upload.Succeeds(replies)) ==> r.1.db == b.db && r.0.images == p.images && r.2.None?
    ensures file.Some? && Upload.Succeeds(replies) ==>
      var url := env.urlOf(UploadPath(ImagesFolder, now, file.value));
      var h := HandleUploaded(p, b.db, url, tid, stamp, write, query);
      r.0 == h.0.(upload := r.0.upload) && r.1.db == h.1 && r.2 == h.2
  {
    match file
    case None => (p, b, None)
    case Some(f) =>
      var path := UploadPath(ImagesFolder, now, f);
      var bucket' := Put(b.bucket, path, f, replies.put);
      var p1 := p.(upload := Upload.Uploader(Upload.FailureMessage(replies), false));
      if !Upload.Succeeds(replies) then (p1, Backend(b.db, bucket'), None)
      else
        var h := HandleUploaded(p1, b.db, env.urlOf(path), tid, stamp, write, query);
        (h.0, Backend(h.1, bucket'), h.2)
  }

  /** `handleImageDeleted`: the local list without the deleted row. */
  function HandleImageDeleted(p: Page, id: Id): (r: Page)
    ensures r == p.(images := r.images)
    ensures |r.images| <= |p.images|
    ensures id !in Ids(r.images)
    ensures forall x :: x in p.images && x.id != id ==> x in r.images
    ensures forall x :: x in r.images ==> x in p.images
  {
    var r := p.(images := WithoutId(p.images, id));
    forall x | x in p.images && x.id != id ensures x in r.images {
      WithoutIdMembers(p.images, id, x);
    }
    forall x | x in r.images ensures x in p.images {
      WithoutIdMembers(p.images, id, x);
    }
    r
  }

  /** `handleRemoveImage`: the prompt, then the object the URL resolves to,
      then the document, then the local removal. Any throw ends the handler
      with an alert and skips the local removal. */
  function HandleRemoveImage(p: Page, b: Backend, env: Env, confirmed: bool, row: Listed<ImageDoc>,
                             delObject: Outcome, delDoc: Outcome): (r: (Page, Backend, Option<string>))
    ensures !confirmed ==> r == (p, b, None)
    // The record goes only after its object went.
    ensures r.1.db != b.db ==>
      Deletable(b.bucket, RefPath(env, row.doc.url)) && delObject.Pass? && delDoc.Pass?
      && r.1.db == b.db.(images := b.db.images - {row.id})
    ensures confirmed && (!Deletable(b.bucket, RefPath(env, row.doc.url)) || delObject.Fail?) ==> r.0 == p && r.1 == b && r.2.Some?
    // If the record delete throws, the object is already gone, but the
    // record and the row stay and the alert carries the message.
    ensures confirmed && Deletable(b.bucket, RefPath(env, row.doc.url)) && delObject.Pass? && delDoc.Fail? ==>
      && r.0 == p && r.1.db == b.db
      && r.1.bucket == b.bucket - {RefPath(env, row.doc.url)}
      && r.2 == Some(DeleteAlertPrefix + delDoc.message)
    // Once both deletes succeed, the record is gone and no alert is shown.
    ensures confirmed && Deletable(b.bucket, RefPath(env, row.doc.url)) && delObject.Pass? && delDoc.Pass? ==>
      r.1.db.images == b.db.images - {row.id} && r.2.None?
    // The local list changes exactly when the handler completes.
    ensures r.2.None? && confirmed ==> r.0 == HandleImageDeleted(p, row.id)
    ensures r.2.Some? || !confirmed ==> r.0 == p
    ensures forall q :: q in r.1.bucket ==> q in b.bucket && r.1.bucket[q] == b.bucket[q]
    ensures r.1.db.inUses == b.db.inUses
  {
    if !confirmed then (p, b, None)
    else
      var (bucket', o) := DeleteObject(b.bucket, RefPath(env, row.doc.url), delObject);
      if o.Fail? then (p, b, Some(DeleteAlertPrefix + o.message))
      else if delDoc.Fail? then (p, Backend(b.db, bucket'), Some(DeleteAlertPrefix + delDoc.message))
      else (HandleImageDeleted(p, row.id), Backend(b.db.(images := b.db.images - {row.id}), bucket'), None)
  }

  /** `handleSelect`: no prompt; the whole row is written over
      `InUses/herosection` and the highlight moves once the write succeeded
      (a failed write rejects unhandled and changes nothing). */
  function HandleSelect(p: Page, db: Db, row: Listed<ImageDoc>, write: Outcome): (r: (Page, Db))
    ensures write.Fail? ==> r == (p, db)
    ensures write.Pass? ==>
      && r.1 == db.(inUses := db.inUses[HeroSection := ImageSnap(row.id, row.doc)])
      && r.0 == p.(selectedId := Some(row.id))
  {
    if write.Fail? then (p, db)
    else (p.(selectedId := Some(row.id)), db.(inUses := db.inUses[HeroSection := ImageSnap(row.id, row.doc)]))
  }

  /** `images.find(img => img.id === id)`: the first row with that id. */
  function FindById(s: seq<Listed<ImageDoc>>, id: Id): (r: Option<Listed<ImageDoc>>)
    ensures r.Some? ==> r.value in s && r.value.id == id
    // The first such row: no earlier row carries the id.
    ensures r.Some? ==> exists i :: 0 <= i < |s| && s[i] == r.value && forall j :: 0 <= j < i ==> s[j].id != id
    ensures r.None? <==> id !in Ids(s)
  {
    if |s| == 0 then None
    else if s[0].id == id then Some(s[0])
    else
      var t := FindById(s[1..], id);
      assert Ids(s) == {s[0].id} + Ids(s[1..]) by {
        forall j | j in Ids(s) ensures j in {s[0].id} + Ids(s[1..]) {
          var i :| 0 <= i < |s| && s[i].id == j;
          if i > 0 { assert s[1..][i - 1] == s[i]; }
        }
      }
      assert t.Some? ==> exists i :: 0 <= i < |s| && s[i] == t.value && forall j :: 0 <= j < i ==> s[j].id != id by {
        if t.Some? {
          var i :| 0 <= i < |s[1..]| && s[1..][i] == t.value && forall j :: 0 <= j < i ==> s[1..][j].id != id;
          forall j | 0 <= j < i + 1 ensures s[j].id != id {
            if j > 0 { assert s[j] == s[1..][j - 1]; }
          }
          assert s[i + 1] == t.value;
        }
      }
      t
  }

  /** The grid's submit: after the prompt, the panel shows the highlighted
      row, provided it is still listed. Nothing is written. */
  function HandleSubmit(p: Page, confirmed: bool): (r: Page)
    ensures r == p.(current := r.current)
    ensures r.current != p.current ==> confirmed && p.selectedId.Some? && p.selectedId.value in Ids(p.images)
    ensures confirmed && p.selectedId.Some? && p.selectedId.value in Ids(p.images) ==>
      exists x :: x in p.images && x.id == p.selectedId.value && r.current == Some(ImageSnap(x.id, x.doc))
  {
    if !confirmed || p.selectedId.None? then p
    else match FindById(p.images, p.selectedId.value)
      case None => p
      case Some(x) => p.(current := Some(ImageSnap(x.id, x.doc)))
  }

  /** `fetchSelectedImage`: the panel starts from `InUses/herosection` when
      that document exists; a failed read is only logged. */
  function LoadPointer(p: Page, db: Db, read: Outcome): (r: Page)
    ensures r == p.(current := r.current)
    ensures read.Pass? && HeroSection in db.inUses ==> r.current == Some(db.inUses[HeroSection])
    ensures read.Fail? || HeroSection !in db.inUses ==> r == p
  {
    if read.Fail? || HeroSection !in db.inUses then p
    else p.(current := Some(db.inUses[HeroSection]))
  }

  /** The removal keeps the surviving rows in their order: removing from a
      list split in two is removing from each part and joining the results.
      With the membership and length clauses of `HandleImageDeleted` this
      fixes the result row by row. */
  lemma HandleImageDeletedKeepsOrder(p: Page, id: Id, a: seq<Listed<ImageDoc>>, c: seq<Listed<ImageDoc>>)
    requires p.images == a + c
    ensures HandleImageDeleted(p, id).images
      == HandleImageDeleted(p.(images := a), id).images + HandleImageDeleted(p.(images := c), id).images
  {
    WithoutIdOfConcat(a, c, id);
  }

  /** A click on a card's delete button. The button sits inside the card,
      whose own click handler is `handleSelect`, and nothing stops the click
      from reaching the card: the delete handler runs, prompt included, and
      then the select handler runs for the same image whatever the answer.
      `write` is the reply of the select handler's `setDoc`. */
  function GridDeleteClick(p: Page, b: Backend, env: Env, confirmed: bool, row: Listed<ImageDoc>,
                           delObject: Outcome, delDoc: Outcome, write: Outcome): (r: (Page, Backend, Option<string>))
    // The object, the record, the list and the alert are the delete handler's.
    ensures var d := HandleRemoveImage(p, b, env, confirmed, row, delObject, delDoc);
      && r.1.bucket == d.1.bucket && r.1.db.images == d.1.db.images && r.2 == d.2 && r.0.images == d.0.images
    // The pointer and the highlight are the select handler's.
    ensures write.Pass? ==> r.1.db.inUses == b.db.inUses[HeroSection := ImageSnap(row.id, row.doc)] && r.0.selectedId == Some(row.id)
    ensures write.Fail? ==> r.1.db.inUses == b.db.inUses && r.0.selectedId == p.selectedId
    ensures r.0 == p.(images := r.0.images, selectedId := r.0.selectedId)
    ensures r.1.db == b.db.(images := r.1.db.images, inUses := r.1.db.inUses)
  {
    var d := HandleRemoveImage(p, b, env, confirmed, row, delObject, delDoc);
    var s := HandleSelect(d.0, d.1.db, row, write);
    (s.0, Backend(s.1, d.1.bucket), d.2)
  }

  /** Declining the delete prompt still selects the image: the hero pointer
      is overwritten with it and it is highlighted, while the bucket, the
      collection and the list stay as they were. */
  lemma DeclinedDeleteStillSelects(p: Page, b: Backend, env: Env, row: Listed<ImageDoc>, delObject: Outcome, delDoc: Outcome)
    ensures var r := GridDeleteClick(p, b, env, false, row, delObject, delDoc, Pass);
      && r.1.bucket == b.bucket && r.1.db.images == b.db.images && r.0.images == p.images && r.2.None?
      && r.1.db.inUses[HeroSection] == ImageSnap(row.id, row.doc)
      && r.0.selectedId == Some(row.id)
  {
  }

  /** A confirmed delete that completes always leaves the hero pointer
      holding the deleted image, whose record and object are gone; the
      highlight names a row no longer listed, so the grid's submit then
      changes nothing. */
  lemma ConfirmedDeleteDangles(p: Page, b: Backend, env: Env, row: Listed<ImageDoc>, confirmSubmit: bool)
    requires Deletable(b.bucket, RefPath(env, row.doc.url))
    ensures var r := GridDeleteClick(p, b, env, true, row, Pass, Pass, Pass);
      && r.2.None?
      && r.1.db.inUses[HeroSection] == ImageSnap(row.id, row.doc)
      && row.id !in r.1.db.images
      && RefPath(env, row.doc.url) !in r.1.bucket
      && row.id !in Ids(r.0.images)
      && r.0.selectedId == Some(row.id)
      && HandleSubmit(r.0, confirmSubmit) == r.0
  {
    RemoveCompletes(p, b, env, row);
  }

  /** Selecting an image and then deleting it leaves `InUses/herosection`
      holding a copy whose record is gone and whose object is gone: the
      pointer dangles. */
  lemma SelectThenDeleteDangles(p: Page, b: Backend, env: Env, row: Listed<ImageDoc>)
    requires Deletable(b.bucket, RefPath(env, row.doc.url))
    ensures var s := HandleSelect(p, b.db, row, Pass);
      var r := HandleRemoveImage(s.0, Backend(s.1, b.bucket), env, true, row, Pass, Pass);
      && r.1.db.inUses[HeroSection] == ImageSnap(row.id, row.doc)
      && row.id !in r.1.db.images
      && RefPath(env, r.1.db.inUses[HeroSection].image.url) !in r.1.bucket
      && row.id !in Ids(r.0.images)
  {
    var s := HandleSelect(p, b.db, row, Pass);
    var r := HandleRemoveImage(s.0, Backend(s.1, b.bucket), env, true, row, Pass, Pass);
    assert r.1.bucket.Keys == b.bucket.Keys - {RefPath(env, row.doc.url)};
  }

  /** When the list shows the collection as the query returns it, the local
      removal after a completed delete gives exactly what a fresh query of
      the remaining collection would. */
  lemma LocalRemovalMatchesRequery(p: Page, b: Backend, env: Env, row: Listed<ImageDoc>)
    requires p.images == Query(b.db.images, Rank, Desc)
    requires Deletable(b.bucket, RefPath(env, row.doc.url))
    ensures var r := HandleRemoveImage(p, b, env, true, row, Pass, Pass);
      r.0.images == Query(r.1.db.images, Rank, Desc)
  {
    WithoutIdOfQuery(b.db.images, Rank, Desc, row.id);
  }

  /** A completed upload stores the object, records its URL under the new
      id, and lists the whole collection. */
  lemma CompletedUpload(p: Page, b: Backend, env: Env, f: File, now: nat, tid: Id, stamp: Instant)
    ensures var r := HandleFileChange(p, b, env, Some(f), now, Upload.FileReplies(Pass, Pass), tid, stamp, Pass, Pass);
      var path := UploadPath(ImagesFolder, now, f);
      && r.2.None?
      && r.1.bucket == b.bucket[path := f]
      && r.1.db == b.db.(images := b.db.images[tid := ImageDoc(env.urlOf(path), stamp)])
      && Enumerates(r.0.images, r.1.db.images)
      && Sorted(r.0.images, Rank, Desc)
  {
  }

  /** A completed upload with a fresh id puts exactly one new row in the
      refreshed list, carrying the download URL of the stored object. */
  lemma UploadIsListedOnce(p: Page, b: Backend, env: Env, f: File, now: nat, tid: Id, stamp: Instant)
    requires tid !in b.db.images
    ensures var r := HandleFileChange(p, b, env, Some(f), now, Upload.FileReplies(Pass, Pass), tid, stamp, Pass, Pass);
      var path := UploadPath(ImagesFolder, now, f);
      && path in r.1.bucket
      && |r.0.images| == |b.db.images| + 1
      && (exists i :: 0 <= i < |r.0.images| && r.0.images[i] == Listed(tid, ImageDoc(env.urlOf(path), stamp)))
      && (forall i, j :: 0 <= i < |r.0.images| && 0 <= j < |r.0.images| && r.0.images[i].id == tid && r.0.images[j].id == tid ==> i == j)
  {
    CompletedUpload(p, b, env, f, now, tid, stamp);
    var r := HandleFileChange(p, b, env, Some(f), now, Upload.FileReplies(Pass, Pass), tid, stamp, Pass, Pass);
    var path := UploadPath(ImagesFolder, now, f);
    ListedOnce(r.0.images, b.db.images, Listed(tid, ImageDoc(env.urlOf(path), stamp)));
  }

  /** A listing of the records with one fresh record added has one more row,
      and the new record appears in exactly one of them. */
  lemma ListedOnce(s: seq<Listed<ImageDoc>>, m: map<Id, ImageDoc>, row: Listed<ImageDoc>)
    requires row.id !in m
    requires Enumerates(s, m[row.id := row.doc]) && Sorted(s, Rank, Desc)
    ensures |s| == |m| + 1
    ensures exists i :: 0 <= i < |s| && s[i] == row
    ensures forall i, j :: 0 <= i < |s| && 0 <= j < |s| && s[i].id == row.id && s[j].id == row.id ==> i == j
  {
    var m' := m[row.id := row.doc];
    SortedListingSize(m', Rank, Desc, s);
    assert m'.Keys == m.Keys + {row.id};
    assert |m'| == |m| + 1;
    assert row.id in Ids(s);
    var i :| 0 <= i < |s| && s[i].id == row.id;
    assert s[i].doc == m'[row.id];
  }

  /** When download URLs resolve back to their paths, deleting the row an
      upload created removes exactly the object that upload stored, the
      record, and the row. */
  lemma UploadThenDeleteRemovesObject(p: Page, b: Backend, env: Env, f: File, now: nat, tid: Id, stamp: Instant)
    requires UrlsResolve(env)
    ensures var u := HandleFileChange(p, b, env, Some(f), now, Upload.FileReplies(Pass, Pass), tid, stamp, Pass, Pass);
      var path := UploadPath(ImagesFolder, now, f);
      var r := HandleRemoveImage(u.0, u.1, env, true, Listed(tid, ImageDoc(env.urlOf(path), stamp)), Pass, Pass);
      && r.2.None?
      && path !in r.1.bucket
      && (forall q :: q in b.bucket && q != path ==> q in r.1.bucket)
      && r.1.db.images == b.db.images - {tid}
      && tid !in Ids(r.0.images)
  {
    var path := UploadPath(ImagesFolder, now, f);
    var url := env.urlOf(path);
    RefPathOfDownloadUrl(env, path);
    CompletedUpload(p, b, env, f, now, tid, stamp);
    var u := HandleFileChange(p, b, env, Some(f), now, Upload.FileReplies(Pass, Pass), tid, stamp, Pass, Pass);
    DeleteAfterUpload(u, b, env, path, f, Listed(tid, ImageDoc(url, stamp)));
  }

  lemma DeleteAfterUpload(u: (Page, Backend, Option<string>), b: Backend, env: Env, path: Path, f: File, row: Listed<ImageDoc>)
    requires RefPath(env, row.doc.url) == path && path != RootPath
    requires u.1.bucket == b.bucket[path := f]
    requires u.1.db.images == b.db.images[row.id := row.doc]
    ensures var r := HandleRemoveImage(u.0, u.1, env, true, row, Pass, Pass);
      && r.2.None?
      && path !in r.1.bucket
      && (forall q :: q in b.bucket && q != path ==> q in r.1.bucket)
      && r.1.db.images == b.db.images - {row.id}
      && row.id !in Ids(r.0.images)
  {
    RemoveCompletes(u.0, u.1, env, row);
    assert u.1.db.images - {row.id} == b.db.images - {row.id};
  }

  /** A confirmed delete of a row whose object exists, with both calls
      succeeding, removes the object, the record and the row. */
  lemma RemoveCompletes(p: Page, b: Backend, env: Env, row: Listed<ImageDoc>)
    requires Deletable(b.bucket, RefPath(env, row.doc.url))
    ensures var r := HandleRemoveImage(p, b, env, true, row, Pass, Pass);
      && r.2.None?
      && r.1.bucket.Keys == b.bucket.Keys - {RefPath(env, row.doc.url)}
      && r.1.db.images == b.db.images - {row.id}
      && row.id !in Ids(r.0.images)
  {
  }

  /** What the grid selects is what the panel starts from next time. */
  lemma SelectThenLoadShowsSelection(p: Page, db: Db, row: Listed<ImageDoc>, q: Page)
    ensures LoadPointer(q, HandleSelect(p, db, row, Pass).1, Pass).current == Some(ImageSnap(row.id, row.doc))
  {
  }
}
