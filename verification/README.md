# Admin dashboard core, modelled in Dafny

This project models the statable core of a React/Firebase admin dashboard for
a website. Editors manage events, blogs, "about us" entries, hero images and a
theme colour. The model keeps the dashboard's own terms:

- **Content store.** The document database and the object bucket are finite
  maps (`Store.Db`, `Store.Bucket`). Every SDK call the handlers make is an
  `Outcome` the caller supplies: `Pass` with its effect, or `Fail(message)`
  with none. Fresh values are inputs too: uuids are `Id = nat`, and
  `Date.now()` and server timestamps are numbers. Download URLs, the path a
  URL resolves back to, date parsing and the store's `datetime` order are
  fields of `Store.Env`.
- **Ordered queries** (`Listing`). `getDocs(query(..., orderBy(f, dir)))` is
  a deterministic sort of a collection by an abstract rank, ties broken by
  id. It is proved to be the only sorted enumeration of the collection. The
  local `filter` after an image delete is proved equal to re-running the
  query.
- **Hex colour parser** (`HexColor`). `hexToRgb` is modelled as an exact
  string function: shorthand expansion, the whole-string pattern with an
  optional `#` and either letter case, the `"r, g, b"` rendering and the
  `'0,0,0'` fallback.
- **Gallery uploader** (`Gallery`). The batch upload is all-or-nothing, in
  selection order, and keeps the objects it stored before a failure. Removal
  is by index. `HandleFiles` takes the folder as a parameter, so it covers
  both the current component (`${name}/gallery`, `Gallery.GalleryFolder`)
  and the older single-file copy, which is `HandleFiles` called with the
  folder `"gallery"` (`src/App.js:188`).
- **Draft-record editors** (`Editor`). One model, parameterised by `Kind`,
  covers the events, blogs and about-us pages:
  - featured upload;
  - submit, with its prompt, title check, date conversion, write under a
    fresh id, reset and refresh;
  - delete, which removes the asset, then the record, then refreshes;
  - apply, and the highlight and delete-visibility rule.
- **Images tab** (`Images`):
  - upload, then record;
  - delete, then local removal;
  - select, which writes `InUses/herosection` at once;
  - the card's delete button, whose click also reaches the card's select
    handler;
  - the submit that only changes the panel;
  - the pointer load.
- **Colour theme** (`ColorTheme`). The `InUses/color` singleton is loaded
  with a black default and overwritten on save.
- **Session** (`Session`). `RequireAuth` makes a three-way decision. The
  provider's `{user, loading}` state is driven by observer reports over a
  run of events.

The gallery batch is all-or-nothing. `setGallery` runs only after the
whole loop (`src/tabs/inputs.jsx:46-60`), so a failing file attaches none
of the URLs uploaded before it, although their objects stay in the bucket.
`Gallery.HandleFiles` states exactly that.

The about-us page refreshes in ascending `datetime` order after a create, but
in descending order on first load and after a delete. `Editor.CreateRefreshOrder`
keeps that per call site.

## Model

| member | source | states |
|---|---|---|
| `HexColor.HexToRgb` | src/App.js:611-619 | The result is exactly `'0,0,0'` if and only if the input is neither a 3-digit nor a 6-digit hex colour (optional `#`). |
| `HexColor.ExpandShorthand` | src/App.js:613-616 | A whole-string shorthand becomes six hex digits with no `#`. Any other input is returned unchanged. |
| `HexColor.ShorthandMeansDoubled` | src/App.js:613-616 | A shorthand converts exactly like the six-digit colour that writes each digit twice (`#abc` like `aabbcc`). |
| `HexColor.Channel` | src/App.js:618 | `parseInt` of two hex digits in base 16 is a byte value below 256. |
| `HexColor.FullHexGivesBytes` | src/App.js:617-618 | Any six-digit colour yields three numbers in 0..255 rendered as decimals joined by `", "`. |
| `HexColor.RgbTextIsNotFallback` | src/App.js:618 | The success text never equals the fallback `'0,0,0'` (the success form has spaces). |
| `HexColor.HexToRgbOfHexOf` | src/App.js:617-618 | Round trip: formatting bytes as `#rrggbb` and parsing gives back `"r, g, b"`. |
| `HexColor.HexToRgbSeparatesColours` | src/App.js:617-618 | Two six-digit colours with the same result have the same three channel values. |
| `HexColor.HexToRgbIgnoresCase` | src/App.js:613-617 | The `i` flag: lower-casing the input does not change the result. |
| `Text.Decimal` | src/App.js:618 | `${n}` is a non-empty run of digits, with no leading zero, of length one exactly for n < 10. |
| `Text.ParseDecimalOfDecimal` | src/App.js:618 | Reading the decimal text of n back gives n, so the rendering loses nothing. |
| `Text.DecimalInjective` | src/tabs/inputs.jsx:53 | Different timestamps render to different decimal texts. |
| `Text.Trim` | src/tabs/eventpage.jsx:69 | `trim()` never lengthens the title, and a non-empty result neither starts nor ends with ECMAScript white space. |
| `Text.TrimIsInnerRun` | src/tabs/eventpage.jsx:69 | `trim()` returns a contiguous run of the title with only white space cut before and after it. |
| `Text.TrimEmptyIffBlank` | src/App.js:311-314 | `!title.trim()` holds exactly when every character is ECMAScript white space (the empty title included). |
| `Store.RefPath` | src/tabs/eventpage.jsx:110 | `ref(storage, url)` with the empty string is the bucket root reference. |
| `Store.UploadPath` | src/tabs/inputs.jsx:53 | The `${folder}/${Date.now()}-${file.name}` path of an upload is never the bucket root. |
| `Store.UploadPathInjective` | src/tabs/inputs.jsx:53 | Two uploads into one folder share a path only when their timestamps and file names agree. |
| `Store.Put` | src/tabs/inputs.jsx:53-54 | A successful `uploadBytes` stores the file at its path and keeps every other object; a failed one changes nothing. |
| `Store.DeleteObject` | src/tabs/eventpage.jsx:110-111 | `deleteObject` succeeds exactly when the reference is not the bucket root, the object exists and the call succeeds; then only that object is gone. The root reference is refused with `storage/invalid-root-operation`. Otherwise the bucket is unchanged. |
| `Store.RefPathOfDownloadUrl` | src/tabs/imagepage.jsx:69 | When download URLs resolve back to their objects, `ref(storage, url)` of an object's download URL is that object. |
| `Listing.Query` | src/tabs/eventpage.jsx:27-29 | The listing holds every document of the collection exactly once, with its data, sorted in the requested direction. |
| `Listing.QueryIsUnique` | src/tabs/eventpage.jsx:96-99 | Any sorted enumeration of the collection is the query's result, so a refresh is determined by the stored documents alone. |
| `Listing.SortedListingSize` | src/tabs/eventpage.jsx:27-29 | A sorted listing of the collection has exactly one row per stored document. |
| `Listing.DescIsReversedAsc` | src/tabs/aboutpage.jsx:83 | The ascending refresh lists the documents in the exact reverse of the descending one. |
| `Listing.WithoutId` | src/tabs/imagepage.jsx:170-172 | The filter leaves no row with the id, is no longer than its input, and is the identity when the id is absent. |
| `Listing.WithoutIdMembers` | src/tabs/imagepage.jsx:171 | A row survives the filter exactly when it was present and carries another id. |
| `Listing.WithoutIdOfConcat` | src/tabs/imagepage.jsx:171 | The filter works piecewise over a concatenation, so surviving rows keep their relative order. |
| `Listing.WithoutIdOfQuery` | src/tabs/imagepage.jsx:170-172 | Filtering a row out of a query result equals querying the collection without that document. |
| `Gallery.RemoveAt` | src/tabs/inputs.jsx:67-69 | Removing by index never lengthens the gallery. |
| `Gallery.RemoveAtIsSplice` | src/App.js:202-204 | For an index in range, exactly that element goes and the others keep their order; an index out of range changes nothing. |
| `Gallery.FirstFailure` | src/tabs/inputs.jsx:47-57 | The loop stops at the first file whose upload or URL lookup throws; every earlier file succeeded. |
| `Gallery.UploadEach` | src/tabs/inputs.jsx:47-57 | The loop collects every file's URL in order when no call throws; otherwise it stops with the first throw's message. The objects stored up to and including a failing file whose upload succeeded stay in the bucket, each holding its own file at its own path; nothing else in the bucket changes. |
| `Gallery.HandleFiles` | src/tabs/inputs.jsx:40-65 | Empty selection is a no-op; otherwise the busy flag ends false, full success appends the URLs in order and clears the error, any throw leaves the gallery unchanged with that error, and objects stored before the throw stay, each file at its own `${name}/gallery/${now}-${file.name}` path. |
| `Editor.Load` | src/tabs/eventpage.jsx:24-38 | The first fetch lists the collection by `datetime` descending or reports the error; loading ends either way; the draft, the upload flags, the uploader and the highlight are untouched. |
| `Editor.UploadFeatured` | src/tabs/eventpage.jsx:41-63 | A missing file is a no-op. The object goes to `${folder}/${now}-${name}`. Otherwise the page changes only in its busy flag (cleared), its error line (the first throw's message, or empty) and the draft's `featuredImage`, which changes only when both calls succeed. |
| `Editor.UploadedFeaturedIsDeletable` | src/tabs/eventpage.jsx:110-111 | When download URLs resolve, the URL a finished featured upload puts in the draft is non-empty and resolves to the stored object, so a later delete can remove it. |
| `Editor.UploadGallery` | src/tabs/eventpage.jsx:158 | The page's gallery control changes only the draft's gallery and the uploader's state. An empty selection changes nothing; otherwise the busy flag ends cleared, the error line is empty on success and the first throw's message on failure, the gallery gets the batch's all-or-nothing result, and no object is removed. |
| `Editor.RemoveGalleryImage` | src/tabs/blogspage.jsx:107-112 | Only the draft's gallery changes. An in-range index drops exactly that element and keeps the others in order; any other index changes nothing. |
| `Editor.DatetimeField` | src/tabs/eventpage.jsx:88 | An empty date field is stored as `null`. Any other text is stored as its converted instant exactly when `new Date` accepts it; otherwise the conversion's message is the error. |
| `Editor.RecordOf` | src/tabs/eventpage.jsx:84-91 | The document written by `setDoc` carries the draft's featured image, title and content, the converted date and the server timestamp. Only event and blog documents carry the draft's gallery. |
| `Editor.Commit` | src/tabs/aboutpage.jsx:69-90 | A failed write keeps the draft and the store; a successful one adds the record, resets the draft, and the refresh lists the collection in the page's create order. Only the draft, the list and the error line can change on the page. |
| `Editor.Submit` | src/tabs/eventpage.jsx:66-104 | The prompt comes before validation. A blank title sets "Title is required" with no write. A date that does not convert sets the thrown message with no write. Nothing is written or reset unless the draft is accepted and `setDoc` succeeds. Only the draft, the list and the error line can change on the page. |
| `Editor.CreatedRecordListedOnce` | src/tabs/eventpage.jsx:82-99 | After a successful create and refresh the new record is listed exactly once, as written, and the list is sorted. |
| `Editor.FreshIdAddsOneRecord` | src/tabs/eventpage.jsx:82-91 | Under a fresh id the collection grows by exactly one record and every other record is unchanged. |
| `Editor.Delete` | src/tabs/eventpage.jsx:106-123 | Declining does nothing. The record goes only after its featured object went, and always once both deletes succeed. If the object delete throws, nothing changes and an alert is raised. If the document delete throws, the object is already gone but the record and the list stay, with an alert. Gallery objects, other collections and `InUses` are untouched. |
| `Editor.EmptyFeaturedNeverDeleted` | src/tabs/aboutpage.jsx:98-99 | An entry saved without a featured image can never be deleted. `ref(storage, "")` is the root, `deleteObject` refuses it, and the handler alerts with nothing changed. |
| `Editor.DeleteRemovesEntry` | src/tabs/eventpage.jsx:110-118 | A completed delete removes the record, its featured object and its list row, and keeps every other object. |
| `Editor.SecondDeleteChangesNothing` | src/tabs/aboutpage.jsx:93-112 | Deleting the same entry again raises the object-not-found alert and changes nothing. |
| `Editor.Apply` | src/tabs/aboutpage.jsx:114-119 | After the prompt, `InUses/aboutus` is overwritten with the whole row, and the highlight moves only when that write succeeded. |
| `Editor.LoadSelected` | src/tabs/aboutpage.jsx:121-128 | The highlight is the `id` stored in `InUses/aboutus`; a failed read or a missing document leaves the page alone. |
| `Editor.DeleteShown` | src/tabs/aboutpage.jsx:190-194 | With no applied entry every card shows its delete control; the applied entry's card never does. |
| `Editor.ApplyHidesDelete` | src/tabs/aboutpage.jsx:184-193 | After an apply, the applied entry shows no delete control and every other entry shows one. |
| `Editor.LoadedPointerHidesDelete` | src/tabs/aboutpage.jsx:125 | An entry copied into `InUses/aboutus` is highlighted on load and so cannot be deleted from the page. |
| `Editor.DeleteKeepsPointer` | src/tabs/aboutpage.jsx:98-102 | Deletes never write `InUses`: an applied copy outlives its source entry. |
| `Images.Load` | src/tabs/imagepage.jsx:132-147 | The fetch lists the images by `createdAt` descending or records the error; loading ends either way; the panel, the highlight and the uploader are untouched. |
| `Images.HandleUploaded` | src/tabs/imagepage.jsx:149-168 | Only the new `{url, createdAt}` record under the fresh id is written; the refresh lists the whole collection; any throw becomes the "Failed to save image record" alert. |
| `Images.HandleFileChange` | src/tabs/imagepage.jsx:13-42 | The object goes to `images/${now}-${name}`. The record is written only after upload and URL lookup both succeeded. The busy flag ends cleared. Only the uploader's state and the list can change on the page. |
| `Images.CompletedUpload` | src/tabs/imagepage.jsx:13-42 | When every call succeeds, the bucket gains exactly the new object, the collection gains exactly the record with its download URL, and the list is the refreshed, sorted collection. |
| `Images.UploadIsListedOnce` | src/tabs/imagepage.jsx:30-35 | A completed upload under a fresh id adds exactly one listed row, carrying the stored object's URL. |
| `Images.HandleImageDeleted` | src/tabs/imagepage.jsx:170-172 | Exactly the rows with the id go; every other row stays, nothing is added, and the list does not grow. |
| `Images.HandleImageDeletedKeepsOrder` | src/tabs/imagepage.jsx:171 | The removal splits over any cut of the list, so the surviving rows keep their relative order. |
| `Images.HandleRemoveImage` | src/tabs/imagepage.jsx:64-83 | The prompt, then the object, then the record; any throw alerts and skips the local removal; `InUses` is never written. If the record delete throws, the object is already gone while the record and the list stay, with the thrown message in the alert. When both deletes succeed the record is gone and no alert is raised. |
| `Images.RemoveCompletes` | src/tabs/imagepage.jsx:64-83 | A confirmed delete whose calls succeed drops exactly the row's object from the bucket, its record from the collection, and its row from the list. |
| `Images.UploadThenDeleteRemovesObject` | src/tabs/imagepage.jsx:69-70 | When download URLs resolve back to their paths, deleting an uploaded image removes exactly the object its upload stored, plus its record and row. |
| `Images.LocalRemovalMatchesRequery` | src/tabs/imagepage.jsx:161-172 | After a completed delete the locally filtered list equals a fresh query of the remaining collection. |
| `Images.HandleSelect` | src/tabs/imagepage.jsx:85-89 | Without a prompt, `InUses/herosection` is overwritten with the whole row and the highlight moves when the write succeeded. |
| `Images.GridDeleteClick` | src/tabs/imagepage.jsx:108-115 | A click on the delete button runs the delete handler and then, because the click reaches the card, the select handler. The object, record, list and alert are the delete's. The hero pointer and the highlight are the select's. |
| `Images.DeclinedDeleteStillSelects` | src/tabs/imagepage.jsx:65 | Declining the delete prompt still overwrites `InUses/herosection` with the image and highlights it; nothing is deleted. |
| `Images.ConfirmedDeleteDangles` | src/tabs/imagepage.jsx:108-115 | A completed delete always leaves the hero pointer holding the deleted image, whose record and object are gone. The highlight names an unlisted row, so the grid's submit does nothing. |
| `Images.SelectThenDeleteDangles` | src/tabs/imagepage.jsx:64-89 | Selecting then deleting an image leaves the pointer holding a copy whose record and object are both gone. |
| `Images.FindById` | src/tabs/imagepage.jsx:93 | `find` returns the first row with the id (no earlier row carries it), and returns nothing exactly when no row has it. |
| `Images.HandleSubmit` | src/tabs/imagepage.jsx:91-97 | The panel changes only after the prompt and only when the highlighted id is still listed; then it shows that row. |
| `Images.LoadPointer` | src/tabs/imagepage.jsx:174-190 | The panel starts from `InUses/herosection` only when the read succeeds and the document exists. |
| `Images.SelectThenLoadShowsSelection` | src/tabs/imagepage.jsx:177-181 | The row a select wrote is what the next pointer load shows. |
| `ColorTheme.Load` | src/tabs/colorthemepage.jsx:11-33 | The stored colour or, if it is empty, `#000000`; a missing document or failed read sets the error and keeps the colour; loading ends. |
| `ColorTheme.Save` | src/tabs/colorthemepage.jsx:45-63 | Success replaces `InUses/color` with exactly `{color, updatedAt}` and shows the alert; failure writes nothing, shows no alert and sets the error. |
| `ColorTheme.SaveThenLoad` | src/tabs/colorthemepage.jsx:17 | A saved colour is what the next load shows, or the default if it was empty. |
| `ColorTheme.SaveTouchesOnlyColor` | src/tabs/colorthemepage.jsx:49-52 | Saving leaves the other `InUses` documents and all collections unchanged. |
| `ColorTheme.FirstLoadWithoutColourShowsDefault` | src/tabs/colorthemepage.jsx:7 | Without a stored colour the page shows the initial `#000000`. |
| `Session.Gate` | src/Auths/requireAuth.js:6-24 | Spinner exactly while loading; otherwise a replacing redirect to `/login` carrying the location exactly when there is no user; otherwise the children. |
| `Session.GateNeverSpinsAgain` | src/Auths/requireAuth.js:10-17 | Once the guard has shown something other than the spinner, it never shows the spinner again. |
| `Session.RedirectOnlyAfterSignedOutReport` | src/Auths/requireAuth.js:19-21 | From the initial state, a redirect happens only after the observer reported nobody signed in. |
| `Session.Step` | src/Auths/authContext.jsx:13-19 | A delivered report sets the user and clears loading; one arriving after unsubscribe changes nothing. |
| `Session.LoadingNeverReturns` | src/Auths/authContext.jsx:16 | `loading` never becomes true again once false. |
| `Session.LoadingMeansNoReport` | src/Auths/authContext.jsx:9-10 | While loading, the user is still the initial one. |
| `Session.LastReportWins` | src/Auths/authContext.jsx:15-16 | After a delivered report the user is the reported value and loading is over. |
| `Session.ReportedUserComesFromReport` | src/Auths/authContext.jsx:15 | Once loading has ended, the user is one that some report carried. |
| `Session.TeardownFreezes` | src/Auths/authContext.jsx:18 | After the unsubscribe, reports change neither user nor loading. |

## Left out

- Rendering, routing, the login page, the public home page, the image-kit
  uploader and the demo uploader: they hold no logic beyond markup and
  network calls.
- The older single-file app's SDK calls (namespaced `collection(...)`,
  `storage.ref()`) and its DOM `style.setProperty` calls. Only `hexToRgb`,
  the gallery list logic and the title check are taken from that file.
- Firebase semantics are left out. Server timestamps, uuids, `Date.now()`,
  download-URL generation and `Timestamp.fromDate(new Date(...))` are
  inputs. Where `orderBy` places a `null` `datetime` is folded into the
  abstract rank `Env.timeRank`. Every modelled `Entry` carries a `datetime`
  field, `null` or a timestamp, because the handlers always write one. So
  documents without the field, which an `orderBy` query leaves out, do not
  arise.
- Listing.Query: rows of equal rank are put in id order in the query's own
  direction, ascending for an ascending query and descending for a
  descending one. The store's own tie-break (document key order) is not
  modelled.
- The storage service's promise that a download URL is never empty and
  resolves back to its object path is not modelled. How `ref(storage, url)`
  parses a non-empty URL is the abstract `Env.pathOf`; only the empty
  string is pinned down, as the bucket root. It is stated as `Store.UrlsResolve` and taken
  as a hypothesis where a lemma needs it. Without it a delete handler may
  target a different object than the one uploaded.
- Asynchronous interleavings are left out: concurrent uploads, unmount during
  a request, and `handleUploaded` running after the uploader's state update
  (it is not awaited). Each handler is modelled as one atomic step. The
  grid's delete click starts the delete handler and then the select
  handler, and their awaited calls interleave. `Images.GridDeleteClick`
  applies the delete's effects first. The two handlers write disjoint state
  (the bucket, the `images` collection and the list, against
  `InUses/herosection` and the highlight), so every order ends in the same
  state.
- `window.confirm` answers are boolean inputs. `alert` texts are returned
  values. Console logging is dropped.
- Unhandled rejections are not modelled. `handleSelect`, `handleApplyabout`
  and `fetchSelectedBlog` have no `catch`, and their failures are modelled
  as "no state change".
- ColorTheme.Load: the error for a missing colour document is V8's wording
  of the `TypeError` thrown by reading `.color` off `undefined`. Other
  JavaScript engines word it differently, and the model fixes this one.
- Session: the provider's `login`/`logout` wrappers only forward to the auth
  service, and the observer's reports stand for their effect.
