/** The two managed backends the dashboard talks to, as finite maps: a
    document database holding the content collections and the `InUses`
    singleton pointers, and an object bucket holding uploaded files.
    Every SDK call is modelled as an `Outcome` the caller supplies, so each
    step can be studied for success (with its effect) and failure (with
    none). Fresh values (uuids, `Date.now()`, server timestamps, download
    URLs) and date parsing are likewise inputs. */
module Store {
  import opened Text

  /** A document id. The source draws them from `uuid()`; only equality and
      freshness matter, and the natural order is used to break ties when a
      listing is sorted. */
  type Id = nat
  /** A download URL (the value stored in records and shown in `<img>`). */
  type Url = string
  /** An object path inside the bucket. */
  type Path = string
  /** A point in time, in the store's own unit. */
  type Instant = int

  /** A file the user picked; only its name reaches the model. */
  datatype File = File(name: string)

  /** The reply of one SDK call: it either succeeds or throws with a message. */
  datatype Outcome = Pass | Fail(message: string)

  /** `Timestamp.fromDate(new Date(s))`: a valid date or a thrown error. */
  datatype Parsed = Parsed(instant: Instant) | Invalid(message: string)

  /** An event, blog or about-us document. `gallery` is `None` for about-us
      entries, whose documents have no such field. */
  datatype Entry = Entry(
    featuredImage: Url,
    title: string,
    content: string,
    datetime: Option<Instant>,
    gallery: Option<seq<Url>>,
    createdAt: Instant)

  datatype Option<T> = None | Some(value: T)

  /** A document of the `images` collection. */
  datatype ImageDoc = ImageDoc(url: Url, createdAt: Instant)

  /** A listing row, `{ id: doc.id, ...doc.data() }`. */
  datatype Listed<D> = Listed(id: Id, doc: D)

  /** The documents of the `InUses` collection. */
  datatype Slot = HeroSection | AboutUs | ColorSlot

  /** What an `InUses` document can hold: a copy of an image row, a copy of
      an about-us row, or a colour setting. The copies are snapshots, not
      references. */
  datatype PointerDoc =
    | ImageSnap(id: Id, image: ImageDoc)
    | EntrySnap(id: Id, entry: Entry)
    | ColorDoc(color: string, updatedAt: Instant)

  datatype Db = Db(
    events: map<Id, Entry>,
    blogs: map<Id, Entry>,
    aboutus: map<Id, Entry>,
    images: map<Id, ImageDoc>,
    inUses: map<Slot, PointerDoc>)

  type Bucket = map<Path, File>

  datatype Backend = Backend(db: Db, bucket: Bucket)

  /** The backend behaviour the source relies on but does not define.
      `urlOf` is `getDownloadURL` for an object path; `pathOf` is the path
      `ref(storage, url)` resolves a non-empty URL to (see `RefPath` for the
      empty one); `toInstant` is the
      date conversion; `timeRank` is the store's order on the `datetime`
      field, including where `null` sits. */
  datatype Env = Env(
    urlOf: Path -> Url,
    pathOf: Url -> Path,
    toInstant: string -> Parsed,
    timeRank: Option<Instant> -> int)

  /** The addressing assumption the delete handlers make: a download URL is
      never empty, and resolving the download URL of a path gives that path
      back. */
  ghost predicate UrlsResolve(env: Env) {
    forall p :: env.urlOf(p) != "" && env.pathOf(env.urlOf(p)) == p
  }

  /** The bucket's root, the path of `ref(storage)`. */
  const RootPath: Path := ""

  /** `ref(storage, url)`: the empty string names the root reference; any
      other text is resolved by the storage service. */
  function RefPath(env: Env, url: Url): (p: Path)
    ensures url == "" ==> p == RootPath
  {
    if url == "" then RootPath else env.pathOf(url)
  }

  /** Under the addressing assumption, the reference built from an
      object's download URL is that object. */
  lemma RefPathOfDownloadUrl(env: Env, p: Path)
    requires UrlsResolve(env)
    ensures RefPath(env, env.urlOf(p)) == p
  {
  }

  /** The message `deleteObject` rejects with when given the root
      reference. */
  const RootDeleteRefused: string :=
    "Firebase Storage: The operation 'deleteObject' cannot be performed on a root reference, create a non-root reference using child, such as .child('file.png'). (storage/invalid-root-operation)"

  /** An object `deleteObject` can remove: stored, and not the root. */
  predicate Deletable(b: Bucket, p: Path) {
    p != RootPath && p in b
  }

  /** The message `deleteObject` rejects with when nothing is stored at the
      path. */
  function ObjectNotFound(p: Path): string {
    "Firebase Storage: Object '" + p + "' does not exist. (storage/object-not-found)"
  }

  /** `${folder}/${timestamp}-${file.name}`; never the root. */
  function UploadPath(folder: string, timestamp: nat, f: File): (p: Path)
    ensures p != RootPath
  {
    folder + "/" + Decimal(timestamp) + "-" + f.name
  }

  /** Different uploads into one folder land at different paths: the
      timestamp's digits end at the `-`, so the path gives back both the
      timestamp and the file name. */
  lemma UploadPathInjective(folder: string, t: nat, f: File, t': nat, f': File)
    requires UploadPath(folder, t, f) == UploadPath(folder, t', f')
    ensures t == t' && f == f'
  {
    var pre := folder + "/";
    var x, x' := Decimal(t) + ("-" + f.name), Decimal(t') + ("-" + f'.name);
    assert UploadPath(folder, t, f) == pre + x;
    assert UploadPath(folder, t', f') == pre + x';
    assert x == (pre + x)[|pre|..];
    assert x' == (pre + x')[|pre|..];
    DigitRunsAgree(Decimal(t), "-" + f.name, Decimal(t'), "-" + f'.name);
    DecimalInjective(t, t');
    assert f.name == ("-" + f.name)[1..];
    assert f'.name == ("-" + f'.name)[1..];
  }

  /** `uploadBytes`: on success the object is stored at the path (replacing
      whatever was there); on failure the bucket is untouched. */
  function Put(b: Bucket, p: Path, f: File, reply: Outcome): (r: Bucket)
    ensures reply.Pass? ==> p in r && r[p] == f && forall q :: q in b && q != p ==> q in r && r[q] == b[q]
    ensures reply.Pass? ==> r.Keys == b.Keys + {p}
    ensures reply.Fail? ==> r == b
  {
    if reply.Pass? then b[p := f] else b
  }

  /** `deleteObject`: refuses the root reference, fails when the object is
      missing or the call fails; otherwise removes exactly that object. */
  function DeleteObject(b: Bucket, p: Path, reply: Outcome): (r: (Bucket, Outcome))
    ensures r.1.Pass? <==> Deletable(b, p) && reply.Pass?
    ensures p == RootPath ==> r == (b, Fail(RootDeleteRefused))
    ensures r.1.Pass? ==> r.0.Keys == b.Keys - {p}
    ensures r.1.Fail? ==> r.0 == b
    ensures forall q :: q in r.0 ==> q in b && r.0[q] == b[q]
  {
    if p == RootPath then (b, Fail(RootDeleteRefused))
    else if p !in b then (b, Fail(ObjectNotFound(p)))
    else if reply.Fail? then (b, reply)
    else (b - {p}, Pass)
  }
}
