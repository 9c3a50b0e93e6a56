/** The colour-theme tab: one colour, read from and written to the
    `InUses/color` singleton, with black as the default. */
module ColorTheme {
  import opened Store

  const DefaultColor: string := "#000000"

  /** What reading `.color` off the `undefined` data of a missing document
      throws. */
  const MissingDocument: string := "Cannot read properties of undefined (reading 'color')"

  datatype Page = Page(color: string, loading: bool, error: string)

  const InitialPage: Page := Page(DefaultColor, true, "")

  /** The `color` field of a pointer document; a document of another shape
      has none, which reads as the empty (falsy) value. */
  function StoredColor(d: PointerDoc): string {
    if d.ColorDoc? then d.color else ""
  }

  /** `fetchTheme`: the stored colour, or the default when it is empty or
      absent; a missing document or a failed read sets the error and keeps
      the colour. */
  function Load(p: Page, db: Db, read: Outcome): (r: Page)
    ensures !r.loading
    ensures p.color != "" ==> r.color != ""
    ensures read.Fail? ==> r == p.(loading := false, error := read.message)
    ensures read.Pass? && ColorSlot !in db.inUses ==> r == p.(loading := false, error := MissingDocument)
    ensures read.Pass? && ColorSlot in db.inUses ==>
      && r.error == p.error
      && (r.color == DefaultColor || (db.inUses[ColorSlot].ColorDoc? && r.color == db.inUses[ColorSlot].color))
  {
    if read.Fail? then p.(loading := false, error := read.message)
    else if ColorSlot !in db.inUses then p.(loading := false, error := MissingDocument)
    else
      var c := StoredColor(db.inUses[ColorSlot]);
      p.(color := if c == "" then DefaultColor else c, loading := false)
  }

  /** `handleSubmit`: `now` is the server timestamp, `write` the reply of
      `setDoc`. Returns the page, the database and whether the success
      alert was shown. */
  function Save(p: Page, db: Db, now: Instant, write: Outcome): (r: (Page, Db, bool))
    ensures r.0.color == p.color && r.0.loading == p.loading
    // The document is replaced wholesale by exactly the colour and the stamp.
    ensures write.Pass? ==> r.1 == db.(inUses := db.inUses[ColorSlot := ColorDoc(p.color, now)]) && r.2 && r.0.error == ""
    // A failed write changes nothing stored, shows no alert and reports the error.
    ensures write.Fail? ==> r.1 == db && !r.2 && r.0.error == write.message
  {
    var p1 := p.(error := "");
    if write.Fail? then (p1.(error := write.message), db, false)
    else (p1, db.(inUses := db.inUses[ColorSlot := ColorDoc(p.color, now)]), true)
  }

  /** A colour saved and then loaded comes back unchanged; an empty one
      comes back as the default. */
  lemma SaveThenLoad(p: Page, db: Db, now: Instant, q: Page)
    ensures var r := Load(q, Save(p, db, now, Pass).1, Pass);
      r.color == (if p.color == "" then DefaultColor else p.color) && r.error == q.error && !r.loading
  {
  }

  /** Saving touches `InUses/color` only: the hero-section and about-us
      pointers and all collections stay as they were. */
  lemma SaveTouchesOnlyColor(p: Page, db: Db, now: Instant, write: Outcome)
    ensures var d := Save(p, db, now, write).1;
      && d == db.(inUses := d.inUses)
      && forall s :: s != ColorSlot ==> (s in d.inUses <==> s in db.inUses) && (s in db.inUses ==> d.inUses[s] == db.inUses[s])
  {
  }

  /** Without a stored colour the first load shows the default. */
  lemma FirstLoadWithoutColourShowsDefault(db: Db, read: Outcome)
    requires read.Fail? || ColorSlot !in db.inUses || StoredColor(db.inUses[ColorSlot]) == ""
    ensures Load(InitialPage, db, read).color == DefaultColor
  {
  }
}
