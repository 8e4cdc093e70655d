/** The check-in form: the size an uploaded photo is scaled to before compression,
    and what pressing "save" decides: nothing, a failure alert, or an update or insert
    request carrying the entry's fields. */
module Daily {
  import opened Wrappers
  import opened Text
  import opened Calendar
  import opened DateText
  import opened Types
  import Journal

  // ---- Image size --------------------------------------------------------------------

  /** The longest side a stored photo may have, in pixels. */
  const MaxSize: real := 1000.0

  datatype Size = Size(width: real, height: real)

  /** The clamp in `compressImage`, over exact reals: a landscape image wider than the
      limit is scaled so that its width is the limit; any other image taller than the
      limit is scaled so that its height is; everything else is left alone. */
  function Clamp(w: real, h: real): (r: Size)
    ensures r.width <= MaxSize && r.height <= MaxSize
    ensures r.width * h == r.height * w
    ensures w <= MaxSize && h <= MaxSize ==> r == Size(w, h)
    ensures w > h && w > MaxSize ==> r.width == MaxSize
    ensures w <= h && h > MaxSize ==> r.height == MaxSize
    ensures 0.0 <= w && 0.0 <= h ==> 0.0 <= r.width <= w && 0.0 <= r.height <= h
  {
    if w > h then
      if w > MaxSize then
        ScaleDown(h, w);
        Size(MaxSize, h * (MaxSize / w))
      else Size(w, h)
    else if h > MaxSize then
      ScaleDown(w, h);
      Size(w * (MaxSize / h), MaxSize)
    else Size(w, h)
  }

  /** Scaling the shorter side `a` by `MaxSize / b`, where `b` is the longer side and
      exceeds the limit: the result keeps the ratio, stays within the limit and does not
      grow a non-negative side. */
  lemma ScaleDown(a: real, b: real)
    requires a <= b && b > MaxSize
    ensures (a * (MaxSize / b)) * b == a * MaxSize
    ensures a * (MaxSize / b) <= MaxSize
    ensures 0.0 <= a ==> 0.0 <= a * (MaxSize / b) <= a
  {
    var k := MaxSize / b;
    assert k * b == MaxSize;
    assert 0.0 < k < 1.0;
    assert a * k <= b * k;
  }

  /** A square larger than the limit takes the height branch and becomes exactly
      `MaxSize` by `MaxSize`. */
  lemma ClampSquare(s: real)
    requires s > MaxSize
    ensures Clamp(s, s) == Size(MaxSize, MaxSize)
  {
    assert s * (MaxSize / s) == MaxSize;
  }

  /** The reference the branches implement: for a photo with positive sides, scale both
      sides by one factor, `1` when the longer side fits and `MaxSize / longer` when it
      does not. */
  function Factor(w: real, h: real): real
    requires w > 0.0 && h > 0.0
  {
    var longer := if w > h then w else h;
    if longer <= MaxSize then 1.0 else MaxSize / longer
  }

  lemma ClampIsScaling(w: real, h: real)
    requires w > 0.0 && h > 0.0
    ensures Clamp(w, h) == Size(w * Factor(w, h), h * Factor(w, h))
  {
    if w > h && w > MaxSize {
      assert w * (MaxSize / w) == MaxSize;
    } else if w <= h && h > MaxSize {
      assert h * (MaxSize / h) == MaxSize;
    }
  }

  /** A clamped size fits already, so clamping again changes nothing. */
  lemma ClampIdempotent(w: real, h: real)
    ensures var r := Clamp(w, h); Clamp(r.width, r.height) == r
  {
  }

  // ---- Submitting --------------------------------------------------------------------

  /** What became of the photo chosen in the form: none was chosen, or it was stored
      under a public address, or storing it failed with a message. */
  datatype Upload = NoFile | Uploaded(url: string) | UploadFailed(message: string)

  /** The fields written to the `entries` table. */
  datatype Payload = Payload(
    energy: EnergyLevel,
    content: string,
    image: Option<string>,
    aiInsight: string,
    date: string)

  /** The write sent to the backend: update the row with this id, or insert a new row. */
  datatype Request = Update(id: string, payload: Payload) | Insert(payload: Payload)

  /** What pressing "save" leads to: nothing at all, an alert, or a write request. */
  datatype Submission = Ignored | Failed(alert: string) | Send(request: Request)

  /** The form's state when "save" is pressed; `initial` is the entry being edited. */
  datatype Form = Form(
    energy: EnergyLevel,
    content: string,
    submitting: bool,
    initial: Option<Entry>)

  const StoragePrefix := "[Lỗi Storage] "
  const SaveAlertPrefix := "Không thể lưu bài viết: \n\n"

  /** `initialEntry?.image || null`: the edited entry's photo, where it has a non-empty
      one. */
  function KeptImage(initial: Option<Entry>): (r: Option<string>)
    ensures r.Some? <==> initial.Some? && initial.value.image.Some? && initial.value.image.value != ""
    ensures r.Some? ==> r == initial.value.image
  {
    match initial
    case None => None
    case Some(e) => if e.image.Some? && e.image.value != "" then e.image else None
  }

  /** `handleSubmit`: with blank content or a save already running nothing happens; a
      failed photo upload ends in an alert; otherwise the entry is written, with the
      new photo if one was stored and the edited entry's photo if not, the edited
      entry's day when editing and `today` when not, by id when editing and as a new
      row when not. `insight` stands for the text the insight service returned. */
  function Submit(f: Form, upload: Upload, insight: string, today: CivilDate): (r: Submission)
    ensures r.Ignored? <==> Trim(f.content) == [] || f.submitting
    ensures r.Failed? <==> !r.Ignored? && upload.UploadFailed?
    ensures r.Failed? ==> r.alert == SaveAlertPrefix + StoragePrefix + upload.message
    ensures r.Send? ==> var p := r.request.payload;
      p.energy == f.energy && p.content == f.content && p.aiInsight == insight
    ensures r.Send? && upload.Uploaded? ==> r.request.payload.image == Some(upload.url)
    ensures r.Send? && upload.NoFile? ==> r.request.payload.image == KeptImage(f.initial)
    ensures r.Send? && f.initial.Some? ==>
      r.request == Update(f.initial.value.id, r.request.payload)
    ensures r.Send? && f.initial.Some? ==> r.request.payload.date == f.initial.value.date
    ensures r.Send? && f.initial.None? ==> r.request.Insert?
    ensures r.Send? && f.initial.None? ==> r.request.payload.date == Format(today)
  {
    if Trim(f.content) == [] || f.submitting then Ignored
    else
      match upload
      case UploadFailed(m) => Failed(SaveAlertPrefix + StoragePrefix + m)
      case NoFile => Send(Write(f, KeptImage(f.initial), insight, today))
      case Uploaded(url) => Send(Write(f, Some(url), insight, today))
  }

  /** The write for the form's fields with the chosen photo: an update of the edited
      row on its own day, or a new row under today. */
  function Write(f: Form, image: Option<string>, insight: string, today: CivilDate): (r: Request)
    ensures r.payload.energy == f.energy && r.payload.content == f.content
    ensures r.payload.image == image && r.payload.aiInsight == insight
    ensures r.Update? <==> f.initial.Some?
    ensures r.Update? ==> r.id == f.initial.value.id && r.payload.date == f.initial.value.date
    ensures r.Insert? ==> r.payload.date == Format(today)
  {
    var date := if f.initial.Some? then f.initial.value.date else Format(today);
    var p := Payload(f.energy, f.content, image, insight, date);
    if f.initial.Some? then Update(f.initial.value.id, p) else Insert(p)
  }

  /** Editing the text of an entry without choosing a new photo rewrites that entry in
      place: same id, same day, same photo. */
  lemma EditKeepsEntry(f: Form, e: Entry, insight: string, today: CivilDate)
    requires f.initial == Some(e) && !f.submitting && Trim(f.content) != []
    requires e.image.Some? && e.image.value != ""
    ensures Submit(f, NoFile, insight, today)
      == Send(Update(e.id, Payload(f.energy, f.content, e.image, insight, e.date)))
  {
  }

  /** A new entry is written under a day that the app's save step leaves as it is, so
      the row and the list shown after saving carry the same date. */
  lemma NewEntryDateIsClean(f: Form, upload: Upload, insight: string, today: CivilDate)
    requires f.initial.None?
    ensures var r := Submit(f, upload, insight, today);
      r.Send? ==> Journal.CleanDate(r.request.payload.date) == r.request.payload.date
  {
    Journal.CleanDateIdempotent("", today);
  }
}
