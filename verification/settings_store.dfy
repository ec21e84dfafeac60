/** Reading the settings record (`src/lib/settings-db.ts`): a stored document is spread over
    the defaults, a missing document is created from the defaults, and a failed read falls back
    to the defaults.  The display screen merges its locally saved copy the same way. */
module SettingsStore {
  import opened Wrappers
  import opened Data

  /** A stored settings document: any field may be absent.  Fields the record does not know
      are dropped by the model, since nothing reads them. */
  datatype StoredSettings = StoredSettings(
    photoDuration: Option<int>,
    blankDuration: Option<int>,
    randomize: Option<bool>,
    scrollSpeed: Option<int>,
    randomizeAllPhotos: Option<bool>,
    randomizeInPhotoGroups: Option<bool>,
    messageFontSize: Option<int>,
    displayPhotos: Option<bool>,
    displayMessages: Option<bool>,
    useBlankScreens: Option<bool>,
    monitorActivity: Option<bool>)

  const EmptyDocument := StoredSettings(None, None, None, None, None, None, None, None, None, None, None)

  /** A complete settings record viewed as a document holding every field. */
  function AsDocument(s: Settings): StoredSettings
  {
    StoredSettings(
      Some(s.photoDuration), Some(s.blankDuration), Some(s.randomize), Some(s.scrollSpeed),
      Some(s.randomizeAllPhotos), Some(s.randomizeInPhotoGroups), Some(s.messageFontSize),
      Some(s.displayPhotos), Some(s.displayMessages), Some(s.useBlankScreens), Some(s.monitorActivity))
  }

  /** Field by field, `r` takes the stored value where there is one and the base value where the
      document leaves the field out. */
  predicate TakesStoredElseBase(doc: StoredSettings, base: Settings, r: Settings)
  {
    && r.photoDuration == doc.photoDuration.GetOr(base.photoDuration)
    && r.blankDuration == doc.blankDuration.GetOr(base.blankDuration)
    && r.randomize == doc.randomize.GetOr(base.randomize)
    && r.scrollSpeed == doc.scrollSpeed.GetOr(base.scrollSpeed)
    && r.randomizeAllPhotos == doc.randomizeAllPhotos.GetOr(base.randomizeAllPhotos)
    && r.randomizeInPhotoGroups == doc.randomizeInPhotoGroups.GetOr(base.randomizeInPhotoGroups)
    && r.messageFontSize == doc.messageFontSize.GetOr(base.messageFontSize)
    && r.displayPhotos == doc.displayPhotos.GetOr(base.displayPhotos)
    && r.displayMessages == doc.displayMessages.GetOr(base.displayMessages)
    && r.useBlankScreens == doc.useBlankScreens.GetOr(base.useBlankScreens)
    && r.monitorActivity == doc.monitorActivity.GetOr(base.monitorActivity)
  }

  /** `{ ...base, ...doc }`: the object spread of a stored document over a complete record. */
  function Spread(base: Settings, doc: StoredSettings): (r: Settings)
    ensures TakesStoredElseBase(doc, base, r)
  {
    Settings(
      doc.photoDuration.GetOr(base.photoDuration),
      doc.blankDuration.GetOr(base.blankDuration),
      doc.randomize.GetOr(base.randomize),
      doc.scrollSpeed.GetOr(base.scrollSpeed),
      doc.randomizeAllPhotos.GetOr(base.randomizeAllPhotos),
      doc.randomizeInPhotoGroups.GetOr(base.randomizeInPhotoGroups),
      doc.messageFontSize.GetOr(base.messageFontSize),
      doc.displayPhotos.GetOr(base.displayPhotos),
      doc.displayMessages.GetOr(base.displayMessages),
      doc.useBlankScreens.GetOr(base.useBlankScreens),
      doc.monitorActivity.GetOr(base.monitorActivity))
  }

  /** A document that holds every field determines the result alone, whatever the base. */
  lemma SpreadCompleteDocument(base: Settings, s: Settings)
    ensures Spread(base, AsDocument(s)) == s
  {
  }

  /** A document with no fields gives back the base. */
  lemma SpreadEmptyDocument(base: Settings)
    ensures Spread(base, EmptyDocument) == base
  {
  }

  /** Merging is idempotent: spreading the document again over the merged record changes
      nothing, and so does spreading the merged record (as a document) over the defaults. */
  lemma SpreadIdempotent(base: Settings, doc: StoredSettings)
    ensures Spread(Spread(base, doc), doc) == Spread(base, doc)
    ensures Spread(base, AsDocument(Spread(base, doc))) == Spread(base, doc)
  {
  }

  /** What the settings document read can come back with. */
  datatype ReadOutcome = ReadFailed | NotFound | Found(doc: StoredSettings)

  /** The outcome of `getSettings`: the record returned and the document written back, if any. */
  datatype GetResult = GetResult(settings: Settings, written: Option<Settings>)

  /** `getSettings`: a found document is merged over the defaults; a missing one yields the
      defaults, which are also written back; a failed read yields the defaults and writes
      nothing.  A failure of the write-back itself is caught the same way and also returns the
      defaults, so it needs no separate case. */
  function GetSettings(read: ReadOutcome): (r: GetResult)
    ensures read.Found? ==> TakesStoredElseBase(read.doc, DefaultSettings, r.settings) && r.written.None?
    ensures read.NotFound? ==> r.settings == DefaultSettings && r.written == Some(DefaultSettings)
    ensures read.ReadFailed? ==> r.settings == DefaultSettings && r.written.None?
  {
    match read
    case Found(doc) => GetResult(Spread(DefaultSettings, doc), None)
    case NotFound => GetResult(DefaultSettings, Some(DefaultSettings))
    case ReadFailed => GetResult(DefaultSettings, None)
  }

  /** The display screen's own load: a saved copy is spread over the defaults, no saved copy
      means the defaults. */
  function LoadDisplaySettings(saved: Option<StoredSettings>): (r: Settings)
    ensures saved.Some? ==> TakesStoredElseBase(saved.value, DefaultSettings, r)
    ensures saved.None? ==> r == DefaultSettings
  {
    match saved
    case Some(doc) => Spread(DefaultSettings, doc)
    case None => DefaultSettings
  }

  /** The display screen and the settings store agree whenever a document is present. */
  lemma DisplayAgreesWithStore(doc: StoredSettings)
    ensures LoadDisplaySettings(Some(doc)) == GetSettings(Found(doc)).settings
  {
  }
}
