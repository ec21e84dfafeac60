/** The records of the signage application (`src/lib/data.ts`) and its seed constants. */
module Data {
  import opened Wrappers

  /** A message's lifecycle state; only `Active` messages are ever displayed. */
  datatype Status = Active | Scheduled | Expired

  /** A text message; `schedule` is a free-form label that no display logic reads. */
  datatype Message = Message(id: int, content: string, schedule: string, status: Status)

  /** A photo; `storagePath` is the uploaded file name recorded by the server routes and
      is absent for photos created in the browser. */
  datatype Photo = Photo(id: int, src: string, alt: string, aiHint: string, storagePath: Option<string>)

  /** The photo library: category name to photos, as an explicit sequence of entries so that
      the insertion order the screens rely on is part of the value. */
  type PhotoGroups = seq<(string, seq<Photo>)>

  /** The display settings record.  `monitorActivity` is read by the display screen although the
      declared record type omits it; an absent value there is `undefined`, that is, false. */
  datatype Settings = Settings(
    photoDuration: int,
    blankDuration: int,
    randomize: bool,
    scrollSpeed: int,
    randomizeAllPhotos: bool,
    randomizeInPhotoGroups: bool,
    messageFontSize: int,
    displayPhotos: bool,
    displayMessages: bool,
    useBlankScreens: bool,
    monitorActivity: bool)

  const DefaultSettings := Settings(
    photoDuration := 10,
    blankDuration := 3,
    randomize := false,
    scrollSpeed := 50,
    randomizeAllPhotos := false,
    randomizeInPhotoGroups := true,
    messageFontSize := 48,
    displayPhotos := true,
    displayMessages := true,
    useBlankScreens := true,
    monitorActivity := false)

  const InitialMessages: seq<Message> := [
    Message(1, "Welcome to our facility. We are glad to have you.", "Always Active", Active),
    Message(2, "Annual summer picnic this Saturday at 12:00 PM.", "2024-07-20 to 2024-07-27", Scheduled),
    Message(3, "Movie night tonight in the common room at 7 PM.", "2024-07-22", Expired)
  ]

  const InitialPhotoGroups: PhotoGroups := [
    ("family", [
      Photo(1, "https://placehold.co/800x600", "Family at the beach", "family beach", None),
      Photo(2, "https://placehold.co/600x800", "Grandparents smiling", "old couple", None)]),
    ("events", [
      Photo(3, "https://placehold.co/700x500", "Birthday party", "birthday party", None)]),
    ("scenery", [
      Photo(4, "https://placehold.co/900x600", "Mountain landscape", "mountain landscape", None),
      Photo(5, "https://placehold.co/600x900", "City skyline at night", "city night", None),
      Photo(6, "https://placehold.co/800x500", "Forest path", "forest path", None)])
  ]

  predicate IsActive(m: Message)
  {
    m.status == Active
  }

  /** The default timings and toggles. */
  lemma DefaultSettingsValues()
    ensures DefaultSettings.photoDuration == 10 && DefaultSettings.blankDuration == 3
    ensures DefaultSettings.scrollSpeed == 50 && DefaultSettings.messageFontSize == 48
    ensures !DefaultSettings.randomize && !DefaultSettings.randomizeAllPhotos
    ensures DefaultSettings.randomizeInPhotoGroups
    ensures DefaultSettings.displayPhotos && DefaultSettings.displayMessages
    ensures DefaultSettings.useBlankScreens && !DefaultSettings.monitorActivity
  {
  }

  /** Of the seed messages exactly one, the one with id 1, is active. */
  lemma InitialMessagesOneActive()
    ensures |InitialMessages| == 3
    ensures forall i :: 0 <= i < |InitialMessages| ==> (IsActive(InitialMessages[i]) <==> i == 0)
    ensures InitialMessages[0].id == 1
  {
  }

  /** The seed library: three categories with 2, 1 and 3 photos, ids 1 to 6 in order, every
      photo with an image reference. */
  lemma InitialPhotoGroupsShape()
    ensures |InitialPhotoGroups| == 3
    ensures InitialPhotoGroups[0].0 == "family" && |InitialPhotoGroups[0].1| == 2
    ensures InitialPhotoGroups[1].0 == "events" && |InitialPhotoGroups[1].1| == 1
    ensures InitialPhotoGroups[2].0 == "scenery" && |InitialPhotoGroups[2].1| == 3
    ensures InitialPhotoGroups[0].1[0].id == 1 && InitialPhotoGroups[0].1[1].id == 2
    ensures InitialPhotoGroups[1].1[0].id == 3
    ensures InitialPhotoGroups[2].1[0].id == 4 && InitialPhotoGroups[2].1[1].id == 5
    ensures InitialPhotoGroups[2].1[2].id == 6
    ensures forall g, k :: 0 <= g < |InitialPhotoGroups| && 0 <= k < |InitialPhotoGroups[g].1| ==>
      InitialPhotoGroups[g].1[k].src != ""
  {
  }
}
