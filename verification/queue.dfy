/** The display screen's playlist builder (the load effect of `src/components/display-board.tsx`):
    photos, then active messages, each with a duration in milliseconds, optionally shuffled as a
    whole, with blank interstitials between consecutive items. */
module Queue {
  import opened Data
  import Seqs
  import Text
  import Groups
  import Shuffle

  /** One entry of the playlist.  Every variant carries its display time in milliseconds. */
  datatype DisplayItem =
    | PhotoItem(src: string, alt: string, aiHint: string, duration: int)
    | MessageItem(text: string, fontSize: int, duration: int)
    | BlankItem(duration: int)

  /** `p && p.src`: a photo is shown only if it has an image reference. */
  predicate HasImage(p: Photo)
  {
    p.src != ""
  }

  predicate IsPhotoItem(d: DisplayItem) { d.PhotoItem? }
  predicate IsMessageItem(d: DisplayItem) { d.MessageItem? }
  predicate IsBlank(d: DisplayItem) { d.BlankItem? }

  /** `(photoDuration || 10) * 1000`: zero falls back to ten seconds; any other setting, negative
      ones included, is taken in seconds. */
  function PhotoDurationMs(s: Settings): (ms: int)
    ensures s.photoDuration == 0 ==> ms == 10000
    ensures s.photoDuration != 0 ==> ms == 1000 * s.photoDuration
    ensures ms > 0 <==> s.photoDuration >= 0
  {
    (if s.photoDuration == 0 then 10 else s.photoDuration) * 1000
  }

  /** `(pieces * 0.5 + 5) * 1000 * ((150 - scrollSpeed) / 50) * 2`, in exact integer form. */
  function MessageDurationMs(text: string, scrollSpeed: int): int
  {
    20 * (Text.SplitPieces(text) + 10) * (150 - scrollSpeed)
  }

  /** The integer form equals the source's formula evaluated exactly, and it is positive for
      every scroll speed below 150; the settings slider's range 0..100 gives at least 11 seconds. */
  lemma MessageDurationFormula(text: string, scrollSpeed: int)
    ensures var pieces := Text.SplitPieces(text) as real;
      MessageDurationMs(text, scrollSpeed) as real
        == (pieces * 0.5 + 5.0) * 1000.0 * (((150 - scrollSpeed) as real) / 50.0) * 2.0
    ensures scrollSpeed < 150 ==> MessageDurationMs(text, scrollSpeed) > 0
    ensures 0 <= scrollSpeed <= 100 ==> MessageDurationMs(text, scrollSpeed) >= 11000
  {
    var n := Text.SplitPieces(text);
    var f := 150 - scrollSpeed;
    var pieces := n as real;
    calc {
      (pieces * 0.5 + 5.0) * 1000.0 * ((f as real) / 50.0) * 2.0;
      (pieces + 10.0) * 500.0 * ((f as real) / 50.0) * 2.0;
      (pieces + 10.0) * (f as real) * 20.0;
      ((n + 10) * f * 20) as real;
    }
    assert MessageDurationMs(text, scrollSpeed) == (n + 10) * f * 20;
    if 0 <= scrollSpeed <= 100 {
      assert f >= 50 && n + 10 >= 11;
      MulMonotone(n + 10, 11, f, 50);
    }
    if scrollSpeed < 150 {
      MulMonotone(n + 10, 1, f, 1);
    }
  }

  lemma MulMonotone(a: int, a0: int, b: int, b0: int)
    requires a >= a0 >= 0 && b >= b0 >= 0
    ensures a * b >= a0 * b0
  {
  }

  /** The worked example: the four-word text "Welcome to our facility." at the default speed 50
      shows for (4 * 0.5 + 5) * 1000 * 2 * 2 = 28000 ms. */
  lemma WelcomeMessageDuration()
    ensures MessageDurationMs("Welcome to our facility.", 50) == 28000
  {
    var words := ["Welcome", "to", "our", "facility."];
    assert Text.JoinWords(words) == "Welcome to our facility.";
    Text.JoinWordsPieces(words);
  }

  function PhotoToItem(s: Settings, p: Photo): DisplayItem
  {
    PhotoItem(p.src, p.alt, p.aiHint, PhotoDurationMs(s))
  }

  function MessageToItem(s: Settings, m: Message): DisplayItem
  {
    MessageItem(m.content, s.messageFontSize, MessageDurationMs(m.content, s.scrollSpeed))
  }

  /** The entries of a list of photos, in order. */
  function PhotoItems(s: Settings, photos: seq<Photo>): seq<DisplayItem>
  {
    Seqs.Map((p: Photo) => PhotoToItem(s, p), photos)
  }

  /** The entries of a list of messages, in order. */
  function MessageItems(s: Settings, messages: seq<Message>): seq<DisplayItem>
  {
    Seqs.Map((m: Message) => MessageToItem(s, m), messages)
  }

  /** Category order with each category's photos kept together; with `inGroup` each category is
      shuffled on its own, consuming draws from number `k` on.  Returns the blocks and the number
      of the next unused draw. */
  function GroupedPhotos(groups: PhotoGroups, inGroup: bool, draws: Shuffle.Draws, k: nat)
    : (r: (seq<seq<Photo>>, nat))
    ensures |r.0| == |groups|
    ensures forall i :: 0 <= i < |groups| ==> multiset(r.0[i]) == multiset(groups[i].1)
    ensures !inGroup ==> r.0 == Groups.Values(groups)
    decreases |groups|
  {
    if |groups| == 0 then ([], k)
    else
      var first := groups[0].1;
      var block := if inGroup then Shuffle.Shuffled(first, draws, k) else first;
      var next := if inGroup then k + Shuffle.DrawsUsed(|first|) else k;
      var rest := GroupedPhotos(groups[1..], inGroup, draws, next);
      assert Groups.Values(groups) == [first] + Groups.Values(groups[1..]);
      ([block] + rest.0, rest.1)
  }

  /** Step 1 of the builder: the photos to show and the next unused draw. */
  function SelectPhotos(groups: PhotoGroups, s: Settings, draws: Shuffle.Draws, k: nat): (r: (seq<Photo>, nat))
  {
    if !s.displayPhotos || |groups| == 0 then ([], k)
    else if s.randomizeAllPhotos then
      var candidates := Seqs.Filter(HasImage, Groups.AllPhotos(groups));
      (Seqs.Filter(HasImage, Shuffle.Shuffled(candidates, draws, k)), k + Shuffle.DrawsUsed(|candidates|))
    else
      var grouped := GroupedPhotos(groups, s.randomizeInPhotoGroups, draws, k);
      (Seqs.Filter(HasImage, Seqs.Flatten(grouped.0)), grouped.1)
  }

  /** The shown photos are exactly the library's photos that have an image (as a multiset); there
      are none unless photos are enabled and some category exists; without any photo shuffling
      they come in library order. */
  lemma SelectPhotosContents(groups: PhotoGroups, s: Settings, draws: Shuffle.Draws, k: nat)
    ensures var photos := SelectPhotos(groups, s, draws, k).0;
      && (forall i :: 0 <= i < |photos| ==> HasImage(photos[i]))
      && (!s.displayPhotos || |groups| == 0 ==> photos == [])
      && (s.displayPhotos && |groups| > 0 ==>
            multiset(photos) == multiset(Seqs.Filter(HasImage, Groups.AllPhotos(groups))))
      && (s.displayPhotos && !s.randomizeAllPhotos && !s.randomizeInPhotoGroups ==>
            photos == Seqs.Filter(HasImage, Groups.AllPhotos(groups)))
  {
    if s.displayPhotos && |groups| > 0 {
      var candidates := Seqs.Filter(HasImage, Groups.AllPhotos(groups));
      if s.randomizeAllPhotos {
        var shuffled := Shuffle.Shuffled(candidates, draws, k);
        Seqs.FilterMembers(HasImage, shuffled);
        Seqs.FilterPermutation(HasImage, shuffled, candidates);
        Seqs.FilterIdempotent(HasImage, Groups.AllPhotos(groups));
      } else {
        var grouped := GroupedPhotos(groups, s.randomizeInPhotoGroups, draws, k);
        Seqs.FilterMembers(HasImage, Seqs.Flatten(grouped.0));
        Seqs.FlattenPermutation(grouped.0, Groups.Values(groups));
        Seqs.FilterPermutation(HasImage, Seqs.Flatten(grouped.0), Groups.AllPhotos(groups));
      }
    }
  }

  /** Without whole-library shuffling the shown photos are the categories' blocks in category
      order: block `i` is category `i` (shuffled within itself if so configured) with its
      image-less photos dropped, so one category's photos are never split up. */
  lemma SelectPhotosBlocks(groups: PhotoGroups, s: Settings, draws: Shuffle.Draws, k: nat)
    requires s.displayPhotos && |groups| > 0 && !s.randomizeAllPhotos
    ensures var blocks := GroupedPhotos(groups, s.randomizeInPhotoGroups, draws, k).0;
      SelectPhotos(groups, s, draws, k).0
        == Seqs.Flatten(Seqs.Map((b: seq<Photo>) => Seqs.Filter(HasImage, b), blocks))
  {
    var blocks := GroupedPhotos(groups, s.randomizeInPhotoGroups, draws, k).0;
    Seqs.FilterFlatten(HasImage, blocks);
  }

  /** Step 2: the active messages, in stored order, when messages are enabled. */
  function SelectMessages(messages: seq<Message>, s: Settings): seq<Message>
  {
    if s.displayMessages then Seqs.Filter(IsActive, messages) else []
  }

  /** Steps 1 to 3 unshuffled: photo items, then message items. */
  function Unshuffled(messages: seq<Message>, groups: PhotoGroups, s: Settings, draws: Shuffle.Draws): seq<DisplayItem>
  {
    PhotoItems(s, SelectPhotos(groups, s, draws, 0).0) + MessageItems(s, SelectMessages(messages, s))
  }

  /** Steps 1 to 4: the content list, shuffled as a whole when `randomize` is set.  The draws of
      a session are numbered from 0 in the order the source calls `Math.random`. */
  function Content(messages: seq<Message>, groups: PhotoGroups, s: Settings, draws: Shuffle.Draws): (c: seq<DisplayItem>)
    ensures multiset(c) == multiset(Unshuffled(messages, groups, s, draws))
    ensures !s.randomize ==> c == Unshuffled(messages, groups, s, draws)
  {
    var items := Unshuffled(messages, groups, s, draws);
    if s.randomize then Shuffle.Shuffled(items, draws, SelectPhotos(groups, s, draws, 0).1) else items
  }

  /** `(blankDuration || 3) * 1000`. */
  function BlankDurationMs(s: Settings): int
  {
    (if s.blankDuration == 0 then 3 else s.blankDuration) * 1000
  }

  /** Step 5: `blank` after every item but the last. */
  function InsertBlanks(c: seq<DisplayItem>, blank: DisplayItem): (q: seq<DisplayItem>)
    ensures |q| == if |c| == 0 then 0 else 2 * |c| - 1
    decreases |c|
  {
    if |c| <= 1 then c else [c[0], blank] + InsertBlanks(c[1..], blank)
  }

  /** Content sits at the even positions, in content order, and `blank` at the odd ones. */
  lemma {:induction false} InsertBlanksAt(c: seq<DisplayItem>, blank: DisplayItem, i: nat)
    requires i < |InsertBlanks(c, blank)|
    ensures InsertBlanks(c, blank)[i] == if i % 2 == 0 then c[i / 2] else blank
    decreases |c|
  {
    if |c| > 1 && i >= 2 {
      InsertBlanksAt(c[1..], blank, i - 2);
    }
  }

  /** `useBlankScreens && blankDuration > 0`. */
  predicate BlanksOn(s: Settings)
  {
    s.useBlankScreens && s.blankDuration > 0
  }

  /** Step 5 as configured: blanks inserted when they are on. */
  function WithBlanks(c: seq<DisplayItem>, s: Settings): seq<DisplayItem>
  {
    if BlanksOn(s) then InsertBlanks(c, BlankItem(BlankDurationMs(s))) else c
  }

  /** The whole builder: the playlist for one viewing session. */
  function BuildQueue(messages: seq<Message>, groups: PhotoGroups, s: Settings, draws: Shuffle.Draws): seq<DisplayItem>
  {
    WithBlanks(Content(messages, groups, s, draws), s)
  }

  /** The content list has no blanks. */
  lemma ContentHasNoBlank(messages: seq<Message>, groups: PhotoGroups, s: Settings, draws: Shuffle.Draws)
    ensures forall i :: 0 <= i < |Content(messages, groups, s, draws)| ==> !IsBlank(Content(messages, groups, s, draws)[i])
  {
    var u := Unshuffled(messages, groups, s, draws);
    var c := Content(messages, groups, s, draws);
    Seqs.PermutationMembers(c, u);
  }

  /** Dropping the blanks from `InsertBlanks(c, blank)` gives back `c` when `c` has none. */
  lemma {:induction false} RemoveBlanksAfterInsert(c: seq<DisplayItem>, blank: DisplayItem)
    requires IsBlank(blank)
    requires forall i :: 0 <= i < |c| ==> !IsBlank(c[i])
    ensures Seqs.Filter((d: DisplayItem) => !IsBlank(d), InsertBlanks(c, blank)) == c
    decreases |c|
  {
    var keep := (d: DisplayItem) => !IsBlank(d);
    if |c| <= 1 {
      Seqs.FilterAll(keep, c);
    } else {
      RemoveBlanksAfterInsert(c[1..], blank);
      var rest := InsertBlanks(c[1..], blank);
      Seqs.FilterAppend(keep, [c[0], blank], rest);
      assert Seqs.Filter(keep, [c[0], blank]) == [c[0]] by {
        assert [c[0], blank][..1] == [c[0]];
        Seqs.FilterAll(keep, [c[0]]);
      }
    }
  }

  /** A filter that drops blanks sees the same thing before and after the blanks are inserted. */
  lemma {:induction false} FilterIgnoresBlanks(keep: DisplayItem -> bool, c: seq<DisplayItem>, blank: DisplayItem)
    requires !keep(blank)
    ensures Seqs.Filter(keep, InsertBlanks(c, blank)) == Seqs.Filter(keep, c)
    decreases |c|
  {
    if |c| > 1 {
      FilterIgnoresBlanks(keep, c[1..], blank);
      Seqs.FilterAppend(keep, [c[0], blank], InsertBlanks(c[1..], blank));
      Seqs.FilterAppend(keep, [c[0]], c[1..]);
      assert [c[0], blank][..1] == [c[0]];
      assert [c[0]] + c[1..] == c;
    }
  }

  /** The interleaving shape of step 5 on a blank-free content list. */
  lemma InsertBlanksShape(c: seq<DisplayItem>, blank: DisplayItem)
    requires IsBlank(blank) && |c| > 0
    requires forall i :: 0 <= i < |c| ==> !IsBlank(c[i])
    ensures var q := InsertBlanks(c, blank);
      && !IsBlank(q[0]) && !IsBlank(q[|q| - 1])
      && (forall i :: 0 <= i < |q| ==> (IsBlank(q[i]) <==> i % 2 == 1))
      && (forall i :: 0 <= i < |q| && i % 2 == 1 ==> q[i] == blank)
      && Seqs.Filter((d: DisplayItem) => !IsBlank(d), q) == c
  {
    var q := InsertBlanks(c, blank);
    forall i | 0 <= i < |q|
      ensures (IsBlank(q[i]) <==> i % 2 == 1) && (i % 2 == 1 ==> q[i] == blank)
    {
      InsertBlanksAt(c, blank, i);
    }
    assert (|q| - 1) % 2 == 0;
    RemoveBlanksAfterInsert(c, blank);
  }

  /** The interleaving shape of step 5 as configured, for a blank-free content list `c`. */
  predicate Shaped(c: seq<DisplayItem>, q: seq<DisplayItem>, s: Settings)
  {
    && (c == [] ==> q == [])
    && (!BlanksOn(s) ==> q == c)
    && (BlanksOn(s) && |c| > 0 ==>
          && |q| == 2 * |c| - 1
          && !IsBlank(q[0]) && !IsBlank(q[|q| - 1])
          && (forall i :: 0 <= i < |q| ==> (IsBlank(q[i]) <==> i % 2 == 1))
          && (forall i :: 0 <= i < |q| && i % 2 == 1 ==> q[i] == BlankItem(1000 * s.blankDuration))
          && Seqs.Filter((d: DisplayItem) => !IsBlank(d), q) == c)
  }

  lemma WithBlanksShape(c: seq<DisplayItem>, s: Settings)
    requires forall i :: 0 <= i < |c| ==> !IsBlank(c[i])
    ensures Shaped(c, WithBlanks(c, s), s)
  {
    if BlanksOn(s) && |c| > 0 {
      InsertBlanksShape(c, BlankItem(BlankDurationMs(s)));
    }
  }

  /** The interleaving shape: with blanks on and `n >= 1` content items the queue has `2n - 1`
      entries, content at even positions in content order, a blank of `blankDuration` seconds at
      odd ones, so it never starts or ends with a blank and dropping the blanks gives back the
      content; with blanks off the queue is the content; no content means an empty queue. */
  lemma QueueShape(messages: seq<Message>, groups: PhotoGroups, s: Settings, draws: Shuffle.Draws)
    ensures Shaped(Content(messages, groups, s, draws), BuildQueue(messages, groups, s, draws), s)
  {
    ContentHasNoBlank(messages, groups, s, draws);
    WithBlanksShape(Content(messages, groups, s, draws), s);
  }

  /** Every photo entry has an image reference and the photo duration. */
  predicate PhotoItemsOk(q: seq<DisplayItem>, ms: int)
  {
    forall i :: 0 <= i < |q| && IsPhotoItem(q[i]) ==> q[i].src != "" && q[i].duration == ms
  }

  lemma PhotoItemsOkPermutation(a: seq<DisplayItem>, b: seq<DisplayItem>, ms: int)
    requires multiset(a) == multiset(b) && PhotoItemsOk(b, ms)
    ensures PhotoItemsOk(a, ms)
  {
    Seqs.PermutationMembers(a, b);
  }

  lemma PhotoItemsOkInsertBlanks(c: seq<DisplayItem>, blank: DisplayItem, ms: int)
    requires IsBlank(blank) && PhotoItemsOk(c, ms)
    ensures PhotoItemsOk(InsertBlanks(c, blank), ms)
  {
    var q := InsertBlanks(c, blank);
    forall i | 0 <= i < |q| && IsPhotoItem(q[i])
      ensures q[i].src != "" && q[i].duration == ms
    {
      InsertBlanksAt(c, blank, i);
    }
  }

  lemma ItemsPhotoItems(s: Settings, photos: seq<Photo>, messages: seq<Message>)
    requires forall i :: 0 <= i < |photos| ==> HasImage(photos[i])
    ensures PhotoItemsOk(PhotoItems(s, photos) + MessageItems(s, messages), PhotoDurationMs(s))
    ensures photos == [] ==> forall i :: 0 <= i < |PhotoItems(s, photos) + MessageItems(s, messages)| ==>
      !IsPhotoItem((PhotoItems(s, photos) + MessageItems(s, messages))[i])
  {
  }

  lemma UnshuffledPhotoItems(messages: seq<Message>, groups: PhotoGroups, s: Settings, draws: Shuffle.Draws)
    ensures PhotoItemsOk(Unshuffled(messages, groups, s, draws), PhotoDurationMs(s))
    ensures !s.displayPhotos || |groups| == 0 ==>
      forall i :: 0 <= i < |Unshuffled(messages, groups, s, draws)| ==> !IsPhotoItem(Unshuffled(messages, groups, s, draws)[i])
  {
    SelectPhotosContents(groups, s, draws, 0);
    ItemsPhotoItems(s, SelectPhotos(groups, s, draws, 0).0, SelectMessages(messages, s));
  }

  /** Every photo entry of the queue has an image reference and shows for
      `(photoDuration || 10) * 1000` ms; there are none unless photos are enabled and the library
      has a category. */
  lemma QueuePhotoItems(messages: seq<Message>, groups: PhotoGroups, s: Settings, draws: Shuffle.Draws)
    ensures PhotoItemsOk(BuildQueue(messages, groups, s, draws), PhotoDurationMs(s))
    ensures !s.displayPhotos || |groups| == 0 ==>
      forall i :: 0 <= i < |BuildQueue(messages, groups, s, draws)| ==> !IsPhotoItem(BuildQueue(messages, groups, s, draws)[i])
  {
    var u := Unshuffled(messages, groups, s, draws);
    var c := Content(messages, groups, s, draws);
    var q := BuildQueue(messages, groups, s, draws);
    var blank := BlankItem(BlankDurationMs(s));
    UnshuffledPhotoItems(messages, groups, s, draws);
    PhotoItemsOkPermutation(c, u, PhotoDurationMs(s));
    if BlanksOn(s) {
      PhotoItemsOkInsertBlanks(c, blank, PhotoDurationMs(s));
    }
    if !s.displayPhotos || |groups| == 0 {
      Seqs.PermutationMembers(c, u);
      if BlanksOn(s) {
        forall i | 0 <= i < |q|
          ensures !IsPhotoItem(q[i])
        {
          InsertBlanksAt(c, blank, i);
        }
      }
    }
  }

  lemma ItemsMessageItems(s: Settings, photos: seq<Photo>, messages: seq<Message>)
    ensures Seqs.Filter(IsMessageItem, PhotoItems(s, photos) + MessageItems(s, messages)) == MessageItems(s, messages)
  {
    Seqs.FilterAppend(IsMessageItem, PhotoItems(s, photos), MessageItems(s, messages));
    Seqs.FilterNone(IsMessageItem, PhotoItems(s, photos));
    Seqs.FilterAll(IsMessageItem, MessageItems(s, messages));
  }

  lemma UnshuffledMessageItems(messages: seq<Message>, groups: PhotoGroups, s: Settings, draws: Shuffle.Draws)
    ensures Seqs.Filter(IsMessageItem, Unshuffled(messages, groups, s, draws))
      == MessageItems(s, SelectMessages(messages, s))
  {
    ItemsMessageItems(s, SelectPhotos(groups, s, draws, 0).0, SelectMessages(messages, s));
  }

  /** The message entries of the queue are the active messages, each shown with the configured
      font size and its text-length duration: in stored order when `randomize` is off, as a
      multiset when it is on; none when messages are disabled.  No schedule is consulted. */
  lemma QueueMessageItems(messages: seq<Message>, groups: PhotoGroups, s: Settings, draws: Shuffle.Draws)
    ensures var shown := Seqs.Filter(IsMessageItem, BuildQueue(messages, groups, s, draws));
      var expected := MessageItems(s, SelectMessages(messages, s));
      && (!s.randomize ==> shown == expected)
      && multiset(shown) == multiset(expected)
  {
    var c := Content(messages, groups, s, draws);
    var u := Unshuffled(messages, groups, s, draws);
    if BlanksOn(s) {
      FilterIgnoresBlanks(IsMessageItem, c, BlankItem(BlankDurationMs(s)));
    }
    UnshuffledMessageItems(messages, groups, s, draws);
    Seqs.FilterPermutation(IsMessageItem, c, u);
  }

  /** With every kind of shuffling off the playlist does not depend on the random draws: building
      it twice gives the same order and durations. */
  lemma DeterministicWithoutShuffling(messages: seq<Message>, groups: PhotoGroups, s: Settings, d1: Shuffle.Draws, d2: Shuffle.Draws)
    requires !s.randomize && !s.randomizeAllPhotos && !s.randomizeInPhotoGroups
    ensures BuildQueue(messages, groups, s, d1) == BuildQueue(messages, groups, s, d2)
  {
    SelectPhotosContents(groups, s, d1, 0);
    SelectPhotosContents(groups, s, d2, 0);
  }
}
