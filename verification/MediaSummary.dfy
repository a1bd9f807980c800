/** What an event says about the media of a message: the smallest picture of a photo with its signed id, or the kind of a document. */
module MediaSummary {
  import opened Prelude
  import opened MediaId
  import Base64Url

  type int32 = n: int | -0x8000_0000 <= n < 0x8000_0000

  datatype PhotoSize =
    | PlainSize(kind: seq<byte>, w: int32, h: int32, size: int32)
    | ProgressiveSize(kind: seq<byte>, w: int32, h: int32, sizes: seq<int32>)
    | OtherSize

  datatype Photo = Photo(id: int64, accessHash: int64, fileRef: seq<byte>, sizes: seq<PhotoSize>)

  datatype Attribute = Audio | Video | Sticker | OtherAttribute

  datatype Document = Document(mime: string, size: int64, attributes: seq<Attribute>)

  datatype Media = MediaPhoto(photo: Option<Photo>) | MediaDocument(doc: Option<Document>) | OtherMedia

  datatype Summary = Summary(kind: string, mediaID: string, mime: string, size: int64, w: int, h: int)

  datatype Choice = Choice(kind: seq<byte>, w: int32, h: int32, bytes: int32)

  function Area(s: PhotoSize): int
    requires !s.OtherSize?
  {
    s.w * s.h
  }

  /** The choice of a size; a progressive one without sizes keeps the byte count of the choice before it. */
  function ChoiceOf(s: PhotoSize, before: Option<Choice>): Choice
    requires !s.OtherSize?
  {
    var stale: int32 := if before.Some? then before.value.bytes else 0;
    Choice(s.kind, s.w, s.h, if s.PlainSize? then s.size else if s.sizes != [] then s.sizes[0] else stale)
  }

  /** The smallest area so far, -1 at first, and the choice that goes with it. */
  function Picked(sizes: seq<PhotoSize>): (int, Option<Choice>) {
    if sizes == [] then (-1, None)
    else
      var before, s := Picked(sizes[..|sizes| - 1]), sizes[|sizes| - 1];
      if !s.OtherSize? && (before.0 < 0 || Area(s) < before.0) then (Area(s), Some(ChoiceOf(s, before.1))) else before
  }

  method PickSmallestPhotoSize(sizes: seq<PhotoSize>) returns (c: Option<Choice>)
    ensures c == Picked(sizes).1
  {
    hide Area;
    var bestPx := -1;
    c := None;
    for i := 0 to |sizes|
      invariant (bestPx, c) == Picked(sizes[..i])
    {
      assert sizes[..i + 1][..i] == sizes[..i];
      var s := sizes[i];
      if !s.OtherSize? {
        var px := Area(s);
        if bestPx < 0 || px < bestPx {
          bestPx := px;
          c := Some(ChoiceOf(s, c));
        }
      }
    }
    assert sizes[..|sizes|] == sizes;
  }

  /** One size is chosen when there is any, and with areas that are not negative it is the first of the smallest. */
  lemma {:induction false} PickedIsSmallest(sizes: seq<PhotoSize>) returns (i: nat)
    ensures Picked(sizes).1.Some? <==> exists k :: 0 <= k < |sizes| && !sizes[k].OtherSize?
    ensures Picked(sizes).1.Some? ==>
              && i < |sizes| && !sizes[i].OtherSize? && Picked(sizes).0 == Area(sizes[i])
              && Picked(sizes).1.value == ChoiceOf(sizes[i], Picked(sizes[..i]).1)
    ensures Picked(sizes).1.Some? && (forall k :: 0 <= k < |sizes| && !sizes[k].OtherSize? ==> Area(sizes[k]) >= 0) ==>
              && (forall k :: 0 <= k < |sizes| && !sizes[k].OtherSize? ==> Area(sizes[i]) <= Area(sizes[k]))
              && (forall k :: 0 <= k < i && !sizes[k].OtherSize? ==> Area(sizes[i]) < Area(sizes[k]))
    ensures Picked(sizes).1.None? ==> Picked(sizes).0 == -1
  {
    hide Area;
    i := 0;
    if sizes != [] {
      var n := |sizes| - 1;
      i := PickedIsSmallest(sizes[..n]);
      assert forall k :: 0 <= k < n ==> sizes[..n][k] == sizes[k];
      assert i < n ==> sizes[..n][..i] == sizes[..i];
      if Picked(sizes) != Picked(sizes[..n]) || Picked(sizes[..n]).1.None? {
        i := n;
      }
    }
  }

  /** The byte count of a size itself, 0 when it has none. */
  function OwnBytes(s: PhotoSize): int32
    requires !s.OtherSize?
  {
    if s.PlainSize? then s.size else if s.sizes != [] then s.sizes[0] else 0
  }

  /**
   The reported bytes are those of the chosen size if and only if it has some, or nothing with bytes had been
   chosen before it.
   */
  lemma BytesAreOwn(sizes: seq<PhotoSize>) returns (i: nat)
    requires Picked(sizes).1.Some?
    ensures i < |sizes| && !sizes[i].OtherSize? && Picked(sizes).1.value == ChoiceOf(sizes[i], Picked(sizes[..i]).1)
    ensures var before := Picked(sizes[..i]).1;
            Picked(sizes).1.value.bytes == OwnBytes(sizes[i])
            <==> !(sizes[i].ProgressiveSize? && sizes[i].sizes == []) || before.None? || before.value.bytes == 0
  {
    hide Picked;
    i := PickedIsSmallest(sizes);
  }

  /** A smallest size that is progressive without sizes is reported with the bytes of another picture. */
  lemma StaleBytes(a: seq<byte>, b: seq<byte>)
    ensures Picked([PlainSize(a, 10, 10, 500), ProgressiveSize(b, 5, 5, [])]).1 == Some(Choice(b, 5, 5, 500))
  {
    var s, p := PlainSize(a, 10, 10, 500), ProgressiveSize(b, 5, 5, []);
    assert [s, p][..1] == [s] && [s][..0] == [];
    assert Area(s) == 100 && Area(p) == 25;
    assert Picked([s]) == (100, Some(Choice(a, 10, 10, 500)));
  }

  /** The first telling attribute decides. */
  function Classify(attributes: seq<Attribute>): string {
    if attributes == [] then "document"
    else
      match attributes[0]
      case Audio => "voice"
      case Video => "video"
      case Sticker => "sticker"
      case OtherAttribute => Classify(attributes[1..])
  }

  method ClassifyDoc(attributes: seq<Attribute>) returns (kind: string)
    ensures kind == Classify(attributes)
  {
    for i := 0 to |attributes|
      invariant Classify(attributes) == Classify(attributes[i..])
    {
      assert attributes[i..][1..] == attributes[i + 1..];
      match attributes[i] {
        case Audio => return "voice";
        case Video => return "video";
        case Sticker => return "sticker";
        case OtherAttribute =>
      }
    }
    return "document";
  }

  function RefOf(p: Photo, c: Choice): MediaRef {
    MediaRef(KIND_PHOTO, p.id, p.accessHash, p.fileRef, c.kind)
  }

  function SummaryOf(hmac: Hmac, key: seq<byte>, m: Media): Summary {
    match m
    case MediaPhoto(None) => Summary("photo", "", "", 0, 0, 0)
    case MediaPhoto(Some(p)) =>
      var c := Picked(p.sizes).1;
      if c.None? then Summary("photo", "", "", 0, 0, 0)
      else Summary("photo", Encode(hmac, key, RefOf(p, c.value)), "image/jpeg", c.value.bytes, c.value.w, c.value.h)
    case MediaDocument(None) => Summary("document", "", "", 0, 0, 0)
    case MediaDocument(Some(d)) => Summary(Classify(d.attributes), "", d.mime, d.size, 0, 0)
    case OtherMedia => Summary("other", "", "", 0, 0, 0)
  }

  method SummarizeMedia(hmac: Hmac, key: seq<byte>, m: Media) returns (s: Summary)
    ensures s == SummaryOf(hmac, key, m)
  {
    hide Encode, Picked, Classify;
    match m {
      case MediaPhoto(photo) =>
        if photo.None? {
          return Summary("photo", "", "", 0, 0, 0);
        }
        var c := PickSmallestPhotoSize(photo.value.sizes);
        if c.None? {
          return Summary("photo", "", "", 0, 0, 0);
        }
        var id := EncodeMediaID(hmac, key, RefOf(photo.value, c.value));
        return Summary("photo", id, "image/jpeg", c.value.bytes, c.value.w, c.value.h);
      case MediaDocument(doc) =>
        if doc.None? {
          return Summary("document", "", "", 0, 0, 0);
        }
        var kind := ClassifyDoc(doc.value.attributes);
        return Summary(kind, "", doc.value.mime, doc.value.size, 0, 0);
      case OtherMedia =>
        return Summary("other", "", "", 0, 0, 0);
    }
  }

  /**
   A photo with a downloadable size is announced with an id, and that id denotes this photo and the chosen size if
   and only if the lengths of its file reference and of its size name fit.
   */
  lemma AnnouncedPhotoDecodes(hmac: Hmac, key: seq<byte>, p: Photo, c: Choice)
    requires Picked(p.sizes).1 == Some(c)
    ensures SummaryOf(hmac, key, MediaPhoto(Some(p))).mediaID != ""
    ensures Denotes(hmac, key, SummaryOf(hmac, key, MediaPhoto(Some(p))).mediaID,
                    MediaRef(1, p.id, p.accessHash, p.fileRef, c.kind))
            <==> |p.fileRef| < 65536 && |c.kind| < 256
  {
    hide Picked, Denotes, Encode;
    MediaIdRoundTrip(hmac, key, RefOf(p, c));
    IdNotEmpty(hmac, key, RefOf(p, c));
  }

  /** And with the type, dimensions and bytes of one of its own sizes, up to the bytes of one that has none. */
  lemma AnnouncedPhotoExactly(hmac: Hmac, key: seq<byte>, p: Photo) returns (i: nat)
    ensures var s := SummaryOf(hmac, key, MediaPhoto(Some(p)));
            if forall k :: 0 <= k < |p.sizes| ==> p.sizes[k].OtherSize? then s == Summary("photo", "", "", 0, 0, 0)
            else
              && i < |p.sizes| && !p.sizes[i].OtherSize?
              && s.kind == "photo" && s.mime == "image/jpeg" && s.w == p.sizes[i].w && s.h == p.sizes[i].h
              && ((forall k :: 0 <= k < |p.sizes| && !p.sizes[k].OtherSize? ==> p.sizes[k].w * p.sizes[k].h >= 0) ==>
                    forall k :: 0 <= k < |p.sizes| && !p.sizes[k].OtherSize? ==>
                      p.sizes[i].w * p.sizes[i].h <= p.sizes[k].w * p.sizes[k].h)
              && (p.sizes[i].PlainSize? ==> s.size == p.sizes[i].size)
              && (p.sizes[i].ProgressiveSize? && p.sizes[i].sizes != [] ==> s.size == p.sizes[i].sizes[0])
              && (|p.fileRef| < 65536 && |p.sizes[i].kind| < 256 ==>
                    Denotes(hmac, key, s.mediaID, MediaRef(1, p.id, p.accessHash, p.fileRef, p.sizes[i].kind)))
  {
    hide Picked, Denotes, Encode;
    i := PickedIsSmallest(p.sizes);
    if Picked(p.sizes).1.Some? {
      AnnouncedPhotoDecodes(hmac, key, p, Picked(p.sizes).1.value);
    }
  }

  /** A document is announced without an id: as what the first telling attribute says, with its type and size. */
  lemma AnnouncedDocumentExactly(hmac: Hmac, key: seq<byte>, d: Document) returns (i: nat)
    ensures var s, attrs := SummaryOf(hmac, key, MediaDocument(Some(d))), d.attributes;
            && s.mediaID == "" && s.mime == d.mime && s.size == d.size && s.w == s.h == 0
            && i <= |attrs| && (forall k :: 0 <= k < i ==> attrs[k].OtherAttribute?)
            && (i == |attrs| ==> s.kind == "document")
            && (i < |attrs| ==>
                  || (attrs[i].Audio? && s.kind == "voice") || (attrs[i].Video? && s.kind == "video")
                  || (attrs[i].Sticker? && s.kind == "sticker"))
  {
    i := FirstTelling(d.attributes);
  }

  lemma {:induction false} FirstTelling(attrs: seq<Attribute>) returns (i: nat)
    ensures i <= |attrs| && forall k :: 0 <= k < i ==> attrs[k].OtherAttribute?
    ensures i == |attrs| ==> Classify(attrs) == "document"
    ensures i < |attrs| ==>
              || (attrs[i].Audio? && Classify(attrs) == "voice") || (attrs[i].Video? && Classify(attrs) == "video")
              || (attrs[i].Sticker? && Classify(attrs) == "sticker")
  {
    i := 0;
    if attrs != [] && attrs[0].OtherAttribute? {
      var j := FirstTelling(attrs[1..]);
      i := j + 1;
      assert forall k :: 0 < k < i ==> attrs[k] == attrs[1..][k - 1];
    }
  }

  /** Other media are announced as such, and a photo or document that is gone by its kind alone. */
  lemma AnnouncedOthersExactly(hmac: Hmac, key: seq<byte>)
    ensures SummaryOf(hmac, key, MediaPhoto(None)) == Summary("photo", "", "", 0, 0, 0)
    ensures SummaryOf(hmac, key, MediaDocument(None)) == Summary("document", "", "", 0, 0, 0)
    ensures SummaryOf(hmac, key, OtherMedia) == Summary("other", "", "", 0, 0, 0)
  {
  }

  lemma IdNotEmpty(hmac: Hmac, key: seq<byte>, r: MediaRef)
    ensures Encode(hmac, key, r) != ""
  {
    hide Marshal, Base64Url.Encode;
    MarshalLayout(r);
    Base64Url.RoundTrip(Marshal(r) + Tag(hmac, key, Marshal(r)));
  }
}
