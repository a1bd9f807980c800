/** The signed media id: base64url(payload || first 16 bytes of HMAC-SHA256(payload)). */
module MediaId {
  import opened Prelude
  import Base64Url

  /** HMAC (section 2 of RFC 2104) over SHA-256: any function with a 32-byte result stands for it. */
  type Hmac = f: (seq<byte>, seq<byte>) -> seq<byte> | forall k, m :: |f(k, m)| == 32 witness (k, m) => seq(32, i => 0)

  const TAG_SIZE: nat := 16

  /** mediaKindPhoto */
  const KIND_PHOTO: byte := 1

  datatype MediaRef = MediaRef(kind: byte, id: int64, accessHash: int64, fileRef: seq<byte>, thumbSize: seq<byte>)

  /** The length prefixes can hold the lengths. */
  predicate InBounds(r: MediaRef) {
    |r.fileRef| < 0x1_0000 && |r.thumbSize| < 0x100
  }

  function Pow256(n: nat): nat {
    if n == 0 then 1 else 256 * Pow256(n - 1)
  }

  /** The low `width` bytes of a number, most significant first. */
  function BigEndian(v: nat, width: nat): (bs: seq<byte>)
    ensures |bs| == width
  {
    if width == 0 then [] else BigEndian(v / 256, width - 1) + [v % 256]
  }

  function FromBigEndian(bs: seq<byte>): nat {
    if bs == [] then 0 else FromBigEndian(bs[..|bs| - 1]) * 256 + bs[|bs| - 1]
  }

  function ToUint64(n: int64): (u: nat)
    ensures u < TWO_TO_64
  {
    if n < 0 then n + TWO_TO_64 else n
  }

  function ToInt64(u: nat): int64
    requires u < TWO_TO_64
  {
    if u < TWO_TO_63 then u else u - TWO_TO_64
  }

  /** [kind:1][id:8][access_hash:8][fileref_len:2][fileref][size_len:1][size]; the lengths are truncated. */
  function Marshal(r: MediaRef): seq<byte> {
    [r.kind] + BigEndian(ToUint64(r.id), 8) + BigEndian(ToUint64(r.accessHash), 8)
    + BigEndian(|r.fileRef| % 0x1_0000, 2) + r.fileRef
    + [|r.thumbSize| % 0x100] + r.thumbSize
  }

  // ----- numbers

  lemma {:induction false} BigEndianInverse(v: nat, width: nat)
    requires v < Pow256(width)
    ensures FromBigEndian(BigEndian(v, width)) == v
  {
    if width > 0 {
      BigEndianInverse(v / 256, width - 1);
      assert BigEndian(v, width)[..width - 1] == BigEndian(v / 256, width - 1);
    }
  }

  lemma {:induction false} FromBigEndianInverse(bs: seq<byte>)
    ensures FromBigEndian(bs) < Pow256(|bs|)
    ensures BigEndian(FromBigEndian(bs), |bs|) == bs
  {
    if bs != [] {
      var n := |bs| - 1;
      FromBigEndianInverse(bs[..n]);
      assert bs == bs[..n] + [bs[n]];
    }
  }

  /** Byte i of a big-endian number of the given width, by weight. */
  lemma {:induction false} BigEndianByte(v: nat, width: nat, i: nat)
    requires i < width
    ensures Pow256(width - 1 - i) > 0 && BigEndian(v, width)[i] == v / Pow256(width - 1 - i) % 256
  {
    var rest := width - 1 - i;
    PowPositive(rest);
    if rest > 0 {
      BigEndianByte(v / 256, width - 1, i);
      PowPositive(rest - 1);
      DivDiv(v, Pow256(rest - 1));
    }
  }

  lemma {:induction false} PowPositive(n: nat)
    ensures Pow256(n) > 0
  {
    if n > 0 { PowPositive(n - 1); }
  }

  lemma DivDiv(v: nat, d: nat)
    requires d > 0
    ensures v / 256 / d == v / (256 * d)
  {
    var q, r := v / 256 / d, v / 256 % d;
    assert v / 256 == q * d + r;
    assert v == 256 * (q * d + r) + v % 256;
    assert v == q * (256 * d) + (256 * r + v % 256);
    assert 0 <= 256 * r + v % 256 < 256 * d;
    QuotientIs(v, 256 * d, q, 256 * r + v % 256);
  }

  lemma QuotientIs(v: nat, m: nat, q: nat, r: nat)
    requires m > 0 && r < m && v == q * m + r
    ensures v / m == q
  {
    assert v == v / m * m + v % m;
    assert (v / m - q) * m == r - v % m;
    AtLeastOnce(v / m - q, m);
  }

  lemma AtLeastOnce(d: int, m: nat)
    ensures d != 0 ==> d * m >= m || d * m + m <= 0
  {
  }

  lemma Pow256Values()
    ensures Pow256(1) == 0x100 && Pow256(2) == 0x1_0000 && Pow256(8) == TWO_TO_64
  {
    assert Pow256(3) == 0x100_0000 && Pow256(4) == 0x1_0000_0000;
    assert Pow256(5) == 0x100_0000_0000 && Pow256(6) == 0x1_0000_0000_0000;
    assert Pow256(7) == 0x100_0000_0000_0000;
  }

  /** Two's complement through eight big-endian bytes loses nothing, in both directions. */
  lemma Int64RoundTrip(n: int64)
    ensures ToInt64(ToUint64(n)) == n
    ensures FromBigEndian(BigEndian(ToUint64(n), 8)) == ToUint64(n)
  {
    Pow256Values();
    BigEndianInverse(ToUint64(n), 8);
  }

  // ----- the layout

  /** Where the fields are and what bytes they have. */
  lemma MarshalLayout(r: MediaRef)
    ensures var out, fr := Marshal(r), |r.fileRef|;
            && |out| == 20 + fr + |r.thumbSize|
            && out[0] == r.kind
            && out[1..9] == BigEndian(ToUint64(r.id), 8)
            && out[9..17] == BigEndian(ToUint64(r.accessHash), 8)
            && out[17] as int * 256 + out[18] == fr % 0x1_0000
            && out[19..19 + fr] == r.fileRef
            && out[19 + fr] == |r.thumbSize| % 0x100
            && out[20 + fr..] == r.thumbSize
  {
    var fr := |r.fileRef|;
    var id, hash, len := BigEndian(ToUint64(r.id), 8), BigEndian(ToUint64(r.accessHash), 8), BigEndian(fr % 0x1_0000, 2);
    TwoBytes(fr % 0x1_0000);
    hide BigEndian;
    var head := [r.kind] + id + hash;
    assert head[0] == r.kind && head[1..9] == id && head[9..17] == hash;
    var tail := [|r.thumbSize| % 0x100] + r.thumbSize;
    assert tail[1..] == r.thumbSize;
    var out := Marshal(r);
    assert out == head + (len + r.fileRef + tail);
    hide Marshal;
    LayoutOfParts(head, len, r.fileRef, tail);
  }

  lemma LayoutOfParts(head: seq<byte>, len: seq<byte>, fileRef: seq<byte>, tail: seq<byte>)
    requires |head| == 17 && |len| == 2 && |tail| >= 1
    ensures var out, fr := head + (len + fileRef + tail), |fileRef|;
            && out[0] == head[0] && out[1..9] == head[1..9] && out[9..17] == head[9..17]
            && out[17] == len[0] && out[18] == len[1]
            && out[19..19 + fr] == fileRef
            && out[19 + fr] == tail[0] && out[20 + fr..] == tail[1..]
  {
  }

  lemma TwoBytes(v: nat)
    ensures BigEndian(v, 2) == [v / 256 % 256, v % 256]
  {
    assert BigEndian(v / 256, 1) == BigEndian(v / 256 / 256, 0) + [v / 256 % 256];
  }

  /** Two in-bounds refs whose bytes start the same input are the same ref: marshalling is prefix-free. */
  lemma PrefixFree(q: MediaRef, r: MediaRef, b: seq<byte>)
    requires InBounds(q) && InBounds(r) && Marshal(q) <= b && Marshal(r) <= b
    ensures q == r
  {
    hide Marshal, BigEndian, FromBigEndian, ToUint64, ToInt64;
    MarshalLayout(q);
    MarshalLayout(r);
    var m, n := Marshal(q), Marshal(r);
    assert forall i :: 0 <= i < |m| && i < |n| ==> m[i] == b[i] == n[i];
    assert m[1..9] == n[1..9] && m[9..17] == n[9..17];
    Int64RoundTrip(q.id);
    Int64RoundTrip(r.id);
    Int64RoundTrip(q.accessHash);
    Int64RoundTrip(r.accessHash);
    assert |q.fileRef| == |r.fileRef|;
    assert |q.thumbSize| == |r.thumbSize|;
    assert m == n;
  }

  // ----- the code

  datatype ParseError = Truncated | TruncatedFileRef | TruncatedSize

  /** Appends field after field to a buffer. */
  method MarshalMediaRef(r: MediaRef) returns (out: seq<byte>)
    ensures out == Marshal(r)
  {
    hide BigEndian;
    out := [];
    out := out + [r.kind];
    var buf := BigEndian(ToUint64(r.id), 8);
    out := out + buf;
    buf := BigEndian(ToUint64(r.accessHash), 8);
    out := out + buf;
    var l := BigEndian(|r.fileRef| % 0x1_0000, 2);
    out := out + l;
    out := out + r.fileRef;
    out := out + [|r.thumbSize| % 0x100];
    out := out + r.thumbSize;
  }

  /**
   Exact acceptance: the payload parses to `r` if and only if it starts with the bytes of `r` and `r` is in
   bounds; trailing bytes are ignored. The cursor `b` is cut from the front as in the code.
   */
  method UnmarshalMediaRef(input: seq<byte>) returns (res: Result<MediaRef, ParseError>)
    ensures forall r :: res == Ok(r) <==> InBounds(r) && Marshal(r) <= input
    ensures res == Err(Truncated) <==> |input| < 19
    ensures res == Err(TruncatedFileRef) <==> |input| >= 19 && |input| < 20 + input[17] as int * 256 + input[18]
    ensures res == Err(TruncatedSize) <==>
              && |input| >= 19
              && var fr := input[17] as int * 256 + input[18]; |input| >= 20 + fr && |input| < 20 + fr + input[19 + fr] as int
  {
    if |input| < 1 + 8 + 8 + 2 {
      forall r ensures !(Marshal(r) <= input) { MarshalLayout(r); }
      return Err(Truncated);
    }
    var b := input;
    var kind := b[0];
    b := b[1..];
    assert b[..8] == input[1..9];
    var id := UintOf(b[..8]);
    b := b[8..];
    assert b == input[9..] && b[..8] == input[9..17];
    var hash := UintOf(b[..8]);
    b := b[8..];
    assert b == input[17..];
    var frLen := b[0] as int * 256 + b[1];
    b := b[2..];
    if |b| < frLen + 1 {
      forall r ensures !(InBounds(r) && Marshal(r) <= input) { NoRoomForFileRef(r, input); }
      return Err(TruncatedFileRef);
    }
    var fileRef := b[..frLen];
    b := b[frLen..];
    var szLen := b[0] as int;
    b := b[1..];
    if |b| < szLen {
      forall r ensures !(InBounds(r) && Marshal(r) <= input) { NoRoomForSize(r, input); }
      return Err(TruncatedSize);
    }
    assert b == input[20 + frLen..];
    var r := MediaRef(kind, ToInt64(id), ToInt64(hash), fileRef, b[..szLen]);
    Parsed(input, r);
    forall q ensures r == q <==> InBounds(q) && Marshal(q) <= input {
      if InBounds(q) && Marshal(q) <= input { PrefixFree(q, r, input); }
    }
    return Ok(r);
  }

  function UintOf(bs: seq<byte>): (u: nat)
    requires |bs| == 8
    ensures u < TWO_TO_64 && u == FromBigEndian(bs)
  {
    FromBigEndianInverse(bs);
    Pow256Values();
    FromBigEndian(bs)
  }

  lemma SameByte(a: seq<byte>, b: seq<byte>, i: nat)
    ensures a <= b && i < |a| ==> a[i] == b[i]
  {
  }

  lemma NoRoomForFileRef(r: MediaRef, input: seq<byte>)
    requires |input| >= 19 && |input| - 19 < input[17] as int * 256 + input[18] + 1
    ensures !(InBounds(r) && Marshal(r) <= input)
  {
    MarshalLayout(r);
    hide Marshal, BigEndian;
    SameByte(Marshal(r), input, 17);
    SameByte(Marshal(r), input, 18);
  }

  lemma NoRoomForSize(r: MediaRef, input: seq<byte>)
    requires |input| >= 19
    requires var fr := input[17] as int * 256 + input[18]; |input| >= 20 + fr && |input| - 20 - fr < input[19 + fr] as int
    ensures !(InBounds(r) && Marshal(r) <= input)
  {
    MarshalLayout(r);
    hide Marshal, BigEndian;
    SameByte(Marshal(r), input, 17);
    SameByte(Marshal(r), input, 18);
    SameByte(Marshal(r), input, 19 + |r.fileRef|);
  }

  /** What the cursor has read is the ref whose bytes start the input. */
  lemma Parsed(input: seq<byte>, r: MediaRef)
    requires |input| >= 19 && r.kind == input[0]
    requires r.id == ToInt64(UintOf(input[1..9])) && r.accessHash == ToInt64(UintOf(input[9..17]))
    requires var fr := input[17] as int * 256 + input[18];
             && |input| >= 20 + fr && r.fileRef == input[19..19 + fr]
             && |input| >= 20 + fr + input[19 + fr] as int
             && r.thumbSize == input[20 + fr..20 + fr + input[19 + fr] as int]
    ensures InBounds(r) && Marshal(r) <= input
  {
    hide FromBigEndian, BigEndian, Marshal, ToInt64, ToUint64;
    Int64Parsed(input[1..9], r.id);
    Int64Parsed(input[9..17], r.accessHash);
    TwoBytes(|r.fileRef|);
    assert BigEndian(|r.fileRef| % 0x1_0000, 2) == input[17..19];
    FieldsAreMarshal(input, r);
  }

  lemma Int64Parsed(bs: seq<byte>, v: int64)
    requires |bs| == 8 && v == ToInt64(UintOf(bs))
    ensures BigEndian(ToUint64(v), 8) == bs
  {
    FromBigEndianInverse(bs);
  }

  lemma FieldsAreMarshal(input: seq<byte>, r: MediaRef)
    requires var fr, size := |r.fileRef|, |r.thumbSize|;
             && |input| >= 20 + fr + size && size < 0x100
             && r.kind == input[0] && BigEndian(ToUint64(r.id), 8) == input[1..9]
             && BigEndian(ToUint64(r.accessHash), 8) == input[9..17] && BigEndian(fr % 0x1_0000, 2) == input[17..19]
             && r.fileRef == input[19..19 + fr] && size == input[19 + fr]
             && r.thumbSize == input[20 + fr..20 + fr + size]
    ensures Marshal(r) <= input
  {
    hide BigEndian, ToUint64;
    Pieces(input, |r.fileRef|, |r.thumbSize|);
  }

  lemma Pieces(input: seq<byte>, fr: nat, size: nat)
    requires |input| >= 20 + fr + size
    ensures input[..20 + fr + size] == [input[0]] + input[1..9] + input[9..17] + input[17..19]
                                       + input[19..19 + fr] + [input[19 + fr]] + input[20 + fr..20 + fr + size]
  {
  }

  // ----- the signed id

  function Tag(hmac: Hmac, key: seq<byte>, payload: seq<byte>): (t: seq<byte>)
    ensures |t| == TAG_SIZE
  {
    hmac(key, payload)[..TAG_SIZE]
  }

  function Encode(hmac: Hmac, key: seq<byte>, r: MediaRef): string {
    Base64Url.Encode(Marshal(r) + Tag(hmac, key, Marshal(r)))
  }

  /** The id is the text of a payload with its tag, and the payload starts with the bytes of `r`. */
  ghost predicate Denotes(hmac: Hmac, key: seq<byte>, s: string, r: MediaRef) {
    exists payload ::
      && InBounds(r) && Marshal(r) <= payload
      && Base64Url.Decode(s) == Some(payload + Tag(hmac, key, payload))
  }

  datatype DecodeError = NotBase64 | TooShort | BadSignature | Malformed(err: ParseError)

  method EncodeMediaID(hmac: Hmac, key: seq<byte>, ref: MediaRef) returns (s: string)
    ensures s == Encode(hmac, key, ref)
    ensures Base64Url.Decode(s) == Some(Marshal(ref) + hmac(key, Marshal(ref))[..16])
  {
    hide Marshal;
    var payload := MarshalMediaRef(ref);
    var tag := hmac(key, payload)[..TAG_SIZE];
    s := Base64Url.Encode(payload + tag);
    IdIsSigned(hmac, key, ref);
  }

  /** The id of a ref carries its bytes and the first 16 bytes of the HMAC of exactly these bytes. */
  lemma IdIsSigned(hmac: Hmac, key: seq<byte>, r: MediaRef)
    ensures Base64Url.Decode(Encode(hmac, key, r)) == Some(Marshal(r) + hmac(key, Marshal(r))[..16])
  {
    Base64Url.RoundTrip(Marshal(r) + Tag(hmac, key, Marshal(r)));
  }

  /** A payload with any other 16 bytes behind it denotes nothing: whoever changes the payload needs a new HMAC. */
  lemma ForgedIdDenotesNothing(hmac: Hmac, key: seq<byte>, s: string, payload: seq<byte>, tag: seq<byte>, r: MediaRef)
    requires Base64Url.Decode(s) == Some(payload + tag) && |tag| == 16 && tag != hmac(key, payload)[..16]
    ensures !Denotes(hmac, key, s, r)
  {
    hide Base64Url.Decode, Marshal, InBounds;
    SplitsOneWay(hmac, key, s, payload, tag);
  }

  lemma SplitsOneWay(hmac: Hmac, key: seq<byte>, s: string, payload: seq<byte>, tag: seq<byte>)
    requires Base64Url.Decode(s) == Some(payload + tag) && |tag| == 16
    ensures forall p :: Base64Url.Decode(s) == Some(p + Tag(hmac, key, p)) ==> p == payload && Tag(hmac, key, p) == tag
  {
    hide Base64Url.Decode;
    var raw := payload + tag;
    forall p | Base64Url.Decode(s) == Some(p + Tag(hmac, key, p)) ensures p == payload && Tag(hmac, key, p) == tag {
      assert raw[..|p|] == p && raw[|p|..] == Tag(hmac, key, p);
    }
  }

  /** The bytes of an id before its last 16, and these. */
  function Split(raw: seq<byte>): (parts: (seq<byte>, seq<byte>))
    requires |raw| >= 16
    ensures parts.0 + parts.1 == raw && |parts.1| == 16
  {
    (raw[..|raw| - 16], raw[|raw| - 16..])
  }

  /** Accepts exactly the ids that denote a ref, and returns that ref. */
  method DecodeMediaID(hmac: Hmac, key: seq<byte>, s: string) returns (res: Result<MediaRef, DecodeError>)
    ensures forall r :: res == Ok(r) <==> Denotes(hmac, key, s, r)
    ensures res == Err(NotBase64) <==> Base64Url.Decode(s).None?
    ensures res == Err(TooShort) <==> Base64Url.Decode(s).Some? && |Base64Url.Decode(s).value| < 17
    ensures res == Err(BadSignature) <==>
              && Base64Url.Decode(s).Some? && |Base64Url.Decode(s).value| >= 17
              && var (payload, tag) := Split(Base64Url.Decode(s).value); tag != hmac(key, payload)[..16]
    ensures forall r :: res == Ok(r) ==>
              && Base64Url.Decode(s).Some? && |Base64Url.Decode(s).value| >= 17
              && var (payload, tag) := Split(Base64Url.Decode(s).value);
                 tag == hmac(key, payload)[..16] && Marshal(r) <= payload && |r.fileRef| < 65536 && |r.thumbSize| < 256
  {
    hide Base64Url.Decode, Marshal;
    var decoded := Base64Url.Decode(s);
    if decoded.None? {
      return Err(NotBase64);
    }
    var raw := decoded.value;
    if |raw| < TAG_SIZE + 1 {
      forall r ensures !Denotes(hmac, key, s, r) {
        forall payload | Marshal(r) <= payload ensures |payload| >= 20 { MarshalLayout(r); }
      }
      return Err(TooShort);
    }
    var payload := raw[..|raw| - TAG_SIZE];
    var tag := raw[|raw| - TAG_SIZE..];
    assert raw == payload + tag;
    SplitsOneWay(hmac, key, s, payload, tag);
    if hmac(key, payload)[..TAG_SIZE] != tag {
      return Err(BadSignature);
    }
    forall r ensures Denotes(hmac, key, s, r) <==> InBounds(r) && Marshal(r) <= payload {
      if InBounds(r) && Marshal(r) <= payload {
        assert Base64Url.Decode(s) == Some(payload + Tag(hmac, key, payload));
      }
    }
    var parsed := UnmarshalMediaRef(payload);
    match parsed
    case Err(e) => res := Err(Malformed(e));
    case Ok(r) => res := Ok(r);
  }

  /** Round trip, with its exact condition: decoding gives back the ref just when it is in bounds. */
  lemma MediaIdRoundTrip(hmac: Hmac, key: seq<byte>, r: MediaRef)
    ensures Denotes(hmac, key, Encode(hmac, key, r), r) <==> InBounds(r)
  {
    Base64Url.RoundTrip(Marshal(r) + Tag(hmac, key, Marshal(r)));
    assert InBounds(r) ==> Marshal(r) <= Marshal(r);
  }

  /** An id denotes at most one ref. */
  lemma DenotesOne(hmac: Hmac, key: seq<byte>, s: string, q: MediaRef, r: MediaRef)
    requires Denotes(hmac, key, s, q) && Denotes(hmac, key, s, r)
    ensures q == r
  {
    hide Base64Url.Decode, Marshal, InBounds, Tag;
    var x :| InBounds(q) && Marshal(q) <= x && Base64Url.Decode(s) == Some(x + Tag(hmac, key, x));
    var y :| InBounds(r) && Marshal(r) <= y && Base64Url.Decode(s) == Some(y + Tag(hmac, key, y));
    assert x + Tag(hmac, key, x) == y + Tag(hmac, key, y) && |x| == |y|;
    assert (x + Tag(hmac, key, x))[..|x|] == x && (y + Tag(hmac, key, y))[..|y|] == y;
    PrefixFree(q, r, x);
  }

  /** Distinct in-bounds refs have distinct ids, and neither byte form is a prefix of the other. */
  lemma IdsInjective(hmac: Hmac, key: seq<byte>, q: MediaRef, r: MediaRef)
    requires InBounds(q) && InBounds(r) && q != r
    ensures Encode(hmac, key, q) != Encode(hmac, key, r)
    ensures !(Marshal(q) <= Marshal(r))
  {
    if Marshal(q) <= Marshal(r) {
      PrefixFree(q, r, Marshal(r));
    }
    MediaIdRoundTrip(hmac, key, q);
    MediaIdRoundTrip(hmac, key, r);
    if Encode(hmac, key, q) == Encode(hmac, key, r) {
      DenotesOne(hmac, key, Encode(hmac, key, q), q, r);
    }
  }

  /** Id strings are not unique: the id of any in-bounds ref with a newline at its end denotes the same ref. */
  lemma SecondId(hmac: Hmac, key: seq<byte>, r: MediaRef)
    requires InBounds(r)
    ensures var id := Encode(hmac, key, r);
            id + "\n" != id && Denotes(hmac, key, id, r) && Denotes(hmac, key, id + "\n", r)
  {
    var id := Encode(hmac, key, r);
    MediaIdRoundTrip(hmac, key, r);
    Base64Url.TrailingNewline(id);
    assert |id + "\n"| == |id| + 1;
  }

  /**
   Exactly these strings decode to the payload and tag of the id of `r`: those with its sextets, up to newlines
   and the surplus bits of the last character.
   */
  lemma SpellingsOfId(hmac: Hmac, key: seq<byte>, r: MediaRef, s: string)
    ensures Base64Url.Decode(Encode(hmac, key, r)).Some?
    ensures Base64Url.Decode(s) == Base64Url.Decode(Encode(hmac, key, r))
            <==> Base64Url.Decode(s).Some?
                 && Base64Url.Masked(Base64Url.Sextets(s)) == Base64Url.Sextets(Encode(hmac, key, r))
  {
    hide Marshal, Base64Url.Masked, Base64Url.Encode;
    var id := Encode(hmac, key, r);
    Base64Url.RoundTrip(Marshal(r) + Tag(hmac, key, Marshal(r)));
    Base64Url.CanonicalExactly(id);
    if Base64Url.Decode(s).Some? {
      Base64Url.DecodesAlike(s, id);
    }
  }

  /** Beyond the bounds the length wraps: with 65536 bytes the first of them is read as the next length. */
  lemma OversizedRefIsMisread(hmac: Hmac, key: seq<byte>, r: MediaRef)
    requires |r.fileRef| == 0x1_0000 && r.fileRef[0] == 0
    ensures !InBounds(r)
    ensures Denotes(hmac, key, Encode(hmac, key, r), r.(fileRef := [], thumbSize := []))
  {
    var q := r.(fileRef := [], thumbSize := []);
    Base64Url.RoundTrip(Marshal(r) + Tag(hmac, key, Marshal(r)));
    TwoBytes(0);
    hide BigEndian;
    var head := [r.kind] + BigEndian(ToUint64(r.id), 8) + BigEndian(ToUint64(r.accessHash), 8);
    var tail := [|r.thumbSize| % 0x100] + r.thumbSize;
    assert Marshal(q) == head + [0, 0, 0];
    assert Marshal(r) == head + ([0, 0] + r.fileRef + tail);
    hide Marshal;
    WrappedPrefix(head, r.fileRef, tail);
  }

  lemma WrappedPrefix(head: seq<byte>, fileRef: seq<byte>, tail: seq<byte>)
    requires fileRef != [] && fileRef[0] == 0
    ensures head + [0, 0, 0] <= head + ([0, 0] + fileRef + tail)
  {
    assert ([0, 0] + fileRef + tail)[..3] == [0, 0, 0];
  }
}
