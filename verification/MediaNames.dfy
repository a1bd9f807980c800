/** File names of the media cache: hashed keys, extensions and the mime types they stand for. */
module MediaNames {
  import opened Prelude

  /** SHA-256 is not computed here: any function with a 32-byte result stands for it. */
  type Sha256 = f: string -> seq<byte> | forall s :: |f(s)| == 32 witness s => seq(32, i => 0)

  const HEX_DIGITS := "0123456789abcdef"

  function HexEncode(bs: seq<byte>): (h: string)
    ensures |h| == 2 * |bs|
    ensures forall i :: 0 <= i < |h| ==> h[i] in HEX_DIGITS
  {
    if bs == [] then "" else HexByte(bs[0]) + HexEncode(bs[1..])
  }

  function HexByte(b: byte): string {
    [HEX_DIGITS[b / 16], HEX_DIGITS[b % 16]]
  }

  function CacheKey(sha256: Sha256, mediaID: string): string {
    HexEncode(sha256(mediaID)[..10])
  }

  /** Index of the last dot, -1 when there is none. */
  function LastDot(name: string): (d: int)
    ensures -1 <= d < |name|
    ensures d >= 0 ==> name[d] == '.'
    ensures forall i :: d < i < |name| ==> name[i] != '.'
  {
    if name == "" then -1
    else if name[|name| - 1] == '.' then |name| - 1
    else LastDot(name[..|name| - 1])
  }

  /** filepath.Ext on a name without separators. */
  function Ext(name: string): string {
    if LastDot(name) < 0 then "" else name[LastDot(name)..]
  }

  /** The name without its extension. */
  function Stem(name: string): string {
    name[..|name| - |Ext(name)|]
  }

  predicate IsTemp(name: string) {
    |name| >= 4 && name[|name| - 4..] == ".tmp"
  }

  /** The extensions that extFromMime produces. */
  const OWN_EXTENSIONS := {".jpg", ".png", ".webp", ".gif", ".bin"}

  function ExtFromMime(mime: string): (ext: string)
    ensures ext in OWN_EXTENSIONS
  {
    match mime
    case "image/jpeg" => ".jpg"
    case "image/png" => ".png"
    case "image/webp" => ".webp"
    case "image/gif" => ".gif"
    case _ => ".bin"
  }

  function LowerChar(c: char): char {
    if 'A' <= c <= 'Z' then c - 'A' + 'a' else c
  }

  function ToLower(s: string): string {
    seq(|s|, i requires 0 <= i < |s| => LowerChar(s[i]))
  }

  function MimeFromExt(ext: string): string {
    match ToLower(ext)
    case ".jpg" => "image/jpeg"
    case ".jpeg" => "image/jpeg"
    case ".png" => "image/png"
    case ".webp" => "image/webp"
    case ".gif" => "image/gif"
    case _ => "application/octet-stream"
  }

  /** Equal cache keys mean equal digests in their first 10 bytes, nothing less. */
  lemma CacheKeyInjective(sha256: Sha256, a: string, b: string)
    ensures CacheKey(sha256, a) == CacheKey(sha256, b) <==> sha256(a)[..10] == sha256(b)[..10]
  {
    if CacheKey(sha256, a) == CacheKey(sha256, b) {
      HexInjective(sha256(a)[..10], sha256(b)[..10]);
    }
  }

  lemma {:induction false} HexInjective(a: seq<byte>, b: seq<byte>)
    requires HexEncode(a) == HexEncode(b)
    ensures a == b
  {
    if a != [] {
      assert |b| == |a|;
      var x, y := HexEncode(a[1..]), HexEncode(b[1..]);
      assert HexEncode(a) == HexByte(a[0]) + x && HexEncode(b) == HexByte(b[0]) + y;
      hide HexEncode;
      SameSplit(HexByte(a[0]), x, HexByte(b[0]), y);
      HexByteInjective(a[0], b[0]);
      HexInjective(a[1..], b[1..]);
      assert a == [a[0]] + a[1..] && b == [b[0]] + b[1..];
    }
  }

  lemma SameSplit(a: string, x: string, b: string, y: string)
    requires |a| == |b| && a + x == b + y
    ensures a == b && x == y
  {
    assert (a + x)[..|a|] == a && (a + x)[|a|..] == x;
    assert (b + y)[..|b|] == b && (b + y)[|b|..] == y;
  }

  lemma HexByteInjective(a: byte, b: byte)
    requires HexByte(a) == HexByte(b)
    ensures a == b
  {
    var x, y := HexByte(a), HexByte(b);
    HexDigitInjective(a / 16, b / 16, x[0]);
    HexDigitInjective(a % 16, b % 16, x[1]);
  }

  lemma HexDigitInjective(i: nat, j: nat, c: char)
    requires i < 16 && j < 16 && HEX_DIGITS[i] == HEX_DIGITS[j] == c
    ensures i == j
  {
  }

  /** A cache key followed by one of our extensions: the start-up scan splits it back exactly. */
  lemma StemOfOwnName(key: string, ext: string)
    requires '.' !in key && ext in OWN_EXTENSIONS
    ensures Ext(key + ext) == ext && Stem(key + ext) == key
    ensures !IsTemp(key + ext)
  {
    OwnExtensions(ext);
    hide OWN_EXTENSIONS;
    var name := key + ext;
    assert name[|key|] == ext[0] == '.';
    assert forall i :: |key| < i < |name| ==> name[i] == ext[i - |key|] && ext[i - |key|] != '.';
    assert LastDot(name) == |key|;
    hide LastDot;
    assert name[|key|..] == ext && name[..|key|] == key;
    assert |ext| == 4 ==> name[|name| - 4..] == ext;
    assert |ext| == 5 ==> name[|name| - 4..][0] == ext[1];
  }

  lemma OwnExtensions(ext: string)
    requires ext in OWN_EXTENSIONS
    ensures 4 <= |ext| <= 5 && ext != ".tmp" && (|ext| == 5 ==> ext[1] != '.')
    ensures ext[0] == '.' && forall i :: 0 < i < |ext| ==> ext[i] != '.'
  {
  }

  /** A file being written is always recognised as temporary, whatever it will be called. */
  lemma TempNames(name: string)
    ensures IsTemp(name + ".tmp")
  {
    assert (name + ".tmp")[|name + ".tmp"| - 4..] == ".tmp";
  }

  lemma IsTempExactly(name: string)
    ensures IsTemp(name) <==> exists stem :: name == stem + ".tmp"
  {
    if IsTemp(name) {
      assert name == name[..|name| - 4] + ".tmp";
    }
    forall stem | name == stem + ".tmp" ensures IsTemp(name) { TempNames(stem); }
  }

  lemma CacheKeyHasNoDot(sha256: Sha256, mediaID: string)
    ensures '.' !in CacheKey(sha256, mediaID) && |CacheKey(sha256, mediaID)| == 20
  {
  }

  /** A mime type survives being stored as an extension exactly when it is one of these five. */
  lemma MimeRoundTrip(mime: string)
    ensures MimeFromExt(ExtFromMime(mime)) == mime <==>
            mime in {"image/jpeg", "image/png", "image/webp", "image/gif", "application/octet-stream"}
  {
    assert ToLower(".jpg") == ".jpg" && ToLower(".png") == ".png" && ToLower(".webp") == ".webp";
    assert ToLower(".gif") == ".gif" && ToLower(".bin") == ".bin";
  }

  /** The cache key is the first ten digest bytes in lower-case hexadecimal, high digit first. */
  lemma CacheKeyExactly(sha256: Sha256, mediaID: string, i: nat)
    requires i < 10
    ensures var key, d := CacheKey(sha256, mediaID), sha256(mediaID);
            |key| == 20 && key[2 * i] == "0123456789abcdef"[d[i] / 16] && key[2 * i + 1] == "0123456789abcdef"[d[i] % 16]
  {
    HexAt(sha256(mediaID)[..10], i);
  }

  lemma {:induction false} HexAt(bs: seq<byte>, i: nat)
    requires i < |bs|
    ensures HexEncode(bs)[2 * i] == "0123456789abcdef"[bs[i] / 16] && HexEncode(bs)[2 * i + 1] == "0123456789abcdef"[bs[i] % 16]
  {
    assert HexEncode(bs) == HexByte(bs[0]) + HexEncode(bs[1..]);
    if i > 0 {
      hide HexEncode;
      HexAt(bs[1..], i - 1);
      assert HexEncode(bs)[2 * i] == HexEncode(bs[1..])[2 * (i - 1)];
      assert HexEncode(bs)[2 * i + 1] == HexEncode(bs[1..])[2 * (i - 1) + 1];
    }
  }

  /** The extension is what follows the last dot, with it; a name without a dot has none. */
  lemma ExtExactly(name: string)
    ensures Stem(name) + Ext(name) == name
    ensures Ext(name) == "" <==> '.' !in name
    ensures Ext(name) != "" ==> Ext(name)[0] == '.' && '.' !in Ext(name)[1..]
  {
    hide LastDot;
    var d := LastDot(name);
    if d >= 0 {
      assert name[d] in name;
      assert forall i :: 0 <= i < |Ext(name)| - 1 ==> Ext(name)[1..][i] == name[d + 1 + i];
    }
  }

  /** The extension of each mime type, and back, whatever the case of the letters. */
  lemma TypesExactly()
    ensures ExtFromMime("image/jpeg") == ".jpg" && ExtFromMime("image/png") == ".png"
    ensures ExtFromMime("image/webp") == ".webp" && ExtFromMime("image/gif") == ".gif"
    ensures forall mime :: mime !in {"image/jpeg", "image/png", "image/webp", "image/gif"} ==> ExtFromMime(mime) == ".bin"
    ensures forall ext :: ToLower(ext) in {".jpg", ".jpeg"} ==> MimeFromExt(ext) == "image/jpeg"
    ensures forall ext :: ToLower(ext) == ".png" ==> MimeFromExt(ext) == "image/png"
    ensures forall ext :: ToLower(ext) == ".webp" ==> MimeFromExt(ext) == "image/webp"
    ensures forall ext :: ToLower(ext) == ".gif" ==> MimeFromExt(ext) == "image/gif"
    ensures forall ext :: ToLower(ext) !in {".jpg", ".jpeg", ".png", ".webp", ".gif"} ==>
              MimeFromExt(ext) == "application/octet-stream"
  {
    hide ToLower;
  }

  lemma ToLowerExactly(s: string, i: nat)
    requires i < |s|
    ensures |ToLower(s)| == |s|
    ensures if 'A' <= s[i] <= 'Z' then ToLower(s)[i] as int == s[i] as int + 32 else ToLower(s)[i] == s[i]
  {
  }
}
