/** The text helpers of the chat list: trimmed names, and messages cut to one short line of bytes. */
module Text {
  import opened Prelude

  // ----- names

  /** unicode.IsSpace */
  predicate IsSpace(c: char) {
    var n := c as int;
    || 9 <= n <= 13 || n == 32 || n == 0x85 || n == 0xA0 || n == 0x1680 || 0x2000 <= n <= 0x200A
    || n == 0x2028 || n == 0x2029 || n == 0x202F || n == 0x205F || n == 0x3000
  }

  /** White space as the Unicode standard lists it. */
  lemma IsSpaceExactly(c: char)
    ensures IsSpace(c) <==>
            || c in {'\t', '\n', '\r', ' '} || c as int in {0x0B, 0x0C, 0x85, 0xA0, 0x1680, 0x2028, 0x2029, 0x202F, 0x205F, 0x3000}
            || 0x2000 <= c as int <= 0x200A
  {
  }

  function TrimLeft(s: string): string {
    if s != "" && IsSpace(s[0]) then TrimLeft(s[1..]) else s
  }

  function TrimRight(s: string): string {
    if s != "" && IsSpace(s[|s| - 1]) then TrimRight(s[..|s| - 1]) else s
  }

  function TrimSpace(s: string): string {
    TrimRight(TrimLeft(s))
  }

  function FullName(first: string, last: string): string {
    TrimSpace(first + " " + last)
  }

  predicate Trimmed(s: string) {
    s == "" || (!IsSpace(s[0]) && !IsSpace(s[|s| - 1]))
  }

  lemma {:induction false} TrimLeftDrops(s: string) returns (i: nat)
    ensures i <= |s| && TrimLeft(s) == s[i..] && forall k :: 0 <= k < i ==> IsSpace(s[k])
    ensures i < |s| ==> !IsSpace(s[i])
  {
    i := 0;
    if s != "" && IsSpace(s[0]) {
      var j := TrimLeftDrops(s[1..]);
      i := j + 1;
      assert s[1..][j..] == s[i..];
      assert forall k :: 0 < k < i ==> s[k] == s[1..][k - 1];
    }
  }

  lemma {:induction false} TrimRightDrops(s: string) returns (j: nat)
    ensures j <= |s| && TrimRight(s) == s[..j] && forall k :: j <= k < |s| ==> IsSpace(s[k])
    ensures j > 0 ==> !IsSpace(s[j - 1])
  {
    j := |s|;
    if s != "" && IsSpace(s[|s| - 1]) {
      j := TrimRightDrops(s[..|s| - 1]);
      assert s[..|s| - 1][..j] == s[..j];
    }
  }

  /** Trimming cuts off white space at both ends, all of it and nothing else. */
  lemma TrimSpaceExactly(s: string) returns (i: nat, j: nat)
    ensures i <= j <= |s| && TrimSpace(s) == s[i..j] && Trimmed(TrimSpace(s))
    ensures forall k :: 0 <= k < i || j <= k < |s| ==> IsSpace(s[k])
  {
    hide TrimLeft, TrimRight, IsSpace;
    i := TrimLeftDrops(s);
    var t := s[i..];
    var n := TrimRightDrops(t);
    j := i + n;
    assert t[..n] == s[i..j];
    assert forall k :: i <= k < |s| ==> s[k] == t[k - i];
  }

  // ----- the last message of a chat

  const MAX_PREVIEW: nat := 80

  const ELLIPSIS: seq<byte> := [0xE2, 0x80, 0xA6]

  const NEWLINE: byte := 10

  const SPACE: byte := 32

  /** Newlines become spaces. */
  function OneLine(s: seq<byte>): (t: seq<byte>)
    ensures |t| == |s| && forall i :: 0 <= i < |s| ==> t[i] == if s[i] == NEWLINE then SPACE else s[i]
  {
    seq(|s|, i requires 0 <= i < |s| => if s[i] == NEWLINE then SPACE else s[i])
  }

  /** The bytes of a Go string, cut to n bytes; the ellipsis comes on top of n - 1 of them. */
  function Truncate(s: seq<byte>, n: nat): seq<byte>
    requires n > 0
  {
    var t := OneLine(s);
    if |t| <= n then t else t[..n - 1] + ELLIPSIS
  }

  /** One line, and at most two bytes longer than asked for. */
  lemma TruncateIsShort(s: seq<byte>, n: nat)
    requires n > 0
    ensures NEWLINE !in Truncate(s, n) && |Truncate(s, n)| <= n + 2
    ensures |s| <= n ==> |Truncate(s, n)| == |s|
  {
  }

  /** Newlines become spaces; a text that is too long keeps its first n - 1 bytes and gets the three bytes of an ellipsis. */
  lemma TruncateExactly(s: seq<byte>, n: nat, i: nat)
    requires n > 0
    ensures |s| > n ==> |Truncate(s, n)| == n + 2 && Truncate(s, n)[n - 1..] == [226, 128, 166]
    ensures i < |s| && (|s| <= n || i < n - 1) ==> i < |Truncate(s, n)| && Truncate(s, n)[i] == if s[i] == 10 then 32 else s[i]
  {
  }

  // ----- UTF-8 (section 4 of RFC 3629)

  predicate Continues(b: byte) { 0x80 <= b < 0xC0 }

  /** How many bytes the character of this first byte has, 0 for a byte that starts none. */
  function Width(b: byte): nat {
    if b < 0x80 then 1
    else if 0xC2 <= b < 0xE0 then 2
    else if 0xE0 <= b < 0xF0 then 3
    else if 0xF0 <= b < 0xF5 then 4
    else 0
  }

  /** The second byte excludes overlong forms, surrogates and numbers beyond U+10FFFF. */
  predicate SecondFits(b: byte, second: byte) {
    && (b == 0xE0 ==> second >= 0xA0) && (b == 0xED ==> second < 0xA0)
    && (b == 0xF0 ==> second >= 0x90) && (b == 0xF4 ==> second < 0x90)
  }

  /** The string starts with a whole character. */
  predicate StartsWhole(s: seq<byte>)
    requires s != []
  {
    var w := Width(s[0]);
    && 0 < w <= |s|
    && (forall i :: 1 <= i < w ==> Continues(s[i]))
    && (w > 1 ==> SecondFits(s[0], s[1]))
  }

  predicate WellFormed(s: seq<byte>) {
    s == [] || (StartsWhole(s) && WellFormed(s[Width(s[0])..]))
  }

  /** A cut keeps text well formed if and only if it does not fall before a continuation byte. */
  lemma {:induction false} CutWellFormed(s: seq<byte>, k: nat)
    requires WellFormed(s) && k < |s|
    ensures WellFormed(s[..k]) <==> !Continues(s[k])
  {
    if k > 0 {
      var w := Width(s[0]);
      assert StartsWhole(s) && s[..k][0] == s[0];
      if k >= w {
        if k < |s| {
          CutWellFormed(s[w..], k - w);
          assert s[w..][..k - w] == s[..k][w..];
        }
        assert forall i :: 1 <= i < w ==> s[..k][i] == s[i];
      }
    } else {
      FirstStarts(s[0]);
    }
  }

  lemma FirstStarts(b: byte)
    ensures Width(b) > 0 ==> !Continues(b)
  {
  }

  lemma WellFormedConcat(a: seq<byte>, b: seq<byte>)
    requires WellFormed(b) && b != []
    ensures WellFormed(a + b) <==> WellFormed(a)
  {
    if WellFormed(a + b) {
      FirstStarts(b[0]);
      assert (a + b)[|a|] == b[0] && (a + b)[..|a|] == a;
      CutWellFormed(a + b, |a|);
    }
    if WellFormed(a) {
      BothWellFormed(a, b);
    }
  }

  lemma {:induction false} BothWellFormed(a: seq<byte>, b: seq<byte>)
    requires WellFormed(a) && WellFormed(b)
    ensures WellFormed(a + b)
  {
    if a == [] {
      assert a + b == b;
    } else {
      var w := Width(a[0]);
      assert StartsWhole(a) && (a + b)[0] == a[0];
      WholeConcat(a, b);
      BothWellFormed(a[w..], b);
      assert (a + b)[w..] == a[w..] + b;
    }
  }

  lemma WholeConcat(a: seq<byte>, b: seq<byte>)
    requires a != [] && StartsWhole(a)
    ensures StartsWhole(a + b)
  {
    hide Continues, SecondFits;
    assert forall i :: 0 <= i < |a| ==> (a + b)[i] == a[i];
  }

  lemma {:induction false} OneLineWellFormed(s: seq<byte>)
    requires WellFormed(s)
    ensures WellFormed(OneLine(s))
  {
    if s != [] {
      var w, t := Width(s[0]), OneLine(s);
      assert StartsWhole(s);
      OneLineWellFormed(s[w..]);
      assert t[w..] == OneLine(s[w..]);
      assert forall i :: 1 <= i < w ==> Continues(s[i]) && t[i] == s[i];
      assert Width(t[0]) == w;
    }
  }

  /**
   The preview of a well-formed text is well formed if and only if the text fits or the cut does not fall inside
   a character.
   */
  lemma PreviewWellFormed(s: seq<byte>, n: nat)
    requires WellFormed(s) && n > 0
    ensures WellFormed(Truncate(s, n)) <==> |s| <= n || !Continues(s[n - 1])
  {
    hide WellFormed, ELLIPSIS;
    OneLineWellFormed(s);
    if |s| > n {
      var t := OneLine(s);
      assert Continues(t[n - 1]) <==> Continues(s[n - 1]);
      hide Continues;
      EllipsisWellFormed();
      CutWellFormed(t, n - 1);
      WellFormedConcat(t[..n - 1], ELLIPSIS);
    }
  }

  lemma EllipsisWellFormed()
    ensures WellFormed(ELLIPSIS) && ELLIPSIS != []
  {
    assert ELLIPSIS[3..] == [];
    assert StartsWhole(ELLIPSIS);
  }

  /** The character U+0430 of the Cyrillic alphabet, n times. */
  function Cyrillic(n: nat): (s: seq<byte>)
    ensures |s| == 2 * n && forall i :: 0 <= i < 2 * n ==> s[i] == if i % 2 == 0 then 0xD0 else 0xB0
  {
    seq(2 * n, i => if i % 2 == 0 then 0xD0 else 0xB0)
  }

  lemma {:induction false} CyrillicWellFormed(n: nat)
    ensures WellFormed(Cyrillic(n))
  {
    if n > 0 {
      CyrillicWellFormed(n - 1);
      hide Cyrillic;
      assert StartsWhole(Cyrillic(n));
      assert Cyrillic(n)[2..] == Cyrillic(n - 1);
    }
  }

  /** Cyrillic text of more than 40 letters is always cut inside a letter. */
  lemma PreviewCutsLetter(letters: nat)
    requires letters > 40
    ensures WellFormed(Cyrillic(letters)) && !WellFormed(Truncate(Cyrillic(letters), MAX_PREVIEW))
  {
    CyrillicWellFormed(letters);
    hide WellFormed, Cyrillic, Truncate;
    PreviewWellFormed(Cyrillic(letters), MAX_PREVIEW);
    assert Cyrillic(letters)[79] == 0xB0;
  }
}
