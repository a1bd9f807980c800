/** Unpadded base64url (sections 3.2 and 5 of RFC 4648) as Go's RawURLEncoding does it. */
module Base64Url {
  import opened Prelude

  type sextet = v: int | 0 <= v < 64

  function CharOf(v: sextet): char {
    if v < 26 then 'A' + v as char
    else if v < 52 then 'a' + (v - 26) as char
    else if v < 62 then '0' + (v - 52) as char
    else if v == 62 then '-' else '_'
  }

  function ValueOf(c: char): Option<sextet> {
    if 'A' <= c <= 'Z' then Some(c as int - 'A' as int)
    else if 'a' <= c <= 'z' then Some(c as int - 'a' as int + 26)
    else if '0' <= c <= '9' then Some(c as int - '0' as int + 52)
    else if c == '-' then Some(62)
    else if c == '_' then Some(63)
    else None
  }

  /** The characters of `s` are those of the values. */
  function CharsOf(vs: seq<sextet>): (s: string)
    ensures |s| == |vs|
    ensures forall i :: 0 <= i < |s| ==> s[i] == CharOf(vs[i])
  {
    seq(|vs|, i requires 0 <= i < |vs| => CharOf(vs[i]))
  }

  predicate AllValid(s: string) {
    forall i :: 0 <= i < |s| ==> ValueOf(s[i]).Some?
  }

  function ValuesOf(s: string): (vs: seq<sextet>)
    requires AllValid(s)
    ensures |vs| == |s|
    ensures forall i :: 0 <= i < |s| ==> vs[i] == ValueOf(s[i]).value
  {
    seq(|s|, i requires 0 <= i < |s| => ValueOf(s[i]).value)
  }

  /** Three bytes are four 6-bit groups; a shorter last block is filled up with zero bits. */
  function Split(bs: seq<byte>): seq<sextet> {
    match |bs|
    case 0 => []
    case 1 => [bs[0] / 4, bs[0] % 4 * 16]
    case 2 => [bs[0] / 4, bs[0] % 4 * 16 + bs[1] / 16, bs[1] % 16 * 4]
    case _ =>
      [bs[0] / 4, bs[0] % 4 * 16 + bs[1] / 16, bs[1] % 16 * 4 + bs[2] / 64, bs[2] % 64] + Split(bs[3..])
  }

  /** The inverse; superfluous bits of a short last block are dropped without looking at them. */
  function Join(vs: seq<sextet>): seq<byte>
    requires |vs| % 4 != 1
  {
    match |vs|
    case 0 => []
    case 2 => [vs[0] as int * 4 + vs[1] / 16]
    case 3 => [vs[0] as int * 4 + vs[1] / 16, vs[1] as int % 16 * 16 + vs[2] / 4]
    case _ =>
      [vs[0] as int * 4 + vs[1] / 16, vs[1] as int % 16 * 16 + vs[2] / 4, vs[2] as int % 4 * 64 + vs[3]] + Join(vs[4..])
  }

  function Encode(bs: seq<byte>): string {
    CharsOf(Split(bs))
  }

  /** CR and LF are skipped wherever they stand. */
  function SkipNewlines(s: string): string {
    if s == "" then ""
    else if s[0] == '\r' || s[0] == '\n' then SkipNewlines(s[1..])
    else [s[0]] + SkipNewlines(s[1..])
  }

  function Decode(s: string): Option<seq<byte>> {
    var t := SkipNewlines(s);
    if AllValid(t) && |t| % 4 != 1 then Some(Join(ValuesOf(t))) else None
  }

  /** The alphabet has no two equal characters and no newline. */
  lemma AlphabetInverse(v: sextet)
    ensures ValueOf(CharOf(v)) == Some(v)
    ensures CharOf(v) != '\r' && CharOf(v) != '\n'
  {
  }

  /** The characters are those of table 2 of RFC 4648, in its order, and no others have a value. */
  lemma AlphabetExactly(v: sextet, c: char)
    ensures CharOf(0) == 'A' && CharOf(25) == 'Z' && CharOf(26) == 'a' && CharOf(51) == 'z' && CharOf(52) == '0' && CharOf(61) == '9'
    ensures CharOf(62) == '-' && CharOf(63) == '_'
    ensures v !in {25, 51, 61, 62, 63} ==> CharOf(v + 1) as int == CharOf(v) as int + 1
    ensures ValueOf(c) == Some(v) <==> c == CharOf(v)
  {
    AlphabetInverse(v);
    if ValueOf(c) == Some(v) { CharOfValue(c); }
  }

  /** 24 bits as three bytes and as four groups of six, most significant first. */
  ghost predicate SameBits(a: int, b: int, c: int, v0: int, v1: int, v2: int, v3: int) {
    v0 * 262144 + v1 * 4096 + v2 * 64 + v3 == a * 65536 + b * 256 + c
  }

  /** Three bytes are four sextets with the same bits in the same order, wherever the block stands. */
  lemma {:induction false} BlockIsBigEndian(bs: seq<byte>, k: nat)
    requires 3 * k + 3 <= |bs|
    ensures var i, j, vs := 3 * k, 4 * k, Split(bs);
            j + 4 <= |vs| && SameBits(bs[i], bs[i + 1], bs[i + 2], vs[j], vs[j + 1], vs[j + 2], vs[j + 3])
  {
    var vs := Split(bs);
    FirstBlock(bs[0], bs[1], bs[2]);
    hide SameBits;
    assert vs[..4] == [bs[0] / 4, bs[0] % 4 * 16 + bs[1] / 16, bs[1] % 16 * 4 + bs[2] / 64, bs[2] % 64];
    assert vs[4..] == Split(bs[3..]);
    hide Split;
    if k == 0 {
      assert vs[0] == vs[..4][0] && vs[1] == vs[..4][1] && vs[2] == vs[..4][2] && vs[3] == vs[..4][3];
    } else {
      BlockIsBigEndian(bs[3..], k - 1);
    }
  }

  lemma FirstBlock(a: byte, b: byte, c: byte)
    ensures SameBits(a, b, c, a / 4, a % 4 * 16 + b / 16, b % 16 * 4 + c / 64, c % 64)
  {
  }

  /** A short last block has its bits first and zeros behind them. */
  ghost predicate LastFits(bs: seq<byte>, vs: seq<sextet>) {
    var n, m := |bs|, |vs|;
    && (n % 3 == 1 ==> m >= 2 && SameBits(bs[n - 1], 0, 0, vs[m - 2], vs[m - 1], 0, 0))
    && (n % 3 == 2 ==> m >= 3 && SameBits(bs[n - 2], bs[n - 1], 0, vs[m - 3], vs[m - 2], vs[m - 1], 0))
  }

  lemma {:induction false} LastBlock(bs: seq<byte>)
    ensures LastFits(bs, Split(bs))
  {
    if |bs| >= 3 {
      LastBlock(bs[3..]);
      assert Split(bs)[4..] == Split(bs[3..]);
      hide Split;
      LastOfLonger(bs, Split(bs));
    } else if |bs| == 2 {
      FirstBlock(bs[0], bs[1], 0);
    } else if |bs| == 1 {
      FirstBlock(bs[0], 0, 0);
    }
  }

  lemma LastOfLonger(bs: seq<byte>, vs: seq<sextet>)
    requires |bs| >= 3 && |vs| >= 4 && LastFits(bs[3..], vs[4..])
    ensures LastFits(bs, vs)
  {
    hide SameBits;
    var n, m := |bs|, |vs|;
    assert n % 3 == |bs[3..]| % 3;
    if n % 3 == 1 {
      assert bs[3..][n - 4] == bs[n - 1] && vs[4..][m - 6] == vs[m - 2] && vs[4..][m - 5] == vs[m - 1];
    } else if n % 3 == 2 {
      assert bs[3..][n - 5] == bs[n - 2] && bs[3..][n - 4] == bs[n - 1];
      assert vs[4..][m - 7] == vs[m - 3] && vs[4..][m - 6] == vs[m - 2] && vs[4..][m - 5] == vs[m - 1];
    }
  }

  lemma {:induction false} JoinSplit(bs: seq<byte>)
    ensures |Split(bs)| == (4 * |bs| + 2) / 3
    ensures |Split(bs)| % 4 != 1 && Join(Split(bs)) == bs
  {
    if |bs| >= 3 {
      JoinSplit(bs[3..]);
      assert Split(bs)[4..] == Split(bs[3..]);
      ThreeBytes(bs[0], bs[1], bs[2]);
      assert bs == [bs[0], bs[1], bs[2]] + bs[3..];
    } else if |bs| == 2 {
      ThreeBytes(bs[0], bs[1], 0);
    } else if |bs| == 1 {
      ThreeBytes(bs[0], 0, 0);
    }
  }

  lemma ThreeBytes(a: byte, b: byte, c: byte)
    ensures var v0, v1, v2, v3 := a / 4, a % 4 * 16 + b / 16, b % 16 * 4 + c / 64, c % 64;
            && v0 * 4 + v1 / 16 == a
            && v1 % 16 * 16 + v2 / 4 == b
            && v2 % 4 * 64 + v3 == c
  {
  }

  lemma {:induction false} NoNewlines(s: string)
    requires forall i :: 0 <= i < |s| ==> s[i] != '\r' && s[i] != '\n'
    ensures SkipNewlines(s) == s
  {
    if s != "" {
      NoNewlines(s[1..]);
      assert s == [s[0]] + s[1..];
    }
  }

  /** Decoding undoes encoding for all bytes; the encoding is unpadded. */
  lemma RoundTrip(bs: seq<byte>)
    ensures Decode(Encode(bs)) == Some(bs)
    ensures |Encode(bs)| == (4 * |bs| + 2) / 3 && AllValid(Encode(bs))
  {
    var vs, s := Split(bs), Encode(bs);
    JoinSplit(bs);
    forall i | 0 <= i < |s| ensures ValueOf(s[i]) == Some(vs[i]) && s[i] != '\r' && s[i] != '\n' {
      AlphabetInverse(vs[i]);
    }
    NoNewlines(s);
    assert ValuesOf(s) == vs;
  }

  /** Exactly these strings decode: newlines aside, only alphabet characters and no single one left over. */
  lemma {:induction false} DecodesExactly(s: string)
    ensures Decode(s).Some? <==>
            && (forall i :: 0 <= i < |s| ==> s[i] == '\r' || s[i] == '\n' || ValueOf(s[i]).Some?)
            && |SkipNewlines(s)| % 4 != 1
  {
    SkipsOnlyNewlines(s);
  }

  lemma {:induction false} SkipsOnlyNewlines(s: string)
    ensures AllValid(SkipNewlines(s)) <==>
            forall i :: 0 <= i < |s| ==> s[i] == '\r' || s[i] == '\n' || ValueOf(s[i]).Some?
  {
    hide ValueOf;
    if s != "" {
      SkipsOnlyNewlines(s[1..]);
      var rest := SkipNewlines(s[1..]);
      assert forall i :: 0 <= i < |s| - 1 ==> s[1..][i] == s[i + 1];
      assert ([s[0]] + rest)[1..] == rest;
      if s[0] == '\r' || s[0] == '\n' {
      } else {
        PrependValid(s[0], rest);
      }
    }
  }

  lemma PrependValid(c: char, rest: string)
    ensures AllValid([c] + rest) <==> ValueOf(c).Some? && AllValid(rest)
  {
    hide ValueOf;
    var s := [c] + rest;
    if AllValid(s) {
      assert s[0] == c;
      assert forall i :: 0 <= i < |rest| ==> rest[i] == s[i + 1];
    }
  }

  // ----- which strings decode alike

  /** The sextets with the surplus bits of a short last block cleared. */
  function Masked(vs: seq<sextet>): (ms: seq<sextet>)
    requires |vs| % 4 != 1
    ensures |ms| == |vs|
  {
    var n := |vs|;
    match n % 4
    case 2 => vs[..n - 1] + [vs[n - 1] / 16 * 16]
    case 3 => vs[..n - 1] + [vs[n - 1] / 4 * 4]
    case _ => vs
  }

  /** The sextets of a string, newlines left out. */
  function Sextets(s: string): seq<sextet>
    requires AllValid(SkipNewlines(s))
  {
    ValuesOf(SkipNewlines(s))
  }

  /** Joining forgets the surplus bits and nothing else. */
  lemma {:induction false} SplitJoin(vs: seq<sextet>)
    requires |vs| % 4 != 1
    ensures Split(Join(vs)) == Masked(vs)
  {
    if |vs| >= 4 {
      SplitJoin(vs[4..]);
      SplitJoinFour(vs);
      MaskedTail(vs);
    } else if |vs| == 3 {
      SplitJoinThree(vs);
    } else if |vs| == 2 {
      SplitJoinTwo(vs);
    }
  }

  lemma MaskedTail(vs: seq<sextet>)
    requires |vs| % 4 != 1 && |vs| >= 4
    ensures Masked(vs) == vs[..4] + Masked(vs[4..])
  {
    var rest, n := vs[4..], |vs|;
    assert vs == vs[..4] + rest && n % 4 == |rest| % 4;
    if n % 4 >= 2 {
      assert rest[|rest| - 1] == vs[n - 1] && vs[..n - 1] == vs[..4] + rest[..|rest| - 1];
    }
  }

  lemma SplitJoinFour(vs: seq<sextet>)
    requires |vs| % 4 != 1 && |vs| >= 4
    ensures Split(Join(vs)) == vs[..4] + Split(Join(vs[4..]))
  {
    hide Split, Join;
    var a, b, c := JoinedFour(vs);
    SplitThree(a, b, c, Join(vs[4..]), vs[0], vs[1], vs[2], vs[3]);
    assert vs[..4] == [vs[0], vs[1], vs[2], vs[3]];
  }

  lemma JoinedFour(vs: seq<sextet>) returns (a: byte, b: byte, c: byte)
    requires |vs| % 4 != 1 && |vs| >= 4
    ensures Join(vs) == [a, b, c] + Join(vs[4..])
    ensures a / 4 == vs[0] && a % 4 * 16 + b / 16 == vs[1] && b % 16 * 4 + c / 64 == vs[2] && c % 64 == vs[3]
  {
    a, b, c := FourSextets(vs[0], vs[1], vs[2], vs[3]);
  }

  lemma SplitThree(a: byte, b: byte, c: byte, rest: seq<byte>, v0: sextet, v1: sextet, v2: sextet, v3: sextet)
    requires a / 4 == v0 && a % 4 * 16 + b / 16 == v1 && b % 16 * 4 + c / 64 == v2 && c % 64 == v3
    ensures Split([a, b, c] + rest) == [v0, v1, v2, v3] + Split(rest)
  {
    assert ([a, b, c] + rest)[3..] == rest;
  }

  lemma SplitJoinThree(vs: seq<sextet>)
    requires |vs| == 3
    ensures Split(Join(vs)) == Masked(vs)
  {
    hide Split, Join;
    var a, b := JoinedThree(vs);
    SplitTwo(a, b, vs[0], vs[1], vs[2] / 4 * 4);
    assert vs[..2] == [vs[0], vs[1]];
  }

  lemma JoinedThree(vs: seq<sextet>) returns (a: byte, b: byte)
    requires |vs| == 3
    ensures Join(vs) == [a, b]
    ensures a / 4 == vs[0] && a % 4 * 16 + b / 16 == vs[1] && b % 16 * 4 == vs[2] / 4 * 4
  {
    var c;
    a, b, c := FourSextets(vs[0], vs[1], vs[2], 0);
  }

  lemma SplitTwo(a: byte, b: byte, v0: sextet, v1: sextet, v2: sextet)
    requires a / 4 == v0 && a % 4 * 16 + b / 16 == v1 && b % 16 * 4 == v2
    ensures Split([a, b]) == [v0, v1, v2]
  {
  }

  lemma SplitJoinTwo(vs: seq<sextet>)
    requires |vs| == 2
    ensures Split(Join(vs)) == Masked(vs)
  {
    hide Split, Join;
    var a := JoinedTwo(vs);
    SplitOne(a, vs[0], vs[1] / 16 * 16);
    assert vs[..1] == [vs[0]];
  }

  lemma JoinedTwo(vs: seq<sextet>) returns (a: byte)
    requires |vs| == 2
    ensures Join(vs) == [a] && a / 4 == vs[0] && a % 4 * 16 == vs[1] / 16 * 16
  {
    var b, c;
    a, b, c := FourSextets(vs[0], vs[1], 0, 0);
  }

  lemma SplitOne(a: byte, v0: sextet, v1: sextet)
    requires a / 4 == v0 && a % 4 * 16 == v1
    ensures Split([a]) == [v0, v1]
  {
  }

  /** Four sextets are three bytes. */
  lemma FourSextets(v0: sextet, v1: sextet, v2: sextet, v3: sextet) returns (a: byte, b: byte, c: byte)
    ensures a == v0 * 4 + v1 / 16 && b == v1 % 16 * 16 + v2 / 4 && c == v2 % 4 * 64 + v3
    ensures a / 4 == v0 && a % 4 * 16 == v1 / 16 * 16 && a % 4 * 16 + b / 16 == v1
    ensures b % 16 * 4 == v2 / 4 * 4 && b % 16 * 4 + c / 64 == v2 && c % 64 == v3
  {
    a, b, c := v0 as int * 4 + v1 / 16, v1 as int % 16 * 16 + v2 / 4, v2 as int % 4 * 64 + v3;
  }

  /** Two strings decode to the same bytes if and only if they differ in newlines and surplus bits only. */
  lemma DecodesAlike(s: string, t: string)
    requires Decode(s).Some? && Decode(t).Some?
    ensures Decode(s) == Decode(t) <==> Masked(Sextets(s)) == Masked(Sextets(t))
  {
    hide Split, Join, Masked;
    SplitJoin(Sextets(s));
    SplitJoin(Sextets(t));
    JoinSplit(Join(Sextets(s)));
    JoinSplit(Join(Sextets(t)));
  }

  /** A string is the encoding of what it decodes to if and only if it has no newline and no surplus bit set. */
  lemma CanonicalExactly(s: string)
    requires Decode(s).Some?
    ensures Encode(Decode(s).value) == s
            <==> (forall c :: c in s ==> c != '\r' && c != '\n') && Masked(Sextets(s)) == Sextets(s)
  {
    hide Split, Join, Masked, CharOf, ValueOf;
    var vs := Sextets(s);
    SplitJoin(vs);
    CharsOfValues(SkipNewlines(s));
    if forall c :: c in s ==> c != '\r' && c != '\n' {
      assert forall i :: 0 <= i < |s| ==> s[i] in s;
      NoNewlines(s);
      CharsInjective(Masked(vs), vs);
    } else {
      CharsInjective(Masked(vs), Masked(vs));
    }
  }

  lemma CharsOfValues(s: string)
    requires AllValid(s)
    ensures CharsOf(ValuesOf(s)) == s
  {
    forall i | 0 <= i < |s| ensures CharOf(ValueOf(s[i]).value) == s[i] {
      CharOfValue(s[i]);
    }
  }

  lemma CharOfValue(c: char)
    requires ValueOf(c).Some?
    ensures CharOf(ValueOf(c).value) == c
  {
  }

  lemma CharsInjective(us: seq<sextet>, vs: seq<sextet>)
    ensures CharsOf(us) == CharsOf(vs) <==> us == vs
    ensures forall c :: c in CharsOf(us) ==> c != '\r' && c != '\n'
  {
    hide CharOf, ValueOf;
    forall v: sextet { AlphabetInverse(v); }
    if CharsOf(us) == CharsOf(vs) {
      assert |us| == |CharsOf(us)| == |vs|;
      forall i | 0 <= i < |us| ensures us[i] == vs[i] {
        assert CharOf(us[i]) == CharsOf(us)[i] == CharOf(vs[i]);
      }
    }
  }

  /** A newline at the end changes nothing. */
  lemma {:induction false} TrailingNewline(s: string)
    ensures SkipNewlines(s + "\n") == SkipNewlines(s)
    ensures Decode(s + "\n") == Decode(s)
  {
    if s != "" {
      assert (s + "\n")[1..] == s[1..] + "\n";
      TrailingNewline(s[1..]);
    }
  }

  /** Different strings may decode to the same bytes: trailing bits and newlines are not checked. */
  lemma DecodingIsLenient()
    ensures Decode("AA") == Decode("AB") == Decode("A\nA") == Some([0])
  {
    assert SkipNewlines("AA") == "AA" && SkipNewlines("AB") == "AB";
    assert SkipNewlines("A\nA") == "AA" by {
      assert "A\nA"[1..] == "\nA" && "\nA"[1..] == "A" && "A"[1..] == "";
    }
    assert ValuesOf("AA") == [0, 0] && ValuesOf("AB") == [0, 1];
  }
}
