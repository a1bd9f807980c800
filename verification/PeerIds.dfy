/** Peers and the chat-id convention: user id, minus chat id, minus 10^12 minus channel id. */
module PeerIds {
  import opened Prelude

  const CHANNEL_BASE: int := 1_000_000_000_000

  datatype Peer = PeerUser(id: int64) | PeerChat(id: int64) | PeerChannel(id: int64) | PeerUnknown

  /** 64-bit arithmetic wraps; a peer of an unknown class maps to 0. */
  function PeerToChatId(p: Peer): int64 {
    match p
    case PeerUser(id) => id
    case PeerChat(id) => Wrap64(0 - id as int)
    case PeerChannel(id) => Wrap64(-CHANNEL_BASE - id as int)
    case PeerUnknown => 0
  }

  /** The ids that Telegram hands out: positive, basic groups up to 10^12, channels without overflow. */
  predicate Regular(p: Peer) {
    match p
    case PeerUser(id) => id > 0
    case PeerChat(id) => 0 < id <= CHANNEL_BASE
    case PeerChannel(id) => 0 < id <= TWO_TO_63 - CHANNEL_BASE
    case PeerUnknown => false
  }

  /** The peer that a chat id stands for under the convention. */
  function PeerOf(chatId: int64): Peer {
    if chatId > 0 then PeerUser(chatId)
    else if chatId >= -CHANNEL_BASE then PeerChat(-chatId)
    else PeerChannel(-(chatId + CHANNEL_BASE))
  }

  lemma Wrap64Exact(n: int)
    requires -TWO_TO_63 <= n < TWO_TO_63
    ensures Wrap64(n) == n
  {
  }

  /** The convention is a bijection between regular peers and the non-zero chat ids. */
  lemma ConventionInverse(p: Peer)
    requires Regular(p)
    ensures PeerOf(PeerToChatId(p)) == p && PeerToChatId(p) != 0
  {
    match p
    case PeerUser(id) =>
    case PeerChat(id) => Wrap64Exact(-id);
    case PeerChannel(id) => Wrap64Exact(-CHANNEL_BASE - id);
  }

  lemma ConventionCovers(chatId: int64)
    requires chatId != 0
    ensures Regular(PeerOf(chatId)) && PeerToChatId(PeerOf(chatId)) == chatId
  {
    Wrap64Exact(chatId);
  }

  /** Regular peers with the same chat id are the same peer. */
  lemma ChatIdInjective(p: Peer, q: Peer)
    requires Regular(p) && Regular(q) && PeerToChatId(p) == PeerToChatId(q)
    ensures p == q
  {
    ConventionInverse(p);
    ConventionInverse(q);
  }

  /** The bound on group ids is needed: beyond it a group shares its chat id with a channel. */
  lemma LargeGroupCollides(c: int64)
    requires 0 < c <= TWO_TO_63 - CHANNEL_BASE - 1
    ensures !Regular(PeerChat(CHANNEL_BASE + c))
    ensures PeerToChatId(PeerChat(CHANNEL_BASE + c)) == PeerToChatId(PeerChannel(c))
  {
  }

  /** User id, minus group id, minus 10^12 minus channel id. */
  lemma ConventionValues(p: Peer)
    ensures p.PeerUser? ==> PeerToChatId(p) == p.id
    ensures Regular(p) && p.PeerChat? ==> PeerToChatId(p) == -p.id
    ensures Regular(p) && p.PeerChannel? ==> PeerToChatId(p) == -1_000_000_000_000 - p.id
    ensures p.PeerUnknown? ==> PeerToChatId(p) == 0
  {
  }

  /** The convention can be read back for exactly the regular peers, and for group 0. */
  lemma ConventionExactly(p: Peer)
    ensures PeerOf(PeerToChatId(p)) == p <==> Regular(p) || p == PeerChat(0)
  {
    if Regular(p) { ConventionInverse(p); }
  }

  /** A group shares its chat id with some regular channel if and only if its id is above 10^12. */
  lemma GroupCollidesExactly(g: int64)
    requires g > 0
    ensures (exists c: int64 :: Regular(PeerChannel(c)) && PeerToChatId(PeerChannel(c)) == PeerToChatId(PeerChat(g)))
            <==> g > 1_000_000_000_000
  {
    if g > CHANNEL_BASE {
      assert PeerToChatId(PeerChannel(g - CHANNEL_BASE)) == PeerToChatId(PeerChat(g));
    } else {
      forall c: int64 | Regular(PeerChannel(c)) ensures PeerToChatId(PeerChannel(c)) != PeerToChatId(PeerChat(g)) {
        ConventionInverse(PeerChannel(c));
        ConventionInverse(PeerChat(g));
      }
    }
  }

  // ----- decimal keys

  function Digit(d: nat): char
    requires d < 10
  {
    '0' + d as char
  }

  function Digits(n: nat): (s: string)
    ensures s != "" && forall i :: 0 <= i < |s| ==> '0' <= s[i] <= '9'
  {
    if n < 10 then [Digit(n)] else Digits(n / 10) + [Digit(n % 10)]
  }

  /** %d */
  function Decimal(n: int): (s: string)
    ensures ':' !in s
  {
    if n < 0 then "-" + Digits(-n) else Digits(n)
  }

  /** fmt.Sprintf("%d:%d", ..) */
  function Key(chatId: int, msgId: int): string {
    Decimal(chatId) + ":" + Decimal(msgId)
  }

  function MsgKey(p: Peer, id: int): string {
    Key(PeerToChatId(p), id)
  }

  /** Read a digit string back. */
  function Number(s: string): int {
    if s == "" then 0 else Number(s[..|s| - 1]) * 10 + (s[|s| - 1] as int - '0' as int)
  }

  lemma {:induction false} DigitsInverse(n: nat)
    ensures Number(Digits(n)) == n
  {
    if n >= 10 {
      DigitsInverse(n / 10);
      assert Digits(n)[..|Digits(n)| - 1] == Digits(n / 10);
    } else {
      assert Digits(n)[..0] == "";
    }
  }

  lemma DecimalInjective(m: int, n: int)
    requires Decimal(m) == Decimal(n)
    ensures m == n
  {
    var a, b := if m < 0 then -m else m, if n < 0 then -n else n;
    DigitsInverse(a);
    DigitsInverse(b);
    assert m < 0 ==> Decimal(m)[0] == '-' && Decimal(m)[1..] == Digits(a);
    assert n < 0 ==> Decimal(n)[0] == '-' && Decimal(n)[1..] == Digits(b);
  }

  /** Position of the first colon, or the length. */
  function FirstColon(s: string): (p: nat)
    ensures p <= |s| && (p < |s| ==> s[p] == ':')
    ensures forall i :: 0 <= i < p ==> s[i] != ':'
  {
    if s == "" || s[0] == ':' then 0 else 1 + FirstColon(s[1..])
  }

  lemma FirstColonAfter(a: string, b: string)
    requires ':' !in a
    ensures FirstColon(a + ":" + b) == |a|
  {
    var s := a + ":" + b;
    assert s[|a|] == ':' && forall i :: 0 <= i < |a| ==> s[i] == a[i];
  }

  lemma SplitAtColon(a: string, b: string, c: string, d: string)
    requires ':' !in a && ':' !in c && a + ":" + b == c + ":" + d
    ensures a == c && b == d
  {
    var s, t := a + ":" + b, c + ":" + d;
    FirstColonAfter(a, b);
    FirstColonAfter(c, d);
    assert s[..|a|] == a && t[..|c|] == c && s[|a| + 1..] == b && t[|c| + 1..] == d;
  }

  /** The printed key identifies the two numbers, negative ones included. */
  lemma KeyInjective(c: int, m: int, d: int, n: int)
    requires Key(c, m) == Key(d, n)
    ensures c == d && m == n
  {
    hide Decimal;
    SplitAtColon(Decimal(c), Decimal(m), Decimal(d), Decimal(n));
    DecimalInjective(c, d);
    DecimalInjective(m, n);
  }

  /** The message key identifies the peer and the message id. */
  lemma MsgKeyInjective(p: Peer, m: int, q: Peer, n: int)
    requires Regular(p) && Regular(q)
    ensures MsgKey(p, m) == MsgKey(q, n) <==> p == q && m == n
  {
    if MsgKey(p, m) == MsgKey(q, n) {
      KeyInjective(PeerToChatId(p), m, PeerToChatId(q), n);
      ChatIdInjective(p, q);
    }
  }
}
