/** The dialog list as a hash join over printed keys, and the cache of input peers that it fills. */
module ChatIndex {
  import opened Prelude
  import opened PeerIds
  import Text

  /** The text of a message is the bytes of its string. */
  datatype Msg = Msg(peer: Peer, id: int, text: seq<byte>, date: int64) | OtherMsg

  datatype User = User(id: int64, accessHash: int64, firstName: string, lastName: string, username: string) | UserEmpty(id: int64)

  datatype ChatObj =
    | Group(id: int64, title: string)
    | Channel(id: int64, title: string, accessHash: int64, username: string)
    | OtherChat(id: int64)

  datatype Dialog = Dialog(peer: Peer, topMessage: int, unread: int) | DialogFolder

  datatype Response = Response(dialogs: seq<Dialog>, messages: seq<Msg>, users: seq<User>, chats: seq<ChatObj>)

  datatype Chat = Chat(id: int64, kind: string, title: string, unread: int, lastMsg: seq<byte>, lastTs: int64, username: string)

  datatype InputPeer = InputUser(id: int64, accessHash: int64) | InputGroup(id: int64) | InputChannel(id: int64, accessHash: int64)

  function FullName(u: User): string
    requires u.User?
  {
    Text.FullName(u.firstName, u.lastName)
  }

  // ----- what the indexes find: the last element with the key

  function LastByKey(ms: seq<Msg>, key: string): Option<Msg> {
    if ms == [] then None
    else
      var last := ms[|ms| - 1];
      if last.Msg? && MsgKey(last.peer, last.id) == key then Some(last) else LastByKey(ms[..|ms| - 1], key)
  }

  function LastUser(us: seq<User>, id: int64): Option<User> {
    if us == [] then None
    else
      var last := us[|us| - 1];
      if last.User? && last.id == id then Some(last) else LastUser(us[..|us| - 1], id)
  }

  /** Groups and channels share one index by raw id. */
  function LastChat(cs: seq<ChatObj>, id: int64): Option<ChatObj> {
    if cs == [] then None
    else
      var last := cs[|cs| - 1];
      if !last.OtherChat? && last.id == id then Some(last) else LastChat(cs[..|cs| - 1], id)
  }

  ghost predicate Indexes<K(!new), V>(index: map<K, V>, find: K -> Option<V>) {
    forall k :: (k in index <==> find(k).Some?) && (k in index ==> find(k) == Some(index[k]))
  }

  method IndexMessages(ms: seq<Msg>) returns (out: map<string, Msg>)
    ensures Indexes(out, k => LastByKey(ms, k))
  {
    hide MsgKey;
    out := map[];
    for i := 0 to |ms|
      invariant Indexes(out, k => LastByKey(ms[..i], k))
    {
      assert ms[..i + 1][..i] == ms[..i];
      if ms[i].Msg? {
        out := out[MsgKey(ms[i].peer, ms[i].id) := ms[i]];
      }
    }
    assert ms[..|ms|] == ms;
  }

  method IndexUsers(us: seq<User>) returns (out: map<int64, User>)
    ensures Indexes(out, k => LastUser(us, k))
  {
    out := map[];
    for i := 0 to |us|
      invariant Indexes(out, k => LastUser(us[..i], k))
    {
      assert us[..i + 1][..i] == us[..i];
      if us[i].User? {
        out := out[us[i].id := us[i]];
      }
    }
    assert us[..|us|] == us;
  }

  method IndexChats(cs: seq<ChatObj>) returns (out: map<int64, ChatObj>)
    ensures Indexes(out, k => LastChat(cs, k))
  {
    out := map[];
    for i := 0 to |cs|
      invariant Indexes(out, k => LastChat(cs[..i], k))
    {
      assert cs[..i + 1][..i] == cs[..i];
      if !cs[i].OtherChat? {
        out := out[cs[i].id := cs[i]];
      }
    }
    assert cs[..|cs|] == cs;
  }

  // ----- the plain nested scan

  /** The last message of exactly this peer with exactly this id. */
  function LastMessage(ms: seq<Msg>, p: Peer, id: int): Option<Msg> {
    if ms == [] then None
    else
      var last := ms[|ms| - 1];
      if last.Msg? && last.peer == p && last.id == id then Some(last) else LastMessage(ms[..|ms| - 1], p, id)
  }

  /** A group for a group peer, a channel for a channel peer. */
  predicate Suits(c: ChatObj, p: Peer) {
    (p.PeerChat? && c.Group?) || (p.PeerChannel? && c.Channel?)
  }

  predicate IsEntity(c: ChatObj, p: Peer) {
    Suits(c, p) && c.id == p.id
  }

  /** The last group or channel of exactly this peer. */
  function LastEntity(cs: seq<ChatObj>, p: Peer): Option<ChatObj> {
    if cs == [] then None
    else
      var last := cs[|cs| - 1];
      if IsEntity(last, p) then Some(last) else LastEntity(cs[..|cs| - 1], p)
  }

  /** A row without its entity, a known peer given. */
  function BareRow(d: Dialog): Chat
    requires d.Dialog? && !d.peer.PeerUnknown?
  {
    Chat(PeerToChatId(d.peer), match d.peer case PeerUser(_) => "user" case PeerChat(_) => "group" case _ => "channel",
         "", d.unread, [], 0, "")
  }

  function WithMessage(c: Chat, m: Option<Msg>): Chat {
    if m.Some? && m.value.Msg? then c.(lastMsg := Text.Truncate(m.value.text, Text.MAX_PREVIEW), lastTs := m.value.date) else c
  }

  function WithUser(c: Chat, u: Option<User>): Chat {
    if u.Some? && u.value.User? then c.(title := FullName(u.value), username := u.value.username) else c
  }

  function WithEntity(c: Chat, e: Option<ChatObj>, p: Peer): Chat {
    if e.None? || !Suits(e.value, p) then c
    else if e.value.Group? then c.(title := e.value.title)
    else c.(title := e.value.title, username := e.value.username)
  }

  function Described(d: Dialog, u: Option<User>, e: Option<ChatObj>): Chat
    requires d.Dialog? && !d.peer.PeerUnknown?
  {
    if d.peer.PeerUser? then WithUser(BareRow(d), u) else WithEntity(BareRow(d), e, d.peer)
  }

  /** One dialog, everything looked up by scanning the lists for it. */
  function ScanRow(r: Response, d: Dialog): Option<Chat> {
    if d.DialogFolder? || d.peer.PeerUnknown? then None
    else
      Some(WithMessage(
             Described(d, LastUser(r.users, d.peer.id), LastEntity(r.chats, d.peer)),
             LastMessage(r.messages, d.peer, d.topMessage)))
  }

  /** The same dialog through the indexes. */
  function HashRow(r: Response, d: Dialog): Option<Chat> {
    if d.DialogFolder? || d.peer.PeerUnknown? then None
    else
      Some(WithMessage(
             Described(d, LastUser(r.users, d.peer.id), LastChat(r.chats, d.peer.id)),
             LastByKey(r.messages, MsgKey(d.peer, d.topMessage))))
  }

  function ScanRows(r: Response, ds: seq<Dialog>): seq<Chat> {
    if ds == [] then []
    else
      var n := |ds| - 1;
      var row := ScanRow(r, ds[n]);
      ScanRows(r, ds[..n]) + if row.Some? then [row.value] else []
  }

  function HashRows(r: Response, ds: seq<Dialog>): seq<Chat> {
    if ds == [] then []
    else
      var n := |ds| - 1;
      var row := HashRow(r, ds[n]);
      HashRows(r, ds[..n]) + if row.Some? then [row.value] else []
  }

  // ----- when the two agree

  predicate RegularMsg(m: Msg) {
    m.Msg? ==> Regular(m.peer) || m.peer.PeerUnknown?
  }

  predicate RegularDialog(d: Dialog) {
    d.Dialog? ==> Regular(d.peer) || d.peer.PeerUnknown?
  }

  ghost predicate RegularResponse(r: Response) {
    && (forall m :: m in r.messages ==> RegularMsg(m))
    && (forall d :: d in r.dialogs ==> RegularDialog(d))
  }

  /** No raw id is shared by a group and a channel. */
  ghost predicate ApartIds(cs: seq<ChatObj>) {
    forall c, d :: c in cs && d in cs && c.Group? && d.Channel? ==> c.id != d.id
  }

  /** The same raw id, but a channel for a group peer or a group for a channel peer. */
  predicate Clashes(c: ChatObj, p: Peer) {
    ((p.PeerChat? && c.Channel?) || (p.PeerChannel? && c.Group?)) && c.id == p.id
  }

  /** Has a name that a row would show. */
  predicate Shows(c: ChatObj) {
    (c.Group? && c.title != "") || (c.Channel? && (c.title != "" || c.username != ""))
  }

  /** The last entity of the peer, at i, has a name, and an object of the other kind with its raw id follows at j. */
  ghost predicate Hidden(cs: seq<ChatObj>, p: Peer) {
    exists i, j :: && 0 <= i < j < |cs| && IsEntity(cs[i], p) && Shows(cs[i]) && Clashes(cs[j], p)
                   && forall k :: i < k < |cs| ==> !IsEntity(cs[k], p)
  }

  ghost predicate RowHidden(r: Response, d: Dialog) {
    d.Dialog? && Hidden(r.chats, d.peer)
  }

  /** Looking a message up by its printed key finds the one that a scan finds. */
  lemma {:induction false} KeyFindsMessage(ms: seq<Msg>, p: Peer, id: int)
    requires Regular(p) && forall m :: m in ms ==> RegularMsg(m)
    ensures LastByKey(ms, MsgKey(p, id)) == LastMessage(ms, p, id)
  {
    hide MsgKey, Regular;
    if ms != [] {
      var n := |ms| - 1;
      KeyFindsMessage(ms[..n], p, id);
      if ms[n].Msg? {
        assert RegularMsg(ms[n]);
        SameKeySamePeer(ms[n].peer, ms[n].id, p, id);
      }
    }
  }

  lemma SameKeySamePeer(q: Peer, m: int, p: Peer, n: int)
    requires Regular(p) && (Regular(q) || q.PeerUnknown?)
    ensures MsgKey(q, m) == MsgKey(p, n) <==> q == p && m == n
  {
    if Regular(q) {
      MsgKeyInjective(q, m, p, n);
    } else if MsgKey(q, m) == MsgKey(p, n) {
      KeyInjective(PeerToChatId(q), m, PeerToChatId(p), n);
      ConventionInverse(p);
    }
  }

  /** Where a scan finds the entity. */
  lemma {:induction false} LastEntityAt(cs: seq<ChatObj>, p: Peer) returns (i: int)
    ensures -1 <= i < |cs| && forall k :: i < k < |cs| ==> !IsEntity(cs[k], p)
    ensures LastEntity(cs, p) == if i < 0 then None else Some(cs[i])
    ensures i >= 0 ==> IsEntity(cs[i], p)
  {
    var n := |cs| - 1;
    if n < 0 || IsEntity(cs[n], p) { return n; }
    i := LastEntityAt(cs[..n], p);
  }

  /** Where the shared index finds something. */
  lemma {:induction false} LastChatAt(cs: seq<ChatObj>, id: int64) returns (j: int)
    ensures -1 <= j < |cs| && forall k :: j < k < |cs| ==> cs[k].OtherChat? || cs[k].id != id
    ensures LastChat(cs, id) == if j < 0 then None else Some(cs[j])
    ensures j >= 0 ==> !cs[j].OtherChat? && cs[j].id == id
  {
    var n := |cs| - 1;
    if n < 0 || (!cs[n].OtherChat? && cs[n].id == id) { return n; }
    j := LastChatAt(cs[..n], id);
  }

  /** The shared index describes a group or channel as a scan does if and only if nothing hides its name. */
  lemma IndexFindsEntity(cs: seq<ChatObj>, p: Peer, c: Chat)
    requires (p.PeerChat? || p.PeerChannel?) && c.title == c.username == ""
    ensures WithEntity(c, LastChat(cs, p.id), p) == WithEntity(c, LastEntity(cs, p), p) <==> !Hidden(cs, p)
  {
    var i := LastEntityAt(cs, p);
    var j := LastChatAt(cs, p.id);
    hide LastEntity, LastChat;
    if Hidden(cs, p) {
      var i', j' :| && 0 <= i' < j' < |cs| && IsEntity(cs[i'], p) && Shows(cs[i']) && Clashes(cs[j'], p)
                    && forall k :: i' < k < |cs| ==> !IsEntity(cs[k], p);
      assert i' == i && j >= j';
    } else if 0 <= i < j {
      assert IsEntity(cs[i], p) && Clashes(cs[j], p);
    }
  }

  /** One row agrees with the scan if and only if nothing hides the name of its chat. */
  lemma RowAgrees(r: Response, d: Dialog)
    requires RegularResponse(r) && d in r.dialogs
    ensures HashRow(r, d) == ScanRow(r, d) <==> !RowHidden(r, d)
    ensures HashRow(r, d).Some? <==> ScanRow(r, d).Some?
  {
    hide MsgKey, Regular, PeerToChatId, Hidden, LastChat, LastEntity;
    if d.Dialog? && !d.peer.PeerUnknown? {
      assert RegularDialog(d);
      KeyFindsMessage(r.messages, d.peer, d.topMessage);
    }
    if d.Dialog? && (d.peer.PeerChat? || d.peer.PeerChannel?) {
      IndexFindsEntity(r.chats, d.peer, BareRow(d));
    } else if d.Dialog? {
      NothingHidden(r.chats, d.peer);
    }
  }

  lemma NothingHidden(cs: seq<ChatObj>, p: Peer)
    requires p.PeerUser? || p.PeerUnknown?
    ensures !Hidden(cs, p)
  {
  }

  /**
   Join correctness, exactly: for regular peers the hash join gives the rows of the plain nested scan, in dialog
   order, if and only if the name of no dialog is hidden by a later object with its raw id.
   */
  lemma {:induction false} JoinIsScan(r: Response, ds: seq<Dialog>)
    requires RegularResponse(r) && forall d :: d in ds ==> d in r.dialogs
    ensures HashRows(r, ds) == ScanRows(r, ds) <==> forall d :: d in ds ==> !RowHidden(r, d)
    ensures |HashRows(r, ds)| == |ScanRows(r, ds)|
  {
    hide HashRow, ScanRow, RegularResponse, RowHidden;
    if ds != [] {
      var n := |ds| - 1;
      JoinIsScan(r, ds[..n]);
      RowAgrees(r, ds[n]);
      SameConcat(HashRows(r, ds[..n]), HashRow(r, ds[n]), ScanRows(r, ds[..n]), ScanRow(r, ds[n]));
      assert ds == ds[..n] + [ds[n]];
    }
  }

  lemma SameConcat(a: seq<Chat>, x: Option<Chat>, b: seq<Chat>, y: Option<Chat>)
    requires |a| == |b| && (x.Some? <==> y.Some?)
    ensures a + (if x.Some? then [x.value] else []) == b + (if y.Some? then [y.value] else []) <==> a == b && x == y
  {
    var s, t := a + (if x.Some? then [x.value] else []), b + (if y.Some? then [y.value] else []);
    if s == t {
      assert s[..|a|] == a && t[..|b|] == b;
      assert x.Some? ==> s[|a|] == x.value && t[|b|] == y.value;
    }
  }

  /** In particular when no raw id is shared. */
  lemma ApartIdsHideNothing(r: Response)
    requires RegularResponse(r) && ApartIds(r.chats)
    ensures HashRows(r, r.dialogs) == ScanRows(r, r.dialogs)
  {
    hide HashRows, ScanRows;
    JoinIsScan(r, r.dialogs);
  }

  /** A channel that follows a group with its raw id does hide it: the title is lost, and the peer is not cached. */
  lemma SharedIdHidesGroup(id: int64)
    requires 0 < id <= CHANNEL_BASE
    ensures var r := Response([Dialog(PeerChat(id), 0, 0)], [], [], [Group(id, "g"), Channel(id, "c", 0, "")]);
            && HashRows(r, r.dialogs) != ScanRows(r, r.dialogs)
            && Cached(r, r.dialogs[0]).None?
  {
    var r := Response([Dialog(PeerChat(id), 0, 0)], [], [], [Group(id, "g"), Channel(id, "c", 0, "")]);
    assert IsEntity(r.chats[0], PeerChat(id)) && Clashes(r.chats[1], PeerChat(id));
    hide HashRows, ScanRows;
    assert RowHidden(r, r.dialogs[0]);
    JoinIsScan(r, r.dialogs);
  }

  /** And a group that follows a channel hides the channel. */
  lemma SharedIdHidesChannel(id: int64)
    requires 0 < id <= TWO_TO_63 - CHANNEL_BASE
    ensures var r := Response([Dialog(PeerChannel(id), 0, 0)], [], [], [Channel(id, "c", 0, ""), Group(id, "g")]);
            && HashRows(r, r.dialogs) != ScanRows(r, r.dialogs)
            && Cached(r, r.dialogs[0]).None?
  {
    var r := Response([Dialog(PeerChannel(id), 0, 0)], [], [], [Channel(id, "c", 0, ""), Group(id, "g")]);
    assert IsEntity(r.chats[0], PeerChannel(id)) && Clashes(r.chats[1], PeerChannel(id));
    hide HashRows, ScanRows;
    assert RowHidden(r, r.dialogs[0]);
    JoinIsScan(r, r.dialogs);
  }

  // ----- the cache of input peers

  /** The peer that an input peer addresses. */
  function AsPeer(ip: InputPeer): Peer {
    match ip
    case InputUser(id, _) => PeerUser(id)
    case InputGroup(id) => PeerChat(id)
    case InputChannel(id, _) => PeerChannel(id)
  }

  /** What a dialog row leaves in the cache. */
  function Cached(r: Response, d: Dialog): Option<InputPeer> {
    if d.DialogFolder? then None
    else
      match d.peer
      case PeerUser(id) =>
        var u := LastUser(r.users, id);
        if u.Some? && u.value.User? then Some(InputUser(u.value.id, u.value.accessHash)) else None
      case PeerChat(id) =>
        var c := LastChat(r.chats, id);
        if c.Some? && c.value.Group? then Some(InputGroup(c.value.id)) else None
      case PeerChannel(id) =>
        var c := LastChat(r.chats, id);
        if c.Some? && c.value.Channel? then Some(InputChannel(c.value.id, c.value.accessHash)) else None
      case PeerUnknown => None
  }

  type Cache = map<int64, InputPeer>

  function CacheAfter(cache: Cache, r: Response, ds: seq<Dialog>): Cache {
    if ds == [] then cache
    else
      var n := |ds| - 1;
      var before := CacheAfter(cache, r, ds[..n]);
      var ip := Cached(r, ds[n]);
      if ip.Some? then before[PeerToChatId(ds[n].peer) := ip.value] else before
  }

  /** Every cached input peer maps back to its key. */
  ghost predicate MapsBack(cache: Cache) {
    forall k :: k in cache ==> PeerToChatId(AsPeer(cache[k])) == k
  }

  /** And addresses the peer that the key stands for under the convention. */
  ghost predicate Addresses(cache: Cache) {
    forall k :: k in cache ==> k != 0 && AsPeer(cache[k]) == PeerOf(k)
  }

  /** Where a scan finds the user. */
  lemma {:induction false} LastUserAt(us: seq<User>, id: int64) returns (j: int)
    ensures -1 <= j < |us| && forall k :: j < k < |us| ==> us[k].UserEmpty? || us[k].id != id
    ensures LastUser(us, id) == if j < 0 then None else Some(us[j])
    ensures j >= 0 ==> us[j].User? && us[j].id == id
  {
    var n := |us| - 1;
    if n < 0 || (us[n].User? && us[n].id == id) { return n; }
    j := LastUserAt(us[..n], id);
  }

  /** Where a scan finds the message. */
  lemma {:induction false} LastMessageAt(ms: seq<Msg>, p: Peer, id: int) returns (j: int)
    ensures -1 <= j < |ms| && forall k :: j < k < |ms| ==> ms[k].OtherMsg? || ms[k].peer != p || ms[k].id != id
    ensures LastMessage(ms, p, id) == if j < 0 then None else Some(ms[j])
    ensures j >= 0 ==> ms[j].Msg? && ms[j].peer == p && ms[j].id == id
  {
    var n := |ms| - 1;
    if n < 0 || (ms[n].Msg? && ms[n].peer == p && ms[n].id == id) { return n; }
    j := LastMessageAt(ms[..n], p, id);
  }

  /** The input peer of a user has id and access hash of the last user with the id, and there is none without one. */
  lemma CachedUserExactly(r: Response, d: Dialog) returns (j: int)
    requires d.Dialog? && d.peer.PeerUser?
    ensures -1 <= j < |r.users| && forall k :: j < k < |r.users| ==> r.users[k].UserEmpty? || r.users[k].id != d.peer.id
    ensures j >= 0 ==> r.users[j].User? && r.users[j].id == d.peer.id
    ensures Cached(r, d) == if j < 0 then None else Some(InputUser(r.users[j].id, r.users[j].accessHash))
  {
    j := LastUserAt(r.users, d.peer.id);
  }

  /** The input peer of a group or channel, with the access hash of a channel, is that of the last object with the raw id. */
  lemma CachedChatExactly(r: Response, d: Dialog) returns (j: int)
    requires d.Dialog? && (d.peer.PeerChat? || d.peer.PeerChannel?)
    ensures -1 <= j < |r.chats| && forall k :: j < k < |r.chats| ==> r.chats[k].OtherChat? || r.chats[k].id != d.peer.id
    ensures j >= 0 ==> !r.chats[j].OtherChat? && r.chats[j].id == d.peer.id
    ensures Cached(r, d) ==
            if j >= 0 && d.peer.PeerChat? && r.chats[j].Group? then Some(InputGroup(r.chats[j].id))
            else if j >= 0 && d.peer.PeerChannel? && r.chats[j].Channel?
            then Some(InputChannel(r.chats[j].id, r.chats[j].accessHash))
            else None
  {
    j := LastChatAt(r.chats, d.peer.id);
  }

  /** Id and access hash of the input peer are those of one object of the response. */
  ghost predicate ComesFrom(ip: InputPeer, r: Response) {
    match ip
    case InputUser(id, h) => exists j :: 0 <= j < |r.users| && r.users[j].User? && r.users[j].id == id && r.users[j].accessHash == h
    case InputGroup(id) => exists j :: 0 <= j < |r.chats| && r.chats[j].Group? && r.chats[j].id == id
    case InputChannel(id, h) =>
      exists j :: 0 <= j < |r.chats| && r.chats[j].Channel? && r.chats[j].id == id && r.chats[j].accessHash == h
  }

  lemma CachedComesFrom(r: Response, d: Dialog)
    ensures Cached(r, d).Some? ==> ComesFrom(Cached(r, d).value, r)
  {
    if d.Dialog? && d.peer.PeerUser? {
      var j := CachedUserExactly(r, d);
    } else if d.Dialog? && !d.peer.PeerUnknown? {
      var j := CachedChatExactly(r, d);
    }
  }

  /** What a listing leaves in the cache was there before or comes from the response. */
  lemma {:induction false} ListingComesFrom(cache: Cache, r: Response, ds: seq<Dialog>, k: int64)
    ensures k in CacheAfter(cache, r, ds) ==>
              ComesFrom(CacheAfter(cache, r, ds)[k], r) || (k in cache && CacheAfter(cache, r, ds)[k] == cache[k])
  {
    hide Cached, ComesFrom, PeerToChatId;
    if ds != [] {
      ListingComesFrom(cache, r, ds[..|ds| - 1], k);
      CachedComesFrom(r, ds[|ds| - 1]);
    }
  }

  lemma CachedIsDialogPeer(r: Response, d: Dialog)
    ensures Cached(r, d).Some? ==> d.Dialog? && AsPeer(Cached(r, d).value) == d.peer
  {
    if d.Dialog? && !d.peer.PeerUnknown? {
      var i := LastUserAt(r.users, d.peer.id);
      var j := LastChatAt(r.chats, d.peer.id);
    }
  }

  /** A group or channel gets into the cache if and only if no object of the other kind with its raw id follows it. */
  lemma CachedUnlessHidden(r: Response, d: Dialog)
    requires d.Dialog? && (d.peer.PeerChat? || d.peer.PeerChannel?)
    ensures var cs := r.chats;
            Cached(r, d).Some? <==>
            exists i :: 0 <= i < |cs| && IsEntity(cs[i], d.peer) && forall k :: i < k < |cs| ==> !Clashes(cs[k], d.peer)
  {
    var cs := r.chats;
    var j := LastChatAt(cs, d.peer.id);
    if j >= 0 && Suits(cs[j], d.peer) {
      assert IsEntity(cs[j], d.peer);
    } else if i :| 0 <= i < |cs| && IsEntity(cs[i], d.peer) {
      assert i < j && Clashes(cs[j], d.peer);
    }
  }

  /** Any listing keeps the cache consistent; with regular dialog peers it also keeps it unambiguous. */
  lemma {:induction false} ListingKeepsCache(cache: Cache, r: Response, ds: seq<Dialog>)
    ensures MapsBack(cache) ==> MapsBack(CacheAfter(cache, r, ds))
    ensures Addresses(cache) && (forall d :: d in ds ==> RegularDialog(d)) ==> Addresses(CacheAfter(cache, r, ds))
  {
    hide Cached, PeerToChatId, PeerOf, Regular;
    if ds != [] {
      var n := |ds| - 1;
      ListingKeepsCache(cache, r, ds[..n]);
      CachedIsDialogPeer(r, ds[n]);
      if Cached(r, ds[n]).Some? && RegularDialog(ds[n]) {
        ConventionInverse(ds[n].peer);
      }
    }
  }

  datatype ReadCall = ReadChannel(id: int64, accessHash: int64, upTo: int) | ReadMessages(peer: InputPeer, upTo: int)

  datatype ResolveError = RefreshFailed | NotFound

  class PeerBook {
    var peerCache: Cache

    constructor ()
      ensures peerCache == map[]
    {
      peerCache := map[];
    }

    method CachePeer(chatId: int64, peer: InputPeer)
      modifies this
      ensures peerCache == old(peerCache)[chatId := peer]
    {
      peerCache := peerCache[chatId := peer];
    }

    /** The join of ListChats: three indexes, then one pass over the dialogs. */
    method ListChats(r: Response) returns (out: seq<Chat>)
      modifies this
      ensures out == HashRows(r, r.dialogs)
      ensures RegularResponse(r) ==> (out == ScanRows(r, r.dialogs) <==> forall d :: d in r.dialogs ==> !RowHidden(r, d))
      ensures peerCache == CacheAfter(old(peerCache), r, r.dialogs)
    {
      hide MsgKey, PeerToChatId, RegularResponse, RowHidden;
      var msgByKey := IndexMessages(r.messages);
      var userById := IndexUsers(r.users);
      var chatById := IndexChats(r.chats);
      out := [];
      for i := 0 to |r.dialogs|
        invariant out == HashRows(r, r.dialogs[..i])
        invariant peerCache == CacheAfter(old(peerCache), r, r.dialogs[..i])
      {
        var d := r.dialogs[i];
        assert r.dialogs[..i + 1][..i] == r.dialogs[..i];
        var row := Row(r, d, msgByKey, userById, chatById);
        if row.Some? {
          out := out + [row.value];
        }
      }
      assert r.dialogs[..|r.dialogs|] == r.dialogs;
      if RegularResponse(r) {
        JoinIsScan(r, r.dialogs);
      }
    }

    /** The body of the dialog loop. */
    method Row(ghost r: Response, d: Dialog, msgByKey: map<string, Msg>, userById: map<int64, User>, chatById: map<int64, ChatObj>)
        returns (row: Option<Chat>)
      requires Indexes(msgByKey, k => LastByKey(r.messages, k))
      requires Indexes(userById, k => LastUser(r.users, k)) && Indexes(chatById, k => LastChat(r.chats, k))
      modifies this
      ensures row == HashRow(r, d)
      ensures peerCache == if Cached(r, d).Some? then old(peerCache)[PeerToChatId(d.peer) := Cached(r, d).value] else old(peerCache)
    {
      hide MsgKey;
      if d.DialogFolder? {
        return None;
      }
      var c := Chat(0, "", "", d.unread, [], 0, "");
      match d.peer {
      case PeerUser(id) =>
        c := c.(id := id, kind := "user");
        if id in userById && userById[id].User? {
          var u := userById[id];
          c := c.(title := FullName(u), username := u.username);
          CachePeer(c.id, InputUser(u.id, u.accessHash));
        }
      case PeerChat(id) =>
        c := c.(id := Wrap64(0 - id as int), kind := "group");
        if id in chatById && chatById[id].Group? {
          c := c.(title := chatById[id].title);
          CachePeer(c.id, InputGroup(chatById[id].id));
        }
      case PeerChannel(id) =>
        c := c.(id := Wrap64(-CHANNEL_BASE - id as int), kind := "channel");
        if id in chatById && chatById[id].Channel? {
          var ch := chatById[id];
          c := c.(title := ch.title, username := ch.username);
          CachePeer(c.id, InputChannel(ch.id, ch.accessHash));
        }
      case PeerUnknown =>
        return None;
      }
      var key := MsgKey(d.peer, d.topMessage);
      if key in msgByKey && msgByKey[key].Msg? {
        c := c.(lastMsg := Text.Truncate(msgByKey[key].text, Text.MAX_PREVIEW), lastTs := msgByKey[key].date);
      }
      return Some(c);
    }

    /** From the cache, or else after one refresh; `refresh` is what Telegram answers, None for an error. */
    method ResolvePeer(chatId: int64, refresh: Option<Response>) returns (r: Result<InputPeer, ResolveError>)
      modifies this
      ensures peerCache == if chatId in old(peerCache) || refresh.None? then old(peerCache)
                           else CacheAfter(old(peerCache), refresh.value, refresh.value.dialogs)
      ensures r == if chatId in peerCache then Ok(peerCache[chatId])
                   else if refresh.None? then Err(RefreshFailed) else Err(NotFound)
      ensures MapsBack(old(peerCache)) ==> MapsBack(peerCache) && (r.Ok? ==> PeerToChatId(AsPeer(r.value)) == chatId)
      ensures Addresses(old(peerCache)) && (refresh.Some? ==> RegularResponse(refresh.value)) ==>
                Addresses(peerCache) && (r.Ok? ==> AsPeer(r.value) == PeerOf(chatId))
      ensures r.Ok? ==> (if chatId in old(peerCache) then r.value == old(peerCache)[chatId]
                         else refresh.Some? && ComesFrom(r.value, refresh.value))
    {
      hide CacheAfter, PeerToChatId, PeerOf, RegularMsg, RowHidden, ComesFrom;
      if chatId in peerCache {
        return Ok(peerCache[chatId]);
      }
      if refresh.None? {
        return Err(RefreshFailed);
      }
      ListingKeepsCache(peerCache, refresh.value, refresh.value.dialogs);
      ListingComesFrom(peerCache, refresh.value, refresh.value.dialogs, chatId);
      var rows := ListChats(refresh.value);
      if chatId !in peerCache {
        return Err(NotFound);
      }
      return Ok(peerCache[chatId]);
    }

    /** MarkRead: channels have a call of their own. */
    method MarkRead(chatId: int64, upTo: int, refresh: Option<Response>) returns (r: Result<ReadCall, ResolveError>)
      modifies this
      ensures r.Ok? && Addresses(old(peerCache)) && (refresh.Some? ==> RegularResponse(refresh.value)) ==>
                && r.value.upTo == upTo
                && (r.value.ReadChannel? <==> chatId < -1_000_000_000_000)
                && PeerOf(chatId) == match r.value case ReadChannel(id, _, _) => PeerChannel(id) case ReadMessages(p, _) => AsPeer(p)
      ensures Addresses(old(peerCache)) && (refresh.Some? ==> RegularResponse(refresh.value)) ==> Addresses(peerCache)
      ensures MapsBack(old(peerCache)) ==> MapsBack(peerCache)
      ensures r.Ok? <==> chatId in peerCache
      ensures r.Err? ==> r == Err(if refresh.None? then RefreshFailed else NotFound)
      ensures peerCache == if chatId in old(peerCache) || refresh.None? then old(peerCache)
                           else CacheAfter(old(peerCache), refresh.value, refresh.value.dialogs)
      ensures r.Ok? ==>
                && chatId in peerCache
                && (chatId in old(peerCache) ==> peerCache[chatId] == old(peerCache)[chatId])
                && (chatId !in old(peerCache) ==> refresh.Some? && ComesFrom(peerCache[chatId], refresh.value))
                && match peerCache[chatId]
                   case InputChannel(id, hash) => r.value == ReadChannel(id, hash, upTo)
                   case InputUser(_, _) => r.value == ReadMessages(peerCache[chatId], upTo)
                   case InputGroup(_) => r.value == ReadMessages(peerCache[chatId], upTo)
    {
      hide RegularResponse, Addresses, MapsBack, CacheAfter, ComesFrom;
      var peer := ResolvePeer(chatId, refresh);
      if peer.Err? {
        return Err(peer.error);
      }
      if peer.value.InputChannel? {
        return Ok(ReadChannel(peer.value.id, peer.value.accessHash, upTo));
      }
      return Ok(ReadMessages(peer.value, upTo));
    }
  }

  /** Over any run of listings from an empty cache the cache is consistent, and unambiguous for regular peers. */
  function CacheAfterAll(rs: seq<Response>): Cache {
    if rs == [] then map[]
    else
      var n := |rs| - 1;
      CacheAfter(CacheAfterAll(rs[..n]), rs[n], rs[n].dialogs)
  }

  lemma {:induction false} CacheConsistent(rs: seq<Response>)
    ensures MapsBack(CacheAfterAll(rs))
    ensures (forall r :: r in rs ==> RegularResponse(r)) ==> Addresses(CacheAfterAll(rs))
  {
    hide CacheAfter, PeerToChatId, PeerOf;
    if rs != [] {
      var n := |rs| - 1;
      CacheConsistent(rs[..n]);
      assert rs[n] in rs && forall r :: r in rs[..n] ==> r in rs;
      ListingKeepsCache(CacheAfterAll(rs[..n]), rs[n], rs[n].dialogs);
    }
  }

  /** Over any run of listings every cached access hash is that of an object with that id in one of the responses. */
  lemma {:induction false} CacheComesFrom(rs: seq<Response>, k: int64) returns (i: nat)
    requires k in CacheAfterAll(rs)
    ensures i < |rs| && ComesFrom(CacheAfterAll(rs)[k], rs[i])
  {
    hide CacheAfter, ComesFrom;
    i := |rs| - 1;
    ListingComesFrom(CacheAfterAll(rs[..i]), rs[i], rs[i].dialogs, k);
    if !ComesFrom(CacheAfterAll(rs)[k], rs[i]) {
      i := CacheComesFrom(rs[..i], k);
    }
  }

  // ----- what a row shows

  /** The row of a user: name, user name and preview of exactly the objects that belong to the dialog. */
  lemma UserRowExactly(r: Response, d: Dialog) returns (u: int, m: int)
    requires RegularResponse(r) && d in r.dialogs && d.Dialog? && d.peer.PeerUser?
    ensures -1 <= u < |r.users| && forall k :: u < k < |r.users| ==> r.users[k].UserEmpty? || r.users[k].id != d.peer.id
    ensures u >= 0 ==> r.users[u].User? && r.users[u].id == d.peer.id
    ensures ShowsMessage(r, d, m)
    ensures HashRow(r, d) == Some(Chat(d.peer.id, "user",
                                       if u < 0 then "" else Text.TrimSpace(r.users[u].firstName + " " + r.users[u].lastName),
                                       d.unread,
                                       if m < 0 then [] else Text.Truncate(r.messages[m].text, 80),
                                       if m < 0 then 0 else r.messages[m].date,
                                       if u < 0 then "" else r.users[u].username))
  {
    hide MsgKey, Regular, Text.TrimSpace, Text.Truncate;
    assert RegularDialog(d);
    u := LastUserAt(r.users, d.peer.id);
    m := LastMessageAt(r.messages, d.peer, d.topMessage);
    KeyFindsMessage(r.messages, d.peer, d.topMessage);
  }

  /** The row of a group or channel, when its object is the last one with the raw id. */
  lemma ChatRowExactly(r: Response, d: Dialog) returns (c: int, m: int)
    requires RegularResponse(r) && d in r.dialogs && d.Dialog? && (d.peer.PeerChat? || d.peer.PeerChannel?)
    ensures -1 <= c < |r.chats| && forall k :: c < k < |r.chats| ==> r.chats[k].OtherChat? || r.chats[k].id != d.peer.id
    ensures c >= 0 ==> !r.chats[c].OtherChat? && r.chats[c].id == d.peer.id
    ensures ShowsMessage(r, d, m)
    ensures var own := c >= 0 && (d.peer.PeerChat? <==> r.chats[c].Group?);
            HashRow(r, d) == Some(Chat(if d.peer.PeerChat? then -d.peer.id else -1000000000000 - d.peer.id,
                                       if d.peer.PeerChat? then "group" else "channel",
                                       if own then r.chats[c].title else "",
                                       d.unread,
                                       if m < 0 then [] else Text.Truncate(r.messages[m].text, 80),
                                       if m < 0 then 0 else r.messages[m].date,
                                       if own && d.peer.PeerChannel? then r.chats[c].username else ""))
  {
    hide MsgKey, Text.Truncate;
    assert RegularDialog(d);
    c := LastChatAt(r.chats, d.peer.id);
    m := LastMessageAt(r.messages, d.peer, d.topMessage);
    KeyFindsMessage(r.messages, d.peer, d.topMessage);
  }

  /** Message m is the last one of the dialog's peer with its top message id, -1 when there is none. */
  ghost predicate ShowsMessage(r: Response, d: Dialog, m: int)
    requires d.Dialog?
  {
    && -1 <= m < |r.messages|
    && (m >= 0 ==> r.messages[m].Msg? && r.messages[m].peer == d.peer && r.messages[m].id == d.topMessage)
    && forall k :: m < k < |r.messages| ==> r.messages[k].OtherMsg? || r.messages[k].peer != d.peer || r.messages[k].id != d.topMessage
  }
}
