/**
 From Telegram to a WebSocket client: dispatchMessage with the allow-list of the first client, the broker,
 and the loop that writes the events its own client may see.
 */
module Delivery {
  import opened Prelude
  import opened PeerIds
  import opened BrokerProtocol
  import opened Broker
  import opened MediaId
  import opened MediaSummary
  import Text

  datatype FullUser = FullUser(firstName: string, lastName: string)

  /** The users, groups and channels that come with an update; of the last two the titles. */
  datatype Entities = Entities(users: map<int64, FullUser>, groups: map<int64, string>, channels: map<int64, string>)

  /** A message with the entities of its update. */
  datatype Message =
    | Message(out: bool, peer: Peer, from: Option<Peer>, id: int, text: string, date: int64, replyTo: Option<int>,
              media: Option<Media>, entities: Entities)
    | OtherMessage

  /** An allow-list permits a chat when it is empty or contains it. */
  predicate Permits(allow: seq<int64>, chatId: int64) {
    allow == [] || chatId in allow
  }

  /** The first configured client decides for everybody. */
  predicate GloballyPermits(clients: seq<seq<int64>>, chatId: int64) {
    clients == [] || Permits(clients[0], chatId)
  }

  /** A connection without a client configuration sees everything. */
  predicate ClientPermits(client: Option<seq<int64>>, chatId: int64) {
    client.None? || Permits(client.value, chatId)
  }

  predicate Dispatched(clients: seq<seq<int64>>, m: Message) {
    m.Message? && !m.out && GloballyPermits(clients, PeerToChatId(m.peer))
  }

  /** Published are incoming messages of the chats that the first client may see, or of all if it has no list. */
  lemma DispatchedExactly(clients: seq<seq<int64>>, m: Message)
    ensures Dispatched(clients, m) <==>
            m.Message? && !m.out && (|clients| == 0 || |clients[0]| == 0 || PeerToChatId(m.peer) in clients[0])
  {
  }

  /** The name of a peer, "" for one that is not among the entities. */
  function ResolveName(e: Entities, p: Peer): string {
    match p
    case PeerUser(id) => if id in e.users then Text.FullName(e.users[id].firstName, e.users[id].lastName) else ""
    case PeerChat(id) => if id in e.groups then e.groups[id] else ""
    case PeerChannel(id) => if id in e.channels then e.channels[id] else ""
    case PeerUnknown => ""
  }

  /** What signs media ids. */
  datatype Signer = Signer(hmac: Hmac, key: seq<byte>)

  function EventOf(sg: Signer, m: Message): Event
    requires m.Message?
  {
    Event("message", PeerToChatId(m.peer), m.id,
          ResolveName(m.entities, if m.from.Some? then m.from.value else m.peer),
          if m.from.Some? then PeerToChatId(m.from.value) else 0,
          m.text, m.date,
          if m.replyTo.Some? then m.replyTo.value else 0,
          if m.media.Some? then Some(SummaryOf(sg.hmac, sg.key, m.media.value)) else None)
  }

  /** The fields of the event are those of the message; the sender names it if it is there, else the chat does. */
  ghost predicate Carries(ev: Event, sg: Signer, m: Message)
    requires m.Message?
  {
    && ev.kind == "message" && ev.chatId == PeerToChatId(m.peer) && ev.msgId == m.id
    && ev.text == m.text && ev.ts == m.date
    && (m.replyTo.Some? ==> ev.replyTo == m.replyTo.value) && (m.replyTo.None? ==> ev.replyTo == 0)
    && (m.from.Some? ==> ev.fromId == PeerToChatId(m.from.value) && NamedIn(m.entities, m.from.value, ev.from))
    && (m.from.None? ==> ev.fromId == 0 && NamedIn(m.entities, m.peer, ev.from))
    && (m.media.None? ==> ev.media.None?)
    && (m.media.Some? ==> ev.media == Some(SummaryOf(sg.hmac, sg.key, m.media.value)))
  }

  lemma EventExactly(sg: Signer, m: Message)
    requires m.Message?
    ensures Carries(EventOf(sg, m), sg, m)
  {
    hide Text.FullName, SummaryOf;
    FullNameIsTrimmed(m.entities);
  }

  /** The entities give the peer this name, and "" if they do not know it. */
  ghost predicate NamedIn(e: Entities, p: Peer, name: string) {
    && (p.PeerUser? && p.id in e.users ==> name == Text.TrimSpace(e.users[p.id].firstName + " " + e.users[p.id].lastName))
    && (p.PeerChat? && p.id in e.groups ==> name == e.groups[p.id])
    && (p.PeerChannel? && p.id in e.channels ==> name == e.channels[p.id])
    && (p.PeerUser? && p.id !in e.users ==> name == "")
    && (p.PeerChat? && p.id !in e.groups ==> name == "")
    && (p.PeerChannel? && p.id !in e.channels ==> name == "")
    && (p.PeerUnknown? ==> name == "")
  }

  lemma FullNameIsTrimmed(e: Entities)
    ensures forall id :: id in e.users ==>
              Text.FullName(e.users[id].firstName, e.users[id].lastName)
              == Text.TrimSpace(e.users[id].firstName + " " + e.users[id].lastName)
  {
    hide Text.TrimSpace;
  }

  /** Without a configured client, or with an empty list of the first one, every chat is permitted; else those listed. */
  lemma PermittedExactly(clients: seq<seq<int64>>, client: Option<seq<int64>>, chatId: int64)
    ensures clients == [] || |clients[0]| == 0 ==> GloballyPermits(clients, chatId)
    ensures clients != [] && |clients[0]| > 0 ==>
              (GloballyPermits(clients, chatId) <==> exists i :: 0 <= i < |clients[0]| && clients[0][i] == chatId)
    ensures client.None? || |client.value| == 0 ==> ClientPermits(client, chatId)
    ensures client.Some? && |client.value| > 0 ==>
              (ClientPermits(client, chatId) <==> exists i :: 0 <= i < |client.value| && client.value[i] == chatId)
  {
  }

  method ChatAllowed(clients: seq<seq<int64>>, chatId: int64) returns (ok: bool)
    ensures ok == GloballyPermits(clients, chatId)
  {
    if |clients| == 0 {
      return true;
    }
    var allow := clients[0];
    if |allow| == 0 {
      return true;
    }
    for i := 0 to |allow|
      invariant chatId !in allow[..i]
    {
      if allow[i] == chatId {
        return true;
      }
    }
    return false;
  }

  method EventAllowed(client: Option<seq<int64>>, ev: Event) returns (ok: bool)
    ensures ok == ClientPermits(client, ev.chatId)
  {
    if client.None? || |client.value| == 0 {
      return true;
    }
    for i := 0 to |client.value|
      invariant ev.chatId !in client.value[..i]
    {
      if client.value[i] == ev.chatId {
        return true;
      }
    }
    return false;
  }

  /** Publishes the event of an incoming message that the first client may see, and nothing else. */
  method DispatchMessage(b: EventBroker, clients: seq<seq<int64>>, sg: Signer, m: Message)
    requires b.Valid()
    modifies b, b.subs.Values
    ensures b.Valid() && b.subs == old(b.subs)
    ensures forall i :: i in b.subs ==>
              b.subs[i].chan == if Dispatched(clients, m)
                                then SendTo(old(b.subs[i].chan), b.bufSize, old(b.pubs), EventOf(sg, m))
                                else old(b.subs[i].chan)
    ensures m.OtherMessage? || m.out || (clients != [] && clients[0] != [] && PeerToChatId(m.peer) !in clients[0]) ==>
              forall i :: i in b.subs ==> b.subs[i].chan == old(b.subs[i].chan)
    ensures m.Message? && !m.out && (clients == [] || clients[0] == [] || PeerToChatId(m.peer) in clients[0]) ==>
              forall i :: i in b.subs && |old(b.subs[i].chan).queue| < b.bufSize ==>
                GrowsBy(old(b.subs[i].chan).queue, b.subs[i].chan.queue, sg, m)
  {
    hide SendTo, SummaryOf, ResolveName, GrowsBy;
    forall c: Chan, pub { DispatchedGrows(c, b.bufSize, pub, sg, m); }
    if m.OtherMessage? || m.out {
      return;
    }
    var chatId := PeerToChatId(m.peer);
    var ok := ChatAllowed(clients, chatId);
    if !ok {
      return;
    }
    var ev := Event("message", chatId, m.id, "", 0, m.text, m.date, 0, None);
    if m.from.Some? {
      ev := ev.(fromId := PeerToChatId(m.from.value), from := ResolveName(m.entities, m.from.value));
    } else {
      ev := ev.(from := ResolveName(m.entities, m.peer));
    }
    if m.replyTo.Some? {
      ev := ev.(replyTo := m.replyTo.value);
    }
    if m.media.Some? {
      var s := SummarizeMedia(sg.hmac, sg.key, m.media.value);
      ev := ev.(media := Some(s));
    }
    b.Publish(ev);
  }

  /** One event more at the end of the queue, and it carries the message. */
  ghost predicate GrowsBy(before: seq<Event>, after: seq<Event>, sg: Signer, m: Message)
    requires m.Message?
  {
    |after| == |before| + 1 && after[..|before|] == before && Carries(after[|before|], sg, m)
  }

  lemma DispatchedGrows(c: Chan, bufSize: nat, pub: nat, sg: Signer, m: Message)
    ensures m.Message? && |c.queue| < bufSize ==>
              GrowsBy(c.queue, SendTo(c, bufSize, pub, EventOf(sg, m)).queue, sg, m)
  {
    hide Carries, EventOf;
    if m.Message? { EventExactly(sg, m); }
  }

  /** The events of a sequence that a client may see. */
  function Visible(client: Option<seq<int64>>, evs: seq<Event>): seq<Event> {
    if evs == [] then []
    else
      var n := |evs| - 1;
      Visible(client, evs[..n]) + if ClientPermits(client, evs[n].chatId) then [evs[n]] else []
  }

  lemma {:induction false} VisibleConcat(client: Option<seq<int64>>, a: seq<Event>, b: seq<Event>)
    ensures Visible(client, a + b) == Visible(client, a) + Visible(client, b)
  {
    if b == [] {
      assert a + b == a;
    } else {
      hide ClientPermits;
      var n := |b| - 1;
      VisibleConcat(client, a, b[..n]);
      assert (a + b)[..|a + b| - 1] == a + b[..n] && (a + b)[|a + b| - 1] == b[n];
    }
  }

  lemma VisibleNone(client: Option<seq<int64>>)
    ensures Visible(client, []) == []
  {
  }

  lemma VisibleOne(client: Option<seq<int64>>, ev: Event)
    ensures Visible(client, [ev]) == if ClientPermits(client, ev.chatId) then [ev] else []
  {
    assert [ev][..0] == [];
  }

  lemma VisibleFirst(client: Option<seq<int64>>, queue: seq<Event>)
    requires queue != []
    ensures Visible(client, queue) ==
            (if ClientPermits(client, queue[0].chatId) then [queue[0]] else []) + Visible(client, queue[1..])
  {
    hide Visible, ClientPermits;
    VisibleOne(client, queue[0]);
    VisibleConcat(client, [queue[0]], queue[1..]);
    assert [queue[0]] + queue[1..] == queue;
  }

  /**
   The loop of handleEvents over what is queued: `writes` says how many writes succeed before one fails.
   While none fails, exactly the visible events are written, in order, and the queue is drained.
   */
  method DrainEvents(ch: Channel, client: Option<seq<int64>>, writes: nat) returns (written: seq<Event>, failed: bool)
    modifies ch
    ensures !failed ==> written == Visible(client, old(ch.chan).queue) && ch.chan.queue == []
    ensures failed ==> |written| == writes && written < Visible(client, old(ch.chan).queue)
    ensures failed <==> |Visible(client, old(ch.chan).queue)| > writes
    ensures ch.chan.received + ch.chan.queue == old(ch.chan).received + old(ch.chan).queue && ch.chan.log == old(ch.chan).log
    ensures var before, after := Visible(client, old(ch.chan).received), Visible(client, ch.chan.received);
            if failed then exists ev :: after == before + written + [ev] else after == before + written
  {
    hide Visible, ClientPermits;
    ghost var all := ch.chan.queue;
    written, failed := [], false;
    assert Visible(client, old(ch.chan).received) + [] == Visible(client, old(ch.chan).received);
    while ch.chan.queue != []
      invariant written + Visible(client, ch.chan.queue) == Visible(client, all) && |written| <= writes
      invariant ch.chan.received + ch.chan.queue == old(ch.chan).received + all && ch.chan.log == old(ch.chan).log
      invariant Visible(client, ch.chan.received) == Visible(client, old(ch.chan).received) + written
      decreases |ch.chan.queue|
    {
      ghost var queue, taken, sofar := ch.chan.queue, ch.chan.received, written;
      var ev := ch.Receive();
      VisibleFirst(client, queue);
      VisibleConcat(client, taken, [ev]);
      VisibleOne(client, ev);
      var ok := EventAllowed(client, ev);
      if !ok {
        continue;
      }
      assert Visible(client, all) == (sofar + [ev]) + Visible(client, queue[1..]);
      if |written| == writes {
        failed := true;
        return;
      }
      written := written + [ev];
    }
    VisibleNone(client);
  }

  // ----- the whole path for one subscriber

  datatype Config = Config(clients: seq<seq<int64>>, client: Option<seq<int64>>, signer: Signer, bufSize: nat)

  /** What a subscriber sees of the rest: messages arriving, and its own loop taking events. */
  datatype Step = Arrive(m: Message) | Deliver

  datatype Path = Path(chan: Chan, written: seq<Event>)

  function ApplyStep(cfg: Config, p: Path, step: Step): Path {
    match step
    case Arrive(m) =>
      if Dispatched(cfg.clients, m) then p.(chan := SendTo(p.chan, cfg.bufSize, |p.chan.log|, EventOf(cfg.signer, m))) else p
    case Deliver =>
      if p.chan.queue == [] then p
      else
        var ev := p.chan.queue[0];
        Path(TakeFrom(p.chan), p.written + if ClientPermits(cfg.client, ev.chatId) then [ev] else [])
  }

  function RunPath(cfg: Config, steps: seq<Step>): Path {
    if steps == [] then Path(NEW_CHAN, [])
    else ApplyStep(cfg, RunPath(cfg, steps[..|steps| - 1]), steps[|steps| - 1])
  }

  /** An arrival that this client should see: incoming, permitted by the first client's list and by its own. */
  predicate IsWanted(cfg: Config, step: Step) {
    step.Arrive? && Dispatched(cfg.clients, step.m) && ClientPermits(cfg.client, PeerToChatId(step.m.peer))
  }

  /** The events that this client should get. */
  function Wanted(cfg: Config, steps: seq<Step>): seq<Event> {
    if steps == [] then []
    else
      var n := |steps| - 1;
      Wanted(cfg, steps[..n]) + if IsWanted(cfg, steps[n]) then [EventOf(cfg.signer, steps[n].m)] else []
  }

  predicate HasRoom(cfg: Config, p: Path) { |p.chan.queue| < cfg.bufSize }

  /** The queue has room whenever a message arrives that this client should see. */
  ghost predicate RoomWhenWanted(cfg: Config, steps: seq<Step>) {
    forall n :: 0 <= n < |steps| && IsWanted(cfg, steps[n]) ==> HasRoom(cfg, RunPath(cfg, steps[..n]))
  }

  /** How many of those arrivals find no room. */
  function Lost(cfg: Config, steps: seq<Step>): nat {
    if steps == [] then 0
    else
      var n := |steps| - 1;
      Lost(cfg, steps[..n]) + if IsWanted(cfg, steps[n]) && !HasRoom(cfg, RunPath(cfg, steps[..n])) then 1 else 0
  }

  /** What the client has been written, and what it will be written from the queue. */
  function OnItsWay(cfg: Config, p: Path): seq<Event> {
    p.written + Visible(cfg.client, p.chan.queue)
  }

  /** Every wanted event is written, queued or counted as lost, and without losses the order is that of arrival. */
  lemma {:induction false} WrittenQueuedOrLost(cfg: Config, steps: seq<Step>)
    ensures |OnItsWay(cfg, RunPath(cfg, steps))| + Lost(cfg, steps) == |Wanted(cfg, steps)|
    ensures Lost(cfg, steps) == 0 ==> OnItsWay(cfg, RunPath(cfg, steps)) == Wanted(cfg, steps)
  {
    if steps == [] {
      VisibleNone(cfg.client);
    } else {
      var n := |steps| - 1;
      var p := RunPath(cfg, steps[..n]);
      WrittenQueuedOrLost(cfg, steps[..n]);
      assert RunPath(cfg, steps) == ApplyStep(cfg, p, steps[n]);
      hide RunPath, OnItsWay, ApplyStep, ClientPermits, GloballyPermits;
      match steps[n]
      case Arrive(m) => ArrivalOnItsWay(cfg, p, m);
      case Deliver => DeliveryMovesOn(cfg, p);
    }
  }

  /** An arrival adds its event, if wanted and if there is room, to what is on its way. */
  lemma ArrivalOnItsWay(cfg: Config, p: Path, m: Message)
    ensures OnItsWay(cfg, ApplyStep(cfg, p, Arrive(m))) ==
            OnItsWay(cfg, p) + if IsWanted(cfg, Arrive(m)) && HasRoom(cfg, p) then [EventOf(cfg.signer, m)] else []
  {
    hide Visible, ClientPermits;
    if Dispatched(cfg.clients, m) {
      VisibleOne(cfg.client, EventOf(cfg.signer, m));
      VisibleConcat(cfg.client, p.chan.queue, [EventOf(cfg.signer, m)]);
    }
  }

  lemma DeliveryMovesOn(cfg: Config, p: Path)
    ensures OnItsWay(cfg, ApplyStep(cfg, p, Deliver)) == OnItsWay(cfg, p)
  {
    hide Visible, ClientPermits;
    if p.chan.queue != [] {
      VisibleFirst(cfg.client, p.chan.queue);
    }
  }

  lemma {:induction false} LostNone(cfg: Config, steps: seq<Step>)
    ensures Lost(cfg, steps) == 0 <==> RoomWhenWanted(cfg, steps)
  {
    hide RunPath, IsWanted, HasRoom;
    if steps != [] {
      var n := |steps| - 1;
      LostNone(cfg, steps[..n]);
      assert forall k :: 0 <= k <= n ==> steps[..n][..k] == steps[..k];
      if RoomWhenWanted(cfg, steps[..n]) {
        forall k | 0 <= k < n && IsWanted(cfg, steps[k]) ensures HasRoom(cfg, RunPath(cfg, steps[..k])) {
          assert IsWanted(cfg, steps[..n][k]);
        }
      }
      if RoomWhenWanted(cfg, steps) {
        forall k | 0 <= k < n && IsWanted(cfg, steps[..n][k]) ensures HasRoom(cfg, RunPath(cfg, steps[..n][..k])) {
          assert IsWanted(cfg, steps[k]);
        }
      }
    }
  }

  /** Nothing is missing if and only if every arrival that the client should see found room. */
  lemma NothingMissing(cfg: Config, steps: seq<Step>)
    ensures OnItsWay(cfg, RunPath(cfg, steps)) == Wanted(cfg, steps) <==> RoomWhenWanted(cfg, steps)
  {
    hide RunPath, OnItsWay, Wanted, Lost, RoomWhenWanted;
    WrittenQueuedOrLost(cfg, steps);
    LostNone(cfg, steps);
  }

  /**
   Lossless filtered delivery, exactly: once the queue is drained the client has been written the events it
   should get, in order of arrival, if and only if each of them found room when it arrived.
   */
  lemma LosslessDelivery(cfg: Config, steps: seq<Step>)
    requires RunPath(cfg, steps).chan.queue == []
    ensures RunPath(cfg, steps).written == Wanted(cfg, steps) <==> RoomWhenWanted(cfg, steps)
  {
    NothingMissing(cfg, steps);
    hide RunPath, Wanted, RoomWhenWanted;
    VisibleNone(cfg.client);
  }
}
