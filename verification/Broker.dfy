/** The event broker and its subscriber channels as mutable objects, one call at a time. */
module Broker {
  import opened BrokerProtocol

  class Channel {
    const bufSize: nat
    var chan: Chan

    constructor (bufSize: nat)
      ensures this.bufSize == bufSize && chan == NEW_CHAN
    {
      this.bufSize, chan := bufSize, NEW_CHAN;
    }

    /** select { case ch <- e: default: } with no receiver waiting. */
    method TrySend(pub: nat, e: Event)
      requires chan.closes == 0
      modifies this
      ensures chan == SendTo(old(chan), bufSize, pub, e)
    {
      var queued := |chan.queue|;
      if queued < bufSize {
        chan := chan.(queue := chan.queue + [e], log := chan.log + [Attempt(pub, e, queued, true)]);
      } else {
        chan := chan.(log := chan.log + [Attempt(pub, e, queued, false)]);
      }
    }

    method Receive() returns (e: Event)
      requires chan.queue != []
      modifies this
      ensures e == old(chan).queue[0] && chan == TakeFrom(old(chan))
    {
      e := chan.queue[0];
      chan := chan.(queue := chan.queue[1..], received := chan.received + [e]);
    }

    method Close()
      requires chan.closes == 0
      modifies this
      ensures chan == old(chan).(closes := 1)
    {
      chan := chan.(closes := 1);
    }
  }

  class EventBroker {
    const bufSize: nat
    var nextId: nat
    var pubs: nat
    var subs: map<nat, Channel>

    /** Subscribers are open, are not shared, and were numbered by this broker. */
    ghost predicate Valid()
      reads this, subs.Values
    {
      && (forall i :: i in subs ==> i <= nextId && subs[i].bufSize == bufSize && subs[i].chan.closes == 0)
      && (forall i, j :: i in subs && j in subs && i != j ==> subs[i] != subs[j])
    }

    constructor (bufSize: nat)
      ensures Valid() && subs == map[] && nextId == 0 && this.bufSize == bufSize
    {
      this.bufSize, nextId, pubs, subs := bufSize, 0, 0, map[];
    }

    method Subscribe() returns (ch: Channel, id: nat)
      requires Valid()
      modifies this
      ensures Valid() && fresh(ch) && ch.chan == NEW_CHAN
      ensures id == old(nextId) + 1 == nextId && id !in old(subs) && subs == old(subs)[id := ch]
    {
      ch := new Channel(bufSize);
      nextId := nextId + 1;
      id := nextId;
      subs := subs[id := ch];
    }

    /** The unsubscribe closure; a second call finds nothing and does nothing. */
    method Unsubscribe(id: nat)
      requires Valid()
      modifies this, subs.Values
      ensures Valid() && subs == old(subs) - {id}
      ensures forall i :: i in old(subs) ==>
                old(subs)[i].chan == if i == id then old(subs[i].chan).(closes := 1) else old(subs[i].chan)
    {
      if id in subs {
        var c := subs[id];
        subs := subs - {id};
        c.Close();
      }
    }

    /** Sends to every subscriber, in arbitrary order, without blocking. */
    method Publish(e: Event)
      requires Valid()
      modifies `pubs, subs.Values
      ensures Valid() && pubs == old(pubs) + 1
      ensures forall i :: i in subs ==> subs[i].chan == SendTo(old(subs[i].chan), bufSize, old(pubs), e)
    {
      hide SendTo;
      var pub := pubs;
      pubs := pubs + 1;
      var todo := subs.Keys;
      while todo != {}
        invariant todo <= subs.Keys && pubs == old(pubs) + 1 && Valid()
        invariant forall i :: i in subs ==>
                    subs[i].chan == if i in todo then old(subs[i].chan) else SendTo(old(subs[i].chan), bufSize, pub, e)
        decreases todo
      {
        var i :| i in todo;
        todo := todo - {i};
        assert subs[i] in subs.Values;
        SendLeavesOpen(subs[i].chan, bufSize, pub, e);
        subs[i].TrySend(pub, e);
      }
    }
  }

  lemma SendLeavesOpen(c: Chan, bufSize: nat, pub: nat, e: Event)
    ensures SendTo(c, bufSize, pub, e).closes == c.closes
  {
  }
}
