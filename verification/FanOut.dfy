/**
 What reaches a client through the broker under concurrency: the subscriptions and publications of
 BrokerProtocol in any interleaving, and the loop that writes the visible ones of the events it receives.
 */
module FanOut {
  import opened Prelude
  import opened PeerIds
  import opened BrokerProtocol
  import opened Delivery

  type BrokerStep = BrokerProtocol.Step

  // ----- the log of a channel tells which publications were sent to it

  /** Step k < n begins publication `pub` of event `ev`. */
  ghost predicate Began(steps: seq<BrokerStep>, n: nat, pub: nat, ev: Event) {
    exists k :: 0 <= k < n && k < |steps| && steps[k] == BeginPublish(pub, ev)
  }

  /** Running publications and attempted sends carry the event that their publication began with. */
  ghost predicate Faithful(s: State, steps: seq<BrokerStep>, n: nat) {
    && (forall p :: p in s.publishers ==> Began(steps, n, p, s.publishers[p].ev))
    && (forall id, i :: id in s.chans && 0 <= i < |s.chans[id].log| ==>
          Began(steps, n, s.chans[id].log[i].pub, s.chans[id].log[i].ev))
  }

  lemma {:induction false} RunIsFaithful(states: seq<State>, steps: seq<BrokerStep>, bufSize: nat, n: nat)
    requires BrokerProtocol.IsRun(states, steps, bufSize) && n < |states|
    ensures Faithful(states[n], steps, n)
  {
    if n > 0 {
      RunIsFaithful(states, steps, bufSize, n - 1);
      var s, t := states[n - 1], states[n];
      assert Enabled(s, steps[n - 1]) && t == Apply(s, steps[n - 1], bufSize);
      StepIsFaithful(s, steps, bufSize, n);
    }
  }

  lemma StepIsFaithful(s: State, steps: seq<BrokerStep>, bufSize: nat, n: nat)
    requires 0 < n <= |steps| && Enabled(s, steps[n - 1]) && Faithful(s, steps, n - 1)
    ensures Faithful(Apply(s, steps[n - 1], bufSize), steps, n)
  {
    hide Began;
    var t := Apply(s, steps[n - 1], bufSize);
    forall p | p in t.publishers ensures Began(steps, n, p, t.publishers[p].ev) {
      if p in s.publishers && t.publishers[p].ev == s.publishers[p].ev {
        Longer(steps, n, p, s.publishers[p].ev);
      } else {
        JustBegan(steps, n, p, t.publishers[p].ev);
      }
    }
    forall id, i | id in t.chans && 0 <= i < |t.chans[id].log|
      ensures Began(steps, n, t.chans[id].log[i].pub, t.chans[id].log[i].ev)
    {
      var a := t.chans[id].log[i];
      if id in s.chans && i < |s.chans[id].log| {
        assert s.chans[id].log[i] == a;
        Longer(steps, n, a.pub, a.ev);
      } else {
        assert a.pub in s.publishers && a.ev == s.publishers[a.pub].ev;
        Longer(steps, n, a.pub, a.ev);
      }
    }
  }

  lemma Longer(steps: seq<BrokerStep>, n: nat, pub: nat, ev: Event)
    requires n > 0 && Began(steps, n - 1, pub, ev)
    ensures Began(steps, n, pub, ev)
  {
  }

  lemma JustBegan(steps: seq<BrokerStep>, n: nat, pub: nat, ev: Event)
    requires 0 < n <= |steps| && steps[n - 1] == BeginPublish(pub, ev)
    ensures Began(steps, n, pub, ev)
  {
  }

  /** The targets of a publication are the subscribers of the moment it began, for good. */
  lemma {:induction false} TargetsAreSubscribers(states: seq<State>, steps: seq<BrokerStep>, bufSize: nat, k: nat, n: nat)
    requires BrokerProtocol.IsRun(states, steps, bufSize) && k < n < |states| && steps[k].BeginPublish?
    ensures steps[k].pub in states[n].targets && states[n].targets[steps[k].pub] == states[k].subs
    decreases n
  {
    assert Enabled(states[n - 1], steps[n - 1]) && states[n] == Apply(states[n - 1], steps[n - 1], bufSize);
    if k < n - 1 {
      TargetsAreSubscribers(states, steps, bufSize, k, n - 1);
    }
  }

  /** A publication number is used once. */
  lemma BeganOnce(states: seq<State>, steps: seq<BrokerStep>, bufSize: nat, i: nat, j: nat)
    requires BrokerProtocol.IsRun(states, steps, bufSize) && i <= j < |steps|
    requires steps[i].BeginPublish? && steps[j].BeginPublish? && steps[i].pub == steps[j].pub
    ensures i == j
  {
    if i < j {
      assert Enabled(states[j], steps[j]);
      TargetsAreSubscribers(states, steps, bufSize, i, j);
    }
  }

  /** A finished publication was sent, as its own event and once, to exactly the subscribers of its beginning. */
  lemma SentToSubscribers(states: seq<State>, steps: seq<BrokerStep>, bufSize: nat, n: nat, id: nat, k: nat)
    requires BrokerProtocol.IsRun(states, steps, bufSize) && k < n < |states| && id in states[n].chans
    requires steps[k].BeginPublish? && steps[k].pub !in states[n].publishers
    ensures var log := states[n].chans[id].log;
            && OncePerPub(log)
            && (id in states[k].subs <==>
                exists i :: 0 <= i < |log| && log[i].pub == steps[k].pub && log[i].ev == steps[k].ev)
  {
    var log, pub := states[n].chans[id].log, steps[k].pub;
    TargetsAreSubscribers(states, steps, bufSize, k, n);
    PublishedToAll(states, steps, bufSize, n, pub, id);
    RunIsFaithful(states, steps, bufSize, n);
    if i :| 0 <= i < |log| && log[i].pub == pub {
      var j :| 0 <= j < n && j < |steps| && steps[j] == BeginPublish(pub, log[i].ev);
      BeganOnce(states, steps, bufSize, if j <= k then j else k, if j <= k then k else j);
    }
  }

  // ----- what the loop of a client writes

  /** How many visible events the log has dropped. */
  function LostVisible(client: Option<seq<int64>>, log: seq<Attempt>): nat {
    if log == [] then 0
    else
      var a := log[|log| - 1];
      LostVisible(client, log[..|log| - 1]) + if ClientPermits(client, a.ev.chatId) && !a.delivered then 1 else 0
  }

  ghost predicate VisibleDelivered(client: Option<seq<int64>>, log: seq<Attempt>) {
    forall i :: 0 <= i < |log| && ClientPermits(client, log[i].ev.chatId) ==> log[i].delivered
  }

  lemma {:induction false} DeliveredOrLost(client: Option<seq<int64>>, log: seq<Attempt>)
    ensures |Visible(client, Delivered(log))| + LostVisible(client, log) == |Visible(client, Sent(log))|
    ensures LostVisible(client, log) == 0 ==> Visible(client, Delivered(log)) == Visible(client, Sent(log))
  {
    hide Visible, ClientPermits, AttemptedBy;
    VisibleNone(client);
    if log != [] {
      var n := |log| - 1;
      var before, a := log[..n], log[n];
      DeliveredOrLost(client, before);
      assert log == before + [a];
      LogGrows(before, a);
      hide Delivered, Sent;
      VisibleConcat(client, Sent(before), [a.ev]);
      VisibleConcat(client, Delivered(before), if a.delivered then [a.ev] else []);
      VisibleOne(client, a.ev);
    }
  }

  lemma {:induction false} NoneLost(client: Option<seq<int64>>, log: seq<Attempt>)
    ensures LostVisible(client, log) == 0 <==> VisibleDelivered(client, log)
  {
    hide ClientPermits;
    if log != [] { NoneLost(client, log[..|log| - 1]); }
  }

  /**
   In every state of every run, for each subscriber: what its loop writes of the events received, and will
   write of those queued, are the visible ones of the events sent to it, in order, if and only if none of the
   visible ones met a full queue; each that did is missing once.
   */
  lemma LoopWrites(states: seq<State>, steps: seq<BrokerStep>, bufSize: nat, n: nat, id: nat, client: Option<seq<int64>>)
    requires BrokerProtocol.IsRun(states, steps, bufSize) && n < |states| && id in states[n].chans
    ensures var c := states[n].chans[id];
            var stream, meant := Visible(client, c.received) + Visible(client, c.queue), Visible(client, Sent(c.log));
            && (stream == meant <==> VisibleDelivered(client, c.log))
            && |stream| + LostVisible(client, c.log) == |meant|
            && forall i :: 0 <= i < |c.log| && !c.log[i].delivered ==> c.log[i].queued == bufSize
  {
    hide BrokerProtocol.IsRun, Visible, VisibleDelivered;
    RunInv(states, steps, bufSize, n);
    var c := states[n].chans[id];
    assert ChanOk(c, bufSize);
    VisibleConcat(client, c.received, c.queue);
    DeliveredOrLost(client, c.log);
    NoneLost(client, c.log);
  }

  /**
   Lossless fan-out: with all publications finished and the queue drained, a client whose visible events never
   met a full queue has been written exactly the visible ones of the events sent to it, in order, and these
   include every publication that began while it was subscribed, and no other.
   */
  lemma LosslessFanOut(states: seq<State>, steps: seq<BrokerStep>, bufSize: nat, n: nat, id: nat, client: Option<seq<int64>>)
    requires BrokerProtocol.IsRun(states, steps, bufSize) && n < |states| && id in states[n].chans
    requires states[n].publishers == map[] && states[n].chans[id].queue == []
    ensures var c := states[n].chans[id];
            && (Visible(client, c.received) == Visible(client, Sent(c.log)) <==> VisibleDelivered(client, c.log))
            && (forall k :: 0 <= k < n && steps[k].BeginPublish? ==>
                  (id in states[k].subs <==>
                   exists i :: 0 <= i < |c.log| && c.log[i].pub == steps[k].pub && c.log[i].ev == steps[k].ev))
            && (forall i :: 0 <= i < |c.log| ==> Began(steps, n, c.log[i].pub, c.log[i].ev))
  {
    var c := states[n].chans[id];
    RunIsFaithful(states, steps, bufSize, n);
    LoopWrites(states, steps, bufSize, n, id, client);
    VisibleNone(client);
    hide Visible, VisibleDelivered, Began, Enabled, Apply;
    assert Visible(client, c.received) + [] == Visible(client, c.received);
    forall k | 0 <= k < n && steps[k].BeginPublish?
      ensures id in states[k].subs <==>
              exists i :: 0 <= i < |c.log| && c.log[i].pub == steps[k].pub && c.log[i].ev == steps[k].ev
    {
      SentToSubscribers(states, steps, bufSize, n, id, k);
    }
  }

  // ----- order

  lemma {:induction false} TargetsStay(states: seq<State>, steps: seq<BrokerStep>, bufSize: nat, pub: nat, k: nat, n: nat)
    requires BrokerProtocol.IsRun(states, steps, bufSize) && k <= n < |states| && pub in states[k].targets
    ensures pub in states[n].targets && states[n].targets[pub] == states[k].targets[pub]
    ensures pub !in states[k].publishers ==> pub !in states[n].publishers
    decreases n
  {
    if k < n {
      TargetsStay(states, steps, bufSize, pub, k, n - 1);
      assert Enabled(states[n - 1], steps[n - 1]) && states[n] == Apply(states[n - 1], steps[n - 1], bufSize);
    }
  }

  /** A publication that had ended before another began stands before it in every log that has both. */
  lemma OrderKept(states: seq<State>, steps: seq<BrokerStep>, bufSize: nat, n: nat, id: nat, first: nat, k: nat, i: nat, j: nat)
    requires BrokerProtocol.IsRun(states, steps, bufSize) && k < n < |states| && id in states[n].chans
    requires steps[k].BeginPublish? && first in states[k].targets && first !in states[k].publishers
    requires var log := states[n].chans[id].log;
             i < |log| && j < |log| && log[i].pub == first && log[j].pub == steps[k].pub
    ensures i < j
  {
    var log := states[n].chans[id].log;
    assert Enabled(states[k], steps[k]);
    TargetsStay(states, steps, bufSize, first, k, n);
    PublishedToAll(states, steps, bufSize, n, first, id);
    assert AttemptedBy(log, first);
    RunInv(states, steps, bufSize, k);
    InTargets(states[k], bufSize, first, id);
    hide Enabled, Apply, Burst;
    BurstFits(states, steps, bufSize, k, n, id);
    PublishedToAll(states, steps, bufSize, k, first, id);
    NotYetAttempted(states[k], bufSize, steps[k].pub, id);
    hide BrokerProtocol.IsRun, Inv;
    LogPrefix(states[k].chans[id], states[n].chans[id], bufSize);
    EarlierThenLater(states[k].chans[id].log, log, first, steps[k].pub, i, j);
  }

  lemma InTargets(s: State, bufSize: nat, pub: nat, id: nat)
    requires Inv(s, bufSize) && pub in s.targets && id in s.targets[pub]
    ensures id in s.chans
  {
  }

  lemma NotYetAttempted(s: State, bufSize: nat, pub: nat, id: nat)
    requires Inv(s, bufSize) && pub !in s.targets && id in s.chans
    ensures !AttemptedBy(s.chans[id].log, pub)
  {
    hide AttemptedBy, ChanOk;
  }

  lemma LogPrefix(c: Chan, d: Chan, bufSize: nat)
    requires Burst(c, d, bufSize)
    ensures c.log <= d.log
  {
  }

  lemma EarlierThenLater(before: seq<Attempt>, log: seq<Attempt>, first: nat, second: nat, i: nat, j: nat)
    requires before <= log && OncePerPub(log) && AttemptedBy(before, first) && !AttemptedBy(before, second)
    requires i < |log| && j < |log| && log[i].pub == first && log[j].pub == second
    ensures i < j
  {
    assert forall x :: 0 <= x < |before| ==> log[x] == before[x];
    var m :| 0 <= m < |before| && before[m].pub == first;
    assert log[m] == before[m];
  }

  // ----- from the messages that arrive

  /** The publications are those of dispatchMessage on these messages, numbered by arrival, and all have begun. */
  ghost predicate PublishesArrivals(clients: seq<seq<int64>>, sg: Signer, arrivals: seq<Message>,
                                    steps: seq<BrokerStep>)
  {
    && (forall k :: 0 <= k < |steps| && steps[k].BeginPublish? ==>
          && steps[k].pub < |arrivals| && Dispatched(clients, arrivals[steps[k].pub])
          && steps[k].ev == EventOf(sg, arrivals[steps[k].pub]))
    && (forall a :: 0 <= a < |arrivals| && Dispatched(clients, arrivals[a]) ==>
          exists k :: 0 <= k < |steps| && steps[k].BeginPublish? && steps[k].pub == a)
  }

  /** The subscriber was there when the publication of message `a` began. */
  ghost predicate SubscribedAt(states: seq<State>, steps: seq<BrokerStep>, a: nat, id: nat)
    requires |states| == |steps| + 1
  {
    exists k :: 0 <= k < |steps| && steps[k].BeginPublish? && steps[k].pub == a && id in states[k].subs
  }

  /** Message `a` is one that the client should be written. */
  ghost predicate Meant(clients: seq<seq<int64>>, client: Option<seq<int64>>, m: Message) {
    Dispatched(clients, m) && ClientPermits(client, PeerToChatId(m.peer))
  }

  /** The log has a visible attempt of publication `a`. */
  ghost predicate ShownIn(log: seq<Attempt>, client: Option<seq<int64>>, a: nat) {
    exists i :: 0 <= i < |log| && log[i].pub == a && ClientPermits(client, log[i].ev.chatId)
  }

  /**
   From the messages to the client in every interleaving: when all is published and drained, the client has been
   written the visible events sent to it, in the order of the sends, if and only if none met a full queue, and
   these are the events of exactly the messages that were incoming, permitted by the list of the first client
   and by its own, and published while it was subscribed.
   */
  lemma FilteredFanOut(states: seq<State>, steps: seq<BrokerStep>, bufSize: nat, id: nat, clients: seq<seq<int64>>,
                       client: Option<seq<int64>>, sg: Signer, arrivals: seq<Message>)
    requires BrokerProtocol.IsRun(states, steps, bufSize) && PublishesArrivals(clients, sg, arrivals, steps)
    requires var s := states[|steps|]; s.publishers == map[] && id in s.chans && s.chans[id].queue == []
    ensures var c := states[|steps|].chans[id];
            && (Visible(client, c.received) == Visible(client, Sent(c.log)) <==> VisibleDelivered(client, c.log))
            && (forall i :: 0 <= i < |c.log| ==>
                  c.log[i].pub < |arrivals| && Dispatched(clients, arrivals[c.log[i].pub])
                  && c.log[i].ev == EventOf(sg, arrivals[c.log[i].pub]))
            && (forall a :: 0 <= a < |arrivals| ==>
                  (ShownIn(c.log, client, a) <==> Meant(clients, client, arrivals[a]) && SubscribedAt(states, steps, a, id)))
  {
    var n := |steps|;
    var c := states[n].chans[id];
    LosslessFanOut(states, steps, bufSize, n, id, client);
    RunIsFaithful(states, steps, bufSize, n);
    hide Visible, VisibleDelivered, Enabled, Apply, ClientPermits, GloballyPermits;
    forall i | 0 <= i < |c.log|
      ensures && c.log[i].pub < |arrivals| && Dispatched(clients, arrivals[c.log[i].pub])
              && c.log[i].ev == EventOf(sg, arrivals[c.log[i].pub])
    {
      assert Began(steps, n, c.log[i].pub, c.log[i].ev);
    }
    forall a | 0 <= a < |arrivals|
      ensures ShownIn(c.log, client, a) <==> Meant(clients, client, arrivals[a]) && SubscribedAt(states, steps, a, id)
    {
      ShownExactly(states, steps, bufSize, id, clients, client, sg, arrivals, a);
    }
  }

  lemma ShownExactly(states: seq<State>, steps: seq<BrokerStep>, bufSize: nat, id: nat, clients: seq<seq<int64>>,
                     client: Option<seq<int64>>, sg: Signer, arrivals: seq<Message>, a: nat)
    requires BrokerProtocol.IsRun(states, steps, bufSize) && PublishesArrivals(clients, sg, arrivals, steps)
    requires states[|steps|].publishers == map[] && id in states[|steps|].chans && a < |arrivals|
    ensures ShownIn(states[|steps|].chans[id].log, client, a)
            <==> Meant(clients, client, arrivals[a]) && SubscribedAt(states, steps, a, id)
  {
    hide Enabled, Apply, ClientPermits, GloballyPermits;
    var n := |steps|;
    var log := states[n].chans[id].log;
    if ShownIn(log, client, a) {
      var i :| 0 <= i < |log| && log[i].pub == a && ClientPermits(client, log[i].ev.chatId);
      RunIsFaithful(states, steps, bufSize, n);
      assert Began(steps, n, a, log[i].ev);
      var k :| 0 <= k < n && steps[k] == BeginPublish(a, log[i].ev);
      SentToSubscribers(states, steps, bufSize, n, id, k);
    }
    if Meant(clients, client, arrivals[a]) && SubscribedAt(states, steps, a, id) {
      var k :| 0 <= k < |steps| && steps[k].BeginPublish? && steps[k].pub == a && id in states[k].subs;
      SentToSubscribers(states, steps, bufSize, n, id, k);
    }
  }
}
