/**
 The event broker under concurrency: bounded lossy fan-out to subscriber channels. Subscribing and
 unsubscribing take the write lock, a publisher holds the read lock while it goes through the subscribers
 one by one; receivers run at any time.
 */
module BrokerProtocol {
  import opened Prelude
  import MediaSummary

  datatype Event = Event(kind: string, chatId: int64, msgId: int, from: string, fromId: int64,
                         text: string, ts: int64, replyTo: int, media: Option<MediaSummary.Summary>)

  /** One non-blocking send: by which publication, with how many events queued, and whether it got through. */
  datatype Attempt = Attempt(pub: nat, ev: Event, queued: nat, delivered: bool)

  datatype Chan = Chan(queue: seq<Event>, received: seq<Event>, closes: nat, log: seq<Attempt>)

  const NEW_CHAN := Chan([], [], 0, [])

  datatype Publisher = Publisher(ev: Event, todo: set<nat>)

  /** `targets` records who was subscribed when each publication took its lock. */
  datatype State = State(
    nextId: nat,
    subs: set<nat>,
    pending: set<nat>,
    chans: map<nat, Chan>,
    publishers: map<nat, Publisher>,
    targets: map<nat, set<nat>>,
    panicked: bool)

  const INIT := State(0, {}, {}, map[], map[], map[], false)

  datatype Step =
    | NewSub
    | Insert(id: nat)
    | BeginPublish(pub: nat, ev: Event)
    | Send(pub: nat, id: nat)
    | Handoff(pub: nat, id: nat)
    | EndPublish(pub: nat)
    | Receive(id: nat)
    | Unsubscribe(id: nat)

  predicate Enabled(s: State, step: Step) {
    match step
    case NewSub => true
    case Insert(id) => id in s.pending && s.publishers == map[]
    case BeginPublish(pub, _) => pub !in s.targets
    case Send(pub, id) => pub in s.publishers && id in s.publishers[pub].todo && id in s.chans
    case Handoff(pub, id) => pub in s.publishers && id in s.publishers[pub].todo && id in s.chans && s.chans[id].queue == []
    case EndPublish(pub) => pub in s.publishers && s.publishers[pub].todo == {}
    case Receive(id) => id in s.chans && s.chans[id].queue != []
    case Unsubscribe(id) => id in s.chans && id !in s.pending && s.publishers == map[]
  }

  /** select { case ch <- e: default: } on a buffered channel. */
  function SendTo(c: Chan, bufSize: nat, pub: nat, ev: Event): Chan {
    var fits := |c.queue| < bufSize;
    c.(queue := if fits then c.queue + [ev] else c.queue, log := c.log + [Attempt(pub, ev, |c.queue|, fits)])
  }

  /** The same send when a receiver is blocked on the empty channel: it gets the event directly. */
  function HandTo(c: Chan, pub: nat, ev: Event): Chan {
    c.(received := c.received + [ev], log := c.log + [Attempt(pub, ev, |c.queue|, true)])
  }

  function TakeFrom(c: Chan): Chan
    requires c.queue != []
  {
    c.(queue := c.queue[1..], received := c.received + [c.queue[0]])
  }

  function Done(s: State, pub: nat, id: nat): map<nat, Publisher>
    requires pub in s.publishers
  {
    s.publishers[pub := s.publishers[pub].(todo := s.publishers[pub].todo - {id})]
  }

  function Apply(s: State, step: Step, bufSize: nat): State
    requires Enabled(s, step)
  {
    match step
    case NewSub =>
      var id := s.nextId + 1;
      s.(nextId := id, pending := s.pending + {id}, chans := s.chans[id := NEW_CHAN])
    case Insert(id) => s.(pending := s.pending - {id}, subs := s.subs + {id})
    case BeginPublish(pub, ev) =>
      s.(publishers := s.publishers[pub := Publisher(ev, s.subs)], targets := s.targets[pub := s.subs])
    case Send(pub, id) =>
      if s.chans[id].closes > 0 then s.(panicked := true)
      else s.(chans := s.chans[id := SendTo(s.chans[id], bufSize, pub, s.publishers[pub].ev)], publishers := Done(s, pub, id))
    case Handoff(pub, id) =>
      if s.chans[id].closes > 0 then s.(panicked := true)
      else s.(chans := s.chans[id := HandTo(s.chans[id], pub, s.publishers[pub].ev)], publishers := Done(s, pub, id))
    case EndPublish(pub) => s.(publishers := s.publishers - {pub})
    case Receive(id) => s.(chans := s.chans[id := TakeFrom(s.chans[id])])
    case Unsubscribe(id) =>
      if id !in s.subs then s
      else if s.chans[id].closes > 0 then s.(panicked := true)
      else s.(subs := s.subs - {id}, chans := s.chans[id := s.chans[id].(closes := 1)])
  }

  // ----- what a channel log says

  function Sent(log: seq<Attempt>): (evs: seq<Event>)
    ensures |evs| == |log|
  {
    seq(|log|, i requires 0 <= i < |log| => log[i].ev)
  }

  function Delivered(log: seq<Attempt>): seq<Event> {
    if log == [] then []
    else
      var last := log[|log| - 1];
      Delivered(log[..|log| - 1]) + if last.delivered then [last.ev] else []
  }

  function Dropped(log: seq<Attempt>): nat {
    if log == [] then 0
    else Dropped(log[..|log| - 1]) + if log[|log| - 1].delivered then 0 else 1
  }

  /** `xs` is `ys` with some elements left out, in the same order. */
  predicate Subsequence<T(==)>(xs: seq<T>, ys: seq<T>) {
    if xs == [] then true
    else if ys == [] then false
    else
      var m, n := |xs| - 1, |ys| - 1;
      (xs[m] == ys[n] && Subsequence(xs[..m], ys[..n])) || Subsequence(xs, ys[..n])
  }

  ghost predicate AttemptedBy(log: seq<Attempt>, pub: nat) {
    exists i :: 0 <= i < |log| && log[i].pub == pub
  }

  ghost predicate OncePerPub(log: seq<Attempt>) {
    forall i, j :: 0 <= i < j < |log| ==> log[i].pub != log[j].pub
  }

  ghost predicate ChanOk(c: Chan, bufSize: nat) {
    && |c.queue| <= bufSize && c.closes <= 1
    && c.received + c.queue == Delivered(c.log)
    && (forall i :: 0 <= i < |c.log| ==>
          if c.log[i].delivered then c.log[i].queued < bufSize || c.log[i].queued == 0 else c.log[i].queued == bufSize)
    && OncePerPub(c.log)
  }

  ghost predicate Inv(s: State, bufSize: nat) {
    && !s.panicked
    && s.subs + s.pending <= s.chans.Keys && s.subs !! s.pending
    && (forall id :: id in s.chans ==> id <= s.nextId && ChanOk(s.chans[id], bufSize))
    && (forall id :: id in s.subs + s.pending ==> s.chans[id].closes == 0)
    && (forall p :: p in s.publishers ==> s.publishers[p].todo <= s.subs && p in s.targets)
    && TargetsOk(s)
  }

  /** Publication `p` has tried subscriber `id` iff `id` was subscribed at its start and is no longer to do. */
  ghost predicate TargetsOk(s: State) {
    && (forall p, id :: p in s.targets && id in s.chans ==>
          (AttemptedBy(s.chans[id].log, p) <==> id in s.targets[p] && !(p in s.publishers && id in s.publishers[p].todo)))
    && (forall p :: p in s.targets ==> s.targets[p] <= s.chans.Keys)
    && (forall p :: p in s.publishers && p in s.targets ==> s.publishers[p].todo <= s.targets[p])
    && (forall id, p :: id in s.chans && AttemptedBy(s.chans[id].log, p) ==> p in s.targets)
  }

  // ----- one channel

  lemma LogGrows(log: seq<Attempt>, a: Attempt)
    ensures Delivered(log + [a]) == Delivered(log) + if a.delivered then [a.ev] else []
    ensures Dropped(log + [a]) == Dropped(log) + if a.delivered then 0 else 1
    ensures Sent(log + [a]) == Sent(log) + [a.ev]
    ensures forall p :: AttemptedBy(log + [a], p) <==> AttemptedBy(log, p) || p == a.pub
  {
    assert (log + [a])[..|log|] == log;
    forall p ensures AttemptedBy(log + [a], p) <==> AttemptedBy(log, p) || p == a.pub {
      if i :| 0 <= i < |log| && log[i].pub == p { assert (log + [a])[i].pub == p; }
      if p == a.pub { assert (log + [a])[|log|].pub == p; }
    }
  }

  lemma OnceMore(log: seq<Attempt>, a: Attempt)
    requires OncePerPub(log) && !AttemptedBy(log, a.pub)
    ensures OncePerPub(log + [a])
  {
    forall i, j | 0 <= i < j < |log + [a]| ensures (log + [a])[i].pub != (log + [a])[j].pub {
      assert (log + [a])[i] == log[i];
    }
  }

  /** The next attempt of a channel, by a publication that has not tried it yet. */
  ghost predicate NextAttempt(c: Chan, d: Chan, pub: nat) {
    d.closes == c.closes && d.log != [] && d.log[|d.log| - 1].pub == pub && d.log[..|d.log| - 1] == c.log
  }

  lemma SendKeepsChan(c: Chan, bufSize: nat, pub: nat, ev: Event)
    requires ChanOk(c, bufSize) && !AttemptedBy(c.log, pub)
    ensures ChanOk(SendTo(c, bufSize, pub, ev), bufSize) && NextAttempt(c, SendTo(c, bufSize, pub, ev), pub)
  {
    hide Delivered, OncePerPub, AttemptedBy;
    var a := Attempt(pub, ev, |c.queue|, |c.queue| < bufSize);
    LogGrows(c.log, a);
    OnceMore(c.log, a);
    assert c.received + (c.queue + [ev]) == (c.received + c.queue) + [ev];
  }

  lemma HandKeepsChan(c: Chan, bufSize: nat, pub: nat, ev: Event)
    requires ChanOk(c, bufSize) && !AttemptedBy(c.log, pub) && c.queue == []
    ensures ChanOk(HandTo(c, pub, ev), bufSize) && NextAttempt(c, HandTo(c, pub, ev), pub)
  {
    hide Delivered, OncePerPub, AttemptedBy;
    var a := Attempt(pub, ev, |c.queue|, true);
    LogGrows(c.log, a);
    OnceMore(c.log, a);
    assert c.received + [ev] + c.queue == (c.received + c.queue) + [ev];
  }

  lemma TakeKeepsChan(c: Chan, bufSize: nat)
    requires ChanOk(c, bufSize) && c.queue != []
    ensures ChanOk(TakeFrom(c), bufSize)
    ensures TakeFrom(c).log == c.log && TakeFrom(c).closes == c.closes
  {
    hide Delivered, OncePerPub;
    assert c.received + [c.queue[0]] + c.queue[1..] == c.received + c.queue;
  }

  lemma {:induction false} DeliveredIsSubsequence(log: seq<Attempt>)
    ensures Subsequence(Delivered(log), Sent(log))
    ensures |log| == |Delivered(log)| + Dropped(log)
  {
    if log != [] {
      var n := |log| - 1;
      DeliveredIsSubsequence(log[..n]);
      var d, s := Delivered(log), Sent(log);
      assert s[..n] == Sent(log[..n]);
      if log[n].delivered {
        assert d[..|d| - 1] == Delivered(log[..n]);
      } else {
        assert d == Delivered(log[..n]);
        SubsequenceSkips(d, s[..n], s[n]);
        assert s == s[..n] + [s[n]];
      }
    }
  }

  lemma SubsequenceSkips<T>(xs: seq<T>, ys: seq<T>, y: T)
    requires Subsequence(xs, ys)
    ensures Subsequence(xs, ys + [y])
  {
    assert (ys + [y])[..|ys|] == ys;
  }

  lemma {:induction false} AllDelivered(log: seq<Attempt>)
    requires forall i :: 0 <= i < |log| ==> log[i].delivered
    ensures Delivered(log) == Sent(log)
  {
    if log != [] {
      var n := |log| - 1;
      AllDelivered(log[..n]);
      assert Sent(log) == Sent(log[..n]) + [log[n].ev];
    }
  }

  // ----- the steps

  lemma SendInv(s: State, t: State, pub: nat, id: nat, c: Chan, bufSize: nat)
    requires Inv(s, bufSize) && pub in s.publishers && id in s.publishers[pub].todo && id in s.chans
    requires ChanOk(c, bufSize) && NextAttempt(s.chans[id], c, pub)
    requires t == s.(chans := s.chans[id := c], publishers := Done(s, pub, id))
    ensures Inv(t, bufSize)
  {
    hide ChanOk, AttemptedBy, TargetsOk;
    LogGrows(s.chans[id].log, c.log[|c.log| - 1]);
    assert c.log == s.chans[id].log + [c.log[|c.log| - 1]];
    SendTargets(s, t, pub, id, c);
  }

  lemma SendTargets(s: State, t: State, pub: nat, id: nat, c: Chan)
    requires TargetsOk(s) && pub in s.publishers && id in s.publishers[pub].todo && id in s.chans && pub in s.targets
    requires forall p :: AttemptedBy(c.log, p) <==> AttemptedBy(s.chans[id].log, p) || p == pub
    requires t == s.(chans := s.chans[id := c], publishers := Done(s, pub, id))
    ensures TargetsOk(t)
  {
    hide AttemptedBy;
  }

  lemma NotTriedYet(s: State, pub: nat, id: nat, bufSize: nat)
    requires Inv(s, bufSize) && pub in s.publishers && id in s.publishers[pub].todo && id in s.chans
    ensures ChanOk(s.chans[id], bufSize) && !AttemptedBy(s.chans[id].log, pub) && s.chans[id].closes == 0
  {
    hide ChanOk, AttemptedBy;
  }

  lemma BeginInv(s: State, t: State, pub: nat, ev: Event, bufSize: nat)
    requires Inv(s, bufSize) && pub !in s.targets
    requires t == s.(publishers := s.publishers[pub := Publisher(ev, s.subs)], targets := s.targets[pub := s.subs])
    ensures Inv(t, bufSize)
  {
    hide ChanOk, AttemptedBy;
  }

  lemma NewSubInv(s: State, t: State, bufSize: nat)
    requires Inv(s, bufSize)
    requires var id := s.nextId + 1; t == s.(nextId := id, pending := s.pending + {id}, chans := s.chans[id := NEW_CHAN])
    ensures Inv(t, bufSize)
  {
    hide AttemptedBy, TargetsOk;
    NewSubTargets(s, t);
  }

  lemma NewSubTargets(s: State, t: State)
    requires TargetsOk(s) && s.nextId + 1 !in s.chans
    requires var id := s.nextId + 1; t == s.(nextId := id, pending := s.pending + {id}, chans := s.chans[id := NEW_CHAN])
    ensures TargetsOk(t)
  {
    hide AttemptedBy;
    NothingAttempted();
  }

  lemma NothingAttempted()
    ensures forall p :: !AttemptedBy([], p)
  {
  }

  lemma ReceiveInv(s: State, id: nat, bufSize: nat)
    requires Inv(s, bufSize) && id in s.chans && s.chans[id].queue != []
    ensures Inv(s.(chans := s.chans[id := TakeFrom(s.chans[id])]), bufSize)
  {
    hide Inv, TakeFrom, ChanOk;
    ChanOf(s, id, bufSize);
    TakeKeepsChan(s.chans[id], bufSize);
    SameLogInv(s, id, TakeFrom(s.chans[id]), bufSize);
  }

  lemma ChanOf(s: State, id: nat, bufSize: nat)
    requires Inv(s, bufSize) && id in s.chans
    ensures ChanOk(s.chans[id], bufSize)
  {
    hide ChanOk, AttemptedBy;
  }

  lemma SameLogInv(s: State, id: nat, c: Chan, bufSize: nat)
    requires Inv(s, bufSize) && id in s.chans && ChanOk(c, bufSize)
    requires c.log == s.chans[id].log && c.closes == s.chans[id].closes
    ensures Inv(s.(chans := s.chans[id := c]), bufSize)
  {
    hide ChanOk, AttemptedBy;
  }

  lemma StepInv(s: State, step: Step, bufSize: nat)
    requires Inv(s, bufSize) && Enabled(s, step)
    ensures Inv(Apply(s, step, bufSize), bufSize)
  {
    hide Inv, SendTo, HandTo, TakeFrom, Done;
    var t := Apply(s, step, bufSize);
    match step
    case NewSub => NewSubInv(s, t, bufSize);
    case Insert(id) => InsertInv(s, t, id, bufSize);
    case BeginPublish(pub, ev) => BeginInv(s, t, pub, ev, bufSize);
    case Send(pub, id) => NotTriedYet(s, pub, id, bufSize); SendStepInv(s, t, pub, id, bufSize);
    case Handoff(pub, id) => NotTriedYet(s, pub, id, bufSize); HandoffInv(s, t, pub, id, bufSize);
    case EndPublish(pub) => EndInv(s, t, pub, bufSize);
    case Receive(id) => ReceiveInv(s, id, bufSize);
    case Unsubscribe(id) => UnsubscribeInv(s, id, bufSize);
  }

  lemma InsertInv(s: State, t: State, id: nat, bufSize: nat)
    requires Inv(s, bufSize) && id in s.pending && s.publishers == map[]
    requires t == s.(pending := s.pending - {id}, subs := s.subs + {id})
    ensures Inv(t, bufSize)
  {
    hide ChanOk, AttemptedBy;
  }

  lemma EndInv(s: State, t: State, pub: nat, bufSize: nat)
    requires Inv(s, bufSize) && pub in s.publishers && s.publishers[pub].todo == {}
    requires t == s.(publishers := s.publishers - {pub})
    ensures Inv(t, bufSize)
  {
    hide ChanOk, AttemptedBy;
  }

  lemma UnsubscribeInv(s: State, id: nat, bufSize: nat)
    requires Inv(s, bufSize) && Enabled(s, Unsubscribe(id))
    ensures Inv(Apply(s, Unsubscribe(id), bufSize), bufSize)
  {
    hide AttemptedBy, Delivered, OncePerPub;
  }

  lemma SendStepInv(s: State, t: State, pub: nat, id: nat, bufSize: nat)
    requires Inv(s, bufSize) && pub in s.publishers && id in s.publishers[pub].todo && id in s.chans
    requires t == s.(chans := s.chans[id := SendTo(s.chans[id], bufSize, pub, s.publishers[pub].ev)],
                     publishers := Done(s, pub, id))
    ensures Inv(t, bufSize)
  {
    hide Inv, SendTo, Done, ChanOk, AttemptedBy, NextAttempt;
    NotTriedYet(s, pub, id, bufSize);
    SendKeepsChan(s.chans[id], bufSize, pub, s.publishers[pub].ev);
    SendInv(s, t, pub, id, t.chans[id], bufSize);
  }

  lemma HandoffInv(s: State, t: State, pub: nat, id: nat, bufSize: nat)
    requires Inv(s, bufSize) && pub in s.publishers && id in s.publishers[pub].todo && id in s.chans && s.chans[id].queue == []
    requires t == s.(chans := s.chans[id := HandTo(s.chans[id], pub, s.publishers[pub].ev)], publishers := Done(s, pub, id))
    ensures Inv(t, bufSize)
  {
    hide Inv, HandTo, Done, ChanOk, AttemptedBy, NextAttempt;
    NotTriedYet(s, pub, id, bufSize);
    HandKeepsChan(s.chans[id], bufSize, pub, s.publishers[pub].ev);
    SendInv(s, t, pub, id, t.chans[id], bufSize);
  }

  // ----- whole runs

  ghost predicate IsRun(states: seq<State>, steps: seq<Step>, bufSize: nat) {
    && |states| == |steps| + 1 && states[0] == INIT
    && forall i :: 0 <= i < |steps| ==> Enabled(states[i], steps[i]) && states[i + 1] == Apply(states[i], steps[i], bufSize)
  }

  lemma {:induction false} RunInv(states: seq<State>, steps: seq<Step>, bufSize: nat, n: nat)
    requires IsRun(states, steps, bufSize) && n < |states|
    ensures Inv(states[n], bufSize)
  {
    hide Enabled, Apply;
    if n > 0 {
      RunInv(states, steps, bufSize, n - 1);
      hide Inv;
      StepInv(states[n - 1], steps[n - 1], bufSize);
    }
  }

  /** No send reaches a closed channel, and no channel is closed twice. */
  lemma NeverPanics(states: seq<State>, steps: seq<Step>, bufSize: nat, n: nat)
    requires IsRun(states, steps, bufSize) && n < |states|
    ensures !states[n].panicked
    ensures forall id :: id in states[n].chans ==> states[n].chans[id].closes <= 1
    ensures forall id :: id in states[n].subs ==> id in states[n].chans && states[n].chans[id].closes == 0
  {
    hide IsRun;
    RunInv(states, steps, bufSize, n);
  }

  /**
   Order and accounting for each subscriber: what it has received and what is queued is an order-preserving
   part of what was sent to it; nothing is lost uncounted; a send fails only on a full queue.
   */
  lemma SubscriberStream(states: seq<State>, steps: seq<Step>, bufSize: nat, n: nat, id: nat)
    requires IsRun(states, steps, bufSize) && n < |states| && id in states[n].chans
    ensures var c := states[n].chans[id];
            && Subsequence(c.received + c.queue, Sent(c.log))
            && |c.log| == |c.received| + |c.queue| + Dropped(c.log)
            && |c.queue| <= bufSize
            && forall i :: 0 <= i < |c.log| && !c.log[i].delivered ==> c.log[i].queued == bufSize
  {
    hide IsRun;
    RunInv(states, steps, bufSize, n);
    DeliveredIsSubsequence(states[n].chans[id].log);
  }

  /** A subscriber whose queue was never full when something was sent has lost nothing. */
  lemma NothingLost(states: seq<State>, steps: seq<Step>, bufSize: nat, n: nat, id: nat)
    requires IsRun(states, steps, bufSize) && n < |states| && id in states[n].chans
    requires forall i :: 0 <= i < |states[n].chans[id].log| ==> states[n].chans[id].log[i].queued < bufSize
    ensures var c := states[n].chans[id]; c.received + c.queue == Sent(c.log)
  {
    hide IsRun;
    RunInv(states, steps, bufSize, n);
    AllDelivered(states[n].chans[id].log);
  }

  /** A finished publication has been sent exactly once to each subscriber of its start, and to nobody else. */
  lemma PublishedToAll(states: seq<State>, steps: seq<Step>, bufSize: nat, n: nat, pub: nat, id: nat)
    requires IsRun(states, steps, bufSize) && n < |states| && id in states[n].chans
    requires pub in states[n].targets && pub !in states[n].publishers
    ensures AttemptedBy(states[n].chans[id].log, pub) <==> id in states[n].targets[pub]
    ensures OncePerPub(states[n].chans[id].log)
  {
    hide IsRun, Inv;
    RunInv(states, steps, bufSize, n);
    TriedOnce(states[n], pub, id, bufSize);
  }

  lemma TriedOnce(s: State, pub: nat, id: nat, bufSize: nat)
    requires Inv(s, bufSize) && id in s.chans && pub in s.targets && pub !in s.publishers
    ensures AttemptedBy(s.chans[id].log, pub) <==> id in s.targets[pub]
    ensures OncePerPub(s.chans[id].log)
  {
    hide AttemptedBy, Delivered, OncePerPub;
    assert ChanOk(s.chans[id], bufSize);
  }

  // ----- bursts

  /** From `c` to `d` the log has only grown, the queue by no more than the log, and what fits got through. */
  ghost predicate Burst(c: Chan, d: Chan, bufSize: nat) {
    && c.log <= d.log
    && |d.queue| <= |c.queue| + (|d.log| - |c.log|)
    && (|c.queue| + (|d.log| - |c.log|) <= bufSize ==> forall i :: |c.log| <= i < |d.log| ==> d.log[i].delivered)
  }

  /** A step keeps every channel and changes it in one of these ways. */
  lemma ChanStep(s: State, step: Step, bufSize: nat, id: nat)
    requires Inv(s, bufSize) && Enabled(s, step) && id in s.chans
    ensures var t := Apply(s, step, bufSize);
            && id in t.chans
            && var c, d := s.chans[id], t.chans[id];
               || d == c || d == c.(closes := 1)
               || (c.queue != [] && d == TakeFrom(c))
               || (exists pub, ev :: d == SendTo(c, bufSize, pub, ev))
               || (exists pub, ev :: d == HandTo(c, pub, ev))
  {
    hide ChanOk, TargetsOk, SendTo, HandTo, TakeFrom, Done;
  }

  lemma BurstStep(c: Chan, d: Chan, e: Chan, bufSize: nat)
    requires Burst(c, d, bufSize)
    requires || e == d || e == d.(closes := 1) || (d.queue != [] && e == TakeFrom(d))
             || (exists pub, ev :: e == SendTo(d, bufSize, pub, ev))
             || (exists pub, ev :: e == HandTo(d, pub, ev))
    ensures Burst(c, e, bufSize)
  {
  }

  /** With q events queued, the next bufSize - q events sent to a subscriber are never dropped. */
  lemma {:induction false} BurstFits(states: seq<State>, steps: seq<Step>, bufSize: nat, m: nat, n: nat, id: nat)
    requires IsRun(states, steps, bufSize) && m <= n < |states| && id in states[m].chans
    ensures id in states[n].chans && Burst(states[m].chans[id], states[n].chans[id], bufSize)
    decreases n
  {
    hide Burst, Apply, Enabled, Inv;
    if m == n {
      BurstStart(states[m].chans[id], bufSize);
    } else {
      BurstFits(states, steps, bufSize, m, n - 1, id);
      RunInv(states, steps, bufSize, n - 1);
      assert states[n] == Apply(states[n - 1], steps[n - 1], bufSize);
      ChanStep(states[n - 1], steps[n - 1], bufSize, id);
      BurstStep(states[m].chans[id], states[n - 1].chans[id], states[n].chans[id], bufSize);
    }
  }

  lemma BurstStart(c: Chan, bufSize: nat)
    ensures Burst(c, c, bufSize)
  {
  }

  /** A receiver blocked on the empty channel gets the event at once, even when the channel has no buffer. */
  lemma HandoffExactly(s: State, pub: nat, id: nat, bufSize: nat)
    requires Inv(s, bufSize) && pub in s.publishers && id in s.publishers[pub].todo
    ensures id in s.chans && (Enabled(s, Handoff(pub, id)) <==> s.chans[id].queue == [])
    ensures Enabled(s, Handoff(pub, id)) ==>
              var c, t := s.chans[id], Apply(s, Handoff(pub, id), bufSize);
              && id in t.chans && t.chans[id].queue == [] && t.chans[id].received == c.received + [s.publishers[pub].ev]
              && t.chans[id].log == c.log + [Attempt(pub, s.publishers[pub].ev, 0, true)]
              && pub in t.publishers && t.publishers[pub].todo == s.publishers[pub].todo - {id}
  {
    hide ChanOk, TargetsOk;
  }

  // ----- unsubscribing

  /** Once a subscriber has gone, nothing more is sent to it: its log and its single close stay as they are. */
  lemma {:induction false} NothingAfterUnsubscribe(states: seq<State>, steps: seq<Step>, bufSize: nat, m: nat, n: nat, id: nat)
    requires IsRun(states, steps, bufSize) && m < n < |states| && steps[m] == Unsubscribe(id)
    ensures id in states[n].chans && id !in states[n].subs && id !in states[n].pending
    ensures states[n].chans[id].closes == 1 && states[n].chans[id].log == states[m].chans[id].log
    decreases n
  {
    hide Inv, Apply, Enabled;
    RunInv(states, steps, bufSize, n - 1);
    assert Enabled(states[n - 1], steps[n - 1]) && states[n] == Apply(states[n - 1], steps[n - 1], bufSize);
    if m == n - 1 {
      Leaves(states[m], id, bufSize);
      ClosedWhenGone(states, steps, bufSize, n, id);
    } else {
      NothingAfterUnsubscribe(states, steps, bufSize, m, n - 1, id);
      StaysGone(states[n - 1], steps[n - 1], id, bufSize);
    }
  }

  lemma Leaves(s: State, id: nat, bufSize: nat)
    requires Inv(s, bufSize) && Enabled(s, Unsubscribe(id))
    ensures var t := Apply(s, Unsubscribe(id), bufSize);
            id in t.chans && id !in t.subs && id !in t.pending && t.chans[id].log == s.chans[id].log
  {
    hide ChanOk, TargetsOk;
  }

  lemma StaysGone(s: State, step: Step, id: nat, bufSize: nat)
    requires Inv(s, bufSize) && Enabled(s, step) && id in s.chans && id !in s.subs && id !in s.pending
    ensures var t := Apply(s, step, bufSize);
            && id in t.chans && id !in t.subs && id !in t.pending
            && t.chans[id].closes == s.chans[id].closes && t.chans[id].log == s.chans[id].log
  {
    hide ChanOk, TargetsOk, SendTo, HandTo, Done;
  }

  /** A channel is closed exactly when its subscriber has unsubscribed. */
  lemma {:induction false} ClosedWhenGone(states: seq<State>, steps: seq<Step>, bufSize: nat, n: nat, id: nat)
    requires IsRun(states, steps, bufSize) && n < |states| && id in states[n].chans
    ensures states[n].chans[id].closes == if id in states[n].subs + states[n].pending then 0 else 1
  {
    hide ChanOk, TargetsOk;
    if n > 0 {
      RunInv(states, steps, bufSize, n - 1);
      assert Enabled(states[n - 1], steps[n - 1]) && states[n] == Apply(states[n - 1], steps[n - 1], bufSize);
      if id in states[n - 1].chans {
        ClosedWhenGone(states, steps, bufSize, n - 1, id);
      }
    }
  }

  /** Subscribe, publish, receive, unsubscribe. */
  function OneEventSteps(ev: Event): seq<Step> {
    [NewSub, Insert(1), BeginPublish(0, ev), Send(0, 1), EndPublish(0), Receive(1), Unsubscribe(1)]
  }

  /** The steps of a subscriber that gets one event and goes: it has received just that, and its channel is closed. */
  lemma OneEventThrough(ev: Event, bufSize: nat) returns (states: seq<State>)
    requires bufSize > 0
    ensures IsRun(states, OneEventSteps(ev), bufSize)
    ensures states[2].subs == {1} && states[4].chans == map[1 := Chan([ev], [], 0, [Attempt(0, ev, 0, true)])] && states[5].publishers == map[]
    ensures states[7] == State(1, {}, {}, map[1 := Chan([], [ev], 1, [Attempt(0, ev, 0, true)])], map[], map[0 := {1}], false)
  {
    var s1 := INIT.(nextId := 1, pending := {1}, chans := map[1 := NEW_CHAN]);
    var s2 := s1.(pending := {}, subs := {1});
    var s3 := s2.(publishers := map[0 := Publisher(ev, {1})], targets := map[0 := {1}]);
    var sent := Chan([ev], [], 0, [Attempt(0, ev, 0, true)]);
    var s4 := s3.(chans := map[1 := sent], publishers := map[0 := Publisher(ev, {})]);
    var s5 := s4.(publishers := map[]);
    var got := Chan([], [ev], 0, [Attempt(0, ev, 0, true)]);
    var s6 := s5.(chans := map[1 := got]);
    var s7 := s6.(subs := {}, chans := map[1 := got.(closes := 1)]);
    states := [INIT, s1, s2, s3, s4, s5, s6, s7];
    SubscribeSteps(s1, s2, bufSize);
    PublishSteps(s2, s3, s4, s5, ev, bufSize);
    LeaveSteps(s5, s6, s7, ev, bufSize);
    hide Apply, Enabled;
    forall i | 0 <= i < 7
      ensures Enabled(states[i], OneEventSteps(ev)[i]) && states[i + 1] == Apply(states[i], OneEventSteps(ev)[i], bufSize)
    {
    }
  }

  lemma SubscribeSteps(s1: State, s2: State, bufSize: nat)
    requires s1 == INIT.(nextId := 1, pending := {1}, chans := map[1 := NEW_CHAN]) && s2 == s1.(pending := {}, subs := {1})
    ensures Enabled(INIT, NewSub) && s1 == Apply(INIT, NewSub, bufSize)
    ensures Enabled(s1, Insert(1)) && s2 == Apply(s1, Insert(1), bufSize)
  {
    assert {} + {1} == {1} && {1} - {1} == {};
    assert map[][1 := NEW_CHAN] == map[1 := NEW_CHAN];
    assert Apply(INIT, NewSub, bufSize).pending == {1};
    assert Apply(s1, Insert(1), bufSize).subs == {1} && Apply(s1, Insert(1), bufSize).pending == {};
  }

  lemma PublishSteps(s2: State, s3: State, s4: State, s5: State, ev: Event, bufSize: nat)
    requires bufSize > 0 && s2.subs == {1} && s2.publishers == map[] && s2.targets == map[] && s2.chans == map[1 := NEW_CHAN]
    requires s3 == s2.(publishers := map[0 := Publisher(ev, {1})], targets := map[0 := {1}])
    requires s4 == s3.(chans := map[1 := Chan([ev], [], 0, [Attempt(0, ev, 0, true)])], publishers := map[0 := Publisher(ev, {})])
    requires s5 == s4.(publishers := map[])
    ensures Enabled(s2, BeginPublish(0, ev)) && s3 == Apply(s2, BeginPublish(0, ev), bufSize)
    ensures Enabled(s3, Send(0, 1)) && s4 == Apply(s3, Send(0, 1), bufSize)
    ensures Enabled(s4, EndPublish(0)) && s5 == Apply(s4, EndPublish(0), bufSize)
  {
    assert [] + [ev] == [ev] && [] + [Attempt(0, ev, 0, true)] == [Attempt(0, ev, 0, true)];
    assert SendTo(NEW_CHAN, bufSize, 0, ev) == Chan([ev], [], 0, [Attempt(0, ev, 0, true)]);
    var sent := Apply(s3, Send(0, 1), bufSize);
    assert s3.chans[1] == NEW_CHAN && s3.publishers[0].ev == ev;
    assert sent.chans == s4.chans;
    assert sent.publishers[0].todo == {};
    assert sent.publishers == s4.publishers;
    assert Apply(s4, EndPublish(0), bufSize).publishers == map[];
  }

  lemma LeaveSteps(s5: State, s6: State, s7: State, ev: Event, bufSize: nat)
    requires s5.subs == {1} && s5.pending == {} && s5.publishers == map[]
    requires s5.chans == map[1 := Chan([ev], [], 0, [Attempt(0, ev, 0, true)])]
    requires s6 == s5.(chans := map[1 := Chan([], [ev], 0, [Attempt(0, ev, 0, true)])])
    requires s7 == s6.(subs := {}, chans := map[1 := Chan([], [ev], 1, [Attempt(0, ev, 0, true)])])
    ensures Enabled(s5, Receive(1)) && s6 == Apply(s5, Receive(1), bufSize)
    ensures Enabled(s6, Unsubscribe(1)) && s7 == Apply(s6, Unsubscribe(1), bufSize)
  {
    assert TakeFrom(s5.chans[1]) == Chan([], [ev], 0, [Attempt(0, ev, 0, true)]);
    assert Apply(s5, Receive(1), bufSize).chans == s6.chans;
    assert Apply(s6, Unsubscribe(1), bufSize).chans == s7.chans && Apply(s6, Unsubscribe(1), bufSize).subs == {};
  }
}
