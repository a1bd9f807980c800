/** The rate limiter: one token bucket per IP in a bounded map. */
module RateLimiter {
  import opened TokenBucket

  type Table = map<string, Bucket>

  const MAX_BUCKETS := 10000

  datatype Request = Request(ip: string, now: real)

  /** A new IP finds more than MAX_BUCKETS buckets: one of them has to go. */
  predicate Crowded(m: Table, ip: string) {
    ip !in m && |m| > MAX_BUCKETS
  }

  /** The victim is any key of the map, since Go's map order is arbitrary. */
  predicate MayEvict(m: Table, ip: string, victim: string) {
    Crowded(m, ip) ==> victim in m
  }

  function BucketOf(p: Params, m: Table, r: Request): Bucket {
    if r.ip in m then m[r.ip] else Fresh(p, r.now)
  }

  function Step(p: Params, m: Table, r: Request, victim: string): Table {
    var kept := if Crowded(m, r.ip) then m - {victim} else m;
    kept[r.ip := Take(p, BucketOf(p, m, r), r.now)]
  }

  function Decides(p: Params, m: Table, r: Request): bool {
    Granted(p, BucketOf(p, m, r), r.now)
  }

  class BucketCell {
    var tokens: real
    var last: real

    ghost function Value(): Bucket
      reads this
    {
      Bucket(tokens, last)
    }

    constructor (tokens: real, last: real)
      ensures Value() == Bucket(tokens, last)
    {
      this.tokens, this.last := tokens, last;
    }

    /** Refill up to the burst, then take one token if there is one. */
    method Spend(p: Params, now: real) returns (ok: bool)
      modifies this
      ensures Value() == Take(p, old(Value()), now) && ok == Granted(p, old(Value()), now)
    {
      var elapsed := now - last;
      tokens := tokens + Gain(p, elapsed);
      if tokens > p.burst {
        tokens := p.burst;
      }
      last := now;
      if tokens < 1.0 {
        return false;
      }
      tokens := tokens - 1.0;
      return true;
    }
  }

  class RateLimiter {
    const p: Params
    var buckets: map<string, BucketCell>

    /** No two IPs share a bucket. */
    ghost predicate Valid()
      reads this
    {
      forall i, j :: i in buckets && j in buckets && i != j ==> buckets[i] != buckets[j]
    }

    ghost function View(): Table
      reads this, buckets.Values
    {
      map ip | ip in buckets :: buckets[ip].Value()
    }

    constructor (perMinute: int, burst: int)
      ensures Valid() && View() == map[] && p == NewParams(perMinute, burst)
    {
      p := NewParams(perMinute, burst);
      buckets := map[];
    }

    /** The bucket of an IP, made when missing; a crowded map first loses an arbitrary bucket. */
    method Obtain(ip: string, now: real) returns (b: BucketCell, ghost victim: string)
      requires Valid()
      modifies this
      ensures Valid() && forall c :: c in buckets.Values ==> c in old(buckets.Values) || fresh(c)
      ensures MayEvict(old(View()), ip, victim) && ip in buckets && buckets[ip] == b
      ensures View() == (if Crowded(old(View()), ip) then old(View()) - {victim} else old(View()))
                        [ip := BucketOf(p, old(View()), Request(ip, now))]
    {
      victim := "";
      assert |View()| == |buckets| by { assert View().Keys == buckets.Keys; assert |View().Keys| == |View()|; }
      if ip !in buckets {
        if |buckets| > MAX_BUCKETS {
          var k :| k in buckets;
          victim := k;
          buckets := buckets - {k};
        }
        b := new BucketCell(p.burst, now);
        buckets := buckets[ip := b];
      }
      b := buckets[ip];
    }

    /** One request under the lock; `now` is the clock reading. */
    method Allow(ip: string, now: real) returns (ok: bool, ghost victim: string)
      requires Valid()
      modifies this, buckets.Values
      ensures Valid() && forall c :: c in buckets.Values ==> c in old(buckets.Values) || fresh(c)
      ensures MayEvict(old(View()), ip, victim)
      ensures ok == Decides(p, old(View()), Request(ip, now))
      ensures View() == Step(p, old(View()), Request(ip, now), victim)
    {
      hide Gain, Take, Granted, MayEvict, Crowded;
      var b;
      b, victim := Obtain(ip, now);
      ghost var mid := View();
      assert b.Value() == mid[ip];
      assert b in buckets.Values;
      ok := b.Spend(p, now);
      assert View() == mid[ip := b.Value()];
    }
  }

  // ----- runs

  /** The map after a run, with the victims that were picked. */
  function After(p: Params, reqs: seq<Request>, victims: seq<string>): Table
    requires |victims| == |reqs|
  {
    if reqs == [] then map[]
    else
      var n := |reqs| - 1;
      Step(p, After(p, reqs[..n], victims[..n]), reqs[n], victims[n])
  }

  ghost predicate IsRun(p: Params, reqs: seq<Request>, victims: seq<string>) {
    && |victims| == |reqs|
    && forall n :: 0 <= n < |reqs| ==> MayEvict(After(p, reqs[..n], victims[..n]), reqs[n].ip, victims[n])
  }

  /** The decision on request n of the run. */
  function Decision(p: Params, reqs: seq<Request>, victims: seq<string>, n: nat): bool
    requires |victims| == |reqs| && n < |reqs|
  {
    Decides(p, After(p, reqs[..n], victims[..n]), reqs[n])
  }

  /** The request times of one IP. */
  function Times(reqs: seq<Request>, ip: string): seq<real> {
    if reqs == [] then []
    else
      var n := |reqs| - 1;
      Times(reqs[..n], ip) + if reqs[n].ip == ip then [reqs[n].now] else []
  }

  function Ips(reqs: seq<Request>): set<string> {
    set r | r in reqs :: r.ip
  }

  /** The map never exceeds 10001 buckets and only holds IPs that have been seen. */
  lemma {:induction false} MapBounded(p: Params, reqs: seq<Request>, victims: seq<string>)
    requires IsRun(p, reqs, victims)
    ensures |After(p, reqs, victims)| <= 10001
    ensures After(p, reqs, victims).Keys <= Ips(reqs)
  {
    hide MayEvict, Step;
    if reqs != [] {
      var n := |reqs| - 1;
      var m := After(p, reqs[..n], victims[..n]);
      assert After(p, reqs, victims) == Step(p, m, reqs[n], victims[n]);
      assert MayEvict(m, reqs[n].ip, victims[n]);
      PrefixRun(p, reqs, victims, n);
      hide After, IsRun;
      MapBounded(p, reqs[..n], victims[..n]);
      StepKeys(p, m, reqs[n], victims[n]);
      hide Ips;
      IpsOfPrefix(reqs, n);
    }
  }

  lemma IpsOfPrefix(reqs: seq<Request>, n: nat)
    requires n < |reqs|
    ensures Ips(reqs[..n]) + {reqs[n].ip} <= Ips(reqs)
  {
    assert forall r :: r in reqs[..n] ==> r in reqs;
  }

  lemma StepKeys(p: Params, m: Table, r: Request, victim: string)
    requires MayEvict(m, r.ip, victim)
    ensures Step(p, m, r, victim).Keys == (if Crowded(m, r.ip) then m.Keys - {victim} else m.Keys) + {r.ip}
    ensures |Step(p, m, r, victim)| == if r.ip in m || Crowded(m, r.ip) then |m| else |m| + 1
  {
    hide Take, BucketOf;
    var t := Step(p, m, r, victim);
    assert t.Keys == (if Crowded(m, r.ip) then m.Keys - {victim} else m.Keys) + {r.ip};
    assert |m| == |m.Keys| && |t| == |t.Keys|;
  }

  lemma PrefixRun(p: Params, reqs: seq<Request>, victims: seq<string>, n: nat)
    requires IsRun(p, reqs, victims) && n <= |reqs|
    ensures IsRun(p, reqs[..n], victims[..n])
  {
    forall k | 0 <= k < n ensures MayEvict(After(p, reqs[..n][..k], victims[..n][..k]), reqs[..n][k].ip, victims[..n][k]) {
      assert reqs[..n][..k] == reqs[..k] && victims[..n][..k] == victims[..k];
    }
  }

  // ----- buckets between evictions

  /** Step n throws away the bucket of this IP. */
  ghost predicate Evicts(p: Params, reqs: seq<Request>, victims: seq<string>, n: nat, ip: string)
    requires |victims| == |reqs| && n < |reqs|
  {
    Crowded(After(p, reqs[..n], victims[..n]), reqs[n].ip) && victims[n] == ip
  }

  /** From step a on the bucket of this IP is kept, and before step a there is none. */
  ghost predicate AnewFrom(p: Params, reqs: seq<Request>, victims: seq<string>, a: nat, ip: string)
    requires |victims| == |reqs|
  {
    && a <= |reqs|
    && ip !in After(p, reqs[..a], victims[..a])
    && forall n :: a <= n < |reqs| ==> !Evicts(p, reqs, victims, n, ip)
  }

  lemma PrefixAnewFrom(p: Params, reqs: seq<Request>, victims: seq<string>, a: nat, n: nat, ip: string)
    requires |victims| == |reqs| && AnewFrom(p, reqs, victims, a, ip) && a <= n <= |reqs|
    ensures AnewFrom(p, reqs[..n], victims[..n], a, ip)
    ensures n < |reqs| ==> !Evicts(p, reqs, victims, n, ip)
  {
    hide After, Crowded;
    assert forall k :: 0 <= k <= n ==> reqs[..n][..k] == reqs[..k] && victims[..n][..k] == victims[..k];
    forall k | a <= k < n ensures !Evicts(p, reqs[..n], victims[..n], k, ip) {
      assert !Evicts(p, reqs, victims, k, ip);
    }
  }

  /** The bucket of an IP is the private bucket fed its requests since the step from which it is kept. */
  lemma {:induction false} PrivateBucket(p: Params, reqs: seq<Request>, victims: seq<string>, a: nat, ip: string)
    requires |victims| == |reqs| && AnewFrom(p, reqs, victims, a, ip)
    ensures var m, ts := After(p, reqs, victims), Times(reqs[a..], ip);
            if ts == [] then ip !in m else ip in m && m[ip] == TokenBucket.After(p, ts)
    decreases |reqs|
  {
    if a == |reqs| {
      assert reqs[..a] == reqs && victims[..a] == victims;
    } else {
      var n := |reqs| - 1;
      var before, picked, r := reqs[..n], victims[..n], reqs[n];
      var m := After(p, before, picked);
      assert After(p, reqs, victims) == Step(p, m, r, victims[n]);
      assert reqs[a..] == before[a..] + [r];
      TimesGrow(before[a..], r, ip);
      PrefixAnewFrom(p, reqs, victims, a, n, ip);
      hide AnewFrom, After, TokenBucket.After, Times, Step, Take, Found;
      PrivateBucket(p, before, picked, a, ip);
      StepAt(p, m, r, victims[n], ip);
      hide Crowded;
      NextBucket(p, Times(before[a..], ip), r.now);
    }
  }

  lemma TimesGrow(reqs: seq<Request>, r: Request, ip: string)
    ensures Times(reqs + [r], ip) == if r.ip == ip then Times(reqs, ip) + [r.now] else Times(reqs, ip)
  {
    assert (reqs + [r])[..|reqs|] == reqs;
  }

  lemma StepAt(p: Params, m: Table, r: Request, victim: string, ip: string)
    requires Crowded(m, r.ip) ==> victim != ip
    ensures var t := Step(p, m, r, victim);
            if ip == r.ip then ip in t && t[ip] == Take(p, BucketOf(p, m, r), r.now)
            else (ip in t <==> ip in m) && (ip in m ==> t[ip] == m[ip])
  {
    hide Take;
  }

  /** What a private bucket looks like when its next request arrives. */
  lemma NextBucket(p: Params, ts: seq<real>, now: real)
    ensures Found(p, ts + [now]) == if ts == [] then Fresh(p, now) else TokenBucket.After(p, ts)
    ensures Admits(p, ts + [now]) == Granted(p, Found(p, ts + [now]), now)
    ensures TokenBucket.After(p, ts + [now]) == Take(p, Found(p, ts + [now]), now)
  {
    assert (ts + [now])[..|ts|] == ts;
  }

  lemma PrivateDecision(p: Params, reqs: seq<Request>, victims: seq<string>, a: nat, n: nat)
    requires |victims| == |reqs| && a <= n < |reqs| && AnewFrom(p, reqs[..n], victims[..n], a, reqs[n].ip)
    ensures Times(reqs[a..n + 1], reqs[n].ip) == Times(reqs[a..n], reqs[n].ip) + [reqs[n].now]
    ensures Decision(p, reqs, victims, n) == Admits(p, Times(reqs[a..n + 1], reqs[n].ip))
  {
    hide Gain, Refill, Found, AnewFrom;
    var ip := reqs[n].ip;
    PrivateBucket(p, reqs[..n], victims[..n], a, ip);
    assert reqs[..n][a..] == reqs[a..n] && reqs[a..n + 1] == reqs[a..n] + [reqs[n]];
    TimesGrow(reqs[a..n], reqs[n], ip);
    NextBucket(p, Times(reqs[a..n], ip), reqs[n].now);
  }

  /**
   In every run, every decision is the one of a private bucket fed only the requests of its IP since the
   bucket of that IP was last evicted, or since the start; nothing else in the run matters.
   */
  lemma DecisionSinceEviction(p: Params, reqs: seq<Request>, victims: seq<string>, n: nat) returns (a: nat)
    requires IsRun(p, reqs, victims) && n < |reqs|
    ensures a <= n && (a == 0 || Evicts(p, reqs, victims, a - 1, reqs[n].ip))
    ensures forall k :: a <= k < n ==> !Evicts(p, reqs, victims, k, reqs[n].ip)
    ensures Times(reqs[a..n + 1], reqs[n].ip) == Times(reqs[a..n], reqs[n].ip) + [reqs[n].now]
    ensures Decision(p, reqs, victims, n) == Admits(p, Times(reqs[a..n + 1], reqs[n].ip))
  {
    hide After, Crowded, Admits, Decision, Times;
    a := n;
    var ip := reqs[n].ip;
    while a > 0 && !Evicts(p, reqs, victims, a - 1, ip)
      invariant a <= n && forall k :: a <= k < n ==> !Evicts(p, reqs, victims, k, ip)
    {
      a := a - 1;
    }
    AbsentAfterEviction(p, reqs, victims, a, ip);
    assert forall k :: 0 <= k <= n ==> reqs[..n][..k] == reqs[..k] && victims[..n][..k] == victims[..k];
    forall k | a <= k < n ensures !Evicts(p, reqs[..n], victims[..n], k, ip) {
      assert !Evicts(p, reqs, victims, k, ip);
    }
    PrivateDecision(p, reqs, victims, a, n);
  }

  lemma AbsentAfterEviction(p: Params, reqs: seq<Request>, victims: seq<string>, a: nat, ip: string)
    requires IsRun(p, reqs, victims) && a <= |reqs| && (a == 0 || Evicts(p, reqs, victims, a - 1, ip))
    ensures ip !in After(p, reqs[..a], victims[..a])
  {
    if a > 0 {
      assert reqs[..a][..a - 1] == reqs[..a - 1] && victims[..a][..a - 1] == victims[..a - 1];
      assert MayEvict(After(p, reqs[..a - 1], victims[..a - 1]), reqs[a - 1].ip, victims[a - 1]);
    }
  }

  // ----- at most 10001 IPs

  lemma NoEvictions(p: Params, reqs: seq<Request>, victims: seq<string>, n: nat)
    requires IsRun(p, reqs, victims) && |Ips(reqs)| <= MAX_BUCKETS + 1 && n < |reqs|
    ensures !Crowded(After(p, reqs[..n], victims[..n]), reqs[n].ip)
  {
    var m, ip := After(p, reqs[..n], victims[..n]), reqs[n].ip;
    PrefixRun(p, reqs, victims, n);
    MapBounded(p, reqs[..n], victims[..n]);
    assert m.Keys + {ip} <= Ips(reqs);
    SubsetSize(m.Keys + {ip}, Ips(reqs));
    assert |m| == |m.Keys|;
  }

  lemma {:induction false} SubsetSize(a: set<string>, b: set<string>)
    requires a <= b
    ensures |a| <= |b|
  {
    if a != {} {
      var x :| x in a;
      SubsetSize(a - {x}, b - {x});
    }
  }

  /**
   With at most 10001 distinct IPs in the run, every decision is the one of a private bucket fed only the
   requests of that IP, whatever the interleaving.
   */
  lemma IndependentBuckets(p: Params, reqs: seq<Request>, victims: seq<string>, n: nat)
    requires IsRun(p, reqs, victims) && |Ips(reqs)| <= MAX_BUCKETS + 1 && n < |reqs|
    ensures Times(reqs[..n + 1], reqs[n].ip) == Times(reqs[..n], reqs[n].ip) + [reqs[n].now]
    ensures Decision(p, reqs, victims, n) == Admits(p, Times(reqs[..n + 1], reqs[n].ip))
  {
    hide After, MayEvict, Admits, Decision, Times;
    var a := DecisionSinceEviction(p, reqs, victims, n);
    if a > 0 {
      NoEvictions(p, reqs, victims, a - 1);
    }
    assert reqs[0..n + 1] == reqs[..n + 1] && reqs[0..n] == reqs[..n];
  }

  // ----- how much an IP gets in a window of a run

  /** Requests arrive in the order of the clock. */
  ghost predicate Timely(reqs: seq<Request>) {
    forall i, j :: 0 <= i <= j < |reqs| ==> reqs[i].now <= reqs[j].now
  }

  /** How many requests of one IP the steps a, .., b - 1 let through. */
  function LetThrough(p: Params, reqs: seq<Request>, victims: seq<string>, ip: string, a: nat, b: nat): nat
    requires |victims| == |reqs| && a <= b <= |reqs|
    decreases b
  {
    if a == b then 0
    else LetThrough(p, reqs, victims, ip, a, b - 1) + One(reqs[b - 1].ip == ip && Decision(p, reqs, victims, b - 1))
  }

  /** How often the steps a, .., b - 1 throw the bucket of one IP away. */
  ghost function Evictions(p: Params, reqs: seq<Request>, victims: seq<string>, ip: string, a: nat, b: nat): nat
    requires |victims| == |reqs| && a <= b <= |reqs|
    decreases b
  {
    if a == b then 0
    else Evictions(p, reqs, victims, ip, a, b - 1) + One(Evicts(p, reqs, victims, b - 1, ip))
  }

  /** What an IP could spend at once: the refilled bucket, or a full one when it has none. */
  function LevelOf(p: Params, m: Table, ip: string, now: real): real {
    if ip in m then Refill(p, m[ip], now) else p.burst
  }

  /** Every bucket holds between 0 and burst tokens and was last used before `now`. */
  ghost predicate Sane(p: Params, m: Table, now: real) {
    forall ip :: ip in m ==> 0.0 <= m[ip].tokens <= p.burst && m[ip].last <= now
  }

  lemma TakeIsSane(p: Params, b: Bucket, now: real)
    requires Sensible(p) && 0.0 <= b.tokens && b.last <= now
    ensures 0.0 <= Refill(p, b, now) <= p.burst
    ensures var c := Take(p, b, now);
            && 0.0 <= c.tokens <= p.burst && c.last == now
            && Refill(p, c, now) == c.tokens == Refill(p, b, now) - One(Granted(p, b, now)) as real
  {
    hide Gain;
    GainMonotone(p, 0.0, now - b.last);
    GainAdds(p, now, now, now);
  }

  lemma {:induction false} TableIsSane(p: Params, reqs: seq<Request>, victims: seq<string>, now: real)
    requires Sensible(p) && |victims| == |reqs| && Timely(reqs) && (reqs != [] ==> reqs[|reqs| - 1].now <= now)
    ensures Sane(p, After(p, reqs, victims), now)
  {
    if reqs != [] {
      var n := |reqs| - 1;
      var m, r := After(p, reqs[..n], victims[..n]), reqs[n];
      TableIsSane(p, reqs[..n], victims[..n], r.now);
      assert After(p, reqs, victims) == Step(p, m, r, victims[n]);
      hide After, Refill, Granted, Take;
      TakeIsSane(p, BucketOf(p, m, r), r.now);
    }
  }

  /** Waiting earns at most the rate. */
  lemma LevelRises(p: Params, m: Table, ip: string, now: real, later: real)
    requires Sensible(p) && Sane(p, m, now) && now <= later
    ensures 0.0 <= LevelOf(p, m, ip, now)
    ensures LevelOf(p, m, ip, later) <= LevelOf(p, m, ip, now) + Gain(p, later - now)
  {
    hide Gain;
    if ip in m {
      TakeIsSane(p, m[ip], now);
      GainAdds(p, m[ip].last, now, later);
    }
    GainMonotone(p, 0.0, later - now);
    GainAdds(p, now, now, now);
  }

  /** One step: a request let through costs a token, an eviction gives at most a burst. */
  lemma LevelStep(p: Params, m: Table, r: Request, victim: string, ip: string)
    requires Sensible(p) && Sane(p, m, r.now)
    ensures LevelOf(p, Step(p, m, r, victim), ip, r.now) + One(r.ip == ip && Decides(p, m, r)) as real
            <= LevelOf(p, m, ip, r.now) + if Crowded(m, r.ip) && victim == ip then p.burst else 0.0
  {
    hide Gain, Take, Granted, Refill;
    GainAdds(p, r.now, r.now, r.now);
    if r.ip == ip {
      TakeIsSane(p, BucketOf(p, m, r), r.now);
      FreshIsFull(p, r.now);
    } else if ip in m {
      TakeIsSane(p, m[ip], r.now);
    }
  }

  lemma FreshIsFull(p: Params, now: real)
    ensures Refill(p, Fresh(p, now), now) == p.burst
  {
  }

  /** That many full buckets. */
  function Bursts(p: Params, k: nat): real {
    p.burst * k as real
  }

  lemma BurstsAdd(p: Params, k: nat)
    ensures Bursts(p, k + 1) == Bursts(p, k) + p.burst
    ensures Bursts(p, 1) == p.burst
  {
  }

  /** The same for step n of a run. */
  lemma RunLevelStep(p: Params, reqs: seq<Request>, victims: seq<string>, ip: string, n: nat)
    requires Sensible(p) && Timely(reqs) && |victims| == |reqs| && n < |reqs|
    ensures LevelAfter(p, reqs, victims, ip, n + 1, reqs[n].now) + One(reqs[n].ip == ip && Decision(p, reqs, victims, n)) as real
            <= LevelAfter(p, reqs, victims, ip, n, reqs[n].now) + if Evicts(p, reqs, victims, n, ip) then p.burst else 0.0
  {
    var m, r := After(p, reqs[..n], victims[..n]), reqs[n];
    assert reqs[..n + 1][..n] == reqs[..n] && victims[..n + 1][..n] == victims[..n];
    assert After(p, reqs[..n + 1], victims[..n + 1]) == Step(p, m, r, victims[n]);
    TableIsSane(p, reqs[..n], victims[..n], r.now);
    hide After, Step, LevelOf, Decides, Sane;
    LevelStep(p, m, r, victims[n], ip);
  }

  /** What an IP could spend at once after n steps of a run. */
  function LevelAfter(p: Params, reqs: seq<Request>, victims: seq<string>, ip: string, n: nat, now: real): real
    requires |victims| == |reqs| && n <= |reqs|
  {
    LevelOf(p, After(p, reqs[..n], victims[..n]), ip, now)
  }

  lemma RunLevelRises(p: Params, reqs: seq<Request>, victims: seq<string>, ip: string, n: nat, later: real)
    requires Sensible(p) && Timely(reqs) && |victims| == |reqs| && 0 < n <= |reqs| && reqs[n - 1].now <= later
    ensures 0.0 <= LevelAfter(p, reqs, victims, ip, n, reqs[n - 1].now)
    ensures LevelAfter(p, reqs, victims, ip, n, later)
            <= LevelAfter(p, reqs, victims, ip, n, reqs[n - 1].now) + Gain(p, later - reqs[n - 1].now)
  {
    hide After, LevelOf, Gain, Sane;
    TableIsSane(p, reqs[..n], victims[..n], reqs[n - 1].now);
    LevelRises(p, After(p, reqs[..n], victims[..n]), ip, reqs[n - 1].now, later);
  }

  /** The window bound of a run, with what the IP could spend at once at its end. */
  lemma {:induction false} RunWindowWithRest(p: Params, reqs: seq<Request>, victims: seq<string>, ip: string, a: nat, b: nat)
    requires Sensible(p) && Timely(reqs) && |victims| == |reqs| && a < b <= |reqs|
    ensures LetThrough(p, reqs, victims, ip, a, b) as real + LevelAfter(p, reqs, victims, ip, b, reqs[b - 1].now)
            <= Bursts(p, 1 + Evictions(p, reqs, victims, ip, a, b)) + Gain(p, reqs[b - 1].now - reqs[a].now)
    decreases b
  {
    hide LevelAfter, Gain, Decision, Evicts, Bursts;
    var n := b - 1;
    var before, was := LetThrough(p, reqs, victims, ip, a, n), Evictions(p, reqs, victims, ip, a, n);
    assert LetThrough(p, reqs, victims, ip, a, b) == before + One(reqs[n].ip == ip && Decision(p, reqs, victims, n));
    assert Evictions(p, reqs, victims, ip, a, b) == was + One(Evicts(p, reqs, victims, n, ip));
    RunLevelStep(p, reqs, victims, ip, n);
    BurstsAdd(p, 1 + was);
    if n == a {
      LevelBounded(p, reqs, victims, ip, n, reqs[n].now);
      GainAdds(p, reqs[a].now, reqs[a].now, reqs[a].now);
    } else {
      RunWindowWithRest(p, reqs, victims, ip, a, n);
      RunLevelRises(p, reqs, victims, ip, n, reqs[n].now);
      GainAdds(p, reqs[a].now, reqs[n - 1].now, reqs[n].now);
    }
  }

  lemma LevelBounded(p: Params, reqs: seq<Request>, victims: seq<string>, ip: string, n: nat, now: real)
    requires |victims| == |reqs| && n <= |reqs|
    ensures LevelAfter(p, reqs, victims, ip, n, now) <= p.burst
  {
    hide After;
  }

  /**
   The window bound of the limiter, for any run, any IP and any window of steps: one burst, one more for each
   time its bucket was evicted in the window, and the rate times the length of the window.
   */
  lemma RunWindowBound(p: Params, reqs: seq<Request>, victims: seq<string>, ip: string, a: nat, b: nat)
    requires Sensible(p) && Timely(reqs) && |victims| == |reqs| && a < b <= |reqs|
    ensures LetThrough(p, reqs, victims, ip, a, b) as real
            <= p.burst * (1 + Evictions(p, reqs, victims, ip, a, b)) as real + p.rate * (reqs[b - 1].now - reqs[a].now)
  {
    hide LevelAfter, Gain, LetThrough, Evictions;
    RunWindowWithRest(p, reqs, victims, ip, a, b);
    RunLevelRises(p, reqs, victims, ip, b, reqs[b - 1].now);
    GainIsProduct(p, reqs[b - 1].now - reqs[a].now);
  }

  /** An IP whose bucket is not evicted in the window gets at most burst + rate * length. */
  lemma KeptWindowBound(p: Params, reqs: seq<Request>, victims: seq<string>, ip: string, a: nat, b: nat)
    requires Sensible(p) && Timely(reqs) && |victims| == |reqs| && a < b <= |reqs|
    requires forall n :: a <= n < b ==> !Evicts(p, reqs, victims, n, ip)
    ensures LetThrough(p, reqs, victims, ip, a, b) as real <= p.burst + p.rate * (reqs[b - 1].now - reqs[a].now)
  {
    hide LetThrough, Evicts;
    RunWindowBound(p, reqs, victims, ip, a, b);
    NoneEvicted(p, reqs, victims, ip, a, b);
  }

  lemma {:induction false} NoneEvicted(p: Params, reqs: seq<Request>, victims: seq<string>, ip: string, a: nat, b: nat)
    requires |victims| == |reqs| && a <= b <= |reqs|
    requires forall n :: a <= n < b ==> !Evicts(p, reqs, victims, n, ip)
    ensures Evictions(p, reqs, victims, ip, a, b) == 0
    decreases b
  {
    hide Evicts;
    if a < b { NoneEvicted(p, reqs, victims, ip, a, b - 1); }
  }

  // ----- runs and the theorems about one bucket

  /** What an IP gets while its bucket is kept is what the private bucket lets through. */
  lemma {:induction false} LetThroughIsAdmitted(p: Params, reqs: seq<Request>, victims: seq<string>, ip: string, a: nat, n: nat)
    requires |victims| == |reqs| && AnewFrom(p, reqs, victims, a, ip) && a <= n <= |reqs|
    ensures var ts := Times(reqs[a..n], ip);
            LetThrough(p, reqs, victims, ip, a, n) == Admitted(p, ts, 0, |ts|)
    decreases n
  {
    if n > a {
      hide AnewFrom, Admits, Decision, Times, After, Admitted;
      var k := n - 1;
      assert LetThrough(p, reqs, victims, ip, a, n) ==
             LetThrough(p, reqs, victims, ip, a, k) + One(reqs[k].ip == ip && Decision(p, reqs, victims, k));
      hide LetThrough;
      LetThroughIsAdmitted(p, reqs, victims, ip, a, k);
      KeptDecision(p, reqs, victims, ip, a, k);
      AdmittedGrows(p, Times(reqs[a..k], ip), reqs[k].now);
    }
  }

  lemma KeptDecision(p: Params, reqs: seq<Request>, victims: seq<string>, ip: string, a: nat, k: nat)
    requires |victims| == |reqs| && AnewFrom(p, reqs, victims, a, ip) && a <= k < |reqs|
    ensures var ts := Times(reqs[a..k], ip);
            if reqs[k].ip == ip
            then Times(reqs[a..k + 1], ip) == ts + [reqs[k].now] && Decision(p, reqs, victims, k) == Admits(p, ts + [reqs[k].now])
            else Times(reqs[a..k + 1], ip) == ts
  {
    hide AnewFrom, Admits, Decision, Times, After;
    assert reqs[a..k + 1] == reqs[a..k] + [reqs[k]];
    TimesGrow(reqs[a..k], reqs[k], ip);
    if reqs[k].ip == ip {
      PrefixAnewFrom(p, reqs, victims, a, k, ip);
      PrivateDecision(p, reqs, victims, a, k);
    }
  }

  lemma {:induction false} TimesOrdered(reqs: seq<Request>, ip: string)
    requires Timely(reqs)
    ensures Ordered(Times(reqs, ip))
    ensures forall t :: t in Times(reqs, ip) ==> reqs != [] && t <= reqs[|reqs| - 1].now
  {
    if reqs != [] {
      var n := |reqs| - 1;
      var ts := Times(reqs[..n], ip);
      TimesOrdered(reqs[..n], ip);
      hide Times;
      forall i | 0 <= i < |ts| ensures ts[i] <= reqs[n].now {
        assert ts[i] in ts;
        assert reqs[n - 1].now <= reqs[n].now;
      }
      TimesGrow(reqs[..n], reqs[n], ip);
      assert reqs[..n] + [reqs[n]] == reqs;
    }
  }

  /** While the bucket of an IP is kept, no selection of its requests within the window bounds beats the limiter. */
  lemma KeptIsOptimal(p: Params, reqs: seq<Request>, victims: seq<string>, ip: string, a: nat, n: nat, sel: seq<bool>)
    requires Sensible(p) && Timely(reqs) && |victims| == |reqs| && AnewFrom(p, reqs, victims, a, ip) && a <= n <= |reqs|
    requires Feasible(p, Times(reqs[a..n], ip), sel)
    ensures LetThrough(p, reqs, victims, ip, a, n) >= Chosen(sel, 0, |sel|)
  {
    var ts := Times(reqs[a..n], ip);
    TimesOrdered(reqs[a..n], ip);
    hide Times, AnewFrom, LetThrough, Admitted, Chosen, Ordered;
    LetThroughIsAdmitted(p, reqs, victims, ip, a, n);
    GreedyOptimal(p, ts, sel, |ts|);
  }

  /** In any run, a request 1/rate seconds or more after all earlier ones of its IP is let through. */
  lemma RunSpacedRequest(p: Params, reqs: seq<Request>, victims: seq<string>, n: nat)
    requires Sensible(p) && Timely(reqs) && IsRun(p, reqs, victims) && n < |reqs| && p.burst >= 1.0
    requires forall k :: 0 <= k < n && reqs[k].ip == reqs[n].ip ==> p.rate > 0.0 && reqs[n].now - reqs[k].now >= 1.0 / p.rate
    ensures Decision(p, reqs, victims, n)
  {
    hide Times, IsRun, Decision, Evicts, Admits, Ordered;
    var ip, now := reqs[n].ip, reqs[n].now;
    var a := DecisionSinceEviction(p, reqs, victims, n);
    var ts := Times(reqs[a..n], ip);
    TimesOrdered(reqs[a..n + 1], ip);
    if ts != [] {
      assert (ts + [now])[|ts| - 1] == ts[|ts| - 1];
      var k := TimeOfRequest(reqs[a..n], ip, ts[|ts| - 1]);
      assert reqs[a..n][k] == reqs[a + k];
    }
    SpacedRequestAdmitted(p, ts + [now], |ts|);
    assert (ts + [now])[..|ts| + 1] == ts + [now];
  }

  lemma {:induction false} TimeOfRequest(reqs: seq<Request>, ip: string, t: real) returns (k: nat)
    requires t in Times(reqs, ip)
    ensures k < |reqs| && reqs[k].ip == ip && reqs[k].now == t
  {
    var n := |reqs| - 1;
    if t in Times(reqs[..n], ip) {
      k := TimeOfRequest(reqs[..n], ip, t);
    } else {
      k := n;
    }
  }

  // ----- the auth endpoints

  /** Any minute lets through at most 15 requests of one IP, and 5 more for each time its bucket was evicted. */
  lemma AuthMinuteBound(reqs: seq<Request>, victims: seq<string>, ip: string, a: nat, b: nat)
    requires Timely(reqs) && |victims| == |reqs| && a < b <= |reqs| && reqs[b - 1].now - reqs[a].now <= 60.0
    ensures LetThrough(AUTH_LIMIT, reqs, victims, ip, a, b) <= 15 + 5 * Evictions(AUTH_LIMIT, reqs, victims, ip, a, b)
  {
    hide LetThrough, Evictions;
    RunWindowBound(AUTH_LIMIT, reqs, victims, ip, a, b);
    AuthAllowance(Evictions(AUTH_LIMIT, reqs, victims, ip, a, b), reqs[b - 1].now - reqs[a].now);
  }

  lemma AuthAllowance(evictions: nat, span: real)
    requires span <= 60.0
    ensures AUTH_LIMIT.burst * (1 + evictions) as real + AUTH_LIMIT.rate * span <= (15 + 5 * evictions) as real
  {
    var k := (1 + evictions) as real;
    assert AUTH_LIMIT.burst == 5.0 && AUTH_LIMIT.rate == 10.0 / 60.0;
    assert AUTH_LIMIT.rate * span == span / 6.0;
    assert AUTH_LIMIT.burst * k == 5.0 * k;
  }

  /** The 15 are reached without any eviction, by five requests at once and then one every six seconds. */
  lemma AuthMinuteBoundReached(ip: string) returns (reqs: seq<Request>, victims: seq<string>)
    ensures IsRun(AUTH_LIMIT, reqs, victims) && Timely(reqs) && |reqs| == 15 && reqs[14].now - reqs[0].now == 60.0
    ensures Evictions(AUTH_LIMIT, reqs, victims, ip, 0, 15) == 0
    ensures LetThrough(AUTH_LIMIT, reqs, victims, ip, 0, 15) == 15
  {
    hide After, Crowded, Times, LetThrough, Admitted, IsRun, AnewFrom, AUTH_LIMIT;
    var ts := BusyMinute();
    reqs, victims := seq(15, k requires 0 <= k < 15 => Request(ip, ts[k])), seq(15, k => "");
    BusyMinuteAdmitted();
    TimesOfOne(reqs, ip);
    assert Times(reqs, ip) == ts;
    OneIpRun(AUTH_LIMIT, reqs, victims, ip);
    NoneEvicted(AUTH_LIMIT, reqs, victims, ip, 0, 15);
    assert reqs[0..15] == reqs;
    LetThroughIsAdmitted(AUTH_LIMIT, reqs, victims, ip, 0, 15);
  }

  lemma NothingYet(p: Params, reqs: seq<Request>, victims: seq<string>)
    requires |victims| == |reqs|
    ensures After(p, reqs[..0], victims[..0]) == map[]
  {
  }

  /** A run of one IP has no evictions. */
  lemma OneIpRun(p: Params, reqs: seq<Request>, victims: seq<string>, ip: string)
    requires |victims| == |reqs| && forall r :: r in reqs ==> r.ip == ip
    ensures IsRun(p, reqs, victims) && AnewFrom(p, reqs, victims, 0, ip)
    ensures forall n :: 0 <= n < |reqs| ==> !Evicts(p, reqs, victims, n, ip)
  {
    forall n | 0 <= n < |reqs| ensures !Crowded(After(p, reqs[..n], victims[..n]), reqs[n].ip) {
      OneIp(p, reqs[..n], victims[..n], ip);
    }
    hide After, Crowded;
    NothingYet(p, reqs, victims);
  }

  lemma {:induction false} TimesOfOne(reqs: seq<Request>, ip: string)
    requires forall r :: r in reqs ==> r.ip == ip
    ensures |Times(reqs, ip)| == |reqs| && forall k :: 0 <= k < |reqs| ==> Times(reqs, ip)[k] == reqs[k].now
  {
    if reqs != [] { TimesOfOne(reqs[..|reqs| - 1], ip); }
  }

  lemma {:induction false} OneIp(p: Params, reqs: seq<Request>, victims: seq<string>, ip: string)
    requires |victims| == |reqs| && forall r :: r in reqs ==> r.ip == ip
    ensures After(p, reqs, victims).Keys <= {ip} && |After(p, reqs, victims)| <= 1
  {
    if reqs != [] {
      var n := |reqs| - 1;
      var m := After(p, reqs[..n], victims[..n]);
      OneIp(p, reqs[..n], victims[..n], ip);
      assert After(p, reqs, victims) == Step(p, m, reqs[n], victims[n]);
      StepKeys(p, m, reqs[n], victims[n]);
      assert m.Keys == {} || m.Keys == {ip};
      assert |m| == |m.Keys|;
    }
  }

  // ----- an eviction hands out a new burst

  /** A drained bucket refuses; once it is evicted, its IP is let through again at the same moment. */
  lemma EvictionReadmits(p: Params, m: Table, ip: string, other: string, now: real)
    requires p.burst >= 1.0 && Crowded(m, other) && ip in m && Refill(p, m[ip], now) < 1.0
    ensures MayEvict(m, other, ip)
    ensures !Decides(p, m, Request(ip, now))
    ensures Decides(p, Step(p, m, Request(other, now), ip), Request(ip, now))
  {
    GainAdds(p, now, now, now);
  }

  /** Distinct IPs without end. */
  function OtherIp(k: nat): (ip: string)
    ensures |ip| == k + 1
  {
    seq(k + 1, i => '1')
  }

  /** One IP spends its burst, then as many others as the map holds come along, then one more, all at once. */
  function Flood(): seq<Request> {
    seq(MAX_BUCKETS + 7, n requires n >= 0 => Request(if 5 <= n < MAX_BUCKETS + 6 then OtherIp(n - 5) else "", 0.0))
  }

  function FloodVictims(): seq<string> { seq(MAX_BUCKETS + 7, n => if n == MAX_BUCKETS + 6 then OtherIp(0) else "") }

  /** The IP has spent its burst, and `others` other IPs have come since. */
  ghost predicate Flooded(m: Table, others: nat) {
    && |m| == others + 1 && "" in m && m[""] == Bucket(0.0, 0.0)
    && forall k: nat :: OtherIp(k) in m <==> k < others
  }

  lemma {:induction false} FloodStates(others: nat)
    requires others <= MAX_BUCKETS
    ensures Flooded(After(AUTH_LIMIT, Flood()[..5 + others], FloodVictims()[..5 + others]), others)
  {
    var n := 5 + others;
    hide Flood, FloodVictims, OtherIp, After, Step;
    FloodAt(0);
    if others == 0 {
      BurstSpent(5);
    } else {
      FloodStates(others - 1);
      FloodAt(n - 1);
      var m := After(AUTH_LIMIT, Flood()[..n - 1], FloodVictims()[..n - 1]);
      FloodStep(m, others - 1);
    }
  }

  lemma AfterStep(p: Params, reqs: seq<Request>, victims: seq<string>, n: nat)
    requires |victims| == |reqs| && n < |reqs|
    ensures After(p, reqs[..n + 1], victims[..n + 1]) == Step(p, After(p, reqs[..n], victims[..n]), reqs[n], victims[n])
  {
    assert reqs[..n + 1][..n] == reqs[..n] && victims[..n + 1][..n] == victims[..n];
  }

  /** Step n of the flood. */
  lemma FloodAt(n: nat)
    requires n < MAX_BUCKETS + 7
    ensures |Flood()| == |FloodVictims()| == MAX_BUCKETS + 7 && FloodVictims()[n] == if n == MAX_BUCKETS + 6 then OtherIp(0) else ""
    ensures Flood()[n] == Request(if 5 <= n < MAX_BUCKETS + 6 then OtherIp(n - 5) else "", 0.0)
    ensures After(AUTH_LIMIT, Flood()[..n + 1], FloodVictims()[..n + 1]) ==
            Step(AUTH_LIMIT, After(AUTH_LIMIT, Flood()[..n], FloodVictims()[..n]), Flood()[n], FloodVictims()[n])
  {
    hide Step, OtherIp;
    AfterStep(AUTH_LIMIT, Flood(), FloodVictims(), n);
  }

  lemma FloodStep(m: Table, others: nat)
    requires others < MAX_BUCKETS && Flooded(m, others)
    ensures Flooded(Step(AUTH_LIMIT, m, Request(OtherIp(others), 0.0), ""), others + 1)
  {
    hide Take, BucketOf;
    StepKeys(AUTH_LIMIT, m, Request(OtherIp(others), 0.0), "");
    forall k: nat | k != others ensures OtherIp(k) != OtherIp(others) {
      assert |OtherIp(k)| == k + 1;
    }
  }

  lemma {:induction false} BurstSpent(n: nat)
    requires n <= 5
    ensures |Flood()| == |FloodVictims()| == MAX_BUCKETS + 7
    ensures After(AUTH_LIMIT, Flood()[..n], FloodVictims()[..n]) ==
            if n == 0 then map[] else map["" := Bucket(5.0 - n as real, 0.0)]
  {
    hide Flood, FloodVictims, After, Step, AUTH_LIMIT;
    FloodAt(n);
    if n == 0 {
      NothingYet(AUTH_LIMIT, Flood(), FloodVictims());
    } else {
      FloodAt(n - 1);
      BurstSpent(n - 1);
      SpendOne(n - 1);
    }
  }

  lemma SpendOne(n: nat)
    requires n < 5
    ensures Step(AUTH_LIMIT, if n == 0 then map[] else map["" := Bucket(5.0 - n as real, 0.0)], Request("", 0.0), "") ==
            map["" := Bucket(5.0 - (n + 1) as real, 0.0)]
  {
    hide Gain;
    GainAdds(AUTH_LIMIT, 0.0, 0.0, 0.0);
  }

  /** What step n of the flood does to the first IP. */
  lemma FloodDecides(n: nat)
    requires n < MAX_BUCKETS + 7
    ensures |Flood()| == |FloodVictims()| == MAX_BUCKETS + 7
    ensures var m := After(AUTH_LIMIT, Flood()[..n], FloodVictims()[..n]);
            && MayEvict(m, Flood()[n].ip, FloodVictims()[n])
            && (Crowded(m, Flood()[n].ip) && FloodVictims()[n] == "" <==> n == MAX_BUCKETS + 5)
            && (Flood()[n].ip == "" <==> n < 5 || n == MAX_BUCKETS + 6)
            && (Flood()[n].ip == "" ==> Decides(AUTH_LIMIT, m, Flood()[n]))
  {
    hide Flood, FloodVictims, After, Step, OtherIp, Gain;
    FloodAt(n);
    GainAdds(AUTH_LIMIT, 0.0, 0.0, 0.0);
    if n < 5 {
      BurstSpent(n);
    } else if n < MAX_BUCKETS + 6 {
      FloodStates(n - 5);
    } else {
      FloodStates(MAX_BUCKETS);
      FloodAt(n - 1);
      LastFloodStep(After(AUTH_LIMIT, Flood()[..n - 1], FloodVictims()[..n - 1]));
    }
  }

  lemma LastFloodStep(m: Table)
    requires Flooded(m, MAX_BUCKETS)
    ensures var t := Step(AUTH_LIMIT, m, Request(OtherIp(MAX_BUCKETS), 0.0), "");
            "" !in t && OtherIp(0) in t && Decides(AUTH_LIMIT, t, Request("", 0.0))
  {
    GainAdds(AUTH_LIMIT, 0.0, 0.0, 0.0);
  }

  lemma {:induction false} FloodCounts(n: nat)
    requires n <= MAX_BUCKETS + 7
    ensures |Flood()| == |FloodVictims()| == MAX_BUCKETS + 7
    ensures LetThrough(AUTH_LIMIT, Flood(), FloodVictims(), "", 0, n) ==
            if n <= 5 then n else if n <= MAX_BUCKETS + 6 then 5 else 6
    ensures Evictions(AUTH_LIMIT, Flood(), FloodVictims(), "", 0, n) == if n <= MAX_BUCKETS + 5 then 0 else 1
  {
    hide Flood, FloodVictims, After, Crowded, MayEvict, Decides, OtherIp;
    FloodAt(0);
    if n > 0 {
      var k, reqs, victims := n - 1, Flood(), FloodVictims();
      assert LetThrough(AUTH_LIMIT, reqs, victims, "", 0, n) ==
             LetThrough(AUTH_LIMIT, reqs, victims, "", 0, k) + One(reqs[k].ip == "" && Decision(AUTH_LIMIT, reqs, victims, k));
      assert Evictions(AUTH_LIMIT, reqs, victims, "", 0, n) ==
             Evictions(AUTH_LIMIT, reqs, victims, "", 0, k) + One(Evicts(AUTH_LIMIT, reqs, victims, k, ""));
      hide LetThrough, Evictions, AUTH_LIMIT;
      FloodCounts(k);
      FloodDecides(k);
    }
  }

  /** So six requests of one IP can get through at one instant, where its burst is five. */
  lemma EvictionGivesAnotherBurst()
    ensures var reqs, victims := Flood(), FloodVictims();
            && IsRun(AUTH_LIMIT, reqs, victims) && (forall r :: r in reqs ==> r.now == 0.0)
            && LetThrough(AUTH_LIMIT, reqs, victims, "", 0, |reqs|) == 6
            && Evictions(AUTH_LIMIT, reqs, victims, "", 0, |reqs|) == 1
  {
    hide After, MayEvict, LetThrough, Evictions;
    FloodCounts(MAX_BUCKETS + 7);
    var reqs, victims := Flood(), FloodVictims();
    forall n | 0 <= n < |reqs| ensures MayEvict(After(AUTH_LIMIT, reqs[..n], victims[..n]), reqs[n].ip, victims[n]) {
      FloodDecides(n);
    }
  }

  // ----- up to how many IPs the plain bound holds

  /** The auth endpoints keep to burst + rate * length in every run with at most n distinct IPs. */
  ghost predicate PlainBoundUpTo(n: nat) {
    forall reqs: seq<Request>, victims: seq<string>, ip, a, b ::
      IsRun(AUTH_LIMIT, reqs, victims) && Timely(reqs) && |Ips(reqs)| <= n && 0 <= a < b <= |reqs| ==>
        LetThrough(AUTH_LIMIT, reqs, victims, ip, a, b) as real
        <= AUTH_LIMIT.burst + AUTH_LIMIT.rate * (reqs[b - 1].now - reqs[a].now)
  }

  /** The plain window bound holds for every IP, window and run of up to n distinct IPs if and only if the map can keep them. */
  lemma PlainBoundExactly(n: nat)
    ensures PlainBoundUpTo(n) <==> n <= 10001
  {
    hide Timely, MayEvict, After, LetThrough, Evictions, Ips;
    if n <= MAX_BUCKETS + 1 {
      forall reqs: seq<Request>, victims: seq<string>, ip, a, b
        | IsRun(AUTH_LIMIT, reqs, victims) && Timely(reqs) && |Ips(reqs)| <= n && 0 <= a < b <= |reqs|
        ensures LetThrough(AUTH_LIMIT, reqs, victims, ip, a, b) as real
                <= AUTH_LIMIT.burst + AUTH_LIMIT.rate * (reqs[b - 1].now - reqs[a].now)
      {
        FewIpsWindowBound(AUTH_LIMIT, reqs, victims, ip, a, b);
      }
    } else {
      FloodExceeds();
      var got := LetThrough(AUTH_LIMIT, Flood(), FloodVictims(), "", 0, |Flood()|);
    }
  }

  /** With at most 10001 distinct IPs in the run the plain bound holds, for any parameters. */
  lemma FewIpsWindowBound(p: Params, reqs: seq<Request>, victims: seq<string>, ip: string, a: nat, b: nat)
    requires Sensible(p) && Timely(reqs) && IsRun(p, reqs, victims) && |Ips(reqs)| <= MAX_BUCKETS + 1 && a < b <= |reqs|
    ensures LetThrough(p, reqs, victims, ip, a, b) as real <= p.burst + p.rate * (reqs[b - 1].now - reqs[a].now)
  {
    hide Timely, LetThrough, Ips, After, Crowded, MayEvict;
    forall n | a <= n < b ensures !Evicts(p, reqs, victims, n, ip) {
      NoEvictions(p, reqs, victims, n);
    }
    KeptWindowBound(p, reqs, victims, ip, a, b);
  }

  /** The flood has one IP more than the map keeps, and exceeds the bound. */
  lemma FloodExceeds()
    ensures var reqs, victims := Flood(), FloodVictims();
            && IsRun(AUTH_LIMIT, reqs, victims) && Timely(reqs) && |Ips(reqs)| <= MAX_BUCKETS + 2 && reqs != []
            && LetThrough(AUTH_LIMIT, reqs, victims, "", 0, |reqs|) as real
               > AUTH_LIMIT.burst + AUTH_LIMIT.rate * (reqs[|reqs| - 1].now - reqs[0].now)
  {
    hide IsRun, LetThrough, Evictions, Ips;
    EvictionGivesAnotherBurst();
    FloodIps();
    FloodAt(0);
  }

  function OtherIps(n: nat): set<string> {
    if n == 0 then {} else OtherIps(n - 1) + {OtherIp(n - 1)}
  }

  lemma {:induction false} OtherIpsSize(n: nat)
    ensures |OtherIps(n)| <= n && forall k: nat :: k < n ==> OtherIp(k) in OtherIps(n)
  {
    if n > 0 { OtherIpsSize(n - 1); }
  }

  lemma FloodIps()
    ensures |Ips(Flood())| <= MAX_BUCKETS + 2
  {
    hide OtherIps, OtherIp;
    var others := OtherIps(MAX_BUCKETS + 1);
    OtherIpsSize(MAX_BUCKETS + 1);
    forall ip | ip in Ips(Flood()) ensures ip in others + {""} {
      var n :| 0 <= n < |Flood()| && Flood()[n].ip == ip;
      FloodAt(n);
    }
    SubsetSize(Ips(Flood()), others + {""});
  }
}
