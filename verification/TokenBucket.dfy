/** One token bucket of the rate limiter, over exact reals, fed requests at non-decreasing times. */
module TokenBucket {

  datatype Params = Params(rate: real, burst: real)

  datatype Bucket = Bucket(tokens: real, last: real)

  /** perMinute and burst as configured. */
  function NewParams(perMinute: int, burst: int): Params {
    Params(perMinute as real / 60.0, burst as real)
  }

  predicate Sensible(p: Params) {
    p.rate >= 0.0 && p.burst >= 0.0
  }

  function Fresh(p: Params, now: real): Bucket {
    Bucket(p.burst, now)
  }

  /** Tokens earned in a time span. */
  function Gain(p: Params, span: real): real {
    span * p.rate
  }

  function Refill(p: Params, b: Bucket, now: real): real {
    var t := b.tokens + Gain(p, now - b.last);
    if t > p.burst then p.burst else t
  }

  function Granted(p: Params, b: Bucket, now: real): bool {
    Refill(p, b, now) >= 1.0
  }

  function Take(p: Params, b: Bucket, now: real): Bucket {
    var t := Refill(p, b, now);
    Bucket(if t < 1.0 then t else t - 1.0, now)
  }

  ghost predicate Ordered(ts: seq<real>) {
    forall i, j :: 0 <= i <= j < |ts| ==> ts[i] <= ts[j]
  }

  /** The bucket that the last of these requests finds; the first one finds it full. */
  function Found(p: Params, ts: seq<real>): Bucket
    requires ts != []
  {
    var n := |ts| - 1;
    if n == 0 then Fresh(p, ts[0]) else Take(p, Found(p, ts[..n]), ts[n - 1])
  }

  /** Whether the last of these requests is let through. */
  function Admits(p: Params, ts: seq<real>): bool
    requires ts != []
  {
    Granted(p, Found(p, ts), ts[|ts| - 1])
  }

  /** The bucket after all requests. */
  function After(p: Params, ts: seq<real>): Bucket
    requires ts != []
  {
    Take(p, Found(p, ts), ts[|ts| - 1])
  }

  function One(b: bool): nat { if b then 1 else 0 }

  /** How many of the requests i, .., j - 1 are let through. */
  function Admitted(p: Params, ts: seq<real>, i: nat, j: nat): nat
    requires i <= j <= |ts|
    decreases j
  {
    if i == j then 0 else Admitted(p, ts, i, j - 1) + One(Admits(p, ts[..j]))
  }

  /** How many of the requests i, .., j - 1 a selection contains. */
  function Chosen(sel: seq<bool>, i: nat, j: nat): nat
    requires i <= j <= |sel|
    decreases j
  {
    if i == j then 0 else Chosen(sel, i, j - 1) + One(sel[j - 1])
  }

  function Allowance(p: Params, from: real, to: real): real {
    p.burst + Gain(p, to - from)
  }

  /** A selection that no window bound forbids. */
  ghost predicate Feasible(p: Params, ts: seq<real>, sel: seq<bool>) {
    && |sel| == |ts|
    && forall i, j :: 0 <= i < j <= |ts| ==> Chosen(sel, i, j) as real <= Allowance(p, ts[i], ts[j - 1])
  }

  lemma GainAdds(p: Params, a: real, b: real, c: real)
    ensures Gain(p, c - a) == Gain(p, b - a) + Gain(p, c - b)
    ensures Gain(p, 0.0) == 0.0
  {
  }

  lemma GainMonotone(p: Params, a: real, b: real)
    requires Sensible(p) && a <= b
    ensures Gain(p, a) <= Gain(p, b)
  {
    assert (b - a) * p.rate >= 0.0;
  }

  /** A request finds what the previous ones left. */
  lemma FoundIsAfter(p: Params, ts: seq<real>, n: nat)
    requires 0 < n < |ts|
    ensures Found(p, ts[..n + 1]) == After(p, ts[..n])
    ensures After(p, ts[..n]).last == ts[n - 1]
  {
    assert ts[..n + 1][..n] == ts[..n];
  }

  /** Tokens stay within [0, burst]. */
  lemma {:induction false} TokensBounded(p: Params, ts: seq<real>, n: nat)
    requires Sensible(p) && Ordered(ts) && 0 < n <= |ts|
    ensures 0.0 <= After(p, ts[..n]).tokens <= p.burst
  {
    hide Gain;
    if n == 1 {
      GainAdds(p, ts[0], ts[0], ts[0]);
    } else {
      TokensBounded(p, ts, n - 1);
      FoundIsAfter(p, ts, n - 1);
      GainMonotone(p, 0.0, ts[n - 1] - ts[n - 2]);
      GainAdds(p, ts[0], ts[0], ts[0]);
    }
  }

  /** The window bound with the tokens that are left at its end. */
  lemma {:induction false} WindowWithRest(p: Params, ts: seq<real>, i: nat, j: nat)
    requires i < j <= |ts|
    ensures Admitted(p, ts, i, j) as real <= Allowance(p, ts[i], ts[j - 1]) - After(p, ts[..j]).tokens
    decreases j
  {
    hide Gain, Found;
    assert Admitted(p, ts, i, j) == Admitted(p, ts, i, j - 1) + One(Admits(p, ts[..j]));
    if j == i + 1 {
      GainAdds(p, ts[i], ts[i], ts[i]);
    } else {
      WindowWithRest(p, ts, i, j - 1);
      FoundIsAfter(p, ts, j - 1);
      GainAdds(p, ts[i], ts[j - 2], ts[j - 1]);
    }
  }

  /** Requests that fit into a time span: at most burst + rate * span of them are let through. */
  lemma WindowBound(p: Params, ts: seq<real>, i: nat, j: nat, span: real)
    requires Sensible(p) && Ordered(ts) && i < j <= |ts| && ts[j - 1] - ts[i] <= span
    ensures Admitted(p, ts, i, j) as real <= p.burst + p.rate * span
  {
    hide Gain, Found, After, Admitted;
    WindowWithRest(p, ts, i, j);
    TokensBounded(p, ts, j);
    GainMonotone(p, ts[j - 1] - ts[i], span);
    GainIsProduct(p, span);
  }

  lemma GainIsProduct(p: Params, span: real)
    ensures Gain(p, span) == p.rate * span
  {
  }

  /** With burst >= 1 the first request, and any request 1/rate seconds after the previous one, is let through. */
  lemma SpacedRequestAdmitted(p: Params, ts: seq<real>, n: nat)
    requires Sensible(p) && Ordered(ts) && n < |ts| && p.burst >= 1.0
    requires n == 0 || (p.rate > 0.0 && ts[n] - ts[n - 1] >= 1.0 / p.rate)
    ensures Admits(p, ts[..n + 1])
  {
    hide Gain;
    GainAdds(p, ts[n], ts[n], ts[n]);
    if n > 0 {
      TokensBounded(p, ts, n);
      FoundIsAfter(p, ts, n);
      GainMonotone(p, 1.0 / p.rate, ts[n] - ts[n - 1]);
      GainOfOneToken(p);
    }
  }

  lemma GainOfOneToken(p: Params)
    requires p.rate > 0.0
    ensures Gain(p, 1.0 / p.rate) == 1.0
  {
  }

  /** One more request at the end. */
  lemma AdmittedGrows(p: Params, ts: seq<real>, now: real)
    ensures var n := |ts|;
            Admitted(p, ts + [now], 0, n + 1) == Admitted(p, ts, 0, n) + One(Admits(p, ts + [now]))
  {
    hide Admits;
    AdmittedPrefix(p, ts, now, |ts|);
    assert (ts + [now])[..|ts| + 1] == ts + [now];
  }

  lemma {:induction false} AdmittedPrefix(p: Params, ts: seq<real>, now: real, n: nat)
    requires n <= |ts|
    ensures Admitted(p, ts + [now], 0, n) == Admitted(p, ts, 0, n)
  {
    hide Admits;
    if n > 0 {
      AdmittedPrefix(p, ts, now, n - 1);
      assert (ts + [now])[..n] == ts[..n];
    }
  }

  // ----- optimality

  /** The level that a bucket would have that grants exactly the selection, even below zero. */
  function Level(p: Params, ts: seq<real>, sel: seq<bool>, n: nat): real
    requires 0 < n <= |ts| == |sel|
  {
    var full := if n == 1 then p.burst
                else Refill(p, Bucket(Level(p, ts, sel, n - 1), ts[n - 2]), ts[n - 1]);
    full - One(sel[n - 1]) as real
  }

  /** The level is what some window still allows: the one that starts where the bucket was last full. */
  lemma {:induction false} LevelIsWindow(p: Params, ts: seq<real>, sel: seq<bool>, n: nat) returns (i: nat)
    requires 0 < n <= |ts| == |sel|
    ensures i < n && Level(p, ts, sel, n) == Allowance(p, ts[i], ts[n - 1]) - Chosen(sel, i, n) as real
  {
    hide Gain;
    i := n - 1;
    assert Chosen(sel, i, n) == Chosen(sel, i, i) + One(sel[n - 1]);
    GainAdds(p, ts[i], ts[i], ts[i]);
    if n > 1 && Level(p, ts, sel, n - 1) + Gain(p, ts[n - 1] - ts[n - 2]) <= p.burst {
      i := LevelIsWindow(p, ts, sel, n - 1);
      assert Chosen(sel, i, n) == Chosen(sel, i, n - 1) + One(sel[n - 1]);
      GainAdds(p, ts[i], ts[n - 2], ts[n - 1]);
    }
  }

  lemma FeasibleLevel(p: Params, ts: seq<real>, sel: seq<bool>, n: nat)
    requires Feasible(p, ts, sel) && 0 < n <= |ts|
    ensures Level(p, ts, sel, n) >= 0.0
  {
    var i := LevelIsWindow(p, ts, sel, n);
  }

  /** The greedy bucket is ahead of the selection by at least what it is short of tokens. */
  lemma {:induction false} GreedyDominates(p: Params, ts: seq<real>, sel: seq<bool>, n: nat)
    requires Sensible(p) && Ordered(ts) && Feasible(p, ts, sel) && 0 < n <= |ts|
    ensures var lead := Admitted(p, ts, 0, n) - Chosen(sel, 0, n);
            lead >= 0 && Level(p, ts, sel, n) - After(p, ts[..n]).tokens <= lead as real
  {
    FeasibleLevel(p, ts, sel, n);
    assert Admitted(p, ts, 0, n) == Admitted(p, ts, 0, n - 1) + One(Admits(p, ts[..n]));
    assert Chosen(sel, 0, n) == Chosen(sel, 0, n - 1) + One(sel[n - 1]);
    if n > 1 {
      GreedyDominates(p, ts, sel, n - 1);
      FoundIsAfter(p, ts, n - 1);
    }
    hide Feasible, Ordered, Gain, Found;
    GreedyStep(p, Found(p, ts[..n]), if n == 1 then Fresh(p, ts[0]) else Bucket(Level(p, ts, sel, n - 1), ts[n - 2]),
               ts[n - 1], sel[n - 1], Admitted(p, ts, 0, n - 1) - Chosen(sel, 0, n - 1));
  }

  /** One request: the bucket keeps its lead over a level that never goes negative. */
  lemma GreedyStep(p: Params, b: Bucket, level: Bucket, now: real, chosen: bool, lead: int)
    requires b.last == level.last && lead >= 0 && level.tokens - b.tokens <= lead as real
    requires Refill(p, level, now) - One(chosen) as real >= 0.0
    ensures var lead' := lead + One(Granted(p, b, now)) - One(chosen);
            lead' >= 0 && Refill(p, level, now) - One(chosen) as real - Take(p, b, now).tokens <= lead' as real
  {
    hide Gain;
  }

  /**
   Greedy optimality: for every prefix, the bucket lets through at least as many requests as any selection
   that respects the window bounds.
   */
  lemma GreedyOptimal(p: Params, ts: seq<real>, sel: seq<bool>, n: nat)
    requires Sensible(p) && Ordered(ts) && Feasible(p, ts, sel) && n <= |ts|
    ensures Admitted(p, ts, 0, n) >= Chosen(sel, 0, n)
  {
    if n > 0 {
      GreedyDominates(p, ts, sel, n);
    }
  }

  /** The decisions of the bucket, as a selection. */
  function Decisions(p: Params, ts: seq<real>): (d: seq<bool>)
    ensures |d| == |ts|
  {
    seq(|ts|, i requires 0 <= i < |ts| => Admits(p, ts[..i + 1]))
  }

  lemma {:induction false} DecisionsCount(p: Params, ts: seq<real>, i: nat, j: nat)
    requires i <= j <= |ts|
    ensures Chosen(Decisions(p, ts), i, j) == Admitted(p, ts, i, j)
    decreases j
  {
    if i < j {
      DecisionsCount(p, ts, i, j - 1);
    }
  }

  /** The bucket itself respects the window bounds, so its decisions are a largest feasible selection. */
  lemma GreedyIsLargestFeasible(p: Params, ts: seq<real>, sel: seq<bool>)
    requires Sensible(p) && Ordered(ts)
    ensures Feasible(p, ts, Decisions(p, ts))
    ensures Feasible(p, ts, sel) ==> Chosen(sel, 0, |ts|) <= Chosen(Decisions(p, ts), 0, |ts|)
  {
    hide Decisions, Admitted, Chosen, Ordered;
    forall i, j | 0 <= i < j <= |ts|
      ensures Chosen(Decisions(p, ts), i, j) as real <= Allowance(p, ts[i], ts[j - 1])
    {
      DecisionsCount(p, ts, i, j);
      WindowBound(p, ts, i, j, ts[j - 1] - ts[i]);
      GainIsProduct(p, ts[j - 1] - ts[i]);
    }
    DecisionsCount(p, ts, 0, |ts|);
    if Feasible(p, ts, sel) {
      GreedyOptimal(p, ts, sel, |ts|);
    }
  }

  // ----- the limiter of the auth endpoints

  /** Ten tokens a minute, bursts of five. */
  const AUTH_LIMIT := NewParams(10, 5)

  /** Five requests at once, then one every six seconds for a minute. */
  function BusyMinute(): seq<real> {
    seq(15, k requires 0 <= k < 15 => if k < 5 then 0.0 else 6.0 * (k - 4) as real)
  }

  /** All 15 requests of this minute are within the window bounds, so all are let through. */
  lemma BusyMinuteAdmitted()
    ensures var ts := BusyMinute();
            Ordered(ts) && ts[14] - ts[0] == 60.0 && Admitted(AUTH_LIMIT, ts, 0, 15) == 15
  {
    hide Admitted, Chosen, Allowance;
    var ts, all: seq<bool> := BusyMinute(), seq(15, k => true);
    forall i, j | 0 <= i < j <= 15 ensures Chosen(all, i, j) as real <= Allowance(AUTH_LIMIT, ts[i], ts[j - 1]) {
      AllChosen(all, i, j);
      BusyWindow(i, j);
    }
    AllChosen(all, 0, 15);
    assert Ordered(ts);
    GreedyOptimal(AUTH_LIMIT, ts, all, 15);
    WindowBound(AUTH_LIMIT, ts, 0, 15, 60.0);
  }

  lemma BusyWindow(i: nat, j: nat)
    requires i < j <= 15
    ensures (j - i) as real <= Allowance(AUTH_LIMIT, BusyMinute()[i], BusyMinute()[j - 1])
  {
    var span := BusyMinute()[j - 1] - BusyMinute()[i];
    assert span >= 6.0 * (j - i - 5) as real && span >= 0.0;
    assert Gain(AUTH_LIMIT, span) == span / 6.0;
  }

  lemma {:induction false} AllChosen(sel: seq<bool>, i: nat, j: nat)
    requires i <= j <= |sel| && forall k :: i <= k < j ==> sel[k]
    ensures Chosen(sel, i, j) == j - i
    decreases j
  {
    if i < j { AllChosen(sel, i, j - 1); }
  }
}
