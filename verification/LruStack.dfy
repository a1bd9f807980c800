/**
 LRU stack inclusion: whatever the budget, the cached keys are a prefix of the list of all keys ordered
 by latest access, so a larger budget only ever caches more.
 */
module LruStack {
  import opened LruPolicy

  /** The list after a run of accesses, each of them a hit or a miss with a successful download. */
  function Run(es: seq<Entry>, accesses: seq<Entry>, maxBytes: int): seq<Entry> {
    if accesses == [] then es
    else
      var last := |accesses| - 1;
      Access(Run(es, accesses[..last], maxBytes), accesses[last], maxBytes)
  }

  lemma RunOneMore(es: seq<Entry>, accesses: seq<Entry>, e: Entry, maxBytes: int)
    ensures Run(es, accesses + [e], maxBytes) == Access(Run(es, accesses, maxBytes), e, maxBytes)
  {
    hide Access;
    assert (accesses + [e])[..|accesses|] == accesses;
  }

  /** Position of a key, or the length of the list. */
  function Position(ks: seq<string>, k: string): (p: nat)
    ensures p <= |ks|
    ensures p < |ks| ==> ks[p] == k
    ensures forall j :: 0 <= j < p ==> ks[j] != k
  {
    if ks == [] then 0 else if ks[0] == k then 0 else 1 + Position(ks[1..], k)
  }

  function Drop(ks: seq<string>, k: string): seq<string> {
    var p := Position(ks, k);
    if p < |ks| then ks[..p] + ks[p + 1..] else ks
  }

  /** All keys, most recently accessed first; keys never accessed keep their initial order at the end. */
  function Recency(initial: seq<string>, accesses: seq<Entry>): seq<string> {
    if accesses == [] then initial
    else
      var last := |accesses| - 1;
      [accesses[last].key] + Drop(Recency(initial, accesses[..last]), accesses[last].key)
  }

  /** Index of the latest access to a key, -1 when there is none. */
  function LatestAccess(accesses: seq<Entry>, k: string): int {
    if accesses == [] then -1
    else
      var last := |accesses| - 1;
      if accesses[last].key == k then last else LatestAccess(accesses[..last], k)
  }

  ghost predicate Distinct(ks: seq<string>) {
    forall i, j :: 0 <= i < j < |ks| ==> ks[i] != ks[j]
  }

  /** Every entry has the size that the key always has. */
  ghost predicate FixedSizes(es: seq<Entry>, sizeOf: string -> nat) {
    forall i :: 0 <= i < |es| ==> es[i].size == sizeOf(es[i].key)
  }

  lemma DropIsDistinct(ks: seq<string>, k: string)
    requires Distinct(ks)
    ensures var d := Drop(ks, k);
            Distinct(d) && k !in d && Distinct([k] + d)
  {
  }

  lemma DropMembers(ks: seq<string>, k: string, x: string)
    requires x != k
    ensures x in Drop(ks, k) <==> x in ks
  {
    var p := Position(ks, k);
    if p < |ks| {
      assert ks == ks[..p] + [ks[p]] + ks[p + 1..];
    }
  }

  /** Index in `ks` of the i-th key that Drop keeps. */
  function Undrop(ks: seq<string>, k: string, i: nat): (u: nat)
    requires i < |Drop(ks, k)|
    ensures u < |ks| && ks[u] == Drop(ks, k)[i]
  {
    if i < Position(ks, k) then i else i + 1
  }

  ghost predicate Later(accesses: seq<Entry>, x: string, y: string) {
    var a, b := LatestAccess(accesses, x), LatestAccess(accesses, y);
    a > b || a == b == -1
  }

  /** Recency is the order by latest access. */
  lemma {:induction false} RecencyIsByLatestAccess(initial: seq<string>, accesses: seq<Entry>)
    requires Distinct(initial)
    ensures var r := Recency(initial, accesses);
            && Distinct(r)
            && (forall i, j :: 0 <= i < j < |r| ==> Later(accesses, r[i], r[j]))
  {
    if accesses != [] {
      var before, k := accesses[..|accesses| - 1], accesses[|accesses| - 1].key;
      RecencyIsByLatestAccess(initial, before);
      var prev := Recency(initial, before);
      DropIsDistinct(prev, k);
      var r, d := Recency(initial, accesses), Drop(prev, k);
      forall i, j | 0 <= i < j < |r| ensures Later(accesses, r[i], r[j]) {
        LaterAfterAccess(accesses, prev, i, j);
      }
    }
  }

  lemma LaterAfterAccess(accesses: seq<Entry>, prev: seq<string>, i: nat, j: nat)
    requires accesses != [] && Distinct(prev) && i < j <= |Drop(prev, accesses[|accesses| - 1].key)|
    requires forall u, v :: 0 <= u < v < |prev| ==> Later(accesses[..|accesses| - 1], prev[u], prev[v])
    ensures var k := accesses[|accesses| - 1].key;
            var r := [k] + Drop(prev, k);
            Later(accesses, r[i], r[j])
  {
    hide Drop, Position;
    var before, k := accesses[..|accesses| - 1], accesses[|accesses| - 1].key;
    var d := Drop(prev, k);
    DropIsDistinct(prev, k);
    var y := d[j - 1];
    assert y in d;
    if i == 0 {
      LatestAccessBound(before, y);
    } else {
      var x := d[i - 1];
      assert x in d;
      var u, v := Undrop(prev, k, i - 1), Undrop(prev, k, j - 1);
      hide LatestAccess;
      assert Later(before, prev[u], prev[v]);
      LaterUnaffected(accesses, x, y);
    }
  }

  lemma LaterUnaffected(accesses: seq<Entry>, x: string, y: string)
    requires accesses != [] && accesses[|accesses| - 1].key !in {x, y}
    ensures Later(accesses, x, y) <==> Later(accesses[..|accesses| - 1], x, y)
  {
  }

  lemma {:induction false} RecencyMembers(initial: seq<string>, accesses: seq<Entry>, x: string)
    requires Distinct(initial)
    ensures x in Recency(initial, accesses) <==> x in initial || LatestAccess(accesses, x) >= 0
  {
    if accesses != [] {
      var last := |accesses| - 1;
      RecencyMembers(initial, accesses[..last], x);
      if x != accesses[last].key {
        DropMembers(Recency(initial, accesses[..last]), accesses[last].key, x);
      }
    }
  }

  lemma {:induction false} LatestAccessBound(accesses: seq<Entry>, k: string)
    ensures -1 <= LatestAccess(accesses, k) < |accesses|
  {
    if accesses != [] {
      LatestAccessBound(accesses[..|accesses| - 1], k);
    }
  }

  lemma {:induction false} TotalByKeys(a: seq<Entry>, b: seq<Entry>, sizeOf: string -> nat)
    requires FixedSizes(a, sizeOf) && FixedSizes(b, sizeOf) && Keys(a) == Keys(b)
    ensures Total(a) == Total(b)
  {
    if a != [] {
      var n := |a| - 1;
      assert |b| == |Keys(b)| == |a|;
      assert Keys(a)[n] == a[n].key && Keys(b)[n] == b[n].key;
      assert Keys(a[..n]) == Keys(a)[..n] == Keys(b)[..n] == Keys(b[..n]);
      TotalByKeys(a[..n], b[..n], sizeOf);
    }
  }

  /** The cache holds a prefix of the recency order. */
  ghost predicate CachesPrefix(es: seq<Entry>, recency: seq<string>, sizeOf: string -> nat) {
    && Distinct(recency)
    && FixedSizes(es, sizeOf)
    && Keys(es) <= recency
  }

  lemma PrefixKeys(es: seq<Entry>, recency: seq<string>, k: string)
    requires Distinct(recency) && Keys(es) <= recency
    ensures |es| <= |recency| && forall i :: 0 <= i < |es| ==> es[i].key == recency[i]
    ensures DistinctKeys(es)
    ensures HasKey(es, k) <==> Position(recency, k) < |es|
    ensures HasKey(es, k) ==> IndexOf(es, k) == Position(recency, k)
  {
    assert forall i :: 0 <= i < |es| ==> es[i].key == Keys(es)[i] == recency[i];
  }

  /** One access keeps the prefix property. */
  lemma AccessKeepsPrefix(es: seq<Entry>, recency: seq<string>, e: Entry, maxBytes: int, sizeOf: string -> nat)
    requires CachesPrefix(es, recency, sizeOf) && e.size == sizeOf(e.key)
    ensures CachesPrefix(Access(es, e, maxBytes), [e.key] + Drop(recency, e.key), sizeOf)
  {
    var k := e.key;
    var next := [k] + Drop(recency, k);
    PrefixKeys(es, recency, k);
    DropIsDistinct(recency, k);
    if HasKey(es, k) {
      HitKeepsPrefix(es, recency, k, sizeOf);
    } else {
      MissKeepsPrefix(es, recency, e, maxBytes, sizeOf);
    }
  }

  lemma KeysPrefix(es: seq<Entry>, ks: seq<string>)
    requires |es| <= |ks| && forall i :: 0 <= i < |es| ==> es[i].key == ks[i]
    ensures Keys(es) <= ks
  {
    assert Keys(es) == ks[..|es|];
  }

  lemma HitKeepsPrefix(es: seq<Entry>, recency: seq<string>, k: string, sizeOf: string -> nat)
    requires CachesPrefix(es, recency, sizeOf) && HasKey(es, k)
    ensures Keys(Touch(es, k)) <= [k] + Drop(recency, k)
    ensures FixedSizes(Touch(es, k), sizeOf)
  {
    hide Drop, Position, Keys, Without;
    RestKeepsPrefix(es, recency, k, sizeOf);
    var w, d := Without(es, k), Drop(recency, k);
    var r, next := Touch(es, k), [k] + d;
    assert r == [es[IndexOf(es, k)]] + w;
    forall i | 0 <= i < |r| ensures r[i].key == next[i] && r[i].size == sizeOf(r[i].key) {
      if i > 0 { assert r[i] == w[i - 1] && next[i] == d[i - 1]; }
    }
    KeysPrefix(r, next);
  }

  lemma RestKeepsPrefix(es: seq<Entry>, recency: seq<string>, k: string, sizeOf: string -> nat)
    requires CachesPrefix(es, recency, sizeOf) && HasKey(es, k)
    ensures var w, d := Without(es, k), Drop(recency, k);
            |w| <= |d| && forall i :: 0 <= i < |w| ==> w[i].key == d[i] && w[i].size == sizeOf(w[i].key)
  {
    PrefixKeys(es, recency, k);
    CutAt(es, IndexOf(es, k));
    CutAt(recency, Position(recency, k));
    hide Position, IndexOf, Keys, Distinct;
  }

  lemma CutAt<T>(s: seq<T>, n: nat)
    requires n < |s|
    ensures var r := s[..n] + s[n + 1..];
            |r| == |s| - 1 && forall i :: 0 <= i < |r| ==> r[i] == s[if i < n then i else i + 1]
  {
  }

  lemma MissKeepsPrefix(es: seq<Entry>, recency: seq<string>, e: Entry, maxBytes: int, sizeOf: string -> nat)
    requires CachesPrefix(es, recency, sizeOf) && e.size == sizeOf(e.key) && !HasKey(es, e.key)
    ensures Keys(Insert(es, e, maxBytes)) <= [e.key] + Drop(recency, e.key)
    ensures FixedSizes(Insert(es, e, maxBytes), sizeOf)
  {
    PrefixKeys(es, recency, e.key);
    var full, d := [e] + es, Drop(recency, e.key);
    var kept, next := Insert(es, e, maxBytes), [e.key] + d;
    assert |d| >= |es| && forall i :: 0 <= i < |es| ==> es[i].key == d[i];
    assert kept == full[..|kept|] && |kept| <= |full| by { EvictDownIsLongestFit(full, maxBytes, 1); }
    forall i | 0 <= i < |kept| ensures kept[i].key == next[i] && kept[i].size == sizeOf(kept[i].key) {
      if i > 0 { assert kept[i] == es[i - 1] && next[i] == d[i - 1]; }
    }
    KeysPrefix(kept, next);
  }

  /** One access keeps the smaller cache a prefix of the larger one. */
  lemma AccessKeepsInclusion(a: seq<Entry>, b: seq<Entry>, recency: seq<string>, e: Entry,
                             m1: int, m2: int, sizeOf: string -> nat)
    requires m1 <= m2 && |a| <= |b| && e.size == sizeOf(e.key)
    requires CachesPrefix(a, recency, sizeOf) && CachesPrefix(b, recency, sizeOf)
    ensures |Access(a, e, m1)| <= |Access(b, e, m2)|
  {
    var k := e.key;
    PrefixKeys(a, recency, k);
    PrefixKeys(b, recency, k);
    if HasKey(b, k) {
      EvictDownIsLongestFit([e] + a, m1, 1);
    } else {
      MissKeepsInclusion(a, b, recency, e, m1, m2, sizeOf);
    }
  }

  lemma MissKeepsInclusion(a: seq<Entry>, b: seq<Entry>, recency: seq<string>, e: Entry,
                           m1: int, m2: int, sizeOf: string -> nat)
    requires m1 <= m2 && |a| <= |b| && e.size == sizeOf(e.key)
    requires CachesPrefix(a, recency, sizeOf) && CachesPrefix(b, recency, sizeOf)
    requires !HasKey(a, e.key) && !HasKey(b, e.key)
    ensures |Insert(a, e, m1)| <= |Insert(b, e, m2)|
  {
    hide Total, EvictDown;
    var fullA, fullB := [e] + a, [e] + b;
    var n := |Insert(a, e, m1)|;
    EvictDownIsLongestFit(fullA, m1, 1);
    EvictDownIsLongestFit(fullB, m2, 1);
    PrefixKeys(a, recency, e.key);
    PrefixKeys(b, recency, e.key);
    hide IndexOf, Position, HasKey;
    assert Keys(fullA[..n]) == Keys(fullB[..n]);
    TotalByKeys(fullA[..n], fullB[..n], sizeOf);
  }

  ghost predicate FixedAccesses(accesses: seq<Entry>, sizeOf: string -> nat) {
    forall i :: 0 <= i < |accesses| ==> accesses[i].size == sizeOf(accesses[i].key)
  }

  /** The list after opening a directory and a run of accesses is a prefix of the recency order. */
  lemma {:induction false} RunCachesPrefix(dir: seq<Entry>, accesses: seq<Entry>, maxBytes: int, sizeOf: string -> nat)
    requires DistinctKeys(dir) && FixedSizes(dir, sizeOf) && FixedAccesses(accesses, sizeOf)
    ensures CachesPrefix(Run(EvictDown(dir, maxBytes, 0), accesses, maxBytes), Recency(Keys(dir), accesses), sizeOf)
  {
    if accesses == [] {
      EvictDownIsLongestFit(dir, maxBytes, 0);
      assert Keys(EvictDown(dir, maxBytes, 0)) <= Keys(dir);
    } else {
      var before := accesses[..|accesses| - 1];
      RunCachesPrefix(dir, before, maxBytes, sizeOf);
      AccessKeepsPrefix(Run(EvictDown(dir, maxBytes, 0), before, maxBytes), Recency(Keys(dir), before),
                        accesses[|accesses| - 1], maxBytes, sizeOf);
    }
  }

  /** Sizes under which the list and one more entry are of fixed size. */
  function SizesOf(es: seq<Entry>, e: Entry): string -> nat {
    k => if HasKey(es, k) then es[IndexOf(es, k)].size else if k == e.key then e.size else 0
  }

  /** The prefix property needs no fixed sizes: any run of accesses from any list keeps it. */
  lemma {:induction false} RunFollowsRecency(es: seq<Entry>, accesses: seq<Entry>, maxBytes: int)
    requires DistinctKeys(es)
    ensures Distinct(Recency(Keys(es), accesses))
    ensures Keys(Run(es, accesses, maxBytes)) <= Recency(Keys(es), accesses)
  {
    if accesses != [] {
      var n := |accesses| - 1;
      RunFollowsRecency(es, accesses[..n], maxBytes);
      AccessFollowsRecency(Run(es, accesses[..n], maxBytes), Recency(Keys(es), accesses[..n]), accesses[n], maxBytes);
    }
  }

  lemma AccessFollowsRecency(es: seq<Entry>, recency: seq<string>, e: Entry, maxBytes: int)
    requires Distinct(recency) && Keys(es) <= recency
    ensures Distinct([e.key] + Drop(recency, e.key)) && Keys(Access(es, e, maxBytes)) <= [e.key] + Drop(recency, e.key)
  {
    PrefixKeys(es, recency, e.key);
    var sizeOf := SizesOf(es, e);
    var sized := e.(size := sizeOf(e.key));
    SizesFit(es, e);
    assert Access(es, e, maxBytes) == Access(es, sized, maxBytes);
    hide SizesOf, Keys, Access, Drop, Distinct;
    AccessKeepsPrefix(es, recency, sized, maxBytes, sizeOf);
  }

  lemma SizesFit(es: seq<Entry>, e: Entry)
    requires DistinctKeys(es)
    ensures FixedSizes(es, SizesOf(es, e))
  {
    forall i | 0 <= i < |es| ensures es[i].size == SizesOf(es, e)(es[i].key) {
      assert IndexOf(es, es[i].key) == i;
    }
  }

  /** A larger budget never caches fewer entries. */
  lemma {:induction false} LargerCachesMore(dir: seq<Entry>, accesses: seq<Entry>, m1: int, m2: int, sizeOf: string -> nat)
    requires m1 <= m2
    requires DistinctKeys(dir) && FixedSizes(dir, sizeOf) && FixedAccesses(accesses, sizeOf)
    ensures |Run(EvictDown(dir, m1, 0), accesses, m1)| <= |Run(EvictDown(dir, m2, 0), accesses, m2)|
  {
    if accesses == [] {
      EvictDownIsLongestFit(dir, m1, 0);
      EvictDownIsLongestFit(dir, m2, 0);
    } else {
      var last := |accesses| - 1;
      var before := accesses[..last];
      LargerCachesMore(dir, before, m1, m2, sizeOf);
      RunCachesPrefix(dir, before, m1, sizeOf);
      RunCachesPrefix(dir, before, m2, sizeOf);
      hide EvictDown, Total, Keys, Access, Recency, CachesPrefix;
      AccessKeepsInclusion(Run(EvictDown(dir, m1, 0), before, m1), Run(EvictDown(dir, m2, 0), before, m2),
                           Recency(Keys(dir), before), accesses[last], m1, m2, sizeOf);
    }
  }

  lemma PrefixesOfOneOrder(small: seq<Entry>, large: seq<Entry>, recency: seq<string>, k: string)
    requires Distinct(recency) && Keys(small) <= recency && Keys(large) <= recency && |small| <= |large|
    ensures Keys(small) <= Keys(large)
    ensures HasKey(small, k) ==> HasKey(large, k)
  {
    assert |Keys(small)| <= |Keys(large)| && Keys(small) == recency[..|small|] && Keys(large) == recency[..|large|];
    PrefixKeys(small, recency, k);
    PrefixKeys(large, recency, k);
  }

  /**
   Stack inclusion: two caches opened on the same directory (empty included) and given the same accesses.
   The keys of the smaller one are at every moment a prefix of the keys of the larger one, so an access
   that hits in the smaller one hits in the larger one.
   */
  lemma StackInclusion(dir: seq<Entry>, accesses: seq<Entry>, m1: int, m2: int, sizeOf: string -> nat)
    requires m1 <= m2
    requires DistinctKeys(dir) && FixedSizes(dir, sizeOf) && FixedAccesses(accesses, sizeOf)
    ensures var small := Run(EvictDown(dir, m1, 0), accesses, m1);
            var large := Run(EvictDown(dir, m2, 0), accesses, m2);
            && Keys(small) <= Keys(large) <= Recency(Keys(dir), accesses)
            && forall k :: HasKey(small, k) ==> HasKey(large, k)
  {
    hide Run, EvictDown, HasKey, Recency, Keys, DistinctKeys, FixedSizes, FixedAccesses;
    LargerCachesMore(dir, accesses, m1, m2, sizeOf);
    RunCachesPrefix(dir, accesses, m1, sizeOf);
    RunCachesPrefix(dir, accesses, m2, sizeOf);
    var small := Run(EvictDown(dir, m1, 0), accesses, m1);
    var large := Run(EvictDown(dir, m2, 0), accesses, m2);
    PrefixesOfOneOrder(small, large, Recency(Keys(dir), accesses), "");
    forall k {
      PrefixesOfOneOrder(small, large, Recency(Keys(dir), accesses), k);
    }
  }

  /** Number of accesses of the run that were hits. */
  function Hits(es: seq<Entry>, accesses: seq<Entry>, maxBytes: int): nat {
    if accesses == [] then 0
    else
      var last := |accesses| - 1;
      Hits(es, accesses[..last], maxBytes)
      + if HasKey(Run(es, accesses[..last], maxBytes), accesses[last].key) then 1 else 0
  }

  /** A larger budget never turns a hit into a miss, so it never lowers the number of hits. */
  lemma {:induction false} LargerBudgetNeverHurts(dir: seq<Entry>, accesses: seq<Entry>, m1: int, m2: int, sizeOf: string -> nat)
    requires m1 <= m2
    requires DistinctKeys(dir) && FixedSizes(dir, sizeOf) && FixedAccesses(accesses, sizeOf)
    ensures Hits(EvictDown(dir, m1, 0), accesses, m1) <= Hits(EvictDown(dir, m2, 0), accesses, m2)
  {
    if accesses != [] {
      var before := accesses[..|accesses| - 1];
      LargerBudgetNeverHurts(dir, before, m1, m2, sizeOf);
      StackInclusion(dir, before, m1, m2, sizeOf);
    }
  }

  // ----- downloads that fail

  /** An access whose download, if one is needed, succeeds or not. */
  datatype Attempt = Attempt(entry: Entry, succeeds: bool)

  /** The access changes the list: a hit, or a miss with a successful download. */
  predicate TakesEffect(es: seq<Entry>, a: Attempt) {
    a.succeeds || HasKey(es, a.entry.key)
  }

  function Try(es: seq<Entry>, a: Attempt, maxBytes: int): seq<Entry> {
    if TakesEffect(es, a) then Access(es, a.entry, maxBytes) else es
  }

  function TryRun(es: seq<Entry>, attempts: seq<Attempt>, maxBytes: int): seq<Entry> {
    if attempts == [] then es
    else
      var last := |attempts| - 1;
      Try(TryRun(es, attempts[..last], maxBytes), attempts[last], maxBytes)
  }

  /** The accesses of a run that take effect. */
  function Effective(es: seq<Entry>, attempts: seq<Attempt>, maxBytes: int): seq<Entry> {
    if attempts == [] then []
    else
      var last := |attempts| - 1;
      var before := Effective(es, attempts[..last], maxBytes);
      if TakesEffect(TryRun(es, attempts[..last], maxBytes), attempts[last]) then before + [attempts[last].entry] else before
  }

  lemma {:induction false} TryRunIsRun(es: seq<Entry>, attempts: seq<Attempt>, maxBytes: int)
    ensures TryRun(es, attempts, maxBytes) == Run(es, Effective(es, attempts, maxBytes), maxBytes)
  {
    if attempts != [] {
      var last := |attempts| - 1;
      TryRunIsRun(es, attempts[..last], maxBytes);
      var before := Effective(es, attempts[..last], maxBytes);
      assert (before + [attempts[last].entry])[..|before|] == before;
    }
  }

  ghost predicate FixedAttempts(attempts: seq<Attempt>, sizeOf: string -> nat) {
    forall i :: 0 <= i < |attempts| ==> attempts[i].entry.size == sizeOf(attempts[i].entry.key)
  }

  lemma {:induction false} EffectiveFixed(es: seq<Entry>, attempts: seq<Attempt>, maxBytes: int, sizeOf: string -> nat)
    requires FixedAttempts(attempts, sizeOf)
    ensures FixedAccesses(Effective(es, attempts, maxBytes), sizeOf)
  {
    if attempts != [] {
      EffectiveFixed(es, attempts[..|attempts| - 1], maxBytes, sizeOf);
    }
  }

  /** No download fails that the larger cache did not need: a failed access that hits there hits in the smaller one too. */
  ghost predicate FailuresShared(small: seq<Entry>, large: seq<Entry>, attempts: seq<Attempt>, m1: int, m2: int) {
    forall n :: 0 <= n < |attempts| && !attempts[n].succeeds && HasKey(TryRun(large, attempts[..n], m2), attempts[n].entry.key)
                ==> HasKey(TryRun(small, attempts[..n], m1), attempts[n].entry.key)
  }

  lemma SharedBefore(small: seq<Entry>, large: seq<Entry>, attempts: seq<Attempt>, m1: int, m2: int, k: nat)
    requires FailuresShared(small, large, attempts, m1, m2) && k <= |attempts|
    ensures FailuresShared(small, large, attempts[..k], m1, m2)
  {
    hide TryRun, HasKey;
    assert forall n :: 0 <= n < k ==> attempts[..k][..n] == attempts[..n];
  }

  lemma {:induction false} SameEffects(dir: seq<Entry>, attempts: seq<Attempt>, m1: int, m2: int, sizeOf: string -> nat)
    requires m1 <= m2 && DistinctKeys(dir) && FixedSizes(dir, sizeOf) && FixedAttempts(attempts, sizeOf)
    requires FailuresShared(EvictDown(dir, m1, 0), EvictDown(dir, m2, 0), attempts, m1, m2)
    ensures Effective(EvictDown(dir, m1, 0), attempts, m1) == Effective(EvictDown(dir, m2, 0), attempts, m2)
  {
    if attempts != [] {
      var small, large, last := EvictDown(dir, m1, 0), EvictDown(dir, m2, 0), |attempts| - 1;
      var before := attempts[..last];
      SharedBefore(small, large, attempts, m1, m2, last);
      assert FixedAttempts(before, sizeOf);
      SameEffects(dir, before, m1, m2, sizeOf);
      TryRunIsRun(small, before, m1);
      TryRunIsRun(large, before, m2);
      EffectiveFixed(small, before, m1, sizeOf);
      hide EvictDown, HasKey, Run, Keys;
      StackInclusion(dir, Effective(small, before, m1), m1, m2, sizeOf);
    }
  }

  /**
   Stack inclusion with failed downloads: it holds as long as none fails in the smaller cache alone, that is
   where the larger one has the key. Failures in both caches are allowed anywhere.
   */
  lemma InclusionWithFailures(dir: seq<Entry>, attempts: seq<Attempt>, m1: int, m2: int, sizeOf: string -> nat)
    requires m1 <= m2 && DistinctKeys(dir) && FixedSizes(dir, sizeOf) && FixedAttempts(attempts, sizeOf)
    requires FailuresShared(EvictDown(dir, m1, 0), EvictDown(dir, m2, 0), attempts, m1, m2)
    ensures var small := TryRun(EvictDown(dir, m1, 0), attempts, m1);
            var large := TryRun(EvictDown(dir, m2, 0), attempts, m2);
            Keys(small) <= Keys(large) && forall k :: HasKey(small, k) ==> HasKey(large, k)
  {
    hide EvictDown, HasKey, Keys, Run, TryRun, Effective, FailuresShared;
    SameEffects(dir, attempts, m1, m2, sizeOf);
    TryRunIsRun(EvictDown(dir, m1, 0), attempts, m1);
    TryRunIsRun(EvictDown(dir, m2, 0), attempts, m2);
    EffectiveFixed(EvictDown(dir, m1, 0), attempts, m1, sizeOf);
    StackInclusion(dir, Effective(EvictDown(dir, m1, 0), attempts, m1), m1, m2, sizeOf);
  }

  // ----- a download that fails in the smaller cache alone

  function FileOf(key: string, size: nat): Entry { Entry(key, key + ".jpg", size, "image/jpeg") }

  const DIR := [FileOf("a", 0), FileOf("c", 3), FileOf("b", 0)]

  const ATTEMPTS := [Attempt(FileOf("c", 3), false), Attempt(FileOf("d", 2), true)]

  /**
   Then inclusion fails: with budgets 2 and 4 the larger cache hits c, and so loses a when d comes; the smaller
   one failed to download c and keeps a.
   */
  lemma FailureBreaksInclusion()
    ensures var small, large := TryRun(EvictDown(DIR, 2, 0), ATTEMPTS, 2), TryRun(EvictDown(DIR, 4, 0), ATTEMPTS, 4);
            && DistinctKeys(DIR)
            && Keys(small) == ["d", "a"] && Keys(large) == ["d"]
            && HasKey(small, "a") && !HasKey(large, "a")
  {
    var a, b, c, d := FileOf("a", 0), FileOf("b", 0), FileOf("c", 3), FileOf("d", 2);
    SmallRun(a, b, c, d);
    LargeRun(a, b, c, d);
    hide EvictDown, Access, Touch, Total;
    assert ATTEMPTS == [Attempt(c, false), Attempt(d, true)];
    TwoAttempts([a], Attempt(c, false), Attempt(d, true), 2);
    TwoAttempts([a, c, b], Attempt(c, false), Attempt(d, true), 4);
    assert IndexOf([d], "a") == 1 && IndexOf([d, a], "a") == 1;
  }

  lemma TwoAttempts(es: seq<Entry>, x: Attempt, y: Attempt, maxBytes: int)
    ensures TryRun(es, [x, y], maxBytes) == Try(Try(es, x, maxBytes), y, maxBytes)
  {
    hide Try;
    assert [x, y][..1] == [x] && [x][..0] == [];
    assert TryRun(es, [], maxBytes) == es;
    assert TryRun(es, [x], maxBytes) == Try(es, x, maxBytes);
  }

  lemma SmallRun(a: Entry, b: Entry, c: Entry, d: Entry)
    requires a == FileOf("a", 0) && b == FileOf("b", 0) && c == FileOf("c", 3) && d == FileOf("d", 2)
    ensures EvictDown([a, c, b], 2, 0) == [a] && !HasKey([a], "c") && Access([a], d, 2) == [d, a]
  {
    Totals(a, c, b);
    assert [a, c, b][..2] == [a, c] && [a, c][..1] == [a] && [d, a][..1] == [d] && [a][..0] == [] == [d][..0];
    assert IndexOf([a], "c") == 1 == IndexOf([a], "d");
    assert Total([d, a]) == 2;
    hide Total, IndexOf;
    EvictDownStep([a, c, b], 2, 0);
    EvictDownStep([a, c], 2, 0);
    assert [d] + [a] == [d, a];
  }

  lemma LargeRun(a: Entry, b: Entry, c: Entry, d: Entry)
    requires a == FileOf("a", 0) && b == FileOf("b", 0) && c == FileOf("c", 3) && d == FileOf("d", 2)
    ensures EvictDown([a, c, b], 4, 0) == [a, c, b] && HasKey([a, c, b], "c") && Touch([a, c, b], "c") == [c, a, b]
    ensures Access([c, a, b], d, 4) == [d]
  {
    Totals(a, c, b);
    Totals(c, a, b);
    assert [a, c, b][1..] == [c, b];
    assert IndexOf([a, c, b], "c") == 1;
    AbsentKey(c, a, b, "d");
    var full := [d] + [c, a, b];
    assert full[..3] == [d, c, a] && full[..3][..2] == [d, c] && full[..3][..2][..1] == [d] && [d][..0] == [];
    assert Total([d]) == 2 && Total([d, c]) == 5 && Total([d, c, a]) == 5 && Total(full) == 5;
    hide Total, IndexOf;
    EvictDownStep(full, 4, 1);
    EvictDownStep([d, c, a], 4, 1);
    EvictDownStep([d, c], 4, 1);
  }

  lemma Totals(x: Entry, y: Entry, z: Entry)
    ensures Total([x]) == x.size && Total([x, y]) == x.size + y.size && Total([x, y, z]) == x.size + y.size + z.size
  {
    assert [x, y, z][..2] == [x, y] && [x, y][..1] == [x] && [x][..0] == [];
  }

  lemma AbsentKey(x: Entry, y: Entry, z: Entry, k: string)
    requires k != x.key && k != y.key && k != z.key
    ensures !HasKey([x, y, z], k)
  {
    var i := IndexOf([x, y, z], k);
  }
}
