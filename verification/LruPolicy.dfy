/**
 The replacement policy of the media cache, on the list of entries in front-to-back order
 (most recently used first). The heap structure of module MediaCache refines these functions.
 */
module LruPolicy {

  datatype Entry = Entry(key: string, filename: string, size: nat, mime: string)

  function Total(es: seq<Entry>): nat {
    if es == [] then 0 else Total(es[..|es| - 1]) + es[|es| - 1].size
  }

  function Keys(es: seq<Entry>): seq<string> {
    seq(|es|, i requires 0 <= i < |es| => es[i].key)
  }

  ghost predicate DistinctKeys(es: seq<Entry>) {
    forall i, j :: 0 <= i < j < |es| ==> es[i].key != es[j].key
  }

  /** Position of the first entry for a key, or the length of the list. */
  function IndexOf(es: seq<Entry>, key: string): (i: nat)
    ensures i <= |es|
    ensures i < |es| ==> es[i].key == key
    ensures forall j :: 0 <= j < i ==> es[j].key != key
  {
    if es == [] then 0 else if es[0].key == key then 0 else 1 + IndexOf(es[1..], key)
  }

  predicate HasKey(es: seq<Entry>, key: string) {
    IndexOf(es, key) < |es|
  }

  function Without(es: seq<Entry>, key: string): seq<Entry> {
    var i := IndexOf(es, key);
    if i < |es| then es[..i] + es[i + 1..] else es
  }

  /** A cache hit: the entry moves to the front. */
  function Touch(es: seq<Entry>, key: string): seq<Entry> {
    if HasKey(es, key) then [es[IndexOf(es, key)]] + Without(es, key) else es
  }

  /** Pop the back while the total exceeds the budget and more than `floor` entries are left. */
  function EvictDown(es: seq<Entry>, maxBytes: int, floor: nat): (kept: seq<Entry>)
    ensures |kept| <= |es|
  {
    if Total(es) > maxBytes && |es| > floor then EvictDown(es[..|es| - 1], maxBytes, floor) else es
  }

  lemma EvictDownStep(es: seq<Entry>, maxBytes: int, floor: nat)
    requires Total(es) > maxBytes && |es| > floor
    ensures EvictDown(es, maxBytes, floor) == EvictDown(es[..|es| - 1], maxBytes, floor)
  {
    hide Total;
  }

  /** The tail that EvictDown removes. */
  function Evicted(es: seq<Entry>, maxBytes: int, floor: nat): seq<Entry> {
    es[|EvictDown(es, maxBytes, floor)|..]
  }

  /** The locked section of Put. */
  function Insert(es: seq<Entry>, e: Entry, maxBytes: int): seq<Entry> {
    EvictDown([e] + Without(es, e.key), maxBytes, 1)
  }

  /** Get, then on a miss a successful Put of `e`. */
  function Access(es: seq<Entry>, e: Entry, maxBytes: int): seq<Entry> {
    if HasKey(es, e.key) then Touch(es, e.key) else Insert(es, e, maxBytes)
  }

  /** What every reachable list satisfies. */
  ghost predicate Reachable(es: seq<Entry>, maxBytes: int) {
    DistinctKeys(es) && (Total(es) <= maxBytes || |es| <= 1)
  }

  lemma {:induction false} TotalConcat(a: seq<Entry>, b: seq<Entry>)
    ensures Total(a + b) == Total(a) + Total(b)
  {
    if b == [] {
      assert a + b == a;
    } else {
      assert (a + b)[..|a + b| - 1] == a + b[..|b| - 1];
      TotalConcat(a, b[..|b| - 1]);
    }
  }

  lemma TotalCons(e: Entry, es: seq<Entry>)
    ensures Total([e] + es) == e.size + Total(es)
  {
    TotalConcat([e], es);
    assert [e][..0] == [];
  }

  lemma TotalRemoveAt(es: seq<Entry>, i: nat)
    requires i < |es|
    ensures Total(es) == Total(es[..i] + es[i + 1..]) + es[i].size
  {
    hide Total;
    var a, b := es[..i], es[i + 1..];
    TotalConcat(a, b);
    TotalConcat(a, [es[i]] + b);
    TotalCons(es[i], b);
    assert es == a + ([es[i]] + b);
  }

  /** A hit takes the first entry of the key to the front and leaves the others in their order. */
  lemma TouchExactly(es: seq<Entry>, i: nat)
    requires i < |es| && forall j :: 0 <= j < i ==> es[j].key != es[i].key
    ensures IndexOf(es, es[i].key) == i && HasKey(es, es[i].key)
    ensures Touch(es, es[i].key) == [es[i]] + es[..i] + es[i + 1..]
  {
    hide IndexOf;
    FirstIsIndex(es, i);
    var front, back := es[..i], es[i + 1..];
    assert Touch(es, es[i].key) == [es[i]] + (front + back);
    hide Touch, Without;
    ConcatThree([es[i]], front, back);
  }

  lemma FirstIsIndex(es: seq<Entry>, i: nat)
    requires i < |es| && forall j :: 0 <= j < i ==> es[j].key != es[i].key
    ensures IndexOf(es, es[i].key) == i
  {
    hide IndexOf;
    var k := IndexOf(es, es[i].key);
    assert k <= i;
  }

  lemma ConcatThree<T>(a: seq<T>, b: seq<T>, c: seq<T>)
    ensures a + (b + c) == a + b + c
  {
  }

  /** A hit only reorders: same entries, same length, same total. */
  lemma TouchReorders(es: seq<Entry>, key: string)
    ensures |Touch(es, key)| == |es| && Total(Touch(es, key)) == Total(es)
    ensures multiset(Touch(es, key)) == multiset(es)
    ensures HasKey(es, key) ==> Touch(es, key)[0].key == key && Touch(es, key)[1..] == Without(es, key)
  {
    var i := IndexOf(es, key);
    if i < |es| {
      TotalRemoveAt(es, i);
      TotalCons(es[i], Without(es, key));
      assert es == es[..i] + [es[i]] + es[i + 1..];
    }
  }

  /**
   Eviction is minimal: what is left is a prefix of the list that fits the budget (or is down to the
   floor), and every longer prefix is over budget. These clauses determine the result.
   */
  lemma {:induction false} EvictDownIsLongestFit(es: seq<Entry>, maxBytes: int, floor: nat)
    ensures var n := |EvictDown(es, maxBytes, floor)|;
            && EvictDown(es, maxBytes, floor) == es[..n]
            && (Total(es[..n]) <= maxBytes || n <= floor)
            && (|es| >= floor ==> n >= floor)
            && forall m :: n < m <= |es| ==> Total(es[..m]) > maxBytes && m > floor
  {
    assert es[..|es|] == es;
    if Total(es) > maxBytes && |es| > floor {
      var shorter := es[..|es| - 1];
      EvictDownIsLongestFit(shorter, maxBytes, floor);
      var n := |EvictDown(es, maxBytes, floor)|;
      assert forall m :: 0 <= m <= |shorter| ==> es[..m] == shorter[..m];
    }
  }

  /** Put never evicts the entry it just inserted, keeps keys distinct and respects the budget. */
  lemma InsertKeepsInvariant(es: seq<Entry>, e: Entry, maxBytes: int)
    requires DistinctKeys(es)
    ensures var r := Insert(es, e, maxBytes);
            && Reachable(r, maxBytes)
            && r != [] && r[0] == e
            && r[1..] <= Without(es, e.key)
            && (Total([e] + Without(es, e.key)) <= maxBytes ==> r == [e] + Without(es, e.key))
  {
    var rest := Without(es, e.key);
    var full, r := [e] + rest, Insert(es, e, maxBytes);
    EvictDownIsLongestFit(full, maxBytes, 1);
    assert DistinctKeys(full) by { WithoutDropsKey(es, e.key); }
    assert r[1..] == rest[..|r| - 1];
    forall i, j | 0 <= i < j < |r| ensures r[i].key != r[j].key {
      assert r[i] == full[i] && r[j] == full[j];
    }
  }

  lemma WithoutDropsKey(es: seq<Entry>, key: string)
    requires DistinctKeys(es)
    ensures DistinctKeys(Without(es, key))
    ensures forall e :: e in Without(es, key) <==> e in es && e.key != key
  {
    var i := IndexOf(es, key);
    if i < |es| {
      var w := Without(es, key);
      forall e | e in es && e.key != key ensures e in w {
        var j :| 0 <= j < |es| && es[j] == e;
        if j < i { assert w[j] == e; } else { assert w[j - 1] == e; }
      }
    }
  }

  /** The locked section of Put keeps the invariant, replacing or not. */
  lemma ReachableInsert(es: seq<Entry>, e: Entry, maxBytes: int)
    requires Reachable(es, maxBytes)
    ensures Reachable(Insert(es, e, maxBytes), maxBytes)
    ensures forall x :: x in Without(es, e.key) ==> x.key != e.key
  {
    hide Total;
    InsertKeepsInvariant(es, e, maxBytes);
    WithoutDropsKey(es, e.key);
  }

  /** Every access keeps the invariant, hit or miss. */
  lemma AccessKeepsInvariant(es: seq<Entry>, e: Entry, maxBytes: int)
    requires Reachable(es, maxBytes)
    ensures Reachable(Access(es, e, maxBytes), maxBytes)
    ensures HasKey(Access(es, e, maxBytes), e.key)
  {
    hide Total, Without, IndexOf;
    if HasKey(es, e.key) {
      var r := Touch(es, e.key);
      TouchReorders(es, e.key);
      WithoutDropsKey(es, e.key);
      assert r == [r[0]] + r[1..];
      assert IndexOf(r, e.key) == 0;
    } else {
      InsertKeepsInvariant(es, e, maxBytes);
      assert IndexOf(Insert(es, e, maxBytes), e.key) == 0;
    }
  }
}
