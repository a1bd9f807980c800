/** The LRU disk cache, on its real structures: a map of list nodes, a linked list, a byte total and a directory. */
module MediaCache {
  import opened Prelude
  import opened LruPolicy
  import opened LruList
  import opened MediaNames
  import opened MediaDirectory

  /** How the file operations of one Put turn out; `written` is what reached the temp file. */
  datatype PutIo =
    | OpenFails
    | DownloadFails(written: seq<byte>)
    | CloseFails(written: seq<byte>)
    | StatFails(written: seq<byte>)
    | RenameFails(written: seq<byte>)
    | Succeeds(content: seq<byte>)

  datatype PutError = CannotOpen | CannotDownload | CannotClose | CannotStat | CannotRename

  function ErrorOf(io: PutIo): PutError
    requires !io.Succeeds?
  {
    match io
    case OpenFails => CannotOpen
    case DownloadFails(_) => CannotDownload
    case CloseFails(_) => CannotClose
    case StatFails(_) => CannotStat
    case RenameFails(_) => CannotRename
  }

  /** `entries` maps each key of the list to the node that holds it, and nothing else. */
  ghost predicate MapAgrees(entries: map<string, Element>, nodes: seq<Element>) {
    && (forall n :: n in nodes ==> n.value.key in entries && entries[n.value.key] == n)
    && (forall k :: k in entries ==> entries[k] in nodes && entries[k].value.key == k)
  }

  /** The map while the start-up scan runs: the frontmost node of each key none of whose nodes was evicted. */
  ghost predicate MapIndexes(entries: map<string, Element>, nodes: seq<Element>, lost: set<string>) {
    forall k :: && (k in entries <==> HasKey(Values(nodes), k) && k !in lost)
                && (k in entries ==> entries[k] == nodes[IndexOf(Values(nodes), k)])
  }

  lemma ValuesConcat(a: seq<Element>, b: seq<Element>)
    ensures Values(a + b) == Values(a) + Values(b)
  {
  }

  lemma ValuesDropAt(nodes: seq<Element>, key: string)
    requires HasKey(Values(nodes), key)
    ensures var k := IndexOf(Values(nodes), key);
            Values(DropAt(nodes, k)) == Without(Values(nodes), key)
  {
    var k := IndexOf(Values(nodes), key);
    var w := Without(Values(nodes), key);
    assert |w| == |nodes| - 1;
    assert forall i :: 0 <= i < |w| ==> w[i] == nodes[Before(i, k)].value;
  }

  /** With an agreeing map, the node of a key is the one at the position of the key. */
  lemma NodeOfKey(entries: map<string, Element>, nodes: seq<Element>, key: string)
    requires MapAgrees(entries, nodes)
    ensures key in entries <==> HasKey(Values(nodes), key)
    ensures key in entries ==> nodes[IndexOf(Values(nodes), key)] == entries[key]
    ensures LruList.Distinct(nodes) ==> DistinctKeys(Values(nodes))
  {
    if key in entries {
      var i :| 0 <= i < |nodes| && nodes[i] == entries[key];
      assert Values(nodes)[i].key == key;
    }
    assert HasKey(Values(nodes), key) ==> nodes[IndexOf(Values(nodes), key)] in nodes;
  }

  lemma IndexOfPushed(e: Element, nodes: seq<Element>, k: string)
    ensures IndexOf(Values([e] + nodes), k) == if e.value.key == k then 0 else 1 + IndexOf(Values(nodes), k)
  {
    assert Values([e] + nodes)[1..] == Values(nodes);
  }

  lemma IndexOfPopped(nodes: seq<Element>, k: string)
    requires nodes != []
    ensures var front := nodes[..|nodes| - 1];
            var last := nodes[|nodes| - 1].value.key;
            && (k != last ==> HasKey(Values(front), k) == HasKey(Values(nodes), k))
            && (HasKey(Values(front), k) ==> IndexOf(Values(front), k) == IndexOf(Values(nodes), k))
  {
    var front := nodes[..|nodes| - 1];
    assert Values(front) == Values(nodes)[..|front|];
    var i, j := IndexOf(Values(front), k), IndexOf(Values(nodes), k);
    if HasKey(Values(front), k) {
      assert Values(nodes)[i].key == k;
    }
    assert j < |front| ==> Values(front)[j].key == k;
  }

  /** After the start-up scan the map agrees with the list exactly when the kept stems are unique. */
  lemma IndexedMapAgrees(entries: map<string, Element>, nodes: seq<Element>, adopted: seq<Entry>)
    requires |nodes| <= |adopted| && Values(nodes) == adopted[..|nodes|] && LruList.Distinct(nodes)
    requires MapIndexes(entries, nodes, KeySet(adopted[|nodes|..]))
    ensures MapAgrees(entries, nodes) <==> KeptStemsUnique(adopted, |nodes|)
  {
    if MapAgrees(entries, nodes) {
      AgreeingStemsUnique(entries, nodes, adopted);
    }
    if KeptStemsUnique(adopted, |nodes|) {
      UniqueStemsAgree(entries, nodes, adopted);
    }
  }

  lemma LoadedReachable(entries: map<string, Element>, nodes: seq<Element>, adopted: seq<Entry>, maxBytes: int)
    requires LruList.Distinct(nodes) && Values(nodes) == EvictDown(adopted, maxBytes, 0)
    requires MapIndexes(entries, nodes, KeySet(Evicted(adopted, maxBytes, 0)))
    ensures MapAgrees(entries, nodes) && Reachable(Values(nodes), maxBytes) <==> KeptStemsUnique(adopted, |nodes|)
  {
    hide Values, Total, EvictDown, MapIndexes, MapAgrees;
    EvictDownIsLongestFit(adopted, maxBytes, 0);
    if MapAgrees(entries, nodes) {
      NodeOfKey(entries, nodes, "");
    }
    IndexedMapAgrees(entries, nodes, adopted);
  }

  lemma AgreeingStemsUnique(entries: map<string, Element>, nodes: seq<Element>, adopted: seq<Entry>)
    requires |nodes| <= |adopted| && Values(nodes) == adopted[..|nodes|] && LruList.Distinct(nodes)
    requires MapIndexes(entries, nodes, KeySet(adopted[|nodes|..])) && MapAgrees(entries, nodes)
    ensures KeptStemsUnique(adopted, |nodes|)
  {
    hide Values;
    var n, lost := |nodes|, KeySet(adopted[|nodes|..]);
    forall i, j | 0 <= i < n && 0 <= j < |adopted| && i != j ensures adopted[i].key != adopted[j].key {
      assert nodes[i] in nodes && nodes[i].value == Values(nodes)[i] == adopted[i];
      if j < n {
        assert nodes[j] in nodes && nodes[j].value == Values(nodes)[j] == adopted[j];
      } else {
        assert adopted[j] == adopted[n..][j - n] && adopted[j].key in lost;
      }
    }
  }

  lemma UniqueStemsAgree(entries: map<string, Element>, nodes: seq<Element>, adopted: seq<Entry>)
    requires |nodes| <= |adopted| && Values(nodes) == adopted[..|nodes|]
    requires MapIndexes(entries, nodes, KeySet(adopted[|nodes|..])) && KeptStemsUnique(adopted, |nodes|)
    ensures MapAgrees(entries, nodes)
  {
    hide Values;
    var n, lost := |nodes|, KeySet(adopted[|nodes|..]);
    forall node | node in nodes ensures node.value.key in entries && entries[node.value.key] == node {
      var i :| 0 <= i < n && nodes[i] == node;
      var k := node.value.key;
      assert node.value == Values(nodes)[i] == adopted[i];
      assert IndexOf(Values(nodes), k) == i by {
        assert forall j :: 0 <= j < i ==> Values(nodes)[j] == adopted[j];
      }
      assert k !in lost by {
        assert forall j :: 0 <= j < |adopted| - n ==> adopted[n..][j] == adopted[n + j];
      }
    }
  }

  function KeySet(es: seq<Entry>): set<string> {
    set e | e in es :: e.key
  }

  lemma PoppedMapIndexes(entries: map<string, Element>, nodes: seq<Element>, full: seq<Entry>)
    requires nodes != [] && Values(nodes) <= full
    requires MapIndexes(entries, nodes, KeySet(full[|nodes|..]))
    ensures var n := |nodes| - 1;
            MapIndexes(entries - {nodes[n].value.key}, nodes[..n], KeySet(full[n..]))
  {
    var n := |nodes| - 1;
    assert full[n] == Values(nodes)[n] == nodes[n].value;
    assert full[n..] == [full[n]] + full[n + 1..];
    assert KeySet(full[n..]) == KeySet(full[n + 1..]) + {full[n].key};
    forall k { IndexOfPopped(nodes, k); }
  }

  lemma PoppedMapAgrees(entries: map<string, Element>, nodes: seq<Element>)
    requires nodes != [] && MapAgrees(entries, nodes) && LruList.Distinct(nodes)
    ensures MapAgrees(entries - {nodes[|nodes| - 1].value.key}, nodes[..|nodes| - 1])
  {
    var n := |nodes| - 1;
    var last := nodes[n];
    assert last in nodes;
    forall x | x in nodes[..n] ensures x in nodes && x != last && x.value.key != last.value.key {
      assert entries[x.value.key] == x;
    }
    forall k | k in entries && k != last.value.key ensures entries[k] in nodes[..n] {
      var i :| 0 <= i < |nodes| && nodes[i] == entries[k];
      assert i != n;
    }
  }

  lemma MapAgreesReordered(entries: map<string, Element>, nodes: seq<Element>, moved: seq<Element>, k: nat)
    requires MapAgrees(entries, nodes) && k < |nodes| && moved == [nodes[k]] + DropAt(nodes, k)
    ensures MapAgrees(entries, moved)
    ensures forall n :: n in moved <==> n in nodes
  {
    forall n | n in nodes ensures n in moved {
      var i :| 0 <= i < |nodes| && nodes[i] == n;
      assert i != k ==> moved[if i < k then i + 1 else i] == n;
    }
  }

  /** With unique keys, files named after the keys are distinct in any order of the entries. */
  lemma OnDiskReordered(es: seq<Entry>, moved: seq<Entry>, files: Files)
    requires OnDisk(es, files) && DistinctKeys(moved) && multiset(moved) == multiset(es)
    ensures OnDisk(moved, files)
  {
    forall e | e in moved ensures e in es {
      assert e in multiset(moved);
    }
    forall i, j | 0 <= i < j < |moved| ensures moved[i].filename != moved[j].filename {
      assert Backed(moved[i], files) && Backed(moved[j], files);
    }
  }

  lemma NodesDistinct(l: List)
    requires l.Valid()
    ensures LruList.Distinct(l.nodes)
  {
    assert forall j :: 0 <= j < |l.nodes| ==> l.nodes[j] == ([l.root] + l.nodes)[j + 1];
  }

  lemma ScanStart(listing: seq<DirEntry>, files: Files)
    requires Lists(listing, files)
    ensures Adopted(listing[..0], files) == [] == Values([]) && StaleNames(listing[..0]) == {}
    ensures MapIndexes(map[], [], {})
  {
    assert Values([]) == [];
  }

  lemma ScanStep(listing: seq<DirEntry>, files: Files, i: nat)
    requires Lists(listing, files) && i < |listing|
    ensures var d, before, after := listing[i], listing[..i], listing[..i + 1];
            && StaleNames(after) == StaleNames(before) + (if Stale(d) then {d.name} else {})
            && Adopted(after, files) == (if Adopts(d) then [AdoptedEntry(d.name, files[d.name])] + Adopted(before, files)
                                         else Adopted(before, files))
            && (!d.isDir ==> d.name in files - StaleNames(before))
  {
    assert listing[..i + 1][..i] == listing[..i];
    assert listing[..i + 1] == listing[..i] + [listing[i]];
  }

  /** What the start-up scan has done after the first i results of ReadDir. */
  ghost predicate Scanned(listing: seq<DirEntry>, i: nat, files0: Files, es: seq<Entry>, files: Files) {
    && i <= |listing| && Lists(listing, files0)
    && es == Adopted(listing[..i], files0) && files == files0 - StaleNames(listing[..i])
  }

  lemma ScannedNext(listing: seq<DirEntry>, i: nat, files0: Files, es: seq<Entry>, files: Files)
    requires Scanned(listing, i, files0, es, files) && i < |listing|
    ensures var d := listing[i];
            && (!d.isDir ==> d.name in files)
            && Scanned(listing, i + 1, files0, if Adopts(d) then [AdoptedEntry(d.name, files[d.name])] + es else es,
                       if Stale(d) then files - {d.name} else files)
  {
    hide AdoptedEntry, IsTemp;
    ScanStep(listing, files0, i);
    hide Adopted, StaleNames;
  }

  lemma ScannedAll(listing: seq<DirEntry>, files0: Files, es: seq<Entry>, files: Files)
    requires Scanned(listing, |listing|, files0, es, files)
    ensures es == Adopted(listing, files0) && files == files0 - StaleNames(listing) && OnDisk(es, files)
  {
    hide Adopted, StaleNames;
    assert listing[..|listing|] == listing;
    AdoptedOnDisk(listing, files0);
    OnDiskWithout(es, files0, StaleNames(listing));
  }

  lemma PushedMapIndexes(entries: map<string, Element>, nodes: seq<Element>, el: Element)
    requires MapIndexes(entries, nodes, {})
    ensures MapIndexes(entries[el.value.key := el], [el] + nodes, {})
  {
    forall k { IndexOfPushed(el, nodes, k); }
  }

  /** An eviction loop on its way from the full list to the final one. */
  ghost predicate EvictionProgress(full: seq<Entry>, es: seq<Entry>, maxBytes: int, floor: nat, files0: Files, files: Files) {
    && |es| <= |full| && es == full[..|es|]
    && EvictDown(es, maxBytes, floor) == EvictDown(full, maxBytes, floor)
    && files == files0 - FileNames(full[|es|..])
  }

  lemma PopProgress(full: seq<Entry>, es: seq<Entry>, maxBytes: int, floor: nat, files0: Files, files: Files)
    requires EvictionProgress(full, es, maxBytes, floor, files0, files)
    requires Total(es) > maxBytes && |es| > floor
    ensures EvictionProgress(full, es[..|es| - 1], maxBytes, floor, files0, files - {es[|es| - 1].filename})
  {
    hide EvictDown, Total, FileNames;
    EvictDownStep(es, maxBytes, floor);
    PopFiles(full, |es|, files0);
  }

  lemma PopFiles(full: seq<Entry>, n: nat, files0: Files)
    requires 0 < n <= |full|
    ensures files0 - FileNames(full[n..]) - {full[n - 1].filename} == files0 - FileNames(full[n - 1..])
  {
    hide FileNames;
    assert full[n - 1..] == [full[n - 1]] + full[n..];
    FileNamesCons(full[n - 1], full[n..]);
  }

  /** The start-up eviction loop on its way: files and map have lost exactly the entries that the list lost. */
  ghost predicate Shrinking(all: seq<Element>, nodes: seq<Element>, entries: map<string, Element>, maxBytes: int,
                            files0: Files, files: Files)
  {
    && nodes <= all
    && EvictionProgress(Values(all), Values(nodes), maxBytes, 0, files0, files)
    && MapIndexes(entries, nodes, KeySet(Values(all)[|nodes|..]))
  }

  lemma ShrinkingPop(all: seq<Element>, nodes: seq<Element>, entries: map<string, Element>, maxBytes: int,
                     files0: Files, files: Files)
    requires Shrinking(all, nodes, entries, maxBytes, files0, files)
    requires nodes != [] && Total(Values(nodes)) > maxBytes
    ensures var last := nodes[|nodes| - 1].value;
            Shrinking(all, nodes[..|nodes| - 1], entries - {last.key}, maxBytes, files0, files - {last.filename})
  {
    hide EvictDown, Total, FileNames, KeySet, MapIndexes;
    PopProgress(Values(all), Values(nodes), maxBytes, 0, files0, files);
    PoppedMapIndexes(entries, nodes, Values(all));
    DropLast(nodes);
  }

  lemma ShrinkingDone(all: seq<Element>, nodes: seq<Element>, entries: map<string, Element>, maxBytes: int,
                      files0: Files, files: Files)
    requires Shrinking(all, nodes, entries, maxBytes, files0, files)
    requires nodes == [] || Total(Values(nodes)) <= maxBytes
    ensures var full := Values(all);
            && nodes <= all
            && Values(nodes) == EvictDown(full, maxBytes, 0)
            && files == files0 - FileNames(Evicted(full, maxBytes, 0))
            && MapIndexes(entries, nodes, KeySet(Evicted(full, maxBytes, 0)))
  {
    hide FileNames, KeySet, MapIndexes;
  }

  /** Taking out the node of a key leaves a map that is right once the key is mapped anew. */
  lemma ReplacedMapAgrees(entries: map<string, Element>, nodes: seq<Element>, rest: seq<Element>, el: Element)
    requires MapAgrees(entries, nodes) && LruList.Distinct(nodes)
    requires var key := el.value.key;
             rest == if HasKey(Values(nodes), key) then DropAt(nodes, IndexOf(Values(nodes), key)) else nodes
    ensures MapAgrees(entries[el.value.key := el], [el] + rest)
  {
    var key := el.value.key;
    hide Values, IndexOf, HasKey, LruList.Distinct, DropAt;
    NodeOfKey(entries, nodes, key);
    if HasKey(Values(nodes), key) {
      RestOfNodes(nodes, IndexOf(Values(nodes), key));
    }
    RemappedAgrees(entries, nodes, rest, el);
  }

  lemma RemappedAgrees(entries: map<string, Element>, nodes: seq<Element>, rest: seq<Element>, el: Element)
    requires MapAgrees(entries, nodes)
    requires forall n :: n in rest <==> n in nodes && n.value.key != el.value.key
    ensures MapAgrees(entries[el.value.key := el], [el] + rest)
  {
    assert forall n :: n in [el] + rest <==> n == el || n in rest;
  }

  lemma RestOfNodes(nodes: seq<Element>, k: nat)
    requires k < |nodes| && LruList.Distinct(nodes)
    ensures forall n :: n in DropAt(nodes, k) <==> n in nodes && n != nodes[k]
  {
    var rest := DropAt(nodes, k);
    forall n | n in nodes && n != nodes[k] ensures n in rest {
      var i :| 0 <= i < |nodes| && nodes[i] == n;
      assert rest[if i < k then i else i - 1] == n;
    }
  }

  lemma NoTempListed(es: seq<Entry>, files: Files, name: string)
    requires OnDisk(es, files) && IsTemp(name)
    ensures name !in FileNames(es)
  {
    assert forall e :: e in es ==> Backed(e, files);
  }

  /** What MoveToFront of the node of a key does to the agreement. */
  lemma MovedToFront(entries: map<string, Element>, nodes: seq<Element>, key: string, files: Files, maxBytes: int)
    requires MapAgrees(entries, nodes) && HasKey(Values(nodes), key)
    requires OnDisk(Values(nodes), files) && Reachable(Values(nodes), maxBytes)
    ensures var k := IndexOf(Values(nodes), key);
            var moved := [nodes[k]] + DropAt(nodes, k);
            && Values(moved) == Touch(Values(nodes), key)
            && MapAgrees(entries, moved) && (forall n :: n in moved <==> n in nodes)
            && OnDisk(Values(moved), files) && Reachable(Values(moved), maxBytes)
            && Total(Values(moved)) == Total(Values(nodes))
  {
    var es, k := Values(nodes), IndexOf(Values(nodes), key);
    ValuesDropAt(nodes, key);
    ValuesConcat([nodes[k]], DropAt(nodes, k));
    assert Values([nodes[k]]) == [es[k]];
    TouchReorders(es, key);
    AccessKeepsInvariant(es, es[k], maxBytes);
    OnDiskReordered(es, Touch(es, key), files);
    MapAgreesReordered(entries, nodes, [nodes[k]] + DropAt(nodes, k), k);
  }

  /** What the rename of a finished download does to the agreement, before the entry is installed. */
  lemma RenamedOnDisk(es: seq<Entry>, files: Files, e: Entry, content: seq<byte>)
    requires OnDisk(es, files) && DistinctKeys(es)
    requires Stem(e.filename) == e.key && !IsTemp(e.filename) && |content| == e.size
    ensures var files' := (files - {e.filename + ".tmp"})[e.filename := content];
            OnDisk(Without(es, e.key), files') && Backed(e, files')
  {
    var rest, tmp := Without(es, e.key), e.filename + ".tmp";
    WithoutDropsKey(es, e.key);
    OnDiskSublist(es, rest, files);
    TempNames(e.filename);
    OnDiskWithout(rest, files, {tmp});
    OnDiskReplace(rest, files - {tmp}, e, content);
    OnDiskSublist([e] + rest, rest, (files - {tmp})[e.filename := content]);
  }

  /**
   A Put that replaces an entry of the same key leaves the old file behind, owned by no entry, exactly when
   the two file names differ, that is when the mime types do. FetchMedia never replaces: it only puts on a miss.
   */
  lemma ReplacingPutOrphans(es: seq<Entry>, files: Files, prior: Entry, e: Entry, content: seq<byte>, maxBytes: int)
    requires OnDisk(es, files) && DistinctKeys(es) && prior in es && prior.key == e.key
    requires Stem(e.filename) == e.key && !IsTemp(e.filename)
    ensures var kept := Insert(es, e, maxBytes);
            var after := (files - {e.filename + ".tmp"})[e.filename := content]
                         - FileNames(Evicted([e] + Without(es, e.key), maxBytes, 1));
            (prior.filename in after && forall x :: x in kept ==> x.filename != prior.filename) <==> prior.filename != e.filename
  {
    hide Total, IsTemp, Stem, Ext;
    var full := [e] + Without(es, e.key);
    var kept := Insert(es, e, maxBytes);
    TempNames(e.filename);
    WithoutDropsKey(es, e.key);
    InsertKeepsInvariant(es, e, maxBytes);
    assert Backed(prior, files);
    assert kept[0] == e && e in kept;
    hide Insert, Without, Evicted;
    forall x | x in full && x != e ensures x.filename != prior.filename {
      assert x in es && Backed(x, files);
    }
    TailMembers(full, maxBytes);
    KeptMembers(es, e, maxBytes);
  }

  /** Put evicts entries behind the new one only. */
  lemma TailMembers(full: seq<Entry>, maxBytes: int)
    requires full != []
    ensures forall x :: x in Evicted(full, maxBytes, 1) ==> x in full[1..]
  {
    EvictDownIsLongestFit(full, maxBytes, 1);
    var n := |EvictDown(full, maxBytes, 1)|;
    assert full[n..] == full[1..][n - 1..];
  }

  lemma KeptMembers(es: seq<Entry>, e: Entry, maxBytes: int)
    ensures forall x :: x in Insert(es, e, maxBytes) ==> x in [e] + Without(es, e.key)
  {
    EvictDownIsLongestFit([e] + Without(es, e.key), maxBytes, 1);
  }

  /** At most one node more, at the front. */
  ghost predicate Grown(before: seq<Element>, after: seq<Element>) {
    after == before || (after != [] && after[1..] == before)
  }

  /** All nodes are among those made so far. */
  ghost predicate Within(nodes: seq<Element>, made: set<Element>) {
    forall k :: 0 <= k < |nodes| ==> nodes[k] in made
  }

  lemma NoneWithin(made: set<Element>)
    ensures Within([], made)
  {
  }

  twostate lemma FreshWithin(new nodes: seq<Element>, new made: set<Element>)
    requires Within(nodes, made) && fresh(made)
    ensures fresh(nodes)
  {
  }

  class MediaCache {
    const sha256: Sha256
    const maxBytes: int
    const lru: List
    var entries: map<string, Element>
    var total: int
    var files: Files

    /** The cached entries, most recently used first. */
    ghost function Contents(): seq<Entry>
      reads this, lru
    {
      Values(lru.nodes)
    }

    /** List and total agree. */
    ghost predicate Listed()
      reads this, lru, lru.root, lru.nodes
    {
      lru.Valid() && total == Total(Contents())
    }

    /** List, total and directory agree; the map is not mentioned. */
    ghost predicate Sound()
      reads this, lru, lru.root, lru.nodes
    {
      Listed() && OnDisk(Contents(), files)
    }

    ghost predicate Valid()
      reads this, lru, lru.root, lru.nodes
    {
      && Sound()
      && MapAgrees(entries, lru.nodes)
      && Reachable(Contents(), maxBytes)
    }

    /** PushFront, map update and byte count: the registration shared by start-up and Put. */
    method Register(entry: Entry) returns (el: Element)
      requires Listed()
      modifies this, lru, lru.root, lru.nodes
      ensures Listed() && fresh(el) && el.value == entry && lru.nodes == [el] + old(lru.nodes)
      ensures Contents() == [entry] + old(Contents())
      ensures entries == old(entries)[entry.key := el] && files == old(files)
    {
      el := lru.PushFront(entry);
      entries := entries[entry.key := el];
      total := total + entry.size;
      ValuesConcat([el], old(lru.nodes));
      assert Values([el]) == [entry];
      TotalCons(entry, old(Contents()));
    }

    /**
     Open the cache on a directory. Two files with one stem break the map, which can hold only one of them;
     the last clause says exactly when the result is a consistent cache.
     */
    constructor (sha256: Sha256, maxBytes: int, listing: seq<DirEntry>, files: Files)
      requires Lists(listing, files)
      ensures this.sha256 == sha256 && this.maxBytes == maxBytes && fresh(lru) && fresh(lru.root) && fresh(lru.nodes)
      ensures Sound()
      ensures Contents() == EvictDown(Adopted(listing, files), maxBytes, 0)
      ensures this.files == files - StaleNames(listing) - FileNames(Evicted(Adopted(listing, files), maxBytes, 0))
      ensures Valid() <==> KeptStemsUnique(Adopted(listing, files), |Contents()|)
    {
      this.sha256, this.maxBytes, this.files := sha256, maxBytes, files;
      lru := new List();
      entries, total := map[], 0;
      new;
      Load(listing);
    }

    /** The start-up scan and the start-up evictions. */
    method Load(listing: seq<DirEntry>)
      requires Lists(listing, files) && Listed() && lru.nodes == [] && entries == map[]
      modifies this, lru, lru.root
      ensures Sound() && fresh(lru.nodes)
      ensures Contents() == EvictDown(Adopted(listing, old(files)), maxBytes, 0)
      ensures files == old(files) - StaleNames(listing) - FileNames(Evicted(Adopted(listing, old(files)), maxBytes, 0))
      ensures MapAgrees(entries, lru.nodes) && Reachable(Contents(), maxBytes)
              <==> KeptStemsUnique(Adopted(listing, old(files)), |Contents()|)
    {
      hide OnDisk, Linked, MapIndexes, MapAgrees, Adopted, StaleNames, KeptStemsUnique, Evicted, Total, Values, EvictDown, Reachable;
      Scan(listing);
      ShrinkToBudget();
      NodesDistinct(lru);
      LoadedReachable(entries, lru.nodes, Adopted(listing, old(files)), maxBytes);
    }

    /** One directory entry of the start-up scan; `made` has all nodes of the list, and may grow by a new one. */
    method ScanEntry(d: DirEntry, ghost made: set<Element>) returns (ghost made': set<Element>)
      requires Listed() && MapIndexes(entries, lru.nodes, {}) && (!d.isDir ==> d.name in files)
      requires Within(lru.nodes, made)
      modifies this, lru, lru.root, made
      ensures Listed() && MapIndexes(entries, lru.nodes, {})
      ensures Grown(old(lru.nodes), lru.nodes)
      ensures Within(lru.nodes, made') && forall n :: n in made' ==> n in made || fresh(n)
      ensures files == if Stale(d) then old(files) - {d.name} else old(files)
      ensures Contents() == if Adopts(d) then [AdoptedEntry(d.name, old(files)[d.name])] + old(Contents()) else old(Contents())
    {
      hide Linked, MapIndexes, Total, Values;
      made' := made;
      if d.isDir {
      } else if IsTemp(d.name) {
        files := files - {d.name};
      } else if d.readable {
        ghost var before, nodes := entries, lru.nodes;
        var ext := Ext(d.name);
        var el := Register(Entry(Stem(d.name), d.name, |files[d.name]|, MimeFromExt(ext)));
        PushedMapIndexes(before, nodes, el);
        made' := made + {el};
      }
    }

    /** The body of the scan loop. */
    method ScanNext(listing: seq<DirEntry>, i: nat, ghost files0: Files, ghost made: set<Element>) returns (ghost made': set<Element>)
      requires i < |listing| && Scanned(listing, i, files0, Contents(), files)
      requires Listed() && MapIndexes(entries, lru.nodes, {}) && Within(lru.nodes, made)
      modifies this, lru, lru.root, made
      ensures Listed() && MapIndexes(entries, lru.nodes, {})
      ensures Within(lru.nodes, made') && forall n :: n in made' ==> n in made || fresh(n)
      ensures Scanned(listing, i + 1, files0, Contents(), files)
    {
      hide Linked, MapIndexes, Total, Values, Scanned, Adopts, Stale, AdoptedEntry, Within, Grown;
      ScannedNext(listing, i, files0, Contents(), files);
      made' := ScanEntry(listing[i], made);
    }

    /** The start-up scan: remove temp files, register the others. */
    method Scan(listing: seq<DirEntry>)
      requires Lists(listing, files) && Listed() && lru.nodes == [] && entries == map[]
      modifies this, lru, lru.root
      ensures Sound() && fresh(lru.nodes)
      ensures Contents() == Adopted(listing, old(files)) && files == old(files) - StaleNames(listing)
      ensures MapIndexes(entries, lru.nodes, {})
    {
      ghost var files0 := files;
      ScanStart(listing, files0);
      assert Scanned(listing, 0, files0, Contents(), files);
      hide OnDisk, Linked, MapIndexes, Total, Values, Scanned, Adopted, StaleNames, Lists, Within;
      var i := 0;
      ghost var made: set<Element> := {};
      assert Within(lru.nodes, made) by { NoneWithin(made); }
      while i < |listing|
        invariant 0 <= i <= |listing|
        invariant Listed() && fresh(made) && Within(lru.nodes, made)
        invariant Scanned(listing, i, files0, Contents(), files) && MapIndexes(entries, lru.nodes, {})
      {
        made := ScanNext(listing, i, files0, made);
        i := i + 1;
      }
      ScannedAll(listing, files0, Contents(), files);
      FreshWithin(lru.nodes, made);
    }

    /** The start-up eviction loop, down to the empty list if need be. */
    method ShrinkToBudget()
      requires Sound() && MapIndexes(entries, lru.nodes, {})
      modifies this, lru, lru.root, lru.nodes
      ensures Sound() && lru.nodes <= old(lru.nodes)
      ensures Contents() == EvictDown(old(Contents()), maxBytes, 0)
      ensures files == old(files) - FileNames(Evicted(old(Contents()), maxBytes, 0))
      ensures MapIndexes(entries, lru.nodes, KeySet(Evicted(old(Contents()), maxBytes, 0)))
    {
      ghost var all := lru.nodes;
      assert KeySet(Values(all)[|all|..]) == {};
      assert Shrinking(all, lru.nodes, entries, maxBytes, old(files), files);
      hide Shrinking, OnDisk, Linked, MapIndexes, Values, KeySet, FileNames, EvictDown, Evicted;
      while total > maxBytes
        invariant Sound() && Shrinking(all, lru.nodes, entries, maxBytes, old(files), files)
        decreases |lru.nodes|
      {
        if lru.len > 0 {
          ShrinkingPop(all, lru.nodes, entries, maxBytes, old(files), files);
        }
        var ok := EvictLocked();
        if !ok {
          break;
        }
      }
      ShrinkingDone(all, lru.nodes, entries, maxBytes, old(files), files);
    }

    /** Get: on a hit the entry moves to the front, nothing else changes. */
    method Get(mediaID: string) returns (r: Option<(string, string)>)
      requires Valid()
      modifies lru, lru.root, lru.nodes
      ensures Valid() && forall n :: n in lru.nodes ==> n in old(lru.nodes)
      ensures Contents() == Touch(old(Contents()), CacheKey(sha256, mediaID))
      ensures var i := IndexOf(old(Contents()), CacheKey(sha256, mediaID));
              r == if i < |old(Contents())| then Some((old(Contents())[i].filename, old(Contents())[i].mime)) else None
    {
      hide OnDisk, MapAgrees, Reachable, Without, Total, Linked, Values, IndexOf, CacheKey;
      var key := CacheKey(sha256, mediaID);
      NodeOfKey(entries, lru.nodes, key);
      if key !in entries {
        return None;
      }
      var el := entries[key];
      MovedToFront(entries, lru.nodes, key, files, maxBytes);
      lru.MoveToFront(el, IndexOf(Contents(), key));
      return Some((el.value.filename, el.value.mime));
    }

    /** Remove the least recently used entry, its map key and its file. */
    method EvictLocked() returns (ok: bool)
      requires Sound()
      modifies this, lru, lru.root, lru.nodes
      ensures Sound()
      ensures ok == (old(Contents()) != [])
      ensures !ok ==> lru.nodes == old(lru.nodes) && entries == old(entries) && files == old(files)
      ensures ok ==>
                var back := old(Contents())[|old(Contents())| - 1];
                && lru.nodes == old(lru.nodes)[..|old(lru.nodes)| - 1]
                && Contents() == old(Contents())[..|old(Contents())| - 1]
                && entries == old(entries) - {back.key}
                && files == old(files) - {back.filename}
    {
      var el := lru.Back();
      if el == null {
        return false;
      }
      hide OnDisk, Linked, Values, FileNames, Total, DropAt;
      DropLast(lru.nodes);
      OnDiskPopped(Contents(), files);
      lru.Remove(el, |lru.nodes| - 1);
      var e := el.value;
      entries := entries - {e.key};
      total := total - e.size;
      files := files - {e.filename};
      assert Listed() && Contents() == old(Contents())[..|lru.nodes|];
      return true;
    }

    /** Take the node of a key out of the list; the map keeps its stale reference until it is overwritten. */
    method Unregister(key: string)
      requires Listed() && MapAgrees(entries, lru.nodes)
      modifies `total, lru, lru.root, lru.nodes
      ensures Listed() && Contents() == Without(old(Contents()), key)
      ensures var k := IndexOf(old(Contents()), key);
              lru.nodes == if k < |old(Contents())| then DropAt(old(lru.nodes), k) else old(lru.nodes)
    {
      hide Linked, Total, Values, MapAgrees;
      ghost var es, nodes := Contents(), lru.nodes;
      NodeOfKey(entries, nodes, key);
      if key in entries {
        var el := entries[key];
        total := total - el.value.size;
        ghost var k := IndexOf(es, key);
        ValuesDropAt(nodes, key);
        TotalRemoveAt(es, k);
        lru.Remove(el, k);
      }
    }

    /** The eviction loop of Put: the front entry always stays. */
    method EvictOthers()
      requires Sound() && MapAgrees(entries, lru.nodes) && lru.nodes != []
      modifies this, lru, lru.root, lru.nodes
      ensures Sound() && MapAgrees(entries, lru.nodes) && lru.nodes <= old(lru.nodes)
      ensures Contents() == EvictDown(old(Contents()), maxBytes, 1)
      ensures files == old(files) - FileNames(Evicted(old(Contents()), maxBytes, 1))
    {
      hide OnDisk, Linked, MapAgrees, Values;
      ghost var full := Contents();
      while total > maxBytes && lru.len > 1
        invariant Sound() && MapAgrees(entries, lru.nodes) && lru.nodes <= old(lru.nodes)
        invariant EvictionProgress(full, Contents(), maxBytes, 1, old(files), files)
        decreases |lru.nodes|
      {
        NodesDistinct(lru);
        PoppedMapAgrees(entries, lru.nodes);
        PopProgress(full, Contents(), maxBytes, 1, old(files), files);
        var ok := EvictLocked();
      }
    }

    /** The locked section of Put: replace, push to the front, evict. */
    method Install(entry: Entry)
      requires Listed() && MapAgrees(entries, lru.nodes) && Reachable(Contents(), maxBytes)
      requires OnDisk(Without(Contents(), entry.key), files) && Backed(entry, files)
      modifies this, lru, lru.root, lru.nodes
      ensures Valid() && (forall n :: n in lru.nodes ==> n in old(lru.nodes) || fresh(n))
      ensures Contents() == Insert(old(Contents()), entry, maxBytes)
      ensures files == old(files) - FileNames(Evicted([entry] + Without(old(Contents()), entry.key), maxBytes, 1))
    {
      hide OnDisk, Linked, MapAgrees, Total, EvictDown, Evicted, IndexOf, LruList.Distinct, Values, Backed, Reachable, Without;
      ghost var es, before, nodes := Contents(), entries, lru.nodes;
      NodesDistinct(lru);
      Unregister(entry.key);
      ghost var rest := lru.nodes;
      ReachableInsert(es, entry, maxBytes);
      OnDiskPushed(Without(es, entry.key), files, entry);
      var el := Register(entry);
      ReplacedMapAgrees(before, nodes, rest, el);
      EvictOthers();
    }

    /** The file operations of Put, up to and including the rename. */
    method Download(fname: string, io: PutIo) returns (size: Result<nat, PutError>)
      requires fname + ".tmp" != fname
      modifies this`files
      ensures io.OpenFails? ==> files == old(files)
      ensures !io.OpenFails? && !io.Succeeds? ==> files == old(files) - {fname + ".tmp"}
      ensures !io.Succeeds? ==> size == Err(ErrorOf(io))
      ensures io.Succeeds? ==> size == Ok(|io.content|)
                               && files == (old(files) - {fname + ".tmp"})[fname := io.content]
    {
      var tmpPath := fname + ".tmp";
      if io.OpenFails? {
        return Err(CannotOpen);
      }
      files := files[tmpPath := []];
      files := files[tmpPath := if io.Succeeds? then io.content else io.written];
      if !io.Succeeds? {
        files := files - {tmpPath};
        assert files == old(files) - {tmpPath};
        return Err(ErrorOf(io));
      }
      size := Ok(|files[tmpPath]|);
      files := (files - {tmpPath})[fname := files[tmpPath]];
      assert files == (old(files) - {tmpPath})[fname := io.content];
    }

    /** Put: write a temp file, rename it into place, then install the entry. */
    method Put(mediaID: string, mime: string, io: PutIo) returns (r: Result<string, PutError>)
      requires Valid()
      modifies this, lru, lru.root, lru.nodes
      ensures Valid() && (forall n :: n in lru.nodes ==> n in old(lru.nodes) || fresh(n))
      ensures !io.Succeeds? ==>
                && r == Err(ErrorOf(io))
                && lru.nodes == old(lru.nodes) && entries == old(entries)
                && files == if io.OpenFails? then old(files)
                            else old(files) - {CacheKey(sha256, mediaID) + ExtFromMime(mime) + ".tmp"}
      ensures io.Succeeds? ==>
                var key := CacheKey(sha256, mediaID);
                var fname := key + ExtFromMime(mime);
                var e := Entry(key, fname, |io.content|, mime);
                && r == Ok(fname)
                && Contents() == Insert(old(Contents()), e, maxBytes)
                && files == (old(files) - {fname + ".tmp"})[fname := io.content]
                            - FileNames(Evicted([e] + Without(old(Contents()), key), maxBytes, 1))
    {
      hide OnDisk, Linked, MapAgrees, Total, Evicted, Insert, Values, CacheKey, IsTemp, ExtFromMime, Without, Backed, FileNames, Stem;
      var key := CacheKey(sha256, mediaID);
      var ext := ExtFromMime(mime);
      var fname := key + ext;
      CacheKeyHasNoDot(sha256, mediaID);
      StemOfOwnName(key, ext);
      TempNames(fname);
      var size := Download(fname, io);
      if size.Err? {
        assert FileNames(Contents()) !! {fname + ".tmp"} by { NoTempListed(Contents(), old(files), fname + ".tmp"); }
        OnDiskWithout(Contents(), old(files), {fname + ".tmp"});
        return Err(size.error);
      }
      var entry := Entry(key, fname, size.value, mime);
      RenamedOnDisk(Contents(), old(files), entry, io.content);
      Install(entry);
      return Ok(fname);
    }
  }

  // ----- two files with one stem

  const SAME_STEM := [DirEntry("a.jpg", false, true), DirEntry("a.png", false, true)]

  lemma SameStemNotUnique(files: Files, maxBytes: int)
    requires "a.jpg" in files && "a.png" in files && |files["a.png"]| <= maxBytes
    ensures Lists(SAME_STEM, files)
    ensures var adopted := Adopted(SAME_STEM, files);
            !KeptStemsUnique(adopted, |EvictDown(adopted, maxBytes, 0)|)
  {
    hide IsTemp, Stem, Ext, MimeFromExt;
    StemOfOwnName("a", ".jpg");
    StemOfOwnName("a", ".png");
    assert "a" + ".jpg" == "a.jpg" && "a" + ".png" == "a.png";
    var png, jpg := AdoptedEntry("a.png", files["a.png"]), AdoptedEntry("a.jpg", files["a.jpg"]);
    assert SAME_STEM[..1] == [SAME_STEM[0]] && SAME_STEM[..1][..0] == [];
    assert Adopted(SAME_STEM[..1], files) == [jpg];
    assert Adopted(SAME_STEM, files) == [png, jpg];
    assert [png, jpg][..1] == [png] && [png][..0] == [];
    assert Total([png]) == png.size;
    EvictDownIsLongestFit([png, jpg], maxBytes, 0);
  }

  /** Opened on such a directory, the cache starts with a map that disagrees with its list. */
  method OpenOnSameStem(sha256: Sha256, maxBytes: int, files: Files) returns (c: MediaCache)
    requires "a.jpg" in files && "a.png" in files && |files["a.png"]| <= maxBytes
    ensures fresh(c) && !c.Valid()
  {
    SameStemNotUnique(files, maxBytes);
    c := new MediaCache(sha256, maxBytes, SAME_STEM, files);
  }

  // ----- an orphan

  /** A directory with the JPEG of one key. */
  function JpegOf(key: string): seq<DirEntry> { [DirEntry(key + ".jpg", false, true)] }

  /**
   Opened on a directory with the JPEG of an id, then Put of the same id as a PNG: a valid cache that holds just
   the PNG, with the JPEG left behind and owned by nobody.
   */
  method PutOtherMime(sha256: Sha256, maxBytes: int, mediaID: string, jpg: seq<byte>, png: seq<byte>) returns (c: MediaCache)
    requires |jpg| <= maxBytes
    ensures fresh(c) && c.Valid()
    ensures var key := CacheKey(sha256, mediaID);
            && c.Contents() == [Entry(key, key + ".png", |png|, "image/png")]
            && key + ".jpg" in c.files && c.files[key + ".jpg"] == jpg
  {
    hide CacheKey, OnDisk, MapAgrees, Linked, Total, Adopted, KeptStemsUnique, Evicted, EvictDown, Insert, Without, FileNames,
         StaleNames, Reachable, Values, ExtFromMime, Lists, JpegOf;
    ghost var key := CacheKey(sha256, mediaID);
    ghost var first, second := Entry(key, key + ".jpg", |jpg|, "image/jpeg"), Entry(key, key + ".png", |png|, "image/png");
    CacheKeyHasNoDot(sha256, mediaID);
    OneJpeg(key, jpg, maxBytes);
    OnlyEntry(first, second, maxBytes);
    TwoNames(key);
    var name := CacheKey(sha256, mediaID);
    c := new MediaCache(sha256, maxBytes, JpegOf(name), map[name + ".jpg" := jpg]);
    var r := c.Put(mediaID, "image/png", Succeeds(png));
  }

  lemma TwoNames(key: string)
    ensures ExtFromMime("image/jpeg") == ".jpg" && ExtFromMime("image/png") == ".png"
    ensures key + ".jpg" != key + ".png" && key + ".jpg" != key + ".png" + ".tmp"
  {
    assert (key + ".jpg")[|key| + 1] == 'j' && (key + ".png")[|key| + 1] == 'p';
    assert |key + ".png" + ".tmp"| != |key + ".jpg"|;
  }

  lemma OneJpeg(key: string, jpg: seq<byte>, maxBytes: int)
    requires '.' !in key && |jpg| <= maxBytes
    ensures var files, es := map[key + ".jpg" := jpg], [Entry(key, key + ".jpg", |jpg|, "image/jpeg")];
            && Lists(JpegOf(key), files)
            && Adopted(JpegOf(key), files) == es == EvictDown(es, maxBytes, 0)
            && FileNames(Evicted(es, maxBytes, 0)) == {} && StaleNames(JpegOf(key)) == {} && KeptStemsUnique(es, 1)
  {
    hide IsTemp, Stem, Ext;
    StemOfOwnName(key, ".jpg");
    assert ToLower(".jpg") == ".jpg";
    assert JpegOf(key)[..0] == [];
    var e := Entry(key, key + ".jpg", |jpg|, "image/jpeg");
    assert [e][..0] == [];
    assert Total([e]) == |jpg|;
  }

  /** A Put into a list with just an entry of the same key leaves just the new entry and evicts nothing. */
  lemma OnlyEntry(prior: Entry, e: Entry, maxBytes: int)
    requires prior.key == e.key
    ensures Without([prior], e.key) == [] && Insert([prior], e, maxBytes) == [e]
    ensures FileNames(Evicted([e] + Without([prior], e.key), maxBytes, 1)) == {}
  {
  }
}
