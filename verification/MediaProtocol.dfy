/**
 The media cache under concurrency and crashes. Any number of FetchMedia calls interleave, one atomic file
 operation or one locked section at a time, at most one call in flight for each key; the process may
 crash and restart between any two steps.
 */
module MediaProtocol {
  import opened Prelude
  import opened LruPolicy
  import opened MediaNames
  import opened MediaDirectory
  import LruStack

  datatype Phase =
    | Missed                // Get found nothing; the temp file is not open yet
    | Writing               // the download streams into the temp file
    | Written               // the download callback returned nil
    | Closed
    | Statted(size: nat)
    | Renamed(size: nat)    // the file is in place, the lock is not taken yet

  datatype Call = Call(key: string, mime: string, payload: seq<byte>, phase: Phase)

  /** `origin` records, for each file name, the download that file is meant to hold. */
  datatype State = State(files: Files, lru: seq<Entry>, calls: map<nat, Call>, origin: map<string, seq<byte>>)

  datatype Step =
    | Hit(key: string)
    | Miss(id: nat, key: string, mime: string, payload: seq<byte>)
    | Open(id: nat)
    | Write(id: nat, upTo: nat)
    | FinishDownload(id: nat)
    | Close(id: nat)
    | Stat(id: nat)
    | Rename(id: nat)
    | Commit(id: nat)
    | Fail(id: nat)
    | Restart(listing: seq<DirEntry>)

  function FinalName(c: Call): string { c.key + ExtFromMime(c.mime) }

  function TempName(c: Call): string { FinalName(c) + ".tmp" }

  predicate HoldsTemp(c: Call) { c.phase.Writing? || c.phase.Written? || c.phase.Closed? || c.phase.Statted? }

  /** What ReadDir returns for a directory of readable files, in any order. */
  ghost predicate Covers(listing: seq<DirEntry>, files: Files) {
    && Lists(listing, files)
    && (forall d :: d in listing ==> !d.isDir && d.readable)
    && (forall n :: n in files ==> DirEntry(n, false, true) in listing)
  }

  ghost predicate Enabled(s: State, step: Step) {
    match step
    case Hit(key) => HasKey(s.lru, key)
    case Miss(id, key, _, _) =>
      && id !in s.calls && '.' !in key && !HasKey(s.lru, key)
      && forall i :: i in s.calls ==> s.calls[i].key != key
    case Open(id) => id in s.calls && s.calls[id].phase.Missed?
    case Write(id, upTo) =>
      && id in s.calls && s.calls[id].phase.Writing?
      && TempName(s.calls[id]) in s.files && |s.files[TempName(s.calls[id])]| <= upTo <= |s.calls[id].payload|
    case FinishDownload(id) =>
      && id in s.calls && s.calls[id].phase.Writing?
      && TempName(s.calls[id]) in s.files && |s.files[TempName(s.calls[id])]| == |s.calls[id].payload|
    case Close(id) => id in s.calls && s.calls[id].phase.Written?
    case Stat(id) => id in s.calls && s.calls[id].phase.Closed? && TempName(s.calls[id]) in s.files
    case Rename(id) =>
      id in s.calls && s.calls[id].phase.Statted? && TempName(s.calls[id]) in s.files && TempName(s.calls[id]) in s.origin
    case Commit(id) => id in s.calls && s.calls[id].phase.Renamed?
    case Fail(id) => id in s.calls && !s.calls[id].phase.Renamed?
    case Restart(listing) => Covers(listing, s.files)
  }

  function Advance(s: State, id: nat, phase: Phase): State
    requires id in s.calls
  {
    s.(calls := s.calls[id := s.calls[id].(phase := phase)])
  }

  /** newMediaCache on the directory that is there. */
  ghost function Recovered(files: Files, listing: seq<DirEntry>, maxBytes: int, origin: map<string, seq<byte>>): State
    requires Lists(listing, files)
  {
    var adopted := Adopted(listing, files);
    State(files - StaleNames(listing) - FileNames(Evicted(adopted, maxBytes, 0)),
          EvictDown(adopted, maxBytes, 0), map[], origin)
  }

  ghost function Apply(s: State, step: Step, maxBytes: int): State
    requires Enabled(s, step)
  {
    match step
    case Hit(key) => s.(lru := Touch(s.lru, key))
    case Miss(id, key, mime, payload) => s.(calls := s.calls[id := Call(key, mime, payload, Missed)])
    case Open(id) =>
      var c := s.calls[id];
      Advance(s, id, Writing).(files := s.files[TempName(c) := []], origin := s.origin[TempName(c) := c.payload])
    case Write(id, upTo) =>
      var c := s.calls[id];
      s.(files := s.files[TempName(c) := c.payload[..upTo]])
    case FinishDownload(id) => Advance(s, id, Written)
    case Close(id) => Advance(s, id, Closed)
    case Stat(id) => Advance(s, id, Statted(|s.files[TempName(s.calls[id])]|))
    case Rename(id) =>
      var c := s.calls[id];
      Advance(s, id, Renamed(c.phase.size)).(
        files := (s.files - {TempName(c)})[FinalName(c) := s.files[TempName(c)]],
        origin := s.origin[FinalName(c) := s.origin[TempName(c)]])
    case Commit(id) =>
      var c := s.calls[id];
      var e := Entry(c.key, FinalName(c), c.phase.size, c.mime);
      var full := [e] + Without(s.lru, c.key);
      State(s.files - FileNames(Evicted(full, maxBytes, 1)), Insert(s.lru, e, maxBytes), s.calls - {id}, s.origin)
    case Fail(id) =>
      var c := s.calls[id];
      s.(calls := s.calls - {id}, files := if HoldsTemp(c) then s.files - {TempName(c)} else s.files)
    case Restart(listing) => Recovered(s.files, listing, maxBytes, s.origin)
  }

  /** The file is there and holds its whole download. */
  ghost predicate Complete(s: State, name: string) {
    name in s.files && name in s.origin && s.files[name] == s.origin[name]
  }

  ghost predicate Partial(s: State, c: Call) {
    && TempName(c) in s.files && s.files[TempName(c)] <= c.payload
    && TempName(c) in s.origin && s.origin[TempName(c)] == c.payload
  }

  ghost predicate CallOk(s: State, c: Call) {
    && '.' !in c.key
    && (forall e :: e in s.lru ==> e.key != c.key)
    && (HoldsTemp(c) ==> Partial(s, c))
    && (HoldsTemp(c) && !c.phase.Writing? ==> s.files[TempName(c)] == c.payload)
    && (c.phase.Statted? ==> c.phase.size == |c.payload|)
    && (c.phase.Renamed? ==>
          Complete(s, FinalName(c)) && |s.files[FinalName(c)]| == c.phase.size && s.origin[FinalName(c)] == c.payload)
  }

  ghost predicate CallsOk(s: State) {
    && (forall i :: i in s.calls ==> CallOk(s, s.calls[i]))
    && (forall i, j :: i in s.calls && j in s.calls && i != j ==> s.calls[i].key != s.calls[j].key)
  }

  /** Whose file is it: an entry's, a call's temp file, or a renamed file waiting for its lock. */
  ghost predicate Owned(s: State, name: string) {
    || (exists e :: e in s.lru && e.filename == name)
    || (exists i :: i in s.calls && HoldsTemp(s.calls[i]) && TempName(s.calls[i]) == name)
    || (exists i :: i in s.calls && s.calls[i].phase.Renamed? && FinalName(s.calls[i]) == name)
  }

  /** The stored extension says the mime type of the entry, as far as extensions can. */
  ghost predicate Named(e: Entry) {
    ExtFromMime(e.mime) == Ext(e.filename) || MimeFromExt(Ext(e.filename)) == e.mime
  }

  ghost predicate Inv(s: State, maxBytes: int) {
    && Reachable(s.lru, maxBytes)
    && OnDisk(s.lru, s.files)
    && (forall e :: e in s.lru ==> Complete(s, e.filename) && Named(e))
    && CallsOk(s)
    && (forall n :: n in s.files ==> Owned(s, n))
  }

  // ----- names

  lemma Names(c: Call)
    requires '.' !in c.key
    ensures Stem(FinalName(c)) == c.key && Ext(FinalName(c)) == ExtFromMime(c.mime)
    ensures !IsTemp(FinalName(c)) && IsTemp(TempName(c))
  {
    StemOfOwnName(c.key, ExtFromMime(c.mime));
    TempNames(FinalName(c));
  }

  lemma NamesApart(c: Call, d: Call)
    requires '.' !in c.key && '.' !in d.key && c.key != d.key
    ensures FinalName(c) != FinalName(d) && TempName(c) != TempName(d)
  {
    hide IsTemp, Ext, Stem, ExtFromMime;
    Names(c);
    Names(d);
    assert TempName(c)[..|TempName(c)| - 4] == FinalName(c);
    assert TempName(d)[..|TempName(d)| - 4] == FinalName(d);
  }

  // ----- what one step leaves alone

  ghost predicate SameAt(s: State, t: State, name: string) {
    && (name in s.files <==> name in t.files) && (name in s.files ==> s.files[name] == t.files[name])
    && (name in s.origin <==> name in t.origin) && (name in s.origin ==> s.origin[name] == t.origin[name])
  }

  lemma CallFrame(s: State, t: State, c: Call)
    requires CallOk(s, c) && forall e :: e in t.lru ==> e.key != c.key
    requires HoldsTemp(c) ==> SameAt(s, t, TempName(c))
    requires c.phase.Renamed? ==> SameAt(s, t, FinalName(c))
    ensures CallOk(t, c)
  {
  }

  /** Only files of call `id` change: the entries and the other calls do not notice. */
  ghost predicate OnlyTouches(s: State, t: State, id: nat) {
    && id in s.calls && t.lru == s.lru && t.calls.Keys <= s.calls.Keys
    && (forall i :: i in t.calls && i != id ==> t.calls[i] == s.calls[i])
    && (id in t.calls ==> t.calls[id].key == s.calls[id].key && t.calls[id].mime == s.calls[id].mime)
    && (forall n :: n != TempName(s.calls[id]) && n != FinalName(s.calls[id]) ==> SameAt(s, t, n))
    && (forall n :: n in t.calls.Keys <==> n in s.calls.Keys && (n == id ==> id in t.calls))
  }

  lemma TouchKeepsOthers(s: State, t: State, id: nat, maxBytes: int)
    requires Inv(s, maxBytes) && OnlyTouches(s, t, id)
    ensures OnDisk(t.lru, t.files)
    ensures forall e :: e in t.lru ==> Complete(t, e.filename) && Named(e)
    ensures forall i :: i in t.calls && i != id ==> CallOk(t, t.calls[i])
    ensures forall i, j :: i in t.calls && j in t.calls && i != j ==> t.calls[i].key != t.calls[j].key
  {
    hide TempName, FinalName, IsTemp, Stem, Named;
    var c := s.calls[id];
    Names(c);
    forall e | e in s.lru ensures Complete(t, e.filename) && Backed(e, t.files) {
      assert Backed(e, s.files) && Complete(s, e.filename);
      assert e.filename != TempName(c) && e.filename != FinalName(c);
      assert SameAt(s, t, e.filename);
    }
    forall i | i in t.calls && i != id ensures CallOk(t, t.calls[i]) {
      var d := s.calls[i];
      NamesApart(c, d);
      Names(d);
      assert SameAt(s, t, TempName(d)) && SameAt(s, t, FinalName(d));
      CallFrame(s, t, d);
    }
  }

  lemma TouchKeepsOwners(s: State, t: State, id: nat, n: string)
    requires OnlyTouches(s, t, id) && Owned(s, n)
    requires n != TempName(s.calls[id]) && n != FinalName(s.calls[id])
    ensures Owned(t, n)
  {
    hide TempName, FinalName;
    if i :| i in s.calls && HoldsTemp(s.calls[i]) && TempName(s.calls[i]) == n {
      assert i in t.calls && t.calls[i] == s.calls[i];
    } else if i :| i in s.calls && s.calls[i].phase.Renamed? && FinalName(s.calls[i]) == n {
      assert i in t.calls && t.calls[i] == s.calls[i];
    }
  }

  /** Every step of a call on its own files keeps the invariant, given what it does to those files. */
  lemma CallStep(s: State, t: State, id: nat, maxBytes: int)
    requires Inv(s, maxBytes) && OnlyTouches(s, t, id)
    requires id in t.calls ==> CallOk(t, t.calls[id])
    requires TempName(s.calls[id]) in t.files ==> id in t.calls && HoldsTemp(t.calls[id])
    requires FinalName(s.calls[id]) in t.files ==> id in t.calls && t.calls[id].phase.Renamed?
    ensures Inv(t, maxBytes)
  {
    TouchKeepsOthers(s, t, id, maxBytes);
    var c := s.calls[id];
    forall n | n in t.files ensures Owned(t, n) {
      if n == TempName(c) {
        assert TempName(t.calls[id]) == n;
      } else if n == FinalName(c) {
        assert FinalName(t.calls[id]) == n;
      } else {
        assert SameAt(s, t, n);
        TouchKeepsOwners(s, t, id, n);
      }
    }
  }

  /** A call whose file is not renamed yet has no final file, and before it opens no temp file. */
  lemma OwnFiles(s: State, id: nat, maxBytes: int)
    requires Inv(s, maxBytes) && id in s.calls
    ensures FinalName(s.calls[id]) in s.files ==> s.calls[id].phase.Renamed?
    ensures TempName(s.calls[id]) in s.files ==> HoldsTemp(s.calls[id])
  {
    hide TempName, FinalName, IsTemp, Stem, Ext;
    var c := s.calls[id];
    Names(c);
    forall i | i in s.calls ensures i == id || (TempName(s.calls[i]) != TempName(c) && FinalName(s.calls[i]) != FinalName(c)) {
      if i != id { NamesApart(s.calls[i], c); }
    }
    forall i | i in s.calls ensures TempName(s.calls[i]) != FinalName(c) && FinalName(s.calls[i]) != TempName(c) {
      Names(s.calls[i]);
    }
    forall e | e in s.lru ensures e.filename != FinalName(c) && e.filename != TempName(c) {
      assert Backed(e, s.files);
    }
    if FinalName(c) in s.files { assert Owned(s, FinalName(c)); }
    if TempName(c) in s.files { assert Owned(s, TempName(c)); }
  }

  // ----- the steps

  lemma CallFacts(s: State, id: nat, maxBytes: int)
    requires Inv(s, maxBytes) && id in s.calls
    ensures CallOk(s, s.calls[id]) && TempName(s.calls[id]) != FinalName(s.calls[id])
  {
    hide Owned, OnDisk, Reachable, Named;
    Names(s.calls[id]);
  }

  lemma OpenInv(s: State, t: State, id: nat, maxBytes: int)
    requires Inv(s, maxBytes) && id in s.calls && s.calls[id].phase.Missed?
    requires var c := s.calls[id];
             t == Advance(s, id, Writing).(files := s.files[TempName(c) := []], origin := s.origin[TempName(c) := c.payload])
    ensures Inv(t, maxBytes)
  {
    hide Inv, IsTemp, Ext, Stem, OnDisk, Reachable, Named, FinalName, TempName, Owned, CallsOk;
    OwnFiles(s, id, maxBytes);
    CallFacts(s, id, maxBytes);
    SameNames(s.calls[id], Writing);
    CallStep(s, t, id, maxBytes);
  }

  lemma SameNames(c: Call, phase: Phase)
    ensures TempName(c.(phase := phase)) == TempName(c) && FinalName(c.(phase := phase)) == FinalName(c)
  {
  }

  lemma WriteInv(s: State, t: State, id: nat, upTo: nat, maxBytes: int)
    requires Inv(s, maxBytes) && id in s.calls && s.calls[id].phase.Writing? && upTo <= |s.calls[id].payload|
    requires t == s.(files := s.files[TempName(s.calls[id]) := s.calls[id].payload[..upTo]])
    ensures Inv(t, maxBytes)
  {
    hide Inv, IsTemp, Ext, Stem, OnDisk, Reachable, Named, FinalName, TempName, Owned, CallsOk;
    OwnFiles(s, id, maxBytes);
    CallFacts(s, id, maxBytes);
    CallStep(s, t, id, maxBytes);
  }

  /** Steps that only observe the temp file: the end of the download, the close, the stat. */
  lemma ObserveInv(s: State, t: State, id: nat, phase: Phase, maxBytes: int)
    requires Inv(s, maxBytes) && id in s.calls && HoldsTemp(s.calls[id]) && t == Advance(s, id, phase)
    requires s.calls[id].phase.Writing? ==> |s.files[TempName(s.calls[id])]| == |s.calls[id].payload|
    requires phase in {Written, Closed, Statted(|s.files[TempName(s.calls[id])]|)}
    ensures Inv(t, maxBytes)
  {
    hide Inv, IsTemp, Ext, Stem, OnDisk, Reachable, Named, FinalName, TempName, Owned, CallsOk;
    OwnFiles(s, id, maxBytes);
    CallFacts(s, id, maxBytes);
    SameNames(s.calls[id], phase);
    CallStep(s, t, id, maxBytes);
  }

  lemma RenameInv(s: State, t: State, id: nat, maxBytes: int)
    requires Inv(s, maxBytes) && id in s.calls && s.calls[id].phase.Statted?
    requires TempName(s.calls[id]) in s.files && TempName(s.calls[id]) in s.origin
    requires var c := s.calls[id];
             t == Advance(s, id, Renamed(c.phase.size)).(
               files := (s.files - {TempName(c)})[FinalName(c) := s.files[TempName(c)]],
               origin := s.origin[FinalName(c) := s.origin[TempName(c)]])
    ensures Inv(t, maxBytes)
  {
    hide Inv, IsTemp, Ext, Stem, OnDisk, Reachable, Named, FinalName, TempName, Owned, CallsOk;
    OwnFiles(s, id, maxBytes);
    CallFacts(s, id, maxBytes);
    SameNames(s.calls[id], t.calls[id].phase);
    CallStep(s, t, id, maxBytes);
  }

  lemma FailInv(s: State, t: State, id: nat, maxBytes: int)
    requires Inv(s, maxBytes) && id in s.calls && !s.calls[id].phase.Renamed?
    requires var c := s.calls[id];
             t == s.(calls := s.calls - {id}, files := if HoldsTemp(c) then s.files - {TempName(c)} else s.files)
    ensures Inv(t, maxBytes)
  {
    hide Inv, IsTemp, Ext, Stem, OnDisk, Reachable, Named, FinalName, TempName, Owned, CallsOk;
    OwnFiles(s, id, maxBytes);
    CallStep(s, t, id, maxBytes);
  }

  lemma HitInv(s: State, key: string, maxBytes: int)
    requires Inv(s, maxBytes) && HasKey(s.lru, key)
    ensures Inv(s.(lru := Touch(s.lru, key)), maxBytes)
  {
    hide Total, Without, IndexOf, FinalName, TempName, Named, Touch, HasKey, OnDisk, Reachable, Owned;
    var t := s.(lru := Touch(s.lru, key));
    TouchMembers(s.lru, key);
    TouchOnDisk(s.lru, key, s.files, maxBytes);
    forall i | i in t.calls ensures CallOk(t, t.calls[i]) {
      CallFrame(s, t, s.calls[i]);
    }
    forall e | e in t.lru ensures Complete(t, e.filename) && Named(e) {
      assert Complete(s, e.filename);
    }
    forall n | n in t.files ensures Owned(t, n) {
      OwnedWithSame(s, t, n);
    }
  }

  lemma TouchOnDisk(es: seq<Entry>, key: string, files: Files, maxBytes: int)
    requires HasKey(es, key) && OnDisk(es, files) && Reachable(es, maxBytes)
    ensures OnDisk(Touch(es, key), files) && Reachable(Touch(es, key), maxBytes)
  {
    hide Total, OnDisk, Without;
    AccessKeepsInvariant(es, es[IndexOf(es, key)], maxBytes);
    TouchMembers(es, key);
    OnDiskSublist(es, Touch(es, key), files);
  }

  lemma OwnedWithSame(s: State, t: State, n: string)
    requires Owned(s, n) && t.calls == s.calls && forall e :: e in s.lru ==> e in t.lru
    ensures Owned(t, n)
  {
  }

  lemma TouchMembers(es: seq<Entry>, key: string)
    ensures forall e :: e in Touch(es, key) <==> e in es
  {
    TouchReorders(es, key);
    forall e ensures e in Touch(es, key) <==> e in es {
      assert e in multiset(Touch(es, key)) <==> e in multiset(es);
    }
  }

  lemma MissInv(s: State, t: State, id: nat, c: Call, maxBytes: int)
    requires Inv(s, maxBytes) && id !in s.calls && t == s.(calls := s.calls[id := c])
    requires c.phase.Missed? && '.' !in c.key && !HasKey(s.lru, c.key)
    requires forall i :: i in s.calls ==> s.calls[i].key != c.key
    ensures Inv(t, maxBytes)
  {
    hide OnDisk, Reachable, Named, FinalName, TempName, Owned;
    forall e | e in s.lru ensures e.key != c.key {
      var i :| 0 <= i < |s.lru| && s.lru[i] == e;
    }
    forall i | i in t.calls ensures CallOk(t, t.calls[i]) {
      if i != id { CallFrame(s, t, s.calls[i]); }
    }
    forall n | n in t.files ensures Owned(t, n) {
      OwnedWithMore(s, t, n);
    }
  }

  lemma OwnedWithMore(s: State, t: State, n: string)
    requires Owned(s, n) && t.lru == s.lru && forall i :: i in s.calls ==> i in t.calls && t.calls[i] == s.calls[i]
    ensures Owned(t, n)
  {
    if i :| i in s.calls && HoldsTemp(s.calls[i]) && TempName(s.calls[i]) == n {
      assert i in t.calls;
    } else if i :| i in s.calls && s.calls[i].phase.Renamed? && FinalName(s.calls[i]) == n {
      assert i in t.calls;
    }
  }

  /** Eviction removes the files of exactly the entries it drops. */
  lemma EvictionOnDisk(full: seq<Entry>, files: Files, maxBytes: int, floor: nat)
    requires OnDisk(full, files)
    ensures var kept := EvictDown(full, maxBytes, floor);
            var gone := FileNames(Evicted(full, maxBytes, floor));
            && OnDisk(kept, files - gone)
            && (forall e :: e in kept ==> e in full && e.filename !in gone)
            && (forall e :: e in full && e.filename !in gone ==> e in kept)
  {
    EvictDownIsLongestFit(full, maxBytes, floor);
    var n := |EvictDown(full, maxBytes, floor)|;
    hide EvictDown, Total;
    SplitOnDisk(full, n, files);
  }

  lemma SplitOnDisk(full: seq<Entry>, n: nat, files: Files)
    requires OnDisk(full, files) && n <= |full|
    ensures OnDisk(full[..n], files - FileNames(full[n..]))
    ensures forall e :: e in full[..n] ==> e in full && e.filename !in FileNames(full[n..])
    ensures forall e :: e in full && e.filename !in FileNames(full[n..]) ==> e in full[..n]
  {
    var gone := FileNames(full[n..]);
    assert full == full[..n] + full[n..];
    forall e | e in full[..n] ensures e.filename !in gone && Backed(e, files - gone) {
      var i :| 0 <= i < n && full[i] == e;
      assert Backed(e, files);
      assert forall j :: 0 <= j < |full| - n ==> full[n..][j] == full[n + j];
    }
  }

  lemma CommitInv(s: State, t: State, id: nat, maxBytes: int)
    requires Inv(s, maxBytes) && id in s.calls && s.calls[id].phase.Renamed?
    requires var full := [CommittedEntry(s.calls[id])] + s.lru;
             t == State(s.files - FileNames(Evicted(full, maxBytes, 1)), EvictDown(full, maxBytes, 1), s.calls - {id}, s.origin)
    ensures Inv(t, maxBytes)
  {
    hide EvictDown, Evicted, OnDisk, FinalName, TempName, Reachable, Named, ExtFromMime, IsTemp, Ext, Stem;
    hide Total, Without, Owned, CallOk;
    var c, e := s.calls[id], CommittedEntry(s.calls[id]);
    CommittedOnDisk(s, id, maxBytes);
    var full := [e] + s.lru;
    assert Reachable(Insert(s.lru, e, maxBytes), maxBytes) by { ReachableInsert(s.lru, e, maxBytes); }
    EvictionOnDisk(full, s.files, maxBytes, 1);
    var gone := FileNames(Evicted(full, maxBytes, 1));
    assert gone <= FileNames(full) by { EvictedFiles(full, maxBytes); }
    hide FileNames;
    forall x | x in t.lru ensures Complete(t, x.filename) && Named(x) {
      assert x in full && Complete(s, x.filename);
    }
    forall i | i in t.calls ensures CallOk(t, t.calls[i]) {
      CommitKeepsCall(s, t, id, i, gone);
    }
    forall n | n in t.files ensures Owned(t, n) {
      CommitKeepsOwner(s, t, id, n);
    }
  }

  lemma EvictedFiles(full: seq<Entry>, maxBytes: int)
    ensures FileNames(Evicted(full, maxBytes, 1)) <= FileNames(full)
  {
  }

  lemma CommittedOnDisk(s: State, id: nat, maxBytes: int)
    requires Inv(s, maxBytes) && id in s.calls && s.calls[id].phase.Renamed?
    ensures var e := CommittedEntry(s.calls[id]);
            && Without(s.lru, e.key) == s.lru
            && OnDisk([e] + s.lru, s.files)
            && Complete(s, e.filename) && Named(e)
  {
    hide FinalName, TempName, Ext, Stem, IsTemp, Total, ExtFromMime, Reachable, Owned;
    var c, e := s.calls[id], CommittedEntry(s.calls[id]);
    Names(c);
    assert CallOk(s, c);
    assert !HasKey(s.lru, c.key);
    assert Backed(e, s.files);
    OnDiskPushed(s.lru, s.files, e);
  }

  lemma CommitKeepsCall(s: State, t: State, id: nat, i: nat, gone: set<string>)
    requires CallsOk(s) && OnDisk(s.lru, s.files) && id in s.calls && s.calls[id].phase.Renamed?
    requires i in s.calls && i != id
    requires gone <= FileNames([CommittedEntry(s.calls[id])] + s.lru)
    requires t.files == s.files - gone && t.origin == s.origin
    requires forall e :: e in t.lru ==> e == CommittedEntry(s.calls[id]) || e in s.lru
    ensures CallOk(t, s.calls[i])
  {
    hide FinalName, TempName, Ext, Stem, IsTemp;
    var c, d := s.calls[id], s.calls[i];
    assert CallOk(s, c) && CallOk(s, d);
    Names(d);
    Names(c);
    NamesApart(c, d);
    forall e | e in [CommittedEntry(c)] + s.lru ensures e.filename != TempName(d) && e.filename != FinalName(d) {
      if e in s.lru { assert Backed(e, s.files); }
    }
    assert TempName(d) !in gone && FinalName(d) !in gone;
    CallFrame(s, t, d);
  }

  lemma CommitKeepsOwner(s: State, t: State, id: nat, n: string)
    requires id in s.calls && s.calls[id].phase.Renamed? && t.calls == s.calls - {id}
    requires Owned(s, n)
    requires forall e :: e in [CommittedEntry(s.calls[id])] + s.lru && e.filename == n ==> e in t.lru
    ensures Owned(t, n)
  {
    hide FinalName, TempName;
    if e :| e in s.lru && e.filename == n {
      assert e in [CommittedEntry(s.calls[id])] + s.lru;
    } else if i :| i in s.calls && HoldsTemp(s.calls[i]) && TempName(s.calls[i]) == n {
      assert i in t.calls && t.calls[i] == s.calls[i];
    } else {
      var i :| i in s.calls && s.calls[i].phase.Renamed? && FinalName(s.calls[i]) == n;
      if i == id {
        assert CommittedEntry(s.calls[id]) in [CommittedEntry(s.calls[id])] + s.lru;
      } else {
        assert i in t.calls && t.calls[i] == s.calls[i];
      }
    }
  }

  function CommittedEntry(c: Call): Entry
    requires c.phase.Renamed?
  {
    Entry(c.key, FinalName(c), c.phase.size, c.mime)
  }

  // ----- crash and restart

  /** In a consistent state two different final files never share a stem. */
  lemma FinalFilesApart(s: State, m: string, n: string, maxBytes: int)
    requires Inv(s, maxBytes) && m in s.files && n in s.files && !IsTemp(m) && !IsTemp(n) && m != n
    ensures Stem(m) != Stem(n)
  {
    hide IsTemp, Ext, Stem, FinalName, TempName, Named, OnDisk, Owned;
    var a := FinalOwner(s, m, maxBytes);
    var b := FinalOwner(s, n, maxBytes);
    assert a.ByCall? ==> CallOk(s, s.calls[a.id]);
    assert b.ByCall? ==> CallOk(s, s.calls[b.id]);
  }

  datatype Owner = ByEntry(entry: Entry) | ByCall(id: nat)

  ghost predicate OwnerOf(s: State, n: string, o: Owner) {
    match o
    case ByEntry(e) => e in s.lru && e.filename == n && e.key == Stem(n)
    case ByCall(i) => i in s.calls && s.calls[i].phase.Renamed? && FinalName(s.calls[i]) == n && s.calls[i].key == Stem(n)
  }

  /** A final file belongs to an entry or to a call about to commit, and its stem is the key of the owner. */
  lemma FinalOwner(s: State, n: string, maxBytes: int) returns (o: Owner)
    requires Inv(s, maxBytes) && n in s.files && !IsTemp(n)
    ensures OwnerOf(s, n, o)
  {
    hide IsTemp, Ext, Stem, FinalName, TempName, Reachable, Named;
    assert Owned(s, n);
    if e :| e in s.lru && e.filename == n {
      assert Backed(e, s.files);
      o := ByEntry(e);
    } else if i :| i in s.calls && HoldsTemp(s.calls[i]) && TempName(s.calls[i]) == n {
      assert CallOk(s, s.calls[i]);
      Names(s.calls[i]);
      assert false;
    } else {
      var i :| i in s.calls && s.calls[i].phase.Renamed? && FinalName(s.calls[i]) == n;
      assert CallOk(s, s.calls[i]);
      Names(s.calls[i]);
      o := ByCall(i);
    }
  }

  /** What is left of the directory when the process died between removals: some of its files, unchanged. */
  ghost predicate Remains(files: Files, before: Files) {
    forall n :: n in files ==> n in before && files[n] == before[n]
  }

  lemma AdoptedApart(s: State, files: Files, listing: seq<DirEntry>, maxBytes: int)
    requires Inv(s, maxBytes) && Remains(files, s.files) && Covers(listing, files)
    ensures DistinctKeys(Adopted(listing, files))
  {
    hide IsTemp, Ext, Stem, Inv;
    var all := Adopted(listing, files);
    AdoptedOnDisk(listing, files);
    forall i, j | 0 <= i < j < |all| ensures all[i].key != all[j].key {
      assert Backed(all[i], files) && Backed(all[j], files);
      FinalFilesApart(s, all[i].filename, all[j].filename, maxBytes);
    }
  }

  /** Every final file is adopted, and nothing else is. */
  lemma {:induction false} AdoptsAll(listing: seq<DirEntry>, files: Files, n: string)
    requires forall i :: 0 <= i < |listing| ==> !listing[i].isDir && listing[i].name in files
    ensures DirEntry(n, false, true) in listing && !IsTemp(n) ==> AdoptedEntry(n, files[n]) in Adopted(listing, files)
  {
    hide IsTemp, Stem, Ext;
    if listing != [] {
      AdoptsAll(listing[..|listing| - 1], files, n);
      assert listing == listing[..|listing| - 1] + [listing[|listing| - 1]];
    }
  }

  /**
   Crash recovery: whatever the moment of the crash, whichever files had been removed by then, and whatever
   the budget of the next start, restarting leaves no temp file, adopts only complete downloads and gives back
   a consistent state.
   */
  lemma RestartInv(s: State, files: Files, t: State, listing: seq<DirEntry>, maxBytes: int, budget: int)
    requires Inv(s, maxBytes) && Remains(files, s.files) && Covers(listing, files)
    requires t == Recovered(files, listing, budget, s.origin)
    ensures Inv(t, budget)
    ensures forall n :: n in t.files ==> !IsTemp(n) && Complete(t, n) && exists e :: e in t.lru && e.filename == n
  {
    hide Inv, Covers, Remains, IsTemp, Stem, Ext, OnDisk, Reachable, Complete, Named;
    forall n | n in t.files ensures !IsTemp(n) && Complete(t, n) && exists e :: e in t.lru && e.filename == n {
      RestartKeeps(s, files, t, listing, n, maxBytes, budget);
    }
    RestartOnDisk(s, files, t, listing, maxBytes, budget);
    forall e | e in t.lru ensures Complete(t, e.filename) && Named(e) {
      BackedByList(t.lru, t.files, e);
    }
    hide Recovered;
    RestartedInv(t, budget);
  }

  lemma RestartedInv(t: State, maxBytes: int)
    requires t.calls == map[] && Reachable(t.lru, maxBytes) && OnDisk(t.lru, t.files)
    requires forall e :: e in t.lru ==> Complete(t, e.filename) && Named(e)
    requires forall n :: n in t.files ==> exists e :: e in t.lru && e.filename == n
    ensures Inv(t, maxBytes)
  {
    hide Reachable, OnDisk, Complete, Named;
  }

  lemma RestartOnDisk(s: State, files: Files, t: State, listing: seq<DirEntry>, maxBytes: int, budget: int)
    requires Inv(s, maxBytes) && Remains(files, s.files) && Covers(listing, files)
    requires t == Recovered(files, listing, budget, s.origin)
    ensures OnDisk(t.lru, t.files) && Reachable(t.lru, budget)
    ensures forall e :: e in t.lru ==> e in Adopted(listing, files) && Named(e)
  {
    hide Inv, Remains, OnDisk, Reachable, IsTemp, Stem, Ext;
    var all := Adopted(listing, files);
    AdoptedApart(s, files, listing, maxBytes);
    AdoptedOnDisk(listing, files);
    OnDiskWithout(all, files, StaleNames(listing));
    EvictionOnDisk(all, files - StaleNames(listing), budget, 0);
    ReachableAtStart(all, budget);
    forall e | e in t.lru ensures Named(e) { AdoptedIsNamed(listing, files, e); }
  }

  /** The stems are distinct at every restart, so the map that newMediaCache builds is exact. */
  lemma RestartStemsUnique(s: State, files: Files, listing: seq<DirEntry>, kept: nat, maxBytes: int)
    requires Inv(s, maxBytes) && Remains(files, s.files) && Covers(listing, files)
    ensures KeptStemsUnique(Adopted(listing, files), kept)
  {
    hide Inv;
    AdoptedApart(s, files, listing, maxBytes);
  }

  lemma BackedByList(es: seq<Entry>, files: Files, e: Entry)
    requires OnDisk(es, files) && e in es
    ensures Backed(e, files)
  {
  }

  lemma AdoptedIsNamed(listing: seq<DirEntry>, files: Files, e: Entry)
    requires Lists(listing, files) && e in Adopted(listing, files)
    ensures Named(e) && e.mime == MimeFromExt(Ext(e.filename))
  {
    hide IsTemp, Stem, Ext;
  }

  lemma ReachableAtStart(all: seq<Entry>, maxBytes: int)
    requires DistinctKeys(all)
    ensures Reachable(EvictDown(all, maxBytes, 0), maxBytes)
  {
    EvictDownIsLongestFit(all, maxBytes, 0);
    hide EvictDown;
    var kept := EvictDown(all, maxBytes, 0);
    forall i, j | 0 <= i < j < |kept| ensures kept[i].key != kept[j].key {
      assert kept[i] == all[i] && kept[j] == all[j];
    }
  }

  /** A file that survives the restart is final, complete and listed. */
  lemma RestartKeeps(s: State, files: Files, t: State, listing: seq<DirEntry>, n: string, maxBytes: int, budget: int)
    requires Inv(s, maxBytes) && Remains(files, s.files) && Covers(listing, files) && n in t.files
    requires t == Recovered(files, listing, budget, s.origin)
    ensures !IsTemp(n) && Complete(t, n) && n in files && AdoptedEntry(n, files[n]) in t.lru
  {
    hide IsTemp, Stem, Ext, EvictDown, Evicted, Reachable, FinalName, TempName, Named, Owned, OnDisk, Inv, Complete;
    var all := Adopted(listing, files);
    assert DirEntry(n, false, true) in listing;
    assert !IsTemp(n);
    FinalComplete(s, n, maxBytes);
    assert Complete(t, n) by { CompleteThere(s, t, n); }
    AdoptsAll(listing, files, n);
    AdoptedOnDisk(listing, files);
    EvictionOnDisk(all, files, budget, 0);
  }

  lemma CompleteThere(s: State, t: State, n: string)
    requires Complete(s, n) && SameAt(s, t, n)
    ensures Complete(t, n)
  {
  }

  lemma FinalComplete(s: State, n: string, maxBytes: int)
    requires Inv(s, maxBytes) && n in s.files && !IsTemp(n)
    ensures Complete(s, n)
  {
    hide IsTemp, Ext, Stem, FinalName, TempName, Reachable, Named, OnDisk;
    assert Owned(s, n);
    if i :| i in s.calls && HoldsTemp(s.calls[i]) && TempName(s.calls[i]) == n {
      assert CallOk(s, s.calls[i]);
      Names(s.calls[i]);
    } else if i :| i in s.calls && s.calls[i].phase.Renamed? && FinalName(s.calls[i]) == n {
      assert CallOk(s, s.calls[i]);
    }
  }

  // ----- whole runs

  /** The service starts on a directory whose files have distinct stems; what lies there counts as complete. */
  ghost predicate Start(s: State, files: Files, listing: seq<DirEntry>, maxBytes: int) {
    && Covers(listing, files)
    && DistinctKeys(Adopted(listing, files))
    && s == Recovered(files, listing, maxBytes, files)
  }

  lemma StartInv(s: State, files: Files, listing: seq<DirEntry>, maxBytes: int)
    requires Start(s, files, listing, maxBytes)
    ensures Inv(s, maxBytes)
  {
    hide IsTemp, Stem, Ext, Reachable, Named, EvictDown, Evicted, Stale;
    var all := Adopted(listing, files);
    AdoptedOnDisk(listing, files);
    OnDiskWithout(all, files, StaleNames(listing));
    EvictionOnDisk(all, files - StaleNames(listing), maxBytes, 0);
    ReachableAtStart(all, maxBytes);
    forall n | n in s.files ensures exists e :: e in s.lru && e.filename == n {
      assert DirEntry(n, false, true) in listing;
      StaleFile(listing, n);
      AdoptsAll(listing, files, n);
    }
    forall e | e in s.lru ensures Complete(s, e.filename) && Named(e) {
      AdoptedIsNamed(listing, files, e);
      BackedByList(s.lru, s.files, e);
    }
    hide OnDisk, Complete;
    RestartedInv(s, maxBytes);
  }

  lemma StaleFile(listing: seq<DirEntry>, n: string)
    requires DirEntry(n, false, true) in listing
    ensures IsTemp(n) ==> n in StaleNames(listing)
  {
  }

  /** Every step of every interleaving keeps the invariant. */
  lemma StepInv(s: State, step: Step, maxBytes: int)
    requires Inv(s, maxBytes) && Enabled(s, step)
    ensures Inv(Apply(s, step, maxBytes), maxBytes)
  {
    hide Inv, TempName, FinalName, Advance, Covers, Recovered;
    var t := Apply(s, step, maxBytes);
    match step
    case Hit(key) => HitInv(s, key, maxBytes);
    case Miss(id, key, mime, payload) => MissInv(s, t, id, Call(key, mime, payload, Missed), maxBytes);
    case Open(id) => OpenInv(s, t, id, maxBytes);
    case Write(id, upTo) => WriteInv(s, t, id, upTo, maxBytes);
    case FinishDownload(id) => ObserveInv(s, t, id, Written, maxBytes);
    case Close(id) => ObserveInv(s, t, id, Closed, maxBytes);
    case Stat(id) => ObserveInv(s, t, id, Statted(|s.files[TempName(s.calls[id])]|), maxBytes);
    case Rename(id) => RenameInv(s, t, id, maxBytes);
    case Commit(id) => CommittedOnDisk(s, id, maxBytes); CommitInv(s, t, id, maxBytes);
    case Fail(id) => FailInv(s, t, id, maxBytes);
    case Restart(listing) => RestartInv(s, s.files, t, listing, maxBytes, maxBytes);
  }

  /** A run: each state follows from the one before by its step. */
  ghost predicate IsRun(states: seq<State>, steps: seq<Step>, maxBytes: int) {
    && |states| == |steps| + 1
    && forall i :: 0 <= i < |steps| ==> Enabled(states[i], steps[i]) && states[i + 1] == Apply(states[i], steps[i], maxBytes)
  }

  lemma {:induction false} RunInv(states: seq<State>, steps: seq<Step>, maxBytes: int, n: nat)
    requires IsRun(states, steps, maxBytes) && Inv(states[0], maxBytes) && n < |states|
    ensures Inv(states[n], maxBytes)
  {
    hide Inv, Enabled, Apply;
    if n > 0 {
      RunInv(states, steps, maxBytes, n - 1);
      StepInv(states[n - 1], steps[n - 1], maxBytes);
    }
  }

  /**
   Each entry has its own complete file of the recorded size, and each final file without an entry belongs to
   exactly one call, which has renamed it and not yet committed.
   */
  ghost predicate DiskAgrees(s: State, maxBytes: int) {
    && Reachable(s.lru, maxBytes)
    && (forall e :: e in s.lru ==> Complete(s, e.filename) && |s.files[e.filename]| == e.size)
    && (forall name :: name in s.files && !IsTemp(name) && (forall e :: e in s.lru ==> e.filename != name) ==>
          exists i :: && i in s.calls && s.calls[i].phase.Renamed? && FinalName(s.calls[i]) == name
                      && s.files[name] == s.calls[i].payload
                      && forall j :: j in s.calls && FinalName(s.calls[j]) == name ==> j == i)
  }

  lemma InvAgrees(s: State, maxBytes: int)
    requires Inv(s, maxBytes)
    ensures DiskAgrees(s, maxBytes)
  {
    hide IsTemp, FinalName, TempName, Reachable, Ext, Stem;
    forall e | e in s.lru ensures |s.files[e.filename]| == e.size {
      assert Backed(e, s.files);
    }
    forall name | name in s.files && !IsTemp(name) && (forall e :: e in s.lru ==> e.filename != name)
      ensures exists i :: && i in s.calls && s.calls[i].phase.Renamed? && FinalName(s.calls[i]) == name
                          && s.files[name] == s.calls[i].payload
                          && forall j :: j in s.calls && FinalName(s.calls[j]) == name ==> j == i
    {
      var o := FinalOwner(s, name, maxBytes);
      var i := o.id;
      assert CallOk(s, s.calls[i]);
      forall j | j in s.calls && j != i ensures FinalName(s.calls[j]) != name {
        assert CallOk(s, s.calls[j]);
        NamesApart(s.calls[i], s.calls[j]);
      }
    }
  }

  /**
   Restarting after any run, wherever it stopped: `files` is what is left when the process died between two
   removals of an eviction loop or of the start-up scan, and `budget` is the limit of the next start. No temp
   file is left, every file is a listed, complete download, and the start-up map is exact.
   */
  lemma CrashRecovery(states: seq<State>, steps: seq<Step>, first: Files, listed: seq<DirEntry>, maxBytes: int,
                      files: Files, listing: seq<DirEntry>, budget: int)
    requires IsRun(states, steps, maxBytes) && Start(states[0], first, listed, maxBytes)
    requires Remains(files, states[|steps|].files) && Covers(listing, files)
    ensures var t := Recovered(files, listing, budget, states[|steps|].origin);
            && t.calls == map[] && Reachable(t.lru, budget) && OnDisk(t.lru, t.files)
            && (forall n :: n in t.files ==> !IsTemp(n) && Complete(t, n) && exists e :: e in t.lru && e.filename == n)
            && (forall e :: e in t.lru ==> Complete(t, e.filename))
            && KeptStemsUnique(Adopted(listing, files), |t.lru|)
            && Inv(t, budget)
  {
    var s := states[|steps|];
    var t := Recovered(files, listing, budget, s.origin);
    StartInv(states[0], first, listed, maxBytes);
    RunInv(states, steps, maxBytes, |steps|);
    hide IsRun, Start, IsTemp, Inv, Covers, Remains;
    RestartInv(s, files, t, listing, maxBytes, budget);
    RestartOnDisk(s, files, t, listing, maxBytes, budget);
    RestartStemsUnique(s, files, listing, |t.lru|, maxBytes);
    InvComplete(t, budget);
  }

  /** One life of the process: a run under one budget. */
  datatype Life = Life(states: seq<State>, steps: seq<Step>, maxBytes: int)

  ghost predicate Lives(l: Life) { IsRun(l.states, l.steps, l.maxBytes) }

  /** The next life opens what is left of the directory of the last one, under its own budget. */
  ghost predicate Follows(l: Life, next: Life) {
    l.states != [] && next.states != []
    && var s := l.states[|l.states| - 1];
       exists files, listing ::
         Remains(files, s.files) && Covers(listing, files) && next.states[0] == Recovered(files, listing, next.maxBytes, s.origin)
  }

  /** Any sequence of lives from a directory with distinct stems, whatever the crashes and changes of the budget. */
  ghost predicate History(lives: seq<Life>, files: Files, listing: seq<DirEntry>) {
    && (forall k :: 0 <= k < |lives| ==> Lives(lives[k]))
    && (lives != [] ==> Start(lives[0].states[0], files, listing, lives[0].maxBytes))
    && (forall k :: 0 < k < |lives| ==> Follows(lives[k - 1], lives[k]))
  }

  /** The invariant holds in every state of every life. */
  lemma {:induction false} HistoryInv(lives: seq<Life>, files: Files, listing: seq<DirEntry>, k: nat, n: nat)
    requires History(lives, files, listing) && k < |lives| && n < |lives[k].states|
    ensures Inv(lives[k].states[n], lives[k].maxBytes)
    decreases k
  {
    hide Inv, Start, Remains, Recovered;
    var l := lives[k];
    assert Lives(l);
    if k == 0 {
      StartInv(l.states[0], files, listing, l.maxBytes);
    } else {
      var before := lives[k - 1];
      assert Lives(before) && Follows(before, l);
      HistoryInv(lives, files, listing, k - 1, |before.states| - 1);
      var s := before.states[|before.states| - 1];
      var rest, listed :| Remains(rest, s.files) && Covers(listed, rest) && l.states[0] == Recovered(rest, listed, l.maxBytes, s.origin);
      RestartInv(s, rest, l.states[0], listed, before.maxBytes, l.maxBytes);
    }
    RunInv(l.states, l.steps, l.maxBytes, n);
  }

  /** Disk agreement in every state of every life: under any interleaving, crash, restart and change of the budget. */
  lemma DiskAgreement(lives: seq<Life>, files: Files, listing: seq<DirEntry>, k: nat, n: nat)
    requires History(lives, files, listing) && k < |lives| && n < |lives[k].states|
    ensures DiskAgrees(lives[k].states[n], lives[k].maxBytes)
  {
    hide Inv, DiskAgrees, History;
    HistoryInv(lives, files, listing, k, n);
    InvAgrees(lives[k].states[n], lives[k].maxBytes);
  }

  lemma InvComplete(t: State, maxBytes: int)
    requires Inv(t, maxBytes)
    ensures forall e :: e in t.lru ==> Complete(t, e.filename)
  {
  }

  // ----- clean stop and restart

  ghost predicate StorableMimes(es: seq<Entry>) {
    forall e :: e in es ==> MimeFromExt(ExtFromMime(e.mime)) == e.mime
  }

  /** With no call in flight the scan adopts the list as it was, mime types included. */
  lemma CleanAdopts(s: State, listing: seq<DirEntry>, maxBytes: int)
    requires Inv(s, maxBytes) && s.calls == map[] && Covers(listing, s.files) && StorableMimes(s.lru)
    ensures forall e :: e in Adopted(listing, s.files) <==> e in s.lru
  {
    hide IsTemp, Ext, Stem, Reachable, Inv;
    forall e | e in s.lru ensures e in Adopted(listing, s.files) {
      EntryAdopted(s, listing, e, maxBytes);
    }
    forall e | e in Adopted(listing, s.files) ensures e in s.lru {
      AdoptedWasEntry(s, listing, e, maxBytes);
    }
  }

  lemma EntryAdopted(s: State, listing: seq<DirEntry>, e: Entry, maxBytes: int)
    requires Inv(s, maxBytes) && Covers(listing, s.files) && StorableMimes(s.lru) && e in s.lru
    ensures e == AdoptedEntry(e.filename, s.files[e.filename]) && e in Adopted(listing, s.files)
  {
    hide IsTemp, Ext, Stem, Reachable, Owned, CallsOk, ExtFromMime, MimeFromExt;
    assert Backed(e, s.files) && Named(e);
    AdoptsAll(listing, s.files, e.filename);
  }

  lemma AdoptedWasEntry(s: State, listing: seq<DirEntry>, e: Entry, maxBytes: int)
    requires Inv(s, maxBytes) && Covers(listing, s.files) && StorableMimes(s.lru) && s.calls == map[]
    requires e in Adopted(listing, s.files)
    ensures e in s.lru
  {
    hide IsTemp, Ext, Stem, Reachable, Inv, StorableMimes;
    var i :| 0 <= i < |listing| && Adopts(listing[i]) && e == AdoptedEntry(listing[i].name, s.files[listing[i].name]);
    var o := FinalOwner(s, e.filename, maxBytes);
    EntryAdopted(s, listing, o.entry, maxBytes);
  }

  lemma EmptyOrInhabited(es: seq<Entry>)
    ensures es == [] || exists e :: e in es
  {
    if es != [] { assert es[0] in es; }
  }

  lemma {:induction false} TotalOfSameEntries(a: seq<Entry>, b: seq<Entry>)
    requires DistinctKeys(a) && DistinctKeys(b) && forall e :: e in a <==> e in b
    ensures Total(a) == Total(b) && |a| == |b|
  {
    if a == [] {
      EmptyOrInhabited(b);
    } else {
      hide Total;
      var n := |a| - 1;
      var e := a[n];
      assert e in a;
      var j :| 0 <= j < |b| && b[j] == e;
      var b' := b[..j] + b[j + 1..];
      TotalRemoveAt(a, n);
      TotalRemoveAt(b, j);
      assert a[..n] + a[n + 1..] == a[..n];
      assert IndexOf(b, e.key) == j && Without(b, e.key) == b';
      WithoutDropsKey(b, e.key);
      SameWithoutLast(a, b, b');
      TotalOfSameEntries(a[..n], b');
    }
  }

  lemma SameWithoutLast(a: seq<Entry>, b: seq<Entry>, b': seq<Entry>)
    requires a != [] && DistinctKeys(a) && forall e :: e in a <==> e in b
    requires forall e :: e in b' <==> e in b && e.key != a[|a| - 1].key
    ensures forall e :: e in a[..|a| - 1] <==> e in b'
    ensures DistinctKeys(a[..|a| - 1])
  {
    var n := |a| - 1;
    forall e | e in b' ensures e in a[..n] {
      var i :| 0 <= i < |a| && a[i] == e;
      assert a[..n][i] == e;
    }
  }

  /**
   Clean stop and restart: with no call in flight and storable mime types, the restart rebuilds exactly the
   same entries (key, file name, size and mime type) if and only if they are within the budget, or none.
   */
  lemma CleanRestart(s: State, listing: seq<DirEntry>, maxBytes: int)
    requires Inv(s, maxBytes) && s.calls == map[] && Covers(listing, s.files) && StorableMimes(s.lru)
    ensures (forall e :: e in s.lru <==> e in Recovered(s.files, listing, maxBytes, s.origin).lru)
            <==> Total(s.lru) <= maxBytes || s.lru == []
  {
    var all := Adopted(listing, s.files);
    CleanAdopts(s, listing, maxBytes);
    AdoptedApart(s, s.files, listing, maxBytes);
    assert DistinctKeys(s.lru);
    hide Inv, Covers, EvictDown, Total;
    TotalOfSameEntries(all, s.lru);
    RestartKeepsAll(all, maxBytes);
  }

  lemma RestartKeepsAll(all: seq<Entry>, maxBytes: int)
    requires DistinctKeys(all)
    ensures if Total(all) <= maxBytes || all == [] then EvictDown(all, maxBytes, 0) == all
            else all[|all| - 1] in all && all[|all| - 1] !in EvictDown(all, maxBytes, 0)
  {
    var kept := EvictDown(all, maxBytes, 0);
    EvictDownIsLongestFit(all, maxBytes, 0);
    assert all[..|all|] == all;
    hide EvictDown, Total;
    assert forall i :: 0 <= i < |kept| ==> kept[i] == all[i];
  }

  // ----- one call on its own

  /** The steps of one call whose download and file operations all succeed. */
  function PutSteps(id: nat, payload: seq<byte>): seq<Step> {
    [Open(id), Write(id, |payload|), FinishDownload(id), Close(id), Stat(id), Rename(id), Commit(id)]
  }

  /** One more step at the end of a run. */
  lemma Extend(states: seq<State>, steps: seq<Step>, n: nat, maxBytes: int) returns (longer: seq<State>)
    requires n < |steps| && IsRun(states, steps[..n], maxBytes) && Enabled(states[n], steps[n])
    ensures IsRun(longer, steps[..n + 1], maxBytes)
    ensures |longer| == n + 2 && longer[0] == states[0] && longer[n + 1] == Apply(states[n], steps[n], maxBytes)
  {
    hide Apply, Enabled;
    longer := states + [Apply(states[n], steps[n], maxBytes)];
    assert forall i :: 0 <= i < n ==> steps[..n + 1][i] == steps[..n][i];
  }

  /**
   The steps of an undisturbed call after its miss are possible and end as MediaCache.Put promises: the same
   list, the same files.
   */
  lemma PutIsItsSteps(s: State, id: nat, c: Call, maxBytes: int) returns (states: seq<State>)
    requires id in s.calls && s.calls[id] == c && c.phase.Missed?
    ensures IsRun(states, PutSteps(id, c.payload), maxBytes) && |states| == 8 && states[0] == s
    ensures var e := Entry(c.key, FinalName(c), |c.payload|, c.mime);
            && states[7].lru == Insert(s.lru, e, maxBytes)
            && states[7].files == (s.files - {TempName(c)})[FinalName(c) := c.payload]
                                  - FileNames(Evicted([e] + Without(s.lru, c.key), maxBytes, 1))
            && states[7].calls == s.calls - {id}
  {
    hide Insert, Without, Evicted, FileNames, TempName, IsRun;
    var steps := PutSteps(id, c.payload);
    var before := DownloadSteps(s, id, c, maxBytes);
    var last := before[6];
    SameNames(c, last.calls[id].phase);
    states := Extend(before, steps, 6, maxBytes);
    assert steps[..7] == steps;
    assert last.calls - {id} == s.calls - {id};
  }

  lemma DownloadSteps(s: State, id: nat, c: Call, maxBytes: int) returns (states: seq<State>)
    requires id in s.calls && s.calls[id] == c && c.phase.Missed?
    ensures IsRun(states, PutSteps(id, c.payload)[..6], maxBytes) && |states| == 7 && states[0] == s
    ensures states[6].lru == s.lru && states[6].calls == s.calls[id := c.(phase := Renamed(|c.payload|))]
    ensures states[6].files == (s.files - {TempName(c)})[FinalName(c) := c.payload]
  {
    hide FinalName, TempName, IsRun;
    var steps, n, tmp := PutSteps(id, c.payload), |c.payload|, TempName(c);
    states := WriteSteps(s, id, c, maxBytes);
    forall phase { SameNames(c, phase); }
    states := Extend(states, steps, 3, maxBytes);
    states := Extend(states, steps, 4, maxBytes);
    states := Extend(states, steps, 5, maxBytes);
    assert states[6].files == (s.files - {tmp})[FinalName(c) := c.payload];
  }

  lemma WriteSteps(s: State, id: nat, c: Call, maxBytes: int) returns (states: seq<State>)
    requires id in s.calls && s.calls[id] == c && c.phase.Missed?
    ensures IsRun(states, PutSteps(id, c.payload)[..3], maxBytes) && |states| == 4 && states[0] == s
    ensures states[3] == State(s.files[TempName(c) := c.payload], s.lru, s.calls[id := c.(phase := Written)],
                               s.origin[TempName(c) := c.payload])
  {
    hide FinalName, TempName;
    var steps := PutSteps(id, c.payload);
    assert IsRun([s], steps[..0], maxBytes);
    hide IsRun;
    assert c.payload[..|c.payload|] == c.payload;
    forall phase { SameNames(c, phase); }
    states := Extend([s], steps, 0, maxBytes);
    states := Extend(states, steps, 1, maxBytes);
    states := Extend(states, steps, 2, maxBytes);
  }

  lemma Prepend(s: State, step: Step, states: seq<State>, steps: seq<Step>, maxBytes: int)
    requires IsRun(states, steps, maxBytes) && Enabled(s, step) && states[0] == Apply(s, step, maxBytes)
    ensures IsRun([s] + states, [step] + steps, maxBytes)
  {
    hide Enabled, Apply;
    forall i | 0 <= i < |steps| + 1
      ensures Enabled(([s] + states)[i], ([step] + steps)[i])
      ensures ([s] + states)[i + 1] == Apply(([s] + states)[i], ([step] + steps)[i], maxBytes)
    {
      if i > 0 {
        assert ([s] + states)[i] == states[i - 1] && ([step] + steps)[i] == steps[i - 1];
      }
    }
  }

  /**
   A download larger than the whole budget: from an empty directory the cache comes to hold just this entry
   with nothing in flight, and every restart loses it, although the process stopped cleanly.
   */
  lemma OversizedFileIsLost(key: string, mime: string, payload: seq<byte>, maxBytes: int)
      returns (states: seq<State>, steps: seq<Step>)
    requires '.' !in key && MimeFromExt(ExtFromMime(mime)) == mime && |payload| > maxBytes
    ensures IsRun(states, steps, maxBytes) && Start(states[0], map[], [], maxBytes)
    ensures var s, e := states[|steps|], Entry(key, key + ExtFromMime(mime), |payload|, mime);
            && s.lru == [e] && s.calls == map[]
            && forall listing :: Covers(listing, s.files) ==> e !in Recovered(s.files, listing, maxBytes, s.origin).lru
  {
    hide MimeFromExt, ExtFromMime, IsTemp, Ext, Stem, IsRun;
    var c := Call(key, mime, payload, Missed);
    var s0 := Recovered(map[], [], maxBytes, map[]);
    assert Start(s0, map[], [], maxBytes) && s0 == State(map[], [], map[], map[]);
    var miss := Miss(0, key, mime, payload);
    var s1 := Apply(s0, miss, maxBytes);
    var put := PutIsItsSteps(s1, 0, c, maxBytes);
    Prepend(s0, miss, put, PutSteps(0, payload), maxBytes);
    states, steps := [s0] + put, [miss] + PutSteps(0, payload);
    var s, e := put[7], Entry(key, FinalName(c), |payload|, mime);
    assert s.lru == [e] by { OneEntry(e, maxBytes); }
    assert s.calls == map[];
    StartInv(states[0], map[], [], maxBytes);
    assert Inv(s, maxBytes) by { RunInv(states, steps, maxBytes, 8); }
    forall listing | Covers(listing, s.files) ensures e !in Recovered(s.files, listing, maxBytes, s.origin).lru {
      RestartDrops(s, e, listing, maxBytes);
    }
  }

  lemma OneEntry(e: Entry, maxBytes: int)
    ensures Insert([], e, maxBytes) == [e]
  {
  }

  lemma RestartDrops(s: State, e: Entry, listing: seq<DirEntry>, maxBytes: int)
    requires Inv(s, maxBytes) && s.calls == map[] && s.lru == [e] && StorableMimes(s.lru) && e.size > maxBytes
    requires Covers(listing, s.files)
    ensures e !in Recovered(s.files, listing, maxBytes, s.origin).lru
  {
    var t := Recovered(s.files, listing, maxBytes, s.origin);
    assert Total(s.lru) == e.size;
    hide Inv, Covers, Recovered, StorableMimes, Total;
    CleanRestart(s, listing, maxBytes);
    CleanAdopts(s, listing, maxBytes);
    RestartOnDisk(s, s.files, t, listing, maxBytes, maxBytes);
  }

  // ----- what the steps do

  /** A hit puts the entry first and leaves the others in their order; nothing else changes. */
  lemma HitExactly(s: State, i: nat, maxBytes: int)
    requires i < |s.lru| && forall j :: 0 <= j < i ==> s.lru[j].key != s.lru[i].key
    ensures Enabled(s, Hit(s.lru[i].key))
    ensures Apply(s, Hit(s.lru[i].key), maxBytes) == s.(lru := [s.lru[i]] + s.lru[..i] + s.lru[i + 1..])
  {
    TouchExactly(s.lru, i);
  }

  /** A miss starts a call and changes nothing else; it is possible when the key is neither cached nor in flight. */
  lemma MissExactly(s: State, id: nat, key: string, mime: string, payload: seq<byte>, maxBytes: int)
    ensures Enabled(s, Miss(id, key, mime, payload)) <==>
              && id !in s.calls && '.' !in key && (forall e :: e in s.lru ==> e.key != key)
              && forall i :: i in s.calls ==> s.calls[i].key != key
    ensures Enabled(s, Miss(id, key, mime, payload)) ==>
              Apply(s, Miss(id, key, mime, payload), maxBytes) == s.(calls := s.calls[id := Call(key, mime, payload, Missed)])
  {
    if !HasKey(s.lru, key) {
      forall e | e in s.lru ensures e.key != key {
        var i :| 0 <= i < |s.lru| && s.lru[i] == e;
      }
    } else {
      assert s.lru[IndexOf(s.lru, key)] in s.lru;
    }
  }

  /** A download may be cut into any pieces: after a write the temp file holds that much of it. */
  lemma WriteExactly(s: State, id: nat, upTo: nat, maxBytes: int)
    requires Inv(s, maxBytes) && id in s.calls && s.calls[id].phase.Writing?
    requires |s.files[TempName(s.calls[id])]| <= upTo <= |s.calls[id].payload|
    ensures Enabled(s, Write(id, upTo))
    ensures Apply(s, Write(id, upTo), maxBytes) == s.(files := s.files[s.calls[id].key + ExtFromMime(s.calls[id].mime) + ".tmp" :=
                                                      s.calls[id].payload[..upTo]])
  {
    hide Reachable, OnDisk, Owned, Named;
  }

  /** A call may fail at any point before its rename; then its temp file is gone and everything else is as before. */
  lemma FailExactly(s: State, id: nat, maxBytes: int)
    requires Inv(s, maxBytes)
    ensures Enabled(s, Fail(id)) <==> id in s.calls && !s.calls[id].phase.Renamed?
    ensures Enabled(s, Fail(id)) ==>
              var t, tmp := Apply(s, Fail(id), maxBytes), s.calls[id].key + ExtFromMime(s.calls[id].mime) + ".tmp";
              t.lru == s.lru && t.calls == s.calls - {id} && t.files == s.files - {tmp}
  {
    hide Inv, Covers, ExtFromMime;
    if id in s.calls {
      OwnFiles(s, id, maxBytes);
      assert TempName(s.calls[id]) == s.calls[id].key + ExtFromMime(s.calls[id].mime) + ".tmp";
      hide TempName;
    }
  }

  /** The process may crash at any point, and what it opens then is what MediaCache.constructor opens. */
  lemma RestartExactly(s: State, listing: seq<DirEntry>, maxBytes: int)
    requires Covers(listing, s.files)
    ensures Enabled(s, Restart(listing))
    ensures var t, all := Apply(s, Restart(listing), maxBytes), Adopted(listing, s.files);
            && t.calls == map[] && t.lru == EvictDown(all, maxBytes, 0)
            && t.files == s.files - StaleNames(listing) - FileNames(Evicted(all, maxBytes, 0))
  {
    hide EvictDown, Evicted;
  }

  // ----- the order of the list under interleaving

  /** The access that a step makes to the list: a hit, or the locked section of a download. */
  function AccessOf(s: State, step: Step): Option<Entry> {
    match step
    case Hit(key) => Some(Entry(key, "", 0, ""))
    case Commit(id) =>
      if id in s.calls && s.calls[id].phase.Renamed? then Some(CommittedEntry(s.calls[id])) else None
    case _ => None
  }

  /** The accesses of the first n steps. */
  function Accesses(states: seq<State>, steps: seq<Step>, n: nat): seq<Entry>
    requires n <= |steps| && n <= |states|
  {
    if n == 0 then []
    else
      var before, a := Accesses(states, steps, n - 1), AccessOf(states[n - 1], steps[n - 1]);
      if a.Some? then before + [a.value] else before
  }

  lemma StepAccesses(s: State, step: Step, maxBytes: int)
    requires Inv(s, maxBytes) && Enabled(s, step) && !step.Restart?
    ensures var a := AccessOf(s, step);
            Apply(s, step, maxBytes).lru == if a.Some? then Access(s.lru, a.value, maxBytes) else s.lru
  {
    hide Touch, Insert, FinalName, TempName;
    if step.Commit? {
      CommittedOnDisk(s, step.id, maxBytes);
      assert CallOk(s, s.calls[step.id]);
      assert !HasKey(s.lru, s.calls[step.id].key);
    }
  }

  /**
   The calls take effect at their locked sections: in every state of a run without restart the list is that of
   the accesses so far, one after the other; so its keys are a prefix of the order by latest access.
   */
  lemma {:induction false} InterleavedRun(states: seq<State>, steps: seq<Step>, maxBytes: int, n: nat)
    requires IsRun(states, steps, maxBytes) && Inv(states[0], maxBytes) && n < |states|
    requires forall i :: 0 <= i < n ==> !steps[i].Restart?
    ensures states[n].lru == LruStack.Run(states[0].lru, Accesses(states, steps, n), maxBytes)
    ensures Keys(states[n].lru) <= LruStack.Recency(Keys(states[0].lru), Accesses(states, steps, n))
  {
    hide Inv, Enabled, Apply, AccessOf, Access, LruStack.Recency;
    if n > 0 {
      InterleavedRun(states, steps, maxBytes, n - 1);
      RunInv(states, steps, maxBytes, n - 1);
      StepAccesses(states[n - 1], steps[n - 1], maxBytes);
      var before, a := Accesses(states, steps, n - 1), AccessOf(states[n - 1], steps[n - 1]);
      assert states[n] == Apply(states[n - 1], steps[n - 1], maxBytes);
      if a.Some? {
        LruStack.RunOneMore(states[0].lru, before, a.value, maxBytes);
      }
    }
    hide LruStack.Run, LruStack.Recency, Accesses, IsRun;
    DistinctAtStart(states[0], maxBytes);
    LruStack.RunFollowsRecency(states[0].lru, Accesses(states, steps, n), maxBytes);
  }

  lemma DistinctAtStart(s: State, maxBytes: int)
    requires Inv(s, maxBytes)
    ensures DistinctKeys(s.lru)
  {
  }
}
