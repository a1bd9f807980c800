/** The cache directory: which files the start-up scan adopts and how entries and files must agree. */
module MediaDirectory {
  import opened Prelude
  import opened LruPolicy
  import opened MediaNames

  /** One result of os.ReadDir; `readable` says whether Info succeeded on it. */
  datatype DirEntry = DirEntry(name: string, isDir: bool, readable: bool)

  type Files = map<string, seq<byte>>

  ghost predicate Lists(listing: seq<DirEntry>, files: Files) {
    && (forall i, j :: 0 <= i < j < |listing| ==> listing[i].name != listing[j].name)
    && (forall i :: 0 <= i < |listing| && !listing[i].isDir ==> listing[i].name in files)
  }

  predicate Stale(d: DirEntry) {
    !d.isDir && IsTemp(d.name)
  }

  predicate Adopts(d: DirEntry) {
    !d.isDir && !IsTemp(d.name) && d.readable
  }

  function AdoptedEntry(name: string, content: seq<byte>): Entry {
    Entry(Stem(name), name, |content|, MimeFromExt(Ext(name)))
  }

  /** The list after scanning the directory: each adopted file was pushed to the front. */
  function Adopted(listing: seq<DirEntry>, files: Files): (es: seq<Entry>)
    requires forall i :: 0 <= i < |listing| && !listing[i].isDir ==> listing[i].name in files
    ensures forall e :: e in es ==>
              exists i :: 0 <= i < |listing| && Adopts(listing[i]) && e == AdoptedEntry(listing[i].name, files[listing[i].name])
  {
    if listing == [] then []
    else
      var last := listing[|listing| - 1];
      var before := Adopted(listing[..|listing| - 1], files);
      if Adopts(last) then [AdoptedEntry(last.name, files[last.name])] + before else before
  }

  function StaleNames(listing: seq<DirEntry>): set<string> {
    set d | d in listing && Stale(d) :: d.name
  }

  function FileNames(es: seq<Entry>): set<string> {
    set e | e in es :: e.filename
  }

  lemma FileNamesCons(e: Entry, es: seq<Entry>)
    ensures FileNames([e] + es) == {e.filename} + FileNames(es)
  {
    assert forall x :: x in [e] + es <==> x == e || x in es;
  }

  ghost predicate DistinctFiles(es: seq<Entry>) {
    forall i, j :: 0 <= i < j < |es| ==> es[i].filename != es[j].filename
  }

  ghost predicate Backed(e: Entry, files: Files) {
    && e.filename in files && |files[e.filename]| == e.size
    && Stem(e.filename) == e.key && !IsTemp(e.filename)
  }

  /** Every entry has its own file, of the recorded size and named after the key. */
  ghost predicate OnDisk(es: seq<Entry>, files: Files) {
    DistinctFiles(es) && forall e :: e in es ==> Backed(e, files)
  }

  /** No kept entry shares its stem with another adopted file, kept or evicted. */
  ghost predicate KeptStemsUnique(adopted: seq<Entry>, kept: nat) {
    forall i, j :: 0 <= i < kept <= |adopted| && 0 <= j < |adopted| && i != j ==> adopted[i].key != adopted[j].key
  }

  lemma {:induction false} AdoptedOnDisk(listing: seq<DirEntry>, files: Files)
    requires Lists(listing, files)
    ensures OnDisk(Adopted(listing, files), files)
    ensures FileNames(Adopted(listing, files)) !! StaleNames(listing)
  {
    if listing != [] {
      var init, last := listing[..|listing| - 1], listing[|listing| - 1];
      AdoptedOnDisk(init, files);
      var before := Adopted(init, files);
      forall e | e in before ensures e.filename != last.name {
        var i :| 0 <= i < |init| && Adopts(init[i]) && e == AdoptedEntry(init[i].name, files[init[i].name]);
      }
    }
  }

  /** Removing files of nobody in the list keeps the agreement. */
  lemma OnDiskWithout(es: seq<Entry>, files: Files, names: set<string>)
    requires OnDisk(es, files) && FileNames(es) !! names
    ensures OnDisk(es, files - names)
  {
    forall e | e in es ensures Backed(e, files - names) {
      assert Backed(e, files) && e.filename in FileNames(es);
    }
  }

  lemma OnDiskSublist(es: seq<Entry>, sub: seq<Entry>, files: Files)
    requires OnDisk(es, files) && DistinctKeys(sub) && forall e :: e in sub ==> e in es
    ensures OnDisk(sub, files)
  {
    forall i, j | 0 <= i < j < |sub| ensures sub[i].filename != sub[j].filename {
      assert Backed(sub[i], files) && Backed(sub[j], files);
    }
  }

  lemma OnDiskPushed(es: seq<Entry>, files: Files, e: Entry)
    requires OnDisk(es, files) && Backed(e, files) && forall x :: x in es ==> x.key != e.key
    ensures OnDisk([e] + es, files)
  {
    forall x | x in es ensures x.filename != e.filename { assert Backed(x, files); }
  }

  lemma OnDiskPopped(es: seq<Entry>, files: Files)
    requires es != [] && OnDisk(es, files)
    ensures OnDisk(es[..|es| - 1], files - {es[|es| - 1].filename})
  {
    var n := |es| - 1;
    forall e | e in es[..n] ensures Backed(e, files - {es[n].filename}) {
      assert e in es && Backed(e, files);
    }
  }

  /** Different keys live in different files. */
  lemma OnDiskReplace(es: seq<Entry>, files: Files, e: Entry, content: seq<byte>)
    requires OnDisk(es, files) && (forall x :: x in es ==> x.key != e.key)
    requires Stem(e.filename) == e.key && !IsTemp(e.filename) && |content| == e.size
    ensures OnDisk([e] + es, files[e.filename := content])
  {
    forall x | x in es ensures Backed(x, files[e.filename := content]) && x.filename != e.filename {
      assert Backed(x, files);
    }
  }

  /** The scan adopts the readable files that are not temporary, each with its stem, size and the type of its extension. */
  lemma {:induction false} AdoptedExactly(listing: seq<DirEntry>, files: Files, e: Entry)
    requires Lists(listing, files)
    ensures e in Adopted(listing, files) <==>
            exists i :: && 0 <= i < |listing| && !listing[i].isDir && listing[i].readable && !IsTemp(listing[i].name)
                        && e == Entry(Stem(listing[i].name), listing[i].name, |files[listing[i].name]|, MimeFromExt(Ext(listing[i].name)))
  {
    hide IsTemp, Stem, Ext, MimeFromExt;
    if listing != [] {
      var n := |listing| - 1;
      AdoptedExactly(listing[..n], files, e);
      assert listing == listing[..n] + [listing[n]];
      assert forall i :: 0 <= i < n ==> listing[..n][i] == listing[i];
    }
  }

  /** A file that the directory lists later is nearer to the front. */
  lemma {:induction false} AdoptedOrder(listing: seq<DirEntry>, files: Files, i: nat, j: nat) returns (a: nat, b: nat)
    requires Lists(listing, files) && i < j < |listing| && Adopts(listing[i]) && Adopts(listing[j])
    ensures a < b < |Adopted(listing, files)|
    ensures Adopted(listing, files)[a].filename == listing[j].name && Adopted(listing, files)[b].filename == listing[i].name
  {
    hide IsTemp, Stem, Ext, MimeFromExt;
    var n := |listing| - 1;
    var before := Adopted(listing[..n], files);
    if j < n {
      a, b := AdoptedOrder(listing[..n], files, i, j);
      if Adopts(listing[n]) { a, b := a + 1, b + 1; }
    } else {
      var e := AdoptedEntry(listing[i].name, files[listing[i].name]);
      assert listing[..n][i] == listing[i];
      AdoptedExactly(listing[..n], files, e);
      var k :| 0 <= k < |before| && before[k] == e;
      a, b := 0, k + 1;
    }
  }

  /** The scan removes the files, not directories, whose names end in .tmp. */
  lemma StaleExactly(listing: seq<DirEntry>, name: string)
    ensures name in StaleNames(listing) <==>
            exists i :: 0 <= i < |listing| && listing[i].name == name && !listing[i].isDir && IsTemp(name)
  {
    hide IsTemp;
  }
}
