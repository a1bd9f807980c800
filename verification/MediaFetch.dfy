/** FetchMedia: look the media up in the cache, otherwise decode the id, download and install the file. */
module MediaFetch {
  import opened Prelude
  import opened LruPolicy
  import opened MediaDirectory
  import opened MediaNames
  import opened MediaCache
  import opened MediaId

  datatype FetchError = BadId(err: DecodeError) | NotReady | UnsupportedKind | PutFailed(cause: PutError)

  /** The entry that a successful download of this id installs. */
  function PhotoEntry(sha256: Sha256, mediaID: string, size: nat): Entry {
    var key := CacheKey(sha256, mediaID);
    Entry(key, key + ".jpg", size, "image/jpeg")
  }

  /**
   A fetch that succeeds is one access of the replacement policy, hit or miss; one that fails leaves the list
   as it was. `ready` says whether waitReady succeeds, `io` how the download and the file operations go.
   */
  method FetchMedia(cache: MediaCache, hmac: Hmac, mediaKey: seq<byte>, mediaID: string, ready: bool, io: PutIo)
      returns (r: Result<(string, string), FetchError>)
    requires cache.Valid()
    modifies cache, cache.lru, cache.lru.root, cache.lru.nodes
    ensures cache.Valid()
    ensures r.Err? ==> cache.Contents() == old(cache.Contents()) && !HasKey(old(cache.Contents()), CacheKey(cache.sha256, mediaID))
    ensures r.Ok? && !HasKey(old(cache.Contents()), CacheKey(cache.sha256, mediaID)) ==>
              && io.Succeeds? && ready && r.value == (CacheKey(cache.sha256, mediaID) + ".jpg", "image/jpeg")
              && exists ref :: Denotes(hmac, mediaKey, mediaID, ref) && ref.kind == KIND_PHOTO
    ensures !HasKey(old(cache.Contents()), CacheKey(cache.sha256, mediaID)) ==>
              && ((forall ref :: !Denotes(hmac, mediaKey, mediaID, ref)) ==> r.Err? && r.error.BadId?)
              && ((exists ref :: Denotes(hmac, mediaKey, mediaID, ref)) && !ready ==> r == Err(NotReady))
              && ((exists ref :: Denotes(hmac, mediaKey, mediaID, ref) && ref.kind != 1) && ready ==> r == Err(UnsupportedKind))
              && ((exists ref :: Denotes(hmac, mediaKey, mediaID, ref) && ref.kind == 1) && ready && !io.Succeeds? ==>
                    r == Err(PutFailed(ErrorOf(io))))
    ensures ready && io.Succeeds? && (exists ref :: Denotes(hmac, mediaKey, mediaID, ref) && ref.kind == KIND_PHOTO) ==> r.Ok?
    ensures r.Ok? ==> forall size: nat :: (io.Succeeds? ==> size == |io.content|) ==>
              cache.Contents() == Access(old(cache.Contents()), PhotoEntry(cache.sha256, mediaID, size), cache.maxBytes)
    ensures r.Ok? ==> cache.Contents() != [] && r.value == (cache.Contents()[0].filename, cache.Contents()[0].mime)
  {
    hide Denotes, Insert, Total, OnDisk, CacheKey, Without, Reachable, Evicted;
    ghost var es := cache.Contents();
    var hit := cache.Get(mediaID);
    if hit.Some? {
      return Ok(hit.value);
    }
    var decoded := DecodeMediaID(hmac, mediaKey, mediaID);
    if decoded.Err? {
      return Err(BadId(decoded.error));
    }
    if !ready {
      return Err(NotReady);
    }
    if decoded.value.kind == KIND_PHOTO {
      var mime := "image/jpeg";
      var path := cache.Put(mediaID, mime, io);
      if path.Err? {
        return Err(PutFailed(path.error));
      }
      InsertedFirst(es, PhotoEntry(cache.sha256, mediaID, |io.content|), cache.maxBytes);
      return Ok((path.value, mime));
    }
    return Err(UnsupportedKind);
  }

  lemma InsertedFirst(es: seq<Entry>, e: Entry, maxBytes: int)
    requires Reachable(es, maxBytes)
    ensures Insert(es, e, maxBytes) != [] && Insert(es, e, maxBytes)[0] == e
  {
    InsertKeepsInvariant(es, e, maxBytes);
  }
}
