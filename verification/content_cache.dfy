/**
 The file-content cache (`fileContentCache` and `getFileContent` in
 src/extension.ts): a map from file path to the text last read and the time it
 was read. An entry younger than `CacheTtl` milliseconds is served as stored;
 anything else is read again from the backing store and re-stamped. The
 clock value and the backing store are parameters.
 */
module ContentCache {
  import opened Wrappers

  /** Entries younger than this many milliseconds are served from the cache. */
  const CacheTtl: int := 5000

  datatype Entry = Entry(content: string, timestamp: int)

  type Cache = map<string, Entry>

  /** What `openTextDocument(...).getText()` yields for each path it can
      open; a path outside the map cannot be read. */
  type Disk = map<string, string>

  datatype ReadError = NotReadable(path: string)

  /** The cache can answer for `path` at time `now` without reading. */
  predicate Fresh(cache: Cache, path: string, now: int) {
    path in cache && now - cache[path].timestamp < CacheTtl
  }

  /** `cache` and `cache'` hold the same entry (or none) for `path`. */
  predicate SameEntry(cache: Cache, cache': Cache, path: string) {
    (path in cache <==> path in cache') && (path in cache ==> cache'[path] == cache[path])
  }

  /** `getFileContent`: serve a fresh entry as stored; otherwise read the
      backing store and replace the entry by the text and `now`. Either way
      the entry for `path` afterwards holds the returned text and is fresh,
      and no other path's entry changes. A read that fails leaves the cache
      as it was. */
  function Get(cache: Cache, disk: Disk, path: string, now: int): (r: Result<(string, Cache), ReadError>)
    ensures Fresh(cache, path, now) ==> r == Success((cache[path].content, cache))
    ensures !Fresh(cache, path, now) ==>
              && (r.Success? <==> path in disk)
              && (r.Success? ==> && r.value.0 == disk[path]
                                 && path in r.value.1 && r.value.1[path] == Entry(disk[path], now))
    ensures r.Success? ==> && path in r.value.1
                           && r.value.1[path].content == r.value.0
                           && Fresh(r.value.1, path, now)
                           && forall q :: q != path ==> SameEntry(cache, r.value.1, q)
    ensures r.Failure? ==> r.error == NotReadable(path)
  {
    if Fresh(cache, path, now) then
      Success((cache[path].content, cache))
    else if path in disk then
      var content := disk[path];
      Success((content, cache[path := Entry(content, now)]))
    else
      Failure(NotReadable(path))
  }

  /** The watcher's `fileContentCache.delete(uri.fsPath)` on a change or
      deletion: the entry for `path` is gone and every other entry stays. */
  function Delete(cache: Cache, path: string): (cache': Cache)
    ensures path !in cache'
    ensures forall q :: q != path ==> SameEntry(cache, cache', q)
  {
    cache - {path}
  }

  /** `deactivate`'s `fileContentCache.clear()`: no entry is left. */
  function Clear(cache: Cache): (cache': Cache)
    ensures forall q :: q !in cache'
  {
    map[]
  }

  /** The text a read of `path` at time `now` observes, or `None` when the
      read would fail: the stored text while it is fresh, else the store's. */
  function Seen(cache: Cache, disk: Disk, path: string, now: int): Option<string> {
    if Fresh(cache, path, now) then Some(cache[path].content)
    else if path in disk then Some(disk[path])
    else None
  }

  /** Two caches that look the same to every read at time `now`. */
  ghost predicate SameView(cache: Cache, cache': Cache, disk: Disk, now: int) {
    forall p :: Seen(cache, disk, p, now) == Seen(cache', disk, p, now)
  }

  /** A read returns what `Seen` predicts, fails exactly when `Seen` has
      nothing, and leaves every later read at the same time unchanged: the
      order in which files are read does not matter. */
  lemma GetAgreesWithSeen(cache: Cache, disk: Disk, path: string, now: int)
    ensures Get(cache, disk, path, now).Success? <==> Seen(cache, disk, path, now).Some?
    ensures Get(cache, disk, path, now).Success? ==>
              && Get(cache, disk, path, now).value.0 == Seen(cache, disk, path, now).value
              && SameView(cache, Get(cache, disk, path, now).value.1, disk, now)
  {
    var r := Get(cache, disk, path, now);
    if r.Success? {
      var c' := r.value.1;
      forall p ensures Seen(cache, disk, p, now) == Seen(c', disk, p, now) {
        if p != path {
          assert SameEntry(cache, c', p);
        }
      }
    }
  }

  /** After `Delete(path)` the next read of `path` goes to the backing store,
      even within the time-to-live of the deleted entry. */
  lemma DeleteForcesRead(cache: Cache, disk: Disk, path: string, now: int)
    ensures var r := Get(Delete(cache, path), disk, path, now);
            && (r.Success? <==> path in disk)
            && (r.Success? ==> && r.value.0 == disk[path]
                               && path in r.value.1 && r.value.1[path] == Entry(disk[path], now))
  {
  }

  /** After `Clear` every read goes to the backing store. */
  lemma ClearForcesRead(cache: Cache, disk: Disk, path: string, now: int)
    ensures var r := Get(Clear(cache), disk, path, now);
            && (r.Success? <==> path in disk)
            && (r.Success? ==> r.value.0 == disk[path])
  {
  }

  /** Text just read from the store is served from the cache for the next
      `CacheTtl` milliseconds, even if the store changes in between. */
  lemma RereadWithinTtl(cache: Cache, disk: Disk, disk': Disk, path: string, now: int, later: int)
    requires !Fresh(cache, path, now) && path in disk
    requires now <= later < now + CacheTtl
    ensures var (text, cache') := Get(cache, disk, path, now).value;
            Get(cache', disk', path, later) == Success((text, cache'))
  {
  }

  /** The entry is re-read once its age reaches the time-to-live. */
  lemma StaleEntryReread(cache: Cache, disk: Disk, path: string, now: int)
    requires path in cache && now - cache[path].timestamp >= CacheTtl
    ensures Get(cache, disk, path, now).Success? <==> path in disk
    ensures path in disk ==> Get(cache, disk, path, now).value.0 == disk[path]
  {
  }
}
