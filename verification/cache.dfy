/**
 * cache_get and cache_set: one stored snapshot with the second it was
 * written, served while its age is at most the TTL. The cache file is the
 * object's state; the file's modification time is the entry's write time.
 */
module Cache {
  import opened Wrappers

  /** A stored snapshot and the second its file was written. */
  datatype Entry<T> = Entry(data: T, writtenAt: int)

  /**
   * The TTL decision of cache_get at second `now`: a stored entry is served
   * unless `now - writtenAt > ttl`, so the bound is inclusive.
   */
  function Lookup<T>(entry: Option<Entry<T>>, ttl: int, now: int): (r: Option<T>)
    ensures r.Some? <==> entry.Some? && now - entry.value.writtenAt <= ttl
    ensures r.Some? ==> r.value == entry.value.data
  {
    match entry
    case None => None
    case Some(e) => if now - e.writtenAt > ttl then None else Some(e.data)
  }

  /** Once an entry has expired it stays expired while the clock moves forward. */
  lemma ExpiryIsFinal<T>(entry: Option<Entry<T>>, ttl: int, now: int, later: int)
    requires now <= later
    requires entry.Some? && Lookup(entry, ttl, now).None?
    ensures Lookup(entry, ttl, later).None?
  {
  }

  /** An entry is served exactly in the seconds from any earlier time up to `writtenAt + ttl`. */
  lemma HitWindow<T>(data: T, writtenAt: int, ttl: int, now: int)
    ensures Lookup(Some(Entry(data, writtenAt)), ttl, now) == (if now <= writtenAt + ttl then Some(data) else None)
  {
  }

  /** With a TTL of 0 a read in the second of the write still hits, and one a second later misses. */
  lemma ZeroTtl<T>(data: T, t: int)
    ensures Lookup(Some(Entry(data, t)), 0, t) == Some(data)
    ensures Lookup(Some(Entry(data, t)), 0, t + 1) == None
  {
  }

  /** The cache file: at most one snapshot, with its write time. */
  class ResultCache<T> {
    /** CACHE_TTL, in seconds. */
    const ttl: int
    /** The snapshot in the file and its modification time; None while there is no file. */
    var entry: Option<Entry<T>>

    constructor(ttl: int)
      ensures this.ttl == ttl && entry == None
    {
      this.ttl := ttl;
      entry := None;
    }

    /** cache_get() at second `now`. */
    method Get(now: int) returns (r: Option<T>)
      ensures r == Lookup(entry, ttl, now)
      ensures r.Some? <==> entry.Some? && now - entry.value.writtenAt <= ttl
    {
      if entry.None? {
        return None;
      }
      if now - entry.value.writtenAt > ttl {
        return None;
      }
      r := Some(entry.value.data);
    }

    /**
     * cache_set($d) at second `now`. A write that fails (`written` false) is
     * silenced and leaves the old file in place.
     */
    method Set(data: T, now: int, written: bool)
      modifies this
      ensures entry == (if written then Some(Entry(data, now)) else old(entry))
    {
      if written {
        entry := Some(Entry(data, now));
      }
    }
  }
}
