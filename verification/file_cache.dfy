/**
 The flat-file cache backend: one document mapping each search term to its
 collection, with the refresh `timestamp` stored inside the collection and
 checked against the ten-minute threshold when the entry is read.
 */
module FileCache {
  import opened Values

  /** The decoded contents of the cache file. */
  type Entries = map<string, Collection>

  /** The cache file as the collector finds it: absent, not decodable to a
      map, or decoded. */
  datatype CacheFile = Missing | Corrupt | Decoded(entries: Entries)

  /** The in-memory cache map after the file has been read: the decoded map,
      or the empty map the collector starts with when there is none. */
  function Loaded(file: CacheFile): (m: Entries)
    ensures file.Decoded? ==> m == file.entries
    ensures !file.Decoded? ==> m == map[]
  {
    if file.Decoded? then file.entries else map[]
  }

  /** PHP's integer cast of the stored timestamp: a missing one reads as 0. */
  function StampOrZero(t: Option<int>): int
  {
    match t
    case Some(v) => v
    case None => 0
  }

  /** An entry is fresh while its timestamp plus the threshold lies strictly
      after `now`. */
  predicate Fresh(c: Collection, now: int)
  {
    StampOrZero(c.timestamp) + Threshold > now
  }

  /** Writes `c` under key `id` of the cache map. */
  function StoreCollection(cache: Entries, id: string, c: Collection): (r: Entries)
    ensures r.Keys == cache.Keys + {id}
    ensures r[id] == c
    ensures forall k :: k in cache && k != id ==> r[k] == cache[k]
  {
    cache[id := c]
  }

  /** Reads the collection cached for `search` at time `now`: present exactly
      when the file decodes, holds the term, and the entry is fresh; returned
      without its timestamp. `None` stands for the empty collection. */
  function GetCachedCollection(file: CacheFile, search: string, now: int): (r: Option<Collection>)
    ensures r.Some? <==> file.Decoded? && search in file.entries && Fresh(file.entries[search], now)
    ensures r.Some? ==> r.value.timestamp.None?
    ensures r.Some? ==> r.value.comments == file.entries[search].comments && r.value.stats == file.entries[search].stats
  {
    if file.Decoded? && search in file.entries && Fresh(file.entries[search], now) then
      Some(file.entries[search].(timestamp := None))
    else
      None
  }

  /** Storing a collection stamped at `t` and reading it back before `t` plus
      the threshold gives the stored collection without its timestamp. */
  lemma StoreThenGetWithinWindow(cache: Entries, id: string, c: Collection, t: int, now: int)
    requires c.timestamp == Some(t) && now < t + Threshold
    ensures GetCachedCollection(Decoded(StoreCollection(cache, id, c)), id, now) == Some(c.(timestamp := None))
  {
  }

  /** From `t` plus the threshold on, the stored collection is no longer returned. */
  lemma StoreThenGetExpired(cache: Entries, id: string, c: Collection, t: int, now: int)
    requires c.timestamp == Some(t) && now >= t + Threshold
    ensures GetCachedCollection(Decoded(StoreCollection(cache, id, c)), id, now) == None
  {
  }

  /** Storing under one key does not change what is read under any other key. */
  lemma StoreKeepsOtherReads(cache: Entries, id: string, c: Collection, other: string, now: int)
    requires other != id
    ensures GetCachedCollection(Decoded(StoreCollection(cache, id, c)), other, now) == GetCachedCollection(Decoded(cache), other, now)
  {
  }
}
