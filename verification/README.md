# Mastodon comment collector, modelled in Dafny

This project models `CollectMastodonData` in `getcomments.php`. The collector
gathers the Mastodon discussion of a blog post. It searches the instance for
toots that mention the post. It keeps the root toots, which are the results
that are not replies. For each root it fetches the reply descendants and the
engagement counters. It merges them into one collection keyed by comment id,
with summed statistics and a refresh timestamp. The collection is cached in a
flat JSON file, and a fresh cached copy is served without contacting the
instance.

Everything is pure. Remote answers are values: a `Remote` holds the search
response, the descendants per root id and the status per root id. The clock is
read twice in the source, so there are two parameters: `now` for the freshness
check of the cache, and `stampedAt` for the stamp written after the remote
fetches. The cache file is a `CacheFile` value, and the function
that serves a request returns the file's new content instead of writing it.

Modules, one per component of the source:

- `Values` (values.dfy): statuses, comments, statistics, collections, PHP's
  `empty()` on strings, and the two cache lifetimes (600 s and 28 days).
- `Filters` (filters.dfy): `filterComments`, `filterStats`, `filterSearchResults`.
- `Statistics` (statistics.dfy): `getStatistics` and repeated calls of it.
- `Roots` (roots.dfy): `findToots` and the lifetime of the `roots/{search}` entry.
- `FileCache` (file_cache.dfy): the file backend of `storeCollection` and `getCachedCollection`.
- `Collector` (collector.dfy): the request handling at getcomments.php:184-207.

PHP behaviours the model keeps:

- PHP's falsy test treats the string "0" like the empty string. So an
  account whose display name is "0" is shown by its username. A statistics url
  of "0" is overwritten by the next root's url. A search term "0" is treated
  as no search at all.
- `filterComments` yields one record per distinct id, not one per descendant.
  A later descendant with the same id overwrites the earlier one. The counts
  agree only when the ids are distinct (`Filters.FilterCommentsCount`).
- A collection read back from the file cache has its `timestamp` removed. So
  a cache hit answers the stored collection minus that field, not the stored
  value itself.
- Root lookups are cached only by the networked backend. With the file
  backend every rebuild searches again, and `Collector.Collect` models that.

## Model

| member | source | states |
|---|---|---|
| `Filters.AuthorName` | getcomments.php:75 | The display name wins when it is not PHP-empty. Otherwise the username is used. The shown name is PHP-empty only when both are. |
| `Filters.FilterComments` | getcomments.php:71-88 | The keys are the earlier keys plus every descendant id. Keys no descendant carries keep their records. Every descendant's record is stamped with the given root. |
| `Filters.FilterCommentsLastWins` | getcomments.php:71-88 | The record under an id is built from the last descendant with that id. Its `reply_to` is that descendant's `in_reply_to_id`. |
| `Filters.FilterCommentsFromDescendant` | getcomments.php:72-84 | Every record written under a descendant id was built from some descendant carrying that id. |
| `Filters.FilterCommentsCount` | getcomments.php:71-88 | Descendants with distinct ids, written into an empty map, give exactly as many records as descendants. |
| `Filters.FilterStats` | getcomments.php:90-98 | The reblog, favourite and reply counts of the status become `reblogs`, `favs` and `replies`, and its url is kept. |
| `Filters.FilterSearchResults` | getcomments.php:100-110 | A response without `html.statuses` gives no ids. Otherwise it gives the root ids of the status list, which `Filters.RootIdsConcat` and `Filters.RootIdsMembership` pin down. |
| `Filters.RootIdsConcat` | getcomments.php:103-107 | Filtering preserves order: filtering a concatenation is the concatenation of the filtered parts. |
| `Filters.RootIdsMembership` | getcomments.php:103-107 | An id is kept exactly when some status with that id has a null `in_reply_to_id`. |
| `Filters.FilterSearchResultsExample` | getcomments.php:100-110 | Given one root and one reply, in either order, only the root's id is returned. |
| `Statistics.GetStatistics` | getcomments.php:139-149 | Reblogs, favourites and replies grow by the new counters. A non-empty url is kept. An empty url takes the new one. `root` is untouched. |
| `Statistics.AccumulateAdds` | getcomments.php:143-145 | After any number of calls, each counter equals its start value plus the sum over the calls. `root` is unchanged. |
| `Statistics.AccumulateFirstUrlWins` | getcomments.php:146-148 | A non-empty url survives every later call. From an empty url, the result is the first non-empty url offered. If none is offered, the last call's url remains. |
| `Statistics.AccumulateExample` | getcomments.php:139-149 | Merging (3, 1, 2) and then (0, 5, 1) into zeroed statistics gives (3, 6, 3), with the url of the first call. |
| `Roots.RootTtl` | getcomments.php:128 | The lifetime is 28 days exactly when a root was found, and 600 seconds exactly when none was. |
| `Roots.FindToots` | getcomments.php:118-131 | A cached root list is returned unchanged and nothing is written. Otherwise the filtered search ids are returned, with the long lifetime if and only if the list is non-empty. |
| `Roots.LongTtlIffRootFound` | getcomments.php:125-128 | A searched lookup gets the long lifetime exactly when the response holds a non-reply status. It gets the short one exactly when the response has no status list or only replies. |
| `FileCache.Loaded` | getcomments.php:165-170 | The cache map after reading is the decoded file. It is the empty map when the file is missing or does not decode to a map. |
| `FileCache.StoreCollection` | getcomments.php:151-159 | The key gets the given collection. Every other key keeps its value, and no other key is added. |
| `FileCache.GetCachedCollection` | getcomments.php:161-181 | A collection is returned exactly when the file decodes, holds the term, and the timestamp plus 600 is strictly later than `now`. The returned collection has no timestamp. |
| `FileCache.StoreThenGetWithinWindow` | getcomments.php:151-181 | Storing a collection stamped `t`, then reading it before `t + 600`, gives back the collection without its timestamp. |
| `FileCache.StoreThenGetExpired` | getcomments.php:172-180 | From `t + 600` on, the stored collection is no longer returned. |
| `FileCache.StoreKeepsOtherReads` | getcomments.php:156 | Storing under one term does not change what is read under any other term. |
| `Collector.CollectRoots` | getcomments.php:194-201 | Over all roots, comment keys become the union of the fetched descendant ids. Other comments are kept. Every fetched comment's root is one of the roots. After at least one root, `replies` is the number of distinct comments. `root` and `timestamp` are untouched. |
| `Collector.ThreadIdsMembership` | getcomments.php:194-201 | An id is among the fetched ids exactly when the descendants of some root carry it. |
| `Collector.CollectRootsLastWins` | getcomments.php:194-201 | Take the last descendant with a given id under one root, where no later root's descendants carry that id. The collection holds the record built from that descendant, stamped with that root. |
| `Collector.CollectRootsFromThread` | getcomments.php:194-201 | The record under any fetched id was built from a descendant carrying that id, stamped with the root it was fetched for. |
| `Collector.CollectRootsRecords` | getcomments.php:194-201 | `Collector.CollectRootsFromThread` for every fetched id at once. |
| `Collector.CollectRootsStats` | getcomments.php:194-201 | The loop's reblogs, favourites and url are those of one `getStatistics` call per root, in order. Only `replies` is overwritten. |
| `Collector.Rebuild` | getcomments.php:192-203 | A rebuild sets `root` to the first root id, or 0 when there is none. `replies` is the number of distinct comments, or 0 without roots. The comment keys are exactly the fetched descendant ids, and every comment's root is one of the roots found. The result is stamped with the second clock reading and stored under the term, and the file's other entries are kept. |
| `Collector.Collect` | getcomments.php:184-207 | An empty search, including "0", answers the zeroed result and writes nothing. A cache hit at `now` answers the cached collection and writes nothing. A miss answers and stores exactly the rebuild stamped at `stampedAt`. |
| `Collector.RebuildLastWins` | getcomments.php:192-201 | On a rebuild, the record under a comment id is built from the last descendant with that id, under the last root whose descendants carry it. |
| `Collector.RebuildRecords` | getcomments.php:192-201 | On a rebuild, every comment was built from a descendant carrying its id, fetched for one of the roots found and stamped with that root. |
| `Collector.RebuildSums` | getcomments.php:192-201 | On a rebuild, reblogs and favourites are the sums over the roots. The url is the first non-empty url a root offers. |
| `Collector.HitIgnoresRemote` | getcomments.php:190-205 | On a cache hit the response depends neither on the remote answers nor on the second clock reading. |
| `Collector.RepeatWithinWindow` | getcomments.php:190-205 | Suppose a term is rebuilt and stamped at `t`. Any later request for it before `t + 600` is a hit, whatever the remote now answers. It answers the rebuilt collection minus its timestamp and writes nothing. |

## Left out

- The Redis client, its connection and the Redis branches of `storeCollection` and `getCachedCollection` (getcomments.php:65-68, 152-154, 162-163): an external service. The one Redis read that is kept is the root list cached under `roots/{search}`, as an optional input of `Roots.FindToots`. Its lifetime rule is modelled as `Roots.RootTtl`.
- HTTP fetches (getcomments.php:125, 134, 140): their answers are the fields of `Collector.Remote`. A fetch that returns nothing is a missing map key. It yields no descendants and zero counters.
- `Collector.RootCounters`: after a failed status fetch PHP writes a null url, and the model writes the empty string. Both are PHP-empty, so later roots see the same thing. Only the emitted JSON would differ.
- JSON encoding and decoding, and reading and writing `myCommentsCache.json`: library and I/O. The file is a `FileCache.CacheFile` value. A file that decodes to something other than a map is `Corrupt`, and entries are assumed to decode to collections.
- `Statistics.GetStatistics`: PHP's `+=` on the counters (getcomments.php:143-145) turns an integer into a float once the sum passes PHP_INT_MAX, and the float loses precision. The model's integers are unbounded, so `Statistics.AccumulateAdds` and `Collector.RebuildSums` state exact sums.
- The `(int)` casts of the counters in `filterStats` (getcomments.php:92-94): the counters are already integers in the model.
- PHP turns numeric-string array keys into integer keys. Ids are strings here. This does not change which ids are distinct.
- Response headers and timing (getcomments.php:209-225): output plumbing and floating-point `microtime`. Those lines read `timestamp`, which a cache hit has removed.
- The constructor and configuration (getcomments.php:56-69): no behaviour beyond wiring.
- `removeTag` in test.php: a wrapper over a DOM library whose behaviour is not visible.
- Two requests racing on one cache key: the code is sequential per request.
