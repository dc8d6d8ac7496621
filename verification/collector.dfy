/**
 The collection entry point of getcomments.php: answer from the file cache
 when it holds a fresh collection for the search term; otherwise find the
 root toots, merge their comments and statistics into one collection, stamp
 it and store it.
 */
module Collector {
  import opened Values
  import opened Filters
  import opened Statistics
  import opened Roots
  import opened FileCache

  /** The answers the remote instance would give, passed in as values: the
      search response, and per root id its reply descendants and its status.
      An id missing from a map is a fetch that returned nothing. */
  datatype Remote = Remote(search: SearchResponse, context: map<Id, seq<Status>>, details: map<Id, Status>)

  /** The descendants fetched for `id`; none when the fetch returned nothing. */
  function Descendants(remote: Remote, id: Id): seq<Status>
  {
    if id in remote.context then remote.context[id] else []
  }

  /** The counters fetched for `id`; zero counters and an empty url when the
      fetch returned nothing. */
  function RootCounters(remote: Remote, id: Id): Counters
  {
    if id in remote.details then FilterStats(remote.details[id]) else Counters(0, 0, 0, "")
  }

  /** The counters of each root, in the order of `ids`. */
  function CountersOf(remote: Remote, ids: seq<Id>): (cs: seq<Counters>)
    ensures |cs| == |ids|
  {
    if |ids| == 0 then [] else [RootCounters(remote, ids[0])] + CountersOf(remote, ids[1..])
  }

  /** The ids of all descendants fetched for the roots `ids`. */
  function ThreadIds(remote: Remote, ids: seq<Id>): set<Id>
  {
    if |ids| == 0 then {} else Ids(Descendants(remote, ids[0])) + ThreadIds(remote, ids[1..])
  }

  /** One pass of the loop for root `id`: merge its comments, then its
      statistics, then overwrite `replies` with the number of comments. */
  function CollectRoot(acc: Collection, remote: Remote, id: Id): Collection
  {
    var comments := FilterComments(Descendants(remote, id), id, acc.comments);
    var stats := GetStatistics(acc.stats, RootCounters(remote, id));
    Collection(comments, stats.(replies := |comments|), acc.timestamp)
  }

  /** The loop over all roots, in order. */
  function CollectRoots(acc: Collection, remote: Remote, ids: seq<Id>): (r: Collection)
    ensures |ids| == 0 ==> r == acc
    ensures |ids| > 0 ==> r.stats.replies == |r.comments|
    ensures r.comments.Keys == acc.comments.Keys + ThreadIds(remote, ids)
    ensures forall k :: k in acc.comments && k !in ThreadIds(remote, ids) ==> r.comments[k] == acc.comments[k]
    ensures forall k :: k in ThreadIds(remote, ids) ==> r.comments[k].root in ids
    ensures r.stats.root == acc.stats.root && r.timestamp == acc.timestamp
    decreases |ids|
  {
    if |ids| == 0 then acc
    else CollectRoots(CollectRoot(acc, remote, ids[0]), remote, ids[1..])
  }

  /** Accumulating from two statistics that differ only in `replies` gives the
      same reblogs, favourites and url. */
  lemma {:induction false} AccumulateIgnoresReplies(a: Stats, b: Stats, cs: seq<Counters>)
    requires a.(replies := b.replies) == b
    ensures Accumulate(a, cs).reblogs == Accumulate(b, cs).reblogs
    ensures Accumulate(a, cs).favs == Accumulate(b, cs).favs
    ensures Accumulate(a, cs).url == Accumulate(b, cs).url
    decreases |cs|
  {
    if |cs| > 0 {
      AccumulateIgnoresReplies(GetStatistics(a, cs[0]), GetStatistics(b, cs[0]), cs[1..]);
    }
  }

  /** The loop's reblogs, favourites and url are those of one `GetStatistics`
      call per root in order; only `replies` is overwritten. */
  lemma {:induction false} CollectRootsStats(acc: Collection, remote: Remote, ids: seq<Id>)
    ensures CollectRoots(acc, remote, ids).stats.reblogs == Accumulate(acc.stats, CountersOf(remote, ids)).reblogs
    ensures CollectRoots(acc, remote, ids).stats.favs == Accumulate(acc.stats, CountersOf(remote, ids)).favs
    ensures CollectRoots(acc, remote, ids).stats.url == Accumulate(acc.stats, CountersOf(remote, ids)).url
    decreases |ids|
  {
    if |ids| > 0 {
      var next := CollectRoot(acc, remote, ids[0]);
      CollectRootsStats(next, remote, ids[1..]);
      assert CountersOf(remote, ids)[1..] == CountersOf(remote, ids[1..]);
      var s1 := GetStatistics(acc.stats, RootCounters(remote, ids[0]));
      var s2 := next.stats;
      assert s2 == s1.(replies := s2.replies);
      AccumulateIgnoresReplies(s1, s2, CountersOf(remote, ids[1..]));
    }
  }

  /** An id is fetched for the roots `ids` exactly when the descendants of
      one of them carry it. */
  lemma {:induction false} ThreadIdsMembership(remote: Remote, ids: seq<Id>, k: Id)
    ensures k in ThreadIds(remote, ids) <==> exists j :: 0 <= j < |ids| && k in Ids(Descendants(remote, ids[j]))
    decreases |ids|
  {
    if |ids| > 0 {
      ThreadIdsMembership(remote, ids[1..], k);
      if k in ThreadIds(remote, ids[1..]) {
        var m :| 0 <= m < |ids[1..]| && k in Ids(Descendants(remote, ids[1..][m]));
        assert ids[1..][m] == ids[m + 1];
      }
      if exists j :: 0 <= j < |ids| && k in Ids(Descendants(remote, ids[j])) {
        var j :| 0 <= j < |ids| && k in Ids(Descendants(remote, ids[j]));
        if j > 0 {
          assert ids[1..][j - 1] == ids[j];
        }
      }
    }
  }

  /** The loop keeps the record of the last writer: when descendant `i` of
      root `ids[j]` is the last of that root's descendants with its id, and no
      later root's descendants carry that id, the collection holds the record
      built from that descendant and stamped with root `ids[j]`. */
  lemma {:induction false} CollectRootsLastWins(acc: Collection, remote: Remote, ids: seq<Id>, j: int, i: int)
    requires 0 <= j < |ids| && 0 <= i < |Descendants(remote, ids[j])|
    requires LastWithId(Descendants(remote, ids[j]), i)
    requires Descendants(remote, ids[j])[i].id !in ThreadIds(remote, ids[j + 1..])
    ensures Descendants(remote, ids[j])[i].id in CollectRoots(acc, remote, ids).comments
    ensures CollectRoots(acc, remote, ids).comments[Descendants(remote, ids[j])[i].id] ==
      ToComment(Descendants(remote, ids[j])[i], ids[j])
    decreases |ids|
  {
    var next := CollectRoot(acc, remote, ids[0]);
    var d := Descendants(remote, ids[j])[i];
    assert CollectRoots(acc, remote, ids) == CollectRoots(next, remote, ids[1..]);
    if j == 0 {
      FilterCommentsLastWins(Descendants(remote, ids[0]), ids[0], acc.comments, i);
      assert next.comments[d.id] == ToComment(d, ids[0]);
      assert ids[j + 1..] == ids[1..];
      assert d.id !in ThreadIds(remote, ids[1..]);
    } else {
      var rest := ids[1..];
      assert rest[j - 1] == ids[j];
      assert rest[j - 1 + 1..] == ids[j + 1..];
      CollectRootsLastWins(next, remote, rest, j - 1, i);
    }
  }

  /** `c` is the record built from a descendant with id `k` of some root in
      `ids`, stamped with that root. */
  ghost predicate BuiltFromThread(c: Comment, remote: Remote, ids: seq<Id>, k: Id)
  {
    exists j, i :: 0 <= j < |ids| && 0 <= i < |Descendants(remote, ids[j])| &&
      Descendants(remote, ids[j])[i].id == k && c == ToComment(Descendants(remote, ids[j])[i], ids[j])
  }

  /** Every record the loop stores under a fetched id was built from a
      descendant carrying that id, stamped with the root it was fetched for. */
  lemma {:induction false} CollectRootsFromThread(acc: Collection, remote: Remote, ids: seq<Id>, k: Id)
    requires k in ThreadIds(remote, ids)
    ensures BuiltFromThread(CollectRoots(acc, remote, ids).comments[k], remote, ids, k)
  {
    ThreadIdsMembership(remote, ids, k);
    var j :| 0 <= j < |ids| && k in Ids(Descendants(remote, ids[j]));
    while k in ThreadIds(remote, ids[j + 1..])
      invariant 0 <= j < |ids| && k in Ids(Descendants(remote, ids[j]))
      decreases |ids| - j
    {
      ThreadIdsMembership(remote, ids[j + 1..], k);
      var m :| 0 <= m < |ids[j + 1..]| && k in Ids(Descendants(remote, ids[j + 1..][m]));
      assert ids[j + 1..][m] == ids[j + 1 + m];
      j := j + 1 + m;
    }
    var ds := Descendants(remote, ids[j]);
    var d :| d in ds && d.id == k;
    var i :| 0 <= i < |ds| && ds[i] == d;
    while !LastWithId(ds, i)
      invariant 0 <= i < |ds| && ds[i].id == k
      decreases |ds| - i
    {
      var later :| i < later < |ds| && ds[later].id == ds[i].id;
      i := later;
    }
    CollectRootsLastWins(acc, remote, ids, j, i);
  }

  /** `CollectRootsFromThread` for every fetched id at once. */
  lemma CollectRootsRecords(acc: Collection, remote: Remote, ids: seq<Id>)
    ensures forall k :: k in ThreadIds(remote, ids) ==> BuiltFromThread(CollectRoots(acc, remote, ids).comments[k], remote, ids, k)
  {
    forall k | k in ThreadIds(remote, ids)
      ensures BuiltFromThread(CollectRoots(acc, remote, ids).comments[k], remote, ids, k)
    {
      CollectRootsFromThread(acc, remote, ids, k);
    }
  }

  /** What one request produces: the collection answered, and the new content
      of the cache file when the collector wrote it. */
  datatype Response = Response(result: Collection, stored: Option<Entries>)

  /** The first root id, or `None` (the integer 0) when no root was found. */
  function FirstRoot(ids: seq<Id>): Option<Id>
  {
    if |ids| > 0 then Some(ids[0]) else None
  }

  /** The zeroed result with `root` set, from which a rebuild starts. */
  function Start(ids: seq<Id>): Collection
  {
    InitialResult.(stats := InitialResult.stats.(root := FirstRoot(ids)))
  }

  /** From the zeroed result, the loop's keys are exactly the fetched ids,
      and `replies` counts them once at least one root was visited. */
  lemma StartReplies(remote: Remote, ids: seq<Id>)
    ensures CollectRoots(Start(ids), remote, ids).stats.replies ==
      (if |ids| > 0 then |CollectRoots(Start(ids), remote, ids).comments| else 0)
    ensures CollectRoots(Start(ids), remote, ids).comments.Keys == ThreadIds(remote, ids)
  {
    assert Start(ids).comments.Keys == {} && Start(ids).stats.replies == 0;
  }

  /** The miss path of a request: find the roots, run the loop from the
      zeroed result with `root` set, stamp the result at `stampedAt` and store
      it under `search` in the cache map read from `file`. */
  function Rebuild(search: string, file: CacheFile, remote: Remote, stampedAt: int): (r: Response)
    ensures r.result.stats.root == FirstRoot(FilterSearchResults(remote.search))
    ensures r.result.stats.replies == (if |FilterSearchResults(remote.search)| > 0 then |r.result.comments| else 0)
    ensures r.result.comments.Keys == ThreadIds(remote, FilterSearchResults(remote.search))
    ensures forall k :: k in r.result.comments ==> r.result.comments[k].root in FilterSearchResults(remote.search)
    ensures r.result.timestamp == Some(stampedAt)
    ensures r.stored == Some(StoreCollection(Loaded(file), search, r.result))
  {
    var ids := FindToots(None, remote.search).ids;
    assert ids == FilterSearchResults(remote.search);
    StartReplies(remote, ids);
    var collected := CollectRoots(Start(ids), remote, ids);
    var result := collected.(timestamp := Some(stampedAt));
    Response(result, Some(StoreCollection(Loaded(file), search, result)))
  }

  /** Serves one request for `search` with the file cache backend. The clock
      is read twice: `now` when the cache is consulted, `stampedAt` when a
      rebuilt collection is stamped after the remote fetches. An empty search
      (PHP-empty, so also "0") answers the zeroed result; a fresh cached
      collection is answered as read; otherwise the collection is rebuilt. */
  function Collect(search: string, file: CacheFile, remote: Remote, now: int, stampedAt: int): (r: Response)
    ensures IsEmpty(search) ==> r == Response(InitialResult, None)
    ensures !IsEmpty(search) && GetCachedCollection(file, search, now).Some? ==>
      r == Response(GetCachedCollection(file, search, now).value, None)
    ensures !IsEmpty(search) && GetCachedCollection(file, search, now).None? ==>
      r == Rebuild(search, file, remote, stampedAt)
  {
    if IsEmpty(search) then Response(InitialResult, None)
    else
      match GetCachedCollection(file, search, now)
      case Some(cached) => Response(cached, None)
      case None => Rebuild(search, file, remote, stampedAt)
  }

  /** On a rebuild, the record under a comment id is the one built from its
      last descendant, under the last root whose descendants carry that id. */
  lemma RebuildLastWins(search: string, file: CacheFile, remote: Remote, stampedAt: int, j: int, i: int)
    requires 0 <= j < |FilterSearchResults(remote.search)|
    requires 0 <= i < |Descendants(remote, FilterSearchResults(remote.search)[j])|
    requires LastWithId(Descendants(remote, FilterSearchResults(remote.search)[j]), i)
    requires Descendants(remote, FilterSearchResults(remote.search)[j])[i].id
      !in ThreadIds(remote, FilterSearchResults(remote.search)[j + 1..])
    ensures Descendants(remote, FilterSearchResults(remote.search)[j])[i].id in Rebuild(search, file, remote, stampedAt).result.comments
    ensures Rebuild(search, file, remote, stampedAt).result.comments[Descendants(remote, FilterSearchResults(remote.search)[j])[i].id] ==
      ToComment(Descendants(remote, FilterSearchResults(remote.search)[j])[i], FilterSearchResults(remote.search)[j])
  {
    var ids := FilterSearchResults(remote.search);
    assert Rebuild(search, file, remote, stampedAt).result.comments == CollectRoots(Start(ids), remote, ids).comments;
    CollectRootsLastWins(Start(ids), remote, ids, j, i);
  }

  /** On a rebuild, every comment was built from a descendant carrying its
      id, fetched for one of the roots found and stamped with that root. */
  lemma RebuildRecords(search: string, file: CacheFile, remote: Remote, stampedAt: int)
    ensures forall k :: k in Rebuild(search, file, remote, stampedAt).result.comments ==>
      BuiltFromThread(Rebuild(search, file, remote, stampedAt).result.comments[k], remote, FilterSearchResults(remote.search), k)
  {
    var ids := FilterSearchResults(remote.search);
    assert Rebuild(search, file, remote, stampedAt).result.comments == CollectRoots(Start(ids), remote, ids).comments;
    CollectRootsRecords(Start(ids), remote, ids);
  }

  /** On a rebuild, the statistics hold the sums of the roots' reblogs and
      favourites, and the first non-empty url offered by a root. */
  lemma RebuildSums(search: string, file: CacheFile, remote: Remote, stampedAt: int)
    ensures Rebuild(search, file, remote, stampedAt).result.stats.reblogs == TotalReblogs(CountersOf(remote, FilterSearchResults(remote.search)))
    ensures Rebuild(search, file, remote, stampedAt).result.stats.favs == TotalFavs(CountersOf(remote, FilterSearchResults(remote.search)))
    ensures forall i :: 0 <= i < |FilterSearchResults(remote.search)| && FirstUrlAt(CountersOf(remote, FilterSearchResults(remote.search)), i) ==>
      Rebuild(search, file, remote, stampedAt).result.stats.url == CountersOf(remote, FilterSearchResults(remote.search))[i].url
  {
    var ids := FilterSearchResults(remote.search);
    CollectRootsStats(Start(ids), remote, ids);
    AccumulateAdds(Start(ids).stats, CountersOf(remote, ids));
    AccumulateFirstUrlWins(Start(ids).stats, CountersOf(remote, ids));
  }

  /** A cache hit consults no remote answer and no second clock reading: any
      remote and any stamp time give the same response. */
  lemma HitIgnoresRemote(search: string, file: CacheFile, remote: Remote, other: Remote, now: int, stampedAt: int, otherStamp: int)
    requires GetCachedCollection(file, search, now).Some?
    ensures Collect(search, file, remote, now, stampedAt) == Collect(search, file, other, now, otherStamp)
  {
  }

  /** A rebuild stamped at `t` followed by a request for the same term before
      `t` plus the threshold is a cache hit: it answers the rebuilt collection
      without its timestamp, whatever the remote now says, and writes nothing. */
  lemma RepeatWithinWindow(search: string, file: CacheFile, remote: Remote, checkedAt: int, t: int,
                           later: Remote, now: int, laterStamp: int)
    requires !IsEmpty(search) && GetCachedCollection(file, search, checkedAt).None?
    requires now < t + Threshold
    ensures var first := Collect(search, file, remote, checkedAt, t);
      Collect(search, Decoded(first.stored.value), later, now, laterStamp) == Response(first.result.(timestamp := None), None)
  {
    var first := Collect(search, file, remote, checkedAt, t);
    StoreThenGetWithinWindow(Loaded(file), search, first.result, t, now);
  }
}
