/**
 Finding the root toots of a search term, and the lifetime under which the
 networked cache keeps the lookup under `roots/{search}`.
 */
module Roots {
  import opened Values
  import opened Filters

  /** The lifetime of a stored root lookup: four weeks once a root was found,
      the ordinary ten minutes otherwise. */
  function RootTtl(ids: seq<Id>): (ttl: int)
    ensures ttl == RootThreshold <==> |ids| > 0
    ensures ttl == Threshold <==> |ids| == 0
  {
    if |ids| > 0 then RootThreshold else Threshold
  }

  /** The outcome of a root lookup: ids read back from the networked cache, or
      ids found by a search. `ttl` is the lifetime under which the networked
      cache keeps a searched lookup; it applies only when that cache is
      configured, and without it nothing is written. */
  datatype RootLookup = Cached(ids: seq<Id>) | Searched(ids: seq<Id>, ttl: int)

  /** Finds the root toots of a search term. `cached` is what the networked
      cache holds under `roots/{search}` (`None` on a miss or without that
      cache); `response` is what the search would return. */
  function FindToots(cached: Option<seq<Id>>, response: SearchResponse): (r: RootLookup)
    ensures cached.Some? ==> r == Cached(cached.value)
    ensures cached.None? ==> r.Searched? && r.ids == FilterSearchResults(response)
    ensures r.Searched? ==> (r.ttl == RootThreshold <==> |r.ids| > 0) && (r.ttl == Threshold <==> |r.ids| == 0)
  {
    match cached
    case Some(ids) => Cached(ids)
    case None =>
      var ids := FilterSearchResults(response);
      Searched(ids, RootTtl(ids))
  }

  /** A searched lookup is kept for four weeks exactly when the response holds
      a status that is not a reply, and for ten minutes otherwise. */
  lemma LongTtlIffRootFound(response: SearchResponse)
    ensures var r := FindToots(None, response);
      r.ttl == RootThreshold <==>
        response.statuses.Some? && exists s :: s in response.statuses.value && s.inReplyToId.None?
    ensures var r := FindToots(None, response);
      r.ttl == Threshold <==>
        response.statuses.None? || forall s :: s in response.statuses.value ==> s.inReplyToId.Some?
  {
    if response.statuses.Some? {
      var statuses := response.statuses.value;
      if exists s :: s in statuses && s.inReplyToId.None? {
        var s :| s in statuses && s.inReplyToId.None?;
        RootIdsMembership(statuses, s.id);
      } else if |RootIds(statuses)| > 0 {
        RootIdsMembership(statuses, RootIds(statuses)[0]);
      }
    }
  }
}
