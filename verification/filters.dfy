/**
 The response filters of getcomments.php: reshaping the descendants of a root
 toot into comment records, extracting engagement counters, and keeping the
 ids of root toots from a search response.
 */
module Filters {
  import opened Values

  /** The name shown for a comment's author: the account's display name when
      that is not PHP-empty, and otherwise its username. */
  function AuthorName(a: Account): (name: string)
    ensures !IsEmpty(a.displayName) ==> name == a.displayName
    ensures IsEmpty(a.displayName) ==> name == a.username
    ensures IsEmpty(name) <==> IsEmpty(a.displayName) && IsEmpty(a.username)
  {
    if IsEmpty(a.displayName) then a.username else a.displayName
  }

  /** The comment record built from descendant `d` of root toot `root`. */
  function ToComment(d: Status, root: Id): Comment
  {
    Comment(
      Author(AuthorName(d.account), d.account.avatarStatic, d.account.url),
      d.content, d.createdAt, d.uri, d.inReplyToId, root)
  }

  /** The ids of a sequence of statuses. */
  function Ids(ds: seq<Status>): set<Id>
  {
    set d | d in ds :: d.id
  }

  /** No status after position `i` has the id of the status at `i`. */
  predicate LastWithId(ds: seq<Status>, i: int)
    requires 0 <= i < |ds|
  {
    forall j :: i < j < |ds| ==> ds[j].id != ds[i].id
  }

  /** Writes one comment record per descendant into `acc`, in order, keyed by
      the descendant's id; a later descendant with the same id overwrites. */
  function FilterComments(ds: seq<Status>, root: Id, acc: map<Id, Comment>): (r: map<Id, Comment>)
    ensures r.Keys == acc.Keys + Ids(ds)
    ensures forall k :: k in acc && k !in Ids(ds) ==> r[k] == acc[k]
    ensures forall k :: k in Ids(ds) ==> r[k].root == root
    decreases |ds|
  {
    if |ds| == 0 then acc
    else
      IdsOfTail(ds);
      FilterComments(ds[1..], root, acc[ds[0].id := ToComment(ds[0], root)])
  }

  lemma IdsOfTail(ds: seq<Status>)
    requires |ds| > 0
    ensures Ids(ds) == {ds[0].id} + Ids(ds[1..])
  {
    assert ds == [ds[0]] + ds[1..];
  }

  lemma FirstNotInTail(ds: seq<Status>)
    requires |ds| > 0 && forall j :: 0 < j < |ds| ==> ds[j].id != ds[0].id
    ensures ds[0].id !in Ids(ds[1..])
  {
    forall d | d in ds[1..]
      ensures d.id != ds[0].id
    {
      var j :| 0 <= j < |ds[1..]| && ds[1..][j] == d;
      assert ds[j + 1] == d;
    }
  }

  /** The record stored under a descendant's id is built from the LAST
      descendant carrying that id, so its `root` is the given root and its
      `replyTo` is that descendant's `in_reply_to_id`. */
  lemma {:induction false} FilterCommentsLastWins(ds: seq<Status>, root: Id, acc: map<Id, Comment>, i: int)
    requires 0 <= i < |ds| && LastWithId(ds, i)
    ensures ds[i].id in FilterComments(ds, root, acc)
    ensures FilterComments(ds, root, acc)[ds[i].id] == ToComment(ds[i], root)
    ensures FilterComments(ds, root, acc)[ds[i].id].replyTo == ds[i].inReplyToId
    decreases |ds|
  {
    var acc' := acc[ds[0].id := ToComment(ds[0], root)];
    if i == 0 {
      IdsOfTail(ds);
      FirstNotInTail(ds);
    } else {
      assert LastWithId(ds[1..], i - 1) by {
        forall j | i - 1 < j < |ds[1..]|
          ensures ds[1..][j].id != ds[1..][i - 1].id
        {
          assert ds[1..][j] == ds[j + 1];
        }
      }
      FilterCommentsLastWins(ds[1..], root, acc', i - 1);
    }
  }

  /** Every id written by the filter has a descendant it was built from. */
  lemma {:induction false} FilterCommentsFromDescendant(ds: seq<Status>, root: Id, acc: map<Id, Comment>, k: Id)
    requires k in Ids(ds)
    ensures exists i :: 0 <= i < |ds| && ds[i].id == k && FilterComments(ds, root, acc)[k] == ToComment(ds[i], root)
    decreases |ds|
  {
    var i :| 0 <= i < |ds| && ds[i].id == k;
    while !LastWithId(ds, i)
      invariant 0 <= i < |ds| && ds[i].id == k
      decreases |ds| - i
    {
      var j :| i < j < |ds| && ds[j].id == ds[i].id;
      i := j;
    }
    FilterCommentsLastWins(ds, root, acc, i);
  }

  lemma {:induction false} DistinctIdsCount(ds: seq<Status>)
    requires forall i, j :: 0 <= i < j < |ds| ==> ds[i].id != ds[j].id
    ensures |Ids(ds)| == |ds|
    decreases |ds|
  {
    if |ds| > 0 {
      IdsOfTail(ds);
      DistinctIdsCount(ds[1..]);
      FirstNotInTail(ds);
    }
  }

  /** Descendants with pairwise distinct ids, written into an empty map, give
      exactly one record per descendant. */
  lemma {:induction false} FilterCommentsCount(ds: seq<Status>, root: Id)
    requires forall i, j :: 0 <= i < j < |ds| ==> ds[i].id != ds[j].id
    ensures |FilterComments(ds, root, map[]).Keys| == |ds|
  {
    DistinctIdsCount(ds);
  }

  /** The engagement counters of a status, as integers, with its url: the
      reblog count becomes `reblogs`, the favourite count `favs`, the reply
      count `replies`. */
  function FilterStats(s: Status): (c: Counters)
    ensures c.reblogs == s.reblogsCount && c.favs == s.favouritesCount && c.replies == s.repliesCount
    ensures c.url == s.url
  {
    Counters(s.reblogsCount, s.favouritesCount, s.repliesCount, s.url)
  }

  /** The ids of the statuses that are not replies, in their order. */
  function RootIds(statuses: seq<Status>): (ids: seq<Id>)
    ensures |ids| <= |statuses|
  {
    if |statuses| == 0 then []
    else (if statuses[0].inReplyToId.None? then [statuses[0].id] else []) + RootIds(statuses[1..])
  }

  /** The root ids of a search response; none when the response has no status list. */
  function FilterSearchResults(response: SearchResponse): (ids: seq<Id>)
    ensures response.statuses.None? ==> ids == []
    ensures response.statuses.Some? ==> ids == RootIds(response.statuses.value)
  {
    match response.statuses
    case None => []
    case Some(statuses) => RootIds(statuses)
  }

  /** Filtering a concatenation filters each part and keeps them in order. */
  lemma {:induction false} RootIdsConcat(a: seq<Status>, b: seq<Status>)
    ensures RootIds(a + b) == RootIds(a) + RootIds(b)
    decreases |a|
  {
    if |a| == 0 {
      assert a + b == b;
    } else {
      assert (a + b)[0] == a[0];
      assert (a + b)[1..] == a[1..] + b;
      RootIdsConcat(a[1..], b);
      var head := if a[0].inReplyToId.None? then [a[0].id] else [];
      assert RootIds(a + b) == head + RootIds(a[1..] + b);
      assert RootIds(a) == head + RootIds(a[1..]);
    }
  }

  /** An id is kept exactly when some status carrying it is not a reply. */
  lemma {:induction false} RootIdsMembership(statuses: seq<Status>, id: Id)
    ensures id in RootIds(statuses) <==> exists s :: s in statuses && s.inReplyToId.None? && s.id == id
    decreases |statuses|
  {
    if |statuses| > 0 {
      RootIdsMembership(statuses[1..], id);
      assert statuses == [statuses[0]] + statuses[1..];
    }
  }


  /** A search listing a root toot and then a reply keeps only the root's id. */
  lemma FilterSearchResultsExample(root: Status, reply: Status)
    requires root.inReplyToId.None? && reply.inReplyToId.Some?
    ensures FilterSearchResults(SearchResponse(Some([root, reply]))) == [root.id]
    ensures FilterSearchResults(SearchResponse(Some([reply, root]))) == [root.id]
  {
    assert [root][1..] == [] && [reply][1..] == [];
    assert RootIds([reply]) == [] && RootIds([root]) == [root.id];
    assert [root, reply][1..] == [reply];
    assert [reply, root][1..] == [root];
  }
}
