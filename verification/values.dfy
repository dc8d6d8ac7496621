/**
 The values the comment collector works on: the fields it reads from Mastodon
 statuses, the comment and statistics records it builds from them, the
 aggregated collection it caches, and the two cache lifetimes.
 */
module Values {

  datatype Option<+T> = None | Some(value: T)

  /** A Mastodon status id; the API sends ids as decimal strings. */
  type Id = string

  /** PHP's `empty()` on a string, which is also PHP's falsy test for strings:
      both the empty string and the string "0" count as empty. */
  predicate IsEmpty(s: string)
  {
    s == "" || s == "0"
  }

  /** The account fields of a status that the collector reads. */
  datatype Account = Account(displayName: string, username: string, avatarStatic: string, url: string)

  /** The fields of a Mastodon status that the collector reads. `inReplyToId`
      is `None` when the API sends null, i.e. when the status is not a reply. */
  datatype Status = Status(
    id: Id,
    inReplyToId: Option<Id>,
    account: Account,
    content: string,
    createdAt: string,
    uri: string,
    url: string,
    reblogsCount: int,
    favouritesCount: int,
    repliesCount: int)

  /** A search response; `statuses` is `None` when `html.statuses` is not set. */
  datatype SearchResponse = SearchResponse(statuses: Option<seq<Status>>)

  datatype Author = Author(displayName: string, avatar: string, url: string)

  /** One comment of a collection, built from a descendant status of `root`. */
  datatype Comment = Comment(author: Author, toot: string, date: string, url: string, replyTo: Option<Id>, root: Id)

  /** The engagement counters of one status. */
  datatype Counters = Counters(reblogs: int, favs: int, replies: int, url: string)

  /** The statistics of a collection. `root` is `None` where the collector
      writes the integer 0 because no root toot was found. */
  datatype Stats = Stats(reblogs: int, favs: int, replies: int, url: string, root: Option<Id>)

  /** The aggregate for one search term: comments keyed by status id, the
      statistics, and the refresh time (absent until the collector stamps it,
      and stripped again when the collection is read back from the cache). */
  datatype Collection = Collection(comments: map<Id, Comment>, stats: Stats, timestamp: Option<int>)

  /** The zeroed result the collector starts from. */
  const InitialResult: Collection := Collection(map[], Stats(0, 0, 0, "", None), None)

  /** Cache lifetime of collections and of searches that found no root: 10 minutes. */
  const Threshold: int := 600

  /** Cache lifetime of a root lookup that found at least one root: 4 weeks. */
  const RootThreshold: int := 28 * 24 * 60 * 60
}
