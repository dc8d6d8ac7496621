/**
 The statistics accumulator of getcomments.php: every root toot's counters are
 added to the collection's statistics, and the statistics url is taken from
 the first root toot that provides one.
 */
module Statistics {
  import opened Values

  /** Merges the counters of one root toot into `acc`: reblogs, favourites and
      replies are added, and `url` is written only while the accumulated url
      is PHP-empty. */
  function GetStatistics(acc: Stats, c: Counters): (r: Stats)
    ensures r.reblogs - acc.reblogs == c.reblogs && r.favs - acc.favs == c.favs && r.replies - acc.replies == c.replies
    ensures !IsEmpty(acc.url) ==> r.url == acc.url
    ensures IsEmpty(acc.url) ==> r.url == c.url
    ensures r.root == acc.root
  {
    var url := if IsEmpty(acc.url) then c.url else acc.url;
    Stats(acc.reblogs + c.reblogs, acc.favs + c.favs, acc.replies + c.replies, url, acc.root)
  }

  /** The statistics after one `GetStatistics` call per element of `cs`, in order. */
  function Accumulate(acc: Stats, cs: seq<Counters>): Stats
    decreases |cs|
  {
    if |cs| == 0 then acc else Accumulate(GetStatistics(acc, cs[0]), cs[1..])
  }

  function TotalReblogs(cs: seq<Counters>): int
  {
    if |cs| == 0 then 0 else cs[0].reblogs + TotalReblogs(cs[1..])
  }

  function TotalFavs(cs: seq<Counters>): int
  {
    if |cs| == 0 then 0 else cs[0].favs + TotalFavs(cs[1..])
  }

  function TotalReplies(cs: seq<Counters>): int
  {
    if |cs| == 0 then 0 else cs[0].replies + TotalReplies(cs[1..])
  }

  /** Repeated calls add up every counter and leave `root` alone. */
  lemma {:induction false} AccumulateAdds(acc: Stats, cs: seq<Counters>)
    ensures Accumulate(acc, cs).reblogs == acc.reblogs + TotalReblogs(cs)
    ensures Accumulate(acc, cs).favs == acc.favs + TotalFavs(cs)
    ensures Accumulate(acc, cs).replies == acc.replies + TotalReplies(cs)
    ensures Accumulate(acc, cs).root == acc.root
    decreases |cs|
  {
    if |cs| > 0 {
      AccumulateAdds(GetStatistics(acc, cs[0]), cs[1..]);
    }
  }

  /** Position `i` holds the first non-empty url of `cs`. */
  predicate FirstUrlAt(cs: seq<Counters>, i: int)
    requires 0 <= i < |cs|
  {
    !IsEmpty(cs[i].url) && forall j :: 0 <= j < i ==> IsEmpty(cs[j].url)
  }

  /** First writer wins: a non-empty accumulated url is never replaced, and
      from an empty one the result is the first non-empty url offered; when no
      call offers one, the url of the last call remains. */
  lemma {:induction false} AccumulateFirstUrlWins(acc: Stats, cs: seq<Counters>)
    ensures !IsEmpty(acc.url) ==> Accumulate(acc, cs).url == acc.url
    ensures forall i :: 0 <= i < |cs| && IsEmpty(acc.url) && FirstUrlAt(cs, i) ==> Accumulate(acc, cs).url == cs[i].url
    ensures |cs| > 0 && IsEmpty(acc.url) && (forall j :: 0 <= j < |cs| ==> IsEmpty(cs[j].url)) ==>
      Accumulate(acc, cs).url == cs[|cs| - 1].url
    decreases |cs|
  {
    if |cs| > 0 {
      var next := GetStatistics(acc, cs[0]);
      AccumulateFirstUrlWins(next, cs[1..]);
      forall i | 0 <= i < |cs| && IsEmpty(acc.url) && FirstUrlAt(cs, i)
        ensures Accumulate(acc, cs).url == cs[i].url
      {
        if i > 0 {
          assert FirstUrlAt(cs[1..], i - 1) by {
            forall j | 0 <= j < i - 1
              ensures IsEmpty(cs[1..][j].url)
            {
              assert cs[1..][j] == cs[j + 1];
            }
          }
        }
      }
      if IsEmpty(acc.url) && (forall j :: 0 <= j < |cs| ==> IsEmpty(cs[j].url)) && |cs| > 1 {
        assert forall j :: 0 <= j < |cs[1..]| ==> IsEmpty(cs[1..][j].url) by {
          forall j | 0 <= j < |cs[1..]|
            ensures IsEmpty(cs[1..][j].url)
          {
            assert cs[1..][j] == cs[j + 1];
          }
        }
      }
    }
  }

  /** The worked example: starting from zeroed statistics, merging (3, 1, 2)
      and then (0, 5, 1) gives totals (3, 6, 3) and the first call's url. */
  lemma AccumulateExample()
    ensures var r := Accumulate(Stats(0, 0, 0, "", None), [Counters(3, 1, 2, "https://a"), Counters(0, 5, 1, "https://b")]);
      r.reblogs == 3 && r.favs == 6 && r.replies == 3 && r.url == "https://a"
  {
  }
}
