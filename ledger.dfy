/** The ledger of sent tweets (`List<SentTweet> SentTweets`) and the pure
    rules that read it: the first-occurrence lookup used to rank candidates,
    the reply target, and the metrics refresh as a function of the ledger and
    of what the network returns. */
module Ledger {
  import opened Wrappers

  /** One row of tweets.csv. `dateTime` stands for the DateTime value (0 is
      DateTime.MinValue); counts stay absent until the refresh sets them. */
  datatype SentTweet = SentTweet(
    name: string,
    dateTime: int,
    url: string,
    id: int,
    favoriteCount: Option<int>,
    retweetCount: Option<int>,
    replyCount: Option<int>)

  /** Column order of the CSV file, as fixed by the class map. */
  const Columns: seq<string> :=
    ["Name", "DateTime", "Url", "Id", "FavoriteCount", "RetweetCount", "ReplyCount"]

  /** `SentTweets.FindIndex(y => y.Name == name)`: the position of the first
      record with exactly this name, -1 when no record has it. */
  function FindIndex(ledger: seq<SentTweet>, name: string): (r: int)
    ensures -1 <= r < |ledger|
    ensures r == -1 <==> forall i :: 0 <= i < |ledger| ==> ledger[i].name != name
    ensures r >= 0 ==> ledger[r].name == name
    ensures forall i :: 0 <= i < r ==> ledger[i].name != name
  {
    if ledger == [] then -1
    else if ledger[0].name == name then 0
    else
      var k := FindIndex(ledger[1..], name);
      if k < 0 then -1 else k + 1
  }

  /** `SentTweets.FirstOrDefault()?.Id`: the id of the oldest record. */
  function ReplyTarget(ledger: seq<SentTweet>): (r: Option<int>)
    ensures r.None? <==> ledger == []
    ensures r.Some? ==> r.value == ledger[0].id
  {
    if ledger == [] then None else Some(ledger[0].id)
  }

  /** Appending records never changes the reply target of a non-empty ledger. */
  lemma ReplyTargetStable(ledger: seq<SentTweet>, more: seq<SentTweet>)
    requires ledger != []
    ensures ReplyTarget(ledger + more) == ReplyTarget(ledger)
  {
  }

  /** What `GetTweetAsync` reports; the reply count is nullable in the client. */
  datatype TweetCounts = TweetCounts(favorites: int, retweets: int, replies: Option<int>)

  /** The refresh gate: only a missing favourite count triggers a fetch. */
  predicate NeedsRefresh(t: SentTweet) {
    t.favoriteCount.None?
  }

  /** The record after its three count fields were overwritten. */
  function WithCounts(t: SentTweet, c: TweetCounts): SentTweet {
    t.(favoriteCount := Some(c.favorites), retweetCount := Some(c.retweets), replyCount := c.replies)
  }

  /** What the refresh loop leaves in one record once it has visited it. */
  function RefreshOne(t: SentTweet, fetch: int -> Option<TweetCounts>): SentTweet {
    if NeedsRefresh(t) && fetch(t.id).Some? then WithCounts(t, fetch(t.id).value) else t
  }

  /** Index of the first record whose fetch is needed and fails, or the
      ledger's length when every needed fetch succeeds. */
  function FetchFailureAt(ledger: seq<SentTweet>, fetch: int -> Option<TweetCounts>): (k: nat)
    ensures k <= |ledger|
    ensures forall i :: 0 <= i < k ==> !NeedsRefresh(ledger[i]) || fetch(ledger[i].id).Some?
    ensures k < |ledger| ==> NeedsRefresh(ledger[k]) && fetch(ledger[k].id).None?
  {
    if ledger == [] then 0
    else if NeedsRefresh(ledger[0]) && fetch(ledger[0].id).None? then 0
    else 1 + FetchFailureAt(ledger[1..], fetch)
  }

  /** The ledger once the loop has visited its first `n` records. */
  function RefreshPrefix(ledger: seq<SentTweet>, fetch: int -> Option<TweetCounts>, n: nat): (r: seq<SentTweet>)
    ensures |r| == |ledger|
  {
    seq(|ledger|, i requires 0 <= i < |ledger| => if i < n then RefreshOne(ledger[i], fetch) else ledger[i])
  }

  /** The in-memory ledger after `UpdateTweets`: refreshed up to the first
      failing fetch (all of it when none fails), untouched from there on. */
  function Refresh(ledger: seq<SentTweet>, fetch: int -> Option<TweetCounts>): seq<SentTweet> {
    RefreshPrefix(ledger, fetch, FetchFailureAt(ledger, fetch))
  }

  /** A complete refresh: every record then has a favourite count, records
      that had one are unchanged whatever their other counts, the others carry
      what was fetched for their id, and names, ids, urls, dates and order are
      as before. */
  lemma RefreshComplete(ledger: seq<SentTweet>, fetch: int -> Option<TweetCounts>)
    requires FetchFailureAt(ledger, fetch) == |ledger|
    ensures |Refresh(ledger, fetch)| == |ledger|
    ensures forall i :: 0 <= i < |ledger| ==> Refresh(ledger, fetch)[i].favoriteCount.Some?
    ensures forall i :: 0 <= i < |ledger| && !NeedsRefresh(ledger[i]) ==> Refresh(ledger, fetch)[i] == ledger[i]
    ensures forall i :: 0 <= i < |ledger| && NeedsRefresh(ledger[i]) ==>
      Refresh(ledger, fetch)[i] == WithCounts(ledger[i], fetch(ledger[i].id).value)
    ensures forall i :: 0 <= i < |ledger| ==>
      var t, u := ledger[i], Refresh(ledger, fetch)[i];
      u.name == t.name && u.id == t.id && u.url == t.url && u.dateTime == t.dateTime
  {
  }

  /** A refresh that fails at record `k` has completed the records before it
      and left that record and all later ones as they were. */
  lemma RefreshAborted(ledger: seq<SentTweet>, fetch: int -> Option<TweetCounts>)
    requires FetchFailureAt(ledger, fetch) < |ledger|
    ensures var k := FetchFailureAt(ledger, fetch);
      Refresh(ledger, fetch)[k..] == ledger[k..] &&
      forall i :: 0 <= i < k ==> Refresh(ledger, fetch)[i].favoriteCount.Some?
  {
    var k := FetchFailureAt(ledger, fetch);
    var r := Refresh(ledger, fetch);
    assert r == RefreshPrefix(ledger, fetch, k);
    assert r[k..] == ledger[k..] by {
      forall i | k <= i < |ledger| ensures r[i] == ledger[i] { }
    }
    forall i | 0 <= i < k ensures r[i].favoriteCount.Some? {
      assert r[i] == RefreshOne(ledger[i], fetch);
    }
  }

  /** Whether or not a fetch fails: a record that had a favourite count is
      untouched, every record before the failure point that needed one
      carries what was fetched for its id, and names, ids, urls and dates are
      kept everywhere. */
  lemma RefreshChangesOnlyUncounted(ledger: seq<SentTweet>, fetch: int -> Option<TweetCounts>)
    ensures |Refresh(ledger, fetch)| == |ledger|
    ensures forall i :: 0 <= i < |ledger| && !NeedsRefresh(ledger[i]) ==> Refresh(ledger, fetch)[i] == ledger[i]
    ensures forall i :: 0 <= i < FetchFailureAt(ledger, fetch) && NeedsRefresh(ledger[i]) ==>
      Refresh(ledger, fetch)[i] == WithCounts(ledger[i], fetch(ledger[i].id).value)
    ensures forall i :: 0 <= i < |ledger| ==>
      var t, u := ledger[i], Refresh(ledger, fetch)[i];
      u.name == t.name && u.id == t.id && u.url == t.url && u.dateTime == t.dateTime
  {
  }

  /** Refreshing again after a complete refresh changes nothing and fetches
      nothing. */
  lemma RefreshIdempotent(ledger: seq<SentTweet>, fetch: int -> Option<TweetCounts>, again: int -> Option<TweetCounts>)
    requires FetchFailureAt(ledger, fetch) == |ledger|
    ensures Refresh(Refresh(ledger, fetch), again) == Refresh(ledger, fetch)
  {
  }

  /** A ledger in which every record has a favourite count needs no fetch. */
  lemma NothingToFetch(ledger: seq<SentTweet>, fetch: int -> Option<TweetCounts>)
    requires forall i :: 0 <= i < |ledger| ==> !NeedsRefresh(ledger[i])
    ensures FetchFailureAt(ledger, fetch) == |ledger|
    ensures Refresh(ledger, fetch) == ledger
  {
  }
}
