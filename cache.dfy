/**
 * get_cached_news: a get-or-compute cache over one key with a 900-second
 * time to live, in front of the feed refresh that processes every entry.
 */
module NewsFeedCache {
  import opened Wrappers
  import opened EntryProcessor

  /** The key the post list is stored under. */
  const NewsKey: string := "psoe_news"

  /** cache.set(..., 900): seconds a stored list stays fresh. */
  const Ttl: int := 900

  /** A stored value and the moment it expires. */
  datatype Slot = Slot(value: seq<PostRecord>, expires: int)

  /**
   * feedparser.parse(rss_url): the HTTP status it reports (None when the
   * fetch failed and the result has no status) and its entries in order.
   */
  datatype Feed = Feed(status: Option<int>, entries: seq<RawEntry>)

  /** The exceptions get_cached_news lets through to the view. */
  datatype Fault =
    | FeedWithoutStatus              // AttributeError on feed.status
    | EntryWithoutContent(index: nat) // AttributeError or IndexError at entry.content[0] in the worker

  /** process_single_post with the collaborators of one refresh fixed. */
  function Processor(env: Env): RawEntry -> Option<PostRecord> {
    e => ProcessSinglePost(e, env)
  }

  /** posts holds what process gives for every entry, in entry order. */
  ghost predicate ProcessedInOrder(process: RawEntry -> Option<PostRecord>, entries: seq<RawEntry>, posts: seq<PostRecord>) {
    |posts| == |entries|
    && forall i :: 0 <= i < |entries| ==> process(entries[i]) == Some(posts[i])
  }

  /** k is the first entry whose processing raises. */
  ghost predicate FirstFailure(process: RawEntry -> Option<PostRecord>, entries: seq<RawEntry>, k: nat) {
    k < |entries| && process(entries[k]).None?
    && forall i :: 0 <= i < k ==> process(entries[i]).Some?
  }

  /** Every entry can be processed. */
  ghost predicate AllProcess(process: RawEntry -> Option<PostRecord>, entries: seq<RawEntry>) {
    forall i :: 0 <= i < |entries| ==> process(entries[i]).Some?
  }

  /** The records of a feed are determined by its entries. */
  lemma ProcessedIsUnique(process: RawEntry -> Option<PostRecord>, entries: seq<RawEntry>, p1: seq<PostRecord>, p2: seq<PostRecord>)
    requires ProcessedInOrder(process, entries, p1) && ProcessedInOrder(process, entries, p2)
    ensures p1 == p2
  {
    assert forall i :: 0 <= i < |p1| ==> Some(p1[i]) == Some(p2[i]);
  }

  /**
   * list(executor.map(process, entries)): the results are taken in entry
   * order, whatever order the workers finish in, and the first worker that
   * raised makes the whole call raise.
   */
  method ProcessEntries(process: RawEntry -> Option<PostRecord>, entries: seq<RawEntry>)
    returns (res: Result<seq<PostRecord>, Fault>)
    ensures res.Success? <==> AllProcess(process, entries)
    ensures res.Success? ==> ProcessedInOrder(process, entries, res.value)
    ensures res.Failure? ==> res.error.EntryWithoutContent? && FirstFailure(process, entries, res.error.index)
  {
    var posts: seq<PostRecord> := [];
    var i := 0;
    while i < |entries|
      invariant 0 <= i <= |entries| && |posts| == i
      invariant forall j :: 0 <= j < i ==> process(entries[j]) == Some(posts[j])
    {
      var p := process(entries[i]);
      if p.None? {
        return Failure(EntryWithoutContent(i));
      }
      posts := posts + [p.value];
      i := i + 1;
    }
    return Success(posts);
  }

  /** The cache backend with its clock, and the view's use of it. */
  class NewsCache {
    var store: map<string, Slot>
    var now: int
    /** How many times the feed has been fetched. */
    ghost var feedFetches: nat

    /** Nothing stored stays fresh for longer than the time to live from now. */
    ghost predicate Valid()
      reads this
    {
      forall k :: k in store ==> store[k].expires <= now + Ttl
    }

    constructor (start: int)
      ensures Valid() && store == map[] && now == start && feedFetches == 0
    {
      store := map[];
      now := start;
      feedFetches := 0;
    }

    /** cache.get(key): the stored value, while it has not expired. */
    function Get(key: string): (r: Option<seq<PostRecord>>)
      reads this
      ensures r.Some? <==> key in store && now < store[key].expires
      ensures r.Some? ==> r.value == store[key].value
    {
      if key in store && now < store[key].expires then Some(store[key].value) else None
    }

    /** `if cached_data:` an empty list is falsy, so it counts as a miss. */
    predicate IsHit()
      reads this
      ensures IsHit() <==> NewsKey in store && now < store[NewsKey].expires && store[NewsKey].value != []
    {
      var c := Get(NewsKey);
      c.Some? && c.value != []
    }

    /** cache.set(key, value, 900). */
    method Set(key: string, value: seq<PostRecord>)
      requires Valid()
      modifies this
      ensures Valid()
      ensures store == old(store)[key := Slot(value, now + Ttl)]
      ensures now == old(now) && feedFetches == old(feedFetches)
      ensures Get(key) == Some(value)
    {
      store := store[key := Slot(value, now + Ttl)];
    }

    /** Time passes. */
    method Tick(dt: nat)
      requires Valid()
      modifies this
      ensures Valid()
      ensures now == old(now) + dt && store == old(store) && feedFetches == old(feedFetches)
      // nothing stays fresh once the time to live has passed
      ensures dt >= Ttl ==> forall k :: Get(k).None?
    {
      now := now + dt;
    }

    /**
     * get_cached_news(): a fresh non-empty stored list is returned without
     * touching the feed; otherwise the feed is fetched, every entry is
     * processed in order, and a complete list is stored for 900 seconds.
     */
    method GetCachedNews(feed: Feed, env: Env) returns (res: Result<seq<PostRecord>, Fault>)
      requires Valid()
      modifies this
      ensures Valid() && now == old(now)
      // a hit: the stored list, no feed fetch, nothing changes
      ensures old(IsHit()) ==>
        res == Success(old(Get(NewsKey)).value) && store == old(store) && feedFetches == old(feedFetches)
      // a miss fetches the feed exactly once
      ensures !old(IsHit()) ==> feedFetches == old(feedFetches) + 1
      ensures !old(IsHit()) && feed.status.None? ==>
        res == Failure(FeedWithoutStatus) && store == old(store)
      ensures !old(IsHit()) && feed.status.Some? && feed.status.value != 200 ==>
        res == Success([]) && store == old(store)
      // a refresh returns and stores one record per entry, in entry order
      ensures !old(IsHit()) && feed.status == Some(200) && res.Success? ==>
        ProcessedInOrder(Processor(env), feed.entries, res.value) && store == old(store)[NewsKey := Slot(res.value, now + Ttl)]
      // or fails at the first entry that cannot be processed, storing nothing
      ensures !old(IsHit()) && feed.status == Some(200) && res.Failure? ==>
        res.error.EntryWithoutContent? && FirstFailure(Processor(env), feed.entries, res.error.index) && store == old(store)
      ensures !old(IsHit()) && feed.status == Some(200) ==> (res.Success? <==> AllProcess(Processor(env), feed.entries))
    {
      var cached := Get(NewsKey);
      if cached.Some? && cached.value != [] {
        return Success(cached.value);
      }
      feedFetches := feedFetches + 1;
      if feed.status.None? {
        return Failure(FeedWithoutStatus);
      }
      if feed.status.value != 200 {
        return Success([]);
      }
      var run := ProcessEntries(Processor(env), feed.entries);
      if run.Failure? {
        return run;
      }
      var posts := run.value;
      Set(NewsKey, posts);
      return Success(posts);
    }
  }

  /**
   * A refresh, a read within the time to live, and a read after it expires:
   * the second read returns the stored list without consulting the feed it
   * is given; the third fetches the feed again. A refresh of a feed with no
   * entries stores an empty list, which the next call does not count as a hit.
   * The one env holds the web fixed across all four calls, so the last refresh
   * of the same feed gives the same list.
   */
  method RefreshHitExpire(feed: Feed, other: Feed, empty: Feed, env: Env)
    requires feed.status == Some(200) && feed.entries != []
    requires AllProcess(Processor(env), feed.entries)
    requires empty.status == Some(200) && empty.entries == []
  {
    var c := new NewsCache(0);
    var first := c.GetCachedNews(feed, env);
    assert first.Success? && |first.value| == |feed.entries| > 0;
    c.Tick(Ttl - 1);
    var second := c.GetCachedNews(other, env);
    assert second == first && c.feedFetches == 1;
    c.Tick(1);
    assert !c.IsHit();
    var third := c.GetCachedNews(empty, env);
    assert third == Success([]) && c.feedFetches == 2;
    var fourth := c.GetCachedNews(feed, env);
    ProcessedIsUnique(Processor(env), feed.entries, first.value, fourth.value);
    assert c.feedFetches == 3 && fourth == first;
  }
}
