/** `get_news` (app.py:192-237): the feeds selected by the source filter are
    read one after the other, re-chunked when a chunk size other than 800 is
    asked for, sorted newest first by their `published` text and cut to the
    limit. */
module Aggregator {
  import opened Substrings
  import opened Environment
  import opened Chunker
  import opened FeedFetcher
  import opened PublishedOrder

  /** The feeds read, in the order they are read. */
  const RssFeeds: seq<string> := [
    "https://vietstock.vn/830/chung-khoan/co-phieu.rss",
    "https://cafef.vn/thi-truong-chung-khoan.rss",
    "https://vietstock.vn/145/chung-khoan/y-kien-chuyen-gia.rss",
    "https://vietstock.vn/737/doanh-nghiep/hoat-dong-kinh-doanh.rss",
    "https://vietstock.vn/1328/dong-duong/thi-truong-chung-khoan.rss",
    "https://vneconomy.vn/chung-khoan.rss",
    "https://vneconomy.vn/tin-moi.rss",
    "https://vneconomy.vn/tai-chinh.rss",
    "https://vneconomy.vn/nhip-cau-doanh-nghiep.rss",
    "https://vneconomy.vn/thi-truong.rss"
  ]

  /** The successful response: the article count and the articles. */
  datatype NewsResponse = Success(totalArticles: nat, articles: seq<Article>)

  /** The sort key. */
  function Published(a: Article): string {
    a.published
  }

  /** The feed at `feedUrl` is read under the (lower-cased) source filter.
      The test of an empty filter changes nothing: `""` is in every string. */
  predicate Selected(env: Env, filter: string, feedUrl: string)
    ensures Selected(env, filter, feedUrl) <==> Contains(Lower(env.netloc(feedUrl)), filter)
  {
    ContainsEmpty(Lower(env.netloc(feedUrl)));
    filter == [] || Contains(Lower(env.netloc(feedUrl)), filter)
  }

  /** The article with its chunks recomputed at chunk size `size`. */
  function Rechunked(a: Article, size: int): (r: Article)
    ensures ChunkedAt(r, size)
    ensures r.(chunks := a.chunks, totalChunks := a.totalChunks) == a
  {
    var chunks := Chunks(a.fullContent, size);
    a.(chunks := chunks, totalChunks := |chunks|)
  }

  function RechunkAll(articles: seq<Article>, size: int): (r: seq<Article>)
    ensures |r| == |articles|
    ensures forall k :: 0 <= k < |r| ==> r[k] == Rechunked(articles[k], size)
  {
    seq(|articles|, k requires 0 <= k < |articles| => Rechunked(articles[k], size))
  }

  /** What one feed contributes to the list: nothing when the filter skips
      it, otherwise its articles, re-chunked when `size` is not 800. */
  function FromFeed(env: Env, filter: string, size: int, feedUrl: string): seq<Article> {
    if !Selected(env, filter, feedUrl) then []
    else if size != FeedChunkSize then RechunkAll(FeedArticles(env, feedUrl), size)
    else FeedArticles(env, feedUrl)
  }

  /** The list built by the loop over `feeds`. */
  function Collected(env: Env, filter: string, size: int, feeds: seq<string>): seq<Article> {
    if feeds == [] then []
    else Collected(env, filter, size, feeds[..|feeds| - 1]) + FromFeed(env, filter, size, feeds[|feeds| - 1])
  }

  /** `get_news` for the query `source`, `limit`, `chunk_size` as a value. */
  function News(env: Env, source: string, limit: int, chunkSize: int): NewsResponse {
    var all := Collected(env, Lower(source), chunkSize, RssFeeds);
    var articles := SliceTo(SortDesc(all, Published), limit);
    Success(|articles|, articles)
  }

  /** The loop of `get_news` that recomputes `chunks` and `total_chunks` of
      every article of one feed at chunk size `size`. */
  method RechunkArticles(articles: seq<Article>, size: int) returns (r: seq<Article>)
    ensures r == RechunkAll(articles, size)
  {
    r := articles;
    for j := 0 to |r|
      invariant |r| == |articles|
      invariant forall k :: 0 <= k < j ==> r[k] == Rechunked(articles[k], size)
      invariant forall k :: j <= k < |r| ==> r[k] == articles[k]
    {
      var chunks := CreateChunks(r[j].fullContent, size);
      r := r[j := r[j].(chunks := chunks, totalChunks := |chunks|)];
    }
  }

  /** `get_news()` with the query parameters already read. */
  method GetNews(env: Env, source: string, limit: int, chunkSize: int) returns (response: NewsResponse)
    ensures response == News(env, source, limit, chunkSize)
  {
    var filter := Lower(source);
    var all: seq<Article> := [];
    for f := 0 to |RssFeeds|
      invariant all == Collected(env, filter, chunkSize, RssFeeds[..f])
    {
      var feedUrl := RssFeeds[f];
      assert RssFeeds[..f + 1][..f] == RssFeeds[..f];
      if filter != [] && !Contains(Lower(env.netloc(feedUrl)), filter) {
        continue;
      }
      var articles := ParseRssFeed(env, feedUrl);
      if chunkSize != FeedChunkSize {
        articles := RechunkArticles(articles, chunkSize);
      }
      all := all + articles;
    }
    assert RssFeeds[..|RssFeeds|] == RssFeeds;
    all := SortDesc(all, Published);
    all := SliceTo(all, limit);
    response := Success(|all|, all);
  }

  // ---------------------------------------------------------------------
  // Lemmas

  /** Every collected article is chunked at `size` and comes from a feed the
      filter selects. */
  lemma {:induction false} CollectedFacts(env: Env, filter: string, size: int, feeds: seq<string>)
    ensures forall a :: a in Collected(env, filter, size, feeds) ==> ChunkedAt(a, size)
    ensures forall a :: a in Collected(env, filter, size, feeds) ==>
      exists f :: f in feeds && Selected(env, filter, f) && a.source == env.netloc(f)
  {
    if feeds != [] {
      var init := feeds[..|feeds| - 1];
      var last := feeds[|feeds| - 1];
      CollectedFacts(env, filter, size, init);
      FeedArticlesWellFormed(env, last);
      forall a | a in FromFeed(env, filter, size, last)
        ensures ChunkedAt(a, size) && Selected(env, filter, last) && a.source == env.netloc(last)
      {
        if size != FeedChunkSize {
          var k :| 0 <= k < |RechunkAll(FeedArticles(env, last), size)|
                   && RechunkAll(FeedArticles(env, last), size)[k] == a;
          assert FeedArticles(env, last)[k] in FeedArticles(env, last);
        }
      }
      forall a | a in Collected(env, filter, size, feeds)
        ensures exists f :: f in feeds && Selected(env, filter, f) && a.source == env.netloc(f)
      {
        if a in Collected(env, filter, size, init) {
          var f :| f in init && Selected(env, filter, f) && a.source == env.netloc(f);
          assert f in feeds;
        } else {
          assert last in feeds;
        }
      }
    }
  }

  /** An article already chunked at `size` is left as it is by re-chunking. */
  lemma RechunkedWhenChunked(a: Article, size: int)
    requires ChunkedAt(a, size)
    ensures Rechunked(a, size) == a
  {
  }

  /** Every feed the filter selects is read: each of its articles, chunked at
      the requested size, is among the collected ones. */
  lemma {:induction false} SelectedFeedContributes(env: Env, filter: string, size: int, feeds: seq<string>, i: nat)
    requires i < |feeds| && Selected(env, filter, feeds[i])
    ensures forall a :: a in FeedArticles(env, feeds[i]) ==> Rechunked(a, size) in Collected(env, filter, size, feeds)
  {
    var init := feeds[..|feeds| - 1];
    var last := feeds[|feeds| - 1];
    if i < |feeds| - 1 {
      assert init[i] == feeds[i];
      SelectedFeedContributes(env, filter, size, init, i);
    } else {
      FeedArticlesWellFormed(env, last);
      forall a | a in FeedArticles(env, last)
        ensures Rechunked(a, size) in FromFeed(env, filter, size, last)
      {
        var k :| 0 <= k < |FeedArticles(env, last)| && FeedArticles(env, last)[k] == a;
        if size == FeedChunkSize {
          RechunkedWhenChunked(a, size);
        } else {
          assert RechunkAll(FeedArticles(env, last), size)[k] == Rechunked(a, size);
        }
      }
    }
  }

  /** A feed the filter skips contributes nothing: when no feed matches the
      filter the response is a success with no articles. */
  lemma {:induction false} NothingSelected(env: Env, filter: string, size: int, feeds: seq<string>)
    requires forall f :: f in feeds ==> !Selected(env, filter, f)
    ensures Collected(env, filter, size, feeds) == []
  {
    if feeds != [] {
      var init := feeds[..|feeds| - 1];
      assert forall f :: f in init ==> f in feeds;
      NothingSelected(env, filter, size, init);
    }
  }

  lemma NoMatchingSource(env: Env, source: string, limit: int, chunkSize: int)
    requires forall f :: f in RssFeeds ==> !Selected(env, Lower(source), f)
    ensures News(env, source, limit, chunkSize) == Success(0, [])
  {
    NothingSelected(env, Lower(source), chunkSize, RssFeeds);
  }

  /** The response: its count is its length; its articles are the newest
      first, each chunked at the requested size and from a feed the filter
      selects; and there are as many as `[:limit]` keeps of the collected
      articles, in Python's slice sense. */
  lemma NewsFacts(env: Env, source: string, limit: int, chunkSize: int)
    ensures var r := News(env, source, limit, chunkSize);
      && r.totalArticles == |r.articles|
      && SortedDesc(r.articles, Published)
      && (forall a :: a in r.articles ==> ChunkedAt(a, chunkSize))
      && (forall a :: a in r.articles ==> Contains(Lower(a.source), Lower(source)))
      && var n := |Collected(env, Lower(source), chunkSize, RssFeeds)|;
      && (limit >= 0 ==> |r.articles| == if limit < n then limit else n)
      && (limit < 0 ==> |r.articles| == if n + limit > 0 then n + limit else 0)
  {
    var filter := Lower(source);
    var all := Collected(env, filter, chunkSize, RssFeeds);
    var sorted := SortDesc(all, Published);
    var r := News(env, source, limit, chunkSize);
    SortDescIsSorted(all, Published);
    SortDescIsPermutation(all, Published);
    assert |sorted| == |all| by {
      assert |multiset(sorted)| == |multiset(all)|;
    }
    SortedPrefix(sorted, |r.articles|, Published);
    CollectedFacts(env, filter, chunkSize, RssFeeds);
    forall a | a in r.articles
      ensures ChunkedAt(a, chunkSize) && Contains(Lower(a.source), filter)
    {
      assert a in multiset(sorted);
      assert a in all;
      var f :| f in RssFeeds && Selected(env, filter, f) && a.source == env.netloc(f);
    }
  }

  /** With a limit at least the number of collected articles, nothing is cut:
      the response holds every collected article, sorted. */
  lemma NothingDroppedUnderLimit(env: Env, source: string, limit: int, chunkSize: int)
    requires limit >= |Collected(env, Lower(source), chunkSize, RssFeeds)|
    ensures multiset(News(env, source, limit, chunkSize).articles)
      == multiset(Collected(env, Lower(source), chunkSize, RssFeeds))
  {
    SortDescIsPermutation(Collected(env, Lower(source), chunkSize, RssFeeds), Published);
  }
}
