/** `parse_rss_feed` (app.py:127-176): the first five entries of a feed become
    article records; an entry whose processing raises is skipped. */
module FeedFetcher {
  import opened Wrappers
  import opened TextNormalizer
  import opened Environment
  import opened ContentExtractor
  import opened Chunker
  import opened PublishedOrder

  /** Entries read from each feed. */
  const MaxEntries: nat := 5
  /** The chunk size `parse_rss_feed` chunks with. */
  const FeedChunkSize: int := 800
  /** The title of an entry that has none. */
  const NoTitle: string := "Không có tiêu đề"

  /** The record built for one entry. */
  datatype Article = Article(
    title: string,
    link: string,
    description: string,
    published: string,
    source: string,
    fullContent: string,
    chunks: seq<string>,
    totalChunks: nat)

  /** The chunk fields agree with the full content at chunk size `size`. */
  predicate ChunkedAt(a: Article, size: int) {
    a.chunks == Chunks(a.fullContent, size) && a.totalChunks == |a.chunks|
  }

  /** The published field: the reformatted date when the date parses, the
      raw text when it does not, the empty string when there is none. */
  function PublishedOf(env: Env, published: Option<string>): string {
    match published
    case None => ""
    case Some(p) => env.parseDate(p).GetOr(p)
  }

  /** The title field: the cleaned title, or the default title when the
      entry has none; `None` when cleaning raises. */
  function TitleOf(env: Env, e: Entry): Option<string> {
    if e.title.Some? then CleanText(env.markupText, e.title.value) else Some(NoTitle)
  }

  /** The description field: the cleaned description, or `""` when the entry
      has none; `None` when cleaning raises. */
  function DescriptionOf(env: Env, e: Entry): Option<string> {
    if e.description.Some? then CleanText(env.markupText, e.description.value) else Some([])
  }

  /** The full content: the fetched article text when there is a link, the
      description otherwise. */
  function FullContentOf(env: Env, link: string, description: string): string {
    if link != [] then GetFullArticleContent(env, link) else description
  }

  /** The record of an entry whose title and description were cleaned. */
  function Record(env: Env, feedUrl: string, e: Entry, title: string, description: string): Article {
    var link := e.link.GetOr([]);
    var full := FullContentOf(env, link, description);
    var chunks := Chunks(full, FeedChunkSize);
    Article(title, link, description, PublishedOf(env, e.published), env.netloc(feedUrl), full, chunks, |chunks|)
  }

  /** The body of the per-entry `try`: the record for entry `e` of the feed
      at `feedUrl`, or `None` when cleaning the title or the description
      raises. */
  function ArticleOf(env: Env, feedUrl: string, e: Entry): (r: Option<Article>)
    ensures r.None? <==>
      (e.title.Some? && CleanText(env.markupText, e.title.value).None?)
      || (e.description.Some? && CleanText(env.markupText, e.description.value).None?)
    ensures r.Some? ==> ChunkedAt(r.value, FeedChunkSize)
    ensures r.Some? && e.title.None? ==> r.value.title == NoTitle
    ensures r.Some? && e.description.None? ==> r.value.description == []
    ensures r.Some? && e.title.Some? ==> CleanText(env.markupText, e.title.value) == Some(r.value.title)
    ensures r.Some? && e.description.Some? ==> CleanText(env.markupText, e.description.value) == Some(r.value.description)
    ensures r.Some? ==> r.value.link == e.link.GetOr([])
    ensures r.Some? && r.value.link != [] ==> r.value.fullContent == GetFullArticleContent(env, r.value.link)
    ensures r.Some? && r.value.link == [] ==> r.value.fullContent == r.value.description
    ensures r.Some? ==> r.value.published == PublishedOf(env, e.published)
    ensures r.Some? ==> r.value.source == env.netloc(feedUrl)
  {
    match TitleOf(env, e)
    case None => None
    case Some(title) =>
      match DescriptionOf(env, e)
      case None => None
      case Some(description) => Some(Record(env, feedUrl, e, title, description))
  }

  /** The records of the entries whose processing did not raise, in entry
      order. */
  function KeepBuilt(env: Env, feedUrl: string, es: seq<Entry>): seq<Article> {
    Present(Builder(env, feedUrl), es)
  }

  /** `ArticleOf` for the feed at `feedUrl`, as a function of the entry. */
  function Builder(env: Env, feedUrl: string): Entry -> Option<Article> {
    e => ArticleOf(env, feedUrl, e)
  }

  /** `parse_rss_feed(feedUrl)` as a value: no records when the feed cannot be
      parsed, otherwise the records of its first five entries. */
  function FeedArticles(env: Env, feedUrl: string): seq<Article> {
    match env.fetchFeed(feedUrl)
    case None => []
    case Some(es) => KeepBuilt(env, feedUrl, SliceTo(es, MaxEntries))
  }

  /** The body of the per-entry `try` of `parse_rss_feed`: the record for
      entry `e`, or `None` when the `except` branch skips the entry. */
  method BuildArticle(env: Env, feedUrl: string, e: Entry) returns (r: Option<Article>)
    ensures r == ArticleOf(env, feedUrl, e)
  {
    var title := NoTitle;
    if e.title.Some? {
      var cleaned := CleanText(env.markupText, e.title.value);
      if cleaned.None? {
        return None;
      }
      title := cleaned.value;
    }
    assert TitleOf(env, e) == Some(title);
    var link := e.link.GetOr([]);
    var description := [];
    if e.description.Some? {
      var cleaned := CleanText(env.markupText, e.description.value);
      if cleaned.None? {
        return None;
      }
      description := cleaned.value;
    }
    assert DescriptionOf(env, e) == Some(description);
    var published := [];
    if e.published.Some? {
      match env.parseDate(e.published.value) {
        case Some(d) => published := d;
        case None => published := e.published.value;
      }
    }
    assert published == PublishedOf(env, e.published);
    var fullContent := if link != [] then GetFullArticleContent(env, link) else description;
    assert fullContent == FullContentOf(env, link, description);
    var chunks := CreateChunks(fullContent, FeedChunkSize);
    r := Some(Article(title, link, description, published, env.netloc(feedUrl),
                      fullContent, chunks, |chunks|));
    assert r.value == Record(env, feedUrl, e, title, description);
  }

  /** `parse_rss_feed(feedUrl)`. */
  method ParseRssFeed(env: Env, feedUrl: string) returns (articles: seq<Article>)
    ensures articles == FeedArticles(env, feedUrl)
    ensures |articles| <= MaxEntries
  {
    var fetched := env.fetchFeed(feedUrl);
    if fetched.None? {
      return [];
    }
    var entries := SliceTo(fetched.value, MaxEntries);
    articles := [];
    for i := 0 to |entries|
      invariant articles == KeepBuilt(env, feedUrl, entries[..i])
      invariant |articles| <= i
    {
      var built := BuildArticle(env, feedUrl, entries[i]);
      KeepBuiltStep(env, feedUrl, entries, i);
      if built.Some? {
        articles := articles + [built.value];
      }
    }
    assert entries[..|entries|] == entries;
  }

  /** One more entry processed: its record, if it has one, follows the
      records of the entries before it. */
  lemma KeepBuiltStep(env: Env, feedUrl: string, es: seq<Entry>, i: nat)
    requires i < |es|
    ensures KeepBuilt(env, feedUrl, es[..i + 1])
      == KeepBuilt(env, feedUrl, es[..i]) + ArticleOf(env, feedUrl, es[i]).ToSeq()
  {
    assert es[..i + 1][..i] == es[..i];
  }

  // ---------------------------------------------------------------------
  // Lemmas

  lemma NoTitleIsNormalized()
    ensures Normalized(NoTitle)
  {
    var t := NoTitle;
    assert forall i :: 0 <= i < |t| && IsSpace(t[i]) ==> t[i] == ' ';
    assert forall i :: 0 <= i < |t| - 1 ==> !(IsSpace(t[i]) && IsSpace(t[i + 1]));
  }

  /** The title, description and full content of a record are clean text:
      trimmed, with whitespace only as single spaces. */
  lemma ArticleTextIsClean(env: Env, feedUrl: string, e: Entry)
    requires ArticleOf(env, feedUrl, e).Some?
    ensures var a := ArticleOf(env, feedUrl, e).value;
      Normalized(a.title) && Normalized(a.description) && Normalized(a.fullContent)
  {
    NoTitleIsNormalized();
  }

  /** Entries are processed independently: the records of two runs of entries
      are the records of each, one after the other. */
  lemma KeepBuiltAppend(env: Env, feedUrl: string, xs: seq<Entry>, ys: seq<Entry>)
    ensures KeepBuilt(env, feedUrl, xs + ys) == KeepBuilt(env, feedUrl, xs) + KeepBuilt(env, feedUrl, ys)
  {
    PresentAppend(Builder(env, feedUrl), xs, ys);
  }

  /** An entry whose processing raises leaves the records of its neighbours
      as they would be without it. */
  lemma FailedEntryIsSkipped(env: Env, feedUrl: string, xs: seq<Entry>, e: Entry, ys: seq<Entry>)
    requires ArticleOf(env, feedUrl, e).None?
    ensures KeepBuilt(env, feedUrl, xs + [e] + ys) == KeepBuilt(env, feedUrl, xs + ys)
  {
    assert Builder(env, feedUrl)(e).None?;
    PresentSkip(Builder(env, feedUrl), xs, e, ys);
  }

  /** The positions of the entries that yield a record. */
  function KeptIndices(env: Env, feedUrl: string, es: seq<Entry>): (r: seq<nat>)
    ensures forall k :: 0 <= k < |r| ==> r[k] < |es|
  {
    PresentAt(Builder(env, feedUrl), es)
  }

  /** Record `k` is built from entry `KeptIndices(...)[k]`, and the indices
      increase, so the records keep the order of their entries. */
  lemma KeepBuiltInEntryOrder(env: Env, feedUrl: string, es: seq<Entry>)
    ensures var idx := KeptIndices(env, feedUrl, es);
      && |idx| == |KeepBuilt(env, feedUrl, es)|
      && (forall k :: 0 <= k < |idx| ==> ArticleOf(env, feedUrl, es[idx[k]]) == Some(KeepBuilt(env, feedUrl, es)[k]))
      && (forall k, l :: 0 <= k < l < |idx| ==> idx[k] < idx[l])
  {
    PresentInOrder(Builder(env, feedUrl), es);
  }

  /** Every record of a feed carries the feed's network location and is
      chunked at 800 characters. */
  lemma FeedArticlesWellFormed(env: Env, feedUrl: string)
    ensures |FeedArticles(env, feedUrl)| <= MaxEntries
    ensures forall a :: a in FeedArticles(env, feedUrl) ==> ChunkedAt(a, FeedChunkSize)
    ensures forall a :: a in FeedArticles(env, feedUrl) ==> a.source == env.netloc(feedUrl)
  {
    match env.fetchFeed(feedUrl)
    case None =>
    case Some(es) =>
      KeepBuiltFacts(env, feedUrl, SliceTo(es, MaxEntries));
  }

  lemma KeepBuiltFacts(env: Env, feedUrl: string, es: seq<Entry>)
    ensures |KeepBuilt(env, feedUrl, es)| <= |es|
    ensures forall a :: a in KeepBuilt(env, feedUrl, es) ==> ChunkedAt(a, FeedChunkSize)
    ensures forall a :: a in KeepBuilt(env, feedUrl, es) ==> a.source == env.netloc(feedUrl)
  {
    forall a | a in KeepBuilt(env, feedUrl, es)
      ensures ChunkedAt(a, FeedChunkSize) && a.source == env.netloc(feedUrl)
    {
      PresentFrom(Builder(env, feedUrl), es, a);
      var e :| e in es && Builder(env, feedUrl)(e) == Some(a);
      assert ArticleOf(env, feedUrl, e) == Some(a);
    }
  }
}
