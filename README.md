# Vietnam stock-news aggregator: a Dafny model of its pipeline

The service reads ten fixed RSS feeds from three Vietnamese financial-news
sites (vietstock.vn, cafef.vn, vneconomy.vn). For each of the first five
entries of a feed it builds an article record. That record holds the cleaned
title and description and the full article text scraped from the linked page,
and it splits that text into sentence-based chunks. The `/api/news` endpoint
then filters the feeds by source. For each selected feed it re-chunks the
articles at the requested size when that size is not 800. It then sorts all
articles newest first by their `published` text and cuts the list to the
limit.

This project models the deterministic part of that pipeline in Dafny and
proves its properties. The HTTP client, the HTML parser, the feed parser, URL
parsing and date parsing are given as plain functions in an `Env` value
(`environment.dfy`). A call that raises in the source returns `None` there.

| file | module | source |
|---|---|---|
| `wrappers.dfy` | `Wrappers` | the `Option` type |
| `text.dfy` | `TextNormalizer` | `clean_text` |
| `substrings.dfy` | `Substrings` | Python's `in` on strings and ASCII `lower()` |
| `environment.dfy` | `Environment` | the foreign calls, the page and entry shapes |
| `chunker.dfy` | `Chunker` | `create_chunks` |
| `extractor.dfy` | `ContentExtractor` | `get_full_article_content` |
| `feed.dfy` | `FeedFetcher` | `parse_rss_feed` |
| `order.dfy` | `PublishedOrder` | `list.sort(key=..., reverse=True)`, and the slices `[:limit]` and `[:5]` |
| `aggregator.dfy` | `Aggregator` | `get_news` |

The loops of the source are methods proved against specification functions:
`Chunker.CreateChunks` against `Chunks`, `FeedFetcher.ParseRssFeed` against
`FeedArticles`, `Aggregator.RechunkArticles` against `RechunkAll`, and
`Aggregator.GetNews` against `News`. The per-entry body of `parse_rss_feed`
is the method `FeedFetcher.BuildArticle`, proved against `ArticleOf`. The
lemmas then state what the source promises about those functions. Skipping
the entries whose processing raises is the generic `Wrappers.Present`, the
present results of an optional-valued function over a list, and its lemmas
give the feed lemmas.

Behaviour of the code that the model keeps as written:
- A source filter that matches no feed gives a successful response with no
  articles, not a validation error.
- Chunks are pieces of one article's text, made by packing sentences. There is
  no chunking of the article list into fixed-size groups.
- There is no minimum-length test on a selector's match and no
  paragraph fallback. The first selector that finds an element wins.
- An article whose page gives no text keeps the fixed placeholder as its full
  content and is not dropped.
- Feeds are read one after the other, not by a pool of workers.
- The sort is Python's stable sort. Articles with equal `published` text keep
  their collection order.

## Model

| member | source | states |
|---|---|---|
| TextNormalizer.Strip | app.py:40 | the result has no whitespace at either end |
| TextNormalizer.LStrip | app.py:40 | the result is the suffix left once the leading whitespace run is removed |
| TextNormalizer.RStrip | app.py:40 | the result is the prefix left once the trailing whitespace run is removed |
| TextNormalizer.StripRemovesSurroundingSpace | app.py:40 | `strip()` returns a contiguous piece of its input with only whitespace before and after it in the input |
| TextNormalizer.Collapse | app.py:39 | every whitespace character left is a single `' '` with no whitespace beside it; the non-whitespace characters are those of the input, in order; the result is no longer than the input, empty exactly when the input is, and starts with whitespace exactly when the input does; `CollapseKeepsTrailingSpace` adds the same for the end |
| TextNormalizer.CollapseKeepsTrailingSpace | app.py:39 | the result ends with whitespace exactly when the input does, so a trailing whitespace run becomes one space and is not dropped |
| TextNormalizer.CollapseKeepsWords | app.py:39 | `re.sub(r'\s+', ' ', ...)` keeps the maximal runs of non-whitespace characters (the words) unchanged and in order; with the leading and trailing whitespace clauses of `Collapse` and `CollapseKeepsTrailingSpace`, this leaves one result: each whitespace run replaced by one space |
| TextNormalizer.Normalize | app.py:39-40 | collapse followed by strip leaves no surrounding whitespace, no two adjacent whitespace characters and no whitespace other than `' '`, and keeps every non-whitespace character, in order, adding none |
| TextNormalizer.CleanText | app.py:29-42 | empty input gives `""` without calling the parser; a parser failure is a failure of the call; any other result is the parser's text collapsed and then stripped |
| TextNormalizer.NormalizedIsFixedPoint | app.py:39-40 | a string already trimmed and collapsed is left unchanged |
| TextNormalizer.NormalizeIdempotent | app.py:39-40 | collapse followed by strip is idempotent |
| TextNormalizer.NonSpaceAppend | app.py:39 | the non-whitespace characters of a concatenation are those of each part, in order |
| Substrings.Contains | app.py:61 | `sub in s` holds exactly when `sub` occurs in `s` at some position |
| Substrings.LowerChar | app.py:206 | an ASCII capital becomes the lower-case letter 32 code points on; every other character is unchanged |
| Substrings.Lower | app.py:206 | the result has the input's length and is `LowerChar` applied at every position |
| Substrings.ContainsEmpty | app.py:206 | `"" in s` holds for every string `s` |
| Chunker.SplitSentences | app.py:103 | `re.split(r'[.!?]+', text)` as a recursive definition; it always returns at least one piece |
| Chunker.SplitSentencesIsASplit | app.py:103 | the pieces, interleaved with the maximal runs of `.`, `!` and `?` of the text, give back the text; no piece holds a terminator and only the first and last piece may be empty |
| Chunker.SplitIsUnique | app.py:103 | any such decomposition of the text into pieces and terminator runs has exactly the pieces of the split, so the split is the regular-expression split |
| Chunker.SplitKeepsText | app.py:103 | the pieces of `re.split(r'[.!?]+')` together hold exactly the text's characters other than `.`, `!` and `?`, in order |
| Chunker.SplitPiecesHaveNoTerminator | app.py:103 | no piece of the split contains `.`, `!` or `?` |
| Chunker.SentencesHaveNoTerminator | app.py:103-110 | no packed sentence contains `.`, `!` or `?` |
| Chunker.KeepSentences | app.py:108-110 | the loop's test `if sentence:` after `strip()`, as a definition; its properties are stated by `KeptAreSentences` and `KeptSentencesHaveNoTerminator` |
| Chunker.KeptAreSentences | app.py:107-110 | the kept sentences are stripped and non-empty, and there are no more of them than pieces |
| Chunker.Pack | app.py:107-123 | the greedy packing of the loop as a definition on sentence lists; its properties are stated by `PackKeepsSentences` and `PackGreedy` |
| Chunker.Chunks | app.py:97-125 | `create_chunks` as a definition: the packed groups rendered as text; its properties are stated by the `Chunks...` lemmas below |
| Chunker.CreateChunks | app.py:97-125 | the loop over the pieces returns exactly the chunks of the greedy packing of the text's sentences; empty text gives `[]` |
| Chunker.ChunksWellFormed | app.py:99-123 | empty text gives no chunk; every chunk is non-empty, has no surrounding whitespace and ends with `.` |
| Chunker.ChunksRoundTrip | app.py:103-123 | the chunks hold the non-empty stripped sentences once each, in order; joined with single spaces they give every sentence followed by `". "`, stripped, for every chunk size |
| Chunker.ChunkCount | app.py:107-123 | there are never more chunks than non-empty sentences |
| Chunker.ChunkLength | app.py:113-119 | a chunk of two or more sentences has at most `chunk_size + 1` characters; a chunk of one sentence is that sentence followed by `.`, however long |
| Chunker.ChunkClosedOnlyWhenFull | app.py:113-119 | a chunk is closed only when the next sentence does not fit: the chunk, its final space and the next chunk's first sentence exceed `chunk_size` |
| Chunker.ChunksOfNonPositiveSize | app.py:113-119 | with `chunk_size <= 0` every sentence is a chunk of its own |
| Chunker.PackKeepsSentences | app.py:107-123 | greedy packing neither drops, duplicates nor reorders a sentence |
| Chunker.PackGreedy | app.py:113-119 | packing opens a new chunk only when the sentence does not fit beside the open one |
| Chunker.RenderDropsFinalSpace | app.py:118 | closing a chunk removes exactly the final space of `". "`, and leaves text ending in `.` |
| ContentExtractor.SelectorChain | app.py:61-82 | every site has three selectors; the `article` tag is tried only when no known site name is in the domain; `div.article-content` is in every chain |
| ContentExtractor.FirstFound | app.py:63-82 | the `or`-chain gives the element of the first selector that finds one, and nothing exactly when no selector finds one |
| ContentExtractor.Extracted | app.py:54-89 | the `try` block as a definition: fetch, choose the selector chain by domain, take the first match and clean its text; its properties are stated by `ContentOfFirstMatch` and `NoMatchGivesPlaceholder` |
| ContentExtractor.OrPlaceholder | app.py:91 | empty or missing content gives the placeholder; non-empty content is returned as it is |
| ContentExtractor.GetFullArticleContent | app.py:44-95 | the result is never empty and is clean text; a failed fetch gives the placeholder; non-empty cleaned text of the first matching element is returned as it is |
| ContentExtractor.ContentOfFirstMatch | app.py:61-91 | on a fetched page the first selector of the site's chain that finds an element decides the result |
| ContentExtractor.NoMatchGivesPlaceholder | app.py:84-91 | a page on which no selector of the chain finds an element gives the placeholder |
| FeedFetcher.PublishedOf | app.py:141-147 | the `published` field as a definition: `""` when absent, the reformatted date when parsing succeeds, the raw text otherwise |
| FeedFetcher.ArticleOf | app.py:134-166 | the entry is skipped exactly when cleaning its title or description raises; otherwise title and description are the cleaned entry fields, a missing title becomes `"Không có tiêu đề"` and a missing description `""`; the link is the entry's link or `""`; a non-empty link gives the page's full content and an empty one the description; `published` is `PublishedOf` of the entry's date; `source` is the feed URL's network location; `total_chunks` is the number of chunks, made at size 800 |
| FeedFetcher.BuildArticle | app.py:134-166 | the statements of the per-entry `try` build exactly the record `ArticleOf` describes, and return nothing exactly when cleaning the title or the description raises |
| Wrappers.PresentAppend | app.py:133-170 | skipping the entries that raise works entry by entry: the records of two runs are the records of each, one after the other |
| Wrappers.PresentInOrder | app.py:133-170 | the records that survive the skipping are those of increasing entry positions |
| Wrappers.PresentSkip | app.py:168-170 | an entry that raises leaves the records of its neighbours as they would be without it |
| FeedFetcher.FeedArticles | app.py:127-176 | `parse_rss_feed` as a definition: no records for an unparsable feed, otherwise the built records of the first five entries; its properties are stated by the `FeedFetcher` lemmas below |
| FeedFetcher.ParseRssFeed | app.py:127-176 | the loop over the entries returns exactly the records of the entries that did not raise, in entry order; an unparsable feed gives no records; there are at most five |
| FeedFetcher.ArticleTextIsClean | app.py:136-150 | title, description and full content of every record are trimmed and collapsed |
| FeedFetcher.FailedEntryIsSkipped | app.py:168-170 | an entry whose processing raises leaves its siblings' records as they would be without it |
| FeedFetcher.KeepBuiltAppend | app.py:133-170 | the records of two runs of entries are the records of each, one after the other |
| FeedFetcher.KeepBuiltInEntryOrder | app.py:133-166 | record `k` is built from an entry whose position increases with `k`, so records keep feed-entry order |
| FeedFetcher.FeedArticlesWellFormed | app.py:133-163 | a feed yields at most five records, each chunked at 800 with `total_chunks == len(chunks)` and carrying the feed's network location |
| PublishedOrder.StrLe | app.py:220 | Python's `<=` on strings as a recursive definition; `StrLeIsLexicographic` ties it to the usual definition |
| PublishedOrder.StrLeIsLexicographic | app.py:220 | `StrLe(a, b)` holds exactly when `a` is a prefix of `b` or `a` has the smaller character at the first position where they differ |
| PublishedOrder.StrLeTotal | app.py:220 | any two strings are comparable |
| PublishedOrder.StrLeTrans | app.py:220 | string order is transitive |
| PublishedOrder.StrLeAntisym | app.py:220 | string order is antisymmetric |
| PublishedOrder.SortDesc | app.py:220 | `sorted(..., reverse=True)` as insertion sort; the four `SortDesc...` lemmas below state that it is the stable descending sort |
| PublishedOrder.SortDescIsPermutation | app.py:220 | the sort only reorders the articles |
| PublishedOrder.SortDescIsSorted | app.py:220 | after the sort the `published` strings never increase |
| PublishedOrder.SortDescIsStable | app.py:220 | articles with equal `published` strings keep their relative order |
| PublishedOrder.SortDescIsTheStableSort | app.py:220 | any sorted arrangement that keeps the order within each key is the sort's result |
| PublishedOrder.SliceTo | app.py:223 | `[:limit]` is a prefix of length `min(n, limit)` for `limit >= 0`, and drops the last `abs(limit)` elements otherwise; the same function gives `entries[:5]` of `parse_rss_feed` (app.py:133) |
| PublishedOrder.SortedPrefix | app.py:220-223 | cutting a sorted list keeps it sorted |
| Aggregator.Selected | app.py:206 | a feed is read exactly when the lowered filter occurs in its lowered network location; since `""` occurs in every string, the empty-filter test changes nothing |
| Aggregator.News | app.py:192-230 | `get_news` as a definition: collect, sort by `published`, cut and count; its properties are stated by `NewsFacts`, `NoMatchingSource` and `NothingDroppedUnderLimit` |
| Aggregator.Rechunked | app.py:213-215 | the re-chunked article has `chunks == create_chunks(full_content, size)` and `total_chunks == len(chunks)`, and differs from the original in nothing else |
| Aggregator.RechunkAll | app.py:212-215 | every article of the list is re-chunked, in place and in order |
| Aggregator.RechunkArticles | app.py:212-215 | the loop over one feed's articles replaces each one by its re-chunked copy, in order, and changes nothing else |
| Aggregator.GetNews | app.py:192-230 | the loop over the feeds returns exactly the filtered, re-chunked, sorted and cut list of the specification `News` |
| Aggregator.CollectedFacts | app.py:204-217 | every collected article is chunked at the requested size and comes from a feed whose lower-cased network location contains the filter |
| Aggregator.SelectedFeedContributes | app.py:204-217 | every article of every feed the filter selects is collected, chunked at the requested size |
| Aggregator.NoMatchingSource | app.py:204-230 | a filter that matches no feed gives a success response with zero articles |
| Aggregator.NewsFacts | app.py:212-227 | `total_articles` is the number of articles; they are ordered newest first by `published` text, each chunked at the requested size and from a selected feed; there are as many as `[:limit]` keeps of the collected articles, for a negative limit too |
| Aggregator.NothingDroppedUnderLimit | app.py:219-223 | with a limit at least the number of collected articles every collected article is returned |

## Left out

- The Flask routes, `jsonify`, `request.args` parsing (including `int()` on the query values), `home`, `get_sources`, `get_single_article` and the health route: web-framework plumbing. `GetNews` takes the parsed `source`, `limit` and `chunk_size` as parameters, and the `500` error response for an exception is not modelled.
- `requests.get`, its headers and timeout, and `raise_for_status`: network I/O. `Env.fetchPage` stands for the request and the HTML parse together, with `None` for any exception.
- BeautifulSoup's `find`, `find_all`, `decompose` and `get_text`: foreign HTML-library calls. A page is a map from selector to the text of its element with the unwanted tags already removed, and `Env.markupText` is the tag stripping inside `clean_text`.
- `feedparser.parse`, `dateutil` parsing with `strftime`, and `urlparse(...).netloc`: foreign libraries, given as `Env.fetchFeed`, `Env.parseDate` and `Env.netloc`.
- `logging` and the `datetime.now()` timestamp of the response: side effects and nondeterminism.
- TextNormalizer.IsSpace: the whitespace set is that of Python's `str.isspace`, written out by code point. It is not checked against the Unicode database.
- Substrings.LowerChar, Substrings.Lower: lower-case ASCII letters only, because Python's full Unicode `lower()` tables are not modelled.
- Aggregator.GetNews: the source mutates each article dictionary and sorts the list in place; the model builds new sequences of immutable records, so aliasing between the lists is not captured.
