/** The foreign calls the modelled code makes (HTTP, HTML parsing, feed
    parsing, URL and date parsing), given as plain functions, and the shapes
    of the data they hand back. */
module Environment {
  import opened Wrappers

  /** A `find` query on a parsed page: a `div` with a given class, or the
      first `article` element. */
  datatype Selector = Div(cls: string) | ArticleTag

  /** A fetched and parsed article page. A selector is in the map when `find`
      returns an element for it; the value is that element's text once its
      `script`, `style`, `iframe`, `ins` and `aside` tags are removed. */
  type Page = map<Selector, string>

  /** A feed entry; a field is `None` when the entry lacks that attribute. */
  datatype Entry = Entry(
    title: Option<string>,
    link: Option<string>,
    description: Option<string>,
    published: Option<string>)

  /** The outside world, one function per foreign call:
      - `markupText(t)`: the text of `t` parsed as HTML; `None` when the
        parser raises;
      - `fetchPage(url)`: the page at `url`; `None` when the request, the
        status check or the parse raises;
      - `netloc(url)`: the network location of `url`;
      - `parseDate(p)`: `p` parsed as a date and formatted as
        `YYYY-MM-DD HH:MM:SS`; `None` when parsing raises;
      - `fetchFeed(url)`: the entries of the feed at `url`, in the order
        the feed lists them;
        `None` when parsing raises. */
  datatype Env = Env(
    markupText: string -> Option<string>,
    fetchPage: string -> Option<Page>,
    netloc: string -> string,
    parseDate: string -> Option<string>,
    fetchFeed: string -> Option<seq<Entry>>)
}
