/** `get_full_article_content` (app.py:44-95): which selectors are tried on
    which site, which match wins, and when the fixed placeholder is returned
    instead of the article text. */
module ContentExtractor {
  import opened Wrappers
  import opened TextNormalizer
  import opened Substrings
  import opened Environment

  /** The text returned whenever no article text could be obtained. */
  const Placeholder: string := "Không thể lấy nội dung đầy đủ"

  /** The three `find` queries tried, in order, on a page whose network
      location is `domain`. The sites are tested in a fixed order, so a
      location naming two of them gets the chain of the earlier one. */
  function SelectorChain(domain: string): (r: seq<Selector>)
    ensures |r| == 3
    ensures ArticleTag in r <==>
      !Contains(domain, "vietstock.vn") && !Contains(domain, "cafef.vn") && !Contains(domain, "vneconomy.vn")
    ensures Div("article-content") in r
  {
    if Contains(domain, "vietstock.vn") then
      [Div("article-content"), Div("content-news"), Div("news-content")]
    else if Contains(domain, "cafef.vn") then
      [Div("detail-content"), Div("content"), Div("article-content")]
    else if Contains(domain, "vneconomy.vn") then
      [Div("detail-content"), Div("article-content"), Div("content-news")]
    else
      [Div("content"), Div("article-content"), ArticleTag]
  }

  /** `chain[i]` finds an element and no selector before it does. */
  predicate FoundFirstAt(chain: seq<Selector>, page: Page, i: int) {
    0 <= i < |chain| && chain[i] in page && forall j :: 0 <= j < i ==> chain[j] !in page
  }

  /** `find(chain[0]) or find(chain[1]) or ...`: the element of the first
      selector that finds one. */
  function FirstFound(chain: seq<Selector>, page: Page): (r: Option<string>)
    ensures r.None? <==> forall i :: 0 <= i < |chain| ==> chain[i] !in page
    ensures r.Some? ==> exists i :: FoundFirstAt(chain, page, i) && r.value == page[chain[i]]
  {
    if chain == [] then None
    else if chain[0] in page then
      assert FoundFirstAt(chain, page, 0);
      Some(page[chain[0]])
    else
      var r := FirstFound(chain[1..], page);
      if r.Some? then
        var i :| FoundFirstAt(chain[1..], page, i) && r.value == page[chain[1..][i]];
        assert FoundFirstAt(chain, page, i + 1);
        r
      else
        assert forall i :: 1 <= i < |chain| ==> chain[i] == chain[1..][i - 1];
        r
  }

  /** The cleaned text of the first matching element of the page at `url`;
      `None` when the fetch fails, nothing matches or the cleaning raises. */
  function Extracted(env: Env, url: string): Option<string> {
    match env.fetchPage(url)
    case None => None
    case Some(page) =>
      match FirstFound(SelectorChain(env.netloc(url)), page)
      case None => None
      case Some(text) => CleanText(env.markupText, text)
  }

  lemma PlaceholderIsNormalized()
    ensures Normalized(Placeholder)
  {
    var p := Placeholder;
    assert forall i :: 0 <= i < |p| && IsSpace(p[i]) ==> p[i] == ' ';
    assert forall i :: 0 <= i < |p| - 1 ==> !(IsSpace(p[i]) && IsSpace(p[i + 1]));
  }

  /** `content if content else <placeholder>`, with a failure counting as no
      content. */
  function OrPlaceholder(content: Option<string>): (r: string)
    ensures r != []
    ensures content.Some? && content.value != [] ==> r == content.value
    ensures r != Placeholder ==> content == Some(r)
  {
    match content
    case Some(c) => if c == [] then Placeholder else c
    case None => Placeholder
  }

  /** `get_full_article_content(url)`: the article text when there is some,
      the placeholder otherwise; either way clean, non-empty text. */
  function GetFullArticleContent(env: Env, url: string): (r: string)
    ensures r != [] && Normalized(r)
    ensures env.fetchPage(url).None? ==> r == Placeholder
    ensures Extracted(env, url).Some? && Extracted(env, url).value != [] ==> r == Extracted(env, url).value
    ensures r != Placeholder ==> Extracted(env, url) == Some(r)
  {
    PlaceholderIsNormalized();
    OrPlaceholder(Extracted(env, url))
  }

  /** On a fetched page, the result is decided by the first selector of the
      site's chain that finds an element: its cleaned text when that is not
      empty, otherwise the placeholder. */
  lemma ContentOfFirstMatch(env: Env, url: string, i: int)
    requires env.fetchPage(url).Some?
    requires FoundFirstAt(SelectorChain(env.netloc(url)), env.fetchPage(url).value, i)
    ensures GetFullArticleContent(env, url)
      == OrPlaceholder(CleanText(env.markupText, env.fetchPage(url).value[SelectorChain(env.netloc(url))[i]]))
  {
    var chain := SelectorChain(env.netloc(url));
    var page := env.fetchPage(url).value;
    var found := FirstFound(chain, page);
    assert chain[i] in page;
    var k :| FoundFirstAt(chain, page, k) && found.value == page[chain[k]];
    assert !(k < i) && !(i < k);
  }

  /** A fetched page on which no selector of the site's chain finds an
      element gives the placeholder. */
  lemma NoMatchGivesPlaceholder(env: Env, url: string)
    requires env.fetchPage(url).Some?
    requires forall s :: s in SelectorChain(env.netloc(url)) ==> s !in env.fetchPage(url).value
    ensures GetFullArticleContent(env, url) == Placeholder
  {
  }
}
