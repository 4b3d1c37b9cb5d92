/** The two tool handlers: build the URL, fetch it, and compose the reply text. */
module Tools {
  import opened Wrappers
  import Text
  import Articles
  import Fetch
  import Query

  const LatestHeading := "Latest space flight news:\n\n"
  const LatestFallback := "No latest articles available."

  function SearchHeading(keyword: string): string
  {
    "Search results for \"" + keyword + "\":\n\n"
  }

  function SearchFallback(keyword: string): string
  {
    "No articles found for keyword: \"" + keyword + "\""
  }

  /** The reply of get-latest-articles for a given fetch outcome. */
  function LatestText(data: Option<Articles.ArticlesResponse>, localeDate: string -> string): string
  {
    LatestHeading + Articles.FormatArticles(data, LatestFallback, localeDate)
  }

  /** The reply of search-articles for a given keyword and fetch outcome. */
  function SearchText(keyword: string, data: Option<Articles.ArticlesResponse>, localeDate: string -> string): string
  {
    SearchHeading(keyword) + Articles.FormatArticles(data, SearchFallback(keyword), localeDate)
  }

  /** get-latest-articles; `fetch` stands for the network exchange for a URL. */
  function GetLatestArticles(limit: int, fetch: string -> Fetch.HttpOutcome, localeDate: string -> string): string
    requires Query.ValidLimit(limit)
  {
    LatestText(Fetch.RequestArticles(fetch(Query.LatestUrl(limit))), localeDate)
  }

  /** search-articles; `fetch` stands for the network exchange for a URL. */
  function SearchArticles(keyword: string, limit: int, fetch: string -> Fetch.HttpOutcome, localeDate: string -> string): string
    requires Query.ValidKeyword(keyword) && Query.ValidLimit(limit)
  {
    SearchText(keyword, Fetch.RequestArticles(fetch(Query.SearchUrl(keyword, limit))), localeDate)
  }

  /** A reply `heading + message` is the heading plus the bare fallback exactly when there were no articles to show. */
  lemma ReplyIsFallback(heading: string, fallback: string, data: Option<Articles.ArticlesResponse>, localeDate: string -> string)
    requires !Text.HasSuffix(fallback, "\n---")
    ensures heading + Articles.FormatArticles(data, fallback, localeDate) == heading + fallback
      <==> !Articles.HasArticles(data)
  {
    Articles.FormatArticlesCases(data, fallback, localeDate);
    var m := Articles.FormatArticles(data, fallback, localeDate);
    if heading + m == heading + fallback {
      assert m == (heading + m)[|heading|..];
    }
  }

  /**
   * The latest-articles reply is its heading followed by the fallback exactly when the
   * fetch failed or returned no articles; otherwise it ends with an article's `---` line.
   */
  lemma LatestTextCases(data: Option<Articles.ArticlesResponse>, localeDate: string -> string)
    ensures LatestText(data, localeDate) == LatestHeading + LatestFallback <==> !Articles.HasArticles(data)
    ensures Text.HasPrefix(LatestText(data, localeDate), LatestHeading)
    ensures Articles.HasArticles(data) ==> Text.HasSuffix(LatestText(data, localeDate), "\n---")
  {
    assert LatestFallback[|LatestFallback| - 1] == '.';
    ReplyIsFallback(LatestHeading, LatestFallback, data, localeDate);
    Articles.FormatArticlesCases(data, LatestFallback, localeDate);
    var r := LatestText(data, localeDate);
    assert r[..|LatestHeading|] == LatestHeading;
    var m := Articles.FormatArticles(data, LatestFallback, localeDate);
    if Articles.HasArticles(data) {
      assert r[|r| - 4..] == m[|m| - 4..];
    }
  }

  /**
   * The search reply echoes the keyword in its heading, and is heading plus the keyword's
   * fallback exactly when the fetch failed or returned no articles.
   */
  lemma SearchTextCases(keyword: string, data: Option<Articles.ArticlesResponse>, localeDate: string -> string)
    ensures SearchText(keyword, data, localeDate) == SearchHeading(keyword) + SearchFallback(keyword)
      <==> !Articles.HasArticles(data)
    ensures Text.HasPrefix(SearchText(keyword, data, localeDate), "Search results for \"" + keyword + "\":\n\n")
    ensures Articles.HasArticles(data) ==> Text.HasSuffix(SearchText(keyword, data, localeDate), "\n---")
  {
    var fallback := SearchFallback(keyword);
    assert fallback[|fallback| - 1] == '"';
    ReplyIsFallback(SearchHeading(keyword), fallback, data, localeDate);
    Articles.FormatArticlesCases(data, fallback, localeDate);
    var heading := SearchHeading(keyword);
    var r := SearchText(keyword, data, localeDate);
    assert r[..|heading|] == heading;
    var m := Articles.FormatArticles(data, fallback, localeDate);
    if Articles.HasArticles(data) {
      assert r[|r| - 4..] == m[|m| - 4..];
    }
  }

  /** Any failed request (no response, non-2xx status, unparseable body) yields the latest tool's fallback reply. */
  lemma LatestFailure(limit: int, fetch: string -> Fetch.HttpOutcome, localeDate: string -> string)
    requires Query.ValidLimit(limit)
    requires var outcome := fetch(Query.LatestUrl(limit));
      !(outcome.Received? && Fetch.IsOk(outcome.status) && outcome.parsed.Some?)
    ensures GetLatestArticles(limit, fetch, localeDate) ==
      "Latest space flight news:\n\n" + "No latest articles available."
  {
  }

  /** A 404 from the API turns into the search tool's fallback reply for that keyword. */
  lemma SearchNotFound(keyword: string, limit: int, fetch: string -> Fetch.HttpOutcome, localeDate: string -> string)
    requires Query.ValidKeyword(keyword) && Query.ValidLimit(limit)
    requires fetch(Query.SearchUrl(keyword, limit)).Received? && fetch(Query.SearchUrl(keyword, limit)).status == 404
    ensures SearchArticles(keyword, limit, fetch, localeDate) ==
      "Search results for \"" + keyword + "\":\n\n" + "No articles found for keyword: \"" + keyword + "\""
  {
  }

  /** An empty result list for `zzzznotfound` renders the keyword's fallback under the search heading. */
  lemma ExampleEmptySearch(localeDate: string -> string)
    ensures var data := Some(Articles.ArticlesResponse(Some([]), 0));
      SearchText("zzzznotfound", data, localeDate) ==
        "Search results for \"zzzznotfound\":\n\n" + "No articles found for keyword: \"zzzznotfound\""
  {
  }
}
