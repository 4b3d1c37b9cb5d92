/** The request URLs of the two tools against the fixed API base. */
module Query {
  import opened Wrappers
  import Text
  import Decimal
  import Uri

  const ApiBase := "https://api.spaceflightnewsapi.net/v4"

  /** The tool schemas: `limit` is in 1..50 and defaults to 10; `keyword` is non-empty. */
  const MinLimit := 1
  const MaxLimit := 50
  const DefaultLimit := 10

  predicate ValidLimit(limit: int)
  {
    MinLimit <= limit <= MaxLimit
  }

  /** The `limit` schema: an absent limit takes the default, a present one must lie in range. */
  function ParseLimit(limit: Option<int>): (r: Option<int>)
    ensures r.Some? ==> ValidLimit(r.value)
    ensures limit.None? ==> r == Some(DefaultLimit)
    ensures limit.Some? ==> (r.Some? <==> ValidLimit(limit.value)) && (r.Some? ==> r.value == limit.value)
  {
    match limit
    case None => Some(DefaultLimit)
    case Some(l) => if ValidLimit(l) then Some(l) else None
  }

  predicate ValidKeyword(keyword: string)
  {
    |keyword| >= 1
  }

  const LatestPrefix := ApiBase + "/articles?limit="
  const SearchPrefix := ApiBase + "/articles?search="
  const LimitParam := "&limit="

  /** `${base}/articles?limit=${limit}` */
  function LatestUrl(limit: nat): string
  {
    LatestPrefix + Decimal.Render(limit)
  }

  /** `${base}/articles?search=${encodeURIComponent(keyword)}&limit=${limit}` */
  function SearchUrl(keyword: string, limit: nat): string
  {
    SearchPrefix + Uri.EncodeURIComponent(keyword) + LimitParam + Decimal.Render(limit)
  }

  /** Reads the limit back out of a latest-articles URL. */
  function ParseLatestUrl(url: string): Option<nat>
  {
    if Text.HasPrefix(url, LatestPrefix) then Decimal.Parse(url[|LatestPrefix|..]) else None
  }

  /** Reads keyword and limit back out of a search URL. */
  function ParseSearchUrl(url: string): Option<(string, nat)>
  {
    if Text.HasPrefix(url, SearchPrefix) then ParseSearchQuery(url[|SearchPrefix|..]) else None
  }

  /** The part after `search=`: the encoded keyword runs up to the first `&`, then `&limit=` and digits. */
  function ParseSearchQuery(query: string): Option<(string, nat)>
  {
    var amp := Text.IndexOf(query, '&');
    if !Text.HasPrefix(query[amp..], LimitParam) then None
    else
      match (Uri.Decode(query[..amp]), Decimal.Parse(query[amp + |LimitParam|..]))
      case (Some(keyword), Some(limit)) => Some((keyword, limit))
      case _ => None
  }

  /** The latest-articles URL determines its limit. */
  lemma LatestUrlRoundTrip(limit: nat)
    ensures ParseLatestUrl(LatestUrl(limit)) == Some(limit)
  {
    AfterPrefix(LatestPrefix, Decimal.Render(limit));
    Decimal.ParseRender(limit);
  }

  lemma SearchQueryRoundTrip(keyword: string, limit: nat)
    ensures ParseSearchQuery(Uri.EncodeURIComponent(keyword) + LimitParam + Decimal.Render(limit)) == Some((keyword, limit))
  {
    var encoded := Uri.EncodeURIComponent(keyword);
    var digits := Decimal.Render(limit);
    var query := encoded + LimitParam + digits;
    Uri.EncodeHasNoDelimiters(keyword);
    IndexOfAfter(encoded, LimitParam + digits, '&');
    assert query == encoded + (LimitParam + digits);
    assert query[..|encoded|] == encoded;
    assert query[|encoded|..] == LimitParam + digits;
    assert query[|encoded|..][..|LimitParam|] == LimitParam;
    assert query[|encoded| + |LimitParam|..] == digits;
    Uri.DecodeEncode(keyword);
    Decimal.ParseRender(limit);
  }

  /**
   * The search URL determines both keyword and limit: the encoded keyword holds no `&`,
   * so it cannot run into the limit parameter.
   */
  lemma SearchUrlRoundTrip(keyword: string, limit: nat)
    ensures ParseSearchUrl(SearchUrl(keyword, limit)) == Some((keyword, limit))
  {
    var query := Uri.EncodeURIComponent(keyword) + LimitParam + Decimal.Render(limit);
    AfterPrefix(SearchPrefix, query);
    assert SearchUrl(keyword, limit) == SearchPrefix + query;
    SearchQueryRoundTrip(keyword, limit);
  }

  lemma AfterPrefix(p: string, q: string)
    ensures Text.HasPrefix(p + q, p) && (p + q)[|p|..] == q
  {
    assert (p + q)[..|p|] == p;
  }

  lemma {:induction false} IndexOfAfter(a: string, b: string, c: char)
    requires c !in a && |b| >= 1 && b[0] == c
    ensures Text.IndexOf(a + b, c) == |a|
    decreases |a|
  {
    if a != [] {
      assert (a + b)[1..] == a[1..] + b;
      IndexOfAfter(a[1..], b, c);
    }
  }

  /** Two search requests coincide exactly when keyword and limit do. */
  lemma SearchUrlInjective(k1: string, l1: nat, k2: string, l2: nat)
    ensures SearchUrl(k1, l1) == SearchUrl(k2, l2) <==> k1 == k2 && l1 == l2
  {
    SearchUrlRoundTrip(k1, l1);
    SearchUrlRoundTrip(k2, l2);
  }

  /** `limit` 5 requests `https://api.spaceflightnewsapi.net/v4/articles?limit=5`; the default limit, `?limit=10`. */
  lemma ExampleLatest()
    ensures LatestUrl(5) == ApiBase + "/articles?limit=5"
    ensures LatestUrl(DefaultLimit) == ApiBase + "/articles?limit=10"
  {
    LatestUrlOf(5, "5");
    LatestUrlOf(DefaultLimit, "10");
  }

  lemma ExampleSearchSpaceX()
    ensures SearchUrl("SpaceX", 3) == ApiBase + "/articles?search=SpaceX&limit=3"
  {
    assert Uri.EncodeURIComponent("SpaceX") == "SpaceX";
    SearchUrlOf("SpaceX", "SpaceX", 3, "3");
  }

  // As in the Uri examples, the keyword is a parameter so that the literal's encoding is not unfolded.
  /** Keyword `NASA Mars` with the default limit. */
  lemma ExampleSearchDefaultLimit(keyword: string)
    requires keyword == "NASA Mars"
    ensures SearchUrl(keyword, DefaultLimit) == ApiBase + "/articles?search=NASA%20Mars&limit=10"
  {
    Uri.ExampleNasaMars(keyword);
    SearchUrlOf(keyword, "NASA%20Mars", DefaultLimit, "10");
  }

  lemma LatestUrlOf(limit: nat, digits: string)
    requires Decimal.Render(limit) == digits
    ensures LatestUrl(limit) == LatestPrefix + digits
  {
  }

  lemma SearchUrlOf(keyword: string, encoded: string, limit: nat, digits: string)
    requires Uri.EncodeURIComponent(keyword) == encoded && Decimal.Render(limit) == digits
    ensures SearchUrl(keyword, limit) == SearchPrefix + encoded + LimitParam + digits
  {
  }
}
