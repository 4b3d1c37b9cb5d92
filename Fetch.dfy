/**
 * The outcome of makeSpaceFlightNewsRequest. The request itself (node-fetch, reading the
 * body, JSON.parse, diagnostic logging) is not modelled; only how its outcome is collapsed.
 */
module Fetch {
  import opened Wrappers
  import Articles

  /**
   * What the network produced: no response at all, or a status code together with what
   * parsing the body as JSON would give (None when JSON.parse throws).
   */
  datatype HttpOutcome =
    | Unreachable
    | Received(status: int, parsed: Option<Articles.ArticlesResponse>)

  /** `response.ok`: a 2xx status. */
  predicate IsOk(status: int)
  {
    200 <= status <= 299
  }

  /** Every failure (network, non-2xx status, malformed JSON) collapses to None; otherwise the parsed payload. */
  function RequestArticles(outcome: HttpOutcome): (r: Option<Articles.ArticlesResponse>)
    ensures r.Some? <==> outcome.Received? && IsOk(outcome.status) && outcome.parsed.Some?
    ensures r.Some? ==> r == outcome.parsed
  {
    match outcome
    case Unreachable => None
    case Received(status, parsed) => if IsOk(status) then parsed else None
  }
}
