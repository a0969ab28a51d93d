/**
 * The `search_web` tool: SerpAPI first, DuckDuckGo's HTML page as the
 * fallback, and the rendering of the chosen list as numbered text.
 */
module WebSearch {
  import opened Wrappers
  import opened Strings
  import opened SearchTypes
  import Decimal
  import DdgScraper
  import SerpApi

  /** The limit when the caller gives none. */
  const SearchResultsLimitDefault := 10

  /** The text rendered for an empty result list. */
  const NoResults := "No results"

  /** Entry `i` (counted from zero) of the numbered list: `"{i+1}. {title}\n{url}"`. */
  function Entry(i: nat, r: SearchResult): (e: string)
    ensures e != [] && Decimal.IsDigit(e[0])
    ensures |r.url| <= |e| && e[|e| - |r.url|..] == r.url
  {
    Decimal.FromNat(i + 1) + ". " + r.title + "\n" + r.url
  }

  function Entries(results: seq<SearchResult>): (es: seq<string>)
    ensures |es| == |results|
    ensures forall k :: 0 <= k < |es| ==> es[k] == Entry(k, results[k])
  {
    seq(|results|, k requires 0 <= k < |results| => Entry(k, results[k]))
  }

  /** `results.map(...).join("\n\n") || "No results"` */
  function RenderResults(results: seq<SearchResult>): (text: string)
    ensures text != []
  {
    var text := Join(Entries(results), "\n\n");
    if text == [] then NoResults else text
  }

  /** The sentinel is rendered exactly when there are no results: an entry always starts with a digit. */
  lemma RenderNoResultsIff(results: seq<SearchResult>)
    ensures RenderResults(results) == NoResults <==> results == []
  {
    if results != [] {
      var es := Entries(results);
      JoinStartsWith(es, "\n\n");
      var text := Join(es, "\n\n");
      assert es[0][0] == Decimal.FromNat(1)[0];
      assert text[0] == es[0][0];
      assert Decimal.IsDigit(text[0]);
    }
  }

  /** One more result adds a blank line and its numbered entry at the end. */
  lemma RenderAppend(results: seq<SearchResult>, r: SearchResult)
    requires results != []
    ensures RenderResults(results + [r]) == RenderResults(results) + "\n\n" + Entry(|results|, r)
  {
    var es := Entries(results);
    assert Entries(results + [r]) == es + [Entry(|results|, r)];
    JoinSnoc(es, Entry(|results|, r), "\n\n");
    JoinStartsWith(es, "\n\n");
    assert Join(es, "\n\n") != [];
    JoinStartsWith(es + [Entry(|results|, r)], "\n\n");
  }

  /** A single result renders as entry number one alone. */
  lemma RenderSingle(r: SearchResult)
    ensures RenderResults([r]) == "1. " + r.title + "\n" + r.url
  {
    assert Decimal.FromNat(1) == "1";
    assert Entries([r]) == [Entry(0, r)];
  }

  /** The limit in force: the caller's, or the default. */
  function Limit(limit: Option<int>): int {
    limit.GetOr(SearchResultsLimitDefault)
  }

  /**
   * The list `search_web` renders: the provider's list whenever it gives
   * one, even an empty one, and the scraper's otherwise.
   */
  function Chosen(provided: SerpApi.Provided, scraped: seq<SearchResult>): seq<SearchResult> {
    if provided.Listed? then provided.items else scraped
  }

  /** The `search_web` handler. */
  method SearchWeb(query: string, limit: Option<int>, apiKey: Option<string>,
                   upstream: SerpApi.SerpQuery -> SerpApi.SerpReply,
                   page: seq<DdgScraper.Anchor>, lookup: string -> DdgScraper.UddgLookup)
    returns (text: string, ghost scraped: bool)
    requires query != []
    requires limit.Some? ==> 1 <= limit.value <= 10
    ensures text == RenderResults(Chosen(SerpApi.SerpApiSearch(query, Limit(limit), apiKey, upstream),
      Truncate(DdgScraper.Candidates(page, lookup), DdgScraper.Cap(Limit(limit)))))
    ensures scraped <==> !SerpApi.SerpApiSearch(query, Limit(limit), apiKey, upstream).Listed?
  {
    var lim := Limit(limit);
    var provided := SerpApi.SerpApiSearch(query, lim, apiKey, upstream);
    var results: seq<SearchResult>;
    if provided.Listed? {
      results := provided.items;
      scraped := false;
    } else {
      ghost var scanned;
      results, scanned := DdgScraper.DdgSearch(page, lim, lookup);
      scraped := true;
    }
    text := RenderResults(results);
  }

  /** Whichever path runs, at most `limit` results are rendered. */
  lemma ChosenWithinLimit(query: string, limit: int, apiKey: Option<string>,
                          upstream: SerpApi.SerpQuery -> SerpApi.SerpReply,
                          page: seq<DdgScraper.Anchor>, lookup: string -> DdgScraper.UddgLookup)
    requires 1 <= limit
    ensures |Chosen(SerpApi.SerpApiSearch(query, limit, apiKey, upstream),
                    Truncate(DdgScraper.Candidates(page, lookup), DdgScraper.Cap(limit)))| <= limit
  {
  }

  /**
   * A list from the provider is final, even when it is empty: the scraper's
   * results never mix in, and an empty list renders the sentinel.
   */
  lemma ProviderListIsFinal(items: seq<SearchResult>, scraped: seq<SearchResult>)
    ensures RenderResults(Chosen(SerpApi.Listed(items), scraped)) == RenderResults(items)
    ensures RenderResults(Chosen(SerpApi.Listed(items), scraped)) == NoResults <==> items == []
  {
    RenderNoResultsIff(items);
  }

  /**
   * Without a key, or when the provider throws (a failed request, an error
   * status, a body that is not JSON or is `null`, a `null` entry among the
   * first `limit`), the scraper's results are rendered.
   */
  lemma FallbackToScraper(query: string, limit: int, apiKey: Option<string>,
                          upstream: SerpApi.SerpQuery -> SerpApi.SerpReply, scraped: seq<SearchResult>)
    requires apiKey.None? || apiKey.value == []
      || upstream(SerpApi.Request(query, limit, apiKey.value)).TransportFailure?
      || !SerpApi.IsOk(upstream(SerpApi.Request(query, limit, apiKey.value)).status)
      || upstream(SerpApi.Request(query, limit, apiKey.value)).body.Malformed?
      || SerpApi.HasNull(Slice(SerpApi.OrganicOf(upstream(SerpApi.Request(query, limit, apiKey.value))), limit))
    ensures Chosen(SerpApi.SerpApiSearch(query, limit, apiKey, upstream), scraped) == scraped
  {
  }
}
