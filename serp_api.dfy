/**
 * The SerpAPI search provider (`serpApiSearch`). The environment lookup,
 * the HTTP request and the JSON parsing are left out: the API key is a
 * parameter, and `upstream` gives the reply to a request.
 */
module SerpApi {
  import opened Wrappers
  import opened SearchTypes

  /** The most results the upstream API is asked for. */
  const UpstreamMax := 10

  /** The query parameters of the upstream request. */
  datatype SerpQuery = SerpQuery(engine: string, q: string, num: int, apiKey: string)

  /**
   * One entry of `organic_results`: `null`, whose fields cannot be read, or
   * a value whose `title` and `link` are each a string or missing.
   */
  datatype Organic = NullEntry | Organic(title: Option<string>, link: Option<string>)

  /**
   * A reply body: `Malformed` when `res.json()` throws or yields `null`
   * (reading `organic_results` of `null` throws), otherwise JSON whose
   * `organic_results` is an array (`Some`) or is not (`None`).
   */
  datatype SerpBody = Malformed | Json(organic: Option<seq<Organic>>)

  /** The outcome of the upstream request: it fails outright, or a status and a body come back. */
  datatype SerpReply = TransportFailure | Reply(status: int, body: SerpBody)

  /** What `serpApiSearch` settles to: `null`, a thrown error, or a list of results. */
  datatype Provided = NoKey | Threw | Listed(items: seq<SearchResult>)

  /** `res.ok` */
  predicate IsOk(status: int) {
    200 <= status <= 299
  }

  /** The upstream request: Google as engine, the query, and at most `UpstreamMax` results. */
  function Request(query: string, limit: int, apiKey: string): (r: SerpQuery)
    ensures r.num <= UpstreamMax && r.num <= limit
    ensures r.num == limit || r.num == UpstreamMax
    ensures r.engine == "google" && r.q == query && r.apiKey == apiKey
  {
    SerpQuery("google", query, if limit < UpstreamMax then limit else UpstreamMax, apiKey)
  }

  /** `{ title: r.title || "", url: r.link || "" }` for an entry that is not `null`. */
  function Normalize(o: Organic): (r: SearchResult)
    requires o.Organic?
    ensures o.title.Some? ==> r.title == o.title.value
    ensures o.title.None? ==> r.title == []
    ensures o.link.Some? ==> r.url == o.link.value
    ensures o.link.None? ==> r.url == []
  {
    SearchResult(o.title.GetOr(""), o.link.GetOr(""))
  }

  /** Some entry is `null`, so mapping over the entries throws. */
  predicate HasNull(entries: seq<Organic>) {
    exists k :: 0 <= k < |entries| && entries[k].NullEntry?
  }

  /** The organic results of a successful reply; an entry that is not an array counts as none. */
  function OrganicOf(reply: SerpReply): seq<Organic>
    requires reply.Reply? && reply.body.Json?
  {
    reply.body.organic.GetOr([])
  }

  /** `serpApiSearch(query, limit)` */
  function SerpApiSearch(query: string, limit: int, apiKey: Option<string>, upstream: SerpQuery -> SerpReply): (r: Provided)
    ensures r.NoKey? <==> apiKey.None? || apiKey.value == []
    ensures r.Listed? <==>
      && apiKey.Some? && apiKey.value != []
      && var reply := upstream(Request(query, limit, apiKey.value));
      && reply.Reply? && IsOk(reply.status) && reply.body.Json?
      && !HasNull(Slice(OrganicOf(reply), limit))
    ensures r.Listed? ==>
      var organic := OrganicOf(upstream(Request(query, limit, apiKey.value)));
      && |r.items| == SliceEnd(|organic|, limit)
      && (1 <= limit ==> |r.items| == if |organic| < limit then |organic| else limit)
      && forall k :: 0 <= k < |r.items| ==> organic[k].Organic? && r.items[k] == Normalize(organic[k])
  {
    match apiKey
    case None => NoKey
    case Some(key) =>
      if key == [] then NoKey
      else
        match upstream(Request(query, limit, key))
        case TransportFailure => Threw
        case Reply(status, body) =>
          if !IsOk(status) then Threw
          else
            match body
            case Malformed => Threw
            case Json(organic) =>
              var listed := Slice(organic.GetOr([]), limit);
              if HasNull(listed) then Threw
              else Listed(seq(|listed|, k requires 0 <= k < |listed| => Normalize(listed[k])))
  }

  /**
   * A `null` entry among the first `limit` entries makes the provider
   * throw, even when the reply is otherwise a good one; a `null` entry
   * beyond them is never read.
   */
  lemma NullEntryThrows(query: string, limit: int, key: string, upstream: SerpQuery -> SerpReply, k: nat)
    requires key != []
    requires var reply := upstream(Request(query, limit, key));
      && reply.Reply? && IsOk(reply.status) && reply.body.Json?
      && k < SliceEnd(|OrganicOf(reply)|, limit) && OrganicOf(reply)[k].NullEntry?
    ensures SerpApiSearch(query, limit, Some(key), upstream).Threw?
  {
    var organic := OrganicOf(upstream(Request(query, limit, key)));
    var listed := Slice(organic, limit);
    assert listed[k] == organic[k];
  }
}
