/**
 * The HTML scraper of DuckDuckGo's result page (`ddgSearch`). The page
 * fetch and the DOM query are left out: the input is the sequence of
 * result-title anchors in document order.
 */
module DdgScraper {
  import opened Wrappers
  import opened Strings
  import opened SearchTypes
  import UriComponent

  /** Scheme and host of the search engine, put in front of root-relative links. */
  const Origin := "https://duckduckgo.com"

  /** A link that starts with this path, or contains `WrapperPattern`, is a redirect wrapper. */
  const WrapperPath := "/l/?"
  const WrapperPattern := "duckduckgo.com/l/?"

  /** One result-title anchor: its text content and its `href` attribute, each possibly missing. */
  datatype Anchor = Anchor(text: Option<string>, href: Option<string>)

  /**
   * What parsing a wrapper link as a URL and asking its query for `uddg`
   * yields: the parser throws, or the parameter is missing (`None`) or
   * present with its form-decoded value.
   */
  datatype UddgLookup = Unparsable | Param(value: Option<string>)

  predicate IsWrapper(href: string) {
    StartsWith(href, WrapperPath) || Contains(href, WrapperPattern)
  }

  /** The absolute URL a wrapper link is parsed as. */
  function WrapperUrl(href: string): string {
    if StartsWith(href, "http") then href else Origin + href
  }

  /**
   * The destination a wrapper link unwraps to; `None` when the URL does
   * not parse, `uddg` is missing or empty, or decoding it throws.
   */
  function Unwrap(href: string, lookup: string -> UddgLookup): (r: Option<string>)
    ensures r.Some? <==> exists t :: lookup(WrapperUrl(href)) == Param(Some(t)) && t != [] && UriComponent.Decode(t).Some?
    ensures r.Some? ==> r.value != [] && r == UriComponent.Decode(lookup(WrapperUrl(href)).value.value)
  {
    match lookup(WrapperUrl(href))
    case Unparsable => None
    case Param(None) => None
    case Param(Some(target)) => if target == [] then None else UriComponent.Decode(target)
  }

  /**
   * The URL an anchor's `href` stands for. The rules are tried in order:
   * a wrapper link is unwrapped (and kept as it is when that fails), a
   * protocol-relative link gets `https:`, a root-relative link gets the
   * engine's origin, and anything else is kept.
   */
  function ResolveHref(href: string, lookup: string -> UddgLookup): (url: string)
    ensures IsWrapper(href) && Unwrap(href, lookup).Some? ==> url == Unwrap(href, lookup).value
    ensures IsWrapper(href) && Unwrap(href, lookup).None? ==> url == href
    ensures !IsWrapper(href) && StartsWith(href, "//") ==> url == "https:" + href
    ensures !IsWrapper(href) && StartsWith(href, "/") && !StartsWith(href, "//") ==> url == Origin + href
    ensures !IsWrapper(href) && !StartsWith(href, "/") ==> url == href
    ensures href != [] ==> url != []
  {
    if IsWrapper(href) then
      match Unwrap(href, lookup)
      case Some(target) => target
      case None => href
    else if StartsWith(href, "//") then "https:" + href
    else if StartsWith(href, "/") then Origin + href
    else href
  }

  /** `a.textContent?.trim() || ""` */
  function Title(a: Anchor): string {
    Trim(a.text.GetOr(""))
  }

  /** `a.getAttribute("href") || ""` */
  function Href(a: Anchor): string {
    a.href.GetOr("")
  }

  /** What one anchor contributes to the results: nothing when it has no link. */
  function Emit(a: Anchor, lookup: string -> UddgLookup): seq<SearchResult> {
    if Href(a) == [] then []
    else
      var url := ResolveHref(Href(a), lookup);
      if url == [] then [] else [SearchResult(Title(a), url)]
  }

  /** The results of all anchors, in document order, before the limit applies. */
  function Candidates(anchors: seq<Anchor>, lookup: string -> UddgLookup): seq<SearchResult> {
    if anchors == [] then [] else Emit(anchors[0], lookup) + Candidates(anchors[1..], lookup)
  }

  /** How many results the scan collects before it stops; a limit below one still lets one through. */
  function Cap(limit: int): nat {
    if limit < 1 then 1 else limit
  }

  /**
   * `ddgSearch` over the result anchors of the page. The ghost `scanned`
   * counts the anchors the loop reads: it stops at the anchor whose result
   * fills the limit, so it reads every anchor whenever the limit is not
   * filled before the last one.
   */
  method DdgSearch(anchors: seq<Anchor>, limit: int, lookup: string -> UddgLookup)
    returns (results: seq<SearchResult>, ghost scanned: nat)
    ensures results == Truncate(Candidates(anchors, lookup), Cap(limit))
    ensures scanned <= |anchors| && results == Candidates(anchors[..scanned], lookup)
    ensures 0 < scanned ==> |Candidates(anchors[..scanned - 1], lookup)| < Cap(limit)
    ensures scanned < |anchors| ==> |results| == Cap(limit)
  {
    results := [];
    scanned := |anchors|;
    for i := 0 to |anchors|
      invariant results == Candidates(anchors[..i], lookup)
      invariant |results| < Cap(limit)
      invariant 0 < i ==> |Candidates(anchors[..i - 1], lookup)| < Cap(limit)
    {
      CandidatesSnoc(anchors, i, lookup);
      var a := anchors[i];
      var title := Title(a);
      var href := Href(a);
      if href == [] {
        continue;
      }
      var url := ResolveHref(href, lookup);
      if url == [] {
        continue;
      }
      results := results + [SearchResult(title, url)];
      if |results| >= limit {
        ghost var done, rest := anchors[..i + 1], anchors[i + 1..];
        assert done + rest == anchors;
        CandidatesStop(done, rest, Cap(limit), lookup);
        scanned := i + 1;
        break;
      }
    }
    assert anchors[..|anchors|] == anchors;
  }

  lemma CandidatesSnoc(anchors: seq<Anchor>, i: nat, lookup: string -> UddgLookup)
    requires i < |anchors|
    ensures Candidates(anchors[..i + 1], lookup) == Candidates(anchors[..i], lookup) + Emit(anchors[i], lookup)
  {
    CandidatesAppend(anchors[..i], [anchors[i]], lookup);
    assert anchors[..i + 1] == anchors[..i] + [anchors[i]];
    assert Candidates([anchors[i]], lookup) == Emit(anchors[i], lookup) + Candidates([], lookup);
  }

  /** Once the anchors read so far give `n` results, the remaining anchors change nothing. */
  lemma CandidatesStop(done: seq<Anchor>, rest: seq<Anchor>, n: nat, lookup: string -> UddgLookup)
    requires |Candidates(done, lookup)| == n
    ensures Truncate(Candidates(done + rest, lookup), n) == Candidates(done, lookup)
  {
    CandidatesAppend(done, rest, lookup);
    TruncateAtPrefix(Candidates(done, lookup), Candidates(rest, lookup));
  }

  /** The results of two runs of anchors are the results of each, one after the other. */
  lemma {:induction false} CandidatesAppend(a: seq<Anchor>, b: seq<Anchor>, lookup: string -> UddgLookup)
    ensures Candidates(a + b, lookup) == Candidates(a, lookup) + Candidates(b, lookup)
    decreases |a|
  {
    if a == [] {
      assert a + b == b;
    } else {
      assert (a + b)[0] == a[0] && (a + b)[1..] == a[1..] + b;
      CandidatesAppend(a[1..], b, lookup);
    }
  }

  /** The anchors that carry a non-empty link, in document order. */
  function Linked(anchors: seq<Anchor>): (r: seq<Anchor>)
    ensures |r| <= |anchors|
    ensures forall k :: 0 <= k < |r| ==> Href(r[k]) != []
  {
    if anchors == [] then []
    else (if Href(anchors[0]) == [] then [] else [anchors[0]]) + Linked(anchors[1..])
  }

  /**
   * Every anchor with a non-empty link yields exactly one result, in
   * document order, and no other anchor yields one: the check of an empty
   * resolved URL never drops an entry.
   */
  lemma {:induction false} CandidatesAreLinked(anchors: seq<Anchor>, lookup: string -> UddgLookup)
    ensures |Candidates(anchors, lookup)| == |Linked(anchors)|
    ensures forall k :: 0 <= k < |Linked(anchors)| ==>
      Candidates(anchors, lookup)[k] == SearchResult(Title(Linked(anchors)[k]), ResolveHref(Href(Linked(anchors)[k]), lookup))
    decreases |anchors|
  {
    if anchors != [] {
      CandidatesAreLinked(anchors[1..], lookup);
    }
  }

  /** With a limit of one, a page with at least one linked anchor gives exactly its first linked anchor. */
  lemma LimitOneGivesFirst(anchors: seq<Anchor>, lookup: string -> UddgLookup)
    requires Linked(anchors) != []
    ensures var first := Linked(anchors)[0];
      Truncate(Candidates(anchors, lookup), Cap(1)) == [SearchResult(Title(first), ResolveHref(Href(first), lookup))]
  {
    CandidatesAreLinked(anchors, lookup);
  }

  /**
   * A wrapper link whose `uddg` parameter holds the percent-encoded form of
   * a destination resolves to exactly that destination.
   */
  lemma WrappedDestinationRecovered(href: string, dest: string, lookup: string -> UddgLookup)
    requires IsWrapper(href) && dest != []
    requires lookup(WrapperUrl(href)) == Param(Some(UriComponent.PercentEncode(dest)))
    ensures ResolveHref(href, lookup) == dest
  {
    UriComponent.DecodeEncode(dest);
  }

  /**
   * A root-relative wrapper link such as `/l/?uddg=https%3A%2F%2Fexample.com%2Fa`,
   * whose `uddg` parameter reads `https://example.com/a` once form-decoded,
   * resolves to that value: a value without `%` passes the second decoding
   * unchanged.
   */
  lemma RootWrapperPlainTarget(href: string, target: string, lookup: string -> UddgLookup)
    requires StartsWith(href, WrapperPath)
    requires lookup(Origin + href) == Param(Some(target)) && target != []
    requires forall k :: 0 <= k < |target| ==> target[k] != '%'
    ensures ResolveHref(href, lookup) == target
  {
    assert href[0] == '/';
    assert !StartsWith(href, "http");
    UriComponent.DecodeWithoutEscapes(target);
  }
}
