/** The result entries that both search paths produce. */
module SearchTypes {

  /** `{ title, url }` */
  datatype SearchResult = SearchResult(title: string, url: string)

  /** `list.slice(0, n)` for a non-negative `n`: the first `n` entries, or all when there are fewer. */
  function Truncate<T>(s: seq<T>, n: nat): (r: seq<T>)
    ensures |r| == if |s| < n then |s| else n
    ensures r == s[..|r|]
  {
    if |s| <= n then s else s[..n]
  }

  /**
   * The length of `list.slice(0, end)` for a list of `len` entries: a
   * negative `end` counts back from the end of the list.
   */
  function SliceEnd(len: nat, end: int): nat {
    if end < 0 then (if len + end < 0 then 0 else len + end)
    else if end < len then end else len
  }

  /** `list.slice(0, end)` for any integer `end`. */
  function Slice<T>(s: seq<T>, end: int): (r: seq<T>)
    ensures |r| <= |s| && r == s[..|r|]
    ensures 0 <= end ==> r == Truncate(s, end)
    ensures end < 0 ==> |r| + (if -end < |s| then -end else |s|) == |s|
  {
    s[..SliceEnd(|s|, end)]
  }

  /** Cutting at the end of a leading part keeps exactly that part. */
  lemma TruncateAtPrefix<T>(x: seq<T>, y: seq<T>)
    ensures Truncate(x + y, |x|) == x
  {
    assert (x + y)[..|x|] == x;
  }
}
