/**
 * The `fetch_url` tool: read the response body chunk by chunk, keep at
 * most `maxBytes` bytes, and report the content type and the byte count.
 * The HTTP request and the UTF-8 decoding of the kept bytes are left out:
 * the chunks the body stream delivers are the input, and the kept bytes
 * are the output.
 */
module UrlFetch {
  import opened Wrappers
  import Decimal

  newtype byte = b: int | 0 <= b < 0x100

  /** The ceiling and default for `maxBytes`: 16 MiB. */
  const MaxFetchBytes := 16 * 1024 * 1024

  /** The smallest `maxBytes` a caller may ask for. */
  const MinFetchBytes := 1024

  function Min(a: int, b: int): int {
    if a < b then a else b
  }

  /** `Buffer.concat(chunks)` */
  function Flatten(chunks: seq<seq<byte>>): seq<byte> {
    if chunks == [] then [] else Flatten(chunks[..|chunks| - 1]) + chunks[|chunks| - 1]
  }

  /** The bytes of two runs of chunks are the bytes of each, one after the other. */
  lemma {:induction false} FlattenAppend(a: seq<seq<byte>>, b: seq<seq<byte>>)
    ensures Flatten(a + b) == Flatten(a) + Flatten(b)
    decreases |b|
  {
    if b == [] {
      assert a + b == a;
    } else {
      var b' := b[..|b| - 1];
      assert (a + b)[..|a + b| - 1] == a + b';
      FlattenAppend(a, b');
    }
  }

  /** The bytes of the first `i` chunks are a prefix of all the bytes. */
  lemma FlattenPrefix(chunks: seq<seq<byte>>, i: nat)
    requires i <= |chunks|
    ensures |Flatten(chunks[..i])| <= |Flatten(chunks)|
    ensures Flatten(chunks[..i]) == Flatten(chunks)[..|Flatten(chunks[..i])|]
  {
    FlattenAppend(chunks[..i], chunks[i..]);
    assert chunks[..i] + chunks[i..] == chunks;
  }

  /** `Math.min(input.maxBytes ?? MAX_FETCH_BYTES, 16 MiB)` for a validated `maxBytes`. */
  function EffectiveMaxBytes(requested: Option<int>): (m: nat)
    requires requested.Some? ==> MinFetchBytes <= requested.value <= MaxFetchBytes
    ensures MinFetchBytes <= m <= MaxFetchBytes
    ensures m == requested.GetOr(MaxFetchBytes)
  {
    Min(requested.GetOr(MaxFetchBytes), MaxFetchBytes)
  }

  /**
   * The read loop of `fetch_url`. `stream` is what the body reader
   * delivers, chunk by chunk; `pulled` counts the chunks actually read.
   * All chunks are kept whole until one overflows the budget; of that one
   * only the part that fits is kept, and reading stops.
   */
  method ReadCapped(stream: seq<seq<byte>>, maxBytes: nat)
    returns (kept: seq<seq<byte>>, received: nat, ghost pulled: nat)
    ensures Flatten(kept) == Flatten(stream)[..Min(|Flatten(stream)|, maxBytes)]
    ensures |Flatten(kept)| == Min(received, maxBytes)
    ensures pulled <= |stream| && received == |Flatten(stream[..pulled])|
    ensures received <= maxBytes ==> pulled == |stream| && kept == stream
    ensures received > maxBytes ==>
      && 0 < pulled && |Flatten(stream[..pulled - 1])| <= maxBytes
      && |Flatten(stream[..pulled - 1])| + |stream[pulled - 1]| == received
      && kept == stream[..pulled - 1] + [stream[pulled - 1][..maxBytes - |Flatten(stream[..pulled - 1])|]]
  {
    kept := [];
    received := 0;
    var i := 0;
    while true
      invariant i <= |stream|
      invariant kept == stream[..i]
      invariant received == |Flatten(stream[..i])| <= maxBytes
      decreases |stream| - i
    {
      if i == |stream| {
        break;
      }
      var value := stream[i];
      assert stream[..i + 1][..i] == stream[..i];
      i := i + 1;
      received := received + |value|;
      if received > maxBytes {
        var before := Flatten(stream[..i - 1]);
        var part := value[..|value| - (received - maxBytes)];
        kept := kept + [part];
        assert Flatten(kept) == before + part by {
          assert kept[..|kept| - 1] == stream[..i - 1];
        }
        FlattenPrefix(stream, i);
        assert Flatten(stream[..i]) == before + value;
        assert before + part == (before + value)[..maxBytes];
        break;
      }
      kept := kept + [value];
    }
    pulled := i;
    assert stream[..|stream|] == stream;
  }

  /** `contentType: {contentType}\nbytes: {n}` */
  function Summary(contentType: string, n: nat): string {
    "contentType: " + contentType + "\nbytes: " + Decimal.FromNat(n)
  }

  /**
   * What `fetch_url` gives: a TypeError when the response has no body
   * (`res.body` is `null`, as for a 204 or 304 status), otherwise the
   * summary line and the kept bytes.
   */
  datatype FetchOutcome = NullBody | Fetched(summary: string, body: seq<byte>)

  /**
   * The `fetch_url` handler. `stream` is `None` when the response has no
   * body. The reported count is the number of bytes kept, which is the
   * body's size or `maxBytes`, whichever is smaller.
   */
  method FetchUrl(contentType: Option<string>, stream: Option<seq<seq<byte>>>, requested: Option<int>)
    returns (outcome: FetchOutcome)
    requires requested.Some? ==> MinFetchBytes <= requested.value <= MaxFetchBytes
    ensures outcome.NullBody? <==> stream.None?
    ensures stream.Some? ==>
      outcome.body == Flatten(stream.value)[..Min(|Flatten(stream.value)|, EffectiveMaxBytes(requested))]
    ensures outcome.Fetched? ==> outcome.summary == Summary(contentType.GetOr(""), |outcome.body|)
  {
    var maxBytes := EffectiveMaxBytes(requested);
    if stream.None? {
      return NullBody;
    }
    var chunks, received, _ := ReadCapped(stream.value, maxBytes);
    var body := Flatten(chunks);
    outcome := Fetched(Summary(contentType.GetOr(""), Min(received, maxBytes)), body);
  }
}
