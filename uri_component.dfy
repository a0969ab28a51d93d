/**
 * `decodeURIComponent` of ECMAScript (the Decode operation of ECMA-262 with
 * an empty reserved set): every `%XX` triplet (section 2.1 of RFC 3986)
 * stands for one octet, and the octets of a triplet run must form exactly
 * one well-formed UTF-8 sequence. Anything else throws a URIError, modelled
 * here as `None`.
 */
module UriComponent {
  import opened Wrappers

  predicate IsHexDigit(c: char) {
    '0' <= c <= '9' || 'a' <= c <= 'f' || 'A' <= c <= 'F'
  }

  function HexValue(c: char): (v: nat)
    requires IsHexDigit(c)
    ensures v < 16
  {
    if c <= '9' then c as int - '0' as int
    else if c <= 'F' then c as int - 'A' as int + 10
    else c as int - 'a' as int + 10
  }

  /** The upper-case hexadecimal digit of `v`. */
  function HexDigit(v: nat): (c: char)
    requires v < 16
    ensures IsHexDigit(c) && HexValue(c) == v
  {
    "0123456789ABCDEF"[v]
  }

  /** The octet of the percent triplet that starts at position `i`, if one starts there. */
  function TripletAt(s: string, i: nat): (r: Option<int>)
    ensures r.Some? ==> i + 3 <= |s| && s[i] == '%' && 0 <= r.value < 0x100
    ensures r.None? ==> !(i + 3 <= |s| && s[i] == '%' && IsHexDigit(s[i + 1]) && IsHexDigit(s[i + 2]))
  {
    if i + 3 <= |s| && s[i] == '%' && IsHexDigit(s[i + 1]) && IsHexDigit(s[i + 2])
    then Some(16 * HexValue(s[i + 1]) + HexValue(s[i + 2]))
    else None
  }

  /** The octets of `count` consecutive triplets starting at position `i`. */
  function Triplets(s: string, i: nat, count: nat): (r: Option<seq<int>>)
    ensures r.Some? ==> |r.value| == count
    decreases count
  {
    if count == 0 then Some([])
    else match TripletAt(s, i)
      case None => None
      case Some(b) =>
        match Triplets(s, i + 3, count - 1)
        case None => None
        case Some(bs) => Some([b] + bs)
  }

  /** How many octets a UTF-8 sequence that starts with `b` has; 0 when `b` cannot start one. */
  function SequenceLength(b: int): nat {
    if b < 0x80 then 1
    else if b < 0xC0 then 0
    else if b < 0xE0 then 2
    else if b < 0xF0 then 3
    else if b < 0xF8 then 4
    else 0
  }

  predicate IsContinuation(b: int) {
    0x80 <= b < 0xC0
  }

  /**
   * The code point that the octets encode, when they are exactly one
   * well-formed UTF-8 sequence: no overlong form, no surrogate, nothing
   * beyond U+10FFFF.
   */
  function Utf8Decode(o: seq<int>): Option<char> {
    if |o| == 1 && 0 <= o[0] < 0x80 then
      Some(o[0] as char)
    else if |o| == 2 && 0xC0 <= o[0] < 0xE0 && IsContinuation(o[1]) then
      var cp := (o[0] - 0xC0) * 0x40 + (o[1] - 0x80);
      if 0x80 <= cp then Some(cp as char) else None
    else if |o| == 3 && 0xE0 <= o[0] < 0xF0 && IsContinuation(o[1]) && IsContinuation(o[2]) then
      var cp := (o[0] - 0xE0) * 0x1000 + (o[1] - 0x80) * 0x40 + (o[2] - 0x80);
      if 0x800 <= cp && !(0xD800 <= cp < 0xE000) then Some(cp as char) else None
    else if |o| == 4 && 0xF0 <= o[0] < 0xF8 && IsContinuation(o[1]) && IsContinuation(o[2]) && IsContinuation(o[3]) then
      var cp := (o[0] - 0xF0) * 0x40000 + (o[1] - 0x80) * 0x1000 + (o[2] - 0x80) * 0x40 + (o[3] - 0x80);
      if 0x10000 <= cp < 0x110000 then Some(cp as char) else None
    else
      None
  }

  /** The UTF-8 encoding of one character. */
  function Utf8Encode(c: char): (o: seq<int>)
    ensures 1 <= |o| <= 4 && SequenceLength(o[0]) == |o|
    ensures forall k :: 0 <= k < |o| ==> 0 <= o[k] < 0x100
  {
    var cp := c as int;
    if cp < 0x80 then [cp]
    else if cp < 0x800 then [0xC0 + cp / 0x40, 0x80 + cp % 0x40]
    else if cp < 0x10000 then [0xE0 + cp / 0x1000, 0x80 + cp / 0x40 % 0x40, 0x80 + cp % 0x40]
    else [0xF0 + cp / 0x40000, 0x80 + cp / 0x1000 % 0x40, 0x80 + cp / 0x40 % 0x40, 0x80 + cp % 0x40]
  }

  /** Decoding undoes encoding. */
  lemma Utf8RoundTrip(c: char)
    ensures Utf8Decode(Utf8Encode(c)) == Some(c)
  {
    var cp := c as int;
    var a := cp / 0x40;
    assert cp == a * 0x40 + cp % 0x40;
    if 0x800 <= cp < 0x10000 {
      assert cp / 0x1000 == a / 0x40;
      assert a == (a / 0x40) * 0x40 + a % 0x40;
    } else if 0x10000 <= cp {
      var b := a / 0x40;
      assert cp / 0x1000 == b;
      assert cp / 0x40000 == b / 0x40;
      assert a == b * 0x40 + a % 0x40;
      assert b == (b / 0x40) * 0x40 + b % 0x40;
    }
  }

  /** Splitting a number into six-bit groups: the quotient and remainder by 0x40. */
  lemma SixBits(x: int, q: int, r: int)
    requires 0 <= r < 0x40 && x == q * 0x40 + r
    ensures x / 0x40 == q && x % 0x40 == r
  {
  }

  /** Well-formed UTF-8 is unique: a sequence that decodes to `c` is the encoding of `c`. */
  lemma Utf8Unique(o: seq<int>, c: char)
    requires Utf8Decode(o) == Some(c)
    ensures o == Utf8Encode(c)
  {
    var cp := c as int;
    if |o| == 2 {
      SixBits(cp, o[0] - 0xC0, o[1] - 0x80);
    } else if |o| == 3 {
      var a := (o[0] - 0xE0) * 0x40 + (o[1] - 0x80);
      SixBits(cp, a, o[2] - 0x80);
      SixBits(a, o[0] - 0xE0, o[1] - 0x80);
      assert cp / 0x1000 == a / 0x40;
    } else if |o| == 4 {
      var b := (o[0] - 0xF0) * 0x40 + (o[1] - 0x80);
      var a := b * 0x40 + (o[2] - 0x80);
      SixBits(cp, a, o[3] - 0x80);
      SixBits(a, b, o[2] - 0x80);
      SixBits(b, o[0] - 0xF0, o[1] - 0x80);
      assert cp / 0x1000 == b;
      assert cp / 0x40000 == b / 0x40;
    }
  }

  /**
   * The character that the escape at the start of `s` decodes to, and how
   * many characters of `s` the escape takes.
   */
  function DecodeEscape(s: string): (r: Option<(char, nat)>)
    requires s != [] && s[0] == '%'
    ensures r.Some? ==> 3 <= r.value.1 <= |s| && r.value.1 % 3 == 0
  {
    match TripletAt(s, 0)
    case None => None
    case Some(b0) =>
      var n := SequenceLength(b0);
      if n == 0 || |s| < 3 * n then None
      else match Triplets(s, 0, n)
        case None => None
        case Some(o) =>
          match Utf8Decode(o)
          case None => None
          case Some(c) => Some((c, 3 * n))
  }

  /** `decodeURIComponent(s)`; `None` where it throws a URIError. */
  function Decode(s: string): (r: Option<string>)
    ensures r.Some? ==> |r.value| <= |s|
    ensures r.Some? && s != [] ==> r.value != []
    decreases |s|
  {
    if s == [] then Some([])
    else if s[0] != '%' then Prefixed(s[0], Decode(s[1..]))
    else
      match DecodeEscape(s)
      case None => None
      case Some((c, len)) => Prefixed(c, Decode(s[len..]))
  }

  /** `c` followed by a decoded text; a failure stays a failure. */
  function Prefixed(c: char, r: Option<string>): Option<string>
  {
    match r
    case None => None
    case Some(t) => Some([c] + t)
  }

  /** `x` followed by a decoded text; a failure stays a failure. */
  function AppendedTo(x: string, r: Option<string>): Option<string>
  {
    match r
    case None => None
    case Some(t) => Some(x + t)
  }

  /** A text without `%` decodes to itself. */
  lemma {:induction false} DecodeWithoutEscapes(s: string)
    requires forall k :: 0 <= k < |s| ==> s[k] != '%'
    ensures Decode(s) == Some(s)
    decreases |s|
  {
    if s != [] {
      DecodeWithoutEscapes(s[1..]);
      assert [s[0]] + s[1..] == s;
    }
  }

  lemma TripletAtAppend(p: string, q: string, i: nat)
    requires TripletAt(p, i).Some?
    ensures TripletAt(p + q, i) == TripletAt(p, i)
  {
    assert (p + q)[i + 1] == p[i + 1] && (p + q)[i + 2] == p[i + 2];
  }

  lemma {:induction false} TripletsAppend(p: string, q: string, i: nat, count: nat)
    requires Triplets(p, i, count).Some?
    ensures Triplets(p + q, i, count) == Triplets(p, i, count)
    decreases count
  {
    if count > 0 {
      TripletAtAppend(p, q, i);
      TripletsAppend(p, q, i + 3, count - 1);
    }
  }

  /** An escape reads only the characters it takes. */
  lemma DecodeEscapeAppend(p: string, q: string)
    requires p != [] && p[0] == '%' && DecodeEscape(p).Some?
    ensures DecodeEscape(p + q) == DecodeEscape(p)
  {
    TripletAtAppend(p, q, 0);
    var b0 := TripletAt(p, 0).value;
    TripletsAppend(p, q, 0, SequenceLength(b0));
  }

  lemma PrefixedAppendedTo(c: char, x: string, r: Option<string>)
    ensures Prefixed(c, AppendedTo(x, r)) == AppendedTo([c] + x, r)
  {
    if r.Some? {
      assert [c] + (x + r.value) == ([c] + x) + r.value;
    }
  }

  /**
   * Decoding works left to right: once a prefix decodes, the text that
   * follows it is decoded on its own.
   */
  lemma DecodeAppend(p: string, q: string)
    requires Decode(p).Some?
    ensures Decode(q).None? ==> Decode(p + q).None?
    ensures Decode(q).Some? ==> Decode(p + q) == Some(Decode(p).value + Decode(q).value)
  {
    DecodeConcat(p, q);
  }

  lemma {:induction false} DecodeConcat(p: string, q: string)
    requires Decode(p).Some?
    ensures Decode(p + q) == AppendedTo(Decode(p).value, Decode(q))
    decreases |p|
  {
    var s := p + q;
    if p == [] {
      assert s == q;
      assert Decode(p).value == [];
      if Decode(q).Some? {
        assert [] + Decode(q).value == Decode(q).value;
      }
    } else if p[0] != '%' {
      assert s != [] && s[0] == p[0] && s[1..] == p[1..] + q;
      assert Decode(s) == Prefixed(p[0], Decode(p[1..] + q));
      assert Decode(p) == Prefixed(p[0], Decode(p[1..]));
      DecodeConcat(p[1..], q);
      PrefixedAppendedTo(p[0], Decode(p[1..]).value, Decode(q));
    } else {
      DecodeEscapeAppend(p, q);
      var e := DecodeEscape(p).value;
      var c, len := e.0, e.1;
      assert s != [] && s[0] == '%' && s[len..] == p[len..] + q;
      assert Decode(s) == Prefixed(c, Decode(p[len..] + q));
      assert Decode(p) == Prefixed(c, Decode(p[len..]));
      DecodeConcat(p[len..], q);
      PrefixedAppendedTo(c, Decode(p[len..]).value, Decode(q));
    }
  }

  /** A triplet that lies within `p` reads the same after anything is appended. */
  lemma TripletAtWithin(p: string, q: string, i: nat)
    requires i + 3 <= |p|
    ensures TripletAt(p + q, i) == TripletAt(p, i)
  {
    assert (p + q)[i] == p[i] && (p + q)[i + 1] == p[i + 1] && (p + q)[i + 2] == p[i + 2];
  }

  lemma {:induction false} TripletsWithin(p: string, q: string, i: nat, count: nat)
    requires i + 3 * count <= |p|
    ensures Triplets(p + q, i, count) == Triplets(p, i, count)
    decreases count
  {
    if count > 0 {
      TripletAtWithin(p, q, i);
      TripletsWithin(p, q, i + 3, count - 1);
    }
  }

  /** `q` does not start with two hexadecimal digits, so `%` followed by `q` is no triplet. */
  predicate Malformed(q: string) {
    |q| < 2 || !IsHexDigit(q[0]) || !IsHexDigit(q[1])
  }

  /** A triplet position that meets the malformed `%` reads no triplet. */
  lemma TripletAtBroken(p: string, q: string, i: nat)
    requires Malformed(q) && i <= |p| < i + 3
    ensures TripletAt(p + ['%'] + q, i).None?
  {
    var s := p + ['%'] + q;
    assert s[|p|] == '%';
    if i == |p| && 2 <= |q| {
      assert s[i + 1] == q[0] && s[i + 2] == q[1];
    }
  }

  /** One failing triplet among `count` makes the whole run fail. */
  lemma {:induction false} TripletsBroken(s: string, i: nat, count: nat, k: nat)
    requires k < count && TripletAt(s, i + 3 * k).None?
    ensures Triplets(s, i, count).None?
    decreases count
  {
    if k > 0 && TripletAt(s, i).Some? {
      assert i + 3 + 3 * (k - 1) == i + 3 * k;
      TripletsBroken(s, i + 3, count - 1, k - 1);
    }
  }

  /**
   * An escape that fails in `p` still fails once the malformed `%` is
   * appended: the text it lacked would have to start with a triplet.
   */
  lemma EscapeBroken(p: string, q: string)
    requires p != [] && p[0] == '%' && DecodeEscape(p).None? && Malformed(q)
    ensures DecodeEscape(p + ['%'] + q).None?
  {
    var e := ['%'] + q;
    var s := p + e;
    assert p + ['%'] + q == s;
    if |p| < 3 {
      TripletAtBroken(p, q, 0);
    } else {
      TripletAtWithin(p, e, 0);
      if TripletAt(p, 0).Some? {
        var n := SequenceLength(TripletAt(p, 0).value);
        if n != 0 && 3 * n <= |s| {
          if |p| < 3 * n {
            var k := |p| / 3;
            TripletAtBroken(p, q, 3 * k);
            TripletsBroken(s, 0, n, k);
          } else {
            TripletsWithin(p, e, 0, n);
          }
        }
      }
    }
  }

  /**
   * A `%` that is not followed by two hexadecimal digits makes the whole
   * decoding fail, whatever precedes it.
   */
  lemma {:induction false} MalformedTripletFails(p: string, q: string)
    requires Malformed(q)
    ensures Decode(p + ['%'] + q) == None
    decreases |p|
  {
    var s := p + ['%'] + q;
    if p == [] {
      TripletAtBroken(p, q, 0);
      assert s[0] == '%';
    } else if p[0] != '%' {
      assert s[0] == p[0] && s[1..] == p[1..] + ['%'] + q;
      MalformedTripletFails(p[1..], q);
    } else if DecodeEscape(p).Some? {
      DecodeEscapeAppend(p, ['%'] + q);
      assert p + (['%'] + q) == s;
      var len := DecodeEscape(p).value.1;
      assert s[0] == '%' && s[len..] == p[len..] + ['%'] + q;
      MalformedTripletFails(p[len..], q);
    } else {
      EscapeBroken(p, q);
      assert s[0] == '%';
    }
  }

  /** Percent-encodes octets as upper-case triplets. */
  function EncodeOctets(o: seq<int>): (s: string)
    requires forall k :: 0 <= k < |o| ==> 0 <= o[k] < 0x100
    ensures |s| == 3 * |o|
  {
    seq(3 * |o|, k requires 0 <= k < 3 * |o| => TripletChar(o[k / 3], k % 3))
  }

  /** Character `pos` of the triplet `%XY` that encodes octet `b`. */
  function TripletChar(b: int, pos: int): char
    requires 0 <= b < 0x100
  {
    if pos == 0 then '%' else if pos == 1 then HexDigit(b / 16) else HexDigit(b % 16)
  }

  /** Percent-encodes every character through its UTF-8 octets. */
  function PercentEncode(s: string): string {
    if s == [] then [] else EncodeOctets(Utf8Encode(s[0])) + PercentEncode(s[1..])
  }

  lemma EncodedAt(o: seq<int>, j: nat)
    requires forall k :: 0 <= k < |o| ==> 0 <= o[k] < 0x100
    requires j < |o|
    ensures var e := EncodeOctets(o);
      e[3 * j] == '%' && e[3 * j + 1] == HexDigit(o[j] / 16) && e[3 * j + 2] == HexDigit(o[j] % 16)
  {
    assert (3 * j) / 3 == j && (3 * j + 1) / 3 == j && (3 * j + 2) / 3 == j;
    assert (3 * j + 1) % 3 == 1 && (3 * j + 2) % 3 == 2;
  }

  lemma TripletOfDigits(s: string, i: nat, v: int)
    requires 0 <= v < 0x100 && i + 3 <= |s|
    requires s[i] == '%' && s[i + 1] == HexDigit(v / 16) && s[i + 2] == HexDigit(v % 16)
    ensures TripletAt(s, i) == Some(v)
  {
    var hi, lo := HexValue(s[i + 1]), HexValue(s[i + 2]);
    assert hi == v / 16 && lo == v % 16;
    assert 16 * hi + lo == v;
  }

  lemma TripletOfEncoded(o: seq<int>, rest: string, j: nat)
    requires forall k :: 0 <= k < |o| ==> 0 <= o[k] < 0x100
    requires j < |o|
    ensures TripletAt(EncodeOctets(o) + rest, 3 * j) == Some(o[j])
  {
    var e := EncodeOctets(o);
    EncodedAt(o, j);
    var s := e + rest;
    assert 0 <= o[j] < 0x100;
    assert 3 * j + 3 <= |e|;
    assert s[3 * j] == '%';
    assert s[3 * j + 1] == HexDigit(o[j] / 16);
    assert s[3 * j + 2] == HexDigit(o[j] % 16);
    TripletOfDigits(s, 3 * j, o[j]);
  }

  /** A run of triplets, one per octet of `o` from position `j` on, reads back as those octets. */
  lemma {:induction false} TripletsOfRun(s: string, o: seq<int>, j: nat)
    requires j <= |o|
    requires forall k :: j <= k < |o| ==> TripletAt(s, 3 * k) == Some(o[k])
    ensures Triplets(s, 3 * j, |o| - j) == Some(o[j..])
    decreases |o| - j
  {
    if j < |o| {
      TripletsOfRun(s, o, j + 1);
      assert 3 * (j + 1) == 3 * j + 3;
      assert TripletAt(s, 3 * j) == Some(o[j]);
      assert o[j..] == [o[j]] + o[j + 1..];
    }
  }

  lemma TripletsOfEncoded(o: seq<int>, rest: string)
    requires forall k :: 0 <= k < |o| ==> 0 <= o[k] < 0x100
    ensures Triplets(EncodeOctets(o) + rest, 0, |o|) == Some(o)
  {
    var s := EncodeOctets(o) + rest;
    forall k | 0 <= k < |o|
      ensures TripletAt(s, 3 * k) == Some(o[k])
    {
      TripletOfEncoded(o, rest, k);
    }
    TripletsOfRun(s, o, 0);
    assert o[0..] == o;
  }

  /** The escape of one encoded character decodes back to that character. */
  lemma EscapeOfEncoded(c: char, rest: string)
    ensures var e := EncodeOctets(Utf8Encode(c));
      && (e + rest)[0] == '%'
      && DecodeEscape(e + rest) == Some((c, |e|))
  {
    var o := Utf8Encode(c);
    var s := EncodeOctets(o) + rest;
    TripletOfEncoded(o, rest, 0);
    TripletsOfEncoded(o, rest);
    Utf8RoundTrip(c);
  }

  /** Decoding undoes percent-encoding, for every text. */
  lemma {:induction false} DecodeEncode(s: string)
    ensures Decode(PercentEncode(s)) == Some(s)
    decreases |s|
  {
    if s != [] {
      var e := EncodeOctets(Utf8Encode(s[0]));
      var rest := PercentEncode(s[1..]);
      EscapeOfEncoded(s[0], rest);
      assert (e + rest)[|e|..] == rest;
      DecodeEncode(s[1..]);
      assert [s[0]] + s[1..] == s;
    }
  }
}
