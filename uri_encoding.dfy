/**
 * `encodeURIComponent` (ECMA-262, section 19.2.6.5) on strings of Unicode
 * scalar values, and its inverse `decodeURIComponent` as far as this model
 * needs it: each character outside the unreserved set becomes the UTF-8
 * encoding of its code point, one `%XY` triple (upper-case hex) per byte.
 */
module UriEncoding {

  import opened Wrappers
  import opened Buffers

  /** The characters `encodeURIComponent` leaves as they are. */
  predicate Unreserved(c: char) {
    || ('A' <= c <= 'Z') || ('a' <= c <= 'z') || ('0' <= c <= '9')
    || c == '-' || c == '_' || c == '.' || c == '!' || c == '~'
    || c == '*' || c == '\'' || c == '(' || c == ')'
  }

  /** Every character of `s` is unreserved or a `%`. */
  predicate IsEncoded(s: string) {
    forall i :: 0 <= i < |s| ==> Unreserved(s[i]) || s[i] == '%'
  }

  // ---------------------------------------------------------------------
  // UTF-8

  /** The UTF-8 encoding of one code point: one to four bytes. */
  function Utf8(c: char): (bs: seq<Byte>)
    ensures 1 <= |bs| <= 4
  {
    var cp := c as int;
    if cp < 0x80 then [cp]
    else if cp < 0x800 then [0xC0 + cp / 64, 0x80 + cp % 64]
    else if cp < 0x10000 then [0xE0 + cp / 4096, 0x80 + (cp / 64) % 64, 0x80 + cp % 64]
    else [0xF0 + cp / 262144, 0x80 + (cp / 4096) % 64, 0x80 + (cp / 64) % 64, 0x80 + cp % 64]
  }

  /** The length of a UTF-8 sequence announced by its first byte (0: not a first byte). */
  function Utf8Length(lead: Byte): nat {
    if lead < 0x80 then 1
    else if lead < 0xC0 then 0
    else if lead < 0xE0 then 2
    else if lead < 0xF0 then 3
    else if lead < 0xF8 then 4
    else 0
  }

  predicate Continuation(b: Byte) { 0x80 <= b < 0xC0 }

  /**
   * The least code point that needs `n` bytes: a sequence of `n` bytes that
   * spells a smaller one is an overlong form, which UTF-8 does not allow.
   */
  function ShortestFrom(n: nat): int {
    if n == 2 then 0x80 else if n == 3 then 0x800 else if n == 4 then 0x10000 else 0
  }

  /** The code point a UTF-8 sequence of the announced length spells. */
  function Utf8Value(bs: seq<Byte>): int
    requires 1 <= |bs| <= 4
  {
    var b0: int := bs[0];
    if |bs| == 1 then b0
    else
      var b1: int := bs[1];
      if |bs| == 2 then (b0 - 0xC0) * 64 + (b1 - 0x80)
      else
        var b2: int := bs[2];
        if |bs| == 3 then ((b0 - 0xE0) * 64 + (b1 - 0x80)) * 64 + (b2 - 0x80)
        else
          var b3: int := bs[3];
          (((b0 - 0xF0) * 64 + (b1 - 0x80)) * 64 + (b2 - 0x80)) * 64 + (b3 - 0x80)
  }

  /** A code point that is a Unicode scalar value (what a `char` holds). */
  predicate IsScalar(cp: int) {
    (0 <= cp < 0xD800) || (0xE000 <= cp < 0x110000)
  }

  /** Decoding the UTF-8 encoding of a character gives the character back. */
  lemma Utf8RoundTrip(c: char)
    ensures Utf8Length(Utf8(c)[0]) == |Utf8(c)|
    ensures forall i :: 1 <= i < |Utf8(c)| ==> Continuation(Utf8(c)[i])
    ensures Utf8Value(Utf8(c)) == c as int
    ensures Utf8Value(Utf8(c)) >= ShortestFrom(|Utf8(c)|)
  {
    var cp := c as int;
    if cp < 0x80 {
    } else if cp < 0x800 {
      TwoByteValue(cp);
    } else if cp < 0x10000 {
      ThreeByteValue(cp);
    } else {
      FourByteValue(cp);
    }
  }

  lemma TwoByteValue(cp: int)
    requires 0x80 <= cp < 0x800
    ensures (cp / 64) * 64 + cp % 64 == cp && cp / 64 < 0x20
  {
  }

  lemma ThreeByteValue(cp: int)
    requires 0x800 <= cp < 0x10000
    ensures ((cp / 4096) * 64 + (cp / 64) % 64) * 64 + cp % 64 == cp && cp / 4096 < 0x10
  {
    SplitDiv64(cp);
  }

  lemma FourByteValue(cp: int)
    requires 0x10000 <= cp < 0x110000
    ensures (((cp / 262144) * 64 + (cp / 4096) % 64) * 64 + (cp / 64) % 64) * 64 + cp % 64 == cp
    ensures cp / 262144 < 0x08
  {
    SplitDiv64(cp);
    SplitDiv64(cp / 64);
    assert (cp / 64) / 4096 == cp / 262144;
  }

  /** Dividing by 4096 is dividing by 64 twice. */
  lemma SplitDiv64(n: int)
    requires n >= 0
    ensures n / 4096 == (n / 64) / 64
    ensures n / 64 == (n / 4096) * 64 + (n / 64) % 64
    ensures n == (n / 64) * 64 + n % 64
  {
  }

  // ---------------------------------------------------------------------
  // Percent triples

  function HexDigit(n: nat): (c: char)
    requires n < 16
    ensures Unreserved(c)
  {
    if n < 10 then ('0' as int + n) as char else ('A' as int + n - 10) as char
  }

  /** The value of a hex digit; `decodeURIComponent` accepts both cases. */
  function HexValue(c: char): Option<nat> {
    if '0' <= c <= '9' then Some(c as int - '0' as int)
    else if 'A' <= c <= 'F' then Some(c as int - 'A' as int + 10)
    else if 'a' <= c <= 'f' then Some(c as int - 'a' as int + 10)
    else None
  }

  lemma HexDigitValue(n: nat)
    requires n < 16
    ensures HexValue(HexDigit(n)) == Some(n)
  {
  }

  /** `%XY` for one byte. */
  function Triple(b: Byte): (s: string)
    ensures |s| == 3 && s[0] == '%' && IsEncoded(s)
  {
    ['%', HexDigit(b / 16), HexDigit(b % 16)]
  }

  function Triples(bs: seq<Byte>): (s: string)
    ensures |s| == 3 * |bs|
    ensures IsEncoded(s)
  {
    if bs == [] then [] else Triple(bs[0]) + Triples(bs[1..])
  }

  /** The byte a `%XY` triple at the start of `s` stands for. */
  function ReadTriple(s: string): Option<Byte> {
    if |s| < 3 || s[0] != '%' then None
    else match (HexValue(s[1]), HexValue(s[2]))
      case (Some(hi), Some(lo)) => if hi < 16 && lo < 16 then Some(hi * 16 + lo) else None
      case _ => None
  }

  /** The bytes of `n` consecutive triples at the start of `s`. */
  function ReadTriples(s: string, n: nat): Option<seq<Byte>>
    decreases n
  {
    if n == 0 then Some([])
    else match ReadTriple(s)
      case None => None
      case Some(b) =>
        if |s| < 3 then None
        else match ReadTriples(s[3..], n - 1)
          case None => None
          case Some(bs) => Some([b] + bs)
  }

  lemma ReadTripleOfTriple(b: Byte, rest: string)
    ensures ReadTriple(Triple(b) + rest) == Some(b)
  {
    var s := Triple(b) + rest;
    assert s[0] == '%' && s[1] == HexDigit(b / 16) && s[2] == HexDigit(b % 16);
    HexDigitValue(b / 16);
    HexDigitValue(b % 16);
  }

  lemma {:induction false} ReadTriplesOfTriples(bs: seq<Byte>, rest: string)
    ensures ReadTriples(Triples(bs) + rest, |bs|) == Some(bs)
  {
    if bs != [] {
      var tail := Triples(bs[1..]) + rest;
      var s := Triple(bs[0]) + tail;
      assert Triples(bs) + rest == s;
      ReadTripleOfTriple(bs[0], tail);
      assert s[3..] == tail;
      ReadTriplesOfTriples(bs[1..], rest);
      assert [bs[0]] + bs[1..] == bs;
    }
  }

  // ---------------------------------------------------------------------
  // Encoding and decoding strings

  function EncodeChar(c: char): (s: string)
    ensures IsEncoded(s) && |s| > 0
  {
    if Unreserved(c) then [c] else Triples(Utf8(c))
  }

  /** `encodeURIComponent(s)`: the result holds only unreserved characters and `%`. */
  function Encode(s: string): (r: string)
    ensures IsEncoded(r)
    ensures |r| >= |s|
  {
    if s == [] then [] else EncodeChar(s[0]) + Encode(s[1..])
  }

  /** The bytes after the first are all continuation bytes. */
  predicate ContinuedBy(bs: seq<Byte>) {
    forall i :: 1 <= i < |bs| ==> Continuation(bs[i])
  }

  /**
   * The character spelled by the triples at the start of `s` (which starts
   * with `%`), and how many characters of `s` they take; None for a
   * malformed, overlong or surrogate sequence.
   */
  function DecodeTriples(s: string): Option<(char, nat)> {
    match ReadTriple(s)
    case None => None
    case Some(lead) =>
      var n := Utf8Length(lead);
      if n == 0 then None
      else match ReadTriples(s, n)
        case None => None
        case Some(bs) =>
          if |bs| != n || !ContinuedBy(bs) || Utf8Value(bs) < ShortestFrom(n) || !IsScalar(Utf8Value(bs)) || |s| < 3 * n then None
          else Some((Utf8Value(bs) as char, 3 * n))
  }

  /** `decodeURIComponent(s)`, None where it throws a `URIError`. */
  function Decode(s: string): Option<string>
    decreases |s|
  {
    if s == [] then Some([])
    else if s[0] != '%' then
      match Decode(s[1..])
      case None => None
      case Some(rest) => Some([s[0]] + rest)
    else
      match DecodeTriples(s)
      case None => None
      case Some((c, used)) =>
        if used == 0 then None
        else match Decode(s[used..])
          case None => None
          case Some(rest) => Some([c] + rest)
  }

  /** The overlong two-byte form of `/` is refused, as `decodeURIComponent` refuses it. */
  lemma OverlongRefused()
    ensures Decode("%C0%AF") == None
  {
    var s := "%C0%AF";
    assert ReadTriple(s) == Some(0xC0);
    var t := s[3..];
    assert t == "%AF" && ReadTriple(t) == Some(0xAF);
    assert ReadTriples(t[3..], 0) == Some([]);
    var last: seq<Byte> := [0xAF];
    assert last == [0xAF] + [];
    assert ReadTriples(t, 1) == Some(last);
    var both: seq<Byte> := [0xC0, 0xAF];
    assert both == [0xC0] + last;
    assert ReadTriples(s, 2) == Some(both);
    assert Utf8Value(both) == 0x2F;
    assert DecodeTriples(s) == None;
  }

  lemma DecodeTriplesOfChar(c: char, rest: string)
    requires !Unreserved(c)
    ensures DecodeTriples(Triples(Utf8(c)) + rest) == Some((c, 3 * |Utf8(c)|))
  {
    var bs := Utf8(c);
    var s := Triples(bs) + rest;
    Utf8RoundTrip(c);
    assert s == Triple(bs[0]) + (Triples(bs[1..]) + rest);
    ReadTripleOfTriple(bs[0], Triples(bs[1..]) + rest);
    ReadTriplesOfTriples(bs, rest);
  }

  lemma DecodeEncodeChar(c: char, rest: string)
    ensures Decode(EncodeChar(c) + rest) == match Decode(rest) case None => None case Some(r) => Some([c] + r)
  {
    var s := EncodeChar(c) + rest;
    if Unreserved(c) {
      assert s[0] == c && s[1..] == rest;
    } else {
      DecodeTriplesOfChar(c, rest);
      assert s[0] == '%';
      assert s[3 * |Utf8(c)|..] == rest;
    }
  }

  /** `decodeURIComponent(encodeURIComponent(s)) == s`: the encoding loses nothing. */
  lemma {:induction false} DecodeEncode(s: string)
    ensures Decode(Encode(s)) == Some(s)
  {
    if s != [] {
      assert Encode(s) == EncodeChar(s[0]) + Encode(s[1..]);
      DecodeEncodeChar(s[0], Encode(s[1..]));
      DecodeEncode(s[1..]);
      assert [s[0]] + s[1..] == s;
    }
  }

  /** Two strings with the same encoding are the same string. */
  lemma EncodeInjective(a: string, b: string)
    requires Encode(a) == Encode(b)
    ensures a == b
  {
    DecodeEncode(a);
    DecodeEncode(b);
  }
}
