/** UTF-8 encoding of strings, as `Buffer.from(string)` performs it before the
    composed message is base64-encoded (section 3 of RFC 3629). */
module Utf8 {
  import opened Wrappers

  /** A Unicode scalar value: a code point that is not a surrogate. */
  predicate IsScalar(n: int) {
    0 <= n < 0xD800 || 0xE000 <= n < 0x11_0000
  }

  predicate IsContinuation(b: uint8) {
    0x80 <= b < 0xC0
  }

  /** The 1 to 4 octets that encode one scalar value. */
  function EncodeScalar(n: int): (r: seq<uint8>)
    requires IsScalar(n)
    ensures 1 <= |r| <= 4
    ensures |r| == 1 <==> n < 0x80
    ensures forall i :: 1 <= i < |r| ==> IsContinuation(r[i])
  {
    if n < 0x80 then [n]
    else if n < 0x800 then [0xC0 + n / 64, 0x80 + n % 64]
    else if n < 0x1_0000 then [0xE0 + (n / 64) / 64, 0x80 + (n / 64) % 64, 0x80 + n % 64]
    else [0xF0 + ((n / 64) / 64) / 64, 0x80 + ((n / 64) / 64) % 64, 0x80 + (n / 64) % 64, 0x80 + n % 64]
  }

  /** The UTF-8 octets of a string. */
  function Encode(s: string): (r: seq<uint8>)
    ensures |s| <= |r| <= 4 * |s|
    ensures (forall i :: 0 <= i < |s| ==> s[i] as int < 0x80) ==> |r| == |s|
  {
    if |s| == 0 then [] else EncodeScalar(s[0] as int) + Encode(s[1..])
  }

  /** Decodes the first scalar of `b`, returning it with the number of octets
      it used. Overlong forms, surrogates and values past U+10FFFF are refused. */
  function DecodeFirst(b: seq<uint8>): (r: Option<(char, nat)>)
    ensures r.Some? ==> 1 <= r.value.1 <= |b|
  {
    if |b| == 0 then None
    else if b[0] < 0x80 then Some((b[0] as char, 1))
    else if 0xC2 <= b[0] < 0xE0 then
      if |b| < 2 || !IsContinuation(b[1]) then None
      else Some((((b[0] as int - 0xC0) * 64 + (b[1] as int - 0x80)) as char, 2))
    else if 0xE0 <= b[0] < 0xF0 then
      if |b| < 3 || !IsContinuation(b[1]) || !IsContinuation(b[2]) then None
      else
        var n := ((b[0] as int - 0xE0) * 64 + (b[1] as int - 0x80)) * 64 + (b[2] as int - 0x80);
        if n < 0x800 || !IsScalar(n) then None else Some((n as char, 3))
    else if 0xF0 <= b[0] < 0xF5 then
      if |b| < 4 || !IsContinuation(b[1]) || !IsContinuation(b[2]) || !IsContinuation(b[3]) then None
      else
        var n := (((b[0] as int - 0xF0) * 64 + (b[1] as int - 0x80)) * 64 + (b[2] as int - 0x80)) * 64 + (b[3] as int - 0x80);
        if n < 0x1_0000 || !IsScalar(n) then None else Some((n as char, 4))
    else None
  }

  /** Decodes a whole octet sequence; `None` when it is not well-formed UTF-8. */
  function Decode(b: seq<uint8>): Option<string>
    decreases |b|
  {
    if |b| == 0 then Some([])
    else match DecodeFirst(b)
      case None => None
      case Some((c, k)) =>
        match Decode(b[k..])
        case None => None
        case Some(rest) => Some([c] + rest)
  }

  /** Decoding the encoding of one scalar gives it back and consumes exactly its octets. */
  lemma DecodeFirstEncodeScalar(c: char, rest: seq<uint8>)
    ensures DecodeFirst(EncodeScalar(c as int) + rest) == Some((c, |EncodeScalar(c as int)|))
  {
    var n := c as int;
    var e := EncodeScalar(n);
    var b := e + rest;
    assert b[..|e|] == e;
    if n < 0x80 {
    } else if n < 0x800 {
      assert (b[0] as int - 0xC0) * 64 + (b[1] as int - 0x80) == n;
    } else if n < 0x1_0000 {
      var q := n / 64;
      assert (b[0] as int - 0xE0) * 64 + (b[1] as int - 0x80) == q;
      assert ((b[0] as int - 0xE0) * 64 + (b[1] as int - 0x80)) * 64 + (b[2] as int - 0x80) == n;
    } else {
      var q := n / 64;
      var q2 := q / 64;
      assert (b[0] as int - 0xF0) * 64 + (b[1] as int - 0x80) == q2;
      assert ((b[0] as int - 0xF0) * 64 + (b[1] as int - 0x80)) * 64 + (b[2] as int - 0x80) == q;
      assert (((b[0] as int - 0xF0) * 64 + (b[1] as int - 0x80)) * 64 + (b[2] as int - 0x80)) * 64 + (b[3] as int - 0x80) == n;
    }
  }

  /** Round trip: the octets `Buffer.from` produces decode back to the string. */
  lemma {:induction false} DecodeEncode(s: string)
    ensures Decode(Encode(s)) == Some(s)
  {
    if |s| > 0 {
      var e := EncodeScalar(s[0] as int);
      DecodeFirstEncodeScalar(s[0], Encode(s[1..]));
      assert (e + Encode(s[1..]))[|e|..] == Encode(s[1..]);
      DecodeEncode(s[1..]);
      assert [s[0]] + s[1..] == s;
    }
  }

  /** On ASCII text the encoding is the identity on code units. */
  lemma {:induction false} EncodeAscii(s: string)
    requires forall i :: 0 <= i < |s| ==> s[i] as int < 0x80
    ensures |Encode(s)| == |s|
    ensures forall i :: 0 <= i < |s| ==> Encode(s)[i] == s[i] as int
  {
    if |s| > 0 {
      EncodeAscii(s[1..]);
    }
  }
}
