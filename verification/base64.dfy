/** Standard base64 (section 4 of RFC 4648), as `Buffer.prototype.toString('base64')`
    produces it: 3 octets become 4 digits, a final group of 1 or 2 octets is
    completed with `=` padding. */
module Base64 {
  import opened Wrappers

  const PadChar: char := '='

  /** The digit of the standard alphabet for a 6-bit value. */
  function Digit(v: int): (c: char)
    requires 0 <= v < 64
  {
    if v < 26 then ('A' as int + v) as char
    else if v < 52 then ('a' as int + (v - 26)) as char
    else if v < 62 then ('0' as int + (v - 52)) as char
    else if v == 62 then '+'
    else '/'
  }

  /** The 6-bit value of a digit of the standard alphabet. */
  function Value(c: char): (r: Option<int>)
    ensures r.Some? ==> 0 <= r.value < 64
  {
    if 'A' <= c <= 'Z' then Some(c as int - 'A' as int)
    else if 'a' <= c <= 'z' then Some(c as int - 'a' as int + 26)
    else if '0' <= c <= '9' then Some(c as int - '0' as int + 52)
    else if c == '+' then Some(62)
    else if c == '/' then Some(63)
    else None
  }

  predicate IsDigit(c: char) {
    Value(c).Some?
  }

  /** `Value` inverts `Digit`, so every digit is in the alphabet and is not padding. */
  lemma ValueDigit(v: int)
    requires 0 <= v < 64
    ensures Value(Digit(v)) == Some(v)
    ensures Digit(v) != PadChar
  {
  }

  /** The number of `=` characters ending the encoding of `n` octets. */
  function PadCount(n: nat): (p: nat)
    ensures p <= 2
    ensures (n + p) % 3 == 0
  {
    (3 - n % 3) % 3
  }

  /** Well-formed output: a run of alphabet digits followed by exactly `p` pads. */
  predicate DigitsThenPad(s: string, p: nat) {
    && p <= |s|
    && (forall i :: 0 <= i < |s| - p ==> IsDigit(s[i]))
    && (forall i :: |s| - p <= i < |s| ==> s[i] == PadChar)
  }

  function EncodeGroup(b0: uint8, b1: uint8, b2: uint8): (r: string)
    ensures |r| == 4 && DigitsThenPad(r, 0)
  {
    ValueDigit(b0 / 4);
    ValueDigit((b0 % 4) * 16 + b1 / 16);
    ValueDigit((b1 % 16) * 4 + b2 / 64);
    ValueDigit(b2 % 64);
    [Digit(b0 / 4), Digit((b0 % 4) * 16 + b1 / 16), Digit((b1 % 16) * 4 + b2 / 64), Digit(b2 % 64)]
  }

  function EncodeTail2(b0: uint8, b1: uint8): (r: string)
    ensures |r| == 4 && DigitsThenPad(r, 1)
  {
    ValueDigit(b0 / 4);
    ValueDigit((b0 % 4) * 16 + b1 / 16);
    ValueDigit((b1 % 16) * 4);
    [Digit(b0 / 4), Digit((b0 % 4) * 16 + b1 / 16), Digit((b1 % 16) * 4), PadChar]
  }

  function EncodeTail1(b0: uint8): (r: string)
    ensures |r| == 4 && DigitsThenPad(r, 2)
  {
    ValueDigit(b0 / 4);
    ValueDigit((b0 % 4) * 16);
    [Digit(b0 / 4), Digit((b0 % 4) * 16), PadChar, PadChar]
  }

  /** A pad-free group of digits in front keeps the shape of what follows. */
  lemma DigitsThenPadAppend(g: string, rest: string, p: nat)
    requires DigitsThenPad(g, 0) && DigitsThenPad(rest, p)
    ensures DigitsThenPad(g + rest, p)
  {
    var s := g + rest;
    forall i | 0 <= i < |s| - p
      ensures IsDigit(s[i])
    {
      if i >= |g| {
        assert s[i] == rest[i - |g|];
      }
    }
    forall i | |s| - p <= i < |s|
      ensures s[i] == PadChar
    {
      assert s[i] == rest[i - |g|];
    }
  }

  /** Standard base64 with padding. */
  function Encode(b: seq<uint8>): (r: string)
    ensures |r| == 4 * ((|b| + 2) / 3)
    decreases |b|
  {
    if |b| == 0 then []
    else if |b| == 1 then EncodeTail1(b[0])
    else if |b| == 2 then EncodeTail2(b[0], b[1])
    else
      GroupArith(|b|);
      EncodeGroup(b[0], b[1], b[2]) + Encode(b[3..])
  }

  /** The encoding is alphabet digits followed by exactly the padding `PadCount` predicts. */
  lemma {:induction false} EncodeShape(b: seq<uint8>)
    ensures DigitsThenPad(Encode(b), PadCount(|b|))
    decreases |b|
  {
    if |b| >= 3 {
      EncodeShape(b[3..]);
      GroupArith(|b|);
      DigitsThenPadAppend(EncodeGroup(b[0], b[1], b[2]), Encode(b[3..]), PadCount(|b| - 3));
    }
  }

  /** Peeling one full group off `n` octets removes four characters and keeps the padding. */
  lemma GroupArith(n: nat)
    requires n >= 3
    ensures 4 * ((n + 2) / 3) == 4 + 4 * ((n - 3 + 2) / 3)
    ensures PadCount(n) == PadCount(n - 3)
  {
    assert (n + 2) / 3 == 1 + (n - 1) / 3;
    assert n % 3 == (n - 3) % 3;
  }

  /** Decodes one group of four characters; the last group may carry padding,
      and the bits that padding leaves unused must be zero. */
  function DecodeGroup(s: string, last: bool): (r: Option<seq<uint8>>)
    requires |s| == 4
    ensures r.Some? ==> 1 <= |r.value| <= 3
  {
    match (Value(s[0]), Value(s[1]), Value(s[2]), Value(s[3]))
    case (Some(d0), Some(d1), Some(d2), Some(d3)) =>
      Some([d0 * 4 + d1 / 16, (d1 % 16) * 16 + d2 / 4, (d2 % 4) * 64 + d3])
    case (Some(d0), Some(d1), Some(d2), None) =>
      if last && s[3] == PadChar && d2 % 4 == 0 then Some([d0 * 4 + d1 / 16, (d1 % 16) * 16 + d2 / 4])
      else None
    case (Some(d0), Some(d1), None, None) =>
      if last && s[2] == PadChar && s[3] == PadChar && d1 % 16 == 0 then Some([d0 * 4 + d1 / 16])
      else None
    case _ => None
  }

  /** Standard base64 decoding; `None` for text that is not a padded encoding. */
  function Decode(s: string): Option<seq<uint8>>
    decreases |s|
  {
    if |s| == 0 then Some([])
    else if |s| < 4 then None
    else
      match DecodeGroup(s[..4], |s| == 4)
      case None => None
      case Some(g) =>
        match Decode(s[4..])
        case None => None
        case Some(rest) => Some(g + rest)
  }

  lemma DecodeEncodeGroup(b0: uint8, b1: uint8, b2: uint8, last: bool)
    ensures DecodeGroup(EncodeGroup(b0, b1, b2), last) == Some([b0, b1, b2])
  {
    var d0, d1, d2, d3 := b0 / 4, (b0 % 4) * 16 + b1 / 16, (b1 % 16) * 4 + b2 / 64, b2 % 64;
    ValueDigit(d0);
    ValueDigit(d1);
    ValueDigit(d2);
    ValueDigit(d3);
    assert d1 / 16 == b0 % 4 && d1 % 16 == b1 / 16;
    assert d2 / 4 == b1 % 16 && d2 % 4 == b2 / 64;
    assert d0 * 4 + d1 / 16 == b0;
    assert (d1 % 16) * 16 + d2 / 4 == b1;
    assert (d2 % 4) * 64 + d3 == b2;
  }

  lemma DecodeEncodeTail2(b0: uint8, b1: uint8)
    ensures DecodeGroup(EncodeTail2(b0, b1), true) == Some([b0, b1])
  {
    ValueDigit(b0 / 4);
    ValueDigit((b0 % 4) * 16 + b1 / 16);
    ValueDigit((b1 % 16) * 4);
  }

  lemma DecodeEncodeTail1(b0: uint8)
    ensures DecodeGroup(EncodeTail1(b0), true) == Some([b0])
  {
    ValueDigit(b0 / 4);
    ValueDigit((b0 % 4) * 16);
  }

  /** A lone group decodes on its own. */
  lemma DecodeSingleGroup(e: string)
    requires |e| == 4 && DecodeGroup(e, true).Some?
    ensures Decode(e) == DecodeGroup(e, true)
  {
    assert e[..4] == e && e[4..] == [];
    assert DecodeGroup(e, true).value + [] == DecodeGroup(e, true).value;
  }

  /** A full group in front decodes independently of what follows. */
  lemma DecodeGroupThen(g: string, rest: string, x: seq<uint8>, y: seq<uint8>)
    requires |g| == 4 && DecodeGroup(g, |rest| == 0) == Some(x) && Decode(rest) == Some(y)
    ensures Decode(g + rest) == Some(x + y)
  {
    assert (g + rest)[..4] == g;
    assert (g + rest)[4..] == rest;
  }

  lemma EncodeCons(b: seq<uint8>)
    requires |b| >= 3
    ensures Encode(b) == EncodeGroup(b[0], b[1], b[2]) + Encode(b[3..])
  {
  }

  lemma SplitGroup(b: seq<uint8>)
    requires |b| >= 3
    ensures [b[0], b[1], b[2]] + b[3..] == b
  {
  }

  /** One full group in front of an already round-tripping remainder round-trips. */
  lemma DecodeEncodeStep(b: seq<uint8>)
    requires |b| >= 3 && Decode(Encode(b[3..])) == Some(b[3..])
    ensures Decode(Encode(b)) == Some(b)
  {
    var b3 := [b[0], b[1], b[2]];
    SplitGroup(b);
    EncodeCons(b);
    DecodeEncodeGroup(b[0], b[1], b[2], |Encode(b[3..])| == 0);
    DecodeGroupThen(EncodeGroup(b[0], b[1], b[2]), Encode(b[3..]), b3, b[3..]);
  }

  /** Round trip: decoding the standard encoding recovers the octets exactly. */
  lemma {:induction false} DecodeEncode(b: seq<uint8>)
    ensures Decode(Encode(b)) == Some(b)
    decreases |b|
  {
    if |b| == 1 {
      DecodeEncodeTail1(b[0]);
      DecodeSingleGroup(EncodeTail1(b[0]));
      assert [b[0]] == b;
    } else if |b| == 2 {
      DecodeEncodeTail2(b[0], b[1]);
      DecodeSingleGroup(EncodeTail2(b[0], b[1]));
      assert [b[0], b[1]] == b;
    } else if |b| >= 3 {
      DecodeEncode(b[3..]);
      DecodeEncodeStep(b);
    }
  }
}
