/** The URL-safe rewrite applied to the standard encoding before submission:
    `+` becomes `-`, `/` becomes `_` (section 5 of RFC 4648) and the trailing
    `=` run is dropped (section 3.2 of RFC 4648 permits omitting padding). */
module Base64Url {
  import opened Wrappers
  import Base64

  function UrlChar(c: char): char {
    if c == '+' then '-' else if c == '/' then '_' else c
  }

  function StdChar(c: char): char {
    if c == '-' then '+' else if c == '_' then '/' else c
  }

  /** The two global `replace` calls: every `+` and every `/` rewritten, all else kept. */
  function Translate(s: string): (r: string)
    ensures |r| == |s|
    ensures forall i :: 0 <= i < |s| ==> r[i] != '+' && r[i] != '/'
    ensures forall i :: 0 <= i < |s| ==> (s[i] != '+' && s[i] != '/' ==> r[i] == s[i])
  {
    seq(|s|, i requires 0 <= i < |s| => UrlChar(s[i]))
  }

  /** The `replace(/=+$/, '')` step: the longest suffix made only of `=` is removed. */
  function StripPadding(s: string): (r: string)
    ensures |r| <= |s| && r == s[..|r|]
    ensures |r| == 0 || r[|r| - 1] != Base64.PadChar
    ensures forall i :: |r| <= i < |s| ==> s[i] == Base64.PadChar
    decreases |s|
  {
    if |s| > 0 && s[|s| - 1] == Base64.PadChar then StripPadding(s[..|s| - 1]) else s
  }

  /** Standard base64 text rewritten into the unpadded URL-safe form. */
  function FromStandard(s: string): (r: string)
    ensures |r| <= |s|
    ensures forall i :: 0 <= i < |r| ==> r[i] != '+' && r[i] != '/'
    ensures |r| == 0 || r[|r| - 1] != Base64.PadChar
  {
    StripPadding(Translate(s))
  }

  /** The receiving side: map `-` and `_` back and re-pad to a multiple of four. */
  function ToStandard(u: string): (s: string)
    ensures |s| % 4 == 0 || |u| % 4 == 1
  {
    seq(|u|, i requires 0 <= i < |u| => StdChar(u[i])) + seq((4 - |u| % 4) % 4, _ => Base64.PadChar)
  }

  /** The unpadded URL-safe encoding of an octet sequence, as `createMessage` returns it. */
  function Encode(b: seq<uint8>): (u: string)
    ensures |u| == (4 * |b| + 2) / 3
    ensures forall i :: 0 <= i < |u| ==> u[i] != '+' && u[i] != '/' && u[i] != Base64.PadChar
    ensures forall i :: 0 <= i < |u| ==> Base64.IsDigit(StdChar(u[i]))
  {
    var s := Base64.Encode(b);
    var p := Base64.PadCount(|b|);
    Base64.EncodeShape(b);
    TranslateShape(s, p);
    StripExactly(Translate(s), p);
    UnpaddedLength(|b|);
    FromStandard(s)
  }

  /** The length of the unpadded encoding of `n` octets. */
  lemma UnpaddedLength(n: nat)
    ensures 4 * ((n + 2) / 3) - Base64.PadCount(n) == (4 * n + 2) / 3
  {
    var q, r := n / 3, n % 3;
    assert n == 3 * q + r;
    if r == 0 {
      assert (n + 2) / 3 == q && (4 * n + 2) / 3 == 4 * q;
    } else if r == 1 {
      assert (n + 2) / 3 == q + 1 && (4 * n + 2) / 3 == 4 * q + 2;
    } else {
      assert (n + 2) / 3 == q + 1 && (4 * n + 2) / 3 == 4 * q + 3;
    }
  }

  /** Translating keeps digits digits (recoverable by `StdChar`) and pads pads. */
  lemma TranslateShape(s: string, p: nat)
    requires Base64.DigitsThenPad(s, p)
    ensures forall i :: 0 <= i < |s| - p ==>
      Translate(s)[i] != Base64.PadChar && StdChar(Translate(s)[i]) == s[i] && Base64.IsDigit(s[i])
    ensures forall i :: |s| - p <= i < |s| ==> Translate(s)[i] == Base64.PadChar
  {
  }

  /** Stripping a translated encoding removes exactly its padding. */
  lemma StripExactly(t: string, p: nat)
    requires p <= |t|
    requires forall i :: 0 <= i < |t| - p ==> t[i] != Base64.PadChar
    requires forall i :: |t| - p <= i < |t| ==> t[i] == Base64.PadChar
    ensures StripPadding(t) == t[..|t| - p]
    decreases p
  {
    if p == 0 {
      assert t[..|t|] == t;
    } else {
      var t' := t[..|t| - 1];
      StripExactly(t', p - 1);
      assert t'[..|t'| - (p - 1)] == t[..|t| - p];
    }
  }

  /** Re-padding a stripped translation with as many pads as it lost restores the text. */
  lemma Repad(s: string, p: nat)
    requires Base64.DigitsThenPad(s, p)
    requires (4 - (|s| - p) % 4) % 4 == p
    ensures ToStandard(Translate(s)[..|s| - p]) == s
  {
    TranslateShape(s, p);
    var back := ToStandard(Translate(s)[..|s| - p]);
    assert |back| == |s|;
    forall i | 0 <= i < |s|
      ensures back[i] == s[i]
    {
    }
  }

  /** Any digits-then-padding text whose padding re-padding would restore
      survives the rewrite and its reversal. */
  lemma RoundTripShape(s: string, p: nat)
    requires Base64.DigitsThenPad(s, p)
    requires (4 - (|s| - p) % 4) % 4 == p
    ensures ToStandard(FromStandard(s)) == s
  {
    TranslateShape(s, p);
    StripExactly(Translate(s), p);
    Repad(s, p);
  }

  /** Re-padding and reversing the rewrite gives back the standard encoding. */
  lemma ToStandardEncode(b: seq<uint8>)
    ensures ToStandard(Encode(b)) == Base64.Encode(b)
  {
    var s := Base64.Encode(b);
    Base64.EncodeShape(b);
    RepadArith(|b|, |s|);
    RoundTripShape(s, Base64.PadCount(|b|));
    assert Encode(b) == FromStandard(s);
  }

  /** Round trip: re-padding and reversing the rewrite gives back the standard
      encoding, so a standard decoder recovers the original octets. */
  lemma DecodeEncode(b: seq<uint8>)
    ensures ToStandard(Encode(b)) == Base64.Encode(b)
    ensures Base64.Decode(ToStandard(Encode(b))) == Some(b)
  {
    ToStandardEncode(b);
    Base64.DecodeEncode(b);
  }

  /** Re-padding adds back exactly the dropped `=` characters. */
  lemma RepadArith(n: nat, len: nat)
    requires len == 4 * ((n + 2) / 3)
    ensures (4 - (len - Base64.PadCount(n)) % 4) % 4 == Base64.PadCount(n)
  {
    var q, r := n / 3, n % 3;
    assert n == 3 * q + r;
    if r == 0 {
      assert (n + 2) / 3 == q;
    } else {
      assert (n + 2) / 3 == q + 1;
    }
  }
}
