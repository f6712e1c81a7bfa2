/**
 * The base64 encoding of section 4 of RFC 4648, with `=` padding and no
 * line breaks: what OpenSSL's `EVP_EncodeBlock` writes for a digest.
 *
 * Encoding goes through sextet values: every output character stands for a
 * number below 64, or for the pad `=` (the value 64 here).
 */
module Base64 {
  import opened Common

  /** The value standing for the pad character `=`. */
  const PadValue: nat := 64
  /** The value standing for a character outside the alphabet. */
  const InvalidValue: nat := 65

  /** The 64-character alphabet of Table 1 of RFC 4648, and `=`. */
  function CharOf(v: nat): (c: char)
    requires v <= PadValue
  {
    if v < 26 then 'A' + v as char
    else if v < 52 then 'a' + (v - 26) as char
    else if v < 62 then '0' + (v - 52) as char
    else if v == 62 then '+'
    else if v == 63 then '/'
    else '='
  }

  /** Inverse of `CharOf` on the alphabet and `=`. */
  function ValueOf(c: char): (v: nat)
    ensures v <= InvalidValue
  {
    if 'A' <= c <= 'Z' then (c - 'A') as nat
    else if 'a' <= c <= 'z' then (c - 'a') as nat + 26
    else if '0' <= c <= '9' then (c - '0') as nat + 52
    else if c == '+' then 62
    else if c == '/' then 63
    else if c == '=' then PadValue
    else InvalidValue
  }

  lemma ValueOfCharOf(v: nat)
    requires v <= PadValue
    ensures ValueOf(CharOf(v)) == v
  {
  }

  function Values(s: string): (vs: seq<nat>)
    ensures |vs| == |s|
    ensures forall k :: 0 <= k < |s| ==> vs[k] == ValueOf(s[k])
  {
    seq(|s|, k requires 0 <= k < |s| => ValueOf(s[k]))
  }

  predicate AllSextetsOrPad(vs: seq<nat>) {
    forall k :: 0 <= k < |vs| ==> vs[k] <= PadValue
  }

  function Chars(vs: seq<nat>): (s: string)
    requires AllSextetsOrPad(vs)
    ensures |s| == |vs|
    ensures forall k :: 0 <= k < |vs| ==> s[k] == CharOf(vs[k])
  {
    seq(|vs|, k requires 0 <= k < |vs| => CharOf(vs[k]))
  }

  lemma ValuesOfChars(vs: seq<nat>)
    requires AllSextetsOrPad(vs)
    ensures Values(Chars(vs)) == vs
  {
    forall k | 0 <= k < |vs| ensures Values(Chars(vs))[k] == vs[k] {
      ValueOfCharOf(vs[k]);
    }
  }

  /** Three bytes as four sextets, most significant bits first. */
  function Group3(b0: byte, b1: byte, b2: byte): (g: seq<nat>)
    ensures |g| == 4 && AllSextetsOrPad(g)
  {
    var x0, x1, x2 := b0 as nat, b1 as nat, b2 as nat;
    [x0 / 4, x0 % 4 * 16 + x1 / 16, x1 % 16 * 4 + x2 / 64, x2 % 64]
  }

  /** A final group of two bytes: three sextets, the last zero-filled, and one pad. */
  function Group2(b0: byte, b1: byte): (g: seq<nat>)
    ensures |g| == 4 && AllSextetsOrPad(g)
  {
    var x0, x1 := b0 as nat, b1 as nat;
    [x0 / 4, x0 % 4 * 16 + x1 / 16, x1 % 16 * 4, PadValue]
  }

  /** A final group of one byte: two sextets, the last zero-filled, and two pads. */
  function Group1(b0: byte): (g: seq<nat>)
    ensures |g| == 4 && AllSextetsOrPad(g)
  {
    [b0 as nat / 4, b0 as nat % 4 * 16, PadValue, PadValue]
  }

  /** The sextets of the input, three bytes to four values, with a final
      group of one or two bytes padded (section 4 of RFC 4648). */
  function Sextets(data: seq<byte>): (vs: seq<nat>)
    ensures |vs| == 4 * ((|data| + 2) / 3)
    ensures AllSextetsOrPad(vs)
    decreases |data|
  {
    if |data| == 0 then []
    else if |data| == 1 then Group1(data[0])
    else if |data| == 2 then Group2(data[0], data[1])
    else Group3(data[0], data[1], data[2]) + Sextets(data[3..])
  }

  /** `EVP_EncodeBlock`: the text of the sextets. */
  function Encode(data: seq<byte>): (r: string)
    ensures |r| == 4 * ((|data| + 2) / 3)
    ensures forall k :: 0 <= k < |r| ==> ValueOf(r[k]) <= PadValue
  {
    var vs := Sextets(data);
    ValuesOfChars(vs);
    Chars(vs)
  }

  /** Bytes of one group of four values; None when the group is not valid
      base64 or holds padding anywhere but at the end of the text. */
  function DecodeGroup(g: seq<nat>, last: bool): (r: Option<seq<byte>>)
    requires |g| == 4
    ensures r.Some? ==> 1 <= |r.value| <= 3 && (|r.value| < 3 ==> last)
  {
    var a, b, c, d := g[0], g[1], g[2], g[3];
    if a >= 64 || b >= 64 then None
    else if c < 64 && d < 64 then
      Some([(a * 4 + b / 16) as byte, (b % 16 * 16 + c / 4) as byte, (c % 4 * 64 + d) as byte])
    else if !last then None
    else if c < 64 && d == PadValue then
      Some([(a * 4 + b / 16) as byte, (b % 16 * 16 + c / 4) as byte])
    else if c == PadValue && d == PadValue then
      Some([(a * 4 + b / 16) as byte])
    else None
  }

  function DecodeSextets(vs: seq<nat>): (r: Option<seq<byte>>)
    decreases |vs|
  {
    if |vs| == 0 then Some([])
    else if |vs| < 4 then None
    else match DecodeGroup(vs[..4], |vs| == 4)
      case None => None
      case Some(bytes) =>
        match DecodeSextets(vs[4..])
        case None => None
        case Some(rest) => Some(bytes + rest)
  }

  /** Inverse of `Encode`; None for text that is not base64. */
  function Decode(s: string): Option<seq<byte>> {
    DecodeSextets(Values(s))
  }

  lemma DecodeGroupOfOne(b0: byte)
    ensures DecodeGroup(Group1(b0), true) == Some([b0])
  {
  }

  lemma DecodeGroupOfTwo(b0: byte, b1: byte)
    ensures DecodeGroup(Group2(b0, b1), true) == Some([b0, b1])
  {
    var x0, x1 := b0 as nat, b1 as nat;
    assert (x0 % 4 * 16 + x1 / 16) / 16 == x0 % 4;
    assert (x0 % 4 * 16 + x1 / 16) % 16 == x1 / 16;
  }

  lemma DecodeGroupOfThree(b0: byte, b1: byte, b2: byte, last: bool)
    ensures DecodeGroup(Group3(b0, b1, b2), last) == Some([b0, b1, b2])
  {
    var x0, x1, x2 := b0 as nat, b1 as nat, b2 as nat;
    assert (x0 % 4 * 16 + x1 / 16) / 16 == x0 % 4;
    assert (x0 % 4 * 16 + x1 / 16) % 16 == x1 / 16;
    assert (x1 % 16 * 4 + x2 / 64) / 4 == x1 % 16;
    assert (x1 % 16 * 4 + x2 / 64) % 4 == x2 / 64;
  }

  lemma DecodeLastGroup(g: seq<nat>, bytes: seq<byte>)
    requires |g| == 4 && DecodeGroup(g, true) == Some(bytes)
    ensures DecodeSextets(g) == Some(bytes)
  {
    assert g[..4] == g;
    assert g[4..] == [];
    assert bytes + [] == bytes;
  }

  lemma DecodeFullGroup(g: seq<nat>, bytes: seq<byte>, rest: seq<nat>)
    requires |g| == 4 && DecodeGroup(g, rest == []) == Some(bytes)
    ensures DecodeSextets(g + rest) == match DecodeSextets(rest) { case None => None case Some(r) => Some(bytes + r) }
  {
    assert (g + rest)[..4] == g;
    assert (g + rest)[4..] == rest;
  }

  lemma {:induction false} DecodeSextetsRoundTrip(data: seq<byte>)
    ensures DecodeSextets(Sextets(data)) == Some(data)
    decreases |data|
  {
    if |data| == 1 {
      DecodeGroupOfOne(data[0]);
      assert data == [data[0]];
      DecodeLastGroup(Group1(data[0]), data);
    } else if |data| == 2 {
      DecodeGroupOfTwo(data[0], data[1]);
      assert data == [data[0], data[1]];
      DecodeLastGroup(Group2(data[0], data[1]), data);
    } else if |data| >= 3 {
      var rest := Sextets(data[3..]);
      DecodeGroupOfThree(data[0], data[1], data[2], rest == []);
      assert data[..3] == [data[0], data[1], data[2]];
      DecodeFullGroup(Group3(data[0], data[1], data[2]), data[..3], rest);
      DecodeSextetsRoundTrip(data[3..]);
      assert data == data[..3] + data[3..];
    }
  }

  /** Decoding undoes encoding, so the encoding loses nothing. */
  lemma DecodeEncode(data: seq<byte>)
    ensures Decode(Encode(data)) == Some(data)
  {
    ValuesOfChars(Sextets(data));
    DecodeSextetsRoundTrip(data);
  }

  /** Different inputs have different encodings. */
  lemma EncodeInjective(x: seq<byte>, y: seq<byte>)
    requires Encode(x) == Encode(y)
    ensures x == y
  {
    DecodeEncode(x);
    DecodeEncode(y);
  }
}
