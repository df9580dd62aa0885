/** Base64 with the URL- and filename-safe alphabet (section 5 of RFC 4648),
    without padding as section 3.2 of RFC 4648 allows: what
    Base64.getUrlEncoder().withoutPadding().encodeToString(bytes) returns. */
module Base64Url {
  import opened Jdk

  const UPPER: string := "ABCDEFGHIJKLMNOPQRSTUVWXYZ"
  const LOWER: string := "abcdefghijklmnopqrstuvwxyz"
  const DIGITS: string := "0123456789"

  /** The 64-character table of section 5 of RFC 4648, in order of value. */
  const ALPHABET: string := UPPER + LOWER + DIGITS + "-_"

  /** The character of each 6-bit value, computed from its range. */
  function CharOf(v: nat): (c: char)
    requires v < 64
  {
    if v < 26 then (65 + v) as char
    else if v < 52 then (97 + (v - 26)) as char
    else if v < 62 then (48 + (v - 52)) as char
    else if v == 62 then '-'
    else '_'
  }

  predicate IsAlphanumeric(c: char) {
    'A' <= c <= 'Z' || 'a' <= c <= 'z' || '0' <= c <= '9'
  }

  /** The characters that can appear in unpadded base64url text. */
  predicate IsBase64UrlChar(c: char) {
    IsAlphanumeric(c) || c == '-' || c == '_'
  }

  /** The value of a base64url character, or 64 for any other character. */
  function ValueOf(c: char): (v: nat)
    ensures v <= 64
    ensures v < 64 <==> IsBase64UrlChar(c)
    ensures v < 64 ==> CharOf(v) == c
  {
    if 'A' <= c <= 'Z' then c as int - 65
    else if 'a' <= c <= 'z' then c as int - 97 + 26
    else if '0' <= c <= '9' then c as int - 48 + 52
    else if c == '-' then 62
    else if c == '_' then 63
    else 64
  }

  lemma ValueOfCharOf(v: nat)
    requires v < 64
    ensures ValueOf(CharOf(v)) == v
    ensures IsBase64UrlChar(CharOf(v))
    ensures v < 62 <==> IsAlphanumeric(CharOf(v))
  {
  }

  /** The literal table and the arithmetic one agree at every index. */
  lemma AlphabetTable()
    ensures |ALPHABET| == 64
    ensures forall v | 0 <= v < 64 :: ALPHABET[v] == CharOf(v)
  {
  }

  /** The four 6-bit values of the 24-bit group b0 b1 b2, most significant first. */
  function Sextets(b0: byte, b1: byte, b2: byte): (s: seq<nat>)
    ensures |s| == 4 && forall k | 0 <= k < 4 :: s[k] < 64
  {
    [b0 / 4, (b0 % 4) * 16 + b1 / 16, (b1 % 16) * 4 + b2 / 64, b2 % 64]
  }

  function Chars(values: seq<nat>): (s: string)
    requires forall k | 0 <= k < |values| :: values[k] < 64
    ensures |s| == |values|
    ensures forall k | 0 <= k < |s| :: s[k] == ALPHABET[values[k]] && IsBase64UrlChar(s[k])
  {
    AlphabetTable();
    seq(|values|, k requires 0 <= k < |values| => ValueOfCharOf(values[k]); ALPHABET[values[k]])
  }

  /** Unpadded length of the encoding of n bytes: ceil(4n / 3). */
  function EncodedLength(n: nat): (len: nat) {
    (4 * n + 2) / 3
  }

  /** Three bytes become four characters; a final single byte becomes two and a
      final pair three, the missing bits taken as zero and no '=' appended. */
  function Encode(b: seq<byte>): (s: string)
    ensures |s| == EncodedLength(|b|)
    ensures forall k | 0 <= k < |s| :: IsBase64UrlChar(s[k])
    decreases |b|
  {
    if |b| == 0 then []
    else if |b| == 1 then Chars(Sextets(b[0], 0, 0)[..2])
    else if |b| == 2 then Chars(Sextets(b[0], b[1], 0)[..3])
    else Chars(Sextets(b[0], b[1], b[2])) + Encode(b[3..])
  }

  /** The first four characters depend only on the first three bytes. */
  lemma EncodePrefix(b: seq<byte>)
    requires |b| >= 3
    ensures |Encode(b)| >= 4
    ensures Encode(b)[..4] == Chars(Sextets(b[0], b[1], b[2]))
  {
  }

  /** A digest encodes to 43 characters. */
  lemma DigestEncodedLength(d: Digest)
    ensures |Encode(d)| == 43
  {
  }

  /** Reverses Sextets on four values. */
  function Bytes(v0: nat, v1: nat, v2: nat, v3: nat): (b: seq<byte>)
    requires v0 < 64 && v1 < 64 && v2 < 64 && v3 < 64
    ensures |b| == 3
  {
    [v0 * 4 + v1 / 16, (v1 % 16) * 16 + v2 / 4, (v2 % 4) * 64 + v3]
  }

  /** Decoding of unpadded base64url text; None for a character outside the
      alphabet or a length of 1 modulo 4. Not part of the services: it is the
      inverse Encode is checked against. */
  function Decode(s: string): (r: Option<seq<byte>>)
    decreases |s|
  {
    if |s| == 0 then Some([])
    else if |s| == 1 then None
    else
      var v0, v1 := ValueOf(s[0]), ValueOf(s[1]);
      var v2 := if |s| >= 3 then ValueOf(s[2]) else 0;
      var v3 := if |s| >= 4 then ValueOf(s[3]) else 0;
      if v0 == 64 || v1 == 64 || v2 == 64 || v3 == 64 then None
      else if |s| == 2 then Some(Bytes(v0, v1, 0, 0)[..1])
      else if |s| == 3 then Some(Bytes(v0, v1, v2, 0)[..2])
      else match Decode(s[4..])
        case None => None
        case Some(rest) => Some(Bytes(v0, v1, v2, v3) + rest)
  }

  lemma SextetsBytes(b0: byte, b1: byte, b2: byte)
    ensures var s := Sextets(b0, b1, b2); Bytes(s[0], s[1], s[2], s[3]) == [b0, b1, b2]
  {
  }

  lemma CharsValues(values: seq<nat>)
    requires forall k | 0 <= k < |values| :: values[k] < 64
    ensures forall k | 0 <= k < |values| :: ValueOf(Chars(values)[k]) == values[k]
  {
    forall k | 0 <= k < |values|
      ensures ValueOf(Chars(values)[k]) == values[k]
    {
      AlphabetTable();
      ValueOfCharOf(values[k]);
    }
  }

  lemma DecodeGroup(values: seq<nat>, t: string, rest: seq<byte>)
    requires |values| == 4 && forall k | 0 <= k < 4 :: values[k] < 64
    requires Decode(t) == Some(rest)
    ensures Decode(Chars(values) + t) == Some(Bytes(values[0], values[1], values[2], values[3]) + rest)
  {
    var s := Chars(values) + t;
    CharsValues(values);
    assert s[4..] == t;
    assert forall k | 0 <= k < 4 :: s[k] == Chars(values)[k];
  }

  /** Decoding a two- or three-character tail, once its values are known. */
  lemma DecodeTail(s: string)
    requires |s| == 2 || |s| == 3
    requires forall k | 0 <= k < |s| :: ValueOf(s[k]) < 64
    ensures |s| == 2 ==> Decode(s) == Some(Bytes(ValueOf(s[0]), ValueOf(s[1]), 0, 0)[..1])
    ensures |s| == 3 ==> Decode(s) == Some(Bytes(ValueOf(s[0]), ValueOf(s[1]), ValueOf(s[2]), 0)[..2])
  {
  }

  lemma DecodeOne(b0: byte)
    ensures Decode(Chars(Sextets(b0, 0, 0)[..2])) == Some([b0])
  {
    var v0, v1 := b0 / 4, (b0 % 4) * 16;
    var s := Chars(Sextets(b0, 0, 0)[..2]);
    CharsValues(Sextets(b0, 0, 0)[..2]);
    assert ValueOf(s[0]) == v0 && ValueOf(s[1]) == v1;
    DecodeTail(s);
    assert v1 / 16 == b0 % 4;
    assert Bytes(v0, v1, 0, 0)[..1] == [b0];
  }

  lemma TwoBytes(b0: byte, b1: byte)
    ensures Bytes(b0 / 4, (b0 % 4) * 16 + b1 / 16, (b1 % 16) * 4, 0)[..2] == [b0, b1]
  {
    var v1, v2 := (b0 % 4) * 16 + b1 / 16, (b1 % 16) * 4;
    assert v1 / 16 == b0 % 4 && v1 % 16 == b1 / 16 && v2 / 4 == b1 % 16;
  }

  lemma DecodeTwo(b0: byte, b1: byte)
    ensures Decode(Chars(Sextets(b0, b1, 0)[..3])) == Some([b0, b1])
  {
    var values := Sextets(b0, b1, 0)[..3];
    var s := Chars(values);
    CharsValues(values);
    assert ValueOf(s[0]) == b0 / 4 && ValueOf(s[1]) == (b0 % 4) * 16 + b1 / 16 && ValueOf(s[2]) == (b1 % 16) * 4;
    DecodeTail(s);
    TwoBytes(b0, b1);
  }

  /** Distinct three-byte groups encode to distinct four-character groups. */
  lemma GroupCharsInjective(a0: byte, a1: byte, a2: byte, b0: byte, b1: byte, b2: byte)
    requires Chars(Sextets(a0, a1, a2)) == Chars(Sextets(b0, b1, b2))
    ensures [a0, a1, a2] == [b0, b1, b2]
  {
    var sa, sb := Sextets(a0, a1, a2), Sextets(b0, b1, b2);
    CharsValues(sa);
    CharsValues(sb);
    assert forall k | 0 <= k < 4 :: sa[k] == ValueOf(Chars(sa)[k]) == sb[k];
    assert sa == sb;
    SextetsBytes(a0, a1, a2);
    SextetsBytes(b0, b1, b2);
  }

  /** Decoding undoes encoding, for every byte sequence. */
  lemma {:induction false} DecodeEncode(b: seq<byte>)
    ensures Decode(Encode(b)) == Some(b)
    decreases |b|
  {
    if |b| == 1 {
      DecodeOne(b[0]);
      assert [b[0]] == b;
    } else if |b| == 2 {
      DecodeTwo(b[0], b[1]);
      assert [b[0], b[1]] == b;
    } else if |b| >= 3 {
      var values := Sextets(b[0], b[1], b[2]);
      DecodeEncode(b[3..]);
      DecodeGroup(values, Encode(b[3..]), b[3..]);
      SextetsBytes(b[0], b[1], b[2]);
      assert b == [b[0], b[1], b[2]] + b[3..];
    }
  }

  /** Hence Encode is injective: distinct digests have distinct encodings. */
  lemma EncodeInjective(a: seq<byte>, b: seq<byte>)
    requires Encode(a) == Encode(b)
    ensures a == b
  {
    DecodeEncode(a);
    DecodeEncode(b);
  }
}
