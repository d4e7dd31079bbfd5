/** The standard base64 alphabet (section 4 of RFC 4648) as the fingerprint
    code uses it: padded encoding (`base64::encode`, `STANDARD`) and the
    unpadded variant (`STANDARD_NO_PAD`). Decoding of the key material is
    left to a parameter of the fingerprint model; the canonical unpadded
    decoder here is the inverse the encoder is checked against. */
module Base64 {
  import opened Wrappers
  import Text

  type Byte = b: int | 0 <= b < 256

  /** The character for a 6-bit value. */
  function CharOf(v: int): (c: char)
    requires 0 <= v < 64
    ensures c != '='
  {
    if v < 26 then ('A' as int + v) as char
    else if v < 52 then ('a' as int + v - 26) as char
    else if v < 62 then ('0' as int + v - 52) as char
    else if v == 62 then '+'
    else '/'
  }

  predicate IsAlphabet(c: char)
  {
    ('A' <= c <= 'Z') || ('a' <= c <= 'z') || ('0' <= c <= '9') || c == '+' || c == '/'
  }

  /** The 6-bit value of an alphabet character. */
  function ValueOf(c: char): (v: int)
    requires IsAlphabet(c)
    ensures 0 <= v < 64
  {
    if 'A' <= c <= 'Z' then c as int - 'A' as int
    else if 'a' <= c <= 'z' then c as int - 'a' as int + 26
    else if '0' <= c <= '9' then c as int - '0' as int + 52
    else if c == '+' then 62
    else 63
  }

  /** `CharOf` and `ValueOf` are inverse bijections between 0..63 and the
      alphabet. */
  lemma CharValueInverse(v: int, c: char)
    requires 0 <= v < 64
    ensures IsAlphabet(CharOf(v)) && ValueOf(CharOf(v)) == v
    ensures IsAlphabet(c) ==> CharOf(ValueOf(c)) == c
  {
  }

  /** Three bytes as four characters. */
  function Quad(b0: Byte, b1: Byte, b2: Byte): string
  {
    [CharOf(b0 / 4), CharOf((b0 % 4) * 16 + b1 / 16), CharOf((b1 % 16) * 4 + b2 / 64), CharOf(b2 % 64)]
  }

  /** A two-byte tail as three characters (the low bits of the last one zero). */
  function Triple(b0: Byte, b1: Byte): string
  {
    [CharOf(b0 / 4), CharOf((b0 % 4) * 16 + b1 / 16), CharOf((b1 % 16) * 4)]
  }

  /** A one-byte tail as two characters. */
  function Pair(b0: Byte): string
  {
    [CharOf(b0 / 4), CharOf((b0 % 4) * 16)]
  }

  /** `STANDARD_NO_PAD.encode`: the 4-characters-per-3-bytes encoding with the
      last group shortened instead of padded. */
  function EncodeNoPad(bs: seq<Byte>): (r: string)
    ensures forall i :: 0 <= i < |r| ==> IsAlphabet(r[i])
    decreases |bs|
  {
    if |bs| >= 3 then Quad(bs[0], bs[1], bs[2]) + EncodeNoPad(bs[3..])
    else if |bs| == 2 then Triple(bs[0], bs[1])
    else if |bs| == 1 then Pair(bs[0])
    else ""
  }

  /** `STANDARD.encode`: the padded encoding, always a multiple of four
      characters, with `=` filling the last group. */
  function EncodePadded(bs: seq<Byte>): (r: string)
    decreases |bs|
  {
    if |bs| >= 3 then Quad(bs[0], bs[1], bs[2]) + EncodePadded(bs[3..])
    else if |bs| == 2 then Triple(bs[0], bs[1]) + "="
    else if |bs| == 1 then Pair(bs[0]) + "=="
    else ""
  }

  /** The padding the padded encoding appends for `n` input bytes. */
  function Padding(n: nat): (p: string)
    ensures forall i :: 0 <= i < |p| ==> p[i] == '='
    ensures |p| == (3 - n % 3) % 3
  {
    if n % 3 == 1 then "==" else if n % 3 == 2 then "=" else ""
  }

  /** The padded encoding is the unpadded one followed by the padding. */
  lemma {:induction false} PaddedIsNoPadPlusPadding(bs: seq<Byte>)
    ensures EncodePadded(bs) == EncodeNoPad(bs) + Padding(|bs|)
    decreases |bs|
  {
    if |bs| >= 3 {
      PaddedIsNoPadPlusPadding(bs[3..]);
      PaddedStep(bs);
    }
  }

  /** One full group in front keeps the padded encoding the unpadded one
      plus padding. */
  lemma PaddedStep(bs: seq<Byte>)
    requires |bs| >= 3
    requires EncodePadded(bs[3..]) == EncodeNoPad(bs[3..]) + Padding(|bs| - 3)
    ensures EncodePadded(bs) == EncodeNoPad(bs) + Padding(|bs|)
  {
    var q, rest := Quad(bs[0], bs[1], bs[2]), bs[3..];
    assert Padding(|bs| - 3) == Padding(|bs|) by {
      assert (|bs| - 3) % 3 == |bs| % 3;
    }
    assert q + (EncodeNoPad(rest) + Padding(|bs|)) == (q + EncodeNoPad(rest)) + Padding(|bs|);
  }

  /** Stripping the trailing `=` of `p + padding` leaves `p` when `p` does
      not itself end in `=`. */
  lemma {:induction false} TrimEndPadding(p: string, pad: string)
    requires forall i :: 0 <= i < |pad| ==> pad[i] == '='
    requires !Text.EndsWithChar(p, '=')
    ensures Text.TrimEndChar(p + pad, '=') == p
    decreases |pad|
  {
    if |pad| == 0 {
      assert p + pad == p;
    } else {
      assert (p + pad)[..|p + pad| - 1] == p + pad[..|pad| - 1];
      TrimEndPadding(p, pad[..|pad| - 1]);
    }
  }

  /** Trimming the `=` off a prefixed padded encoding gives the prefixed
      unpadded encoding. */
  lemma TrimmedPaddedIsNoPad(prefix: string, bs: seq<Byte>)
    requires !Text.EndsWithChar(prefix + EncodeNoPad(bs), '=')
    ensures Text.TrimEndChar(prefix + EncodePadded(bs), '=') == prefix + EncodeNoPad(bs)
  {
    PaddedIsNoPadPlusPadding(bs);
    assert prefix + EncodePadded(bs) == (prefix + EncodeNoPad(bs)) + Padding(|bs|);
    TrimEndPadding(prefix + EncodeNoPad(bs), Padding(|bs|));
  }

  // ---------------------------------------------------------------------------
  // The inverse: canonical unpadded decoding
  // ---------------------------------------------------------------------------

  /** Decodes an unpadded encoding; rejects characters outside the alphabet,
      a dangling single character and nonzero unused low bits, so that every
      accepted text is the encoding of exactly one byte string. */
  function DecodeNoPad(s: string): (r: Option<seq<Byte>>)
    decreases |s|
  {
    if |s| >= 4 then
      if IsAlphabet(s[0]) && IsAlphabet(s[1]) && IsAlphabet(s[2]) && IsAlphabet(s[3]) then
        var rest := DecodeNoPad(s[4..]);
        if rest.None? then None
        else Some(GroupBytes(s) + rest.value)
      else None
    else if |s| == 3 then
      if IsAlphabet(s[0]) && IsAlphabet(s[1]) && IsAlphabet(s[2]) && ValueOf(s[2]) % 4 == 0 then
        var c0, c1, c2 := ValueOf(s[0]), ValueOf(s[1]), ValueOf(s[2]);
        Some([c0 * 4 + c1 / 16, (c1 % 16) * 16 + c2 / 4])
      else None
    else if |s| == 2 then
      if IsAlphabet(s[0]) && IsAlphabet(s[1]) && ValueOf(s[1]) % 16 == 0 then
        Some([ValueOf(s[0]) * 4 + ValueOf(s[1]) / 16])
      else None
    else if |s| == 1 then None
    else Some([])
  }

  /** One full group decodes to the three bytes it encodes. */
  lemma QuadRoundTrip(b0: Byte, b1: Byte, b2: Byte)
    ensures var q := Quad(b0, b1, b2);
      IsAlphabet(q[0]) && IsAlphabet(q[1]) && IsAlphabet(q[2]) && IsAlphabet(q[3]) &&
      GroupBytes(q) == [b0, b1, b2]
  {
    var v0, v1, v2, v3 := b0 / 4, (b0 % 4) * 16 + b1 / 16, (b1 % 16) * 4 + b2 / 64, b2 % 64;
    SixBitSplit(b0, b1, b2, v0, v1, v2, v3);
    CharValueInverse(v0, ' ');
    CharValueInverse(v1, ' ');
    CharValueInverse(v2, ' ');
    CharValueInverse(v3, ' ');
    var q := Quad(b0, b1, b2);
    assert ValueOf(q[0]) == v0 && ValueOf(q[1]) == v1 && ValueOf(q[2]) == v2 && ValueOf(q[3]) == v3;
  }

  /** The four 6-bit values of three bytes give the bytes back. */
  lemma SixBitSplit(b0: Byte, b1: Byte, b2: Byte, v0: int, v1: int, v2: int, v3: int)
    requires v0 == b0 / 4 && v1 == (b0 % 4) * 16 + b1 / 16 && v2 == (b1 % 16) * 4 + b2 / 64 && v3 == b2 % 64
    ensures 0 <= v0 < 64 && 0 <= v1 < 64 && 0 <= v2 < 64 && 0 <= v3 < 64
    ensures v0 * 4 + v1 / 16 == b0 && (v1 % 16) * 16 + v2 / 4 == b1 && (v2 % 4) * 64 + v3 == b2
  {
    assert v1 / 16 == b0 % 4 && v1 % 16 == b1 / 16;
    assert v2 / 4 == b1 % 16 && v2 % 4 == b2 / 64;
  }

  lemma TripleRoundTrip(b0: Byte, b1: Byte)
    ensures DecodeNoPad(Triple(b0, b1)) == Some([b0, b1])
  {
    var s := Triple(b0, b1);
    var c0, c1, c2 := b0 / 4, (b0 % 4) * 16 + b1 / 16, (b1 % 16) * 4;
    CharValueInverse(c0, ' ');
    CharValueInverse(c1, ' ');
    CharValueInverse(c2, ' ');
    assert ValueOf(s[0]) == c0 && ValueOf(s[1]) == c1 && ValueOf(s[2]) == c2;
    assert c2 % 4 == 0;
    assert c0 * 4 + c1 / 16 == b0;
    assert (c1 % 16) * 16 + c2 / 4 == b1;
  }

  lemma PairRoundTrip(b0: Byte)
    ensures DecodeNoPad(Pair(b0)) == Some([b0])
  {
    var s := Pair(b0);
    var c0, c1 := b0 / 4, (b0 % 4) * 16;
    CharValueInverse(c0, ' ');
    CharValueInverse(c1, ' ');
    assert ValueOf(s[0]) == c0 && ValueOf(s[1]) == c1;
    assert c1 % 16 == 0;
    assert c0 * 4 + c1 / 16 == b0;
  }

  /** Decoding an encoding gives the bytes back. */
  lemma {:induction false} DecodeEncode(bs: seq<Byte>)
    ensures DecodeNoPad(EncodeNoPad(bs)) == Some(bs)
    decreases |bs|
  {
    if |bs| >= 3 {
      DecodeEncode(bs[3..]);
      assert bs == [bs[0], bs[1], bs[2]] + bs[3..];
      DecodeStep(bs[0], bs[1], bs[2], bs[3..]);
    } else if |bs| == 2 {
      TripleRoundTrip(bs[0], bs[1]);
      assert bs == [bs[0], bs[1]];
    } else if |bs| == 1 {
      PairRoundTrip(bs[0]);
      assert bs == [bs[0]];
    }
  }

  /** A full group in front of an encoding that decodes back keeps it
      decoding back. */
  lemma DecodeStep(b0: Byte, b1: Byte, b2: Byte, tail: seq<Byte>)
    requires DecodeNoPad(EncodeNoPad(tail)) == Some(tail)
    ensures DecodeNoPad(EncodeNoPad([b0, b1, b2] + tail)) == Some([b0, b1, b2] + tail)
  {
    var bs, q, rest := [b0, b1, b2] + tail, Quad(b0, b1, b2), EncodeNoPad(tail);
    assert bs[3..] == tail && bs[0] == b0 && bs[1] == b1 && bs[2] == b2;
    QuadRoundTrip(b0, b1, b2);
    assert EncodeNoPad(bs) == q + rest;
    DecodeGroup(q, rest);
  }

  /** A group of four alphabet characters in front of a decodable text adds
      its three bytes in front of the decoded ones. */
  lemma DecodeGroup(q: string, t: string)
    requires |q| == 4 && IsAlphabet(q[0]) && IsAlphabet(q[1]) && IsAlphabet(q[2]) && IsAlphabet(q[3])
    requires DecodeNoPad(t).Some?
    ensures DecodeNoPad(q + t) == Some(GroupBytes(q) + DecodeNoPad(t).value)
  {
    var s := q + t;
    assert s[4..] == t;
    assert s[0] == q[0] && s[1] == q[1] && s[2] == q[2] && s[3] == q[3];
    assert GroupBytes(s) == GroupBytes(q);
  }

  /** Four 6-bit values make three bytes. */
  lemma GroupRange(c0: int, c1: int, c2: int, c3: int)
    requires 0 <= c0 < 64 && 0 <= c1 < 64 && 0 <= c2 < 64 && 0 <= c3 < 64
    ensures 0 <= c0 * 4 + c1 / 16 < 256
    ensures 0 <= (c1 % 16) * 16 + c2 / 4 < 256
    ensures 0 <= (c2 % 4) * 64 + c3 < 256
  {
  }

  /** Re-encoding four decoded 6-bit values gives the same four characters. */
  lemma QuadOfValues(c0: int, c1: int, c2: int, c3: int, b0: Byte, b1: Byte, b2: Byte)
    requires 0 <= c0 < 64 && 0 <= c1 < 64 && 0 <= c2 < 64 && 0 <= c3 < 64
    requires b0 == c0 * 4 + c1 / 16 && b1 == (c1 % 16) * 16 + c2 / 4 && b2 == (c2 % 4) * 64 + c3
    ensures Quad(b0, b1, b2) == [CharOf(c0), CharOf(c1), CharOf(c2), CharOf(c3)]
  {
    assert b0 / 4 == c0 && b0 % 4 == c1 / 16;
    assert b1 / 16 == c1 % 16 && b1 % 16 == c2 / 4;
    assert b2 / 64 == c2 % 4 && b2 % 64 == c3;
  }

  /** The same for a three-character tail whose last value has zero low bits. */
  lemma TripleOfValues(c0: int, c1: int, c2: int, b0: Byte, b1: Byte)
    requires 0 <= c0 < 64 && 0 <= c1 < 64 && 0 <= c2 < 64 && c2 % 4 == 0
    requires b0 == c0 * 4 + c1 / 16 && b1 == (c1 % 16) * 16 + c2 / 4
    ensures Triple(b0, b1) == [CharOf(c0), CharOf(c1), CharOf(c2)]
  {
    assert b0 / 4 == c0 && b0 % 4 == c1 / 16;
    assert b1 / 16 == c1 % 16 && (b1 % 16) * 4 == c2;
  }

  /** The same for a two-character tail whose last value has zero low bits. */
  lemma PairOfValues(c0: int, c1: int, b0: Byte)
    requires 0 <= c0 < 64 && 0 <= c1 < 64 && c1 % 16 == 0
    requires b0 == c0 * 4 + c1 / 16
    ensures Pair(b0) == [CharOf(c0), CharOf(c1)]
  {
    assert b0 / 4 == c0 && (b0 % 4) * 16 == c1;
  }

  /** The bytes the decoder reads from one full group of four characters. */
  function GroupBytes(s: string): (bs: seq<Byte>)
    requires |s| >= 4 && IsAlphabet(s[0]) && IsAlphabet(s[1]) && IsAlphabet(s[2]) && IsAlphabet(s[3])
    ensures |bs| == 3
  {
    var c0, c1, c2, c3 := ValueOf(s[0]), ValueOf(s[1]), ValueOf(s[2]), ValueOf(s[3]);
    GroupRange(c0, c1, c2, c3);
    [c0 * 4 + c1 / 16, (c1 % 16) * 16 + c2 / 4, (c2 % 4) * 64 + c3]
  }

  /** Re-encoding a decoded group gives the group's characters. */
  lemma GroupBytesQuad(s: string)
    requires |s| >= 4 && IsAlphabet(s[0]) && IsAlphabet(s[1]) && IsAlphabet(s[2]) && IsAlphabet(s[3])
    ensures var g := GroupBytes(s); Quad(g[0], g[1], g[2]) == s[..4]
  {
    var c0, c1, c2, c3 := ValueOf(s[0]), ValueOf(s[1]), ValueOf(s[2]), ValueOf(s[3]);
    var g := GroupBytes(s);
    assert g[0] == c0 * 4 + c1 / 16 && g[1] == (c1 % 16) * 16 + c2 / 4 && g[2] == (c2 % 4) * 64 + c3;
    QuadOfValues(c0, c1, c2, c3, g[0], g[1], g[2]);
    AlphabetRoundTrip(s[0]);
    AlphabetRoundTrip(s[1]);
    AlphabetRoundTrip(s[2]);
    AlphabetRoundTrip(s[3]);
  }

  /** Every text the decoder accepts is the encoding of what it decodes to:
      the unpadded encoding is a bijection onto the accepted texts. */
  lemma {:induction false} EncodeDecode(s: string)
    requires DecodeNoPad(s).Some?
    ensures EncodeNoPad(DecodeNoPad(s).value) == s
    decreases |s|
  {
    var bs := DecodeNoPad(s).value;
    if |s| >= 4 {
      var g := GroupBytes(s);
      var rest := DecodeNoPad(s[4..]).value;
      assert bs == g + rest;
      EncodeDecode(s[4..]);
      GroupBytesQuad(s);
      assert bs[0] == g[0] && bs[1] == g[1] && bs[2] == g[2] && bs[3..] == rest;
      assert EncodeNoPad(bs) == s[..4] + s[4..];
      assert s == s[..4] + s[4..];
    } else if |s| == 3 {
      TailRoundTrip3(s);
    } else if |s| == 2 {
      TailRoundTrip2(s);
    }
  }

  /** A decodable three-character tail re-encodes to itself. */
  lemma TailRoundTrip3(s: string)
    requires |s| == 3 && DecodeNoPad(s).Some?
    ensures EncodeNoPad(DecodeNoPad(s).value) == s
  {
    var c0, c1, c2 := ValueOf(s[0]), ValueOf(s[1]), ValueOf(s[2]);
    var bs := DecodeNoPad(s).value;
    assert |bs| == 2 && bs[0] == c0 * 4 + c1 / 16 && bs[1] == (c1 % 16) * 16 + c2 / 4;
    TripleOfValues(c0, c1, c2, bs[0], bs[1]);
    AlphabetRoundTrip(s[0]);
    AlphabetRoundTrip(s[1]);
    AlphabetRoundTrip(s[2]);
  }

  /** A decodable two-character tail re-encodes to itself. */
  lemma TailRoundTrip2(s: string)
    requires |s| == 2 && DecodeNoPad(s).Some?
    ensures EncodeNoPad(DecodeNoPad(s).value) == s
  {
    var c0, c1 := ValueOf(s[0]), ValueOf(s[1]);
    var bs := DecodeNoPad(s).value;
    assert |bs| == 1 && bs[0] == c0 * 4 + c1 / 16;
    PairOfValues(c0, c1, bs[0]);
    AlphabetRoundTrip(s[0]);
    AlphabetRoundTrip(s[1]);
  }

  /** An alphabet character is the character of its value. */
  lemma AlphabetRoundTrip(c: char)
    requires IsAlphabet(c)
    ensures CharOf(ValueOf(c)) == c
  {
  }
}
