/**
 * Standard base64 (section 4 of RFC 4648), as `u8toa` (`Buffer#toString('base64')`)
 * produces it and as `atou8` (`Buffer.from(s, 'base64')`) reads it back.
 */
module Base64 {
  import opened Bytes

  /** The padding character. */
  const Pad: char := '='

  /** The alphabet of section 4 of RFC 4648: value `v` in 0..63 to its character. */
  function CharOf(v: int): (c: char)
    requires 0 <= v < 64
  {
    if v < 26 then ('A' as int + v) as char
    else if v < 52 then ('a' as int + (v - 26)) as char
    else if v < 62 then ('0' as int + (v - 52)) as char
    else if v == 62 then '+'
    else '/'
  }

  predicate IsAlphabetChar(c: char) {
    ('A' <= c <= 'Z') || ('a' <= c <= 'z') || ('0' <= c <= '9') || c == '+' || c == '/'
  }

  /** The inverse of `CharOf` on the alphabet. */
  function IndexOf(c: char): (v: int)
    requires IsAlphabetChar(c)
    ensures 0 <= v < 64 && CharOf(v) == c
  {
    if 'A' <= c <= 'Z' then c as int - 'A' as int
    else if 'a' <= c <= 'z' then c as int - 'a' as int + 26
    else if '0' <= c <= '9' then c as int - '0' as int + 52
    else if c == '+' then 62
    else 63
  }

  lemma IndexOfCharOf(v: int)
    requires 0 <= v < 64
    ensures IsAlphabetChar(CharOf(v)) && IndexOf(CharOf(v)) == v
  {
  }

  // ---- encoding ----

  /** Three octets become four characters. */
  function EncodeTriple(b0: byte, b1: byte, b2: byte): string {
    [CharOf(b0 / 4), CharOf((b0 % 4) * 16 + b1 / 16), CharOf((b1 % 16) * 4 + b2 / 64), CharOf(b2 % 64)]
  }

  /** A final single octet: two characters and two pads. */
  function EncodeSingle(b0: byte): string {
    [CharOf(b0 / 4), CharOf((b0 % 4) * 16), Pad, Pad]
  }

  /** A final pair of octets: three characters and one pad. */
  function EncodePair(b0: byte, b1: byte): string {
    [CharOf(b0 / 4), CharOf((b0 % 4) * 16 + b1 / 16), CharOf((b1 % 16) * 4), Pad]
  }

  /** `u8toa`: the padded base64 text of a byte sequence. */
  function Encode(b: seq<byte>): (s: string)
    ensures |s| == 4 * ((|b| + 2) / 3)
    decreases |b|
  {
    if |b| == 0 then ""
    else if |b| == 1 then EncodeSingle(b[0])
    else if |b| == 2 then EncodePair(b[0], b[1])
    else
      ThirdsStep(|b|);
      EncodeTriple(b[0], b[1], b[2]) + Encode(b[3..])
  }

  /** Three more octets make one more group of three. */
  lemma ThirdsStep(n: int)
    requires n >= 3
    ensures n / 3 == (n - 3) / 3 + 1 && n % 3 == (n - 3) % 3
    ensures (n + 2) / 3 == (n - 3 + 2) / 3 + 1
  {
  }

  /** How many `=` end the encoding of `n` octets. */
  function PadCount(n: nat): nat {
    if n % 3 == 0 then 0 else 3 - n % 3
  }

  // ---- canonical text and decoding ----

  predicate IsFullQuad(q: string)
    requires |q| == 4
  {
    IsAlphabetChar(q[0]) && IsAlphabetChar(q[1]) && IsAlphabetChar(q[2]) && IsAlphabetChar(q[3])
  }

  /** `xyz=`, whose unused low bits of `z` are zero. */
  predicate IsPadOneQuad(q: string)
    requires |q| == 4
  {
    IsAlphabetChar(q[0]) && IsAlphabetChar(q[1]) && IsAlphabetChar(q[2]) && q[3] == Pad
    && IndexOf(q[2]) % 4 == 0
  }

  /** `xy==`, whose unused low bits of `y` are zero. */
  predicate IsPadTwoQuad(q: string)
    requires |q| == 4
  {
    IsAlphabetChar(q[0]) && IsAlphabetChar(q[1]) && q[2] == Pad && q[3] == Pad
    && IndexOf(q[1]) % 16 == 0
  }

  /**
   * Canonical base64 text: whole quads of alphabet characters, of which only the
   * last may carry one or two pads, with the padding bits zero.
   */
  predicate IsBase64(s: string)
    decreases |s|
  {
    if |s| == 0 then true
    else if |s| < 4 then false
    else if |s| == 4 then IsFullQuad(s) || IsPadOneQuad(s) || IsPadTwoQuad(s)
    else IsFullQuad(s[..4]) && IsBase64(s[4..])
  }

  function DecodeQuad(q: string): (b: seq<byte>)
    requires |q| == 4 && IsFullQuad(q)
    ensures |b| == 3
  {
    var i0, i1, i2, i3 := IndexOf(q[0]), IndexOf(q[1]), IndexOf(q[2]), IndexOf(q[3]);
    [i0 * 4 + i1 / 16, (i1 % 16) * 16 + i2 / 4, (i2 % 4) * 64 + i3]
  }

  /** `atou8` on canonical text: three octets per four characters, one fewer per pad. */
  function Decode(s: string): (b: seq<byte>)
    requires IsBase64(s)
    ensures 4 * |b| <= 3 * |s| < 4 * |b| + 9
    ensures Pad !in s ==> 4 * |b| == 3 * |s|
    decreases |s|
  {
    if |s| == 0 then []
    else if |s| == 4 && IsPadTwoQuad(s) then
      [IndexOf(s[0]) * 4 + IndexOf(s[1]) / 16]
    else if |s| == 4 && IsPadOneQuad(s) then
      [IndexOf(s[0]) * 4 + IndexOf(s[1]) / 16, (IndexOf(s[1]) % 16) * 16 + IndexOf(s[2]) / 4]
    else DecodeQuad(s[..4]) + Decode(s[4..])
  }

  // ---- properties ----

  lemma TripleRoundTrip(b0: byte, b1: byte, b2: byte)
    ensures IsFullQuad(EncodeTriple(b0, b1, b2))
    ensures DecodeQuad(EncodeTriple(b0, b1, b2)) == [b0, b1, b2]
  {
    var i0, i1, i2, i3 := b0 / 4, (b0 % 4) * 16 + b1 / 16, (b1 % 16) * 4 + b2 / 64, b2 % 64;
    IndexOfCharOf(i0);
    IndexOfCharOf(i1);
    IndexOfCharOf(i2);
    IndexOfCharOf(i3);
    SextetsRegroup(b0, b1, b2);
    var q := EncodeTriple(b0, b1, b2);
    assert IndexOf(q[0]) == i0 && IndexOf(q[1]) == i1 && IndexOf(q[2]) == i2 && IndexOf(q[3]) == i3;
  }

  /** The four sextets of three octets regroup into the same three octets. */
  lemma SextetsRegroup(b0: byte, b1: byte, b2: byte)
    ensures var i0, i1, i2, i3 := b0 / 4, (b0 % 4) * 16 + b1 / 16, (b1 % 16) * 4 + b2 / 64, b2 % 64;
      i0 * 4 + i1 / 16 == b0 && (i1 % 16) * 16 + i2 / 4 == b1 && (i2 % 4) * 64 + i3 == b2
  {
    DivMod16(b0 % 4, b1 / 16);
    DivMod4(b1 % 16, b2 / 64);
  }

  /** Every encoding is canonical text. */
  lemma {:induction false} EncodeIsBase64(b: seq<byte>)
    ensures IsBase64(Encode(b))
    decreases |b|
  {
    if |b| == 1 {
      IndexOfCharOf(b[0] / 4);
      IndexOfCharOf((b[0] % 4) * 16);
    } else if |b| == 2 {
      IndexOfCharOf(b[0] / 4);
      IndexOfCharOf((b[0] % 4) * 16 + b[1] / 16);
      IndexOfCharOf((b[1] % 16) * 4);
    } else if |b| > 2 {
      var q, rest := EncodeTriple(b[0], b[1], b[2]), Encode(b[3..]);
      TripleRoundTrip(b[0], b[1], b[2]);
      EncodeIsBase64(b[3..]);
      var s := q + rest;
      assert s[..4] == q && s[4..] == rest;
    }
  }

  lemma SingleRoundTrip(b0: byte)
    ensures IsPadTwoQuad(EncodeSingle(b0)) && Decode(EncodeSingle(b0)) == [b0]
  {
    IndexOfCharOf(b0 / 4);
    IndexOfCharOf((b0 % 4) * 16);
  }

  lemma PairRoundTrip(b0: byte, b1: byte)
    ensures IsPadOneQuad(EncodePair(b0, b1)) && !IsPadTwoQuad(EncodePair(b0, b1))
    ensures Decode(EncodePair(b0, b1)) == [b0, b1]
  {
    IndexOfCharOf(b0 / 4);
    IndexOfCharOf((b0 % 4) * 16 + b1 / 16);
    IndexOfCharOf((b1 % 16) * 4);
  }

  /** Decoding a full quad followed by canonical text. */
  lemma DecodeCons(q: string, rest: string)
    requires |q| == 4 && IsFullQuad(q) && IsBase64(rest)
    ensures IsBase64(q + rest) && Decode(q + rest) == DecodeQuad(q) + Decode(rest)
  {
    var s := q + rest;
    assert s[..4] == q && s[4..] == rest;
    assert !IsPadOneQuad(q) && !IsPadTwoQuad(q);
  }

  /** `atou8(u8toa(b)) == b` for every byte sequence. */
  lemma {:induction false} DecodeEncode(b: seq<byte>)
    ensures IsBase64(Encode(b)) && Decode(Encode(b)) == b
    decreases |b|
  {
    if |b| == 1 {
      SingleRoundTrip(b[0]);
    } else if |b| == 2 {
      PairRoundTrip(b[0], b[1]);
    } else if |b| > 2 {
      DecodeEncode(b[3..]);
      DecodeEncodeStep(b);
    }
  }

  /** The inductive step of `DecodeEncode`: a leading full quad decodes to the first three octets. */
  lemma DecodeEncodeStep(b: seq<byte>)
    requires |b| > 2 && IsBase64(Encode(b[3..])) && Decode(Encode(b[3..])) == b[3..]
    ensures IsBase64(Encode(b)) && Decode(Encode(b)) == b
  {
    var q, rest := EncodeTriple(b[0], b[1], b[2]), Encode(b[3..]);
    EncodeCons(b);
    TripleRoundTrip(b[0], b[1], b[2]);
    SplitThree(b);
    DecodeAfterQuad(Encode(b), q, rest, [b[0], b[1], b[2]], b[3..]);
  }

  lemma SplitThree(b: seq<byte>)
    requires |b| > 2
    ensures [b[0], b[1], b[2]] + b[3..] == b
  {
  }

  /** One unfolding of `Encode` past its first three octets. */
  lemma EncodeCons(b: seq<byte>)
    requires |b| > 2
    ensures Encode(b) == EncodeTriple(b[0], b[1], b[2]) + Encode(b[3..])
  {
  }

  /** `DecodeCons` with both halves already decoded. */
  lemma DecodeAfterQuad(s: string, q: string, rest: string, head: seq<byte>, tail: seq<byte>)
    requires s == q + rest && |q| == 4 && IsFullQuad(q) && DecodeQuad(q) == head
    requires IsBase64(rest) && Decode(rest) == tail
    ensures IsBase64(s) && Decode(s) == head + tail
  {
    DecodeCons(q, rest);
  }

  lemma QuadRoundTrip(q: string)
    requires |q| == 4 && IsFullQuad(q)
    ensures var d := DecodeQuad(q); EncodeTriple(d[0], d[1], d[2]) == q
  {
    var i0, i1, i2, i3 := IndexOf(q[0]), IndexOf(q[1]), IndexOf(q[2]), IndexOf(q[3]);
    var d := DecodeQuad(q);
    assert d[0] / 4 == i0 && (d[0] % 4) * 16 + d[1] / 16 == i1;
    assert (d[1] % 16) * 4 + d[2] / 64 == i2 && d[2] % 64 == i3;
  }

  lemma DivMod4(hi: int, lo: int)
    requires 0 <= hi && 0 <= lo < 4
    ensures (hi * 4 + lo) / 4 == hi && (hi * 4 + lo) % 4 == lo
  {
  }

  lemma DivMod16(hi: int, lo: int)
    requires 0 <= hi && 0 <= lo < 16
    ensures (hi * 16 + lo) / 16 == hi && (hi * 16 + lo) % 16 == lo
  {
  }

  lemma PadTwoRoundTrip(q: string)
    requires |q| == 4 && IsPadTwoQuad(q)
    ensures IsBase64(q) && Encode(Decode(q)) == q
  {
    var i0, i1 := IndexOf(q[0]), IndexOf(q[1]);
    var b0 := i0 * 4 + i1 / 16;
    assert Decode(q) == [b0];
    DivMod4(i0, i1 / 16);
    assert (b0 % 4) * 16 == i1;
    assert Encode([b0]) == [CharOf(i0), CharOf(i1), Pad, Pad];
  }

  lemma PadOneRoundTrip(q: string)
    requires |q| == 4 && IsPadOneQuad(q)
    ensures IsBase64(q) && Encode(Decode(q)) == q
  {
    var i0, i1, i2 := IndexOf(q[0]), IndexOf(q[1]), IndexOf(q[2]);
    var b0, b1 := i0 * 4 + i1 / 16, (i1 % 16) * 16 + i2 / 4;
    assert !IsPadTwoQuad(q);
    assert Decode(q) == [b0, b1];
    DivMod4(i0, i1 / 16);
    DivMod16(i1 % 16, i2 / 4);
    assert (b0 % 4) * 16 + b1 / 16 == i1;
    assert (b1 % 16) * 4 == i2;
    assert Encode([b0, b1]) == [CharOf(i0), CharOf(i1), CharOf(i2), Pad];
  }

  lemma PaddedQuadRoundTrip(q: string)
    requires |q| == 4 && (IsPadOneQuad(q) || IsPadTwoQuad(q))
    ensures IsBase64(q) && Encode(Decode(q)) == q
  {
    if IsPadTwoQuad(q) {
      PadTwoRoundTrip(q);
    } else {
      PadOneRoundTrip(q);
    }
  }

  /** `u8toa(atou8(s)) == s` for canonical text: decoding loses nothing. */
  lemma {:induction false} EncodeDecode(s: string)
    requires IsBase64(s)
    ensures Encode(Decode(s)) == s
    decreases |s|
  {
    if |s| == 4 && (IsPadTwoQuad(s) || IsPadOneQuad(s)) {
      PaddedQuadRoundTrip(s);
    } else if |s| >= 4 {
      var q, rest := s[..4], s[4..];
      assert s == q + rest;
      DecodeCons(q, rest);
      QuadRoundTrip(q);
      EncodeDecode(rest);
      var d := DecodeQuad(q);
      var b := d + Decode(rest);
      assert b[..3] == d && b[3..] == Decode(rest);
    }
  }

  /**
   * The shape of `u8toa`'s output: `4 * ceil(n / 3)` characters, of which the
   * last `PadCount(n)` (0, 1 or 2) are `=` and all others are alphabet characters.
   */
  lemma {:induction false} EncodeShape(b: seq<byte>)
    ensures var s := Encode(b);
      |s| == 4 * ((|b| + 2) / 3) && PadCount(|b|) <= 2 && PadCount(|b|) <= |s|
      && (forall i :: 0 <= i < |s| - PadCount(|b|) ==> IsAlphabetChar(s[i]))
      && (forall i :: |s| - PadCount(|b|) <= i < |s| ==> s[i] == Pad)
    decreases |b|
  {
    if |b| == 1 {
      IndexOfCharOf(b[0] / 4);
      IndexOfCharOf((b[0] % 4) * 16);
    } else if |b| == 2 {
      IndexOfCharOf(b[0] / 4);
      IndexOfCharOf((b[0] % 4) * 16 + b[1] / 16);
      IndexOfCharOf((b[1] % 16) * 4);
    } else if |b| > 2 {
      EncodeShape(b[3..]);
      EncodeShapeStep(b);
    }
  }

  lemma QuadAlphabet(b0: byte, b1: byte, b2: byte)
    ensures forall i | 0 <= i < 4 :: IsAlphabetChar(EncodeTriple(b0, b1, b2)[i])
  {
    IndexOfCharOf(b0 / 4);
    IndexOfCharOf((b0 % 4) * 16 + b1 / 16);
    IndexOfCharOf((b1 % 16) * 4 + b2 / 64);
    IndexOfCharOf(b2 % 64);
  }

  /** The inductive step of `EncodeShape`: a full quad in front keeps the shape. */
  lemma EncodeShapeStep(b: seq<byte>)
    requires |b| > 2
    requires var rest := Encode(b[3..]);
      PadCount(|b| - 3) <= |rest|
      && (forall i :: 0 <= i < |rest| - PadCount(|b| - 3) ==> IsAlphabetChar(rest[i]))
      && (forall i :: |rest| - PadCount(|b| - 3) <= i < |rest| ==> rest[i] == Pad)
    ensures var s := Encode(b);
      PadCount(|b|) <= |s|
      && (forall i :: 0 <= i < |s| - PadCount(|b|) ==> IsAlphabetChar(s[i]))
      && (forall i :: |s| - PadCount(|b|) <= i < |s| ==> s[i] == Pad)
  {
    var q := EncodeTriple(b[0], b[1], b[2]);
    QuadAlphabet(b[0], b[1], b[2]);
    assert PadCount(|b|) == PadCount(|b| - 3);
    assert Encode(b) == q + Encode(b[3..]);
    QuadThenPadded(q, Encode(b[3..]), PadCount(|b|));
  }

  /** Alphabet characters followed by `k` pads keep that shape behind a quad of alphabet characters. */
  lemma QuadThenPadded(q: string, rest: string, k: nat)
    requires |q| == 4 && forall i | 0 <= i < 4 :: IsAlphabetChar(q[i])
    requires k <= |rest|
    requires forall i :: 0 <= i < |rest| - k ==> IsAlphabetChar(rest[i])
    requires forall i :: |rest| - k <= i < |rest| ==> rest[i] == Pad
    ensures var s := q + rest;
      k <= |s|
      && (forall i :: 0 <= i < |s| - k ==> IsAlphabetChar(s[i]))
      && (forall i :: |s| - k <= i < |s| ==> s[i] == Pad)
  {
    var s := q + rest;
    forall i | 0 <= i < |s| - k ensures IsAlphabetChar(s[i]) {
      if i >= 4 { assert s[i] == rest[i - 4]; } else { assert s[i] == q[i]; }
    }
    forall i | |s| - k <= i < |s| ensures s[i] == Pad {
      assert s[i] == rest[i - 4];
    }
  }

  // ---- the URL-safe alphabet (section 5 of RFC 4648) ----

  /**
   * The URL- and filename-safe alphabet: 62 is `-` and 63 is `_`; otherwise as in
   * section 4. Browsers put the challenge into client data in this form, unpadded.
   */
  function UrlCharOf(v: int): char
    requires 0 <= v < 64
  {
    if v == 62 then '-' else if v == 63 then '_' else CharOf(v)
  }

  /** Unpadded base64url text of a byte sequence. */
  function EncodeUrl(b: seq<byte>): (s: string)
    ensures |s| == 4 * (|b| / 3) + (if |b| % 3 == 0 then 0 else |b| % 3 + 1)
    decreases |b|
  {
    if |b| == 0 then ""
    else if |b| == 1 then [UrlCharOf(b[0] / 4), UrlCharOf((b[0] % 4) * 16)]
    else if |b| == 2 then
      [UrlCharOf(b[0] / 4), UrlCharOf((b[0] % 4) * 16 + b[1] / 16), UrlCharOf((b[1] % 16) * 4)]
    else
      ThirdsStep(|b|);
      [UrlCharOf(b[0] / 4), UrlCharOf((b[0] % 4) * 16 + b[1] / 16),
       UrlCharOf((b[1] % 16) * 4 + b[2] / 64), UrlCharOf(b[2] % 64)]
      + EncodeUrl(b[3..])
  }
}
