/**
 UTF-8 as defined in section 3 of RFC 3629: the encoding the byte-limited
 profiles measure names in, and the decoder that turns the truncated byte
 buffer back into text (strict: overlong forms, surrogates and code points
 above U+10FFFF are rejected).
 */
module Utf8 {
  import opened Unicode
  import opened Outcomes

  newtype byte = b: int | 0 <= b < 0x100

  /** Number of octets RFC 3629 uses for one code point. */
  function Utf8Length(c: int): nat {
    if c < 0x80 then 1
    else if c < 0x800 then 2
    else if c < 0x10000 then 3
    else 4
  }

  /** Octets needed for a whole text: the sum of its code points' lengths. */
  function EncodedLength(s: seq<int>): nat {
    if s == [] then 0 else Utf8Length(s[0]) + EncodedLength(s[1..])
  }

  /** A continuation octet, 10xxxxxx. */
  predicate IsContinuation(b: byte) {
    0x80 <= b < 0xC0
  }

  /** The octet sequence for one scalar value. */
  function EncodeScalar(c: int): (b: seq<byte>)
    requires IsScalar(c)
    ensures |b| == Utf8Length(c)
    ensures forall i :: 1 <= i < |b| ==> IsContinuation(b[i])
  {
    if c < 0x80 then
      [c as byte]
    else if c < 0x800 then
      [(0xC0 + c / 0x40) as byte, (0x80 + c % 0x40) as byte]
    else if c < 0x10000 then
      [(0xE0 + c / 0x40 / 0x40) as byte, (0x80 + c / 0x40 % 0x40) as byte, (0x80 + c % 0x40) as byte]
    else
      [(0xF0 + c / 0x40 / 0x40 / 0x40) as byte, (0x80 + c / 0x40 / 0x40 % 0x40) as byte,
       (0x80 + c / 0x40 % 0x40) as byte, (0x80 + c % 0x40) as byte]
  }

  /** The octet sequence for a text: its scalars' encodings, concatenated. */
  function Encode(s: seq<int>): (b: seq<byte>)
    requires IsText(s)
    ensures |b| == EncodedLength(s)
  {
    if s == [] then [] else EncodeScalar(s[0]) + Encode(s[1..])
  }

  /** Value bits of a continuation octet. */
  function Low6(b: byte): int {
    b as int % 0x40
  }

  /**
   Decodes the first scalar of a non-empty octet sequence, returning the
   scalar and the number of octets it took; None when the sequence does not
   start with a well-formed UTF-8 character.
   */
  function DecodeScalar(b: seq<byte>): (r: Option<(int, nat)>)
    requires |b| > 0
  {
    var b0 := b[0] as int;
    if b0 < 0x80 then
      Some((b0, 1))
    else if 0xC2 <= b0 < 0xE0 then
      if |b| >= 2 && IsContinuation(b[1]) then
        Some(((b0 - 0xC0) * 0x40 + Low6(b[1]), 2))
      else None
    else if 0xE0 <= b0 < 0xF0 then
      if |b| >= 3 && IsContinuation(b[1]) && IsContinuation(b[2]) then
        var c := ((b0 - 0xE0) * 0x40 + Low6(b[1])) * 0x40 + Low6(b[2]);
        if c < 0x800 || 0xD800 <= c <= 0xDFFF then None else Some((c, 3))
      else None
    else if 0xF0 <= b0 < 0xF5 then
      if |b| >= 4 && IsContinuation(b[1]) && IsContinuation(b[2]) && IsContinuation(b[3]) then
        var c := (((b0 - 0xF0) * 0x40 + Low6(b[1])) * 0x40 + Low6(b[2])) * 0x40 + Low6(b[3]);
        if c < 0x10000 || c > 0x10FFFF then None else Some((c, 4))
      else None
    else
      None
  }

  /**
   Strict decoding of a whole octet sequence; None on any malformed input.
   What it accepts is valid text, with no more code points than octets, and
   only the empty sequence decodes to the empty text.
   */
  function Decode(b: seq<byte>): (r: Option<seq<int>>)
    ensures r.Some? ==> IsText(r.value) && |r.value| <= |b|
    ensures r == Some([]) <==> b == []
    decreases |b|
  {
    if b == [] then Some([])
    else match DecodeScalar(b)
      case None => None
      case Some((c, n)) =>
        DecodeScalarSound(b);
        match Decode(b[n..])
        case None => None
        case Some(rest) => Some([c] + rest)
  }

  /** Appending a 6-bit digit and shifting it back out are inverse. */
  lemma Digit(q: int, d: int)
    requires 0 <= d < 0x40
    ensures (q * 0x40 + d) / 0x40 == q && (q * 0x40 + d) % 0x40 == d
  {
  }

  /** A continuation octet carrying a given 6-bit digit. */
  lemma ContinuationDigit(d: int)
    requires 0 <= d < 0x40
    ensures IsContinuation((0x80 + d) as byte) && Low6((0x80 + d) as byte) == d
  {
    Digit(2, d);
  }

  /** The three-octet encoding decodes back. */
  lemma DecodeThreeOfEncoding(c: int, rest: seq<byte>)
    requires IsScalar(c) && 0x800 <= c < 0x10000
    ensures DecodeScalar(EncodeScalar(c) + rest) == Some((c, 3))
  {
    var q := c / 0x40;
    Digit(q / 0x40, q % 0x40);
    ContinuationDigit(q % 0x40);
    ContinuationDigit(c % 0x40);
    assert (q / 0x40 * 0x40 + q % 0x40) * 0x40 + c % 0x40 == c;
  }

  /** The four-octet encoding decodes back. */
  lemma DecodeFourOfEncoding(c: int, rest: seq<byte>)
    requires IsScalar(c) && 0x10000 <= c
    ensures DecodeScalar(EncodeScalar(c) + rest) == Some((c, 4))
  {
    var q := c / 0x40;
    var p := q / 0x40;
    ContinuationDigit(p % 0x40);
    ContinuationDigit(q % 0x40);
    ContinuationDigit(c % 0x40);
    assert ((p / 0x40 * 0x40 + p % 0x40) * 0x40 + q % 0x40) * 0x40 + c % 0x40 == c;
  }

  /** Decoding the encoding of a scalar, followed by anything, yields that scalar. */
  lemma DecodeScalarOfEncoding(c: int, rest: seq<byte>)
    requires IsScalar(c)
    ensures DecodeScalar(EncodeScalar(c) + rest) == Some((c, Utf8Length(c)))
  {
    if c < 0x80 {
    } else if c < 0x800 {
      Digit(c / 0x40, c % 0x40);
      ContinuationDigit(c % 0x40);
    } else if c < 0x10000 {
      DecodeThreeOfEncoding(c, rest);
    } else {
      DecodeFourOfEncoding(c, rest);
    }
  }

  /** Rebuilding a continuation octet from its value bits. */
  lemma ContinuationBits(b: byte)
    requires IsContinuation(b)
    ensures b as int == 0x80 + Low6(b)
  {
  }

  /** Soundness of the two-octet case. */
  lemma DecodeTwoSound(b: seq<byte>)
    requires |b| >= 2 && 0xC2 <= b[0] < 0xE0 && IsContinuation(b[1])
    ensures DecodeScalar(b) == Some(((b[0] as int - 0xC0) * 0x40 + Low6(b[1]), 2))
    ensures EncodeScalar((b[0] as int - 0xC0) * 0x40 + Low6(b[1])) == b[..2]
  {
    Digit(b[0] as int - 0xC0, Low6(b[1]));
    ContinuationBits(b[1]);
  }

  /** Soundness of the three-octet case. */
  lemma DecodeThreeSound(b: seq<byte>, c: int)
    requires |b| >= 3 && 0xE0 <= b[0] < 0xF0 && IsContinuation(b[1]) && IsContinuation(b[2])
    requires c == ((b[0] as int - 0xE0) * 0x40 + Low6(b[1])) * 0x40 + Low6(b[2])
    requires 0x800 <= c && !(0xD800 <= c <= 0xDFFF)
    ensures IsScalar(c) && Utf8Length(c) == 3
    ensures EncodeScalar(c) == b[..3]
  {
    var q := (b[0] as int - 0xE0) * 0x40 + Low6(b[1]);
    Digit(q, Low6(b[2]));
    Digit(b[0] as int - 0xE0, Low6(b[1]));
    ContinuationBits(b[1]);
    ContinuationBits(b[2]);
  }

  /** Soundness of the four-octet case. */
  lemma DecodeFourSound(b: seq<byte>, c: int)
    requires |b| >= 4 && 0xF0 <= b[0] < 0xF5
    requires IsContinuation(b[1]) && IsContinuation(b[2]) && IsContinuation(b[3])
    requires c == (((b[0] as int - 0xF0) * 0x40 + Low6(b[1])) * 0x40 + Low6(b[2])) * 0x40 + Low6(b[3])
    requires 0x10000 <= c <= 0x10FFFF
    ensures IsScalar(c) && Utf8Length(c) == 4
    ensures EncodeScalar(c) == b[..4]
  {
    var p := (b[0] as int - 0xF0) * 0x40 + Low6(b[1]);
    var q := p * 0x40 + Low6(b[2]);
    Digit(q, Low6(b[3]));
    Digit(p, Low6(b[2]));
    Digit(b[0] as int - 0xF0, Low6(b[1]));
    ContinuationBits(b[1]);
    ContinuationBits(b[2]);
    ContinuationBits(b[3]);
  }

  /**
   Decoding is sound: what DecodeScalar accepts is a scalar value, and the
   octets it consumed are exactly that scalar's encoding.
   */
  lemma DecodeScalarSound(b: seq<byte>)
    requires |b| > 0 && DecodeScalar(b).Some?
    ensures IsScalar(DecodeScalar(b).value.0)
    ensures DecodeScalar(b).value.1 == Utf8Length(DecodeScalar(b).value.0) <= |b|
    ensures b[..DecodeScalar(b).value.1] == EncodeScalar(DecodeScalar(b).value.0)
  {
    var b0 := b[0] as int;
    if b0 < 0x80 {
    } else if b0 < 0xE0 {
      DecodeTwoSound(b);
    } else if b0 < 0xF0 {
      DecodeThreeSound(b, DecodeScalar(b).value.0);
    } else {
      DecodeFourSound(b, DecodeScalar(b).value.0);
    }
  }

  /** Encoding distributes over concatenation. */
  lemma {:induction false} EncodeAppend(s: seq<int>, t: seq<int>)
    requires IsText(s) && IsText(t)
    ensures IsText(s + t)
    ensures Encode(s + t) == Encode(s) + Encode(t)
  {
    if s != [] {
      assert (s + t)[0] == s[0] && (s + t)[1..] == s[1..] + t;
      EncodeAppend(s[1..], t);
    } else {
      assert s + t == t;
    }
  }

  /** Round trip: decoding an encoded text gives the text back. */
  lemma {:induction false} DecodeEncode(s: seq<int>)
    requires IsText(s)
    ensures Decode(Encode(s)) == Some(s)
  {
    if s != [] {
      var e := EncodeScalar(s[0]);
      DecodeScalarOfEncoding(s[0], Encode(s[1..]));
      assert (e + Encode(s[1..]))[|e|..] == Encode(s[1..]);
      DecodeEncode(s[1..]);
      assert [s[0]] + s[1..] == s;
    }
  }

  /** One step of decoding: the first scalar, then the decoding of the rest. */
  lemma DecodeStep(b: seq<byte>)
    requires b != [] && Decode(b).Some?
    ensures DecodeScalar(b).Some?
    ensures 1 <= DecodeScalar(b).value.1 <= |b|
    ensures Decode(b[DecodeScalar(b).value.1..]).Some?
    ensures Decode(b).value == [DecodeScalar(b).value.0] + Decode(b[DecodeScalar(b).value.1..]).value
  {
    DecodeScalarSound(b);
  }

  /** Gluing a decoded scalar back onto an already re-encoded rest. */
  lemma EncodeCons(b: seq<byte>, c: int, n: nat, rest: seq<int>)
    requires 1 <= n <= |b| && IsScalar(c) && b[..n] == EncodeScalar(c)
    requires IsText(rest) && Encode(rest) == b[n..]
    ensures IsText([c] + rest)
    ensures Encode([c] + rest) == b
  {
    var s := [c] + rest;
    assert s[0] == c && s[1..] == rest;
    assert b == b[..n] + b[n..];
  }

  /** Round trip the other way: whatever decodes is exactly the encoding of its result. */
  lemma {:induction false} EncodeDecode(b: seq<byte>, s: seq<int>)
    requires Decode(b) == Some(s)
    ensures IsText(s)
    ensures Encode(s) == b
    decreases |b|
  {
    if b != [] {
      DecodeStep(b);
      DecodeScalarSound(b);
      var c, n := DecodeScalar(b).value.0, DecodeScalar(b).value.1;
      EncodeDecode(b[n..], Decode(b[n..]).value);
      EncodeCons(b, c, n, Decode(b[n..]).value);
    }
  }

  /** Encoded length is additive. */
  lemma {:induction false} EncodedLengthAppend(s: seq<int>, t: seq<int>)
    ensures EncodedLength(s + t) == EncodedLength(s) + EncodedLength(t)
  {
    if s != [] {
      assert (s + t)[0] == s[0] && (s + t)[1..] == s[1..] + t;
      EncodedLengthAppend(s[1..], t);
    } else {
      assert s + t == t;
    }
  }
}
