/**
 * UTF-8 as the markdown package relies on it: TextEncoder, which replaces a lone
 * surrogate, and a TextDecoder that refuses ill-formed input and keeps a byte
 * order mark (table 3-7 of the Unicode Standard).
 */
module Utf8 {
  import opened Prelude

  /** A string as its code points; a lone surrogate stands for itself. */
  type Text = seq<nat>

  const REPLACEMENT: nat := 0xFFFD
  const BYTE_ORDER_MARK: nat := 0xFEFF

  predicate IsScalar(c: nat) { c < 0xD800 || 0xE000 <= c < 0x11_0000 }

  predicate AllScalars(t: Text) { forall i | 0 <= i < |t| :: IsScalar(t[i]) }

  function EncodeScalar(c: nat): (s: seq<Byte>)
    requires IsScalar(c)
    ensures 1 <= |s| <= 4
  {
    if c < 0x80 then [c]
    else if c < 0x800 then [0xC0 + c / 64, 0x80 + c % 64]
    else if c < 0x1_0000 then [0xE0 + c / 64 / 64, 0x80 + c / 64 % 64, 0x80 + c % 64]
    else [0xF0 + c / 64 / 64 / 64, 0x80 + c / 64 / 64 % 64, 0x80 + c / 64 % 64, 0x80 + c % 64]
  }

  function EncodePoint(c: nat): seq<Byte> { EncodeScalar(if IsScalar(c) then c else REPLACEMENT) }

  function Encode(t: Text): seq<Byte> {
    if t == [] then [] else EncodePoint(t[0]) + Encode(t[1..])
  }

  /** One code point of each length, the last of each length, and a lone surrogate. */
  lemma EncodeExamples()
    ensures EncodePoint(0x24) == [0x24] && EncodePoint(0x7F) == [0x7F]
    ensures EncodePoint(0xE9) == [0xC3, 0xA9] && EncodePoint(0x7FF) == [0xDF, 0xBF]
    ensures EncodePoint(0x20AC) == [0xE2, 0x82, 0xAC] && EncodePoint(0xFFFF) == [0xEF, 0xBF, 0xBF]
    ensures EncodePoint(0x1F600) == [0xF0, 0x9F, 0x98, 0x80] && EncodePoint(0x10FFFF) == [0xF4, 0x8F, 0xBF, 0xBF]
    ensures EncodePoint(0xD800) == EncodePoint(0xDFFF) == [0xEF, 0xBF, 0xBD]
  {
  }

  predicate Tail(b: Byte) { 0x80 <= b < 0xC0 }

  /** The first code point of a byte string and the number of bytes it takes, unless ill-formed. */
  function DecodeFirst(s: seq<Byte>): (r: Option<(nat, nat)>)
    requires s != []
    ensures r.Some? ==> 1 <= r.value.1 <= |s|
  {
    var a: nat := s[0];
    if a < 0x80 then Some((a, 1))
    else if 0xC2 <= a <= 0xDF && |s| >= 2 && Tail(s[1]) then
      var b: nat := s[1];
      Some(((a - 0xC0) * 64 + (b - 0x80), 2))
    else if 0xE0 <= a <= 0xEF && |s| >= 3 && Tail(s[1]) && Tail(s[2])
            && (a == 0xE0 ==> s[1] >= 0xA0) && (a == 0xED ==> s[1] < 0xA0) then
      var b: nat, c: nat := s[1], s[2];
      Some((((a - 0xE0) * 64 + (b - 0x80)) * 64 + (c - 0x80), 3))
    else if 0xF0 <= a <= 0xF4 && |s| >= 4 && Tail(s[1]) && Tail(s[2]) && Tail(s[3])
            && (a == 0xF0 ==> s[1] >= 0x90) && (a == 0xF4 ==> s[1] < 0x90) then
      var b: nat, c: nat, d: nat := s[1], s[2], s[3];
      Some(((((a - 0xF0) * 64 + (b - 0x80)) * 64 + (c - 0x80)) * 64 + (d - 0x80), 4))
    else None
  }

  function Decode(s: seq<Byte>): Option<Text>
    decreases |s|
  {
    if s == [] then Some([]) else
      match DecodeFirst(s)
      case None => None
      case Some((c, n)) =>
        match Decode(s[n..])
        case None => None
        case Some(rest) => Some([c] + rest)
  }

  lemma Base64Digits(high: nat, low: nat)
    requires low < 64
    ensures (high * 64 + low) / 64 == high && (high * 64 + low) % 64 == low
  {
  }

  lemma DecodeFirstSound(s: seq<Byte>)
    requires s != [] && DecodeFirst(s).Some?
    ensures var (c, n) := DecodeFirst(s).value; IsScalar(c) && s[..n] == EncodeScalar(c)
  {
    var n := DecodeFirst(s).value.1;
    if n == 2 {
      SoundTwo(s[0] - 0xC0, s[1] - 0x80);
      assert s[..2] == [s[0], s[1]];
    } else if n == 3 {
      SoundThree(s[0] - 0xE0, s[1] - 0x80, s[2] - 0x80);
      assert s[..3] == [s[0], s[1], s[2]];
    } else if n == 4 {
      SoundFour(s[0] - 0xF0, s[1] - 0x80, s[2] - 0x80, s[3] - 0x80);
      assert s[..4] == [s[0], s[1], s[2], s[3]];
    }
  }

  lemma SoundTwo(a: nat, b: nat)
    requires 2 <= a < 32 && b < 64
    ensures IsScalar(a * 64 + b) && EncodeScalar(a * 64 + b) == [0xC0 + a, 0x80 + b]
  {
    Base64Digits(a, b);
  }

  lemma SoundThree(a: nat, b: nat, c: nat)
    requires a < 16 && b < 64 && c < 64 && (a == 0 ==> b >= 32) && (a == 13 ==> b < 32)
    ensures var v := (a * 64 + b) * 64 + c; IsScalar(v) && EncodeScalar(v) == [0xE0 + a, 0x80 + b, 0x80 + c]
  {
    Base64Digits(a, b);
    Base64Digits(a * 64 + b, c);
  }

  lemma SoundFour(a: nat, b: nat, c: nat, d: nat)
    requires a <= 4 && b < 64 && c < 64 && d < 64 && (a == 0 ==> b >= 16) && (a == 4 ==> b < 16)
    ensures var v := ((a * 64 + b) * 64 + c) * 64 + d;
      IsScalar(v) && EncodeScalar(v) == [0xF0 + a, 0x80 + b, 0x80 + c, 0x80 + d]
  {
    Base64Digits(a, b);
    Base64Digits(a * 64 + b, c);
    Base64Digits((a * 64 + b) * 64 + c, d);
  }

  lemma DecodeFirstComplete(c: nat, rest: seq<Byte>)
    requires IsScalar(c)
    ensures DecodeFirst(EncodeScalar(c) + rest) == Some((c, |EncodeScalar(c)|))
  {
    if c >= 0x1_0000 {
      CompleteFour(c, rest);
    } else if c >= 0x800 {
      CompleteThree(c, rest);
    }
  }

  lemma CompleteThree(c: nat, rest: seq<Byte>)
    requires IsScalar(c) && 0x800 <= c < 0x1_0000
    ensures DecodeFirst(EncodeScalar(c) + rest) == Some((c, 3))
  {
    var p := c / 64;
    var q := p / 64;
    assert c == p * 64 + c % 64 && p == q * 64 + p % 64;
    assert q == 0 ==> p % 64 >= 32;
    assert q == 13 ==> p % 64 < 32;
  }

  lemma CompleteFour(c: nat, rest: seq<Byte>)
    requires 0x1_0000 <= c < 0x11_0000
    ensures DecodeFirst(EncodeScalar(c) + rest) == Some((c, 4))
  {
    var p := c / 64;
    var q := p / 64;
    var r := q / 64;
    assert c == p * 64 + c % 64 && p == q * 64 + p % 64 && q == r * 64 + q % 64;
    assert r == 0 ==> q % 64 >= 16;
    assert r == 4 ==> q % 64 < 16;
  }

  /** A byte string decodes to a text iff the text is well formed and the bytes are its encoding. */
  lemma {:induction false} DecodeIff(s: seq<Byte>, t: Text)
    ensures Decode(s) == Some(t) <==> AllScalars(t) && s == Encode(t)
    decreases |s| + |t|
  {
    if s != [] && DecodeFirst(s).Some? {
      var (c, n) := DecodeFirst(s).value;
      DecodeFirstSound(s);
      assert s == EncodeScalar(c) + s[n..];
      if t != [] && t[0] == c {
        DecodeIff(s[n..], t[1..]);
        assert t == [c] + t[1..];
        assert AllScalars(t) <==> AllScalars(t[1..]) by {
          assert forall i | 1 <= i < |t| :: t[i] == t[1..][i - 1];
        }
        assert s == Encode(t) <==> s[n..] == Encode(t[1..]) by {
          assert (EncodeScalar(c) + s[n..])[n..] == s[n..];
          assert (EncodeScalar(c) + Encode(t[1..]))[n..] == Encode(t[1..]);
        }
      }
    }
    if t != [] && AllScalars(t) && s == Encode(t) {
      DecodeFirstComplete(t[0], Encode(t[1..]));
    }
  }
}
