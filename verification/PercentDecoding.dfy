/**
 * Nested decoding of percent-encoded ASCII octets in a request path
 * (ui/web/vite.config.ts, DecodeNestedAsciiPathOctets).
 *
 * The source keeps a stack of code points and rewrites the top three whenever
 * they spell an encoded ASCII octet, including octets spelt by the results of
 * earlier rewrites.  The reference here is the string-rewriting system itself:
 * replace any one encoded octet, anywhere, in any order.
 */
module PercentDecoding {

  /** A path as the source iterates it: a list of Unicode code points. */
  type Text = seq<nat>

  const PERCENT: nat := 0x25

  predicate IsHighDigit(c: nat) { 0x30 <= c <= 0x37 }

  predicate IsHexDigit(c: nat) {
    0x30 <= c <= 0x39 || 0x41 <= c <= 0x46 || 0x61 <= c <= 0x66
  }

  function HexValue(c: nat): nat
    requires IsHexDigit(c)
  {
    if c <= 0x39 then c - 0x30 else if c <= 0x46 then c - 0x41 + 10 else c - 0x61 + 10
  }

  // ---- The rewriting system --------------------------------------------

  /** An encoded ASCII octet, `%[0-7][0-9a-fA-F]`, starts at position i. */
  predicate Redex(s: Text, i: nat) {
    i + 3 <= |s| && s[i] == PERCENT && IsHighDigit(s[i + 1]) && IsHexDigit(s[i + 2])
  }

  /** Replace the encoded octet at position i by the code point it encodes. */
  function Rewrite(s: Text, i: nat): (t: Text)
    requires Redex(s, i)
    ensures |t| == |s| - 2
  {
    s[..i] + [(s[i + 1] - 0x30) * 16 + HexValue(s[i + 2])] + s[i + 3..]
  }

  /** t is reached from s by rewriting encoded octets one at a time, in some order. */
  ghost predicate RewritesTo(s: Text, t: Text)
    decreases |s|
  {
    s == t || exists i: nat :: Redex(s, i) && RewritesTo(Rewrite(s, i), t)
  }

  predicate NormalForm(s: Text) {
    forall i: nat | i < |s| :: !Redex(s, i)
  }

  // ---- The stack machine -----------------------------------------------

  /** Rewrite the top of the stack until its last three elements are no encoded octet. */
  function Settle(stack: Text): Text
    decreases |stack|
  {
    if |stack| >= 3 && Redex(stack, |stack| - 3) then Settle(Rewrite(stack, |stack| - 3)) else stack
  }

  function Run(stack: Text, s: Text): Text
    decreases |s|
  {
    if s == [] then stack else Run(Settle(stack + [s[0]]), s[1..])
  }

  /**
   * The source's nested loops.  Its result is a normal form that the input
   * rewrites to; by UniqueNormalForm there is only one.
   */
  method DecodeNestedAsciiPathOctets(pathname: Text) returns (decoded: Text)
    ensures NormalForm(decoded)
    ensures RewritesTo(pathname, decoded)
  {
    decoded := [];
    for k := 0 to |pathname|
      invariant Run(decoded, pathname[k..]) == Run([], pathname)
    {
      ghost var before := decoded;
      decoded := decoded + [pathname[k]];
      assert pathname[k..][1..] == pathname[k + 1..];
      while |decoded| >= 3
        invariant Settle(decoded) == Settle(before + [pathname[k]])
        decreases |decoded|
      {
        if !Redex(decoded, |decoded| - 3) { break; }
        decoded := Rewrite(decoded, |decoded| - 3);
      }
    }
    assert pathname[|pathname|..] == [];
    RunIsNormal([], pathname);
    RunIsReached([], pathname);
    assert [] + pathname == pathname;
  }

  // ---- The machine reaches a normal form --------------------------------

  /** Every rewrite except possibly one of the last three elements is already done. */
  predicate NormalBelowTop(s: Text) {
    forall i: nat | i < |s| - 3 :: !Redex(s, i)
  }

  lemma {:induction false} SettleIsNormal(s: Text)
    requires NormalBelowTop(s)
    ensures NormalForm(Settle(s))
    decreases |s|
  {
    var n := |s| - 3;
    if n >= 0 && Redex(s, n) {
      var t := Rewrite(s, n);
      forall i: nat | i < |t| - 3 ensures !Redex(t, i) {
        assert !Redex(s, i);
        assert t[i] == s[i] && t[i + 1] == s[i + 1] && t[i + 2] == s[i + 2];
      }
      SettleIsNormal(t);
    }
  }

  lemma {:induction false} RunIsNormal(stack: Text, s: Text)
    requires NormalForm(stack)
    ensures NormalForm(Run(stack, s))
    decreases |s|
  {
    if s != [] {
      var pushed := stack + [s[0]];
      forall i: nat | i < |pushed| - 3 ensures !Redex(pushed, i) {
        assert !Redex(stack, i);
      }
      SettleIsNormal(pushed);
      RunIsNormal(Settle(pushed), s[1..]);
    }
  }

  lemma {:induction false} RewritesToTransitive(s: Text, t: Text, u: Text)
    requires RewritesTo(s, t) && RewritesTo(t, u)
    ensures RewritesTo(s, u)
    decreases |s|
  {
    if s != t {
      var i: nat :| Redex(s, i) && RewritesTo(Rewrite(s, i), t);
      RewritesToTransitive(Rewrite(s, i), t, u);
    }
  }

  lemma {:induction false} SettleIsReached(stack: Text, rest: Text)
    ensures RewritesTo(stack + rest, Settle(stack) + rest)
    decreases |stack|
  {
    var n := |stack| - 3;
    if n >= 0 && Redex(stack, n) {
      SettleIsReached(Rewrite(stack, n), rest);
      assert Redex(stack + rest, n);
      assert Rewrite(stack + rest, n) == Rewrite(stack, n) + rest;
    }
  }

  lemma {:induction false} RunIsReached(stack: Text, s: Text)
    ensures RewritesTo(stack + s, Run(stack, s))
    decreases |s|
  {
    if s == [] {
      assert stack + s == stack;
    } else {
      assert stack + s == stack + [s[0]] + s[1..];
      SettleIsReached(stack + [s[0]], s[1..]);
      RunIsReached(Settle(stack + [s[0]]), s[1..]);
      RewritesToTransitive(stack + s, Settle(stack + [s[0]]) + s[1..], Run(stack, s));
    }
  }

  // ---- No rewrite, at any position, changes the machine's result --------

  lemma {:induction false} RunAppend(stack: Text, a: Text, b: Text)
    ensures Run(stack, a + b) == Run(Run(stack, a), b)
    decreases |a|
  {
    if a == [] {
      assert a + b == b;
    } else {
      assert (a + b)[1..] == a[1..] + b;
      RunAppend(Settle(stack + [a[0]]), a[1..], b);
    }
  }

  /** Feeding an encoded octet to any stack acts as feeding the code point it encodes. */
  lemma OctetActsAsItsValue(stack: Text, octet: Text)
    requires |octet| == 3 && Redex(octet, 0)
    ensures Run(stack, octet) == Run(stack, Rewrite(octet, 0))
  {
    var s1 := stack + [octet[0]];
    var s2 := s1 + [octet[1]];
    var s3 := s2 + [octet[2]];
    var value := Rewrite(octet, 0);
    assert Settle(s1) == s1;
    assert Settle(s2) == s2;
    assert Redex(s3, |s3| - 3);
    assert Rewrite(s3, |s3| - 3) == stack + [value[0]];
    assert Run(s2, octet[1..][1..]) == Run(Settle(s3), octet[1..][1..][1..]);
    assert Run(s1, octet[1..]) == Run(s2, octet[1..][1..]);
    assert Run(stack, octet) == Settle(s3);
    assert value[1..] == [];
  }

  lemma RewritingKeepsResult(s: Text, i: nat)
    requires Redex(s, i)
    ensures Run([], Rewrite(s, i)) == Run([], s)
  {
    var octet := s[i..i + 3];
    assert s == s[..i] + octet + s[i + 3..];
    assert Rewrite(s, i) == s[..i] + Rewrite(octet, 0) + s[i + 3..];
    RunAppend([], s[..i] + octet, s[i + 3..]);
    RunAppend([], s[..i], octet);
    RunAppend([], s[..i] + Rewrite(octet, 0), s[i + 3..]);
    RunAppend([], s[..i], Rewrite(octet, 0));
    OctetActsAsItsValue(Run([], s[..i]), octet);
  }

  lemma {:induction false} RewritesToKeepsResult(s: Text, t: Text)
    requires RewritesTo(s, t)
    ensures Run([], s) == Run([], t)
    decreases |s|
  {
    if s != t {
      var i: nat :| Redex(s, i) && RewritesTo(Rewrite(s, i), t);
      RewritingKeepsResult(s, i);
      RewritesToKeepsResult(Rewrite(s, i), t);
    }
  }

  lemma {:induction false} NormalFormIsFixed(stack: Text, s: Text)
    requires NormalForm(stack + s)
    ensures Run(stack, s) == stack + s
    decreases |s|
  {
    if s != [] {
      var pushed := stack + [s[0]];
      assert pushed + s[1..] == stack + s;
      assert |pushed| >= 3 && Redex(pushed, |pushed| - 3) ==> Redex(stack + s, |pushed| - 3);
      NormalFormIsFixed(pushed, s[1..]);
    }
  }

  // ---- Main results ------------------------------------------------------

  /**
   * However the encoded octets of s are rewritten, once none is left the
   * result is always the same text.
   */
  lemma UniqueNormalForm(s: Text, t: Text, u: Text)
    requires RewritesTo(s, t) && NormalForm(t)
    requires RewritesTo(s, u) && NormalForm(u)
    ensures t == u
  {
    RewritesToKeepsResult(s, t);
    RewritesToKeepsResult(s, u);
    assert [] + t == t && [] + u == u;
    NormalFormIsFixed([], t);
    NormalFormIsFixed([], u);
  }

  /** Confluence: texts reached from one text in two ways can be rewritten to a common one. */
  lemma Confluent(s: Text, t: Text, u: Text) returns (v: Text)
    requires RewritesTo(s, t) && RewritesTo(s, u)
    ensures RewritesTo(t, v) && RewritesTo(u, v) && NormalForm(v)
  {
    v := Run([], s);
    RewritesToKeepsResult(s, t);
    RewritesToKeepsResult(s, u);
    RunIsReached([], t);
    RunIsReached([], u);
    RunIsNormal([], s);
    assert [] + t == t && [] + u == u;
  }

  /** Decoding a text that was rewritten part of the way gives the decoding of the whole. */
  lemma PartialDecodingIsAbsorbed(s: Text, t: Text, decodedS: Text, decodedT: Text)
    requires RewritesTo(s, t)
    requires RewritesTo(s, decodedS) && NormalForm(decodedS)
    requires RewritesTo(t, decodedT) && NormalForm(decodedT)
    ensures decodedS == decodedT
  {
    RewritesToTransitive(s, t, decodedT);
    UniqueNormalForm(s, decodedS, decodedT);
  }

  // ---- Which octets there are, and what they encode ---------------------------

  const UPPER := "0123456789ABCDEF"
  const LOWER := "0123456789abcdef"

  /** The encoding of an ASCII code point, with upper- or lower-case digits. */
  function Spelt(b: nat, upper: bool): Text
    requires b < 128
  {
    var digits := if upper then UPPER else LOWER;
    ['%' as int, digits[b / 16] as int, digits[b % 16] as int]
  }

  /**
   * Three code points are an encoded octet iff they are one of the two spellings of an
   * ASCII code point, and that is what they stand for.
   */
  lemma OctetIff(s: Text, b: nat)
    requires |s| == 3
    ensures Redex(s, 0) && Rewrite(s, 0) == [b] <==> b < 128 && (s == Spelt(b, true) || s == Spelt(b, false))
  {
    if Redex(s, 0) {
      var high, low := s[1] - 0x30, HexValue(s[2]);
      assert Rewrite(s, 0) == [high * 16 + low];
      DigitOf(s[1]);
      DigitOf(s[2]);
      if b == high * 16 + low {
        assert b / 16 == high && b % 16 == low;
        assert Spelt(b, true)[1] == s[1] && Spelt(b, false)[1] == s[1];
      }
    }
    if b < 128 && (s == Spelt(b, true) || s == Spelt(b, false)) { SpeltIsRedex(b, s == Spelt(b, true)); }
  }

  lemma DigitOf(c: nat)
    requires IsHexDigit(c)
    ensures HexValue(c) < 16 && (UPPER[HexValue(c)] as int == c || LOWER[HexValue(c)] as int == c)
    ensures c < 0x40 ==> UPPER[HexValue(c)] as int == LOWER[HexValue(c)] as int == c
  {
  }

  lemma SpeltIsRedex(b: nat, upper: bool)
    requires b < 128
    ensures Redex(Spelt(b, upper), 0) && Rewrite(Spelt(b, upper), 0) == [b]
  {
    var s := Spelt(b, upper);
    var high, low := b / 16, b % 16;
    assert high < 8 && UPPER[high] as int == LOWER[high] as int == 0x30 + high;
    DigitIs(low, upper);
    assert Rewrite(s, 0) == [high * 16 + low];
  }

  lemma DigitIs(d: nat, upper: bool)
    requires d < 16
    ensures var c := (if upper then UPPER else LOWER)[d] as int; IsHexDigit(c) && HexValue(c) == d
  {
  }

  /** Inside a longer text nothing else is looked at or changed. */
  lemma OctetIsLocal(p: Text, s: Text, q: Text)
    requires |s| == 3
    ensures Redex(p + s + q, |p|) <==> Redex(s, 0)
    ensures Redex(s, 0) ==> Rewrite(p + s + q, |p|) == p + Rewrite(s, 0) + q
  {
    var t := p + s + q;
    assert t[|p|] == s[0] && t[|p| + 1] == s[1] && t[|p| + 2] == s[2];
    assert t[..|p|] == p && t[|p| + 3..] == q && s[..0] == [] && s[3..] == [];
  }

  /** A text with every code point encoded. */
  function EncodeAll(text: Text, upper: seq<bool>): Text
    requires |upper| == |text| && forall i | 0 <= i < |text| :: text[i] < 128
  {
    if text == [] then [] else Spelt(text[0], upper[0]) + EncodeAll(text[1..], upper[1..])
  }

  lemma {:induction false} EncodedRewritesBack(done: Text, text: Text, upper: seq<bool>)
    requires |upper| == |text| && forall i | 0 <= i < |text| :: text[i] < 128
    ensures RewritesTo(done + EncodeAll(text, upper), done + text)
    decreases |text|
  {
    if text != [] {
      var first, rest := Spelt(text[0], upper[0]), EncodeAll(text[1..], upper[1..]);
      assert done + EncodeAll(text, upper) == done + first + rest;
      assert done + [text[0]] + text[1..] == done + text;
      EncodedRewritesBack(done + [text[0]], text[1..], upper[1..]);
      FirstStep(done, text[0], upper[0], rest, done + text);
    }
  }

  lemma FirstStep(done: Text, b: nat, upper: bool, rest: Text, t: Text)
    requires b < 128 && RewritesTo(done + [b] + rest, t)
    ensures RewritesTo(done + Spelt(b, upper) + rest, t)
  {
    SpeltIsRedex(b, upper);
    OctetIsLocal(done, Spelt(b, upper), rest);
  }

  lemma EncodedRewritesToText(text: Text, upper: seq<bool>)
    requires |upper| == |text| && forall i | 0 <= i < |text| :: text[i] < 128
    ensures RewritesTo(EncodeAll(text, upper), text)
  {
    EncodedRewritesBack([], text, upper);
    Unprefixed(EncodeAll(text, upper));
    Unprefixed(text);
  }

  lemma Unprefixed(s: Text)
    ensures [] + s == s
  {
  }

  /** Encoding every code point of an ASCII text that holds no encoded octet, in either case of digits, is undone. */
  lemma EncodedTextDecodes(text: Text, upper: seq<bool>, decoded: Text)
    requires |upper| == |text| && forall i | 0 <= i < |text| :: text[i] < 128
    requires NormalForm(text)
    requires NormalForm(decoded) && RewritesTo(EncodeAll(text, upper), decoded)
    ensures decoded == text
  {
    EncodedRewritesToText(text, upper);
    UniqueNormalForm(EncodeAll(text, upper), text, decoded);
  }
}
