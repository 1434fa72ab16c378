/**
 * The byte format of a markdown source: byte order mark, line endings and UTF-8
 * (ui/markdown/source/bytes.ts, DecodeMarkdown, EncodeMarkdown and
 * DetectLineEnding).
 */
module MarkdownBytes {
  import opened Prelude
  import opened Utf8

  const CR: nat := 13
  const LF: nat := 10

  datatype LineEnding = Crlf | OnlyLf | NoEnding

  datatype Source = Source(hasByteOrderMark: bool, lineEnding: LineEnding, text: Text)

  datatype InputError = LineEndingError | NulError | SizeError | Utf8Error

  // ---- Line endings -----------------------------------------------------------------

  predicate StartsCrlf(t: Text) { |t| >= 2 && t[0] == CR && t[1] == LF }

  /** Every CR LF, left to right, replaced by `with`. */
  function ReplaceCrlf(t: Text, with: Text): Text
    decreases |t|
  {
    if t == [] then []
    else if StartsCrlf(t) then with + ReplaceCrlf(t[2..], with)
    else [t[0]] + ReplaceCrlf(t[1..], with)
  }

  /** Every LF replaced by CR LF. */
  function ExpandLf(t: Text): Text {
    if t == [] then [] else (if t[0] == LF then [CR, LF] else [t[0]]) + ExpandLf(t[1..])
  }

  predicate HasCrlf(t: Text) { exists i | 0 <= i < |t| - 1 :: CrlfAt(t, i) }

  predicate CrlfAt(t: Text, i: nat) { i + 1 < |t| && t[i] == CR && t[i + 1] == LF }

  function DetectLineEnding(t: Text): Result<LineEnding, InputError> {
    var without := ReplaceCrlf(t, []);
    if CR in without then Err(LineEndingError)
    else if HasCrlf(t) && LF in without then Err(LineEndingError)
    else if HasCrlf(t) then Ok(Crlf)
    else if LF in t then Ok(OnlyLf)
    else Ok(NoEnding)
  }

  /** A CR that no LF follows. */
  predicate LoneCrAt(t: Text, i: nat) { i < |t| && t[i] == CR && !CrlfAt(t, i) }

  /** A LF that no CR precedes. */
  predicate LoneLfAt(t: Text, i: nat) { i < |t| && t[i] == LF && !(i > 0 && t[i - 1] == CR) }

  predicate HasLoneCr(t: Text) { exists i | 0 <= i < |t| :: LoneCrAt(t, i) }

  predicate HasLoneLf(t: Text) { exists i | 0 <= i < |t| :: LoneLfAt(t, i) }

  /** What removing every CR LF leaves: the lone characters, however they are arranged. */
  lemma {:induction false} WithoutCrlf(t: Text)
    ensures CR in ReplaceCrlf(t, []) <==> HasLoneCr(t)
    ensures LF in ReplaceCrlf(t, []) <==> HasLoneLf(t)
    decreases |t|
  {
    if t != [] {
      var n := if StartsCrlf(t) then 2 else 1;
      var rest := t[n..];
      WithoutCrlf(rest);
      forall i | 0 <= i < |rest| ensures LoneCrAt(rest, i) == LoneCrAt(t, i + n) {
        assert rest[i] == t[i + n] && (i + 1 < |rest| ==> rest[i + 1] == t[i + n + 1]);
      }
      forall i | 0 <= i < |rest| ensures LoneLfAt(rest, i) == LoneLfAt(t, i + n) {
        assert rest[i] == t[i + n] && (i > 0 ==> rest[i - 1] == t[i + n - 1]);
      }
      assert forall i | n <= i < |t| :: LoneCrAt(t, i) == LoneCrAt(rest, i - n);
      assert forall i | n <= i < |t| :: LoneLfAt(t, i) == LoneLfAt(rest, i - n);
      assert n == 2 ==> !LoneCrAt(t, 0) && !LoneCrAt(t, 1) && !LoneLfAt(t, 0) && !LoneLfAt(t, 1);
      assert n == 1 ==> (LoneCrAt(t, 0) <==> t[0] == CR) && (LoneLfAt(t, 0) <==> t[0] == LF);
    }
  }

  /** The detector's answer, said of the text alone. */
  lemma DetectIff(t: Text)
    ensures DetectLineEnding(t) == Ok(Crlf) <==> HasCrlf(t) && !HasLoneCr(t) && !HasLoneLf(t)
    ensures DetectLineEnding(t) == Ok(OnlyLf) <==> CR !in t && LF in t
    ensures DetectLineEnding(t) == Ok(NoEnding) <==> CR !in t && LF !in t
  {
    WithoutCrlf(t);
    if HasCrlf(t) {
      var i :| 0 <= i < |t| - 1 && CrlfAt(t, i);
      assert t[i] == CR && t[i + 1] == LF;
    } else {
      forall i | 0 <= i < |t| && t[i] == CR ensures LoneCrAt(t, i) {
        assert i < |t| - 1 ==> !CrlfAt(t, i);
      }
      assert CR in t <==> HasLoneCr(t);
    }
  }

  lemma {:induction false} CollapseExpands(t: Text)
    requires !HasLoneCr(t) && !HasLoneLf(t)
    ensures CR !in ReplaceCrlf(t, [LF])
    ensures ExpandLf(ReplaceCrlf(t, [LF])) == t
    decreases |t|
  {
    if t != [] {
      assert !LoneCrAt(t, 0) && !LoneLfAt(t, 0);
      var n := if StartsCrlf(t) then 2 else 1;
      LoneInTail(t, n);
      CollapseExpands(t[n..]);
      var rest := ReplaceCrlf(t[n..], [LF]);
      assert ([LF] + rest)[1..] == rest && ([t[0]] + rest)[1..] == rest;
      assert t == t[..n] + t[n..];
    }
  }

  /** Dropping whole characters, or a whole CR LF, makes no character lone. */
  lemma LoneInTail(t: Text, n: nat)
    requires n == (if StartsCrlf(t) then 2 else 1) && n <= |t|
    requires !HasLoneCr(t) && !HasLoneLf(t)
    ensures !HasLoneCr(t[n..]) && !HasLoneLf(t[n..])
  {
    var rest := t[n..];
    assert n == 1 ==> !LoneCrAt(t, 0);
    forall i | 0 <= i < |rest| ensures !LoneCrAt(rest, i) && !LoneLfAt(rest, i) {
      assert !LoneCrAt(t, i + n) && !LoneLfAt(t, i + n);
      assert rest[i] == t[i + n] && (i + 1 < |rest| ==> rest[i + 1] == t[i + n + 1]);
      assert i > 0 ==> rest[i - 1] == t[i + n - 1];
    }
  }

  lemma {:induction false} ExpandCollapses(t: Text)
    requires CR !in t
    ensures ReplaceCrlf(ExpandLf(t), [LF]) == t
    ensures !HasLoneCr(ExpandLf(t)) && !HasLoneLf(ExpandLf(t))
    ensures HasCrlf(ExpandLf(t)) <==> LF in t
    ensures ExpandLf(t) != [] ==> ExpandLf(t)[0] != LF
    decreases |t|
  {
    if t != [] {
      ExpandCollapses(t[1..]);
      var rest := ExpandLf(t[1..]);
      var first := if t[0] == LF then [CR, LF] else [t[0]];
      var all := first + rest;
      var n := |first|;
      assert t[0] != CR by { assert t[0] in t; }
      assert all[n..] == rest;
      JoinedIsRegular(first, rest);
      assert all[1..] == if n == 1 then rest else [LF] + rest;
    }
  }

  /** A character other than CR and LF, or a CR LF, in front of a text with no lone character. */
  lemma JoinedIsRegular(first: Text, rest: Text)
    requires first == [CR, LF] || (|first| == 1 && first[0] != CR && first[0] != LF)
    requires !HasLoneCr(rest) && !HasLoneLf(rest)
    ensures !HasLoneCr(first + rest) && !HasLoneLf(first + rest)
    ensures HasCrlf(first + rest) <==> first == [CR, LF] || HasCrlf(rest)
  {
    var all, n := first + rest, |first|;
    forall i | 0 <= i < |all| ensures !LoneCrAt(all, i) && !LoneLfAt(all, i) {
      if i >= n {
        assert !LoneCrAt(rest, i - n) && !LoneLfAt(rest, i - n);
        assert CrlfAt(rest, i - n) ==> CrlfAt(all, i);
      }
    }
    assert n == 2 ==> CrlfAt(all, 0);
    if n == 1 {
      assert forall i | 0 <= i < |rest| - 1 :: CrlfAt(rest, i) ==> CrlfAt(all, i + 1);
      assert forall i | 0 <= i < |all| - 1 && CrlfAt(all, i) :: i > 0 && CrlfAt(rest, i - 1);
    }
  }

  // ---- Decoding and encoding --------------------------------------------------------------

  predicate StartsWithBomBytes(b: seq<Byte>) { |b| >= 3 && b[0] == 0xEF && b[1] == 0xBB && b[2] == 0xBF }

  function DecodeMarkdown(bytes: seq<Byte>, maximum: nat): Result<Source, InputError> {
    if |bytes| > maximum then Err(SizeError)
    else
      match Decode(bytes)
      case None => Err(Utf8Error)
      case Some(text) =>
        if 0 in text then Err(NulError)
        else
          var marked := StartsWithBomBytes(bytes);
          var content := if marked && text != [] && text[0] == BYTE_ORDER_MARK then text[1..] else text;
          match DetectLineEnding(content)
          case Err(error) => Err(error)
          case Ok(ending) =>
            Ok(Source(marked, ending, if ending.Crlf? then ReplaceCrlf(content, [LF]) else content))
  }

  /** A text after its byte order mark, if it starts with one. */
  function Unmarked(text: Text): Text { if text != [] && text[0] == 0xFEFF then text[1..] else text }

  /** The line endings are not mixed and no CR stands alone. */
  predicate Regular(t: Text) { !HasLoneCr(t) && (HasCrlf(t) ==> !HasLoneLf(t)) }

  /** What becomes of the encoding of a text: refused for its size, a zero or its line endings, else decoded. */
  lemma DecodeOfText(text: Text, maximum: nat)
    requires AllScalars(text)
    ensures DecodeMarkdown(Encode(text), maximum) ==
      if |Encode(text)| > maximum then Err(SizeError)
      else if 0 in text then Err(NulError)
      else if !Regular(Unmarked(text)) then Err(LineEndingError)
      else Ok(Source(text != [] && text[0] == 0xFEFF,
                     if HasCrlf(text) then Crlf else if 10 in text then OnlyLf else NoEnding,
                     ReplaceCrlf(Unmarked(text), [10])))
  {
    DecodeIff(Encode(text), text);
    BomIsItsBytes(text);
    UnmarkedEndings(text);
    var content := Unmarked(text);
    DetectIs(content);
    if !HasCrlf(content) { NothingToReplace(content); }
  }

  lemma DetectIs(t: Text)
    ensures DetectLineEnding(t) ==
      if !Regular(t) then Err(LineEndingError)
      else Ok(if HasCrlf(t) then Crlf else if LF in t then OnlyLf else NoEnding)
  {
    WithoutCrlf(t);
  }

  lemma UnmarkedEndings(text: Text)
    ensures HasCrlf(text) <==> HasCrlf(Unmarked(text))
    ensures 10 in text <==> 10 in Unmarked(text)
  {
    var rest := Unmarked(text);
    if |rest| < |text| {
      assert forall i | 0 <= i < |rest| - 1 :: CrlfAt(rest, i) == CrlfAt(text, i + 1);
      assert forall i | 0 <= i < |text| - 1 && CrlfAt(text, i) :: i > 0 && CrlfAt(rest, i - 1);
      assert text == [0xFEFF] + rest;
    }
  }

  lemma {:induction false} NothingToReplace(t: Text)
    requires !HasCrlf(t)
    ensures ReplaceCrlf(t, [LF]) == t
    decreases |t|
  {
    if t != [] {
      assert |t| >= 2 ==> !CrlfAt(t, 0);
      assert forall i | 0 <= i < |t[1..]| - 1 :: CrlfAt(t[1..], i) == CrlfAt(t, i + 1);
      NothingToReplace(t[1..]);
    }
  }

  /** Bytes within the limit that are no text's encoding, and only those, are refused as UTF-8. */
  lemma Utf8ErrorIff(bytes: seq<Byte>, maximum: nat)
    ensures DecodeMarkdown(bytes, maximum) == Err(Utf8Error) <==>
      |bytes| <= maximum && forall text | AllScalars(text) :: Encode(text) != bytes
  {
    forall text ensures Decode(bytes) == Some(text) <==> AllScalars(text) && Encode(text) == bytes {
      DecodeIff(bytes, text);
    }
  }

  function Content(source: Source): Text {
    if source.lineEnding.Crlf? then ExpandLf(source.text) else source.text
  }

  function EncodeMarkdown(source: Source, maximum: nat): Result<seq<Byte>, InputError> {
    if 0 in source.text then Err(NulError)
    else if CR in source.text then Err(LineEndingError)
    else
      var bytes := Encode((if source.hasByteOrderMark then [BYTE_ORDER_MARK] else []) + Content(source));
      if |bytes| > maximum then Err(SizeError) else Ok(bytes)
  }

  lemma BomIsItsBytes(t: Text)
    requires AllScalars(t)
    ensures StartsWithBomBytes(Encode(t)) <==> t != [] && t[0] == BYTE_ORDER_MARK
  {
    if t != [] {
      assert IsScalar(t[0]);
      DecodeFirstComplete(t[0], Encode(t[1..]));
      assert EncodeScalar(BYTE_ORDER_MARK) == [0xEF, 0xBB, 0xBF];
      if StartsWithBomBytes(Encode(t)) {
        DecodeFirstComplete(BYTE_ORDER_MARK, Encode(t)[3..]);
        assert Encode(t) == EncodeScalar(BYTE_ORDER_MARK) + Encode(t)[3..];
      }
    }
  }

  lemma {:induction false} ReplaceKeeps(t: Text, c: nat)
    requires c in ReplaceCrlf(t, [LF])
    ensures c in t
    decreases |t|
  {
    var n := if StartsCrlf(t) then 2 else 1;
    if c in ReplaceCrlf(t[n..], [LF]) {
      ReplaceKeeps(t[n..], c);
    }
  }

  /** Every byte string that decodes is reproduced exactly, under the same limit. */
  lemma DecodedIsReproduced(bytes: seq<Byte>, maximum: nat)
    ensures var decoded := DecodeMarkdown(bytes, maximum);
      decoded.Ok? ==> EncodeMarkdown(decoded.value, maximum) == Ok(bytes)
  {
    var decoded := DecodeMarkdown(bytes, maximum);
    if decoded.Ok? {
      var source := decoded.value;
      var text := Decode(bytes).value;
      DecodeIff(bytes, text);
      BomIsItsBytes(text);
      var content := if source.hasByteOrderMark then text[1..] else text;
      DetectIff(content);
      assert text == (if source.hasByteOrderMark then [BYTE_ORDER_MARK] else []) + content;
      assert forall c | c in content :: c in text;
      if source.lineEnding.Crlf? {
        CollapseExpands(content);
        if 0 in source.text { ReplaceKeeps(content, 0); }
      }
      assert Content(source) == content;
    }
  }

  // ---- Encoding, then decoding -----------------------------------------------------------------

  /** The sources that DecodeMarkdown can return. */
  predicate Canonical(source: Source) {
    && AllScalars(source.text)
    && (source.lineEnding.NoEnding? <==> LF !in source.text)
    && (!source.hasByteOrderMark ==> source.text == [] || source.text[0] != BYTE_ORDER_MARK)
  }

  lemma {:induction false} ExpandFirst(t: Text)
    ensures ExpandLf(t) == [] <==> t == []
    ensures t != [] && t[0] != LF ==> ExpandLf(t)[0] == t[0]
    ensures t != [] && t[0] == LF ==> ExpandLf(t)[0] == CR
    ensures 0 in ExpandLf(t) ==> 0 in t
    ensures AllScalars(t) ==> AllScalars(ExpandLf(t))
    decreases |t|
  {
    if t != [] {
      ExpandFirst(t[1..]);
      assert AllScalars(t) ==> AllScalars(t[1..]);
    }
  }

  /** Re-reading an encoded source gives it back iff it is canonical. */
  lemma EncodedIsReadBackIff(source: Source, maximum: nat)
    requires EncodeMarkdown(source, maximum).Ok?
    ensures DecodeMarkdown(EncodeMarkdown(source, maximum).value, maximum) == Ok(source) <==> Canonical(source)
  {
    var bytes := EncodeMarkdown(source, maximum).value;
    if Canonical(source) {
      CanonicalIsReadBack(source, maximum);
    }
    if DecodeMarkdown(bytes, maximum) == Ok(source) {
      ReadBackIsCanonical(bytes, source, maximum);
    }
  }

  lemma CanonicalIsReadBack(source: Source, maximum: nat)
    requires EncodeMarkdown(source, maximum).Ok? && Canonical(source)
    ensures DecodeMarkdown(EncodeMarkdown(source, maximum).value, maximum) == Ok(source)
  {
    var content := Content(source);
    var text := (if source.hasByteOrderMark then [BYTE_ORDER_MARK] else []) + content;
    ContentIsDetected(source);
    assert AllScalars(text) && 0 !in text;
    DecodeIff(Encode(text), text);
    BomIsItsBytes(text);
    assert if source.hasByteOrderMark then text[1..] == content else text == content;
    var bytes := EncodeMarkdown(source, maximum).value;
    assert bytes == Encode(text) && Decode(bytes) == Some(text);
    assert StartsWithBomBytes(bytes) == source.hasByteOrderMark;
  }

  lemma ContentIsDetected(source: Source)
    requires Canonical(source) && CR !in source.text && 0 !in source.text
    ensures var content := Content(source);
      && AllScalars(content) && 0 !in content
      && DetectLineEnding(content) == Ok(source.lineEnding)
      && (source.lineEnding.Crlf? ==> ReplaceCrlf(content, [LF]) == source.text)
      && (!source.hasByteOrderMark ==> content == [] || content[0] != BYTE_ORDER_MARK)
  {
    DetectIff(Content(source));
    if source.lineEnding.Crlf? {
      ExpandFirst(source.text);
      ExpandCollapses(source.text);
    }
  }

  lemma ReadBackIsCanonical(bytes: seq<Byte>, source: Source, maximum: nat)
    requires DecodeMarkdown(bytes, maximum) == Ok(source)
    requires EncodeMarkdown(source, maximum) == Ok(bytes)
    ensures Canonical(source)
  {
    var text := Decode(bytes).value;
    DecodeIff(bytes, text);
    BomIsItsBytes(text);
    var content := if source.hasByteOrderMark then text[1..] else text;
    DetectIff(content);
    assert AllScalars(content);
    if source.lineEnding.Crlf? {
      CollapseExpands(content);
      ReplaceScalars(content);
      CollapseHasLf(content);
      ExpandFirst(source.text);
    }
  }

  lemma {:induction false} ReplaceScalars(t: Text)
    requires AllScalars(t)
    ensures AllScalars(ReplaceCrlf(t, [LF]))
    decreases |t|
  {
    if t != [] {
      var n := if StartsCrlf(t) then 2 else 1;
      assert AllScalars(t[n..]);
      ReplaceScalars(t[n..]);
    }
  }

  lemma {:induction false} CollapseHasLf(t: Text)
    requires HasCrlf(t)
    ensures LF in ReplaceCrlf(t, [LF])
    decreases |t|
  {
    if !StartsCrlf(t) {
      var i :| 0 <= i < |t| - 1 && CrlfAt(t, i);
      assert CrlfAt(t[1..], i - 1);
      CollapseHasLf(t[1..]);
    }
  }
}
