/**
 * Two recognisers of release versions: an index scanner in the build tooling
 * (devops/source/image-plan.ts, IsReleaseTag) and a splitter in the ONLYOFFICE
 * adapter (adapters/onlyoffice/src/release_metadata_validation.rs,
 * valid_semver), and the local build tags made from such versions (items 2, 9
 * and 10 of Semantic Versioning 2.0.0).
 */
module SemVer {
  import opened Prelude

  predicate IsDigit(c: char) { '0' <= c <= '9' }

  predicate IsLetter(c: char) { 'A' <= c <= 'Z' || 'a' <= c <= 'z' }

  predicate IsIdentifierChar(c: char) { IsDigit(c) || IsLetter(c) || c == '-' }

  lemma IsDigitIff(c: char)
    ensures IsDigit(c) <==> c in "0123456789"
  {
    if IsDigit(c) { assert "0123456789"[c as int - 48] == c; }
  }

  lemma IsLetterIff(c: char)
    ensures IsLetter(c) <==> c in "ABCDEFGHIJKLMNOPQRSTUVWXYZ" || c in "abcdefghijklmnopqrstuvwxyz"
  {
    UpperIff(c);
    LowerIff(c);
  }

  lemma UpperIff(c: char)
    ensures 'A' <= c <= 'Z' <==> c in "ABCDEFGHIJKLMNOPQRSTUVWXYZ"
  {
    if 'A' <= c <= 'Z' { assert "ABCDEFGHIJKLMNOPQRSTUVWXYZ"[c as int - 65] == c; }
  }

  lemma LowerIff(c: char)
    ensures 'a' <= c <= 'z' <==> c in "abcdefghijklmnopqrstuvwxyz"
  {
    if 'a' <= c <= 'z' { assert "abcdefghijklmnopqrstuvwxyz"[c as int - 97] == c; }
  }

  predicate All(s: string, p: char -> bool) {
    s != "" ==> p(s[0]) && All(s[1..], p)
  }

  // ---- The splitter -------------------------------------------------------------------

  /** The first position of a character, or the length. */
  function IndexOf(s: string, c: char): (i: nat)
    ensures i <= |s|
  {
    if s == "" || s[0] == c then 0 else 1 + IndexOf(s[1..], c)
  }

  function SplitOnce(s: string, c: char): (string, Option<string>) {
    var i := IndexOf(s, c);
    if i == |s| then (s, None) else (s[..i], Some(s[i + 1..]))
  }

  function Split(s: string, c: char): seq<string>
    decreases |s|
  {
    var i := IndexOf(s, c);
    if i == |s| then [s] else [s[..i]] + Split(s[i + 1..], c)
  }

  predicate ValidNumericIdentifier(s: string) {
    s != "" && All(s, IsDigit) && (s == "0" || s[0] != '0')
  }

  predicate ValidIdentifier(s: string, rejectNumericLeadingZero: bool) {
    && s != "" && All(s, IsIdentifierChar)
    && (!rejectNumericLeadingZero || !All(s, IsDigit) || ValidNumericIdentifier(s))
  }

  predicate AllValid(parts: seq<string>, rejectNumericLeadingZero: bool) {
    parts != [] ==>
      ValidIdentifier(parts[0], rejectNumericLeadingZero) && AllValid(parts[1..], rejectNumericLeadingZero)
  }

  predicate ValidIdentifiers(s: string, rejectNumericLeadingZero: bool) {
    s != "" && AllValid(Split(s, '.'), rejectNumericLeadingZero)
  }

  /** Exactly n parts, all of them numeric identifiers. */
  predicate AllNumeric(parts: seq<string>, n: nat) {
    if n == 0 then parts == []
    else parts != [] && ValidNumericIdentifier(parts[0]) && AllNumeric(parts[1..], n - 1)
  }

  predicate ValidSemver(value: string) {
    var (coreAndPre, build) := SplitOnce(value, '+');
    var (core, prerelease) := SplitOnce(coreAndPre, '-');
    && (build.Some? ==> ValidIdentifiers(build.value, false))
    && (prerelease.Some? ==> ValidIdentifiers(prerelease.value, true))
    && AllNumeric(Split(core, '.'), 3)
  }

  // ---- What the scanner computes --------------------------------------------------------

  /** The number of leading characters with a property. */
  function Run(s: string, p: char -> bool): (n: nat)
    ensures n <= |s|
  {
    if s == "" || !p(s[0]) then 0 else 1 + Run(s[1..], p)
  }

  /** How much of a text ConsumeNumericIdentifier takes. */
  function NumberLength(s: string): (n: nat)
    ensures n <= |s|
  {
    if s == "" || !IsDigit(s[0]) then 0 else if s[0] == '0' then 1 else Run(s, IsDigit)
  }

  /** The prerelease part of the scan: dot-separated identifiers up to the end. */
  predicate ScansPrerelease(s: string)
    decreases |s|
  {
    s != "" &&
    var n := Run(s, IsIdentifierChar);
    && ValidIdentifier(s[..n], true)
    && (n == |s| || (s[n] == '.' && ScansPrerelease(s[n + 1..])))
  }

  predicate ScansTail(tail: string) {
    tail == "" || (tail[0] == '-' && ScansPrerelease(tail[1..]))
  }

  /** Where k numeric identifiers with dots between them end, from a position on. */
  function NumbersEnd(v: string, offset: nat, k: nat): (end: Option<nat>)
    ensures end.Some? ==> end.value <= |v|
    decreases k
  {
    if k == 0 || offset >= |v| then None else
      var end := offset + NumberLength(v[offset..]);
      if end == offset then None
      else if k == 1 then Some(end)
      else if end < |v| && v[end] == '.' then NumbersEnd(v, end + 1, k - 1)
      else None
  }

  predicate Scans(v: string) {
    var end := NumbersEnd(v, 0, 3);
    end.Some? && ScansTail(v[end.value..])
  }

  // ---- Runs and splits ------------------------------------------------------------------------

  /** A run ends where the property first fails, or at the boundary of a text that has it throughout. */
  lemma {:induction false} RunOf(a: string, rest: string, p: char -> bool)
    requires rest == "" || !p(rest[0])
    ensures var n := Run(a + rest, p);
      if All(a, p) then n == |a| else n < |a| && !p(a[n])
  {
    if a == "" {
      assert a + rest == rest;
    } else {
      assert (a + rest)[1..] == a[1..] + rest;
      RunOf(a[1..], rest, p);
    }
  }

  lemma {:induction false} RunIsAll(s: string, p: char -> bool)
    ensures All(s[..Run(s, p)], p)
    ensures Run(s, p) < |s| ==> !p(s[Run(s, p)])
  {
    if s != "" && p(s[0]) {
      RunIsAll(s[1..], p);
      assert s[..Run(s, p)][1..] == s[1..][..Run(s[1..], p)];
    }
  }

  lemma {:induction false} AllAppend(a: string, b: string, p: char -> bool)
    ensures All(a + b, p) <==> All(a, p) && All(b, p)
  {
    if a == "" {
      assert a + b == b;
    } else {
      assert (a + b)[1..] == a[1..] + b;
      AllAppend(a[1..], b, p);
    }
  }

  predicate Lacks(s: string, c: char) { IndexOf(s, c) == |s| }

  lemma {:induction false} AllLacks(s: string, p: char -> bool, c: char)
    requires All(s, p) && !p(c)
    ensures Lacks(s, c)
  {
    if s != "" { AllLacks(s[1..], p, c); }
  }

  lemma {:induction false} LacksIff(s: string, c: char)
    ensures Lacks(s, c) <==> c !in s
  {
    if s != "" {
      LacksIff(s[1..], c);
      assert s == [s[0]] + s[1..];
    }
  }

  lemma {:induction false} IndexAfter(a: string, c: char, rest: string)
    requires Lacks(a, c)
    ensures IndexOf(a + rest, c) == |a| + IndexOf(rest, c)
  {
    if a == "" {
      assert a + rest == rest;
    } else {
      assert (a + rest)[1..] == a[1..] + rest;
      IndexAfter(a[1..], c, rest);
    }
  }

  lemma {:induction false} CutAt(s: string, c: char)
    ensures var i := IndexOf(s, c); Lacks(s[..i], c) && (i < |s| ==> s[i] == c)
  {
    if s != "" && s[0] != c {
      CutAt(s[1..], c);
      var i := IndexOf(s, c);
      assert s[..i][1..] == s[1..][..i - 1];
    }
  }

  // ---- Prereleases ---------------------------------------------------------------------------------

  lemma ValidIdentifierChars(a: string)
    requires ValidIdentifier(a, true)
    ensures Lacks(a, '.') && Lacks(a, '+')
  {
    AllLacks(a, IsIdentifierChar, '.');
    AllLacks(a, IsIdentifierChar, '+');
  }

  /** The scan of a prerelease accepts what splitting at the dots accepts. */
  lemma {:induction false} PrereleaseIff(s: string)
    ensures ScansPrerelease(s) <==> ValidIdentifiers(s, true)
    decreases |s|
  {
    if s != "" {
      var i := IndexOf(s, '.');
      CutAt(s, '.');
      var first, rest := s[..i], s[i..];
      assert s == first + rest;
      RunOf(first, rest, IsIdentifierChar);
      var n := Run(s, IsIdentifierChar);
      if All(first, IsIdentifierChar) {
        if i < |s| {
          var later := s[i + 1..];
          PrereleaseIff(later);
          assert Split(s, '.') == [first] + Split(later, '.');
          assert ([first] + Split(later, '.'))[1..] == Split(later, '.');
          NothingIsNoIdentifier(later);
          assert n == i && s[..n] == first && s[n] == '.';
        } else {
          assert first == s && s[..n] == s;
          OneIdentifier(s);
        }
      } else {
        RunIsAll(s, IsIdentifierChar);
        LacksAt(first, '.', n);
        assert s[n] == first[n];
        assert Split(s, '.')[0] == first;
      }
    }
  }

  lemma OneIdentifier(s: string)
    requires Lacks(s, '.')
    ensures AllValid(Split(s, '.'), true) <==> ValidIdentifier(s, true)
  {
    assert Split(s, '.') == [s] && [s][1..] == [];
  }

  lemma NothingIsNoIdentifier(s: string)
    ensures AllValid(Split(s, '.'), true) <==> ValidIdentifiers(s, true)
  {
    if s == "" {
      assert Split(s, '.') == [s];
    }
  }

  lemma {:induction false} PrereleaseHasNoPlus(s: string)
    requires ScansPrerelease(s)
    ensures Lacks(s, '+')
    decreases |s|
  {
    var n := Run(s, IsIdentifierChar);
    ValidIdentifierChars(s[..n]);
    assert s == s[..n] + s[n..];
    IndexAfter(s[..n], '+', s[n..]);
    if n < |s| {
      PrereleaseHasNoPlus(s[n + 1..]);
      assert s[n..][1..] == s[n + 1..];
    }
  }

  // ---- Numbers ---------------------------------------------------------------------------------------

  /** What may follow a number: nothing, a dot, or a dash. */
  predicate Delimited(rest: string) { rest == "" || rest[0] == '.' || rest[0] == '-' }

  /** Before a delimiter, a numeric identifier is consumed whole, and of anything else a part is left. */
  lemma NumberOf(a: string, rest: string)
    requires Delimited(rest)
    ensures var n := NumberLength(a + rest);
      if ValidNumericIdentifier(a) then n == |a| else n == 0 || n < |a|
  {
    RunOf(a, rest, IsDigit);
    if a == "" {
      assert a + rest == rest;
    } else {
      assert (a + rest)[0] == a[0];
      assert a[0] == '0' && |a| == 1 ==> a == "0";
    }
  }

  /** One number of the scan, before a delimiter. */
  lemma NumberThen(v: string, offset: nat, a: string, rest: string, k: nat)
    requires offset <= |v| && v[offset..] == a + rest && Delimited(rest) && ValidNumericIdentifier(a) && k > 0
    ensures var end := offset + |a|;
      && v[end..] == rest
      && NumbersEnd(v, offset, k) ==
         if k == 1 then Some(end)
         else if end < |v| && v[end] == '.' then NumbersEnd(v, end + 1, k - 1)
         else None
  {
    NumberOf(a, rest);
    assert (a + rest)[|a|..] == rest;
  }

  lemma NoNumber(v: string, offset: nat, a: string, rest: string, k: nat)
    requires offset <= |v| && v[offset..] == a + rest && Delimited(rest) && !ValidNumericIdentifier(a)
    requires Lacks(a, '.') && Lacks(a, '-') && k > 0
    ensures var end := NumbersEnd(v, offset, k); end.None? || (end.value < |v| && v[end.value] != '-')
  {
    NumberOf(a, rest);
    var n := NumberLength(v[offset..]);
    if n > 0 {
      assert v[offset + n] == v[offset..][n] == a[n];
      LacksAt(a, '.', n);
      LacksAt(a, '-', n);
    }
  }

  /**
   * The scan of k numbers ends before `tail` iff there are exactly k parts, all numeric;
   * else not at a dash or the end.
   */
  predicate EndsWith(v: string, offset: nat, parts: seq<string>, tail: string, k: nat) {
    var end := NumbersEnd(v, offset, k);
    if AllNumeric(parts, k) then end == Some(|v| - |tail|)
    else end.None? || (end.value < |v| && v[end.value] != '-')
  }

  lemma LastNumberIff(v: string, offset: nat, a: string, tail: string, k: nat)
    requires offset <= |v| && v[offset..] == a + tail && Lacks(a, '.') && Lacks(a, '-')
    requires (tail == "" || tail[0] == '-') && k > 0
    ensures EndsWith(v, offset, [a], tail, k)
  {
    LastNumber(a, k);
    if ValidNumericIdentifier(a) {
      NumberThen(v, offset, a, tail, k);
      assert tail != "" ==> v[offset + |a|] == tail[0];
    } else {
      NoNumber(v, offset, a, tail, k);
    }
  }

  lemma FirstNumberIff(v: string, offset: nat, a: string, inner: string, parts: seq<string>, tail: string, k: nat)
    requires offset <= |v| && v[offset..] == a + (['.'] + inner) && Lacks(a, '.') && Lacks(a, '-')
    requires parts != [] && k > 0
    requires k > 1 ==> EndsWith(v, offset + |a| + 1, parts, tail, k - 1)
    ensures EndsWith(v, offset, [a] + parts, tail, k)
  {
    var rest := ['.'] + inner;
    FirstNumber(a, parts, k);
    if ValidNumericIdentifier(a) {
      NumberThen(v, offset, a, rest, k);
      DotThen(v, offset + |a|, inner);
    } else {
      NoNumber(v, offset, a, rest, k);
    }
  }

  /** Numbers up to a delimiter: the scan succeeds there iff the split has exactly that many numeric parts. */
  lemma {:induction false} NumbersIff(v: string, offset: nat, core: string, tail: string, k: nat)
    requires offset <= |v| && v[offset..] == core + tail
    requires Lacks(core, '-') && (tail == "" || tail[0] == '-') && k > 0
    ensures EndsWith(v, offset, Split(core, '.'), tail, k)
    decreases k
  {
    var i := IndexOf(core, '.');
    CutAt(core, '.');
    var a := core[..i];
    LacksPrefix(core, '-', i);
    if i == |core| {
      assert a == core;
      LastNumberIff(v, offset, a, tail, k);
    } else {
      var inner := core[i + 1..];
      assert core + tail == a + (['.'] + (inner + tail));
      if k > 1 {
        LacksSuffix(core, '-', i + 1);
        AfterDot(v, offset, a, inner + tail);
        NumbersIff(v, offset + |a| + 1, inner, tail, k - 1);
      }
      SplitIsNotEmpty(inner);
      FirstNumberIff(v, offset, a, inner + tail, Split(inner, '.'), tail, k);
    }
  }

  lemma AfterDot(v: string, offset: nat, a: string, after: string)
    requires offset <= |v| && v[offset..] == a + (['.'] + after)
    ensures offset + |a| + 1 <= |v| && v[offset + |a| + 1..] == after
  {
    assert v[offset..][|a| + 1..] == after;
  }

  lemma DotThen(v: string, end: nat, after: string)
    requires end <= |v| && v[end..] == ['.'] + after
    ensures end < |v| && v[end] == '.' && v[end + 1..] == after
  {
    assert v[end] == v[end..][0];
    assert v[end + 1..] == v[end..][1..];
  }

  lemma LastNumber(a: string, k: nat)
    requires k > 0
    ensures AllNumeric([a], k) <==> k == 1 && ValidNumericIdentifier(a)
  {
    assert [a][1..] == [];
  }

  lemma FirstNumber(a: string, parts: seq<string>, k: nat)
    requires k > 0 && parts != []
    ensures AllNumeric([a] + parts, k) <==> k > 1 && ValidNumericIdentifier(a) && AllNumeric(parts, k - 1)
  {
    assert ([a] + parts)[1..] == parts;
  }

  lemma {:induction false} LacksPrefix(s: string, c: char, n: nat)
    requires Lacks(s, c) && n <= |s|
    ensures Lacks(s[..n], c)
  {
    if n > 0 {
      LacksPrefix(s[1..], c, n - 1);
      assert s[..n][1..] == s[1..][..n - 1];
    }
  }

  lemma SplitIsNotEmpty(s: string)
    ensures Split(s, '.') != []
  {
  }

  lemma {:induction false} LacksSuffix(s: string, c: char, n: nat)
    requires Lacks(s, c) && n <= |s|
    ensures Lacks(s[n..], c)
  {
    if n > 0 {
      LacksSuffix(s[1..], c, n - 1);
      assert s[1..][n - 1..] == s[n..];
    } else {
      assert s[0..] == s;
    }
  }

  lemma {:induction false} LacksAt(s: string, c: char, n: nat)
    requires Lacks(s, c) && n < |s|
    ensures s[n] != c
  {
    if n > 0 { LacksAt(s[1..], c, n - 1); }
  }

  // ---- The two recognisers agree ------------------------------------------------------------------------

  /** The scan, with the numbers cut off at the first dash. */
  lemma ScansIff(core: string, tail: string)
    requires Lacks(core, '-') && (tail == "" || tail[0] == '-')
    ensures Scans(core + tail) <==>
      AllNumeric(Split(core, '.'), 3) && (tail == "" || ValidIdentifiers(tail[1..], true))
  {
    var v := core + tail;
    assert v[0..] == v && v[|core|..] == tail;
    NumbersIff(v, 0, core, tail, 3);
    if tail != "" { PrereleaseIff(tail[1..]); }
    assert forall end | 0 <= end < |v| :: v[end..][0] == v[end];
  }

  lemma {:induction false} NumbersHaveNoPlus(v: string, offset: nat, k: nat)
    requires NumbersEnd(v, offset, k).Some?
    ensures Lacks(v[NumbersEnd(v, offset, k).value..], '+') ==> Lacks(v[offset..], '+')
    decreases k
  {
    var end := offset + NumberLength(v[offset..]);
    NumberHasNoPlus(v, offset);
    if k > 1 {
      NumbersHaveNoPlus(v, end + 1, k - 1);
      assert v[end..][1..] == v[end + 1..];
    }
  }

  lemma NumberHasNoPlus(v: string, offset: nat)
    requires offset <= |v|
    ensures Lacks(v[offset + NumberLength(v[offset..])..], '+') ==> Lacks(v[offset..], '+')
  {
    var s := v[offset..];
    var n := NumberLength(s);
    NumberIsDigits(s);
    AllLacks(s[..n], IsDigit, '+');
    assert s == s[..n] + s[n..] && s[n..] == v[offset + n..];
    IndexAfter(s[..n], '+', s[n..]);
  }

  lemma NumberIsDigits(s: string)
    ensures All(s[..NumberLength(s)], IsDigit)
  {
    RunIsAll(s, IsDigit);
    if s != "" && s[0] == '0' {
      assert s[..1][1..] == "";
    }
  }

  lemma ScansHasNoPlus(v: string)
    requires Scans(v)
    ensures Lacks(v, '+')
  {
    var end := NumbersEnd(v, 0, 3).value;
    var tail := v[end..];
    if tail != "" { PrereleaseHasNoPlus(tail[1..]); }
    NumbersHaveNoPlus(v, 0, 3);
    assert v[0..] == v;
  }

  /** The index scanner and the splitter accept the same strings, up to build metadata. */
  lemma ScanIffSplit(v: string)
    ensures Scans(v) <==> ValidSemver(v) && '+' !in v
  {
    LacksIff(v, '+');
    if Lacks(v, '+') {
      var i := IndexOf(v, '-');
      CutAt(v, '-');
      assert v == v[..i] + v[i..];
      ScansIff(v[..i], v[i..]);
      if i < |v| {
        assert v[i..][1..] == v[i + 1..];
      } else {
        assert v[..i] == v;
      }
    } else if Scans(v) {
      ScansHasNoPlus(v);
      assert false;
    }
  }

  // ---- The scanner's loops --------------------------------------------------------------------------------

  method ConsumeNumericIdentifier(v: string, offset: nat) returns (end: Option<nat>)
    ensures offset >= |v| ==> end.None?
    ensures offset < |v| ==>
      var n := NumberLength(v[offset..]); end == if n == 0 then None else Some(offset + n)
  {
    if offset >= |v| || !IsDigit(v[offset]) { return None; }
    if v[offset] == '0' { return Some(offset + 1); }
    var position := offset + 1;
    assert v[offset..][1..] == v[position..];
    while position < |v| && IsDigit(v[position])
      invariant offset < position <= |v|
      invariant Run(v[offset..], IsDigit) == position - offset + Run(v[position..], IsDigit)
    {
      assert v[position..][1..] == v[position + 1..];
      position := position + 1;
    }
    return Some(position);
  }

  /** The three numbers of the scan. */
  method ScanNumbers(v: string) returns (end: Option<nat>)
    ensures end == NumbersEnd(v, 0, 3)
  {
    var first := ConsumeNumericIdentifier(v, 0);
    if first.None? || first.value == |v| || v[first.value] != '.' { return None; }
    var second := ConsumeNumericIdentifier(v, first.value + 1);
    if second.None? || second.value == |v| || v[second.value] != '.' { return None; }
    end := ConsumeNumericIdentifier(v, second.value + 1);
  }

  /** The source's scan: the same language as the splitter, without build metadata. */
  method IsReleaseTag(v: string) returns (ok: bool)
    ensures ok <==> ValidSemver(v) && '+' !in v
  {
    ScanIffSplit(v);
    var end := ScanNumbers(v);
    if end.None? { return false; }
    var offset := end.value;
    if offset == |v| { return true; }
    if v[offset] != '-' { return false; }
    assert v[offset..][1..] == v[offset + 1..];
    ok := ScanPrerelease(v, offset + 1);
  }

  /** The scan's outer loop. */
  method ScanPrerelease(v: string, from: nat) returns (ok: bool)
    requires from <= |v|
    ensures ok == ScansPrerelease(v[from..])
  {
    var offset := from;
    while offset < |v|
      invariant from <= offset <= |v|
      invariant ScansPrerelease(v[from..]) == ScansPrerelease(v[offset..])
      decreases |v| - offset
    {
      var start := offset;
      var numeric;
      offset, numeric := ScanIdentifier(v, start);
      PrereleaseStep(v, start);
      ScannedIdentifier(v[start..], offset - start, v[start..offset], numeric);
      if offset == start || (numeric && offset - start > 1 && v[start] == '0') {
        return false;
      }
      if offset == |v| { return true; }
      if v[offset] != '.' { return false; }
      offset := offset + 1;
    }
    return false;
  }

  lemma PrereleaseStep(v: string, start: nat)
    requires start < |v|
    ensures var end := start + Run(v[start..], IsIdentifierChar);
      ScansPrerelease(v[start..]) <==>
        && ValidIdentifier(v[start..end], true)
        && (end == |v| || (v[end] == '.' && ScansPrerelease(v[end + 1..])))
  {
    var s := v[start..];
    var n := Run(s, IsIdentifierChar);
    assert s[..n] == v[start..start + n];
    if n < |s| {
      assert s[n] == v[start + n] && s[n + 1..] == v[start + n + 1..];
    }
  }

  /** The scan's test of an identifier is the splitter's. */
  lemma ScannedIdentifier(s: string, n: nat, id: string, numeric: bool)
    requires n == Run(s, IsIdentifierChar) && id == s[..n] && (numeric <==> All(id, IsDigit))
    ensures ValidIdentifier(id, true) <==> !(n == 0 || (numeric && n > 1 && s[0] == '0'))
  {
    RunIsAll(s, IsIdentifierChar);
    assert n == 1 && s[0] == '0' ==> id == "0";
  }

  /** The scan's inner loop: one identifier, and whether it is all digits. */
  method ScanIdentifier(v: string, start: nat) returns (offset: nat, numeric: bool)
    requires start <= |v|
    ensures offset == start + Run(v[start..], IsIdentifierChar)
    ensures offset <= |v| && (numeric <==> All(v[start..offset], IsDigit))
  {
    offset, numeric := start, true;
    while offset < |v|
      invariant start <= offset <= |v|
      invariant Run(v[start..], IsIdentifierChar) == offset - start + Run(v[offset..], IsIdentifierChar)
      invariant numeric <==> All(v[start..offset], IsDigit)
      decreases |v| - offset
    {
      assert v[offset..][1..] == v[offset + 1..];
      assert v[start..offset + 1] == v[start..offset] + [v[offset]];
      AllAppend(v[start..offset], [v[offset]], IsDigit);
      if IsDigit(v[offset]) {
        offset := offset + 1;
      } else if IsLetter(v[offset]) || v[offset] == '-' {
        numeric := false;
        offset := offset + 1;
      } else {
        break;
      }
    }
  }

  // ---- Local build tags ------------------------------------------------------------------------------------

  predicate IsLowerHex(c: char) { IsDigit(c) || 'a' <= c <= 'f' }

  /** A full lower-case hexadecimal Git object identifier. */
  predicate IsRevision(s: string) { (|s| == 40 || |s| == 64) && All(s, IsLowerHex) }

  /** CreateLocalBuildTag; None where the source throws. */
  function CreateLocalBuildTag(version: string, revision: string): Option<string> {
    if Scans(version) && IsRevision(revision) then Some(version + ("-build." + revision[..12])) else None
  }

  /** Appending identifier characters that are not all digits keeps a prerelease's last identifier valid. */
  lemma {:induction false} ExtendLast(p: string, extra: string, rest: string)
    requires ScansPrerelease(p)
    requires All(extra, IsIdentifierChar) && !All(extra, IsDigit)
    ensures ScansPrerelease(p + extra + (['.'] + rest)) <==> ScansPrerelease(rest)
    decreases |p|
  {
    var n := Run(p, IsIdentifierChar);
    var dotted := ['.'] + rest;
    var s := p + extra + dotted;
    if n == |p| {
      assert p[..n] == p;
      AllAppend(p, extra, IsIdentifierChar);
      AllAppend(p, extra, IsDigit);
      RunOf(p + extra, dotted, IsIdentifierChar);
      var m := |p + extra|;
      assert s[..m] == p + extra && s[m] == '.' && s[m + 1..] == rest;
    } else {
      var q := p[n + 1..];
      ExtendLast(q, extra, rest);
      assert s == p[..n] + (['.'] + (q + extra + dotted));
      RunIsAll(p, IsIdentifierChar);
      RunOf(p[..n], ['.'] + (q + extra + dotted), IsIdentifierChar);
      assert s[..n] == p[..n] && s[n] == '.' && s[n + 1..] == q + extra + dotted;
    }
  }

  lemma BuildIsAWord()
    ensures All("build", IsIdentifierChar) && !All("build", IsDigit)
    ensures All("-build", IsIdentifierChar) && !All("-build", IsDigit)
  {
    var b, d := "build", "-build";
    assert b[1..] == "uild" && b[1..][1..] == "ild" && b[1..][1..][1..] == "ld";
    assert b[1..][1..][1..][1..] == "d" && b[1..][1..][1..][1..][1..] == "";
    assert All("d", IsIdentifierChar) && All("ld", IsIdentifierChar) && All("ild", IsIdentifierChar);
    assert All("uild", IsIdentifierChar) && All(b, IsIdentifierChar);
    assert d[1..] == b;
  }

  /** The prerelease of a build tag is valid iff the revision prefix is a valid identifier list. */
  lemma BuildTail(tail: string, prefix: string)
    requires tail == "" || (tail[0] == '-' && ScansPrerelease(tail[1..]))
    ensures var all := tail + ("-build." + prefix);
      all[0] == '-' && (ScansPrerelease(all[1..]) <==> ScansPrerelease(prefix))
  {
    var all := tail + ("-build." + prefix);
    BuildIsAWord();
    if tail == "" {
      WordThen("build", prefix);
      assert all[1..] == "build" + (['.'] + prefix);
    } else {
      ExtendLast(tail[1..], "-build", prefix);
      assert all[1..] == tail[1..] + "-build" + (['.'] + prefix);
    }
  }

  /** A word before a dot leaves the validity to what follows the dot. */
  lemma WordThen(word: string, rest: string)
    requires word != "" && All(word, IsIdentifierChar) && !All(word, IsDigit)
    ensures ScansPrerelease(word + (['.'] + rest)) <==> ScansPrerelease(rest)
  {
    var dotted := ['.'] + rest;
    var s, n := word + dotted, |word|;
    RunOf(word, dotted, IsIdentifierChar);
    assert s[..n] == word && s[n] == '.' && s[n + 1..] == rest;
  }

  /** A revision prefix is a valid identifier list iff it is not all digits with a leading zero. */
  lemma RevisionPrefixIff(prefix: string)
    requires |prefix| > 1 && All(prefix, IsLowerHex)
    ensures ScansPrerelease(prefix) <==> !(All(prefix, IsDigit) && prefix[0] == '0')
  {
    HexIsIdentifier(prefix);
    RunOf(prefix, "", IsIdentifierChar);
    assert prefix + "" == prefix && prefix[..|prefix|] == prefix;
  }

  lemma {:induction false} HexIsIdentifier(s: string)
    requires All(s, IsLowerHex)
    ensures All(s, IsIdentifierChar)
  {
    if s != "" { HexIsIdentifier(s[1..]); }
  }

  /** A local build tag is itself a release version iff its revision prefix is not all digits with a leading zero. */
  lemma BuildTagIff(version: string, revision: string)
    requires CreateLocalBuildTag(version, revision).Some?
    ensures Scans(CreateLocalBuildTag(version, revision).value)
      <==> !(All(revision[..12], IsDigit) && revision[0] == '0')
  {
    var prefix := revision[..12];
    assert revision == prefix + revision[12..];
    AllAppend(prefix, revision[12..], IsLowerHex);
    RevisionPrefixIff(prefix);
    var i := IndexOf(version, '-');
    CutAt(version, '-');
    var core, tail := version[..i], version[i..];
    assert version == core + tail;
    TaggedIff(core, tail, prefix);
    assert version + ("-build." + prefix) == core + (tail + ("-build." + prefix));
  }

  lemma TaggedIff(core: string, tail: string, prefix: string)
    requires Lacks(core, '-') && (tail == "" || tail[0] == '-') && Scans(core + tail)
    ensures Scans(core + (tail + ("-build." + prefix))) <==> ScansPrerelease(prefix)
  {
    ScansIff(core, tail);
    if tail != "" { PrereleaseIff(tail[1..]); }
    BuildTail(tail, prefix);
    var all := tail + ("-build." + prefix);
    ScansIff(core, all);
    PrereleaseIff(all[1..]);
  }

  /** Such a revision is one: release 1.0.0 built from a revision of forty zeros. */
  lemma ZerosAreNoReleaseTag()
    ensures var tag := CreateLocalBuildTag("1.0.0", Zeros(40)); tag.Some? && !Scans(tag.value)
  {
    OneIsARelease();
    ZerosAreDigits(40);
    ZerosAreDigits(12);
    assert Zeros(40)[..12] == Zeros(12);
    BuildTagIff("1.0.0", Zeros(40));
  }

  function Zeros(n: nat): (s: string)
    ensures |s| == n && forall i | 0 <= i < n :: s[i] == '0'
  {
    if n == 0 then "" else ['0'] + Zeros(n - 1)
  }

  lemma {:induction false} ZerosAreDigits(n: nat)
    ensures All(Zeros(n), IsDigit) && All(Zeros(n), IsLowerHex)
  {
    if n > 0 {
      ZerosAreDigits(n - 1);
      assert Zeros(n)[1..] == Zeros(n - 1);
    }
  }

  lemma OneIsARelease()
    ensures Scans("1.0.0")
  {
    var v := "1.0.0";
    assert v[1..] == ".0.0" && v[2..] == "0.0" && v[3..] == ".0" && v[4..] == "0" && v[0..] == v;
    assert NumbersEnd(v, 4, 1) == Some(5);
    assert NumbersEnd(v, 2, 2) == Some(5);
  }
}
