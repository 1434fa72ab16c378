/**
 * Which messages parse_request of the control plane accepts
 * (adapters/nfs/ganesha-fsal-filebelt/filebelt_control.c), stated on the fields they read as.
 */
module ControlRequest {
  import opened Prelude
  import opened Protobuf
  import opened Wire
  import opened ManifestEntry
  import opened ControlPlane

  // ---- The accepted field lists ------------------------------------------------------------

  /** One export field for each entry, in order. */
  predicate ExportsOf(fs: seq<Field>, entries: seq<Entry>) {
    && |fs| == |entries|
    && forall i | 0 <= i < |fs| :: fs[i].Bytes? && fs[i].number == 7 && ParseExport(fs[i].bytes) == Some(entries[i])
  }

  function Header(q: Request): seq<Field> { [Varint(1, 1), Bytes(2, q.requestId), Bytes(3, q.bootId)] }

  /** A drain may carry the two generations if they are zero. */
  predicate Zeros(fs: seq<Field>) {
    fs == [] || fs == [Varint(4, 0)] || fs == [Varint(5, 0)] || fs == [Varint(4, 0), Varint(5, 0)]
  }

  /** The field lists that parse to a request. */
  predicate RequestShape(q: Request, fs: seq<Field>) {
    && |fs| >= 4 && fs[..3] == Header(q)
    && if q.drain then fs[|fs| - 1] == Varint(8, 1) && Zeros(fs[3..|fs| - 1])
       else
         && |fs| >= 6 && fs[3..6] == [Varint(4, q.featureGeneration), Varint(5, q.exportGeneration), Bytes(6, q.digest)]
         && ExportsOf(fs[6..], q.entries)
  }

  // ---- Reading in the order of the numbers --------------------------------------------------

  /** The fields from number n on, each number but the exports' at most once. */
  function Staged(format: nat, q: Request, fs: seq<Field>, n: nat): Option<(nat, Request)>
    requires 1 <= n <= 9
    decreases |fs|, 9 - n
  {
    if fs == [] then Some((format, q))
    else if n == 9 then None
    else if fs[0].number != n then Staged(format, q, fs, n + 1)
    else
      match SetField(format, q, fs[0])
      case None => None
      case Some((format1, q1)) => Staged(format1, q1, fs[1..], if n == 7 then 7 else n + 1)
  }

  predicate NotSeenFrom(seen: seq<bool>, n: nat) {
    |seen| == 9 && forall k | n <= k <= 8 && k != 7 :: !seen[k]
  }

  function Outcome(st: Option<RequestState>): Option<(nat, Request)> {
    match st case None => None case Some(s) => Some((s.format, s.request))
  }

  /** Ordered fields are folded as they are staged. */
  lemma {:induction false} FoldIsStaged(st: RequestState, fs: seq<Field>, n: nat, previous: nat)
    requires 1 <= n <= 9 && Ordered(fs, previous) && NotSeenFrom(st.seen, n)
    requires fs != [] && fs[0].number < n ==> fs[0].number != 7 && st.seen[fs[0].number]
    ensures Outcome(FoldRequest(st, fs)) == Staged(st.format, st.request, fs, n)
    decreases |fs|, 9 - n
  {
    if fs != [] && n < 9 {
      if fs[0].number != n {
        FoldIsStaged(st, fs, n + 1, previous);
      } else if SetField(st.format, st.request, fs[0]).Some? {
        FoldIsStaged(StepRequest(st, fs[0]).value, fs[1..], if n == 7 then 7 else n + 1, n);
      }
    }
  }

  /** Fields from number n on leave what smaller numbers set. */
  lemma {:induction false} StagedKeeps(format: nat, q: Request, fs: seq<Field>, n: nat)
    requires 1 <= n <= 9 && Staged(format, q, fs, n).Some?
    ensures var (format1, q1) := Staged(format, q, fs, n).value;
      && (n > 1 ==> format1 == format)
      && (n > 2 ==> q1.requestId == q.requestId) && (n > 3 ==> q1.bootId == q.bootId)
      && (n > 4 ==> q1.featureGeneration == q.featureGeneration)
      && (n > 5 ==> q1.exportGeneration == q.exportGeneration)
      && (n > 6 ==> q1.digest == q.digest) && (n > 7 ==> q1.entries == q.entries)
      && (n > 8 ==> q1.drain == q.drain)
    decreases |fs|, 9 - n
  {
    if fs != [] && n < 9 {
      if fs[0].number != n {
        StagedKeeps(format, q, fs, n + 1);
      } else {
        var (format1, q1) := SetField(format, q, fs[0]).value;
        StagedKeeps(format1, q1, fs[1..], if n == 7 then 7 else n + 1);
      }
    }
  }

  /** A field whose number is not there leaves its part of the request. */
  lemma StagedSkips(format: nat, q: Request, fs: seq<Field>, n: nat)
    requires 1 <= n <= 8 && (fs != [] ==> fs[0].number != n)
    ensures Staged(format, q, fs, n) == Staged(format, q, fs, n + 1)
  {
  }

  lemma StagedSets(format: nat, q: Request, f: Field, fs: seq<Field>, n: nat, next: (nat, Request))
    requires 1 <= n <= 8 && f.number == n && SetField(format, q, f) == Some(next)
    ensures Staged(format, q, [f] + fs, n) == Staged(next.0, next.1, fs, if n == 7 then 7 else n + 1)
  {
    assert ([f] + fs)[0] == f && ([f] + fs)[1..] == fs;
  }

  const BLANK: Request := EMPTY_REQUEST.request

  function Named(q: Request): Request { BLANK.(requestId := q.requestId, bootId := q.bootId) }

  // ---- From an accepted message to its shape -------------------------------------------------

  /** Field n has something to set. */
  predicate Differs(n: nat, format: nat, q: Request, after: (nat, Request)) {
    match n
    case 1 => format != after.0
    case 2 => q.requestId != after.1.requestId
    case 3 => q.bootId != after.1.bootId
    case 4 => q.featureGeneration != after.1.featureGeneration
    case 5 => q.exportGeneration != after.1.exportGeneration
    case 6 => q.digest != after.1.digest
    case _ => false
  }

  lemma FieldIsThere(format: nat, q: Request, fs: seq<Field>, n: nat, after: (nat, Request))
      returns (next: (nat, Request))
    requires 1 <= n <= 6 && Staged(format, q, fs, n) == Some(after) && Differs(n, format, q, after)
    ensures fs != [] && fs[0].number == n && SetField(format, q, fs[0]) == Some(next)
    ensures Staged(next.0, next.1, fs[1..], n + 1) == Some(after) && !Differs(n, next.0, next.1, after)
  {
    if fs == [] || fs[0].number != n {
      StagedSkips(format, q, fs, n);
      StagedKeeps(format, q, fs, n + 1);
      assert false;
    }
    next := SetField(format, q, fs[0]).value;
    StagedKeeps(next.0, next.1, fs[1..], n + 1);
  }

  lemma ThirdAndRest<T>(s: seq<T>)
    requires |s| >= 3
    ensures s[1..][1..] == s[2..] && s[2..][1..] == s[3..] && s[..3] == [s[0], s[1], s[2]]
  {
  }

  lemma HeaderIsThere(fs: seq<Field>, q: Request)
    requires Staged(0, BLANK, fs, 1) == Some((1, q)) && q.requestId != [] && q.bootId != []
    ensures |fs| >= 3 && fs[..3] == Header(q) && Staged(1, Named(q), fs[3..], 4) == Some((1, q))
  {
    var one := FieldIsThere(0, BLANK, fs, 1, (1, q));
    var two := FieldIsThere(1, BLANK, fs[1..], 2, (1, q));
    var three := FieldIsThere(1, two.1, fs[1..][1..], 3, (1, q));
    ThirdAndRest(fs);
  }

  lemma SettingsAreThere(fs: seq<Field>, q: Request)
    requires Staged(1, Named(q), fs, 4) == Some((1, q))
    requires q.featureGeneration > 0 && q.exportGeneration > 0 && q.digest != []
    ensures |fs| >= 3 && Staged(1, q.(entries := [], drain := false), fs[3..], 7) == Some((1, q))
    ensures fs[..3] == [Varint(4, q.featureGeneration), Varint(5, q.exportGeneration), Bytes(6, q.digest)]
  {
    var four := FieldIsThere(1, Named(q), fs, 4, (1, q));
    var five := FieldIsThere(1, four.1, fs[1..], 5, (1, q));
    var six := FieldIsThere(1, five.1, fs[1..][1..], 6, (1, q));
    ThirdAndRest(fs);
  }

  /** Behind the settings there are only exports, unless the request is a drain. */
  lemma {:induction false} ExportsAreThere(q: Request, fs: seq<Field>, after: Request)
    requires Staged(1, q, fs, 7) == Some((1, after)) && !after.drain
    ensures |after.entries| >= |q.entries| && after.entries[..|q.entries|] == q.entries
    ensures after == q.(entries := after.entries) && ExportsOf(fs, after.entries[|q.entries|..])
    decreases |fs|
  {
    if fs != [] {
      if fs[0].number == 7 {
        var e := ParseExport(fs[0].bytes).value;
        ExportsAreThere(q.(entries := q.entries + [e]), fs[1..], after);
        Extension(q.entries, e, after.entries);
        ExportsCons(fs, e, after.entries[|q.entries|..]);
      } else {
        OnlyDrainsAreMarked(q, fs, after);
        assert false;
      }
    }
  }

  lemma OnlyTheMarkIsLeft(format: nat, q: Request, fs: seq<Field>)
    requires fs != [] && Staged(format, q, fs, 8).Some?
    ensures fs[0].number == 8
  {
  }

  lemma OnlyDrainsAreMarked(q: Request, fs: seq<Field>, after: Request)
    requires fs != [] && fs[0].number != 7 && Staged(1, q, fs, 7) == Some((1, after))
    ensures after.drain
  {
    StagedSkips(1, q, fs, 7);
    OnlyTheMarkIsLeft(1, q, fs);
    assert SetField(1, q, fs[0]) == Some((1, q.(drain := true)));
    StagedKeeps(1, q.(drain := true), fs[1..], 9);
  }

  lemma Extension(front: seq<Entry>, e: Entry, all: seq<Entry>)
    requires |all| > |front| && all[..|front| + 1] == front + [e]
    ensures all[..|front|] == front && all[|front|] == e && all[|front|..][1..] == all[|front| + 1..]
  {
    assert all[..|front|] == all[..|front| + 1][..|front|];
    assert all[|front|] == all[..|front| + 1][|front|];
  }

  lemma ExportsCons(fs: seq<Field>, e: Entry, entries: seq<Entry>)
    requires fs != [] && fs[0].Bytes? && fs[0].number == 7 && ParseExport(fs[0].bytes) == Some(e)
    requires entries != [] && entries[0] == e && ExportsOf(fs[1..], entries[1..])
    ensures ExportsOf(fs, entries)
  {
    forall i | 1 <= i < |fs|
      ensures fs[i].Bytes? && fs[i].number == 7 && ParseExport(fs[i].bytes) == Some(entries[i])
    {
      assert fs[i] == fs[1..][i - 1] && entries[i] == entries[1..][i - 1];
    }
  }

  lemma {:induction false} EntriesGrow(format: nat, q: Request, fs: seq<Field>, n: nat)
    requires 1 <= n <= 9 && Staged(format, q, fs, n).Some?
    ensures |Staged(format, q, fs, n).value.1.entries| >= |q.entries|
    decreases |fs|, 9 - n
  {
    if fs != [] && n < 9 {
      if fs[0].number != n {
        EntriesGrow(format, q, fs, n + 1);
      } else {
        var (format1, q1) := SetField(format, q, fs[0]).value;
        EntriesGrow(format1, q1, fs[1..], if n == 7 then 7 else n + 1);
      }
    }
  }

  /** A generation of zero is not there, or there as zero. */
  lemma ZeroOrAbsent(q: Request, fs: seq<Field>, n: nat, after: Request)
    requires (n == 4 && q.featureGeneration == after.featureGeneration == 0)
      || (n == 5 && q.exportGeneration == after.exportGeneration == 0)
    requires Staged(1, q, fs, n) == Some((1, after))
    ensures var rest := if fs != [] && fs[0].number == n then fs[1..] else fs;
      && Staged(1, q, rest, n + 1) == Some((1, after))
      && (fs != [] && fs[0].number == n ==> fs[0] == Varint(n, 0))
  {
    if fs != [] && fs[0].number == n {
      var next := SetField(1, q, fs[0]).value;
      StagedKeeps(next.0, next.1, fs[1..], n + 1);
    } else {
      StagedSkips(1, q, fs, n);
    }
  }

  /** Behind the generations a drain has its mark and nothing else. */
  lemma DrainEnds(q: Request, fs: seq<Field>, after: Request)
    requires Staged(1, q, fs, 6) == Some((1, after)) && after.drain && !q.drain
    requires q.digest == after.digest == [] && q.entries == after.entries == []
    ensures fs == [Varint(8, 1)]
  {
    if fs != [] && fs[0].number == 6 {
      var next := SetField(1, q, fs[0]).value;
      StagedKeeps(next.0, next.1, fs[1..], 7);
      assert false;
    }
    StagedSkips(1, q, fs, 6);
    if fs != [] && fs[0].number == 7 {
      var next := SetField(1, q, fs[0]).value;
      EntriesGrow(next.0, next.1, fs[1..], 7);
      assert false;
    }
    StagedSkips(1, q, fs, 7);
    assert fs[0].number == 8;
    assert fs == [fs[0]] + fs[1..];
  }

  lemma DrainIsThere(fs: seq<Field>, q: Request)
    requires Staged(1, Named(q), fs, 4) == Some((1, q)) && q.drain
    requires q.featureGeneration == 0 && q.exportGeneration == 0 && q.digest == [] && q.entries == []
    ensures fs != [] && fs[|fs| - 1] == Varint(8, 1) && Zeros(fs[..|fs| - 1])
  {
    ZeroOrAbsent(Named(q), fs, 4, q);
    var five := if fs != [] && fs[0].number == 4 then fs[1..] else fs;
    ZeroOrAbsent(Named(q), five, 5, q);
    var six := if five != [] && five[0].number == 5 then five[1..] else five;
    DrainEnds(Named(q), six, q);
    assert five == (if five != [] && five[0].number == 5 then [Varint(5, 0)] else []) + [Varint(8, 1)];
    assert fs == (if fs != [] && fs[0].number == 4 then [Varint(4, 0)] else []) + five;
  }

  lemma AcceptedShape(fs: seq<Field>, q: Request)
    requires Staged(0, BLANK, fs, 1) == Some((1, q)) && ValidRequest(q)
    ensures RequestShape(q, fs)
  {
    HeaderIsThere(fs, q);
    var rest := fs[3..];
    if q.drain {
      DrainIsThere(rest, q);
      assert fs[3..|fs| - 1] == rest[..|rest| - 1];
    } else {
      SettingsAreThere(rest, q);
      assert fs[3..6] == rest[..3] && fs[6..] == rest[3..];
      ExportsAreThere(q.(entries := [], drain := false), fs[6..], q);
      assert q.entries[0..] == q.entries;
    }
  }

  // ---- From the shape to an accepted message ---------------------------------------------------

  lemma HeaderIsRead(q: Request, rest: seq<Field>)
    requires ValidRequest(q)
    ensures Staged(0, BLANK, Header(q) + rest, 1) == Staged(1, Named(q), rest, 4)
  {
    UuidIsCopyable(q.requestId);
    UuidIsCopyable(q.bootId);
    var three := [Bytes(3, q.bootId)] + rest;
    var two := [Bytes(2, q.requestId)] + three;
    assert Header(q) + rest == [Varint(1, 1)] + two;
    StagedSets(0, BLANK, Varint(1, 1), two, 1, (1, BLANK));
    StagedSets(1, BLANK, Bytes(2, q.requestId), three, 2, (1, BLANK.(requestId := q.requestId)));
    StagedSets(1, BLANK.(requestId := q.requestId), Bytes(3, q.bootId), rest, 3, (1, Named(q)));
  }

  lemma SettingsAreRead(q: Request, rest: seq<Field>)
    requires |q.digest| == DIGEST_BYTES
    ensures Staged(1, Named(q),
                   [Varint(4, q.featureGeneration), Varint(5, q.exportGeneration), Bytes(6, q.digest)] + rest, 4)
      == Staged(1, q.(entries := [], drain := false), rest, 7)
  {
    var four, five, six := Varint(4, q.featureGeneration), Varint(5, q.exportGeneration), Bytes(6, q.digest);
    var q4 := Named(q).(featureGeneration := q.featureGeneration);
    var q5 := q4.(exportGeneration := q.exportGeneration);
    assert [four, five, six] + rest == [four] + ([five] + ([six] + rest));
    StagedSets(1, Named(q), four, [five] + ([six] + rest), 4, (1, q4));
    StagedSets(1, q4, five, [six] + rest, 5, (1, q5));
    StagedSets(1, q5, six, rest, 6, (1, q.(entries := [], drain := false)));
  }

  lemma {:induction false} ExportsAreRead(q: Request, fs: seq<Field>, entries: seq<Entry>)
    requires ExportsOf(fs, entries) && ValidEntries(q.entries + entries)
    ensures Staged(1, q, fs, 7) == Some((1, q.(entries := q.entries + entries)))
    decreases |fs|
  {
    if fs == [] {
      assert q.entries + entries == q.entries;
    } else {
      var e, all := entries[0], q.entries + entries;
      var n := |q.entries|;
      assert all[n] == e && q.entries + [e] + entries[1..] == all;
      assert n > 0 ==> all[n - 1] == q.entries[n - 1] && all[n - 1].exportId < all[n].exportId;
      assert ExportsOf(fs[1..], entries[1..]);
      ExportsAreRead(q.(entries := q.entries + [e]), fs[1..], entries[1..]);
    }
  }

  lemma DrainIsRead(q: Request, zeros: seq<Field>)
    requires ValidRequest(q) && q.drain && Zeros(zeros)
    ensures Staged(1, Named(q), zeros + [Varint(8, 1)], 4) == Some((1, q))
  {
    var mark := [Varint(8, 1)];
    var five := if zeros != [] && zeros[|zeros| - 1] == Varint(5, 0) then [Varint(5, 0)] + mark else mark;
    MarkIsRead(q);
    if five == mark {
      StagedSkips(1, Named(q), five, 5);
    } else {
      StagedSets(1, Named(q), Varint(5, 0), mark, 5, (1, Named(q)));
    }
    if zeros != [] && zeros[0] == Varint(4, 0) {
      assert zeros + mark == [Varint(4, 0)] + five;
      StagedSets(1, Named(q), Varint(4, 0), five, 4, (1, Named(q)));
    } else {
      assert zeros + mark == five;
      StagedSkips(1, Named(q), five, 4);
    }
  }

  lemma MarkIsRead(q: Request)
    requires ValidRequest(q) && q.drain
    ensures Staged(1, Named(q), [Varint(8, 1)], 6) == Some((1, q))
  {
    var mark := [Varint(8, 1)];
    StagedSkips(1, Named(q), mark, 6);
    StagedSkips(1, Named(q), mark, 7);
    assert mark[1..] == [];
  }

  lemma ShapeIsAccepted(fs: seq<Field>, q: Request)
    requires RequestShape(q, fs) && ValidRequest(q)
    ensures Staged(0, BLANK, fs, 1) == Some((1, q))
  {
    var rest := fs[3..];
    assert fs == Header(q) + rest;
    HeaderIsRead(q, rest);
    if q.drain {
      assert rest == fs[3..|fs| - 1] + [Varint(8, 1)];
      DrainIsRead(q, fs[3..|fs| - 1]);
    } else {
      assert rest == fs[3..6] + fs[6..];
      SettingsAreRead(q, fs[6..]);
      assert [] + q.entries == q.entries;
      ExportsAreRead(q.(entries := [], drain := false), fs[6..], q.entries);
    }
  }

  /**
   * A message parses to a request iff nothing is left unread, the request is valid, and
   * the fields read are the request's: header, then settings and one export for each
   * entry, or then at most zero generations and the drain mark.
   */
  lemma ParseRequestIff(data: seq<Byte>, q: Request)
    ensures ParseRequest(data) == Some(q)
      <==> ReadAll(data).1 == [] && ValidRequest(q) && RequestShape(q, ReadAll(data).0)
  {
    var (fs, unread) := ReadAll(data);
    ReadAllIsOrdered(data, 0);
    FoldIsStaged(EMPTY_REQUEST, fs, 1, 0);
    if ParseRequest(data) == Some(q) {
      ParsedIsValid(data);
      AcceptedShape(fs, q);
    }
    if unread == [] && ValidRequest(q) && RequestShape(q, fs) {
      ShapeIsAccepted(fs, q);
    }
  }
}
