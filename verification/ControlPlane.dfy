/**
 * The manifest control plane of the NFS adapter
 * (adapters/nfs/ganesha-fsal-filebelt/filebelt_control.c): parsing a control
 * request, encoding its readback, installing or draining the manifest, and
 * looking exports up in it.
 */
module ControlPlane {
  import opened Prelude
  import opened Protobuf
  import opened Wire
  import opened ManifestEntry

  const MAX_EXPORTS: nat := 1000
  const DIGEST_BYTES: nat := 32
  const ENTRY_STORAGE: nat := 160

  datatype Request = Request(
    requestId: seq<Byte>, bootId: seq<Byte>, featureGeneration: nat, exportGeneration: nat,
    digest: seq<Byte>, entries: seq<Entry>, drain: bool)

  predicate Ascending(entries: seq<Entry>) {
    forall i, j | 0 <= i < j < |entries| :: entries[i].exportId < entries[j].exportId
  }

  predicate ValidEntries(entries: seq<Entry>) {
    |entries| <= MAX_EXPORTS && Ascending(entries) && forall e | e in entries :: ValidEntry(e)
  }

  predicate ValidRequest(q: Request) {
    && CanonicalUuid(q.requestId) && CanonicalUuid(q.bootId)
    && ValidEntries(q.entries)
    && if q.drain then q.featureGeneration == 0 && q.exportGeneration == 0 && q.digest == [] && q.entries == []
       else
         && 0 < q.featureGeneration < U64 && 0 < q.exportGeneration < U64 && |q.digest| == DIGEST_BYTES
         && forall e | e in q.entries :: e.generation <= q.exportGeneration
  }

  // ---- Parsing a request -----------------------------------------------------------

  /** Which field numbers were seen (export fields, numbered 7, repeat), and the request so far. */
  datatype RequestState = RequestState(seen: seq<bool>, format: nat, request: Request)

  const EMPTY_REQUEST: RequestState :=
    RequestState([false, false, false, false, false, false, false, false, false], 0,
                 Request([], [], 0, 0, [], [], false))

  /** append_export: room for one more, with a larger identifier. */
  predicate Appendable(entries: seq<Entry>, e: Entry) {
    |entries| < MAX_EXPORTS && (entries != [] ==> entries[|entries| - 1].exportId < e.exportId)
  }

  /** What one field sets, in the wire format and in the request. */
  function SetField(format: nat, q: Request, f: Field): Option<(nat, Request)> {
    match f
    case Varint(number, value) =>
      if number == 1 && value < U32 then Some((value, q))
      else if number == 4 then Some((format, q.(featureGeneration := value)))
      else if number == 5 then Some((format, q.(exportGeneration := value)))
      else if number == 8 && value == 1 then Some((format, q.(drain := true)))
      else None
    case Bytes(number, bytes) =>
      if number == 2 && Copyable(bytes, UUID_BYTES) then Some((format, q.(requestId := bytes)))
      else if number == 3 && Copyable(bytes, UUID_BYTES) then Some((format, q.(bootId := bytes)))
      else if number == 6 && |bytes| == DIGEST_BYTES then Some((format, q.(digest := bytes)))
      else if number == 7 then
        match ParseExport(bytes)
        case None => None
        case Some(e) => if Appendable(q.entries, e) then Some((format, q.(entries := q.entries + [e]))) else None
      else None
  }

  /** The switch in parse_request on one field; all but the exports may be seen once. */
  function StepRequest(st: RequestState, f: Field): Option<RequestState> {
    if f.number != 7 && (!(1 <= f.number <= 8 < |st.seen|) || st.seen[f.number]) then None
    else
      match SetField(st.format, st.request, f)
      case None => None
      case Some((format, q)) =>
        Some(RequestState(if f.number == 7 then st.seen else st.seen[f.number := true], format, q))
  }

  function FoldRequest(st: RequestState, fs: seq<Field>): Option<RequestState>
    decreases |fs|
  {
    if fs == [] then Some(st) else
      match StepRequest(st, fs[0])
      case None => None
      case Some(next) => FoldRequest(next, fs[1..])
  }

  function FinishRequest(st: RequestState, unread: seq<Byte>): Option<Request> {
    var q := st.request;
    if unread != [] || st.format != 1 || !CanonicalUuid(q.requestId) || !CanonicalUuid(q.bootId) then None
    else if q.drain && (q.featureGeneration != 0 || q.exportGeneration != 0 || q.digest != [] || q.entries != [])
    then None
    else if !q.drain && (q.featureGeneration == 0 || q.exportGeneration == 0 || q.digest == []) then None
    else if exists e | e in q.entries :: e.generation > q.exportGeneration then None
    else Some(q)
  }

  function ParseRequest(data: seq<Byte>): Option<Request> {
    var (fs, unread) := ReadAll(data);
    match FoldRequest(EMPTY_REQUEST, fs)
    case None => None
    case Some(st) => FinishRequest(st, unread)
  }

  /** The source's loop. */
  method ParseRequestLoop(data: seq<Byte>) returns (r: Option<Request>)
    ensures r == ParseRequest(data)
  {
    var cursor := new Cursor(data);
    var st := EMPTY_REQUEST;
    while cursor.offset < |cursor.data|
      invariant cursor.Valid() && cursor.data == data
      invariant ReadAll(data).1 == ReadAll(cursor.Unread(), cursor.previousField).1
      invariant FoldRequest(EMPTY_REQUEST, ReadAll(data).0)
        == FoldRequest(st, ReadAll(cursor.Unread(), cursor.previousField).0)
      decreases |data| - cursor.offset
    {
      ghost var unread, previous := cursor.Unread(), cursor.previousField;
      var ok, field := cursor.Next();
      if !ok {
        assert ReadAll(unread, previous) == ([], cursor.Unread());
        var finished := cursor.Finished();
        return if finished then FinishRequest(st, []) else None;
      }
      ReadAllCons(unread, previous);
      match StepRequest(st, field)
      case None => return None;
      case Some(next) => st := next;
    }
    r := FinishRequest(st, []);
  }

  // ---- Every accepted request is valid ------------------------------------------------

  predicate PartlyValid(q: Request) {
    && ValidEntries(q.entries)
    && q.featureGeneration < U64 && q.exportGeneration < U64
    && (q.digest == [] || |q.digest| == DIGEST_BYTES)
  }

  lemma StepKeepsValid(st: RequestState, f: Field)
    requires PartlyValid(st.request) && StepRequest(st, f).Some?
    requires f.Varint? ==> f.value < U64
    ensures PartlyValid(StepRequest(st, f).value.request)
  {
    if f.number == 7 {
      var e := ParseExport(f.bytes).value;
      ParseExportIffOwn(f.bytes, e);
      AppendKeepsValid(st.request.entries, e);
    }
  }

  lemma AppendKeepsValid(entries: seq<Entry>, e: Entry)
    requires ValidEntries(entries) && ValidEntry(e) && Appendable(entries, e)
    ensures ValidEntries(entries + [e])
  {
  }

  lemma {:induction false} FoldKeepsValid(st: RequestState, fs: seq<Field>, previous: nat)
    requires PartlyValid(st.request) && Ordered(fs, previous) && FoldRequest(st, fs).Some?
    ensures PartlyValid(FoldRequest(st, fs).value.request)
    decreases |fs|
  {
    if fs != [] {
      StepKeepsValid(st, fs[0]);
      FoldKeepsValid(StepRequest(st, fs[0]).value, fs[1..], fs[0].number);
    }
  }

  lemma ParsedIsValid(data: seq<Byte>)
    ensures ParseRequest(data).Some? ==> ValidRequest(ParseRequest(data).value)
  {
    if ParseRequest(data).Some? {
      ReadAllIsOrdered(data, 0);
      FoldKeepsValid(EMPTY_REQUEST, ReadAll(data).0, 0);
    }
  }

  // ---- Every valid request can be sent ---------------------------------------------------

  function ExportList(entries: seq<Entry>): seq<Field> {
    if entries == [] then []
    else [Bytes(7, EncodeFields(ExportFields(entries[0])))] + ExportList(entries[1..])
  }

  function Settings(q: Request): seq<Field> {
    if q.drain then [Varint(8, 1)]
    else [Varint(4, q.featureGeneration), Varint(5, q.exportGeneration), Bytes(6, q.digest)]
  }

  function RequestFields(q: Request): seq<Field> {
    [Varint(1, 1), Bytes(2, q.requestId), Bytes(3, q.bootId)] + Settings(q) + ExportList(q.entries)
  }

  lemma {:induction false} FoldRequestAppend(st: RequestState, a: seq<Field>, b: seq<Field>)
    ensures FoldRequest(st, a + b) ==
      match FoldRequest(st, a) case None => None case Some(next) => FoldRequest(next, b)
    decreases |a|
  {
    if a == [] {
      assert a + b == b;
    } else {
      assert (a + b)[1..] == a[1..] + b;
      if StepRequest(st, a[0]).Some? {
        FoldRequestAppend(StepRequest(st, a[0]).value, a[1..], b);
      }
    }
  }

  lemma FieldLength(f: Field)
    requires f.number < 16 && (f.Varint? ==> f.value < U64) && (f.Bytes? ==> |f.bytes| < 16384)
    ensures |EncodeField(f)| <= if f.Varint? then 11 else 3 + |f.bytes|
    ensures f.Bytes? && |f.bytes| < 128 ==> |EncodeField(f)| == 2 + |f.bytes|
  {
    SmallVarint(f.Key());
    match f
    case Varint(_, value) => U64VarintLength(value);
    case Bytes(_, bytes) => SmallVarint(|bytes|);
  }

  /** Fields of at most 104 bytes. */
  predicate Short(f: Field) { |EncodeField(f)| <= 104 }

  lemma {:induction false} FieldsLength(fs: seq<Field>)
    requires forall i | 0 <= i < |fs| :: Short(fs[i])
    ensures |EncodeFields(fs)| <= 104 * |fs|
  {
    if fs != [] {
      assert Short(fs[0]);
      FieldsLength(fs[1..]);
    }
  }

  lemma ExportLength(e: Entry)
    requires ValidEntry(e)
    ensures Canonical(ExportFields(e))
    ensures |EncodeFields(ExportFields(e))| < 1000
  {
    var fs := ExportFields(e);
    forall i | 0 <= i < |fs| ensures Short(fs[i]) {
      FieldLength(fs[i]);
    }
    FieldsLength(fs);
    ExportIsCanonical(e, 0);
    assert fs[0..] == fs;
  }

  lemma {:induction false} ExportIsCanonical(e: Entry, k: nat)
    requires ValidEntry(e) && k <= |ExportFields(e)|
    ensures Canonical(ExportFields(e)[k..], k)
    decreases |ExportFields(e)| - k
  {
    var fs := ExportFields(e);
    if k < |fs| {
      assert fs[k..][1..] == fs[k + 1..];
      ExportIsCanonical(e, k + 1);
    }
  }

  lemma {:induction false} ExportListIsCanonical(entries: seq<Entry>)
    requires forall e | e in entries :: ValidEntry(e)
    ensures Canonical(ExportList(entries), 6) && Canonical(ExportList(entries), 7)
  {
    if entries != [] {
      assert entries[0] in entries;
      ExportLength(entries[0]);
      ExportListIsCanonical(entries[1..]);
    }
  }

  lemma CanonicalCons(f: Field, fs: seq<Field>, previous: nat)
    requires Writable(f) && f.number >= previous && Canonical(fs, f.number)
    ensures Canonical([f] + fs, previous)
  {
    assert ([f] + fs)[1..] == fs;
  }

  lemma RequestIsCanonical(q: Request)
    requires ValidRequest(q)
    ensures Canonical(RequestFields(q))
  {
    var exports := ExportList(q.entries);
    ExportListIsCanonical(q.entries);
    var tail := Settings(q) + exports;
    if q.drain {
      CanonicalCons(Varint(8, 1), [], 3);
      assert tail == [Varint(8, 1)] + [];
    } else {
      CanonicalCons(Bytes(6, q.digest), exports, 5);
      CanonicalCons(Varint(5, q.exportGeneration), [Bytes(6, q.digest)] + exports, 4);
      var later := [Varint(5, q.exportGeneration)] + ([Bytes(6, q.digest)] + exports);
      CanonicalCons(Varint(4, q.featureGeneration), later, 3);
      assert tail == [Varint(4, q.featureGeneration)] + later;
    }
    CanonicalCons(Bytes(3, q.bootId), tail, 2);
    CanonicalCons(Bytes(2, q.requestId), [Bytes(3, q.bootId)] + tail, 1);
    var named := [Bytes(2, q.requestId)] + ([Bytes(3, q.bootId)] + tail);
    CanonicalCons(Varint(1, 1), named, 0);
    assert RequestFields(q) == [Varint(1, 1)] + named;
  }

  lemma {:induction false} FoldExportList(st: RequestState, entries: seq<Entry>)
    requires ValidEntries(st.request.entries + entries)
    ensures FoldRequest(st, ExportList(entries))
      == Some(st.(request := st.request.(entries := st.request.entries + entries)))
    decreases |entries|
  {
    if entries == [] {
      assert st.request.entries + entries == st.request.entries;
    } else {
      var e, all := entries[0], st.request.entries + entries;
      assert all[|st.request.entries|] == e;
      assert e in all && st.request.entries + [e] + entries[1..] == all;
      var next := st.(request := st.request.(entries := st.request.entries + [e]));
      assert Appendable(st.request.entries, e) by {
        var n := |st.request.entries|;
        assert n > 0 ==> all[n - 1] == st.request.entries[n - 1] && all[n - 1].exportId < all[n].exportId;
      }
      FoldExportList(next, entries[1..]);
      StepOwnExport(st, e);
      assert ExportList(entries)[1..] == ExportList(entries[1..]);
    }
  }

  lemma StepOwnExport(st: RequestState, e: Entry)
    requires ValidEntry(e) && Appendable(st.request.entries, e)
    ensures StepRequest(st, Bytes(7, EncodeFields(ExportFields(e))))
      == Some(st.(request := st.request.(entries := st.request.entries + [e])))
  {
    ExportLength(e);
    RoundTrip(ExportFields(e));
    ParseExportIffOwn(EncodeFields(ExportFields(e)), e);
  }

  lemma UuidIsCopyable(s: seq<Byte>)
    requires CanonicalUuid(s)
    ensures Copyable(s, UUID_BYTES)
  {
    assert forall i | 0 <= i < |s| :: s[i] != 0;
  }

  lemma FoldThree(st: RequestState, a: Field, b: Field, c: Field,
                  st1: RequestState, st2: RequestState, st3: RequestState)
    requires StepRequest(st, a) == Some(st1) && StepRequest(st1, b) == Some(st2) && StepRequest(st2, c) == Some(st3)
    ensures FoldRequest(st, [a, b, c]) == Some(st3)
  {
    assert [a, b, c][1..] == [b, c] && [b, c][1..] == [c] && [c][1..] == [];
    assert FoldRequest(st2, [c]) == Some(st3);
    assert FoldRequest(st1, [b, c]) == Some(st3);
  }

  /** Any valid request, sent in its canonical form, is parsed to itself. */
  lemma RequestRoundTrip(q: Request)
    requires ValidRequest(q)
    ensures ParseRequest(EncodeFields(RequestFields(q))) == Some(q)
  {
    RequestIsCanonical(q);
    RoundTrip(RequestFields(q));
    var st := FoldRequestFields(q);
  }

  lemma FoldRequestFields(q: Request) returns (st: RequestState)
    requires ValidRequest(q)
    ensures FoldRequest(EMPTY_REQUEST, RequestFields(q)) == Some(st)
    ensures st.format == 1 && st.request == q
  {
    var header := [Varint(1, 1), Bytes(2, q.requestId), Bytes(3, q.bootId)];
    var named := FoldHeader(q);
    var configured := FoldSettings(q, named.seen, named.request);
    FoldRequestAppend(EMPTY_REQUEST, header, Settings(q));
    FoldRequestAppend(EMPTY_REQUEST, header + Settings(q), ExportList(q.entries));
    assert [] + q.entries == q.entries;
    FoldExportList(configured, q.entries);
    st := configured.(request := q);
  }

  lemma FoldHeader(q: Request) returns (st: RequestState)
    requires ValidRequest(q)
    ensures FoldRequest(EMPTY_REQUEST, [Varint(1, 1), Bytes(2, q.requestId), Bytes(3, q.bootId)]) == Some(st)
    ensures |st.seen| == 9 && !st.seen[4] && !st.seen[5] && !st.seen[6] && !st.seen[8] && st.format == 1
    ensures st.request == Request(q.requestId, q.bootId, 0, 0, [], [], false)
  {
    UuidIsCopyable(q.requestId);
    UuidIsCopyable(q.bootId);
    var seen0, q1 := EMPTY_REQUEST.seen, EMPTY_REQUEST.request;
    var q2 := q1.(requestId := q.requestId);
    st := RequestState(seen0[1 := true][2 := true][3 := true], 1, q2.(bootId := q.bootId));
    FoldThree(EMPTY_REQUEST, Varint(1, 1), Bytes(2, q.requestId), Bytes(3, q.bootId),
              RequestState(seen0[1 := true], 1, q1), RequestState(seen0[1 := true][2 := true], 1, q2), st);
  }

  lemma FoldSettings(q: Request, seen: seq<bool>, named: Request) returns (st: RequestState)
    requires ValidRequest(q)
    requires |seen| == 9 && !seen[4] && !seen[5] && !seen[6] && !seen[8]
    requires named == Request(q.requestId, q.bootId, 0, 0, [], [], false)
    ensures FoldRequest(RequestState(seen, 1, named), Settings(q)) == Some(st)
    ensures st.format == 1 && st.request == q.(entries := [])
  {
    var st0 := RequestState(seen, 1, named);
    if q.drain {
      st := RequestState(seen[8 := true], 1, named.(drain := true));
      assert [Varint(8, 1)][1..] == [];
      assert StepRequest(st0, Varint(8, 1)) == Some(st);
    } else {
      var n1 := named.(featureGeneration := q.featureGeneration);
      var n2 := n1.(exportGeneration := q.exportGeneration);
      st := RequestState(seen[4 := true][5 := true][6 := true], 1, n2.(digest := q.digest));
      FoldThree(st0, Varint(4, q.featureGeneration), Varint(5, q.exportGeneration), Bytes(6, q.digest),
                RequestState(seen[4 := true], 1, n1), RequestState(seen[4 := true][5 := true], 1, n2), st);
    }
  }

  // ---- The readback ----------------------------------------------------------------------------

  function ReadbackFields(e: Entry): seq<Field> {
    [Varint(1, e.exportId), Varint(2, e.generation), Bytes(3, e.rootHandle)]
  }

  function ReadbackList(entries: seq<Entry>): seq<Field> {
    if entries == [] then []
    else ReadbackList(entries[..|entries| - 1]) + [Bytes(4, EncodeFields(ReadbackFields(entries[|entries| - 1])))]
  }

  /** A reply names the request and reads back every export it installs. */
  function ResponseFields(q: Request): seq<Field> {
    [Varint(1, 1), Bytes(2, q.requestId), Varint(3, 1)] + ReadbackList(q.entries)
  }

  lemma EncodeThree(a: Field, b: Field, c: Field)
    ensures EncodeFields([a, b, c]) == EncodeField(a) + EncodeField(b) + EncodeField(c)
  {
    assert [a, b, c][1..] == [b, c] && [b, c][1..] == [c] && [c][1..] == [];
    assert EncodeFields([c]) == EncodeField(c) + [];
  }

  lemma ReadbackLength(e: Entry)
    requires ValidEntry(e)
    ensures |EncodeFields(ReadbackFields(e))| <= 125
    ensures |EncodeField(Bytes(4, EncodeFields(ReadbackFields(e))))| <= 127
  {
    EncodeThree(Varint(1, e.exportId), Varint(2, e.generation), Bytes(3, e.rootHandle));
    FieldLength(Varint(1, e.exportId));
    FieldLength(Varint(2, e.generation));
    FieldLength(Bytes(3, e.rootHandle));
    FieldLength(Bytes(4, EncodeFields(ReadbackFields(e))));
  }

  lemma {:induction false} ReadbackListLength(entries: seq<Entry>)
    requires forall e | e in entries :: ValidEntry(e)
    ensures |EncodeFields(ReadbackList(entries))| <= 127 * |entries|
    ensures forall f | f in ReadbackList(entries) :: Writable(f) && f.number == 4
  {
    if entries != [] {
      var front, last := entries[..|entries| - 1], entries[|entries| - 1];
      ReadbackListLength(front);
      ReadbackLength(last);
      EncodeFieldsSnoc(ReadbackList(front), Bytes(4, EncodeFields(ReadbackFields(last))));
    }
  }

  /** The readback of any parsed request fits the frame it is written to. */
  lemma ResponseFits(q: Request)
    requires ValidRequest(q)
    ensures |EncodeFields(ResponseFields(q))| <= 42 + 127 * |q.entries| < MAX_FRAME_BYTES
  {
    var head := [Varint(1, 1), Bytes(2, q.requestId), Varint(3, 1)];
    EncodeFieldsAppend(head, ReadbackList(q.entries));
    EncodeThree(head[0], head[1], head[2]);
    FieldLength(Bytes(2, q.requestId));
    ReadbackListLength(q.entries);
  }

  lemma ResponseIsWritable(q: Request)
    requires ValidRequest(q)
    ensures AllFit(ResponseFields(q), false, 0, MAX_FRAME_BYTES)
  {
    ResponseFits(q);
    ReadbackListLength(q.entries);
  }

  lemma ReadbackIsWritable(e: Entry)
    requires ValidEntry(e)
    ensures AllFit(ReadbackFields(e), false, 0, ENTRY_STORAGE)
  {
    ReadbackLength(e);
  }

  /** One entry of the readback, written to its own small buffer first. */
  method EncodeEntry(e: Entry) returns (ok: bool, bytes: seq<Byte>)
    requires ValidEntry(e)
    ensures ok && bytes == EncodeFields(ReadbackFields(e))
  {
    ReadbackIsWritable(e);
    ghost var a, b, c := Varint(1, e.exportId), Varint(2, e.generation), Bytes(3, e.rootHandle);
    assert ReadbackFields(e) == [a] + [b, c] == [a, b] + [c];
    assert [] + [a] == [a] && [a] + [b] == [a, b] && [a, b] + [c] == ReadbackFields(e);
    AllFitPrefix([a], [b, c], false, 0, ENTRY_STORAGE);
    AllFitPrefix([a, b], [c], false, 0, ENTRY_STORAGE);
    var storage := new Byte[ENTRY_STORAGE];
    var entry := new Buffer(storage);
    ok := PutTracked(entry, PutUint64(1, e.exportId), [], false, []);
    if ok { ok := PutTracked(entry, PutUint64(2, e.generation), [a], false, []); }
    if ok { ok := PutTracked(entry, PutBytes(3, e.rootHandle), [a, b], false, []); }
    bytes := entry.data[..entry.length];
  }

  /** encode_response: for a valid request it always succeeds, with exactly the readback. */
  method EncodeResponse(q: Request) returns (ok: bool, bytes: seq<Byte>)
    requires ValidRequest(q)
    ensures ok && bytes == EncodeFields(ResponseFields(q))
  {
    ghost var all := ResponseFields(q);
    ResponseIsWritable(q);
    ReadbackCount(q.entries);
    var storage := new Byte[MAX_FRAME_BYTES];
    var response := new Buffer(storage);
    ok := PutAll(response, q);
    if !ok { return false, []; }
    assert [] + EncodeFields(all) == EncodeFields(all);
    ok, bytes := !response.failed, response.data[..response.length];
  }

  method PutAll(response: Buffer, q: Request) returns (ok: bool)
    requires ValidRequest(q) && |ResponseFields(q)| == 3 + |q.entries|
    requires Tracks(response, [], false, []) && response.data.Length == MAX_FRAME_BYTES
    modifies response, response.data
    ensures ok && Tracks(response, ResponseFields(q), false, [])
  {
    ok := PutHead(response, q);
    if !ok { return false; }
    for index := 0 to |q.entries|
      invariant ok && Tracks(response, ResponseFields(q)[..3 + index], false, [])
    {
      ok := PutEntry(response, q, index);
      if !ok { return false; }
    }
    assert ResponseFields(q)[..3 + |q.entries|] == ResponseFields(q);
  }

  method PutHead(response: Buffer, q: Request) returns (ok: bool)
    requires Tracks(response, [], false, []) && ValidRequest(q) && response.data.Length == MAX_FRAME_BYTES
    modifies response, response.data
    ensures ok && Tracks(response, ResponseFields(q)[..3], false, [])
  {
    ghost var all := ResponseFields(q);
    ghost var a, b, c := Varint(1, 1), Bytes(2, q.requestId), Varint(3, 1);
    ResponseIsWritable(q);
    UuidIsCopyable(q.requestId);
    AllFitTake(all, 1, MAX_FRAME_BYTES);
    AllFitTake(all, 2, MAX_FRAME_BYTES);
    AllFitTake(all, 3, MAX_FRAME_BYTES);
    assert all[..1] == [] + [a] == [a] && all[..2] == [a] + [b] == [a, b] && all[..3] == [a, b] + [c];
    ok := PutTracked(response, PutUint64(1, 1), [], false, []);
    if ok { ok := PutTracked(response, PutString(2, Some(q.requestId)), [a], false, []); }
    if ok { ok := PutTracked(response, PutBool(3, true), [a, b], false, []); }
  }

  method PutEntry(response: Buffer, q: Request, index: nat) returns (ok: bool)
    requires ValidRequest(q) && index < |q.entries| && |ResponseFields(q)| == 3 + |q.entries|
    requires Tracks(response, ResponseFields(q)[..3 + index], false, [])
    requires response.data.Length == MAX_FRAME_BYTES
    modifies response, response.data
    ensures ok && Tracks(response, ResponseFields(q)[..4 + index], false, [])
  {
    var entryOk, entry := EncodeEntry(q.entries[index]);
    if !entryOk { return false; }
    ReadbackAt(q, index);
    ResponseIsWritable(q);
    AllFitTake(ResponseFields(q), 4 + index, MAX_FRAME_BYTES);
    ok := PutTracked(response, PutBytes(4, entry), ResponseFields(q)[..3 + index], false, []);
  }

  lemma AllFitTake(all: seq<Field>, n: nat, capacity: nat)
    requires AllFit(all, false, 0, capacity) && n <= |all|
    ensures AllFit(all[..n], false, 0, capacity)
  {
    assert all[..n] + all[n..] == all;
    AllFitPrefix(all[..n], all[n..], false, 0, capacity);
  }

  lemma {:induction false} ReadbackCount(entries: seq<Entry>)
    ensures |ReadbackList(entries)| == |entries|
  {
    if entries != [] { ReadbackCount(entries[..|entries| - 1]); }
  }

  lemma {:induction false} ReadbackElement(entries: seq<Entry>, index: nat)
    requires index < |entries|
    ensures |ReadbackList(entries)| == |entries|
    ensures ReadbackList(entries)[index] == Bytes(4, EncodeFields(ReadbackFields(entries[index])))
    decreases |entries|
  {
    var front := entries[..|entries| - 1];
    ReadbackCount(front);
    if index < |front| { ReadbackElement(front, index); }
  }

  lemma ReadbackAt(q: Request, index: nat)
    requires index < |q.entries|
    ensures var all := ResponseFields(q);
      && |all| == 3 + |q.entries|
      && all[..4 + index] == all[..3 + index] + [Bytes(4, EncodeFields(ReadbackFields(q.entries[index])))]
  {
    ReadbackElement(q.entries, index);
  }

  /** The requester can check the answer: it parses to one record per export, in manifest order. */
  lemma ReadbackIsExact(q: Request, index: nat)
    requires ValidRequest(q) && index < |q.entries|
    ensures ReadAll(EncodeFields(ResponseFields(q))) == (ResponseFields(q), [])
    ensures |ResponseFields(q)| == 3 + |q.entries|
    ensures ResponseFields(q)[..3] == [Varint(1, 1), Bytes(2, q.requestId), Varint(3, 1)]
    ensures ResponseFields(q)[3 + index].Bytes? && ResponseFields(q)[3 + index].number == 4
    ensures var e := q.entries[index];
      ReadAll(ResponseFields(q)[3 + index].bytes) ==
      ([Varint(1, e.exportId), Varint(2, e.generation), Bytes(3, e.rootHandle)], [])
  {
    ResponseIsReadBack(q);
    ElementIsReadBack(q, index);
  }

  lemma ResponseIsReadBack(q: Request)
    requires ValidRequest(q)
    ensures ReadAll(EncodeFields(ResponseFields(q))) == (ResponseFields(q), [])
  {
    ResponseIsCanonical(q);
    RoundTrip(ResponseFields(q));
  }

  lemma ElementIsReadBack(q: Request, index: nat)
    requires ValidRequest(q) && index < |q.entries|
    ensures |ResponseFields(q)| == 3 + |q.entries|
    ensures ResponseFields(q)[3 + index] == Bytes(4, EncodeFields(ReadbackFields(q.entries[index])))
    ensures ReadAll(ResponseFields(q)[3 + index].bytes) == (ReadbackFields(q.entries[index]), [])
  {
    ReadbackElement(q.entries, index);
    ReadbackIsCanonical(q.entries[index]);
    RoundTrip(ReadbackFields(q.entries[index]));
  }

  lemma ReadbackIsCanonical(e: Entry)
    requires ValidEntry(e)
    ensures Canonical(ReadbackFields(e))
  {
    var a, b, c := Varint(1, e.exportId), Varint(2, e.generation), Bytes(3, e.rootHandle);
    CanonicalCons(c, [], 2);
    var last := [c] + [];
    CanonicalCons(b, last, 1);
    var both := [b] + last;
    CanonicalCons(a, both, 0);
    assert ReadbackFields(e) == [a] + both;
  }

  lemma ResponseIsCanonical(q: Request)
    requires ValidRequest(q)
    ensures Canonical(ResponseFields(q))
  {
    var list := ReadbackList(q.entries);
    ReadbackListLength(q.entries);
    SameNumberIsCanonical(list, 3);
    var done := [Varint(3, 1)] + list;
    CanonicalCons(Varint(3, 1), list, 2);
    var named := [Bytes(2, q.requestId)] + done;
    CanonicalCons(Bytes(2, q.requestId), done, 1);
    CanonicalCons(Varint(1, 1), named, 0);
    assert ResponseFields(q) == [Varint(1, 1)] + named;
  }

  lemma {:induction false} SameNumberIsCanonical(fs: seq<Field>, previous: nat)
    requires previous <= 4 && forall f | f in fs :: Writable(f) && f.number == 4
    ensures Canonical(fs, previous)
    decreases |fs|
  {
    if fs != [] {
      assert fs[0] in fs && forall f | f in fs[1..] :: f in fs;
      SameNumberIsCanonical(fs[1..], 4);
    }
  }

  // ---- The installed manifest --------------------------------------------------------------------

  /** The manifest fields of the export, as one value. */
  datatype Installed = Installed(
    manifest: seq<Entry>, featureGeneration: nat, exportGeneration: nat, bootId: seq<Byte>)

  const NOTHING: Installed := Installed([], 0, 0, [])

  /** What every run of control packets keeps. */
  predicate Sound(s: Installed) {
    && ValidEntries(s.manifest)
    && (forall e | e in s.manifest :: e.generation <= s.exportGeneration)
    && (s.bootId == [] || CanonicalUuid(s.bootId))
    && (s.bootId == [] ==> s == NOTHING)
  }

  /** A drain is refused unless it names the boot that installed the manifest. */
  predicate Accepts(s: Installed, q: Request) {
    q.drain ==> s.bootId != [] && s.bootId == q.bootId
  }

  /** The state after a packet whose payload is given: only an accepted request changes it. */
  function After(s: Installed, payload: seq<Byte>): Installed {
    match ParseRequest(payload)
    case None => s
    case Some(q) =>
      if !Accepts(s, q) then s
      else Installed(q.entries, q.featureGeneration, q.exportGeneration, q.bootId)
  }

  function AfterAll(s: Installed, payloads: seq<seq<Byte>>): Installed {
    if payloads == [] then s
    else After(AfterAll(s, payloads[..|payloads| - 1]), payloads[|payloads| - 1])
  }

  lemma AfterIsSound(s: Installed, payload: seq<Byte>)
    requires Sound(s)
    ensures Sound(After(s, payload))
  {
    ParsedIsValid(payload);
  }

  /** Every sequence of control packets, accepted, refused or malformed, keeps the manifest sound. */
  lemma {:induction false} EveryRunIsSound(payloads: seq<seq<Byte>>)
    ensures Sound(AfterAll(NOTHING, payloads))
    decreases |payloads|
  {
    if payloads != [] {
      EveryRunIsSound(payloads[..|payloads| - 1]);
      AfterIsSound(AfterAll(NOTHING, payloads[..|payloads| - 1]), payloads[|payloads| - 1]);
    }
  }

  /** Any valid manifest can be installed from any state, and a drain by the same boot then empties it. */
  lemma InstallThenDrain(s: Installed, q: Request, d: Request)
    requires ValidRequest(q) && !q.drain && ValidRequest(d) && d.drain && d.bootId == q.bootId
    ensures var installed := After(s, EncodeFields(RequestFields(q)));
      && installed == Installed(q.entries, q.featureGeneration, q.exportGeneration, q.bootId)
      && After(installed, EncodeFields(RequestFields(d))) == Installed([], 0, 0, q.bootId)
  {
    RequestRoundTrip(q);
    RequestRoundTrip(d);
  }

  /** A drain that names another boot than the one that installed, or that finds none, changes nothing. */
  lemma OtherBootCannotDrain(s: Installed, d: Request)
    requires ValidRequest(d) && d.drain && (s.bootId == [] || s.bootId != d.bootId)
    ensures After(s, EncodeFields(RequestFields(d))) == s
  {
    RequestRoundTrip(d);
  }

  class Export {
    var manifest: seq<Entry>
    var featureGeneration: nat
    var exportGeneration: nat
    var bootId: seq<Byte>

    ghost function State(): Installed
      reads this
    {
      Installed(manifest, featureGeneration, exportGeneration, bootId)
    }

    constructor ()
      ensures State() == NOTHING
    {
      manifest, featureGeneration, exportGeneration, bootId := [], 0, 0, [];
    }

    /** install_request; `memory` is whether the copy of the entries can be allocated. */
    method Install(q: Request, memory: bool) returns (accepted: bool)
      modifies this
      ensures accepted == if q.drain then old(bootId) != [] && old(bootId) == q.bootId
                          else memory || q.entries == []
      ensures State() ==
        if !accepted then old(State())
        else if q.drain then Installed([], 0, 0, q.bootId)
        else Installed(q.entries, q.featureGeneration, q.exportGeneration, q.bootId)
    {
      if !q.drain && q.entries != [] && !memory { return false; }
      if q.drain && (bootId == [] || bootId != q.bootId) { return false; }
      manifest := if q.drain then [] else q.entries;
      featureGeneration := if q.drain then 0 else q.featureGeneration;
      exportGeneration := if q.drain then 0 else q.exportGeneration;
      bootId := q.bootId;
      return true;
    }

    /**
     * serve_control_packet after the peer is authenticated.  A packet that is
     * not answered changed nothing; an answered one left exactly the state of
     * its request, and the answer is the framed readback of that request.
     */
    method ServePacket(packet: seq<Byte>, memory: bool) returns (answer: Option<seq<Byte>>)
      requires Sound(State()) && |packet| <= MAX_FRAME_BYTES + 4
      modifies this
      ensures Sound(State())
      ensures answer.None? ==> State() == old(State())
      ensures answer.Some? ==>
        && |packet| >= 4 && FrameLength(packet) == |packet| - 4
        && State() == After(old(State()), packet[4..])
        && ParseRequest(packet[4..]).Some?
        && var reply := EncodeFields(ResponseFields(ParseRequest(packet[4..]).value));
           && |answer.value| >= 4 && answer.value[4..] == reply && FrameLength(answer.value) == |reply|
      // With memory, a well-formed packet is answered iff its request is accepted.
      ensures memory && |packet| >= 4 && FrameLength(packet) == |packet| - 4 ==>
        (answer.Some? <==>
          var q := ParseRequest(packet[4..]); q.Some? && Accepts(old(State()), q.value))
    {
      if |packet| < 4 || FrameLength(packet) > MAX_FRAME_BYTES || FrameLength(packet) != |packet| - 4 {
        return None;
      }
      ParsedIsValid(packet[4..]);
      AfterIsSound(State(), packet[4..]);
      var request := ParseRequestLoop(packet[4..]);
      if request.None? { return None; }
      ResponseFits(request.value);
      var encoded, reply := EncodeResponse(request.value);
      if !encoded { return None; }
      var accepted := Install(request.value, memory);
      if !accepted { return None; }
      return Some(FramePrefix(|reply|) + reply);
    }

    /** filebelt_manifest_by_export_id: the export with that identifier, if there is one. */
    method ByExportId(exportId: nat) returns (entry: Option<Entry>)
      requires Sound(State())
      ensures entry.Some? ==> entry.value in manifest && entry.value.exportId == exportId
      ensures forall e | e in manifest && e.exportId == exportId :: entry == Some(e)
    {
      for index := 0 to |manifest|
        invariant forall i | 0 <= i < index :: manifest[i].exportId != exportId
      {
        if manifest[index].exportId == exportId { return Some(manifest[index]); }
      }
      return None;
    }

    /** filebelt_manifest_by_name: the first export of that drive, if there is one. */
    method ByName(name: seq<Byte>) returns (entry: Option<Entry>)
      requires Sound(State())
      ensures entry.None? <==> forall e | e in manifest :: e.driveId != name
      ensures entry.Some? ==>
        && entry.value in manifest && entry.value.driveId == name
        && forall e | e in manifest && e.driveId == name :: entry.value.exportId <= e.exportId
    {
      for index := 0 to |manifest|
        invariant forall i | 0 <= i < index :: manifest[i].driveId != name
      {
        if manifest[index].driveId == name { return Some(manifest[index]); }
      }
      return None;
    }
  }

  /** The four-byte big-endian length in front of a frame. */
  function FrameLength(packet: seq<Byte>): nat
    requires |packet| >= 4
  {
    var a: nat, b: nat, c: nat, d: nat := packet[0], packet[1], packet[2], packet[3];
    a * 0x100_0000 + b * 0x1_0000 + c * 0x100 + d
  }

  function FramePrefix(length: nat): (prefix: seq<Byte>)
    requires length < U32
    ensures |prefix| == 4 && FrameLength(prefix) == length
  {
    var c := length / 0x100;
    var b := c / 0x100;
    var a := b / 0x100;
    assert length == c * 0x100 + length % 0x100 && c == b * 0x100 + c % 0x100 && b == a * 0x100 + b % 0x100;
    [a, b % 0x100, c % 0x100, length % 0x100]
  }
}
