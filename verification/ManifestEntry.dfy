/**
 * Exports of the NFS adapter's manifest and how one is read from its protobuf
 * encoding (adapters/nfs/ganesha-fsal-filebelt/filebelt_control.c,
 * parse_export).  ControlPlane holds the requests that carry them.
 */
module ManifestEntry {
  import opened Prelude
  import opened Protobuf
  import opened Wire

  const HANDLE_BYTES: nat := 101
  const UUID_BYTES: nat := 37
  const EXPORT_PATH_BYTES: nat := 47

  /** "/filebelt/" */
  const PATH_PREFIX: seq<Byte> := [47, 102, 105, 108, 101, 98, 101, 108, 116, 47]

  datatype Entry = Entry(
    exportId: nat, generation: nat, driveId: seq<Byte>, path: seq<Byte>, rootHandle: seq<Byte>, readOnly: bool)

  predicate LowerHex(b: Byte) { 48 <= b <= 57 || 97 <= b <= 102 }

  predicate CanonicalUuid(s: seq<Byte>) {
    |s| == UUID_BYTES - 1 &&
    forall i | 0 <= i < |s| ::
      if i == 8 || i == 13 || i == 18 || i == 23 then s[i] == 45 else LowerHex(s[i])
  }

  /** What every export in a parsed request, and so in the manifest, satisfies. */
  predicate ValidEntry(e: Entry) {
    && 0 < e.exportId < U64 && 0 < e.generation < U64
    && CanonicalUuid(e.driveId)
    && e.path == PATH_PREFIX + e.driveId
    && |e.rootHandle| == HANDLE_BYTES
  }

  // ---- Fields of an export ---------------------------------------------------------

  /** The field of an export that carries a given number. */
  function ExportField(e: Entry, number: nat): Field {
    match number
    case 1 => Varint(1, e.exportId)
    case 2 => Bytes(2, e.driveId)
    case 3 => Bytes(3, e.path)
    case 4 => Varint(4, e.generation)
    case 5 => Bytes(5, e.rootHandle)
    case _ => Varint(number, if e.readOnly then 1 else 0)
  }

  /** The one field list that denotes an export. */
  function ExportFields(e: Entry): seq<Field> {
    seq(if e.readOnly then 6 else 5, i requires 0 <= i => ExportField(e, i + 1))
  }

  /** copy_string: a non-empty byte string without zeros that fits with its terminator. */
  predicate Copyable(b: seq<Byte>, capacity: nat) {
    0 < |b| < capacity && 0 !in b
  }

  /** Which field numbers were seen, by number (index 0 is unused), and the export read so far. */
  datatype ExportState = ExportState(seen: seq<bool>, entry: Entry)

  const EMPTY_EXPORT: ExportState := ExportState([false, false, false, false, false, false, false],
                                                 Entry(0, 0, [], [], [], false))

  /** The switch in parse_export on one field: which fields are taken, and what they set. */
  predicate TakesExport(seen: seq<bool>, f: Field) {
    && 1 <= f.number <= 6 < |seen| && !seen[f.number]
    && match f
       case Varint(number, value) => number == 1 || number == 4 || (number == 6 && value == 1)
       case Bytes(number, bytes) =>
         || (number == 2 && Copyable(bytes, UUID_BYTES))
         || (number == 3 && Copyable(bytes, EXPORT_PATH_BYTES))
         || (number == 5 && |bytes| == HANDLE_BYTES)
  }

  function SetExport(e: Entry, f: Field): Entry {
    match f
    case Varint(number, value) =>
      if number == 1 then e.(exportId := value)
      else if number == 4 then e.(generation := value)
      else e.(readOnly := true)
    case Bytes(number, bytes) =>
      if number == 2 then e.(driveId := bytes)
      else if number == 3 then e.(path := bytes)
      else e.(rootHandle := bytes)
  }

  function StepExport(st: ExportState, f: Field): Option<ExportState> {
    if TakesExport(st.seen, f) then Some(ExportState(st.seen[f.number := true], SetExport(st.entry, f)))
    else None
  }

  function FoldExport(st: ExportState, fs: seq<Field>): Option<ExportState>
    decreases |fs|
  {
    if fs == [] then Some(st) else
      match StepExport(st, fs[0])
      case None => None
      case Some(next) => FoldExport(next, fs[1..])
  }

  /** Every number below n was seen. */
  predicate AllSeen(seen: seq<bool>, n: nat)
    requires n <= |seen|
  {
    forall i | 1 <= i < n :: seen[i]
  }

  function FinishExport(st: ExportState, unread: seq<Byte>): Option<Entry> {
    var e := st.entry;
    if unread == [] && |st.seen| == 7 && AllSeen(st.seen, 6) && e.exportId != 0 && e.generation != 0
       && CanonicalUuid(e.driveId) && e.path == PATH_PREFIX + e.driveId
    then Some(e) else None
  }

  function ParseExport(data: seq<Byte>): Option<Entry> {
    var (fs, unread) := ReadAll(data);
    match FoldExport(EMPTY_EXPORT, fs)
    case None => None
    case Some(st) => FinishExport(st, unread)
  }

  /** The source's loop. */
  method ParseExportLoop(data: seq<Byte>) returns (r: Option<Entry>)
    ensures r == ParseExport(data)
  {
    var cursor := new Cursor(data);
    var st := EMPTY_EXPORT;
    while cursor.offset < |cursor.data|
      invariant cursor.Valid() && cursor.data == data
      invariant ReadAll(data).1 == ReadAll(cursor.Unread(), cursor.previousField).1
      invariant FoldExport(EMPTY_EXPORT, ReadAll(data).0)
        == FoldExport(st, ReadAll(cursor.Unread(), cursor.previousField).0)
      decreases |data| - cursor.offset
    {
      ghost var unread, previous := cursor.Unread(), cursor.previousField;
      var ok, field := cursor.Next();
      if !ok {
        assert ReadAll(unread, previous) == ([], cursor.Unread());
        var finished := cursor.Finished();
        return if finished then FinishExport(st, []) else None;
      }
      ReadAllCons(unread, previous);
      match StepExport(st, field)
      case None => return None;
      case Some(next) => st := next;
    }
    r := FinishExport(st, []);
  }

  lemma ReadAllCons(s: seq<Byte>, previous: nat)
    requires s != [] && TakeField(s, previous).Got?
    ensures var Got(f, _, rest) := TakeField(s, previous);
      && ReadAll(s, previous).0 != []
      && ReadAll(s, previous).0[0] == f
      && ReadAll(s, previous).0[1..] == ReadAll(rest, f.number).0
      && ReadAll(s, previous).1 == ReadAll(rest, f.number).1
  {
  }

  // ---- An export is accepted iff its fields are the export's own ------------------

  /** What the reader guarantees of the fields it returns: 64-bit values and ascending numbers. */
  predicate Ordered(fs: seq<Field>, previous: nat) {
    fs != [] ==>
      && fs[0].number >= previous && fs[0].number >= 1
      && (fs[0].Varint? ==> fs[0].value < U64)
      && Ordered(fs[1..], fs[0].number)
  }

  lemma {:induction false} ReadAllIsOrdered(s: seq<Byte>, previous: nat)
    ensures Ordered(ReadAll(s, previous).0, previous)
    decreases |s|
  {
    if s != [] && TakeField(s, previous).Got? {
      var Got(f, key, rest) := TakeField(s, previous);
      ReadAllCons(s, previous);
      ReadAllIsOrdered(rest, f.number);
      var payload := TakeVarint(s).rest;
      var Good(value, after) := TakeVarint(payload);
      VarintReadIffWritten(payload, value, after);
    }
  }

  /** A number the remaining fields have passed is never seen again. */
  lemma {:induction false} PassedIsNeverSeen(st: ExportState, fs: seq<Field>, n: nat)
    requires 1 <= n <= 6 && |st.seen| == 7 && !st.seen[n] && Ordered(fs, n + 1)
    requires FoldExport(st, fs).Some?
    ensures var final := FoldExport(st, fs).value; |final.seen| == 7 && !final.seen[n]
    decreases |fs|
  {
    if fs != [] {
      OrderedBelow(fs[1..], fs[0].number, n + 1);
      PassedIsNeverSeen(StepExport(st, fs[0]).value, fs[1..], n);
    }
  }

  lemma OrderedBelow(fs: seq<Field>, previous: nat, lower: nat)
    requires Ordered(fs, previous) && lower <= previous
    ensures Ordered(fs, lower)
  {
  }

  /** The state after the fields numbered below n: those were seen, no later one was. */
  predicate ReadBelow(st: ExportState, n: nat) {
    && 1 <= n <= 7 && |st.seen| == 7
    && (forall i | 1 <= i < n :: st.seen[i])
    && (forall i | n <= i <= 6 :: !st.seen[i])
    && (st.entry.readOnly ==> n == 7)
  }

  /** Two entries agree on the fields numbered below n. */
  predicate AgreeBelow(a: Entry, b: Entry, n: nat) {
    forall i: nat | 1 <= i < n && i <= 5 :: ExportField(a, i) == ExportField(b, i)
  }

  /** From there on, an accepted list is exactly the final entry's fields numbered n and up. */
  lemma {:induction false} AcceptedFrom(st: ExportState, fs: seq<Field>, n: nat)
    requires ReadBelow(st, n) && Ordered(fs, n - 1) && FoldExport(st, fs).Some?
    requires var final := FoldExport(st, fs).value; |final.seen| == 7 && AllSeen(final.seen, 6)
    ensures var e := FoldExport(st, fs).value.entry;
      && AgreeBelow(st.entry, e, n)
      && (st.entry.readOnly ==> e.readOnly)
      && |fs| == (if e.readOnly && n <= 6 then 7 - n else if n <= 5 then 6 - n else 0)
      && (forall i | 0 <= i < |fs| :: fs[i] == ExportField(e, n + i))
      && (n <= 5 ==> |e.rootHandle| == HANDLE_BYTES)
      && (n <= 4 ==> e.generation < U64)
      && (n <= 1 ==> e.exportId < U64)
    decreases 7 - n
  {
    assert n <= 5 ==> !st.seen[n];
    if fs != [] {
      var f := fs[0];
      if n <= 5 && f.number > n {
        OrderedBelow(fs[1..], f.number, n + 1);
        PassedIsNeverSeen(st, fs, n);
      }
      assert f.number == n;
      var next := StepExport(st, f).value;
      AcceptedFrom(next, fs[1..], n + 1);
      var e := FoldExport(st, fs).value.entry;
      assert ExportField(e, n) == f;
      forall i | 1 <= i < |fs| ensures fs[i] == ExportField(e, n + i) {
        assert fs[i] == fs[1..][i - 1];
      }
    }
  }

  /** A field list is accepted, for export e, iff it is e's own list; no other list denotes an export. */
  lemma ParseExportIff(data: seq<Byte>, e: Entry)
    ensures ParseExport(data) == Some(e) <==>
      && ReadAll(data) ==
           ([Varint(1, e.exportId), Bytes(2, e.driveId), Bytes(3, e.path), Varint(4, e.generation),
             Bytes(5, e.rootHandle)] + (if e.readOnly then [Varint(6, 1)] else []), [])
      && 0 < e.exportId < 0x1_0000_0000_0000_0000 && 0 < e.generation < 0x1_0000_0000_0000_0000
      && CanonicalUuid(e.driveId) && e.path == Ascii("/filebelt/") + e.driveId && |e.rootHandle| == 101
  {
    ParseExportIffOwn(data, e);
    ExportFieldsAre(e);
    assert Ascii("/filebelt/") == PATH_PREFIX;
  }

  lemma ExportFieldsAre(e: Entry)
    ensures ExportFields(e) ==
      [Varint(1, e.exportId), Bytes(2, e.driveId), Bytes(3, e.path), Varint(4, e.generation),
       Bytes(5, e.rootHandle)] + (if e.readOnly then [Varint(6, 1)] else [])
  {
  }

  /** The drive of an export is 36 characters: lower-case hexadecimal digits and four dashes. */
  lemma CanonicalUuidIff(s: seq<Byte>)
    ensures CanonicalUuid(s) <==>
      && |s| == 36
      && forall i | 0 <= i < 36 ::
           s[i] in if i in {8, 13, 18, 23} then Ascii("-") else Ascii("0123456789abcdef")
  {
    var digits := Ascii("0123456789abcdef");
    assert Ascii("-") == [45];
    forall b: Byte ensures LowerHex(b) <==> b in digits {
      if LowerHex(b) { assert digits[if b <= 57 then b - 48 else b - 97 + 10] == b; }
    }
  }

  lemma ParseExportIffOwn(data: seq<Byte>, e: Entry)
    ensures ParseExport(data) == Some(e) <==> ReadAll(data) == (ExportFields(e), []) && ValidEntry(e)
  {
    if ParseExport(data) == Some(e) {
      AcceptedExport(data, e);
    }
    if ReadAll(data) == (ExportFields(e), []) && ValidEntry(e) {
      FoldOwnFields(e);
    }
  }

  lemma AcceptedExport(data: seq<Byte>, e: Entry)
    requires ParseExport(data) == Some(e)
    ensures ReadAll(data) == (ExportFields(e), []) && ValidEntry(e)
  {
    var fs := ReadAll(data).0;
    ReadAllIsOrdered(data, 0);
    AcceptedFrom(EMPTY_EXPORT, fs, 1);
    assert fs == ExportFields(e);
  }

  lemma FoldExportStep(st: ExportState, fs: seq<Field>, k: nat, next: ExportState)
    requires k < |fs| && StepExport(st, fs[k]) == Some(next)
    ensures FoldExport(st, fs[k..]) == FoldExport(next, fs[k + 1..])
  {
    assert fs[k..][1..] == fs[k + 1..];
  }

  lemma FoldOwnFields(e: Entry)
    requires ValidEntry(e)
    ensures FoldExport(EMPTY_EXPORT, ExportFields(e)).Some?
    ensures FinishExport(FoldExport(EMPTY_EXPORT, ExportFields(e)).value, []) == Some(e)
  {
    FoldOwnFrom(EMPTY_EXPORT, e, 1);
    assert ExportFields(e)[0..] == ExportFields(e);
  }

  lemma {:induction false} FoldOwnFrom(st: ExportState, e: Entry, n: nat)
    requires ValidEntry(e) && ReadBelow(st, n) && (n == 7 ==> e.readOnly)
    requires AgreeBelow(st.entry, e, n) && (st.entry.readOnly == (n == 7))
    ensures var r := FoldExport(st, ExportFields(e)[n - 1..]);
      r.Some? && |r.value.seen| == 7 && AllSeen(r.value.seen, 6) && r.value.entry == e
    decreases 7 - n
  {
    var fs := ExportFields(e);
    if n <= |fs| {
      var f := ExportField(e, n);
      assert fs[n - 1] == f;
      OwnFieldIsTaken(st, e, n);
      var next := StepExport(st, f).value;
      FoldExportStep(st, fs, n - 1, next);
      FoldOwnFrom(next, e, n + 1);
    } else {
      SameFields(st.entry, e);
    }
  }

  lemma OwnFieldIsTaken(st: ExportState, e: Entry, n: nat)
    requires ValidEntry(e) && ReadBelow(st, n) && n <= (if e.readOnly then 6 else 5)
    requires AgreeBelow(st.entry, e, n) && !st.entry.readOnly
    ensures var r := StepExport(st, ExportField(e, n));
      && r.Some? && ReadBelow(r.value, n + 1)
      && AgreeBelow(r.value.entry, e, n + 1) && r.value.entry.readOnly == (n == 6)
  {
    var f := ExportField(e, n);
    assert TakesExport(st.seen, f) by {
      assert forall i | 0 <= i < |e.driveId| :: e.driveId[i] != 0;
      assert 0 !in e.path;
    }
    forall i: nat | 1 <= i < n + 1 && i <= 5 ensures ExportField(SetExport(st.entry, f), i) == ExportField(e, i) {
      assert i < n ==> ExportField(st.entry, i) == ExportField(e, i);
    }
  }

  lemma SameFields(a: Entry, b: Entry)
    requires AgreeBelow(a, b, 6) && a.readOnly == b.readOnly
    ensures a == b
  {
    assert ExportField(a, 1) == ExportField(b, 1);
    assert ExportField(a, 2) == ExportField(b, 2);
    assert ExportField(a, 3) == ExportField(b, 3);
    assert ExportField(a, 4) == ExportField(b, 4);
    assert ExportField(a, 5) == ExportField(b, 5);
  }
}
