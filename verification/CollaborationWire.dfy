/**
 * The collaboration client's wire format (ui/markdown/source/collaboration.ts,
 * the functions after the session class).
 *
 * It writes the encoding of module Protobuf.  Its reader is more tolerant than
 * the NFS adapter's: it takes overlong varints and fields in any order, but no
 * value above the safe integers.
 */
module CollaborationWire {
  import opened Prelude
  import opened Protobuf
  import Utf8

  const SAFE: nat := 0x1f_ffff_ffff_ffff
  const MAXIMUM_CHUNK: nat := 262_144
  const MAXIMUM_UPDATE: nat := 2_097_152
  const MAXIMUM_FRAME: nat := 2_162_688

  // ---- Writing ---------------------------------------------------------------------------

  /** Varint: throws unless the value is a safe integer and not negative. */
  method WriteVarint(value: int) returns (r: Option<seq<Byte>>)
    ensures r == if 0 <= value <= SAFE then Some(EncodeVarint(value)) else None
  {
    if value > SAFE || value < 0 { return None; }
    var bytes: seq<Byte> := [];
    var remaining: nat := value;
    var more := true;
    while more
      invariant more ==> EncodeVarint(value) == bytes + EncodeVarint(remaining)
      invariant !more ==> EncodeVarint(value) == bytes
      decreases if more then 1 + remaining else 0
    {
      var byte := remaining % 128;
      var rest := remaining / 128;
      bytes := bytes + [byte + if rest > 0 then 128 else 0];
      remaining := rest;
      more := rest > 0;
    }
    return Some(bytes);
  }

  /** Concatenate: the parts copied one after another into a buffer of their total length. */
  method Concatenate(parts: seq<seq<Byte>>) returns (r: array<Byte>)
    ensures fresh(r) && r[..] == Flatten(parts)
  {
    r := new Byte[|Flatten(parts)|];
    var offset, k := 0, 0;
    while k < |parts|
      invariant 0 <= k <= |parts| && 0 <= offset <= r.Length == |Flatten(parts)|
      invariant r[..offset] + Flatten(parts[k..]) == Flatten(parts)
    {
      assert parts[k..][0] == parts[k] && parts[k..][1..] == parts[k + 1..];
      var part := parts[k];
      assert |r[..offset] + Flatten(parts[k..])| == r.Length;
      ghost var done := r[..offset];
      forall i | 0 <= i < |part| { r[offset + i] := part[i]; }
      assert r[..offset + |part|] == done + part;
      offset := offset + |part|;
      k := k + 1;
    }
    assert parts[k..] == [];
    assert r[..offset] == Flatten(parts);
  }

  /** Bytes and Unsigned write a field, and Message a list of them. */
  lemma PartsOfField(f: Field)
    ensures Flatten(match f
                    case Varint(_, value) => [EncodeVarint(f.Key()), EncodeVarint(value)]
                    case Bytes(_, bytes) => [EncodeVarint(f.Key()), EncodeVarint(|bytes|), bytes])
      == EncodeField(f)
  {
    match f
    case Varint(_, value) =>
      var parts := [EncodeVarint(f.Key()), EncodeVarint(value)];
      assert parts[1..] == [EncodeVarint(value)];
      FlattenOne(EncodeVarint(value));
    case Bytes(_, bytes) =>
      var parts := [EncodeVarint(f.Key()), EncodeVarint(|bytes|), bytes];
      assert parts[1..] == [EncodeVarint(|bytes|), bytes];
      assert parts[1..][1..] == [bytes];
      FlattenOne(bytes);
  }

  // ---- Reading ---------------------------------------------------------------------------

  /** A varint of at most ten bytes, of which `taken` were read, whatever its value and padding. */
  function TakeVarint(s: seq<Byte>, taken: nat): (r: Option<(nat, seq<Byte>)>)
    ensures r.Some? ==> |r.value.1| < |s|
    decreases |s|
  {
    if s == [] || taken >= 10 then None
    else if s[0] < 128 then Some((s[0], s[1..]))
    else
      match TakeVarint(s[1..], taken + 1)
      case None => None
      case Some((high, rest)) => Some((s[0] - 128 + 128 * high, rest))
  }

  function Read(s: seq<Byte>): (r: Option<(nat, seq<Byte>)>)
    ensures r.Some? ==> |r.value.1| < |s|
  {
    var r := TakeVarint(s, 0);
    if r.Some? && r.value.0 > SAFE then None else r
  }

  /** What a varint comes to when its first bytes were worth `low` in units below `unit`. */
  function Shifted(r: Option<(nat, seq<Byte>)>, low: nat, unit: nat): Option<(nat, seq<Byte>)> {
    match r
    case None => None
    case Some((high, rest)) => Some((low + unit * high, rest))
  }

  lemma Distribute(low: nat, unit: nat, digit: nat, high: nat)
    ensures low + unit * (digit + 128 * high) == (low + digit * unit) + unit * 128 * high
  {
  }

  /** The state of the reading loop: the whole varint is what was read plus what follows. */
  predicate Reading(s: seq<Byte>, start: nat, offset: nat, value: nat, unit: nat) {
    && start <= offset <= |s|
    && Shifted(TakeVarint(s[offset..], offset - start), value, unit) == TakeVarint(s[start..], 0)
  }

  lemma ReadingStarts(s: seq<Byte>, start: nat)
    requires start <= |s|
    ensures Reading(s, start, start, 0, 1)
  {
  }

  lemma ReadingGoesOn(s: seq<Byte>, start: nat, offset: nat, value: nat, unit: nat, next: nat)
    requires Reading(s, start, offset, value, unit) && offset < |s| && offset - start < 10 && s[offset] >= 128
    requires next == value + (s[offset] - 128) * unit
    ensures Reading(s, start, offset + 1, next, unit * 128)
  {
    assert s[offset..][1..] == s[offset + 1..];
    var high := TakeVarint(s[offset + 1..], offset + 1 - start);
    if high.Some? { Distribute(value, unit, s[offset] - 128, high.value.0); }
  }

  lemma ReadingEnds(s: seq<Byte>, start: nat, offset: nat, value: nat, unit: nat, next: nat)
    requires Reading(s, start, offset, value, unit) && offset < |s| && offset - start < 10 && s[offset] < 128
    requires next == value + s[offset] * unit
    ensures Read(s[start..]) == if next <= SAFE then Some((next, s[offset + 1..])) else None
  {
    assert s[offset..][1..] == s[offset + 1..];
  }

  lemma ReadingStops(s: seq<Byte>, start: nat, offset: nat, value: nat, unit: nat)
    requires Reading(s, start, offset, value, unit)
    requires offset == |s| || offset - start >= 10 || value > SAFE
    ensures Read(s[start..]).None?
  {
    var r := TakeVarint(s[offset..], offset - start);
    if r.Some? { assert value + unit * r.value.0 >= value; }
  }

  /** ReadVarint: None stands for a thrown error. */
  method ReadVarint(s: seq<Byte>, start: nat) returns (r: Option<(nat, nat)>)
    requires start <= |s|
    ensures r.Some? <==> Read(s[start..]).Some?
    ensures r.Some? ==> start < r.value.1 <= |s| && Read(s[start..]) == Some((r.value.0, s[r.value.1..]))
  {
    var value: nat, unit: nat, offset := 0, 1, start;
    var index := 0;
    ReadingStarts(s, start);
    while index < 10
      invariant 0 <= index <= 10 && offset == start + index <= |s|
      invariant Reading(s, start, offset, value, unit)
    {
      if offset == |s| { ReadingStops(s, start, offset, value, unit); return None; }
      var byte: nat := s[offset];
      var next: nat := value + byte % 128 * unit;
      if byte < 128 {
        ReadingEnds(s, start, offset, value, unit, next);
      } else {
        ReadingGoesOn(s, start, offset, value, unit, next);
      }
      offset := offset + 1;
      value := next;
      if value > SAFE {
        if byte >= 128 { ReadingStops(s, start, offset, value, unit * 128); }
        return None;
      }
      if byte < 128 { return Some((value, offset)); }
      unit := unit * 128;
      index := index + 1;
    }
    ReadingStops(s, start, offset, value, unit);
    return None;
  }

  /** The varint of a safe integer is read back; an overlong form is read too. */
  lemma {:induction false} TakeWritten(value: nat, rest: seq<Byte>, taken: nat)
    requires taken + |EncodeVarint(value)| <= 10
    ensures TakeVarint(EncodeVarint(value) + rest, taken) == Some((value, rest))
    decreases value
  {
    var s := EncodeVarint(value) + rest;
    if value < 128 {
      assert s[1..] == rest;
    } else {
      TakeWritten(value / 128, rest, taken + 1);
      assert s[1..] == EncodeVarint(value / 128) + rest;
    }
  }

  lemma ReadWritten(value: nat, rest: seq<Byte>)
    requires value <= SAFE
    ensures Read(EncodeVarint(value) + rest) == Some((value, rest))
  {
    U64VarintLength(value);
    TakeWritten(value, rest, 0);
  }

  /** One field: its number is at least one and its wire type is varint or bytes. */
  function ReadField(s: seq<Byte>): (r: Option<(Field, seq<Byte>)>)
    ensures r.Some? ==> |r.value.1| < |s|
  {
    match Read(s)
    case None => None
    case Some((key, rest)) =>
      if key / 8 < 1 || key % 8 !in {0, 2} then None
      else
        match Read(rest)
        case None => None
        case Some((n, after)) =>
          if key % 8 == 0 then Some((Varint(key / 8, n), after))
          else if n > |after| then None
          else Some((Bytes(key / 8, after[..n]), after[n..]))
  }

  function ReadFields(s: seq<Byte>): Option<seq<Field>>
    decreases |s|
  {
    if s == [] then Some([])
    else
      match ReadField(s)
      case None => None
      case Some((field, rest)) =>
        match ReadFields(rest)
        case None => None
        case Some(fields) => Some([field] + fields)
  }

  /** The loop body of Fields. */
  method NextField(s: seq<Byte>, start: nat) returns (r: Option<(Field, nat)>)
    requires start <= |s|
    ensures r.Some? <==> ReadField(s[start..]).Some?
    ensures r.Some? ==> start < r.value.1 <= |s| && ReadField(s[start..]) == Some((r.value.0, s[r.value.1..]))
  {
    var key := ReadVarint(s, start);
    if key.None? { return None; }
    var (k, offset) := key.value;
    var number, wire := k / 8, k % 8;
    if number < 1 { return None; }
    if wire == 0 {
      var value := ReadVarint(s, offset);
      if value.None? { return None; }
      return Some((Varint(number, value.value.0), value.value.1));
    } else if wire == 2 {
      var length := ReadVarint(s, offset);
      if length.None? { return None; }
      var begin := length.value.1;
      var end := begin + length.value.0;
      if end > |s| { return None; }
      assert s[begin..][..length.value.0] == s[begin..end] && s[begin..][length.value.0..] == s[end..];
      return Some((Bytes(number, s[begin..end]), end));
    }
    return None;
  }

  /** Fields: None stands for a thrown error. */
  method Fields(s: seq<Byte>) returns (r: Option<seq<Field>>)
    ensures r == ReadFields(s)
  {
    var fields: seq<Field> := [];
    var offset := 0;
    assert s[0..] == s;
    while offset < |s|
      invariant 0 <= offset <= |s|
      invariant ReadFields(s).None? <==> ReadFields(s[offset..]).None?
      invariant ReadFields(s).Some? ==> ReadFields(s).value == fields + ReadFields(s[offset..]).value
    {
      var next := NextField(s, offset);
      if next.None? { return None; }
      if ReadFields(s).Some? {
        Regroup(fields, [next.value.0], ReadFields(s[next.value.1..]).value);
      }
      fields := fields + [next.value.0];
      offset := next.value.1;
    }
    assert ReadFields(s[offset..]) == Some([]) by { assert s[offset..] == []; }
    assert fields + [] == fields;
    return Some(fields);
  }

  // ---- Round trip ------------------------------------------------------------------------

  /** A field that the client can write. */
  predicate Writable(f: Field) {
    && f.number >= 1 && f.Key() <= SAFE
    && match f case Varint(_, value) => value <= SAFE case Bytes(_, bytes) => |bytes| <= SAFE
  }

  predicate AllWritable(fs: seq<Field>) { fs != [] ==> Writable(fs[0]) && AllWritable(fs[1..]) }

  lemma ReadFieldOfEncoded(f: Field, rest: seq<Byte>)
    requires Writable(f)
    ensures ReadField(EncodeField(f) + rest) == Some((f, rest))
  {
    var payload := EncodePayload(f) + rest;
    Regroup(EncodeVarint(f.Key()), EncodePayload(f), rest);
    ReadWritten(f.Key(), payload);
    match f
    case Varint(_, value) =>
      ReadWritten(value, rest);
      ReadFieldParts(EncodeField(f) + rest, f.Key(), payload, value, rest);
    case Bytes(_, bytes) =>
      LengthIsRead(bytes, rest);
      ReadFieldParts(EncodeField(f) + rest, f.Key(), payload, |bytes|, bytes + rest);
      assert (bytes + rest)[..|bytes|] == bytes && (bytes + rest)[|bytes|..] == rest;
  }

  lemma LengthIsRead(bytes: seq<Byte>, rest: seq<Byte>)
    requires |bytes| <= SAFE
    ensures Read(EncodeVarint(|bytes|) + bytes + rest) == Some((|bytes|, bytes + rest))
  {
    Regroup(EncodeVarint(|bytes|), bytes, rest);
    ReadWritten(|bytes|, bytes + rest);
  }

  lemma ReadFieldParts(s: seq<Byte>, key: nat, payload: seq<Byte>, n: nat, after: seq<Byte>)
    requires Read(s) == Some((key, payload)) && Read(payload) == Some((n, after)) && key >= 8
    ensures key % 8 == 0 ==> ReadField(s) == Some((Varint(key / 8, n), after))
    ensures key % 8 == 2 && n <= |after| ==> ReadField(s) == Some((Bytes(key / 8, after[..n]), after[n..]))
  {
  }

  /** Every field list that the client can write is read back. */
  lemma {:induction false} FieldsRoundTrip(fs: seq<Field>)
    requires AllWritable(fs)
    ensures ReadFields(EncodeFields(fs)) == Some(fs)
  {
    if fs != [] {
      FieldsRoundTrip(fs[1..]);
      ReadFieldOfEncoded(fs[0], EncodeFields(fs[1..]));
      assert [fs[0]] + fs[1..] == fs;
    }
  }

  // ---- Update frames ---------------------------------------------------------------------

  function Min(a: nat, b: nat): nat { if a < b then a else b }

  function ChunkFields(index: nat, bytes: seq<Byte>): seq<Field> { [Varint(1, index), Bytes(2, bytes)] }

  /** The chunks that carry `rest`, numbered from `index`. */
  function Chunks(rest: seq<Byte>, index: nat): seq<Field>
    decreases |rest|
  {
    if rest == [] then []
    else
      var n := Min(MAXIMUM_CHUNK, |rest|);
      [Bytes(3, EncodeFields(ChunkFields(index, rest[..n])))] + Chunks(rest[n..], index + 1)
  }

  /** A local update as it waits to be sent; a proposal of a tool carries the tool's invocation. */
  datatype Entry = Entry(update: seq<Byte>, invocation: Option<Utf8.Text>)

  predicate Supported(update: seq<Byte>) { 1 <= |update| <= MAXIMUM_UPDATE }

  /** UUIDs are written as 36 ASCII characters. */
  predicate IsIdentifier(id: Utf8.Text) { |id| == 36 && forall i | 0 <= i < |id| :: id[i] < 0x80 }

  predicate ValidEntry(e: Entry) {
    Supported(e.update) && (e.invocation.Some? ==> IsIdentifier(e.invocation.value))
  }

  function InvocationFields(invocation: Option<Utf8.Text>): seq<Field> {
    if invocation.Some? then [Bytes(4, Utf8.Encode(invocation.value))] else []
  }

  function UpdateFields(id: Utf8.Text, sequence: nat, e: Entry): seq<Field> {
    [Bytes(1, Utf8.Encode(id)), Varint(2, sequence)] + Chunks(e.update, 0) + InvocationFields(e.invocation)
  }

  /** A frame is one field: its number says what the frame is for. */
  function Frame(number: nat, payload: seq<Field>): seq<Byte> {
    EncodeFields([Bytes(number, EncodeFields(payload))])
  }

  function UpdateFrame(id: Utf8.Text, sequence: nat, e: Entry): seq<Byte> { Frame(4, UpdateFields(id, sequence, e)) }

  function CheckpointFrame(sequence: nat): seq<Byte> { Frame(11, [Varint(1, sequence)]) }

  lemma SuffixOfSuffix(s: seq<Byte>, a: nat, n: nat)
    requires a + n <= |s|
    ensures s[a..][..n] == s[a..a + n] && s[a..][n..] == s[a + n..]
  {
  }

  /** The chunk loop of Pump: chunk k is the k-th slice of 256 KiB. */
  method SplitUpdate(update: seq<Byte>) returns (chunks: seq<Field>)
    ensures chunks == Chunks(update, 0)
  {
    chunks := [];
    var count := (|update| + MAXIMUM_CHUNK - 1) / MAXIMUM_CHUNK;
    var index := 0;
    assert update[0..] == update;
    while index < count
      invariant 0 <= index <= count
      invariant index < count ==> index * MAXIMUM_CHUNK < |update|
      invariant chunks + Chunks(update[Min(index * MAXIMUM_CHUNK, |update|)..], index) == Chunks(update, 0)
    {
      var start := index * MAXIMUM_CHUNK;
      var n := Min(MAXIMUM_CHUNK, |update| - start);
      SuffixOfSuffix(update, start, n);
      var chunk := Bytes(3, EncodeFields(ChunkFields(index, update[start..start + n])));
      Regroup(chunks, [chunk], Chunks(update[start + n..], index + 1));
      assert Min((index + 1) * MAXIMUM_CHUNK, |update|) == start + n;
      chunks := chunks + [chunk];
      index := index + 1;
    }
    assert update[Min(index * MAXIMUM_CHUNK, |update|)..] == [];
  }

  // ---- An update frame always fits ---------------------------------------------------------

  lemma {:induction false} AsciiLength(t: Utf8.Text)
    requires forall i | 0 <= i < |t| :: t[i] < 0x80
    ensures |Utf8.Encode(t)| == |t|
  {
    if t != [] { AsciiLength(t[1..]); }
  }

  /** A field costs its payload, a key byte and a length. */
  lemma FieldSize(number: nat, bytes: seq<Byte>)
    requires 1 <= number < 16
    ensures |EncodeField(Bytes(number, bytes))| == 1 + |EncodeVarint(|bytes|)| + |bytes|
  {
    SmallVarint(number * 8 + 2);
  }

  lemma TwoFields(a: Field, b: Field)
    ensures EncodeFields([a, b]) == EncodeField(a) + EncodeField(b)
  {
    assert [a, b][1..] == [b] && [b][1..] == [];
    assert EncodeFields([b]) == EncodeField(b) + [];
  }

  lemma ChunkSize(index: nat, bytes: seq<Byte>)
    requires index < 128 && |bytes| <= MAXIMUM_CHUNK
    ensures |EncodeField(Bytes(3, EncodeFields(ChunkFields(index, bytes))))| <= |bytes| + 10
  {
    TwoFields(Varint(1, index), Bytes(2, bytes));
    SmallVarint(8);
    SmallVarint(index);
    SmallVarint(|bytes|);
    FieldSize(2, bytes);
    var inner := EncodeFields(ChunkFields(index, bytes));
    assert |inner| <= |bytes| + 6;
    SmallVarint(|inner|);
    FieldSize(3, inner);
  }

  lemma {:induction false} ChunksSize(rest: seq<Byte>, index: nat)
    requires |rest| + index * MAXIMUM_CHUNK <= 64 * MAXIMUM_CHUNK
    ensures |EncodeFields(Chunks(rest, index))| <= |rest| + 10 * ((|rest| + MAXIMUM_CHUNK - 1) / MAXIMUM_CHUNK)
    decreases |rest|
  {
    if rest != [] {
      var n := Min(MAXIMUM_CHUNK, |rest|);
      ChunkSize(index, rest[..n]);
      ChunksSize(rest[n..], index + 1);
      var all := Chunks(rest, index);
      assert all[1..] == Chunks(rest[n..], index + 1);
      assert EncodeFields(all) == EncodeField(all[0]) + EncodeFields(all[1..]);
    }
  }

  lemma IdentifierSize(number: nat, id: Utf8.Text)
    requires 1 <= number < 16 && IsIdentifier(id)
    ensures |EncodeField(Bytes(number, Utf8.Encode(id)))| == 38
  {
    AsciiLength(id);
    FieldSize(number, Utf8.Encode(id));
    SmallVarint(36);
  }

  lemma OneField(f: Field)
    ensures EncodeFields([f]) == EncodeField(f)
  {
    assert [f][1..] == [];
    assert EncodeFields([f]) == EncodeField(f) + [];
  }

  lemma HeaderSize(id: Utf8.Text, sequence: nat)
    requires IsIdentifier(id) && sequence <= SAFE
    ensures |EncodeFields([Bytes(1, Utf8.Encode(id)), Varint(2, sequence)])| <= 49
  {
    TwoFields(Bytes(1, Utf8.Encode(id)), Varint(2, sequence));
    IdentifierSize(1, id);
    SmallVarint(16);
    U64VarintLength(sequence);
  }

  lemma InvocationSize(invocation: Option<Utf8.Text>)
    requires invocation.Some? ==> IsIdentifier(invocation.value)
    ensures |EncodeFields(InvocationFields(invocation))| <= 38
  {
    if invocation.Some? {
      OneField(Bytes(4, Utf8.Encode(invocation.value)));
      IdentifierSize(4, invocation.value);
    }
  }

  lemma PayloadSize(id: Utf8.Text, sequence: nat, e: Entry)
    requires IsIdentifier(id) && sequence <= SAFE && ValidEntry(e)
    ensures |EncodeFields(UpdateFields(id, sequence, e))| <= |e.update| + 167
  {
    var header := [Bytes(1, Utf8.Encode(id)), Varint(2, sequence)];
    EncodeFieldsAppend(header + Chunks(e.update, 0), InvocationFields(e.invocation));
    EncodeFieldsAppend(header, Chunks(e.update, 0));
    HeaderSize(id, sequence);
    InvocationSize(e.invocation);
    ChunksSize(e.update, 0);
  }

  /** The frame of every supported update is within the frame limit. */
  lemma UpdateFrameFits(id: Utf8.Text, sequence: nat, e: Entry)
    requires IsIdentifier(id) && sequence <= SAFE && ValidEntry(e)
    ensures |UpdateFrame(id, sequence, e)| <= |e.update| + 172 <= MAXIMUM_FRAME
  {
    var payload := EncodeFields(UpdateFields(id, sequence, e));
    PayloadSize(id, sequence, e);
    OneField(Bytes(4, payload));
    FieldSize(4, payload);
    SmallVarint(|payload|);
  }

  lemma CheckpointFrameFits(sequence: nat)
    requires sequence <= SAFE
    ensures |CheckpointFrame(sequence)| <= 16
  {
    var payload := EncodeFields([Varint(1, sequence)]);
    OneField(Varint(1, sequence));
    SmallVarint(8);
    U64VarintLength(sequence);
    OneField(Bytes(11, payload));
    FieldSize(11, payload);
    SmallVarint(|payload|);
  }

  // ---- An update frame carries the update ---------------------------------------------------

  /** The update that a list of fields carries: the bytes of its chunks, in order. */
  function Carried(fs: seq<Field>): Option<seq<Byte>> {
    if fs == [] then Some([])
    else if !(fs[0].Bytes? && fs[0].number == 3) then Carried(fs[1..])
    else
      match ReadFields(fs[0].bytes)
      case None => None
      case Some(inner) =>
        if |inner| != 2 || !inner[1].Bytes? then None
        else
          match Carried(fs[1..])
          case None => None
          case Some(rest) => Some(inner[1].bytes + rest)
  }

  lemma CarriedSkips(f: Field, fs: seq<Field>)
    requires f.number != 3
    ensures Carried([f] + fs) == Carried(fs)
  {
    assert ([f] + fs)[1..] == fs;
  }

  lemma ChunkIsReadBack(index: nat, bytes: seq<Byte>)
    requires index <= SAFE && |bytes| <= SAFE
    ensures ReadFields(EncodeFields(ChunkFields(index, bytes))) == Some(ChunkFields(index, bytes))
  {
    var inner := ChunkFields(index, bytes);
    assert inner[1..] == [Bytes(2, bytes)] && inner[1..][1..] == [];
    FieldsRoundTrip(inner);
  }

  lemma CarriedTakes(index: nat, bytes: seq<Byte>, fs: seq<Field>)
    requires index <= SAFE && |bytes| <= SAFE && Carried(fs).Some?
    ensures Carried([Bytes(3, EncodeFields(ChunkFields(index, bytes)))] + fs) == Some(bytes + Carried(fs).value)
  {
    ChunkIsReadBack(index, bytes);
    assert ([Bytes(3, EncodeFields(ChunkFields(index, bytes)))] + fs)[1..] == fs;
  }

  lemma {:induction false} CarriedByChunks(rest: seq<Byte>, index: nat, tail: seq<Field>)
    requires index + |rest| <= SAFE && Carried(tail) == Some([])
    ensures Carried(Chunks(rest, index) + tail) == Some(rest)
    decreases |rest|
  {
    if rest == [] {
      assert Chunks(rest, index) + tail == tail;
    } else {
      var n := Min(MAXIMUM_CHUNK, |rest|);
      var chunk := Bytes(3, EncodeFields(ChunkFields(index, rest[..n])));
      var others := Chunks(rest[n..], index + 1);
      assert Chunks(rest, index) + tail == [chunk] + (others + tail);
      CarriedByChunks(rest[n..], index + 1, tail);
      CarriedTakes(index, rest[..n], others + tail);
      assert rest[..n] + rest[n..] == rest;
    }
  }

  lemma CarriedByUpdate(id: Utf8.Text, sequence: nat, e: Entry)
    requires |e.update| <= SAFE
    ensures Carried(UpdateFields(id, sequence, e)) == Some(e.update)
  {
    var first, second := Bytes(1, Utf8.Encode(id)), Varint(2, sequence);
    var last := InvocationFields(e.invocation);
    if e.invocation.Some? { CarriedSkips(last[0], []); assert last == [last[0]] + []; }
    var rest := Chunks(e.update, 0) + last;
    CarriedByChunks(e.update, 0, last);
    CarriedSkips(second, rest);
    CarriedSkips(first, [second] + rest);
    assert UpdateFields(id, sequence, e) == [first] + ([second] + rest);
  }

  lemma {:induction false} AllWritableAppend(a: seq<Field>, b: seq<Field>)
    requires AllWritable(a) && AllWritable(b)
    ensures AllWritable(a + b)
  {
    if a == [] {
      assert a + b == b;
    } else {
      assert (a + b)[1..] == a[1..] + b;
      AllWritableAppend(a[1..], b);
    }
  }

  lemma {:induction false} ChunksAreWritable(rest: seq<Byte>, index: nat)
    requires |rest| + index * MAXIMUM_CHUNK <= 64 * MAXIMUM_CHUNK
    ensures AllWritable(Chunks(rest, index))
    decreases |rest|
  {
    if rest != [] {
      var n := Min(MAXIMUM_CHUNK, |rest|);
      ChunksAreWritable(rest[n..], index + 1);
      var inner := EncodeFields(ChunkFields(index, rest[..n]));
      ChunkSize(index, rest[..n]);
      FieldSize(3, inner);
      assert Chunks(rest, index)[1..] == Chunks(rest[n..], index + 1);
    }
  }

  lemma UpdateFieldsAreWritable(id: Utf8.Text, sequence: nat, e: Entry)
    requires IsIdentifier(id) && sequence <= SAFE && ValidEntry(e)
    ensures AllWritable(UpdateFields(id, sequence, e))
  {
    AsciiLength(id);
    var header := [Bytes(1, Utf8.Encode(id)), Varint(2, sequence)];
    assert header[1..] == [Varint(2, sequence)] && header[1..][1..] == [];
    assert AllWritable(header);
    ChunksAreWritable(e.update, 0);
    AllWritableAppend(header, Chunks(e.update, 0));
    var last := InvocationFields(e.invocation);
    if e.invocation.Some? { AsciiLength(e.invocation.value); assert last[1..] == []; }
    AllWritableAppend(header + Chunks(e.update, 0), last);
  }

  /** The bytes of each chunk. */
  function Slices(rest: seq<Byte>): seq<seq<Byte>>
    decreases |rest|
  {
    if rest == [] then [] else var n := Min(MAXIMUM_CHUNK, |rest|); [rest[..n]] + Slices(rest[n..])
  }

  lemma {:induction false} ChunkIsSlice(rest: seq<Byte>, index: nat, k: nat)
    requires k < |Chunks(rest, index)|
    ensures k < |Slices(rest)|
    ensures Chunks(rest, index)[k] == Bytes(3, EncodeFields(ChunkFields(index + k, Slices(rest)[k])))
    decreases |rest|
  {
    if k > 0 {
      LaterChunk(rest, index, k);
      ChunkIsSlice(rest[Min(MAXIMUM_CHUNK, |rest|)..], index + 1, k - 1);
    }
  }

  lemma LaterChunk(rest: seq<Byte>, index: nat, k: nat)
    requires 0 < k < |Chunks(rest, index)|
    ensures var later := rest[Min(MAXIMUM_CHUNK, |rest|)..];
      && k - 1 < |Chunks(later, index + 1)| && Chunks(rest, index)[k] == Chunks(later, index + 1)[k - 1]
      && |Slices(rest)| == 1 + |Slices(later)|
      && forall j | 0 < j < |Slices(rest)| :: Slices(rest)[j] == Slices(later)[j - 1]
  {
  }

  lemma {:induction false} SliceAt(rest: seq<Byte>, k: nat)
    requires k < |Slices(rest)|
    ensures 262_144 * k < |rest|
    ensures var end := if 262_144 * (k + 1) < |rest| then 262_144 * (k + 1) else |rest|;
      Slices(rest)[k] == rest[262_144 * k..end]
    decreases |rest|
  {
    if k > 0 {
      var n := Min(MAXIMUM_CHUNK, |rest|);
      var later := rest[n..];
      SliceAt(later, k - 1);
      assert Slices(rest)[k] == Slices(later)[k - 1];
      assert later != [] && n == 262_144;
      var end := if 262_144 * (k + 1) < |rest| then 262_144 * (k + 1) else |rest|;
      assert later[262_144 * (k - 1)..end - n] == rest[262_144 * k..end];
    }
  }

  /** The chunks of 262,144 bytes, each with its index. */
  lemma ChunkAt(rest: seq<Byte>, index: nat, k: nat)
    requires k < |Chunks(rest, index)|
    ensures 262_144 * k < |rest|
    ensures var end := if 262_144 * (k + 1) < |rest| then 262_144 * (k + 1) else |rest|;
      Chunks(rest, index)[k] == Bytes(3, EncodeFields([Varint(1, index + k), Bytes(2, rest[262_144 * k..end])]))
  {
    ChunkIsSlice(rest, index, k);
    SliceAt(rest, k);
  }

  lemma {:induction false} ChunkCount(rest: seq<Byte>, index: nat)
    ensures |Chunks(rest, index)| == (|rest| + 262_143) / 262_144
    decreases |rest|
  {
    if rest != [] { ChunkCount(rest[Min(MAXIMUM_CHUNK, |rest|)..], index + 1); }
  }

  /** What an update frame holds, field by field. */
  lemma UpdateFieldAt(id: Utf8.Text, sequence: nat, e: Entry, k: nat)
    ensures var fs, n := UpdateFields(id, sequence, e), (|e.update| + 262_143) / 262_144;
      && |fs| == 2 + n + (if e.invocation.Some? then 1 else 0)
      && fs[0] == Bytes(1, Utf8.Encode(id)) && fs[1] == Varint(2, sequence)
      && (e.invocation.Some? ==> fs[2 + n] == Bytes(4, Utf8.Encode(e.invocation.value)))
      && (k < n ==>
            && 262_144 * k < |e.update|
            && var end := if 262_144 * (k + 1) < |e.update| then 262_144 * (k + 1) else |e.update|;
               fs[2 + k] == Bytes(3, EncodeFields([Varint(1, k), Bytes(2, e.update[262_144 * k..end])])))
  {
    ChunkCount(e.update, 0);
    if k < |Chunks(e.update, 0)| { ChunkAt(e.update, 0, k); }
  }

  /** Reading an update frame gives its fields, and the chunks among them carry the whole update. */
  lemma UpdateFrameIsReadBack(id: Utf8.Text, sequence: nat, e: Entry)
    requires IsIdentifier(id) && sequence <= SAFE && ValidEntry(e)
    ensures var fs := UpdateFields(id, sequence, e);
      && ReadFields(UpdateFrame(id, sequence, e)) == Some([Bytes(4, EncodeFields(fs))])
      && ReadFields(EncodeFields(fs)) == Some(fs)
      && Carried(fs) == Some(e.update)
  {
    var fs := UpdateFields(id, sequence, e);
    UpdateFieldsAreWritable(id, sequence, e);
    FieldsRoundTrip(fs);
    PayloadSize(id, sequence, e);
    var outer := [Bytes(4, EncodeFields(fs))];
    assert outer[1..] == [];
    FieldsRoundTrip(outer);
    CarriedByUpdate(id, sequence, e);
  }

  /** Reading a request for a checkpoint gives its sequence. */
  lemma CheckpointRequestIsReadBack(sequence: nat)
    requires sequence <= SAFE
    ensures ReadFields(CheckpointFrame(sequence)) == Some([Bytes(11, EncodeFields([Varint(1, sequence)]))])
    ensures ReadFields(EncodeFields([Varint(1, sequence)])) == Some([Varint(1, sequence)])
  {
    var fs := [Varint(1, sequence)];
    assert fs[1..] == [];
    FieldsRoundTrip(fs);
    var outer := [Bytes(11, EncodeFields(fs))];
    assert outer[1..] == [];
    OneField(fs[0]);
    U64VarintLength(sequence);
    SmallVarint(8);
    FieldsRoundTrip(outer);
  }

  // ---- Frames from the server ----------------------------------------------------------------

  /** NumberField: the first varint field of that number, or zero. */
  function NumberField(fs: seq<Field>, number: nat): nat {
    if fs == [] then 0
    else if fs[0].Varint? && fs[0].number == number then fs[0].value
    else NumberField(fs[1..], number)
  }

  /** BytesField: the first bytes field of that number, or no bytes. */
  function BytesField(fs: seq<Field>, number: nat): seq<Byte> {
    if fs == [] then []
    else if fs[0].Bytes? && fs[0].number == number then fs[0].bytes
    else BytesField(fs[1..], number)
  }

  /** StringField: refuses ill-formed UTF-8 and drops a leading byte order mark. */
  function StringField(fs: seq<Field>, number: nat): Option<Utf8.Text> {
    match Utf8.Decode(BytesField(fs, number))
    case None => None
    case Some(t) => Some(if t != [] && t[0] == Utf8.BYTE_ORDER_MARK then t[1..] else t)
  }

  function FirstBytes(fs: seq<Field>): Option<(nat, seq<Byte>)> {
    if fs == [] then None
    else if fs[0].Bytes? then Some((fs[0].number, fs[0].bytes))
    else FirstBytes(fs[1..])
  }

  datatype Incoming =
    | Sync(sequence: nat, index: nat, count: nat, update: seq<Byte>, snapshot: bool)
    | Acknowledgement(id: Utf8.Text, sequence: nat)
    | Presence
    | Checkpoint(id: Utf8.Text, sequence: nat, state: nat)
    | Refusal  // the room was frozen or the server rejected a request
    | Heartbeat
    | Invalid  // an error is thrown

  function ClassifyPayload(number: nat, fs: seq<Field>): Incoming {
    match number
    case 3 =>
      Sync(NumberField(fs, 1), NumberField(fs, 2), NumberField(fs, 3), BytesField(fs, 4), NumberField(fs, 5) == 1)
    case 5 =>
      (match StringField(fs, 1) case None => Invalid case Some(id) => Acknowledgement(id, NumberField(fs, 2)))
    case 6 => Presence
    case 7 =>
      (match StringField(fs, 1)
       case None => Invalid
       case Some(id) => Checkpoint(id, NumberField(fs, 2), NumberField(fs, 3)))
    case 9 => Refusal
    case _ => Invalid
  }

  /** The dispatch of Receive. */
  function Classify(bytes: seq<Byte>): Incoming {
    if bytes == [] || |bytes| > MAXIMUM_FRAME then Invalid
    else
      match ReadFields(bytes)
      case None => Invalid
      case Some(outer) =>
        match FirstBytes(outer)
        case None => Invalid
        case Some((number, payload)) =>
          if number == 8 then Refusal
          else if number == 10 then Heartbeat
          else
            match ReadFields(payload)
            case None => Invalid
            case Some(fs) => ClassifyPayload(number, fs)
  }

  predicate AllSafe(fs: seq<Field>) { fs != [] ==> (fs[0].Varint? ==> fs[0].value <= SAFE) && AllSafe(fs[1..]) }

  lemma {:induction false} ReadFieldsAreSafe(s: seq<Byte>)
    requires ReadFields(s).Some?
    ensures AllSafe(ReadFields(s).value)
    decreases |s|
  {
    if s != [] {
      var (field, rest) := ReadField(s).value;
      ReadFieldsAreSafe(rest);
      assert ReadFields(s).value[1..] == ReadFields(rest).value;
    }
  }

  lemma {:induction false} NumberFieldIsSafe(fs: seq<Field>, number: nat)
    requires AllSafe(fs)
    ensures NumberField(fs, number) <= SAFE
  {
    if fs != [] { NumberFieldIsSafe(fs[1..], number); }
  }

  /** No sequence number above the safe integers gets past the reader. */
  lemma SequencesAreSafe(bytes: seq<Byte>)
    ensures var f := Classify(bytes);
      && (f.Sync? ==> f.sequence <= SAFE)
      && (f.Acknowledgement? ==> f.sequence <= SAFE)
      && (f.Checkpoint? ==> f.sequence <= SAFE)
  {
    var f := Classify(bytes);
    if f.Sync? || f.Acknowledgement? || f.Checkpoint? {
      var (_, payload) := FirstBytes(ReadFields(bytes).value).value;
      ReadFieldsAreSafe(payload);
      NumberFieldIsSafe(ReadFields(payload).value, 1);
      NumberFieldIsSafe(ReadFields(payload).value, 2);
    }
  }

  // ---- What each frame is read as -------------------------------------------------------------

  predicate Ascending(fs: seq<Field>, previous: nat) {
    fs != [] ==> previous < fs[0].number && Ascending(fs[1..], fs[0].number)
  }

  /** A field list as a writer sends it that leaves out zeros and empty fields. */
  function Sparse(fs: seq<Field>): seq<Field> {
    if fs == [] then []
    else if (fs[0].Varint? && fs[0].value == 0) || (fs[0].Bytes? && fs[0].bytes == []) then Sparse(fs[1..])
    else [fs[0]] + Sparse(fs[1..])
  }

  lemma {:induction false} PastNumber(fs: seq<Field>, previous: nat, number: nat)
    requires Ascending(fs, previous) && number <= previous
    ensures NumberField(fs, number) == 0 && BytesField(fs, number) == []
  {
    if fs != [] { PastNumber(fs[1..], fs[0].number, number); }
  }

  /** What is left out is read as zero or as no bytes. */
  lemma {:induction false} SparseReadsSame(fs: seq<Field>, previous: nat, number: nat)
    requires Ascending(fs, previous)
    ensures NumberField(Sparse(fs), number) == NumberField(fs, number)
    ensures BytesField(Sparse(fs), number) == BytesField(fs, number)
  {
    if fs != [] {
      SparseReadsSame(fs[1..], fs[0].number, number);
      if fs[0].number == number { PastNumber(fs[1..], fs[0].number, number); }
      assert ([fs[0]] + Sparse(fs[1..]))[1..] == Sparse(fs[1..]);
    }
  }

  lemma {:induction false} SparseIsWritable(fs: seq<Field>)
    requires AllWritable(fs)
    ensures AllWritable(Sparse(fs))
  {
    if fs != [] {
      SparseIsWritable(fs[1..]);
      assert ([fs[0]] + Sparse(fs[1..]))[1..] == Sparse(fs[1..]);
    }
  }

  lemma {:induction false} FieldsHoldBytes(fs: seq<Field>, i: nat)
    requires i < |fs| && fs[i].Bytes?
    ensures |EncodeFields(fs)| >= |fs[i].bytes|
  {
    if i > 0 { FieldsHoldBytes(fs[1..], i - 1); }
  }

  /** One outer field is what the dispatch looks at. */
  lemma FrameIsReadBack(number: nat, payload: seq<Byte>)
    requires 1 <= number < 16 && |EncodeFields([Bytes(number, payload)])| <= MAXIMUM_FRAME
    ensures EncodeFields([Bytes(number, payload)]) != []
    ensures ReadFields(EncodeFields([Bytes(number, payload)])) == Some([Bytes(number, payload)])
  {
    var outer := [Bytes(number, payload)];
    assert outer[1..] == [];
    FieldsHoldBytes(outer, 0);
    FieldsRoundTrip(outer);
    OneField(outer[0]);
    FieldSize(number, payload);
  }

  lemma ClassifyFrame(number: nat, fs: seq<Field>)
    requires 1 <= number < 16 && number != 8 && number != 10 && AllWritable(fs)
    requires |EncodeFields([Bytes(number, EncodeFields(fs))])| <= MAXIMUM_FRAME
    ensures Classify(EncodeFields([Bytes(number, EncodeFields(fs))])) == ClassifyPayload(number, fs)
  {
    FrameIsReadBack(number, EncodeFields(fs));
    FieldsRoundTrip(fs);
    ClassifyRead(EncodeFields([Bytes(number, EncodeFields(fs))]), number, EncodeFields(fs));
  }

  lemma ClassifyRead(bytes: seq<Byte>, number: nat, payload: seq<Byte>)
    requires bytes != [] && |bytes| <= MAXIMUM_FRAME && number != 8 && number != 10
    requires ReadFields(bytes) == Some([Bytes(number, payload)]) && ReadFields(payload).Some?
    ensures Classify(bytes) == ClassifyPayload(number, ReadFields(payload).value)
  {
  }

  /** The payload of a sync frame. */
  function SyncFields(sequence: nat, index: nat, count: nat, update: seq<Byte>, snapshot: nat): seq<Field> {
    [Varint(1, sequence), Varint(2, index), Varint(3, count), Bytes(4, update), Varint(5, snapshot)]
  }

  lemma SyncFieldsAre(sequence: nat, index: nat, count: nat, update: seq<Byte>, snapshot: nat)
    ensures var fs := SyncFields(sequence, index, count, update, snapshot);
      && Ascending(fs, 0)
      && NumberField(fs, 1) == sequence && NumberField(fs, 2) == index && NumberField(fs, 3) == count
      && BytesField(fs, 4) == update && NumberField(fs, 5) == snapshot
  {
    var fs := SyncFields(sequence, index, count, update, snapshot);
    var two, three, four, five := fs[1..], fs[2..], fs[3..], fs[4..];
    assert two[1..] == three && three[1..] == four && four[1..] == five && five[1..] == [];
    assert Ascending(five, 4) && Ascending(four, 3) && Ascending(three, 2) && Ascending(two, 1);
    assert NumberField(fs, 2) == NumberField(two, 2);
    assert NumberField(fs, 3) == NumberField(two, 3) == NumberField(three, 3);
    assert BytesField(fs, 4) == BytesField(two, 4) == BytesField(three, 4) == BytesField(four, 4);
    assert NumberField(fs, 5) == NumberField(two, 5) == NumberField(three, 5) == NumberField(four, 5)
        == NumberField(five, 5);
  }

  lemma SyncFieldsAreWritable(sequence: nat, index: nat, count: nat, update: seq<Byte>, snapshot: nat)
    requires sequence <= SAFE && index <= SAFE && count <= SAFE && snapshot <= SAFE && |update| <= SAFE
    ensures AllWritable(SyncFields(sequence, index, count, update, snapshot))
  {
    var fs := SyncFields(sequence, index, count, update, snapshot);
    var two, three, four, five := fs[1..], fs[2..], fs[3..], fs[4..];
    assert two[1..] == three && three[1..] == four && four[1..] == five && five[1..] == [];
    assert AllWritable(five);
    assert AllWritable(four);
    assert AllWritable(three);
    assert AllWritable(two);
  }

  /** Frame 3 is a sync frame: sequence, index, count, bytes and whether it is the snapshot, zeros sent or left out. */
  lemma SyncIsReadBack(sequence: nat, index: nat, count: nat, update: seq<Byte>, snapshot: nat, sparse: bool)
    requires sequence <= SAFE && index <= SAFE && count <= SAFE && snapshot <= SAFE && |update| <= SAFE
    requires var fs :=
        [Varint(1, sequence), Varint(2, index), Varint(3, count), Bytes(4, update), Varint(5, snapshot)];
      |EncodeFields([Bytes(3, EncodeFields(if sparse then Sparse(fs) else fs))])| <= MAXIMUM_FRAME
    ensures var fs :=
        [Varint(1, sequence), Varint(2, index), Varint(3, count), Bytes(4, update), Varint(5, snapshot)];
      Classify(EncodeFields([Bytes(3, EncodeFields(if sparse then Sparse(fs) else fs))]))
        == Sync(sequence, index, count, update, snapshot == 1)
  {
    var fs := SyncFields(sequence, index, count, update, snapshot);
    SyncFieldsAre(sequence, index, count, update, snapshot);
    SyncFieldsAreWritable(sequence, index, count, update, snapshot);
    SparseIsWritable(fs);
    SparseReadsSame(fs, 0, 1);
    SparseReadsSame(fs, 0, 2);
    SparseReadsSame(fs, 0, 3);
    SparseReadsSame(fs, 0, 4);
    SparseReadsSame(fs, 0, 5);
    ClassifyFrame(3, if sparse then Sparse(fs) else fs);
  }

  /** A text that decoding gives back: well formed, and without a byte order mark to drop. */
  predicate IsPlain(t: Utf8.Text) { Utf8.AllScalars(t) && (t != [] ==> t[0] != Utf8.BYTE_ORDER_MARK) }

  lemma TextIsReadBack(t: Utf8.Text, fs: seq<Field>)
    requires IsPlain(t) && BytesField(fs, 1) == Utf8.Encode(t)
    ensures StringField(fs, 1) == Some(t)
  {
    Utf8.DecodeIff(Utf8.Encode(t), t);
  }

  lemma ThreeFields(a: Field, b: Field, c: Field)
    requires a.number == 1 && b.number == 2 && c.number == 3 && a.Bytes? && b.Varint? && c.Varint?
    ensures var fs := [a, b, c];
      && Ascending(fs, 0) && BytesField(fs, 1) == a.bytes
      && NumberField(fs, 2) == b.value && NumberField(fs, 3) == c.value
      && (Writable(a) && Writable(b) && Writable(c) ==> AllWritable(fs))
  {
    var fs := [a, b, c];
    var two, three := fs[1..], fs[2..];
    assert two[1..] == three && three[1..] == [];
    assert Ascending(three, 2) && Ascending(two, 1);
    assert NumberField(fs, 2) == NumberField(two, 2);
    assert NumberField(fs, 3) == NumberField(two, 3) == NumberField(three, 3);
    assert Writable(c) ==> AllWritable(three);
    assert Writable(b) && Writable(c) ==> AllWritable(two);
  }

  /** Frame 7 is a checkpoint frame: identifier, sequence and state, zeros sent or left out. */
  lemma CheckpointIsReadBack(id: Utf8.Text, sequence: nat, state: nat, sparse: bool)
    requires IsPlain(id) && |Utf8.Encode(id)| <= SAFE && sequence <= SAFE && state <= SAFE
    requires var fs := [Bytes(1, Utf8.Encode(id)), Varint(2, sequence), Varint(3, state)];
      |EncodeFields([Bytes(7, EncodeFields(if sparse then Sparse(fs) else fs))])| <= MAXIMUM_FRAME
    ensures var fs := [Bytes(1, Utf8.Encode(id)), Varint(2, sequence), Varint(3, state)];
      Classify(EncodeFields([Bytes(7, EncodeFields(if sparse then Sparse(fs) else fs))]))
        == Checkpoint(id, sequence, state)
  {
    var fs := [Bytes(1, Utf8.Encode(id)), Varint(2, sequence), Varint(3, state)];
    ThreeFields(fs[0], fs[1], fs[2]);
    SparseIsWritable(fs);
    SparseReadsSame(fs, 0, 1);
    SparseReadsSame(fs, 0, 2);
    SparseReadsSame(fs, 0, 3);
    var sent := if sparse then Sparse(fs) else fs;
    TextIsReadBack(id, sent);
    ClassifyFrame(7, sent);
  }

  /** Frame 5 is an acknowledgement: identifier and sequence, zeros sent or left out. */
  lemma AcknowledgementIsReadBack(id: Utf8.Text, sequence: nat, sparse: bool)
    requires IsPlain(id) && |Utf8.Encode(id)| <= SAFE && sequence <= SAFE
    requires var fs := [Bytes(1, Utf8.Encode(id)), Varint(2, sequence)];
      |EncodeFields([Bytes(5, EncodeFields(if sparse then Sparse(fs) else fs))])| <= MAXIMUM_FRAME
    ensures var fs := [Bytes(1, Utf8.Encode(id)), Varint(2, sequence)];
      Classify(EncodeFields([Bytes(5, EncodeFields(if sparse then Sparse(fs) else fs))]))
        == Acknowledgement(id, sequence)
  {
    var fs := [Bytes(1, Utf8.Encode(id)), Varint(2, sequence)];
    assert fs[1..] == [Varint(2, sequence)] && fs[1..][1..] == [];
    assert Ascending(fs[1..], 1) && AllWritable(fs[1..]);
    assert NumberField(fs, 2) == NumberField(fs[1..], 2);
    SparseIsWritable(fs);
    SparseReadsSame(fs, 0, 1);
    SparseReadsSame(fs, 0, 2);
    var sent := if sparse then Sparse(fs) else fs;
    TextIsReadBack(id, sent);
    ClassifyFrame(5, sent);
  }

  /** Frames 8 and 9 are refusals whatever they hold, as far as it can be read; frame 10 is a heartbeat. */
  lemma OtherFramesAreRead(number: nat, payload: seq<Byte>)
    requires |EncodeFields([Bytes(number, payload)])| <= MAXIMUM_FRAME && number in {8, 9, 10}
    ensures var f := Classify(EncodeFields([Bytes(number, payload)]));
      && (number == 8 ==> f == Refusal)
      && (number == 9 ==> f == if ReadFields(payload).Some? then Refusal else Invalid)
      && (number == 10 ==> f == Heartbeat)
  {
    FrameIsReadBack(number, payload);
  }
}
