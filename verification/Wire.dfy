/**
 * The NFS adapter's protobuf writer and reader
 * (adapters/nfs/ganesha-fsal-filebelt/filebelt_wire.c).
 *
 * First what the reader computes, as functions of the unread bytes, and what
 * holds of it; then the mutable cursor and buffer, proved against them.
 */
module Wire {
  import opened Prelude
  import opened Protobuf

  // ---- What the reader computes -------------------------------------------

  datatype VarintRead =
    | Good(value: nat, rest: seq<Byte>)  // the value read and the bytes after it
    | Bad(rest: seq<Byte>)               // refused; the bytes after the refused ones

  /** Read a varint, of which `taken` bytes were already consumed. */
  function TakeVarint(s: seq<Byte>, taken: nat := 0): (r: VarintRead)
    ensures |r.rest| <= |s| && (r.Good? ==> |r.rest| < |s|)
    decreases |s|
  {
    if s == [] || taken >= 10 then Bad(s)
    else if taken == 9 && s[0] >= 2 then Bad(s[1..])
    else if s[0] < 128 then
      if taken > 0 && s[0] == 0 then Bad(s[1..]) else Good(s[0], s[1..])
    else
      match TakeVarint(s[1..], taken + 1)
      case Bad(rest) => Bad(rest)
      case Good(high, rest) => Good(s[0] - 128 + 128 * high, rest)
  }

  datatype Step =
    | Got(field: Field, key: nat, rest: seq<Byte>)
    | Stop(rest: seq<Byte>)

  /** The field number the reader takes from a key: the source narrows it to 32 bits. */
  function NumberOf(key: nat): nat { key / 8 % U32 }

  /** Read one field, whose number may not be below that of the previous one. */
  function TakeField(s: seq<Byte>, previous: nat): (r: Step)
    ensures r.Got? ==> |r.rest| < |s|
  {
    match TakeVarint(s)
    case Bad(rest) => Stop(rest)
    case Good(key, rest) =>
      var number := NumberOf(key);
      if number == 0 || number < previous then Stop(rest)
      else if key % 8 == 0 then
        match TakeVarint(rest) {
          case Bad(after) => Stop(after)
          case Good(value, after) => Got(Varint(number, value), key, after)
        }
      else if key % 8 == 2 then
        match TakeVarint(rest) {
          case Bad(after) => Stop(after)
          case Good(length, after) =>
            if length > |after| then Stop(after)
            else Got(Bytes(number, after[..length]), key, after[length..])
        }
      else Stop(rest)
  }

  /** The fields that a parser's read loop sees, and the bytes it leaves unread. */
  function ReadAll(s: seq<Byte>, previous: nat := 0): (seq<Field>, seq<Byte>)
    decreases |s|
  {
    if s == [] then ([], [])
    else
      match TakeField(s, previous)
      case Stop(rest) => ([], rest)
      case Got(field, _, rest) =>
        var (fields, unread) := ReadAll(rest, field.number);
        ([field] + fields, unread)
  }

  /** Field lists the writer can produce and the reader's ordering rule allows. */
  predicate Writable(f: Field) {
    && 1 <= f.number <= MAX_FIELD
    && match f case Varint(_, value) => value < U64 case Bytes(_, bytes) => |bytes| < U32
  }

  predicate Canonical(fs: seq<Field>, previous: nat := 0) {
    fs != [] ==>
      && Writable(fs[0]) && fs[0].number >= previous
      && Canonical(fs[1..], fs[0].number)
  }

  // ---- The varint reader accepts exactly the shortest forms ----------------

  /** The values that still fit 64 bits after `taken` bytes. */
  function Room(taken: nat): (room: nat)
    requires taken <= 9
    ensures room >= 2 && (taken < 9 ==> room >= 128)
    decreases 9 - taken
  {
    if taken == 9 then 2 else 128 * Room(taken + 1)
  }

  lemma RoomIsU64()
    ensures Room(0) == U64
  {
    assert Room(0) == 128 * (128 * (128 * (128 * (128 * (128 * (128 * (128 * (128 * Room(9)))))))));
  }

  lemma Prepended(s: seq<Byte>, middle: seq<Byte>, rest: seq<Byte>)
    requires s != [] && s[1..] == middle + rest
    ensures s == [s[0]] + middle + rest
  {
  }

  lemma {:induction false} VarintBound(s: seq<Byte>, taken: nat)
    requires taken <= 9 && TakeVarint(s, taken).Good?
    ensures TakeVarint(s, taken).value < Room(taken) && (taken > 0 ==> TakeVarint(s, taken).value > 0)
    decreases |s|
  {
    if s[0] >= 128 { VarintBound(s[1..], taken + 1); }
  }

  lemma {:induction false} VarintSoundFrom(s: seq<Byte>, taken: nat)
    requires taken <= 9 && TakeVarint(s, taken).Good?
    ensures var Good(value, rest) := TakeVarint(s, taken); s == EncodeVarint(value) + rest
    decreases |s|
  {
    var Good(value, rest) := TakeVarint(s, taken);
    if s[0] >= 128 {
      VarintBound(s[1..], taken + 1);
      VarintSoundFrom(s[1..], taken + 1);
      var high := TakeVarint(s[1..], taken + 1).value;
      assert value == s[0] - 128 + 128 * high;
      VarintCons(s[0] - 128, high);
      Prepended(s, EncodeVarint(high), rest);
    } else {
      assert EncodeVarint(s[0]) == [s[0]];
      Prepended(s, [], rest);
    }
  }

  lemma {:induction false} VarintCompleteFrom(value: nat, rest: seq<Byte>, taken: nat)
    requires taken <= 9 && value < Room(taken) && (taken > 0 ==> value > 0)
    ensures TakeVarint(EncodeVarint(value) + rest, taken) == Good(value, rest)
    decreases value
  {
    var s := EncodeVarint(value) + rest;
    if value < 128 {
      assert s[1..] == rest;
    } else {
      VarintCompleteFrom(value / 128, rest, taken + 1);
      VarintCons(value % 128, value / 128);
      assert s[1..] == EncodeVarint(value / 128) + rest;
    }
  }

  /** The reader accepts a byte string iff it starts with the varint of a 64-bit value, and returns that value. */
  lemma VarintReadIffWritten(s: seq<Byte>, value: nat, rest: seq<Byte>)
    ensures TakeVarint(s) == Good(value, rest) <==> value < U64 && s == EncodeVarint(value) + rest
  {
    RoomIsU64();
    if TakeVarint(s).Good? { VarintBound(s, 0); VarintSoundFrom(s, 0); }
    if value < U64 { VarintCompleteFrom(value, rest, 0); }
  }

  // ---- Round trip -----------------------------------------------------------

  lemma KeyOfEncoded(f: Field, rest: seq<Byte>)
    requires Writable(f)
    ensures TakeVarint(EncodeField(f) + rest) == Good(f.Key(), EncodePayload(f) + rest)
    ensures NumberOf(f.Key()) == f.number
  {
    assert EncodeField(f) + rest == EncodeVarint(f.Key()) + (EncodePayload(f) + rest);
    VarintReadIffWritten(EncodeField(f) + rest, f.Key(), EncodePayload(f) + rest);
  }

  lemma LengthOfEncoded(bytes: seq<Byte>, rest: seq<Byte>)
    requires |bytes| < U64
    ensures TakeVarint(EncodeVarint(|bytes|) + bytes + rest) == Good(|bytes|, bytes + rest)
  {
    assert EncodeVarint(|bytes|) + bytes + rest == EncodeVarint(|bytes|) + (bytes + rest);
    VarintReadIffWritten(EncodeVarint(|bytes|) + bytes + rest, |bytes|, bytes + rest);
  }

  lemma NextOfEncoded(f: Field, rest: seq<Byte>, previous: nat)
    requires Writable(f) && f.number >= previous
    ensures TakeField(EncodeField(f) + rest, previous) == Got(f, f.Key(), rest)
  {
    KeyOfEncoded(f, rest);
    match f
    case Varint(_, value) => VarintReadIffWritten(EncodePayload(f) + rest, value, rest);
    case Bytes(_, bytes) => LengthOfEncoded(bytes, rest);
  }

  lemma ReadAllOfOne(f: Field, rest: seq<Byte>, previous: nat)
    requires Writable(f) && f.number >= previous
    ensures ReadAll(EncodeField(f) + rest, previous)
      == ([f] + ReadAll(rest, f.number).0, ReadAll(rest, f.number).1)
  {
    NextOfEncoded(f, rest, previous);
  }

  lemma HeadAndTail<T>(a: seq<T>, b: seq<T>)
    requires a != []
    ensures [a[0]] + (a[1..] + b) == a + b
  {
  }

  /** The number that bounds the field after fs from below. */
  function Last(fs: seq<Field>, previous: nat): nat {
    if fs == [] then previous else fs[|fs| - 1].number
  }

  lemma {:induction false} ReadAllOfEncoded(fs: seq<Field>, tail: seq<Byte>, previous: nat)
    requires Canonical(fs, previous)
    ensures ReadAll(EncodeFields(fs) + tail, previous)
      == (fs + ReadAll(tail, Last(fs, previous)).0, ReadAll(tail, Last(fs, previous)).1)
    decreases |fs|
  {
    if fs == [] {
      assert EncodeFields(fs) + tail == tail;
      assert fs + ReadAll(tail, previous).0 == ReadAll(tail, previous).0;
    } else {
      var rest := EncodeFields(fs[1..]) + tail;
      assert EncodeFields(fs) + tail == EncodeField(fs[0]) + rest;
      assert Last(fs[1..], fs[0].number) == Last(fs, previous);
      HeadAndTail(fs, ReadAll(tail, Last(fs, previous)).0);
      ReadAllOfEncoded(fs[1..], tail, fs[0].number);
      ReadAllOfOne(fs[0], rest, previous);
    }
  }

  /** Reading back a written field list gives that list and leaves nothing unread. */
  lemma RoundTrip(fs: seq<Field>)
    requires Canonical(fs)
    ensures ReadAll(EncodeFields(fs)) == (fs, [])
  {
    ReadAllOfEncoded(fs, [], 0);
    assert EncodeFields(fs) + [] == EncodeFields(fs);
    assert fs + [] == fs;
  }

  lemma EncodingIsInjective(a: seq<Field>, b: seq<Field>)
    requires Canonical(a) && Canonical(b) && EncodeFields(a) == EncodeFields(b)
    ensures a == b
  {
    RoundTrip(a);
    RoundTrip(b);
  }

  // ---- What a read loop that ends with nothing unread has seen ---------------

  /** A varint cut short, too large, or longer than needed, refused exactly at its last byte. */
  predicate DeadVarint(t: seq<Byte>) {
    && 1 <= |t| <= 10
    && (forall i | 0 <= i < |t| - 1 :: t[i] >= 128)
    && var last := t[|t| - 1];
       last >= 128 || (|t| == 10 && last >= 2) || (|t| > 1 && last == 0)
  }

  lemma {:induction false} DeadVarintFrom(t: seq<Byte>, taken: nat)
    requires taken <= 10
    ensures TakeVarint(t, taken) == Bad([]) <==>
      t == [] ||
      (&& taken + |t| <= 10
       && (forall i | 0 <= i < |t| - 1 :: t[i] >= 128)
       && var last := t[|t| - 1];
          last >= 128 || (taken + |t| == 10 && last >= 2) || (taken + |t| > 1 && last == 0))
    decreases |t|
  {
    if t != [] && taken < 10 {
      var u := t[1..];
      DeadVarintFrom(u, taken + 1);
      assert forall i | 0 <= i < |u| :: u[i] == t[i + 1];
      if |u| > 0 {
        assert u[|u| - 1] == t[|t| - 1];
        if (forall i | 0 <= i < |u| - 1 :: u[i] >= 128) && t[0] >= 128 {
          assert forall i | 0 <= i < |t| - 1 :: t[i] == if i == 0 then t[0] else u[i - 1];
        }
      }
    }
  }

  lemma DeadVarintExact(t: seq<Byte>)
    ensures TakeVarint(t) == Bad([]) <==> t == [] || DeadVarint(t)
  {
    DeadVarintFrom(t, 0);
  }

  /** A number the reader refuses after `previous`. */
  predicate RefusedKey(key: nat, previous: nat) {
    NumberOf(key) == 0 || NumberOf(key) < previous || (key % 8 != 0 && key % 8 != 2)
  }

  /** The malformed last fields whose refusal happens to consume the final byte. */
  ghost predicate DeadTail(t: seq<Byte>, previous: nat) {
    || DeadVarint(t)
    || exists key: nat, u: seq<Byte> | key < U64 :: DeadAfterKey(t, previous, key, u)
  }

  ghost predicate DeadAfterKey(t: seq<Byte>, previous: nat, key: nat, u: seq<Byte>) {
    && t == EncodeVarint(key) + u
    && if RefusedKey(key, previous) then u == []
       else
         || u == []
         || DeadVarint(u)
         || (key % 8 == 2 && exists length: nat | 0 < length < U64 :: u == EncodeVarint(length))
  }

  lemma DeadTailExact(t: seq<Byte>, previous: nat)
    requires t != []
    ensures TakeField(t, previous) == Stop([]) <==> DeadTail(t, previous)
  {
    DeadVarintExact(t);
    if TakeVarint(t).Good? {
      var Good(key, u) := TakeVarint(t);
      VarintReadIffWritten(t, key, u);
      DeadAfterKeyExact(t, previous, key, u);
      forall key2: nat, u2: seq<Byte> | key2 < U64 && DeadAfterKey(t, previous, key2, u2)
        ensures key2 == key && u2 == u
      {
        VarintReadIffWritten(t, key2, u2);
      }
    } else {
      forall key: nat, u: seq<Byte> | key < U64 ensures !DeadAfterKey(t, previous, key, u) {
        VarintReadIffWritten(t, key, u);
      }
    }
  }

  lemma DeadAfterKeyExact(t: seq<Byte>, previous: nat, key: nat, u: seq<Byte>)
    requires TakeVarint(t) == Good(key, u) && t == EncodeVarint(key) + u
    ensures TakeField(t, previous) == Stop([]) <==> DeadAfterKey(t, previous, key, u)
  {
    DeadVarintExact(u);
    if TakeVarint(u).Good? {
      var Good(length, after) := TakeVarint(u);
      VarintReadIffWritten(u, length, after);
      forall l: nat | l < U64 && u == EncodeVarint(l) ensures l == length && after == [] {
        assert u == EncodeVarint(l) + [];
        VarintReadIffWritten(u, l, []);
      }
      assert after == [] ==> u == EncodeVarint(length);
    } else {
      forall l: nat | l < U64 ensures u != EncodeVarint(l) {
        VarintReadIffWritten(u, l, []);
        assert EncodeVarint(l) + [] == EncodeVarint(l);
      }
    }
  }

  /** The bytes of a field list under given keys; EncodeFields uses the keys Field.Key. */
  function EncodeRaw(fs: seq<Field>, keys: seq<nat>): seq<Byte>
    requires |fs| == |keys|
  {
    if fs == [] then [] else EncodeVarint(keys[0]) + EncodePayload(fs[0]) + EncodeRaw(fs[1..], keys[1..])
  }

  /** A 64-bit key the reader takes for that of field f. */
  predicate KeyFits(f: Field, key: nat) {
    key < U64 && f.number == NumberOf(key) && key % 8 == (if f.Varint? then 0 else 2)
  }

  predicate KeysFit(fs: seq<Field>, keys: seq<nat>) {
    |fs| == |keys| && (fs != [] ==> KeyFits(fs[0], keys[0]) && KeysFit(fs[1..], keys[1..]))
  }

  /**
   * What the read loop saw, for every input: the bytes are the encodings of
   * the fields returned, under 64-bit keys that agree with the fields up to
   * the narrowing of NumberOf, followed by a tail that starts no field; and
   * the loop ends with nothing unread iff that tail is empty or a dead tail.
   */
  lemma {:induction false} FinishedExact(s: seq<Byte>, previous: nat) returns (keys: seq<nat>, tail: seq<Byte>)
    ensures var (fs, unread) := ReadAll(s, previous);
      && KeysFit(fs, keys)
      && s == EncodeRaw(fs, keys) + tail
      && (tail != [] ==> TakeField(tail, Last(fs, previous)).Stop?)
      && (unread == [] <==> tail == [] || DeadTail(tail, Last(fs, previous)))
    decreases |s|
  {
    keys, tail := [], s;
    if s != [] {
      match TakeField(s, previous)
      case Stop(_) => DeadTailExact(s, previous);
      case Got(field, key, rest) =>
        NextIsEncoded(s, previous);
        keys, tail := FinishedExact(rest, field.number);
        RawCons(s, field, key, rest, ReadAll(rest, field.number).0, keys, tail, previous);
        keys := [key] + keys;
    }
  }

  lemma RawCons(s: seq<Byte>, f: Field, key: nat, rest: seq<Byte>,
                fs: seq<Field>, keys: seq<nat>, tail: seq<Byte>, previous: nat)
    requires KeyFits(f, key) && KeysFit(fs, keys)
    requires s == EncodeVarint(key) + EncodePayload(f) + rest
    requires rest == EncodeRaw(fs, keys) + tail
    ensures KeysFit([f] + fs, [key] + keys)
    ensures s == EncodeRaw([f] + fs, [key] + keys) + tail
    ensures Last([f] + fs, previous) == Last(fs, f.number)
  {
    assert ([f] + fs)[1..] == fs && ([key] + keys)[1..] == keys;
  }

  lemma NextIsEncoded(s: seq<Byte>, previous: nat)
    requires TakeField(s, previous).Got?
    ensures var Got(field, key, rest) := TakeField(s, previous);
      KeyFits(field, key) && s == EncodeVarint(key) + EncodePayload(field) + rest
  {
    var Got(field, key, rest) := TakeField(s, previous);
    var payload := TakeVarint(s).rest;
    VarintReadIffWritten(s, key, payload);
    PayloadIsEncoded(payload, field, rest);
    Regroup(EncodeVarint(key), EncodePayload(field), rest);
  }

  lemma PayloadIsEncoded(payload: seq<Byte>, field: Field, rest: seq<Byte>)
    requires match field
             case Varint(_, value) => TakeVarint(payload) == Good(value, rest)
             case Bytes(_, bytes) => TakeVarint(payload) == Good(|bytes|, bytes + rest)
    ensures payload == EncodePayload(field) + rest
  {
    match field
    case Varint(_, value) => VarintReadIffWritten(payload, value, rest);
    case Bytes(_, bytes) =>
      VarintReadIffWritten(payload, |bytes|, bytes + rest);
      Regroup(EncodeVarint(|bytes|), bytes, rest);
  }

  /** Keys below 2^35 are the fields' own keys, so the bytes are then the canonical encoding. */
  lemma {:induction false} SmallKeysAreCanonical(fs: seq<Field>, keys: seq<nat>)
    requires KeysFit(fs, keys)
    requires forall key | key in keys :: key < 8 * U32
    ensures EncodeRaw(fs, keys) == EncodeFields(fs)
  {
    if fs != [] {
      assert keys[0] in keys;
      assert keys[0] == fs[0].Key();
      assert forall key | key in keys[1..] :: key in keys;
      SmallKeysAreCanonical(fs[1..], keys[1..]);
    }
  }

  /** A finished read does not mean a canonical message: a cut-off key after it goes unnoticed. */
  lemma TruncatedTailIsFinished(fs: seq<Field>)
    requires Canonical(fs)
    ensures ReadAll(EncodeFields(fs) + [0x80]) == (fs, [])
  {
    ReadAllOfEncoded(fs, [0x80], 0);
    var last := Last(fs, 0);
    assert DeadVarint([0x80]);
    DeadTailExact([0x80], last);
    assert fs + [] == fs;
  }

  // ---- The mutable reader -----------------------------------------------------

  class Cursor {
    const data: seq<Byte>
    var offset: nat
    var previousField: nat

    ghost predicate Valid()
      reads this
    {
      offset <= |data|
    }

    ghost function Unread(): seq<Byte>
      requires Valid()
      reads this
    {
      data[offset..]
    }

    constructor (data: seq<Byte>)
      ensures Valid() && this.data == data && Unread() == data && previousField == 0
    {
      this.data := data;
      offset := 0;
      previousField := 0;
    }

    /** The source's accumulating loop: shift counts seven bits per byte consumed. */
    method ReadVarint() returns (ok: bool, value: nat)
      requires Valid()
      modifies this`offset
      ensures Valid()
      ensures TakeVarint(old(Unread())) == if ok then Good(value, Unread()) else Bad(Unread())
    {
      var decoded: nat, weight: nat, taken: nat := 0, 1, 0;
      ok, value := false, 0;
      ghost var start := Unread();
      while offset < |data| && taken < 10
        invariant Valid() && taken <= 10
        invariant TakeVarint(start) == Shifted(decoded, weight, TakeVarint(Unread(), taken))
        decreases |data| - offset
      {
        var byte := data[offset];
        ghost var before := Unread();
        offset := offset + 1;
        assert before[1..] == Unread();
        if taken == 9 && byte >= 2 { return; }
        var low: nat := if byte < 128 then byte else byte - 128;
        ShiftedStep(decoded, weight, low, TakeVarint(Unread(), taken + 1));
        decoded := decoded + low * weight;
        if byte < 128 {
          if taken > 0 && byte == 0 { return; }
          return true, decoded;
        }
        weight := weight * 128;
        taken := taken + 1;
      }
    }

    method Next() returns (ok: bool, field: Field)
      requires Valid()
      modifies this
      ensures Valid()
      ensures var step := TakeField(old(Unread()), old(previousField));
        && ok == step.Got? && Unread() == step.rest
        && (ok ==> field == step.field && previousField == field.number)
    {
      field := Varint(0, 0);
      ok := false;
      if offset >= |data| { return; }
      var got, key := ReadVarint();
      if !got { return; }
      var number := NumberOf(key);
      if number == 0 || number < previousField { return; }
      previousField := number;
      if key % 8 == 0 {
        var value;
        ok, value := ReadVarint();
        field := Varint(number, value);
        return;
      }
      if key % 8 != 2 { return; }
      var hasLength, length := ReadVarint();
      if !hasLength || length > |data| - offset { return; }
      field := Bytes(number, data[offset..offset + length]);
      assert Unread()[length..] == data[offset + length..];
      offset := offset + length;
      ok := true;
    }

    method Finished() returns (finished: bool)
      requires Valid()
      ensures finished == (Unread() == [])
    {
      finished := offset == |data|;
    }
  }

  /** A read result whose value stands `weight` above an already decoded low part. */
  function Shifted(decoded: nat, weight: nat, r: VarintRead): VarintRead {
    match r
    case Bad(rest) => Bad(rest)
    case Good(value, rest) => Good(decoded + weight * value, rest)
  }

  lemma ShiftedStep(decoded: nat, weight: nat, low: nat, r: VarintRead)
    ensures r.Good? ==>
      Shifted(decoded, weight, Good(low + 128 * r.value, r.rest))
      == Shifted(decoded + low * weight, weight * 128, r)
    ensures Shifted(decoded, weight, Good(low, r.rest)) == Good(decoded + low * weight, r.rest)
  {
    if r.Good? {
      assert weight * (low + 128 * r.value) == low * weight + weight * 128 * r.value;
    }
  }

  // ---- The mutable writer -------------------------------------------------------

  /** A C string: bytes up to, and not including, the terminating zero. */
  type CString = s: seq<Byte> | 0 !in s

  /** One call of a writer, whose result the caller may ignore. */
  datatype Write =
    | PutUint64(number: nat, value: nat)
    | PutBool(number: nat, flag: bool)
    | PutBytes(number: nat, bytes: seq<Byte>)
    | PutString(number: nat, text: Option<CString>)  // None is a null pointer

  /** The field a call asks for; a null string asks for none. */
  function FieldOf(w: Write): Option<Field> {
    match w
    case PutUint64(number, value) => Some(Varint(number, value))
    case PutBool(number, flag) => Some(Varint(number, if flag then 1 else 0))
    case PutBytes(number, bytes) => Some(Bytes(number, bytes))
    case PutString(number, Some(text)) => Some(Bytes(number, text))
    case PutString(_, None) => None
  }

  function FieldsOf(script: seq<Write>): seq<Field> {
    if script == [] then []
    else Asked(script[0]) + FieldsOf(script[1..])
  }

  function Asked(w: Write): seq<Field> {
    match FieldOf(w) case Some(f) => [f] case None => []
  }

  lemma FieldsOfStep(script: seq<Write>, k: nat)
    requires k < |script|
    ensures FieldsOf(script[k..]) == Asked(script[k]) + FieldsOf(script[k + 1..])
  {
    assert script[k..][1..] == script[k + 1..];
  }

  /** The argument types of the source: 32-bit field numbers, 64-bit values. */
  predicate Typed(w: Write) {
    w.number < U32 && (w.PutUint64? ==> w.value < U64)
  }

  /** The byte loop of put_varint; its ten-byte bound never cuts a 64-bit value short. */
  method VarintBytes(value: nat) returns (encoded: seq<Byte>)
    requires value < U64
    ensures encoded == EncodeVarint(value)
  {
    U64VarintLength(value);
    encoded := [];
    var remaining := value;
    while true
      invariant EncodeVarint(value) == encoded + EncodeVarint(remaining)
      decreases remaining
    {
      var byte, high := remaining % 128, remaining / 128;
      if high != 0 {
        VarintCons(byte, high);
        assert remaining == byte + 128 * high;
        byte := byte + 128;
      }
      encoded := encoded + [byte];
      remaining := high;
      if remaining == 0 || |encoded| >= 10 { break; }
    }
  }

  class Buffer {
    const data: array<Byte>
    var length: nat
    var failed: bool

    ghost predicate Valid()
      reads this
    {
      length <= data.Length
    }

    ghost function Contents(): seq<Byte>
      requires Valid()
      reads this, data
    {
      data[..length]
    }

    constructor (data: array<Byte>)
      ensures Valid() && this.data == data && Contents() == [] && !failed
    {
      this.data := data;
      length := 0;
      failed := false;
    }

    /** All or nothing; a refusal sets the sticky flag. */
    method Append(value: seq<Byte>) returns (ok: bool)
      requires Valid()
      modifies this, data
      ensures Valid()
      ensures ok == (!old(failed) && |value| <= data.Length - old(length)) && failed == !ok
      ensures Contents() == old(Contents()) + if ok then value else []
    {
      if failed || |value| > data.Length - length {
        failed := true;
        return false;
      }
      forall i | 0 <= i < |value| { data[length + i] := value[i]; }
      length := length + |value|;
      assert Contents() == old(Contents()) + value;
      return true;
    }

    method PutVarint(value: nat) returns (ok: bool)
      requires Valid() && value < U64
      modifies this, data
      ensures Valid()
      ensures var bytes := EncodeVarint(value);
        && ok == (!old(failed) && |bytes| <= data.Length - old(length)) && failed == !ok
        && Contents() == old(Contents()) + if ok then bytes else []
    {
      var encoded := VarintBytes(value);
      ok := Append(encoded);
    }

    method PutKey(number: nat, wireType: nat) returns (ok: bool)
      requires Valid() && number < U32 && (wireType == 0 || wireType == 2)
      modifies this, data
      ensures Valid()
      ensures var bytes := EncodeVarint(number * 8 + wireType);
        && ok == (!old(failed) && 1 <= number <= MAX_FIELD && |bytes| <= data.Length - old(length))
        && failed == !ok
        && Contents() == old(Contents()) + if ok then bytes else []
    {
      if number == 0 || number > MAX_FIELD {
        failed := true;
        return false;
      }
      ok := PutVarint(number * 8 + wireType);
    }

    /**
     * One writer call.  It succeeds iff the buffer has not failed, the field is
     * encodable and fits; it then appends exactly the field.  Otherwise bytes
     * already written are kept and the sticky flag is set, except for a null
     * string, which is refused without setting it.
     */
    method Put(w: Write) returns (ok: bool)
      requires Valid() && Typed(w)
      modifies this, data
      ensures Valid()
      ensures ok == (FieldOf(w).Some? && !old(failed) && Writable(FieldOf(w).value)
                     && |EncodeField(FieldOf(w).value)| <= data.Length - old(length))
      ensures ok ==> !failed && Contents() == old(Contents()) + EncodeField(FieldOf(w).value)
      ensures !ok && FieldOf(w).Some? ==> failed && old(Contents()) <= Contents()
      ensures FieldOf(w).None? ==> failed == old(failed) && Contents() == old(Contents())
    {
      match w
      case PutUint64(number, value) => ok := PutInteger(number, value);
      case PutBool(number, flag) => ok := PutInteger(number, if flag then 1 else 0);
      case PutBytes(number, bytes) => ok := PutSlice(number, bytes);
      case PutString(number, Some(text)) => ok := PutSlice(number, text);
      case PutString(_, None) => ok := false;
    }

    method PutInteger(number: nat, value: nat) returns (ok: bool)
      requires Valid() && number < U32 && value < U64
      modifies this, data
      ensures Valid()
      ensures var f := Varint(number, value);
        && ok == (!old(failed) && Writable(f) && |EncodeField(f)| <= data.Length - old(length))
        && failed == !ok
        && (ok ==> Contents() == old(Contents()) + EncodeField(f))
        && old(Contents()) <= Contents()
    {
      ghost var start := Contents();
      ok := PutKey(number, 0);
      if ok {
        ok := PutVarint(value);
        Regroup(start, EncodeVarint(number * 8), EncodeVarint(value));
      }
    }

    method PutSlice(number: nat, bytes: seq<Byte>) returns (ok: bool)
      requires Valid() && number < U32
      modifies this, data
      ensures Valid()
      ensures var f := Bytes(number, bytes);
        && ok == (!old(failed) && Writable(f) && |EncodeField(f)| <= data.Length - old(length))
        && failed == !ok
        && (ok ==> Contents() == old(Contents()) + EncodeField(f))
        && old(Contents()) <= Contents()
    {
      if |bytes| >= U32 {
        failed := true;
        return false;
      }
      ghost var start := Contents();
      ok := PutKey(number, 2);
      if ok {
        ok := PutVarint(|bytes|);
        if ok && bytes != [] { ok := Append(bytes); }
        Regroup(start, EncodeVarint(number * 8 + 2), EncodeVarint(|bytes|) + bytes);
        Regroup(start + EncodeVarint(number * 8 + 2), EncodeVarint(|bytes|), bytes);
      }
    }
  }

  /** Every field of fs is encodable and all of them fit a buffer after its first `length` bytes. */
  predicate AllFit(fs: seq<Field>, failed: bool, length: nat, capacity: nat) {
    && !failed
    && (forall f | f in fs :: Writable(f))
    && length + |EncodeFields(fs)| <= capacity
  }

  lemma AllFitSnoc(fs: seq<Field>, f: Field, failed: bool, length: nat, capacity: nat)
    ensures AllFit(fs + [f], failed, length, capacity) <==>
      && AllFit(fs, failed, length, capacity) && Writable(f)
      && length + |EncodeFields(fs)| + |EncodeField(f)| <= capacity
  {
    EncodeFieldsSnoc(fs, f);
    assert f in fs + [f];
    assert forall g | g in fs :: g in fs + [f];
  }

  lemma AllFitPrefix(a: seq<Field>, b: seq<Field>, failed: bool, length: nat, capacity: nat)
    requires AllFit(a + b, failed, length, capacity)
    ensures AllFit(a, failed, length, capacity)
  {
    EncodeFieldsAppend(a, b);
    assert forall f | f in a :: f in a + b;
  }

  /**
   * A caller that ignores every result, as filebelt_readdir does, may still
   * trust the flag: at the end it is clear iff it was clear before, every
   * field asked for was encodable and all of them fit together, and then
   * exactly those fields were appended.
   */
  method WriteAll(buffer: Buffer, script: seq<Write>)
    requires buffer.Valid()
    requires forall w | w in script :: Typed(w)
    modifies buffer, buffer.data
    ensures buffer.Valid()
    ensures !buffer.failed <==>
      AllFit(FieldsOf(script), old(buffer.failed), old(buffer.length), buffer.data.Length)
    ensures !buffer.failed ==> buffer.Contents() == old(buffer.Contents()) + EncodeFields(FieldsOf(script))
  {
    var k := 0;
    ghost var done: seq<Field> := [];
    ghost var failed0, contents0 := buffer.failed, buffer.Contents();
    while k < |script|
      invariant 0 <= k <= |script|
      invariant FieldsOf(script) == done + FieldsOf(script[k..])
      invariant Tracks(buffer, done, failed0, contents0)
    {
      FieldsOfStep(script, k);
      var _ := PutTracked(buffer, script[k], done, failed0, contents0);
      done := done + Asked(script[k]);
      k := k + 1;
    }
    assert done == FieldsOf(script) by { assert script[k..] == [] && done + [] == done; }
  }

  ghost predicate Tracks(buffer: Buffer, done: seq<Field>, failed0: bool, contents0: seq<Byte>)
    reads buffer, buffer.data
  {
    && buffer.Valid()
    && (!buffer.failed <==> AllFit(done, failed0, |contents0|, buffer.data.Length))
    && (!buffer.failed ==> buffer.Contents() == contents0 + EncodeFields(done))
  }

  /** Buffer.Put, stated for a buffer that has already been through some writes. */
  method PutTracked(buffer: Buffer, w: Write, ghost done: seq<Field>, ghost failed0: bool, ghost contents0: seq<Byte>)
      returns (ok: bool)
    requires Tracks(buffer, done, failed0, contents0) && Typed(w)
    modifies buffer, buffer.data
    ensures Tracks(buffer, done + Asked(w), failed0, contents0)
    ensures ok == (FieldOf(w).Some? && !buffer.failed)
  {
    if FieldOf(w).None? {
      ok := buffer.Put(w);
      assert done + Asked(w) == done;
    } else {
      ghost var f := FieldOf(w).value;
      AllFitSnoc(done, f, failed0, |contents0|, buffer.data.Length);
      assert !buffer.failed ==> buffer.length == |contents0| + |EncodeFields(done)|;
      ok := buffer.Put(w);
      assert ok == AllFit(done + [f], failed0, |contents0|, buffer.data.Length);
      if ok { AppendOne(buffer.Contents(), contents0, done, f); }
    }
  }

  lemma AppendOne(contents: seq<Byte>, contents0: seq<Byte>, done: seq<Field>, f: Field)
    requires contents == contents0 + EncodeFields(done) + EncodeField(f)
    ensures contents == contents0 + EncodeFields(done + [f])
  {
    EncodeFieldsSnoc(done, f);
    Regroup(contents0, EncodeFields(done), EncodeField(f));
  }

  /** A null string is refused in silence: no flag is set and nothing is written. */
  method NullStringIsSilent(buffer: Buffer, number: nat)
    requires buffer.Valid() && number < U32
    modifies buffer, buffer.data
    ensures buffer.Valid()
    ensures buffer.failed == old(buffer.failed) && buffer.Contents() == old(buffer.Contents())
  {
    var ok := buffer.Put(PutString(number, None));
    assert !ok;
  }
}
