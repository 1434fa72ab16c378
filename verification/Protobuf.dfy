/**
 * The protobuf wire subset that the NFS adapter and the collaboration client
 * write: base-128 varints, varint fields and length-delimited fields.  This
 * module holds the encoding; Wire and CollaborationWire hold the two programs.
 */
module Protobuf {
  import opened Prelude

  const MAX_FIELD: nat := 0x1fff_ffff

  /** The shortest base-128 little-endian form of v, with continuation bits. */
  function EncodeVarint(v: nat): (s: seq<Byte>)
    ensures s != []
  {
    if v < 128 then [v] else [v % 128 + 128] + EncodeVarint(v / 128)
  }

  /** What a varint denotes: seven bits of each byte, least significant first. */
  function VarintValue(s: seq<Byte>): nat {
    if s == [] then 0 else s[0] % 128 + 128 * VarintValue(s[1..])
  }

  /** A varint denotes its value, has the high bit on every byte but the last, and no empty last byte. */
  lemma {:induction false} VarintDenotes(v: nat)
    ensures var s := EncodeVarint(v);
      && VarintValue(s) == v && s[|s| - 1] < 128 && (|s| > 1 ==> s[|s| - 1] > 0)
      && forall i | 0 <= i < |s| - 1 :: s[i] >= 128
  {
    if v < 128 {
      assert [v][1..] == [];
    } else {
      var rest := EncodeVarint(v / 128);
      VarintDenotes(v / 128);
      assert ([v % 128 + 128] + rest)[1..] == rest;
    }
  }

  lemma VarintCons(low: nat, high: nat)
    requires low < 128 && high > 0
    ensures EncodeVarint(low + 128 * high) == [low + 128] + EncodeVarint(high)
  {
    var v := low + 128 * high;
    assert v / 128 == high && v % 128 == low;
  }

  datatype Field =
    | Varint(number: nat, value: nat)
    | Bytes(number: nat, bytes: seq<Byte>)
  {
    function Key(): nat { number * 8 + if Varint? then 0 else 2 }
  }

  /** What follows a field's key. */
  function EncodePayload(f: Field): seq<Byte> {
    match f
    case Varint(_, value) => EncodeVarint(value)
    case Bytes(_, bytes) => EncodeVarint(|bytes|) + bytes
  }

  function EncodeField(f: Field): seq<Byte> {
    EncodeVarint(f.Key()) + EncodePayload(f)
  }

  function EncodeFields(fs: seq<Field>): seq<Byte> {
    if fs == [] then [] else EncodeField(fs[0]) + EncodeFields(fs[1..])
  }

  lemma {:induction false} EncodeFieldsAppend(a: seq<Field>, b: seq<Field>)
    ensures EncodeFields(a + b) == EncodeFields(a) + EncodeFields(b)
  {
    if a == [] {
      assert a + b == b;
    } else {
      assert (a + b)[1..] == a[1..] + b;
      EncodeFieldsAppend(a[1..], b);
    }
  }

  lemma EncodeFieldsSnoc(a: seq<Field>, f: Field)
    ensures EncodeFields(a + [f]) == EncodeFields(a) + EncodeField(f)
  {
    EncodeFieldsAppend(a, [f]);
    assert [f][1..] == [];
    assert EncodeFields([f]) == EncodeField(f) + [];
  }

  /** A short field, byte by byte. */
  lemma ShortField(number: nat, value: nat, bytes: seq<Byte>)
    requires number < 16 && value < 128 && |bytes| < 128
    ensures EncodeField(Varint(number, value)) == [8 * number, value]
    ensures EncodeField(Bytes(number, bytes)) == [8 * number + 2, |bytes|] + bytes
  {
  }

  // ---- Size and shape of a varint ----------------------------------------

  /** The values whose varint takes at most n bytes. */
  function Capacity(n: nat): nat {
    if n == 0 then 1 else 128 * Capacity(n - 1)
  }

  lemma {:induction false} VarintLength(v: nat, n: nat)
    requires n > 0 && v < Capacity(n)
    ensures |EncodeVarint(v)| <= n
  {
    if v >= 128 {
      assert Capacity(1) == 128 * Capacity(0);
      VarintLength(v / 128, n - 1);
    }
  }

  lemma U64VarintLength(v: nat)
    requires v < U64
    ensures |EncodeVarint(v)| <= 10
  {
    assert Capacity(10) == 128 * (128 * (128 * (128 * (128 * (128 * (128 * (128 * (128 * Capacity(1)))))))));
    VarintLength(v, 10);
  }

  lemma SmallVarint(v: nat)
    ensures v < 128 ==> |EncodeVarint(v)| == 1
    ensures v < 16_384 ==> |EncodeVarint(v)| <= 2
    ensures v < 2_097_152 ==> |EncodeVarint(v)| <= 3
    ensures v < 268_435_456 ==> |EncodeVarint(v)| <= 4
  {
    assert Capacity(2) == 128 * (128 * Capacity(0));
    assert Capacity(3) == 128 * Capacity(2);
    assert Capacity(4) == 128 * Capacity(3);
    if v < Capacity(2) { VarintLength(v, 2); }
    if v < Capacity(3) { VarintLength(v, 3); }
    if v < Capacity(4) { VarintLength(v, 4); }
  }
}
