/** Types shared by every module. */
module Prelude {

  datatype Option<+T> = None | Some(value: T)

  datatype Result<+T, +E> = Ok(value: T) | Err(error: E)

  /** An octet. */
  type Byte = b: int | 0 <= b < 256

  predicate IsAscii(s: string) { forall i | 0 <= i < |s| :: s[i] as int < 128 }

  /** The bytes of an ASCII string. */
  function Ascii(s: string): (bytes: seq<Byte>)
    requires IsAscii(s)
    ensures |bytes| == |s|
  {
    seq(|s|, i requires 0 <= i < |s| => s[i] as int)
  }

  /** An ASCII hexadecimal digit. */
  predicate HexDigit(b: Byte) { 48 <= b <= 57 || 65 <= b <= 70 || 97 <= b <= 102 }

  const HEX_DIGITS := "0123456789abcdefABCDEF"

  lemma HexDigitIff(b: Byte)
    ensures HexDigit(b) <==> b in Ascii(HEX_DIGITS)
  {
    var digits := Ascii(HEX_DIGITS);
    if HexDigit(b) {
      var i := if b <= 57 then b - 48 else if b <= 70 then b - 65 + 16 else b - 97 + 10;
      assert digits[i] == b;
    }
  }

  const U32: nat := 0x1_0000_0000
  const U64: nat := 0x1_0000_0000_0000_0000

  /** The largest frame that the NFS adapter exchanges with its peers. */
  const MAX_FRAME_BYTES: nat := 1114112

  lemma Regroup<T>(a: seq<T>, b: seq<T>, c: seq<T>)
    ensures a + b + c == a + (b + c)
  {
  }

  /** Concatenation of a list of lists. */
  function Flatten<T>(parts: seq<seq<T>>): seq<T> {
    if parts == [] then [] else parts[0] + Flatten(parts[1..])
  }

  lemma {:induction false} FlattenAppend<T>(a: seq<seq<T>>, b: seq<seq<T>>)
    ensures Flatten(a + b) == Flatten(a) + Flatten(b)
  {
    if a == [] {
      assert a + b == b;
    } else {
      assert (a + b)[1..] == a[1..] + b;
      FlattenAppend(a[1..], b);
    }
  }

  lemma FlattenOne<T>(part: seq<T>)
    ensures Flatten([part]) == part
  {
    var parts := [part];
    assert parts[1..] == [];
    assert Flatten(parts) == part + [];
  }
}
