/**
 * The active Program record as the bytes of `union Program_u` (src/main.cpp:44-55).
 *
 * On the AVR `struct Program_s` is one `uint8_t type` followed by five 4-byte
 * floats with no padding: 21 bytes. Byte 0 is the type; value k occupies
 * bytes 1+4k .. 4+4k. The floats are replaced by a fixed-point stand-in: a
 * signed 32-bit little-endian count of hundredths, so that 9999.99 is 999999.
 */
module ProgramImage {

  /** An 8-bit unsigned byte (`uint8_t`, and the `char` of the EEPROM calls). */
  newtype byte = x: int | 0 <= x < 256

  const RecordSize: nat := 21
  const ValueCount: nat := 5

  /** The program types (`PRG_EMPTY`, `PRG_LINEAR`, `PRG_ROTARY`, `PRG_LAST`). */
  const TypeEmpty: byte := 0
  const TypeLinear: byte := 1
  const TypeRotary: byte := 2
  const TypeLast: byte := 3

  /** Indexes into `values`; length and radius share index 3. */
  const ValSteps: nat := 0
  const ValSpeed: nat := 1
  const ValPreStart: nat := 2
  const ValLength: nat := 3
  const ValRadius: nat := 3
  const ValCircumference: nat := 4

  /** 10000.00 and 9999.99 in hundredths: the bounds of the field clamp. */
  const ValueLimit: int := 1000000
  const ValueMax: int := 999999

  /** The byte offset of value `k` inside the record. */
  function ValueOffset(k: nat): (o: nat)
    requires k < ValueCount
    ensures 1 <= o && o + 4 <= RecordSize
  {
    1 + 4 * k
  }

  function Pow256(n: nat): (p: nat)
    ensures p >= 1
  {
    if n == 0 then 1 else 256 * Pow256(n - 1)
  }

  lemma Pow256Four()
    ensures Pow256(4) == 0x1_0000_0000
  {
    assert Pow256(1) == 256;
    assert Pow256(2) == 65536;
    assert Pow256(3) == 16777216;
  }

  /** The unsigned value of a little-endian byte string. */
  function FromBytes(bs: seq<byte>): nat
  {
    if bs == [] then 0 else bs[0] as nat + 256 * FromBytes(bs[1..])
  }

  /** The `n` least significant bytes of `u`, little-endian. */
  function ToBytes(u: nat, n: nat): (bs: seq<byte>)
    ensures |bs| == n
  {
    if n == 0 then [] else [(u % 256) as byte] + ToBytes(u / 256, n - 1)
  }

  lemma {:induction false} FromBytesBound(bs: seq<byte>)
    ensures FromBytes(bs) < Pow256(|bs|)
  {
    if bs != [] {
      FromBytesBound(bs[1..]);
      assert FromBytes(bs[1..]) + 1 <= Pow256(|bs| - 1);
    }
  }

  /** Division by 256 splits a number into its low byte and the rest. */
  lemma DivMod256(b: nat, x: nat)
    requires b < 256
    ensures (b + 256 * x) % 256 == b && (b + 256 * x) / 256 == x
  {
  }

  lemma QuotientBound(u: nat, p: nat)
    requires u < 256 * p
    ensures u / 256 < p && u == 256 * (u / 256) + u % 256
  {
  }

  lemma {:induction false} FromToBytes(u: nat, n: nat)
    requires u < Pow256(n)
    ensures FromBytes(ToBytes(u, n)) == u
  {
    if n > 0 {
      var q, r := u / 256, u % 256;
      QuotientBound(u, Pow256(n - 1));
      var rest := ToBytes(q, n - 1);
      var bs := [r as byte] + rest;
      assert bs == ToBytes(u, n);
      assert bs[1..] == rest;
      FromToBytes(q, n - 1);
      assert FromBytes(bs) == r + 256 * FromBytes(rest);
    }
  }

  lemma {:induction false} ToFromBytes(bs: seq<byte>)
    ensures ToBytes(FromBytes(bs), |bs|) == bs
  {
    if bs != [] {
      var u := FromBytes(bs);
      DivMod256(bs[0] as nat, FromBytes(bs[1..]));
      assert u % 256 == bs[0] as nat && u / 256 == FromBytes(bs[1..]);
      ToFromBytes(bs[1..]);
      assert ToBytes(u, |bs|) == [(u % 256) as byte] + ToBytes(u / 256, |bs| - 1);
      assert ToBytes(u, |bs|) == [bs[0]] + bs[1..];
    }
  }

  const Int32Min: int := -0x8000_0000
  const Int32Limit: int := 0x8000_0000

  predicate IsInt32(v: int) { Int32Min <= v < Int32Limit }

  /** The value held by a 4-byte field: two's complement, little-endian. */
  function DecodeValue(bs: seq<byte>): (v: int)
    requires |bs| == 4
    ensures IsInt32(v)
  {
    FromBytesBound(bs);
    Pow256Four();
    var u := FromBytes(bs);
    if u >= Int32Limit then u - 0x1_0000_0000 else u
  }

  /** The 4 bytes that hold value `v`. */
  function EncodeValue(v: int): (bs: seq<byte>)
    requires IsInt32(v)
    ensures |bs| == 4
  {
    ToBytes(if v < 0 then v + 0x1_0000_0000 else v, 4)
  }

  lemma DecodeEncode(v: int)
    requires IsInt32(v)
    ensures DecodeValue(EncodeValue(v)) == v
  {
    Pow256Four();
    FromToBytes(if v < 0 then v + 0x1_0000_0000 else v, 4);
  }

  lemma EncodeDecode(bs: seq<byte>)
    requires |bs| == 4
    ensures EncodeValue(DecodeValue(bs)) == bs
  {
    FromBytesBound(bs);
    Pow256Four();
    ToFromBytes(bs);
  }

  /** Value `k` of a record. */
  function ValueAt(img: seq<byte>, k: nat): int
    requires |img| == RecordSize && k < ValueCount
  {
    DecodeValue(img[ValueOffset(k)..ValueOffset(k) + 4])
  }

  /** Two records that agree outside field `k` agree on the type and on every other value. */
  lemma OtherFieldsAgree(a: seq<byte>, b: seq<byte>, k: nat)
    requires |a| == RecordSize && |b| == RecordSize && k < ValueCount
    requires forall i :: 0 <= i < RecordSize && !(ValueOffset(k) <= i < ValueOffset(k) + 4) ==> a[i] == b[i]
    ensures a[0] == b[0]
    ensures forall j :: 0 <= j < ValueCount && j != k ==> ValueAt(a, j) == ValueAt(b, j)
  {
    forall j | 0 <= j < ValueCount && j != k
      ensures ValueAt(a, j) == ValueAt(b, j)
    {
      var o := ValueOffset(j);
      assert a[o..o + 4] == b[o..o + 4];
    }
  }

  /** The record with value `k` set to `v` (the `values[k] = v` assignments). */
  function WithValue(img: seq<byte>, k: nat, v: int): (r: seq<byte>)
    requires |img| == RecordSize && k < ValueCount && IsInt32(v)
    ensures |r| == RecordSize
    ensures ValueAt(r, k) == v
    ensures forall i :: 0 <= i < RecordSize && !(ValueOffset(k) <= i < ValueOffset(k) + 4) ==> r[i] == img[i]
  {
    var o := ValueOffset(k);
    var r := img[..o] + EncodeValue(v) + img[o + 4..];
    assert r[o..o + 4] == EncodeValue(v);
    DecodeEncode(v);
    r
  }

  /** Setting one value leaves the type and every other value as they were. */
  lemma WithValueFrame(img: seq<byte>, k: nat, v: int, j: nat)
    requires |img| == RecordSize && k < ValueCount && IsInt32(v) && j < ValueCount && j != k
    ensures WithValue(img, k, v)[0] == img[0]
    ensures ValueAt(WithValue(img, k, v), j) == ValueAt(img, j)
  {
    OtherFieldsAgree(WithValue(img, k, v), img, k);
  }

  /**
   * The wrap-around clamp after a field edit: below 0 becomes 9999.99, at or
   * above 10000 becomes 0, anything in between is kept.
   */
  function Clamp(v: int): (r: int)
    ensures 0 <= r < ValueLimit
    ensures 0 <= v < ValueLimit ==> r == v
    ensures v < 0 ==> r == ValueMax
    ensures v >= ValueLimit ==> r == 0
  {
    if v < 0 then ValueMax else if v >= ValueLimit then 0 else v
  }

  /** The C conversion of a value (in hundredths) to `int`: truncation toward zero. */
  function Truncate(v: int): (r: int)
    ensures v >= 0 ==> 0 <= 100 * r <= v < 100 * r + 100
    ensures v < 0 ==> 100 * r - 100 < v <= 100 * r <= 0
  {
    if v >= 0 then v / 100 else -((-v) / 100)
  }

  /** The zero-filled global record: type Empty, every value 0. */
  const Blank: seq<byte> := [0, 0, 0, 0, 0, 0, 0, 0, 0, 0, 0, 0, 0, 0, 0, 0, 0, 0, 0, 0, 0]

  lemma BlankIsEmpty()
    ensures |Blank| == RecordSize && Blank[0] == TypeEmpty
    ensures forall k :: 0 <= k < ValueCount ==> ValueAt(Blank, k) == 0
  {
    forall k | 0 <= k < ValueCount
      ensures ValueAt(Blank, k) == 0
    {
      var o := ValueOffset(k);
      var z: seq<byte> := [0, 0, 0, 0];
      assert Blank[o..o + 4] == z;
      assert z[1..][1..][1..][1..] == [];
      assert FromBytes(z[1..][1..][1..]) == 0;
      assert FromBytes(z[1..][1..]) == 0;
      assert FromBytes(z[1..]) == 0;
    }
  }
}
