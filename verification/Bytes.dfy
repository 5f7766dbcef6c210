/** Big-endian unsigned fields inside byte strings. */
module Bytes {

  type Byte = b: nat | b < 256

  type ByteString = seq<Byte>

  function Power256(n: nat): nat {
    if n == 0 then 1 else 256 * Power256(n - 1)
  }

  /** Whether a value fits in a field of some bytes. */
  predicate Fits(value: nat, length: nat) {
    value < Power256(length)
  }

  function Uint(value: nat, length: nat): (bs: ByteString)
    requires Fits(value, length)
    ensures |bs| == length
  {
    if length == 0 then [] else Uint(value / 256, length - 1) + [value % 256]
  }

  function FromBytes(bs: ByteString): (value: nat)
    ensures Fits(value, |bs|)
  {
    if bs == [] then 0 else 256 * FromBytes(bs[..|bs| - 1]) + bs[|bs| - 1]
  }

  /** A slice with both ends clamped to the string, as the source language takes it. */
  function Slice(bs: ByteString, lo: nat, hi: nat): ByteString {
    var end := if hi < |bs| then hi else |bs|;
    if lo < end then bs[lo..end] else []
  }

  /** An unsigned field read at some offset. */
  function Field(bs: ByteString, offset: nat, length: nat): nat {
    FromBytes(Slice(bs, offset, offset + length))
  }

  lemma FieldWidths()
    ensures Power256(1) == 0x100
    ensures Power256(2) == 0x1_0000
    ensures Power256(4) == 0x1_0000_0000
    ensures Power256(6) == 0x1_0000_0000_0000
    ensures Power256(8) == 0x1_0000_0000_0000_0000
  {
  }

  // Fields of the four widths the feed uses, with their ranges.

  function U16(bs: ByteString, offset: nat): (value: nat)
    requires offset + 2 <= |bs|
    ensures value < 0x1_0000
  {
    FieldWidths();
    Field(bs, offset, 2)
  }

  function U32(bs: ByteString, offset: nat): (value: nat)
    requires offset + 4 <= |bs|
    ensures value < 0x1_0000_0000
  {
    FieldWidths();
    Field(bs, offset, 4)
  }

  function U48(bs: ByteString, offset: nat): (value: nat)
    requires offset + 6 <= |bs|
    ensures value < 0x1_0000_0000_0000
  {
    FieldWidths();
    Field(bs, offset, 6)
  }

  function U64(bs: ByteString, offset: nat): (value: nat)
    requires offset + 8 <= |bs|
    ensures value < 0x1_0000_0000_0000_0000
  {
    FieldWidths();
    Field(bs, offset, 8)
  }

  lemma FieldSnoc(bs: ByteString, offset: nat, length: nat)
    requires offset + length < |bs|
    ensures Field(bs, offset, length + 1) == 0x100 * Field(bs, offset, length) + bs[offset + length] as nat
  {
    var longer := Slice(bs, offset, offset + length + 1);
    assert longer[..length] == Slice(bs, offset, offset + length);
  }

  /** Fields are big-endian: the first byte weighs most. */
  lemma BigEndian(bs: ByteString, offset: nat)
    ensures offset + 2 <= |bs| ==> U16(bs, offset) == 0x100 * bs[offset] as nat + bs[offset + 1] as nat
    ensures offset + 4 <= |bs| ==> U32(bs, offset) == 0x1_0000 * U16(bs, offset) + U16(bs, offset + 2)
    ensures offset + 6 <= |bs| ==> U48(bs, offset) == 0x1_0000 * U32(bs, offset) + U16(bs, offset + 4)
    ensures offset + 8 <= |bs| ==> U64(bs, offset) == 0x1_0000 * U48(bs, offset) + U16(bs, offset + 6)
  {
    hide Field;
    FieldPair(bs, offset, 0);
    EmptyField(bs, offset);
    FieldPair(bs, offset, 2);
    FieldPair(bs, offset, 4);
    FieldPair(bs, offset, 6);
  }

  lemma EmptyField(bs: ByteString, offset: nat)
    ensures Field(bs, offset, 0) == 0
  {
  }

  /** Two more bytes of a field. */
  lemma FieldPair(bs: ByteString, offset: nat, length: nat)
    ensures offset + length + 2 <= |bs| ==>
      && Field(bs, offset + length, 2) == 0x100 * bs[offset + length] as nat + bs[offset + length + 1] as nat
      && Field(bs, offset, length + 2) == 0x1_0000 * Field(bs, offset, length) + Field(bs, offset + length, 2)
  {
    hide Field;
    if offset + length + 2 <= |bs| {
      EmptyField(bs, offset + length);
      FieldSnoc(bs, offset + length, 0);
      FieldSnoc(bs, offset + length, 1);
      FieldSnoc(bs, offset, length);
      FieldSnoc(bs, offset, length + 1);
    }
  }

  lemma {:induction false} FromUint(value: nat, length: nat)
    requires Fits(value, length)
    ensures FromBytes(Uint(value, length)) == value
  {
    if length > 0 {
      FromUint(value / 256, length - 1);
      assert Uint(value, length)[..length - 1] == Uint(value / 256, length - 1);
    }
  }

  lemma {:induction false} UintFrom(bs: ByteString)
    ensures Uint(FromBytes(bs), |bs|) == bs
  {
    if bs != [] {
      UintFrom(bs[..|bs| - 1]);
      assert FromBytes(bs) / 256 == FromBytes(bs[..|bs| - 1]);
      assert bs == bs[..|bs| - 1] + [bs[|bs| - 1]];
    }
  }

  // ----- records made of consecutive parts

  function Join(parts: seq<ByteString>): ByteString {
    if parts == [] then [] else Join(parts[..|parts| - 1]) + parts[|parts| - 1]
  }

  /** Where a part starts. */
  function Offset(parts: seq<ByteString>, k: nat): nat
    requires k <= |parts|
  {
    if k == 0 then 0 else Offset(parts, k - 1) + |parts[k - 1]|
  }

  lemma {:induction false} JoinLength(parts: seq<ByteString>)
    ensures |Join(parts)| == Offset(parts, |parts|)
  {
    if parts != [] {
      JoinLength(parts[..|parts| - 1]);
      OffsetPrefix(parts, |parts| - 1);
    }
  }

  lemma {:induction false} OffsetPrefix(parts: seq<ByteString>, k: nat)
    requires k < |parts|
    ensures Offset(parts[..|parts| - 1], k) == Offset(parts, k)
  {
    if k > 0 {
      OffsetPrefix(parts, k - 1);
    }
  }

  /** Every part can be sliced back out of the joined record. */
  lemma {:induction false} PartAt(parts: seq<ByteString>, k: nat)
    requires k < |parts|
    ensures Offset(parts, k) + |parts[k]| <= |Join(parts)|
    ensures Slice(Join(parts), Offset(parts, k), Offset(parts, k) + |parts[k]|) == parts[k]
  {
    var front, last := parts[..|parts| - 1], parts[|parts| - 1];
    JoinLength(front);
    OffsetPrefix(parts, k);
    if k < |front| {
      PartAt(front, k);
      SliceOfPrefix(Join(front), last, Offset(parts, k), Offset(parts, k) + |parts[k]|);
    }
  }

  /** Reading a field at the offset of the part that encodes it. */
  lemma FieldAt(parts: seq<ByteString>, k: nat, value: nat, length: nat)
    requires k < |parts| && Fits(value, length) && parts[k] == Uint(value, length)
    ensures Offset(parts, k) + length <= |Join(parts)|
    ensures Field(Join(parts), Offset(parts, k), length) == value
  {
    hide Join, Offset, FromBytes, Uint, Slice;
    PartAt(parts, k);
    assert Slice(Join(parts), Offset(parts, k), Offset(parts, k) + length) == Uint(value, length);
    FromUint(value, length);
  }

  lemma SliceOfPrefix(x: ByteString, y: ByteString, lo: nat, hi: nat)
    requires hi <= |x|
    ensures Slice(x + y, lo, hi) == Slice(x, lo, hi)
  {
  }

  /** Parts that join to a prefix of a string, extended by the string's next piece. */
  lemma JoinPiece(bs: ByteString, parts: seq<ByteString>, lo: nat, hi: nat)
    requires lo <= hi <= |bs| && Join(parts) == bs[..lo]
    ensures Join(parts + [bs[lo..hi]]) == bs[..hi]
  {
  }
}
