/** The packed occupancy bitmap: one bit per unit, eight units per byte, unit
    i stored in bit i % 8 of byte i / 8. A set bit means the unit is used. */
module Bitset {

  /** The mask that selects bit k of a byte. */
  function Mask(k: nat): (m: bv8)
    requires k < 8
  {
    1 << k
  }

  /** Bit k of byte b is set. */
  predicate BitOf(b: bv8, k: nat)
    requires k < 8
  {
    b & Mask(k) != 0
  }

  /** Byte b with bit k set (v) or cleared (!v), by or-ing the mask in or
      and-ing its complement. */
  function SetBit(b: bv8, k: nat, v: bool): (r: bv8)
    requires k < 8
  {
    if v then b | Mask(k) else b & !Mask(k)
  }

  /** Writing bit k gives bit k the new value and keeps every other bit. */
  lemma SetBitAt(b: bv8, k: nat, v: bool, j: nat)
    requires k < 8 && j < 8
    ensures BitOf(SetBit(b, k, v), j) == if j == k then v else BitOf(b, j)
  {
    MaskTable(k);
    MaskTable(j);
  }

  /** The byte changes exactly when bit k did not already hold v. */
  lemma SetBitChanges(b: bv8, k: nat, v: bool)
    requires k < 8
    ensures SetBit(b, k, v) != b <==> BitOf(b, k) != v
  {
    MaskTable(k);
  }

  /** Proof helper: the eight masks. */
  lemma MaskTable(k: nat)
    requires k < 8
    ensures Mask(k) == [1, 2, 4, 8, 16, 32, 64, 128][k]
  {
  }

  /** The first n bits of the byte sequence, in unit order. */
  function Unpack(bytes: seq<bv8>, n: nat): (s: seq<bool>)
    requires n <= 8 * |bytes|
    ensures |s| == n
  {
    if n == 0 then [] else Unpack(bytes, n - 1) + [BitOf(bytes[(n - 1) / 8], (n - 1) % 8)]
  }

  /** Unit i of the unpacked view is bit i % 8 of byte i / 8. */
  lemma {:induction false} UnpackAt(bytes: seq<bv8>, n: nat, i: nat)
    requires n <= 8 * |bytes| && i < n
    ensures Unpack(bytes, n)[i] == BitOf(bytes[i / 8], i % 8)
  {
    if i < n - 1 {
      UnpackAt(bytes, n - 1, i);
    }
  }

  /** Rewriting bit i % 8 of byte i / 8 changes unit i of the unpacked view
      and no other unit. */
  lemma UnpackSetBit(bytes: seq<bv8>, n: nat, i: nat, v: bool)
    requires n <= 8 * |bytes| && i < n
    ensures i / 8 < |bytes|
    ensures Unpack(bytes[i / 8 := SetBit(bytes[i / 8], i % 8, v)], n) == Unpack(bytes, n)[i := v]
  {
    var after := bytes[i / 8 := SetBit(bytes[i / 8], i % 8, v)];
    forall j | 0 <= j < n
      ensures Unpack(after, n)[j] == Unpack(bytes, n)[i := v][j]
    {
      UnpackAt(after, n, j);
      UnpackAt(bytes, n, j);
      SetBitAt(bytes[i / 8], i % 8, v, j % 8);
      if j / 8 == i / 8 && j != i {
        assert j % 8 != i % 8;
      }
    }
  }

  /** A bitmap of zero bytes marks every unit unused. */
  lemma UnpackZeros(bytes: seq<bv8>, n: nat)
    requires n <= 8 * |bytes|
    requires forall b :: 0 <= b < |bytes| ==> bytes[b] == 0
    ensures forall i :: 0 <= i < n ==> !Unpack(bytes, n)[i]
  {
    forall i | 0 <= i < n
      ensures !Unpack(bytes, n)[i]
    {
      UnpackAt(bytes, n, i);
      assert bytes[i / 8] == 0;
    }
  }
}
