/** Bit-level view of a byte, most significant bit first.

    Both the packed image and the printer payload number the eight bits of a
    byte from the left: bit 0 is mask 0x80, bit 7 is mask 0x01. This module
    defines that numbering once and proves the facts every other module uses.
 */
module Bits {

  /** The mask selecting bit k, counted from the most significant end
      (`0x80 >> k`). */
  function Mask(k: int): bv8
    requires 0 <= k < 8
  {
    if k == 0 then 0x80 else if k == 1 then 0x40 else if k == 2 then 0x20
    else if k == 3 then 0x10 else if k == 4 then 0x08 else if k == 5 then 0x04
    else if k == 6 then 0x02 else 0x01
  }

  /** True when bit k of v (MSB first) is set. */
  predicate BitOf(v: bv8, k: int)
    requires 0 <= k < 8
  {
    v & Mask(k) != 0
  }

  /** `Mask(k)` is Go's `0x80 >> k`. */
  lemma MaskIsShift(k: int)
    requires 0 <= k < 8
    ensures Mask(k) == (0x80 as bv8) >> k
  {
    if k == 0 {} else if k == 1 {} else if k == 2 {} else if k == 3 {}
    else if k == 4 {} else if k == 5 {} else if k == 6 {} else {}
  }

  /** The mask the printer codec writes, `1 << (7 - x % 8)`: the same bit as
      `Mask(x % 8)`. */
  function LsbMask(x: int): (m: bv8)
    requires x >= 0
    ensures m == Mask(x % 8)
  {
    (1 as bv8) << (7 - x % 8)
  }

  /** v with bit k forced to `on` (`v | mask` or `v &^ mask`). */
  function WithBit(v: bv8, k: int, on: bool): (r: bv8)
    requires 0 <= k < 8
    ensures BitOf(r, k) == on
    ensures forall j :: 0 <= j < 8 && j != k ==> BitOf(r, j) == BitOf(v, j)
  {
    var r := if on then v | Mask(k) else v & !Mask(k);
    forall j | 0 <= j < 8 && j != k
      ensures BitOf(r, j) == BitOf(v, j)
    {
      MaskLeavesOtherBits(v, k, j, on);
    }
    r
  }

  lemma MaskLeavesOtherBits(v: bv8, k: int, j: int, on: bool)
    requires 0 <= k < 8 && 0 <= j < 8 && j != k
    ensures BitOf(if on then v | Mask(k) else v & !Mask(k), j) == BitOf(v, j)
  {
  }

  /** The byte whose bit k is f(k), for k in 0..7. */
  function ByteFromBits(f: int -> bool): (r: bv8)
    ensures forall k :: 0 <= k < 8 ==> BitOf(r, k) == f(k)
  {
    (if f(0) then 0x80 else 0) | (if f(1) then 0x40 else 0)
    | (if f(2) then 0x20 else 0) | (if f(3) then 0x10 else 0)
    | (if f(4) then 0x08 else 0) | (if f(5) then 0x04 else 0)
    | (if f(6) then 0x02 else 0) | (if f(7) then 0x01 else 0)
  }

  /** A byte is determined by its eight bits. */
  lemma BitsDetermineByte(u: bv8, v: bv8)
    requires forall k :: 0 <= k < 8 ==> BitOf(u, k) == BitOf(v, k)
    ensures u == v
  {
    assert BitOf(u, 0) == BitOf(v, 0);
    assert BitOf(u, 1) == BitOf(v, 1);
    assert BitOf(u, 2) == BitOf(v, 2);
    assert BitOf(u, 3) == BitOf(v, 3);
    assert BitOf(u, 4) == BitOf(v, 4);
    assert BitOf(u, 5) == BitOf(v, 5);
    assert BitOf(u, 6) == BitOf(v, 6);
    assert BitOf(u, 7) == BitOf(v, 7);
  }

  /** The 8-bit bit reversal (`bits.Reverse8`): bit k of the result is bit
      7 - k of the argument. */
  function Reverse8(v: bv8): (r: bv8)
    ensures forall k :: 0 <= k < 8 ==> BitOf(r, k) == BitOf(v, 7 - k)
  {
    ((v & 0x01) << 7) | ((v & 0x02) << 5) | ((v & 0x04) << 3) | ((v & 0x08) << 1)
    | ((v & 0x10) >> 1) | ((v & 0x20) >> 3) | ((v & 0x40) >> 5) | ((v & 0x80) >> 7)
  }

  /** Reversing the bits of a byte twice gives the byte back. */
  lemma Reverse8Involution(v: bv8)
    ensures Reverse8(Reverse8(v)) == v
  {
    forall k | 0 <= k < 8
      ensures BitOf(Reverse8(Reverse8(v)), k) == BitOf(v, k)
    {
    }
    BitsDetermineByte(Reverse8(Reverse8(v)), v);
  }
}
