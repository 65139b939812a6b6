/** The bits of a byte. */
module Bits {
  type byte = bv8

  /** The byte 1 << k. */
  function Mask(k: nat): bv8
    requires k < 8
  {
    match k
    case 0 => 1
    case 1 => 2
    case 2 => 4
    case 3 => 8
    case 4 => 16
    case 5 => 32
    case 6 => 64
    case _ => 128
  }

  /** Bit i of a byte. */
  predicate Bit(x: byte, i: nat)
    requires i < 8
  {
    x & Mask(i) != 0
  }

  /** The next mask; behind the last bit of a byte the mask is lost. */
  lemma NextMask(k: nat)
    requires k < 8
    ensures Mask(k) << 1 == if k == 7 then 0 else Mask(k + 1)
    ensures Mask(k) != 0
  {
  }

  lemma FirstMask()
    ensures Mask(0) == 1
  {
  }

  /** Flipping one bit of a byte. */
  lemma Flipped(b: bv8, k: nat, j: nat)
    requires k < 8 && j < 8
    ensures Bit(b ^ Mask(k), j) <==> if j == k then !Bit(b, k) else Bit(b, j)
  {
    if j != k { MasksApart(k, j); }
  }

  lemma MasksApart(k: nat, j: nat)
    requires k < 8 && j < 8 && k != j
    ensures Mask(k) & Mask(j) == 0
  {
  }

  /** A bit number as a shift count. */
  function Count(k: nat): (c: byte)
    requires k <= 8
    ensures c <= 8
  {
    if k == 0 then 0 else if k == 1 then 1 else if k == 2 then 2 else if k == 3 then 3 else if k == 4 then 4
    else if k == 5 then 5 else if k == 6 then 6 else if k == 7 then 7 else 8
  }

  lemma CountOrder(a: nat, b: nat)
    requires a <= 8 && b <= 8
    ensures a < b <==> Count(a) < Count(b)
  {
  }

  lemma CountAdd(a: nat, b: nat)
    requires a + b <= 8
    ensures Count(a + b) == Count(a) + Count(b)
  {
  }

  /** A bit by shifting. */
  lemma ShiftedBit(x: byte, i: nat)
    requires i < 8
    ensures Count(i) < 8 && (Bit(x, i) <==> (x >> Count(i)) & 1 == 1)
  {
  }
}
