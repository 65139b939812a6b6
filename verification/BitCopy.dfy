/** CopyBits of pdo.c: copying a bit field between two byte arrays at any bit offsets. */
module BitCopy {
  import opened Bits

  /** The byte CopyBits writes: n bits of src from bit s on, put into dest at bit d. */
  function Merge(src: byte, s: byte, dest: byte, d: byte, n: byte): byte
    requires s < 8 && d < 8 && n <= 8 - d && n <= 8 - s
  {
    var aligned := if d > s then src << (d - s) else src >> (s - d);
    var mask := (0xff << (d + n)) | (0xff >> (8 - d));
    (dest & mask) | (aligned & !mask)
  }

  lemma MergedBits(src: byte, s: byte, dest: byte, d: byte, n: byte, i: byte)
    requires s < 8 && d < 8 && n <= 8 - d && n <= 8 - s && i < 8
    ensures d <= i < d + n ==> i - d + s < 8
    ensures (Merge(src, s, dest, d, n) >> i) & 1 == if d <= i < d + n then (src >> (i - d + s)) & 1 else (dest >> i) & 1
  {
  }

  /** The bits of the byte CopyBits writes. */
  lemma MergedBit(src: byte, s: nat, dest: byte, d: nat, n: nat, i: nat)
    requires s + n <= 8 && d + n <= 8 && s < 8 && d < 8 && i < 8
    ensures Count(s) < 8 && Count(d) < 8
    ensures Count(n) <= 8 - Count(d) && Count(n) <= 8 - Count(s)
    ensures d <= i < d + n ==> i - d + s < 8
    ensures Bit(Merge(src, Count(s), dest, Count(d), Count(n)), i) <==>
      if d <= i < d + n then Bit(src, i - d + s) else Bit(dest, i)
  {
    hide Bit, Count, Merge;
    MergedCounts(s, d, n, i);
    MergedBits(src, Count(s), dest, Count(d), Count(n), Count(i));
    ShiftedBit(Merge(src, Count(s), dest, Count(d), Count(n)), i);
    if d <= i < d + n { ShiftedBit(src, i - d + s); } else { ShiftedBit(dest, i); }
  }

  lemma MergedCounts(s: nat, d: nat, n: nat, i: nat)
    requires s + n <= 8 && d + n <= 8 && s < 8 && d < 8 && i < 8
    ensures Count(s) < 8 && Count(d) < 8 && Count(i) < 8
    ensures Count(n) <= 8 - Count(d) && Count(n) <= 8 - Count(s)
    ensures d <= i < d + n <==> Count(d) <= Count(i) < Count(d) + Count(n)
    ensures d <= i < d + n ==> i - d + s < 8 && Count(i - d + s) == Count(i) - Count(d) + Count(s)
  {
    hide Count;
    CountOrder(d, 8);
    CountOrder(s, 8);
    CountOrder(i, 8);
    CountAdd(d, n);
    CountAdd(s, n);
    CountOrder(i, d);
    CountOrder(i, d + n);
    CountAdd(8 - d, d);
    CountAdd(8 - s, s);
    EightIsEight();
    if d <= i < d + n {
      CountAdd(i - d, d);
      CountAdd(i - d, s);
    }
  }

  lemma EightIsEight()
    ensures Count(8) == 8
  {
  }

  /** The byte CopyBits writes, with the cursors as numbers. */
  function Written(src: byte, s: nat, dest: byte, d: nat, n: nat): byte
    requires s + n <= 8 && d + n <= 8 && s < 8 && d < 8
  {
    MergedBit(src, s, dest, d, n, 0);
    Merge(src, Count(s), dest, Count(d), Count(n))
  }

  /** The byte in which bit p of a field lies that begins at byte at; big: the bytes go down. */
  function Cell(at: int, big: bool, p: nat): int {
    if big then at - p / 8 else at + p / 8
  }

  /** Which bit of such a field bit i of byte b is, counted from bit `from` of byte at. */
  function Place(at: int, from: nat, big: bool, b: int, i: nat): int {
    8 * (if big then at - b else b - at) + i - from
  }

  /** The nb bits of the field lie inside an array of the given length. */
  predicate InField(length: nat, at: int, from: nat, big: bool, nb: nat) {
    nb > 0 ==> 0 <= at < length && 0 <= Cell(at, big, from + nb - 1) < length
  }

  /** Bit p of a field. */
  predicate FieldBit(a: seq<byte>, at: int, big: bool, p: nat)
    requires 0 <= Cell(at, big, p) < |a|
  {
    Bit(a[Cell(at, big, p)], p % 8)
  }

  lemma CellInside(length: nat, at: int, from: nat, big: bool, nb: nat, j: nat)
    requires InField(length, at, from, big, nb) && j < nb
    ensures 0 <= Cell(at, big, from + j) < length
  {
    assert (from + j) / 8 <= (from + nb - 1) / 8;
  }

  /** The bits of one byte of a field. */
  lemma SameCell(at: int, big: bool, p: nat, x: nat)
    requires p % 8 + x < 8
    ensures Cell(at, big, p + x) == Cell(at, big, p) && (p + x) % 8 == p % 8 + x
  {
    assert (p + x) / 8 == p / 8;
  }

  lemma NextCell(at: int, big: bool, p: nat, k: nat)
    requires 0 < k && p % 8 + k <= 8
    ensures Cell(at, big, p + k) == Cell(at, big, p) + if p % 8 + k == 8 then (if big then -1 else 1) else 0
    ensures (p + k) % 8 == if p % 8 + k == 8 then 0 else p % 8 + k
  {
    if p % 8 + k == 8 { assert (p + k) / 8 == p / 8 + 1; } else { assert (p + k) / 8 == p / 8; }
  }

  lemma PlaceInCell(at: int, from: nat, big: bool, j: nat, b: int, i: nat)
    requires i < 8
    ensures b == Cell(at, big, from + j) ==> Place(at, from, big, b, i) == j + i - (from + j) % 8
    ensures b != Cell(at, big, from + j) ==>
      Place(at, from, big, b, i) - j + (from + j) % 8 < 0 || Place(at, from, big, b, i) - j + (from + j) % 8 >= 8
  {
  }

  /** What CopyBits leaves in dest after m bits. */
  ghost predicate Copied(m: nat, src: seq<byte>, sAt: int, sFrom: nat, sBig: bool, was: seq<byte>, dest: seq<byte>,
      dAt: int, dFrom: nat, dBig: bool)
    requires InField(|src|, sAt, sFrom, sBig, m) && |dest| == |was|
  {
    forall b: nat, i: nat :: b < |dest| && i < 8 ==>
      CopiedBit(m, src, sAt, sFrom, sBig, was, dest, dAt, dFrom, dBig, b, i)
  }

  ghost predicate CopiedBit(m: nat, src: seq<byte>, sAt: int, sFrom: nat, sBig: bool, was: seq<byte>, dest: seq<byte>,
      dAt: int, dFrom: nat, dBig: bool, b: nat, i: nat)
    requires InField(|src|, sAt, sFrom, sBig, m) && |dest| == |was| && b < |dest| && i < 8
  {
    var j := Place(dAt, dFrom, dBig, b, i);
    if 0 <= j < m then (
      CellInside(|src|, sAt, sFrom, sBig, m, j);
      Bit(dest[b], i) == FieldBit(src, sAt, sBig, sFrom + j))
    else Bit(dest[b], i) == Bit(was[b], i)
  }

  lemma CopyStep(m: nat, k: nat, src: seq<byte>, sAt: int, sFrom: nat, sBig: bool, was: seq<byte>, dest: seq<byte>,
      dAt: int, dFrom: nat, dBig: bool,
                 x: int, s: nat, y: int, d: nat)
    requires InField(|src|, sAt, sFrom, sBig, m + k) && InField(|dest|, dAt, dFrom, dBig, m + k) && |dest| == |was|
    requires k > 0
    requires InField(|src|, sAt, sFrom, sBig, m) && Copied(m, src, sAt, sFrom, sBig, was, dest, dAt, dFrom, dBig)
    requires Cursor(sAt, sFrom, sBig, m, x, s) && Cursor(dAt, dFrom, dBig, m, y, d) && s < 8 && d < 8 && s + k <= 8
    requires d + k <= 8
    ensures 0 <= x < |src| && 0 <= y < |dest|
    ensures Copied(m + k, src, sAt, sFrom, sBig, was, dest[y := Written(src[x], s, dest[y], d, k)], dAt, dFrom, dBig)
  {
    hide Written, Cell, CopiedBit;
    CellInside(|src|, sAt, sFrom, sBig, m + k, m);
    CellInside(|dest|, dAt, dFrom, dBig, m + k, m);
    var dest' := dest[y := Written(src[x], s, dest[y], d, k)];
    var n := m + k;
    forall b: nat, i: nat | b < |dest| && i < 8
      ensures CopiedBit(n, src, sAt, sFrom, sBig, was, dest', dAt, dFrom, dBig, b, i)
    {
      CopyBit(m, k, src, sAt, sFrom, sBig, was, dest, dAt, dFrom, dBig, x, s, y, d, b, i);
    }
  }

  lemma CopyBit(m: nat, k: nat, src: seq<byte>, sAt: int, sFrom: nat, sBig: bool, was: seq<byte>, dest: seq<byte>,
      dAt: int, dFrom: nat, dBig: bool,
                x: int, s: nat, y: int, d: nat, b: nat, i: nat)
    requires InField(|src|, sAt, sFrom, sBig, m + k) && |dest| == |was| && k > 0 && b < |dest| && i < 8
    requires InField(|src|, sAt, sFrom, sBig, m)
    requires CopiedBit(m, src, sAt, sFrom, sBig, was, dest, dAt, dFrom, dBig, b, i)
    requires Cursor(sAt, sFrom, sBig, m, x, s) && Cursor(dAt, dFrom, dBig, m, y, d) && s < 8 && d < 8 && s + k <= 8
    requires d + k <= 8
    requires 0 <= x < |src| && 0 <= y < |dest|
    ensures var dest' := dest[y := Written(src[x], s, dest[y], d, k)];
            CopiedBit(m + k, src, sAt, sFrom, sBig, was, dest', dAt, dFrom, dBig, b, i)
  {
    hide Merge, Count, Bit, Cell, Place, InField;
    PlaceInCell(dAt, dFrom, dBig, m, b, i);
    if b == y {
      MergedBit(src[x], s, dest[y], d, k, i);
      if d <= i < d + k { SameCell(sAt, sBig, sFrom + m, i - d); }
    }
  }

  /** A cursor of CopyBits after m bits. */
  predicate Cursor(at: int, from: nat, big: bool, m: nat, b: int, bit: nat) {
    b == Cell(at, big, from + m) && bit == (from + m) % 8
  }

  /** How the loop moves a cursor by k bits. */
  function MoveByte(big: bool, b: int, bit: nat, k: nat): int {
    if bit + k > 7 then b + (if big then -1 else 1) else b
  }

  function MoveBit(bit: nat, k: nat): nat {
    if bit + k > 7 then 0 else bit + k
  }

  lemma CursorMoves(at: int, from: nat, big: bool, m: nat, b: int, bit: nat, k: nat)
    requires Cursor(at, from, big, m, b, bit) && bit + k <= 8 && k > 0
    ensures Cursor(at, from, big, m + k, MoveByte(big, b, bit, k), MoveBit(bit, k))
  {
    NextCell(at, big, from + m, k);
  }

  /** BitsToCopy: up to the next byte boundary of either side, at most what is left. */
  function Chunk(left: nat, s: nat, d: nat): int {
    var limit := if d > s then 8 - d else 8 - s;
    if limit > left then left else limit
  }

  /** One turn of the loop. */
  lemma Turn(nb: nat, m: nat, src: seq<byte>, sAt: int, sFrom: nat, sBig: bool, was: seq<byte>, dest: seq<byte>,
      dAt: int, dFrom: nat, dBig: bool,
             x: int, s: nat, y: int, d: nat) returns (k: nat, dest': seq<byte>)
    requires m < nb && InField(|src|, sAt, sFrom, sBig, nb) && InField(|dest|, dAt, dFrom, dBig, nb) && |dest| == |was|
    requires InField(|src|, sAt, sFrom, sBig, m) && Copied(m, src, sAt, sFrom, sBig, was, dest, dAt, dFrom, dBig)
    requires Cursor(sAt, sFrom, sBig, m, x, s) && Cursor(dAt, dFrom, dBig, m, y, d)
    ensures k == Chunk(nb - m, s, d) && 0 < k && m + k <= nb && s + k <= 8 && d + k <= 8 && s < 8 && d < 8
    ensures 0 <= x < |src| && 0 <= y < |dest| && dest' == dest[y := Written(src[x], s, dest[y], d, k)]
    ensures InField(|src|, sAt, sFrom, sBig, m + k)
    ensures Copied(m + k, src, sAt, sFrom, sBig, was, dest', dAt, dFrom, dBig)
    ensures Cursor(sAt, sFrom, sBig, m + k, MoveByte(sBig, x, s, k), MoveBit(s, k))
    ensures Cursor(dAt, dFrom, dBig, m + k, MoveByte(dBig, y, d, k), MoveBit(d, k))
  {
    hide Copied, InField, Cursor, Written, MoveByte, MoveBit;
    CursorBits(sAt, sFrom, sBig, m, x, s);
    CursorBits(dAt, dFrom, dBig, m, y, d);
    k := Chunk(nb - m, s, d);
    LessField(|src|, sAt, sFrom, sBig, nb, m + k);
    LessField(|dest|, dAt, dFrom, dBig, nb, m + k);
    CopyStep(m, k, src, sAt, sFrom, sBig, was, dest, dAt, dFrom, dBig, x, s, y, d);
    dest' := dest[y := Written(src[x], s, dest[y], d, k)];
    CursorMoves(sAt, sFrom, sBig, m, x, s, k);
    CursorMoves(dAt, dFrom, dBig, m, y, d, k);
  }

  /** CopyBits: the field of nb bits at a bit of src goes to a bit of dest; every other bit of dest stays. */
  method CopyBits(nb: nat, src: array<byte>, sAt: int, sFrom: nat, sBig: bool, dest: array<byte>, dAt: int, dFrom: nat,
      dBig: bool)
    requires src != dest && sFrom < 8 && dFrom < 8
    requires InField(src.Length, sAt, sFrom, sBig, nb) && InField(dest.Length, dAt, dFrom, dBig, nb)
    modifies dest
    ensures Copied(nb, src[..], sAt, sFrom, sBig, old(dest[..]), dest[..], dAt, dFrom, dBig)
  {
    FieldStart(sAt, sFrom, sBig);
    FieldStart(dAt, dFrom, dBig);
    hide Copied, InField, Cursor, Written, MoveByte, MoveBit, Chunk;
    var left, sByte, sBit, dByte, dBit := nb, sAt, sFrom, dAt, dFrom;
    ghost var a, was, now := src[..], dest[..], dest[..];
    NothingCopied(a, sAt, sFrom, sBig, was, dAt, dFrom, dBig);
    while left > 0
      invariant 0 <= left <= nb
      invariant Cursor(sAt, sFrom, sBig, nb - left, sByte, sBit) && Cursor(dAt, dFrom, dBig, nb - left, dByte, dBit)
      invariant InField(|a|, sAt, sFrom, sBig, nb - left)
      invariant src[..] == a && dest[..] == now && |now| == |was|
      invariant Copied(nb - left, a, sAt, sFrom, sBig, was, now, dAt, dFrom, dBig)
    {
      ghost var n;
      n, now := Turn(nb, nb - left, a, sAt, sFrom, sBig, was, now, dAt, dFrom, dBig, sByte, sBit, dByte, dBit);
      var k := Chunk(left, sBit, dBit);
      dest[dByte] := Written(src[sByte], sBit, dest[dByte], dBit, k);
      sByte, sBit := MoveByte(sBig, sByte, sBit, k), MoveBit(sBit, k);
      dByte, dBit := MoveByte(dBig, dByte, dBit, k), MoveBit(dBit, k);
      left := left - k;
    }
  }

  lemma CursorBits(at: int, from: nat, big: bool, m: nat, b: int, bit: nat)
    requires Cursor(at, from, big, m, b, bit)
    ensures bit < 8
  {
  }

  lemma FieldStart(at: int, from: nat, big: bool)
    requires from < 8
    ensures Cursor(at, from, big, 0, at, from)
  {
  }

  lemma NothingCopied(src: seq<byte>, sAt: int, sFrom: nat, sBig: bool, dest: seq<byte>, dAt: int, dFrom: nat,
      dBig: bool)
    ensures InField(|src|, sAt, sFrom, sBig, 0) && Copied(0, src, sAt, sFrom, sBig, dest, dest, dAt, dFrom, dBig)
  {
  }

  lemma LessField(length: nat, at: int, from: nat, big: bool, nb: nat, m: nat)
    requires InField(length, at, from, big, nb) && m <= nb
    ensures InField(length, at, from, big, m)
  {
    if m > 0 { assert (from + m - 1) / 8 <= (from + nb - 1) / 8; }
  }
}
