/** The packed FAT as a sequence of bytes: how get_fat and put_fat (ff.c) read and write one entry, and the plain table
    of cluster links which those bytes denote. */
module FatCodec {

  type Byte = x: int | 0 <= x < 256

  datatype FatType = Fat12 | Fat16 | Fat32

  /** The bytes which a FAT with n entries needs (mount_volume: szbfat). */
  function TableBytes(fmt: FatType, n: nat): nat {
    match fmt
    case Fat12 => n * 3 / 2 + n % 2
    case Fat16 => n * 2
    case Fat32 => n * 4
  }

  /** Offset of the first byte of entry c. */
  function Pos(fmt: FatType, c: nat): nat {
    match fmt
    case Fat12 => c + c / 2
    case Fat16 => c * 2
    case Fat32 => c * 4
  }

  /** Number of bytes which entry c touches. */
  function Width(fmt: FatType): nat {
    if fmt == Fat32 then 4 else 2
  }

  /** The values an entry can hold; a stored value is cut down to this range. */
  function EntryRange(fmt: FatType): nat {
    match fmt
    case Fat12 => 0x1000
    case Fat16 => 0x1_0000
    case Fat32 => 0x1000_0000
  }

  /** What put_fat(0xFFFFFFFF), the end-of-chain mark, reads back as. */
  function Eoc(fmt: FatType): nat {
    EntryRange(fmt) - 1
  }

  predicate Fits(fmt: FatType, img: seq<Byte>, n: nat) {
    TableBytes(fmt, n) <= |img|
  }

  lemma EntryInside(fmt: FatType, img: seq<Byte>, n: nat, c: nat)
    requires Fits(fmt, img, n) && c < n
    ensures Pos(fmt, c) + Width(fmt) <= |img|
  {
    if fmt == Fat12 {
      var h, p := n / 2, n % 2;
      assert n == 2 * h + p && n * 3 / 2 == 3 * h + p;
      assert c / 2 <= (n - 1) / 2;
    }
  }

  /** The value get_fat extracts for entry c. */
  function Decode(fmt: FatType, img: seq<Byte>, c: nat): nat
    requires Pos(fmt, c) + Width(fmt) <= |img|
  {
    var p := Pos(fmt, c);
    match fmt
    case Fat12 =>
      var wc := Word(img[p], img[p + 1]);
      if c % 2 == 1 then wc / 16 else wc % 0x1000
    case Fat16 => Word(img[p], img[p + 1])
    case Fat32 => Dword(img[p], img[p + 1], img[p + 2], img[p + 3]) % 0x1000_0000
  }

  /** ld_word. */
  function Word(b0: nat, b1: nat): nat {
    b0 + 0x100 * b1
  }

  /** ld_dword. */
  function Dword(b0: nat, b1: nat, b2: nat, b3: nat): nat {
    b0 + 0x100 * b1 + 0x1_0000 * b2 + 0x100_0000 * b3
  }

  /** Bits 28..31 of a FAT32 entry, which are reserved. */
  function TopNibble(img: seq<Byte>, c: nat): nat
    requires Pos(Fat32, c) + 4 <= |img|
  {
    img[4 * c + 3] / 16
  }

  /** The reserved bits of entries 0..n-1 are the same. */
  ghost predicate SameTops(img: seq<Byte>, img': seq<Byte>, n: nat) {
    && Fits(Fat32, img, n) && Fits(Fat32, img', n)
    && forall d :: 0 <= d < n ==> TopNibble(img', d) == TopNibble(img, d)
  }

  /** The bytes of the FAT after put_fat(c, val). */
  function Encode(fmt: FatType, img: seq<Byte>, c: nat, val: nat): (r: seq<Byte>)
    requires Pos(fmt, c) + Width(fmt) <= |img|
    ensures |r| == |img|
  {
    var p := Pos(fmt, c);
    match fmt
    case Fat12 => img[p := FirstByte12(img[p], c, val)][p + 1 := SecondByte12(img[p + 1], c, val)]
    case Fat16 => img[p := val % 256][p + 1 := val / 256 % 256]
    case Fat32 => img[p := val % 256][p + 1 := val / 256 % 256][p + 2 := val / 0x1_0000 % 256]
                     [p + 3 := LastByte32(img[p + 3], val)]
  }

  function FirstByte12(b: Byte, c: nat, val: nat): Byte {
    if c % 2 == 1 then b % 16 + val % 16 * 16 else val % 256
  }

  /** The top nibble is kept. */
  function LastByte32(b: Byte, val: nat): Byte {
    val / 0x100_0000 % 16 + b / 16 * 16
  }

  function SecondByte12(b: Byte, c: nat, val: nat): Byte {
    if c % 2 == 1 then val / 16 % 256 else b / 16 * 16 + val / 256 % 16
  }

  /** The cluster links stored in the image. */
  ghost function Table(fmt: FatType, img: seq<Byte>, n: nat): (t: seq<nat>)
    requires Fits(fmt, img, n)
    ensures |t| == n
    ensures forall c :: 0 <= c < n ==> Pos(fmt, c) + Width(fmt) <= |img| && t[c] == Decode(fmt, img, c)
    ensures forall c :: 0 <= c < n ==> t[c] < EntryRange(fmt)
  {
    seq(n, c requires 0 <= c < n => EntryInside(fmt, img, n, c); Decode(fmt, img, c))
  }

  lemma Div16(r: nat, q: nat)
    requires r < 16
    ensures (r + 16 * q) / 16 == q && (r + 16 * q) % 16 == r
  {
  }

  lemma Mod12(r: nat, q: nat)
    requires r < 0x1000
    ensures (r + 0x1000 * q) % 0x1000 == r
  {
  }

  lemma Mod28(r: nat, q: nat)
    requires r < 0x1000_0000
    ensures (r + 0x1000_0000 * q) % 0x1000_0000 == r
  {
  }

  lemma SplitVal12(val: nat)
    ensures Word(val % 256, val / 256 % 16) == val % 0x1000
    ensures val % 16 + 16 * (val / 16 % 256) == val % 0x1000
  {
    var l, m, h := val % 256, val / 256 % 16, val / 256 / 16;
    assert val == l + 256 * m + 0x1000 * h;
    Mod12(l + 256 * m, h);
    var l', m', h' := val % 16, val / 16 % 256, val / 16 / 256;
    assert val == l' + 16 * m' + 0x1000 * h';
    Mod12(l' + 16 * m', h');
  }

  lemma SplitVal32(val: nat)
    ensures Dword(val % 256, val / 256 % 256, val / 0x1_0000 % 256, val / 0x100_0000 % 16) == val % 0x1000_0000
  {
    var v1 := val / 256;
    var v2 := v1 / 256;
    var v3 := v2 / 256;
    assert v2 == val / 0x1_0000;
    assert v3 == val / 0x100_0000;
    assert val == Dword(val % 256, v1 % 256, v2 % 256, v3 % 16) + 0x1000_0000 * (v3 / 16);
    Mod28(Dword(val % 256, v1 % 256, v2 % 256, v3 % 16), v3 / 16);
  }

  lemma Stored12(b0: Byte, b1: Byte, c: nat, val: nat)
    ensures var wc := Word(FirstByte12(b0, c, val), SecondByte12(b1, c, val));
            (if c % 2 == 1 then wc / 16 else wc % 0x1000) == val % 0x1000
  {
    SplitVal12(val);
    if c % 2 == 1 {
      var lo, hi := val % 16, val / 16 % 256;
      Div16(b0 % 16, lo + 16 * hi);
    } else {
      var lo, hi := val % 256, val / 256 % 16;
      Mod12(Word(lo, hi), b1 / 16);
    }
  }

  lemma Stored16(val: nat)
    ensures Word(val % 256, val / 256 % 256) == val % 0x1_0000
  {
    assert val / 256 / 256 == val / 0x1_0000;
  }

  lemma Stored32(b3: Byte, val: nat)
    ensures Dword(val % 256, val / 256 % 256, val / 0x1_0000 % 256, val / 0x100_0000 % 16 + b3 / 16 * 16) % 0x1000_0000
         == val % 0x1000_0000
  {
    SplitVal32(val);
    Mod28(Dword(val % 256, val / 256 % 256, val / 0x1_0000 % 256, val / 0x100_0000 % 16), b3 / 16);
  }

  /** An entry reads back as the value stored, cut down to the width of an entry. */
  lemma DecodeStored(fmt: FatType, img: seq<Byte>, c: nat, val: nat)
    requires Pos(fmt, c) + Width(fmt) <= |img|
    ensures Decode(fmt, Encode(fmt, img, c, val), c) == val % EntryRange(fmt)
  {
    hide Word, Dword, FirstByte12, SecondByte12;
    var p := Pos(fmt, c);
    var img' := Encode(fmt, img, c, val);
    match fmt
    case Fat12 =>
      assert img'[p] == FirstByte12(img[p], c, val) && img'[p + 1] == SecondByte12(img[p + 1], c, val);
      Stored12(img[p], img[p + 1], c, val);
    case Fat16 =>
      Stored16(val);
    case Fat32 =>
      assert img'[p] == val % 256 && img'[p + 1] == val / 256 % 256 && img'[p + 2] == val / 0x1_0000 % 256;
      Stored32(img[p + 3], val);
  }

  /** A FAT12 entry keeps its value when the entry sharing its first or its second byte is stored. */
  lemma Neighbour12(b0: Byte, b1: Byte, b2: Byte, c: nat, val: nat)
    ensures c % 2 == 0 ==> Word(SecondByte12(b1, c, val), b2) / 16 == Word(b1, b2) / 16
    ensures c % 2 == 1 ==> Word(b0, FirstByte12(b1, c, val)) % 0x1000 == Word(b0, b1) % 0x1000
  {
    if c % 2 == 0 {
      Div16(b1 % 16, b1 / 16 + 16 * b2);
      Div16(val / 256 % 16, b1 / 16 + 16 * b2);
    } else {
      Mod12(Word(b0, b1 % 16), b1 / 16);
      Mod12(Word(b0, b1 % 16), val % 16);
    }
  }

  /** Every other entry reads as before, also the FAT12 neighbour sharing a byte with c. */
  lemma DecodeOther(fmt: FatType, img: seq<Byte>, c: nat, val: nat, d: nat)
    requires Pos(fmt, c) + Width(fmt) <= |img| && Pos(fmt, d) + Width(fmt) <= |img|
    requires c != d
    ensures Decode(fmt, Encode(fmt, img, c, val), d) == Decode(fmt, img, d)
  {
    hide Word, Dword, FirstByte12, SecondByte12;
    match fmt
    case Fat12 =>
      var p, q := Pos(fmt, c), Pos(fmt, d);
      if c % 2 == 0 && d == c + 1 {
        Neighbour12(img[p], img[q], img[q + 1], c, val);
      } else if d % 2 == 0 && c == d + 1 {
        Neighbour12(img[q], img[p], img[p + 1], c, val);
      } else {
        assert p + 1 < q || q + 1 < p;
      }
    case Fat16 =>
    case Fat32 =>
  }

  /** put_fat is a map update on the table of links. */
  lemma TableUpdate(fmt: FatType, img: seq<Byte>, n: nat, c: nat, val: nat)
    requires Fits(fmt, img, n) && c < n
    ensures Pos(fmt, c) + Width(fmt) <= |img|
    ensures Table(fmt, Encode(fmt, img, c, val), n) == Table(fmt, img, n)[c := val % EntryRange(fmt)]
  {
    EntryInside(fmt, img, n, c);
    var t, t' := Table(fmt, img, n), Table(fmt, Encode(fmt, img, c, val), n);
    forall d: nat | d < n ensures t'[d] == if d == c then val % EntryRange(fmt) else t[d] {
      EntryInside(fmt, img, n, d);
      TableEntry(fmt, img, n, c, val, d);
    }
  }

  lemma TableEntry(fmt: FatType, img: seq<Byte>, n: nat, c: nat, val: nat, d: nat)
    requires Fits(fmt, img, n) && c < n && d < n
    requires Pos(fmt, c) + Width(fmt) <= |img| && Pos(fmt, d) + Width(fmt) <= |img|
    ensures Decode(fmt, Encode(fmt, img, c, val), d) == if d == c then val % EntryRange(fmt) else Decode(fmt, img, d)
  {
    hide Decode, Encode;
    if d == c { DecodeStored(fmt, img, c, val); } else { DecodeOther(fmt, img, c, val, d); }
  }

  /** put_fat leaves the reserved bits of FAT32 alone, also those of entry c itself. */
  lemma TopsKept(img: seq<Byte>, n: nat, c: nat, val: nat)
    requires Fits(Fat32, img, n) && c < n
    ensures Pos(Fat32, c) + 4 <= |img| && SameTops(img, Encode(Fat32, img, c, val), n)
  {
    EntryInside(Fat32, img, n, c);
    var b3, lo := img[4 * c + 3], val / 0x100_0000 % 16;
    assert (lo + b3 / 16 * 16) / 16 == b3 / 16;
  }
}
