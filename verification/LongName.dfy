/** Long file name entries of ff.c: a name is cut into pieces of 13 characters, one directory entry each, and put
    together again from the entries. */
module LongName {
  import opened FatCodec
  import opened DirTable

  /** A character as it is stored. */
  type Char = c: nat | c < 0x1_0000

  /** A name without the characters that end or fill an entry. */
  predicate IsLongName(name: seq<Char>) {
    |name| > 0 && forall i :: 0 <= i < |name| ==> 0 < name[i] < 0xFFFF
  }

  /** How many entries a name of this length takes. */
  function Pieces(len: nat): nat {
    (len + 12) / 13
  }

  /** LfnOfs: where an entry holds character s. */
  function Offset(s: nat): nat
    requires s < 13
  {
    if s < 5 then 1 + 2 * s else if s < 11 then 14 + 2 * (s - 5) else 28 + 2 * (s - 11)
  }

  /** ld_word at the place of character s. */
  function CharAt(e: Entry, s: nat): Char
    requires s < 13
  {
    e[Offset(s)] as int + 256 * e[Offset(s) + 1] as int
  }

  /** The character that stands at index i: the name, its end mark, and filler. */
  function Stored(name: seq<Char>, i: nat): Char {
    if i < |name| then name[i] else if i == |name| then 0 else 0xFFFF
  }

  /** What makes an entry piece number ord of a name. */
  ghost predicate IsPiece(e: Entry, name: seq<Char>, ord: nat, sum: Byte)
    requires ord > 0
  {
    && (forall s :: 0 <= s < 13 ==> CharAt(e, s) == Stored(name, 13 * (ord - 1) + s))
    && e[11] == 0x0F && e[12] == 0 && e[13] == sum && e[26] == 0 && e[27] == 0
    && e[0] == ord + (if 13 * ord >= |name| then 0x40 else 0)
  }

  /** sum_sfn. */
  function Checksum(sfn: seq<Byte>): Byte
  {
    if sfn == [] then 0
    else
      var sum := Checksum(sfn[..|sfn| - 1]);
      (sum as int / 2 + sum as int % 2 * 128 + sfn[|sfn| - 1] as int) % 256
  }

  method SumSfn(e: Entry) returns (sum: Byte)
    ensures sum == Checksum(e[..11])
  {
    sum := 0;
    for n := 0 to 11
      invariant sum == Checksum(e[..n])
    {
      assert e[..n + 1][..n] == e[..n];
      Rotated(sum);
      sum := (sum as int / 2 + sum as int * 128 % 256 + e[n] as int) % 256;
    }
  }

  lemma Rotated(b: Byte)
    ensures b as int * 128 % 256 == b as int % 2 * 128
  {
  }

  /** No two characters share a byte, and none lies in the rest of the entry. */
  lemma OffsetsApart(s: nat, t: nat)
    requires s < 13 && t < 13
    ensures Offset(s) + 1 < 32 && (s != t ==> Offset(s) + 1 < Offset(t) || Offset(t) + 1 < Offset(s))
    ensures 1 <= Offset(s) <= 9 || 14 <= Offset(s) <= 24 || 28 <= Offset(s) <= 30
  {
  }

  /** The bytes of an entry that hold no character of the name. */
  function Frame(e: Entry): seq<Byte> {
    [e[0], e[11], e[12], e[13], e[26], e[27]]
  }

  /** st_word of character s. */
  method StoreChar(dir: array<Byte>, s: nat, wc: Char)
    requires dir.Length == 32 && s < 13
    modifies dir
    ensures forall t :: 0 <= t < 13 ==> CharAt(dir[..], t) == if t == s then wc else CharAt(old(dir[..]), t)
    ensures Frame(dir[..]) == Frame(old(dir[..]))
  {
    hide Offset;
    OffsetsApart(s, s);
    dir[Offset(s)] := wc % 256;
    dir[Offset(s) + 1] := wc / 256;
    forall t | 0 <= t < 13
      ensures CharAt(dir[..], t) == if t == s then wc else CharAt(old(dir[..]), t)
    {
      OffsetsApart(s, t); OffsetsApart(t, t);
    }
  }

  /** The name stands in the buffer, with its end mark. */
  predicate Holds(lfn: seq<Char>, name: seq<Char>) {
    |name| < |lfn| && lfn[..|name|] == name && lfn[|name|] == 0
  }

  /** put_lfn. */
  method PutLfn(lfn: array<Char>, dir: array<Byte>, ord: nat, sum: Byte, ghost name: seq<Char>)
    requires dir.Length == 32 && IsLongName(name) && Holds(lfn[..], name) && 0 < ord <= Pieces(|name|) && ord < 0x40
    modifies dir
    ensures IsPiece(dir[..], name, ord, sum)
  {
    hide Offset, CharAt;
    dir[13], dir[11], dir[12] := sum, 0x0F, 0;
    dir[26], dir[27] := 0, 0;
    var i, s, wc := (ord - 1) * 13, 0, 0;
    ghost var base := i;
    while true
      invariant 0 <= s < 13 && base == 13 * (ord - 1) && base < |name|
      invariant i == if base + s <= |name| then base + s else |name| + 1
      invariant if s > 0 && base + s > |name| then wc == 0xFFFF else wc != 0xFFFF
      invariant Frame(dir[..])[1..] == [0x0F, 0, sum, 0, 0]
      invariant forall t :: 0 <= t < s ==> CharAt(dir[..], t) == Stored(name, base + t)
      decreases 13 - s
    {
      if wc != 0xFFFF {
        BufferAt(lfn[..], name, i);
        wc := lfn[i];
        i := i + 1;
      }
      StoreChar(dir, s, wc);
      if wc == 0 { wc := 0xFFFF; }
      s := s + 1;
      if s == 13 { break; }
    }
    var o := ord;
    if i <= |name| { BufferAt(lfn[..], name, i); }
    if wc == 0xFFFF || lfn[i] == 0 { o := o + 0x40; }
    StoreOrd(dir, o);
    assert Frame(dir[..])[1] == dir[11] && Frame(dir[..])[2] == dir[12] && Frame(dir[..])[3] == dir[13];
    assert Frame(dir[..])[4] == dir[26] && Frame(dir[..])[5] == dir[27];
  }

  method StoreOrd(dir: array<Byte>, o: Byte)
    requires dir.Length == 32
    modifies dir
    ensures forall t :: 0 <= t < 13 ==> CharAt(dir[..], t) == CharAt(old(dir[..]), t)
    ensures dir[0] == o && Frame(dir[..]) == [o] + Frame(old(dir[..]))[1..]
  {
    dir[0] := o;
  }

  lemma BufferAt(lfn: seq<Char>, name: seq<Char>, i: nat)
    requires Holds(lfn, name) && i <= |name|
    ensures i < |lfn| && lfn[i] == Stored(name, i)
  {
    if i < |name| { assert lfn[..|name|][i] == name[i]; }
  }

  /** LDIR_Ord without the flag for the last piece. */
  function OrdOf(b: Byte): nat {
    if b / 64 % 2 == 1 then b - 64 else b
  }

  predicate IsLastPiece(b: Byte) {
    b / 64 % 2 == 1
  }

  /** pick_lfn from character s on, which goes to index i; wc is the character before it. */
  function PickFrom(buf: seq<Char>, e: Entry, s: nat, i: nat, wc: Char): (r: (bool, seq<Char>))
    requires s <= 13
    ensures |r.1| == |buf|
    decreases 13 - s
  {
    if s == 13 then
      if IsLastPiece(e[0]) && wc != 0 then (if i >= |buf| then (false, buf) else (true, buf[i := 0])) else (true, buf)
    else if wc != 0 then
      if i >= |buf| then (false, buf) else PickFrom(buf[i := CharAt(e, s)], e, s + 1, i + 1, CharAt(e, s))
    else if CharAt(e, s) != 0xFFFF then (false, buf)
    else PickFrom(buf, e, s + 1, i, wc)
  }

  /** Whether pick_lfn takes the entry, and the buffer after it. An order of 0 is an index far outside the buffer. */
  function Picked(buf: seq<Char>, e: Entry): (r: (bool, seq<Char>))
    ensures |r.1| == |buf|
  {
    if e[26] != 0 || e[27] != 0 || OrdOf(e[0]) == 0 then (false, buf)
      else PickFrom(buf, e, 0, (OrdOf(e[0]) - 1) * 13, 1)
  }

  /** pick_lfn. */
  method PickLfn(lfn: array<Char>, e: Entry) returns (ok: bool)
    modifies lfn
    ensures (ok, lfn[..]) == Picked(old(lfn[..]), e)
  {
    hide CharAt;
    if e[26] != 0 || e[27] != 0 { return false; }
    if OrdOf(e[0]) == 0 { return false; }
    var i, s, wc := (OrdOf(e[0]) - 1) * 13, 0, 1;
    while s < 13
      invariant 0 <= s <= 13 && 0 <= i
      invariant PickFrom(lfn[..], e, s, i, wc) == Picked(old(lfn[..]), e)
    {
      var uc := CharAt(e, s);
      if wc != 0 {
        if i >= lfn.Length { return false; }
        ghost var before := lfn[..];
        lfn[i] := uc;
        assert lfn[..] == before[i := uc];
        wc := uc;
        i := i + 1;
      } else if uc != 0xFFFF {
        return false;
      }
      s := s + 1;
    }
    if IsLastPiece(e[0]) && wc != 0 {
      if i >= lfn.Length { return false; }
      ghost var before := lfn[..];
      lfn[i] := 0;
      assert lfn[..] == before[i := 0];
    }
    ok := true;
  }

  /** The name stands in the buffer from piece ord on. */
  ghost predicate Filled(buf: seq<Char>, name: seq<Char>, from: nat) {
    |name| < |buf| && forall i :: from <= i <= |name| ==> buf[i] == Stored(name, i)
  }

  /** Picking piece ord, when character s is next. */
  lemma {:induction false} PickSteps(buf: seq<Char>, e: Entry, name: seq<Char>, ord: nat, sum: Byte, s: nat, i: nat,
      wc: Char)
    requires IsLongName(name) && |name| < |buf| && 0 < ord <= Pieces(|name|) && IsPiece(e, name, ord, sum)
    requires ord < 0x40 && s <= 13
    requires var base := 13 * (ord - 1);
             && i == (if base + s <= |name| then base + s else |name| + 1)
             && (wc == 0 <==> s > 0 && base + s > |name|)
             && (forall x :: base <= x < i ==> buf[x] == Stored(name, x))
             && (forall x :: base + 13 <= x <= |name| ==> buf[x] == Stored(name, x) || ord == Pieces(|name|))
    ensures var r := PickFrom(buf, e, s, i, wc);
            r.0 && Filled(r.1, name, 13 * (ord - 1))
    decreases 13 - s
  {
    hide CharAt, Offset;
    var base := 13 * (ord - 1);
    OrdByte(e, name, ord, sum);
    if s < 13 {
      assert CharAt(e, s) == Stored(name, base + s);
      if wc != 0 {
        PickSteps(buf[i := CharAt(e, s)], e, name, ord, sum, s + 1, i + 1, CharAt(e, s));
      } else {
        PickSteps(buf, e, name, ord, sum, s + 1, i, wc);
      }
    }
  }

  lemma OrdByte(e: Entry, name: seq<Char>, ord: nat, sum: Byte)
    requires 0 < ord < 0x40 && IsPiece(e, name, ord, sum)
    ensures OrdOf(e[0]) == ord && (IsLastPiece(e[0]) <==> 13 * ord >= |name|)
  {
  }

  /** pick_lfn of what put_lfn made. */
  lemma PickPiece(buf: seq<Char>, e: Entry, name: seq<Char>, ord: nat, sum: Byte)
    requires IsLongName(name) && |name| < |buf| && 0 < ord <= Pieces(|name|) && IsPiece(e, name, ord, sum) && ord < 0x40
    requires ord < Pieces(|name|) ==> Filled(buf, name, 13 * ord)
    ensures Picked(buf, e).0 && Filled(Picked(buf, e).1, name, 13 * (ord - 1))
  {
    hide CharAt, Offset;
    OrdByte(e, name, ord, sum);
    PickSteps(buf, e, name, ord, sum, 0, 13 * (ord - 1), 1);
  }
}
