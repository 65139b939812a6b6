/** The allocation bitmap of an exFAT volume as it lies on the disk: one bit a cluster, packed into bytes and sectors
    which the window shows one at a time. find_bitmap and change_bitmap step through bits, bytes and sectors; over them
    stands one bit for each cluster number. */
module AllocationBitmap {
  import opened Bits
  import opened ClusterChains
  import opened FatVolume

  /** The value of a bit. */
  function Value(b: bv8, k: nat): (v: nat)
    requires k < 8
    ensures v <= 1
  {
    if Bit(b, k) then 1 else 0
  }

  /** Bit v of the map: its byte, in which sector and where there. */
  function SectorOf(v: nat): nat { v / 8 / 512 }

  function ByteOf(v: nat): (i: nat)
    ensures i < 512
  {
    v / 8 % 512
  }

  /** From one bit to the next. */
  lemma NextBit(v: nat)
    ensures v % 8 < 7 ==> SectorOf(v + 1) == SectorOf(v) && ByteOf(v + 1) == ByteOf(v) && (v + 1) % 8 == v % 8 + 1
    ensures v % 8 == 7 ==> (v + 1) % 8 == 0 && (v + 1) / 8 == v / 8 + 1
    ensures v % 8 == 7 && ByteOf(v) < 511 ==> SectorOf(v + 1) == SectorOf(v) && ByteOf(v + 1) == ByteOf(v) + 1
    ensures v % 8 == 7 && ByteOf(v) == 511 ==> SectorOf(v + 1) == SectorOf(v) + 1 && ByteOf(v + 1) == 0
  {
  }

  lemma SameBit(v: nat, w: nat)
    requires SectorOf(v) == SectorOf(w) && ByteOf(v) == ByteOf(w) && v % 8 == w % 8
    ensures v == w
  {
  }

  /** Bits which lie in n sectors. */
  lemma BitsBehind(v: nat, n: int)
    ensures SectorOf(v) < n <==> v < 4096 * n
  {
    assert v == 4096 * SectorOf(v) + 8 * ByteOf(v) + v % 8;
  }

  /** A free run of ncl clusters was looked for from start on: the first one begins at r, or there is none. */
  ghost predicate Found(bits: seq<nat>, start: nat, ncl: nat, r: nat, k: nat)
    requires 2 <= start < |bits|
  {
    if r == 0 then forall i: nat :: !FreeRun(bits, start, i, ncl)
    else FirstRun(bits, start, k, ncl) && r == ScanAt(|bits|, start, k)
  }

  class BitMap {
    const nFatent: nat
    const bitbase: nat
    const disk: array<seq<bv8>>
    const win: array<bv8>
    var winsect: nat
    var wflag: bool
    ghost var bits: seq<nat>   // entry c: 1 if cluster c is in use
    ghost var pad: seq<nat>    // the bits which follow on the disk and stand for no cluster

    function Sec(s: nat): seq<bv8>
      requires s < disk.Length
      reads this`winsect, disk, win
    {
      if s == winsect then win[..] else disk[s]
    }

    ghost function Row(): seq<nat>
      reads this`bits, this`pad
    {
      bits + pad
    }

    ghost predicate Window()
      reads this`winsect, this`wflag, disk, win
    {
      && (win as object) != (disk as object) && 3 <= nFatent < 0x7FFF_FFFF && win.Length == 512
      && bitbase + SectorOf(nFatent - 3) < disk.Length < 0x1_0000_0000
      && (forall s :: 0 <= s < disk.Length ==> |disk[s]| == 512)
      && (wflag ==> winsect < disk.Length)
      && (!wflag && winsect < disk.Length ==> win[..] == disk[winsect])
    }

    /** The sector of every bit is on the disk, and the bits are those of the bytes there. */
    ghost predicate Shows(v: nat)
      reads this`winsect, this`bits, this`pad, disk, win
    {
      && bitbase + SectorOf(v) < disk.Length && |Sec(bitbase + SectorOf(v))| == 512 && v + 2 < |Row()|
      && Row()[v + 2] == Value(Sec(bitbase + SectorOf(v))[ByteOf(v)], v % 8)
    }

    ghost predicate Valid()
      reads this`winsect, this`wflag, this`bits, this`pad, disk, win
      ensures Valid() ==> |bits| == nFatent && |Row()| == nFatent + |pad| && 3 <= nFatent < 0x7FFF_FFFF
      ensures Valid() ==> forall c :: 0 <= c < |Row()| ==> Row()[c] <= 1
      ensures Valid() ==> forall c :: 0 <= c < nFatent ==> bits[c] == Row()[c] <= 1
    {
      && Window() && |bits| == nFatent && bits[0] == bits[1] == 0
      && (forall v: nat :: v + 2 < |Row()| ==> Shows(v))
      && forall c :: 0 <= c < |Row()| ==> Row()[c] <= 1
    }

    /** An empty map over a disk of length sectors, all of which behind bitbase hold bits. */
    constructor (nFatent: nat, bitbase: nat, length: nat)
      requires 3 <= nFatent < 0x7FFF_FFFF && bitbase + SectorOf(nFatent - 3) < length < 0x1_0000_0000
      ensures Valid() && fresh(disk) && fresh(win) && this.nFatent == nFatent && bits == seq(nFatent, _ => 0)
      ensures this.bitbase == bitbase && |Row()| == 4096 * (length - bitbase) + 2
    {
      this.nFatent, this.bitbase := nFatent, bitbase;
      disk := new seq<bv8>[length](_ => seq(512, _ => 0));
      win := new bv8[512](_ => 0);
      winsect, wflag := 0xFFFF_FFFF, false;
      BitsBehind(nFatent - 3, length - bitbase);
      bits, pad := seq(nFatent, _ => 0), seq(4096 * (length - bitbase) + 2 - nFatent, _ => 0);
      new;
      forall v: nat | v + 2 < |Row()| ensures Shows(v) { BitsBehind(v, length - bitbase); }
    }

    /** sync_window. */
    method SyncWindow()
      requires Window()
      modifies this`wflag, disk
      ensures Window() && !wflag
      ensures forall s :: 0 <= s < disk.Length ==> Sec(s) == old(Sec(s))
    {
      if wflag {
        disk[winsect] := win[..];
        wflag := false;
      }
    }

    /** move_window. */
    method MoveWindow(sect: nat)
      requires Valid() && sect < disk.Length
      modifies this`winsect, this`wflag, disk, win
      ensures Valid() && winsect == sect
    {
      hide Value, SectorOf, ByteOf;
      if sect != winsect {
        SyncWindow();
        forall i | 0 <= i < 512 { win[i] := disk[sect][i]; }
        winsect := sect;
        assert win[..] == disk[sect];
        forall v: nat | v + 2 < |Row()| ensures Shows(v) { assert old(Shows(v)); }
      }
    }

    /** The window shows bit v at byte i under the mask bm. */
    ghost predicate At(v: nat, i: nat, bm: bv8)
      reads this`winsect
    {
      winsect == bitbase + SectorOf(v) && i == ByteOf(v) && bm == Mask(v % 8)
    }

    lemma BitAt(v: nat, i: nat, bm: bv8)
      requires Valid() && v + 2 < |Row()| && At(v, i, bm)
      ensures win[i] & bm == 0 <==> Row()[v + 2] == 0
      ensures Row()[v + 2] == if win[i] & bm != 0 then 1 else 0
      ensures v + 2 < nFatent ==> bits[v + 2] == Row()[v + 2]
    {
      assert Shows(v);
    }

    function ScanStart(clst: nat): nat {
      if clst < 2 || clst >= nFatent then 2 else clst
    }

    /** The scan has come to bit val: of its p bits those from k on are a run of ctr free clusters, from bit scl on. */
    ghost predicate Scanning(from: nat, val: nat, scl: nat, ctr: nat, ncl: nat, k: nat, p: nat)
      reads this`bits
    {
      && |bits| == nFatent >= 3 && from < nFatent - 2 && Scanned(bits, from + 2, k, p, ncl) && p < nFatent - 2
      && val + 2 == ScanAt(nFatent, from + 2, p) && scl + 2 == ScanAt(nFatent, from + 2, k) && ctr == p - k
    }

    /** The result of find_bitmap. */
    ghost predicate Answer(start: nat, ncl: nat, r: nat, k: nat)
      requires |bits| == nFatent && 2 <= start < nFatent
      reads this`bits
    {
      Found(bits, start, ncl, r, k)
    }

    /** find_bitmap: the first run of ncl free clusters in scan order, 0 if there is none. The run counter is not reset
        where the scan wraps around. */
    method FindBitmap(clst: nat, ncl: nat) returns (r: nat, ghost k: nat)
      requires Valid() && 0 < ncl && clst < 0x1_0000_0000
      modifies this`winsect, this`wflag, disk, win
      ensures Valid() && Answer(ScanStart(clst), ncl, r, k)
    {
      hide Valid, Scanned, FirstRun, FreeRun, Scanning, Found;
      var from := (clst - 2) % 0x1_0000_0000;
      if from >= nFatent - 2 { from := 0; }
      var val: nat, scl: nat, ctr: nat, done := from, from, 0, false;
      ghost var p: nat := 0;   // bits read so far
      k := 0;
      ScanFrom(from, ncl);
      while true
        invariant Valid() && Scanning(from, val, scl, ctr, ncl, k, p) && val < nFatent - 2 && p < nFatent
        decreases nFatent - p
      {
        ValidInside(val);
        MoveWindow(bitbase + val / 8 / 512);
        done, r, val, scl, ctr, k, p := ScanSector(from, val, scl, ctr, ncl, k, p);
        if done { return; }
      }
    }

    lemma ValidInside(v: nat)
      requires Valid() && v + 2 < |Row()|
      ensures bitbase + SectorOf(v) < disk.Length
    {
      assert Shows(v);
    }

    lemma ScanFrom(from: nat, ncl: nat)
      requires Valid() && from < nFatent - 2 && 0 < ncl
      ensures Scanning(from, from, from, 0, ncl, 0, 0)
    {
      ScanBegins(bits, from + 2, ncl);
    }

    /** The bytes of the sector in the window, from bit val on. */
    method ScanSector(from: nat, val0: nat, scl0: nat, ctr0: nat, ncl: nat, ghost k0: nat, ghost p0: nat)
      returns (done: bool, r: nat, val: nat, scl: nat, ctr: nat, ghost k: nat, ghost p: nat)
      requires Valid() && Scanning(from, val0, scl0, ctr0, ncl, k0, p0) && val0 < nFatent - 2 && p0 < nFatent
      requires winsect == bitbase + SectorOf(val0)
      ensures done ==> Answer(from + 2, ncl, r, k)
      ensures !done ==> Scanning(from, val, scl, ctr, ncl, k, p) && val < nFatent - 2 && p0 < p < nFatent
    {
      hide Valid, Scanned, FirstRun, FreeRun, Scanning, Found, SectorOf, ByteOf, Mask;
      val, scl, ctr, k, p := val0, scl0, ctr0, k0, p0;
      var i: nat, bm := val / 8 % 512, Mask(val % 8);
      SectorStart(val, i, bm);
      while true
        invariant Scanning(from, val, scl, ctr, ncl, k, p) && val < nFatent - 2 && At(val, i, bm) && p0 <= p < nFatent
        decreases nFatent - p
      {
        done, r, i, val, scl, ctr, k, p := ScanByte(from, i, bm, val, scl, ctr, ncl, k, p);
        if done { return; }
        bm := 1;
        i := i + 1;
        if i >= 512 { break; }
      }
    }

    lemma SectorStart(v: nat, i: nat, bm: bv8)
      requires winsect == bitbase + SectorOf(v) && i == v / 8 % 512 && bm == Mask(v % 8)
      ensures At(v, i, bm)
    {
    }

    /** The bits of one byte, from bit val on. Where the scan wraps around the byte and the sector end, too. */
    method ScanByte(from: nat, i0: nat, bm0: bv8, val0: nat, scl0: nat, ctr0: nat, ncl: nat, ghost k0: nat,
        ghost p0: nat)
      returns (done: bool, r: nat, i: nat, val: nat, scl: nat, ctr: nat, ghost k: nat, ghost p: nat)
      requires Valid() && Scanning(from, val0, scl0, ctr0, ncl, k0, p0) && val0 < nFatent - 2 && p0 < nFatent
      requires At(val0, i0, bm0)
      ensures done ==> Answer(from + 2, ncl, r, k)
      ensures !done ==> Scanning(from, val, scl, ctr, ncl, k, p) && val < nFatent - 2 && p0 < p < nFatent
      ensures !done && i + 1 < 512 ==> At(val, i + 1, 1)
    {
      hide Valid, Scanned, FirstRun, FreeRun, Scanning, Found, At, Mask;
      i, val, scl, ctr, k, p := i0, val0, scl0, ctr0, k0, p0;
      var bm := bm0;
      done, r := false, 0;
      while true
        invariant Scanning(from, val, scl, ctr, ncl, k, p) && val < nFatent - 2 && At(val, i, bm) && p0 <= p < nFatent
        decreases nFatent - p
      {
        ScanBit(from, val, scl, ctr, ncl, k, p);
        BitAt(val, i, bm);
        NextAt(val, i, bm);
        WindowSize();
        var bv := win[i] & bm;
        bm := bm << 1;
        val := val + 1;
        if val >= nFatent - 2 { val, bm, i := 0, 0, 512; }
        p := p + 1;
        if bv == 0 {
          ctr := ctr + 1;
          if ctr == ncl { return true, scl + 2, i, val, scl, ctr, k, p; }
        } else {
          scl, ctr, k := val, 0, p;
        }
        if val == from { return true, 0, i, val, scl, ctr, k, p; }
        if bm == 0 { break; }
      }
    }

    /** What the scan makes of one bit. */
    lemma ScanBit(from: nat, val: nat, scl: nat, ctr: nat, ncl: nat, k: nat, p: nat)
      requires Scanning(from, val, scl, ctr, ncl, k, p) && val < nFatent - 2
      ensures p < nFatent - 2 && val + 2 < |bits|
      ensures var next := if val + 1 >= nFatent - 2 then 0 else val + 1;
              && (next != from ==> p + 1 < nFatent - 2)
              && (bits[val + 2] == 0 && ctr + 1 == ncl ==> Answer(from + 2, ncl, scl + 2, k))
              && (bits[val + 2] == 0 && ctr + 1 != ncl ==>
                  if next == from then Answer(from + 2, ncl, 0, k)
                    else Scanning(from, next, scl, ctr + 1, ncl, k, p + 1))
              && (bits[val + 2] != 0 ==>
                  if next == from then Answer(from + 2, ncl, 0, p + 1)
                    else Scanning(from, next, next, 0, ncl, p + 1, p + 1))
    {
      ScanBounds(bits, from + 2, k, p, ncl);
      ScanStep(bits, from + 2, k, p, ncl);
      hide Scanned, FirstRun, FreeRun;
      if p + 1 == nFatent - 2 {
        if bits[val + 2] != 0 { ScanEnds(bits, from + 2, p + 1, p + 1, ncl); }
        else if ctr + 1 != ncl { ScanEnds(bits, from + 2, k, p + 1, ncl); }
      }
    }

    /** From one bit of a byte to the next one, in the byte behind the last. */
    lemma NextAt(v: nat, i: nat, bm: bv8)
      requires At(v, i, bm)
      ensures bm != 0 && i < 512
      ensures bm << 1 != 0 ==> At(v + 1, i, bm << 1)
      ensures bm << 1 == 0 && i + 1 < 512 ==> At(v + 1, i + 1, 1)
      ensures bm << 1 == 0 && i + 1 >= 512 ==>
        bitbase + SectorOf(v + 1) == winsect + 1 && ByteOf(v + 1) == 0 && (v + 1) % 8 == 0
    {
      hide SectorOf, ByteOf;
      NextBit(v);
      NextMask(v % 8);
      hide Mask;
      FirstMask();
    }

    lemma WindowSize()
      requires Valid()
      ensures win.Length == 512
    {
    }

    /** change_bitmap: the bits of ncl clusters from clst on become bv, unless one of them is bv already; up to that one
        they have changed. It does not look where the clusters end. */
    method ChangeBitmap(clst: nat, ncl: nat, bv: nat) returns (res: FResult, ghost end: nat)
      requires Valid() && 2 <= clst && 0 < ncl && clst + ncl <= |Row()| && bv <= 1
      modifies this`winsect, this`wflag, this`bits, this`pad, disk, win
      ensures Valid() && |Row()| == |old(Row())|
      ensures Outcome(res, old(Row()), Row(), clst, end, clst + ncl, bv)
      ensures res == if forall c :: clst <= c < clst + ncl ==> old(Row())[c] != bv then Ok else IntErr
      ensures forall c :: 0 <= c < nFatent && !(clst <= c < clst + ncl) ==> bits[c] == old(bits)[c]
      ensures res == Ok ==> forall c :: clst <= c < clst + ncl && c < nFatent ==> bits[c] == bv
    {
      hide Valid, SectorOf, ByteOf, Mask, Changed, Outcome, Row;
      var val := clst - 2;
      var sect, i, bm := bitbase + val / 8 / 512, val / 8 % 512, Mask(val % 8);
      ghost var c := clst;
      var left, done := ncl, false;
      FirstBit(val, sect, i);
      Unchanged(Row(), clst, bv);
      while true
        invariant Valid() && 0 < left && c + left == clst + ncl && clst <= c && |Row()| == |old(Row())|
        invariant sect == bitbase + SectorOf(c - 2) && i == ByteOf(c - 2) && bm == Mask((c - 2) % 8)
        invariant Changed(old(Row()), Row(), clst, c, bv)
        decreases left
      {
        ValidInside(c - 2);
        MoveWindow(sect);
        sect := sect + 1;
        done, res, left, c := ChangeSector(i, bm, left, bv, clst, c, old(Row()));
        if done {
          end := c;
          OutcomeMeans(res, old(Row()), Row(), clst, end, clst + ncl, bv);
          return;
        }
        bm := 1;
        i := 0;
        FirstMask();
      }
    }

    /** The bytes of the sector in the window, from byte i0 and the bit of cluster c0 on. */
    method ChangeSector(i0: nat, bm0: bv8, left0: nat, bv: nat, ghost clst: nat, ghost c0: nat, ghost was: seq<nat>)
      returns (done: bool, res: FResult, left: nat, ghost c: nat)
      requires Valid() && 0 < left0 && 2 <= clst <= c0 && c0 + left0 <= |Row()| && bv <= 1
      requires At(c0 - 2, i0, bm0) && Changed(was, Row(), clst, c0, bv)
      modifies this`wflag, this`bits, this`pad, win
      ensures Valid() && winsect == old(winsect) && |Row()| == |old(Row())|
      ensures done ==> Outcome(res, was, Row(), clst, c, c0 + left0, bv)
      ensures !done ==> 0 < left && c0 < c && c + left == c0 + left0 && Changed(was, Row(), clst, c, bv)
      ensures !done ==> bitbase + SectorOf(c - 2) == winsect + 1 && ByteOf(c - 2) == 0 && (c - 2) % 8 == 0
    {
      hide Valid, SectorOf, ByteOf, Changed, Outcome, Mask;
      var i, bm := i0, bm0;
      left, c := left0, c0;
      while true
        invariant Valid() && winsect == old(winsect) && |Row()| == |old(Row())|
        invariant 0 < left && c0 <= c && c + left == c0 + left0
        invariant At(c - 2, i, bm) && Changed(was, Row(), clst, c, bv)
        decreases left
      {
        WindowSize();
        done, res, left, c := ChangeByte(i, bm, left, bv, clst, c, was);
        if done { return; }
        bm := 1;
        i := i + 1;
        if i >= 512 { break; }
      }
    }

    /** The bits of one byte. */
    method ChangeByte(i: nat, bm0: bv8, left0: nat, bv: nat, ghost clst: nat, ghost c0: nat, ghost was: seq<nat>)
      returns (done: bool, res: FResult, left: nat, ghost c: nat)
      requires Valid() && 0 < left0 && 2 <= clst <= c0 && c0 + left0 <= |Row()| && bv <= 1
      requires At(c0 - 2, i, bm0) && Changed(was, Row(), clst, c0, bv)
      modifies this`wflag, this`bits, this`pad, win
      ensures Valid() && winsect == old(winsect) && |Row()| == |old(Row())|
      ensures done ==> Outcome(res, was, Row(), clst, c, c0 + left0, bv)
      ensures !done ==> 0 < left && c0 < c && c + left == c0 + left0 && Changed(was, Row(), clst, c, bv)
      ensures !done && i + 1 < 512 ==> At(c - 2, i + 1, 1)
      ensures !done && i + 1 >= 512 ==>
        bitbase + SectorOf(c - 2) == winsect + 1 && ByteOf(c - 2) == 0 && (c - 2) % 8 == 0
    {
      hide Valid, SectorOf, ByteOf, At;
      done, res := false, Ok;
      var bm := bm0;
      left, c := left0, c0;
      while true
        invariant Valid() && winsect == old(winsect) && |Row()| == |old(Row())|
        invariant 0 < left && c0 <= c && c + left == c0 + left0
        invariant At(c - 2, i, bm) && Changed(was, Row(), clst, c, bv)
        decreases left
      {
        BitAt(c - 2, i, bm);
        WindowSize();
        NextAt(c - 2, i, bm);
        if bv == (if win[i] & bm != 0 then 1 else 0) { return true, IntErr, left, c; }
        FlipBit(i, bm, c);
        left := left - 1;
        c := c + 1;
        if left == 0 { return true, Ok, left, c; }
        bm := bm << 1;
        if bm == 0 { break; }
      }
    }

    /** The flip of bit c in the window. */
    method FlipBit(i: nat, bm: bv8, ghost c: nat)
      requires Valid() && 2 <= c < |Row()| && At(c - 2, i, bm)
      modifies this`wflag, this`bits, this`pad, win
      ensures Valid() && Row() == old(Row())[c := 1 - old(Row())[c]]
    {
      hide Valid, SectorOf, ByteOf, Mask, Bit;
      WindowSize();
      forall j | 0 <= j < 8
        ensures Value(win[i] ^ bm, j) == if j == (c - 2) % 8 then 1 - Value(win[i], j) else Value(win[i], j)
      {
        Flipped(win[i], (c - 2) % 8, j);
      }
      StoreByte(i, win[i] ^ bm, c);
    }

    /** The store of a byte in which only bit c is different. */
    method StoreByte(i: nat, b: bv8, ghost c: nat)
      requires Valid() && 2 <= c < |Row()| && winsect == bitbase + SectorOf(c - 2) && i == ByteOf(c - 2)
      requires i < win.Length
      requires forall j :: 0 <= j < 8 ==>
        Value(b, j) == if j == (c - 2) % 8 then 1 - Value(win[i], j) else Value(win[i], j)
      modifies this`wflag, this`bits, this`pad, win
      ensures Valid() && Row() == old(Row())[c := 1 - old(Row())[c]]
    {
      hide SectorOf, ByteOf, Value;
      assert Shows(c - 2);
      win[i] := b;
      wflag := true;
      if c < nFatent { bits := bits[c := 1 - bits[c]]; } else { pad := pad[c - nFatent := 1 - pad[c - nFatent]]; }
      assert Row() == old(Row())[c := 1 - old(Row())[c]];
      forall v: nat | v + 2 < |Row()| ensures Shows(v) {
        assert old(Shows(v)) && old(Shows(c - 2));
        if SectorOf(v) == SectorOf(c - 2) && ByteOf(v) == i && v % 8 == (c - 2) % 8 { SameBit(v, c - 2); }
      }
    }

    lemma FirstBit(v: nat, sect: nat, i: nat)
      requires sect == bitbase + v / 8 / 512 && i == v / 8 % 512
      ensures sect == bitbase + SectorOf(v) && i == ByteOf(v)
    {
    }
  }

  lemma Unchanged(b: seq<nat>, from: nat, bv: nat)
    requires from <= |b|
    ensures Changed(b, b, from, from, bv)
  {
  }

  /** The bits from..to-1 have become bv, which they were not before. */
  ghost predicate Changed(was: seq<nat>, now: seq<nat>, from: nat, to: nat, bv: nat) {
    && |now| == |was| && from <= to <= |was|
    && forall d :: 0 <= d < |was| ==> if from <= d < to then now[d] == bv && was[d] != bv else now[d] == was[d]
  }

  /** What change_bitmap leaves: all the bits up to end have changed, and bit end, unless it is the last one, was found
      as it was to become. */
  ghost predicate Outcome(res: FResult, was: seq<nat>, now: seq<nat>, from: nat, end: nat, to: nat, bv: nat) {
    && from <= end <= to <= |was| && Changed(was, now, from, end, bv)
    && (if end == to then res == Ok else res == IntErr && was[end] == bv)
  }

  lemma OutcomeMeans(res: FResult, was: seq<nat>, now: seq<nat>, from: nat, end: nat, to: nat, bv: nat)
    requires Outcome(res, was, now, from, end, to, bv)
    ensures |now| == |was| && to <= |was|
    ensures res == if forall c :: from <= c < to ==> was[c] != bv then Ok else IntErr
    ensures forall c :: 0 <= c < |was| && !(from <= c < to) ==> now[c] == was[c]
    ensures res == Ok ==> forall c :: from <= c < to ==> now[c] == bv
  {
  }
}
