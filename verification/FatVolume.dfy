/** The mounted FAT volume of ff.c: one write-back sector window over the disk, and the FAT read and written through it.
    The disk does not fail. */
module FatVolume {
  import opened FatCodec
  import opened ClusterChains

  /** FR_* codes which the modelled functions return. */
  datatype FResult = Ok | IntErr | Denied | NotEnoughCore | NoFile

  /** Consecutive sectors as one sequence of bytes. */
  ghost function Flatten(sectors: seq<seq<Byte>>): (r: seq<Byte>)
    requires forall s :: 0 <= s < |sectors| ==> |sectors[s]| == 512
    ensures |r| == |sectors| * 512
    ensures forall k :: 0 <= k < |r| ==> r[k] == sectors[k / 512][k % 512]
  {
    seq(|sectors| * 512, k requires 0 <= k < |sectors| * 512 => sectors[k / 512][k % 512])
  }

  /** An aligned FAT16 or FAT32 entry lies in one sector. */
  lemma SameSector(bc: nat)
    ensures bc % 2 == 0 ==> (bc + 1) / 512 == bc / 512
    ensures bc % 4 == 0 ==> (bc + 1) / 512 == (bc + 2) / 512 == (bc + 3) / 512 == bc / 512
  {
  }

  lemma DwordPlace(c: nat)
    ensures c * 4 % 2 == 0 && (c * 4 + 2) % 2 == 0
    ensures c * 4 / 512 == (c * 4 + 2) / 512 == (c * 4 + 3) / 512 == c / 128
  {
    var q, r := Parts128(c);
    DwordAt(c, q, r);
    EvenDouble(c * 2);
    EvenDouble(c * 2 + 1);
  }

  lemma Parts128(c: nat) returns (q: nat, r: nat)
    ensures c == 128 * q + r && r < 128 && q == c / 128
  {
    q, r := c / 128, c % 128;
  }

  lemma EvenDouble(n: nat)
    ensures 2 * n % 2 == 0
  {
  }

  lemma DwordAt(c: nat, q: nat, r: nat)
    requires c == 128 * q + r && r < 128
    ensures c * 4 / 512 == (c * 4 + 2) / 512 == (c * 4 + 3) / 512 == q
  {
    var p := c * 4;
    assert p == 512 * q + 4 * r;
    Div512(q, 4 * r);
    Div512(q, 4 * r + 2);
    Div512(q, 4 * r + 3);
  }

  lemma Div512(q: nat, r: nat)
    requires r < 512
    ensures (512 * q + r) / 512 == q && (512 * q + r) % 512 == r
  {
  }

  /** First sector of data cluster c (clst2sect). */
  function ClusterSector(database: nat, csize: nat, c: nat): int {
    database + csize * (c - 2)
  }

  /** The disk holds every cluster 2..nFatent-1. */
  ghost predicate ClustersFit(database: nat, csize: nat, nFatent: nat, length: nat) {
    forall c :: 2 <= c < nFatent ==>
      database <= ClusterSector(database, csize, c) && ClusterSector(database, csize, c) + csize <= length
  }

  /** It is enough that the last cluster ends inside the disk. */
  lemma LastClusterFits(database: nat, csize: nat, nFatent: nat, length: nat)
    requires 3 <= nFatent && database + csize * (nFatent - 2) <= length
    ensures ClustersFit(database, csize, nFatent, length)
  {
    forall c | 2 <= c < nFatent
      ensures database <= ClusterSector(database, csize, c) && ClusterSector(database, csize, c) + csize <= length
    {
      ProductGrows(csize, c - 1, nFatent - 2);
      assert csize * (c - 1) == csize * (c - 2) + csize;
    }
  }

  lemma ProductGrows(m: nat, a: nat, b: nat)
    requires a <= b
    ensures m * a <= m * b
  {
    assert m * b == m * a + m * (b - a);
  }

  /** Sector j of the bytes from off on. */
  function Block(src: seq<Byte>, off: nat, j: nat): (b: seq<Byte>)
    requires off + 512 * j + 512 <= |src|
    ensures |b| == 512
  {
    src[off + 512 * j..off + 512 * j + 512]
  }

  class Volume {
    const fmt: FatType
    const nFats: nat
    const nFatent: nat     // number of FAT entries: clusters 2..nFatent-1 hold data
    const csize: nat       // sectors per cluster
    const fsize: nat       // sectors per FAT
    const fatbase: nat
    const dirbase: nat     // root directory: start sector, or start cluster on FAT32
    const nRootdir: nat    // root directory entries (FAT12/16)
    const database: nat
    const disk: array<seq<Byte>>
    const win: array<Byte>

    var winsect: nat
    var wflag: bool
    var lastClst: nat
    var freeClst: nat
    var fsiFlag: bool      // bit 0 of fsi_flag: FSInfo is out of date

    ghost var img: seq<Byte>         // the bytes of the first FAT, as seen through the window
    ghost var fat: seq<nat>          // the links which these bytes denote
    ghost var log: seq<(nat, nat)>   // every put_fat accepted so far: entry, value

    /** What mount_volume has checked of the layout. */
    ghost predicate Geometry() {
      && (nFats == 1 || nFats == 2)
      && 3 <= nFatent
      && (fmt == Fat12 ==> nFatent <= 0xFF5 + 2)
      && (fmt == Fat16 ==> nFatent <= 0xFFF5 + 2)
      && (fmt == Fat32 ==> nFatent <= 0x0FFF_FFF5 + 2)
      && TableBytes(fmt, nFatent) <= fsize * 512
      && 1 <= csize
      && 1 <= fatbase
      && fatbase + (if nFats == 2 then 2 * fsize else fsize) <= database
      && database <= disk.Length < 0x1_0000_0000
      && ClustersFit(database, csize, nFatent, disk.Length)
    }

    ghost predicate InFat1(s: nat) { fatbase <= s < fatbase + fsize }

    ghost predicate InFat2(s: nat) { nFats == 2 && fatbase + fsize <= s < fatbase + 2 * fsize }

    /** The current content of sector s: the window wins over the disk. */
    ghost function Sec(s: nat): seq<Byte>
      reads this`winsect, disk, win
      requires s < disk.Length
    {
      if s == winsect then win[..] else disk[s]
    }

    ghost predicate ValidWindow()
      reads this`winsect, this`wflag, disk, win
    {
      && Geometry()
      && win.Length == 512
      && (forall s :: 0 <= s < disk.Length ==> |disk[s]| == 512)
      && (wflag ==> winsect < disk.Length && !InFat2(winsect))
      && (!wflag && winsect < disk.Length ==> win[..] == disk[winsect])
      && (forall s: nat :: InFat1(s) ==> Mirrored(s))
    }

    /** A sector of the first FAT equals its copy in the second, unless the window still holds it dirty. */
    ghost predicate Mirrored(s: nat)
      requires Geometry() && InFat1(s)
      reads this`winsect, this`wflag, disk
    {
      nFats == 2 && !(wflag && s == winsect) ==> disk[s] == disk[s + fsize]
    }

    ghost predicate ValidImage()
      reads this`winsect, this`wflag, this`img, disk, win
      ensures ValidImage() ==> Geometry() && |img| == fsize * 512
    {
      && ValidWindow()
      && |img| == fsize * 512
      && forall k :: 0 <= k < |img| ==> img[k] == Sec(fatbase + k / 512)[k % 512]
    }

    ghost predicate Valid()
      reads this`winsect, this`wflag, this`img, this`fat, disk, win
      ensures Valid() ==> Geometry() && |fat| == nFatent && 3 <= nFatent < EntryRange(fmt)
    {
      && ValidImage()
      && fat == Table(fmt, img, nFatent)
    }

    /** A freshly mounted volume: nothing in the window yet. */
    constructor (fmt: FatType, nFats: nat, nFatent: nat, csize: nat, fsize: nat, fatbase: nat, dirbase: nat,
        nRootdir: nat,
                 database: nat, disk: array<seq<Byte>>, lastClst: nat, freeClst: nat)
      requires nFats == 1 || nFats == 2
      requires 3 <= nFatent && 1 <= csize && 1 <= fatbase
      requires nFatent <= match fmt case Fat12 => 0xFF5 + 2 case Fat16 => 0xFFF5 + 2 case Fat32 => 0x0FFF_FFF5 + 2
      requires TableBytes(fmt, nFatent) <= fsize * 512
      requires fatbase + (if nFats == 2 then 2 * fsize else fsize) <= database
      requires database <= disk.Length < 0x1_0000_0000
      requires database + csize * (nFatent - 2) <= disk.Length
      requires forall s :: 0 <= s < disk.Length ==> |disk[s]| == 512
      requires nFats == 2 ==> disk[fatbase..fatbase + fsize] == disk[fatbase + fsize..fatbase + 2 * fsize]
      ensures Valid() && fresh(win) && this.disk == disk && log == []
      ensures this.fmt == fmt && this.nFatent == nFatent && this.csize == csize && this.database == database
      ensures this.lastClst == lastClst && this.freeClst == freeClst && this.fatbase == fatbase && this.fsize == fsize
      ensures !wflag && winsect >= disk.Length
    {
      this.fmt, this.nFats, this.nFatent, this.csize, this.fsize := fmt, nFats, nFatent, csize, fsize;
      this.fatbase, this.dirbase, this.nRootdir, this.database := fatbase, dirbase, nRootdir, database;
      this.disk := disk;
      win := new Byte[512](_ => 0);
      winsect, wflag := 0x1_0000_0000 - 1, false;
      this.lastClst, this.freeClst, fsiFlag := lastClst, freeClst, false;
      log := [];
      new;
      LastClusterFits(database, csize, nFatent, disk.Length);
      hide ClustersFit, Table;
      img := Flatten(disk[fatbase..fatbase + fsize]);
      fat := Table(fmt, img, nFatent);
      Mounted();
    }

    lemma Mounted()
      requires Geometry() && win.Length == 512 && winsect == 0x1_0000_0000 - 1 && !wflag
      requires forall s :: 0 <= s < disk.Length ==> |disk[s]| == 512
      requires nFats == 2 ==> disk[fatbase..fatbase + fsize] == disk[fatbase + fsize..fatbase + 2 * fsize]
      requires img == Flatten(disk[fatbase..fatbase + fsize]) && fat == Table(fmt, img, nFatent)
      ensures Valid()
    {
      hide ClustersFit, Table;
      forall s: nat | InFat1(s) ensures Mirrored(s) {
        assert nFats == 2 ==>
          disk[fatbase..fatbase + fsize][s - fatbase] == disk[fatbase + fsize..fatbase + 2 * fsize][s - fatbase];
      }
    }

    /** sync_window: write the window back, and to the second FAT as well. */
    method SyncWindow()
      requires ValidWindow()
      modifies this`wflag, disk
      ensures ValidWindow() && !wflag
      ensures forall s :: 0 <= s < disk.Length && !InFat2(s) ==> Sec(s) == old(Sec(s))
    {
      if wflag {
        disk[winsect] := win[..];
        wflag := false;
        if (winsect - fatbase) % 0x1_0000_0000 < fsize {
          if nFats == 2 {
            disk[winsect + fsize] := win[..];
          }
        }
        forall s: nat | InFat1(s) ensures Mirrored(s) {
          assert old(Mirrored(s));
        }
      }
    }

    /** move_window. */
    method MoveWindow(sect: nat)
      requires ValidImage() && sect < disk.Length
      modifies this`winsect, this`wflag, disk, win
      ensures ValidImage() && winsect == sect
      ensures forall s :: 0 <= s < disk.Length && !InFat2(s) ==> Sec(s) == old(Sec(s))
      ensures sect != old(winsect) ==> !wflag
      ensures sect == old(winsect) ==> wflag == old(wflag)
    {
      if sect != winsect {
        SyncWindow();
        forall i | 0 <= i < 512 { win[i] := disk[sect][i]; }
        winsect := sect;
        assert win[..] == disk[sect];
      }
    }

    /** The byte store which put_fat makes into the window: *p = b; wflag = 1. */
    method Poke(bc: nat, b: Byte)
      requires ValidImage() && bc < |img| && winsect == fatbase + bc / 512
      modifies this`wflag, this`img, win
      ensures ValidImage() && wflag
      ensures img == old(img)[bc := b]
      ensures forall s :: 0 <= s < disk.Length && s != winsect ==> Sec(s) == old(Sec(s))
    {
      win[bc % 512] := b;
      wflag := true;
      img := img[bc := b];
      forall s: nat | InFat1(s) ensures Mirrored(s) {
        assert old(Mirrored(s));
      }
    }

    /** st_word at an even offset of the window. */
    method PokeWord(bc: nat, lo: Byte, hi: Byte)
      requires ValidImage() && bc + 1 < |img| && bc % 2 == 0 && winsect == fatbase + bc / 512
      modifies this`wflag, this`img, win
      ensures ValidImage() && wflag
      ensures img == old(img)[bc := lo][bc + 1 := hi]
      ensures forall s :: 0 <= s < disk.Length && s != winsect ==> Sec(s) == old(Sec(s))
    {
      hide ValidImage;
      SameSector(bc);
      Poke(bc, lo);
      Poke(bc + 1, hi);
    }

    /** get_fat: 1 for a cluster number out of range, otherwise the link. */
    method GetFat(clst: nat) returns (val: nat)
      requires Valid()
      modifies this`winsect, this`wflag, disk, win
      ensures Valid() && DataKept()
      ensures val == if clst < 2 || clst >= nFatent then 1 else fat[clst]
    {
      if clst < 2 || clst >= nFatent {
        return 1;
      }
      hide ValidImage;
      EntryInside(fmt, img, nFatent, clst);
      match fmt {
        case Fat12 => val := GetFat12(clst);
        case Fat16 => val := GetFat16(clst);
        case Fat32 => val := GetFat32(clst);
      }
    }

    /** Byte bc of the FAT, which is at offset i of the window. */
    function WindowByte(i: nat, ghost bc: nat): (b: Byte)
      requires ValidImage() && bc < |img| && winsect == fatbase + bc / 512 && i == bc % 512
      reads this`winsect, this`wflag, this`img, disk, win
      ensures b == img[bc]
    {
      assert img[bc] == Sec(fatbase + bc / 512)[bc % 512];
      win[i]
    }

    /** The FAT sector holding byte k. */
    lemma FatSector(k: nat)
      requires ValidImage() && k < |img|
      ensures InFat1(fatbase + k / 512) && fatbase + k / 512 < disk.Length
    {
    }

    method GetFat12(clst: nat) returns (val: nat)
      requires ValidImage() && fmt == Fat12 && Pos(fmt, clst) + 2 <= |img|
      modifies this`winsect, this`wflag, disk, win
      ensures ValidImage() && val == Decode(fmt, img, clst)
      ensures forall s :: 0 <= s < disk.Length && !InFat2(s) ==> Sec(s) == old(Sec(s))
      ensures InFat1(winsect)
    {
      hide ValidImage, Sec, Geometry, Word, FirstByte12, SecondByte12;
      var bc := clst + clst / 2;
      FatSector(bc);
      FatSector(bc + 1);
      MoveWindow(fatbase + bc / 512);
      var lo := WindowByte(bc % 512, bc);
      bc := bc + 1;
      MoveWindow(fatbase + bc / 512);
      var hi := WindowByte(bc % 512, bc);
      var wc := Word(lo, hi);
      val := if clst % 2 == 1 then wc / 16 else wc % 0x1000;
    }

    method GetFat16(clst: nat) returns (val: nat)
      requires ValidImage() && fmt == Fat16 && Pos(fmt, clst) + 2 <= |img|
      modifies this`winsect, this`wflag, disk, win
      ensures ValidImage() && val == Decode(fmt, img, clst)
      ensures forall s :: 0 <= s < disk.Length && !InFat2(s) ==> Sec(s) == old(Sec(s))
      ensures InFat1(winsect)
    {
      hide ValidImage, Sec, Geometry, Word;
      FatSector(clst * 2);
      MoveWindow(fatbase + clst / (512 / 2));
      val := LoadWord(clst * 2 % 512, clst);
    }

    method GetFat32(clst: nat) returns (val: nat)
      requires ValidImage() && fmt == Fat32 && Pos(fmt, clst) + 4 <= |img|
      modifies this`winsect, this`wflag, disk, win
      ensures ValidImage() && val == Decode(fmt, img, clst)
      ensures forall s :: 0 <= s < disk.Length && !InFat2(s) ==> Sec(s) == old(Sec(s))
      ensures InFat1(winsect)
    {
      hide ValidImage, Sec, Geometry, Dword;
      FatSector(clst * 4);
      MoveWindow(fatbase + clst / (512 / 4));
      val := LoadDword(clst * 4 % 512, clst);
      val := val % 0x1000_0000;
    }

    /** put_fat: refuses a cluster number out of range, otherwise stores the link. */
    method PutFat(clst: nat, val: nat) returns (res: FResult)
      requires Valid()
      modifies this`winsect, this`wflag, this`img, this`fat, this`log, disk, win
      ensures Valid() && DataKept()
      ensures res == if 2 <= clst < nFatent then Ok else IntErr
      ensures res == Ok ==> InFat1(winsect)
      ensures res == Ok ==>
        fat == old(fat)[clst := val % EntryRange(fmt)] && log == old(log) + [(clst, val % EntryRange(fmt))]
      ensures res != Ok ==> fat == old(fat) && img == old(img) && log == old(log)
      ensures fmt == Fat32 && res == Ok ==> SameTops(old(img), img, nFatent)
    {
      if clst < 2 || clst >= nFatent {
        return IntErr;
      }
      hide ValidImage, Encode, Table;
      EntryInside(fmt, img, nFatent, clst);
      PutEntry(clst, val);
      TableUpdate(fmt, old(img), nFatent, clst, val);
      if fmt == Fat32 { TopsKept(old(img), nFatent, clst, val); }
      res := Ok;
      fat := Table(fmt, img, nFatent);
      log := log + [(clst, val % EntryRange(fmt))];
    }

    method PutEntry(clst: nat, val: nat)
      requires ValidImage() && Pos(fmt, clst) + Width(fmt) <= |img|
      modifies this`winsect, this`wflag, this`img, disk, win
      ensures ValidImage() && img == old(Encode(fmt, img, clst, val)) && InFat1(winsect)
      ensures forall s :: 0 <= s < disk.Length && !InFat1(s) && !InFat2(s) ==> Sec(s) == old(Sec(s))
    {
      hide ValidImage, Encode;
      match fmt {
        case Fat12 => PutFat12(clst, val);
        case Fat16 => PutFat16(clst, val);
        case Fat32 => PutFat32(clst, val);
      }
    }

    method PutFat12(clst: nat, val: nat)
      requires ValidImage() && fmt == Fat12 && Pos(fmt, clst) + 2 <= |img|
      modifies this`winsect, this`wflag, this`img, disk, win
      ensures ValidImage() && img == old(Encode(fmt, img, clst, val)) && InFat1(winsect)
      ensures forall s :: 0 <= s < disk.Length && !InFat1(s) && !InFat2(s) ==> Sec(s) == old(Sec(s))
    {
      hide ValidImage, Sec, Geometry, Word, FirstByte12, SecondByte12;
      var bc := clst + clst / 2;
      FatSector(bc);
      FatSector(bc + 1);
      MoveWindow(fatbase + bc / 512);
      var b := WindowByte(bc % 512, bc);
      Poke(bc, FirstByte12(b, clst, val));
      bc := bc + 1;
      MoveWindow(fatbase + bc / 512);
      b := WindowByte(bc % 512, bc);
      Poke(bc, SecondByte12(b, clst, val));
    }

    method PutFat16(clst: nat, val: nat)
      requires ValidImage() && fmt == Fat16 && Pos(fmt, clst) + 2 <= |img|
      modifies this`winsect, this`wflag, this`img, disk, win
      ensures ValidImage() && img == old(Encode(fmt, img, clst, val)) && InFat1(winsect)
      ensures forall s :: 0 <= s < disk.Length && !InFat1(s) && !InFat2(s) ==> Sec(s) == old(Sec(s))
    {
      hide ValidImage, Sec, Geometry, Word;
      FatSector(clst * 2);
      MoveWindow(fatbase + clst / (512 / 2));
      SameSector(clst * 2);
      PokeWord(clst * 2, val % 256, val / 256 % 256);
    }

    method PutFat32(clst: nat, val: nat)
      requires ValidImage() && fmt == Fat32 && Pos(fmt, clst) + 4 <= |img|
      modifies this`winsect, this`wflag, this`img, disk, win
      ensures ValidImage() && img == old(Encode(fmt, img, clst, val)) && InFat1(winsect)
      ensures forall s :: 0 <= s < disk.Length && !InFat1(s) && !InFat2(s) ==> Sec(s) == old(Sec(s))
    {
      hide ValidImage, Sec, Encode, Geometry;
      FatSector(clst * 4);
      MoveWindow(fatbase + clst / (512 / 4));
      PokeDword(clst, val);
    }

    /** st_dword of the new entry, whose top nibble is taken from the old one. */
    method PokeDword(clst: nat, val: nat)
      requires ValidImage() && fmt == Fat32 && Pos(fmt, clst) + 4 <= |img| && winsect == fatbase + clst / 128
      modifies this`wflag, this`img, win
      ensures ValidImage() && img == old(Encode(fmt, img, clst, val))
      ensures forall s :: 0 <= s < disk.Length && s != winsect ==> Sec(s) == old(Sec(s))
    {
      hide ValidImage, Sec, Geometry, LastByte32;
      var bc := clst * 4;
      DwordPlace(clst);
      var b := WindowByte((bc + 3) % 512, bc + 3);
      PokeWord(bc, val % 256, val / 256 % 256);
      PokeWord(bc + 2, val / 0x1_0000 % 256, LastByte32(b, val));
    }

    /** The sectors outside the FATs are as they were, and the window moved into the FAT, if at all. */
    twostate predicate DataKept()
      reads this`winsect, disk, win
    {
      && (forall s :: 0 <= s < disk.Length && !InFat1(s) && !InFat2(s) ==> Sec(s) == old(Sec(s)))
      && (winsect == old(winsect) || InFat1(winsect))
    }

    /** The search loop of create_chain: the first free cluster after scl, in cyclic order. */
    method ScanFree(scl: nat) returns (ncl: nat)
      requires Valid() && 1 <= scl < nFatent
      modifies this`winsect, this`wflag, disk, win
      ensures Valid() && DataKept()
      ensures ncl == 0 ==> NoneFree(fat)
      ensures ncl == 1 ==> !NoOnes(fat)
      ensures ncl >= 2 ==> ncl < nFatent && fat[ncl] == 0 && Nearest(fat, scl, ncl)
    {
      hide Sec, Geometry, Valid;
      ncl := scl;
      while true
        invariant Valid() && DataKept()
        invariant scl <= ncl < nFatent || 2 <= ncl < scl
        invariant forall c :: 2 <= c < nFatent && (if scl <= ncl then scl < c <= ncl else c > scl || c <= ncl) ==>
          fat[c] != 0
        decreases if scl <= ncl then nFatent - ncl + scl else scl - ncl
      {
        ncl := ncl + 1;
        if ncl >= nFatent {
          ncl := 2;
          if ncl > scl { return 0; }
        }
        var cs := GetFat(ncl);
        if cs == 0 { break; }
        if cs == 1 { return 1; }
        if ncl == scl { return 0; }
      }
    }

    /** Where the scan of create_chain starts, once the cluster next to clst is known to be used. */
    function Hint(clst: nat): nat
      reads this`lastClst
    {
      if clst == 0 then (if lastClst == 0 || lastClst >= nFatent then 1 else lastClst)
      else if 2 <= lastClst < nFatent then lastClst else clst
    }

    /** create_chain calls for a new cluster: clst is 0, or ends a chain. */
    ghost predicate Grows(clst: nat)
      requires |fat| == nFatent
      reads this`fat
    {
      clst == 0 || (2 <= clst < nFatent && fat[clst] >= nFatent)
    }

    /** The choice of create_chain: the cluster next to clst if that one is free, otherwise the first free one after the
        hint. */
    ghost predicate Picked(clst: nat, hint: nat, ncl: nat)
      requires |fat| == nFatent
      reads this`fat
    {
      && 2 <= ncl < nFatent && fat[ncl] == 0
      && if 2 <= clst < nFatent && fat[NextNumber(nFatent, clst)] == 0 then ncl == NextNumber(nFatent, clst)
         else Nearest(fat, hint, ncl)
    }

    /** The links and the hint determine the choice. */
    lemma PickedUnique(clst: nat, hint: nat, r: nat, q: nat)
      requires |fat| == nFatent && 1 <= hint < nFatent && Picked(clst, hint, r) && Picked(clst, hint, q)
      ensures r == q
    {
      hide Nearest;
      if !(2 <= clst < nFatent && fat[NextNumber(nFatent, clst)] == 0) { NearestUnique(fat, hint, r, q); }
    }

    /** The part of create_chain which chooses a free cluster. */
    method PickCluster(clst: nat) returns (ncl: nat)
      requires Valid() && (clst == 0 || 2 <= clst < nFatent)
      modifies this`winsect, this`wflag, disk, win
      ensures Valid() && DataKept()
      ensures ncl == 0 ==> NoneFree(fat)
      ensures ncl == 1 ==> !NoOnes(fat)
      ensures ncl >= 2 ==> Picked(clst, Hint(clst), ncl)
    {
      hide Sec, Geometry, Valid, Nearest;
      var scl := clst;
      if clst == 0 {
        scl := lastClst;
        if scl == 0 || scl >= nFatent { scl := 1; }
      }
      ncl := 0;
      if scl == clst {
        ncl := scl + 1;
        if ncl >= nFatent { ncl := 2; }
        var cs := GetFat(ncl);
        if cs == 1 { return 1; }
        if cs != 0 {
          cs := lastClst;
          if cs >= 2 && cs < nFatent { scl := cs; }
          ncl := 0;
        }
      }
      if ncl == 0 {
        ncl := ScanFree(scl);
      }
    }

    /** create_chain: 0 for no free cluster, 1 for an internal error, otherwise the cluster after clst. */
    method CreateChain(clst: nat) returns (ncl: nat)
      requires Valid()
      modifies this, disk, win
      ensures Valid() && DataKept()
      // no new cluster is called for
      ensures !old(Grows(clst)) ==> ncl == if 2 <= clst < nFatent && old(fat[clst]) >= 2 then old(fat[clst]) else 1
      // a new cluster is called for
      ensures old(Grows(clst)) && ncl == 0 ==> old(freeClst) == 0 || NoneFree(old(fat))
      ensures old(Grows(clst)) && old(freeClst) == 0 ==> ncl == 0
      ensures old(Grows(clst)) && ncl == 1 ==> !NoOnes(old(fat))
      ensures old(Grows(clst)) && ncl >= 2 ==>
        && old(Picked(clst, Hint(clst), ncl)) && InFat1(winsect)
        && var w := CreateWrites(if clst == 0 then [] else [clst], ncl, Eoc(fmt));
        && fat == Apply(old(fat), w) && log == old(log) + w
        && lastClst == ncl && fsiFlag
        && freeClst == old(freeClst) - if old(freeClst) <= nFatent - 2 then 1 else 0
      // the free count, and when the disk is full
      ensures old(CountOk(fat, freeClst)) ==> CountOk(fat, freeClst)
      ensures old(Grows(clst) && CountOk(fat, freeClst) && NoOnes(fat)) ==> (ncl == 0 <==> NoneFree(old(fat)))
      ensures !(old(Grows(clst)) && ncl >= 2) ==>
        fat == old(fat) && log == old(log) && lastClst == old(lastClst) && freeClst == old(freeClst)
          && fsiFlag == old(fsiFlag)
    {
      hide Sec, Geometry, Valid, Apply, CreateWrites, Hint, Nearest, CountOk;
      if clst != 0 {
        var cs := GetFat(clst);
        if cs < 2 { return 1; }
        if cs < nFatent { return cs; }
      }
      if old(CountOk(fat, freeClst)) { CountZero(fat, freeClst); }
      if freeClst == 0 { return 0; }
      ncl := PickCluster(clst);
      if ncl < 2 { return; }
      if old(CountOk(fat, freeClst)) { CreateCount(fat, freeClst, clst, ncl, Eoc(fmt)); }
      LinkNew(clst, ncl);
      lastClst := ncl;
      if freeClst <= nFatent - 2 { freeClst := freeClst - 1; }
      fsiFlag := true;
    }

    /** The two put_fat calls of create_chain. */
    method LinkNew(clst: nat, ncl: nat)
      requires Valid() && Picked(clst, Hint(clst), ncl) && (clst == 0 || 2 <= clst < nFatent)
      modifies this`winsect, this`wflag, this`img, this`fat, this`log, disk, win
      ensures Valid() && DataKept() && InFat1(winsect)
      ensures var w := CreateWrites(if clst == 0 then [] else [clst], ncl, Eoc(fmt));
              fat == Apply(old(fat), w) && log == old(log) + w
    {
      hide Sec, Geometry, Valid;
      var res := PutFat(ncl, 0xFFFF_FFFF);
      ghost var w := CreateWrites(if clst == 0 then [] else [clst], ncl, Eoc(fmt));
      assert w[..1] == [(ncl, Eoc(fmt))] && Apply(old(fat), []) == old(fat);
      assert Apply(old(fat), w[..1]) == fat;
      if clst != 0 {
        res := PutFat(clst, ncl);
        assert w[..2][..1] == w[..1] && w[..2] == w;
      } else {
        assert w == w[..1];
      }
    }

    /** remove_chain: frees the clusters of the chain s from index k on; clst and pclst are the clusters at k and before
        it (0 if there is none). */
    method RemoveChain(clst: nat, pclst: nat, ghost s: seq<nat>, ghost k: nat) returns (res: FResult)
      requires Valid()
      requires 2 <= clst < nFatent ==>
        IsChain(fat, s) && k < |s| && s[k] == clst && pclst == if k == 0 then 0 else s[k - 1]
      modifies this, disk, win
      ensures Valid() && DataKept()
      ensures res == if 2 <= clst < nFatent then Ok else IntErr
      ensures res == Ok ==>
        fat == Apply(old(fat), RemoveWrites(s, k, Eoc(fmt))) && log == old(log) + RemoveWrites(s, k, Eoc(fmt))
      ensures res != Ok ==> fat == old(fat) && log == old(log) && freeClst == old(freeClst)
      ensures lastClst == old(lastClst)
      ensures old(CountOk(fat, freeClst)) ==> CountOk(fat, freeClst)
    {
      hide Sec, Geometry, Valid, Apply, RemoveWrites, CountOk, IsChain;
      if clst < 2 || clst >= nFatent { return IntErr; }
      ghost var w := RemoveWrites(s, k, Eoc(fmt));
      RemoveStart(fat, s, k, Eoc(fmt));
      if pclst != 0 {
        if CountOk(fat, freeClst) { CountStep(fat, freeClst, pclst, Eoc(fmt)); }
        res := PutFat(pclst, 0xFFFF_FFFF);
        if res != Ok { return; }
      }
      var c := clst;
      ghost var j := k;
      while c < nFatent
        invariant Valid() && DataKept() && lastClst == old(lastClst)
        invariant k <= j <= |s| && if j < |s| then c == s[j] < nFatent else c >= nFatent
        invariant RemoveCount(k, j) <= |w| && fat == Apply(old(fat), w[..RemoveCount(k, j)])
        invariant log == old(log) + w[..RemoveCount(k, j)]
        invariant old(CountOk(fat, freeClst)) ==> CountOk(fat, freeClst)
        decreases |s| - j
      {
        RemoveStep(old(fat), s, k, Eoc(fmt), j, w, RemoveCount(k, j));
        var nxt := GetFat(c);
        if nxt == 0 { break; }
        if nxt == 1 { return IntErr; }
        FreeOne(c);
        c := nxt;
        j := j + 1;
      }
      RemoveSome(s, k, Eoc(fmt));
      assert w[..|w|] == w;
      res := Ok;
    }

    /** The body of the loop of remove_chain: free the used cluster c and count it. */
    method FreeOne(c: nat)
      requires Valid() && 2 <= c < nFatent && fat[c] != 0
      modifies this, disk, win
      ensures Valid() && DataKept() && lastClst == old(lastClst)
      ensures fat == old(fat)[c := 0] && log == old(log) + [(c, 0)]
      ensures old(CountOk(fat, freeClst)) ==> CountOk(fat, freeClst)
    {
      hide Sec, Geometry, Valid, CountOk;
      if CountOk(fat, freeClst) { CountStep(fat, freeClst, c, 0); }
      var res := PutFat(c, 0);
      if freeClst < nFatent - 2 {
        freeClst := freeClst + 1;
        fsiFlag := true;
      }
    }

    /** Where f_expand starts its scan. */
    function ExpandStart(): nat
      requires 3 <= nFatent
      reads this`lastClst
    {
      if lastClst < 2 || lastClst >= nFatent then 2 else lastClst
    }

    /** The search loop of f_expand (FAT branch): the first run of tcl free clusters in scan order. The run counter is
        not reset where the scan wraps around. */
    method FindRun(tcl: nat) returns (res: FResult, scl: nat, ghost k: nat)
      requires Valid() && 0 < tcl
      modifies this`winsect, this`wflag, disk, win
      ensures Valid() && DataKept()
      ensures res == Ok ==> FirstRun(fat, ExpandStart(), k, tcl) && scl == ScanAt(nFatent, ExpandStart(), k)
      ensures res == Denied ==> forall i: nat :: !FreeRun(fat, ExpandStart(), i, tcl)
      ensures res == IntErr ==> !NoOnes(fat)
      ensures res in {Ok, Denied, IntErr}
    {
      hide Sec, Geometry, Valid, Scanned, FirstRun;
      ghost var start := ExpandStart();
      var stcl := lastClst;
      if stcl < 2 || stcl >= nFatent { stcl := 2; }
      var clst, ncl := stcl, 0;
      scl := stcl;
      k := 0;
      ghost var p := 0;   // clusters scanned so far
      ScanBegins(fat, start, tcl);
      while true
        invariant Valid() && DataKept() && Scanned(fat, start, k, p, tcl)
        invariant p < nFatent - 2 && clst == ScanAt(nFatent, start, p) && k + ncl == p && ncl < tcl
        invariant scl == ScanAt(nFatent, start, k)
        decreases nFatent - p
      {
        var n := GetFat(clst);
        ScanStep(fat, start, k, p, tcl);
        clst := clst + 1;
        if clst >= nFatent { clst := 2; }
        if n == 1 { return IntErr, scl, k; }
        p := p + 1;
        if n == 0 {
          ncl := ncl + 1;
          if ncl == tcl { return Ok, scl, k; }
        } else {
          scl := clst;
          ncl := 0;
          k := p;
        }
        if clst == stcl {
          ScanEnds(fat, start, k, p, tcl);
          return Denied, scl, k;
        }
      }
    }

    /** f_expand writes the chain of the run, or stops where put_fat refuses a cluster number. */
    method WriteRun(scl: nat, tcl: nat) returns (res: FResult, lclst: nat)
      requires Valid() && 2 <= scl < nFatent && 0 < tcl
      modifies this`winsect, this`wflag, this`img, this`fat, this`log, disk, win
      ensures Valid() && DataKept()
      ensures res == if scl + tcl <= nFatent then Ok else IntErr
      ensures res == Ok ==> lclst == scl + tcl - 1
      ensures res == Ok ==>
        fat == Apply(old(fat), RunWrites(scl, tcl, Eoc(fmt))) && log == old(log) + RunWrites(scl, tcl, Eoc(fmt))
      ensures res != Ok ==> fat == Apply(old(fat), RunWrites(scl, tcl, Eoc(fmt))[..nFatent - scl])
    {
      hide Sec, Geometry, Valid, Apply, RunWrites;
      var clst, n := scl, tcl;
      lclst := 0;
      ghost var w := RunWrites(scl, tcl, Eoc(fmt));
      ApplyNone(fat);
      assert w[..0] == [];
      while n > 0
        invariant Valid() && DataKept()
        invariant n <= tcl && clst == scl + (tcl - n) && clst <= nFatent
        invariant fat == Apply(old(fat), w[..tcl - n]) && log == old(log) + w[..tcl - n]
        invariant n < tcl ==> lclst == clst - 1
      {
        res := PutFat(clst, if n == 1 then 0xFFFF_FFFF else clst + 1);
        if res != Ok { return; }
        ApplyNext(old(fat), w, tcl - n);
        lclst := clst;
        clst := clst + 1;
        n := n - 1;
      }
      assert w[..tcl] == w;
      res := Ok;
    }

    /** f_getfree: the stored count if it is in range, otherwise a scan, whose result is stored. The scan of a FAT16 or
        FAT32 table starts at entry 0, that of a FAT12 table at entry 2. */
    method GetFree() returns (res: FResult, nclst: nat)
      requires Valid()
      modifies this`winsect, this`wflag, this`freeClst, this`fsiFlag, disk, win
      ensures Valid() && DataKept()
      ensures old(freeClst) <= nFatent - 2 ==> res == Ok && nclst == freeClst == old(freeClst)
      ensures old(freeClst) > nFatent - 2 ==>
        && (res == Ok || (res == IntErr && fmt == Fat12 && !NoOnes(fat)))
        && (res == Ok && fmt == Fat12 ==> nclst == freeClst == FreeCount(fat))
        && (res == Ok && fmt != Fat12 ==> nclst == freeClst == ZeroCount(fat, nFatent))
      ensures res != Ok ==> freeClst == old(freeClst)
      // the answer is exact just when entries 0 and 1 are not taken for free clusters
      ensures res == Ok && old(CountOk(fat, freeClst)) ==>
        (nclst == FreeCount(fat) <==> old(freeClst) <= nFatent - 2 || fmt == Fat12 || (fat[0] != 0 && fat[1] != 0))
    {
      hide Sec, Geometry, Valid;
      res, nclst := Ok, 0;
      ZeroCountSplit(fat, nFatent);
      if freeClst <= nFatent - 2 {
        nclst := freeClst;
      } else {
        if fmt == Fat12 {
          res, nclst := CountEntries12();
        } else {
          nclst := CountEntries();
        }
        if res == Ok {
          freeClst := nclst;
          fsiFlag := true;
        }
      }
    }

    method CountEntries12() returns (res: FResult, nfree: nat)
      requires Valid() && fmt == Fat12
      modifies this`winsect, this`wflag, disk, win
      ensures Valid() && DataKept()
      ensures res == Ok || (res == IntErr && !NoOnes(fat))
      ensures res == Ok ==> nfree == FreeCount(fat)
    {
      hide Sec, Geometry, Valid;
      res, nfree := Ok, 0;
      var clst := 2;
      while clst < nFatent
        invariant Valid() && DataKept()
        invariant 2 <= clst <= nFatent && nfree == FreeBelow(fat, clst)
      {
        var stat := GetFat(clst);
        if stat == 1 { return IntErr, nfree; }
        if stat == 0 { nfree := nfree + 1; }
        clst := clst + 1;
      }
    }

    /** One word or double word of the sector in the window is zero (apart from the reserved bits). */
    method EntryIsZero(i: nat, ghost c: nat) returns (z: bool)
      requires Valid() && fmt != Fat12 && c < nFatent
      requires i == Pos(fmt, c) % 512 && winsect == fatbase + Pos(fmt, c) / 512
      ensures z <==> fat[c] == 0
    {
      hide Valid, ValidImage, Sec, Geometry, Decode;
      ValidTable(c);
      if fmt == Fat16 {
        var v := LoadWord(i, c);
        z := v == 0;
      } else {
        var v := LoadDword(i, c);
        z := v % 0x1000_0000 == 0;
      }
    }

    /** ld_word at the offset of FAT16 entry c. */
    method LoadWord(i: nat, ghost c: nat) returns (v: nat)
      requires ValidImage() && fmt == Fat16 && Pos(fmt, c) + 2 <= |img|
      requires i == Pos(fmt, c) % 512 && winsect == fatbase + Pos(fmt, c) / 512
      ensures v == Decode(fmt, img, c)
    {
      hide ValidImage, Sec, Geometry, Word;
      SameSector(2 * c);
      var lo, hi := WindowByte(i, 2 * c), WindowByte(i + 1, 2 * c + 1);
      v := Word(lo, hi);
    }

    /** ld_dword at the offset of FAT32 entry c. */
    method LoadDword(i: nat, ghost c: nat) returns (v: nat)
      requires ValidImage() && fmt == Fat32 && Pos(fmt, c) + 4 <= |img|
      requires i == Pos(fmt, c) % 512 && winsect == fatbase + Pos(fmt, c) / 512
      ensures v % 0x1000_0000 == Decode(fmt, img, c)
    {
      hide ValidImage, Sec, Geometry, Dword;
      SameSector(4 * c);
      var b0, b1 := WindowByte(i, 4 * c), WindowByte(i + 1, 4 * c + 1);
      var b2, b3 := WindowByte(i + 2, 4 * c + 2), WindowByte(i + 3, 4 * c + 3);
      v := Dword(b0, b1, b2, b3);
    }

    lemma ValidTable(c: nat)
      requires Valid() && c < nFatent
      ensures ValidImage() && Pos(fmt, c) + Width(fmt) <= |img| && fat[c] == Decode(fmt, img, c)
    {
      EntryInside(fmt, img, nFatent, c);
    }

    method CountEntries() returns (nfree: nat)
      requires Valid() && fmt != Fat12
      modifies this`winsect, this`wflag, disk, win
      ensures Valid() && DataKept()
      ensures nfree == ZeroCount(fat, nFatent)
    {
      hide Sec, Geometry, Valid, Pos;
      nfree := 0;
      var clst, sect, i := nFatent, fatbase, 0;
      FirstEntry();
      ghost var q := 0;   // sectors completely scanned
      while clst > 0
        invariant Valid() && DataKept() && 0 <= clst <= nFatent
        invariant 0 <= i < 512 && i % (if fmt == Fat16 then 2 else 4) == 0 && Pos(fmt, nFatent - clst) == 512 * q + i
        invariant if i == 0 then sect == fatbase + q else sect == fatbase + q + 1 && winsect == fatbase + q
        invariant nfree == ZeroCount(fat, nFatent - clst)
      {
        ghost var c := nFatent - clst;
        Div512(q, i);
        EntryInSector(c);
        NextEntry(c, q, i);
        if i == 0 {
          MoveWindowKept(sect);
          sect := sect + 1;
        }
        var z := EntryIsZero(i, c);
        if z { nfree := nfree + 1; }
        i := i + if fmt == Fat16 then 2 else 4;
        if i == 512 { q := q + 1; }
        i := i % 512;
        clst := clst - 1;
      }
    }

    lemma FirstEntry()
      requires fmt != Fat12
      ensures Pos(fmt, 0) == 0
    {
    }

    /** From one entry to the next, which may begin the next sector. */
    lemma NextEntry(c: nat, q: nat, i: nat)
      requires fmt != Fat12 && i < 512 && i % (if fmt == Fat16 then 2 else 4) == 0 && Pos(fmt, c) == 512 * q + i
      ensures var i1 := i + if fmt == Fat16 then 2 else 4;
              && i1 <= 512 && Pos(fmt, c + 1) == 512 * q + i1 && i1 % 512 == (if i1 == 512 then 0 else i1)
              && i1 % (if fmt == Fat16 then 2 else 4) == 0
    {
    }

    lemma EntryInSector(c: nat)
      requires Valid() && fmt != Fat12 && c < nFatent
      ensures InFat1(fatbase + Pos(fmt, c) / 512) && fatbase + Pos(fmt, c) / 512 < disk.Length
    {
      EntryInside(fmt, img, nFatent, c);
    }

    /** move_window to a FAT sector. */
    method MoveWindowKept(sect: nat)
      requires Valid() && InFat1(sect) && sect < disk.Length
      modifies this`winsect, this`wflag, disk, win
      ensures Valid() && DataKept() && winsect == sect
    {
      hide Sec, Geometry, ValidImage;
      MoveWindow(sect);
    }

    // ----- sectors of directory tables, which the window shows as well -----

    /** A sector that belongs to no FAT. */
    ghost predicate Outside(s: nat)
      ensures Outside(s) ==> s < disk.Length
    {
      s < disk.Length && !InFat1(s) && !InFat2(s)
    }

    lemma DataOutside()
      requires Valid()
      ensures forall s :: database <= s < disk.Length ==> Outside(s)
    {
    }

    /** move_window to a sector of a directory. */
    method Show(sect: nat)
      requires Valid() && Outside(sect)
      modifies this`winsect, this`wflag, disk, win
      ensures Valid() && winsect == sect
      ensures forall s :: Outside(s) ==> Sec(s) == old(Sec(s))
    {
      hide Sec, Geometry, ValidImage;
      MoveWindow(sect);
    }

    /** A store into the window: the bytes b from off on. */
    method StoreBytes(off: nat, b: seq<Byte>)
      requires Valid() && Outside(winsect) && off + |b| <= 512
      modifies this`wflag, win
      ensures Valid() && winsect == old(winsect) && wflag
      ensures Sec(winsect) == old(Sec(winsect))[..off] + b + old(Sec(winsect))[off + |b|..]
      ensures forall s :: 0 <= s < disk.Length && s != winsect ==> Sec(s) == old(Sec(s))
    {
      hide Table;
      forall i | 0 <= i < |b| { win[off + i] := b[i]; }
      wflag := true;
      forall s: nat | InFat1(s) ensures Mirrored(s) { assert old(Mirrored(s)); }
    }

    /** dir_clear: the sectors of a cluster are filled with zeros, the first of them in the window. */
    method ClearCluster(clst: nat)
      requires Valid() && 2 <= clst < nFatent
      modifies this`winsect, this`wflag, disk, win
      ensures Valid()
      ensures var top := ClusterSector(database, csize, clst);
              forall s :: 0 <= s < disk.Length && !InFat2(s) ==>
                Sec(s) == if top <= s < top + csize then seq(512, _ => 0) else old(Sec(s))
    {
      hide Table, ClusterSector;
      SyncWindow();
      FillZeros(ClusterSector(database, csize, clst));
    }

    method FillZeros(sect: nat)
      requires Valid() && !wflag && database <= sect && sect + csize <= disk.Length
      modifies this`winsect, disk, win
      ensures Valid()
      ensures forall s :: 0 <= s < disk.Length ==>
        Sec(s) == if sect <= s < sect + csize then seq(512, _ => 0) else old(Sec(s))
    {
      hide Table;
      ghost var zeros := seq(512, _ => 0 as Byte);
      winsect := sect;
      forall i | 0 <= i < 512 { win[i] := 0; }
      for n := 0 to csize
        invariant winsect == sect && win[..] == zeros
        invariant forall s :: 0 <= s < disk.Length ==> disk[s] == if sect <= s < sect + n then zeros else old(disk[s])
      {
        disk[sect + n] := win[..];
      }
      forall s: nat | InFat1(s) ensures Mirrored(s) { assert old(Mirrored(s)); }
      forall k: nat | k < |img| ensures img[k] == Sec(fatbase + k / 512)[k % 512] {
        var s := fatbase + k / 512;
        assert s < database && disk[s] == old(disk[s]) == old(Sec(s));
        assert img[k] == old(Sec(s))[k % 512];
      }
    }

    /** The FAT branch of f_expand for tcl clusters: opt selects "find and allocate" over "find and prepare". */
    method Expand(tcl: nat, opt: bool) returns (res: FResult, scl: nat, ghost k: nat)
      requires Valid() && 0 < tcl
      modifies this, disk, win
      ensures Valid() && DataKept()
      ensures res in {Ok, Denied, IntErr}
      // what is taken is the first free run in scan order; with opt it must not cross the end of the table
      ensures res == Ok || (res == IntErr && NoOnes(old(fat))) ==>
        && FirstRun(old(fat), old(ExpandStart()), k, tcl) && scl == ScanAt(nFatent, old(ExpandStart()), k)
        && (res == Ok <==> !opt || scl + tcl <= nFatent)
      ensures res == Denied ==> forall i: nat :: !FreeRun(old(fat), old(ExpandStart()), i, tcl)
      ensures res == Ok && opt ==>
        && scl + tcl <= nFatent
        && fat == Apply(old(fat), RunWrites(scl, tcl, Eoc(fmt))) && log == old(log) + RunWrites(scl, tcl, Eoc(fmt))
        && lastClst == scl + tcl - 1
      // an internal error on a sound table: the part of the run up to the end of it stays written and uncounted
      ensures res == IntErr && opt && NoOnes(old(fat)) ==>
        && scl + tcl > nFatent
        && fat == Apply(old(fat), RunWrites(scl, nFatent - scl, nFatent))
        && freeClst == old(freeClst) && lastClst == old(lastClst)
      ensures res == IntErr && !opt ==> !NoOnes(old(fat))
      ensures res == Denied || !opt ==> fat == old(fat) && log == old(log) && freeClst == old(freeClst)
      ensures res == Ok && !opt ==> lastClst == scl - 1
      ensures res != IntErr && old(CountOk(fat, freeClst)) ==> CountOk(fat, freeClst)
    {
      hide Sec, Geometry, Valid, Apply, RunWrites, CountOk;
      ghost var start := ExpandStart();
      res, scl, k := FindRun(tcl);
      assert fat == old(fat) && ExpandStart() == start;
      assert res == Denied ==> forall i: nat :: !FreeRun(fat, start, i, tcl);
      assert res == Ok ==> FirstRun(fat, start, k, tcl);
      var lclst := 0;
      if res == Ok {
        RunConsecutive(fat, ExpandStart(), k, tcl);
        if opt {
          if scl + tcl <= nFatent && CountOk(fat, freeClst) { RunCount(fat, freeClst, scl, tcl, Eoc(fmt)); }
          res, lclst := WriteRun(scl, tcl);
          if scl + tcl > nFatent { RunPrefix(scl, tcl, Eoc(fmt), nFatent - scl); }
        } else {
          lclst := scl - 1;
        }
      }
      if res == Ok {
        lastClst := lclst;
        if opt {
          if freeClst <= nFatent - 2 {
            freeClst := (freeClst - tcl) % 0x1_0000_0000;
            fsiFlag := true;
          }
        }
      }
    }

    /** clst2sect: 0 for an invalid cluster number. */
    function Clst2Sect(clst: nat): int {
      if clst < 2 || clst - 2 >= nFatent - 2 then 0 else ClusterSector(database, csize, clst)
    }

    /** disk_write of cc sectors of file data from src[off..]. The window does not hold any of them. */
    method DiskWrite(src: array<Byte>, off: nat, sect: nat, cc: nat)
      requires Valid() && off + 512 * cc <= src.Length
      requires database <= sect && sect + cc <= disk.Length && !(sect <= winsect < sect + cc)
      modifies disk
      ensures Valid()
      ensures forall s :: 0 <= s < disk.Length && !(sect <= s < sect + cc) ==> disk[s] == old(disk[s])
      ensures forall s :: sect <= s < sect + cc ==> disk[s] == Block(src[..], off, s - sect)
    {
      hide Table;
      for j := 0 to cc
        invariant forall s :: 0 <= s < disk.Length && !(sect <= s < sect + j) ==> disk[s] == old(disk[s])
        invariant forall s :: sect <= s < sect + j ==> disk[s] == Block(src[..], off, s - sect)
      {
        disk[sect + j] := src[off + 512 * j..off + 512 * j + 512];
      }
      DataWriteKeepsFat();
    }

    twostate lemma DataWriteKeepsFat()
      requires old(Valid()) && unchanged(win) && unchanged(this`winsect) && unchanged(this`wflag)
      requires unchanged(this`img) && unchanged(this`fat)
      requires forall s :: 0 <= s < disk.Length ==> |disk[s]| == 512
      requires forall s :: 0 <= s < disk.Length && (s < database || s == winsect) ==> disk[s] == old(disk[s])
      ensures Valid()
    {
      hide Table;
      forall s: nat | InFat1(s) ensures Mirrored(s) { assert old(Mirrored(s)); }
    }

    /** disk_read of cc sectors into dst[off..]. */
    method DiskRead(dst: array<Byte>, off: nat, sect: nat, cc: nat)
      requires Valid() && dst != win && off + 512 * cc <= dst.Length && sect + cc <= disk.Length
      modifies dst
      ensures Valid()
      ensures forall x :: off <= x < off + 512 * cc ==> dst[x] == disk[sect + (x - off) / 512][(x - off) % 512]
      ensures forall x :: 0 <= x < dst.Length && !(off <= x < off + 512 * cc) ==> dst[x] == old(dst[x])
    {
      SectorSizes();
      hide Valid;
      forall x | off <= x < off + 512 * cc {
        dst[x] := disk[sect + (x - off) / 512][(x - off) % 512];
      }
    }

    lemma SectorSizes()
      requires Valid()
      ensures forall s :: 0 <= s < disk.Length ==> |disk[s]| == 512
    {
    }
  }
}
