/** A directory of ff.c without long names: the cursor of a DIR object over the sectors of a table, which is a static
    root directory or a chain of clusters that grows. The entries are read and changed through the window. */
module FatDir {
  import opened FatCodec
  import opened ClusterChains
  import opened FatVolume
  import opened FileLayout
  import opened DirTable

  /** Entry k lies in sector k / 16 of the table. */
  lemma EntrySector(k: nat)
    ensures 32 * k / 512 == k / 16 && 32 * k % 512 == 32 * (k % 16) && 32 * (k % 16) + 32 <= 512
    ensures (32 * k + 32) % 512 == 0 <==> k % 16 == 15
    ensures (k + 1) / 16 == k / 16 + if k % 16 == 15 then 1 else 0
    ensures (k + 1) % 16 == if k % 16 == 15 then 0 else k % 16 + 1
  {
  }

  /** The entry at place i of a sector. */
  function EntryAt(sector: seq<Byte>, i: nat): Entry
    requires |sector| == 512 && i < 16
  {
    sector[32 * i..32 * i + 32]
  }

  lemma StoredEntry(sector: seq<Byte>, sector': seq<Byte>, i: nat, at: nat, b: seq<Byte>, j: nat)
    requires |sector| == 512 && i < 16 && j < 16 && at + |b| <= 32
    requires sector' == sector[..32 * i + at] + b + sector[32 * i + at + |b|..]
    ensures |sector'| == 512
    ensures EntryAt(sector', j) == if j == i then EntryAt(sector, i)[..at] + b + EntryAt(sector, i)[at + |b|..]
      else EntryAt(sector, j)
  {
    var e, e' := EntryAt(sector, j), EntryAt(sector', j);
    forall x | 0 <= x < 32 && j != i ensures e'[x] == e[x] {
      if j < i { assert 32 * j + x < 32 * i; } else { assert 32 * i + 32 <= 32 * j + x; }
    }
  }

  /** The sectors of a table: the root directory's own, or those of its clusters. */
  ghost function TableSectors(fs: Volume, start: nat, chain: seq<nat>): seq<nat>
    requires (start == 0 && fs.fmt != Fat32) || InData(fs.database, fs.csize, chain)
  {
    if start == 0 && fs.fmt != Fat32 then seq(fs.nRootdir / 16, k requires 0 <= k => fs.dirbase + k)
    else Sectors(fs.database, fs.csize, chain)
  }

  lemma SectorBytes(fs: Volume)
    requires fs.Valid()
    ensures 0 < fs.csize && forall s :: 0 <= s < fs.disk.Length ==> |fs.Sec(s)| == 512
  {
    fs.SectorSizes();
  }

  lemma SectorsOfTable(fs: Volume, start: nat, chain: seq<nat>)
    requires fs.Valid()
    requires if start == 0 && fs.fmt != Fat32 then
        && 0 < fs.nRootdir && fs.nRootdir % 16 == 0 && 0 < fs.dirbase && fs.dirbase + fs.nRootdir / 16 <= fs.disk.Length
        && forall s :: fs.dirbase <= s < fs.dirbase + fs.nRootdir / 16 ==> fs.Outside(s)
      else IsChain(fs.fat, chain)
    ensures (start == 0 && fs.fmt != Fat32) || InData(fs.database, fs.csize, chain)
    ensures var secs := TableSectors(fs, start, chain);
            && |secs| > 0 && Distinct(secs)
            && (forall k :: 0 <= k < |secs| ==>
                  0 < secs[k] < fs.disk.Length && fs.Outside(secs[k]) && |fs.Sec(secs[k])| == 512)
            && (start == 0 && fs.fmt != Fat32 ==>
                  |secs| == fs.nRootdir / 16 && forall k :: 0 <= k < |secs| ==> secs[k] == fs.dirbase + k)
  {
    SectorBytes(fs);
    fs.DataOutside();
    hide fs.Valid, fs.Sec, fs.Outside, Sectors;
    if !(start == 0 && fs.fmt != Fat32) {
      ChainGivesSectors(fs, chain);
      SectorsAt(fs.database, fs.csize, chain, 0, 0);
    }
  }

  /** The first n entries of the sectors secs, as they are now. */
  ghost function Entries(fs: Volume, secs: seq<nat>, n: nat): (tab: seq<Entry>)
    requires n <= 16 * |secs| && forall k :: 0 <= k < |secs| ==> secs[k] < fs.disk.Length && |fs.Sec(secs[k])| == 512
    reads fs`winsect, fs.disk, fs.win
    ensures |tab| == n && forall k :: 0 <= k < n ==> tab[k] == EntryAt(fs.Sec(secs[k / 16]), k % 16)
  {
    if n == 0 then [] else Entries(fs, secs, n - 1) + [EntryAt(fs.Sec(secs[(n - 1) / 16]), (n - 1) % 16)]
  }

  /** What the sectors secs hold now. */
  ghost function Contents(fs: Volume, secs: seq<nat>): (c: seq<seq<Byte>>)
    requires forall k :: 0 <= k < |secs| ==> secs[k] < fs.disk.Length
    reads fs`winsect, fs.disk, fs.win
    ensures |c| == |secs| && forall k :: 0 <= k < |c| ==> c[k] == fs.Sec(secs[k])
  {
    if secs == [] then [] else [fs.Sec(secs[0])] + Contents(fs, secs[1..])
  }

  lemma BlankEntry(i: nat)
    requires i < 16
    ensures EntryAt(seq(512, _ => 0), i) == seq(32, _ => 0)
  {
  }

  class Dir {
    const fs: Volume
    const start: nat      // obj.sclust: start cluster of the table, 0 for the root directory
    var dptr: nat
    var clust: nat
    var sect: nat         // 0 once the end of the table was reached

    ghost var chain: seq<nat>   // the clusters of the table; none for a static table
    ghost var secs: seq<nat>    // its sectors
    ghost var tab: seq<Entry>   // its entries

    /** The directory at a start cluster, or the root directory, as it lies on the disk. */
    constructor (fs: Volume, start: nat, ghost chain: seq<nat>)
      requires fs.Valid()
      requires if start == 0 && fs.fmt != Fat32 then
          && chain == [] && fs.nRootdir % 16 == 0 && 0 < fs.nRootdir && 0 < fs.dirbase
          && fs.dirbase + fs.nRootdir / 16 <= fs.disk.Length
          && forall s :: fs.dirbase <= s < fs.dirbase + fs.nRootdir / 16 ==> fs.Outside(s)
        else IsChain(fs.fat, chain) && chain[0] == if start == 0 then fs.dirbase else start
      ensures ValidBase() && this.fs == fs && this.start == start && this.chain == chain
    {
      hide fs.Valid, fs.Sec, fs.Outside, IsChain, Sectors, Distinct, EntryAt, TableSectors, Entries, ValidPlaces;
      hide ValidEntries;
      this.fs, this.start, this.chain := fs, start, chain;
      dptr, clust, sect := 0, 0, 0;
      new;
      SectorsOfTable(fs, start, chain);
      secs := TableSectors(fs, start, chain);
      tab := Entries(fs, secs, Reachable(|secs|));
      PlacesOpened();
      EntriesOpened();
    }

    lemma PlacesOpened()
      requires fs.Valid()
      requires if Static() then
          && chain == [] && 0 < fs.nRootdir && fs.nRootdir % 16 == 0 && 0 < fs.dirbase
          && fs.dirbase + fs.nRootdir / 16 <= fs.disk.Length
          && forall s :: fs.dirbase <= s < fs.dirbase + fs.nRootdir / 16 ==> fs.Outside(s)
        else IsChain(fs.fat, chain) && chain[0] == (if start == 0 then fs.dirbase else start)
      requires Static() || InData(fs.database, fs.csize, chain)
      requires secs == TableSectors(fs, start, chain)
      ensures ValidPlaces()
    {
      SectorsOfTable(fs, start, chain);
      hide fs.Valid, fs.Sec, fs.Outside, IsChain, Sectors, Distinct;
    }

    lemma EntriesOpened()
      requires forall k :: 0 <= k < |secs| ==> secs[k] < fs.disk.Length && |fs.Sec(secs[k])| == 512
      requires tab == Entries(fs, secs, Reachable(|secs|))
      ensures ValidEntries()
    {
      hide fs.Sec, EntryAt;
    }

    /** The root directory of a FAT12 or FAT16 volume. */
    ghost predicate Static() { start == 0 && fs.fmt != Fat32 }

    /** Entries behind the largest offset MAX_DIR are out of reach. */
    ghost function Reachable(n: nat): nat { if 16 * n < 0x1_0000 then 16 * n else 0x1_0000 }

    ghost predicate ValidPlaces()
      reads this`chain, this`secs, fs`fat
    {
      && (if Static() then
            && chain == [] && fs.nRootdir % 16 == 0 && 0 < fs.nRootdir && |secs| == fs.nRootdir / 16
            && forall k :: 0 <= k < |secs| ==> secs[k] == fs.dirbase + k
          else
            && IsChain(fs.fat, chain) && chain[0] == (if start == 0 then fs.dirbase else start)
            && InData(fs.database, fs.csize, chain) && secs == Sectors(fs.database, fs.csize, chain) && |secs| > 0)
      && Distinct(secs)
      && forall k :: 0 <= k < |secs| ==> 0 < secs[k] && fs.Outside(secs[k])
    }

    ghost predicate ValidEntries()
      reads this`secs, this`tab, fs`winsect, fs.disk, fs.win
    {
      && |tab| == Reachable(|secs|)
      && (forall k :: 0 <= k < |secs| ==> secs[k] < fs.disk.Length && |fs.Sec(secs[k])| == 512)
      && forall k: nat :: k < |tab| ==> HoldsEntry(k)
    }

    ghost predicate HoldsEntry(k: nat)
      requires k < |tab| && |tab| <= 16 * |secs|
      requires forall k :: 0 <= k < |secs| ==> secs[k] < fs.disk.Length && |fs.Sec(secs[k])| == 512
      reads this`secs, this`tab, fs`winsect, fs.disk, fs.win
    {
      tab[k] == EntryAt(fs.Sec(secs[k / 16]), k % 16)
    }

    ghost predicate ValidBase()
      reads this`chain, this`secs, this`tab, fs`winsect, fs`wflag, fs`img, fs`fat, fs.disk, fs.win
      ensures ValidBase() ==> fs.Valid()
    {
      fs.Valid() && ValidPlaces() && ValidEntries()
    }

    /** The names of the directory are well kept. */
    ghost predicate Valid()
      reads this`chain, this`secs, this`tab, fs`winsect, fs`wflag, fs`img, fs`fat, fs.disk, fs.win
      ensures Valid() ==> ValidBase()
    {
      ValidBase() && WellEnded(tab) && Unique(tab)
    }

    /** The cursor is on entry k. */
    ghost predicate At(k: nat)
      reads this
    {
      && k < |tab| <= 16 * |secs| && dptr == 32 * k && sect == secs[k / 16]
      && 0 < fs.csize
      && if Static() then clust == 0
         else ClusterIndex(fs.csize, k / 16) < |chain| && clust == chain[ClusterIndex(fs.csize, k / 16)]
    }

    /** An access which leaves the sectors outside the FATs alone keeps the directory. */
    twostate lemma Kept()
      requires old(ValidBase()) && fs.Valid() && fs.fat == old(fs.fat)
      requires forall s :: fs.Outside(s) ==> fs.Sec(s) == old(fs.Sec(s))
      requires unchanged(this`chain) && unchanged(this`secs) && unchanged(this`tab)
      ensures ValidBase()
    {
      hide fs.Valid;
      forall k: nat | k < |tab| ensures HoldsEntry(k) {
        assert old(HoldsEntry(k));
      }
    }

    /** get_fat for a cluster of the table. */
    method NextInFat(c: nat) returns (clst: nat)
      requires ValidBase()
      modifies fs`winsect, fs`wflag, fs.disk, fs.win
      ensures ValidBase() && fs.fat == old(fs.fat)
      ensures forall s :: fs.Outside(s) ==> fs.Sec(s) == old(fs.Sec(s))
      ensures clst == if c < 2 || c >= fs.nFatent then 1 else fs.fat[c]
    {
      hide fs.Valid, ValidPlaces, ValidEntries;
      clst := fs.GetFat(c);
      Kept();
    }

    /** The sector of entry k, by way of its cluster. */
    lemma PlaceOf(k: nat)
      requires ValidBase() && k < |tab|
      ensures k / 16 < |secs| && 0 < fs.csize
      ensures !Static() ==>
        var i := ClusterIndex(fs.csize, k / 16);
        && i < |chain| && 2 <= chain[i] < fs.nFatent
        && secs[k / 16] == fs.Clst2Sect(chain[i]) + ClusterOffset(fs.csize, k / 16) && fs.Clst2Sect(chain[i]) != 0
    {
      hide fs.Valid, Sectors, ClusterIndex, ClusterOffset, ClusterSector;
      if !Static() {
        ChainInside(fs.fat, chain);
        SectorOfFile(fs.database, fs.csize, chain, k / 16);
        SectorOfFile(fs.database, fs.csize, chain, 0);
      }
    }

    /** dir_sdi: the cursor goes to offset ofs, if there is an entry. */
    method SetIndex(ofs: nat) returns (res: FResult)
      requires ValidBase()
      modifies this`dptr, this`clust, this`sect, fs`winsect, fs`wflag, fs.disk, fs.win
      ensures ValidBase() && fs.fat == old(fs.fat)
      ensures forall s :: fs.Outside(s) ==> fs.Sec(s) == old(fs.Sec(s))
      ensures res == if ofs % 32 == 0 && ofs / 32 < |tab| then Ok else IntErr
      ensures res == Ok ==> At(ofs / 32)
    {
      hide fs.Valid, fs.Sec, ClusterIndex, ClusterOffset, ClusterSector, Sectors, ValidEntries;
      TableSize();
      if ofs >= 0x20_0000 || ofs % 32 != 0 { return IntErr; }
      dptr := ofs;
      var k := ofs / 32;
      var clst := start;
      if clst == 0 && fs.fmt == Fat32 { clst := fs.dirbase; }
      if clst == 0 && fs.fmt != Fat32 {
        if k >= fs.nRootdir { return IntErr; }
        sect := fs.dirbase;
        clust := clst;
        sect := sect + ofs / 512;
        EntrySector(k);
      } else {
        var rest, i := ofs, 0;
        res, clst, rest := FollowTo(clst, ofs);
        if res != Ok { return; }
        clust := clst;
        PlaceOf(k);
        sect := fs.Clst2Sect(clst) + rest / 512;
      }
      res := Ok;
    }

    /** The loop of dir_sdi over the clusters of the table. */
    method FollowTo(clst0: nat, ofs: nat) returns (res: FResult, clst: nat, rest: nat)
      requires ValidBase() && !Static() && chain[0] == clst0 && ofs < 0x20_0000 && ofs % 32 == 0
      modifies fs`winsect, fs`wflag, fs.disk, fs.win
      ensures ValidBase() && fs.fat == old(fs.fat)
      ensures forall s :: fs.Outside(s) ==> fs.Sec(s) == old(fs.Sec(s))
      ensures res == if ofs / 32 < |tab| then Ok else IntErr
      ensures res == Ok ==>
        var k := ofs / 32;
        && 0 < fs.csize && ClusterIndex(fs.csize, k / 16) < |chain| && clst == chain[ClusterIndex(fs.csize, k / 16)]
        && rest / 512 == ClusterOffset(fs.csize, k / 16)
    {
      hide fs.Valid, fs.Sec, ClusterIndex, ClusterOffset, ClusterSector, Sectors, ValidEntries, ClusterStart;
      clst, rest := clst0, ofs;
      TableSize();
      var csz := fs.csize * 512;
      ghost var i := 0;
      StartStep(fs.csize, 0);
      while rest >= csz
        invariant ValidBase() && fs.fat == old(fs.fat)
        invariant forall s :: fs.Outside(s) ==> fs.Sec(s) == old(fs.Sec(s))
        invariant i < |chain| && clst == chain[i] && ofs == rest + 512 * ClusterStart(fs.csize, i)
        decreases rest
      {
        assert Linked(fs.fat, chain, i);
        clst := NextInFat(clst);
        StartStep(fs.csize, i);
        if i + 1 < |chain| { assert Linked(fs.fat, chain, i + 1); }
        if clst < 2 || clst >= fs.nFatent {
          BehindTable(ofs, rest, i);
          return IntErr, clst, rest;
        }
        rest := rest - csz;
        i := i + 1;
      }
      InTable(ofs, rest, i);
      res := Ok;
    }

    /** How many entries the table has. */
    lemma TableSize()
      requires ValidBase()
      ensures 0 < fs.csize && |tab| == Reachable(|secs|) && |secs| > 0
      ensures Static() ==> 16 * |secs| == fs.nRootdir && chain == []
      ensures !Static() ==> |secs| == ClusterStart(fs.csize, |chain|) && |chain| > 0
    {
      hide Sectors, ClusterStart;
      if !Static() { SectorsLength(fs.database, fs.csize, chain); }
    }

    lemma BehindTable(ofs: nat, rest: nat, i: nat)
      requires ValidBase() && !Static() && i + 1 == |chain| && ofs == rest + 512 * ClusterStart(fs.csize, i)
      requires rest >= 512 * fs.csize
      ensures ofs / 32 >= |tab|
    {
      hide fs.Valid, ValidEntries, ClusterStart;
      TableSize();
      StartStep(fs.csize, i);
    }

    lemma InTable(ofs: nat, rest: nat, i: nat)
      requires ValidBase() && !Static() && i < |chain| && ofs == rest + 512 * ClusterStart(fs.csize, i)
      requires rest < 512 * fs.csize
      requires ofs % 32 == 0 && ofs < 0x20_0000
      ensures 0 < fs.csize && ofs / 32 < |tab| && i == ClusterIndex(fs.csize, ofs / 32 / 16)
      ensures rest / 512 == ClusterOffset(fs.csize, ofs / 32 / 16)
    {
      hide fs.Valid, ValidEntries, ClusterStart, ClusterIndex, ClusterOffset;
      TableSize();
      StartStep(fs.csize, i);
      StartGrows(fs.csize, i + 1, |chain|);
      assert ofs / 32 / 16 == ClusterStart(fs.csize, i) + rest / 512;
      DivUnique(fs.csize, i, rest / 512);
    }

    /** No cluster can be allocated. */
    ghost predicate Full()
      reads fs`fat, fs`freeClst
    {
      fs.freeClst == 0 || NoneFree(fs.fat)
    }

    /** create_chain at the end of the table. */
    method AddCluster() returns (ncl: nat)
      requires ValidBase() && !Static() && clust == Last(chain)
      modifies fs, fs.disk, fs.win
      ensures fs.Valid() && (ncl < 2 ==> ValidBase() && fs.fat == old(fs.fat) && fs.freeClst == old(fs.freeClst))
      ensures ncl == 0 ==> old(Full())
      ensures ncl == 1 ==> !NoOnes(old(fs.fat))
      ensures ncl >= 2 ==> ncl < fs.nFatent && old(fs.fat)[ncl] == 0 && IsChain(fs.fat, chain + [ncl])
      ensures forall s :: fs.Outside(s) ==> fs.Sec(s) == old(fs.Sec(s))
    {
      hide fs.Valid, Sectors, ClusterSector, IsChain, Apply, fs.Sec;
      EndOfChain();
      ncl := fs.CreateChain(clust);
      if ncl < 2 { Kept(); } else { AppendedChain(old(fs.fat), chain, ncl, Eoc(fs.fmt)); }
    }

    /** The table grows by a cluster of blank entries: 0 if the disk is full, 1 for a damaged FAT. */
    method Stretch() returns (ncl: nat)
      requires ValidBase() && !Static() && clust == Last(chain) && |tab| == 16 * |secs| < 0x1_0000
      modifies this`chain, this`secs, this`tab, fs, fs.disk, fs.win
      ensures ValidBase()
      ensures ncl == 0 ==> old(Full())
      ensures ncl == 1 ==> !NoOnes(old(fs.fat))
      ensures ncl < 2 ==> chain == old(chain) && secs == old(secs) && tab == old(tab)
      ensures ncl < 2 ==> fs.fat == old(fs.fat) && fs.freeClst == old(fs.freeClst)
      ensures ncl >= 2 ==> ncl < fs.nFatent && old(fs.fat)[ncl] == 0 && chain == old(chain) + [ncl]
      ensures ncl >= 2 ==> |tab| > |old(tab)| && Grown(old(tab), tab)
      ensures old(secs) <= secs
      ensures forall s :: fs.Outside(s) && s !in secs ==> fs.Sec(s) == old(fs.Sec(s))
    {
      hide fs.Valid, Sectors, ClusterSector, IsChain, fs.Sec, fs.Outside, fs.InFat2, ValidEntries;
      TableSize();
      ncl := AddCluster();
      if ncl < 2 { return; }
      fs.ClearCluster(ncl);
      chain := chain + [ncl];
      SectorsOfTable(fs, start, chain);
      SectorsGrow(fs.database, fs.csize, old(chain), ncl);
      secs := Sectors(fs.database, fs.csize, chain);
      tab := tab + Blank(Reachable(|secs|) - |tab|);
      OutsideIsNotFat();
      GrownTable(ncl);
      forall s | fs.Outside(s) && s !in secs ensures fs.Sec(s) == old(fs.Sec(s)) { NotNew(s, ncl); }
    }

    lemma OutsideIsNotFat()
      ensures forall s: nat :: fs.Outside(s) ==> s < fs.disk.Length && !fs.InFat2(s)
    {
    }

    lemma EndOfChain()
      requires ValidBase() && !Static() && clust == Last(chain)
      ensures 2 <= clust < fs.nFatent == |fs.fat| && fs.fat[clust] >= fs.nFatent && chain != []
    {
      assert Linked(fs.fat, chain, |chain| - 1);
    }

    lemma NotNew(s: nat, ncl: nat)
      requires 2 <= ncl && fs.database <= ClusterSector(fs.database, fs.csize, ncl)
      requires s !in ClusterSectors(fs.database, fs.csize, ncl)
      ensures var top := ClusterSector(fs.database, fs.csize, ncl); !(top <= s < top + fs.csize)
    {
      var top: nat := ClusterSector(fs.database, fs.csize, ncl);
      var added := ClusterSectors(fs.database, fs.csize, ncl);
      forall x: nat | top <= x < top + fs.csize ensures x in added { assert added[x - top] == x; }
    }

    /** The new sectors of the table hold zeros, the old ones what they held. */
    twostate lemma GrownTable(ncl: nat)
      requires old(ValidBase()) && !Static() && fs.Valid() && |old(tab)| == 16 * |old(secs)| < 0x1_0000
      requires IsChain(fs.fat, chain) && chain[0] == (if start == 0 then fs.dirbase else start)
      requires InData(fs.database, fs.csize, chain) && secs == Sectors(fs.database, fs.csize, chain) && |secs| > 0
      requires Distinct(secs)
      requires forall k :: 0 <= k < |secs| ==>
        0 < secs[k] < fs.disk.Length && fs.Outside(secs[k]) && |fs.Sec(secs[k])| == 512
      requires 2 <= ncl && fs.database <= ClusterSector(fs.database, fs.csize, ncl)
      requires secs == old(secs) + ClusterSectors(fs.database, fs.csize, ncl)
      requires tab == old(tab) + Blank(Reachable(|secs|) - |old(tab)|)
      requires var top := ClusterSector(fs.database, fs.csize, ncl);
               forall s: nat :: fs.Outside(s) ==> fs.Sec(s) == if top <= s < top + fs.csize then seq(512, _ => 0)
                 else old(fs.Sec(s))
      ensures ValidBase()
    {
      hide fs.Valid, fs.Sec, fs.Outside, Sectors, ClusterSector, IsChain, EntryAt;
      var n, top := |old(secs)|, ClusterSector(fs.database, fs.csize, ncl);
      var added := ClusterSectors(fs.database, fs.csize, ncl);
      forall k: nat | k < |tab| ensures tab[k] == EntryAt(fs.Sec(secs[k / 16]), k % 16) {
        var j := k / 16;
        assert fs.Outside(secs[j]);
        if j < n {
          assert secs[j] == old(secs)[j];
          forall i | 0 <= i < fs.csize ensures added[i] != secs[j] { assert added[i] == secs[n + i]; }
          NotNew(secs[j], ncl);
          assert old(HoldsEntry(k));
        } else {
          assert secs[j] == top + (j - n);
          BlankEntry(k % 16);
        }
      }
    }

    /** Entry k is the last, and the table cannot become longer. */
    ghost predicate AtEnd(k: nat)
      reads this`secs, this`tab
    {
      k + 1 == |tab| && (Static() || 0x1_0000 <= |tab|)
    }

    /** The sector behind the one of entry k. */
    lemma SectorBehind(k: nat)
      requires ValidBase() && !Static() && At(k) && k % 16 == 15 && k + 1 < 0x1_0000
      ensures var q, i := k / 16 + 1, ClusterIndex(fs.csize, k / 16);
              && 2 <= clust < fs.nFatent && clust == chain[i]
              && (q < |secs| ==> k + 1 < |tab|)
              && if ClusterOffset(fs.csize, q) != 0 then
                   q < |secs| && secs[q] == sect + 1 && ClusterIndex(fs.csize, q) == i
                 else if i + 1 < |chain| then
                   && q < |secs| && ClusterIndex(fs.csize, q) == i + 1 && fs.fat[clust] == chain[i + 1]
                   && 2 <= chain[i + 1] < fs.nFatent
                   && secs[q] == fs.Clst2Sect(chain[i + 1])
                 else
                   && fs.fat[clust] >= fs.nFatent && clust == Last(chain) && q == |secs|
                   && k + 1 == |tab| == 16 * |secs| && ClusterIndex(fs.csize, q) == |chain|
    {
      hide fs.Valid, ClusterIndex, ClusterOffset, ClusterSector, Sectors, ClusterStart;
      var q, i := k / 16 + 1, ClusterIndex(fs.csize, k / 16);
      TableSize();
      EntrySector(k);
      PlaceOf(k);
      BoundaryIndex(fs.csize, q);
      SectorInChain(fs.database, fs.csize, chain, q);
      SectorInChain(fs.database, fs.csize, chain, q - 1);
      assert Linked(fs.fat, chain, i);
      if ClusterOffset(fs.csize, q) != 0 {
        SectorOfFile(fs.database, fs.csize, chain, q - 1);
        SectorOfFile(fs.database, fs.csize, chain, q);
      } else if i + 1 < |chain| {
        assert Linked(fs.fat, chain, i + 1);
        SectorOfFile(fs.database, fs.csize, chain, q);
        PlaceOf(k + 1);
      }
    }

    /** dir_next at the end of a sector of a cluster chain. */
    method NextSector(stretch: bool, ofs: nat, ghost k: nat) returns (res: FResult)
      requires ValidBase() && !Static() && At(k) && k % 16 == 15 && ofs == 32 * k + 32 < 0x20_0000
      modifies this`clust, this`sect, this`chain, this`secs, this`tab, fs, fs.disk, fs.win
      ensures ValidBase()
      ensures res == Ok ==> |tab| <= 16 * |secs| && k + 1 < |tab| && sect == secs[k / 16 + 1] && 0 < fs.csize
      ensures res == Ok ==>
        ClusterIndex(fs.csize, k / 16 + 1) < |chain| && clust == chain[ClusterIndex(fs.csize, k / 16 + 1)]
      ensures res == Ok && k + 1 < |old(tab)| ==>
        tab == old(tab) && secs == old(secs) && fs.fat == old(fs.fat) && fs.freeClst == old(fs.freeClst)
      ensures res == Ok && k + 1 == |old(tab)| ==> stretch && |tab| > |old(tab)| && Grown(old(tab), tab)
      ensures res != Ok ==> k + 1 == |tab| && tab == old(tab) && secs == old(secs)
      ensures res != Ok ==> fs.fat == old(fs.fat) && fs.freeClst == old(fs.freeClst)
      ensures res == NoFile ==> sect == 0 && !stretch
      ensures res == Denied ==> old(Full())
      ensures res == IntErr ==> !NoOnes(old(fs.fat))
      ensures !stretch ==> res in {Ok, NoFile} && tab == old(tab) && secs == old(secs) && fs.fat == old(fs.fat)
      ensures !stretch ==> chain == old(chain) && fs.freeClst == old(fs.freeClst) && fs.lastClst == old(fs.lastClst)
      ensures res in {Ok, NoFile, Denied, IntErr}
      ensures old(secs) <= secs && forall s :: fs.Outside(s) && s !in secs ==> fs.Sec(s) == old(fs.Sec(s))
    {
      hide fs.Valid, fs.Sec, fs.Outside, ValidEntries, ClusterIndex, ClusterOffset, ClusterSector, ClusterStart;
      hide Sectors, IsChain, Grown, Full, NoOnes, Distinct, fs.InFat1, fs.InFat2, fs.Geometry;
      res := Ok;
      EntrySector(k);
      TableSize();
      SectorBehind(k);
      sect := sect + 1;
      if ClusterOffset(fs.csize, ofs / 512) == 0 {
        var clst := NextInFat(clust);
        if clst <= 1 { assert false; }   // never reached: FR_INT_ERR of dir_next
        if clst >= fs.nFatent {
          if !stretch { sect := 0; return NoFile; }
          clst := Stretch();
          if clst == 0 { return Denied; }
          if clst == 1 { return IntErr; }
          PlaceOf(k + 1);
        }
        clust := clst;
        sect := fs.Clst2Sect(clst);
      }
      TableSize();
    }

    lemma SameSectorNext(k: nat)
      requires ValidBase() && At(k) && k % 16 != 15
      ensures k + 1 < |tab| && (k + 1) / 16 == k / 16
    {
      hide fs.Valid;
      TableSize();
      EntrySector(k);
    }

    lemma StaticNext(k: nat)
      requires ValidBase() && At(k) && clust == 0 && k % 16 == 15 && k + 1 < 0x1_0000
      ensures Static() && (k + 1 < fs.nRootdir <==> k + 1 < |tab|)
      ensures k + 1 < |tab| ==> (k + 1) / 16 < |secs| && secs[(k + 1) / 16] == sect + 1
    {
      hide fs.Valid, Sectors, ClusterIndex, ClusterStart;
      TableSize();
      EntrySector(k);
      PlaceOf(k);
    }

    /** dir_next: the cursor goes from entry k to the next one; stretch: the table may grow. */
    method Next(stretch: bool, ghost k: nat) returns (res: FResult)
      requires ValidBase() && At(k)
      modifies this`dptr, this`clust, this`sect, this`chain, this`secs, this`tab, fs, fs.disk, fs.win
      ensures ValidBase()
      ensures res == Ok ==> At(k + 1)
      ensures res == Ok && k + 1 < |old(tab)| ==>
        tab == old(tab) && secs == old(secs) && fs.fat == old(fs.fat) && fs.freeClst == old(fs.freeClst)
      ensures res == Ok && k + 1 == |old(tab)| ==> stretch && |tab| > |old(tab)| && Grown(old(tab), tab)
      ensures res != Ok ==> k + 1 == |tab| && tab == old(tab) && secs == old(secs)
      ensures res != Ok ==> fs.fat == old(fs.fat) && fs.freeClst == old(fs.freeClst)
      ensures res == NoFile ==> sect == 0 && (old(AtEnd(k)) || !stretch)
      ensures res == Denied ==> old(Full())
      ensures res == IntErr ==> !NoOnes(old(fs.fat))
      ensures !stretch ==> res in {Ok, NoFile} && tab == old(tab) && secs == old(secs) && fs.fat == old(fs.fat)
      ensures !stretch ==> chain == old(chain) && fs.freeClst == old(fs.freeClst) && fs.lastClst == old(fs.lastClst)
      ensures res in {Ok, NoFile, Denied, IntErr}
      ensures old(secs) <= secs && forall s :: fs.Outside(s) && s !in secs ==> fs.Sec(s) == old(fs.Sec(s))
    {
      hide fs.Valid, fs.Sec, fs.Outside, ValidEntries, ClusterIndex, ClusterOffset, ClusterSector, ClusterStart;
      hide Sectors, IsChain;
      var ofs := dptr + 32;
      EntrySector(k);
      TableSize();
      if ofs >= 0x20_0000 { sect := 0; }
      if sect == 0 { return NoFile; }
      if ofs % 512 == 0 {
        if clust == 0 {
          StaticNext(k);
          if ofs / 32 >= fs.nRootdir { sect := 0; return NoFile; }
          sect := sect + 1;
        } else {
          PlaceOf(k);
          res := NextSector(stretch, ofs, k);
          if res != Ok { return; }
        }
      } else {
        SameSectorNext(k);
      }
      dptr := ofs;
      res := Ok;
    }

    /** The sector of entry k comes into the window. */
    method Look(ghost k: nat) returns (e: Entry)
      requires ValidBase() && At(k)
      modifies fs`winsect, fs`wflag, fs.disk, fs.win
      ensures ValidBase() && fs.winsect == sect && fs.fat == old(fs.fat) && fs.Outside(sect)
      ensures e == tab[k] && fs.win.Length == 512 && dptr % 512 == 32 * (k % 16) <= 480
      ensures forall s :: fs.Outside(s) ==> fs.Sec(s) == old(fs.Sec(s))
    {
      hide fs.Valid;
      EntrySector(k);
      fs.Show(sect);
      Kept();
      assert HoldsEntry(k);
      e := fs.win[dptr % 512..dptr % 512 + 32];
    }

    /** dir_find: the cursor ends on the entry with this name, if there is one. */
    method FindName(name: seq<Byte>) returns (res: FResult)
      requires Valid() && IsName(name)
      modifies this`dptr, this`clust, this`sect, this`chain, this`secs, this`tab, fs, fs.disk, fs.win
      ensures Valid() && tab == old(tab) && secs == old(secs) && chain == old(chain)
      ensures fs.fat == old(fs.fat) && fs.freeClst == old(fs.freeClst) && fs.lastClst == old(fs.lastClst)
      ensures forall s :: fs.Outside(s) && s !in secs ==> fs.Sec(s) == old(fs.Sec(s))
      ensures res == if Find(tab, name).None? then NoFile else Ok
      ensures res == Ok ==> At(Find(tab, name).value)
    {
      hide fs.Valid, fs.Sec, fs.Outside, ValidPlaces, ValidEntries, WellEnded, Unique, Matches;
      TableSize();
      res := SetIndex(0);
      ghost var k := 0;
      while true
        invariant ValidBase() && tab == old(tab) && secs == old(secs) && chain == old(chain) && At(k)
        invariant fs.fat == old(fs.fat) && fs.freeClst == old(fs.freeClst) && fs.lastClst == old(fs.lastClst)
        invariant forall s :: fs.Outside(s) && s !in secs ==> fs.Sec(s) == old(fs.Sec(s))
        invariant Find(tab, name) == FindFrom(tab, name, k)
        decreases |tab| - k
      {
        var e := Look(k);
        if e[0] == 0 { return NoFile; }
        if Matches(e, name) { return Ok; }
        res := Next(false, k);
        if res != Ok { return; }
        k := k + 1;
      }
    }

    /** dir_alloc for one entry: the cursor goes to the first free one. */
    method Allocate() returns (res: FResult, ghost k: nat)
      requires Valid()
      modifies this`dptr, this`clust, this`sect, this`chain, this`secs, this`tab, fs, fs.disk, fs.win
      ensures Valid() && forall name :: IsName(name) ==> Find(tab, name) == Find(old(tab), name)
      ensures Grown(old(tab), tab)
      ensures res == Ok ==> FirstFree(tab, k) && At(k)
      ensures res == Denied ==>
        && tab == old(tab) && (forall i :: 0 <= i < |tab| ==> !Free(tab[i]))
        && (Static() || 0x1_0000 <= |tab| || old(Full()))
      ensures res == IntErr ==> !NoOnes(old(fs.fat))
      ensures res in {Ok, Denied, IntErr}
      ensures old(secs) <= secs && forall s :: fs.Outside(s) && s !in secs ==> fs.Sec(s) == old(fs.Sec(s))
    {
      hide fs.Valid, fs.Sec, fs.Outside, ValidPlaces, ValidEntries, WellEnded, Unique, Find, NoOnes, Full, Blank;
      TableSize();
      res := SetIndex(0);
      k := 0;
      while true
        invariant Valid() && At(k) && old(secs) <= secs
        invariant forall s :: fs.Outside(s) && s !in secs ==> fs.Sec(s) == old(fs.Sec(s))
        invariant if k < |old(tab)| then
                    tab == old(tab) && secs == old(secs) && fs.fat == old(fs.fat) && fs.freeClst == old(fs.freeClst)
                  else
                    FirstFree(tab, k) && Grown(old(tab), tab) && forall name :: IsName(name) ==>
                      Find(tab, name) == Find(old(tab), name)
        invariant forall i :: 0 <= i < k ==> !Free(tab[i])
        decreases if k < |old(tab)| then |old(tab)| - k else 0
      {
        var e := Look(k);
        if Free(e) { return Ok, k; }
        res := Next(true, k);
        if res != Ok {
          if res == NoFile { res := Denied; }
          return;
        }
        k := k + 1;
        if k == |old(tab)| { Stretched(old(tab), tab); }
      }
    }

    /** A store into entry k, whose sector is in the window: the bytes b from place at on. */
    method Put(ghost k: nat, at: nat, b: seq<Byte>)
      requires ValidBase() && At(k) && fs.winsect == sect && at + |b| <= 32
      modifies this`tab, fs`wflag, fs.win
      ensures ValidBase() && At(k) && fs.winsect == sect
      ensures tab == old(tab)[k := old(tab)[k][..at] + b + old(tab)[k][at + |b|..]]
      ensures forall s :: fs.Outside(s) && s !in secs ==> fs.Sec(s) == old(fs.Sec(s))
    {
      hide fs.Valid, fs.Sec, fs.Outside, EntryAt, ClusterIndex, Sectors, IsChain, Contents, Reachable, ValidEntries;
      EntrySector(k);
      ghost var was, before := tab, Contents(fs, secs);
      ghost var e := tab[k][..at] + b + tab[k][at + |b|..];
      EntriesFromContents(before);
      assert fs.Outside(secs[k / 16]);
      fs.StoreBytes(dptr % 512 + at, b);
      tab := tab[k := e];
      EntryPut(k, at, b, e, was, before);
    }

    lemma EntriesFromContents(c: seq<seq<Byte>>)
      requires ValidEntries() && c == Contents(fs, secs)
      ensures |tab| == Reachable(|secs|) <= 16 * |c| && |c| == |secs| && forall j :: 0 <= j < |c| ==> |c[j]| == 512
      ensures forall i: nat :: i < |tab| ==> tab[i] == EntryAt(c[i / 16], i % 16)
    {
      hide fs.Sec, EntryAt;
      forall i: nat | i < |tab| ensures tab[i] == EntryAt(c[i / 16], i % 16) { assert HoldsEntry(i); }
    }

    lemma EntryPut(k: nat, at: nat, b: seq<Byte>, e: Entry, was: seq<Entry>, before: seq<seq<Byte>>)
      requires fs.Valid() && ValidPlaces() && |tab| == Reachable(|secs|) && |before| == |secs| && |was| == |tab|
      requires forall j :: 0 <= j < |before| ==> |before[j]| == 512
      requires forall i: nat :: i < |was| ==> was[i] == EntryAt(before[i / 16], i % 16)
      requires k < |was| && at + |b| <= 32 && e == was[k][..at] + b + was[k][at + |b|..] && tab == was[k := e]
      requires forall j :: 0 <= j < |secs| ==>
        fs.Sec(secs[j]) ==
          if j == k / 16 then before[j][..32 * (k % 16) + at] + b + before[j][32 * (k % 16) + at + |b|..] else before[j]
      ensures ValidBase()
    {
      hide fs.Valid, fs.Sec, fs.Outside, EntryAt, Sectors, IsChain;
      var j := k / 16;
      StoredEntry(before[j], fs.Sec(secs[j]), k % 16, at, b, k % 16);
      forall i: nat | i < |tab| ensures tab[i] == EntryAt(fs.Sec(secs[i / 16]), i % 16) {
        if i / 16 == j { StoredEntry(before[j], fs.Sec(secs[j]), k % 16, at, b, i % 16); }
      }
    }

    /** dir_register: an absent name gets an entry, which is then found; every other name is found where it was. It is
        denied just when no entry is free and the table cannot grow. */
    method Register(name: seq<Byte>) returns (res: FResult)
      requires Valid() && IsName(name) && Find(tab, name).None?
      modifies this`dptr, this`clust, this`sect, this`chain, this`secs, this`tab, fs, fs.disk, fs.win
      ensures Valid()
      ensures forall other :: IsName(other) && other != name ==> Find(tab, other) == Find(old(tab), other)
      ensures if res == Ok then
                Find(tab, name).Some? && tab[Find(tab, name).value] == NewEntry(name) && At(Find(tab, name).value)
              else Find(tab, name).None?
      ensures res == Denied ==>
        && tab == old(tab) && (forall i :: 0 <= i < |tab| ==> !Free(tab[i]))
        && (Static() || 0x1_0000 <= |tab| || old(Full()))
      ensures res == IntErr ==> !NoOnes(old(fs.fat))
      ensures res in {Ok, Denied, IntErr}
      ensures old(secs) <= secs && forall s :: fs.Outside(s) && s !in secs ==> fs.Sec(s) == old(fs.Sec(s))
    {
      hide fs.Valid, fs.Sec, fs.Outside, ValidPlaces, ValidEntries, WellEnded, Unique, Find, Full, FirstFree;
      ghost var k;
      res, k := Allocate();
      if res == Ok {
        ghost var tab0 := tab;
        Registered(tab, name, k);
        var e := Look(k);
        Put(k, 0, seq(32, _ => 0));
        Put(k, 0, name);
        assert tab[k] == NewEntry(name);
        assert tab == tab0[k := NewEntry(name)];
      }
    }

    /** dir_remove, after dir_find: the name is absent, and every other name is found where it was. */
    method Remove(ghost name: seq<Byte>)
      requires Valid() && IsName(name) && Find(tab, name).Some? && At(Find(tab, name).value)
      modifies this`tab, fs`winsect, fs`wflag, fs.disk, fs.win
      ensures Valid() && Find(tab, name).None? && |tab| == |old(tab)| && fs.fat == old(fs.fat)
      ensures forall other :: IsName(other) && other != name ==> Find(tab, other) == Find(old(tab), other)
      ensures forall s :: fs.Outside(s) && s !in secs ==> fs.Sec(s) == old(fs.Sec(s))
    {
      hide fs.Valid, fs.Sec, fs.Outside, ValidPlaces, ValidEntries, WellEnded, Unique, Find;
      ghost var k := Find(tab, name).value;
      Removed(tab, name, k);
      var e := Look(k);
      Put(k, 0, [0xE5]);
      assert tab[k] == Deleted(old(tab)[k]);
      assert tab == old(tab)[k := Deleted(old(tab)[k])];
    }
  }
}
