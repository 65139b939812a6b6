/** Where the bytes of a file lie: a chain of clusters as one sequence of sectors, and the arithmetic of offsets,
    sectors and clusters which f_read, f_write and f_lseek (ff.c) do. The cluster size is a power of two, so the masking
    of the source is a remainder. */
module FileLayout {
  import opened FatCodec
  import opened ClusterChains
  import opened FatVolume

  /** The sectors of cluster c. */
  function ClusterSectors(database: nat, csize: nat, c: nat): (s: seq<nat>)
    requires 2 <= c && database <= ClusterSector(database, csize, c)
    ensures |s| == csize && forall j :: 0 <= j < csize ==> s[j] == ClusterSector(database, csize, c) + j
  {
    seq(csize, j requires 0 <= j < csize => ClusterSector(database, csize, c) + j)
  }

  ghost predicate InData(database: nat, csize: nat, chain: seq<nat>) {
    forall i :: 0 <= i < |chain| ==> 2 <= chain[i] && database <= ClusterSector(database, csize, chain[i])
  }

  /** The sectors of a file in order. */
  ghost function Sectors(database: nat, csize: nat, chain: seq<nat>): seq<nat>
    requires InData(database, csize, chain)
  {
    if chain == [] then []
      else Sectors(database, csize, chain[..|chain| - 1]) + ClusterSectors(database, csize, chain[|chain| - 1])
  }

  /** Which cluster of the file sector k belongs to. */
  function ClusterIndex(csize: nat, k: nat): nat
    requires csize > 0
  {
    k / csize
  }

  /** The place of sector k in its cluster. */
  function ClusterOffset(csize: nat, k: nat): (o: nat)
    requires csize > 0
    ensures o < csize
  {
    k % csize
  }

  function ClusterStart(csize: nat, i: nat): nat {
    i * csize
  }

  lemma DivMod(csize: nat, k: nat)
    requires csize > 0
    ensures k == ClusterStart(csize, ClusterIndex(csize, k)) + ClusterOffset(csize, k)
  {
  }

  lemma StartStep(csize: nat, i: nat)
    ensures ClusterStart(csize, i + 1) == ClusterStart(csize, i) + csize
    ensures ClusterStart(csize, 0) == 0
  {
  }

  lemma {:induction false} StartGrows(csize: nat, i: nat, i': nat)
    ensures i <= i' ==> ClusterStart(csize, i) <= ClusterStart(csize, i')
    ensures i < i' ==> ClusterStart(csize, i) + csize <= ClusterStart(csize, i')
    decreases i'
  {
    hide ClusterStart;
    if i < i' {
      StartGrows(csize, i, i' - 1);
      StartStep(csize, i' - 1);
    }
  }

  lemma DivUnique(csize: nat, i: nat, j: nat)
    requires j < csize
    ensures ClusterIndex(csize, ClusterStart(csize, i) + j) == i
    ensures ClusterOffset(csize, ClusterStart(csize, i) + j) == j
  {
    hide ClusterStart, ClusterIndex, ClusterOffset;
    var k := ClusterStart(csize, i) + j;
    DivMod(csize, k);
    StartGrows(csize, i, ClusterIndex(csize, k));
    StartGrows(csize, ClusterIndex(csize, k), i);
  }

  lemma {:induction false} SectorsLength(database: nat, csize: nat, chain: seq<nat>)
    requires InData(database, csize, chain)
    ensures |Sectors(database, csize, chain)| == ClusterStart(csize, |chain|)
    decreases |chain|
  {
    hide ClusterStart;
    if chain == [] {
      StartStep(csize, 0);
    } else {
      SectorsLength(database, csize, chain[..|chain| - 1]);
      StartStep(csize, |chain| - 1);
    }
  }

  /** Sector j of cluster i of the file. */
  lemma {:induction false} SectorsAt(database: nat, csize: nat, chain: seq<nat>, i: nat, j: nat)
    requires InData(database, csize, chain) && i < |chain| && j < csize
    ensures ClusterStart(csize, i) + j < |Sectors(database, csize, chain)|
    ensures Sectors(database, csize, chain)[ClusterStart(csize, i) + j] == ClusterSector(database, csize, chain[i]) + j
    decreases |chain|
  {
    hide ClusterStart, ClusterSector;
    var n := |chain| - 1;
    SectorsLength(database, csize, chain);
    SectorsLength(database, csize, chain[..n]);
    StartGrows(csize, i, n);
    StartStep(csize, n);
    if i < n {
      SectorsAt(database, csize, chain[..n], i, j);
    }
  }

  /** Sector k of the file is where clst2sect puts it. */
  lemma SectorOfFile(database: nat, csize: nat, chain: seq<nat>, k: nat)
    requires csize > 0 && InData(database, csize, chain) && k < |Sectors(database, csize, chain)|
    ensures ClusterIndex(csize, k) < |chain|
    ensures Sectors(database, csize, chain)[k]
         == ClusterSector(database, csize, chain[ClusterIndex(csize, k)]) + ClusterOffset(csize, k)
  {
    hide ClusterStart, ClusterIndex, ClusterOffset, Sectors;
    DivMod(csize, k);
    SectorsLength(database, csize, chain);
    StartGrows(csize, |chain|, ClusterIndex(csize, k));
    SectorsAt(database, csize, chain, ClusterIndex(csize, k), ClusterOffset(csize, k));
  }

  /** Different clusters have no sector in common. */
  lemma ClustersApart(database: nat, csize: nat, c: nat, j: nat, d: nat, i: nat)
    requires 2 <= c && 2 <= d && c != d && j < csize && i < csize
    ensures ClusterSector(database, csize, c) + j != ClusterSector(database, csize, d) + i
  {
    assert ClusterSector(database, csize, c) == database + ClusterStart(csize, c - 2);
    assert ClusterSector(database, csize, d) == database + ClusterStart(csize, d - 2);
    hide ClusterStart, ClusterSector;
    StartGrows(csize, c - 2, d - 2);
    StartGrows(csize, d - 2, c - 2);
  }

  /** The first clusters of a file have its first sectors. */
  lemma {:induction false} SectorsPrefix(database: nat, csize: nat, chain: seq<nat>, k: nat)
    requires InData(database, csize, chain) && k <= |chain|
    ensures InData(database, csize, chain[..k])
    ensures Sectors(database, csize, chain[..k]) <= Sectors(database, csize, chain)
    decreases |chain|
  {
    if k == |chain| {
      assert chain[..k] == chain;
    } else {
      assert chain[..|chain| - 1][..k] == chain[..k];
      SectorsPrefix(database, csize, chain[..|chain| - 1], k);
    }
  }

  /** Files without a common cluster have no common sector. */
  lemma SectorsApart(database: nat, csize: nat, s: seq<nat>, t: seq<nat>)
    requires csize > 0 && InData(database, csize, s) && InData(database, csize, t) && Disjoint(s, t)
    ensures Disjoint(Sectors(database, csize, s), Sectors(database, csize, t))
  {
    hide ClusterIndex, ClusterOffset, Sectors, ClusterSector;
    var ss, ts := Sectors(database, csize, s), Sectors(database, csize, t);
    forall k, m | 0 <= k < |ss| && 0 <= m < |ts| ensures ss[k] != ts[m] {
      SectorOfFile(database, csize, s, k);
      SectorOfFile(database, csize, t, m);
      var c, d := s[ClusterIndex(csize, k)], t[ClusterIndex(csize, m)];
      assert c in s && d in t;
      ClustersApart(database, csize, c, ClusterOffset(csize, k), d, ClusterOffset(csize, m));
    }
  }

  /** Different sectors of a file lie in different places of the disk. */
  lemma SectorsDistinct(database: nat, csize: nat, chain: seq<nat>, k: nat, m: nat)
    requires csize > 0 && InData(database, csize, chain) && Distinct(chain)
    requires k < |Sectors(database, csize, chain)| && m < |Sectors(database, csize, chain)| && k != m
    ensures Sectors(database, csize, chain)[k] != Sectors(database, csize, chain)[m]
  {
    hide ClusterStart, ClusterIndex, ClusterOffset, Sectors, ClusterSector;
    SectorOfFile(database, csize, chain, k);
    SectorOfFile(database, csize, chain, m);
    DivMod(csize, k);
    DivMod(csize, m);
    var a, b := ClusterIndex(csize, k), ClusterIndex(csize, m);
    if a != b {
      assert chain[a] != chain[b];
      ClustersApart(database, csize, chain[a], ClusterOffset(csize, k), chain[b], ClusterOffset(csize, m));
    }
  }

  /** Sectors of one cluster are consecutive on the disk. */
  lemma SectorsConsecutive(database: nat, csize: nat, chain: seq<nat>, k: nat, j: nat)
    requires csize > 0 && InData(database, csize, chain)
    requires k < |Sectors(database, csize, chain)| && ClusterOffset(csize, k) + j < csize
    ensures k + j < |Sectors(database, csize, chain)|
    ensures Sectors(database, csize, chain)[k + j] == Sectors(database, csize, chain)[k] + j
  {
    hide ClusterStart, ClusterIndex, ClusterOffset, Sectors, ClusterSector;
    SectorOfFile(database, csize, chain, k);
    DivMod(csize, k);
    SectorsAt(database, csize, chain, ClusterIndex(csize, k), ClusterOffset(csize, k) + j);
  }

  /** The sectors lie in the data area. */
  lemma SectorsInside(database: nat, csize: nat, nFatent: nat, length: nat, chain: seq<nat>, k: nat)
    requires csize > 0 && ClustersFit(database, csize, nFatent, length)
    requires forall i :: 0 <= i < |chain| ==> 2 <= chain[i] < nFatent
    ensures InData(database, csize, chain)
    ensures k < |Sectors(database, csize, chain)| ==> database <= Sectors(database, csize, chain)[k] < length
  {
    if k < |Sectors(database, csize, chain)| { SectorOfFile(database, csize, chain, k); }
  }

  /** At a cluster boundary inside the file, the cluster before it has the preceding index. */
  lemma BoundaryIndex(csize: nat, k: nat)
    requires csize > 0 && k > 0
    ensures ClusterOffset(csize, k) == 0 ==> ClusterIndex(csize, k) == ClusterIndex(csize, k - 1) + 1
    ensures ClusterOffset(csize, k) != 0 ==>
      ClusterIndex(csize, k) == ClusterIndex(csize, k - 1) && ClusterOffset(csize, k) == ClusterOffset(csize, k - 1) + 1
  {
    hide ClusterStart, ClusterIndex, ClusterOffset;
    var i, j := ClusterIndex(csize, k - 1), ClusterOffset(csize, k - 1);
    DivMod(csize, k - 1);
    StartStep(csize, i);
    if j + 1 < csize { DivUnique(csize, i, j + 1); } else { DivUnique(csize, i + 1, 0); }
  }

  lemma FirstSector(csize: nat)
    requires csize > 0
    ensures ClusterIndex(csize, 0) == 0 && ClusterOffset(csize, 0) == 0
  {
  }

  /** The sector before a sector boundary. */
  lemma SectorBefore(p: nat)
    requires p > 0 && p % 512 == 0
    ensures p / 512 > 0 && (p - 1) / 512 == p / 512 - 1
  {
  }

  /** Advancing over cc sectors of one cluster. */
  lemma AfterSectors(csize: nat, p: nat, cc: nat)
    requires csize > 0 && p % 512 == 0 && 0 < cc && ClusterOffset(csize, p / 512) + cc <= csize
    ensures (p + 512 * cc) % 512 == 0 && (p + 512 * cc - 1) / 512 == p / 512 + cc - 1
    ensures ClusterIndex(csize, (p + 512 * cc - 1) / 512) == ClusterIndex(csize, p / 512)
  {
    var k := p / 512;
    assert p == 512 * k;
    Div512(k + cc - 1, 511);
    Div512(k + cc, 0);
    hide ClusterIndex, ClusterOffset, ClusterStart;
    DivMod(csize, k);
    DivUnique(csize, ClusterIndex(csize, k), ClusterOffset(csize, k) + cc - 1);
  }

  /** Advancing within a sector. */
  lemma AfterPart(p: nat, n: nat)
    requires 0 < n <= 512 - p % 512
    ensures (p + n - 1) / 512 == p / 512
    ensures (p + n) % 512 != 0 ==> (p + n) / 512 == p / 512
  {
    var k, r := p / 512, p % 512;
    assert p == 512 * k + r;
    Div512(k, r + n - 1);
    if r + n < 512 { Div512(k, r + n); } else { Div512(k + 1, 0); }
  }

  lemma SameSectorOffset(p: nat)
    ensures p > 0 && p % 512 != 0 ==> (p - 1) / 512 == p / 512
  {
  }

  /** Byte x after a sector boundary p. */
  lemma SectorOfByte(p: nat, x: nat)
    requires p % 512 == 0
    ensures (p + x) / 512 == p / 512 + x / 512 && (p + x) % 512 == x % 512
  {
    Div512(p / 512 + x / 512, x % 512);
  }

  /** Byte x after p, in the sector of p. */
  lemma PartOfSector(p: nat, x: nat)
    requires p % 512 + x < 512
    ensures (p + x) / 512 == p / 512 && (p + x) % 512 == p % 512 + x
  {
    Div512(p / 512, p % 512 + x);
  }

  /** A cluster more at the end of the file. */
  lemma SectorsGrow(database: nat, csize: nat, chain: seq<nat>, c: nat)
    requires InData(database, csize, chain + [c])
    ensures 2 <= c && database <= ClusterSector(database, csize, c) && InData(database, csize, chain)
    ensures Sectors(database, csize, chain + [c]) ==
            Sectors(database, csize, chain) + ClusterSectors(database, csize, c)
  {
    assert (chain + [c])[|chain|] == c;
    assert (chain + [c])[..|chain|] == chain;
    forall i | 0 <= i < |chain| ensures 2 <= chain[i] && database <= ClusterSector(database, csize, chain[i]) {
      assert (chain + [c])[i] == chain[i];
    }
  }

  /** A sector whose cluster is in the chain is a sector of the file; the sector after the last one starts a new
      cluster. */
  lemma SectorInChain(database: nat, csize: nat, chain: seq<nat>, k: nat)
    requires csize > 0 && InData(database, csize, chain)
    ensures k < |Sectors(database, csize, chain)| <==> ClusterIndex(csize, k) < |chain|
    ensures k == |Sectors(database, csize, chain)| ==> ClusterIndex(csize, k) == |chain| && ClusterOffset(csize, k) == 0
  {
    hide ClusterStart, ClusterIndex, ClusterOffset, Sectors;
    DivMod(csize, k);
    SectorsLength(database, csize, chain);
    var i := ClusterIndex(csize, k);
    StartGrows(csize, i, |chain|);
    StartGrows(csize, |chain|, i);
    DivUnique(csize, |chain|, 0);
  }

  /** A chain of the FAT has distinct sectors, all in the data area. */
  lemma ChainGivesSectors(fs: Volume, chain: seq<nat>)
    requires fs.Valid() && (chain == [] || IsChain(fs.fat, chain))
    ensures forall i :: 0 <= i < |chain| ==> 2 <= chain[i] < fs.nFatent
    ensures InData(fs.database, fs.csize, chain)
    ensures var secs := Sectors(fs.database, fs.csize, chain);
            && Distinct(secs)
            && forall k :: 0 <= k < |secs| ==> 0 < fs.database <= secs[k] < fs.disk.Length
  {
    hide fs.Valid, Sectors;
    if chain != [] { ChainInside(fs.fat, chain); }
    SectorsInside(fs.database, fs.csize, fs.nFatent, fs.disk.Length, chain, 0);
    var secs := Sectors(fs.database, fs.csize, chain);
    forall k: nat | k < |secs| ensures fs.database <= secs[k] < fs.disk.Length {
      SectorsInside(fs.database, fs.csize, fs.nFatent, fs.disk.Length, chain, k);
    }
    forall i, j | 0 <= i < j < |secs| ensures secs[i] != secs[j] {
      SectorsDistinct(fs.database, fs.csize, chain, i, j);
    }
  }

  // ----- f_lseek: offsets in units of bcs, the bytes of a cluster -----

  /** Dividing by the bytes of a cluster is dividing by the sector, then by the cluster. */
  lemma DivBytes(csize: nat, bcs: nat, x: nat)
    requires csize > 0 && bcs == csize * 512
    ensures x / bcs == ClusterIndex(csize, x / 512)
    ensures x / bcs * bcs == 512 * ClusterStart(csize, ClusterIndex(csize, x / 512)) <= x
  {
    var i, j, r := ClusterIndex(csize, x / 512), ClusterOffset(csize, x / 512), x % 512;
    DivMod(csize, x / 512);
    assert ClusterStart(bcs, i) == 512 * ClusterStart(csize, i) by { StartScale(csize, bcs, i); }
    hide ClusterStart, ClusterIndex, ClusterOffset;
    assert x == ClusterStart(bcs, i) + (512 * j + r);
    DivUnique(bcs, i, 512 * j + r);
    IndexIsDiv(bcs, x);
    StartIsTimes(bcs, i);
  }

  lemma {:induction false} StartScale(csize: nat, bcs: nat, i: nat)
    requires bcs == csize * 512
    ensures ClusterStart(bcs, i) == 512 * ClusterStart(csize, i)
    decreases i
  {
    hide ClusterStart;
    StartStep(csize, if i == 0 then 0 else i - 1);
    StartStep(bcs, if i == 0 then 0 else i - 1);
    if i > 0 { StartScale(csize, bcs, i - 1); }
  }

  lemma IndexIsDiv(m: nat, x: nat)
    requires m > 0
    ensures ClusterIndex(m, x) == x / m
  {
  }

  lemma StartIsTimes(m: nat, i: nat)
    ensures ClusterStart(m, i) == i * m
  {
  }

  /** Where the cursor is when it is ofs bytes into cluster i, with 0 < ofs and ofs at most a cluster. */
  lemma SeekEnd(csize: nat, i: nat, ofs: nat)
    requires csize > 0 && 0 < ofs <= csize * 512
    ensures var p := 512 * ClusterStart(csize, i) + ofs;
            && p > 0 && ClusterIndex(csize, (p - 1) / 512) == i
            && (ofs % 512 != 0 ==> ofs / 512 < csize && p / 512 == ClusterStart(csize, i) + ofs / 512)
            && p % 512 == ofs % 512
  {
    hide ClusterStart, ClusterIndex, ClusterOffset;
    var a := ClusterStart(csize, i);
    SectorOfByte(512 * a, ofs - 1);
    SectorOfByte(512 * a, ofs);
    DivUnique(csize, i, (ofs - 1) / 512);
  }
}
