/** An open file of ff.c (FF_FS_TINY == 0): a private one-sector buffer over the clusters of the file. f_read, f_write
    and f_lseek act on the bytes of the file as operations on a sequence with a cursor. */
module FatFile {
  import opened FatCodec
  import opened ClusterChains
  import opened FatVolume
  import opened FileLayout

  /** d with the bytes b put at position p, extended if they reach past its end. */
  function Splice(d: seq<Byte>, p: nat, b: seq<Byte>): (r: seq<Byte>)
    requires p <= |d|
    ensures |r| == if p + |b| > |d| then p + |b| else |d|
  {
    d[..p] + b + if p + |b| < |d| then d[p + |b|..] else []
  }

  lemma SliceJoin(d: seq<Byte>, a: nat, b: nat, c: nat)
    requires a <= b <= c <= |d|
    ensures d[a..b] + d[b..c] == d[a..c]
  {
  }

  lemma SpliceTwice(d: seq<Byte>, p: nat, a: seq<Byte>, b: seq<Byte>)
    requires p <= |d|
    ensures Splice(Splice(d, p, a), p + |a|, b) == Splice(d, p, a + b)
  {
  }

  lemma Overwritten(b: seq<Byte>, b': seq<Byte>, at: nat, w: seq<Byte>)
    requires |b| == |b'| && at + |w| <= |b|
    requires forall x :: 0 <= x < |b| ==> b'[x] == if at <= x < at + |w| then w[x - at] else b[x]
    ensures b' == Splice(b, at, w)
  {
  }

  /** Writing part of a sector changes the file as it changes the sector, whose bytes are b. */
  lemma SplicedPart(d: seq<Byte>, p0: nat, w: seq<Byte>, b: seq<Byte>, p: nat)
    requires p0 <= |d| && |b| == 512 && |w| <= 512 - p0 % 512 && p < |Splice(d, p0, w)|
    requires forall x :: 0 <= x < |d| && x / 512 == p0 / 512 ==> d[x] == b[x % 512]
    ensures p / 512 == p0 / 512 ==> Splice(d, p0, w)[p] == Splice(b, p0 % 512, w)[p % 512]
    ensures p / 512 != p0 / 512 ==> p < |d| && Splice(d, p0, w)[p] == d[p]
  {
    if p0 <= p < p0 + |w| {
      PartOfSector(p0, p - p0);
    } else if p / 512 == p0 / 512 {
      assert p % 512 - p0 % 512 == p - p0;
    }
  }

  lemma BlockOfSlice(src: seq<Byte>, off: nat, cc: nat, j: nat)
    requires off + 512 * cc <= |src| && j < cc
    ensures Block(src, off, j) == src[off..off + 512 * cc][512 * j..512 * j + 512]
  {
  }

  /** Writing whole sectors. */
  lemma SplicedRun(d: seq<Byte>, p0: nat, w: seq<Byte>, cc: nat, p: nat)
    requires p0 <= |d| && p0 % 512 == 0 && |w| == 512 * cc && p < |Splice(d, p0, w)|
    ensures p0 / 512 <= p / 512 < p0 / 512 + cc ==>
      && 512 * (p / 512 - p0 / 512) + 512 <= |w|
      && Splice(d, p0, w)[p] == w[512 * (p / 512 - p0 / 512)..512 * (p / 512 - p0 / 512) + 512][p % 512]
    ensures !(p0 / 512 <= p / 512 < p0 / 512 + cc) ==> p < |d| && Splice(d, p0, w)[p] == d[p]
  {
    if p0 <= p < p0 + |w| { SectorOfByte(p0, p - p0); }
  }

  lemma PartEnd(p: nat, n: nat, k: nat)
    requires p / 512 < k && n <= 512 - p % 512
    ensures p + n <= 512 * k
  {
  }

  lemma SpliceNothing(d: seq<Byte>, p: nat)
    requires p <= |d|
    ensures Splice(d, p, []) == d
  {
  }

  /** The content of the sectors secs. */
  ghost function OnDisk(disk: seq<seq<Byte>>, secs: seq<nat>): (r: seq<Byte>)
    requires forall s :: 0 <= s < |disk| ==> |disk[s]| == 512
    requires forall k :: 0 <= k < |secs| ==> secs[k] < |disk|
    ensures |r| == 512 * |secs|
    ensures forall p :: 0 <= p < |r| ==> r[p] == disk[secs[p / 512]][p % 512]
  {
    Flatten(seq(|secs|, k requires 0 <= k < |secs| => disk[secs[k]]))
  }

  /** The sectors 0..n-1 as they are now. */
  ghost function Whole(fs: Volume, n: nat): (w: seq<seq<Byte>>)
    requires n <= fs.disk.Length
    reads fs`winsect, fs.disk, fs.win
    ensures |w| == n && forall s :: 0 <= s < n ==> w[s] == fs.Sec(s)
  {
    if n == 0 then [] else Whole(fs, n - 1) + [fs.Sec(n - 1)]
  }

  /** The clusters and sectors of a file, and the volume around them. */
  datatype View = View(chain: seq<nat>, secs: seq<nat>, fat: seq<nat>, winsect: nat, whole: seq<seq<Byte>>)

  /** Nothing but the file has changed: it may have grown by clusters which were free; other clusters keep their links,
      and sectors which belong neither to a FAT nor to the file hold what they held. */
  ghost predicate OnlyFile(fs: Volume, a: View, b: View) {
    && a.chain <= b.chain && a.secs <= b.secs && |a.fat| == |b.fat| && |a.whole| == |b.whole| == fs.disk.Length
    && (forall c :: 0 <= c < |a.fat| && c !in b.chain ==> b.fat[c] == a.fat[c])
    && (forall c :: c in b.chain && c !in a.chain ==> c < |a.fat| && a.fat[c] == 0)
    && (b.winsect == a.winsect || fs.InFat1(b.winsect))
    && forall s: nat :: fs.Outside(s) && s !in b.secs ==> b.whole[s] == a.whole[s]
  }

  lemma OnlyFileTwice(fs: Volume, a: View, b: View, c: View)
    requires OnlyFile(fs, a, b) && OnlyFile(fs, b, c)
    ensures OnlyFile(fs, a, c)
  {
    forall x | x in c.chain && x !in a.chain ensures x < |a.fat| && a.fat[x] == 0 {
      if x in b.chain { assert a.fat[x] == 0; } else { assert b.fat[x] == 0; }
    }
  }

  lemma OnlyFileSame(fs: Volume, a: View)
    requires |a.whole| == fs.disk.Length
    ensures OnlyFile(fs, a, a)
  {
  }

  /** The clusters of s from k on have become free, and nothing else has changed but the link of the one before. */
  ghost predicate TailCut(fat: seq<nat>, fat': seq<nat>, s: seq<nat>, k: nat)
    requires k <= |s| && |fat'| == |fat|
  {
    && (k > 0 ==> IsChain(fat', s[..k]))
    && (forall c :: 0 <= c < |fat| && c !in s ==> fat'[c] == fat[c])
    && forall c :: c in s && c !in s[..k] ==> c < |fat| && fat'[c] == 0
  }

  /** The links after remove_chain has freed the chain s from cluster k on. */
  lemma TailFreed(fat: seq<nat>, fat': seq<nat>, s: seq<nat>, k: nat, eoc: nat)
    requires IsChain(fat, s) && k < |s| && eoc >= |fat| && fat' == Apply(fat, RemoveWrites(s, k, eoc))
    ensures TailCut(fat, fat', s, k)
  {
    RemoveKeepsPrefix(fat, s, k, eoc);
    ChainInside(fat, s);
    hide Apply, RemoveWrites, IsChain;
    forall c | 0 <= c < |fat| && c !in s ensures fat'[c] == fat[c] { CutLink(fat, s, k, eoc, c); }
    forall c | c in s && c !in s[..k] ensures c < |fat| && fat'[c] == 0 { CutLink(fat, s, k, eoc, c); }
  }

  lemma CutLink(fat: seq<nat>, s: seq<nat>, k: nat, eoc: nat, c: nat)
    requires IsChain(fat, s) && k < |s| && c < |fat|
    ensures c !in s ==> Apply(fat, RemoveWrites(s, k, eoc))[c] == fat[c]
    ensures c in s && c !in s[..k] ==> Apply(fat, RemoveWrites(s, k, eoc))[c] == 0
  {
    RemoveApplied(fat, s, k, eoc, c);
    hide Apply, RemoveWrites, IsChain;
    assert s == s[..k] + s[k..];
    assert c in s ==> c in s[..k] || c in s[k..];
  }

  lemma TailNone(fat: seq<nat>, s: seq<nat>)
    requires IsChain(fat, s)
    ensures TailCut(fat, fat, s, |s|)
  {
    assert s[..|s|] == s;
  }

  class FileObj {
    const fs: Volume
    const buf: array<Byte>
    const canRead: bool
    const canWrite: bool
    var err: FResult
    var dirty: bool       // FA_DIRTY: buf is newer than the disk
    var modified: bool    // FA_MODIFIED
    var sclust: nat
    var objsize: nat
    var fptr: nat
    var clust: nat
    var sect: nat         // sector in buf, 0 if none

    ghost var chain: seq<nat>   // the clusters of the file
    ghost var secs: seq<nat>    // their sectors
    ghost var data: seq<Byte>   // the bytes of the file

    /** The file owns a chain of the FAT, and the window holds none of its sectors. */
    ghost predicate ValidChain()
      reads this`sclust, this`chain, this`secs, fs`fat, fs`winsect
    {
      && (if sclust == 0 then chain == [] else chain != [] && chain[0] == sclust && IsChain(fs.fat, chain))
      && (forall i :: 0 <= i < |chain| ==> 2 <= chain[i] < fs.nFatent)
      && InData(fs.database, fs.csize, chain)
      && secs == Sectors(fs.database, fs.csize, chain)
      && Distinct(secs)
      && (forall k :: 0 <= k < |secs| ==> fs.database <= secs[k] < fs.disk.Length && secs[k] != fs.winsect)
    }

    /** The buffer is empty or holds a sector, one of the file if it is dirty; a clean buffer equals the disk. After
        f_truncate a clean buffer may hold a sector which the file has no longer. */
    ghost predicate ValidBuffer()
      reads this`secs, this`dirty, this`sect, buf, fs.disk
    {
      && buf.Length == 512 && buf != fs.win
      && (forall s :: 0 <= s < fs.disk.Length ==> |fs.disk[s]| == 512)
      && (forall k :: 0 <= k < |secs| ==> 0 < secs[k] < fs.disk.Length)
      && (dirty ==> sect in secs)
      && (sect != 0 ==> sect < fs.disk.Length)
      && (!dirty && sect != 0 ==> buf[..] == fs.disk[sect])
    }

    /** The sector in the buffer is one of the data area, and the window does not hold it. */
    ghost predicate BufferApart()
      reads this`sect, fs`winsect
    {
      sect != 0 ==> fs.database <= sect && sect != fs.winsect
    }

    /** Sector k of the file as the file has it. */
    ghost function Stored(k: nat): (s: seq<Byte>)
      requires ValidBuffer() && k < |secs|
      reads this`secs, this`dirty, this`sect, buf, fs.disk
      ensures |s| == 512
    {
      if dirty && secs[k] == sect then buf[..] else fs.disk[secs[k]]
    }

    /** The first n bytes in the sectors of the file. */
    ghost function StoredBytes(n: nat): (r: seq<Byte>)
      requires ValidBuffer() && n <= 512 * |secs|
      reads this`secs, this`dirty, this`sect, buf, fs.disk
      ensures |r| == n && forall p :: 0 <= p < n ==> r[p] == Stored(p / 512)[p % 512]
    {
      if n == 0 then [] else StoredBytes(n - 1) + [Stored((n - 1) / 512)[(n - 1) % 512]]
    }

    ghost predicate ValidData()
      reads this`secs, this`dirty, this`sect, this`objsize, this`data, buf, fs.disk
    {
      && ValidBuffer()
      && objsize == |data| < 0x1_0000_0000 && |data| <= 512 * |secs|
      && forall p :: 0 <= p < |data| ==> data[p] == Stored(p / 512)[p % 512]
    }

    ghost predicate ValidBase()
      reads this`sclust, this`chain, this`secs, this`dirty, this`sect, this`objsize, this`data, buf
      reads fs`winsect, fs`wflag, fs`img, fs`fat, fs.disk, fs.win
      ensures ValidBase() ==>
        && buf.Length == 512 && buf != fs.win && fs.Valid() && objsize == |data| < 0x1_0000_0000
        && |data| <= 512 * |secs| && 0 < fs.csize
    {
      fs.Valid() && ValidChain() && ValidData() && BufferApart()
    }

    /** Between calls: clust is the cluster of the byte before the cursor, and off a sector boundary the buffer holds
        the sector under the cursor. */
    ghost predicate Valid()
      reads this`sclust, this`chain, this`secs, this`dirty, this`sect, this`objsize, this`data, this`fptr, this`clust,
        buf
      reads fs`winsect, fs`wflag, fs`img, fs`fat, fs.disk, fs.win
      ensures Valid() ==> ValidBase() && fptr <= objsize && CursorAfter(fptr)
    {
      && ValidBase()
      && fptr <= objsize
      && CursorAfter(fptr)
    }

    /** What f_open leaves: cursor at the start, nothing in the buffer. */
    constructor (fs: Volume, sclust: nat, objsize: nat, canRead: bool, canWrite: bool, ghost chain: seq<nat>)
      requires fs.Valid()
      requires if sclust == 0 then chain == [] else chain != [] && chain[0] == sclust && IsChain(fs.fat, chain)
      requires InData(fs.database, fs.csize, chain)
      requires objsize < 0x1_0000_0000 && objsize <= 512 * |Sectors(fs.database, fs.csize, chain)|
      requires forall k :: 0 <= k < |Sectors(fs.database, fs.csize, chain)| ==>
        Sectors(fs.database, fs.csize, chain)[k] != fs.winsect
      ensures Valid() && fresh(buf) && err == Ok && fptr == 0 && objsize == this.objsize && !dirty && !modified
      ensures this.fs == fs && this.canRead == canRead && this.canWrite == canWrite && this.sclust == sclust
      ensures this.chain == chain
    {
      hide fs.Valid, Sectors, IsChain, ClusterSector, Distinct;
      this.fs, this.sclust, this.objsize, this.canRead, this.canWrite := fs, sclust, objsize, canRead, canWrite;
      buf := new Byte[512](_ => 0);
      err, dirty, modified, fptr, clust, sect := Ok, false, false, 0, 0, 0;
      this.chain := chain;
      secs := Sectors(fs.database, fs.csize, chain);
      new;
      ChainGivesSectors(fs, chain);
      fs.SectorSizes();
      data := OnDisk(fs.disk[..], secs)[..objsize];
      Opened();
    }

    lemma Opened()
      requires fs.Valid() && ValidChain() && buf.Length == 512 && buf != fs.win
      requires !dirty && fptr == 0 && sect == 0 && objsize < 0x1_0000_0000 && objsize <= 512 * |secs|
      requires forall s :: 0 <= s < fs.disk.Length ==> |fs.disk[s]| == 512
      requires data == OnDisk(fs.disk[..], secs)[..objsize]
      ensures Valid()
    {
      hide fs.ValidImage, Sectors, IsChain, ClusterIndex, Distinct;
    }

    /** What the rest of the volume can see of the file. */
    ghost function Now(): View
      reads this`chain, this`secs, fs`fat, fs`winsect, fs.disk, fs.win
      ensures |Now().whole| == fs.disk.Length
    {
      View(chain, secs, fs.fat, fs.winsect, Whole(fs, fs.disk.Length))
    }

    /** Nothing but the file has changed. */
    twostate predicate Elsewhere()
      reads this`chain, this`secs, fs`fat, fs`winsect, fs.disk, fs.win
    {
      OnlyFile(fs, old(Now()), Now())
    }

    /** Writing sectors of the file, run.1 of them from run.0 on. */
    twostate lemma FileWritten(run: (nat, nat))
      requires unchanged(this`chain) && unchanged(this`secs) && unchanged(fs`fat) && unchanged(fs`winsect)
      requires unchanged(fs.win)
      requires forall x: nat :: run.0 <= x < run.0 + run.1 ==> x in secs
      requires forall x :: 0 <= x < fs.disk.Length && !(run.0 <= x < run.0 + run.1) ==> fs.disk[x] == old(fs.disk[x])
      ensures Elsewhere()
    {
      var a, b := old(Now()), Now();
      forall x: nat | fs.Outside(x) && x !in b.secs ensures b.whole[x] == a.whole[x] {
        assert b.whole[x] == fs.Sec(x) && a.whole[x] == old(fs.Sec(x));
      }
    }

    /** Reading the FAT. */
    twostate lemma FatRead()
      requires unchanged(this`chain) && unchanged(this`secs) && unchanged(fs`fat) && fs.DataKept()
      ensures Elsewhere()
    {
      hide fs.Sec;
    }

    /** Adding cluster link.1 to the file, after cluster link.0. */
    twostate lemma FatGrown(link: (nat, nat))
      requires fs.DataKept() && old(chain) <= chain && old(secs) <= secs && |fs.fat| == |old(fs.fat)|
      requires forall c :: c in chain && c !in old(chain) ==> c == link.1
      requires link.1 < |fs.fat| && old(fs.fat)[link.1] == 0 && link.1 in chain && (link.0 == 0 || link.0 in chain)
      requires fs.fat == Apply(old(fs.fat), CreateWrites(if link.0 == 0 then [] else [link.0], link.1, Eoc(fs.fmt)))
      ensures Elsewhere()
    {
      hide fs.Sec, Apply;
      var w := CreateWrites(if link.0 == 0 then [] else [link.0], link.1, Eoc(fs.fmt));
      forall c | 0 <= c < |fs.fat| && c !in chain ensures fs.fat[c] == old(fs.fat)[c] { ApplyOther(old(fs.fat), w, c); }
    }

    /** Another open file, whose links have stayed, when at most the sectors other.1 have been written. It is as it was
        just when the sector in its buffer has not been written with other bytes. */
    twostate lemma Beside(other: (FileObj, seq<nat>))
      requires var g := other.0; g.fs == fs && old(g.ValidBase()) && fs.Valid() && unchanged(g) && unchanged(g.buf)
      requires Disjoint(other.1, other.0.secs) && 0 !in other.1
      requires |fs.fat| == |old(fs.fat)|
      requires forall c :: c in other.0.chain && c < |fs.fat| ==> fs.fat[c] == old(fs.fat)[c]
      requires fs.winsect == old(fs.winsect) || fs.InFat1(fs.winsect)
      requires forall s: nat :: fs.Outside(s) && s !in other.1 ==> fs.Sec(s) == old(fs.Sec(s))
      ensures var g := other.0;
              && g.ValidChain()
              && (g.ValidBase() <==> (g.sect in other.1 ==> fs.disk[g.sect] == old(fs.disk[g.sect])))
              && (g.ValidBase() && old(g.Valid()) ==> g.Valid())
    {
      hide fs.ValidImage, Sectors, Distinct, InData, ClusterSector, ClusterIndex, Disjoint;
      BesideSectors(other);
      BesideChain(other.0);
      BesideBuffer(other);
    }

    /** The sectors of the data area which have not been written. */
    twostate lemma BesideSectors(other: (FileObj, seq<nat>))
      requires old(fs.Valid()) && fs.Valid() && (fs.winsect == old(fs.winsect) || fs.InFat1(fs.winsect))
      requires forall s: nat :: fs.Outside(s) && s !in other.1 ==> fs.Sec(s) == old(fs.Sec(s))
      ensures forall s :: fs.database <= s < fs.disk.Length && s !in other.1 && s != old(fs.winsect) ==>
        fs.disk[s] == old(fs.disk[s])
    {
      hide fs.ValidImage;
      forall s | fs.database <= s < fs.disk.Length && s !in other.1 && s != old(fs.winsect)
        ensures fs.disk[s] == old(fs.disk[s])
      {
        assert fs.Outside(s) && fs.Sec(s) == old(fs.Sec(s));
      }
    }

    twostate lemma BesideChain(g: FileObj)
      requires g.fs == fs && old(fs.Valid()) && old(g.ValidChain()) && fs.Valid() && unchanged(g)
      requires |fs.fat| == |old(fs.fat)| && forall c :: c in g.chain && c < |fs.fat| ==> fs.fat[c] == old(fs.fat)[c]
      requires fs.winsect == old(fs.winsect) || fs.InFat1(fs.winsect)
      ensures g.ValidChain()
    {
      hide fs.ValidImage, Sectors, Distinct, InData, ClusterSector;
      forall i: nat | i < |g.chain| ensures Linked(fs.fat, g.chain, i) {
        assert g.chain[i] in g.chain && old(Linked(fs.fat, g.chain, i));
      }
    }

    twostate lemma BesideBuffer(other: (FileObj, seq<nat>))
      requires var g := other.0; g.fs == fs && old(g.ValidBase()) && fs.Valid() && unchanged(g) && unchanged(g.buf)
      requires Disjoint(other.1, other.0.secs) && 0 !in other.1 && other.0.ValidChain()
      requires fs.winsect == old(fs.winsect) || fs.InFat1(fs.winsect)
      requires forall s :: fs.database <= s < fs.disk.Length && s !in other.1 && s != old(fs.winsect) ==>
        fs.disk[s] == old(fs.disk[s])
      ensures var g := other.0;
              && (g.ValidBase() <==> (g.sect in other.1 ==> fs.disk[g.sect] == old(fs.disk[g.sect])))
              && (g.ValidBase() && old(g.Valid()) ==> g.Valid())
    {
      var (g, touched) := other;
      hide fs.ValidImage, Sectors, Distinct, InData, ClusterSector, ClusterIndex, IsChain;
      fs.SectorSizes();
      assert old(g.ValidChain());
      forall k | 0 <= k < |g.secs| ensures fs.disk[g.secs[k]] == old(fs.disk[g.secs[k]]) {
        assert g.secs[k] in g.secs && g.secs[k] !in touched;
      }
      assert g.BufferApart();
      if g.sect in touched ==> fs.disk[g.sect] == old(fs.disk[g.sect]) {
        assert g.ValidBuffer();
        forall p | 0 <= p < |g.data| ensures g.data[p] == g.Stored(p / 512)[p % 512] {
          assert old(g.data[p] == g.Stored(p / 512)[p % 512]);
        }
      } else {
        assert g.sect !in g.secs && !g.dirty && g.buf[..] == old(fs.disk[g.sect]);
      }
    }

    /** Two open files with no cluster in common: what is done to this one by f_read, f_write and f_lseek keeps the
        other one open and its bytes as they were, if its buffer is empty or holds a sector it has, and the two still
        have no cluster in common. In any case the other file is kept just when the sector in its buffer has not been
        written here with other bytes; f_truncate may have left there a sector the other file has lost. */
    twostate lemma OtherFileKept(g: FileObj)
      requires g.fs == fs && g != this && old(ValidBase()) && ValidBase() && old(g.ValidBase())
      requires old(Disjoint(chain, g.chain)) && Elsewhere() && unchanged(g) && unchanged(g.buf)
      ensures Disjoint(chain, g.chain) && g.ValidChain() && g.data == old(g.data)
      ensures old(g.sect == 0 || g.sect in g.secs) ==> g.ValidBase()
      ensures g.ValidBase() <==> (g.sect in secs ==> fs.disk[g.sect] == old(fs.disk[g.sect]))
      ensures g.ValidBase() && old(g.Valid()) ==> g.Valid()
    {
      hide fs.ValidImage, Sectors, Distinct, InData, ClusterSector, Whole, ClusterIndex, IsChain;
      assert old(g.ValidChain());
      OtherApart(g);
      SectorsApart(fs.database, fs.csize, chain, g.chain);
      forall s: nat | fs.Outside(s) && s !in secs ensures fs.Sec(s) == old(fs.Sec(s)) {
        assert Now().whole[s] == fs.Sec(s) && old(Now().whole[s] == fs.Sec(s));
      }
      Beside((g, secs));
    }

    /** A file grows only by clusters which were free, so not by one of another file. */
    twostate lemma OtherApart(g: FileObj)
      requires g.fs == fs && old(fs.Valid()) && old(g.ValidChain()) && old(Disjoint(chain, g.chain)) && Elsewhere()
      requires unchanged(g)
      ensures Disjoint(chain, g.chain)
      ensures |fs.fat| == |old(fs.fat)| && forall c :: c in g.chain && c < |fs.fat| ==> fs.fat[c] == old(fs.fat)[c]
    {
      hide fs.Valid, Sectors, Distinct, InData, ClusterSector, Whole;
      forall c | c in g.chain ensures c !in chain && c < |fs.fat| && fs.fat[c] == old(fs.fat)[c] {
        var i :| 0 <= i < |g.chain| && g.chain[i] == c;
        assert old(Linked(fs.fat, g.chain, i));
      }
    }

    /** The write-back of the buffer, as each caller does it. */
    method FlushBuf()
      requires ValidBase()
      modifies this`dirty, fs.disk
      ensures Elsewhere()
      ensures ValidBase() && !dirty
    {
      hide OnlyFile;
      OnlyFileSame(fs, Now());
      if dirty {
        fs.DiskWrite(buf, 0, sect, 1);
        FileWritten((sect, 1));
        dirty := false;
      }
    }

    /** A FAT access keeps the sector in the buffer. */
    twostate lemma BufferKept()
      requires old(fs.Valid()) && old(BufferApart()) && fs.Valid() && fs.DataKept() && unchanged(this`sect)
      requires sect < fs.disk.Length
      ensures BufferApart() && (sect != 0 ==> fs.disk[sect] == old(fs.disk[sect]))
    {
      hide fs.ValidImage;
      if sect != 0 { assert fs.Sec(sect) == old(fs.Sec(sect)); }
    }

    /** A FAT access which keeps the links of the file keeps the file. */
    twostate lemma FatAccessKeepsFile()
      requires old(ValidBase()) && fs.Valid() && fs.DataKept()
      requires unchanged(this`sclust) && unchanged(this`chain) && unchanged(this`secs) && unchanged(this`dirty)
      requires unchanged(this`sect) && unchanged(this`objsize) && unchanged(this`data) && unchanged(buf)
      requires chain == [] || IsChain(fs.fat, chain)
      ensures ValidBase()
    {
      hide fs.Valid, Sectors, IsChain;
      fs.SectorSizes();
      BufferKept();
      forall k | 0 <= k < |secs| ensures fs.disk[secs[k]] == old(fs.disk[secs[k]]) && secs[k] != fs.winsect {
        assert fs.Sec(secs[k]) == old(fs.Sec(secs[k]));
      }
    }

    /** The sector under the cursor, once clust is its cluster. */
    lemma CursorSector(k: nat)
      requires ValidBase() && k < |secs|
      ensures var i := ClusterIndex(fs.csize, k);
              && i < |chain| && 2 <= chain[i] < fs.nFatent
              && secs[k] == fs.Clst2Sect(chain[i]) + ClusterOffset(fs.csize, k) && secs[k] < fs.disk.Length
              && fs.Clst2Sect(chain[i]) != 0
    {
      hide fs.Valid, IsChain, Sectors, ClusterIndex, ClusterOffset, ClusterSector;
      SectorOfFile(fs.database, fs.csize, chain, k);
    }

    /** The part of f_read at a sector boundary which finds the current sector. */
    method LocateRead() returns (s: nat)
      requires Valid() && fptr % 512 == 0 && fptr < objsize
      modifies this`clust, fs`winsect, fs`wflag, fs.disk, fs.win
      ensures Elsewhere()
      ensures ValidBase() && Here() && s == secs[fptr / 512]
    {
      hide fs.Valid, Sectors, ClusterIndex, ClusterOffset, ClusterSector;
      hide OnlyFile;
      OnlyFileSame(fs, Now());
      ghost var k := fptr / 512;
      CursorSector(k);
      FirstSector(fs.csize);
      if fptr > 0 {
        SectorBefore(fptr);
        BoundaryIndex(fs.csize, k);
      }
      var csect := ClusterOffset(fs.csize, fptr / 512);
      if csect == 0 {
        var clst := sclust;
        if fptr != 0 {
          assert Linked(fs.fat, chain, ClusterIndex(fs.csize, k - 1));
          clst := fs.GetFat(clust);
          FatAccessKeepsFile();
          FatRead();
        }
        if clst < 2 { assert false; }   // never reached: FR_INT_ERR of f_read
        clust := clst;
      }
      s := fs.Clst2Sect(clust);
      if s == 0 { assert false; }       // never reached: FR_INT_ERR of f_read
      s := s + csect;
    }

    /** The cc sectors of the file from k on are in b, from off on. */
    ghost predicate Fetched(b: seq<Byte>, off: nat, cc: nat, k: nat)
      requires ValidBuffer() && off + 512 * cc <= |b| && k + cc <= |secs|
      reads this`secs, this`dirty, this`sect, buf, fs.disk
    {
      forall y :: off <= y < off + 512 * cc ==> b[y] == Stored(k + (y - off) / 512)[(y - off) % 512]
    }

    /** disk_read of cc sectors of the file into dst[off..]; a dirty buffer replaces its stale sector. */
    method FetchSectors(dst: array<Byte>, off: nat, s: nat, cc: nat, ghost k: nat)
      requires ValidBase() && dst != buf && dst != fs.win && off + 512 * cc <= dst.Length
      requires k + cc <= |secs| && 0 < cc && forall q :: k <= q < k + cc ==> secs[q] == s + (q - k)
      modifies dst
      ensures ValidBase() && Fetched(dst[..], off, cc, k)
      ensures forall y :: 0 <= y < off ==> dst[y] == old(dst[y])
    {
      hide ValidBase, Fetched;
      FetchRange(s, cc, k);
      fs.DiskRead(dst, off, s, cc);
      if dirty && (sect - s) % 0x1_0000_0000 < cc {
        var at := off + (sect - s) * 512;
        forall x | 0 <= x < 512 {
          dst[at + x] := buf[x];
        }
      }
      BaseBuffer();
      FetchDone(dst[..], off, s, cc, k);
    }

    lemma FetchRange(s: nat, cc: nat, k: nat)
      requires ValidBase() && k + cc <= |secs| && 0 < cc && forall q :: k <= q < k + cc ==> secs[q] == s + (q - k)
      ensures s + cc <= fs.disk.Length
      ensures dirty && (sect - s) % 0x1_0000_0000 < cc ==> s <= sect < s + cc
      ensures dirty && !((sect - s) % 0x1_0000_0000 < cc) ==> !(s <= sect < s + cc)
    {
      hide fs.Valid, ValidChain;
      assert secs[k + cc - 1] == s + cc - 1;
    }

    lemma FetchDone(b: seq<Byte>, off: nat, s: nat, cc: nat, k: nat)
      requires ValidBuffer() && off + 512 * cc <= |b| && s + cc <= fs.disk.Length
      requires k + cc <= |secs| && forall q :: k <= q < k + cc ==> secs[q] == s + (q - k)
      requires forall y :: off <= y < off + 512 * cc ==>
        var at := off + (sect - s) * 512;
        b[y] == if dirty && s <= sect < s + cc && at <= y < at + 512 then buf[y - at]
          else fs.disk[s + (y - off) / 512][(y - off) % 512]
      ensures Fetched(b, off, cc, k)
    {
      forall y | off <= y < off + 512 * cc ensures b[y] == Stored(k + (y - off) / 512)[(y - off) % 512] {
        var q := (y - off) / 512;
        assert secs[k + q] == s + q;
      }
    }

    /** The bytes of whole sectors of the file. */
    lemma StoredIsData(dst: seq<Byte>, off: nat, cc: nat)
      requires ValidBase() && off + 512 * cc <= |dst| && fptr % 512 == 0 && fptr + 512 * cc <= objsize
      requires fptr / 512 + cc <= |secs| && Fetched(dst, off, cc, fptr / 512)
      ensures dst[off..off + 512 * cc] == data[fptr..fptr + 512 * cc]
    {
      hide fs.Valid, ValidChain;
      forall y | off <= y < off + 512 * cc ensures dst[y] == data[fptr + (y - off)] {
        SectorOfByte(fptr, y - off);
      }
    }

    /** f_read, whole sectors straight into the caller's buffer. */
    method ReadDirect(dst: array<Byte>, off: nat, s: nat, cc: nat)
      requires ValidBase() && dst != buf && dst != fs.win && off + 512 * cc <= dst.Length
      requires fptr % 512 == 0 && fptr + 512 * cc <= objsize && 0 < cc
      requires fptr / 512 < |secs| && s == secs[fptr / 512] && ClusterOffset(fs.csize, fptr / 512) + cc <= fs.csize
      modifies dst
      ensures ValidBase()
      ensures dst[..off] == old(dst[..off]) && dst[off..off + 512 * cc] == data[fptr..fptr + 512 * cc]
    {
      ConsecutiveRun(fptr / 512, cc);
      hide ValidBase, ClusterOffset, Stored, Fetched;
      BaseBuffer();
      FetchSectors(dst, off, s, cc, fptr / 512);
      StoredIsData(dst[..], off, cc);
    }

    lemma BaseBuffer()
      requires ValidBase()
      ensures ValidBuffer()
    {
    }

    /** Consecutive sectors of the file inside one cluster are consecutive on the disk. */
    lemma ConsecutiveRun(k: nat, cc: nat)
      requires ValidBase() && k < |secs| && ClusterOffset(fs.csize, k) + cc <= fs.csize
      ensures k + cc <= |secs|
      ensures forall q :: k <= q < k + cc ==> secs[q] == secs[k] + (q - k)
    {
      hide fs.Valid, Sectors, ClusterOffset, IsChain;
      forall q | k <= q < k + cc ensures q < |secs| && secs[q] == secs[k] + (q - k) {
        SectorsConsecutive(fs.database, fs.csize, chain, k, q - k);
      }
      if cc > 0 { SectorsConsecutive(fs.database, fs.csize, chain, k, cc - 1); }
    }

    /** f_read: bring sector s of the file into the buffer. */
    method LoadForRead(s: nat, ghost k: nat)
      requires ValidBase() && k < |secs| && s == secs[k]
      modifies this`dirty, this`sect, buf, fs.disk
      ensures Elsewhere()
      ensures ValidBase() && sect == s
    {
      hide ValidBase, OnlyFile, Now;
      OnlyFileSame(fs, Now());
      if sect != s {
        FlushBuf();
        LoadBuffer(s, k);
      }
      sect := s;
    }

    /** disk_read of sector s of the file into the clean buffer. */
    method LoadBuffer(s: nat, ghost k: nat)
      requires ValidBase() && !dirty && k < |secs| && s == secs[k]
      modifies this`sect, buf
      ensures ValidBase() && sect == s
    {
      hide fs.Valid, ValidChain;
      ghost var before := data;
      fs.DiskRead(buf, 0, s, 1);
      sect := s;
      assert buf[..] == fs.disk[s];
      OwnSector(k);
    }

    /** f_read. */
    method Read(dst: array<Byte>, btr: nat) returns (res: FResult, br: nat)
      requires err == Ok ==> Valid()
      requires dst != buf && dst != fs.win && btr <= dst.Length
      modifies this`fptr, this`clust, this`dirty, this`sect, buf, dst, fs`winsect, fs`wflag, fs.disk, fs.win
      ensures Elsewhere()
      ensures err != Ok ==> res == err && br == 0
      ensures err == Ok && !canRead ==> res == Denied && br == 0
      ensures res != Ok ==> fptr == old(fptr)
      ensures err == Ok ==> Valid()
      // the bytes from the cursor on, as many as asked for or left
      ensures err == Ok && canRead ==>
        && res == Ok && br == (if btr <= objsize - old(fptr) then btr else objsize - old(fptr))
        && fptr == old(fptr) + br && dst[..br] == data[old(fptr)..old(fptr) + br]
    {
      hide Valid, ValidBase, CursorAfter, OnlyFile, Now;
      OnlyFileSame(fs, Now());
      br := 0;
      if err != Ok { return err, br; }
      if !canRead { return Denied, br; }
      var remain := objsize - fptr;
      var left := if btr > remain then remain else btr;
      ghost var want := left;
      while left > 0
        invariant Valid() && Elsewhere()
        invariant 0 <= left && br + left == want && fptr == old(fptr) + br && fptr + left <= objsize
        invariant dst[..br] == data[old(fptr)..old(fptr) + br]
      {
        ghost var v := Now();
        var rcnt := ReadStep(dst, br, left);
        OnlyFileTwice(fs, old(Now()), v, Now());
        SliceJoin(data, old(fptr), fptr - rcnt, fptr);
        left := left - rcnt;
        br := br + rcnt;
      }
      res := Ok;
    }

    /** One round of the loop of f_read. */
    method ReadStep(dst: array<Byte>, off: nat, left: nat) returns (rcnt: nat)
      requires Valid() && 0 < left && fptr + left <= objsize
      requires dst != buf && dst != fs.win && off + left <= dst.Length
      modifies this`fptr, this`clust, this`dirty, this`sect, buf, dst, fs`winsect, fs`wflag, fs.disk, fs.win
      ensures Elsewhere()
      ensures 0 < rcnt <= left && fptr == old(fptr) + rcnt && Valid()
      ensures dst[..off + rcnt] == old(dst[..off]) + data[old(fptr)..fptr]
    {
      hide Valid, ValidBase, CursorAfter, OnlyFile, Now;
      rcnt := ReadPiece(dst, off, left);
      assert dst[..off + rcnt] == dst[..off] + dst[off..off + rcnt];
      Advance(rcnt);
    }

    /** fptr += n. */
    method Advance(n: nat)
      requires ValidBase() && fptr + n <= objsize && CursorAfter(fptr + n)
      modifies this`fptr
      ensures Valid() && fptr == old(fptr) + n
    {
      hide ValidBase, CursorAfter;
      fptr := fptr + n;
    }

    /** clust is the cluster of the sector under the cursor. */
    ghost predicate Here()
      requires 0 < fs.csize
      reads this`fptr, this`chain, this`secs, this`clust
    {
      && fptr / 512 < |secs|
      && var i := ClusterIndex(fs.csize, fptr / 512);
      && i < |chain| && clust == chain[i]
    }

    /** Moving on over cc sectors of the current cluster. */
    lemma HereToSectors(cc: nat)
      requires 0 < fs.csize && Here() && fptr % 512 == 0 && 0 < cc
      requires ClusterOffset(fs.csize, fptr / 512) + cc <= fs.csize
      ensures CursorAfter(fptr + 512 * cc)
    {
      hide ClusterIndex, ClusterOffset;
      AfterSectors(fs.csize, fptr, cc);
    }

    /** Moving on inside the sector in the buffer. */
    lemma HereToPart(n: nat)
      requires 0 < fs.csize && Here() && sect == secs[fptr / 512] && 0 < n <= 512 - fptr % 512
      ensures CursorAfter(fptr + n)
    {
      hide ClusterIndex;
      AfterPart(fptr, n);
    }

    /** Off a sector boundary the cursor has its sector in the buffer already. */
    lemma MidSector()
      requires Valid() && fptr % 512 != 0
      ensures Here() && sect == secs[fptr / 512]
    {
      hide ValidBase, ClusterIndex;
      SameSectorOffset(fptr);
    }

    /** One round of the loop of f_read, up to the advance of the cursor. */
    method ReadPiece(dst: array<Byte>, off: nat, left: nat) returns (rcnt: nat)
      requires Valid() && 0 < left && fptr + left <= objsize
      requires dst != buf && dst != fs.win && off + left <= dst.Length
      modifies this`clust, this`dirty, this`sect, buf, dst, fs`winsect, fs`wflag, fs.disk, fs.win
      ensures Elsewhere()
      ensures 0 < rcnt <= left
      ensures dst[..off] == old(dst[..off]) && dst[off..off + rcnt] == data[fptr..fptr + rcnt]
      ensures ValidBase() && CursorAfter(fptr + rcnt)
    {
      hide Valid, ValidBase, ClusterIndex, ClusterOffset, CursorAfter;
      hide OnlyFile, Now;
      ghost var v := Now();
      OnlyFileSame(fs, v);
      if fptr % 512 == 0 {
        var s := LocateRead();
        ghost var v1 := Now();
        if left / 512 > 0 {
          rcnt := ReadWhole(dst, off, left, s);
          return;
        }
        LoadForRead(s, fptr / 512);
        OnlyFileTwice(fs, v, v1, Now());
      } else {
        MidSector();
      }
      rcnt := ReadPart(dst, off, left);
    }

    /** f_read, what is left of the sector in the buffer. */
    method ReadPart(dst: array<Byte>, off: nat, left: nat) returns (rcnt: nat)
      requires ValidBase() && 0 < left && fptr + left <= objsize && Here() && sect == secs[fptr / 512]
      requires dst != buf && dst != fs.win && off + left <= dst.Length
      modifies dst
      ensures 0 < rcnt <= left && ValidBase() && CursorAfter(fptr + rcnt)
      ensures dst[..off] == old(dst[..off]) && dst[off..off + rcnt] == data[fptr..fptr + rcnt]
    {
      hide ValidBase, ClusterIndex, ClusterOffset, CursorAfter;
      rcnt := 512 - fptr % 512;
      if rcnt > left { rcnt := left; }
      CopyOut(dst, off, rcnt);
      HereToPart(rcnt);
    }

    /** f_read, as many whole sectors as are left to read and lie in the current cluster. */
    method ReadWhole(dst: array<Byte>, off: nat, left: nat, s: nat) returns (rcnt: nat)
      requires ValidBase() && 512 <= left && fptr + left <= objsize && fptr % 512 == 0
      requires dst != buf && dst != fs.win && off + left <= dst.Length
      requires Here() && s == secs[fptr / 512]
      modifies dst
      ensures 0 < rcnt <= left && ValidBase() && CursorAfter(fptr + rcnt)
      ensures dst[..off] == old(dst[..off]) && dst[off..off + rcnt] == data[fptr..fptr + rcnt]
    {
      hide ValidBase, ClusterIndex, ClusterOffset, CursorAfter;
      var csect := ClusterOffset(fs.csize, fptr / 512);
      var cc := left / 512;
      if csect + cc > fs.csize { cc := fs.csize - csect; }
      ReadDirect(dst, off, s, cc);
      HereToSectors(cc);
      rcnt := 512 * cc;
    }

    /** f_read, part of a sector out of the buffer. */
    method CopyOut(dst: array<Byte>, off: nat, rcnt: nat)
      requires ValidBase() && dst != buf && dst != fs.win && off + rcnt <= dst.Length
      requires fptr + rcnt <= objsize && 0 < rcnt <= 512 - fptr % 512 && sect == secs[fptr / 512]
      modifies dst
      ensures ValidBase()
      ensures dst[..off] == old(dst[..off]) && dst[off..off + rcnt] == data[fptr..fptr + rcnt]
    {
      BufferBytes(rcnt);
      hide ValidBase;
      var at := fptr % 512;
      forall x | 0 <= x < rcnt {
        dst[off + x] := buf[at + x];
      }
      assert dst[off..off + rcnt] == buf[at..at + rcnt];
    }

    /** The bytes of the file in the sector the buffer has. */
    lemma BufferBytes(n: nat)
      requires ValidBase() && fptr / 512 < |secs| && sect == secs[fptr / 512] && fptr % 512 + n <= 512
      requires fptr + n <= objsize
      ensures data[fptr..fptr + n] == buf[fptr % 512..fptr % 512 + n]
    {
      hide ValidBase;
      var l, r := data[fptr..fptr + n], buf[fptr % 512..fptr % 512 + n];
      forall x | 0 <= x < n ensures l[x] == r[x] { BufferByte(x); }
    }

    /** A byte of the file in the sector the buffer has. */
    lemma BufferByte(x: nat)
      requires ValidBase() && fptr / 512 < |secs| && sect == secs[fptr / 512] && fptr % 512 + x < 512
      requires fptr + x < objsize
      ensures data[fptr + x] == buf[fptr % 512 + x]
    {
      hide fs.Valid, ValidChain;
      PartOfSector(fptr, x);
      assert data[fptr + x] == Stored(fptr / 512)[fptr % 512 + x];
    }

    /** The cursor may be put at p: clust is the cluster of the byte before p, and off a sector boundary the buffer
        holds the sector of p. */
    ghost predicate CursorAfter(p: nat)
      requires 0 < fs.csize
      reads this`chain, this`secs, this`clust, this`sect
    {
      && (p > 0 ==>
          var i := ClusterIndex(fs.csize, (p - 1) / 512);
          i < |chain| && clust == chain[i])
      && (p % 512 != 0 ==> p / 512 < |secs| && sect == secs[p / 512])
    }

    // ----- f_write -----

    /** create_chain can find no free cluster. */
    ghost predicate Full()
      reads fs`freeClst, fs`fat
    {
      fs.freeClst == 0 || NoneFree(fs.fat)
    }

    /** What create_chain will see at a cluster boundary. */
    lemma BoundaryCluster()
      requires Valid() && fptr % 512 == 0 && ClusterOffset(fs.csize, fptr / 512) == 0
      ensures var i := ClusterIndex(fs.csize, fptr / 512);
              && i <= |chain| && (i < |chain| <==> fptr / 512 < |secs|)
              && (fptr == 0 ==> i == 0)
              && (fptr > 0 ==>
                  && i > 0 && clust == chain[i - 1] && 2 <= clust < fs.nFatent
                  && fs.fat[clust] >= 2
                  && if i < |chain| then fs.fat[clust] == chain[i] < fs.nFatent else fs.fat[clust] >= fs.nFatent)
      ensures sclust == 0 <==> chain == []
      ensures chain != [] ==> sclust == chain[0] >= 2 && IsChain(fs.fat, chain)
    {
      hide fs.Valid, Sectors, ClusterIndex, ClusterOffset, ClusterSector;
      var k := fptr / 512;
      var i := ClusterIndex(fs.csize, k);
      assert k <= |secs|;
      SectorInChain(fs.database, fs.csize, chain, k);
      FirstSector(fs.csize);
      if chain != [] { assert Linked(fs.fat, chain, 0); }
      if fptr > 0 {
        SectorBefore(fptr);
        BoundaryIndex(fs.csize, k);
        assert Linked(fs.fat, chain, i - 1);
        if i < |chain| { assert Linked(fs.fat, chain, i); }
      }
    }

    /** A cluster added by create_chain at the end of the file keeps the bytes of the file. */
    twostate lemma GrowKeepsFile(ncl: nat)
      requires old(ValidBase()) && fs.Valid() && fs.DataKept() && fs.InFat1(fs.winsect)
      requires unchanged(this`dirty) && unchanged(this`sect) && unchanged(this`objsize) && unchanged(this`data)
      requires unchanged(buf)
      requires chain == old(chain) + [ncl] && sclust == chain[0]
      requires IsChain(fs.fat, chain)
      requires InData(fs.database, fs.csize, chain) ==> secs == Sectors(fs.database, fs.csize, chain)
      ensures ValidBase() && old(secs) <= secs
    {
      hide fs.Valid, Sectors, IsChain;
      fs.SectorSizes();
      BufferKept();
      ChainGivesSectors(fs, chain);
      SectorsGrow(fs.database, fs.csize, old(chain), ncl);
      assert old(secs) <= secs;
      forall k | 0 <= k < |old(secs)| ensures fs.disk[secs[k]] == old(fs.disk[secs[k]]) {
        assert secs[k] == old(secs)[k];
        assert fs.Sec(secs[k]) == old(fs.Sec(secs[k]));
      }
    }

    /** The part of f_write at a cluster boundary: the cluster under the cursor, which create_chain adds if the file has
        none there; 0 if the disk is full, 1 for a damaged FAT. */
    method NextCluster() returns (clst: nat)
      requires Valid() && fptr % 512 == 0 && ClusterOffset(fs.csize, fptr / 512) == 0
      modifies this`clust, this`sclust, this`chain, this`secs, fs, fs.disk, fs.win
      ensures Elsewhere()
      ensures clst == 0 ==> Full()
      ensures clst == 1 ==> !NoOnes(fs.fat)
      ensures clst < 2 ==> Valid() && chain == old(chain)
      ensures clst >= 2 ==> ValidBase() && Here()
      ensures old(chain) <= chain
      ensures old(CountOk(fs.fat, fs.freeClst)) ==> CountOk(fs.fat, fs.freeClst)
      ensures clst == 0 ==> old(Full())
    {
      hide fs.Valid, Sectors, ClusterIndex, ClusterOffset, ClusterSector, IsChain, ValidBase, OnlyFile, Now, CountOk;
      OnlyFileSame(fs, Now());
      ghost var i := ClusterIndex(fs.csize, fptr / 512);
      BoundaryCluster();
      if fptr == 0 && sclust != 0 {
        clst := sclust;
      } else {
        clst := Extend(if fptr == 0 then 0 else clust, i);
      }
      if clst < 2 { return; }
      clust := clst;
      HereFromIndex();
    }

    lemma ExtendFrom(clst: nat, i: nat)
      requires ValidBase() && i <= |chain| && if i == 0 then clst == 0 && chain == [] else clst == chain[i - 1]
      ensures chain == [] || IsChain(fs.fat, chain)
      ensures sclust == 0 <==> chain == []
      ensures chain != [] ==> sclust == chain[0]
      ensures i > 0 ==>
        && 2 <= clst < fs.nFatent && fs.fat[clst] >= 2
        && if i < |chain| then fs.fat[clst] == chain[i] < fs.nFatent else fs.fat[clst] >= fs.nFatent
    {
      hide fs.Valid, Sectors;
      if chain != [] { assert Linked(fs.fat, chain, 0); }
      if i > 0 {
        assert Linked(fs.fat, chain, i - 1);
        if i < |chain| { assert Linked(fs.fat, chain, i); }
      }
    }

    /** create_chain for cluster i of the file, after cluster clst (0 for an empty file): follows the chain, or adds a
        cluster to it. An empty file gets its start cluster. */
    method Extend(clst: nat, ghost i: nat) returns (ncl: nat)
      requires ValidBase() && i <= |chain| && if i == 0 then clst == 0 && chain == [] else clst == chain[i - 1]
      modifies this`sclust, this`chain, this`secs, fs, fs.disk, fs.win
      ensures Elsewhere()
      ensures ValidBase() && old(chain) <= chain
      ensures ncl == 0 ==> Full()
      ensures ncl == 1 ==> !NoOnes(fs.fat)
      ensures ncl < 2 ==> chain == old(chain) && secs == old(secs) && sclust == old(sclust)
      ensures ncl >= 2 ==> i < |chain| && ncl == chain[i] && ncl < fs.nFatent
      ensures old(sclust) != 0 ==> sclust == old(sclust)
      ensures old(CountOk(fs.fat, fs.freeClst)) ==> CountOk(fs.fat, fs.freeClst)
      ensures ncl == 0 ==> old(Full()) && fs.fat == old(fs.fat) && fs.freeClst == old(fs.freeClst)
    {
      hide fs.Valid, Sectors, ClusterSector, IsChain, Apply, ValidBase, CountOk;
      hide OnlyFile;
      ExtendFrom(clst, i);
      ncl := fs.CreateChain(clst);
      if ncl < 2 {
        FatAccessKeepsFile();
        FatRead();
        return;
      }
      if sclust == 0 { sclust := ncl; }
      if i < |chain| {
        FatAccessKeepsFile();
        FatRead();
      } else {
        AppendedChain(old(fs.fat), chain, ncl, Eoc(fs.fmt));
        chain := chain + [ncl];
        ChainGivesSectors(fs, chain);
        secs := Sectors(fs.database, fs.csize, chain);
        GrowKeepsFile(ncl);
        FatGrown((clst, ncl));
      }
    }

    lemma HereFromIndex()
      requires ValidBase()
      requires var i := ClusterIndex(fs.csize, fptr / 512); i < |chain| && clust == chain[i]
      ensures Here()
    {
      hide fs.Valid, Sectors, ClusterIndex;
      SectorInChain(fs.database, fs.csize, chain, fptr / 512);
    }

    /** The part of f_write at a sector boundary: find or add the cluster, write the buffer back, compute the sector.
        code is 0 for a full disk, 1 for a damaged FAT. */
    method LocateWrite() returns (code: nat, s: nat)
      requires Valid() && fptr % 512 == 0
      modifies this`clust, this`sclust, this`chain, this`secs, this`dirty, fs, fs.disk, fs.win
      ensures Elsewhere()
      ensures code == 0 ==> Full()
      ensures code == 1 ==> !NoOnes(fs.fat)
      ensures code < 2 ==> Valid()
      ensures code >= 2 ==> ValidBase() && Here() && !dirty && s == secs[fptr / 512]
      ensures old(chain) <= chain
      ensures old(CountOk(fs.fat, fs.freeClst)) ==> CountOk(fs.fat, fs.freeClst)
      ensures code == 0 ==> old(Full())
    {
      hide fs.Valid, ValidBase, ClusterOffset, ClusterSector, ClusterIndex, IsChain, OnlyFile, Now, CountOk;
      OnlyFileSame(fs, Now());
      code, s := 2, 0;
      var csect := ClusterOffset(fs.csize, fptr / 512);
      if csect == 0 {
        code := NextCluster();
        if code < 2 { return; }
      } else {
        InsideCluster();
      }
      ghost var v := Now();
      FlushBuf();
      OnlyFileTwice(fs, old(Now()), v, Now());
      CursorSector(fptr / 512);
      s := fs.Clst2Sect(clust);
      if s == 0 { assert false; }   // never reached: FR_INT_ERR of f_write
      s := s + csect;
    }

    /** At a sector boundary inside a cluster the cursor is in that cluster. */
    lemma InsideCluster()
      requires Valid() && fptr % 512 == 0 && ClusterOffset(fs.csize, fptr / 512) != 0
      ensures Here()
    {
      hide fs.Valid, Sectors, ClusterIndex, ClusterOffset, ClusterSector;
      FirstSector(fs.csize);
      SectorBefore(fptr);
      BoundaryIndex(fs.csize, fptr / 512);
      SectorInChain(fs.database, fs.csize, chain, fptr / 512);
    }

    /** The sectors of the file outside a run of consecutive ones lie outside it on the disk, too, and the window does
        not hold any sector of the run. */
    lemma OutsideOfRun(k: nat, cc: nat)
      requires ValidBase() && 0 < cc && k + cc <= |secs| && forall q :: k <= q < k + cc ==> secs[q] == secs[k] + (q - k)
      ensures forall q :: 0 <= q < |secs| && !(k <= q < k + cc) ==> !(secs[k] <= secs[q] < secs[k] + cc)
      ensures fs.database <= secs[k] && secs[k] + cc <= fs.disk.Length && !(secs[k] <= fs.winsect < secs[k] + cc)
    {
      hide fs.Valid, Sectors, IsChain;
      var s, run := secs[k], secs[k..k + cc];
      assert secs[k + cc - 1] == s + cc - 1;
      forall x | s <= x < s + cc ensures x in run {
        assert run[x - s] == x;
      }
      forall q | 0 <= q < |secs| && !(k <= q < k + cc) ensures !(s <= secs[q] < s + cc) {
        assert secs[q] !in run;
      }
      assert fs.winsect !in run;
    }

    /** The disk holds the bytes b at the cc sectors of the file from k on. */
    ghost predicate RunWritten(b: seq<Byte>, off: nat, k: nat, cc: nat)
      requires off + 512 * cc <= |b| && k + cc <= |secs| && forall q :: k <= q < k + cc ==> secs[q] < fs.disk.Length
      reads this`secs, fs.disk
    {
      forall q :: k <= q < k + cc ==> fs.disk[secs[q]] == Block(b, off, q - k)
    }

    /** disk_write of cc sectors of the file. */
    method WriteRun(src: array<Byte>, off: nat, s: nat, cc: nat, ghost k: nat)
      requires ValidBase() && off + 512 * cc <= src.Length && 0 < cc
      requires k + cc <= |secs| && s == secs[k] && forall q :: k <= q < k + cc ==> secs[q] == s + (q - k)
      modifies fs.disk
      ensures Elsewhere()
      ensures fs.Valid() && s + cc <= fs.disk.Length < 0x1_0000_0000
      ensures forall x :: 0 <= x < fs.disk.Length ==> |fs.disk[x]| == 512
      ensures forall q :: k <= q < k + cc ==> fs.disk[secs[q]] == Block(src[..], off, q - k)
      ensures forall q :: 0 <= q < |secs| && !(k <= q < k + cc) ==> fs.disk[secs[q]] == old(fs.disk[secs[q]])
      ensures !(s <= sect < s + cc) && sect < fs.disk.Length ==> fs.disk[sect] == old(fs.disk[sect])
    {
      hide fs.Valid, ValidData, Sectors, IsChain, InData;
      OutsideOfRun(k, cc);
      fs.DiskWrite(src, off, s, cc);
      fs.SectorSizes();
      forall x: nat | s <= x < s + cc ensures x in secs { assert secs[k + (x - s)] == x; }
      FileWritten((s, cc));
    }

    /** f_write refills the sector buffer if the direct write has made it stale. */
    method Refill(src: array<Byte>, off: nat, s: nat, cc: nat, ghost k: nat)
      requires src != buf && off + 512 * cc <= src.Length && buf.Length == 512 && buf != fs.win
      requires s + cc <= fs.disk.Length < 0x1_0000_0000 && forall x :: 0 <= x < fs.disk.Length ==> |fs.disk[x]| == 512
      requires forall i :: 0 <= i < |secs| ==> 0 < secs[i] < fs.disk.Length
      requires Distinct(secs) && 0 < cc && k + cc <= |secs| && s == secs[k]
      requires forall q :: k <= q < k + cc ==> secs[q] == s + (q - k)
      requires !dirty && (sect != 0 ==> sect < fs.disk.Length)
      requires RunWritten(src[..], off, k, cc)
      requires sect != 0 && !(s <= sect < s + cc) ==> buf[..] == fs.disk[sect]
      modifies this`dirty, buf
      ensures ValidBuffer() && !dirty
    {
      if (sect - s) % 0x1_0000_0000 < cc {
        assert s <= sect < s + cc && secs[k + (sect - s)] == sect;
        var at := off + (sect - s) * 512;
        forall x | 0 <= x < 512 {
          buf[x] := src[at + x];
        }
        dirty := false;
        assert buf[..] == Block(src[..], off, sect - s);
      }
    }

    /** disk_write of cc sectors of the file, and the refill of a stale sector buffer. */
    method WriteSectors(src: array<Byte>, off: nat, s: nat, cc: nat, ghost k: nat)
      requires ValidBase() && !dirty && src != buf && off + 512 * cc <= src.Length && 0 < cc
      requires k + cc <= |secs| && s == secs[k] && forall q :: k <= q < k + cc ==> secs[q] == s + (q - k)
      modifies this`dirty, buf, fs.disk
      ensures Elsewhere()
      ensures fs.Valid() && ValidChain() && ValidBuffer() && BufferApart() && !dirty
      ensures RunWritten(src[..], off, k, cc)
      ensures forall q :: 0 <= q < |secs| && !(k <= q < k + cc) ==> fs.disk[secs[q]] == old(fs.disk[secs[q]])
    {
      hide fs.Valid, Sectors, IsChain, InData, Block, OnlyFile, Now;
      WriteRun(src, off, s, cc, k);
      Refill(src, off, s, cc, k);
    }

    /** f_write, whole sectors straight from the caller's buffer. */
    method WriteDirect(src: array<Byte>, off: nat, s: nat, cc: nat)
      requires ValidBase() && !dirty && fptr <= objsize && fptr + 512 * cc < 0x1_0000_0000
      requires src != buf && off + 512 * cc <= src.Length && 0 < cc
      requires fptr % 512 == 0 && Here() && s == secs[fptr / 512]
      requires ClusterOffset(fs.csize, fptr / 512) + cc <= fs.csize
      modifies this`objsize, this`data, this`dirty, buf, fs.disk
      ensures Elsewhere()
      ensures ValidBase() && !dirty && fptr + 512 * cc <= objsize
      ensures data == Splice(old(data), fptr, src[off..off + 512 * cc])
    {
      hide fs.Valid, ValidChain, ValidBuffer, BufferApart, ValidData, ClusterOffset, ClusterIndex, Splice, Block;
      hide OnlyFile, Now, RunWritten;
      ghost var k, w, was := fptr / 512, src[off..off + 512 * cc], fs.disk[..];
      BytesOnDisk();
      ConsecutiveRun(k, cc);
      WriteSectors(src, off, s, cc, k);
      objsize := if fptr + 512 * cc > objsize then fptr + 512 * cc else objsize;
      data := Splice(data, fptr, w);
      RunIn(old(data), was, src[..], off, cc);
    }

    /** With a clean buffer the bytes of the file are on the disk. */
    lemma BytesOnDisk()
      requires ValidBase() && !dirty
      ensures |data| <= 512 * |secs| && forall i :: 0 <= i < |secs| ==> secs[i] < fs.disk.Length
      ensures forall p :: 0 <= p < |data| ==>
        p / 512 < |secs| && p % 512 < |fs.disk[secs[p / 512]]| && data[p] == fs.disk[secs[p / 512]][p % 512]
    {
    }

    /** cc sectors of src have gone to the disk, which held was, and into the file, which held d. */
    lemma RunIn(d: seq<Byte>, was: seq<seq<Byte>>, src: seq<Byte>, off: nat, cc: nat)
      requires ValidBuffer() && !dirty && fptr <= |d| <= 512 * |secs| && fptr % 512 == 0 && off + 512 * cc <= |src|
      requires fptr / 512 + cc <= |secs| && |was| == fs.disk.Length && RunWritten(src, off, fptr / 512, cc)
      requires forall p :: 0 <= p < |d| ==>
        p % 512 < |was[secs[p / 512]]| && d[p] == was[secs[p / 512]][p % 512]
      requires forall q :: 0 <= q < |secs| && !(fptr / 512 <= q < fptr / 512 + cc) ==> fs.disk[secs[q]] == was[secs[q]]
      requires data == Splice(d, fptr, src[off..off + 512 * cc]) && objsize == |data| < 0x1_0000_0000
      ensures ValidData() && fptr + 512 * cc <= objsize
    {
      hide Splice, Block;
      var k, w := fptr / 512, src[off..off + 512 * cc];
      forall q | k <= q < k + cc ensures fs.disk[secs[q]] == w[512 * (q - k)..512 * (q - k) + 512] {
        BlockOfSlice(src, off, cc, q - k);
      }
      forall p | 0 <= p < |data| ensures p / 512 < |secs| && data[p] == Stored(p / 512)[p % 512] {
        SplicedRun(d, fptr, w, cc, p);
      }
    }

    /** The buffer is to become sector k of the file: it has the bytes of the file there, and the disk has the other
        ones. */
    ghost predicate BufferHolds(k: nat)
      requires buf.Length == 512
      reads this`secs, this`data, this`sect, buf, fs.disk
    {
      && (forall s :: 0 <= s < fs.disk.Length ==> |fs.disk[s]| == 512)
      && (forall i :: 0 <= i < |secs| ==> 0 < secs[i] < fs.disk.Length)
      && Distinct(secs) && k < |secs| && sect == secs[k] && |data| <= 512 * |secs|
      && (forall p :: 0 <= p < |data| && p / 512 != k ==> data[p] == fs.disk[secs[p / 512]][p % 512])
      && (forall p :: 0 <= p < |data| && p / 512 == k ==> data[p] == buf[p % 512])
    }

    lemma BufferReady(k: nat)
      requires ValidBase() && k < |secs| && sect == secs[k]
      ensures BufferHolds(k)
    {
      hide fs.Valid, Sectors, IsChain;
      forall p | 0 <= p < |data|
        ensures data[p] == if p / 512 == k then buf[p % 512] else fs.disk[secs[p / 512]][p % 512]
      {
        assert data[p] == Stored(p / 512)[p % 512];
        assert p / 512 != k ==> secs[p / 512] != secs[k];
      }
    }

    lemma OwnSector(k: nat)
      requires ValidChain() && k < |secs| && sect == secs[k]
      ensures BufferApart()
    {
    }

    /** f_write, part of a sector into the buffer. */
    method CopyIn(src: array<Byte>, off: nat, wcnt: nat)
      requires fs.Valid() && ValidChain() && buf.Length == 512 && buf != fs.win && 0 < fs.csize
      requires BufferHolds(fptr / 512) && fptr <= objsize == |data| < 0x1_0000_0000 && fptr + wcnt < 0x1_0000_0000
      requires src != buf && off + wcnt <= src.Length && wcnt <= 512 - fptr % 512
      modifies this`objsize, this`data, this`dirty, buf
      ensures ValidBase() && fptr + wcnt <= objsize
      ensures data == Splice(old(data), fptr, src[off..off + wcnt])
    {
      hide fs.Valid, ValidChain, Splice;
      var at := fptr % 512;
      ghost var b, d := buf[..], data;
      forall x | 0 <= x < wcnt {
        buf[at + x] := src[off + x];
      }
      ghost var w := src[off..off + wcnt];
      Overwritten(b, buf[..], at, w);
      dirty := true;
      objsize := if fptr + wcnt > objsize then fptr + wcnt else objsize;
      data := Splice(data, fptr, w);
      CopiedIn(b, d, w);
      OwnSector(fptr / 512);
    }

    /** The bytes w have gone into the buffer, which held b before, and into the file, which held d. */
    lemma CopiedIn(b: seq<Byte>, d: seq<Byte>, w: seq<Byte>)
      requires buf.Length == 512 && buf != fs.win && dirty && |b| == 512 && fptr <= |d| && |w| <= 512 - fptr % 512
      requires (forall s :: 0 <= s < fs.disk.Length ==> |fs.disk[s]| == 512)
      requires (forall i :: 0 <= i < |secs| ==> 0 < secs[i] < fs.disk.Length)
      requires Distinct(secs) && fptr / 512 < |secs| && sect == secs[fptr / 512] && |d| <= 512 * |secs|
      requires forall p :: 0 <= p < |d| && p / 512 != fptr / 512 ==> d[p] == fs.disk[secs[p / 512]][p % 512]
      requires forall p :: 0 <= p < |d| && p / 512 == fptr / 512 ==> d[p] == b[p % 512]
      requires buf[..] == Splice(b, fptr % 512, w) && data == Splice(d, fptr, w) && objsize == |data| < 0x1_0000_0000
      ensures ValidData() && fptr + |w| <= objsize
    {
      var k := fptr / 512;
      forall q | 0 <= q < |secs| && q != k ensures secs[q] != sect { }
      PartEnd(fptr, |w|, |secs|);
      hide Splice, Distinct;
      assert sect in secs && |data| <= 512 * |secs|;
      forall p | 0 <= p < |data| ensures p / 512 < |secs| && data[p] == Stored(p / 512)[p % 512] {
        SplicedPart(d, fptr, w, b, p);
        assert p / 512 < |secs|;
      }
    }

    /** f_write at a sector boundary, less than a sector to write: fill the buffer unless it has the sector or the
        cursor is at the end of the file, then copy. */
    method StoreFirst(src: array<Byte>, off: nat, wcnt: nat, s: nat)
      requires ValidBase() && !dirty && fptr <= objsize && fptr + wcnt < 0x1_0000_0000
      requires src != buf && off + wcnt <= src.Length && wcnt <= 512
      requires fptr % 512 == 0 && fptr / 512 < |secs| && s == secs[fptr / 512]
      modifies this`objsize, this`data, this`dirty, this`sect, buf
      ensures ValidBase() && fptr + wcnt <= objsize && sect == s
      ensures data == Splice(old(data), fptr, src[off..off + wcnt])
    {
      hide fs.Valid, ValidChain, BufferHolds;
      if sect != s {
        if fptr < objsize {
          LoadBuffer(s, fptr / 512);
          BufferReady(fptr / 512);
        } else {
          sect := s;
          EndReady();
        }
      } else {
        BufferReady(fptr / 512);
      }
      sect := s;
      CopyIn(src, off, wcnt);
    }

    /** Past the last byte nothing of the sector matters. */
    twostate lemma EndReady()
      requires old(ValidBase()) && !old(dirty) && fptr == objsize && fptr % 512 == 0 && fptr / 512 < |secs|
      requires sect == secs[fptr / 512]
      requires unchanged(this`secs) && unchanged(this`data) && unchanged(this`objsize) && unchanged(buf)
      requires unchanged(fs.disk)
      ensures BufferHolds(fptr / 512)
    {
      hide fs.Valid, Sectors, IsChain;
      forall p | 0 <= p < |data| ensures p / 512 != fptr / 512 && data[p] == fs.disk[secs[p / 512]][p % 512] {
        assert data[p] == old(Stored(p / 512))[p % 512];
      }
    }

    /** One round of the loop of f_write: wcnt bytes written, or none and a code below 2 (0 for a full disk, 1 for a
        damaged FAT). */
    method WriteStep(src: array<Byte>, off: nat, left: nat) returns (code: nat, wcnt: nat)
      requires Valid() && 0 < left && fptr + left < 0x1_0000_0000
      requires src != buf && off + left <= src.Length && src != fs.win
      modifies this`fptr, this`clust, this`sclust, this`objsize, this`dirty, this`sect, this`chain, this`secs, this`data
      modifies buf, fs, fs.disk, fs.win
      ensures Elsewhere()
      ensures Valid() && old(chain) <= chain
      ensures code == 0 ==> Full()
      ensures code == 1 ==> !NoOnes(fs.fat)
      ensures code < 2 ==> wcnt == 0 && fptr == old(fptr) && data == old(data)
      ensures code >= 2 ==>
        0 < wcnt <= left && fptr == old(fptr) + wcnt && data == Splice(old(data), old(fptr), src[off..off + wcnt])
      ensures old(CountOk(fs.fat, fs.freeClst)) ==> CountOk(fs.fat, fs.freeClst)
      ensures code == 0 ==> old(Full())
    {
      hide Valid, ValidBase, CursorAfter, ClusterOffset, ClusterIndex, Here, Splice, OnlyFile, Now, CountOk;
      OnlyFileSame(fs, Now());
      code, wcnt := 2, 0;
      if fptr % 512 == 0 {
        var s;
        code, s := LocateWrite();
        if code < 2 { return; }
        ghost var v := Now();
        wcnt := WriteAt(src, off, left, s);
        OnlyFileTwice(fs, old(Now()), v, Now());
      } else {
        MidSector();
        wcnt := 512 - fptr % 512;
        if wcnt > left { wcnt := left; }
        BufferBase();
        CopyIn(src, off, wcnt);
        HereToPart(wcnt);
      }
      Advance(wcnt);
    }

    lemma BufferBase()
      requires ValidBase() && fptr / 512 < |secs| && sect == secs[fptr / 512]
      ensures ValidChain() && BufferHolds(fptr / 512)
    {
      hide fs.Valid, ValidChain;
      BufferReady(fptr / 512);
    }

    /** f_write at a sector boundary, once the sector is known. */
    method WriteAt(src: array<Byte>, off: nat, left: nat, s: nat) returns (wcnt: nat)
      requires ValidBase() && !dirty && 0 < left && fptr <= objsize && fptr + left < 0x1_0000_0000
      requires src != buf && off + left <= src.Length
      requires fptr % 512 == 0 && Here() && s == secs[fptr / 512]
      modifies this`objsize, this`data, this`dirty, this`sect, buf, fs.disk
      ensures Elsewhere()
      ensures ValidBase() && 0 < wcnt <= left && fptr + wcnt <= objsize && CursorAfter(fptr + wcnt)
      ensures data == Splice(old(data), fptr, src[off..off + wcnt])
    {
      hide ValidBase, CursorAfter, ClusterOffset, ClusterIndex, Splice, OnlyFile, Now;
      OnlyFileSame(fs, Now());
      var csect := ClusterOffset(fs.csize, fptr / 512);
      var cc := left / 512;
      if cc > 0 {
        if csect + cc > fs.csize { cc := fs.csize - csect; }
        WriteDirect(src, off, s, cc);
        HereToSectors(cc);
        return 512 * cc;
      }
      wcnt := 512 - fptr % 512;
      if wcnt > left { wcnt := left; }
      StoreFirst(src, off, wcnt, s);
      HereToPart(wcnt);
    }

    /** f_write. */
    method Write(src: array<Byte>, btw: nat) returns (res: FResult, bw: nat)
      requires err == Ok ==> Valid()
      requires src != buf && src != fs.win && btw <= src.Length && btw < 0x1_0000_0000
      modifies this, buf, fs, fs.disk, fs.win
      ensures Elsewhere()
      ensures old(err) != Ok ==> res == old(err) && bw == 0 && err == old(err)
      ensures old(err) == Ok && !canWrite ==> res == Denied && bw == 0 && err == Ok && Valid() && data == old(data)
      // the bytes put at the cursor; fewer than asked for only where the disk is full or the file ends at 4 GiB
      ensures old(err) == Ok && canWrite ==>
        && Valid() && bw <= btw && fptr == old(fptr) + bw && data == Splice(old(data), old(fptr), src[..bw])
        && (res == Ok || res == IntErr) && err == res && (res == Ok ==> modified)
        && (res == Ok && bw < btw && old(fptr) + btw < 0x1_0000_0000 ==> Full())
        && (res == Ok && bw < btw && old(fptr) + btw >= 0x1_0000_0000 ==> Full() || fptr == 0xFFFF_FFFF)
        && (res == IntErr ==> !NoOnes(fs.fat))
        && old(chain) <= chain
      ensures old(err == Ok && CountOk(fs.fat, fs.freeClst)) ==> CountOk(fs.fat, fs.freeClst)
      // nothing at all is written only on a disk which was full before
      ensures old(err) == Ok && res == Ok && bw == 0 && 0 < btw && old(fptr) + btw < 0x1_0000_0000 ==> old(Full())
    {
      hide Valid, ValidBase, CursorAfter, Splice, OnlyFile, Now, CountOk, NoOnes, NoneFree;
      OnlyFileSame(fs, Now());
      bw := 0;
      if err != Ok { return err, bw; }
      if !canWrite { return Denied, bw; }
      var left := btw;
      if (fptr + left) % 0x1_0000_0000 < fptr { left := 0xFFFF_FFFF - fptr; }
      ghost var want := left;
      SpliceNothing(data, fptr);
      assert src[..0] == [];
      while left > 0
        invariant Valid() && err == Ok && Elsewhere()
        invariant 0 <= left && bw + left == want <= btw && fptr == old(fptr) + bw && fptr + left < 0x1_0000_0000
        invariant data == Splice(old(data), old(fptr), src[..bw])
        invariant old(chain) <= chain && (old(CountOk(fs.fat, fs.freeClst)) ==> CountOk(fs.fat, fs.freeClst))
        invariant bw == 0 ==> fs.fat == old(fs.fat) && fs.freeClst == old(fs.freeClst)
      {
        ghost var v := Now();
        var code, wcnt := WriteStep(src, bw, left);
        OnlyFileTwice(fs, old(Now()), v, Now());
        if code == 0 { break; }
        if code == 1 { err := IntErr; return err, bw; }
        SpliceTwice(old(data), old(fptr), src[..bw], src[bw..bw + wcnt]);
        assert src[..bw] + src[bw..bw + wcnt] == src[..bw + wcnt];
        left := left - wcnt;
        bw := bw + wcnt;
      }
      modified := true;
      res := Ok;
    }

    // ----- f_lseek -----

    /** Enlarging the file over clusters it has: the new bytes are whatever the sectors hold. */
    method Enlarge(size: nat)
      requires ValidBase() && objsize <= size <= 512 * |secs| && size < 0x1_0000_0000
      modifies this`objsize, this`data
      ensures ValidBase() && objsize == size && old(data) <= data
    {
      hide fs.Valid, ValidChain, Stored;
      objsize := size;
      data := StoredBytes(size);
    }

    /** The cursor is base bytes into the file, at the start of cluster i, which is clust. */
    ghost predicate AtCluster(i: nat)
      reads this`fptr, this`clust, this`chain
    {
      i < |chain| && clust == chain[i] && fptr == 512 * ClusterStart(fs.csize, i)
    }

    /** f_lseek, the choice of the cluster to start from: the current one for a seek to the same or a later cluster,
        otherwise the first one, which is created for an empty file. ofs0 is the target, ofs what remains of it. */
    method SeekStart(ofs0: nat) returns (clst: nat, ofs: nat, ghost i: nat)
      requires Valid() && 0 < ofs0 && (canWrite || ofs0 <= objsize)
      modifies this`fptr, this`clust, this`sclust, this`chain, this`secs, fs, fs.disk, fs.win
      ensures Elsewhere()
      ensures ValidBase() && old(chain) <= chain && 0 < ofs && fptr + ofs == ofs0 && fptr <= ofs0
      ensures clst == 0 ==> Full() && fptr == 0
      ensures clst == 1 ==> !NoOnes(fs.fat)
      ensures clst < 2 ==> chain == [] && canWrite
      ensures clst >= 2 ==> clst == clust && AtCluster(i)
      ensures old(CountOk(fs.fat, fs.freeClst)) ==> CountOk(fs.fat, fs.freeClst)
    {
      hide fs.Valid, ValidBase, ClusterStart, ClusterIndex, OnlyFile, Now, CountOk;
      OnlyFileSame(fs, Now());
      ghost var k := (fptr - 1) / 512;
      var ifptr := fptr;
      fptr, ofs, i := 0, ofs0, 0;
      var bcs := fs.csize * 512;
      StartStep(fs.csize, 0);
      if ifptr > 0 {
        DivBytes(fs.csize, bcs, ifptr - 1);
        DivBytes(fs.csize, bcs, ofs - 1);
      }
      if ifptr > 0 && (ofs - 1) / bcs >= (ifptr - 1) / bcs {
        i := ClusterIndex(fs.csize, (ifptr - 1) / 512);
        StartGrows(fs.csize, i, ClusterIndex(fs.csize, (ofs - 1) / 512));
        fptr := (ifptr - 1) / bcs * bcs;
        ofs := ofs - fptr;
        clst := clust;
        ChainCluster(i);
      } else {
        clst := sclust;
        EmptyOrStart();
        if clst == 0 {
          clst := Extend(0, 0);
          if clst == 1 { return; }
        }
        clust := clst;
      }
    }

    lemma ChainCluster(i: nat)
      requires ValidBase() && i < |chain|
      ensures 2 <= chain[i] < fs.nFatent
    {
    }

    lemma EmptyOrStart()
      requires ValidBase()
      ensures sclust == 0 <==> chain == []
      ensures chain != [] ==> sclust == chain[0] >= 2
      ensures chain == [] ==> objsize == 0
    {
      if chain != [] { assert Linked(fs.fat, chain, 0); }
    }

    /** f_lseek, the loop following the chain, with forced stretch in write mode. rest is what remains of the offset: 0
        where the disk is full. */
    method SeekFollow(clst0: nat, ofs0: nat, ghost i0: nat) returns (ok: bool, clst: nat, rest: nat, ghost i: nat)
      requires ValidBase() && clst0 == clust && AtCluster(i0) && 0 < ofs0
      requires canWrite || fptr + ofs0 <= objsize
      modifies this`fptr, this`clust, this`sclust, this`chain, this`secs, fs, fs.disk, fs.win
      ensures Elsewhere()
      ensures ValidBase() && old(chain) <= chain
      ensures !ok ==> !NoOnes(fs.fat)
      ensures ok && rest > 0 ==>
        clst == clust && AtCluster(i) && rest <= fs.csize * 512 && fptr + rest == old(fptr) + ofs0
      ensures ok && rest == 0 ==>
        && i < |chain| && clust == chain[i] && fptr == 512 * ClusterStart(fs.csize, i + 1)
        && canWrite && Full() && fptr < old(fptr) + ofs0
      ensures old(CountOk(fs.fat, fs.freeClst)) ==> CountOk(fs.fat, fs.freeClst)
    {
      hide fs.Valid, ValidBase, ClusterStart, OnlyFile, Now, CountOk;
      OnlyFileSame(fs, Now());
      clst, rest, i, ok := clst0, ofs0, i0, true;
      var bcs := fs.csize * 512;
      while rest > bcs
        invariant Elsewhere()
        invariant ValidBase() && old(chain) <= chain && clst == clust && AtCluster(i)
        invariant old(CountOk(fs.fat, fs.freeClst)) ==> CountOk(fs.fat, fs.freeClst)
        invariant 0 < rest && fptr + rest == old(fptr) + ofs0
        decreases rest
      {
        StartStep(fs.csize, i);
        rest := rest - bcs;
        fptr := fptr + bcs;
        ghost var v := Now();
        if canWrite {
          clst := Extend(clst, i + 1);
          OnlyFileTwice(fs, old(Now()), v, Now());
          if clst == 0 { rest := 0; break; }
        } else {
          clst := FollowLink(clst, i);
          OnlyFileTwice(fs, old(Now()), v, Now());
        }
        if clst <= 1 || clst >= fs.nFatent { return false, clst, rest, i; }
        clust := clst;
        i := i + 1;
      }
    }

    /** get_fat inside the chain of a file which reaches further. */
    method FollowLink(clst: nat, ghost i: nat) returns (nxt: nat)
      requires ValidBase() && i < |chain| && clst == chain[i] && 512 * ClusterStart(fs.csize, i + 1) < objsize
      modifies fs`winsect, fs`wflag, fs.disk, fs.win
      ensures Elsewhere()
      ensures ValidBase() && i + 1 < |chain| && 2 <= nxt == chain[i + 1] < fs.nFatent
    {
      SectorsLength(fs.database, fs.csize, chain);
      StartGrows(fs.csize, |chain|, i + 1);
      assert Linked(fs.fat, chain, i) && Linked(fs.fat, chain, i + 1);
      hide fs.Valid, Sectors, IsChain, ClusterStart;
      nxt := fs.GetFat(clst);
      FatAccessKeepsFile();
      FatRead();
    }

    /** The cursor is where clust and nsect say. */
    ghost predicate Placed(nsect: nat)
      requires 0 < fs.csize
      reads this`fptr, this`clust, this`chain, this`secs
    {
      && fptr <= 512 * |secs|
      && (fptr > 0 ==>
          var i := ClusterIndex(fs.csize, (fptr - 1) / 512);
          i < |chain| && clust == chain[i])
      && (fptr % 512 != 0 ==> fptr / 512 < |secs| && nsect == secs[fptr / 512])
    }

    lemma PlacedAtStart()
      requires 0 < fs.csize && fptr == 0
      ensures Placed(0)
    {
    }

    /** f_lseek after its loop: the rest of the offset, and the sector if the cursor is inside one. */
    method SeekSector(clst: nat, rest: nat, ghost i: nat) returns (nsect: nat)
      requires ValidBase()
      requires rest > 0 ==> clst == clust && AtCluster(i) && rest <= fs.csize * 512
      requires rest == 0 ==> i < |chain| && clust == chain[i] && fptr == 512 * ClusterStart(fs.csize, i + 1)
      modifies this`fptr
      ensures ValidBase() && fptr == old(fptr) + rest && Placed(nsect)
    {
      hide ValidBase, ClusterStart, ClusterIndex;
      SeekEnd(fs.csize, i, if rest > 0 then rest else fs.csize * 512);
      StartStep(fs.csize, i);
      ChainCluster(i);
      ClusterInFile(i, rest / 512);
      fptr := fptr + rest;
      nsect := 0;
      if rest % 512 != 0 {
        nsect := fs.Clst2Sect(clst);
        if nsect == 0 { assert false; }   // never reached: FR_INT_ERR of f_lseek
        nsect := nsect + rest / 512;
      }
    }

    lemma ClusterInFile(i: nat, j: nat)
      requires ValidBase() && i < |chain|
      ensures ClusterStart(fs.csize, i) + fs.csize <= |secs|
      ensures fs.Clst2Sect(chain[i]) > 0
      ensures j < fs.csize ==> secs[ClusterStart(fs.csize, i) + j] == fs.Clst2Sect(chain[i]) + j
    {
      StartStep(fs.csize, i);
      StartGrows(fs.csize, i + 1, |chain|);
      SectorsLength(fs.database, fs.csize, chain);
      hide fs.Valid, Sectors, ClusterStart, ClusterSector, IsChain;
      if j < fs.csize { SectorsAt(fs.database, fs.csize, chain, i, j); }
    }

    /** The end of f_lseek: a larger file, and the sector under the cursor in the buffer. */
    method SeekFinish(nsect: nat)
      requires ValidBase() && Placed(nsect) && fptr < 0x1_0000_0000
      modifies this`objsize, this`data, this`modified, this`dirty, this`sect, buf, fs.disk
      ensures Elsewhere()
      ensures Valid() && old(data) <= data
      ensures objsize == if fptr > old(objsize) then fptr else old(objsize)
      ensures fptr % 512 == 0 ==> sect == old(sect)
    {
      hide ValidBase, ClusterIndex, OnlyFile, Now;
      OnlyFileSame(fs, Now());
      if fptr > objsize {
        Enlarge(fptr);
        modified := true;
      }
      if fptr % 512 != 0 && nsect != sect {
        FlushBuf();
        LoadBuffer(nsect, fptr / 512);
        sect := nsect;
      }
    }

    /** f_lseek (without a link map). */
    method Seek(target: nat) returns (res: FResult)
      requires err == Ok ==> Valid()
      requires target < 0x1_0000_0000
      modifies this, buf, fs, fs.disk, fs.win
      ensures Elsewhere()
      ensures old(err) != Ok ==> res == old(err) && err == old(err)
      // without write access the target is clipped to the size; the cursor stays short of it only on a full disk
      ensures old(err) == Ok && res == Ok ==>
        && Valid() && err == Ok && old(data) <= data
        && var want := if target > old(objsize) && !canWrite then old(objsize) else target;
        && (fptr == want || (canWrite && fptr < want && Full()))
        && objsize == (if fptr > old(objsize) then fptr else old(objsize))
        && old(chain) <= chain
      ensures old(err) == Ok && res != Ok ==> res == IntErr == err && !NoOnes(fs.fat) && ValidBase()
      ensures old(err == Ok && CountOk(fs.fat, fs.freeClst)) ==> CountOk(fs.fat, fs.freeClst)
      ensures old(err) == Ok && res == Ok && fptr % 512 == 0 ==> sect == old(sect)
    {
      hide fs.Valid, Valid, ValidBase, ClusterStart, CursorAfter, Placed, AtCluster, OnlyFile, Now, CountOk;
      OnlyFileSame(fs, Now());
      if err != Ok { return err; }
      var ofs := target;
      if ofs > objsize && !canWrite { ofs := objsize; }
      var nsect := 0;
      ghost var k := 0;
      if ofs > 0 {
        var clst;
        ghost var i;
        clst, ofs, i := SeekStart(ofs);
        if clst == 1 { err := IntErr; return IntErr; }
        if clst != 0 {
          var ok;
          ghost var v := Now();
          ok, clst, ofs, i := SeekFollow(clst, ofs, i);
          OnlyFileTwice(fs, old(Now()), v, Now());
          if !ok { err := IntErr; return IntErr; }
          nsect := SeekSector(clst, ofs, i);
        } else {
          PlacedAtStart();
        }
      } else {
        fptr := 0;
        PlacedAtStart();
      }
      ghost var w := Now();
      SeekFinish(nsect);
      OnlyFileTwice(fs, old(Now()), w, Now());
      res := Ok;
    }

    // ----- f_truncate -----

    /** How many clusters a file of n bytes fills. */
    static function ClustersFor(csize: nat, n: nat): nat
      requires csize > 0
    {
      if n == 0 then 0 else ClusterIndex(csize, (n - 1) / 512) + 1
    }

    /** Nothing but the file has changed, and the file has lost clusters, which are free now. */
    twostate predicate ElsewhereCut()
      reads this`chain, this`secs, fs`fat, fs`winsect, fs.disk, fs.win
    {
      && chain <= old(chain) && |fs.fat| == |old(fs.fat)|
      && (forall c :: 0 <= c < |fs.fat| && c !in old(chain) ==> fs.fat[c] == old(fs.fat)[c])
      && (forall c :: c in old(chain) && c !in chain ==> c < |fs.fat| && fs.fat[c] == 0)
      && (fs.winsect == old(fs.winsect) || fs.InFat1(fs.winsect))
      && forall s: nat :: fs.Outside(s) && s !in old(secs) ==> fs.Sec(s) == old(fs.Sec(s))
    }

    /** What f_truncate finds: the chain, and its cluster at the cursor. */
    lemma TailStart()
      requires Valid() && fptr < objsize
      ensures chain != [] && IsChain(fs.fat, chain) && ClustersFor(fs.csize, fptr) <= |chain|
      ensures var k := ClustersFor(fs.csize, fptr);
              && (k < |chain| ==> 2 <= chain[k] < fs.nFatent)
              && if fptr == 0 then k == 0 && sclust == chain[0]
                 else
                   && k > 0 && clust == chain[k - 1] && 2 <= clust < fs.nFatent
                   && if k < |chain| then fs.fat[clust] == chain[k] else fs.fat[clust] >= fs.nFatent
    {
      hide fs.Valid, Sectors, ClusterIndex, ClusterSector;
      SomeChain();
      var k := ClustersFor(fs.csize, fptr);
      if k > 0 { assert Linked(fs.fat, chain, k - 1); }
    }

    lemma SomeChain()
      requires ValidBase()
      ensures objsize > 0 ==> chain != []
    {
    }

    /** The same for f_truncate of this file: the other one is kept just when the sector in its buffer has not been
        written here with other bytes, so in any case if its buffer is empty or holds a sector it has. */
    twostate lemma OtherFileKeptCut(g: FileObj)
      requires g.fs == fs && g != this && old(ValidBase()) && fs.Valid() && old(g.ValidBase())
      requires old(Disjoint(chain, g.chain)) && ElsewhereCut() && unchanged(g) && unchanged(g.buf)
      ensures Disjoint(chain, g.chain) && g.ValidChain() && g.data == old(g.data)
      ensures old(g.sect == 0 || g.sect in g.secs) ==> g.ValidBase()
      ensures g.ValidBase() <==> (g.sect in old(secs) ==> fs.disk[g.sect] == old(fs.disk[g.sect]))
      ensures g.ValidBase() && old(g.Valid()) ==> g.Valid()
    {
      hide fs.ValidImage, fs.Sec, Sectors, Distinct, InData, ClusterSector, ClusterIndex, IsChain;
      assert old(ValidChain()) && old(g.ValidChain());
      SectorsApart(fs.database, fs.csize, old(chain), g.chain);
      Beside((g, old(secs)));
    }

    /** The chain of the file after clust, if any, is freed; all of it with the cursor at the start. */
    method FreeTail() returns (res: FResult)
      requires Valid() && fptr < objsize
      modifies this`sclust, fs, fs.disk, fs.win
      ensures res == Ok && fs.Valid() && fs.DataKept() && |fs.fat| == |old(fs.fat)|
      ensures var k := ClustersFor(fs.csize, fptr);
              && k <= |chain| && TailCut(old(fs.fat), fs.fat, chain, k)
              && sclust == if k == 0 then 0 else old(sclust)
      ensures old(CountOk(fs.fat, fs.freeClst)) ==> CountOk(fs.fat, fs.freeClst)
    {
      ghost var k := ClustersFor(fs.csize, fptr);
      TailStart();
      hide Valid, fs.Valid, ClusterIndex, IsChain, RemoveWrites, Apply, CountOk, TailCut, ClustersFor;
      res := Ok;
      if fptr == 0 {
        res := fs.RemoveChain(sclust, 0, chain, 0);
        sclust := 0;
        TailFreed(old(fs.fat), fs.fat, chain, 0, Eoc(fs.fmt));
      } else {
        res := FreeRest(k);
      }
    }

    /** f_truncate, the clusters after clust, which is the cluster before place k of the chain. */
    method FreeRest(ghost k: nat) returns (res: FResult)
      requires fs.Valid() && IsChain(fs.fat, chain) && 0 < k <= |chain| && clust == chain[k - 1]
      requires 2 <= clust < fs.nFatent
      requires if k < |chain| then 2 <= fs.fat[clust] == chain[k] < fs.nFatent else fs.fat[clust] >= fs.nFatent
      modifies fs, fs.disk, fs.win
      ensures res == Ok && fs.Valid() && fs.DataKept() && |fs.fat| == |old(fs.fat)|
      ensures TailCut(old(fs.fat), fs.fat, chain, k)
      ensures old(CountOk(fs.fat, fs.freeClst)) ==> CountOk(fs.fat, fs.freeClst)
    {
      hide fs.Valid, fs.Sec, IsChain, RemoveWrites, Apply, CountOk, TailCut;
      res := Ok;
      var ncl := fs.GetFat(clust);
      if ncl == 1 { assert false; }   // never reached: f_truncate's FR_INT_ERR
      if ncl < fs.nFatent {
        res := fs.RemoveChain(ncl, clust, chain, k);
        TailFreed(old(fs.fat), fs.fat, chain, k, Eoc(fs.fmt));
      } else {
        TailNone(fs.fat, chain);
      }
    }

    twostate lemma StillChain(k: nat)
      requires k <= |old(chain)| && |fs.fat| == |old(fs.fat)| && TailCut(old(fs.fat), fs.fat, old(chain), k)
      requires fs.Valid() && chain == old(chain)[..k]
      ensures InData(fs.database, fs.csize, chain)
    {
      hide fs.Valid;
      ChainGivesSectors(fs, chain);
    }

    /** The clusters left hold the bytes before the cursor. */
    twostate lemma CutRoom()
      requires old(Valid()) && ValidChain() && 0 < fs.csize && unchanged(this`fptr) && unchanged(this`clust)
      requires unchanged(this`sect)
      requires chain <= old(chain) && secs <= old(secs) && |chain| == ClustersFor(fs.csize, fptr)
      ensures fptr <= 512 * |secs| && CursorAfter(fptr)
    {
      hide fs.Valid, Sectors, IsChain, ClusterIndex, ClusterSector;
      if fptr > 0 {
        SectorInChain(fs.database, fs.csize, chain, (fptr - 1) / 512);
        SameSectorOffset(fptr);
      }
    }

    /** The file after its chain has been cut behind cluster k. */
    twostate lemma ChainCut(k: nat)
      requires old(ValidChain()) && fs.Valid() && fs.DataKept()
      requires k <= |old(chain)| && |fs.fat| == |old(fs.fat)| && TailCut(old(fs.fat), fs.fat, old(chain), k)
      requires chain == old(chain)[..k] && sclust == if k == 0 then 0 else old(sclust)
      requires InData(fs.database, fs.csize, chain) ==> secs == Sectors(fs.database, fs.csize, chain)
      ensures ValidChain() && secs <= old(secs)
    {
      hide fs.ValidImage, Sectors, IsChain, ClusterSector;
      ChainGivesSectors(fs, chain);
      SectorsPrefix(fs.database, fs.csize, old(chain), k);
      forall j | 0 <= j < |secs| ensures secs[j] != fs.winsect { assert secs[j] == old(secs)[j]; }
    }

    /** The bytes of a file whose sectors are was, before it is cut. */
    ghost predicate Holds(was: seq<nat>)
      reads this`secs, this`dirty, this`sect, this`data, buf, fs.disk
    {
      && buf.Length == 512 && buf != fs.win && secs <= was
      && (forall s :: 0 <= s < fs.disk.Length ==> |fs.disk[s]| == 512)
      && (forall k :: 0 <= k < |was| ==> 0 < was[k] < fs.disk.Length)
      && (dirty ==> sect in was)
      && (sect != 0 ==> sect < fs.disk.Length)
      && (!dirty && sect != 0 ==> buf[..] == fs.disk[sect])
      && |data| <= 512 * |was|
      && forall p :: 0 <= p < |data| ==> data[p] == (if dirty && was[p / 512] == sect then buf[..]
         else fs.disk[was[p / 512]])[p % 512]
    }

    twostate lemma HoldsStill()
      requires old(ValidBase()) && fs.Valid() && fs.DataKept() && secs <= old(secs)
      requires unchanged(this`dirty) && unchanged(this`sect) && unchanged(this`data) && unchanged(buf)
      ensures Holds(old(secs)) && BufferApart()
    {
      hide fs.ValidImage, Sectors, IsChain;
      BufferKept();
      forall s | fs.database <= s < fs.disk.Length && s != old(fs.winsect) ensures fs.disk[s] == old(fs.disk[s]) {
        assert fs.Sec(s) == old(fs.Sec(s));
      }
      forall p | 0 <= p < |data|
        ensures data[p] == (if dirty && old(secs)[p / 512] == sect then buf[..]
          else fs.disk[old(secs)[p / 512]])[p % 512]
      {
        assert old(data[p] == Stored(p / 512)[p % 512]);
      }
      fs.SectorSizes();
    }

    /** The end of f_truncate: the size, and the write-back of the buffer. Its sector may not be one of the file any
        more. */
    method CutData(ghost was: seq<nat>)
      requires fs.Valid() && ValidChain() && Holds(was) && BufferApart()
      requires fptr < |data| < 0x1_0000_0000 && fptr <= 512 * |secs|
      modifies this`objsize, this`data, this`modified, this`dirty, fs.disk
      ensures ValidBase() && !dirty && modified && objsize == fptr && data == old(data)[..fptr]
      ensures forall s :: 0 <= s < fs.disk.Length && (s != sect || sect == 0 || !old(dirty)) ==>
        fs.disk[s] == old(fs.disk[s])
    {
      hide fs.Valid, ValidChain;
      objsize := fptr;
      modified := true;
      WriteBack(was);
      data := data[..fptr];
      forall p | 0 <= p < |data| ensures p / 512 < |secs| && data[p] == Stored(p / 512)[p % 512] {
        assert secs[p / 512] == was[p / 512];
        assert data[p] == old(data)[p];
      }
    }

    /** f_truncate, the write-back of the buffer. */
    method WriteBack(ghost was: seq<nat>)
      requires fs.Valid() && Holds(was) && BufferApart()
      modifies this`dirty, fs.disk
      ensures fs.Valid() && Holds(was) && !dirty
      ensures forall s :: 0 <= s < fs.disk.Length && (s != sect || sect == 0 || !old(dirty)) ==>
        fs.disk[s] == old(fs.disk[s])
    {
      hide fs.Valid;
      if dirty {
        fs.DiskWrite(buf, 0, sect, 1);
        dirty := false;
        fs.SectorSizes();
        assert buf[..] == fs.disk[sect];
      }
    }

    /** f_truncate: the file ends at the cursor. The clusters behind the one of the last byte become free; the buffer
        keeps its sector, clean, even where the file has lost it. */
    method Truncate() returns (res: FResult)
      requires err == Ok ==> Valid()
      modifies this, fs, fs.disk, fs.win
      ensures ElsewhereCut()
      ensures old(err) != Ok ==> res == old(err) == err
      ensures old(err) == Ok && !canWrite ==>
        res == Denied && err == Ok && Valid() && data == old(data) && chain == old(chain)
      ensures old(err) == Ok && canWrite ==>
        && res == Ok == err && Valid() && fptr == old(fptr) && data == old(data)[..fptr]
        && (fptr == |old(data)| ==> chain == old(chain) && fs.fat == old(fs.fat))
        && (fptr < |old(data)| ==>
            && chain == old(chain)[..ClustersFor(fs.csize, fptr)] && modified && !dirty
            && sect == old(sect) && (sect != 0 ==> buf[..] == fs.disk[sect]))
      ensures old(err == Ok && CountOk(fs.fat, fs.freeClst)) ==> CountOk(fs.fat, fs.freeClst)
    {
      hide fs.Valid, ValidChain, ClusterIndex, CountOk, ClustersFor, IsChain, TailCut;
      res := Ok;
      if err != Ok { return err; }
      if !canWrite { return Denied; }
      if fptr < objsize { res := CutFile(); }
    }

    /** f_truncate with the cursor before the end of the file. */
    method CutFile() returns (res: FResult)
      requires Valid() && fptr < objsize
      modifies this`sclust, this`chain, this`secs, this`objsize, this`data, this`modified, this`dirty, fs, fs.disk,
        fs.win
      ensures ElsewhereCut()
      ensures res == Ok && Valid() && data == old(data)[..fptr] && modified && !dirty
      ensures chain == old(chain)[..ClustersFor(fs.csize, fptr)] && (sect != 0 ==> buf[..] == fs.disk[sect])
      ensures old(CountOk(fs.fat, fs.freeClst)) ==> CountOk(fs.fat, fs.freeClst)
    {
      hide fs.Valid, ValidChain, ClusterIndex, CountOk, ClustersFor, IsChain, CursorAfter, InData, Sectors;
      res := FreeTail();
      ghost var k := ClustersFor(fs.csize, fptr);
      chain := chain[..k];
      StillChain(k);
      secs := Sectors(fs.database, fs.csize, chain);
      ChainCut(k);
      CutRoom();
      HoldsStill();
      label Cut:
      CutData(old(secs));
      OutsideCut@Cut(old(secs));
    }

    /** The write-back of the buffer leaves the sectors outside the file. */
    twostate lemma OutsideCut(was: seq<nat>)
      requires old(Holds(was)) && old(BufferApart()) && unchanged(this`sect) && unchanged(fs`winsect)
      requires unchanged(fs.win)
      requires forall s :: 0 <= s < fs.disk.Length && (s != sect || sect == 0 || !old(dirty)) ==>
        fs.disk[s] == old(fs.disk[s])
      ensures forall s: nat :: fs.Outside(s) && s !in was ==> fs.Sec(s) == old(fs.Sec(s))
    {
    }
  }
}
