/** A run of two open files which share no cluster: one is cut by f_truncate and keeps the sector of its freed cluster
    in its buffer, the other one gets the cluster and writes it. The buffer of the first file is then out of date. */
module StaleBuffer {
  import opened FatCodec
  import opened ClusterChains
  import opened FatVolume
  import opened FileLayout
  import opened FatFile

  /** A volume of one cluster of one sector, with an exact or unknown free count. */
  ghost predicate Tiny(fs: Volume)
    reads fs`winsect, fs`wflag, fs`img, fs`fat, fs`freeClst, fs.disk, fs.win
  {
    fs.Valid() && fs.nFatent == 3 && fs.csize == 1 && CountOk(fs.fat, fs.freeClst)
  }

  /** A file of such a volume is empty or has the cluster 2. */
  lemma OnlyCluster(f: FileObj)
    requires f.ValidBase() && f.fs.nFatent == 3 && f.fs.csize == 1
    ensures f.chain == [] || (f.chain == [2] && f.secs == [f.fs.database])
    ensures f.data != [] ==> f.chain == [2]
    ensures f.chain == [2] ==> f.fs.fat[2] != 1
  {
    if f.chain != [] {
      assert Linked(f.fs.fat, f.chain, 0);
      assert forall i :: 0 <= i < |f.chain| ==> f.chain[i] == 2;
      assert f.chain == [2] && f.chain[..0] == [];
      assert ClusterSector(f.fs.database, 1, 2) == f.fs.database;
      assert Sectors(f.fs.database, 1, [2]) == ClusterSectors(f.fs.database, 1, 2);
    }
  }

  /** One byte is written to an empty file, which takes the free cluster. */
  method WriteOne(f: FileObj, v: Byte)
    requires f.Valid() && f.err == Ok && f.canWrite && f.data == [] && f.fptr == 0 && Tiny(f.fs) && f.fs.fat[2] == 0
    modifies f, f.buf, f.fs, f.fs.disk, f.fs.win
    ensures f.Valid() && f.err == Ok && f.data == [v] && f.fptr == 1 && f.chain == [2] && Tiny(f.fs)
    ensures f.sect == f.fs.database && f.secs == [f.fs.database]
  {
    hide f.Valid, f.ValidBase, f.fs.Valid, IsChain, CountOk, f.CursorAfter;
    var src := new Byte[1](_ => v);
    NotFull(f);
    var res, bw := f.Write(src, 1);
    assert f.Elsewhere();
    OnlyCluster(f);
    NoOnesThere(f.fs.fat);
    SpliceOne(v);
    assert src[..1] == [v];
    AtOne(f);
  }

  lemma NoOnesThere(fat: seq<nat>)
    requires |fat| == 3
    ensures fat[2] != 1 ==> NoOnes(fat)
  {
  }

  lemma NotFull(f: FileObj)
    requires Tiny(f.fs) && f.fs.fat[2] == 0
    ensures !f.Full()
  {
    CountZero(f.fs.fat, f.fs.freeClst);
  }

  lemma SpliceOne(v: Byte)
    ensures Splice([], 0, [v]) == [v]
  {
  }

  lemma AtOne(f: FileObj)
    requires f.Valid() && f.fptr == 1
    ensures |f.secs| > 0 && f.sect == f.secs[0]
  {
  }

  /** The buffer of a file of one byte, or the disk if the buffer has been written back. */
  lemma TheByte(f: FileObj)
    requires f.ValidBase() && |f.data| == 1 && |f.secs| > 0 && f.sect == f.secs[0]
    ensures f.buf[0] == f.data[0] && 0 < f.sect < f.fs.disk.Length && |f.fs.disk[f.sect]| == 512
    ensures !f.dirty ==> f.fs.disk[f.sect][0] == f.data[0]
  {
    assert f.data[0] == f.Stored(0)[0];
  }

  lemma BlankFat(fs: Volume)
    requires fs.Valid() && fs.fmt == Fat16 && fs.nFatent == 3 && fs.fatbase == 1 && fs.winsect >= fs.disk.Length
    requires fs.fsize == 1 && fs.disk[1] == seq(512, _ => 0)
    ensures fs.fat[2] == 0
  {
    assert fs.img[4] == fs.Sec(1)[4] && fs.img[5] == fs.Sec(1)[5];
    assert fs.fat[2] == Decode(Fat16, fs.img, 2);
  }

  /** The file g has written one byte; back to the start, and cut there. Its buffer keeps the byte. */
  method CutOne(g: FileObj)
    requires g.Valid() && g.err == Ok && g.canWrite && g.data == [1] && g.chain == [2] && Tiny(g.fs)
    requires g.secs == [g.fs.database] && g.sect == g.fs.database
    modifies g, g.buf, g.fs, g.fs.disk, g.fs.win
    ensures g.Valid() && g.err == Ok && g.data == [] && g.chain == [] && Tiny(g.fs) && g.fs.fat[2] == 0
    ensures g.sect == g.fs.database && !g.dirty && g.buf.Length == 512 && g.buf[0] == 1 && g.buf != g.fs.win
  {
    hide g.Valid, g.ValidBase, g.fs.Valid, IsChain, CountOk, g.CursorAfter;
    var res := g.Seek(0);
    OnlyCluster(g);
    NoOnesThere(g.fs.fat);
    TheByte(g);
    res := g.Truncate();
    assert g.ElsewhereCut();
  }

  /** The run. At its end the two files share no cluster and have met no error, and the clean buffer of g differs from
      its sector. */
  method Run() returns (f: FileObj, g: FileObj)
    ensures f != g && f.fs == g.fs && f.Valid() && f.err == Ok == g.err && Disjoint(f.chain, g.chain)
    ensures 0 < g.sect < g.fs.disk.Length && !g.dirty && g.buf[..] != g.fs.disk[g.sect] && !g.ValidBuffer()
  {
    hide f.Valid, Tiny, g.ValidBuffer;
    g := Cut();
    f := Take(g.fs);
    Differs(g, f);
  }

  /** The second file: another byte, in the cluster which is free again. */
  method Take(fs: Volume) returns (f: FileObj)
    requires fs.Valid() && Tiny(fs) && fs.fat[2] == 0
    modifies fs, fs.disk, fs.win
    ensures fresh(f) && fresh(f.buf) && f.fs == fs && f.Valid() && f.err == Ok && f.sect == fs.database
    ensures 0 < f.sect < fs.disk.Length && |fs.disk[f.sect]| == 512 && fs.disk[f.sect][0] == 2
  {
    hide f.Valid, CountOk;
    f := Open(fs);
    WriteOne(f, 2);
    WriteBack(f);
  }

  /** The first file: one byte written, and cut. */
  method Cut() returns (g: FileObj)
    ensures fresh(g) && fresh(g.buf) && fresh(g.fs) && fresh(g.fs.disk) && fresh(g.fs.win)
    ensures g.err == Ok && g.chain == [] && g.fs.Valid() && Tiny(g.fs) && g.fs.fat[2] == 0
    ensures g.sect == g.fs.database && !g.dirty && g.buf.Length == 512 && g.buf[0] == 1 && g.buf != g.fs.win
  {
    hide g.Valid, CountOk;
    var fs := Mount();
    g := Open(fs);
    WriteOne(g, 1);
    CutOne(g);
  }

  /** The write-back of the buffer, as f_sync does it. */
  method WriteBack(f: FileObj)
    requires f.Valid() && f.data == [2] && f.secs == [f.fs.database] && f.sect == f.fs.database
    modifies f`dirty, f.fs.disk
    ensures f.Valid() && 0 < f.sect < f.fs.disk.Length && |f.fs.disk[f.sect]| == 512 && f.fs.disk[f.sect][0] == 2
  {
    hide f.ValidBase, f.CursorAfter;
    f.FlushBuf();
    TheByte(f);
  }

  lemma Differs(g: FileObj, f: FileObj)
    requires g.fs == f.fs && g.sect == f.sect && 0 < f.sect < f.fs.disk.Length && |f.fs.disk[f.sect]| == 512
    requires !g.dirty && g.buf.Length == 512 && g.buf[0] == 1 && f.fs.disk[f.sect][0] == 2
    ensures g.buf[..] != g.fs.disk[g.sect] && !g.ValidBuffer()
  {
    assert g.buf[..][0] == 1;
  }

  method Mount() returns (fs: Volume)
    ensures fresh(fs) && fresh(fs.disk) && fresh(fs.win) && Tiny(fs) && fs.fat[2] == 0
  {
    var disk := new seq<Byte>[3](_ => seq(512, _ => 0));
    fs := new Volume(Fat16, 1, 3, 1, 1, 1, 0, 0, 2, disk, 0, 0xFFFF_FFFF);
    BlankFat(fs);
    Unknown(fs.fat);
  }

  /** f_open of an empty file. */
  method Open(fs: Volume) returns (f: FileObj)
    requires fs.Valid()
    ensures f.Valid() && fresh(f) && fresh(f.buf) && f.fs == fs && f.err == Ok && f.canWrite
    ensures f.data == [] && f.fptr == 0
  {
    hide fs.Valid;
    NoSectors(fs);
    f := new FileObj(fs, 0, 0, true, true, []);
    hide f.Valid;
    assert f.data == [];
  }

  lemma NoSectors(fs: Volume)
    ensures InData(fs.database, fs.csize, []) && Sectors(fs.database, fs.csize, []) == []
  {
  }

  lemma Unknown(fat: seq<nat>)
    requires |fat| == 3
    ensures CountOk(fat, 0xFFFF_FFFF)
  {
  }
}
