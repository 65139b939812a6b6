/** Fast seek of ff.c: the cluster link map of a file, its use by clmt_clust, and f_lseek with it. */
module FastSeek {
  import opened FatCodec
  import opened ClusterChains
  import opened FatVolume
  import opened FileLayout
  import opened FatFile

  /** Length of the run of consecutive clusters a chain begins with. */
  function RunFrom(s: seq<nat>): (r: nat)
    requires |s| > 0
    ensures 1 <= r <= |s| && (forall i :: 0 <= i < r ==> s[i] == s[0] + i) && (r < |s| ==> s[r] != s[r - 1] + 1)
  {
    if |s| == 1 || s[1] != s[0] + 1 then 1 else 1 + RunFrom(s[1..])
  }

  /** The fragments of a chain: length and first cluster of each. */
  function Fragments(s: seq<nat>): seq<(nat, nat)> {
    if s == [] then [] else [(RunFrom(s), s[0])] + Fragments(s[RunFrom(s)..])
  }

  /** The chain which fragments stand for. */
  function Unrolled(frags: seq<(nat, nat)>): seq<nat> {
    if frags == [] then [] else Run(frags[0].1, frags[0].0) + Unrolled(frags[1..])
  }

  /** The fragments of a chain are its run-length encoding: they stand for the chain, none is empty, and no two
      neighbours could be joined. */
  lemma {:induction false} FragmentsEncode(s: seq<nat>)
    ensures Unrolled(Fragments(s)) == s && Separate(Fragments(s))
    decreases |s|
  {
    hide Fragments, RunFrom, Unrolled, Separate;
    if s == [] {
      EmptyFragments();
    } else {
      var r := RunFrom(s);
      var rest := s[r..];
      FragmentsEncode(rest);
      FragmentsFirst(s);
      FragmentCount(rest);
      if rest != [] { FragmentsFirst(rest); }
      EncodeOne((r, s[0]), Fragments(rest));
      assert Run(s[0], r) == s[..r];
      assert s[..r] + rest == s;
    }
  }

  lemma {:induction false} EncodeOne(x: (nat, nat), frags: seq<(nat, nat)>)
    requires x.0 > 0 && Separate(frags) && (frags != [] ==> frags[0].1 != x.1 + x.0)
    ensures Separate([x] + frags) && Unrolled([x] + frags) == Run(x.1, x.0) + Unrolled(frags)
  {
    var all := [x] + frags;
    assert all[1..] == frags;
    hide Unrolled, Run;
    forall j | 0 <= j < |all| - 1 ensures all[j + 1].1 != all[j].1 + all[j].0 {
      if j > 0 { assert all[j] == frags[j - 1] && all[j + 1] == frags[j]; }
    }
  }

  predicate Separate(frags: seq<(nat, nat)>) {
    && (forall j :: 0 <= j < |frags| ==> frags[j].0 > 0)
    && forall j :: 0 <= j < |frags| - 1 ==> frags[j + 1].1 != frags[j].1 + frags[j].0
  }

  /** The link map as it is stored: length and first cluster of each fragment in turn. */
  function Items(frags: seq<(nat, nat)>): (t: seq<nat>)
    ensures |t| == 2 * |frags| && forall j :: 0 <= j < |frags| ==> t[2 * j] == frags[j].0 && t[2 * j + 1] == frags[j].1
  {
    if frags == [] then [] else Items(frags[..|frags| - 1]) + [frags[|frags| - 1].0, frags[|frags| - 1].1]
  }

  /** Fragments of a chain from a fragment boundary on. */
  lemma {:induction false} NextFragment(s: seq<nat>, i: nat, done: seq<(nat, nat)>)
    requires i < |s| && Fragments(s) == done + Fragments(s[i..])
    ensures var r := RunFrom(s[i..]);
            i + r <= |s| && Fragments(s) == done + [(r, s[i])] + Fragments(s[i + r..])
  {
    hide Fragments, RunFrom;
    var tail := s[i..];
    SplitFragment(Fragments(s), done, tail);
    assert tail[RunFrom(tail)..] == s[i + RunFrom(tail)..];
  }

  lemma {:induction false} SplitFragment(all: seq<(nat, nat)>, done: seq<(nat, nat)>, tail: seq<nat>)
    requires tail != [] && all == done + Fragments(tail)
    ensures all == done + [(RunFrom(tail), tail[0])] + Fragments(tail[RunFrom(tail)..])
  {
    FragmentsFirst(tail);
    hide Fragments, RunFrom;
    Associative(done, [(RunFrom(tail), tail[0])], Fragments(tail[RunFrom(tail)..]));
  }

  lemma Associative(a: seq<(nat, nat)>, b: seq<(nat, nat)>, c: seq<(nat, nat)>)
    ensures a + (b + c) == a + b + c
  {
  }

  lemma {:induction false} FragmentsFirst(s: seq<nat>)
    requires s != []
    ensures Fragments(s) == [(RunFrom(s), s[0])] + Fragments(s[RunFrom(s)..]) && 1 <= RunFrom(s) <= |s|
  {
  }

  /** The last cluster of a chain is followed by an end mark that looks like the next cluster number. */
  predicate MarkFollows(fat: seq<nat>, s: seq<nat>) {
    s != [] && Last(s) < |fat| && fat[Last(s)] == Last(s) + 1
  }

  class LinkMap {
    const f: FileObj
    const tbl: array<nat>   // tbl[0]: the size of the table, in items

    constructor (f: FileObj, size: nat)
      ensures this.f == f && fresh(tbl) && tbl.Length == size + 1 && tbl[0] == size
    {
      this.f := f;
      tbl := new nat[size + 1](i => if i == 0 then size else 0);
    }

    /** The table holds the fragments of the file. */
    ghost predicate Maps()
      reads tbl, f`chain
    {
      var frags := Fragments(f.chain);
      tbl.Length >= 2 * |frags| + 2 && tbl[1..1 + 2 * |frags|] == Items(frags) && tbl[1 + 2 * |frags|] == 0
    }

    /** The inner loop of CREATE_LINKMAP: one fragment, from cluster i of the file on. */
    method ReadFragment(cl0: nat, ghost i: nat) returns (ok: bool, cl: nat, ncl: nat)
      requires f.Valid() && i < |f.chain| && cl0 == f.chain[i]
      modifies f.fs`winsect, f.fs`wflag, f.fs.disk, f.fs.win
      ensures f.Valid()
      ensures !ok ==> MarkFollows(f.fs.fat, f.chain)
      ensures ok && i + ncl == |f.chain| ==> !MarkFollows(f.fs.fat, f.chain)
      ensures ok ==> ncl == RunFrom(f.chain[i..]) && if i + ncl < |f.chain| then cl == f.chain[i + ncl] < f.fs.nFatent
        else cl >= f.fs.nFatent
    {
      hide f.fs.Valid, f.ValidBase, f.CursorAfter, IsChain;
      ghost var chain := f.chain;
      cl, ncl, ok := cl0, 0, true;
      while true
        invariant f.Valid() && i + ncl <= |chain|
        invariant cl == chain[i] + ncl
        invariant if i + ncl < |chain| then cl == chain[i + ncl]
          else cl == Last(chain) + 1 >= f.fs.nFatent && MarkFollows(f.fs.fat, chain)
        invariant forall j :: i <= j < i + ncl ==> chain[j] == chain[i] + (j - i)
        decreases |chain| + 1 - (i + ncl)
      {
        var pcl := cl;
        if i + ncl < |chain| { LinkAt(i + ncl); } else { LinkAt(|chain| - 1); }
        cl := Link(cl);
        if cl <= 1 { return false, cl, ncl; }
        ncl := ncl + 1;
        if cl != pcl + 1 { break; }
      }
      RunEnds(chain, i, ncl);
    }

    /** get_fat for the file. */
    method Link(clst: nat) returns (cl: nat)
      requires f.Valid()
      modifies f.fs`winsect, f.fs`wflag, f.fs.disk, f.fs.win
      ensures f.Valid() && cl == if clst < 2 || clst >= f.fs.nFatent then 1 else f.fs.fat[clst]
    {
      hide f.fs.Valid, f.CursorAfter, IsChain;
      WholeChain();
      cl := f.fs.GetFat(clst);
      f.FatAccessKeepsFile();
    }

    lemma WholeChain()
      requires f.ValidBase()
      ensures f.chain == [] || IsChain(f.fs.fat, f.chain)
    {
    }

    lemma LinkAt(i: nat)
      requires f.ValidBase() && i < |f.chain|
      ensures |f.fs.fat| == f.fs.nFatent
      ensures 2 <= f.chain[i] < f.fs.nFatent
      ensures if i + 1 < |f.chain| then f.fs.fat[f.chain[i]] == f.chain[i + 1] else f.fs.fat[f.chain[i]] >= f.fs.nFatent
      ensures i + 1 < |f.chain| ==> 2 <= f.chain[i + 1] < f.fs.nFatent
    {
      assert IsChain(f.fs.fat, f.chain);
      assert Linked(f.fs.fat, f.chain, i);
      if i + 1 < |f.chain| { assert Linked(f.fs.fat, f.chain, i + 1); }
    }

    lemma StartOfChain()
      requires f.ValidBase()
      ensures f.sclust == 0 <==> f.chain == []
      ensures f.chain != [] ==> f.sclust == f.chain[0]
    {
      f.EmptyOrStart();
    }

    /** f_lseek with CREATE_LINKMAP: the table receives the fragments of the file, or only their number if it is too
        small. It fails inside just when the end mark of the chain looks like the next cluster. */
    method Create() returns (res: FResult)
      requires f.Valid() && 0 < tbl.Length && tbl[0] <= tbl.Length
      modifies tbl, f`err, f.fs`winsect, f.fs`wflag, f.fs.disk, f.fs.win
      ensures f.Valid()
      ensures res == IntErr <==> MarkFollows(f.fs.fat, f.chain)
      ensures res == IntErr ==> f.err == IntErr
      ensures res != IntErr ==> tbl[0] == 2 * |Fragments(f.chain)| + 2 && f.err == old(f.err)
      ensures res != IntErr ==> res == if tbl[0] <= old(tbl[0]) then Ok else NotEnoughCore
      ensures res == Ok ==> Maps()
    {
      hide f.fs.Valid, f.ValidBase, f.CursorAfter, IsChain, Items, RunFrom, Fragments, MarkFollows, Filled;
      var tlen, ulen, t := tbl[0], 2, 1;
      ghost var frags: seq<(nat, nat)>, i := [], 0;
      var cl := f.sclust;
      StartOfChain();
      NoFragments(f.chain);
      StartFill();
      if cl != 0 {
        while true
          invariant f.Valid() && f.err == old(f.err) && i < |f.chain| && cl == f.chain[i]
          invariant Fragments(f.chain) == frags + Fragments(f.chain[i..]) && ulen == 2 * |frags| + 2
          invariant Filled(ulen, tlen, t, frags)
          decreases |f.chain| - i
        {
          var ok, ncl;
          ulen := ulen + 2;
          NextFragment(f.chain, i, frags);
          ok, cl, ncl, t := OneFragment(cl, i, ulen, tlen, t, frags);
          if !ok { f.err := IntErr; return IntErr; }
          frags := frags + [(ncl, f.chain[i])];
          i := i + ncl;
          if cl >= f.fs.nFatent { break; }
        }
        assert f.chain[i..] == [];
      }
      EmptyFragments();
      assert frags + [] == frags;
      res := Finish(ulen, tlen, t, frags);
    }

    /** The fragments found so far are in the table as long as they fit; t is the next free item. */
    ghost predicate Filled(ulen: nat, tlen: nat, t: nat, frags: seq<(nat, nat)>)
      reads tbl
    {
      && 0 < tbl.Length && tlen <= tbl.Length && ulen == 2 * |frags| + 2
      && (ulen <= tlen ==> t == 1 + 2 * |frags| && tbl[1..t] == Items(frags))
    }

    lemma StartFill()
      requires 0 < tbl.Length && tbl[0] <= tbl.Length
      ensures Filled(2, tbl[0], 1, []) && !MarkFollows(f.fs.fat, [])
    {
    }

    /** The body of the loop of CREATE_LINKMAP. */
    method OneFragment(tcl: nat, ghost i: nat, ulen: nat, tlen: nat, t0: nat, ghost frags: seq<(nat, nat)>)
      returns (ok: bool, cl: nat, ncl: nat, t: nat)
      requires f.Valid() && i < |f.chain| && tcl == f.chain[i] && ulen >= 2 && Filled(ulen - 2, tlen, t0, frags)
      modifies tbl, f.fs`winsect, f.fs`wflag, f.fs.disk, f.fs.win
      ensures f.Valid()
      ensures !ok ==> MarkFollows(f.fs.fat, f.chain)
      ensures ok && i + ncl == |f.chain| ==> !MarkFollows(f.fs.fat, f.chain)
      ensures ok ==> ncl == RunFrom(f.chain[i..]) && Filled(ulen, tlen, t, frags + [(ncl, tcl)])
      ensures ok ==> if i + ncl < |f.chain| then cl == f.chain[i + ncl] < f.fs.nFatent else cl >= f.fs.nFatent
    {
      hide f.Valid, Items, RunFrom, MarkFollows;
      ok, cl, ncl := ReadFragment(tcl, i);
      t := t0;
      if !ok { return; }
      if ulen <= tlen {
        StoreFragment(t, ncl, tcl, frags);
        t := t + 2;
      }
    }

    /** The number of items used, and the end mark if they fit. */
    method Finish(ulen: nat, tlen: nat, t: nat, ghost frags: seq<(nat, nat)>) returns (res: FResult)
      requires Filled(ulen, tlen, t, frags)
      modifies tbl
      ensures tbl[0] == ulen && res == if ulen <= tlen then Ok else NotEnoughCore
      ensures res == Ok ==> tbl[1..1 + 2 * |frags|] == Items(frags) && tbl[1 + 2 * |frags|] == 0
    {
      hide Items;
      tbl[0] := ulen;
      if ulen <= tlen {
        tbl[t] := 0;
        res := Ok;
      } else {
        res := NotEnoughCore;
      }
    }

    /** One fragment more in the table. */
    method StoreFragment(t: nat, ncl: nat, tcl: nat, ghost frags: seq<(nat, nat)>)
      requires t == 1 + 2 * |frags| && t + 2 <= tbl.Length && tbl[1..t] == Items(frags)
      modifies tbl
      ensures tbl[0] == old(tbl[0]) && tbl[1..t + 2] == Items(frags + [(ncl, tcl)])
    {
      tbl[t] := ncl;
      tbl[t + 1] := tcl;
      assert (frags + [(ncl, tcl)])[..|frags|] == frags;
      assert tbl[1..t + 2] == tbl[1..t] + [ncl, tcl];
    }

    /** clmt_clust: the cluster of byte ofs of the file, 0 behind the end of its chain. */
    method ClmtClust(ofs: nat) returns (cl: nat)
      requires 0 < f.fs.csize && Maps()
      ensures var k := ClusterIndex(f.fs.csize, ofs / 512); cl == if k < |f.chain| then f.chain[k] else 0
    {
      hide Items, Fragments, RunFrom, ClusterIndex;
      ghost var k, frags, done: seq<(nat, nat)>, i := ClusterIndex(f.fs.csize, ofs / 512), Fragments(f.chain), [], 0;
      var t, ncl := 1, 0;
      cl := ClusterIndex(f.fs.csize, ofs / 512);
      NoFragments(f.chain);
      while true
        invariant i <= |f.chain| && i + cl == k
        invariant frags == Fragments(f.chain) == done + Fragments(f.chain[i..]) && t == 1 + 2 * |done|
        decreases |f.chain| - i
      {
        FragmentCount(f.chain[i..]);
        if i < |f.chain| {
          NextFragment(f.chain, i, done);
          ItemsAt(frags, done, RunFrom(f.chain[i..]), f.chain[i]);
        }
        ncl := tbl[t];
        t := t + 1;
        if ncl == 0 { return 0; }
        if cl < ncl { break; }
        cl := cl - ncl;
        t := t + 1;
        done := done + [(ncl, f.chain[i])];
        i := i + ncl;
      }
      assert f.chain[i..][cl] == f.chain[i + cl];
      cl := cl + tbl[t];
    }

    /** The items of the fragment behind those in done. */
    lemma ItemsAt(frags: seq<(nat, nat)>, done: seq<(nat, nat)>, r: nat, top: nat)
      requires Maps() && frags == Fragments(f.chain) && |done| < |frags| && frags[|done|] == (r, top)
      ensures 2 + 2 * |done| < tbl.Length && tbl[1 + 2 * |done|] == r && tbl[2 + 2 * |done|] == top
    {
      hide Fragments;
      var j := |done|;
      var stored := tbl[1..1 + 2 * |frags|];
      assert stored[2 * j] == r && stored[2 * j + 1] == top;
    }

    /** f_lseek by the link map: the cursor goes to the offset, clipped to the size of the file, and its cluster and
        sector are those which the chain gives. */
    method Seek(target: nat) returns (res: FResult)
      requires f.err == Ok && f.Valid() && Maps()
      modifies f`fptr, f`clust, f`sect, f`dirty, f.buf, f.fs.disk
      ensures res == Ok && f.Valid() && f.data == old(f.data)
      ensures f.fptr == if target > f.objsize then f.objsize else target
    {
      hide f.fs.Valid, f.ValidBase, f.CursorAfter, Maps, ClusterIndex, ClusterOffset, ClusterSector;
      var ofs := if target > f.objsize then f.objsize else target;
      f.fptr := ofs;
      ghost var p := ofs - 1;
      if ofs > 0 {
        InsideFile(ofs - 1);
        f.clust := ClmtClust(ofs - 1);
        var dsc := f.fs.Clst2Sect(f.clust);
        f.CursorSector((ofs - 1) / 512);
        if dsc == 0 { assert false; }   // never reached: FR_INT_ERR of f_lseek
        dsc := dsc + ClusterOffset(f.fs.csize, (ofs - 1) / 512);
        if f.fptr % 512 != 0 && dsc != f.sect {
          SameSectorOffset(ofs);
          f.FlushBuf();
          f.LoadBuffer(dsc, (ofs - 1) / 512);
          f.sect := dsc;
        }
      }
      Arrived(ofs);
      res := Ok;
    }

    /** The search of f_read for its sector, by the link map: it ends where FileObj.LocateRead does, and touches neither
        the FAT nor the window. */
    method LocateRead() returns (s: nat)
      requires f.Valid() && Maps() && f.fptr % 512 == 0 && f.fptr < f.objsize
      modifies f`clust
      ensures f.ValidBase() && f.Here() && s == f.secs[f.fptr / 512]
    {
      hide f.fs.Valid, f.ValidBase, Maps, ClusterIndex, ClusterOffset, ClusterSector;
      ghost var k := f.fptr / 512;
      InsideFile(f.fptr);
      f.CursorSector(k);
      FirstSector(f.fs.csize);
      if f.fptr > 0 {
        SectorBefore(f.fptr);
        BoundaryIndex(f.fs.csize, k);
      }
      StartOfChain();
      var csect := ClusterOffset(f.fs.csize, f.fptr / 512);
      if csect == 0 {
        var clst := f.sclust;
        if f.fptr != 0 { clst := ClmtClust(f.fptr); }
        if clst < 2 { assert false; }   // never reached: f_read's FR_INT_ERR
        f.clust := clst;
      }
      s := f.fs.Clst2Sect(f.clust);
      if s == 0 { assert false; }   // never reached: f_read's FR_INT_ERR
      s := s + csect;
    }

    /** f_write at a cluster boundary behind the start of the file, by the link map: it follows the chain as
        FileObj.NextCluster does, but it never lengthens it. At the end of the chain it reports a full disk (0),
        whatever is free. */
    method NextCluster() returns (clst: nat)
      requires f.Valid() && Maps() && f.fptr > 0 && f.fptr % 512 == 0 && ClusterOffset(f.fs.csize, f.fptr / 512) == 0
      modifies f`clust
      ensures clst == 0 <==> f.fptr / 512 >= |f.secs|
      ensures clst == 0 ==> f.Valid()
      ensures clst != 0 ==> clst >= 2 && f.ValidBase() && f.Here()
    {
      hide f.fs.Valid, f.ValidBase, Maps, ClusterIndex, ClusterOffset;
      f.BoundaryCluster();
      clst := ClmtClust(f.fptr);
      if clst == 0 { return; }
      f.ChainCluster(ClusterIndex(f.fs.csize, f.fptr / 512));
      f.clust := clst;
      f.HereFromIndex();
    }

    lemma InsideFile(p: nat)
      requires f.ValidBase() && p < f.objsize
      ensures p / 512 < |f.secs|
    {
    }

    lemma Arrived(ofs: nat)
      requires f.ValidBase() && f.fptr == ofs <= f.objsize
      requires ofs > 0 ==> var i := ClusterIndex(f.fs.csize, (ofs - 1) / 512); i < |f.chain| && f.clust == f.chain[i]
      requires ofs % 512 != 0 ==> (ofs - 1) / 512 < |f.secs| && f.sect == f.secs[(ofs - 1) / 512]
      ensures f.Valid()
    {
      hide f.ValidBase, ClusterIndex;
      SameSectorOffset(ofs);
    }
  }

  lemma {:induction false} FragmentCount(s: seq<nat>)
    ensures s == [] <==> Fragments(s) == []
  {
    if s != [] { FragmentsFirst(s); }
  }

  lemma {:induction false} EmptyFragments()
    ensures Fragments([]) == [] && Unrolled([]) == [] && Separate([])
  {
  }

  lemma {:induction false} NoFragments(s: seq<nat>)
    ensures Fragments(s) == [] + Fragments(s[0..]) && Items([]) == []
  {
    assert s[0..] == s;
  }

  lemma RunEnds(s: seq<nat>, i: nat, n: nat)
    requires 0 < n && i + n <= |s|
    requires forall j :: i <= j < i + n ==> s[j] == s[i] + (j - i)
    requires i + n < |s| ==> s[i + n] != s[i] + n
    ensures RunFrom(s[i..]) == n
  {
    var tail := s[i..];
    assert forall j :: 0 <= j < n ==> tail[j] == s[i + j];
    RunIs(tail, n);
  }

  lemma {:induction false} RunIs(s: seq<nat>, n: nat)
    requires 0 < n <= |s| && (forall j :: 0 <= j < n ==> s[j] == s[0] + j) && (n < |s| ==> s[n] != s[0] + n)
    ensures RunFrom(s) == n
    decreases n
  {
    if n > 1 { RunIs(s[1..], n - 1); }
  }
}
