/** The exFAT branches of ff.c: an allocation bitmap, and objects whose cluster chain is partly on the FAT and partly
    implied by their status. Whatever the status, an object stands for one sequence of clusters. */
module ExFat {
  import opened ClusterChains
  import opened FatVolume
  import opened AllocationBitmap

  const ExEoc := 0x7FFF_FFFF

  class ExVolume {
    const nFatent: nat
    const fat: array<nat>      // entry c, as get_fat reads it
    const bm: BitMap           // the allocation bitmap
    var lastClst: nat
    var freeClst: nat

    ghost predicate Valid()
      reads bm`winsect, bm`wflag, bm`bits, bm`pad, bm.disk, bm.win, fat
      ensures Valid() ==> 3 <= nFatent < ExEoc && |bm.bits| == nFatent == fat.Length == bm.nFatent && bm.Valid()
      ensures Valid() ==> (fat as object) != (bm.win as object) && (fat as object) != (bm.disk as object)
    {
      && 3 <= nFatent < ExEoc && fat.Length == nFatent == bm.nFatent && bm.Valid()
      && (fat as object) != (bm.win as object) && (fat as object) != (bm.disk as object)
    }

    /** An empty volume; the bitmap lies on the disk from sector bitbase on. */
    constructor (nFatent: nat, lastClst: nat, bitbase: nat, length: nat)
      requires 3 <= nFatent < ExEoc && bitbase + SectorOf(nFatent - 3) < length < 0x1_0000_0000
      ensures Valid() && fresh(fat) && fresh(bm) && this.nFatent == nFatent && bm.bits == seq(nFatent, _ => 0)
    {
      var m := new BitMap(nFatent, bitbase, length);
      this.nFatent, this.lastClst, freeClst := nFatent, lastClst, 0xFFFF_FFFF;
      fat, bm := new nat[nFatent](_ => 0), m;
    }

    /** put_fat. */
    method PutFat(clst: nat, val: nat) returns (res: FResult)
      requires Valid()
      modifies fat
      ensures Valid() && res == if 2 <= clst < nFatent then Ok else IntErr
      ensures fat[..] == if res == Ok then old(fat[..])[clst := val % 0x8000_0000] else old(fat[..])
    {
      if clst < 2 || clst >= nFatent { return IntErr; }
      fat[clst] := val % 0x8000_0000;
      res := Ok;
    }

    /** find_bitmap and change_bitmap for one cluster: 0 if none is free. */
    method MarkOne(scl: nat) returns (ncl: nat)
      requires Valid() && scl < 0x1_0000_0000
      modifies bm, bm.disk, bm.win
      ensures Valid() && (ncl == 0 <==> NoneFree(old(bm.bits)))
      ensures ncl == 0 ==> bm.bits == old(bm.bits)
      ensures ncl != 0 ==> 2 <= ncl < nFatent && old(bm.bits)[ncl] == 0 && bm.bits == old(bm.bits)[ncl := 1]
    {
      hide bm.Valid, NoneFree, FirstRun, FreeRun;
      ghost var k, bits := 0, bm.bits;
      ncl, k := bm.FindBitmap(scl, 1);
      FoundOne(bits, bm.ScanStart(scl), ncl, k);
      if ncl == 0 { return; }
      var res, _ := bm.ChangeBitmap(ncl, 1, 1);
      assert bm.bits == bits[ncl := 1];
    }

    /** Where f_expand begins to look. */
    function ExpandStart(): nat
      reads this`lastClst
    {
      if lastClst < 2 || lastClst >= nFatent then 2 else lastClst
    }

    /** The exFAT branch of f_expand: the first free run of tcl clusters, marked in use if opt. The block which is
        marked does not wrap around as the run does: from the last cluster on its bits are those behind the map. */
    method FindAndMark(tcl: nat, opt: bool) returns (res: FResult, scl: nat, lclst: nat, ghost k: nat)
      requires Valid() && 0 < tcl && nFatent + tcl <= |bm.Row()|
      modifies bm, bm.disk, bm.win
      ensures Valid() && Found(old(bm.bits), ExpandStart(), tcl, scl, k)
      ensures scl == 0 || !opt ==> bm.Row() == old(bm.Row())
      ensures if scl == 0 then res == Denied else res == Ok || res == IntErr
      ensures scl != 0 && !opt ==> res == Ok && lclst == scl - 1
      ensures scl != 0 && opt ==>
        && lclst == scl + tcl - 1 && BlockMarked(res, old(bm.Row()), nFatent, scl, tcl, bm.bits)
    {
      hide bm.Valid, Found, Outcome;
      ghost var end, row, bits := 0, bm.Row(), bm.bits;
      res, lclst := Ok, 0;
      scl, k := bm.FindBitmap(ExpandStart(), tcl);
      assert row[..nFatent] == bits;
      if scl == 0 { res := Denied; }
      if res == Ok {
        if opt {
          BlockInside(bits, ExpandStart(), tcl, scl, k);
          res, end := bm.ChangeBitmap(scl, tcl, 1);
          lclst := scl + tcl - 1;
          BlockTaken(res, row, bm.Row(), nFatent, ExpandStart(), tcl, scl, k, end);
          assert bm.Row()[..nFatent] == bm.bits;
        } else {
          lclst := scl - 1;
        }
      }
    }
  }

  // ----- what an object stands for -----

  /** The fields of FFOBJID which say where the chain is. */
  datatype Status = Status(sclust: nat, stat: nat, nCont: nat, nFrag: nat)

  /** The first links of the chain are implied, not on the FAT. */
  function FirstOnFat(o: Status): nat {
    if o.stat == 3 then o.nCont else 0
  }

  /** Links lo..hi-1 of the chain s are on the FAT. */
  ghost predicate OnFat(fat: seq<nat>, s: seq<nat>, lo: nat, hi: nat) {
    forall i :: lo <= i < hi && i + 1 < |s| ==> s[i] < |fat| && fat[s[i]] == s[i + 1]
  }

  ghost predicate Consecutive(s: seq<nat>, lo: nat, hi: nat) {
    forall i :: lo <= i < hi && i < |s| ==> s[i] == s[lo] + (i - lo)
  }

  ghost predicate Clusters(n: nat, s: seq<nat>) {
    |s| > 0 && Distinct(s) && forall i :: 0 <= i < |s| ==> 2 <= s[i] < n
  }

  /** The object stands for the chain s: wholly contiguous (2); or its first nCont + 1 clusters are contiguous and not
      on the FAT (3); or on the FAT (0). In the last two cases the last nFrag clusters are contiguous and their links
      are not on the FAT yet. */
  ghost predicate Denotes(o: Status, fat: seq<nat>, s: seq<nat>) {
    && Clusters(|fat|, s) && s[0] == o.sclust
    && match o.stat
       case 2 => o.nFrag == 0 && Consecutive(s, 0, |s|)
       case 3 =>
         && o.nCont + 1 + o.nFrag <= |s| && o.nCont + 1 < |s| && Consecutive(s, 0, o.nCont + 1)
         && TailDenotes(o, fat, s)
       case 0 => o.nFrag <= |s| && TailDenotes(o, fat, s)
       case _ => false
  }

  ghost predicate TailDenotes(o: Status, fat: seq<nat>, s: seq<nat>)
    requires |s| > 0 && o.nFrag <= |s| && Clusters(|fat|, s)
  {
    if o.nFrag == 0 then OnFat(fat, s, FirstOnFat(o), |s| - 1) && fat[Last(s)] == ExEoc
    else OnFat(fat, s, FirstOnFat(o), |s| - o.nFrag) && Consecutive(s, |s| - o.nFrag, |s|)
  }

  lemma InFirst(o: Status, fat: seq<nat>, s: seq<nat>, i: nat)
    requires Denotes(o, fat, s) && o.stat == 3 && i < |s|
    ensures i <= o.nCont <==> o.sclust <= s[i] <= o.sclust + o.nCont
    ensures i <= o.nCont ==> s[i] == o.sclust + i
  {
    if o.sclust <= s[i] <= o.sclust + o.nCont {
      assert s[s[i] - o.sclust] == s[i];
    }
  }

  class ExObject {
    const fs: ExVolume
    var sclust: nat
    var stat: nat
    var nCont: nat
    var nFrag: nat
    var objsize: nat
    const csz: nat      // bytes per cluster

    constructor (fs: ExVolume, csz: nat)
      requires 0 < csz
      ensures this.fs == fs && this.csz == csz && sclust == 0 && stat == 0 && nFrag == 0 && objsize == 0
    {
      this.fs, this.csz, sclust, stat, nCont, nFrag, objsize := fs, csz, 0, 0, 0, 0, 0;
    }

    function Now(): Status
      reads this`sclust, this`stat, this`nCont, this`nFrag
    {
      Status(sclust, stat, nCont, nFrag)
    }

    /** The object stands for s, whose clusters are in use. */
    ghost predicate Is(s: seq<nat>)
      reads this, fs.fat, fs.bm`winsect, fs.bm`wflag, fs.bm`bits, fs.bm`pad, fs.bm.disk, fs.bm.win
      ensures Is(s) ==> fs.Valid() && 0 < csz && |s| > 0
    {
      && fs.Valid() && 0 < csz && Denotes(Now(), fs.fat[..], s)
      && (stat == 3 ==> objsize > 0)
      && InUse(fs.bm.bits, s)
    }

    /** The size of a contiguous object says how many clusters it has. */
    predicate SizeFits(n: nat)
      requires 0 < csz
      reads this`stat, this`objsize
    {
      stat == 2 ==> objsize > 0 && (objsize - 1) / csz + 1 == n
    }

    /** The object stands for a chain of its size. */
    ghost predicate HasChain()
      reads this, fs.fat, fs.bm`winsect, fs.bm`wflag, fs.bm`bits, fs.bm`pad, fs.bm.disk, fs.bm.win
    {
      exists s: seq<nat> :: Is(s) && SizeFits(|s|)
    }

    /** get_fat. */
    method GetFat(clst: nat) returns (val: nat)
      requires fs.Valid() && 0 < csz
      ensures val == if clst < 2 || clst >= fs.nFatent then 1 else Link(Now(), objsize, csz, fs.fat[..], clst)
    {
      if clst < 2 || clst >= fs.nFatent { return 1; }
      if (objsize != 0 && sclust != 0) || stat == 0 {
        var cofs := (clst - sclust) % 0x1_0000_0000;
        if stat == 2 && cofs <= (objsize - 1) / csz {
          return if cofs == (objsize - 1) / csz then ExEoc else clst + 1;
        }
        if stat == 3 && cofs < nCont { return clst + 1; }
        if stat != 2 {
          return if nFrag != 0 then ExEoc else fs.fat[clst];
        }
      }
      val := 1;
    }

    /** fill_first_frag: the links implied by the status go to the FAT. */
    method FillFirstFrag(ghost s: seq<nat>)
      requires Is(s)
      modifies this`stat, fs.fat
      ensures Is(s) && stat == (if old(stat) == 3 then 0 else old(stat))
      ensures forall c :: 0 <= c < fs.nFatent && c !in s ==> fs.fat[c] == old(fs.fat[c])
    {
      hide Denotes, InUse, Clusters;
      if stat != 3 { return; }
      ghost var o, fat := Now(), fs.fat[..];
      FirstInside(o, fat, s);
      var cl, n := sclust, nCont;
      while n > 0
        invariant 0 <= n <= nCont && cl == sclust + (nCont - n) && fs.Valid() && Now() == o
        invariant forall c :: 0 <= c < fs.nFatent ==> fs.fat[c] == if sclust <= c < cl then c + 1 else fat[c]
      {
        var res := fs.PutFat(cl, cl + 1);
        cl, n := cl + 1, n - 1;
      }
      FirstFilled(o, fat, fs.fat[..], s);
      stat := 0;
    }

    /** fill_last_frag: the links of the last fragment, which ends at lcl, go to the FAT; its last cluster gets the link
        term. */
    method FillLastFrag(lcl: nat, term: nat, ghost s: seq<nat>)
      requires fs.Valid() && Clusters(fs.nFatent, s) && nFrag <= |s| && lcl == Last(s)
      requires Consecutive(s, |s| - nFrag, |s|)
      modifies this`nFrag, fs.fat
      ensures fs.Valid() && nFrag == 0
      ensures LastFilled(old(fs.fat[..]), fs.fat[..], s, old(nFrag), term % 0x8000_0000)
    {
      hide Clusters, Consecutive, LastFilled;
      ghost var fat, n := fs.fat[..], nFrag;
      LastInside(fs.nFatent, s, n);
      while nFrag > 0
        invariant nFrag <= n && fs.Valid()
        invariant forall c :: 0 <= c < fs.nFatent ==>
          fs.fat[c] == if lcl - n < c <= lcl - nFrag then (if c == lcl then term % 0x8000_0000 else c + 1) else fat[c]
      {
        var res := fs.PutFat(lcl - nFrag + 1, if nFrag > 1 then lcl - nFrag + 2 else term);
        nFrag := nFrag - 1;
      }
      RangeFilled(fat, fs.fat[..], s, n, term % 0x8000_0000);
    }

    /** What f_sync does for the chain: the whole chain is on the FAT, unless the object is contiguous. */
    method Flush(ghost s: seq<nat>, lcl: nat)
      requires Is(s) && lcl == Last(s)
      modifies this`stat, this`nFrag, fs.fat
      ensures Is(s) && nFrag == 0 && stat != 3
      ensures stat != 2 ==> IsChain(fs.fat[..], s)
      ensures forall c :: 0 <= c < fs.nFatent && c !in s ==> fs.fat[c] == old(fs.fat[c])
    {
      hide Denotes, TailDenotes, Clusters, Consecutive, LastFilled, InUse;
      FillFirstFrag(s);
      ghost var o, fat := Now(), fs.fat[..];
      FragmentEnds(o, fat, s);
      FillLastFrag(lcl, 0xFFFF_FFFF, s);
      LastIsFilled(o, fat, fs.fat[..], s);
    }

    /** create_chain at the end of the chain s, or for a new object: it fails just when no cluster is free; otherwise
        the object stands for s with one cluster more, which was free. */
    method CreateChain(clst: nat, ghost s: seq<nat>) returns (ncl: nat)
      requires fs.Valid() && 0 < csz && CountOk(fs.bm.bits, fs.freeClst)
      requires if clst == 0 then s == [] && nFrag == 0 else Is(s) && SizeFits(|s|) && clst == Last(s)
      modifies this, fs, fs.fat, fs.bm, fs.bm.disk, fs.bm.win
      ensures fs.Valid() && CountOk(fs.bm.bits, fs.freeClst)
      ensures ncl == 0 <==> NoneFree(old(fs.bm.bits))
      ensures ncl == 0 ==> fs.bm.bits == old(fs.bm.bits) && fs.fat[..] == old(fs.fat[..]) && Now() == old(Now())
      ensures ncl != 0 ==> 2 <= ncl < fs.nFatent && old(fs.bm.bits)[ncl] == 0 && fs.bm.bits == old(fs.bm.bits)[ncl := 1]
      ensures ncl != 0 && clst != 0 ==> Is(s + [ncl])
      ensures ncl != 0 && clst == 0 ==> Denotes(Now().(sclust := ncl), fs.fat[..], [ncl]) && stat == 2
      ensures sclust == old(sclust) && objsize == old(objsize)
      ensures forall c :: 0 <= c < fs.nFatent && c !in s ==> fs.fat[c] == old(fs.fat[c])
    {
      hide Denotes, Clusters, CountOk, InUse, LastFilled, NoneFree, fs.bm.Valid;
      ghost var o, fat, bitmap := Now(), fs.fat[..], fs.bm.bits;
      CountZero(bitmap, fs.freeClst);
      var scl := clst;
      if clst == 0 {
        scl := fs.lastClst;
        if scl == 0 || scl >= fs.nFatent { scl := 1; }
      } else {
        LinkOf(o, objsize, csz, fat, s, |s| - 1);
        ChainBounds(fat, o, s);
        var cs := GetFat(clst);
        if cs < 2 { assert false; }            // never reached: FR_INT_ERR of create_chain
        if cs < fs.nFatent { assert false; }   // never reached: clst is the last cluster
      }
      if fs.freeClst == 0 { return 0; }
      ncl := fs.MarkOne(scl);
      if ncl == 0 { return; }
      CountStep(bitmap, fs.freeClst, ncl, 1);
      if clst == 0 {
        stat := 2;
        NewChainDenotes(Now(), fat, ncl);
      } else {
        NotYetUsed(bitmap, s, ncl);
        Append(clst, ncl, s);
        StillInUse(bitmap, s, ncl);
      }
      fs.lastClst := ncl;
      if fs.freeClst <= fs.nFatent - 2 { fs.freeClst := fs.freeClst - 1; }
    }

    /** The part of create_chain which changes the status of the chain and its FAT entries. */
    method Append(clst: nat, ncl: nat, ghost s: seq<nat>)
      requires fs.Valid() && Denotes(Now(), fs.fat[..], s) && clst == Last(s) && 2 <= ncl < fs.nFatent && ncl !in s
      requires stat == 2 ==> objsize > 0
      requires stat == 3 ==> objsize > 0
      modifies this`stat, this`nCont, this`nFrag, fs.fat
      ensures fs.Valid() && Denotes(Now(), fs.fat[..], s + [ncl]) && (stat == 3 ==> objsize > 0)
      ensures forall c :: 0 <= c < fs.nFatent && c !in s ==> fs.fat[c] == old(fs.fat[c])
    {
      hide Denotes, Clusters, LastFilled, Consecutive;
      ghost var o, fat := Now(), fs.fat[..];
      StatusIs(o, fat, s);
      if stat == 2 && ncl != clst + 1 {
        nCont := clst - sclust;
        stat := 3;
      }
      if stat != 2 {
        if ncl == clst + 1 {
          AppendNext(o, fat, s, ncl);
          nFrag := if nFrag != 0 then nFrag + 1 else 2;
        } else {
          if nFrag == 0 { nFrag := 1; }
          FragmentEnds(o, fat, s);
          LastAlone(s);
          ghost var n := nFrag;
          FillLastFrag(clst, ncl, s);
          AppendFragment(o, fat, fs.fat[..], s, ncl, n);
          nFrag := 1;
        }
      } else {
        AppendContiguous(o, fat, s, ncl);
      }
    }

    /** remove_chain for the chain s from cluster k on, with no fragment pending: exactly that suffix becomes free, and
        the object stands for the clusters before it. pclst: the last of these, 0 for none. */
    method RemoveChain(clst: nat, pclst: nat, ghost s: seq<nat>, ghost k: nat) returns (res: FResult)
      requires Is(s) && SizeFits(|s|) && nFrag == 0 && CountOk(fs.bm.bits, fs.freeClst)
      requires k < |s| && s[k] == clst && pclst == if k == 0 then 0 else s[k - 1]
      modifies this`stat, fs`freeClst, fs.fat, fs.bm, fs.bm.disk, fs.bm.win
      ensures res == Ok && fs.Valid() && CountOk(fs.bm.bits, fs.freeClst)
      ensures forall c :: 0 <= c < fs.nFatent ==> fs.bm.bits[c] == if c in s[k..] then 0 else old(fs.bm.bits[c])
      ensures if k == 0 then stat == 0 else Is(s[..k])
      ensures forall c :: 0 <= c < fs.nFatent && c != pclst ==> fs.fat[c] == old(fs.fat[c])
    {
      hide Denotes, Clusters, CountOk, InUse, Link, Consecutive;
      ghost var o, fat := Now(), fs.fat[..];
      StatusIs(o, fat, s);
      ChainBounds(fat, o, s);
      Places(fat, o, s, k);
      if clst < 2 || clst >= fs.nFatent { assert false; }   // never reached: FR_INT_ERR of remove_chain
      if pclst != 0 && stat != 2 {
        res := fs.PutFat(pclst, 0xFFFF_FFFF);
      }
      ghost var fat' := fs.fat[..];
      if k > 0 { Kept(o, fat, fat', s, k); }
      RestDistinct(o, fat, s, k);
      FreeClusters(clst, s, k, fat);
      if pclst == 0 {
        stat := 0;
      } else {
        PrefixInUse(old(fs.bm.bits), fs.bm.bits, s, k);
        if stat == 0 {
          var contiguous := IsContiguous(pclst, s[..k]);
          if contiguous { stat := 2; }
        } else if stat == 3 && sclust <= pclst <= sclust + nCont {
          stat := 2;
        }
      }
      res := Ok;
    }

    /** The loop of remove_chain over the chain, which clears a block of consecutive clusters at a time. The FAT may
        have changed only before cluster k. */
    method FreeClusters(clst: nat, ghost s: seq<nat>, ghost k: nat, ghost fat: seq<nat>)
      requires fs.Valid() && 0 < csz && |fat| == fs.nFatent && Denotes(Now(), fat, s) && (stat == 3 ==> objsize > 0)
      requires SizeFits(|s|) && nFrag == 0
      requires InUse(fs.bm.bits, s) && CountOk(fs.bm.bits, fs.freeClst) && k < |s| && s[k] == clst
      requires forall i :: k <= i < |s| ==> s[i] < fs.nFatent && fs.fat[s[i]] == fat[s[i]]
      modifies fs`freeClst, fs.bm, fs.bm.disk, fs.bm.win
      ensures fs.Valid() && CountOk(fs.bm.bits, fs.freeClst)
      ensures forall c :: 0 <= c < fs.nFatent ==> fs.bm.bits[c] == if c in s[k..] then 0 else old(fs.bm.bits[c])
    {
      hide Denotes, CountOk, InUse, Link, Consecutive, Distinct, Clusters, Freed, fs.Valid, fs.bm.Valid;
      ghost var o, bm, free := Now(), fs.bm.bits, fs.freeClst;
      ChainBounds(fat, o, s);
      SuffixCount(bm, free, s, k, fs.nFatent);
      var c, scl, ecl := clst, clst, clst;
      ghost var b, j := k, k;
      BlockStarts(s, k);
      NothingFreed(bm, s, k);
      while true
        invariant k <= b <= j < |s| && c == ecl == s[j] && scl == s[b] && fs.Valid()
        invariant Consecutive(s, b, j + 1)
        invariant Freed(bm, fs.bm.bits, s, k, b)
        invariant fs.freeClst == if free > fs.nFatent - 2 then free else free + (j - k)
        decreases |s| - j
      {
        BlockEnds(s, b, j);
        var nxt := TakeOff(c, s, j, fat);
        if ecl + 1 == nxt {
          ecl := nxt;
          BlockGrows(s, b, j);
        } else {
          FreeBlock(scl, ecl, s, k, b, j, bm);
          scl, ecl := nxt, nxt;
          b := j + 1;
          if b < |s| { BlockStarts(s, b); }
        }
        c := nxt;
        j := j + 1;
        if c >= fs.nFatent { break; }
      }
      AllFreed(bm, fs.bm.bits, s, k);
      ClearedCount(bm, fs.bm.bits, s[k..], free);
    }

    /** The start of the loop of remove_chain: the link of cluster j of the chain, which is counted as free. */
    method TakeOff(c: nat, ghost s: seq<nat>, ghost j: nat, ghost fat: seq<nat>) returns (nxt: nat)
      requires fs.Valid() && 0 < csz && |fat| == fs.nFatent && Denotes(Now(), fat, s)
      requires (stat == 3 ==> objsize > 0) && SizeFits(|s|) && nFrag == 0
      requires j < |s| && s[j] == c < fs.nFatent && fs.fat[c] == fat[c]
      modifies fs`freeClst
      ensures fs.Valid() && nxt == if j + 1 < |s| then s[j + 1] else ExEoc
      ensures j + 1 < |s| ==> 2 <= nxt < fs.nFatent
      ensures fs.freeClst == if old(fs.freeClst) < fs.nFatent - 2 then old(fs.freeClst) + 1 else old(fs.freeClst)
    {
      hide Denotes, Link, fs.Valid;
      ghost var o := Now();
      LinkOf(o, objsize, csz, fat, s, j);
      SameLink(o, objsize, csz, fat, fs.fat[..], c);
      Places(fat, o, s, j);
      if j + 1 < |s| { Places(fat, o, s, j + 1); }
      nxt := GetFat(c);
      if nxt == 0 { assert false; }   // never reached: a free cluster in the chain
      if nxt == 1 { assert false; }   // never reached: remove_chain's FR_INT_ERR
      if fs.freeClst < fs.nFatent - 2 { fs.freeClst := fs.freeClst + 1; }
    }

    /** change_bitmap for a block of clusters of the chain, the last of those from k on which are free already. */
    method FreeBlock(scl: nat, ecl: nat, ghost s: seq<nat>, ghost k: nat, ghost b: nat, ghost j: nat,
        ghost bm: seq<nat>)
      requires fs.Valid() && k <= b <= j < |s| && scl == s[b] && ecl == s[j] && Consecutive(s, b, j + 1)
      requires Clusters(fs.nFatent, s) && InUse(bm, s) && Freed(bm, fs.bm.bits, s, k, b)
      modifies fs.bm, fs.bm.disk, fs.bm.win
      ensures fs.Valid() && Freed(bm, fs.bm.bits, s, k, j + 1)
    {
      hide InUse, Consecutive;
      BlockEnds(s, b, j);
      ghost var before := fs.bm.bits;
      BlockUsed(bm, before, s, k, b, j);
      var res, _ := fs.bm.ChangeBitmap(scl, ecl - scl + 1, 0);
      BlockCleared(bm, before, fs.bm.bits, s, k, b, j);
    }

    /** The clusters a file of this size takes. */
    function ClustersFor(fsz: nat): nat
      requires 0 < csz
    {
      fsz / csz + if fsz % csz != 0 then 1 else 0
    }

    /** f_expand on exFAT, with the bits behind the map which a block can reach on the disk. It takes the first free run
        in scan order. With opt, where the run does not cross the end of the table, the object then stands for it; where
        it does, the clusters at the start of the table stay free, and unless a bit behind the map is set the object
        stands for no chain at all. */
    method Expand(fsz: nat, opt: bool) returns (res: FResult, scl: nat, ghost k: nat)
      requires fs.Valid() && 0 < csz && nFrag == 0 && fs.nFatent + ClustersFor(fsz) <= |fs.bm.Row()|
      modifies this, fs, fs.bm, fs.bm.disk, fs.bm.win
      ensures fs.Valid() && (res == Ok || res == Denied || res == IntErr)
      ensures fsz == 0 || old(objsize) != 0 ==> res == Denied
      ensures res == Denied || !opt ==> fs.bm.Row() == old(fs.bm.Row())
      ensures res != Ok || !opt ==>
        fs.freeClst == old(fs.freeClst) && Now() == old(Now()) && objsize == old(objsize)
      ensures res != Ok ==> fs.lastClst == old(fs.lastClst)
      ensures fsz != 0 && old(objsize) == 0 ==>
        var tcl, start, bits := ClustersFor(fsz), old(fs.ExpandStart()), old(fs.bm.bits);
        && (res == Denied <==> forall i: nat :: !FreeRun(bits, start, i, tcl))
        && (res != Denied ==> FirstRun(bits, start, k, tcl) && scl == ScanAt(fs.nFatent, start, k))
        && (res != Denied && !opt ==> res == Ok && fs.lastClst == scl - 1)
        && (res != Denied && opt ==> BlockMarked(res, old(fs.bm.Row()), fs.nFatent, scl, tcl, fs.bm.bits))
        && (res == Ok && opt ==> fs.lastClst == scl + tcl - 1)
        // the object stands for a chain of its size just when the first run does not cross the end of the table
        && (res == Ok && opt ==>
              (HasChain() <==> FirstRunFits(bits, start, tcl))
              && (FirstRunFits(bits, start, tcl) ==> Is(Numbers(scl, tcl)) && SizeFits(tcl)))
        && (opt && FirstRunFits(bits, start, tcl) ==> res == Ok)
        && (opt && FirstRunFits(bits, start, tcl) && old(CountOk(fs.bm.bits, fs.freeClst)) ==>
              CountOk(fs.bm.bits, fs.freeClst))
    {
      hide fs.Valid, fs.bm.Valid, Found, FreeRun, FirstRun, FirstRunFits, CountOk, BlockMarked, Is, HasChain, Numbers;
      scl, k := 0, 0;
      if fsz == 0 || objsize != 0 { return Denied, scl, k; }
      var tcl := fsz / csz + if fsz % csz != 0 then 1 else 0;
      SizeRounds(fsz, csz);
      var lclst;
      ghost var start, row, bits := fs.ExpandStart(), fs.bm.Row(), fs.bm.bits;
      res, scl, lclst, k := fs.FindAndMark(tcl, opt);
      RunFound(bits, start, tcl, scl, k);
      assert row[..fs.nFatent] == bits;
      if res == Ok {
        fs.lastClst := lclst;
        if opt {
          sclust, stat, objsize := scl, 2, fsz;
          if fs.freeClst <= fs.nFatent - 2 { fs.freeClst := (fs.freeClst - tcl) % 0x1_0000_0000; }
          ObjectExpanded(row, scl, tcl);
        }
      }
      if scl != 0 && opt { RunMarked(res, row, fs.nFatent, scl, tcl, fs.bm.bits, old(fs.freeClst)); }
    }

    lemma ObjectExpanded(row: seq<nat>, scl: nat, tcl: nat)
      requires fs.Valid() && 0 < csz && 0 < tcl && BlockMarked(Ok, row, fs.nFatent, scl, tcl, fs.bm.bits)
      requires Now() == Status(scl, 2, nCont, 0) && SizeFits(tcl)
      ensures HasChain() <==> scl + tcl <= fs.nFatent
      ensures scl + tcl <= fs.nFatent ==> Is(Numbers(scl, tcl))
    {
      hide Denotes;
      if scl + tcl <= fs.nFatent {
        NumbersDenote(Now(), fs.fat[..], scl, tcl);
        assert Is(Numbers(scl, tcl)) && SizeFits(|Numbers(scl, tcl)|);
      } else {
        NoChain(Now(), fs.fat[..], scl, tcl);
      }
    }

    /** The loop of remove_chain which looks whether a chain on the FAT is contiguous up to its end. */
    method IsContiguous(last: nat, ghost s: seq<nat>) returns (yes: bool)
      requires fs.Valid() && 0 < csz && Denotes(Now(), fs.fat[..], s) && stat == 0 && nFrag == 0 && last == Last(s)
      ensures yes <==> Consecutive(s, 0, |s|)
    {
      hide Denotes, Link, Clusters;
      ghost var o, fat := Now(), fs.fat[..];
      ChainBounds(fat, o, s);
      var clst := sclust;
      ghost var i := 0;
      StartsAt(o, fat, s);
      while clst != last
        invariant i < |s| && clst == s[i] && (clst == last <==> i + 1 == |s|)
        invariant forall j :: 0 <= j <= i ==> s[j] == s[0] + j
        decreases |s| - i
      {
        LinkOf(o, objsize, csz, fat, s, i);
        Places(fat, o, s, i);
        Places(fat, o, s, i + 1);
        var nxt := GetFat(clst);
        if nxt < 2 { assert false; }   // never reached: FR_INT_ERR of remove_chain
        if nxt != clst + 1 { break; }
        clst := clst + 1;
        i := i + 1;
        LastOnly(o, fat, s, i);
      }
      yes := clst == last;
    }
  }

  /** find_bitmap asked for one cluster: 0 just when none is free, otherwise a free one. */
  lemma FoundOne(b: seq<nat>, start: nat, r: nat, k: nat)
    requires 2 <= start < |b|
    requires if r == 0 then forall i: nat ::
      !FreeRun(b, start, i, 1) else FirstRun(b, start, k, 1) && r == ScanAt(|b|, start, k)
    ensures r == 0 <==> NoneFree(b)
    ensures r != 0 ==> 2 <= r < |b| && b[r] == 0
  {
    if r == 0 {
      forall c | 2 <= c < |b| ensures b[c] != 0 {
        var i: nat := if start <= c then c - start else c - start + |b| - 2;
        assert !FreeRun(b, start, i, 1);
      }
    }
  }

  lemma Places(fat: seq<nat>, o: Status, s: seq<nat>, k: nat)
    requires Denotes(o, fat, s) && k < |s|
    ensures 2 <= s[k] < |fat| && (k > 0 ==> 2 <= s[k - 1] < |fat|)
  {
  }

  lemma StartsAt(o: Status, fat: seq<nat>, s: seq<nat>)
    requires Denotes(o, fat, s)
    ensures |s| > 0 && s[0] == o.sclust && (s[0] == Last(s) <==> |s| == 1)
  {
  }

  lemma LastOnly(o: Status, fat: seq<nat>, s: seq<nat>, i: nat)
    requires Denotes(o, fat, s) && i < |s|
    ensures s[i] == Last(s) <==> i + 1 == |s|
  {
  }

  lemma SameLink(o: Status, objsize: nat, csz: nat, fat: seq<nat>, fat': seq<nat>, c: nat)
    requires 0 < csz && c < |fat| == |fat'| && fat[c] == fat'[c]
    ensures Link(o, objsize, csz, fat, c) == Link(o, objsize, csz, fat', c)
  {
  }

  lemma BlockStarts(s: seq<nat>, b: nat)
    requires b < |s|
    ensures Consecutive(s, b, b + 1)
  {
  }

  lemma BlockEnds(s: seq<nat>, b: nat, j: nat)
    requires b <= j < |s| && Consecutive(s, b, j + 1)
    ensures s[j] == s[b] + (j - b)
  {
  }

  lemma BlockGrows(s: seq<nat>, b: nat, j: nat)
    requires b <= j && Consecutive(s, b, j + 1) && j + 1 < |s| && s[j + 1] == s[j] + 1
    ensures Consecutive(s, b, j + 2)
  {
    assert s[j] == s[b] + (j - b);
  }

  /** The clusters k..b-1 of the chain are free, the others as they were. */
  ghost predicate Freed(bm: seq<nat>, now: seq<nat>, s: seq<nat>, k: nat, b: nat)
    requires k <= b <= |s|
  {
    |now| == |bm| && forall x :: 0 <= x < |bm| ==> now[x] == if x in s[k..b] then 0 else bm[x]
  }

  lemma NothingFreed(bm: seq<nat>, s: seq<nat>, k: nat)
    requires k <= |s|
    ensures Freed(bm, bm, s, k, k)
  {
  }

  lemma AllFreed(bm: seq<nat>, now: seq<nat>, s: seq<nat>, k: nat)
    requires k <= |s| && Freed(bm, now, s, k, |s|)
    ensures |now| == |bm| && forall c :: 0 <= c < |bm| ==> now[c] == if c in s[k..] then 0 else bm[c]
  {
    assert s[k..|s|] == s[k..];
  }

  lemma BlockUsed(bm: seq<nat>, now: seq<nat>, s: seq<nat>, k: nat, b: nat, j: nat)
    requires k <= b <= j < |s| && Consecutive(s, b, j + 1) && Distinct(s) && InUse(bm, s) && Freed(bm, now, s, k, b)
    ensures s[b] + (j - b) < |now|
    ensures forall x :: s[b] <= x <= s[b] + (j - b) ==> now[x] == 1
  {
    assert s[j] == s[b] + (j - b);
    forall x | s[b] <= x <= s[b] + (j - b) ensures now[x] == 1 {
      var i := b + (x - s[b]);
      assert s[i] == x;
      forall m | 0 <= m < b - k ensures s[k..b][m] != x { assert s[k..b][m] == s[k + m]; }
    }
  }

  lemma BlockCleared(bm: seq<nat>, before: seq<nat>, now: seq<nat>, s: seq<nat>, k: nat, b: nat, j: nat)
    requires k <= b <= j < |s| && Consecutive(s, b, j + 1) && |now| == |before| && Freed(bm, before, s, k, b)
    requires forall x :: 0 <= x < |bm| ==> now[x] == if s[b] <= x < s[b] + (j + 1 - b) then 0 else before[x]
    ensures Freed(bm, now, s, k, j + 1)
  {
    var hi := j + 1;
    var block := s[b..hi];
    assert s[k..hi] == s[k..b] + block;
    forall x | 0 <= x < |bm| ensures x in block <==> s[b] <= x < s[b] + (hi - b) {
      if s[b] <= x < s[b] + (hi - b) { RunMember(s, b, hi, x); }
      if x in block {
        var i :| 0 <= i < hi - b && block[i] == x;
        assert s[b + i] == s[b] + i;
      }
    }
  }

  /** The suffix of the chain and the free count before it is freed. */
  lemma SuffixCount(bm: seq<nat>, free: nat, s: seq<nat>, k: nat, n: nat)
    requires |bm| == n >= 3 && CountOk(bm, free) && InUse(bm, s) && Clusters(n, s) && k <= |s|
    ensures free <= n - 2 ==> free + (|s| - k) <= n - 2
    ensures Distinct(s[k..]) && InUse(bm, s[k..]) && forall i :: 0 <= i < |s[k..]| ==> 2 <= s[k..][i] < n
  {
    ClearedBound(bm, s[k..]);
  }

  function Cleared(bm: seq<nat>, t: seq<nat>): (r: seq<nat>)
    requires forall i :: 0 <= i < |t| ==> t[i] < |bm|
    ensures |r| == |bm|
  {
    if t == [] then bm else Cleared(bm, t[..|t| - 1])[t[|t| - 1] := 0]
  }

  lemma {:induction false} ClearedBound(bm: seq<nat>, t: seq<nat>)
    requires |bm| >= 3 && Distinct(t) && (forall i :: 0 <= i < |t| ==> 2 <= t[i] < |bm|) && InUse(bm, t)
    ensures FreeCount(Cleared(bm, t)) == FreeCount(bm) + |t| <= |bm| - 2
    ensures forall c :: 0 <= c < |bm| ==> Cleared(bm, t)[c] == if c in t then 0 else bm[c]
    decreases |t|
  {
    FreeBelowBounds(Cleared(bm, t), |bm|);
    if t != [] {
      var u, c := t[..|t| - 1], t[|t| - 1];
      ClearedBound(bm, u);
      assert t == u + [c];
      FreeBelowUpdate(Cleared(bm, u), |bm|, c, 0);
    }
  }

  lemma ClearedCount(bm: seq<nat>, now: seq<nat>, t: seq<nat>, free: nat)
    requires |now| == |bm| >= 3 && CountOk(bm, free) && Distinct(t) && (forall i :: 0 <= i < |t| ==> 2 <= t[i] < |bm|)
    requires InUse(bm, t)
    requires forall c :: 0 <= c < |bm| ==> now[c] == if c in t then 0 else bm[c]
    ensures CountOk(now, if free > |bm| - 2 then free else free + |t|)
  {
    ClearedBound(bm, t);
    assert now == Cleared(bm, t);
  }

  lemma RestDistinct(o: Status, fat: seq<nat>, s: seq<nat>, k: nat)
    requires Denotes(o, fat, s) && k < |s|
    ensures forall i :: k <= i < |s| ==> s[i] < |fat| && (k > 0 ==> s[i] != s[k - 1])
  {
  }

  lemma PrefixInUse(bm: seq<nat>, now: seq<nat>, s: seq<nat>, k: nat)
    requires 0 < k <= |s| && |now| == |bm| && InUse(bm, s) && Distinct(s)
    requires forall c :: 0 <= c < |bm| ==> now[c] == if c in s[k..] then 0 else bm[c]
    ensures InUse(now, s[..k])
  {
    forall i | 0 <= i < k ensures s[i] !in s[k..] { }
  }

  /** The clusters that are kept: the status stands for them, or would if it said that they are contiguous. */
  lemma Kept(o: Status, fat: seq<nat>, fat': seq<nat>, s: seq<nat>, k: nat)
    requires Denotes(o, fat, s) && o.nFrag == 0 && 0 < k < |s|
    requires fat' == if o.stat == 2 then fat else fat[s[k - 1] := ExEoc]
    ensures o.stat == 3 ==> (o.sclust <= s[k - 1] <= o.sclust + o.nCont <==> k <= o.nCont + 1)
    ensures if o.stat == 3 && k <= o.nCont + 1 then Denotes(o.(stat := 2), fat', s[..k]) else Denotes(o, fat', s[..k])
    ensures o.stat == 0 && Consecutive(s[..k], 0, k) ==> Denotes(o.(stat := 2), fat', s[..k])
  {
    if o.stat == 3 { InFirst(o, fat, s, k - 1); }
    assert Clusters(|fat'|, s[..k]);
    if o.stat != 2 { KeptLinks(fat, s, k, FirstOnFat(o)); }
    hide OnFat;
  }

  lemma KeptLinks(fat: seq<nat>, s: seq<nat>, k: nat, lo: nat)
    requires Clusters(|fat|, s) && 0 < k < |s| && OnFat(fat, s, lo, |s| - 1)
    ensures var fat', t := fat[s[k - 1] := ExEoc], s[..k]; OnFat(fat', t, lo, k - 1) && fat'[Last(t)] == ExEoc
  {
    var fat', t := fat[s[k - 1] := ExEoc], s[..k];
    forall i | lo <= i < k - 1 && i + 1 < |t| ensures t[i] < |fat'| && fat'[t[i]] == t[i + 1] {
      assert fat[s[i]] == s[i + 1];
    }
  }

  lemma ChainBounds(fat: seq<nat>, o: Status, s: seq<nat>)
    requires Denotes(o, fat, s)
    ensures |s| > 0 && 2 <= Last(s) < |fat| && Clusters(|fat|, s) && Distinct(s)
  {
  }

  lemma StatusIs(o: Status, fat: seq<nat>, s: seq<nat>)
    requires Denotes(o, fat, s)
    ensures o.stat == 0 || o.stat == 2 || o.stat == 3
    ensures |s| > 0 && (o.stat == 2 ==> Last(s) == o.sclust + (|s| - 1))
  {
    if o.stat == 2 {
      var last := |s| - 1;
      assert s[last] == s[0] + last;
    }
  }

  lemma LastAlone(s: seq<nat>)
    requires |s| > 0
    ensures Consecutive(s, |s| - 1, |s|)
  {
  }

  lemma NotYetUsed(bitmap: seq<nat>, s: seq<nat>, c: nat)
    requires InUse(bitmap, s) && c < |bitmap| && bitmap[c] == 0
    ensures c !in s
  {
  }

  lemma StillInUse(bitmap: seq<nat>, s: seq<nat>, c: nat)
    requires InUse(bitmap, s) && c < |bitmap|
    ensures InUse(bitmap[c := 1], s + [c])
  {
  }

  lemma NewChainDenotes(o: Status, fat: seq<nat>, c: nat)
    requires 2 <= c < |fat| && o.stat == 2 && o.nFrag == 0
    ensures Denotes(o.(sclust := c), fat, [c])
  {
  }

  lemma MoreClusters(n: nat, s: seq<nat>, c: nat)
    requires Clusters(n, s) && 2 <= c < n && c !in s
    ensures Clusters(n, s + [c])
  {
  }

  lemma AppendContiguous(o: Status, fat: seq<nat>, s: seq<nat>, c: nat)
    requires Denotes(o, fat, s) && o.stat == 2 && c == Last(s) + 1 && 2 <= c < |fat| && c !in s
    ensures Denotes(o, fat, s + [c])
  {
    MoreClusters(|fat|, s, c);
    StatusIs(o, fat, s);
  }

  /** A cluster behind the last one joins the last fragment. */
  lemma AppendNext(o: Status, fat: seq<nat>, s: seq<nat>, c: nat)
    requires Denotes(o, fat, s) && o.stat != 2 && c == Last(s) + 1 && 2 <= c < |fat| && c !in s
    ensures Denotes(o.(nFrag := if o.nFrag != 0 then o.nFrag + 1 else 2), fat, s + [c])
  {
    MoreClusters(|fat|, s, c);
    var n := if o.nFrag != 0 then o.nFrag else 1;
    LastAlone(s);
    ConsecutiveGrown(s, |s| - n, c);
    LinksKept(fat, s, c, FirstOnFat(o), |s| - n);
  }

  lemma ConsecutiveGrown(s: seq<nat>, lo: nat, c: nat)
    requires lo < |s| && Consecutive(s, lo, |s|) && c == Last(s) + 1
    ensures Consecutive(s + [c], lo, |s| + 1)
  {
    var last := |s| - 1;
    assert s[last] == s[lo] + (last - lo);
  }

  lemma LinksKept(fat: seq<nat>, s: seq<nat>, c: nat, lo: nat, hi: nat)
    requires OnFat(fat, s, lo, hi) && hi < |s|
    ensures OnFat(fat, s + [c], lo, hi)
  {
    var t := s + [c];
    forall i | lo <= i < hi && i + 1 < |t| ensures t[i] < |fat| && fat[t[i]] == t[i + 1] {
      assert fat[s[i]] == s[i + 1];
    }
  }

  /** Any other cluster starts a new fragment, once the last one is linked to it on the FAT. */
  lemma AppendFragment(o: Status, fat: seq<nat>, fat': seq<nat>, s: seq<nat>, c: nat, n: nat)
    requires Denotes(o, fat, s) && c != Last(s) + 1 && 2 <= c < |fat| && c !in s
    requires n == (if o.nFrag == 0 then 1 else o.nFrag) <= |s| && LastFilled(fat, fat', s, n, c)
    ensures var o1 := if o.stat == 2 then o.(nCont := |s| - 1, stat := 3) else o;
            Denotes(o1.(nFrag := 1), fat', s + [c])
    ensures forall d :: 0 <= d < |fat| && d !in s ==> fat'[d] == fat[d]
  {
    hide Denotes, OnFat, Consecutive, Clusters, LastFilled, TailDenotes;
    ChainBounds(fat, o, s);
    StatusIs(o, fat, s);
    StartsAt(o, fat, s);
    MoreClusters(|fat|, s, c);
    var o1 := if o.stat == 2 then o.(nCont := |s| - 1, stat := 3) else o;
    FirstPart(o, fat, s, c, n);
    LinksGrown(fat, fat', s, c, n, FirstOnFat(o1));
    LastAlone(s + [c]);
    FragmentDenotes(o1.(nFrag := 1), fat', s + [c]);
  }

  lemma FragmentDenotes(o: Status, fat: seq<nat>, s: seq<nat>)
    requires Clusters(|fat|, s) && s[0] == o.sclust && o.nFrag == 1 && |s| > 1
    requires OnFat(fat, s, FirstOnFat(o), |s| - 1) && Consecutive(s, |s| - 1, |s|)
    requires o.stat == 0 || (o.stat == 3 && o.nCont + 2 <= |s| && Consecutive(s, 0, o.nCont + 1))
    ensures Denotes(o, fat, s)
  {
    hide OnFat, Consecutive, Clusters;
  }

  /** What the status says of the clusters before the last fragment, when a cluster which does not follow is added. */
  lemma FirstPart(o: Status, fat: seq<nat>, s: seq<nat>, c: nat, n: nat)
    requires Denotes(o, fat, s) && n == (if o.nFrag == 0 then 1 else o.nFrag) <= |s|
    ensures var o1 := if o.stat == 2 then o.(nCont := |s| - 1, stat := 3) else o;
            && OnFat(fat, s, FirstOnFat(o1), |s| - n)
            && (o1.stat == 3 ==> o1.nCont + 1 <= |s| && Consecutive(s + [c], 0, o1.nCont + 1))
  {
  }

  lemma LinksGrown(fat: seq<nat>, fat': seq<nat>, s: seq<nat>, c: nat, n: nat, lo: nat)
    requires Clusters(|fat|, s) && 0 < n <= |s| && LastFilled(fat, fat', s, n, c) && OnFat(fat, s, lo, |s| - n)
    ensures |fat'| == |fat| && OnFat(fat', s + [c], lo, |s|)
    ensures forall d :: 0 <= d < |fat| && d !in s ==> fat'[d] == fat[d]
  {
    var t, m := s + [c], |s| - n;
    forall i | lo <= i < |s| && i + 1 < |t| ensures t[i] < |fat'| && fat'[t[i]] == t[i + 1] {
      if i < m {
        assert fat[s[i]] == s[i + 1];
        assert s[i] !in s[m..];
      } else {
        assert fat'[s[i]] == After(s, i, c);
      }
    }
  }

  ghost predicate InUse(bitmap: seq<nat>, s: seq<nat>) {
    forall i :: 0 <= i < |s| ==> s[i] < |bitmap| && bitmap[s[i]] == 1
  }

  /** The link which get_fat reports for a cluster in range. */
  function Link(o: Status, objsize: nat, csz: nat, fat: seq<nat>, clst: nat): nat
    requires 0 < csz && clst < |fat|
  {
    var cofs := (clst - o.sclust) % 0x1_0000_0000;
    if !((objsize != 0 && o.sclust != 0) || o.stat == 0) then 1
    else if o.stat == 2 && cofs <= (objsize - 1) / csz then if cofs == (objsize - 1) / csz then ExEoc else clst + 1
    else if o.stat == 3 && cofs < o.nCont then clst + 1
    else if o.stat == 2 then 1
    else if o.nFrag != 0 then ExEoc
    else fat[clst]
  }

  /** At the last cluster get_fat reports the end; elsewhere the next cluster, once nothing is pending. */
  lemma LinkOf(o: Status, objsize: nat, csz: nat, fat: seq<nat>, s: seq<nat>, i: nat)
    requires Denotes(o, fat, s) && 0 < csz && |fat| < ExEoc && (o.stat == 3 ==> objsize > 0) && i < |s|
    requires o.stat == 2 ==> objsize > 0 && (objsize - 1) / csz + 1 == |s|
    ensures s[i] < |fat|
    ensures i + 1 == |s| ==> Link(o, objsize, csz, fat, s[i]) == ExEoc
    ensures i + 1 < |s| && o.nFrag == 0 ==> Link(o, objsize, csz, fat, s[i]) == s[i + 1]
  {
    if o.stat == 2 {
      assert s[i] == s[0] + i;
      CofsOf(o, s[i], i);
    } else {
      if o.stat == 3 {
        InFirst(o, fat, s, i);
        assert s[o.nCont] == o.sclust + o.nCont;
        if i <= o.nCont { CofsOf(o, s[i], i); } else { CofsFar(o, s[i]); }
      }
      assert i + 1 < |s| && o.nFrag == 0 && FirstOnFat(o) <= i ==> fat[s[i]] == s[i + 1];
      assert i + 1 < |s| && i < o.nCont && o.stat == 3 ==> s[i + 1] == s[0] + (i + 1);
    }
  }

  lemma CofsOf(o: Status, c: nat, i: nat)
    requires c == o.sclust + i && i < 0x8000_0000
    ensures (c - o.sclust) % 0x1_0000_0000 == i
  {
  }

  lemma CofsFar(o: Status, c: nat)
    requires !(o.sclust <= c <= o.sclust + o.nCont) && c < 0x8000_0000 && o.sclust < 0x8000_0000
    requires o.nCont < 0x8000_0000
    ensures (c - o.sclust) % 0x1_0000_0000 > o.nCont
  {
  }

  /** The cluster behind cluster i of the chain, or the end mark. */
  function After(s: seq<nat>, i: nat, term: nat): nat {
    if i + 1 < |s| then s[i + 1] else term
  }

  /** The last n links of the chain have gone to the FAT, the very last one as term. */
  ghost predicate LastFilled(fat: seq<nat>, fat': seq<nat>, s: seq<nat>, n: nat, term: nat)
    requires n <= |s|
  {
    && |fat'| == |fat|
    && (forall i :: |s| - n <= i < |s| ==> s[i] < |fat'| && fat'[s[i]] == After(s, i, term))
    && forall c :: 0 <= c < |fat| && c !in s[|s| - n..] ==> fat'[c] == fat[c]
  }

  /** A number in a contiguous part of the chain is one of its clusters. */
  lemma RunMember(s: seq<nat>, lo: nat, hi: nat, c: nat)
    requires lo < hi <= |s| && Consecutive(s, lo, hi) && s[lo] <= c < s[lo] + (hi - lo)
    ensures c in s[lo..hi] && c in s
  {
    var j := lo + (c - s[lo]);
    assert s[j] == c && s[lo..hi][j - lo] == c;
  }

  lemma LastInside(nFatent: nat, s: seq<nat>, n: nat)
    requires Clusters(nFatent, s) && n <= |s| && Consecutive(s, |s| - n, |s|)
    ensures Last(s) < nFatent && (n > 0 ==> s[|s| - n] == Last(s) - (n - 1) && 2 <= Last(s) - (n - 1))
  {
    if n > 0 {
      var last := |s| - 1;
      assert s[last] == s[|s| - n] + (last - (|s| - n));
    }
  }

  lemma RangeFilled(fat: seq<nat>, fat': seq<nat>, s: seq<nat>, n: nat, term: nat)
    requires Clusters(|fat|, s) && n <= |s| && Consecutive(s, |s| - n, |s|) && |fat'| == |fat|
    requires forall c :: 0 <= c < |fat| ==>
      fat'[c] == if Last(s) - n < c <= Last(s) then (if c == Last(s) then term else c + 1) else fat[c]
    ensures LastFilled(fat, fat', s, n, term)
  {
    LastInside(|fat|, s, n);
    var lo := |s| - n;
    forall i | lo <= i < |s| ensures s[i] < |fat'| && fat'[s[i]] == After(s, i, term) {
      assert s[i] == s[lo] + (i - lo);
      if i + 1 < |s| { assert s[i + 1] == s[lo] + (i + 1 - lo); }
    }
    forall c | 0 <= c < |fat| && c !in s[lo..] ensures fat'[c] == fat[c] {
      if Last(s) - n < c <= Last(s) { RunMember(s, lo, |s|, c); }
    }
  }

  lemma FirstInside(o: Status, fat: seq<nat>, s: seq<nat>)
    requires Denotes(o, fat, s) && o.stat == 3
    ensures 2 <= o.sclust && o.sclust + o.nCont < |fat|
  {
    assert s[o.nCont] == o.sclust + o.nCont;
  }

  lemma FirstFilled(o: Status, fat: seq<nat>, fat': seq<nat>, s: seq<nat>)
    requires Denotes(o, fat, s) && o.stat == 3 && |fat'| == |fat|
    requires forall c :: 0 <= c < |fat| ==> fat'[c] == if o.sclust <= c < o.sclust + o.nCont then c + 1 else fat[c]
    ensures Denotes(o.(stat := 0), fat', s)
    ensures forall c :: 0 <= c < |fat| && c !in s ==> fat'[c] == fat[c]
  {
    forall c | 0 <= c < |fat| && c !in s ensures fat'[c] == fat[c] {
      if o.sclust <= c < o.sclust + o.nCont { RunMember(s, 0, o.nCont + 1, c); }
    }
    forall i | 0 <= i < o.nCont ensures fat'[s[i]] == s[i + 1] {
      assert s[i] == o.sclust + i && s[i + 1] == o.sclust + (i + 1);
    }
    forall i | o.nCont <= i < |s| ensures fat'[s[i]] == fat[s[i]] {
      InFirst(o, fat, s, i);
    }
    var hi := if o.nFrag == 0 then |s| - 1 else |s| - o.nFrag;
    forall i | 0 <= i < hi && i + 1 < |s| ensures s[i] < |fat'| && fat'[s[i]] == s[i + 1] {
      if i >= o.nCont { assert fat[s[i]] == s[i + 1]; }
    }
  }

  lemma FragmentEnds(o: Status, fat: seq<nat>, s: seq<nat>)
    requires Denotes(o, fat, s)
    ensures Clusters(|fat|, s) && o.nFrag <= |s| && Consecutive(s, |s| - o.nFrag, |s|)
  {
  }

  lemma LastLink(o: Status, fat: seq<nat>, fat': seq<nat>, s: seq<nat>)
    requires Denotes(o, fat, s) && o.stat != 2 && LastFilled(fat, fat', s, o.nFrag, ExEoc)
    ensures fat'[Last(s)] == ExEoc
  {
    var last := |s| - 1;
    if o.nFrag == 0 {
      assert s[last] !in s[|s|..];
    } else {
      assert fat'[s[last]] == After(s, last, ExEoc);
    }
  }

  lemma LastIsFilled(o: Status, fat: seq<nat>, fat': seq<nat>, s: seq<nat>)
    requires Denotes(o, fat, s) && o.stat != 3 && LastFilled(fat, fat', s, o.nFrag, ExEoc) && |fat| < ExEoc
    ensures Denotes(o.(nFrag := 0), fat', s) && (o.stat != 2 ==> IsChain(fat', s))
    ensures forall c :: 0 <= c < |fat| && c !in s ==> fat'[c] == fat[c]
  {
    var m := |s| - o.nFrag;
    forall i | 0 <= i < m ensures fat'[s[i]] == fat[s[i]] {
      assert s[i] !in s[m..];
    }
    if o.stat != 2 {
      LastLink(o, fat, fat', s);
      assert OnFat(fat', s, 0, |s| - 1) by {
        forall i | 0 <= i < |s| - 1 ensures s[i] < |fat'| && fat'[s[i]] == s[i + 1] {
          if i < m { assert fat[s[i]] == s[i + 1]; }
        }
      }
      forall i: nat | i < |s| ensures Linked(fat', s, i) { }
    }
  }

  // ----- what f_expand takes -----

  lemma SizeRounds(fsz: nat, csz: nat)
    requires 0 < fsz && 0 < csz
    ensures var tcl := fsz / csz + if fsz % csz != 0 then 1 else 0; 0 < tcl == (fsz - 1) / csz + 1
  {
    var q, r := fsz / csz, fsz % csz;
    assert fsz == csz * q + r;
    if r != 0 { DivIs(fsz - 1, csz, q, r - 1); } else { DivIs(fsz - 1, csz, q - 1, csz - 1); }
  }

  lemma DivIs(x: nat, d: nat, q: int, r: int)
    requires 0 < d && x == d * q + r && 0 <= r < d
    ensures x / d == q
  {
    var y := x / d;
    assert x == d * y + x % d;
    assert y < q ==> d * (y + 1) <= d * q;
    assert y > q ==> d * (q + 1) <= d * y;
  }

  /** The clusters from c on. */
  function Numbers(c: nat, n: nat): seq<nat> {
    seq(n, i requires 0 <= i => c + i)
  }

  /** The bits of n clusters from c on are set. */
  function Marked(b: seq<nat>, c: nat, n: nat): seq<nat> {
    seq(|b|, i requires 0 <= i < |b| => if c <= i < c + n then 1 else b[i])
  }

  /** What change_bitmap makes of the run which find_bitmap found: the clusters up to the end of the table are in use;
      it fails just where a bit behind them is set. */
  ghost predicate BlockMarked(res: FResult, row: seq<nat>, n: nat, scl: nat, tcl: nat, bits: seq<nat>) {
    && 2 <= scl < n <= |row| && scl + tcl <= |row| && (res == Ok || res == IntErr)
    && (forall c :: scl <= c < scl + tcl && c < n ==> row[c] == 0) && bits == Marked(row[..n], scl, tcl)
    && (res == Ok <==> forall c :: n <= c < scl + tcl ==> row[c] == 0)
  }

  lemma BlockInside(bits: seq<nat>, start: nat, tcl: nat, scl: nat, k: nat)
    requires 2 <= start < |bits| && 0 < tcl && Found(bits, start, tcl, scl, k) && scl != 0
    ensures FirstRun(bits, start, k, tcl) && scl == ScanAt(|bits|, start, k) && 2 <= scl < |bits|
  {
    RunConsecutive(bits, start, k, tcl);
  }

  lemma BlockTaken(res: FResult, row: seq<nat>, row': seq<nat>, n: nat, start: nat, tcl: nat, scl: nat, k: nat,
      end: nat)
    requires 2 <= start < n <= |row| && 0 < tcl && (forall c :: 0 <= c < |row| ==> row[c] <= 1)
    requires FirstRun(row[..n], start, k, tcl) && scl == ScanAt(n, start, k)
    requires Outcome(res, row, row', scl, end, scl + tcl, 1)
    ensures n <= |row'| && BlockMarked(res, row, n, scl, tcl, row'[..n])
  {
    hide FreeRun;
    RunToEnd(row[..n], start, k, tcl);
    RunConsecutive(row[..n], start, k, tcl);
    OutcomeMeans(res, row, row', scl, end, scl + tcl, 1);
    assert end < n ==> end == scl + tcl;
    assert row'[..n] == Marked(row[..n], scl, tcl);
  }

  lemma NumbersDenote(o: Status, fat: seq<nat>, scl: nat, tcl: nat)
    requires 2 <= scl && 0 < tcl && scl + tcl <= |fat| && o.stat == 2 && o.nFrag == 0 && o.sclust == scl
    ensures Denotes(o, fat, Numbers(scl, tcl))
  {
  }

  /** A contiguous object whose clusters reach past the end of the table stands for no chain of that length. */
  lemma NoChain(o: Status, fat: seq<nat>, scl: nat, tcl: nat)
    requires scl + tcl > |fat| && 0 < tcl && o.stat == 2 && o.sclust == scl
    ensures forall s :: Denotes(o, fat, s) ==> |s| != tcl
  {
    forall s | Denotes(o, fat, s) ensures |s| != tcl {
      assert s[|s| - 1] == scl + (|s| - 1);
    }
  }

  lemma MarkedCount(b: seq<nat>, free: nat, scl: nat, tcl: nat)
    requires |b| >= 3 && CountOk(b, free) && 2 <= scl && scl + tcl <= |b|
    requires forall c :: scl <= c < scl + tcl ==> b[c] == 0
    ensures free <= |b| - 2 ==> tcl <= free
    ensures CountOk(Marked(b, scl, tcl), if free <= |b| - 2 then free - tcl else free)
  {
    var m, t := Marked(b, scl, tcl), Numbers(scl, tcl);
    forall c | scl <= c < scl + tcl ensures c in t { assert t[c - scl] == c; }
    ClearedBound(m, t);
    assert Cleared(m, t) == b;
  }

  lemma RunFound(bits: seq<nat>, start: nat, tcl: nat, scl: nat, k: nat)
    requires 2 <= start < |bits| && 0 < tcl && Found(bits, start, tcl, scl, k)
    ensures scl == 0 <==> forall i: nat :: !FreeRun(bits, start, i, tcl)
    ensures scl == 0 ==> !FirstRunFits(bits, start, tcl)
    ensures scl != 0 ==>
      && FirstRun(bits, start, k, tcl) && scl == ScanAt(|bits|, start, k)
      && (FirstRunFits(bits, start, tcl) <==> scl + tcl <= |bits|)
  {
    if scl != 0 {
      FirstRunDecides(bits, start, k, tcl);
    }
  }

  lemma RunMarked(res: FResult, row: seq<nat>, n: nat, scl: nat, tcl: nat, bits: seq<nat>, free: nat)
    requires BlockMarked(res, row, n, scl, tcl, bits) && 3 <= n < ExEoc
    ensures scl + tcl <= n ==> res == Ok
    ensures scl + tcl <= n && CountOk(row[..n], free) ==>
      |bits| == n && CountOk(bits, if free <= n - 2 then (free - tcl) % 0x1_0000_0000 else free)
  {
    if scl + tcl <= n && CountOk(row[..n], free) { MarkedCount(row[..n], free, scl, tcl); }
  }
}
