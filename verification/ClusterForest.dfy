/** The allocator as the objects of a volume use it: every chain belongs to one object, and the calls of create_chain,
    remove_chain and f_expand keep the used clusters partitioned into chains. */
module ClusterForest {
  import opened FatCodec
  import opened ClusterChains
  import opened FatVolume

  /** A complete create_chain behind the chain s: the chains, and the other links. */
  lemma Stretched(fat: seq<nat>, chains: set<seq<nat>>, s: seq<nat>, ncl: nat, eoc: nat)
    requires Forest(fat, chains) && (s == [] || s in chains) && 2 <= ncl < |fat| && fat[ncl] == 0 && eoc >= |fat|
    ensures s != [] ==> Last(s) >= 2
    ensures var fat' := Apply(fat, CreateWrites(if s == [] then [] else [Last(s)], ncl, eoc));
            && Forest(fat', if s == [] then chains + {[ncl]} else chains - {s} + {s + [ncl]})
            && forall c :: 0 <= c < |fat| && (s == [] || c != Last(s)) && c != ncl ==> fat'[c] == fat[c]
  {
    if s != [] { ForestChain(fat, chains, s); }
    hide Forest, Apply;
    var w := CreateWrites(s, ncl, eoc);
    assert CreateWrites(if s == [] then [] else [Last(s)], ncl, eoc) == w;
    assert w[..|w|] == w;
    CreateKeepsForest(fat, chains, s, ncl, eoc, |w|);
    forall c | 0 <= c < |fat| && (s == [] || c != Last(s)) && c != ncl ensures Apply(fat, w)[c] == fat[c] {
      ApplyOther(fat, w, c);
    }
  }

  /** A run of f_expand broken off at the end of the table. */
  lemma RunBroken(fat: seq<nat>, chains: set<seq<nat>>, start: nat, k: nat, len: nat)
    requires Forest(fat, chains) && 2 <= start < |fat| && 0 < len && FreeRun(fat, start, k, len)
    requires ScanAt(|fat|, start, k) + len > |fat|
    ensures var scl := ScanAt(|fat|, start, k);
            && 2 <= scl < |fat|
            && var fat' := Apply(fat, RunWrites(scl, |fat| - scl, |fat|));
            && Forest(fat', chains + {Run(scl, |fat| - scl)}) && FreeCount(fat') == FreeCount(fat) - (|fat| - scl)
  {
    hide Forest, Apply;
    RunToEnd(fat, start, k, len);
    var scl := ScanAt(|fat|, start, k);
    var m := |fat| - scl;
    RunAddsChain(fat, chains, scl, m, |fat|);
    RunCountSteps(fat, scl, m, |fat|, m);
    assert RunWrites(scl, m, |fat|)[..m] == RunWrites(scl, m, |fat|);
  }

  class ClusterSpace {
    const vol: Volume
    ghost var chains: set<seq<nat>>

    /** Every used cluster lies on exactly one chain, and the free count is exact or unknown. */
    ghost predicate Consistent()
      reads this, vol`winsect, vol`wflag, vol`img, vol`fat, vol`freeClst, vol.disk, vol.win
    {
      && vol.Valid()
      && Forest(vol.fat, chains)
      && CountOk(vol.fat, vol.freeClst)
    }

    constructor (vol: Volume, ghost chains: set<seq<nat>>)
      requires vol.Valid() && Forest(vol.fat, chains) && CountOk(vol.fat, vol.freeClst)
      ensures Consistent() && this.vol == vol && this.chains == chains
    {
      this.vol := vol;
      this.chains := chains;
    }

    /** create_chain at the end of the chain s (s == []: for a new object). It fails just when no cluster is free;
        otherwise s grows by one cluster which was on no chain. */
    method Stretch(clst: nat, ghost s: seq<nat>) returns (ncl: nat)
      requires Consistent()
      requires if s == [] then clst == 0 else s in chains && clst == Last(s)
      modifies this, vol, vol.disk, vol.win
      ensures Consistent() && vol.DataKept()
      ensures ncl == 0 || 2 <= ncl < vol.nFatent
      ensures ncl == 0 <==> NoneFree(old(vol.fat))
      ensures ncl == 0 ==> chains == old(chains) && vol.fat == old(vol.fat)
      ensures ncl != 0 ==>
        old(vol.fat)[ncl] == 0 && chains == (if s == [] then old(chains) + {[ncl]} else old(chains) - {s} + {s + [ncl]})
      ensures forall c :: 0 <= c < vol.nFatent && c != clst && c != ncl ==> vol.fat[c] == old(vol.fat)[c]
    {
      hide Forest, CountOk, Apply, CreateWrites;
      ForestNoOnes(vol.fat, chains);
      if s != [] { ForestChain(vol.fat, chains, s); }
      ncl := vol.CreateChain(clst);
      if ncl != 0 {
        Stretched(old(vol.fat), chains, s, ncl, Eoc(vol.fmt));
        chains := if s == [] then chains + {[ncl]} else chains - {s} + {s + [ncl]};
      }
    }

    /** create_chain inside a chain only follows the link. */
    method Follow(clst: nat, ghost s: seq<nat>, ghost i: nat) returns (ncl: nat)
      requires Consistent()
      requires s in chains && i + 1 < |s| && s[i] == clst
      modifies vol, vol.disk, vol.win
      ensures Consistent() && vol.DataKept()
      ensures ncl == s[i + 1] && vol.fat == old(vol.fat) && vol.log == old(vol.log)
    {
      assert IsChain(vol.fat, s);
      assert Linked(vol.fat, s, i) && Linked(vol.fat, s, i + 1);
      ncl := vol.CreateChain(clst);
    }

    /** remove_chain from cluster k of the chain s on: exactly that suffix becomes free, the rest stays a chain. */
    method Remove(clst: nat, pclst: nat, ghost s: seq<nat>, ghost k: nat)
      requires Consistent()
      requires s in chains && k < |s| && s[k] == clst && pclst == if k == 0 then 0 else s[k - 1]
      modifies this, vol, vol.disk, vol.win
      ensures Consistent() && vol.DataKept()
      ensures chains == old(chains) - {s} + Tail(s[..k])
      ensures forall c :: 0 <= c < vol.nFatent ==>
        vol.fat[c] == if c in s[k..] then 0 else if 0 < k && c == s[k - 1] then Eoc(vol.fmt) else old(vol.fat)[c]
    {
      assert IsChain(vol.fat, s);
      assert Linked(vol.fat, s, k);
      hide Forest, CountOk;
      var res := vol.RemoveChain(clst, pclst, s, k);
      ghost var w := RemoveWrites(s, k, Eoc(vol.fmt));
      assert w[..|w|] == w;
      RemoveKeepsForest(old(vol.fat), chains, s, k, Eoc(vol.fmt), |w|);
      RemoveSome(s, k, Eoc(vol.fmt));
      assert s[|s|..] == [];
      chains := AfterRemove(chains, s, k, |w|);
      forall c | 0 <= c < vol.nFatent
        ensures vol.fat[c] == if c in s[k..] then 0 else if 0 < k && c == s[k - 1] then Eoc(vol.fmt)
          else old(vol.fat)[c]
      {
        RemoveApplied(old(vol.fat), s, k, Eoc(vol.fmt), c);
      }
    }

    /** f_expand with opt set: where it reports success, a new chain of tcl consecutive clusters which were all free. It
        is denied just when the scan meets no run of tcl free clusters, and fails inside just when the first such run
        crosses the end of the table: then the clusters up to the end of the table are used, a chain which belongs to no
        object, and the free count is as it was. */
    method Allocate(tcl: nat) returns (res: FResult, scl: nat)
      requires Consistent() && 0 < tcl
      modifies this, vol, vol.disk, vol.win
      ensures vol.Valid() && vol.DataKept() && Forest(vol.fat, chains)
      ensures res == Ok || res == Denied ==> Consistent()
      ensures res == Ok ==> 2 <= scl && scl + tcl <= vol.nFatent && chains == old(chains) + {Run(scl, tcl)}
      ensures res == Ok ==> forall c :: scl <= c < scl + tcl ==> old(vol.fat)[c] == 0
      ensures res == Denied <==> forall i: nat :: !FreeRun(old(vol.fat), old(vol.ExpandStart()), i, tcl)
      ensures res == Denied ==> chains == old(chains) && vol.fat == old(vol.fat)
      ensures res == Ok <==> FirstRunFits(old(vol.fat), old(vol.ExpandStart()), tcl)
      ensures res == IntErr <==> FirstRunCrosses(old(vol.fat), old(vol.ExpandStart()), tcl)
      ensures res == Ok || res == Denied || (res == IntErr && scl + tcl > vol.nFatent)
      ensures res == IntErr ==>
        && 2 <= scl < vol.nFatent && chains == old(chains) + {Run(scl, vol.nFatent - scl)}
        && vol.freeClst == old(vol.freeClst) && FreeCount(vol.fat) == FreeCount(old(vol.fat)) - (vol.nFatent - scl)
    {
      hide Forest, CountOk, Apply, RunWrites, FreeCount, FirstRunFits, FirstRunCrosses, FreeRun;
      hide vol.DataKept, vol.Valid;
      ForestNoOnes(vol.fat, chains);
      ghost var k, start := 0, vol.ExpandStart();
      res, scl, k := vol.Expand(tcl, true);
      if res == Denied {
        NoFirstRun(old(vol.fat), start, tcl);
      } else {
        FirstRunDecides(old(vol.fat), start, k, tcl);
      }
      if res == Ok {
        RunConsecutive(old(vol.fat), start, k, tcl);
        RunAddsChain(old(vol.fat), chains, scl, tcl, Eoc(vol.fmt));
        chains := chains + {Run(scl, tcl)};
      } else if res == IntErr {
        RunBroken(old(vol.fat), chains, start, k, tcl);
        chains := chains + {Run(scl, vol.nFatent - scl)};
      }
    }
  }
}
