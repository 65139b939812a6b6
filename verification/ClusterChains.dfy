/** Cluster chains over a table of links, and what the writes of create_chain, remove_chain and f_expand (ff.c) do to
    them. A link below |fat| names the next cluster, 0 marks a free cluster, anything from |fat| up ends a chain. */
module ClusterChains {

  type Write = (nat, nat)

  /** Link i of s is the one stored in the table: to the next cluster of s, or the end mark. */
  ghost predicate Linked(fat: seq<nat>, s: seq<nat>, i: nat)
    requires i < |s|
  {
    && 2 <= s[i] < |fat|
    && if i + 1 < |s| then fat[s[i]] == s[i + 1] else fat[s[i]] >= |fat|
  }

  ghost predicate Distinct(s: seq<nat>) {
    forall i, j :: 0 <= i < j < |s| ==> s[i] != s[j]
  }

  /** s is a complete chain: acyclic, linked by the table, and ended by an end mark. */
  ghost predicate IsChain(fat: seq<nat>, s: seq<nat>) {
    |s| > 0 && Distinct(s) && forall i: nat :: i < |s| ==> Linked(fat, s, i)
  }

  ghost predicate Disjoint(s: seq<nat>, t: seq<nat>) {
    forall c :: c in s ==> c !in t
  }

  /** The used clusters are exactly those of the chains, and no two chains share one. */
  ghost predicate Forest(fat: seq<nat>, chains: set<seq<nat>>) {
    && (forall s :: s in chains ==> IsChain(fat, s))
    && PairwiseDisjoint(chains)
    && (forall c :: 2 <= c < |fat| && fat[c] != 0 ==> Covered(chains, c))
  }

  ghost predicate Covered(chains: set<seq<nat>>, c: nat) {
    exists s :: s in chains && c in s
  }

  /** No two used clusters link to the same next cluster. */
  ghost predicate NoSharing(fat: seq<nat>) {
    forall c, d :: 2 <= c < d < |fat| && 2 <= fat[c] < |fat| ==> fat[c] != fat[d]
  }

  function Last(s: seq<nat>): nat
    requires |s| > 0
  {
    s[|s| - 1]
  }

  /** The table after the writes w, in order; a write out of range is refused. */
  function Apply(fat: seq<nat>, w: seq<Write>): (r: seq<nat>)
    ensures |r| == |fat|
  {
    if w == [] then fat
    else
      var f, last := Apply(fat, w[..|w| - 1]), w[|w| - 1];
      if last.0 < |f| then f[last.0 := last.1] else f
  }

  // ----- what a table with a forest looks like -----

  lemma ChainMember(fat: seq<nat>, s: seq<nat>, c: nat)
    requires IsChain(fat, s) && c in s
    ensures 2 <= c < |fat| && fat[c] != 0
    ensures fat[c] < |fat| ==> fat[c] in s
  {
    var i: nat :| i < |s| && s[i] == c;
    assert Linked(fat, s, i);
    if i + 1 < |s| { assert Linked(fat, s, i + 1); }
  }

  /** A free cluster lies on no chain. */
  lemma FreeOutside(fat: seq<nat>, chains: set<seq<nat>>, s: seq<nat>, r: nat)
    requires Forest(fat, chains) && s in chains && r < |fat| && fat[r] == 0
    ensures r !in s
  {
    if r in s { ChainMember(fat, s, r); }
  }

  lemma SuccessorsDiffer(fat: seq<nat>, chains: set<seq<nat>>, c: nat, d: nat)
    requires Forest(fat, chains) && 2 <= c < d < |fat| && fat[c] != 0 && fat[d] != 0 && fat[c] < |fat|
    ensures fat[c] != fat[d]
  {
    assert Covered(chains, c) && Covered(chains, d);
    var s :| s in chains && c in s;
    var t :| t in chains && d in t;
    ChainMember(fat, s, c);
    ChainMember(fat, t, d);
    if s == t {
      var i: nat :| i < |s| && s[i] == c;
      var j: nat :| j < |s| && s[j] == d;
      assert Linked(fat, s, i) && Linked(fat, s, j);
    } else {
      assert Disjoint(s, t);
    }
  }

  lemma ForestNoSharing(fat: seq<nat>, chains: set<seq<nat>>)
    requires Forest(fat, chains)
    ensures NoSharing(fat)
  {
    forall c, d | 2 <= c < d < |fat| && 2 <= fat[c] < |fat| ensures fat[c] != fat[d] {
      if fat[d] != 0 { SuccessorsDiffer(fat, chains, c, d); }
    }
  }

  /** A chain none of whose entries changed is still a chain. */
  lemma ChainKept(fat: seq<nat>, fat': seq<nat>, s: seq<nat>)
    requires IsChain(fat, s) && |fat'| == |fat|
    requires forall c :: c in s && c < |fat| ==> fat'[c] == fat[c]
    ensures IsChain(fat', s)
  {
    forall i: nat | i < |s| ensures Linked(fat', s, i) {
      assert Linked(fat, s, i);
    }
  }

  lemma ForestChain(fat: seq<nat>, chains: set<seq<nat>>, s: seq<nat>)
    requires Forest(fat, chains) && s in chains
    ensures s != [] && 2 <= Last(s) < |fat| && fat[Last(s)] >= |fat|
  {
    assert IsChain(fat, s);
    assert Linked(fat, s, |s| - 1);
  }

  // ----- create_chain -----

  /** Marking a free cluster as an end adds one chain of one cluster. */
  lemma NewChain(fat: seq<nat>, chains: set<seq<nat>>, r: nat, eoc: nat)
    requires Forest(fat, chains) && 2 <= r < |fat| && fat[r] == 0 && eoc >= |fat|
    ensures Forest(fat[r := eoc], chains + {[r]}) && [r] !in chains
  {
    var fat' := fat[r := eoc];
    assert Linked(fat', [r], 0);
    assert IsChain(fat', [r]);
    forall s | s in chains ensures IsChain(fat', s) && r !in s {
      FreeOutside(fat, chains, s, r);
      ChainKept(fat, fat', s);
    }
    assert r in [r];
    forall c | 2 <= c < |fat'| && fat'[c] != 0 ensures Covered(chains + {[r]}, c) {
      if c != r {
        assert Covered(chains, c);
        var s :| s in chains && c in s;
        assert s in chains + {[r]};
      } else {
        assert [r] in chains + {[r]} && c in [r];
      }
    }
  }

  /** Linking the end of a chain to another one-cluster chain joins the two. */
  lemma LinkChain(fat: seq<nat>, chains: set<seq<nat>>, s: seq<nat>, r: nat)
    requires Forest(fat, chains) && s in chains && [r] in chains && s != [r]
    ensures Last(s) < |fat|
    ensures Forest(fat[Last(s) := r], chains - {s} - {[r]} + {s + [r]})
  {
    assert Linked(fat, s, |s| - 1) && Linked(fat, [r], 0);
    var l := Last(s);
    var fat' := fat[l := r];
    var s' := s + [r];
    var chains' := chains - {s} - {[r]} + {s'};
    assert Disjoint([r], s) && r in [r];
    forall i: nat | i < |s'| ensures Linked(fat', s', i) {
      if i < |s| { assert Linked(fat, s, i); if i + 1 < |s| { assert s[i] != s[|s| - 1]; } }
    }
    assert IsChain(fat', s');
    forall t | t in chains && t != s ensures l !in t {
      assert Disjoint(s, t) && l in s;
    }
    forall t | t in chains' ensures IsChain(fat', t) {
      if t != s' { ChainKept(fat, fat', t); }
    }
    forall t, u | t in chains' && u in chains' && t != u ensures Disjoint(t, u) {
      if t == s' { assert Disjoint(u, s) && Disjoint(u, [r]); }
      else if u == s' { assert Disjoint(t, s) && Disjoint(t, [r]); }
      else { assert Disjoint(t, u); }
    }
    forall c | 2 <= c < |fat'| && fat'[c] != 0 ensures Covered(chains', c) {
      assert fat[c] != 0;
      assert Covered(chains, c);
      var t :| t in chains && c in t;
      if t == s || t == [r] { assert c in s'; assert s' in chains'; } else { assert t in chains'; }
    }
  }

  /** The put_fat calls of create_chain: mark the new cluster, then link it to the end of s, if any. */
  function CreateWrites(s: seq<nat>, r: nat, eoc: nat): seq<Write> {
    [(r, eoc)] + if s == [] then [] else [(Last(s), r)]
  }

  /** The chains after the first m writes of create_chain. */
  ghost function AfterCreate(chains: set<seq<nat>>, s: seq<nat>, r: nat, m: nat): set<seq<nat>> {
    if m == 0 then chains
    else if m == 1 then chains + {[r]}
    else chains - {s} + {s + [r]}
  }

  /** create_chain, stopped after any number of its writes, leaves a forest; when it is complete the chain s has grown
      by exactly the cluster r (s == []: r is a new chain). */
  lemma CreateKeepsForest(fat: seq<nat>, chains: set<seq<nat>>, s: seq<nat>, r: nat, eoc: nat, m: nat)
    requires Forest(fat, chains) && (s == [] || s in chains)
    requires 2 <= r < |fat| && fat[r] == 0 && eoc >= |fat|
    requires m <= |CreateWrites(s, r, eoc)|
    ensures s != [] ==> Last(s) < |fat|
    ensures Forest(Apply(fat, CreateWrites(s, r, eoc)[..m]), AfterCreate(chains, s, r, m))
  {
    hide Forest;
    if s != [] { ForestChain(fat, chains, s); }
    var w := CreateWrites(s, r, eoc);
    var f1 := fat[r := eoc];
    NewChain(fat, chains, r, eoc);
    assert w[..0] == [] && Apply(fat, []) == fat;
    if m > 0 {
      ApplyNext(fat, w, 0);
      if m == 2 {
        ApplyNext(fat, w, 1);
        LinkChain(f1, chains + {[r]}, s, r);
        assert chains + {[r]} - {s} - {[r]} + {s + [r]} == AfterCreate(chains, s, r, 2);
      }
    }
  }

  // ----- remove_chain -----

  ghost predicate PairwiseDisjoint(chains: set<seq<nat>>) {
    forall s, t :: s in chains && t in chains && s != t ==> Disjoint(s, t)
  }

  lemma DistinctParts(s: seq<nat>, a: seq<nat>, b: seq<nat>)
    requires Distinct(s) && s == a + b
    ensures Distinct(a) && Distinct(b)
  {
    forall i, j | 0 <= i < j < |a| ensures a[i] != a[j] { assert s[i] == a[i] && s[j] == a[j]; }
    forall i, j | 0 <= i < j < |b| ensures b[i] != b[j] { assert s[|a| + i] == b[i] && s[|a| + j] == b[j]; }
  }

  lemma SplitDisjoint(chains: set<seq<nat>>, s: seq<nat>, a: seq<nat>, b: seq<nat>)
    requires PairwiseDisjoint(chains) && s in chains && Distinct(s) && s == a + b
    ensures PairwiseDisjoint(chains - {s} + {a} + {b})
  {
    var chains' := chains - {s} + {a} + {b};
    forall t, u | t in chains' && u in chains' && t != u ensures Disjoint(t, u) {
      if t in {a, b} && u in {a, b} {
        forall i, j | 0 <= i < |a| && 0 <= j < |b| ensures a[i] != b[j] {
          assert s[i] == a[i] && s[|a| + j] == b[j];
        }
      } else if t in {a, b} {
        assert Disjoint(s, u);
      } else if u in {a, b} {
        assert Disjoint(t, s);
      }
    }
  }

  lemma SplitCovers(chains: set<seq<nat>>, s: seq<nat>, a: seq<nat>, b: seq<nat>, c: nat)
    requires Covered(chains, c) && s == a + b
    ensures Covered(chains - {s} + {a} + {b}, c)
  {
    var chains' := chains - {s} + {a} + {b};
    var t :| t in chains && c in t;
    if t == s {
      assert c in a || c in b;
      assert a in chains' && b in chains';
    } else {
      assert t in chains';
    }
  }

  /** Ending s after its first k clusters splits it in two. */
  lemma CutChain(fat: seq<nat>, chains: set<seq<nat>>, s: seq<nat>, k: nat, eoc: nat)
    requires Forest(fat, chains) && s in chains && 0 < k < |s| && eoc >= |fat|
    ensures s[k - 1] < |fat|
    ensures Forest(fat[s[k - 1] := eoc], chains - {s} + {s[..k]} + {s[k..]})
  {
    assert Linked(fat, s, k - 1);
    var fat' := fat[s[k - 1] := eoc];
    var a, b := s[..k], s[k..];
    var chains' := chains - {s} + {a} + {b};
    assert s == a + b;
    forall i: nat | i < |a| ensures Linked(fat', a, i) { assert Linked(fat, s, i); }
    forall i: nat | i < |b| ensures Linked(fat', b, i) { assert Linked(fat, s, k + i); }
    DistinctParts(s, a, b);
    assert IsChain(fat', a) && IsChain(fat', b);
    forall t | t in chains && t != s ensures IsChain(fat', t) {
      assert Disjoint(s, t) && s[k - 1] in s;
      ChainKept(fat, fat', t);
    }
    SplitDisjoint(chains, s, a, b);
    forall c | 2 <= c < |fat'| && fat'[c] != 0 ensures Covered(chains', c) {
      assert Covered(chains, c) by { assert c == s[k - 1] ==> c in s; }
      SplitCovers(chains, s, a, b, c);
    }
  }

  function Tail(t: seq<nat>): set<seq<nat>> {
    if t == [] then {} else {t}
  }

  /** Freeing the first cluster of a chain leaves the rest as a chain. */
  lemma FreeHead(fat: seq<nat>, chains: set<seq<nat>>, s: seq<nat>)
    requires Forest(fat, chains) && s in chains
    ensures s != [] && s[0] < |fat| && Forest(fat[s[0] := 0], chains - {s} + Tail(s[1..]))
  {
    assert IsChain(fat, s);
    assert Linked(fat, s, 0);
    var fat' := fat[s[0] := 0];
    var b := s[1..];
    var chains' := chains - {s} + Tail(b);
    assert s == [s[0]] + b;
    forall i: nat | i < |b| ensures Linked(fat', b, i) { assert Linked(fat, s, 1 + i); }
    forall t | t in chains && t != s ensures IsChain(fat', t) {
      assert Disjoint(s, t) && s[0] in s;
      ChainKept(fat, fat', t);
    }
    forall t, u | t in chains' && u in chains' && t != u ensures Disjoint(t, u) {
      var t0, u0 := if t == b then s else t, if u == b then s else u;
      assert t0 == u0 || Disjoint(t0, u0);
    }
    forall c | 2 <= c < |fat'| && fat'[c] != 0 ensures Covered(chains', c) {
      assert Covered(chains, c);
      var t :| t in chains && c in t;
      if t == s { assert c in b && b in chains'; } else { assert t in chains'; }
    }
  }

  /** The put_fat calls which free the clusters of t, in order. */
  function FreeWrites(t: seq<nat>): (w: seq<Write>)
    ensures |w| == |t| && forall i :: 0 <= i < |t| ==> w[i] == (t[i], 0)
  {
    seq(|t|, i requires 0 <= i < |t| => (t[i], 0))
  }

  /** The put_fat calls of remove_chain for the clusters of s from index k on. */
  function RemoveWrites(s: seq<nat>, k: nat, eoc: nat): seq<Write>
    requires k < |s|
  {
    (if k == 0 then [] else [(s[k - 1], eoc)]) + FreeWrites(s[k..])
  }

  /** The chains after the first m writes of remove_chain. */
  ghost function AfterRemove(chains: set<seq<nat>>, s: seq<nat>, k: nat, m: nat): set<seq<nat>>
    requires k < |s| && m <= |s| - k + if k == 0 then 0 else 1
  {
    if m == 0 then chains
    else if k == 0 then chains - {s} + Tail(s[m..])
    else chains - {s} + {s[..k]} + Tail(s[k + m - 1..])
  }

  /** A proper suffix of a chain is neither another chain nor a prefix of it. */
  lemma RestIsNew(fat: seq<nat>, chains: set<seq<nat>>, s: seq<nat>, k: nat, j: nat)
    requires Forest(fat, chains) && s in chains && k <= j < |s|
    ensures s[j..] !in chains - {s} && s[j..] != s[..k]
  {
    assert s[j] in s && s[j..][0] == s[j];
    forall t | t in chains && t != s ensures t != s[j..] {
      assert Disjoint(s, t);
    }
    assert s[j] !in s[..k];
  }

  /** One step of the freeing loop: write number m, which is not the cut. */
  lemma FreeStep(fat: seq<nat>, f: seq<nat>, chains: set<seq<nat>>, s: seq<nat>, k: nat, m: nat, j: nat)
    requires Forest(fat, chains) && s in chains && k <= j < |s|
    requires 0 < m && j == (if k == 0 then m - 1 else k + m - 2)
    requires Forest(f, AfterRemove(chains, s, k, m - 1))
    ensures s[j] < |f| && Forest(f[s[j] := 0], AfterRemove(chains, s, k, m))
  {
    var before := AfterRemove(chains, s, k, m - 1);
    var t := s[j..];
    RestIsNew(fat, chains, s, k, j);
    if m == 1 { assert t == s; }
    FreeHead(f, before, t);
    assert t[1..] == s[j + 1..];
    assert before - {t} + Tail(t[1..]) == AfterRemove(chains, s, k, m);
  }

  /** remove_chain, stopped after any number of its writes, leaves a forest; when it is complete exactly the clusters
      from index k on are free and the kept prefix is a chain of its own. */
  lemma {:induction false} RemoveKeepsForest(fat: seq<nat>, chains: set<seq<nat>>, s: seq<nat>, k: nat, eoc: nat,
      m: nat)
    requires Forest(fat, chains) && s in chains && k < |s| && eoc >= |fat|
    requires m <= |RemoveWrites(s, k, eoc)|
    ensures forall i :: 0 <= i < |s| ==> s[i] < |fat|
    ensures Forest(Apply(fat, RemoveWrites(s, k, eoc)[..m]), AfterRemove(chains, s, k, m))
    decreases m
  {
    ChainInside(fat, s);
    var w := RemoveWrites(s, k, eoc);
    if m == 0 {
      assert w[..0] == [];
    } else {
      RemoveKeepsForest(fat, chains, s, k, eoc, m - 1);
      assert w[..m][..m - 1] == w[..m - 1];
      if k > 0 && m == 1 {
        assert w[..0] == [];
        CutChain(fat, chains, s, k, eoc);
      } else {
        var j := if k == 0 then m - 1 else k + m - 2;
        assert w[m - 1] == (s[j], 0);
        FreeStep(fat, Apply(fat, w[..m - 1]), chains, s, k, m, j);
      }
    }
  }

  lemma ChainInside(fat: seq<nat>, s: seq<nat>)
    requires IsChain(fat, s)
    ensures forall i :: 0 <= i < |s| ==> 2 <= s[i] < |fat|
  {
    forall i | 0 <= i < |s| ensures 2 <= s[i] < |fat| { assert Linked(fat, s, i); }
  }

  // ----- f_expand -----

  /** The put_fat calls of f_expand for n clusters from scl on. */
  function RunWrites(scl: nat, n: nat, eoc: nat): (w: seq<Write>)
    ensures |w| == n
    ensures forall i :: 0 <= i < n ==> w[i] == (scl + i, if i == n - 1 then eoc else scl + i + 1)
  {
    seq(n, i requires 0 <= i < n => (scl + i, if i == n - 1 then eoc else scl + i + 1))
  }

  function Run(scl: nat, n: nat): (s: seq<nat>)
    ensures |s| == n && forall i :: 0 <= i < n ==> s[i] == scl + i
  {
    seq(n, i requires 0 <= i < n => scl + i)
  }

  /** f is fat, except that the first m of the n clusters from scl on are linked up. */
  ghost predicate HoldsRun(fat: seq<nat>, f: seq<nat>, scl: nat, n: nat, eoc: nat, m: nat) {
    && |f| == |fat|
    && forall c :: 0 <= c < |fat| ==> f[c] == if scl <= c < scl + m then (if c == scl + n - 1 then eoc else c + 1)
       else fat[c]
  }

  lemma RunIsChain(fat: seq<nat>, f: seq<nat>, scl: nat, n: nat, eoc: nat)
    requires HoldsRun(fat, f, scl, n, eoc, n) && 2 <= scl && 0 < n && scl + n <= |fat| && eoc >= |fat|
    ensures IsChain(f, Run(scl, n))
  {
    forall i: nat | i < n ensures Linked(f, Run(scl, n), i) {
      assert f[scl + i] == if i == n - 1 then eoc else scl + i + 1;
    }
  }

  lemma RunMember(scl: nat, n: nat, c: nat)
    ensures c in Run(scl, n) <==> scl <= c < scl + n
  {
    if scl <= c < scl + n { assert Run(scl, n)[c - scl] == c; }
  }

  lemma {:induction false} RunApplied(fat: seq<nat>, scl: nat, n: nat, eoc: nat, m: nat)
    requires scl + m <= |fat| && m <= n
    ensures HoldsRun(fat, Apply(fat, RunWrites(scl, n, eoc)[..m]), scl, n, eoc, m)
    decreases m
  {
    if m == 0 {
      assert RunWrites(scl, n, eoc)[..0] == [];
    } else {
      RunApplied(fat, scl, n, eoc, m - 1);
      var w := RunWrites(scl, n, eoc)[..m];
      assert w[..m - 1] == RunWrites(scl, n, eoc)[..m - 1];
      assert w[m - 1] == (scl + m - 1, if m == n then eoc else scl + m);
      assert Apply(fat, w) == Apply(fat, w[..m - 1])[scl + m - 1 := if m == n then eoc else scl + m];
    }
  }

  /** A complete run of f_expand over free clusters is a new chain of consecutive clusters. */
  lemma RunAddsChain(fat: seq<nat>, chains: set<seq<nat>>, scl: nat, n: nat, eoc: nat)
    requires Forest(fat, chains) && 2 <= scl && 0 < n && scl + n <= |fat| && eoc >= |fat|
    requires forall c :: scl <= c < scl + n ==> fat[c] == 0
    ensures Forest(Apply(fat, RunWrites(scl, n, eoc)), chains + {Run(scl, n)})
  {
    hide Apply;
    assert RunWrites(scl, n, eoc)[..n] == RunWrites(scl, n, eoc);
    RunApplied(fat, scl, n, eoc, n);
    var f := Apply(fat, RunWrites(scl, n, eoc));
    var run := Run(scl, n);
    RunIsChain(fat, f, scl, n, eoc);
    forall s | s in chains ensures IsChain(f, s) && Disjoint(s, run) && Disjoint(run, s) {
      OutsideRun(fat, s, scl, n);
      ChainInside(fat, s);
      ChainKept(fat, f, s);
    }
    assert PairwiseDisjoint(chains + {run});
    forall c | 2 <= c < |f| && f[c] != 0 ensures Covered(chains + {run}, c) {
      RunMember(scl, n, c);
      if !(scl <= c < scl + n) { assert Covered(chains, c); }
      CoveredMore(chains, run, c);
    }
  }

  lemma CoveredMore(chains: set<seq<nat>>, run: seq<nat>, c: nat)
    requires Covered(chains, c) || c in run
    ensures Covered(chains + {run}, c)
  {
    if c in run {
      assert run in chains + {run};
    } else {
      var s :| s in chains && c in s;
      assert s in chains + {run};
    }
  }

  /** A chain uses no cluster of a free run. */
  lemma OutsideRun(fat: seq<nat>, s: seq<nat>, scl: nat, n: nat)
    requires IsChain(fat, s) && scl + n <= |fat|
    requires forall c :: scl <= c < scl + n ==> fat[c] == 0
    ensures Disjoint(s, Run(scl, n)) && Disjoint(Run(scl, n), s)
    ensures forall c :: c in s ==> !(scl <= c < scl + n)
  {
    forall c | c in s ensures !(scl <= c < scl + n) && c !in Run(scl, n) {
      ChainMember(fat, s, c);
      RunMember(scl, n, c);
    }
  }

  /** f_expand, stopped after any number of its writes, leaves no cluster with two predecessors. */
  lemma RunNoSharing(fat: seq<nat>, chains: set<seq<nat>>, scl: nat, n: nat, eoc: nat, m: nat)
    requires Forest(fat, chains) && 2 <= scl && m <= n && scl + n <= |fat| && eoc >= |fat|
    requires forall c :: scl <= c < scl + n ==> fat[c] == 0
    ensures NoSharing(Apply(fat, RunWrites(scl, n, eoc)[..m]))
  {
    RunApplied(fat, scl, n, eoc, m);
    ForestNoSharing(fat, chains);
    var f := Apply(fat, RunWrites(scl, n, eoc)[..m]);
    forall c, d | 2 <= c < d < |f| && 2 <= f[c] < |f| ensures f[c] != f[d] {
      if !(scl <= c < scl + m) && fat[c] != 0 { LinkToUsed(fat, chains, c); }
      if !(scl <= d < scl + m) && 0 < fat[d] < |fat| { LinkToUsed(fat, chains, d); }
    }
  }

  lemma LinkToUsed(fat: seq<nat>, chains: set<seq<nat>>, c: nat)
    requires Forest(fat, chains) && 2 <= c < |fat| && 0 < fat[c] < |fat|
    ensures fat[fat[c]] != 0
  {
    assert Covered(chains, c);
    var s :| s in chains && c in s;
    ChainMember(fat, s, c);
    ChainMember(fat, s, fat[c]);
  }

  // ----- the free count -----

  /** The number of free clusters among 2..n-1. */
  function FreeBelow(fat: seq<nat>, n: nat): nat
    requires n <= |fat|
  {
    if n <= 2 then 0 else FreeBelow(fat, n - 1) + if fat[n - 1] == 0 then 1 else 0
  }

  function FreeCount(fat: seq<nat>): nat {
    FreeBelow(fat, |fat|)
  }

  /** One write moves the count by at most one, in the obvious way. */
  lemma {:induction false} FreeBelowUpdate(fat: seq<nat>, n: nat, c: nat, v: nat)
    requires n <= |fat| && 2 <= c < |fat|
    ensures FreeBelow(fat[c := v], n)
         == FreeBelow(fat, n) + (if c < n && v == 0 then 1 else 0) - (if c < n && fat[c] == 0 then 1 else 0)
    decreases n
  {
    if n > 2 { FreeBelowUpdate(fat, n - 1, c, v); }
  }

  lemma {:induction false} FreeBelowBounds(fat: seq<nat>, n: nat)
    requires n <= |fat|
    ensures FreeBelow(fat, n) <= if n <= 2 then 0 else n - 2
    ensures FreeBelow(fat, n) == 0 <==> forall c :: 2 <= c < n ==> fat[c] != 0
    decreases n
  {
    if n > 2 { FreeBelowBounds(fat, n - 1); }
  }

  /** The free count kept in the volume is out of range (unknown) or exact. */
  ghost predicate CountOk(fat: seq<nat>, free: nat)
    requires |fat| >= 2
  {
    free > |fat| - 2 || free == FreeCount(fat)
  }

  // ----- the search for a free cluster -----

  /** How many steps the cyclic scan 2, 3, .., n-1, 2, .. takes from a to reach b. */
  function Steps(n: nat, a: nat, b: nat): int {
    if a < b then b - a else b - a + n - 2
  }

  /** r is free, and every cluster which the scan from hint meets earlier is in use. */
  ghost predicate Nearest(fat: seq<nat>, hint: nat, r: nat) {
    && 2 <= r < |fat| && fat[r] == 0
    && forall c :: 2 <= c < |fat| && Steps(|fat|, hint, c) < Steps(|fat|, hint, r) ==> fat[c] != 0
  }

  ghost predicate NoneFree(fat: seq<nat>) {
    forall c :: 2 <= c < |fat| ==> fat[c] != 0
  }

  /** An entry of 1 belongs to no valid chain. */
  ghost predicate NoOnes(fat: seq<nat>) {
    forall c :: 2 <= c < |fat| ==> fat[c] != 1
  }

  function NextNumber(n: nat, c: nat): nat {
    if c + 1 >= n then 2 else c + 1
  }

  /** The scan finds a unique cluster. */
  lemma NearestUnique(fat: seq<nat>, hint: nat, r: nat, q: nat)
    requires 1 <= hint < |fat| && Nearest(fat, hint, r) && Nearest(fat, hint, q)
    ensures r == q
  {
  }

  /** Cluster k of the scan order of f_expand, which starts at cluster start. */
  function ScanAt(n: nat, start: nat, k: nat): int {
    if start + k < n then start + k else start + k - (n - 2)
  }

  /** The len clusters of the scan from position k on are all free. */
  ghost predicate FreeRun(fat: seq<nat>, start: nat, k: nat, len: nat)
    requires 2 <= start < |fat|
  {
    k + len <= |fat| - 2 && forall j :: k <= j < k + len ==> fat[ScanAt(|fat|, start, j)] == 0
  }

  /** The number of zero entries among 0..n-1. */
  function ZeroCount(fat: seq<nat>, n: nat): nat
    requires n <= |fat|
  {
    if n == 0 then 0 else ZeroCount(fat, n - 1) + if fat[n - 1] == 0 then 1 else 0
  }

  lemma {:induction false} ZeroCountSplit(fat: seq<nat>, n: nat)
    requires 2 <= n <= |fat|
    ensures ZeroCount(fat, n) == FreeBelow(fat, n) + (if fat[0] == 0 then 1 else 0) + if fat[1] == 0 then 1 else 0
    decreases n
  {
    if n > 2 {
      ZeroCountSplit(fat, n - 1);
    } else {
      assert ZeroCount(fat, 1) == ZeroCount(fat, 0) + if fat[0] == 0 then 1 else 0;
    }
  }

  lemma ForestNoOnes(fat: seq<nat>, chains: set<seq<nat>>)
    requires Forest(fat, chains)
    ensures NoOnes(fat)
  {
    forall c | 2 <= c < |fat| ensures fat[c] != 1 {
      if fat[c] != 0 {
        assert Covered(chains, c);
        var s :| s in chains && c in s;
        var i: nat :| i < |s| && s[i] == c;
        assert Linked(fat, s, i);
        if i + 1 < |s| { assert Linked(fat, s, i + 1); }
      }
    }
  }

  /** With an exact or unknown free count, a count of zero means that nothing is free. */
  lemma CountZero(fat: seq<nat>, free: nat)
    requires |fat| >= 3 && CountOk(fat, free)
    ensures free == 0 ==> NoneFree(fat)
  {
    FreeBelowBounds(fat, |fat|);
  }

  /** Storing a link in a used cluster leaves the count alone; using or freeing one moves it by one. */
  lemma CountStep(fat: seq<nat>, free: nat, c: nat, v: nat)
    requires |fat| >= 3 && CountOk(fat, free) && 2 <= c < |fat|
    ensures fat[c] != 0 && v != 0 ==> CountOk(fat[c := v], free)
    ensures fat[c] == 0 && v != 0 ==> CountOk(fat[c := v], if 0 < free <= |fat| - 2 then free - 1 else free)
    ensures fat[c] == 0 && free <= |fat| - 2 ==> 0 < free
    ensures fat[c] != 0 && v == 0 ==> CountOk(fat[c := v], if free < |fat| - 2 then free + 1 else free)
  {
    FreeBelowBounds(fat, |fat|);
    FreeBelowBounds(fat[c := v], |fat|);
    FreeBelowUpdate(fat, |fat|, c, v);
  }

  lemma CreateCount(fat: seq<nat>, free: nat, clst: nat, r: nat, eoc: nat)
    requires |fat| >= 3 && CountOk(fat, free) && 2 <= r < |fat| && fat[r] == 0 && eoc != 0
    requires clst == 0 || (2 <= clst < |fat| && fat[clst] != 0)
    ensures free <= |fat| - 2 ==> 0 < free
    ensures CountOk(Apply(fat, CreateWrites(if clst == 0 then []
      else [clst], r, eoc)), if free <= |fat| - 2 then free - 1 else free)
  {
    var w := CreateWrites(if clst == 0 then [] else [clst], r, eoc);
    var f1 := fat[r := eoc];
    CountStep(fat, free, r, eoc);
    assert w[..1] == [(r, eoc)] && Apply(fat, []) == fat && Apply(fat, w[..1]) == f1;
    if clst != 0 {
      CountStep(f1, if free <= |fat| - 2 then free - 1 else free, clst, r);
      assert w[..2] == w;
    } else {
      assert w[..1] == w;
    }
  }

  lemma {:induction false} ApplyConcat(fat: seq<nat>, v: seq<Write>, w: seq<Write>)
    ensures Apply(fat, v + w) == Apply(Apply(fat, v), w)
    decreases |w|
  {
    if w == [] {
      assert v + w == v;
    } else {
      assert (v + w)[..|v + w| - 1] == v + w[..|w| - 1];
      ApplyConcat(fat, v, w[..|w| - 1]);
    }
  }

  lemma {:induction false} FreeApplied(fat: seq<nat>, t: seq<nat>, c: nat)
    requires c < |fat|
    ensures Apply(fat, FreeWrites(t))[c] == if c in t then 0 else fat[c]
    decreases |t|
  {
    if t != [] {
      var t', w := t[..|t| - 1], FreeWrites(t);
      FreeApplied(fat, t', c);
      assert w[..|w| - 1] == FreeWrites(t');
      assert t == t' + [t[|t| - 1]];
    }
  }

  /** A complete remove_chain frees exactly the clusters from index k on, ends the kept part, and changes no other
      entry. */
  lemma RemoveApplied(fat: seq<nat>, s: seq<nat>, k: nat, eoc: nat, c: nat)
    requires IsChain(fat, s) && k < |s| && c < |fat|
    ensures forall i :: 0 <= i < |s| ==> s[i] < |fat|
    ensures Apply(fat, RemoveWrites(s, k, eoc))[c]
         == if c in s[k..] then 0 else if 0 < k && c == s[k - 1] then eoc else fat[c]
  {
    ChainInside(fat, s);
    var v := if k == 0 then [] else [(s[k - 1], eoc)];
    ApplyConcat(fat, v, FreeWrites(s[k..]));
    FreeApplied(Apply(fat, v), s[k..], c);
    if 0 < k { assert v[..0] == [] && Apply(fat, v) == fat[s[k - 1] := eoc]; }
  }

  lemma {:induction false} ApplyOther(fat: seq<nat>, w: seq<Write>, c: nat)
    requires c < |fat| && forall i :: 0 <= i < |w| ==> w[i].0 != c
    ensures Apply(fat, w)[c] == fat[c]
    decreases |w|
  {
    if w != [] { ApplyOther(fat, w[..|w| - 1], c); }
  }

  /** How many writes remove_chain has made when it reaches cluster j of s. */
  function RemoveCount(k: nat, j: nat): nat
    requires k <= j
  {
    j - k + if k == 0 then 0 else 1
  }

  /** The clusters before k are still a chain after remove_chain. */
  lemma RemoveKeepsPrefix(fat: seq<nat>, s: seq<nat>, k: nat, eoc: nat)
    requires IsChain(fat, s) && k < |s| && eoc >= |fat|
    ensures forall i :: 0 <= i < |s| ==> s[i] < |fat|
    ensures k > 0 ==> IsChain(Apply(fat, RemoveWrites(s, k, eoc)), s[..k])
  {
    ChainInside(fat, s);
    hide RemoveWrites, Apply, Linked;
    var fat' := Apply(fat, RemoveWrites(s, k, eoc));
    forall i: nat | i < k ensures Linked(fat', s[..k], i) { PrefixLink(fat, s, k, eoc, i); }
  }

  lemma PrefixLink(fat: seq<nat>, s: seq<nat>, k: nat, eoc: nat, i: nat)
    requires IsChain(fat, s) && i < k < |s| && eoc >= |fat|
    ensures Linked(Apply(fat, RemoveWrites(s, k, eoc)), s[..k], i)
  {
    assert Linked(fat, s, i);
    BeforeCut(s, k, i);
    RemoveApplied(fat, s, k, eoc, s[i]);
    hide RemoveWrites, Apply, IsChain;
    assert i + 1 < k ==> s[..k][i + 1] == s[i + 1];
  }

  lemma BeforeCut(s: seq<nat>, k: nat, i: nat)
    requires Distinct(s) && i < k <= |s|
    ensures s[i] !in s[k..] && (i < k - 1 ==> s[i] != s[k - 1])
  {
  }

  lemma RemoveTarget(s: seq<nat>, k: nat, eoc: nat, i: nat)
    requires k < |s| && i < |RemoveWrites(s, k, eoc)|
    ensures RemoveWrites(s, k, eoc)[i] == if k == 0 then (s[i], 0) else (s[k - 1 + i], if i == 0 then eoc else 0)
  {
  }

  lemma ApplyNone(fat: seq<nat>)
    ensures Apply(fat, []) == fat
  {
  }

  lemma ApplyNext(fat: seq<nat>, w: seq<Write>, m: nat)
    requires m < |w| && w[m].0 < |fat|
    ensures Apply(fat, w[..m + 1]) == Apply(fat, w[..m])[w[m].0 := w[m].1]
  {
    assert w[..m + 1][..m] == w[..m];
  }

  /** The step of remove_chain at cluster j: the link there is still the original one, and is the next to be cleared. */
  lemma RemoveStep(fat: seq<nat>, s: seq<nat>, k: nat, eoc: nat, j: nat, w: seq<Write>, m: nat)
    requires IsChain(fat, s) && k <= j < |s| && w == RemoveWrites(s, k, eoc) && m == RemoveCount(k, j)
    ensures 2 <= s[j] < |fat| && Linked(fat, s, j)
    ensures m < |w| && w[m] == (s[j], 0) && (m + 1 == |w| <==> j + 1 == |s|)
    ensures Apply(fat, w[..m])[s[j]] == fat[s[j]]
    ensures Apply(fat, w[..m + 1]) == Apply(fat, w[..m])[s[j] := 0]
  {
    ChainLink(fat, s, j);
    EarlierTargets(s, k, eoc, j);
    hide *;
    FirstFor(fat, w, m, s[j]);
  }

  lemma ChainLink(fat: seq<nat>, s: seq<nat>, j: nat)
    requires IsChain(fat, s) && j < |s|
    ensures 2 <= s[j] < |fat| && Linked(fat, s, j) && Distinct(s)
  {
    assert Linked(fat, s, j);
  }

  /** The first write for cluster c, which frees it. */
  lemma FirstFor(fat: seq<nat>, w: seq<Write>, m: nat, c: nat)
    requires m < |w| && w[m] == (c, 0) && c < |fat| && forall i :: 0 <= i < m ==> w[i].0 != c
    ensures Apply(fat, w[..m])[c] == fat[c] && Apply(fat, w[..m + 1]) == Apply(fat, w[..m])[c := 0]
  {
    hide Apply;
    var v := w[..m];
    assert forall i :: 0 <= i < |v| ==> v[i] == w[i];
    ApplyOther(fat, v, c);
    ApplyNext(fat, w, m);
  }

  /** The writes before the one for cluster j are for other clusters. */
  lemma EarlierTargets(s: seq<nat>, k: nat, eoc: nat, j: nat)
    requires Distinct(s) && k <= j < |s|
    ensures var w, m := RemoveWrites(s, k, eoc), RemoveCount(k, j);
            && m < |w| && w[m] == (s[j], 0) && (m + 1 == |w| <==> j + 1 == |s|)
            && forall i :: 0 <= i < m ==> w[i].0 != s[j]
  {
    var w, m := RemoveWrites(s, k, eoc), RemoveCount(k, j);
    RemoveTarget(s, k, eoc, m);
    RemoveSome(s, k, eoc);
    hide RemoveWrites;
    forall i | 0 <= i < m ensures w[i].0 != s[j] {
      RemoveTarget(s, k, eoc, i);
      var q := if k == 0 then i else k - 1 + i;
      assert w[i].0 == s[q] && q < j;
    }
  }

  lemma RemoveSome(s: seq<nat>, k: nat, eoc: nat)
    requires k < |s|
    ensures |RemoveWrites(s, k, eoc)| == RemoveCount(k, |s|)
  {
  }

  /** remove_chain before its loop. */
  lemma RemoveStart(fat: seq<nat>, s: seq<nat>, k: nat, eoc: nat)
    requires IsChain(fat, s) && k < |s|
    ensures forall i :: 0 <= i < |s| ==> 2 <= s[i] < |fat| && fat[s[i]] != 0
    ensures var w, m := RemoveWrites(s, k, eoc), RemoveCount(k, k);
            && m <= |w| && w[..m] == (if k == 0 then [] else [(s[k - 1], eoc)])
            && Apply(fat, w[..m]) == if k == 0 then fat else fat[s[k - 1] := eoc]
  {
    ChainInside(fat, s);
    forall i | 0 <= i < |s| ensures fat[s[i]] != 0 { ChainMember(fat, s, s[i]); }
    var w, m := RemoveWrites(s, k, eoc), RemoveCount(k, k);
    assert w[..m] == if k == 0 then [] else [(s[k - 1], eoc)];
    assert Apply(fat, []) == fat;
  }

  /** A run which does not pass the end of the table is a block of consecutive clusters; one which passes it is not. */
  lemma RunConsecutive(fat: seq<nat>, start: nat, k: nat, len: nat)
    requires 2 <= start < |fat| && 0 < len && FreeRun(fat, start, k, len)
    ensures 2 <= ScanAt(|fat|, start, k) < |fat|
    ensures ScanAt(|fat|, start, k) + len <= |fat| ==>
      forall c :: ScanAt(|fat|, start, k) <= c < ScanAt(|fat|, start, k) + len ==> fat[c] == 0
    ensures ScanAt(|fat|, start, k) + len > |fat| ==>
      k + len > 1 && ScanAt(|fat|, start, k + len - 1) == ScanAt(|fat|, start, k) + len - 1 - (|fat| - 2)
  {
    var scl := ScanAt(|fat|, start, k);
    if scl + len <= |fat| {
      forall c | scl <= c < scl + len ensures fat[c] == 0 {
        var j := k + (c - scl);
        assert fat[ScanAt(|fat|, start, j)] == 0;
        assert ScanAt(|fat|, start, j) == c;
      }
    }
  }

  /** The state of a scan for a run of len free clusters: p of them have been read; those from k on are free, the one
      before k is not, and no run is complete. */
  ghost predicate Scanned(fat: seq<nat>, start: nat, k: nat, p: nat, len: nat) {
    && 2 <= start < |fat| && k <= p < k + len && p <= |fat| - 2
    && (forall j :: k <= j < p ==> fat[ScanAt(|fat|, start, j)] == 0)
    && (k > 0 ==> fat[ScanAt(|fat|, start, k - 1)] != 0)
    && forall i: nat :: i + len <= p ==> !FreeRun(fat, start, i, len)
  }

  /** k is the first place in scan order where len clusters are free. */
  ghost predicate FirstRun(fat: seq<nat>, start: nat, k: nat, len: nat)
    requires 2 <= start < |fat|
  {
    FreeRun(fat, start, k, len) && forall i: nat :: i < k ==> !FreeRun(fat, start, i, len)
  }

  /** The first run of len free clusters does not cross the end of the table. */
  ghost predicate FirstRunFits(fat: seq<nat>, start: nat, len: nat)
    requires 2 <= start < |fat|
  {
    exists k: nat :: FirstRun(fat, start, k, len) && ScanAt(|fat|, start, k) + len <= |fat|
  }

  /** The first run of len free clusters crosses the end of the table. */
  ghost predicate FirstRunCrosses(fat: seq<nat>, start: nat, len: nat)
    requires 2 <= start < |fat|
  {
    exists k: nat :: FirstRun(fat, start, k, len) && ScanAt(|fat|, start, k) + len > |fat|
  }

  /** There is only one first run: it fits or it crosses, and if there is none no run is free at all. */
  lemma FirstRunDecides(fat: seq<nat>, start: nat, k: nat, len: nat)
    requires 2 <= start < |fat| && FirstRun(fat, start, k, len)
    ensures FirstRunFits(fat, start, len) <==> ScanAt(|fat|, start, k) + len <= |fat|
    ensures FirstRunCrosses(fat, start, len) <==> ScanAt(|fat|, start, k) + len > |fat|
  {
    forall i: nat | FirstRun(fat, start, i, len) ensures i == k {
      assert FreeRun(fat, start, i, len) && FreeRun(fat, start, k, len);
    }
  }

  lemma NoFirstRun(fat: seq<nat>, start: nat, len: nat)
    requires 2 <= start < |fat| && forall i: nat :: !FreeRun(fat, start, i, len)
    ensures !FirstRunFits(fat, start, len) && !FirstRunCrosses(fat, start, len)
  {
  }

  /** The scan over six entries from the last one on: two clusters are wanted, entries 5 and 2 are free. */
  lemma RunCanCross()
    ensures FirstRunCrosses([0xFF8, 0xFFF, 0, 0xFFF, 0xFFF, 0], 5, 2)
  {
    var fat := [0xFF8, 0xFFF, 0, 0xFFF, 0xFFF, 0];
    assert FreeRun(fat, 5, 0, 2);
    assert FirstRun(fat, 5, 0, 2) && ScanAt(|fat|, 5, 0) + 2 > |fat|;
  }

  lemma ScanBounds(fat: seq<nat>, start: nat, k: nat, p: nat, len: nat)
    requires Scanned(fat, start, k, p, len)
    ensures 2 <= start < |fat| && k <= p <= |fat| - 2 && p < k + len
  {
  }

  lemma ScanBegins(fat: seq<nat>, start: nat, len: nat)
    requires 2 <= start < |fat| && 0 < len
    ensures Scanned(fat, start, 0, 0, len)
  {
  }

  /** One cluster more. */
  lemma ScanStep(fat: seq<nat>, start: nat, k: nat, p: nat, len: nat)
    requires Scanned(fat, start, k, p, len) && p < |fat| - 2
    ensures 2 <= ScanAt(|fat|, start, p) < |fat|
    ensures fat[ScanAt(|fat|, start, p)] == 0 && p + 1 == k + len ==> FirstRun(fat, start, k, len)
    ensures fat[ScanAt(|fat|, start, p)] == 0 && p + 1 < k + len ==> Scanned(fat, start, k, p + 1, len)
    ensures fat[ScanAt(|fat|, start, p)] != 0 ==> Scanned(fat, start, p + 1, p + 1, len)
  {
    forall i: nat | i + len == p + 1 && (i < k || fat[ScanAt(|fat|, start, p)] != 0)
      ensures !FreeRun(fat, start, i, len)
    {
      assert i < k ==> i <= k - 1 < i + len;
      assert i <= p < i + len;
    }
  }

  /** After a whole round without a complete run there is none. */
  lemma ScanEnds(fat: seq<nat>, start: nat, k: nat, p: nat, len: nat)
    requires Scanned(fat, start, k, p, len) && p == |fat| - 2
    ensures forall i: nat :: !FreeRun(fat, start, i, len)
  {
  }

  /** The part of a free run up to the end of the table. */
  lemma RunToEnd(fat: seq<nat>, start: nat, k: nat, len: nat)
    requires 2 <= start < |fat| && 0 < len && FreeRun(fat, start, k, len)
    ensures var scl := ScanAt(|fat|, start, k);
            2 <= scl < |fat| && (scl + len > |fat| ==> forall c :: scl <= c < |fat| ==> fat[c] == 0)
  {
    var scl := ScanAt(|fat|, start, k);
    if scl + len > |fat| {
      forall c | scl <= c < |fat| ensures fat[c] == 0 {
        var j := k + (c - scl);
        assert fat[ScanAt(|fat|, start, j)] == 0;
        assert ScanAt(|fat|, start, j) == c;
      }
    }
  }

  /** A run broken off after m of its n clusters reads as a run of m clusters, ended by the number of the next one. */
  lemma RunPrefix(scl: nat, n: nat, eoc: nat, m: nat)
    requires m < n
    ensures RunWrites(scl, n, eoc)[..m] == RunWrites(scl, m, scl + m)
  {
  }

  /** A complete run takes its clusters off an exact free count. */
  lemma RunCount(fat: seq<nat>, free: nat, scl: nat, n: nat, eoc: nat)
    requires |fat| >= 3 && CountOk(fat, free) && 2 <= scl && 0 < n && scl + n <= |fat| && eoc != 0
    requires forall c :: scl <= c < scl + n ==> fat[c] == 0
    ensures free <= |fat| - 2 ==> n <= free
    ensures CountOk(Apply(fat, RunWrites(scl, n, eoc)), if free <= |fat| - 2 then free - n else free)
  {
    assert RunWrites(scl, n, eoc)[..n] == RunWrites(scl, n, eoc);
    RunCountSteps(fat, scl, n, eoc, n);
  }

  lemma {:induction false} RunCountSteps(fat: seq<nat>, scl: nat, n: nat, eoc: nat, m: nat)
    requires 2 <= scl && m <= n && scl + n <= |fat| && eoc != 0
    requires forall c :: scl <= c < scl + n ==> fat[c] == 0
    ensures FreeCount(Apply(fat, RunWrites(scl, n, eoc)[..m])) == FreeCount(fat) - m
    decreases m
  {
    var w := RunWrites(scl, n, eoc);
    if m == 0 {
      assert w[..0] == [];
    } else {
      RunCountSteps(fat, scl, n, eoc, m - 1);
      RunApplied(fat, scl, n, eoc, m - 1);
      ApplyNext(fat, w, m - 1);
      FreeBelowUpdate(Apply(fat, w[..m - 1]), |fat|, w[m - 1].0, w[m - 1].1);
    }
  }

  /** create_chain lengthens the chain it is called for. */
  lemma AppendedChain(fat: seq<nat>, s: seq<nat>, r: nat, eoc: nat)
    requires s == [] || IsChain(fat, s)
    requires 2 <= r < |fat| && fat[r] == 0 && eoc >= |fat|
    ensures IsChain(Apply(fat, CreateWrites(s, r, eoc)), s + [r])
  {
    var w := CreateWrites(s, r, eoc);
    var f1 := fat[r := eoc];
    ApplyNone(fat);
    assert w[..0] == [];
    ApplyNext(fat, w, 0);
    if s == [] {
      assert w[..1] == w;
      assert Linked(f1, [r], 0);
    } else {
      ChainInside(fat, s);
      if r in s { ChainMember(fat, s, r); }
      ApplyNext(fat, w, 1);
      assert w[..2] == w;
      var f2 := f1[Last(s) := r];
      forall i: nat | i < |s| + 1 ensures Linked(f2, s + [r], i) {
        if i < |s| { assert Linked(fat, s, i); if i + 1 < |s| { assert s[i] != s[|s| - 1]; } }
      }
    }
  }
}
