/** Names in a directory with long names as a map (ff.c: dir_register, dir_remove): what writing and deleting a block do
    to what dir_find arrives at. */
module LongMap {
  import opened FatCodec
  import opened ClusterChains
  import opened FatVolume
  import opened DirTable
  import opened FatDir
  import opened LongName
  import opened LongDir
  import opened LongFind

  // ----- what is found elsewhere -----

  /** Tables which differ in the entries lo..hi at most, where entry hi is no piece. */
  ghost predicate Differ(tab: seq<Entry>, tab': seq<Entry>, lo: nat, hi: nat) {
    && lo <= hi < |tab| == |tab'| && !Piece(tab[hi]) && !Piece(tab'[hi])
    && forall j :: 0 <= j < |tab| && !(lo <= j <= hi) ==> tab'[j] == tab[j]
  }

  lemma RunSame(fold: Char -> nat, q: Query, tab: seq<Entry>, tab': seq<Entry>, lo: nat, hi: nat, b: nat, i: nat)
    requires Differ(tab, tab', lo, hi) && i < |tab| && !(lo <= i <= hi)
    ensures LongRun(fold, q, tab, b, i) <==> LongRun(fold, q, tab', b, i)
    ensures LongRun(fold, q, tab, b, i) ==> tab'[b] == tab[b]
  {
    if b <= hi < i {
      assert !Part(fold, q, tab, b, hi) && !Part(fold, q, tab', b, hi);
    } else if b < i {
      forall j | b <= j < i ensures Part(fold, q, tab, b, j) <==> Part(fold, q, tab', b, j) { }
    }
  }

  /** A name hits the other entries in the one table just when it does in the other. */
  lemma HitsOutside(fold: Char -> nat, q: Query, tab: seq<Entry>, tab': seq<Entry>, lo: nat, hi: nat, i: nat)
    requires Differ(tab, tab', lo, hi) && !(lo <= i <= hi)
    ensures Hit(fold, q, tab, i) <==> Hit(fold, q, tab', i)
  {
    if i < |tab| {
      hide LongRun, Checksum, Cmp;
      forall b: nat
        ensures LongRun(fold, q, tab, b, i) <==> LongRun(fold, q, tab', b, i)
        ensures LongRun(fold, q, tab, b, i) ==> tab'[b] == tab[b]
      {
        RunSame(fold, q, tab, tab', lo, hi, b, i);
      }
    }
  }

  /** Whether the name looked for is that of a block: its long name, in either case, or its short name. */
  predicate IsFor(fold: Char -> nat, q: Query, want: seq<Char>, name: seq<Char>, sfn: seq<Byte>) {
    (!q.noLfn && SameName(fold, name, want)) || (!q.loss && q.sfn == sfn)
  }

  /** The block of a name, and the name looked for. */
  ghost predicate Stands(fold: Char -> nat, q: Query, want: seq<Char>, tab: seq<Entry>, k: nat, name: seq<Char>,
      sfn: seq<Byte>, nt: Byte)
  {
    var n := Pieces(|name|);
    && Proper(fold) && IsLongName(want) && Holds(q.lfn, want)
    && IsLongName(name) && n < 0x2E && IsName(sfn) && HoldsPieces(tab, k, name, n, Checksum(sfn)) && k + n < |tab|
    && tab[k + n] == ShortEntry(sfn, nt)
  }

  lemma PieceOfBlock(fold: Char -> nat, q: Query, want: seq<Char>, tab: seq<Entry>, k: nat, name: seq<Char>,
      sfn: seq<Byte>, nt: Byte, j: nat)
    requires Stands(fold, q, want, tab, k, name, sfn, nt) && k <= j < k + Pieces(|name|)
    ensures Piece(tab[j]) && OrdOf(tab[j][0]) as int == k + Pieces(|name|) - j && tab[j][13] == Checksum(sfn)
    ensures IsLastPiece(tab[j][0]) <==> j == k
  {
    hide Checksum;
    var n := Pieces(|name|);
    assert PieceAt(tab, k, j, name, n, Checksum(sfn));
    PieceEntry(tab[j], name, k + n - j, Checksum(sfn));
  }

  lemma RunOfBlock(fold: Char -> nat, q: Query, tab: seq<Entry>, k: nat, i: nat)
    requires k < i <= |tab|
    requires forall j :: k <= j < i ==> Piece(tab[j]) && OrdOf(tab[j][0]) as int == i - j && tab[j][13] == tab[k][13]
    requires forall j :: k <= j < i ==> (IsLastPiece(tab[j][0]) <==> j == k)
    ensures LongRun(fold, q, tab, k, i) <==> forall j :: k <= j < i ==> Cmp(fold, q.lfn, tab[j])
  {
    hide Cmp, OrdOf, IsLastPiece, Piece;
    forall j | k <= j < i ensures Part(fold, q, tab, k, j) <==> Cmp(fold, q.lfn, tab[j]) {
      assert OrdOf(tab[k][0]) as int == i - k;
    }
  }

  /** The pieces of the block are a run just when the long names are the same. */
  lemma BlockRun(fold: Char -> nat, q: Query, want: seq<Char>, tab: seq<Entry>, k: nat, name: seq<Char>, sfn: seq<Byte>,
      nt: Byte)
    requires Stands(fold, q, want, tab, k, name, sfn, nt)
    ensures var i := k + Pieces(|name|);
            && k < i && (LongRun(fold, q, tab, k, i) <==> SameName(fold, name, want))
            && OrdOf(tab[k][0]) as int == i - k && tab[k][13] == Checksum(sfn)
            && forall j :: k <= j < i ==> Piece(tab[j]) && (IsLastPiece(tab[j][0]) <==> j == k)
  {
    var i := k + Pieces(|name|);
    hide Cmp, Checksum, SameName, OrdOf, IsLastPiece, HoldsPieces, ShortEntry, Piece, LongRun;
    AllPieces(fold, q.lfn, tab, k, name, Checksum(sfn), want);
    forall j | k <= j < i
      ensures Piece(tab[j]) && OrdOf(tab[j][0]) as int == i - j && tab[j][13] == Checksum(sfn)
      ensures IsLastPiece(tab[j][0]) <==> j == k
    {
      PieceOfBlock(fold, q, want, tab, k, name, sfn, nt, j);
    }
    RunOfBlock(fold, q, tab, k, i);
  }

  lemma ShortIsNamed(sfn: seq<Byte>, nt: Byte)
    requires IsName(sfn)
    ensures var e := ShortEntry(sfn, nt); Named(e) && e[..11] == sfn
  {
  }

  /** A run which ends behind pieces, of which only the first is the last of a name, begins there. */
  lemma RunBegins(fold: Char -> nat, q: Query, tab: seq<Entry>, k: nat, i: nat, b: nat)
    requires k < i <= |tab| && (forall j :: k <= j < i ==> (IsLastPiece(tab[j][0]) <==> j == k))
    requires LongRun(fold, q, tab, b, i)
    ensures b == k
  {
    hide Cmp, OrdOf, IsLastPiece, Piece;
    if b <= k { assert Part(fold, q, tab, b, k); }
    assert Part(fold, q, tab, b, b);
  }

  /** The name hits the short entry of the block just when it is for it. */
  lemma BlockHit(fold: Char -> nat, q: Query, want: seq<Char>, tab: seq<Entry>, k: nat, name: seq<Char>, sfn: seq<Byte>,
      nt: Byte)
    requires Stands(fold, q, want, tab, k, name, sfn, nt)
    ensures var i := k + Pieces(|name|);
            && Named(tab[i]) && (Hit(fold, q, tab, i) <==> IsFor(fold, q, want, name, sfn))
            && (SameName(fold, name, want) ==> LongRun(fold, q, tab, k, i))
  {
    var i := k + Pieces(|name|);
    hide Cmp, Checksum, SameName, OrdOf, IsLastPiece, HoldsPieces, ShortEntry, Piece, LongRun, Pieces, IsLongName;
    hide Holds;
    BlockRun(fold, q, want, tab, k, name, sfn, nt);
    ShortIsNamed(sfn, nt);
    forall b: nat | LongRun(fold, q, tab, b, i) ensures b == k { RunBegins(fold, q, tab, k, i, b); }
  }

  lemma BlockSame(q: Query, tab: seq<Entry>, tab': seq<Entry>, lo: nat, hi: nat, i: nat)
    requires Differ(tab, tab', lo, hi) && i < |tab| && !(lo <= i <= hi)
    ensures BlockAt(q, tab, i) == BlockAt(q, tab', i)
  {
    StartSame(tab, tab', lo, hi, i);
  }

  lemma {:induction false} StartSame(tab: seq<Entry>, tab': seq<Entry>, lo: nat, hi: nat, i: nat)
    requires Differ(tab, tab', lo, hi) && i <= |tab| && !(lo < i <= hi)
    ensures BlockStart(tab, i) == BlockStart(tab', i)
  {
    if i > 0 && i - 1 != hi { StartSame(tab, tab', lo, hi, i - 1); }
  }

  /** A search whose hits are outside the entries lo..hi ends in both tables alike. */
  lemma SearchSame(fold: Char -> nat, q: Query, tab: seq<Entry>, tab': seq<Entry>, lo: nat, hi: nat)
    requires WellEnded(tab) && WellEnded(tab') && Differ(tab, tab', lo, hi)
    requires forall i :: lo <= i <= hi ==> !Hit(fold, q, tab, i) && !Hit(fold, q, tab', i)
    ensures Search(fold, q, tab') == Search(fold, q, tab)
  {
    hide Hit, Differ, BlockAt, Search;
    forall i: nat ensures Hit(fold, q, tab, i) <==> Hit(fold, q, tab', i) {
      if !(lo <= i <= hi) { HitsOutside(fold, q, tab, tab', lo, hi, i); }
    }
    SameHits(fold, q, tab, tab');
    var r := Search(fold, q, tab);
    if r.Some? { BlockSame(q, tab, tab', lo, hi, r.value.0); }
  }

  /** The entry found is the first one hit. */
  lemma SameHits(fold: Char -> nat, q: Query, tab: seq<Entry>, tab': seq<Entry>)
    requires WellEnded(tab) && WellEnded(tab') && forall i: nat :: Hit(fold, q, tab, i) <==> Hit(fold, q, tab', i)
    ensures match Search(fold, q, tab)
            case None => Search(fold, q, tab').None?
            case Some((i, blk)) =>
              && Hit(fold, q, tab, i) && i < |tab| && blk == BlockAt(q, tab, i)
              && i < |tab'| && Search(fold, q, tab') == Some((i, BlockAt(q, tab', i)))
  {
    hide LongHit, Named, Search, BlockAt;
    FindFirst(fold, q, tab);
    FindFirst(fold, q, tab');
  }

  // ----- a table that grows -----

  /** Blank entries at the end change no search. */
  lemma GrownSearch(fold: Char -> nat, q: Query, tab: seq<Entry>, tab': seq<Entry>)
    requires WellEnded(tab) && Grown(tab, tab')
    ensures WellEnded(tab') && Search(fold, q, tab') == Search(fold, q, tab)
  {
    hide Search;
    assert forall i :: 0 <= i < |tab| ==> tab'[i] == tab[i];
    assert forall i :: |tab| <= i < |tab'| ==> tab'[i][0] == 0;
    forall i: nat ensures Hit(fold, q, tab, i) <==> Hit(fold, q, tab', i) {
      if i < |tab| { GrownHit(fold, q, tab, tab', i); }
    }
    hide Hit;
    SameHits(fold, q, tab, tab');
    var r := Search(fold, q, tab);
    if r.Some? { GrownStart(tab, tab', r.value.0); }
  }

  lemma GrownHit(fold: Char -> nat, q: Query, tab: seq<Entry>, tab': seq<Entry>, i: nat)
    requires i < |tab| <= |tab'| && forall j :: 0 <= j < |tab| ==> tab'[j] == tab[j]
    ensures Hit(fold, q, tab, i) <==> Hit(fold, q, tab', i)
  {
    hide Cmp, Checksum, Piece, Named;
    forall b: nat ensures LongRun(fold, q, tab, b, i) <==> LongRun(fold, q, tab', b, i) {
      if b < i { assert forall j :: b <= j < i ==> (Part(fold, q, tab, b, j) <==> Part(fold, q, tab', b, j)); }
    }
    hide LongRun;
  }

  lemma {:induction false} GrownStart(tab: seq<Entry>, tab': seq<Entry>, i: nat)
    requires i <= |tab| <= |tab'| && forall j :: 0 <= j < |tab| ==> tab'[j] == tab[j]
    ensures BlockStart(tab, i) == BlockStart(tab', i)
  {
    if i > 0 { GrownStart(tab, tab', i - 1); }
  }

  // ----- registering -----

  /** What a search arrives at once a name stands in a free block: the name, if it is for it and nothing before the
      block is hit, and what it arrived at before otherwise. */
  lemma LongRegistered(fold: Char -> nat, q: Query, want: seq<Char>, tab: seq<Entry>, tab': seq<Entry>, k: nat,
      name: seq<Char>, sfn: seq<Byte>, nt: Byte)
    requires var n := Pieces(|name|);
             && WellEnded(tab) && FreeBlock(tab, k + n, n + 1) && OnlyBlock(tab, tab', k, n)
             && Stands(fold, q, want, tab', k, name, sfn, nt)
    ensures var i := k + Pieces(|name|);
            var was := Search(fold, q, tab);
            && WellEnded(tab')
            && Search(fold, q, tab') ==
               if IsFor(fold, q, want, name, sfn) && (was.None? || i < was.value.0) then
                 Some((i, if q.noLfn then None else Some(k)))
               else was
  {
    hide Search, Hit, Stands, IsFor, BlockAt, FreeBlock, OnlyBlock;
    var n := Pieces(|name|);
    var i := k + n;
    BlockHit(fold, q, want, tab', k, name, sfn, nt);
    BlockAlone(fold, q, want, tab, tab', k, name, sfn, nt);
    FindFirst(fold, q, tab);
    FindFirst(fold, q, tab');
    if IsFor(fold, q, want, name, sfn) {
      forall j: nat | j != i ensures Hit(fold, q, tab, j) <==> Hit(fold, q, tab', j) {
        if !(k <= j <= i) { HitsOutside(fold, q, tab, tab', k, i, j); }
      }
      var was := Search(fold, q, tab);
      if was.Some? && was.value.0 < i { BlockSame(q, tab, tab', k, i, was.value.0); }
    } else {
      SearchSame(fold, q, tab, tab', k, i);
    }
  }

  /** In the block nothing is hit but its short entry, and nothing was before. */
  lemma BlockAlone(fold: Char -> nat, q: Query, want: seq<Char>, tab: seq<Entry>, tab': seq<Entry>, k: nat,
      name: seq<Char>, sfn: seq<Byte>, nt: Byte)
    requires var n := Pieces(|name|);
             && WellEnded(tab) && FreeBlock(tab, k + n, n + 1) && OnlyBlock(tab, tab', k, n)
             && Stands(fold, q, want, tab', k, name, sfn, nt)
    ensures var i := k + Pieces(|name|);
            && WellEnded(tab') && Differ(tab, tab', k, i) && BlockAt(q, tab', i) == (if q.noLfn then None else Some(k))
            && (forall j :: k <= j <= i ==> !Hit(fold, q, tab, j))
            && (forall j :: k <= j < i ==> !Hit(fold, q, tab', j))
  {
    hide LongHit, Cmp, Checksum, SameName, OrdOf, IsLastPiece, HoldsPieces, ShortEntry, Pieces, IsLongName, Holds;
    hide LongRun, NoRowBefore;
    var n := Pieces(|name|);
    BlockRun(fold, q, want, tab', k, name, sfn, nt);
    ShortIsNamed(sfn, nt);
    BlockBegins(tab', k, k + n);
    forall j | k <= j <= k + n ensures Free(tab[j]) && tab'[j][0] != 0 { }
    BlockEnded(tab, tab', k, n);
  }

  /** Every search after a name has been registered in the entries k..i: it ends on the name, if it is for it and did
      not end before, and where it did otherwise. */
  ghost predicate Names(fold: Char -> nat, tab: seq<Entry>, tab': seq<Entry>, k: nat, name: seq<Char>, sfn: seq<Byte>) {
    forall q: Query, want: seq<Char> :: IsLongName(want) && Holds(q.lfn, want) ==>
      Search(fold, q, tab') == SearchedBefore(fold, q, want, tab, k, name, sfn)
  }

  function SearchedBefore(fold: Char -> nat, q: Query, want: seq<Char>, tab: seq<Entry>, k: nat, name: seq<Char>,
      sfn: seq<Byte>): Option<(nat, Option<nat>)>
  {
    var i, was := k + Pieces(|name|), Search(fold, q, tab);
    if IsFor(fold, q, want, name, sfn) && (was.None? || i < was.value.0) then
      Some((i, if q.noLfn then None else Some(k)))
    else was
  }

  /** dir_register, and every search after it. */
  method RegisterName(d: Dir, ghost fold: Char -> nat, lfn: array<Char>, sfn: seq<Byte>, nt: Byte,
      ghost name: seq<Char>, len: nat)
    returns (res: FResult, ghost k: nat)
    requires d.ValidBase() && WellEnded(d.tab) && Proper(fold)
    requires IsLongName(name) && Holds(lfn[..], name) && len == |name| && Pieces(len) < 0x2E && IsName(sfn)
    modifies d`dptr, d`clust, d`sect, d`chain, d`secs, d`tab, d.fs, d.fs.disk, d.fs.win
    ensures d.ValidBase() && WellEnded(d.tab)
    ensures res == Ok ==>
      && d.At(k + Pieces(len)) && d.tab[k + Pieces(len)] == ShortEntry(sfn, nt)
      && Names(fold, old(d.tab), d.tab, k, name, sfn)
    ensures res != Ok ==>
      Refused(d, res, Pieces(len) + 1) && forall q: Query :: Search(fold, q, d.tab) == Search(fold, q, old(d.tab))
  {
    hide d.ValidBase, d.fs.Outside, d.fs.Sec, Checksum, IsLongName, Holds, HoldsPieces, OnlyBlock, Grown, Proper;
    hide WellEnded, FreeBlock, d.At, ShortEntry, Refused, Search, Names, Padded;
    res, k := RegisterLong(d, lfn, sfn, nt, name, len);
    if res == Ok {
      NamesAfter(fold, old(d.tab), d.tab, k, name, sfn, nt);
    } else {
      GrownSearch(fold, Query([], sfn, false, false), old(d.tab), d.tab);
      forall q: Query ensures Search(fold, q, d.tab) == Search(fold, q, old(d.tab)) {
        GrownSearch(fold, q, old(d.tab), d.tab);
      }
    }
  }

  lemma HoldsItself(name: seq<Char>)
    requires IsLongName(name)
    ensures Holds(name + [0], name)
  {
  }

  lemma NamesAfter(fold: Char -> nat, tab0: seq<Entry>, tab': seq<Entry>, k: nat, name: seq<Char>, sfn: seq<Byte>,
      nt: Byte)
    requires Proper(fold) && WellEnded(tab0) && IsLongName(name) && Pieces(|name|) < 0x2E && IsName(sfn)
    requires var n := Pieces(|name|);
             && HoldsPieces(tab', k, name, n, Checksum(sfn)) && k + n < |tab'| && tab'[k + n] == ShortEntry(sfn, nt)
             && |tab0| <= |tab'|
             && var tab := Padded(tab0, |tab'|); FreeBlock(tab, k + n, n + 1) && OnlyBlock(tab, tab', k, n)
    ensures WellEnded(tab') && Names(fold, tab0, tab', k, name, sfn)
  {
    hide Search, WellEnded, HoldsPieces, FreeBlock, OnlyBlock, Checksum, ShortEntry, IsFor, IsLongName, Holds, Pieces;
    var tab := Padded(tab0, |tab'|);
    forall q: Query, want: seq<Char> | IsLongName(want) && Holds(q.lfn, want)
      ensures Search(fold, q, tab') == SearchedBefore(fold, q, want, tab0, k, name, sfn)
    {
      GrownSearch(fold, q, tab0, tab);
      LongRegistered(fold, q, want, tab, tab', k, name, sfn, nt);
    }
    HoldsItself(name);
    var q0 := Query(name + [0], sfn, false, false);
    GrownSearch(fold, q0, tab0, tab);
    BlockAlone(fold, q0, name, tab, tab', k, name, sfn, nt);
  }

  // ----- removing -----

  /** The entries from..i are deleted. */
  ghost predicate BlockDeleted(tab: seq<Entry>, tab': seq<Entry>, from: nat, i: nat) {
    && from <= i < |tab| == |tab'| && (forall j :: from <= j <= i ==> tab'[j] == Deleted(tab[j]))
    && forall j :: 0 <= j < |tab| && !(from <= j <= i) ==> tab'[j] == tab[j]
  }

  lemma OneMore(tab: seq<Entry>, tab1: seq<Entry>, tab2: seq<Entry>, from: nat, k: nat)
    requires from <= k < |tab| && (if k == from then tab1 == tab else BlockDeleted(tab, tab1, from, k - 1))
    requires tab2 == tab1[k := Deleted(tab1[k])]
    ensures BlockDeleted(tab, tab2, from, k)
  {
  }

  /** The entry under the cursor is marked deleted. */
  method DeleteEntry(d: Dir, ghost k: nat)
    requires d.ValidBase() && d.At(k)
    modifies d`tab, d.fs`winsect, d.fs`wflag, d.fs.disk, d.fs.win
    ensures d.ValidBase() && d.At(k) && d.fs.fat == old(d.fs.fat)
    ensures k < |old(d.tab)| && d.tab == old(d.tab)[k := Deleted(old(d.tab)[k])]
  {
    hide d.ValidBase, d.fs.Outside, d.fs.Sec;
    var e := d.Look(k);
    d.Put(k, 0, [0xE5]);
    assert d.tab[k] == Deleted(old(d.tab)[k]);
  }

  /** dir_remove with the cursor on entry i: its block, from the offset blkOfs on, or the entry alone. */
  method RemoveBlock(d: Dir, blkOfs: nat, ghost from: nat, ghost i: nat) returns (res: FResult)
    requires d.ValidBase() && d.At(i) && from <= i && (if blkOfs == NoBlock then from == i else blkOfs == 32 * from)
    modifies d`dptr, d`clust, d`sect, d`chain, d`secs, d`tab, d.fs, d.fs.disk, d.fs.win
    ensures res == Ok && d.ValidBase() && d.At(i) && BlockDeleted(old(d.tab), d.tab, from, i)
    ensures d.chain == old(d.chain) && d.secs == old(d.secs) && d.fs.fat == old(d.fs.fat)
  {
    hide d.ValidBase, d.fs.Outside, d.fs.Sec, d.At, BlockDeleted, Deleted;
    var last := d.dptr;
    ghost var k := from;
    NotEmpty(d);
    AtOffset(d, i);
    res := Ok;
    if blkOfs != NoBlock { res := d.SetIndex(blkOfs); }
    if res != Ok { return; }
    while true
      invariant res == Ok && d.ValidBase() && from <= k <= i < |d.tab| == |old(d.tab)| && d.At(k) && last == 32 * i
      invariant k == from ==> d.tab == old(d.tab)
      invariant k > from ==> BlockDeleted(old(d.tab), d.tab, from, k - 1)
      invariant d.chain == old(d.chain) && d.secs == old(d.secs) && d.fs.fat == old(d.fs.fat)
      decreases i - k
    {
      ghost var before := d.tab;
      DeleteEntry(d, k);
      OneMore(old(d.tab), before, d.tab, from, k);
      AtOffset(d, k);
      if d.dptr >= last { break; }
      res := d.Next(false, k);
      if res != Ok { break; }
      k := k + 1;
    }
    if res == NoFile { res := IntErr; }
  }

  /** Where dir_remove begins. */
  function From(i: nat, blk: Option<nat>): nat {
    if blk.Some? then blk.value else i
  }

  /** Once the entry found is removed with its block, the block is free, no name hits it, and every search which did not
      end there ends where it did. */
  lemma LongRemoved(fold: Char -> nat, q: Query, tab: seq<Entry>, tab': seq<Entry>, i: nat, blk: Option<nat>, r: Query)
    requires WellEnded(tab) && Search(fold, q, tab) == Some((i, blk)) && BlockDeleted(tab, tab', From(i, blk), i)
    ensures WellEnded(tab') && forall j :: From(i, blk) <= j <= i ==> Free(tab'[j])
    ensures forall j: nat :: Hit(fold, r, tab', j) <==> j != i && Hit(fold, r, tab, j)
    ensures var was := Search(fold, r, tab);
            was.None? || was.value.0 != i ==> Search(fold, r, tab') == was
  {
    hide LongHit, Search, Cmp, Checksum, IsLastPiece;
    FindFirst(fold, q, tab);
    var from := From(i, blk);
    assert forall j :: from <= j < i ==> Piece(tab[j]);
    assert forall j :: from <= j <= i ==> !Named(tab'[j]);
    DeletedEnded(tab, tab', from, i);
    hide Named;
    forall j: nat ensures Hit(fold, r, tab', j) <==> j != i && Hit(fold, r, tab, j) {
      if !(from <= j <= i) { HitsOutside(fold, r, tab, tab', from, i, j); }
    }
    hide Hit;
    RemovedSearch(fold, r, tab, tab', from, i);
  }

  lemma DeletedEnded(tab: seq<Entry>, tab': seq<Entry>, from: nat, i: nat)
    requires WellEnded(tab) && BlockDeleted(tab, tab', from, i) && !Piece(tab[i])
    ensures WellEnded(tab') && Differ(tab, tab', from, i) && forall j :: from <= j <= i ==> Free(tab'[j])
  {
  }

  lemma RemovedSearch(fold: Char -> nat, r: Query, tab: seq<Entry>, tab': seq<Entry>, from: nat, i: nat)
    requires WellEnded(tab) && WellEnded(tab') && Differ(tab, tab', from, i)
    requires forall j: nat :: Hit(fold, r, tab', j) <==> j != i && Hit(fold, r, tab, j)
    requires forall j :: from <= j < i ==> !Hit(fold, r, tab, j)
    ensures var was := Search(fold, r, tab);
            was.None? || was.value.0 != i ==> Search(fold, r, tab') == was
  {
    hide Hit, Search, BlockAt;
    FindFirst(fold, r, tab);
    FindFirst(fold, r, tab');
    var was := Search(fold, r, tab);
    if was.Some? && was.value.0 != i {
      assert Hit(fold, r, tab', was.value.0);
      BlockSame(r, tab, tab', from, i, was.value.0);
    }
  }

  /** Removing what was registered is as if it had never been. */
  lemma RegisteredRemoved(fold: Char -> nat, q: Query, want: seq<Char>, tab: seq<Entry>, tab1: seq<Entry>,
      tab2: seq<Entry>, k: nat, name: seq<Char>, sfn: seq<Byte>, nt: Byte, r: Query)
    requires var n := Pieces(|name|);
             && WellEnded(tab) && FreeBlock(tab, k + n, n + 1) && OnlyBlock(tab, tab1, k, n)
             && Stands(fold, q, want, tab1, k, name, sfn, nt)
    requires Search(fold, q, tab).None? && IsFor(fold, q, want, name, sfn) && !q.noLfn
    requires Search(fold, q, tab1).Some? ==>
      var x := Search(fold, q, tab1).value; BlockDeleted(tab1, tab2, From(x.0, x.1), x.0)
    ensures Search(fold, r, tab2) == Search(fold, r, tab)
  {
    hide Search, Hit, Stands, IsFor, BlockAt, FreeBlock, OnlyBlock, BlockDeleted, WellEnded, Differ;
    var i := k + Pieces(|name|);
    LongRegistered(fold, q, want, tab, tab1, k, name, sfn, nt);
    assert Search(fold, q, tab1) == Some((i, Some(k)));
    Undone(tab, tab1, tab2, k, Pieces(|name|));
    forall j | k <= j <= i ensures !Hit(fold, r, tab, j) && !Hit(fold, r, tab2, j) {
      FreeIsNoHit(fold, r, tab, j);
      FreeIsNoHit(fold, r, tab2, j);
    }
    SearchSame(fold, r, tab, tab2, k, i);
  }

  lemma FreeIsNoHit(fold: Char -> nat, q: Query, tab: seq<Entry>, j: nat)
    requires j < |tab| && Free(tab[j])
    ensures !Hit(fold, q, tab, j)
  {
  }

  lemma Undone(tab: seq<Entry>, tab1: seq<Entry>, tab2: seq<Entry>, k: nat, n: nat)
    requires WellEnded(tab) && FreeBlock(tab, k + n, n + 1) && OnlyBlock(tab, tab1, k, n)
    requires BlockDeleted(tab1, tab2, k, k + n)
    ensures WellEnded(tab2) && Differ(tab, tab2, k, k + n)
    ensures forall j :: k <= j <= k + n ==> Free(tab[j]) && Free(tab2[j])
  {
    forall j | k <= j <= k + n ensures Free(tab[j]) && Free(tab2[j]) { }
    forall j | 0 <= j < |tab| && !(k <= j <= k + n) ensures tab2[j] == tab[j] { assert tab1[j] == tab[j]; }
  }

  /** dir_find and dir_remove: the entry found goes with its block, no name hits it any more, and every search which did
      not end there ends where it did. */
  method RemoveName(d: Dir, fold: Char -> nat, lfn: array<Char>, sfn: seq<Byte>, noLfn: bool, loss: bool)
    returns (res: FResult)
    requires d.ValidBase() && WellEnded(d.tab) && lfn.Length % 13 != 0
    modifies d`dptr, d`clust, d`sect, d`chain, d`secs, d`tab, d.fs, d.fs.disk, d.fs.win
    ensures d.ValidBase() && WellEnded(d.tab)
    ensures match Search(fold, Query(old(lfn[..]), sfn, noLfn, loss), old(d.tab))
            case None => res == NoFile && d.tab == old(d.tab)
            case Some((i, blk)) =>
              && res == Ok && BlockDeleted(old(d.tab), d.tab, From(i, blk), i)
              && (forall r: Query, j: nat :: Hit(fold, r, d.tab, j) <==> j != i && Hit(fold, r, old(d.tab), j))
              && forall r: Query :: SearchBut(fold, r, old(d.tab), i) ==>
                   Search(fold, r, d.tab) == Search(fold, r, old(d.tab))
  {
    hide d.ValidBase, d.fs.Outside, d.fs.Sec, Search, WellEnded, d.At, BlockDeleted, Hit, SearchBut;
    ghost var k, q, tab := 0, Query(lfn[..], sfn, noLfn, loss), d.tab;
    var blkOfs;
    res, blkOfs, k := FindLong(d, fold, lfn, sfn, noLfn, loss);
    if res != Ok { return; }
    ghost var blk := Search(fold, q, tab).value.1;
    FoundBlock(fold, q, d, blk, k);
    res := RemoveBlock(d, blkOfs, From(k, blk), k);
    forall r: Query, j: nat ensures Hit(fold, r, d.tab, j) <==> j != k && Hit(fold, r, tab, j) {
      LongRemoved(fold, q, tab, d.tab, k, blk, r);
    }
    forall r: Query ensures SearchBut(fold, r, tab, k) ==> Search(fold, r, d.tab) == Search(fold, r, tab)
    {
      LongRemoved(fold, q, tab, d.tab, k, blk, r);
      ButMeans(fold, r, tab, k);
    }
    LongRemoved(fold, q, tab, d.tab, k, blk, q);
  }

  /** The search does not end at entry i. */
  predicate SearchBut(fold: Char -> nat, r: Query, tab: seq<Entry>, i: nat) {
    Search(fold, r, tab).None? || Search(fold, r, tab).value.0 != i
  }

  lemma ButMeans(fold: Char -> nat, r: Query, tab: seq<Entry>, i: nat)
    ensures SearchBut(fold, r, tab, i) <==> Search(fold, r, tab).None? || Search(fold, r, tab).value.0 != i
  {
  }

  lemma FoundBlock(fold: Char -> nat, q: Query, d: Dir, blk: Option<nat>, i: nat)
    requires d.ValidBase() && WellEnded(d.tab) && Search(fold, q, d.tab) == Some((i, blk))
    ensures From(i, blk) <= i
    ensures if BlockOfs(blk) == NoBlock then From(i, blk) == i else BlockOfs(blk) == 32 * From(i, blk)
  {
    hide Hit, Search, d.ValidBase;
    FindFirst(fold, q, d.tab);
    NotEmpty(d);
  }
}
