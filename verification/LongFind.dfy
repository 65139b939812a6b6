/** Looking for a name in a directory with long names, and removing it (ff.c: cmp_lfn, dir_find, dir_remove). What the
    scan arrives at is the first entry which the name hits, whether by its pieces or by its short name. */
module LongFind {
  import opened FatCodec
  import opened ClusterChains
  import opened FatVolume
  import opened DirTable
  import opened FatDir
  import opened LongName
  import opened LongDir

  /** What dir_find looks for: the long name in its buffer, the short name, and whether only one of them counts
      (NS_NOLFN, NS_LOSS). */
  datatype Query = Query(lfn: seq<Char>, sfn: seq<Byte>, noLfn: bool, loss: bool)

  /** An entry without valid data: deleted, or a volume label. */
  predicate Skipped(e: Entry) {
    e[0] == 0xE5 || (e[11] / 8 % 2 == 1 && !IsLfn(e))
  }

  predicate Piece(e: Entry) {
    e[0] != 0 && e[0] != 0xE5 && IsLfn(e)
  }

  predicate Named(e: Entry) {
    e[0] != 0 && !Skipped(e) && !IsLfn(e)
  }

  // ----- comparing a piece -----

  /** cmp_lfn from character s on, which is compared with the buffer at i; wc is the character before it. */
  predicate CmpFrom(fold: Char -> nat, buf: seq<Char>, e: Entry, s: nat, i: nat, wc: Char)
    requires s <= 13
    decreases 13 - s
  {
    if s == 13 then !(IsLastPiece(e[0]) && wc != 0 && i < |buf| && buf[i] != 0)
    else if wc != 0 then
      i < |buf| && fold(CharAt(e, s)) == fold(buf[i]) && CmpFrom(fold, buf, e, s + 1, i + 1, CharAt(e, s))
    else CharAt(e, s) == 0xFFFF && CmpFrom(fold, buf, e, s + 1, i, wc)
  }

  /** Where the piece begins in the name. */
  function StartOf(e: Entry): (i: nat)
    requires e[0] % 64 != 0
    ensures i % 13 == 0
  {
    (e[0] as int % 64 - 1) * 13
  }

  /** cmp_lfn. An order of 0 is an index far outside the buffer. */
  predicate Cmp(fold: Char -> nat, buf: seq<Char>, e: Entry) {
    e[26] == 0 && e[27] == 0 && e[0] % 64 != 0 && CmpFrom(fold, buf, e, 0, StartOf(e), 1)
  }

  /** cmp_lfn. The size of the buffer is not a multiple of 13, so that the character behind a piece is in it. */
  method CmpLfn(fold: Char -> nat, lfn: array<Char>, e: Entry) returns (res: bool)
    requires lfn.Length % 13 != 0
    ensures res == Cmp(fold, lfn[..], e)
  {
    hide CharAt;
    if e[26] != 0 || e[27] != 0 { return false; }
    if e[0] % 64 == 0 { return false; }
    var i, s, wc := StartOf(e), 0, 1;
    ghost var base := i;
    while s < 13
      invariant 0 <= s <= 13 && base % 13 == 0 && 0 <= i && (wc != 0 ==> i == base + s && (s > 0 ==> i <= lfn.Length))
      invariant CmpFrom(fold, lfn[..], e, s, i, wc) == Cmp(fold, lfn[..], e)
    {
      var uc := CharAt(e, s);
      if wc != 0 {
        if i >= lfn.Length || fold(uc) != fold(lfn[i]) { return false; }
        i := i + 1;
        wc := uc;
      } else if uc != 0xFFFF {
        return false;
      }
      s := s + 1;
    }
    if IsLastPiece(e[0]) && wc != 0 {
      NotAtEnd(base, lfn.Length);
      if lfn[i] != 0 { return false; }
    }
    res := true;
  }

  lemma NotAtEnd(base: nat, n: nat)
    requires base % 13 == 0 && base + 13 <= n && n % 13 != 0
    ensures base + 13 < n
  {
  }

  /** The conversion to upper case keeps the end mark apart. */
  ghost predicate Proper(fold: Char -> nat) {
    fold(0) == 0 && forall c: Char :: c != 0 ==> fold(c) != 0
  }

  predicate SameName(fold: Char -> nat, a: seq<Char>, b: seq<Char>) {
    |a| == |b| && forall i :: 0 <= i < |a| ==> fold(a[i]) == fold(b[i])
  }

  /** The buffer agrees with the name at x. */
  predicate AgreeAt(fold: Char -> nat, buf: seq<Char>, name: seq<Char>, x: nat) {
    x < |buf| && fold(Stored(name, x)) == fold(buf[x])
  }

  /** Comparing piece ord of a name, when character s is next. */
  lemma {:induction false} CmpSteps(fold: Char -> nat, buf: seq<Char>, e: Entry, name: seq<Char>, ord: nat, sum: Byte,
      s: nat, i: nat, wc: Char)
    requires IsLongName(name) && 0 < ord <= Pieces(|name|) && ord < 0x40 && IsPiece(e, name, ord, sum) && s <= 13
    requires var base := 13 * (ord - 1);
             && (wc == 0 <==> s > 0 && base + s > |name|)
             && (wc != 0 ==> i == base + s)
    ensures var base := 13 * (ord - 1);
            CmpFrom(fold, buf, e, s, i, wc) <==>
              && (forall x :: base + s <= x < base + 13 && x <= |name| ==> AgreeAt(fold, buf, name, x))
              && (|name| == base + 13 && |name| < |buf| ==> buf[|name|] == 0)
    decreases 13 - s
  {
    hide CharAt, AgreeAt;
    var base := 13 * (ord - 1);
    if s < 13 {
      assert CharAt(e, s) == Stored(name, base + s);
      if wc != 0 {
        CmpSteps(fold, buf, e, name, ord, sum, s + 1, i + 1, CharAt(e, s));
        AgreeIs(fold, buf, name, base + s);
      } else {
        CmpSteps(fold, buf, e, name, ord, sum, s + 1, i, wc);
      }
    }
  }

  lemma AgreeIs(fold: Char -> nat, buf: seq<Char>, name: seq<Char>, x: nat)
    ensures AgreeAt(fold, buf, name, x) <==> x < |buf| && fold(Stored(name, x)) == fold(buf[x])
  {
  }

  lemma PieceCmp(fold: Char -> nat, buf: seq<Char>, e: Entry, name: seq<Char>, ord: nat, sum: Byte)
    requires IsLongName(name) && 0 < ord <= Pieces(|name|) && ord < 0x40 && IsPiece(e, name, ord, sum)
    ensures Cmp(fold, buf, e) <==>
      && (forall x :: 13 * (ord - 1) <= x < 13 * ord && x <= |name| ==> AgreeAt(fold, buf, name, x))
      && (|name| == 13 * ord && |name| < |buf| ==> buf[|name|] == 0)
  {
    hide AgreeAt, CmpFrom, CharAt;
    assert e[0] % 64 == ord;
    CmpSteps(fold, buf, e, name, ord, sum, 0, 13 * (ord - 1), 1);
  }

  /** The pieces of a name all compare equal just when the name is the one looked for, in either case. */
  lemma AllPieces(fold: Char -> nat, buf: seq<Char>, tab: seq<Entry>, k: nat, name: seq<Char>, sum: Byte,
      want: seq<Char>)
    requires Proper(fold) && IsLongName(name) && IsLongName(want) && Holds(buf, want)
    requires Pieces(|name|) < 0x2E && HoldsPieces(tab, k, name, Pieces(|name|), sum)
    ensures (forall j :: k <= j < k + Pieces(|name|) ==> Cmp(fold, buf, tab[j])) <==> SameName(fold, name, want)
  {
    var n := Pieces(|name|);
    hide Cmp, AgreeAt, IsPiece, Pieces;
    forall j | k <= j < k + n
      ensures var ord := k + n - j;
              Cmp(fold, buf, tab[j]) <==>
                && (forall x :: 13 * (ord - 1) <= x < 13 * ord && x <= |name| ==> AgreeAt(fold, buf, name, x))
                && (|name| == 13 * ord && |name| < |buf| ==> buf[|name|] == 0)
    {
      assert PieceAt(tab, k, j, name, n, sum);
      PieceCmp(fold, buf, tab[j], name, k + n - j, sum);
    }
    if forall j :: k <= j < k + n ==> Cmp(fold, buf, tab[j]) {
      forall x: nat | x <= |name| && x < 13 * n ensures AgreeAt(fold, buf, name, x) {
        var j := k + n - 1 - x / 13;
        assert k <= j < k + n && Cmp(fold, buf, tab[j]);
      }
      assert Cmp(fold, buf, tab[k]);
      NamesAgree(fold, buf, name, want, n);
    }
    if SameName(fold, name, want) {
      forall x: nat | x <= |name| ensures AgreeAt(fold, buf, name, x) { AgreeSame(fold, buf, name, want, x); }
      BufferAt(buf, want, |name|);
    }
  }

  lemma AgreeSame(fold: Char -> nat, buf: seq<Char>, name: seq<Char>, want: seq<Char>, x: nat)
    requires Holds(buf, want) && SameName(fold, name, want) && x <= |name|
    ensures AgreeAt(fold, buf, name, x)
  {
    BufferAt(buf, want, x);
  }

  lemma NamesAgree(fold: Char -> nat, buf: seq<Char>, name: seq<Char>, want: seq<Char>, n: nat)
    requires Proper(fold) && IsLongName(name) && IsLongName(want) && Holds(buf, want) && n == Pieces(|name|)
    requires forall x: nat :: x <= |name| && x < 13 * n ==> AgreeAt(fold, buf, name, x)
    requires |name| == 13 * n && |name| < |buf| ==> buf[|name|] == 0
    ensures SameName(fold, name, want)
  {
    var m := if |name| < |want| then |name| else |want|;
    assert m < |name| ==> AgreeAt(fold, buf, name, m);
    BufferAt(buf, want, m);
    assert |name| < 13 * n ==> AgreeAt(fold, buf, name, |name|);
    forall i | 0 <= i < m ensures fold(name[i]) == fold(want[i]) {
      assert AgreeAt(fold, buf, name, i);
      BufferAt(buf, want, i);
    }
  }

  // ----- the scan -----

  /** The state of dir_find between two entries: the order and checksum it expects, 0xFF for no piece, and the first
      piece of the name before the entry. */
  datatype Scan = Scan(ord: nat, sum: Byte, blk: Option<nat>)

  lemma OrderPositive(fold: Char -> nat, buf: seq<Char>, e: Entry)
    requires Cmp(fold, buf, e)
    ensures OrdOf(e[0]) > 0
  {
    hide CmpFrom;
  }

  /** What a piece at entry k makes of the state. */
  function Take(fold: Char -> nat, q: Query, e: Entry, st: Scan, k: nat): Scan {
    var st1 := if IsLastPiece(e[0]) then Scan(OrdOf(e[0]) as int, e[13], Some(k)) else st;
    if OrdOf(e[0]) as int == st1.ord && st1.sum == e[13] && Cmp(fold, q.lfn, e) then
      OrderPositive(fold, q.lfn, e);
      st1.(ord := st1.ord - 1)
    else st1.(ord := 0xFF)
  }

  /** The state behind an entry which does not continue a name. */
  function Restart(st: Scan): Scan {
    Scan(0xFF, st.sum, None)
  }

  /** The long name before a short-name entry was the one looked for, or the short name is. */
  predicate Stops(q: Query, e: Entry, st: Scan) {
    (st.ord == 0 && st.sum == Checksum(e[..11])) || (!q.loss && e[..11] == q.sfn)
  }

  /** dir_find from entry k on: the entry found, and where its block begins. */
  function SearchFrom(fold: Char -> nat, q: Query, tab: seq<Entry>, k: nat, st: Scan): Option<(nat, Option<nat>)>
    decreases |tab| - k
  {
    if k >= |tab| || tab[k][0] == 0 then None
    else if Skipped(tab[k]) then SearchFrom(fold, q, tab, k + 1, Restart(st))
    else if IsLfn(tab[k]) then SearchFrom(fold, q, tab, k + 1, if q.noLfn then st else Take(fold, q, tab[k], st, k))
    else if Stops(q, tab[k], st) then Some((k, st.blk))
    else SearchFrom(fold, q, tab, k + 1, Restart(st))
  }

  const Start := Scan(0xFF, 0xFF, None)

  /** What dir_find arrives at. */
  function Search(fold: Char -> nat, q: Query, tab: seq<Entry>): Option<(nat, Option<nat>)> {
    SearchFrom(fold, q, tab, 0, Start)
  }

  // ----- what it means -----

  /** Entry j is a piece of the run which begins at entry b, and compares equal. */
  predicate Part(fold: Char -> nat, q: Query, tab: seq<Entry>, b: nat, j: nat)
    requires b <= j < |tab|
  {
    && Piece(tab[j]) && Cmp(fold, q.lfn, tab[j]) && tab[j][13] == tab[b][13]
    && OrdOf(tab[j][0]) as int + (j - b) == OrdOf(tab[b][0]) as int && (IsLastPiece(tab[j][0]) <==> j == b)
  }

  /** The entries b..k-1 are the pieces of a name from its last one on, which compare equal. */
  predicate LongRun(fold: Char -> nat, q: Query, tab: seq<Entry>, b: nat, k: nat) {
    b < k <= |tab| && forall j :: b <= j < k ==> Part(fold, q, tab, b, j)
  }

  /** The long name looked for stands before entry i. */
  ghost predicate LongHit(fold: Char -> nat, q: Query, tab: seq<Entry>, i: nat)
    requires i < |tab|
  {
    !q.noLfn && exists b: nat ::
      LongRun(fold, q, tab, b, i) && OrdOf(tab[b][0]) as int == i - b && tab[b][13] == Checksum(tab[i][..11])
  }

  /** Entry i is the one of the name looked for. */
  ghost predicate Hit(fold: Char -> nat, q: Query, tab: seq<Entry>, i: nat) {
    i < |tab| && Named(tab[i]) && (LongHit(fold, q, tab, i) || (!q.loss && tab[i][..11] == q.sfn))
  }

  /** The entries k..i-1 are pieces, of which only the first is the last one of a name. */
  predicate Block(tab: seq<Entry>, k: nat, i: nat)
    requires i <= |tab|
  {
    forall j :: k <= j < i ==> Piece(tab[j]) && (IsLastPiece(tab[j][0]) <==> j == k)
  }

  /** Where the pieces before entry i begin, from the last one of a name on. */
  function BlockStart(tab: seq<Entry>, i: nat): (r: Option<nat>)
    requires i <= |tab|
    ensures r.Some? ==> r.value < i && Block(tab, r.value, i)
  {
    if i == 0 || !Piece(tab[i - 1]) then None
    else if IsLastPiece(tab[i - 1][0]) then Some(i - 1)
    else BlockStart(tab, i - 1)
  }

  /** The block of the name at entry i; where no long name counts, the entry alone. */
  function BlockAt(q: Query, tab: seq<Entry>, i: nat): Option<nat>
    requires i <= |tab|
  {
    if q.noLfn then None else BlockStart(tab, i)
  }

  lemma {:induction false} BlockBegins(tab: seq<Entry>, k: nat, i: nat)
    requires k < i <= |tab| && Block(tab, k, i)
    ensures BlockStart(tab, i) == Some(k)
  {
    if k < i - 1 { BlockBegins(tab, k, i - 1); }
  }

  /** The state is that of a run which ends here, if there is one. */
  ghost predicate StateOk(fold: Char -> nat, q: Query, tab: seq<Entry>, k: nat, st: Scan) {
    && k <= |tab| && st.blk == BlockAt(q, tab, k)
    && (st.ord != 0xFF ==> !q.noLfn && st.blk.Some? && InRun(fold, q, tab, st.blk.value, k, st))
    && (!q.noLfn ==> forall b: nat :: LongRun(fold, q, tab, b, k) ==> st.ord != 0xFF && st.blk == Some(b))
  }

  predicate InRun(fold: Char -> nat, q: Query, tab: seq<Entry>, b: nat, k: nat, st: Scan) {
    LongRun(fold, q, tab, b, k) && st.ord + (k - b) == OrdOf(tab[b][0]) as int && st.sum == tab[b][13]
  }

  lemma RunGrows(fold: Char -> nat, q: Query, tab: seq<Entry>, b: nat, k: nat)
    requires k < |tab|
    ensures LongRun(fold, q, tab, b, k + 1) <==>
      b <= k && (b < k ==> LongRun(fold, q, tab, b, k)) && Part(fold, q, tab, b, k)
  {
    hide Part;
  }

  /** One piece more: where it is the last of a name a run begins, otherwise the run goes on. */
  lemma TakeKeeps(fold: Char -> nat, q: Query, tab: seq<Entry>, k: nat, k1: nat, st: Scan)
    requires k < |tab| && k1 == k + 1 && StateOk(fold, q, tab, k, st) && !q.noLfn && Piece(tab[k])
    ensures StateOk(fold, q, tab, k1, Take(fold, q, tab[k], st, k))
  {
    var e, st1 := tab[k], Take(fold, q, tab[k], st, k);
    forall b: nat
      ensures LongRun(fold, q, tab, b, k1) <==>
        b <= k && (b < k ==> LongRun(fold, q, tab, b, k)) && Part(fold, q, tab, b, k)
    {
      RunGrows(fold, q, tab, b, k);
    }
    hide LongRun, Cmp;
    if IsLastPiece(e[0]) {
      assert st1.ord != 0xFF <==> Part(fold, q, tab, k, k);
    } else if st.ord != 0xFF {
      var b := st.blk.value;
      assert InRun(fold, q, tab, b, k, st);
      assert st1.ord != 0xFF <==> Part(fold, q, tab, b, k);
    } else {
      assert st1.ord == 0xFF;
    }
  }

  /** Behind an entry which is no piece no run ends. */
  lemma RestartOk(fold: Char -> nat, q: Query, tab: seq<Entry>, k: nat, k1: nat, st: Scan)
    requires k < |tab| && k1 == k + 1 && !Piece(tab[k])
    ensures StateOk(fold, q, tab, k1, Restart(st))
  {
    forall b: nat ensures !LongRun(fold, q, tab, b, k1) {
      assert b <= k ==> !Part(fold, q, tab, b, k);
    }
  }

  /** The test at a short-name entry is whether the name hits it. */
  lemma StopsIsHit(fold: Char -> nat, q: Query, tab: seq<Entry>, k: nat, st: Scan)
    requires k < |tab| && StateOk(fold, q, tab, k, st) && Named(tab[k])
    ensures Stops(q, tab[k], st) <==> Hit(fold, q, tab, k)
  {
    hide LongRun, Checksum;
    if st.ord == 0 { assert InRun(fold, q, tab, st.blk.value, k, st); }
    if LongHit(fold, q, tab, k) {
      var b: nat :|
        LongRun(fold, q, tab, b, k) && OrdOf(tab[b][0]) as int == k - b && tab[b][13] == Checksum(tab[k][..11]);
      assert InRun(fold, q, tab, st.blk.value, k, st);
    }
  }

  /** What dir_find arrives at from entry k on: the first entry which the name hits, before the end of the table, with
      its block. */
  ghost predicate Arrives(fold: Char -> nat, q: Query, tab: seq<Entry>, k: nat, r: Option<(nat, Option<nat>)>) {
    match r
    case None => forall i :: k <= i < |tab| && Hit(fold, q, tab, i) ==> EndsBefore(tab, k, i)
    case Some((i, blk)) =>
      && k <= i && Hit(fold, q, tab, i) && (forall j :: k <= j < i ==> !Hit(fold, q, tab, j))
      && blk == BlockAt(q, tab, i)
  }

  ghost predicate EndsBefore(tab: seq<Entry>, k: nat, i: nat)
    requires i <= |tab|
  {
    exists z :: k <= z < i && tab[z][0] == 0
  }

  lemma {:induction false} FindIs(fold: Char -> nat, q: Query, tab: seq<Entry>, k: nat, st: Scan)
    requires k <= |tab| && StateOk(fold, q, tab, k, st)
    ensures Arrives(fold, q, tab, k, SearchFrom(fold, q, tab, k, st))
    decreases |tab| - k
  {
    hide LongRun, Cmp, Checksum, Take, LongHit;
    if k < |tab| && tab[k][0] == 0 {
      assert !Hit(fold, q, tab, k);
      forall i | k <= i < |tab| && Hit(fold, q, tab, i) ensures EndsBefore(tab, k, i) { assert tab[k][0] == 0; }
    } else if k < |tab| {
      if Named(tab[k]) { StopsIsHit(fold, q, tab, k, st); }
      if Piece(tab[k]) && q.noLfn {
        FindIs(fold, q, tab, k + 1, st);
      } else if Piece(tab[k]) {
        TakeKeeps(fold, q, tab, k, k + 1, st);
        FindIs(fold, q, tab, k + 1, Take(fold, q, tab[k], st, k));
      } else if !Hit(fold, q, tab, k) {
        RestartOk(fold, q, tab, k, k + 1, st);
        FindIs(fold, q, tab, k + 1, Restart(st));
      }
      if !Hit(fold, q, tab, k) { ArrivesEarlier(fold, q, tab, k, SearchFrom(fold, q, tab, k, st)); }
    }
  }

  lemma ArrivesEarlier(fold: Char -> nat, q: Query, tab: seq<Entry>, k: nat, r: Option<(nat, Option<nat>)>)
    requires k < |tab| && Arrives(fold, q, tab, k + 1, r) && !Hit(fold, q, tab, k)
    ensures Arrives(fold, q, tab, k, r)
  {
    hide Hit, LongRun;
    if r.None? {
      forall i | k <= i < |tab| && Hit(fold, q, tab, i) ensures EndsBefore(tab, k, i) {
        assert EndsBefore(tab, k + 1, i);
      }
    }
  }

  /** In a well-ended table dir_find finds the first entry which the name hits, and fails just when there is none. */
  lemma FindFirst(fold: Char -> nat, q: Query, tab: seq<Entry>)
    requires WellEnded(tab)
    ensures match Search(fold, q, tab)
            case None => forall i: nat :: !Hit(fold, q, tab, i)
            case Some((i, blk)) =>
              && i < |tab| && Hit(fold, q, tab, i) && (forall j: nat :: j < i ==> !Hit(fold, q, tab, j))
              && blk == BlockAt(q, tab, i)
  {
    hide LongRun, LongHit, SearchFrom;
    NoRunYet(fold, q, tab);
    FindIs(fold, q, tab, 0, Start);
    forall i: nat | Hit(fold, q, tab, i) ensures !EndsBefore(tab, 0, i) { }
  }

  lemma NoRunYet(fold: Char -> nat, q: Query, tab: seq<Entry>)
    ensures StateOk(fold, q, tab, 0, Start)
  {
  }

  // ----- the loop -----

  /** No block, where an offset is stored. */
  const NoBlock := 0xFFFF_FFFF

  function BlockOfs(blk: Option<nat>): nat {
    if blk.None? then NoBlock else 32 * blk.value
  }

  /** dir_find at a piece, which is at entry k and offset ofs. */
  method TakePiece(fold: Char -> nat, lfn: array<Char>, e: Entry, ord: nat, sum: Byte, blkOfs: nat, ofs: nat,
      ghost q: Query, ghost blk: Option<nat>, ghost k: nat)
    returns (ord': nat, sum': Byte, blkOfs': nat, ghost blk': Option<nat>)
    requires q.lfn == lfn[..] && lfn.Length % 13 != 0 && blkOfs == BlockOfs(blk) && ofs == 32 * k
    ensures Scan(ord', sum', blk') == Take(fold, q, e, Scan(ord, sum, blk), k) && blkOfs' == BlockOfs(blk')
  {
    hide Cmp, OrdOf, IsLastPiece;
    ord', sum', blkOfs', blk' := ord, sum, blkOfs, blk;
    var c := OrdOf(e[0]);
    if IsLastPiece(e[0]) {
      sum', ord' := e[13], c;
      blkOfs', blk' := ofs, Some(k);
    }
    var same := false;
    if c == ord' && sum' == e[13] { same := CmpLfn(fold, lfn, e); }
    if same { OrderPositive(fold, q.lfn, e); }
    ord' := if same then ord' - 1 else 0xFF;
  }

  /** dir_find with long names: the cursor ends on the entry found, and blkOfs is the offset of its block. */
  method FindLong(d: Dir, fold: Char -> nat, lfn: array<Char>, sfn: seq<Byte>, noLfn: bool, loss: bool)
    returns (res: FResult, blkOfs: nat, ghost k: nat)
    requires d.ValidBase() && lfn.Length % 13 != 0
    modifies d`dptr, d`clust, d`sect, d`chain, d`secs, d`tab, d.fs, d.fs.disk, d.fs.win
    ensures d.ValidBase() && d.tab == old(d.tab) && d.chain == old(d.chain) && d.secs == old(d.secs)
    ensures lfn[..] == old(lfn[..])
    ensures d.fs.fat == old(d.fs.fat) && d.fs.freeClst == old(d.fs.freeClst) && d.fs.lastClst == old(d.fs.lastClst)
    ensures match Search(fold, Query(lfn[..], sfn, noLfn, loss), d.tab)
            case None => res == NoFile
            case Some((i, blk)) => res == Ok && k == i && d.At(k) && blkOfs == BlockOfs(blk)
  {
    hide d.ValidBase, d.fs.Outside, d.fs.Sec, d.At, Checksum, Take, Skipped, IsLfn;
    NotEmpty(d);
    res := d.SetIndex(0);
    k, blkOfs := 0, NoBlock;
    var ord, sum := 0xFF, 0xFF;
    ghost var q, blk := Query(lfn[..], sfn, noLfn, loss), None;
    while true
      invariant d.ValidBase() && d.tab == old(d.tab) && d.chain == old(d.chain) && d.secs == old(d.secs) && d.At(k)
      invariant d.fs.fat == old(d.fs.fat) && d.fs.freeClst == old(d.fs.freeClst) && d.fs.lastClst == old(d.fs.lastClst)
      invariant lfn[..] == q.lfn && 0 <= ord && blkOfs == BlockOfs(blk)
      invariant SearchFrom(fold, q, d.tab, k, Scan(ord, sum, blk)) == Search(fold, q, d.tab)
      decreases |d.tab| - k
    {
      var e := d.Look(k);
      AtOffset(d, k);
      if e[0] == 0 { return NoFile, blkOfs, k; }
      if Skipped(e) {
        ord, blkOfs, blk := 0xFF, NoBlock, None;
      } else if IsLfn(e) {
        if !noLfn { ord, sum, blkOfs, blk := TakePiece(fold, lfn, e, ord, sum, blkOfs, d.dptr, q, blk, k); }
      } else {
        var s := SumSfn(e);
        if ord == 0 && sum == s { return Ok, blkOfs, k; }
        if !loss && e[..11] == sfn { return Ok, blkOfs, k; }
        ord, blkOfs, blk := 0xFF, NoBlock, None;
      }
      res := d.Next(false, k);
      if res != Ok { return; }
      k := k + 1;
    }
  }
}
