/** Long names in a directory (ff.c): dir_register writes the pieces of a name from the last one on, and dir_read puts
    them together again. */
module LongDir {
  import opened FatCodec
  import opened ClusterChains
  import opened FatVolume
  import opened DirTable
  import opened FatDir
  import opened LongName

  /** What dir_read arrives at: an entry, whether the buffer holds its long name, and the buffer. */
  datatype Item = Item(index: nat, long: bool, buf: seq<Char>)

  /** A volume label, with or without the archive attribute. */
  predicate IsLabel(e: Entry) { e[11] % 32 == 8 }

  /** A piece of a long name. */
  predicate IsLfn(e: Entry) { e[11] % 64 == 0x0F }

  /** dir_read passes over the entry. */
  predicate Passed(e: Entry) {
    e[0] == 0xE5 || e[0] == 0x2E || IsLabel(e)
  }

  /** The order and checksum dir_read expects, once it has seen the entry. */
  function Expected(ord: nat, sum: Byte, e: Entry): (nat, Byte) {
    if IsLastPiece(e[0]) then (OrdOf(e[0]), e[13]) else (ord, sum)
  }

  /** dir_read takes the entry for the next piece. */
  predicate InTurn(ord: nat, sum: Byte, e: Entry) {
    var x := Expected(ord, sum, e);
    OrdOf(e[0]) == x.0 && e[13] == x.1
  }

  /** dir_read for files from entry k on. ord, sum: what it expects; 0xFF: no piece. */
  function ReadFrom(tab: seq<Entry>, k: nat, ord: nat, sum: Byte, buf: seq<Char>): Option<Item>
    decreases |tab| - k
  {
    if k >= |tab| || tab[k][0] == 0 then None
    else
      var e := tab[k];
      if Passed(e) then ReadFrom(tab, k + 1, 0xFF, sum, buf)
      else if IsLfn(e) then
        var x := Expected(ord, sum, e);
        if !InTurn(ord, sum, e) then ReadFrom(tab, k + 1, 0xFF, x.1, buf)
        else if Picked(buf, e).0 then ReadFrom(tab, k + 1, if x.0 > 0 then x.0 - 1 else 0xFF, x.1, Picked(buf, e).1)
        else ReadFrom(tab, k + 1, 0xFF, x.1, Picked(buf, e).1)
      else Some(Item(k, ord == 0 && sum == Checksum(e[..11]), buf))
  }

  /** The loop of dir_read. */
  method ReadNext(d: Dir, lfn: array<Char>, ghost k0: nat) returns (res: FResult, ghost k: nat, long: bool)
    requires d.ValidBase() && d.At(k0)
    modifies d`dptr, d`clust, d`sect, d`chain, d`secs, d`tab, d.fs, d.fs.disk, d.fs.win, lfn
    ensures d.ValidBase() && d.tab == old(d.tab) && d.chain == old(d.chain) && d.secs == old(d.secs)
    ensures d.fs.fat == old(d.fs.fat) && d.fs.freeClst == old(d.fs.freeClst) && d.fs.lastClst == old(d.fs.lastClst)
    ensures var r := ReadFrom(old(d.tab), k0, 0xFF, 0xFF, old(lfn[..]));
            if r.None? then res == NoFile else res == Ok && d.At(k) && r == Some(Item(k, long, lfn[..]))
  {
    hide d.ValidBase, d.fs.Outside, d.fs.Sec, Picked, Checksum, OrdOf, IsLastPiece;
    k, long := k0, false;
    var ord, sum := 0xFF, 0xFF;
    ghost var goal := ReadFrom(d.tab, k0, 0xFF, 0xFF, lfn[..]);
    while true
      invariant d.ValidBase() && d.tab == old(d.tab) && d.chain == old(d.chain) && d.secs == old(d.secs) && d.At(k)
      invariant d.fs.fat == old(d.fs.fat) && d.fs.freeClst == old(d.fs.freeClst) && d.fs.lastClst == old(d.fs.lastClst)
      invariant ReadFrom(d.tab, k, ord, sum, lfn[..]) == goal && 0 <= ord
      decreases |d.tab| - k
    {
      var e := d.Look(k);
      if e[0] == 0 { return NoFile, k, false; }
      if Passed(e) {
        ord := 0xFF;
      } else if IsLfn(e) {
        var b := OrdOf(e[0]);
        if IsLastPiece(e[0]) { ord, sum := b, e[13]; }
        var ok := false;
        if b == ord && sum == e[13] { ok := PickLfn(lfn, e); }
        ord := if ok && ord > 0 then ord - 1 else 0xFF;
      } else {
        var s := SumSfn(e);
        long := ord == 0 && sum == s;
        return Ok, k, long;
      }
      res := d.Next(false, k);
      if res != Ok { return; }
      k := k + 1;
    }
  }

  // ----- the round trip -----

  /** The pieces of a name, the last one first, from entry k on. */
  ghost predicate HoldsPieces(tab: seq<Entry>, k: nat, name: seq<Char>, n: nat, sum: Byte) {
    k + n <= |tab| && forall i :: k <= i < k + n ==> PieceAt(tab, k, i, name, n, sum)
  }

  ghost predicate PieceAt(tab: seq<Entry>, k: nat, i: nat, name: seq<Char>, n: nat, sum: Byte)
    requires k <= i < k + n <= |tab|
  {
    IsPiece(tab[i], name, k + n - i, sum)
  }

  /** A short-name entry of a file or directory. */
  predicate IsShort(e: Entry) {
    e[0] != 0 && !Passed(e) && !IsLfn(e)
  }

  /** From the entry of piece j on, the rest of the name is read. */
  lemma {:induction false} ReadPieces(tab: seq<Entry>, k: nat, name: seq<Char>, n: nat, j: nat, ord: nat, sum0: Byte,
      sum: Byte, buf: seq<Char>)
    requires IsLongName(name) && n == Pieces(|name|) < 0x2E && |name| < |buf| && j <= n
    requires HoldsPieces(tab, k, name, n, sum)
    requires k + n < |tab| && IsShort(tab[k + n]) && Checksum(tab[k + n][..11]) == sum
    requires j < n ==> ord == j && sum0 == sum && Filled(buf, name, 13 * j)
    ensures var r := ReadFrom(tab, k + n - j, ord, sum0, buf);
            r.Some? && r.value.index == k + n && r.value.long && |r.value.buf| == |buf| && Filled(r.value.buf, name, 0)
    decreases j
  {
    hide Picked, Checksum, IsPiece, OrdOf, IsLastPiece, Filled;
    if j > 0 {
      var i := k + n - j;
      assert PieceAt(tab, k, i, name, n, sum);
      PieceEntry(tab[i], name, j, sum);
      PickPiece(buf, tab[i], name, j, sum);
      ReadPieces(tab, k, name, n, j - 1, j - 1, sum, sum, Picked(buf, tab[i]).1);
    }
  }

  lemma PieceEntry(e: Entry, name: seq<Char>, ord: nat, sum: Byte)
    requires 0 < ord < 0x2E && IsPiece(e, name, ord, sum)
    ensures e[0] != 0 && !Passed(e) && IsLfn(e) && OrdOf(e[0]) == ord && e[13] == sum
    ensures IsLastPiece(e[0]) <==> 13 * ord >= |name|
  {
  }

  /** A name that was written in pieces before its short-name entry is read back exactly, whatever the buffer held. */
  lemma NameReadBack(tab: seq<Entry>, k: nat, name: seq<Char>, sum: Byte, buf: seq<Char>)
    requires var n := Pieces(|name|);
             && IsLongName(name) && n < 0x2E && |name| < |buf| && HoldsPieces(tab, k, name, n, sum)
             && k + n < |tab| && IsShort(tab[k + n]) && Checksum(tab[k + n][..11]) == sum
    ensures var r := ReadFrom(tab, k, 0xFF, 0xFF, buf);
            && r.Some? && r.value.index == k + Pieces(|name|) && r.value.long
            && |name| < |r.value.buf| && r.value.buf[..|name|] == name && r.value.buf[|name|] == 0
  {
    hide Checksum, IsShort, HoldsPieces, ReadFrom;
    var n := Pieces(|name|);
    ReadPieces(tab, k, name, n, n, 0xFF, 0xFF, sum, buf);
    var b := ReadFrom(tab, k, 0xFF, 0xFF, buf).value.buf;
    assert b[..|name|] == name;
  }

  // ----- writing -----

  /** Entry e is the last of n free ones in a row. */
  predicate FreeRow(tab: seq<Entry>, e: nat, n: nat) {
    n <= e + 1 <= |tab| && forall i :: e + 1 - n <= i <= e ==> Free(tab[i])
  }

  /** Entry k is the last of the first n free ones in a row. */
  predicate FreeBlock(tab: seq<Entry>, k: nat, n: nat) {
    FreeRow(tab, k, n) && NoRowBefore(tab, k, n)
  }

  predicate NoRowBefore(tab: seq<Entry>, k: nat, n: nat) {
    forall e: nat :: e < k ==> !FreeRow(tab, e, n)
  }

  /** Why dir_alloc can fail: no n free entries in a row, and the table cannot grow; or a damaged FAT. */
  ghost predicate Refused(d: Dir, res: FResult, n: nat)
    reads d`secs, d`tab, d.fs`fat, d.fs`freeClst
  {
    match res
    case Denied => (forall e: nat :: !FreeRow(d.tab, e, n)) && (d.Static() || 0x1_0000 <= |d.tab| || d.Full())
    case IntErr => !NoOnes(d.fs.fat)
    case _ => false
  }

  /** dir_alloc for n entries: the cursor goes to the last entry of the first block. */
  method AllocateBlock(d: Dir, n: nat) returns (res: FResult, ghost k: nat)
    requires d.ValidBase() && 0 < n
    modifies d`dptr, d`clust, d`sect, d`chain, d`secs, d`tab, d.fs, d.fs.disk, d.fs.win
    ensures d.ValidBase() && Grown(old(d.tab), d.tab)
    ensures res == Ok ==> d.At(k) && FreeBlock(d.tab, k, n)
    ensures res != Ok ==> Refused(d, res, n)
  {
    hide d.ValidBase, d.fs.Outside, d.fs.Sec, d.Full, NoOnes, Blank, NoRowBefore, FreeRow, d.At;
    NotEmpty(d);
    res := d.SetIndex(0);
    k := 0;
    var run := 0;
    RowsBegin(d.tab, n);
    while true
      invariant d.ValidBase() && d.At(k) && k < |d.tab| <= 0x1_0000 && Grown(old(d.tab), d.tab)
      invariant 0 <= run < n && Counted(d.tab, k, run) && NoRowBefore(d.tab, k, n)
      decreases 0x1_0000 - k
    {
      var e := d.Look(k);
      CountOne(d.tab, k, run, n);
      if Free(e) {
        run := run + 1;
        if run == n { return Ok, k; }
      } else {
        run := 0;
      }
      ghost var before := d.tab;
      res := d.Next(true, k);
      if res != Ok {
        NoRowAtAll(d.tab, n);
        if res == NoFile { res := Denied; }
        return;
      }
      GrownMore(old(d.tab), before, d.tab);
      RowsKept(before, d.tab, k + 1, run, n);
      k := k + 1;
      NotEmpty(d);
      AtOffset(d, k);
    }
  }

  lemma AtOffset(d: Dir, k: nat)
    requires d.At(k)
    ensures k < |d.tab| && d.dptr == 32 * k
  {
  }

  /** The run entries before k are free, and before them there is one in use or none. */
  predicate Counted(tab: seq<Entry>, k: nat, run: nat) {
    run <= k <= |tab| && (forall i :: k - run <= i < k ==> Free(tab[i])) && (k > run ==> !Free(tab[k - run - 1]))
  }

  lemma RowsBegin(tab: seq<Entry>, n: nat)
    requires 0 < n
    ensures Counted(tab, 0, 0) && NoRowBefore(tab, 0, n)
  {
  }

  /** One entry more. */
  lemma CountOne(tab: seq<Entry>, k: nat, run: nat, n: nat)
    requires k < |tab| && run < n && Counted(tab, k, run) && NoRowBefore(tab, k, n)
    ensures Free(tab[k]) ==> Counted(tab, k + 1, run + 1)
    ensures !Free(tab[k]) ==> Counted(tab, k + 1, 0)
    ensures if Free(tab[k]) && run + 1 == n then FreeBlock(tab, k, n) else NoRowBefore(tab, k + 1, n)
  {
    if !(Free(tab[k]) && run + 1 == n) && n <= k + 1 {
      var used: nat := if Free(tab[k]) then k - run - 1 else k;
      assert k + 1 - n <= used <= k && !Free(tab[used]);
    }
  }

  lemma NoRowAtAll(tab: seq<Entry>, n: nat)
    requires NoRowBefore(tab, |tab|, n)
    ensures forall e: nat :: !FreeRow(tab, e, n)
  {
  }

  lemma RowsKept(tab: seq<Entry>, tab': seq<Entry>, k: nat, run: nat, n: nat)
    requires (tab' == tab || Grown(tab, tab')) && k <= |tab| && Counted(tab, k, run) && NoRowBefore(tab, k, n)
    ensures Counted(tab', k, run) && NoRowBefore(tab', k, n)
  {
    assert forall i :: 0 <= i < |tab| ==> tab'[i] == tab[i];
    forall e: nat | e < k ensures !FreeRow(tab', e, n) {
      assert FreeRow(tab', e, n) <==> FreeRow(tab, e, n);
    }
  }

  /** Before the first block there is an entry in use, or none. */
  lemma BeforeBlock(tab: seq<Entry>, k: nat, n: nat)
    requires FreeBlock(tab, k, n) && 0 < n
    ensures n <= k + 1 <= |tab| && (n < k + 1 ==> !Free(tab[k - n]))
  {
    if n < k + 1 { assert !FreeRow(tab, k - 1, n); }
  }

  lemma NotEmpty(d: Dir)
    requires d.ValidBase()
    ensures 0 < |d.tab| <= 0x1_0000
  {
    d.TableSize();
  }

  lemma GrownMore(a: seq<Entry>, b: seq<Entry>, c: seq<Entry>)
    requires Grown(a, b) && (c == b || Grown(b, c))
    ensures Grown(a, c)
  {
    if c != b {
      assert Blank(|b| - |a|) + Blank(|c| - |b|) == Blank(|c| - |a|);
    }
  }

  /** The short-name entry of dir_register, with the case flags nt. */
  function ShortEntry(sfn: seq<Byte>, nt: Byte): Entry
    requires |sfn| == 11
  {
    NewEntry(sfn)[12 := nt]
  }

  /** Only entries k..k+n of the table differ. */
  ghost predicate OnlyBlock(tab: seq<Entry>, tab': seq<Entry>, k: nat, n: nat) {
    |tab'| == |tab| && forall i :: 0 <= i < |tab| && !(k <= i <= k + n) ==> tab'[i] == tab[i]
  }

  /** The table with blank entries up to n. */
  function Padded(tab: seq<Entry>, n: nat): seq<Entry> {
    if n < |tab| then tab else tab + Blank(n - |tab|)
  }

  /** dir_register for a name of n pieces: the pieces from the last one on, and the short-name entry behind them. In a
      well-kept directory without that short name it is then found there, and every other name where it was. */
  method RegisterLong(d: Dir, lfn: array<Char>, sfn: seq<Byte>, nt: Byte, ghost name: seq<Char>, len: nat)
    returns (res: FResult, ghost k: nat)
    requires d.ValidBase() && IsLongName(name) && Holds(lfn[..], name) && len == |name| && Pieces(len) < 0x2E
    requires |sfn| == 11
    modifies d`dptr, d`clust, d`sect, d`chain, d`secs, d`tab, d.fs, d.fs.disk, d.fs.win
    ensures d.ValidBase()
    ensures res == Ok ==>
      var n := Pieces(len);
      && HoldsPieces(d.tab, k, name, n, Checksum(sfn)) && k + n < |d.tab| && d.tab[k + n] == ShortEntry(sfn, nt)
      && d.At(k + n)
      && |old(d.tab)| <= |d.tab|
      && var tab := Padded(old(d.tab), |d.tab|); FreeBlock(tab, k + n, n + 1) && OnlyBlock(tab, d.tab, k, n)
    ensures res != Ok ==> Grown(old(d.tab), d.tab) && Refused(d, res, Pieces(len) + 1)
    ensures old(d.Valid() && IsName(sfn) && Find(d.tab, sfn).None?) ==>
      && d.Valid() && Find(d.tab, sfn) == (if res == Ok then Some(k + Pieces(len)) else None)
      && forall other :: IsName(other) && other != sfn ==> Find(d.tab, other) == Find(old(d.tab), other)
  {
    hide d.ValidBase, d.fs.Outside, d.fs.Sec, Checksum, IsPiece, IsLongName, Holds, HoldsPieces, OnlyBlock, Grown;
    hide WellEnded, Unique, Find, FreeBlock, d.At, ShortEntry, Refused;
    k := 0;
    var n := Pieces(len);
    ghost var last;
    res, last := AllocateBlock(d, n + 1);
    if WellEnded(old(d.tab)) && Unique(old(d.tab)) { GrownKeeps(old(d.tab), d.tab); }
    if res != Ok { return; }
    ghost var tab := d.tab;
    InBlock(tab, last, n + 1);
    k := last - n;
    FillBlock(d, lfn, sfn, nt, name, len, k);
    PaddedTo(old(d.tab), tab, d.tab, k, n);
    if WellEnded(tab) && Unique(tab) && IsName(sfn) && Find(tab, sfn).None? {
      BlockRegistered(tab, d.tab, k, name, n, sfn, nt);
    }
  }

  /** dir_register with the cursor on the last entry of the free block: back to its first one, and the entries. */
  method FillBlock(d: Dir, lfn: array<Char>, sfn: seq<Byte>, nt: Byte, ghost name: seq<Char>, len: nat, ghost k: nat)
    requires d.ValidBase() && IsLongName(name) && Holds(lfn[..], name) && len == |name| && Pieces(len) < 0x2E
    requires |sfn| == 11
    requires k + Pieces(len) < |d.tab| && d.At(k + Pieces(len))
    modifies d`dptr, d`clust, d`sect, d`chain, d`secs, d`tab, d.fs, d.fs.disk, d.fs.win
    ensures d.ValidBase() && d.At(k + Pieces(len)) && OnlyBlock(old(d.tab), d.tab, k, Pieces(len))
    ensures HoldsPieces(d.tab, k, name, Pieces(len), Checksum(sfn)) && d.tab[k + Pieces(len)] == ShortEntry(sfn, nt)
  {
    hide d.ValidBase, d.fs.Outside, d.fs.Sec, Checksum, IsPiece, IsLongName, Holds, HoldsPieces, ShortEntry;
    var n := Pieces(len);
    var res := d.SetIndex(d.dptr - n * 32);
    var sum := SumOf(sfn);
    WritePieces(d, lfn, n, sum, name, k);
    ghost var tab1 := d.tab;
    WriteShort(d, sfn, nt, k + n);
    ShortBehind(tab1, d.tab, k, name, n, sum, ShortEntry(sfn, nt));
  }

  lemma PaddedTo(tab0: seq<Entry>, tab: seq<Entry>, tab': seq<Entry>, k: nat, n: nat)
    requires Grown(tab0, tab) && OnlyBlock(tab, tab', k, n)
    ensures |tab0| <= |tab'| == |tab| && tab == Padded(tab0, |tab'|)
  {
  }

  lemma InBlock(tab: seq<Entry>, last: nat, n: nat)
    requires FreeBlock(tab, last, n) && 0 < n
    ensures n <= last + 1 <= |tab|
  {
  }

  /** The names of a well-kept table once a free block has been filled with a name. */
  lemma BlockRegistered(tab: seq<Entry>, tab': seq<Entry>, k: nat, name: seq<Char>, n: nat, sfn: seq<Byte>, nt: Byte)
    requires WellEnded(tab) && Unique(tab) && IsName(sfn) && Find(tab, sfn).None? && FreeBlock(tab, k + n, n + 1)
    requires n < 0x2E
    requires OnlyBlock(tab, tab', k, n) && HoldsPieces(tab', k, name, n, Checksum(sfn))
    requires tab'[k + n] == ShortEntry(sfn, nt)
    ensures WellEnded(tab') && Unique(tab') && Find(tab', sfn) == Some(k + n)
    ensures forall other :: IsName(other) && other != sfn ==> Find(tab', other) == Find(tab, other)
  {
    hide Checksum, Find, FindFrom;
    forall i | k <= i < k + n ensures tab'[i][11] == 0x0F && tab'[i][0] != 0 && !Free(tab'[i]) {
      assert PieceAt(tab', k, i, name, n, Checksum(sfn));
    }
    assert ShortEntry(sfn, nt)[..11] == sfn && Matches(tab'[k + n], sfn);
    assert forall i :: k <= i < k + n ==> !Matches(tab'[i], tab'[i][..11]);
    FindsAll(tab, sfn);
    BlockEnded(tab, tab', k, n);
    NoBlankBefore(tab', sfn, k + n);
    FoundFirst(tab', sfn, k + n);
    forall other | IsName(other) && other != sfn ensures Find(tab', other) == Find(tab, other) {
      forall j | 0 <= j < |tab| ensures Matches(tab[j], other) <==> Matches(tab'[j], other) {
        if k <= j <= k + n { assert Free(tab[j]); }
      }
      SameFind(tab, tab', other);
    }
  }

  lemma FoundFirst(tab: seq<Entry>, name: seq<Byte>, i: nat)
    requires i < |tab| && Matches(tab[i], name)
    requires (forall j :: 0 <= j < i ==> !Matches(tab[j], name)) && forall j :: 0 <= j <= i ==> tab[j][0] != 0
    ensures Find(tab, name) == Some(i)
  {
    FoundAt(tab, name, 0, i);
  }

  /** No entry that was never used comes before the block. */
  lemma BlockEnded(tab: seq<Entry>, tab': seq<Entry>, k: nat, n: nat)
    requires WellEnded(tab) && FreeBlock(tab, k + n, n + 1) && OnlyBlock(tab, tab', k, n)
    requires forall i :: k <= i <= k + n ==> tab'[i][0] != 0
    ensures WellEnded(tab')
  {
    BeforeBlock(tab, k + n, n + 1);
    forall i, j | 0 <= i < j < |tab'| && tab'[i][0] == 0 ensures Free(tab'[j]) {
      assert tab[i][0] == 0;
      assert i >= k;
    }
  }

  lemma ShortBehind(tab: seq<Entry>, tab': seq<Entry>, k: nat, name: seq<Char>, n: nat, sum: Byte, e: Entry)
    requires HoldsPieces(tab, k, name, n, sum) && k + n < |tab| && tab' == tab[k + n := e]
    ensures HoldsPieces(tab', k, name, n, sum)
  {
    hide IsPiece;
    forall i | k <= i < k + n ensures PieceAt(tab', k, i, name, n, sum) { assert PieceAt(tab, k, i, name, n, sum); }
  }

  method SumOf(sfn: seq<Byte>) returns (sum: Byte)
    requires |sfn| == 11
    ensures sum == Checksum(sfn)
  {
    assert NewEntry(sfn)[..11] == sfn;
    sum := SumSfn(NewEntry(sfn));
  }

  /** The loop over the pieces. It ends on the entry behind them. */
  method WritePieces(d: Dir, lfn: array<Char>, n: nat, sum: Byte, ghost name: seq<Char>, ghost k: nat)
    requires d.ValidBase() && IsLongName(name) && Holds(lfn[..], name) && n == Pieces(|name|) < 0x2E && d.At(k)
    requires k + n < |d.tab|
    modifies d`dptr, d`clust, d`sect, d`chain, d`secs, d`tab, d.fs, d.fs.disk, d.fs.win
    ensures d.ValidBase() && d.At(k + n) && HoldsPieces(d.tab, k, name, n, sum) && OnlyBlock(old(d.tab), d.tab, k, n)
  {
    hide d.ValidBase, d.fs.Outside, d.fs.Sec, IsPiece, IsLongName, Holds;
    var left := n;
    while left > 0
      invariant 0 <= left <= n && d.ValidBase() && d.At(k + n - left) && |d.tab| == |old(d.tab)|
      invariant lfn[..] == old(lfn[..])
      invariant forall i :: k <= i < k + n - left ==> PieceAt(d.tab, k, i, name, n, sum)
      invariant forall i :: 0 <= i < |d.tab| && !(k <= i < k + n - left) ==> d.tab[i] == old(d.tab)[i]
    {
      ghost var i, before := k + n - left, d.tab;
      WritePiece(d, lfn, left, sum, name, i);
      forall j | k <= j < i + 1 ensures PieceAt(d.tab, k, j, name, n, sum) {
        if j < i { assert PieceAt(before, k, j, name, n, sum); }
      }
      var res := d.Next(false, i);
      if res != Ok { assert false; }   // never reached: dir_register's own failure
      left := left - 1;
    }
  }

  /** One piece, put together in the entry under the cursor. */
  method WritePiece(d: Dir, lfn: array<Char>, ord: nat, sum: Byte, ghost name: seq<Char>, ghost i: nat)
    requires d.ValidBase() && IsLongName(name) && Holds(lfn[..], name) && 0 < ord <= Pieces(|name|) < 0x2E && d.At(i)
    modifies d`tab, d.fs`winsect, d.fs`wflag, d.fs.disk, d.fs.win
    ensures d.ValidBase() && d.At(i) && |d.tab| == |old(d.tab)| && IsPiece(d.tab[i], name, ord, sum)
    ensures forall j :: 0 <= j < |d.tab| && j != i ==> d.tab[j] == old(d.tab)[j]
  {
    hide d.ValidBase, d.fs.Outside, d.fs.Sec, IsPiece, IsLongName, Holds;
    var e := d.Look(i);
    var dir := new Byte[32](x requires 0 <= x < 32 => e[x]);
    PutLfn(lfn, dir, ord, sum, name);
    d.Put(i, 0, dir[..]);
    assert d.tab[i] == dir[..];
  }

  /** The short-name entry: cleared, named, and given its case flags. */
  method WriteShort(d: Dir, sfn: seq<Byte>, nt: Byte, ghost i: nat)
    requires d.ValidBase() && d.At(i) && |sfn| == 11
    modifies d`tab, d.fs`winsect, d.fs`wflag, d.fs.disk, d.fs.win
    ensures d.ValidBase() && d.At(i) && d.tab == old(d.tab)[i := ShortEntry(sfn, nt)]
  {
    hide d.ValidBase, d.fs.Outside, d.fs.Sec, ShortEntry;
    ghost var e0 := d.tab[i];
    var e := d.Look(i);
    d.Put(i, 0, seq(32, _ => 0));
    d.Put(i, 0, sfn);
    d.Put(i, 12, [nt]);
    ShortPut(e0, sfn, nt);
  }

  /** The entry after the three stores. */
  lemma ShortPut(e: Entry, sfn: seq<Byte>, nt: Byte)
    requires |sfn| == 11
    ensures var zeros := seq(32, _ => 0 as Byte);
            var e1: Entry := e[..0] + zeros + e[0 + |zeros|..];
            var e2: Entry := e1[..0] + sfn + e1[0 + |sfn|..];
            e2[..12] + [nt] + e2[12 + |[nt]|..] == ShortEntry(sfn, nt)
  {
  }

  /** The cursor is on the entry e. */
  ghost predicate Arrived(d: Dir, e: Entry)
    reads d
  {
    exists k: nat :: d.At(k) && d.tab[k] == e
  }

  /** A name that is registered and then looked for from its first entry on is read back exactly, into whatever buffer,
      and the entry found is its own. */
  method WriteAndRead(d: Dir, lfn: array<Char>, out: array<Char>, sfn: seq<Byte>, nt: Byte, ghost name: seq<Char>,
      len: nat)
    returns (res: FResult, long: bool)
    requires d.ValidBase() && IsLongName(name) && Holds(lfn[..], name) && len == |name| && Pieces(len) < 0x2E
    requires |sfn| == 11
    requires sfn[0] !in {0, 0xE5, 0x2E} && out != lfn && len < out.Length
    modifies d`dptr, d`clust, d`sect, d`chain, d`secs, d`tab, d.fs, d.fs.disk, d.fs.win, out
    ensures d.ValidBase()
    ensures res == Ok ==> long && out[..len] == name && out[len] == 0 && Arrived(d, ShortEntry(sfn, nt))
    ensures res != Ok ==> Grown(old(d.tab), d.tab) && Refused(d, res, Pieces(len) + 1)
  {
    hide d.ValidBase, d.fs.Outside, d.fs.Sec, IsPiece, HoldsPieces, OnlyBlock, Grown, IsLongName, Holds, Checksum;
    hide ReadFrom, Unique, WellEnded, Find;
    ghost var k;
    long := false;
    res, k := RegisterLong(d, lfn, sfn, nt, name, len);
    if res != Ok { return; }
    res := d.SetIndex(d.dptr - Pieces(len) * 32);
    NameReadBack(d.tab, k, name, Checksum(sfn), out[..]);
    res, k, long := ReadNext(d, out, k);
  }
}
