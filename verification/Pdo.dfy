/** Building and taking apart PDO frames (pdo.c): mapped objects of any bit size, packed one after the other. */
module Pdo {
  import opened Bits
  import opened BitCopy

  /** A mapping parameter: index and subindex of the object as one key, and its size in bits. */
  datatype Mapping = Mapping(key: nat, size: nat)

  /** Bit p of an array of bytes. */
  predicate FlatBit(a: seq<byte>, p: nat)
    requires p < 8 * |a|
  {
    Bit(a[p / 8], p % 8)
  }

  /** ByteSize. */
  function Bytes(size: nat): nat {
    (size + 7) / 8
  }

  predicate Fits(offset: nat, size: nat, limit: nat) {
    size > 0 && offset + size <= limit
  }

  /** The offset in the frame when mapping j is reached: mappings which do not fit are skipped. */
  function OffsetAt(maps: seq<Mapping>, j: nat, limit: nat): nat
    requires j <= |maps|
  {
    if j == 0 then 0
    else
      var offset := OffsetAt(maps, j - 1, limit);
      if Fits(offset, maps[j - 1].size, limit) then offset + maps[j - 1].size else offset
  }

  predicate Included(maps: seq<Mapping>, j: nat, limit: nat)
    requires j < |maps|
  {
    Fits(OffsetAt(maps, j, limit), maps[j].size, limit)
  }

  lemma {:induction false} OffsetsGrow(maps: seq<Mapping>, i: nat, j: nat, limit: nat)
    requires i <= j <= |maps|
    ensures OffsetAt(maps, i, limit) <= OffsetAt(maps, j, limit) <= limit
    ensures i < j && Included(maps, i, limit) ==> OffsetAt(maps, i, limit) + maps[i].size <= OffsetAt(maps, j, limit)
    decreases j
  {
    if i < j { OffsetsGrow(maps, i, j - 1, limit); }
    else if j > 0 { OffsetsGrow(maps, j - 1, j - 1, limit); }
  }

  /** What CopyBits does, on bits counted through. */
  lemma FlatCopied(nb: nat, src: seq<byte>, sOff: nat, was: seq<byte>, dest: seq<byte>, dOff: nat, q: nat)
    requires |dest| == |was| && q < 8 * |dest| && sOff + nb <= 8 * |src|
    requires InField(|src|, sOff / 8, sOff % 8, false, nb)
    requires Copied(nb, src, sOff / 8, sOff % 8, false, was, dest, dOff / 8, dOff % 8, false)
    ensures FlatBit(dest, q) == if dOff <= q < dOff + nb then FlatBit(src, sOff + (q - dOff)) else FlatBit(was, q)
  {
    hide Bit;
    var b, i := q / 8, q % 8;
    assert CopiedBit(nb, src, sOff / 8, sOff % 8, false, was, dest, dOff / 8, dOff % 8, false, b, i);
    assert Place(dOff / 8, dOff % 8, false, b, i) == q - dOff;
    if dOff <= q < dOff + nb { SourceBit(sOff, q - dOff); }
  }

  lemma SourceBit(sOff: nat, j: nat)
    ensures Cell(sOff / 8, false, sOff % 8 + j) == (sOff + j) / 8 && (sOff % 8 + j) % 8 == (sOff + j) % 8
  {
  }

  lemma FieldFits(length: nat, off: nat, nb: nat)
    requires off + nb <= 8 * length
    ensures InField(length, off / 8, off % 8, false, nb)
  {
    if nb > 0 { SourceBit(off, nb - 1); }
  }

  /** Bit p of the field at offset. */
  predicate FrameBit(data: seq<byte>, offset: nat, p: nat)
    requires offset + p < 8 * |data|
  {
    FlatBit(data, offset + p)
  }

  /** The frame holds the low bits of value at offset. */
  ghost predicate Carries(data: seq<byte>, offset: nat, size: nat, value: seq<byte>)
    requires offset + size <= 8 * |data|
  {
    forall p :: 0 <= p < size ==> FrameBit(data, offset, p) == (p < 8 * |value| && FlatBit(value, p))
  }

  /** v is the field of the frame, filled up with zero bits to whole bytes. */
  ghost predicate Taken(v: seq<byte>, data: seq<byte>, offset: nat, size: nat)
    requires offset + size <= 8 * |data|
  {
    |v| == Bytes(size) && forall p :: 0 <= p < 8 * |v| ==> FlatBit(v, p) == (p < size && FrameBit(data, offset, p))
  }

  /** The object dictionary after the first j mappings of a received frame, whose fields are vals. */
  function Updated(od: map<nat, seq<byte>>, maps: seq<Mapping>, vals: seq<seq<byte>>, j: nat, limit: nat): map<nat,
      seq<byte>>
    requires j <= |maps| && j <= |vals|
  {
    if j == 0 then od
    else
      var before := Updated(od, maps, vals, j - 1, limit);
      if Included(maps, j - 1, limit) then before[maps[j - 1].key := vals[j - 1]] else before
  }

  function Zeros8(): (z: seq<byte>)
    ensures |z| == 8
  {
    [0, 0, 0, 0, 0, 0, 0, 0]
  }

  lemma ZeroBits(p: nat)
    requires p < 64
    ensures !FlatBit(Zeros8(), p)
  {
    assert Zeros8()[p / 8] == 0;
    ZeroBit(p % 8);
  }

  lemma ZeroBit(i: nat)
    requires i < 8
    ensures !Bit(0, i)
  {
  }

  class Node {
    var od: map<nat, seq<byte>>
    const rejects: (nat, seq<byte>) -> bool   // the range test of an object

    constructor (od: map<nat, seq<byte>>, rejects: (nat, seq<byte>) -> bool)
      ensures this.od == od && this.rejects == rejects
    {
      this.od, this.rejects := od, rejects;
    }

    /** getODentry finds the object, and it is not longer than the field. */
    predicate CanGet(m: Mapping)
      reads this`od
    {
      m.key in od && |od[m.key]| <= Bytes(m.size)
    }

    /** setODentry finds the object, which has the size of the field, and accepts the value. */
    predicate CanSet(od: map<nat, seq<byte>>, m: Mapping, v: seq<byte>) {
      m.key in od && |od[m.key]| == |v| && !rejects(m.key, v)
    }

    /** The mapped object in eight bytes. */
    method Fetch(m: Mapping) returns (tmp: array<byte>)
      requires CanGet(m) && m.size <= 64
      ensures fresh(tmp) && tmp.Length == 8
      ensures forall p :: 0 <= p < 64 ==> FlatBit(tmp[..], p) == (p < 8 * |od[m.key]| && FlatBit(od[m.key], p))
    {
      hide Bit;
      tmp := new byte[8](_ => 0);
      var v := od[m.key];
      for i := 0 to |v|
        invariant tmp[..i] == v[..i] && forall k :: i <= k < 8 ==> tmp[k] == 0
      {
        tmp[i] := v[i];
      }
      forall p | 0 <= p < 64 ensures FlatBit(tmp[..], p) == (p < 8 * |v| && FlatBit(v, p)) {
        if p < 8 * |v| { assert tmp[p / 8] == tmp[..|v|][p / 8]; } else { ZeroBit(p % 8); }
      }
    }

    /** buildPDO for the mappings of a transmit PDO: fails just when a mapped object that fits cannot be read. */
    method Build(maps: seq<Mapping>, count: nat, data: array<byte>) returns (ok: bool, len: nat)
      requires count <= |maps| && 0 < |maps| && data.Length == 8
      modifies data
      ensures var n := if count == 0 then 1 else count;
              && (ok <==> forall j :: 0 <= j < n && Included(maps, j, 64) ==> CanGet(maps[j]))
              && (ok ==> len == Bytes(OffsetAt(maps, n, 64)))
              && (ok ==> forall j :: 0 <= j < n && Included(maps, j, 64) ==> Sends(maps, j, data[..]))
    {
      hide Carries, Copied, CanGet, OffsetAt;
      var j, offset := 0, 0;
      FirstOffset(maps, 64);
      while true
        invariant 0 <= j < |maps| && (j == 0 || j < count)
        invariant offset == OffsetAt(maps, j, 64)
        invariant forall i :: 0 <= i < j && Included(maps, i, 64) ==> CanGet(maps[i]) && Sends(maps, i, data[..])
        decreases |maps| - j
      {
        var size := maps[j].size;
        NextOffset(maps, j, 64);
        if Fits(offset, size, 64) {
          if !CanGet(maps[j]) { return false, 0; }
          var tmp := Fetch(maps[j]);
          FieldFits(8, 0, size);
          FieldFits(8, offset, size);
          ghost var was := data[..];
          CopyBits(size, tmp, 0, 0, false, data, offset / 8, offset % 8, false);
          NowCarries(maps, j, tmp[..], was, data[..]);
          offset := offset + size;
        }
        j := j + 1;
        if j >= count { break; }
      }
      len := (offset + 7) / 8;
      ok := true;
    }

    /** The field of mapping j of the frame holds the low bits of the object. */
    ghost predicate Sends(maps: seq<Mapping>, j: nat, data: seq<byte>)
      requires j < |maps| && |data| == 8
      reads this`od
    {
      && OffsetAt(maps, j, 64) + maps[j].size <= 64 && maps[j].key in od
      && Carries(data, OffsetAt(maps, j, 64), maps[j].size, od[maps[j].key])
    }

    lemma NowCarries(maps: seq<Mapping>, j: nat, tmp: seq<byte>, was: seq<byte>, data: seq<byte>)
      requires j < |maps| && |tmp| == |was| == |data| == 8 && Included(maps, j, 64) && CanGet(maps[j])
      requires forall p :: 0 <= p < 64 ==> FlatBit(tmp, p) == (p < 8 * |od[maps[j].key]| && FlatBit(od[maps[j].key], p))
      requires var offset := OffsetAt(maps, j, 64);
               && InField(8, 0, 0, false, maps[j].size)
               && Copied(maps[j].size, tmp, 0, 0, false, was, data, offset / 8, offset % 8, false)
      requires forall i :: 0 <= i < j && Included(maps, i, 64) ==> Sends(maps, i, was)
      ensures forall i :: 0 <= i <= j && Included(maps, i, 64) ==> Sends(maps, i, data)
    {
      hide Copied, FlatBit, OffsetAt, CanGet;
      var offset, size := OffsetAt(maps, j, 64), maps[j].size;
      forall i | 0 <= i <= j && Included(maps, i, 64) ensures Sends(maps, i, data) {
        var o, s := OffsetAt(maps, i, 64), maps[i].size;
        OffsetsGrow(maps, i, j, 64);
        assert i < j ==> Sends(maps, i, was);
        assert i == j ==> maps[i].key in od by { if i == j { HasKey(maps[i]); } }
        forall p | 0 <= p < s
          ensures FrameBit(data, o, p) == (p < 8 * |od[maps[i].key]| && FlatBit(od[maps[i].key], p))
        {
          assert i < j ==> FrameBit(was, o, p) == (p < 8 * |od[maps[i].key]| && FlatBit(od[maps[i].key], p));
          FlatCopied(size, tmp, 0, was, data, offset, o + p);
        }
      }
    }

    lemma HasKey(m: Mapping)
      requires CanGet(m)
      ensures m.key in od
    {
    }

    /** The data branch of proceedPDO, for the mappings of the receive PDO the frame belongs to. It stops at the first
        object which cannot be written. */
    method Receive(maps: seq<Mapping>, count: nat, frame: array<byte>, len: nat)
      returns (ok: bool, ghost vals: seq<seq<byte>>)
      requires count <= |maps| && frame.Length == 8 && len <= 8
      modifies this
      ensures |vals| <= count && (ok ==> |vals| == count)
      ensures forall j :: 0 <= j < |vals| && Included(maps, j, 8 * len) ==> Receives(maps, j, frame[..], len, vals[j])
      ensures forall j :: 0 <= j < |vals| && Included(maps, j, 8 * len) ==>
        CanSet(Updated(old(od), maps, vals, j, 8 * len), maps[j], vals[j])
      ensures od == Updated(old(od), maps, vals, |vals|, 8 * len)
      ensures !ok ==>
        && |vals| < count && Included(maps, |vals|, 8 * len)
        && exists v :: Receives(maps, |vals|, frame[..], len, v) && !CanSet(od, maps[|vals|], v)
    {
      hide Taken, Copied, CanSet, OffsetAt;
      var j, offset := 0, 0;
      vals := [];
      FirstOffset(maps, 8 * len);
      while j < count
        invariant 0 <= j <= count && |vals| == j && offset == OffsetAt(maps, j, 8 * len)
        invariant forall i :: 0 <= i < j && Included(maps, i, 8 * len) ==> Receives(maps, i, frame[..], len, vals[i])
        invariant forall i :: 0 <= i < j && Included(maps, i, 8 * len) ==>
          CanSet(Updated(old(od), maps, vals, i, 8 * len), maps[i], vals[i])
        invariant od == Updated(old(od), maps, vals, j, 8 * len)
      {
        var size := maps[j].size;
        NextOffset(maps, j, 8 * len);
        ghost var vals0 := vals;
        var v: seq<byte> := [];
        if Fits(offset, size, 8 * len) {
          v := TakeField(frame, offset, size);
          if !CanSet(od, maps[j], v) { return false, vals; }
          od := od[maps[j].key := v];
          offset := offset + size;
        }
        vals := vals + [v];
        UpdatedMore(old(od), maps, vals0, v, 8 * len);
        j := j + 1;
      }
      ok := true;
    }

    /** tmp of proceedPDO, as many bytes of it as are written. */
    method TakeField(frame: array<byte>, offset: nat, size: nat) returns (v: seq<byte>)
      requires frame.Length == 8 && 0 < size && offset + size <= 64
      ensures Taken(v, frame[..], offset, size)
    {
      hide Copied, FlatBit;
      var tmp := new byte[8](_ => 0);
      FieldFits(8, offset, size);
      FieldFits(8, 0, size);
      assert tmp[..] == Zeros8();
      CopyBits(size, frame, offset / 8, offset % 8, false, tmp, 0, 0, false);
      v := tmp[..Bytes(size)];
      forall p | 0 <= p < 8 * |v| ensures FlatBit(v, p) == (p < size && FrameBit(frame[..], offset, p)) {
        FlatCopied(size, frame[..], offset, Zeros8(), tmp[..], 0, p);
        ZeroBits(p);
        FlatPrefix(tmp[..], |v|, p);
      }
    }

    ghost predicate Receives(maps: seq<Mapping>, j: nat, frame: seq<byte>, len: nat, v: seq<byte>)
      requires j < |maps| && |frame| == 8
    {
      OffsetAt(maps, j, 8 * len) + maps[j].size <= 64 && Taken(v, frame, OffsetAt(maps, j, 8 * len), maps[j].size)
    }
  }

  lemma FirstOffset(maps: seq<Mapping>, limit: nat)
    ensures OffsetAt(maps, 0, limit) == 0
  {
  }

  lemma NextOffset(maps: seq<Mapping>, j: nat, limit: nat)
    requires j < |maps|
    ensures OffsetAt(maps, j + 1, limit) == OffsetAt(maps, j, limit) + if Included(maps, j, limit) then maps[j].size
      else 0
  {
  }

  lemma FlatPrefix(a: seq<byte>, n: nat, p: nat)
    requires n <= |a| && p < 8 * n
    ensures FlatBit(a[..n], p) == FlatBit(a, p)
  {
  }

  lemma {:induction false} UpdatedSame(od: map<nat, seq<byte>>, maps: seq<Mapping>, vals: seq<seq<byte>>, v: seq<byte>,
      j: nat, limit: nat)
    requires j <= |vals| < |maps|
    ensures Updated(od, maps, vals + [v], j, limit) == Updated(od, maps, vals, j, limit)
    decreases j
  {
    if j > 0 { UpdatedSame(od, maps, vals, v, j - 1, limit); }
  }

  lemma UpdatedMore(od: map<nat, seq<byte>>, maps: seq<Mapping>, vals: seq<seq<byte>>, v: seq<byte>, limit: nat)
    requires |vals| < |maps|
    ensures forall j :: 0 <= j <= |vals| ==>
      Updated(od, maps, vals + [v], j, limit) == Updated(od, maps, vals, j, limit)
    ensures Updated(od, maps, vals + [v], |vals| + 1, limit)
         == if Included(maps, |vals|, limit) then Updated(od, maps, vals, |vals|, limit)[maps[|vals|].key := v]
           else Updated(od, maps, vals, |vals|, limit)
  {
    forall j | 0 <= j <= |vals| ensures Updated(od, maps, vals + [v], j, limit) == Updated(od, maps, vals, j, limit) {
      UpdatedSame(od, maps, vals, v, j, limit);
    }
  }

  // ----- from one dictionary to another -----

  /** Both sides skip the same mappings: the receiver counts with the length of the frame, the sender with 64 bits. */
  lemma {:induction false} SameLayout(sent: seq<Mapping>, received: seq<Mapping>, n: nat, j: nat)
    requires j <= n <= |sent| == |received| && forall i :: 0 <= i < n ==> sent[i].size == received[i].size
    ensures var limit := 8 * Bytes(OffsetAt(sent, n, 64));
            && limit <= 64
            && OffsetAt(received, j, limit) == OffsetAt(sent, j, 64)
            && (j < n ==> (Included(received, j, limit) <==> Included(sent, j, 64)))
    decreases j
  {
    var limit := 8 * Bytes(OffsetAt(sent, n, 64));
    OffsetsGrow(sent, n, n, 64);
    if j > 0 { SameLayout(sent, received, n, j - 1); }
    if j < n {
      OffsetsGrow(sent, j, n, 64);
      OffsetsGrow(sent, j + 1, n, 64);
    }
  }

  /** v holds the low bits of value, filled up with zero bits to whole bytes. */
  ghost predicate IsLow(v: seq<byte>, value: seq<byte>, size: nat) {
    |v| == Bytes(size) && forall p :: 0 <= p < 8 * |v| ==>
      FlatBit(v, p) == (p < size && p < 8 * |value| && FlatBit(value, p))
  }

  /** A frame made from one dictionary and taken apart with the same sizes: each included object receives exactly the
      low bits of the sender's value, and nothing else. */
  lemma RoundTrip(sent: seq<Mapping>, received: seq<Mapping>, n: nat, data: seq<byte>, j: nat, value: seq<byte>,
      v: seq<byte>)
    requires n <= |sent| == |received| && (forall i :: 0 <= i < n ==> sent[i].size == received[i].size) && |data| == 8
    requires j < n
    requires Included(sent, j, 64) && Carries(data, OffsetAt(sent, j, 64), sent[j].size, value)
    requires var limit := 8 * Bytes(OffsetAt(sent, n, 64));
             && OffsetAt(received, j, limit) + received[j].size <= 64
             && Taken(v, data, OffsetAt(received, j, limit), received[j].size)
    ensures IsLow(v, value, sent[j].size)
  {
    hide FlatBit, FrameBit, Included, OffsetAt, Bytes;
    SameLayout(sent, received, n, j);
    var offset := OffsetAt(sent, j, 64);
    forall p | 0 <= p < 8 * |v| ensures FlatBit(v, p) == (p < sent[j].size && p < 8 * |value| && FlatBit(value, p)) {
      assert p < sent[j].size ==> FrameBit(data, offset, p) == (p < 8 * |value| && FlatBit(value, p));
    }
  }

  /** The steps so far have kept the size of every object. */
  lemma {:induction false} UpdatedSizes(od: map<nat, seq<byte>>, maps: seq<Mapping>, vals: seq<seq<byte>>, j: nat,
      limit: nat)
    requires j <= |maps| && j <= |vals|
    requires forall i :: 0 <= i < j && Included(maps, i, limit) ==>
      SameSize(Updated(od, maps, vals, i, limit), maps[i].key, vals[i])
    ensures Updated(od, maps, vals, j, limit).Keys == od.Keys
    ensures forall k :: k in od ==> |Updated(od, maps, vals, j, limit)[k]| == |od[k]|
    decreases j
  {
    hide Included;
    if j > 0 { UpdatedSizes(od, maps, vals, j - 1, limit); }
  }

  predicate SameSize(od: map<nat, seq<byte>>, key: nat, v: seq<byte>) {
    key in od && |od[key]| == |v|
  }

  /** A mapping behind which none has the same object decides the object; an object without mapping stays. */
  lemma {:induction false} UpdatedAt(od: map<nat, seq<byte>>, maps: seq<Mapping>, vals: seq<seq<byte>>, n: nat,
      limit: nat, j: nat)
    requires j < n <= |maps| && n <= |vals| && Included(maps, j, limit)
    requires forall i :: j < i < n && Included(maps, i, limit) ==> maps[i].key != maps[j].key
    ensures maps[j].key in Updated(od, maps, vals, n, limit)
    ensures Updated(od, maps, vals, n, limit)[maps[j].key] == vals[j]
    decreases n
  {
    hide Included;
    if j + 1 < n { UpdatedAt(od, maps, vals, n - 1, limit, j); }
  }

  lemma {:induction false} UpdatedElsewhere(od: map<nat, seq<byte>>, maps: seq<Mapping>, vals: seq<seq<byte>>, n: nat,
      limit: nat, key: nat)
    requires n <= |maps| && n <= |vals| && forall i :: 0 <= i < n && Included(maps, i, limit) ==> maps[i].key != key
    ensures key in Updated(od, maps, vals, n, limit) <==> key in od
    ensures key in od ==> Updated(od, maps, vals, n, limit)[key] == od[key]
    decreases n
  {
    hide Included;
    if n > 0 { UpdatedElsewhere(od, maps, vals, n - 1, limit, key); }
  }

  /** Mapping j of the receiver names an object of the size of the field, whose range test passes what the sender
      has. */
  ghost predicate Ready(from: map<nat, seq<byte>>, to: map<nat, seq<byte>>, r: Node, sent: seq<Mapping>,
      received: seq<Mapping>, j: nat)
    requires j < |sent| == |received|
  {
    && received[j].key in to && |to[received[j].key]| == Bytes(received[j].size)
    && sent[j].key in from && forall v :: IsLow(v, from[sent[j].key], sent[j].size) ==> !r.rejects(received[j].key, v)
  }

  /** No included mapping behind j has the same object. */
  predicate LastFor(maps: seq<Mapping>, j: nat, n: nat, limit: nat)
    requires j < n <= |maps|
  {
    forall i :: j < i < n && Included(maps, i, limit) ==> maps[i].key != maps[j].key
  }

  /** buildPDO on one node and proceedPDO on another, with mappings of the same sizes: both include the same objects,
      the receiver's get the low bits of the sender's, and no other object changes. */
  method Exchange(s: Node, r: Node, sent: seq<Mapping>, received: seq<Mapping>, n: nat) returns (ok: bool, len: nat)
    requires s != r && 0 < n <= |sent| == |received| && forall i :: 0 <= i < n ==> sent[i].size == received[i].size
    requires forall j :: 0 <= j < n && Included(sent, j, 64) ==> Ready(s.od, r.od, r, sent, received, j)
    modifies r
    ensures ok <==> forall j :: 0 <= j < n && Included(sent, j, 64) ==> s.CanGet(sent[j])
    ensures !ok ==> r.od == old(r.od)
    ensures ok ==> len <= 8 && forall j :: 0 <= j < n ==> (Included(received, j, 8 * len) <==> Included(sent, j, 64))
    ensures ok ==> r.od.Keys == old(r.od).Keys
    ensures ok ==> forall j :: 0 <= j < n && Included(sent, j, 64) && LastFor(received, j, n, 8 * len) ==>
      received[j].key in r.od && sent[j].key in s.od && IsLow(r.od[received[j].key], s.od[sent[j].key], sent[j].size)
    ensures ok ==> forall key ::
      key in old(r.od) && (forall j :: 0 <= j < n && Included(received, j, 8 * len) ==> received[j].key != key) ==>
      key in r.od && r.od[key] == old(r.od)[key]
  {
    hide Included, OffsetAt, IsLow, Ready, Carries, Taken, r.CanSet, s.CanGet;
    var frame := new byte[8](_ => 0);
    ok, len := s.Build(sent, n, frame);
    if !ok { return; }
    forall j | 0 <= j < n
      ensures Included(received, j, 8 * len) <==> Included(sent, j, 64)
    {
      SameLayout(sent, received, n, j);
    }
    SameLayout(sent, received, n, n);
    ghost var was, vals := r.od, [];
    ok, vals := r.Receive(received, n, frame, len);
    forall j | 0 <= j < |vals| && Included(received, j, 8 * len)
      ensures IsLow(vals[j], s.od[sent[j].key], sent[j].size)
    {
      Arrives(s, sent, received, n, frame[..], len, j, vals[j]);
    }
    Sizes(r, was, received, vals, |vals|, 8 * len);
    if !ok {
      ghost var v :| r.Receives(received, |vals|, frame[..], len, v) && !r.CanSet(r.od, received[|vals|], v);
      Arrives(s, sent, received, n, frame[..], len, |vals|, v);
      Accepted(s.od, was, r, sent, received, |vals|, r.od, v);
      assert false;
    }
    forall j | 0 <= j < n && Included(sent, j, 64) && LastFor(received, j, n, 8 * len)
      ensures received[j].key in r.od && sent[j].key in s.od
      ensures IsLow(r.od[received[j].key], s.od[sent[j].key], sent[j].size)
    {
      UpdatedAt(was, received, vals, n, 8 * len, j);
    }
    forall key | key in was && (forall j :: 0 <= j < n && Included(received, j, 8 * len) ==> received[j].key != key)
      ensures key in r.od && r.od[key] == was[key]
    {
      UpdatedElsewhere(was, received, vals, n, 8 * len, key);
    }
  }

  /** What the receiver takes out of the frame. */
  lemma Arrives(s: Node, sent: seq<Mapping>, received: seq<Mapping>, n: nat, data: seq<byte>, len: nat, j: nat,
      v: seq<byte>)
    requires n <= |sent| == |received| && (forall i :: 0 <= i < n ==> sent[i].size == received[i].size) && |data| == 8
    requires j < n
    requires len == Bytes(OffsetAt(sent, n, 64)) && Included(received, j, 8 * len)
    requires forall i :: 0 <= i < n && Included(sent, i, 64) ==> s.Sends(sent, i, data)
    requires OffsetAt(received, j, 8 * len) + received[j].size <= 64
    requires Taken(v, data, OffsetAt(received, j, 8 * len), received[j].size)
    ensures sent[j].key in s.od && IsLow(v, s.od[sent[j].key], sent[j].size)
  {
    hide Included, OffsetAt, IsLow, Carries, Taken, Bytes;
    SameLayout(sent, received, n, j);
    assert s.Sends(sent, j, data);
    RoundTrip(sent, received, n, data, j, s.od[sent[j].key], v);
  }

  /** What is taken for a ready mapping can be written. */
  lemma Accepted(from: map<nat, seq<byte>>, was: map<nat, seq<byte>>, r: Node, sent: seq<Mapping>,
      received: seq<Mapping>, j: nat,
                 now: map<nat, seq<byte>>, v: seq<byte>)
    requires j < |sent| == |received| && sent[j].size == received[j].size && Ready(from, was, r, sent, received, j)
    requires IsLow(v, from[sent[j].key], sent[j].size)
    requires now.Keys == was.Keys && forall k :: k in was ==> |now[k]| == |was[k]|
    ensures r.CanSet(now, received[j], v)
  {
  }

  lemma Sizes(r: Node, was: map<nat, seq<byte>>, maps: seq<Mapping>, vals: seq<seq<byte>>, j: nat, limit: nat)
    requires j <= |maps| && j <= |vals|
    requires forall i :: 0 <= i < j && Included(maps, i, limit) ==>
      r.CanSet(Updated(was, maps, vals, i, limit), maps[i], vals[i])
    ensures Updated(was, maps, vals, j, limit).Keys == was.Keys
    ensures forall k :: k in was ==> |Updated(was, maps, vals, j, limit)[k]| == |was[k]|
  {
    hide Included, Updated;
    forall i | 0 <= i < j && Included(maps, i, limit)
      ensures SameSize(Updated(was, maps, vals, i, limit), maps[i].key, vals[i])
    {
      assert r.CanSet(Updated(was, maps, vals, i, limit), maps[i], vals[i]);
    }
    UpdatedSizes(was, maps, vals, j, limit);
  }

  /** A value of the size of the field, with no bit above it, arrives unchanged. */
  lemma WholeValue(v: seq<byte>, value: seq<byte>, size: nat)
    requires |v| == |value| && forall p :: 0 <= p < 8 * |v| ==> FlatBit(v, p) == (p < size && FlatBit(value, p))
    requires forall p :: size <= p < 8 * |value| ==> !FlatBit(value, p)
    ensures v == value
  {
    forall b: nat | b < |v| ensures v[b] == value[b] {
      forall i: nat | i < 8 ensures Bit(v[b], i) == Bit(value[b], i) {
        var p := 8 * b + i;
        assert p / 8 == b && p % 8 == i;
        assert FlatBit(v, p) == (p < size && FlatBit(value, p));
        assert p >= size ==> !FlatBit(value, p);
      }
      SameBits(v[b], value[b]);
    }
  }

  lemma SameBits(x: byte, y: byte)
    requires forall i: nat :: i < 8 ==> Bit(x, i) == Bit(y, i)
    ensures x == y
  {
    assert Bit(x, 0) == Bit(y, 0) && Bit(x, 1) == Bit(y, 1) && Bit(x, 2) == Bit(y, 2) && Bit(x, 3) == Bit(y, 3);
    assert Bit(x, 4) == Bit(y, 4) && Bit(x, 5) == Bit(y, 5) && Bit(x, 6) == Bit(y, 6) && Bit(x, 7) == Bit(y, 7);
  }
}
